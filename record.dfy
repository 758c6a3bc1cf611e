/**
 * What the tables need of a record type `T`: serialization to bytes, which
 * may fail (`serde_cbor::to_vec`), deserialization, which may fail on bytes
 * it does not recognise (`serde_cbor::from_slice`), and `T::default()`.
 */
module Record {
  import opened Wrappers
  import opened KeyCodec

  datatype RecordType<!T> = RecordType(encode: T -> Option<Bytes>, decode: Bytes -> Option<T>, default: T)

  /** Whatever encodes decodes back to itself. */
  ghost predicate Lawful<T(!new)>(rt: RecordType<T>)
  {
    forall v :: rt.encode(v).Some? ==> rt.decode(rt.encode(v).value) == Some(v)
  }

  /** `serde_cbor::from_slice::<T>(b).unwrap_or_default()`. */
  function DecodeOrDefault<T>(rt: RecordType<T>, b: Bytes): T
  {
    match rt.decode(b)
    case Some(v) => v
    case None => rt.default
  }
}
