/**
 * `SledEventTreeVec<T>`: one sequence of records per `u64` key, stored as a
 * single encoded `Vec<T>`. `get` reads the partition; `put`, `push` and
 * `append` are methods of the table handle that change the shared tree.
 */
module EventTreeVec {
  import opened Wrappers
  import opened KeyCodec
  import opened Store
  import opened Record
  import EventTree

  /**
   * `get`: the stored sequence. A failed store read is reported as absence,
   * never as an error; only a stored value that fails to decode is an error.
   */
  function Get<T(!new)>(rt: RecordType<seq<T>>, es: seq<Entry>, key: u64, ioError: bool): (r: Result<Option<seq<T>>>)
    ensures r.Err? ==> r.error == DecodeError
    ensures r == Err(DecodeError) <==>
      !ioError && Find(es, KeyBytes(key)).Some? && rt.decode(Find(es, KeyBytes(key)).value).None?
    ensures r == Ok(None) <==> ioError || Find(es, KeyBytes(key)).None?
    ensures r.Ok? && r.value.Some? ==>
      Find(es, KeyBytes(key)).Some? && rt.decode(Find(es, KeyBytes(key)).value) == Some(r.value.value)
  {
    if ioError then Ok(None)
    else
      match Find(es, KeyBytes(key))
      case None => Ok(None)
      case Some(b) =>
        match rt.decode(b)
        case None => Err(DecodeError)
        case Some(s) => Ok(Some(s))
  }

  /**
   * The vector `get` reads as the scalar `get` of the same partition, except
   * that a failed store read becomes `Ok(None)` instead of `StoreError`.
   */
  lemma GetAgreesWithScalar<T(!new)>(rt: RecordType<seq<T>>, es: seq<Entry>, key: u64, ioError: bool)
    ensures Get(rt, es, key, ioError) == if ioError then Ok(None) else EventTree.Get(rt, es, key, false)
  {
  }

  /** What `push` writes back, given what its `get` returned. */
  function Pushed<T>(prior: Result<Option<seq<T>>>, x: T): seq<T>
  {
    if prior.Ok? && prior.value.Some? then prior.value.value + [x] else [x]
  }

  /** A `SledEventTreeVec<T>` handle bound to a partition. */
  class SledEventTreeVec<T(!new)> {
    const tree: Tree
    const record: RecordType<seq<T>>

    ghost predicate Valid()
      reads tree
    {
      tree.Valid() && Lawful(record)
    }

    /** `new`: bind a table to an already opened partition. */
    constructor (tree: Tree, record: RecordType<seq<T>>)
      requires tree.Valid() && Lawful(record)
      ensures this.tree == tree && this.record == record
      ensures Valid()
    {
      this.tree := tree;
      this.record := record;
    }

    /** `put`: store the whole sequence at `key`, overwriting unconditionally. */
    method Put(key: u64, value: seq<T>, ioError: bool) returns (r: Result<()>)
      requires Valid()
      modifies tree
      ensures Valid()
      ensures r == if record.encode(value).None? then Err(EncodeError)
                   else if ioError then Err(StoreError) else Ok(())
      ensures r.Ok? ==> tree.entries == Upsert(old(tree.entries), KeyBytes(key), record.encode(value).value)
      ensures r.Err? ==> tree.entries == old(tree.entries)
      ensures r.Ok? ==> Get(record, tree.entries, key, false) == Ok(Some(value))
      ensures forall id: u64 :: id != key ==>
        Get(record, tree.entries, id, false) == Get(record, old(tree.entries), id, false)
      ensures EventTree.WellKeyed(old(tree.entries)) ==> EventTree.WellKeyed(tree.entries)
    {
      var bytes := record.encode(value);
      if bytes.None? {
        return Err(EncodeError);
      }
      if ioError {
        return Err(StoreError);
      }
      ghost var before := tree.entries;
      tree.Insert(KeyBytes(key), bytes.value);
      forall id: u64
        ensures Get(record, tree.entries, id, false) ==
          if id == key then Ok(Some(value)) else Get(record, before, id, false)
      {
        GetAgreesWithScalar(record, tree.entries, id, false);
        GetAgreesWithScalar(record, before, id, false);
        EventTree.GetAfterUpsert(record, before, key, value, id);
      }
      if EventTree.WellKeyed(before) {
        EventTree.UpsertWellKeyed(before, key, bytes.value);
      }
      r := Ok(());
    }

    /**
     * `push`: read the sequence at `key`, append `value`, write it back. When
     * the read yields nothing usable (absent, undecodable, or a failed store
     * read) the sequence written is `[value]` alone.
     */
    method Push(key: u64, value: T, readError: bool, writeError: bool) returns (r: Result<()>)
      requires Valid()
      modifies tree
      ensures Valid()
      ensures var stored := Pushed(old(Get(record, tree.entries, key, readError)), value);
        && r == (if record.encode(stored).None? then Err(EncodeError)
                 else if writeError then Err(StoreError) else Ok(()))
        && (r.Ok? ==> Get(record, tree.entries, key, false) == Ok(Some(stored)))
        && (r.Ok? ==> tree.entries == Upsert(old(tree.entries), KeyBytes(key), record.encode(stored).value))
      ensures r.Err? ==> tree.entries == old(tree.entries)
      ensures forall id: u64 :: id != key ==>
        Get(record, tree.entries, id, false) == Get(record, old(tree.entries), id, false)
      ensures EventTree.WellKeyed(old(tree.entries)) ==> EventTree.WellKeyed(tree.entries)
    {
      var prior := Get(record, tree.entries, key, readError);
      if prior.Ok? && prior.value.Some? {
        r := Put(key, prior.value.value + [value], writeError);
      } else {
        r := Put(key, [value], writeError);
      }
    }

    /**
     * `append` as written: on an absent (or unreadable) key it stores `value`
     * as it is; on a present key it extends only a local copy, so the tree is
     * left unchanged and the result is `Ok(())`.
     */
    method Append(key: u64, value: seq<T>, readError: bool, writeError: bool) returns (r: Result<()>)
      requires Valid()
      modifies tree
      ensures Valid()
      ensures var prior := old(Get(record, tree.entries, key, readError));
        prior.Ok? && prior.value.Some? ==> r == Ok(()) && tree.entries == old(tree.entries)
      ensures var prior := old(Get(record, tree.entries, key, readError));
        !(prior.Ok? && prior.value.Some?) ==>
          && r == (if record.encode(value).None? then Err(EncodeError)
                   else if writeError then Err(StoreError) else Ok(()))
          && (r.Ok? ==> Get(record, tree.entries, key, false) == Ok(Some(value)))
          && (r.Ok? ==> tree.entries == Upsert(old(tree.entries), KeyBytes(key), record.encode(value).value))
          && (r.Err? ==> tree.entries == old(tree.entries))
      ensures forall id: u64 :: id != key ==>
        Get(record, tree.entries, id, false) == Get(record, old(tree.entries), id, false)
      ensures EventTree.WellKeyed(old(tree.entries)) ==> EventTree.WellKeyed(tree.entries)
    {
      var prior := Get(record, tree.entries, key, readError);
      if prior.Ok? && prior.value.Some? {
        var extended := prior.value.value + value;
        r := Ok(());
      } else {
        r := Put(key, value, writeError);
      }
    }

    /**
     * `append` as its documentation describes it: the stored sequence is
     * extended by `value`, or `value` is stored as it is when none is present.
     */
    method AppendPersisted(key: u64, value: seq<T>, readError: bool, writeError: bool) returns (r: Result<()>)
      requires Valid()
      modifies tree
      ensures Valid()
      ensures var prior := old(Get(record, tree.entries, key, readError));
        var stored := if prior.Ok? && prior.value.Some? then prior.value.value + value else value;
        && r == (if record.encode(stored).None? then Err(EncodeError)
                 else if writeError then Err(StoreError) else Ok(()))
        && (r.Ok? ==> Get(record, tree.entries, key, false) == Ok(Some(stored)))
        && (r.Ok? ==> tree.entries == Upsert(old(tree.entries), KeyBytes(key), record.encode(stored).value))
      ensures r.Err? ==> tree.entries == old(tree.entries)
      ensures forall id: u64 :: id != key ==>
        Get(record, tree.entries, id, false) == Get(record, old(tree.entries), id, false)
      ensures EventTree.WellKeyed(old(tree.entries)) ==> EventTree.WellKeyed(tree.entries)
    {
      var prior := Get(record, tree.entries, key, readError);
      if prior.Ok? && prior.value.Some? {
        r := Put(key, prior.value.value + value, writeError);
      } else {
        r := Put(key, value, writeError);
      }
    }
  }
}
