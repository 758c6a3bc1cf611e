/**
 * `SledEventTree<T>`: one record per `u64` key. The read operations are
 * functions of the bound partition's current entries; `insert` is a method of
 * the table handle that changes the shared tree.
 */
module EventTree {
  import opened Wrappers
  import opened KeyCodec
  import opened Store
  import opened Record

  /** Every key was written by `key_bytes`: 8 bytes each, in sled's ascending order. */
  predicate WellKeyed(es: seq<Entry>)
  {
    Ascending(es) && forall i :: 0 <= i < |es| ==> |es[i].key| == KEY_WIDTH
  }

  /** `contains_key`: whether an entry is stored under the key. */
  function ContainsKey(es: seq<Entry>, id: u64, ioError: bool): (r: Result<bool>)
    ensures ioError <==> r == Err(StoreError)
    ensures r == Ok(true) <==> !ioError && exists i :: 0 <= i < |es| && es[i].key == KeyBytes(id)
    ensures !ioError ==> r == Ok(exists i :: 0 <= i < |es| && es[i].key == KeyBytes(id))
  {
    if ioError then Err(StoreError) else Ok(Find(es, KeyBytes(id)).Some?)
  }

  /** `get`: the stored record, `None` when absent, an error when the read or the decoding fails. */
  function Get<T(!new)>(rt: RecordType<T>, es: seq<Entry>, id: u64, ioError: bool): (r: Result<Option<T>>)
    ensures ioError <==> r == Err(StoreError)
    ensures r == Ok(None) <==> ContainsKey(es, id, ioError) == Ok(false)
    ensures r.Ok? && r.value.Some? ==> ContainsKey(es, id, ioError) == Ok(true)
    ensures r.Ok? && r.value.Some? ==> rt.decode(Find(es, KeyBytes(id)).value) == Some(r.value.value)
    ensures !ioError && Find(es, KeyBytes(id)).Some? && rt.decode(Find(es, KeyBytes(id)).value).Some? ==>
      r == Ok(rt.decode(Find(es, KeyBytes(id)).value))
    ensures r == Err(DecodeError) <==>
      ContainsKey(es, id, ioError) == Ok(true) && rt.decode(Find(es, KeyBytes(id)).value).None?
  {
    if ioError then Err(StoreError)
    else
      match Find(es, KeyBytes(id))
      case None => Ok(None)
      case Some(b) =>
        match rt.decode(b)
        case None => Err(DecodeError)
        case Some(v) => Ok(Some(v))
  }

  /** Inserting `v` at `key` makes `get(key)` return it and leaves every other key as it was. */
  lemma GetAfterUpsert<T(!new)>(rt: RecordType<T>, es: seq<Entry>, key: u64, v: T, id: u64)
    requires Ascending(es) && Lawful(rt) && rt.encode(v).Some?
    ensures Get(rt, Upsert(es, KeyBytes(key), rt.encode(v).value), id, false) ==
      if id == key then Ok(Some(v)) else Get(rt, es, id, false)
  {
    if id != key {
      KeyRoundTrip(id);
      KeyRoundTrip(key);
    }
  }

  /** Writing an encoded key keeps the partition well keyed. */
  lemma UpsertWellKeyed(es: seq<Entry>, key: u64, b: Bytes)
    requires WellKeyed(es)
    ensures WellKeyed(Upsert(es, KeyBytes(key), b))
  {
    var r := Upsert(es, KeyBytes(key), b);
    forall i | 0 <= i < |r| ensures |r[i].key| == KEY_WIDTH {
      assert r[i] in r;
    }
  }

  /** `iter`: the records that decode, in ascending key order; the rest are skipped. */
  function Iter<T(!new)>(rt: RecordType<T>, es: seq<Entry>): (vs: seq<T>)
    ensures |vs| <= |es|
    ensures forall v :: v in vs <==> exists i :: 0 <= i < |es| && rt.decode(es[i].value) == Some(v)
  {
    if es == [] then []
    else
      var rest := Iter(rt, es[1..]);
      assert forall i :: 0 < i < |es| ==> es[1..][i - 1] == es[i];
      match rt.decode(es[0].value)
      case Some(v) => [v] + rest
      case None => rest
  }

  /** Iteration follows the partition's order: a split partition iterates as its two halves in turn. */
  lemma {:induction false} IterConcat<T(!new)>(rt: RecordType<T>, es1: seq<Entry>, es2: seq<Entry>)
    ensures Iter(rt, es1 + es2) == Iter(rt, es1) + Iter(rt, es2)
  {
    if es1 != [] {
      var es := es1 + es2;
      assert es[0] == es1[0] && es[1..] == es1[1..] + es2;
      IterConcat(rt, es1[1..], es2);
      match rt.decode(es1[0].value)
      case Some(v) =>
        assert Iter(rt, es) == [v] + Iter(rt, es[1..]);
        assert Iter(rt, es1) == [v] + Iter(rt, es1[1..]);
      case None =>
        assert Iter(rt, es) == Iter(rt, es[1..]);
        assert Iter(rt, es1) == Iter(rt, es1[1..]);
    } else {
      assert es1 + es2 == es2;
    }
  }

  /** When every entry decodes, `iter` yields exactly one record per entry, in key order. */
  lemma {:induction false} IterAllDecodable<T(!new)>(rt: RecordType<T>, es: seq<Entry>)
    requires forall i :: 0 <= i < |es| ==> rt.decode(es[i].value).Some?
    ensures |Iter(rt, es)| == |es|
    ensures forall i :: 0 <= i < |es| ==> Some(Iter(rt, es)[i]) == rt.decode(es[i].value)
  {
    if es != [] {
      IterAllDecodable(rt, es[1..]);
    }
  }

  /**
   * The scan in `contains_value` calls `unwrap` on every entry it reaches:
   * each entry up to the first one equal to `v` must decode.
   */
  predicate ScanDecodes<T(==,!new)>(rt: RecordType<T>, es: seq<Entry>, v: T)
  {
    es == [] ||
    (rt.decode(es[0].value).Some? && (rt.decode(es[0].value).value == v || ScanDecodes(rt, es[1..], v)))
  }

  /** `contains_value`: whether some entry decodes to `v`. */
  function ContainsValue<T(==,!new)>(rt: RecordType<T>, es: seq<Entry>, v: T): (b: bool)
    requires ScanDecodes(rt, es, v)
    ensures b <==> exists i :: 0 <= i < |es| && rt.decode(es[i].value) == Some(v)
    ensures b <==> v in Iter(rt, es)
  {
    if es == [] then false
    else
      assert forall i :: 0 < i < |es| ==> es[1..][i - 1] == es[i];
      rt.decode(es[0].value).value == v || ContainsValue(rt, es[1..], v)
  }

  /** The comparison in `get_key_by_value`: undecodable entries count as `T::default()`. */
  predicate Matches<T(==,!new)>(rt: RecordType<T>, e: Entry, v: T)
  {
    DecodeOrDefault(rt, e.value) == v
  }

  /** `find` over the ascending entries: the position of the first match. */
  function FirstMatch<T(==,!new)>(rt: RecordType<T>, es: seq<Entry>, v: T): (r: Option<nat>)
    ensures r.Some? ==> r.value < |es| && Matches(rt, es[r.value], v)
    ensures r.Some? ==> forall j :: 0 <= j < r.value ==> !Matches(rt, es[j], v)
    ensures r.None? ==> forall j :: 0 <= j < |es| ==> !Matches(rt, es[j], v)
  {
    if es == [] then None
    else if Matches(rt, es[0], v) then Some(0)
    else
      match FirstMatch(rt, es[1..], v)
      case None => None
      case Some(i) => Some(i + 1)
  }

  /** `array_ref!` in `get_key_by_value` needs the matching store key to hold 8 bytes. */
  predicate KeyByValueDefined<T(==,!new)>(rt: RecordType<T>, es: seq<Entry>, v: T)
  {
    var m := FirstMatch(rt, es, v);
    m.Some? ==> |es[m.value].key| >= KEY_WIDTH
  }

  /** `get_key_by_value`: the key of the first entry (ascending) that compares equal to `v`. */
  function GetKeyByValue<T(==,!new)>(rt: RecordType<T>, es: seq<Entry>, v: T): (r: Result<Option<u64>>)
    requires KeyByValueDefined(rt, es, v)
    ensures r.Ok?
    ensures r.value.None? <==> forall i :: 0 <= i < |es| ==> !Matches(rt, es[i], v)
    ensures r.value.Some? ==>
      exists i ::
        && 0 <= i < |es| && Matches(rt, es[i], v)
        && (forall j :: 0 <= j < i ==> !Matches(rt, es[j], v))
        && KeyBytes(r.value.value) == es[i].key[..KEY_WIDTH]
  {
    match FirstMatch(rt, es, v)
    case None => Ok(None)
    case Some(i) => Ok(Some(DecodeKey(es[i].key)))
  }

  /** The entry stored under `k` compares equal to `v` under the `unwrap_or_default` policy. */
  predicate HoldsMatch<T(==,!new)>(rt: RecordType<T>, es: seq<Entry>, k: u64, v: T)
  {
    var f := Find(es, KeyBytes(k));
    f.Some? && DecodeOrDefault(rt, f.value) == v
  }

  /** In a well-keyed partition, the ordering lemma turns "first in the scan" into "smallest key". */
  lemma KeyByValueIsSmallest<T(!new)>(rt: RecordType<T>, es: seq<Entry>, v: T)
    requires WellKeyed(es)
    ensures var r := GetKeyByValue(rt, es, v).value;
      && (r.Some? ==> HoldsMatch(rt, es, r.value, v))
      && (r.Some? ==> forall k: u64 :: HoldsMatch(rt, es, k, v) ==> r.value <= k)
      && (r.None? ==> forall k: u64 :: !HoldsMatch(rt, es, k, v))
  {
    var r := GetKeyByValue(rt, es, v).value;
    match FirstMatch(rt, es, v)
    case None =>
    case Some(i) =>
      var key := es[i].key;
      assert key[..KEY_WIDTH] == key;
      FindAt(es, i);
      assert r == Some(DecodeKey(key));
      forall k: u64 | HoldsMatch(rt, es, k, v) ensures DecodeKey(key) <= k {
        var j :| 0 <= j < |es| && es[j] == Entry(KeyBytes(k), Find(es, KeyBytes(k)).value);
        assert Matches(rt, es[j], v);
        KeyRoundTrip(k);
        assert es[j].key[..KEY_WIDTH] == es[j].key;
        if j != i {
          assert i < j;
          DecodedKeyOrder(key, es[j].key);
        }
      }
  }

  /**
   * The `unwrap_or_default` policy: an entry that fails to decode is found
   * when looking up `T::default()`, though no entry decodes to it.
   */
  lemma DefaultMatchesUndecodable<T(!new)>(rt: RecordType<T>, es: seq<Entry>, i: nat)
    requires WellKeyed(es) && i < |es| && rt.decode(es[i].value).None?
    ensures var r := GetKeyByValue(rt, es, rt.default).value;
      r.Some? && r.value <= DecodeKey(es[i].key)
  {
    var key := es[i].key;
    assert key[..KEY_WIDTH] == key;
    FindAt(es, i);
    assert HoldsMatch(rt, es, DecodeKey(key), rt.default);
    KeyByValueIsSmallest(rt, es, rt.default);
  }

  /** `array_ref!` in `get_next_key` needs the last store key to hold 8 bytes. */
  predicate NextKeyDefined(es: seq<Entry>)
  {
    es != [] ==> |es[|es| - 1].key| >= KEY_WIDTH
  }

  /** `get_next_key`: the key of the last entry, or 0 for an empty partition. */
  function GetNextKey(es: seq<Entry>): (k: u64)
    requires NextKeyDefined(es)
    ensures es == [] ==> k == 0
    ensures es != [] ==> KeyBytes(k) == es[|es| - 1].key[..KEY_WIDTH]
  {
    if es == [] then 0 else DecodeKey(es[|es| - 1].key)
  }

  /** A stored key as `contains_key` sees it, without store failure. */
  predicate Occupied(es: seq<Entry>, k: u64)
  {
    ContainsKey(es, k, false) == Ok(true)
  }

  /**
   * `get_next_key` returns the largest stored key itself, not one past it:
   * the key it offers for a new entry is already occupied.
   */
  lemma NextKeyIsLastOccupied(es: seq<Entry>)
    requires WellKeyed(es) && es != []
    ensures Occupied(es, GetNextKey(es))
    ensures forall k: u64 :: Occupied(es, k) ==> k <= GetNextKey(es)
  {
    var last := es[|es| - 1].key;
    assert last[..KEY_WIDTH] == last;
    forall k: u64 | Occupied(es, k) ensures k <= GetNextKey(es) {
      var i :| 0 <= i < |es| && es[i].key == KeyBytes(k);
      KeyRoundTrip(k);
      assert es[i].key[..KEY_WIDTH] == es[i].key;
      KeyBelowLast(es, i);
    }
  }

  /** Every stored key decodes to at most the last one. */
  lemma KeyBelowLast(es: seq<Entry>, i: nat)
    requires WellKeyed(es) && i < |es|
    ensures DecodeKey(es[i].key) <= DecodeKey(es[|es| - 1].key)
  {
    if i < |es| - 1 {
      DecodedKeyOrder(es[i].key, es[|es| - 1].key);
    }
  }

  /** `get_next_key` is the largest occupied key: any occupied key bounding all others is it. */
  lemma NextKeyIsMaxOccupied(es: seq<Entry>, m: u64)
    requires WellKeyed(es) && Occupied(es, m)
    requires forall k: u64 :: Occupied(es, k) ==> k <= m
    ensures GetNextKey(es) == m
  {
    NextKeyIsLastOccupied(es);
  }

  /** Inserting at `key` occupies exactly that key in addition to those already occupied. */
  lemma OccupiedAfterUpsert(es: seq<Entry>, key: u64, b: Bytes, k: u64)
    requires Ascending(es)
    ensures Occupied(Upsert(es, KeyBytes(key), b), k) <==> k == key || Occupied(es, k)
  {
    if k != key {
      KeyRoundTrip(k);
      KeyRoundTrip(key);
    }
  }

  /** `get_next_key` cannot tell an empty partition from one holding only key 0. */
  lemma NextKeyZero(es: seq<Entry>)
    requires WellKeyed(es)
    ensures GetNextKey(es) == 0 <==> es == [] || (|es| == 1 && es[0].key == KeyBytes(0))
  {
    if es != [] {
      var n := |es|;
      var last := es[n - 1].key;
      assert last[..KEY_WIDTH] == last;
      if GetNextKey(es) == 0 {
        if n > 1 {
          DecodedKeyOrder(es[0].key, last);
          assert false;
        }
      } else if n == 1 && es[0].key == KeyBytes(0) {
        KeyRoundTrip(0);
      }
    }
  }

  /** `designated_key`: the key already holding `v`, else `get_next_key`. */
  function DesignatedKey<T(==,!new)>(rt: RecordType<T>, es: seq<Entry>, v: T): (k: u64)
    requires KeyByValueDefined(rt, es, v) && (FirstMatch(rt, es, v).None? ==> NextKeyDefined(es))
    ensures (forall i :: 0 <= i < |es| ==> !Matches(rt, es[i], v)) ==> k == GetNextKey(es)
    ensures (exists i :: 0 <= i < |es| && Matches(rt, es[i], v)) ==>
      exists i ::
        && 0 <= i < |es| && Matches(rt, es[i], v)
        && (forall j :: 0 <= j < i ==> !Matches(rt, es[j], v))
        && KeyBytes(k) == es[i].key[..KEY_WIDTH]
  {
    match GetKeyByValue(rt, es, v)
    case Ok(Some(k)) => k
    case _ => GetNextKey(es)
  }

  /** When some key holds `v`, `designated_key` is the smallest such key. */
  lemma DesignatedKeyFound<T(!new)>(rt: RecordType<T>, es: seq<Entry>, v: T, k: u64)
    requires WellKeyed(es) && HoldsMatch(rt, es, k, v)
    ensures HoldsMatch(rt, es, DesignatedKey(rt, es, v), v)
    ensures DesignatedKey(rt, es, v) <= k
  {
    KeyByValueIsSmallest(rt, es, v);
  }

  /**
   * For a value no entry holds, `designated_key` of a non-empty partition is
   * an occupied key: writing there replaces another record.
   */
  lemma DesignatedKeyForNewValue<T(!new)>(rt: RecordType<T>, es: seq<Entry>, v: T)
    requires WellKeyed(es) && es != []
    requires forall k: u64 :: !HoldsMatch(rt, es, k, v)
    ensures Occupied(es, DesignatedKey(rt, es, v))
    ensures forall k: u64 :: Occupied(es, k) ==> k <= DesignatedKey(rt, es, v)
  {
    KeyByValueIsSmallest(rt, es, v);
    NextKeyIsLastOccupied(es);
  }

  /** Replacing one entry by a matching one makes it the first match when nothing before it matches. */
  lemma FirstMatchAfterReplace<T(!new)>(rt: RecordType<T>, es: seq<Entry>, i: nat, e: Entry, v: T)
    requires i < |es| && Matches(rt, e, v)
    requires forall j :: 0 <= j < i ==> !Matches(rt, es[j], v)
    ensures FirstMatch(rt, es[i := e], v) == Some(i)
  {
    var es' := es[i := e];
    assert Matches(rt, es'[i], v);
    assert forall j :: 0 <= j < i ==> es'[j] == es[j];
  }

  /**
   * Get-or-allocate is stable: after storing `v` at `designated_key(v)`,
   * `designated_key(v)` names the same key again.
   */
  lemma DesignatedKeyStable<T(!new)>(rt: RecordType<T>, es: seq<Entry>, v: T)
    requires WellKeyed(es) && Lawful(rt) && rt.encode(v).Some?
    ensures var d := DesignatedKey(rt, es, v);
      var es' := Upsert(es, KeyBytes(d), rt.encode(v).value);
      WellKeyed(es') && DesignatedKey(rt, es', v) == d
  {
    var d := DesignatedKey(rt, es, v);
    var b := rt.encode(v).value;
    assert Matches(rt, Entry(KeyBytes(d), b), v);
    UpsertWellKeyed(es, d, b);
    var es' := Upsert(es, KeyBytes(d), b);
    if es == [] {
      assert es' == [Entry(KeyBytes(0), b)];
      assert FirstMatch(rt, es', v) == Some(0);
      KeyRoundTrip(0);
      assert es'[0].key[..KEY_WIDTH] == es'[0].key;
    } else {
      var i: nat := match FirstMatch(rt, es, v) case Some(m) => m case None => |es| - 1;
      var key := es[i].key;
      assert key[..KEY_WIDTH] == key;
      assert d == DecodeKey(key);
      UpsertExisting(es, i, b);
      FirstMatchAfterReplace(rt, es, i, Entry(key, b), v);
    }
  }

  /** A `SledEventTree<T>` handle bound to a partition. */
  class SledEventTree<T(!new)> {
    const tree: Tree
    const record: RecordType<T>

    ghost predicate Valid()
      reads tree
    {
      tree.Valid() && Lawful(record)
    }

    /** `new`: bind a table to an already opened partition. */
    constructor (tree: Tree, record: RecordType<T>)
      requires tree.Valid() && Lawful(record)
      ensures this.tree == tree && this.record == record
      ensures Valid()
    {
      this.tree := tree;
      this.record := record;
    }

    /** `insert`: store `value` at `key`, overwriting unconditionally. */
    method Insert(key: u64, value: T, ioError: bool) returns (r: Result<()>)
      requires Valid()
      modifies tree
      ensures Valid()
      ensures r == if record.encode(value).None? then Err(EncodeError)
                   else if ioError then Err(StoreError) else Ok(())
      ensures r.Ok? ==> tree.entries == Upsert(old(tree.entries), KeyBytes(key), record.encode(value).value)
      ensures r.Err? ==> tree.entries == old(tree.entries)
      ensures r.Ok? ==> Get(record, tree.entries, key, false) == Ok(Some(value))
      ensures forall id: u64 :: id != key ==>
        Get(record, tree.entries, id, false) == Get(record, old(tree.entries), id, false)
      ensures WellKeyed(old(tree.entries)) ==> WellKeyed(tree.entries)
    {
      var bytes := record.encode(value);
      if bytes.None? {
        return Err(EncodeError);
      }
      if ioError {
        return Err(StoreError);
      }
      ghost var before := tree.entries;
      tree.Insert(KeyBytes(key), bytes.value);
      forall id | true
        ensures Get(record, tree.entries, id, false) ==
          if id == key then Ok(Some(value)) else Get(record, before, id, false)
      {
        GetAfterUpsert(record, before, key, value, id);
      }
      if WellKeyed(before) {
        UpsertWellKeyed(before, key, bytes.value);
      }
      r := Ok(());
    }
  }
}
