/**
 * Client runs against fresh in-memory partitions: each states what a caller
 * observes after a short sequence of table calls, using only the contracts
 * of the table operations.
 */
module Scenarios {
  import opened Wrappers
  import opened KeyCodec
  import opened Store
  import opened Record
  import EventTree
  import EventTreeVec

  /** A second `insert` at a key replaces the first. */
  method OverwriteScenario<T(!new)>(rt: RecordType<T>, k: u64, v1: T, v2: T) returns (r: Result<Option<T>>)
    requires Lawful(rt) && rt.encode(v1).Some? && rt.encode(v2).Some?
    ensures r == Ok(Some(v2))
  {
    var tree := new Tree();
    var table := new EventTree.SledEventTree(tree, rt);
    var _ := table.Insert(k, v1, false);
    var _ := table.Insert(k, v2, false);
    r := EventTree.Get(rt, tree.entries, k, false);
  }

  /** On an untouched key `get` returns `None` and `contains_key` false. */
  method AbsentKeyScenario<T(!new)>(rt: RecordType<T>, k: u64, other: u64, v: T)
    returns (got: Result<Option<T>>, present: Result<bool>)
    requires Lawful(rt) && rt.encode(v).Some? && k != other
    ensures got == Ok(None) && present == Ok(false)
  {
    var tree := new Tree();
    var table := new EventTree.SledEventTree(tree, rt);
    var _ := table.Insert(other, v, false);
    got := EventTree.Get(rt, tree.entries, k, false);
    present := EventTree.ContainsKey(tree.entries, k, false);
  }

  /** After inserting keys 0, 1 and 2, `get_next_key` returns 2, the last key in use. */
  method NextKeyScenario<T(!new)>(rt: RecordType<T>, v0: T, v1: T, v2: T) returns (next: u64)
    requires Lawful(rt) && rt.encode(v0).Some? && rt.encode(v1).Some? && rt.encode(v2).Some?
    ensures next == 2
  {
    var tree := new Tree();
    var table := new EventTree.SledEventTree(tree, rt);
    ghost var es0 := tree.entries;
    var _ := table.Insert(0, v0, false);
    ghost var es1 := tree.entries;
    var _ := table.Insert(1, v1, false);
    ghost var es2 := tree.entries;
    var _ := table.Insert(2, v2, false);
    var es := tree.entries;
    forall k: u64 ensures EventTree.Occupied(es, k) <==> k <= 2 {
      EventTree.OccupiedAfterUpsert(es0, 0, rt.encode(v0).value, k);
      EventTree.OccupiedAfterUpsert(es1, 1, rt.encode(v1).value, k);
      EventTree.OccupiedAfterUpsert(es2, 2, rt.encode(v2).value, k);
    }
    EventTree.NextKeyIsMaxOccupied(es, 2);
    next := EventTree.GetNextKey(es);
  }

  /** A record inserted into a fresh table is found by `get_key_by_value` and designated to its key. */
  method ValueLookupScenario<T(==,!new)>(rt: RecordType<T>, k: u64, v: T) returns (found: Result<Option<u64>>, designated: u64)
    requires Lawful(rt) && rt.encode(v).Some?
    ensures found == Ok(Some(k)) && designated == k
  {
    var tree := new Tree();
    var table := new EventTree.SledEventTree(tree, rt);
    var _ := table.Insert(k, v, false);
    var es := tree.entries;
    assert es == [Entry(KeyBytes(k), rt.encode(v).value)];
    assert EventTree.Matches(rt, es[0], v);
    KeyRoundTrip(k);
    assert es[0].key[..KEY_WIDTH] == es[0].key;
    found := EventTree.GetKeyByValue(rt, es, v);
    designated := EventTree.DesignatedKey(rt, es, v);
  }

  /** `put(k, [a, b])` then `push(k, c)` leaves `[a, b, c]`. */
  method PushScenario<T(!new)>(rt: RecordType<seq<T>>, k: u64, a: T, b: T, c: T) returns (r: Result<Option<seq<T>>>)
    requires Lawful(rt) && rt.encode([a, b]).Some? && rt.encode([a, b, c]).Some?
    ensures r == Ok(Some([a, b, c]))
  {
    var tree := new Tree();
    var table := new EventTreeVec.SledEventTreeVec(tree, rt);
    var _ := table.Put(k, [a, b], false);
    var _ := table.Push(k, c, false, false);
    assert [a, b] + [c] == [a, b, c];
    r := EventTreeVec.Get(rt, tree.entries, k, false);
  }

  /** A failed read inside `push` is taken for absence: the stored `[a, b]` is replaced by `[c]`. */
  method PushAfterReadFaultScenario<T(!new)>(rt: RecordType<seq<T>>, k: u64, a: T, b: T, c: T)
    returns (r: Result<Option<seq<T>>>)
    requires Lawful(rt) && rt.encode([a, b]).Some? && rt.encode([c]).Some?
    ensures r == Ok(Some([c]))
  {
    var tree := new Tree();
    var table := new EventTreeVec.SledEventTreeVec(tree, rt);
    var _ := table.Put(k, [a, b], false);
    var _ := table.Push(k, c, true, false);
    r := EventTreeVec.Get(rt, tree.entries, k, false);
  }

  /** `append(k, [a, b])` on an absent key stores `[a, b]` directly. */
  method AppendOnAbsentScenario<T(!new)>(rt: RecordType<seq<T>>, k: u64, a: T, b: T) returns (r: Result<Option<seq<T>>>)
    requires Lawful(rt) && rt.encode([a, b]).Some?
    ensures r == Ok(Some([a, b]))
  {
    var tree := new Tree();
    var table := new EventTreeVec.SledEventTreeVec(tree, rt);
    var _ := table.Append(k, [a, b], false, false);
    r := EventTreeVec.Get(rt, tree.entries, k, false);
  }

  /** `append(k, [b])` on a key holding `[a]` reports success and leaves `[a]` stored. */
  method AppendOnPresentScenario<T(!new)>(rt: RecordType<seq<T>>, k: u64, a: T, b: T)
    returns (appended: Result<()>, r: Result<Option<seq<T>>>)
    requires Lawful(rt) && rt.encode([a]).Some?
    ensures appended == Ok(()) && r == Ok(Some([a]))
  {
    var tree := new Tree();
    var table := new EventTreeVec.SledEventTreeVec(tree, rt);
    var _ := table.Put(k, [a], false);
    appended := table.Append(k, [b], false, false);
    r := EventTreeVec.Get(rt, tree.entries, k, false);
  }

  /** The corrected append on a key holding `[a]` leaves `[a, b]`. */
  method AppendPersistedScenario<T(!new)>(rt: RecordType<seq<T>>, k: u64, a: T, b: T)
    returns (appended: Result<()>, r: Result<Option<seq<T>>>)
    requires Lawful(rt) && rt.encode([a]).Some? && rt.encode([a, b]).Some?
    ensures appended == Ok(()) && r == Ok(Some([a, b]))
  {
    var tree := new Tree();
    var table := new EventTreeVec.SledEventTreeVec(tree, rt);
    var _ := table.Put(k, [a], false);
    appended := table.AppendPersisted(k, [b], false, false);
    assert [a] + [b] == [a, b];
    r := EventTreeVec.Get(rt, tree.entries, k, false);
  }
}
