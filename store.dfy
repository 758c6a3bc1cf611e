/**
 * The backing partition: one `sled::Tree`, an ordered map from byte keys to
 * byte values. Its contents are kept as the sequence of entries in ascending
 * key order, which is the order `Tree::iter` yields them and whose last
 * element is what `Tree::last` returns.
 */
module Store {
  import opened Wrappers
  import opened KeyCodec

  datatype Entry = Entry(key: Bytes, value: Bytes)

  /** Keys strictly ascend in byte order, so each key occurs once. */
  predicate Ascending(es: seq<Entry>)
  {
    forall i, j :: 0 <= i < j < |es| ==> LexLess(es[i].key, es[j].key)
  }

  /** `Tree::get`: the value stored under `key`, if any. */
  function Find(es: seq<Entry>, key: Bytes): (r: Option<Bytes>)
    ensures r.None? <==> forall i :: 0 <= i < |es| ==> es[i].key != key
    ensures r.Some? ==> exists i :: 0 <= i < |es| && es[i] == Entry(key, r.value)
  {
    if es == [] then None
    else if es[0].key == key then Some(es[0].value)
    else
      var r := Find(es[1..], key);
      assert r.Some? ==> exists i :: 0 <= i < |es| - 1 && es[1..][i] == Entry(key, r.value);
      r
  }

  /** In an ascending partition the entry holding a key is the one `Find` returns. */
  lemma {:induction false} FindAt(es: seq<Entry>, i: nat)
    requires Ascending(es) && i < |es|
    ensures Find(es, es[i].key) == Some(es[i].value)
  {
    if i > 0 {
      LexIrreflexive(es[i].key);
      assert es[0].key != es[i].key;
      FindAt(es[1..], i - 1);
    }
  }

  /** `Tree::insert`: store `value` under `key`, replacing any previous value. */
  function Upsert(es: seq<Entry>, key: Bytes, value: Bytes): (r: seq<Entry>)
    requires Ascending(es)
    ensures Ascending(r)
    ensures forall k :: Find(r, k) == if k == key then Some(value) else Find(es, k)
    ensures forall e :: e in r ==> e.key == key || e in es
  {
    if es == [] then [Entry(key, value)]
    else if es[0].key == key then [Entry(key, value)] + es[1..]
    else if LexLess(key, es[0].key) then
      assert forall j | 0 < j < |es| :: LexLess(key, es[j].key) by {
        forall j | 0 < j < |es| ensures LexLess(key, es[j].key) {
          LexTransitive(key, es[0].key, es[j].key);
        }
      }
      [Entry(key, value)] + es
    else
      LexTotal(key, es[0].key);
      var rest := Upsert(es[1..], key, value);
      assert forall e :: e in rest ==> LexLess(es[0].key, e.key);
      [es[0]] + rest
  }

  /** Writing a key beyond the first entry leaves that entry in front. */
  lemma UpsertPast(es: seq<Entry>, key: Bytes, value: Bytes)
    requires Ascending(es) && es != [] && LexLess(es[0].key, key)
    ensures Upsert(es, key, value) == [es[0]] + Upsert(es[1..], key, value)
  {
    LexAsymmetric(es[0].key, key);
    LexIrreflexive(key);
  }

  /** Replacing an element behind a fixed head leaves the head in place. */
  lemma UpdateBehindHead(es: seq<Entry>, i: nat, e: Entry)
    requires 0 < i < |es|
    ensures [es[0]] + es[1..][i - 1 := e] == es[i := e]
  {
  }

  /** Writing to the first key replaces the first entry. */
  lemma UpsertAtHead(es: seq<Entry>, value: Bytes)
    requires Ascending(es) && es != []
    ensures Upsert(es, es[0].key, value) == es[0 := Entry(es[0].key, value)]
  {
    assert [Entry(es[0].key, value)] + es[1..] == es[0 := Entry(es[0].key, value)];
  }

  /** Writing to a key already present replaces that entry where it stands. */
  lemma {:induction false} UpsertExisting(es: seq<Entry>, i: nat, value: Bytes)
    requires Ascending(es) && i < |es|
    ensures Upsert(es, es[i].key, value) == es[i := Entry(es[i].key, value)]
  {
    var key := es[i].key;
    if i == 0 {
      UpsertAtHead(es, value);
    } else {
      var e := Entry(key, value);
      assert Upsert(es, key, value) == [es[0]] + Upsert(es[1..], key, value) by {
        UpsertPast(es, key, value);
      }
      assert Upsert(es[1..], key, value) == es[1..][i - 1 := e] by {
        assert es[1..][i - 1] == es[i];
        UpsertExisting(es[1..], i - 1, value);
      }
      UpdateBehindHead(es, i, e);
    }
  }

  /** A `sled::Tree` handle; every table bound to it shares its contents. */
  class Tree {
    var entries: seq<Entry>

    ghost predicate Valid()
      reads this
    {
      Ascending(entries)
    }

    /** An empty partition. */
    constructor ()
      ensures Valid() && entries == []
    {
      entries := [];
    }

    method Insert(key: Bytes, value: Bytes)
      requires Valid()
      modifies this
      ensures Valid()
      ensures entries == Upsert(old(entries), key, value)
    {
      entries := Upsert(entries, key, value);
    }
  }
}
