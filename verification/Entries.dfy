/**
 Sequences of (key, node) entries in strictly increasing key order: what the
 sleeping index of src/dyco_schedule.c holds, independent of its tree shape.
 */
module Entries {

  datatype Entry<+N> = Entry(key: nat, node: N)

  ghost predicate Sorted<N>(s: seq<Entry<N>>) {
    forall i, j :: 0 <= i < j < |s| ==> s[i].key < s[j].key
  }

  /** `k` is below every key of `s`, or above every key of `s`. */
  ghost predicate Below<N>(k: nat, s: seq<Entry<N>>) {
    forall i :: 0 <= i < |s| ==> k < s[i].key
  }

  ghost predicate Over<N>(s: seq<Entry<N>>, k: nat) {
    forall i :: 0 <= i < |s| ==> s[i].key < k
  }

  predicate HasKey<N>(s: seq<Entry<N>>, k: nat) {
    exists i :: 0 <= i < |s| && s[i].key == k
  }

  function InsertSorted<N>(s: seq<Entry<N>>, e: Entry<N>): seq<Entry<N>> {
    if s == [] then [e]
    else if e.key < s[0].key then [e] + s
    else [s[0]] + InsertSorted(s[1..], e)
  }

  function WithoutKey<N>(s: seq<Entry<N>>, k: nat): seq<Entry<N>> {
    if s == [] then []
    else if s[0].key == k then s[1..]
    else [s[0]] + WithoutKey(s[1..], k)
  }

  lemma SortedParts<N>(a: seq<Entry<N>>, b: seq<Entry<N>>)
    ensures Sorted(a + b) <==>
            Sorted(a) && Sorted(b) && forall i, j :: 0 <= i < |a| && 0 <= j < |b| ==> a[i].key < b[j].key
  {
    var s := a + b;
    assert forall i :: 0 <= i < |a| ==> s[i] == a[i];
    assert forall j :: 0 <= j < |b| ==> s[|a| + j] == b[j];
    if Sorted(s) {
      forall i, j | 0 <= i < |a| && 0 <= j < |b| ensures a[i].key < b[j].key {
        assert s[i].key < s[|a| + j].key;
      }
      forall i, j | 0 <= i < j < |b| ensures b[i].key < b[j].key {
        assert s[|a| + i].key < s[|a| + j].key;
      }
    }
  }

  lemma {:induction false} InsertBetween<N>(a: seq<Entry<N>>, e: Entry<N>, b: seq<Entry<N>>)
    requires Over(a, e.key) && Below(e.key, b)
    ensures InsertSorted(a + b, e) == a + [e] + b
  {
    if a == [] {
      assert a + b == b;
    } else {
      InsertBetween(a[1..], e, b);
      assert (a + b)[1..] == a[1..] + b;
    }
  }

  lemma SortedBetween<N>(a: seq<Entry<N>>, e: Entry<N>, b: seq<Entry<N>>)
    requires Sorted(a + b) && Over(a, e.key) && Below(e.key, b)
    ensures Sorted(a + [e] + b)
  {
    SortedParts(a, b);
    SortedParts(a, [e]);
    SortedParts(a + [e], b);
  }

  lemma {:induction false} RemoveBetween<N>(a: seq<Entry<N>>, e: Entry<N>, b: seq<Entry<N>>)
    requires Sorted(a + [e] + b)
    ensures WithoutKey(a + [e] + b, e.key) == a + b && Sorted(a + b)
    ensures Over(a, e.key) && Below(e.key, b)
  {
    SortedParts(a + [e], b);
    SortedParts(a, [e]);
    SortedParts(a, b);
    assert forall i :: 0 <= i < |a| ==> a[i].key < [e][0].key;
    assert forall j :: 0 <= j < |b| ==> (a + [e])[|a|].key < b[j].key;
    DropKey(a, e, b);
  }

  lemma {:induction false} DropKey<N>(a: seq<Entry<N>>, e: Entry<N>, b: seq<Entry<N>>)
    requires Over(a, e.key)
    ensures WithoutKey(a + [e] + b, e.key) == a + b
  {
    var s := a + [e] + b;
    if a == [] {
      assert s[1..] == b == a + b;
    } else {
      DropKey(a[1..], e, b);
      assert s[1..] == a[1..] + [e] + b;
      assert a + b == [a[0]] + (a[1..] + b);
    }
  }
}
