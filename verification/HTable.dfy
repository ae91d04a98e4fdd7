/**
 The hash table of include/dyco/dyco_htable.h as a value: an array of buckets,
 each holding its first entry in place and the rest in a chain, with -1 marking
 an empty bucket. The operations do what the code does for every key; the
 refinement of a finite map is proved for all keys but -1, and for key 0 as long
 as the code treats it as a key.
 */
module HTableSpec {
  import opened Options
  import opened Powers

  /** A stored pointer; NULL is None. */
  type Ptr<+T> = Option<T>

  datatype Item<+T> = Item(id: int, data: Ptr<T>)

  datatype Bucket<+T> = Bucket(id: int, data: Ptr<T>, next: seq<Item<T>>)

  datatype Table<+T> = Table(width: nat, count: int, buckets: seq<Bucket<T>>)

  const MAX_WIDTH := 24
  const DEFAULT_WIDTH := 16

  function Items<T>(b: Bucket<T>): seq<Item<T>> {
    if b.id == -1 then [] else [Item(b.id, b.data)] + b.next
  }

  /** Position of the first item with the given id, or the length. */
  function IndexOf<T>(s: seq<Item<T>>, id: int): (i: nat)
    ensures i <= |s|
    ensures i < |s| ==> s[i].id == id
    ensures forall j :: 0 <= j < i ==> s[j].id != id
  {
    if s == [] then 0
    else if s[0].id == id then 0
    else
      var i := IndexOf(s[1..], id);
      assert forall j :: 0 < j < i + 1 ==> s[j] == s[1..][j - 1];
      i + 1
  }

  function FromItems<T>(s: seq<Item<T>>): Bucket<T> {
    if s == [] then Bucket(-1, None, []) else Bucket(s[0].id, s[0].data, s[1..])
  }

  /** What a key is mapped to by the first of some items that has it. */
  function FindIn<T>(s: seq<Item<T>>, id: int): Option<Ptr<T>> {
    if IndexOf(s, id) < |s| then Some(s[IndexOf(s, id)].data) else None
  }

  // ------------------------------------------------------------- operations

  function InsertBucket<T>(b: Bucket<T>, id: int, data: Ptr<T>): (Bucket<T>, bool) {
    var i := IndexOf(Items(b), id);
    if b.id == -1 then (Bucket(id, data, b.next), true)
    else if i == 0 then (b.(data := data), false)
    else if i < |Items(b)| then (b.(next := b.next[i - 1 := Item(id, data)]), false)
    else (b.(next := [Item(id, data)] + b.next), true)
  }

  function DeleteBucket<T>(b: Bucket<T>, id: int): Bucket<T> {
    var s := Items(b);
    var i := IndexOf(s, id);
    if i == |s| then b else FromItems(s[..i] + s[i + 1..])
  }

  function AllItems<T>(t: seq<Bucket<T>>): seq<Item<T>> {
    if t == [] then [] else Items(t[0]) + AllItems(t[1..])
  }

  /** What a resize starts from: only slot 0 is marked empty, the others hold id 0. */
  function Fresh<T>(n: nat): (t: seq<Bucket<T>>)
    requires n > 0
    ensures |t| == n
  {
    seq(n, i => if i == 0 then Bucket(-1, None, []) else Bucket(0, None, []))
  }

  function Place<T>(t: seq<Bucket<T>>, x: Item<T>): (r: seq<Bucket<T>>)
    requires t != []
    ensures |r| == |t|
  {
    var i := x.id % |t|;
    var b := t[i];
    if b.id == -1 then t[i := Bucket(x.id, x.data, b.next)] else t[i := b.(next := [x] + b.next)]
  }

  function PlaceAll<T>(t: seq<Bucket<T>>, s: seq<Item<T>>): (r: seq<Bucket<T>>)
    requires t != []
    ensures |r| == |t|
    decreases s
  {
    if s == [] then t else PlaceAll(Place(t, s[0]), s[1..])
  }

  lemma {:induction false} PlaceAllConcat<T>(t: seq<Bucket<T>>, a: seq<Item<T>>, b: seq<Item<T>>)
    requires t != []
    ensures PlaceAll(t, a + b) == PlaceAll(PlaceAll(t, a), b)
    decreases a
  {
    if a == [] {
      assert a + b == b;
    } else {
      assert (a + b)[0] == a[0] && (a + b)[1..] == a[1..] + b;
      PlaceAllConcat(Place(t, a[0]), a[1..], b);
    }
  }

  predicate Sized<T>(h: Table<T>) {
    |h.buckets| == Pow2(h.width)
  }

  /** htable_resize: the new table, or the old one when the width is refused. */
  function Resize<T>(h: Table<T>, width: nat): (r: (Table<T>, bool))
    ensures r.1 ==> Sized(r.0) && r.0.width == width
    ensures !r.1 ==> r.0 == h
  {
    if width == h.width || width > MAX_WIDTH then (h, false)
    else (Table(width, h.count, PlaceAll(Fresh(Pow2(width)), AllItems(h.buckets))), true)
  }

  function Init<T>(width: int): Table<T> {
    var w := if width <= 0 then DEFAULT_WIDTH else if width > MAX_WIDTH then MAX_WIDTH else width;
    Table(w, 0, seq(Pow2(w), i => Bucket(-1, None, [])))
  }

  /** The end of an insertion that added an entry: a full table is resized. */
  function Grow<T>(h: Table<T>): (r: (Table<T>, int))
    requires Sized(h)
    ensures Sized(r.0)
  {
    if (|h.buckets| - 1) * 2 == h.count then
      var (h', ok) := Resize(h, h.width + 1);
      (h', if ok then 1 else -1)
    else (h, 1)
  }

  /** The entry stored or its value replaced, before any resize. */
  function Store<T>(h: Table<T>, id: int, data: Ptr<T>): (r: (Table<T>, bool))
    requires Sized(h)
    ensures Sized(r.0)
  {
    var i := id % |h.buckets|;
    var (b, isNew) := InsertBucket(h.buckets[i], id, data);
    (h.(buckets := h.buckets[i := b], count := if isNew then h.count + 1 else h.count), isNew)
  }

  /** htable_insert: 1 for a new key, 0 for a replaced value, -1 when the resize is refused. */
  function Insert<T>(h: Table<T>, id: int, data: Ptr<T>): (r: (Table<T>, int))
    requires Sized(h)
    ensures Sized(r.0)
  {
    var (h', isNew) := Store(h, id, data);
    if isNew then Grow(h') else (h', 0)
  }

  /** htable_find and htable_contains. */
  function Lookup<T>(h: Table<T>, id: int): Option<Ptr<T>>
    requires Sized(h)
  {
    var s := Items(h.buckets[id % |h.buckets|]);
    var i := IndexOf(s, id);
    if i < |s| then Some(s[i].data) else None
  }

  /** htable_delete: 0 with the removed value, or -1. */
  function Delete<T>(h: Table<T>, id: int): (r: (Table<T>, int))
    requires Sized(h)
    ensures Sized(r.0)
  {
    var i := id % |h.buckets|;
    var b := h.buckets[i];
    if IndexOf(Items(b), id) == |Items(b)| then (h, -1)
    else (h.(buckets := h.buckets[i := DeleteBucket(b, id)], count := h.count - 1), 0)
  }

  lemma {:induction false} IndexUnique<T>(s: seq<Item<T>>, id: int, i: nat)
    requires i <= |s| && (i < |s| ==> s[i].id == id) && (forall j :: 0 <= j < i ==> s[j].id != id)
    ensures i == IndexOf(s, id)
  {
  }

  lemma Unchain<T>(b: Bucket<T>, i: nat)
    requires b.id != -1 && i <= |b.next|
    ensures i == 0 ==> Items(b)[..i] + Items(b)[i + 1..] == b.next
    ensures i > 0 ==> FromItems(Items(b)[..i] + Items(b)[i + 1..]) == b.(next := b.next[..i - 1] + b.next[i..])
  {
  }

  // --------------------------------------------------- refinement of a map

  /**
   What id 0 means. In a table that was never resized it is a key like any other. The
   first resize fills all slots but 0 with placeholders of id 0, so it is still a key in
   its own slot; from the second on placeholders are in slot 0 too.
   */
  datatype Phase = Clean | Early | Late

  predicate ZeroKey(p: Phase, i: int) {
    p.Clean? || (p.Early? && i == 0)
  }

  /** An item is an entry, and not a placeholder; `z` says whether id 0 is a key here. */
  predicate Entry(id: int, z: bool) {
    id != 0 || z
  }

  predicate Usable(k: int, p: Phase) {
    k != -1 && Entry(k, !p.Late?)
  }

  predicate Plain(id: int) {
    id != 0 && id != -1
  }

  /** Only placeholders may occur twice. */
  ghost predicate NoDup<T>(s: seq<Item<T>>, z: bool) {
    forall i, j :: 0 <= i < j < |s| && s[i].id == s[j].id ==> !Entry(s[i].id, z)
  }

  /** The items of slot `i` of `n` are exactly the keys of `m` that hash to it, and placeholders. */
  ghost predicate ItemsRel<T>(s: seq<Item<T>>, i: int, n: nat, m: map<int, Ptr<T>>, z: bool)
    requires n > 0
  {
    && NoDup(s, z)
    && (forall x :: x in s ==> x.id != -1 && (Entry(x.id, z) ==> x.id % n == i && x.id in m && m[x.id] == x.data))
    && (forall k :: k in m && k % n == i ==> Item(k, m[k]) in s)
  }

  ghost predicate BucketRel<T>(b: Bucket<T>, i: int, n: nat, m: map<int, Ptr<T>>, z: bool)
    requires n > 0
  {
    (b.id == -1 ==> b.next == []) && ItemsRel(Items(b), i, n, m, z)
  }

  ghost predicate Rel<T>(t: seq<Bucket<T>>, m: map<int, Ptr<T>>, p: Phase) {
    && t != [] && (forall k :: k in m ==> Usable(k, p))
    && forall i :: 0 <= i < |t| ==> BucketRel(t[i], i, |t|, m, ZeroKey(p, i))
  }

  /** A table that represents the finite map `m`. */
  ghost predicate Models<T>(h: Table<T>, m: map<int, Ptr<T>>, p: Phase) {
    Sized(h) && Rel(h.buckets, m, p) && h.count == |m| && 0 < h.width <= MAX_WIDTH
  }

  lemma {:induction false} BucketIndex<T>(b: Bucket<T>, i: int, n: nat, m: map<int, Ptr<T>>, k: int, z: bool)
    requires n > 0 && BucketRel(b, i, n, m, z) && Entry(k, z) && k % n == i
    ensures IndexOf(Items(b), k) < |Items(b)| <==> k in m
    ensures k in m ==> Items(b)[IndexOf(Items(b), k)] == Item(k, m[k])
  {
  }

  /** A usable key counts as one in the slot it hashes to. */
  lemma KeyEntry(k: int, n: nat, p: Phase)
    requires n > 0 && Usable(k, p)
    ensures Entry(k, ZeroKey(p, k % n))
  {
    assert 0 % n == 0;
  }

  lemma RelAt<T>(t: seq<Bucket<T>>, m: map<int, Ptr<T>>, i: nat, p: Phase)
    requires Rel(t, m, p) && i < |t|
    ensures BucketRel(t[i], i, |t|, m, ZeroKey(p, i))
  {
  }

  lemma BucketFinds<T>(b: Bucket<T>, n: nat, m: map<int, Ptr<T>>, k: int, z: bool)
    requires n > 0 && BucketRel(b, k % n, n, m, z) && Entry(k, z)
    ensures FindIn(Items(b), k) == if k in m then Some(m[k]) else None
  {
    BucketIndex(b, k % n, n, m, k, z);
  }

  /** Find and contains answer as the map does. */
  lemma LookupRefines<T>(h: Table<T>, m: map<int, Ptr<T>>, k: int, p: Phase)
    requires Models(h, m, p) && Usable(k, p)
    ensures Lookup(h, k) == if k in m then Some(m[k]) else None
  {
    var n := |h.buckets|;
    RelAt(h.buckets, m, k % n, p);
    KeyEntry(k, n, p);
    BucketFinds(h.buckets[k % n], n, m, k, ZeroKey(p, k % n));
    assert Lookup(h, k) == FindIn(Items(h.buckets[k % n]), k);
  }

  lemma ReplaceItem<T>(s: seq<Item<T>>, j: nat, n: nat, m: map<int, Ptr<T>>, k: int, d: Ptr<T>, z: bool)
    requires n > 0 && ItemsRel(s, k % n, n, m, z) && k != -1 && Entry(k, z) && j < |s| && s[j].id == k
    ensures ItemsRel(s[j := Item(k, d)], k % n, n, m[k := d], z)
  {
    var s', m' := s[j := Item(k, d)], m[k := d];
    forall x | x in s'
      ensures x.id != -1 && (Entry(x.id, z) ==> x.id % n == k % n && x.id in m' && m'[x.id] == x.data)
    {
      var l :| 0 <= l < |s'| && s'[l] == x;
      if l != j { assert s[l] in s && s[l].id != k; }
    }
    forall q | q in m' && q % n == k % n ensures Item(q, m'[q]) in s' {
      if q != k {
        var l :| 0 <= l < |s| && s[l] == Item(q, m[q]);
        assert s'[l] == Item(q, m[q]);
      } else {
        assert s'[j] == Item(k, d);
      }
    }
  }

  lemma AddNoDup<T>(a: seq<Item<T>>, x: Item<T>, b: seq<Item<T>>, z: bool)
    requires NoDup(a + b, z) && (!Entry(x.id, z) || forall y :: y in a + b ==> y.id != x.id)
    ensures NoDup(a + [x] + b, z)
  {
    var s, s' := a + b, a + [x] + b;
    forall i, j | 0 <= i < j < |s'| && s'[i].id == s'[j].id ensures !Entry(s'[i].id, z) {
      assert i != |a| ==> s'[i] == s[if i > |a| then i - 1 else i] && s'[i] in s;
      assert j != |a| ==> s'[j] == s[if j > |a| then j - 1 else j] && s'[j] in s;
    }
  }

  /** A key that is not there may go in at any place. */
  lemma AddItem<T>(a: seq<Item<T>>, b: seq<Item<T>>, n: nat, m: map<int, Ptr<T>>, k: int, d: Ptr<T>, z: bool)
    requires n > 0 && ItemsRel(a + b, k % n, n, m, z) && k != -1 && Entry(k, z) && k !in m
    ensures ItemsRel(a + [Item(k, d)] + b, k % n, n, m[k := d], z)
  {
    var s, s', m' := a + b, a + [Item(k, d)] + b, m[k := d];
    assert forall x :: x in s ==> x.id != k;
    AddNoDup(a, Item(k, d), b, z);
    assert forall x :: x in s' <==> x == Item(k, d) || x in s;
    forall q | q in m' && q % n == k % n ensures Item(q, m'[q]) in s' {
      assert q != k ==> Item(q, m[q]) in s;
    }
  }

  lemma DropItem<T>(a: seq<Item<T>>, x: Item<T>, b: seq<Item<T>>, n: nat, m: map<int, Ptr<T>>, z: bool)
    requires n > 0 && ItemsRel(a + [x] + b, x.id % n, n, m, z) && Entry(x.id, z)
    ensures ItemsRel(a + b, x.id % n, n, m - {x.id}, z)
  {
    var s, s', m' := a + [x] + b, a + b, m - {x.id};
    assert s[|a|] == x;
    forall i, j | 0 <= i < j < |s'| && s'[i].id == s'[j].id ensures !Entry(s'[i].id, z) {
      assert s'[i] == s[if i >= |a| then i + 1 else i] && s'[j] == s[if j >= |a| then j + 1 else j];
    }
    forall y | y in s' ensures y in s && y.id != x.id {
      var l :| 0 <= l < |s'| && s'[l] == y;
      assert s[if l >= |a| then l + 1 else l] == y;
    }
    assert forall y :: y in s <==> y == x || y in s';
    forall q | q in m' && q % n == x.id % n ensures Item(q, m'[q]) in s' {
      assert Item(q, m[q]) in s;
    }
  }

  /** What an insertion does to the items of a bucket. */
  lemma {:induction false} InsertShape<T>(b: Bucket<T>, k: int, d: Ptr<T>)
    requires (b.id == -1 ==> b.next == []) && k != -1
    ensures var s, i := Items(b), IndexOf(Items(b), k);
            var (b', isNew) := InsertBucket(b, k, d);
            && b'.id != -1 && (isNew <==> i == |s|)
            && (i < |s| ==> Items(b') == s[i := Item(k, d)])
            && (i == |s| && b.id == -1 ==> s == [] && Items(b') == [Item(k, d)])
            && (i == |s| && b.id != -1 ==> s == [s[0]] + b.next && Items(b') == [s[0]] + [Item(k, d)] + b.next)
  {
    var i := IndexOf(Items(b), k);
    var b' := InsertBucket(b, k, d).0;
    if b.id != -1 && 0 < i < |Items(b)| {
      assert Items(b') == [Item(b.id, b.data)] + b.next[i - 1 := Item(k, d)];
    }
  }

  lemma InsertItems<T>(b: Bucket<T>, s': seq<Item<T>>, n: nat, m: map<int, Ptr<T>>, k: int, d: Ptr<T>, z: bool)
    requires n > 0 && ItemsRel(Items(b), k % n, n, m, z) && k != -1 && Entry(k, z) && k !in m
    requires b.id == -1 ==> s' == [Item(k, d)]
    requires b.id != -1 ==> s' == [Items(b)[0]] + [Item(k, d)] + b.next
    ensures ItemsRel(s', k % n, n, m[k := d], z)
  {
    var s := Items(b);
    if b.id == -1 {
      assert [] + [] == s && s' == [] + [Item(k, d)] + [];
      AddItem([], [], n, m, k, d, z);
    } else {
      AddItem([s[0]], b.next, n, m, k, d, z);
    }
  }

  lemma InsertBucketRel<T>(b: Bucket<T>, n: nat, m: map<int, Ptr<T>>, k: int, d: Ptr<T>, z: bool)
    requires n > 0 && BucketRel(b, k % n, n, m, z) && k != -1 && Entry(k, z)
    ensures BucketRel(InsertBucket(b, k, d).0, k % n, n, m[k := d], z)
    ensures InsertBucket(b, k, d).1 <==> k !in m
  {
    InsertShape(b, k, d);
    BucketIndex(b, k % n, n, m, k, z);
    if k in m {
      ReplaceItem(Items(b), IndexOf(Items(b), k), n, m, k, d, z);
    } else {
      InsertItems(b, Items(InsertBucket(b, k, d).0), n, m, k, d, z);
    }
  }

  lemma DropAt<T>(s: seq<Item<T>>, i: nat, n: nat, m: map<int, Ptr<T>>, z: bool)
    requires n > 0 && i < |s| && ItemsRel(s, s[i].id % n, n, m, z) && Entry(s[i].id, z)
    ensures BucketRel(FromItems(s[..i] + s[i + 1..]), s[i].id % n, n, m - {s[i].id}, z)
  {
    assert s == s[..i] + [s[i]] + s[i + 1..];
    DropItem(s[..i], s[i], s[i + 1..], n, m, z);
    ItemsBack(s[..i] + s[i + 1..], s[i].id % n, n, m - {s[i].id}, z);
  }

  lemma DeleteBucketRel<T>(b: Bucket<T>, n: nat, m: map<int, Ptr<T>>, k: int, z: bool)
    requires n > 0 && BucketRel(b, k % n, n, m, z) && Entry(k, z) && k in m
    ensures BucketRel(DeleteBucket(b, k), k % n, n, m - {k}, z)
  {
    BucketIndex(b, k % n, n, m, k, z);
    DropAt(Items(b), IndexOf(Items(b), k), n, m, z);
  }

  /** Items put back into a bucket are what it then holds. */
  lemma ItemsBack<T>(s: seq<Item<T>>, i: int, n: nat, m: map<int, Ptr<T>>, z: bool)
    requires n > 0 && ItemsRel(s, i, n, m, z)
    ensures BucketRel(FromItems(s), i, n, m, z)
  {
    assert s != [] ==> s[0] in s;
    assert Items(FromItems(s)) == s;
  }

  /** A bucket that `k` does not hash to ignores changes of `m` at `k`. */
  lemma OtherBucket<T>(b: Bucket<T>, i: int, n: nat, m: map<int, Ptr<T>>, m': map<int, Ptr<T>>, k: int, z: bool)
    requires n > 0 && BucketRel(b, i, n, m, z) && k % n != i && m - {k} == m' - {k}
    ensures BucketRel(b, i, n, m', z)
  {
    assert forall j :: j != k ==> (j in m <==> j in m - {k}) && (j in m' <==> j in m' - {k});
    assert forall j :: j != k && j in m ==> m[j] == (m - {k})[j] && j in m' && m'[j] == (m' - {k})[j];
  }

  lemma UpdateRel<T>(t: seq<Bucket<T>>, m: map<int, Ptr<T>>, m': map<int, Ptr<T>>, k: int, b: Bucket<T>, p: Phase)
    requires Rel(t, m, p) && Usable(k, p) && m - {k} == m' - {k}
    requires BucketRel(b, k % |t|, |t|, m', ZeroKey(p, k % |t|))
    ensures Rel(t[k % |t| := b], m', p)
  {
    var t' := t[k % |t| := b];
    forall i | 0 <= i < |t'| ensures BucketRel(t'[i], i, |t'|, m', ZeroKey(p, i)) {
      if i != k % |t| { OtherBucket(t[i], i, |t|, m, m', k, ZeroKey(p, i)); }
    }
    forall j | j in m' ensures Usable(j, p) {
      if j != k { assert j in m' - {k}; }
    }
  }

  // ----------------------------------------------------------------- resize

  /** `m` extended by the items that are entries. */
  ghost function Gather<T>(m: map<int, Ptr<T>>, s: seq<Item<T>>, z: bool): map<int, Ptr<T>>
    decreases s
  {
    if s == [] then m else Gather(if Entry(s[0].id, z) then m[s[0].id := s[0].data] else m, s[1..], z)
  }

  lemma AddZero<T>(a: seq<Item<T>>, b: seq<Item<T>>, d: Ptr<T>, i: int, n: nat, m: map<int, Ptr<T>>)
    requires n > 0 && ItemsRel(a + b, i, n, m, false)
    ensures ItemsRel(a + [Item(0, d)] + b, i, n, m, false)
  {
    var s, s' := a + b, a + [Item(0, d)] + b;
    AddNoDup(a, Item(0, d), b, false);
    assert forall x :: x in s' <==> x == Item(0, d) || x in s;
  }

  lemma PlaceItems<T>(t: seq<Bucket<T>>, x: Item<T>) returns (a: seq<Item<T>>, c: seq<Item<T>>)
    requires t != [] && x.id != -1 && (t[x.id % |t|].id == -1 ==> t[x.id % |t|].next == [])
    ensures var i := x.id % |t|;
            && Items(t[i]) == a + c && Items(Place(t, x)[i]) == a + [x] + c
            && Place(t, x)[i].id != -1 && Place(t, x) == t[i := Place(t, x)[i]]
  {
    var b := t[x.id % |t|];
    a, c := if b.id == -1 then [] else [Item(b.id, b.data)], if b.id == -1 then [] else b.next;
  }

  lemma PlaceRel<T>(t: seq<Bucket<T>>, m: map<int, Ptr<T>>, x: Item<T>, p: Phase)
    requires !p.Clean? && Rel(t, m, p) && x.id != -1 && x.id !in m
    ensures Rel(Place(t, x), if Entry(x.id, p.Early?) then m[x.id := x.data] else m, p)
  {
    var i := x.id % |t|;
    RelAt(t, m, i, p);
    if Entry(x.id, p.Early?) { KeyEntry(x.id, |t|, p); }
    var a, c := PlaceItems(t, x);
    if Entry(x.id, p.Early?) {
      AddItem(a, c, |t|, m, x.id, x.data, ZeroKey(p, i));
      assert m[x.id := x.data] - {x.id} == m - {x.id};
      UpdateRel(t, m, m[x.id := x.data], x.id, Place(t, x)[i], p);
    } else {
      AddZero(a, c, x.data, i, |t|, m);
    }
  }

  lemma {:induction false} PlaceAllRel<T>(t: seq<Bucket<T>>, m: map<int, Ptr<T>>, s: seq<Item<T>>, p: Phase)
    requires !p.Clean? && Rel(t, m, p) && NoDup(s, p.Early?) && (forall x :: x in s ==> x.id != -1 && x.id !in m)
    ensures Rel(PlaceAll(t, s), Gather(m, s, p.Early?), p)
    decreases s
  {
    if s != [] {
      var m' := if Entry(s[0].id, p.Early?) then m[s[0].id := s[0].data] else m;
      PlaceRel(t, m, s[0], p);
      assert forall i :: 0 <= i < |s[1..]| ==> s[1..][i] == s[i + 1];
      PlaceAllRel(Place(t, s[0]), m', s[1..], p);
    }
  }

  lemma {:induction false} GatherContents<T>(m: map<int, Ptr<T>>, s: seq<Item<T>>, z: bool)
    requires NoDup(s, z) && (forall x :: x in s ==> x.id !in m)
    ensures forall k :: k in Gather(m, s, z) <==> k in m || (Entry(k, z) && exists x :: x in s && x.id == k)
    ensures forall k :: k in m ==> k in Gather(m, s, z) && Gather(m, s, z)[k] == m[k]
    ensures forall x :: x in s && Entry(x.id, z) ==> x.id in Gather(m, s, z) && Gather(m, s, z)[x.id] == x.data
    decreases s
  {
    if s != [] {
      assert forall i :: 0 <= i < |s[1..]| ==> s[1..][i] == s[i + 1];
      GatherContents(if Entry(s[0].id, z) then m[s[0].id := s[0].data] else m, s[1..], z);
      assert s == [s[0]] + s[1..];
      assert forall x :: x in s <==> x == s[0] || x in s[1..];
    }
  }

  /** The items of buckets `lo` and up: no entry twice, none from the slots below. */
  ghost predicate ItemsFrom<T>(s: seq<Item<T>>, n: nat, m: map<int, Ptr<T>>, lo: nat, z: bool)
    requires n > 0
  {
    && NoDup(s, z)
    && (forall x :: x in s ==> x.id != -1 && (Entry(x.id, z) ==> x.id % n >= lo && x.id in m && m[x.id] == x.data))
    && (forall k :: k in m && k % n >= lo ==> Item(k, m[k]) in s)
  }

  lemma AddBucketItems<T>(a: seq<Item<T>>, b: seq<Item<T>>, n: nat, m: map<int, Ptr<T>>, lo: nat, z: bool)
    requires n > 0 && ItemsRel(a, lo, n, m, z) && ItemsFrom(b, n, m, lo + 1, z)
    ensures ItemsFrom(a + b, n, m, lo, z)
  {
  }

  lemma {:induction false} AllItemsStep<T>(t: seq<Bucket<T>>, lo: nat)
    requires lo < |t|
    ensures AllItems(t[lo..]) == Items(t[lo]) + AllItems(t[lo + 1..])
  {
    assert t[lo..][1..] == t[lo + 1..];
  }

  lemma {:induction false} NoItemsLeft<T>(t: seq<Bucket<T>>, m: map<int, Ptr<T>>, z: bool)
    requires t != []
    ensures ItemsFrom(AllItems(t[|t|..]), |t|, m, |t|, z)
  {
    assert t[|t|..] == [];
  }

  /** All slots alike: id 0 is a key everywhere, or nowhere. */
  ghost predicate Uniform<T>(t: seq<Bucket<T>>, m: map<int, Ptr<T>>, z: bool) {
    && t != [] && (forall k :: k in m ==> k != -1 && Entry(k, z))
    && forall i :: 0 <= i < |t| ==> BucketRel(t[i], i, |t|, m, z)
  }

  lemma {:induction false} AllItemsRel<T>(t: seq<Bucket<T>>, m: map<int, Ptr<T>>, lo: nat, z: bool)
    requires Uniform(t, m, z) && lo <= |t|
    ensures ItemsFrom(AllItems(t[lo..]), |t|, m, lo, z)
    decreases |t| - lo
  {
    if lo < |t| {
      AllItemsRel(t, m, lo + 1, z);
      AllItemsStep(t, lo);
      assert BucketRel(t[lo], lo, |t|, m, z);
      AddBucketItems(Items(t[lo]), AllItems(t[lo + 1..]), |t|, m, lo, z);
    } else {
      NoItemsLeft(t, m, z);
    }
  }

  lemma FreshRel<T>(n: nat, p: Phase)
    requires n > 0 && !p.Clean?
    ensures Rel(Fresh<T>(n), map[], p)
  {
    forall i | 0 <= i < n ensures BucketRel(Fresh<T>(n)[i], i, n, map[], ZeroKey(p, i)) {
    }
  }

  lemma {:induction false} GatherAll<T>(t: seq<Bucket<T>>, m: map<int, Ptr<T>>, z: bool)
    requires Uniform(t, m, z)
    ensures Gather(map[], AllItems(t), z) == m
    ensures NoDup(AllItems(t), z) && forall x :: x in AllItems(t) ==> x.id != -1
  {
    var s := AllItems(t);
    assert t[0..] == t;
    AllItemsRel(t, m, 0, z);
    GatherMap(m, s, |t|, z);
  }

  lemma {:induction false} GatherMap<T>(m: map<int, Ptr<T>>, s: seq<Item<T>>, n: nat, z: bool)
    requires n > 0 && ItemsFrom(s, n, m, 0, z) && (forall k :: k in m ==> Entry(k, z))
    ensures Gather(map[], s, z) == m
  {
    GatherContents(map[], s, z);
    var g := Gather(map[], s, z);
    forall k | k in m ensures k in g && g[k] == m[k] {
      assert Item(k, m[k]) in s;
    }
    forall k | k in g ensures k in m {
      var x :| x in s && x.id == k;
    }
  }

  function Grown(p: Phase): Phase {
    if p.Clean? then Early else Late
  }

  lemma WeakenBucket<T>(b: Bucket<T>, i: int, n: nat, m: map<int, Ptr<T>>, z: bool)
    requires n > 0 && BucketRel(b, i, n, m, z) && 0 !in m
    ensures BucketRel(b, i, n, m, false)
  {
  }

  /** Moving every entry to a fresh table of any size keeps the map, unless placeholders join a stored key 0. */
  lemma {:induction false} RehashRel<T>(t: seq<Bucket<T>>, m: map<int, Ptr<T>>, n: nat, p: Phase)
    requires Rel(t, m, p) && n > 0 && (p.Early? ==> 0 !in m)
    ensures Rel(PlaceAll(Fresh(n), AllItems(t)), m, Grown(p))
  {
    var z := p.Clean?;
    assert Uniform(t, m, z) by {
      forall i | 0 <= i < |t| ensures BucketRel(t[i], i, |t|, m, z) {
        assert BucketRel(t[i], i, |t|, m, ZeroKey(p, i));
        if p.Early? { WeakenBucket(t[i], i, |t|, m, ZeroKey(p, i)); }
      }
    }
    GatherAll(t, m, z);
    FreshRel<T>(n, Grown(p));
    PlaceAllRel(Fresh(n), map[], AllItems(t), Grown(p));
  }

  // ------------------------------------------------------- whole operations

  /** Below the greatest width the table never gets as full as the resize limit. */
  ghost predicate Roomy<T>(h: Table<T>) {
    h.width < MAX_WIDTH ==> h.count < 2 * (Pow2(h.width) - 1)
  }

  lemma PutRel<T>(t: seq<Bucket<T>>, m: map<int, Ptr<T>>, k: int, d: Ptr<T>, p: Phase)
    requires Rel(t, m, p) && Usable(k, p)
    ensures Rel(t[k % |t| := InsertBucket(t[k % |t|], k, d).0], m[k := d], p)
    ensures InsertBucket(t[k % |t|], k, d).1 <==> k !in m
  {
    var b := t[k % |t|];
    RelAt(t, m, k % |t|, p);
    KeyEntry(k, |t|, p);
    InsertBucketRel(b, |t|, m, k, d, ZeroKey(p, k % |t|));
    var b' := InsertBucket(b, k, d).0;
    assert m[k := d] - {k} == m - {k};
    UpdateRel(t, m, m[k := d], k, b', p);
  }

  lemma {:induction false} TakeRel<T>(t: seq<Bucket<T>>, m: map<int, Ptr<T>>, k: int, p: Phase)
    requires Rel(t, m, p) && Usable(k, p)
    ensures IndexOf(Items(t[k % |t|]), k) < |Items(t[k % |t|])| <==> k in m
    ensures k in m ==> Rel(t[k % |t| := DeleteBucket(t[k % |t|], k)], m - {k}, p)
  {
    var b, z := t[k % |t|], ZeroKey(p, k % |t|);
    RelAt(t, m, k % |t|, p);
    KeyEntry(k, |t|, p);
    BucketIndex(b, k % |t|, |t|, m, k, z);
    if k in m {
      DeleteBucketRel(b, |t|, m, k, z);
      UpdateRel(t, m, m - {k}, k, DeleteBucket(b, k), p);
    }
  }

  lemma MapSizes<A, B>(m: map<A, B>, k: A, v: B)
    ensures |m[k := v]| == |m| + (if k in m then 0 else 1)
    ensures |m - {k}| == |m| - (if k in m then 1 else 0)
    ensures k !in m ==> m - {k} == m
  {
    assert m[k := v].Keys == m.Keys + {k};
    assert (m - {k}).Keys == m.Keys - {k};
  }

  /** The phase after an operation that may have resized the table. */
  function After<T>(h: Table<T>, h': Table<T>, p: Phase): Phase {
    if h'.width == h.width then p else Grown(p)
  }

  /** A second resize does not meet a stored key 0. */
  ghost predicate Resizable<T>(h: Table<T>, h': Table<T>, m: map<int, Ptr<T>>, p: Phase) {
    p.Early? && h'.width != h.width ==> 0 !in m
  }

  lemma GrowRefines<T>(h: Table<T>, m: map<int, Ptr<T>>, p: Phase)
    requires Models(h, m, p) && Resizable(h, Grow(h).0, m, p)
    requires h.width < MAX_WIDTH ==> h.count <= 2 * (Pow2(h.width) - 1)
    ensures var (h', r) := Grow(h);
            && Models(h', m, After(h, h', p)) && Roomy(h') && (r == 1 || r == -1)
            && h.width <= h'.width <= h.width + 1
            && (r == -1 <==> h.width == MAX_WIDTH && |m| == 2 * (Pow2(MAX_WIDTH) - 1))
  {
    if (|h.buckets| - 1) * 2 == h.count && h.width < MAX_WIDTH {
      RehashRel(h.buckets, m, Pow2(h.width + 1), p);
    }
  }

  lemma StoreRefines<T>(h: Table<T>, m: map<int, Ptr<T>>, k: int, d: Ptr<T>, p: Phase)
    requires Models(h, m, p) && Usable(k, p)
    ensures var (h', isNew) := Store(h, k, d);
            && Models(h', m[k := d], p) && (isNew <==> k !in m)
            && h'.width == h.width && h'.count == |m[k := d]| == |m| + (if isNew then 1 else 0)
  {
    PutRel(h.buckets, m, k, d, p);
    MapSizes(m, k, d);
  }

  lemma InsertRefines<T>(h: Table<T>, m: map<int, Ptr<T>>, k: int, d: Ptr<T>, p: Phase)
    requires Models(h, m, p) && Roomy(h) && Usable(k, p) && Resizable(h, Insert(h, k, d).0, m[k := d], p)
    ensures var (h', r) := Insert(h, k, d);
            && Models(h', m[k := d], After(h, h', p)) && Roomy(h') && h.width <= h'.width <= h.width + 1
            && (r == 0 <==> k in m)
            && (r == -1 <==> k !in m && h.width == MAX_WIDTH && |m| + 1 == 2 * (Pow2(MAX_WIDTH) - 1))
            && -1 <= r <= 1
  {
    StoreRefines(h, m, k, d, p);
    if k !in m { GrowRefines(Store(h, k, d).0, m[k := d], p); }
  }

  lemma DeleteRefines<T>(h: Table<T>, m: map<int, Ptr<T>>, k: int, p: Phase)
    requires Models(h, m, p) && Roomy(h) && Usable(k, p)
    ensures var (h', r) := Delete(h, k);
            && Models(h', m - {k}, p) && Roomy(h') && h'.width == h.width
            && r == if k in m then 0 else -1
  {
    TakeRel(h.buckets, m, k, p);
    MapSizes(m, k, None);
  }

  lemma InitModels<T>(width: int, p: Phase)
    ensures Models(Init<T>(width), map[], p) && Roomy(Init<T>(width))
  {
    var h := Init<T>(width);
    Pow2Mono(1, h.width);
    forall i | 0 <= i < |h.buckets| ensures BucketRel(h.buckets[i], i, |h.buckets|, map[], ZeroKey(p, i)) {
    }
  }

  // -------------------------------------------------------------- whole runs

  datatype Op<+T> = Put(id: int, data: Ptr<T>) | Remove(id: int) | Get(id: int)

  datatype Answer<+T> = Code(ret: int) | Found(data: Option<Ptr<T>>)

  function Step<T>(h: Table<T>, op: Op<T>): (r: (Table<T>, Answer<T>))
    requires Sized(h)
    ensures Sized(r.0)
  {
    match op
    case Put(id, data) => var (h', r) := Insert(h, id, data); (h', Code(r))
    case Remove(id) => var (h', r) := Delete(h, id); (h', Code(r))
    case Get(id) => (h, Found(Lookup(h, id)))
  }

  function Run<T>(h: Table<T>, ops: seq<Op<T>>): (t: Table<T>)
    requires Sized(h)
    ensures Sized(t)
    decreases ops
  {
    if ops == [] then h else Run(Step(h, ops[0]).0, ops[1..])
  }

  function Apply<T>(m: map<int, Ptr<T>>, op: Op<T>): map<int, Ptr<T>> {
    match op
    case Put(id, data) => m[id := data]
    case Remove(id) => m - {id}
    case Get(id) => m
  }

  /** What a finite map answers; the refused resize shows only as -1 from an insertion. */
  ghost predicate Agrees<T>(m: map<int, Ptr<T>>, op: Op<T>, a: Answer<T>) {
    match op
    case Put(id, data) => a.Code? && -1 <= a.ret <= 1 && (a.ret == 0 <==> id in m)
                          && (a.ret == -1 ==> |m| + 1 == 2 * (Pow2(MAX_WIDTH) - 1))
    case Remove(id) => a == Code(if id in m then 0 else -1)
    case Get(id) => a == Found(if id in m then Some(m[id]) else None)
  }

  /** Every answer is the map's, the count is its size, and below the greatest width the table has room. */
  ghost predicate RunAgrees<T>(h: Table<T>, m: map<int, Ptr<T>>, ops: seq<Op<T>>)
    requires Sized(h)
    decreases ops
  {
    && h.count == |m| && Roomy(h)
    && (ops != [] ==>
          var (h', a) := Step(h, ops[0]);
          Agrees(m, ops[0], a) && RunAgrees(h', Apply(m, ops[0]), ops[1..]))
  }

  /** Key -1 is not used, and key 0 only up to the second resize, which does not find it stored. */
  ghost predicate Admissible<T>(h: Table<T>, m: map<int, Ptr<T>>, op: Op<T>, base: nat)
    requires Sized(h)
  {
    && op.id != -1 && (op.id == 0 ==> h.width < base + 2)
    && (h.width < base + 2 <= Step(h, op).0.width ==> 0 !in Apply(m, op))
  }

  ghost predicate AllAdmissible<T>(h: Table<T>, m: map<int, Ptr<T>>, ops: seq<Op<T>>, base: nat)
    requires Sized(h)
    decreases ops
  {
    ops == [] ||
    (Admissible(h, m, ops[0], base) && AllAdmissible(Step(h, ops[0]).0, Apply(m, ops[0]), ops[1..], base))
  }

  function PhaseAt(width: nat, base: nat): Phase {
    if width <= base then Clean else if width == base + 1 then Early else Late
  }

  lemma StepRefines<T>(h: Table<T>, m: map<int, Ptr<T>>, op: Op<T>, p: Phase)
    requires Models(h, m, p) && Roomy(h) && Usable(op.id, p) && Resizable(h, Step(h, op).0, Apply(m, op), p)
    ensures var (h', a) := Step(h, op);
            && Models(h', Apply(m, op), After(h, h', p)) && Roomy(h') && Agrees(m, op, a)
            && h.width <= h'.width <= h.width + 1
  {
    match op {
      case Put(id, data) => InsertRefines(h, m, id, data, p);
      case Remove(id) => DeleteRefines(h, m, id, p);
      case Get(id) => LookupRefines(h, m, id, p);
    }
  }

  lemma WidthStep<T>(h: Table<T>, op: Op<T>)
    requires Sized(h)
    ensures h.width <= Step(h, op).0.width <= h.width + 1
  {
  }

  lemma PhaseStep<T>(h: Table<T>, m: map<int, Ptr<T>>, op: Op<T>, base: nat)
    requires Sized(h) && base <= h.width && Admissible(h, m, op, base)
    ensures var p, h' := PhaseAt(h.width, base), Step(h, op).0;
            && Usable(op.id, p) && Resizable(h, h', Apply(m, op), p)
            && base <= h'.width && PhaseAt(h'.width, base) == After(h, h', p)
  {
    WidthStep(h, op);
  }

  lemma {:induction false} RunRefines<T>(h: Table<T>, m: map<int, Ptr<T>>, ops: seq<Op<T>>, base: nat)
    requires base <= h.width && Models(h, m, PhaseAt(h.width, base)) && Roomy(h) && AllAdmissible(h, m, ops, base)
    ensures RunAgrees(h, m, ops)
    decreases ops
  {
    if ops != [] {
      PhaseStep(h, m, ops[0], base);
      StepRefines(h, m, ops[0], PhaseAt(h.width, base));
      RunRefines(Step(h, ops[0]).0, Apply(m, ops[0]), ops[1..], base);
    }
  }

  /**
   Every sequence of operations answers as a finite map, for all keys but -1, where key
   0 may be used up to the second resize and must be gone when that comes.
   */
  lemma {:induction false} TableIsMap<T>(width: int, ops: seq<Op<T>>)
    requires AllAdmissible(Init<T>(width), map[], ops, Init<T>(width).width)
    ensures RunAgrees(Init<T>(width), map[], ops)
  {
    InitModels<T>(width, Clean);
    RunRefines(Init<T>(width), map[], ops, Init<T>(width).width);
  }

  lemma {:induction false} PlainAdmissible<T>(h: Table<T>, m: map<int, Ptr<T>>, ops: seq<Op<T>>, base: nat)
    requires Sized(h) && 0 !in m && (forall i :: 0 <= i < |ops| ==> Plain(ops[i].id))
    ensures AllAdmissible(h, m, ops, base)
    decreases ops
  {
    if ops != [] {
      assert Plain(ops[0].id);
      PlainAdmissible(Step(h, ops[0]).0, Apply(m, ops[0]), ops[1..], base);
    }
  }

  /** In particular for keys other than 0 and -1, through any number of resizes. */
  lemma {:induction false} PlainTableIsMap<T>(width: int, ops: seq<Op<T>>)
    requires forall i :: 0 <= i < |ops| ==> Plain(ops[i].id)
    ensures RunAgrees(Init<T>(width), map[], ops)
  {
    PlainAdmissible(Init<T>(width), map[], ops, Init<T>(width).width);
    TableIsMap(width, ops);
  }
}
