/**
 The two keys that the hash table of include/dyco/dyco_htable.h cannot hold as it
 holds others: 0, which a resize leaves behind, and -1, which marks an empty slot.
 */
module HTableKeys {
  import opened Options
  import opened Powers
  import opened HTableSpec

  ghost predicate HasZero<T>(s: seq<Item<T>>) {
    exists x :: x in s && x.id == 0
  }

  /**
   Where id 0 sits in a table that only ever saw plain keys: nowhere; after one
   resize at the head of every slot but 0; after two or more also in slot 0.
   */
  ghost predicate ZeroPhase<T>(t: seq<Bucket<T>>, resizes: nat) {
    && |t| >= 2
    && (resizes == 0 ==> forall i :: 0 <= i < |t| ==> !HasZero(Items(t[i])))
    && (resizes == 1 ==> !HasZero(Items(t[0])) && forall i :: 0 < i < |t| ==> t[i].id == 0)
    && (resizes >= 2 ==> HasZero(Items(t[0])))
  }

  lemma BucketZero<T>(b: Bucket<T>, k: int, d: Ptr<T>)
    requires Plain(k)
    ensures HasZero(Items(InsertBucket(b, k, d).0)) <==> HasZero(Items(b)) || (b.id == -1 && HasZero(b.next))
    ensures b.id == 0 ==> InsertBucket(b, k, d).0.id == 0
  {
  }

  lemma {:induction false} DropZero<T>(s: seq<Item<T>>, i: nat)
    requires i < |s| && s[i].id != 0
    ensures HasZero(s[..i] + s[i + 1..]) <==> HasZero(s)
  {
    var r := s[..i] + s[i + 1..];
    assert forall x :: x in s <==> x == s[i] || x in r by {
      assert s == s[..i] + [s[i]] + s[i + 1..];
    }
  }

  lemma BucketZeroDelete<T>(b: Bucket<T>, k: int)
    requires Plain(k) && (b.id == -1 ==> b.next == []) && (forall x :: x in b.next ==> x.id != -1)
    ensures HasZero(Items(DeleteBucket(b, k))) <==> HasZero(Items(b))
    ensures b.id == 0 ==> DeleteBucket(b, k).id == 0
  {
    var s, i := Items(b), IndexOf(Items(b), k);
    if i < |s| {
      assert b.next != [] ==> b.next[0] in b.next;
      DeleteItems(b, k);
      DropZero(s, i);
      Unchain(b, i);
    }
  }

  lemma PlaceZero<T>(t: seq<Bucket<T>>, x: Item<T>)
    requires t != [] && (t[0].id == -1 ==> t[0].next == []) && x.id != -1
    ensures var r := Place(t, x);
            && (HasZero(Items(r[0])) <==> HasZero(Items(t[0])) || x.id == 0)
            && (r[0].id == -1 ==> r[0].next == [])
            && (forall i :: 0 < i < |t| && t[i].id == 0 ==> r[i].id == 0)
  {
    var i := x.id % |t|;
    assert x.id == 0 ==> i == 0;
    if i == 0 { PlacedItems(t[0], x); }
  }

  /** An item placed in a bucket is there with those that were. */
  lemma PlacedItems<T>(b: Bucket<T>, x: Item<T>)
    ensures HasZero([Item(x.id, x.data)] + b.next) <==> x.id == 0 || HasZero(b.next)
    ensures HasZero([Item(b.id, b.data)] + ([x] + b.next)) <==> b.id == 0 || x.id == 0 || HasZero(b.next)
    ensures HasZero([Item(b.id, b.data)] + b.next) <==> b.id == 0 || HasZero(b.next)
  {
    ZeroCons(Item(x.id, x.data), b.next);
    ZeroCons(x, b.next);
    ZeroCons(Item(b.id, b.data), b.next);
    ZeroCons(Item(b.id, b.data), [x] + b.next);
  }

  lemma ZeroCons<T>(x: Item<T>, s: seq<Item<T>>)
    ensures HasZero([x] + s) <==> x.id == 0 || HasZero(s)
  {
    assert forall y :: y in [x] + s <==> y == x || y in s;
  }

  lemma {:induction false} PlaceAllZero<T>(t: seq<Bucket<T>>, s: seq<Item<T>>)
    requires t != [] && (t[0].id == -1 ==> t[0].next == []) && (forall x :: x in s ==> x.id != -1)
    ensures var r := PlaceAll(t, s);
            && (HasZero(Items(r[0])) <==> HasZero(Items(t[0])) || HasZero(s))
            && (forall i :: 0 < i < |t| && t[i].id == 0 ==> r[i].id == 0)
    decreases s
  {
    if s != [] {
      assert s[0] in s && s == [s[0]] + s[1..];
      assert forall x :: x in s <==> x == s[0] || x in s[1..];
      PlaceZero(t, s[0]);
      PlaceAllZero(Place(t, s[0]), s[1..]);
    }
  }

  lemma {:induction false} AllItemsMember<T>(t: seq<Bucket<T>>, x: Item<T>)
    ensures x in AllItems(t) <==> exists i :: 0 <= i < |t| && x in Items(t[i])
  {
    if t != [] {
      AllItemsMember(t[1..], x);
      if i :| 0 <= i < |t| && x in Items(t[i]) {
        if i > 0 { assert x in Items(t[1..][i - 1]); }
      }
      if i :| 0 <= i < |t[1..]| && x in Items(t[1..][i]) { assert x in Items(t[i + 1]); }
    }
  }

  lemma {:induction false} RehashZero<T>(t: seq<Bucket<T>>, m: map<int, Ptr<T>>, n: nat, resizes: nat)
    requires Rel(t, m, Late) && ZeroPhase(t, resizes) && n >= 2
    ensures ZeroPhase(PlaceAll(Fresh(n), AllItems(t)), resizes + 1)
  {
    var s := AllItems(t);
    GatherAll(t, m, false);
    PlaceAllZero(Fresh<T>(n), s);
    assert HasZero(s) <==> resizes >= 1 by {
      if resizes == 0 {
        if HasZero(s) { var x :| x in s && x.id == 0; AllItemsMember(t, x); }
      } else if resizes == 1 {
        AllItemsMember(t, Item(0, t[1].data));
        assert Items(t[1])[0] == Item(0, t[1].data);
      } else {
        var x :| x in Items(t[0]) && x.id == 0;
        AllItemsMember(t, x);
      }
    }
  }

  lemma UpdateZero<T>(t: seq<Bucket<T>>, i: nat, b: Bucket<T>, resizes: nat)
    requires ZeroPhase(t, resizes) && i < |t|
    requires (HasZero(Items(b)) <==> HasZero(Items(t[i]))) && (t[i].id == 0 ==> b.id == 0)
    ensures ZeroPhase(t[i := b], resizes)
  {
  }

  lemma PutZero<T>(t: seq<Bucket<T>>, m: map<int, Ptr<T>>, k: int, d: Ptr<T>, resizes: nat)
    requires Rel(t, m, Late) && ZeroPhase(t, resizes) && Plain(k)
    ensures ZeroPhase(t[k % |t| := InsertBucket(t[k % |t|], k, d).0], resizes)
  {
    var b := t[k % |t|];
    assert BucketRel(b, k % |t|, |t|, m, false);
    BucketZero(b, k, d);
    UpdateZero(t, k % |t|, InsertBucket(b, k, d).0, resizes);
  }

  lemma TakeZero<T>(t: seq<Bucket<T>>, m: map<int, Ptr<T>>, k: int, resizes: nat)
    requires Rel(t, m, Late) && ZeroPhase(t, resizes) && Plain(k)
    ensures ZeroPhase(t[k % |t| := DeleteBucket(t[k % |t|], k)], resizes)
  {
    var b := t[k % |t|];
    assert BucketRel(b, k % |t|, |t|, m, false);
    assert b.id != -1 ==> forall x :: x in b.next ==> x in Items(b);
    BucketZeroDelete(b, k);
    UpdateZero(t, k % |t|, DeleteBucket(b, k), resizes);
  }

  lemma GrowZero<T>(h: Table<T>, m: map<int, Ptr<T>>, base: nat)
    requires Models(h, m, Late) && base <= h.width && ZeroPhase(h.buckets, h.width - base)
    ensures var h' := Grow(h).0; base <= h'.width && ZeroPhase(h'.buckets, h'.width - base)
  {
    Pow2Mono(1, h.width + 1);
    RehashZero(h.buckets, m, Pow2(h.width + 1), h.width - base);
  }

  lemma StepZero<T>(h: Table<T>, m: map<int, Ptr<T>>, op: Op<T>, base: nat)
    requires Models(h, m, Late) && Roomy(h) && Plain(op.id)
    requires base <= h.width && ZeroPhase(h.buckets, h.width - base)
    ensures var h' := Step(h, op).0; base <= h'.width && ZeroPhase(h'.buckets, h'.width - base)
  {
    match op {
      case Get(id) =>
      case Remove(id) => TakeZero(h.buckets, m, id, h.width - base);
      case Put(id, data) =>
        PutZero(h.buckets, m, id, data, h.width - base);
        StoreRefines(h, m, id, data, Late);
        GrowZero(Store(h, id, data).0, m[id := data], base);
    }
  }

  lemma {:induction false} RunZero<T>(h: Table<T>, m: map<int, Ptr<T>>, ops: seq<Op<T>>, base: nat)
    requires Models(h, m, Late) && Roomy(h) && (forall i :: 0 <= i < |ops| ==> Plain(ops[i].id))
    requires base <= h.width && ZeroPhase(h.buckets, h.width - base)
    ensures var h' := Run(h, ops); Sized(h') && base <= h'.width && ZeroPhase(h'.buckets, h'.width - base)
    decreases ops
  {
    if ops != [] {
      StepRefines(h, m, ops[0], Late);
      StepZero(h, m, ops[0], base);
      RunZero(Step(h, ops[0]).0, Apply(m, ops[0]), ops[1..], base);
    }
  }

  lemma LookupZero<T>(h: Table<T>, resizes: nat)
    requires Sized(h) && ZeroPhase(h.buckets, resizes)
    ensures Lookup(h, 0).Some? <==> resizes >= 2
  {
  }

  /** Key 0, never inserted, is reported present exactly from the second resize on. */
  lemma {:induction false} ZeroAppears<T>(width: int, ops: seq<Op<T>>)
    requires forall i :: 0 <= i < |ops| ==> Plain(ops[i].id)
    ensures var h := Run(Init<T>(width), ops);
            Sized(h) && (Lookup(h, 0).Some? <==> h.width >= Init<T>(width).width + 2)
  {
    var h0 := Init<T>(width);
    InitModels<T>(width, Late);
    assert ZeroPhase(h0.buckets, 0) by { Pow2Mono(1, h0.width); }
    RunZero(h0, map[], ops, h0.width);
    LookupZero(Run(h0, ops), Run(h0, ops).width - h0.width);
  }

  // -------------------------------------------------------------------- key -1

  /** A deletion promotes a chained -1 to the slot, which then reads as empty. */
  predicate Exposes<T>(b: Bucket<T>, k: int) {
    b.id == k && b.next != [] && b.next[0].id == -1
  }

  lemma ItemsRound<T>(r: seq<Item<T>>)
    requires r != [] ==> r[0].id != -1
    ensures Items(FromItems(r)) == r
  {
  }

  /** Any other deletion takes the one item out of the bucket. */
  lemma {:induction false} DeleteItems<T>(b: Bucket<T>, k: int)
    requires IndexOf(Items(b), k) < |Items(b)| && !Exposes(b, k)
    ensures var s, i := Items(b), IndexOf(Items(b), k);
            Items(DeleteBucket(b, k)) == s[..i] + s[i + 1..]
  {
    var s, i := Items(b), IndexOf(Items(b), k);
    var r := s[..i] + s[i + 1..];
    if i == 0 {
      assert r == b.next;
    } else {
      assert r[0] == s[0];
    }
    ItemsRound(r);
  }

  /** Taking out an item does not change what other keys are mapped to. */
  lemma {:induction false} DropFind<T>(s: seq<Item<T>>, i: nat, id: int)
    requires i < |s| && s[i].id != id
    ensures FindIn(s[..i] + s[i + 1..], id) == FindIn(s, id)
  {
    var r, j := s[..i] + s[i + 1..], IndexOf(s, id);
    if j < i {
      IndexUnique(r, id, j);
    } else if j < |s| {
      IndexUnique(r, id, j - 1);
    }
  }

  lemma DeleteExposed<T>(b: Bucket<T>, k: int)
    requires Exposes(b, k) && k != -1
    ensures Items(DeleteBucket(b, k)) == [] && FindIn(Items(b), -1) == Some(b.next[0].data)
  {
    IndexUnique(Items(b), k, 0);
    IndexUnique(Items(b), -1, 1);
    Unchain(b, 0);
  }

  lemma {:induction false} DeleteFind<T>(b: Bucket<T>, k: int, x: int)
    requires x != k && IndexOf(Items(b), k) < |Items(b)| && !Exposes(b, k)
    ensures FindIn(Items(DeleteBucket(b, k)), x) == FindIn(Items(b), x)
  {
    DeleteItems(b, k);
    DropFind(Items(b), IndexOf(Items(b), k), x);
  }

  // Every stored key is in the slot it hashes to, the placeholder 0 apart.

  ghost predicate InSlot<T>(b: Bucket<T>, i: int, n: nat)
    requires n > 0
  {
    && (b.id != 0 && b.id != -1 ==> b.id % n == i)
    && (forall x :: x in b.next && x.id != 0 ==> x.id % n == i)
  }

  ghost predicate InSlots<T>(t: seq<Bucket<T>>) {
    forall i :: 0 <= i < |t| ==> InSlot(t[i], i, |t|)
  }

  lemma InsertInSlot<T>(b: Bucket<T>, n: nat, k: int, d: Ptr<T>)
    requires n > 0 && InSlot(b, k % n, n)
    ensures InSlot(InsertBucket(b, k, d).0, k % n, n)
  {
    var s, i, b' := b.next, IndexOf(Items(b), k), InsertBucket(b, k, d).0;
    if b.id != -1 && 0 < i < |Items(b)| {
      assert b'.next == s[i - 1 := Item(k, d)];
      forall x | x in b'.next ensures x == Item(k, d) || x in s {
      }
    } else {
      forall x | x in b'.next ensures x == Item(k, d) || x in s {
      }
    }
  }

  lemma DeleteInSlot<T>(b: Bucket<T>, n: nat, k: int)
    requires n > 0 && InSlot(b, k % n, n)
    ensures InSlot(DeleteBucket(b, k), k % n, n)
  {
    var s, i := Items(b), IndexOf(Items(b), k);
    if i < |s| {
      Unchain(b, i);
      if i == 0 {
        assert b.next != [] ==> b.next[0] in b.next;
      } else {
        assert forall x :: x in b.next[..i - 1] + b.next[i..] ==> x in b.next;
      }
    }
  }

  lemma {:induction false} PlaceInSlots<T>(t: seq<Bucket<T>>, s: seq<Item<T>>)
    requires t != [] && InSlots(t)
    ensures InSlots(PlaceAll(t, s))
    decreases s
  {
    if s != [] { PlaceInSlots(Place(t, s[0]), s[1..]); }
  }

  lemma SetInSlots<T>(t: seq<Bucket<T>>, i: nat, r: seq<Bucket<T>>)
    requires InSlots(t) && i < |t| == |r| && r == t[i := r[i]] && InSlot(r[i], i, |t|)
    ensures InSlots(r)
  {
  }

  lemma StoreInSlots<T>(h: Table<T>, k: int, d: Ptr<T>)
    requires Sized(h) && InSlots(h.buckets)
    ensures InSlots(Store(h, k, d).0.buckets)
  {
    var n := |h.buckets|;
    InsertInSlot(h.buckets[k % n], n, k, d);
    SetInSlots(h.buckets, k % n, Store(h, k, d).0.buckets);
  }

  lemma GrowInSlots<T>(h: Table<T>)
    requires Sized(h) && InSlots(h.buckets)
    ensures InSlots(Grow(h).0.buckets)
  {
    PlaceInSlots(Fresh<T>(Pow2(h.width + 1)), AllItems(h.buckets));
  }

  lemma StepInSlots<T>(h: Table<T>, op: Op<T>)
    requires Sized(h) && InSlots(h.buckets)
    ensures InSlots(Step(h, op).0.buckets)
  {
    var n := |h.buckets|;
    match op {
      case Put(k, d) =>
        StoreInSlots(h, k, d);
        GrowInSlots(Store(h, k, d).0);
      case Remove(k) =>
        DeleteInSlot(h.buckets[k % n], n, k);
        if Delete(h, k).0 != h { SetInSlots(h.buckets, k % n, Delete(h, k).0.buckets); }
      case Get(k) =>
    }
  }

  lemma {:induction false} RunInSlots<T>(h: Table<T>, ops: seq<Op<T>>)
    requires Sized(h) && InSlots(h.buckets)
    ensures InSlots(Run(h, ops).buckets)
    decreases ops
  {
    if ops != [] {
      StepInSlots(h, ops[0]);
      RunInSlots(Step(h, ops[0]).0, ops[1..]);
    }
  }

  /** Key -1 is stored so that it is found exactly when its slot is occupied. */
  lemma StoreMinusOne<T>(h: Table<T>, d: Ptr<T>)
    requires Sized(h)
    ensures var slot := h.buckets[-1 % |h.buckets|];
            var (h', isNew) := Store(h, -1, d);
            && (Lookup(h', -1) == Some(d) <==> slot.id != -1)
            && (slot.id == -1 ==> isNew && h'.count == h.count + 1 && Lookup(h', -1) == None)
  {
    var n := |h.buckets|;
    var b := h.buckets[-1 % n];
    var b' := InsertBucket(b, -1, d).0;
    assert Store(h, -1, d).0.buckets[-1 % n] == b';
    if b.id != -1 {
      var s, i := Items(b), IndexOf(Items(b), -1);
      if i < |s| {
        assert Items(b') == s[i := Item(-1, d)];
        IndexUnique(Items(b'), -1, i);
      } else {
        assert Items(b') == [s[0]] + [Item(-1, d)] + b.next;
        IndexUnique(Items(b'), -1, 1);
      }
    }
  }

  ghost predicate Has<T>(s: seq<Item<T>>, k: int) {
    exists x :: x in s && x.id == k
  }

  /** Entries put behind another key are found, the latest first. */
  lemma PlaceFind<T>(t: seq<Bucket<T>>, x: Item<T>, k: int)
    requires t != [] && t[k % |t|].id != -1 && t[k % |t|].id != k
    ensures var j, r := k % |t|, Place(t, x);
            r[j].id == t[j].id && FindIn(Items(r[j]), k) == if x.id == k then Some(x.data) else FindIn(Items(t[j]), k)
  {
    var j, r := k % |t|, Place(t, x);
    if x.id % |t| == j {
      var s := Items(r[j]);
      assert s[1] == x && s[..1] + s[2..] == Items(t[j]);
      if x.id == k {
        IndexUnique(s, k, 1);
      } else {
        DropFind(s, 1, k);
      }
    }
  }

  lemma {:induction false} PlaceFinds<T>(t: seq<Bucket<T>>, s: seq<Item<T>>, k: int, d: Ptr<T>)
    requires t != [] && t[k % |t|].id != -1 && t[k % |t|].id != k
    requires forall x :: x in s && x.id == k ==> x.data == d
    ensures var j, r := k % |t|, PlaceAll(t, s);
            FindIn(Items(r[j]), k) == if Has(s, k) then Some(d) else FindIn(Items(t[j]), k)
    decreases s
  {
    if s != [] {
      PlaceFind(t, s[0], k);
      PlaceFinds(Place(t, s[0]), s[1..], k, d);
      assert forall x :: x in s <==> x == s[0] || x in s[1..];
    }
  }

  lemma MulMono(n: nat, a: int, b: int)
    requires a <= b
    ensures n * a <= n * b
  {
  }

  lemma MinusOneSlot(n: nat)
    requires n >= 2
    ensures -1 % n == n - 1
  {
    var q := -1 / n;
    assert n * q + -1 % n == -1;
    if q >= 0 {
      MulMono(n, 0, q);
    } else {
      MulMono(n, q, -1);
      if q <= -2 { MulMono(n, q, -2); }
    }
  }

  lemma MinusOneIn<T>(b: Bucket<T>, i: int, n: nat, x: Item<T>)
    requires n > 0 && InSlot(b, i, n) && x in Items(b) && x.id == -1
    ensures i == -1 % n
  {
  }

  /** Only the slot that -1 hashes to can hold it. */
  lemma {:induction false} AllMinusOne<T>(t: seq<Bucket<T>>)
    requires t != [] && InSlots(t)
    ensures forall x :: x in AllItems(t) && x.id == -1 ==> x in Items(t[-1 % |t|])
    ensures Has(AllItems(t), -1) <==> Has(Items(t[-1 % |t|]), -1)
  {
    var j := -1 % |t|;
    forall x | x in AllItems(t) && x.id == -1 ensures x in Items(t[j]) {
      AllItemsMember(t, x);
      var i :| 0 <= i < |t| && x in Items(t[i]);
      MinusOneIn(t[i], i, |t|, x);
    }
    forall x | x in Items(t[j]) ensures x in AllItems(t) {
      AllItemsMember(t, x);
    }
  }

  /** A resize keeps a -1 that can be found, behind a placeholder. */
  lemma {:induction false} RehashMinusOne<T>(t: seq<Bucket<T>>, n: nat, d: Ptr<T>)
    requires t != [] && InSlots(t) && n >= 2
    requires forall x :: x in Items(t[-1 % |t|]) && x.id == -1 ==> x.data == d
    ensures FindIn(Items(PlaceAll(Fresh<T>(n), AllItems(t))[-1 % n]), -1) ==
            if Has(Items(t[-1 % |t|]), -1) then Some(d) else None
  {
    MinusOneSlot(n);
    AllMinusOne(t);
    PlaceFinds(Fresh<T>(n), AllItems(t), -1, d);
  }

  lemma StoredMinusOne<T>(b: Bucket<T>, d: Ptr<T>)
    requires InsertBucket(b, -1, d).1
    ensures var s := Items(InsertBucket(b, -1, d).0);
            (forall x :: x in s && x.id == -1 ==> x.data == d) && (Has(s, -1) <==> b.id != -1)
  {
    if b.id != -1 {
      var s := Items(InsertBucket(b, -1, d).0);
      assert s == [Item(b.id, b.data)] + [Item(-1, d)] + b.next && s[1] == Item(-1, d);
      assert forall x :: x in b.next ==> x in Items(b);
    }
  }

  lemma GrowMinusOne<T>(h: Table<T>, d: Ptr<T>)
    requires Sized(h) && InSlots(h.buckets) && Store(h, -1, d).1
    ensures var slot, n := h.buckets[-1 % |h.buckets|], Pow2(h.width + 1);
            var r := PlaceAll(Fresh<T>(n), AllItems(Store(h, -1, d).0.buckets));
            FindIn(Items(r[-1 % n]), -1) == if slot.id != -1 then Some(d) else None
  {
    var j, h1 := -1 % |h.buckets|, Store(h, -1, d).0;
    StoredMinusOne(h.buckets[j], d);
    InsertInSlot(h.buckets[j], |h.buckets|, -1, d);
    assert InSlots(h1.buckets);
    Pow2Mono(1, h.width + 1);
    RehashMinusOne(h1.buckets, Pow2(h.width + 1), d);
  }

  lemma InsertMinusOne<T>(h: Table<T>, d: Ptr<T>)
    requires Sized(h) && InSlots(h.buckets)
    ensures var slot := h.buckets[-1 % |h.buckets|];
            var (h', r) := Insert(h, -1, d);
            && (Lookup(h', -1) == Some(d) <==> slot.id != -1)
            && (slot.id == -1 ==> r != 0 && h'.count == h.count + 1 && Lookup(h', -1) == None)
  {
    var h1, isNew := Store(h, -1, d).0, Store(h, -1, d).1;
    StoreMinusOne(h, d);
    if isNew && Grow(h1).0 != h1 { GrowMinusOne(h, d); }
  }

  /**
   After every sequence of operations, with any keys and through any resize: an inserted
   key -1 is found with its value exactly when its slot was occupied. In an empty slot it
   is only counted, again at every insertion.
   */
  lemma {:induction false} MinusOneFoundIff<T>(width: int, ops: seq<Op<T>>, d: Ptr<T>)
    ensures var h := Run(Init<T>(width), ops);
            var slot := h.buckets[-1 % |h.buckets|];
            var (h', r) := Insert(h, -1, d);
            && (Lookup(h', -1) == Some(d) <==> slot.id != -1)
            && (slot.id == -1 ==> r != 0 && h'.count == h.count + 1 && Lookup(h', -1) == None)
  {
    var h0 := Init<T>(width);
    assert InSlots(h0.buckets);
    RunInSlots(h0, ops);
    InsertMinusOne(Run(h0, ops), d);
  }

  lemma DeleteHides<T>(h: Table<T>, k: int)
    requires Sized(h) && InSlots(h.buckets) && Lookup(h, k).Some?
    ensures var n := |h.buckets|;
            var b := h.buckets[k % n];
            && (Exposes(b, k) <==> exists x :: x != k && Lookup(Delete(h, k).0, x) != Lookup(h, x))
            && (Exposes(b, k) ==> forall x :: x % n == k % n ==> Lookup(Delete(h, k).0, x) == None)
  {
    var n := |h.buckets|;
    var b, h' := h.buckets[k % n], Delete(h, k).0;
    assert h'.buckets == h.buckets[k % n := DeleteBucket(b, k)];
    if Exposes(b, k) {
      DeleteExposed(b, k);
      assert b.next[0] in b.next && -1 % n == k % n;
      assert Lookup(h, -1) == FindIn(Items(b), -1) && Lookup(h', -1) == None;
    } else {
      forall x | x != k ensures Lookup(h', x) == Lookup(h, x) {
        DeleteFind(b, k, x);
      }
    }
  }

  /**
   After every sequence of operations, with any keys: deleting a present key changes
   what some other key is mapped to exactly when the entry chained next to the deleted
   slot entry is -1, and then everything in that slot is hidden.
   */
  lemma {:induction false} DeleteHidesIff<T>(width: int, ops: seq<Op<T>>, k: int)
    ensures var h := Run(Init<T>(width), ops);
            && Sized(h)
            && (Lookup(h, k).Some? ==>
                  var n := |h.buckets|;
                  var b := h.buckets[k % n];
                  && (Exposes(b, k) <==> exists x :: x != k && Lookup(Delete(h, k).0, x) != Lookup(h, x))
                  && (Exposes(b, k) ==> forall x :: x % n == k % n ==> Lookup(Delete(h, k).0, x) == None))
  {
    var h0 := Init<T>(width);
    assert InSlots(h0.buckets);
    RunInSlots(h0, ops);
    var h := Run(h0, ops);
    if Lookup(h, k).Some? { DeleteHides(h, k); }
  }

  /** A new key goes to the head of the chain of an occupied slot. */
  lemma ChainAtHead<T>(h: Table<T>, k: int, d: Ptr<T>)
    requires Sized(h) && |h.buckets| == 4 && h.count < 5
    requires var b := h.buckets[k % 4]; b.id != -1 && b.id != k && forall x :: x in b.next ==> x.id != k
    ensures var b := h.buckets[k % 4];
            Step(h, Put(k, d)).0 ==
            Table(h.width, h.count + 1, h.buckets[k % 4 := b.(next := [Item(k, d)] + b.next)])
  {
    var b := h.buckets[k % 4];
    var s := Items(b);
    assert s == [Item(b.id, b.data)] + b.next;
    IndexUnique(s, k, |s|);
    assert InsertBucket(b, k, d) == (b.(next := [Item(k, d)] + b.next), true);
    assert Store(h, k, d).1 && Store(h, k, d).0.count == h.count + 1;
  }

  /** Deleting 3 from a slot where -1 is chained next hides 7. */
  lemma SevenHidden(h: Table<int>)
    requires Sized(h) && |h.buckets| == 4
    requires h.buckets[3] == Bucket(3, Some(0), [Item(-1, Some(2)), Item(7, Some(1))])
    ensures Lookup(h, 7) == Some(Some(1)) && Lookup(Delete(h, 3).0, 7) == None
  {
    IndexUnique(Items(h.buckets[3]), 7, 2);
    IndexUnique(Items(h.buckets[3]), 3, 0);
    DeleteExposed(h.buckets[3], 3);
  }

  lemma ThreeInSlot(h1: Table<int>) returns (h3: Table<int>)
    requires Sized(h1) && |h1.buckets| == 4 && h1.count == 1 && h1.buckets[3] == Bucket(3, Some(0), [])
    ensures h3 == Run(h1, [Put(7, Some(1))] + ([Put(-1, Some(2))] + [])) && Sized(h3) && |h3.buckets| == 4
    ensures h3.buckets[3] == Bucket(3, Some(0), [Item(-1, Some(2)), Item(7, Some(1))])
  {
    ChainAtHead(h1, 7, Some(1));
    var h2 := Step(h1, Put(7, Some(1))).0;
    ChainAtHead(h2, -1, Some(2));
    h3 := Step(h2, Put(-1, Some(2))).0;
    RunOf(h2, Put(-1, Some(2)), h3, []);
    RunOf(h1, Put(7, Some(1)), h2, [Put(-1, Some(2))] + []);
  }

  lemma {:induction false} RunOf<T>(h: Table<T>, op: Op<T>, next: Table<T>, rest: seq<Op<T>>)
    requires Sized(h) && Step(h, op).0 == next
    ensures Run(h, [op] + rest) == Run(next, rest)
  {
    assert ([op] + rest)[1..] == rest;
  }

  /** Three insertions into a small table reach such a slot. */
  lemma MinusOneHides() returns (ops: seq<Op<int>>)
    ensures var h := Run(Init<int>(2), ops);
            Lookup(h, 7) == Some(Some(1)) && Lookup(Delete(h, 3).0, 7) == None
  {
    var h0 := Init<int>(2);
    var h1 := Step(h0, Put(3, Some(0))).0;
    assert |h0.buckets| == 4 && h0.buckets[3] == Bucket(-1, None, []);
    assert h1.count == 1 && |h1.buckets| == 4 && h1.buckets[3] == Bucket(3, Some(0), []);
    var h3 := ThreeInSlot(h1);
    SevenHidden(h3);
    ops := [Put(7, Some(1))] + ([Put(-1, Some(2))] + []);
    RunOf(h0, Put(3, Some(0)), h1, ops);
    ops := [Put(3, Some(0))] + ops;
  }

  // ---------------------------------------------- a key 0 that meets a second resize

  /** A slot that a resize has filled: a placeholder heads it, and nothing but NULL is stored under id 0. */
  ghost predicate Filled<T>(b: Bucket<T>) {
    b.id == 0 && forall x :: x in Items(b) && x.id == 0 ==> x.data == None
  }

  ghost predicate Placeholders<T>(t: seq<Bucket<T>>) {
    forall i :: 0 < i < |t| ==> Filled(t[i])
  }

  lemma FilledPut<T>(b: Bucket<T>, k: int, d: Ptr<T>)
    requires Filled(b) && k != 0
    ensures Filled(InsertBucket(b, k, d).0)
  {
    var b' := InsertBucket(b, k, d).0;
    forall x | x in Items(b') && x.id == 0 ensures x.data == None {
      assert x in Items(b);
    }
  }

  lemma FilledTake<T>(b: Bucket<T>, k: int)
    requires Filled(b) && k != 0
    ensures Filled(DeleteBucket(b, k))
  {
    var i := IndexOf(Items(b), k);
    if i < |Items(b)| {
      Unchain(b, i);
      forall x | x in Items(DeleteBucket(b, k)) && x.id == 0 ensures x.data == None {
        assert x in Items(b);
      }
    }
  }

  lemma {:induction false} PlaceholdersStay<T>(t: seq<Bucket<T>>, s: seq<Item<T>>)
    requires t != [] && Placeholders(t)
    ensures Placeholders(PlaceAll(t, s))
    decreases s
  {
    if s != [] {
      assert 0 % |t| == 0;
      PlaceholdersStay(Place(t, s[0]), s[1..]);
    }
  }

  lemma StoreKeepsFilled<T>(h: Table<T>, k: int, d: Ptr<T>)
    requires Sized(h) && Placeholders(h.buckets)
    ensures Placeholders(Store(h, k, d).0.buckets)
  {
    var n := |h.buckets|;
    assert 0 % n == 0;
    if k % n != 0 { FilledPut(h.buckets[k % n], k, d); }
  }

  /** From the first resize on, every slot but 0 is filled. */
  lemma StepPlaceholders<T>(h: Table<T>, op: Op<T>, base: nat)
    requires Sized(h) && (h.width > base ==> Placeholders(h.buckets))
    ensures var h' := Step(h, op).0; h'.width != h.width || h.width > base ==> Placeholders(h'.buckets)
  {
    var n := |h.buckets|;
    assert 0 % n == 0;
    match op {
      case Put(k, d) =>
        if h.width > base { StoreKeepsFilled(h, k, d); }
        var h1 := Store(h, k, d).0;
        PlaceholdersStay(Fresh<T>(Pow2(h1.width + 1)), AllItems(h1.buckets));
      case Remove(k) =>
        if h.width > base && k % n != 0 { FilledTake(h.buckets[k % n], k); }
      case Get(k) =>
    }
  }

  function Known<T>(m: map<int, Ptr<T>>, ops: seq<Op<T>>): map<int, Ptr<T>>
    decreases ops
  {
    if ops == [] then m else Known(Apply(m, ops[0]), ops[1..])
  }

  lemma {:induction false} RunModels<T>(h: Table<T>, m: map<int, Ptr<T>>, ops: seq<Op<T>>, base: nat)
    requires base <= h.width && Models(h, m, PhaseAt(h.width, base)) && Roomy(h) && AllAdmissible(h, m, ops, base)
    requires h.width > base ==> Placeholders(h.buckets)
    ensures var h' := Run(h, ops);
            && base <= h'.width && Models(h', Known(m, ops), PhaseAt(h'.width, base))
            && (h'.width > base ==> Placeholders(h'.buckets))
    decreases ops
  {
    if ops != [] {
      PhaseStep(h, m, ops[0], base);
      StepRefines(h, m, ops[0], PhaseAt(h.width, base));
      StepPlaceholders(h, ops[0], base);
      RunModels(Step(h, ops[0]).0, Apply(m, ops[0]), ops[1..], base);
    }
  }

  /** In slot 0, no entry before key 0 goes to slot 0 of a table of `n` slots. */
  ghost predicate Leads<T>(b: Bucket<T>, n: nat)
    requires n > 0
  {
    forall j :: 0 <= j < IndexOf(Items(b), 0) ==> Items(b)[j].id % n != 0
  }

  ghost predicate Hits<T>(s: seq<Item<T>>, n: nat)
    requires n > 0
  {
    exists x :: x in s && x.id % n == 0
  }

  /** The first entry that goes to slot 0 heads it. */
  lemma {:induction false} FirstHeads<T>(t: seq<Bucket<T>>, s: seq<Item<T>>)
    requires t != [] && t[0].id != 0 && (forall x :: x in s ==> Plain(x.id))
    ensures var r := PlaceAll(t, s);
            && r[0].id != 0 && (r[0].id == -1 <==> t[0].id == -1 && !Hits(s, |t|))
            && (!Hits(s, |t|) ==> r[0] == t[0])
    decreases s
  {
    if s != [] {
      assert s[0] in s && forall x :: x in s <==> x == s[0] || x in s[1..];
      FirstHeads(Place(t, s[0]), s[1..]);
    }
  }

  lemma {:induction false} HeadStays<T>(t: seq<Bucket<T>>, s: seq<Item<T>>)
    requires t != [] && t[0].id != -1
    ensures var r := PlaceAll(t, s); r[0].id == t[0].id && r[0].data == t[0].data
    decreases s
  {
    if s != [] { HeadStays(Place(t, s[0]), s[1..]); }
  }

  /** Key 0 placed after some entries `a` and before placeholders. */
  lemma {:induction false} ZeroPlaced<T>(n: nat, a: seq<Item<T>>, d: Ptr<T>, rest: seq<Item<T>>)
    requires n > 0 && (forall x :: x in a ==> Plain(x.id))
    requires Has(rest, 0) && (forall x :: x in rest && x.id == 0 ==> x.data == None)
    ensures var r := PlaceAll(Fresh<T>(n), a + ([Item(0, d)] + rest));
            FindIn(Items(r[0]), 0) == Some(if Hits(a, n) then None else d)
  {
    var x := Item(0, d);
    var t1 := PlaceAll(Fresh<T>(n), a);
    var t2 := Place(t1, x);
    PlaceAllConcat(Fresh<T>(n), a, [x] + rest);
    assert ([x] + rest)[0] == x && ([x] + rest)[1..] == rest;
    assert 0 % n == 0;
    FirstHeads(Fresh<T>(n), a);
    if Hits(a, n) {
      PlaceFinds(t2, rest, 0, None);
    } else {
      HeadStays(t2, rest);
    }
  }

  lemma {:induction false} OnlyZero<T>(s: seq<Item<T>>, i: nat)
    requires i < |s| && s[i].id == 0 && NoDup(s, true) && (forall x :: x in s ==> x.id != -1)
    ensures s == s[..i] + ([s[i]] + s[i + 1..])
    ensures (forall x :: x in s[..i] ==> Plain(x.id)) && !Has(s[i + 1..], 0)
  {
    forall x | x in s[..i] ensures Plain(x.id) {
      var j :| 0 <= j < i && s[j] == x;
    }
    forall x | x in s[i + 1..] ensures x.id != 0 {
      var j :| i < j < |s| && s[j] == x;
    }
  }

  /** The items of slot 0 before, at and after its key 0. */
  lemma {:induction false} ZeroIn<T>(b: Bucket<T>, n: nat, m: map<int, Ptr<T>>)
    requires n > 0 && BucketRel(b, 0, n, m, true) && 0 in m
    ensures var s, i := Items(b), IndexOf(Items(b), 0);
            && i < |s| && s == s[..i] + ([Item(0, m[0])] + s[i + 1..])
            && (forall x :: x in s[..i] ==> Plain(x.id)) && !Has(s[i + 1..], 0)
  {
    assert 0 % n == 0;
    BucketIndex(b, 0, n, m, 0, true);
    OnlyZero(Items(b), IndexOf(Items(b), 0));
  }

  /** Behind slot 0 there are placeholders, and nothing else under id 0. */
  lemma {:induction false} ZerosBehind<T>(t: seq<Bucket<T>>)
    requires Placeholders(t) && |t| >= 2
    ensures Has(AllItems(t[1..]), 0) && (forall x :: x in AllItems(t[1..]) && x.id == 0 ==> x.data == None)
  {
    forall x | x in AllItems(t[1..]) && x.id == 0 ensures x.data == None {
      AllItemsMember(t[1..], x);
      var j :| 0 <= j < |t[1..]| && x in Items(t[1..][j]);
      assert Filled(t[j + 1]);
    }
    assert Filled(t[1]) && Items(t[1..][0])[0] == Item(0, t[1].data);
    AllItemsMember(t[1..], Item(0, t[1].data));
  }

  lemma HitsIff<T>(b: Bucket<T>, n: nat)
    requires n > 0
    ensures Hits(Items(b)[..IndexOf(Items(b), 0)], n) <==> !Leads(b, n)
  {
    var a := Items(b)[..IndexOf(Items(b), 0)];
    if j :| 0 <= j < |a| && Items(b)[j].id % n == 0 { assert a[j] in a; }
  }

  lemma {:induction false} ZeroMet<T>(n: nat, a: seq<Item<T>>, d: Ptr<T>, u: seq<Item<T>>, v: seq<Item<T>>)
    requires n > 0 && (forall x :: x in a ==> Plain(x.id)) && !Has(u, 0)
    requires Has(v, 0) && (forall x :: x in v && x.id == 0 ==> x.data == None)
    ensures var r := PlaceAll(Fresh<T>(n), (a + ([Item(0, d)] + u)) + v);
            FindIn(Items(r[0]), 0) == Some(if Hits(a, n) then None else d)
  {
    assert (a + ([Item(0, d)] + u)) + v == a + ([Item(0, d)] + (u + v));
    var y :| y in v && y.id == 0;
    assert y in u + v;
    ZeroPlaced(n, a, d, u + v);
  }

  lemma {:induction false} ZeroFrom<T>(b: Bucket<T>, k: nat, m: map<int, Ptr<T>>, v: seq<Item<T>>, n: nat)
    requires k > 0 && BucketRel(b, 0, k, m, true) && 0 in m && n > 0
    requires Has(v, 0) && (forall x :: x in v && x.id == 0 ==> x.data == None)
    ensures FindIn(Items(PlaceAll(Fresh<T>(n), Items(b) + v)[0]), 0) == Some(if Leads(b, n) then m[0] else None)
  {
    var s, i := Items(b), IndexOf(Items(b), 0);
    ZeroIn(b, k, m);
    ZeroMet(n, s[..i], m[0], s[i + 1..], v);
    HitsIff(b, n);
  }

  lemma {:induction false} RehashStoredZero<T>(t: seq<Bucket<T>>, m: map<int, Ptr<T>>, n: nat)
    requires Rel(t, m, Early) && Placeholders(t) && |t| >= 2 && 0 in m && n > 0
    ensures FindIn(Items(PlaceAll(Fresh<T>(n), AllItems(t))[0]), 0) == Some(if Leads(t[0], n) then m[0] else None)
  {
    RelAt(t, m, 0, Early);
    ZerosBehind(t);
    ZeroFrom(t[0], |t|, m, AllItems(t[1..]), n);
  }

  /**
   When an insertion makes the second resize and meets a stored key 0, the key keeps its
   value exactly when that is NULL or no entry before it in slot 0 goes to slot 0 of the
   larger table; otherwise it reads as NULL.
   */
  lemma {:induction false} ZeroSurvivesIff<T>(width: int, ops: seq<Op<T>>, k: int, d: Ptr<T>)
    requires AllAdmissible(Init<T>(width), map[], ops, Init<T>(width).width) && k != -1
    ensures var base, h, m := Init<T>(width).width, Run(Init<T>(width), ops), Known(map[], ops)[k := d];
            var h1, h' := Store(h, k, d).0, Insert(h, k, d).0;
            h.width == base + 1 && h'.width == base + 2 && 0 in m ==>
              && Lookup(h', 0) == Some(if Leads(h1.buckets[0], |h'.buckets|) then m[0] else None)
              && (Lookup(h', 0) == Some(m[0]) <==> m[0] == None || Leads(h1.buckets[0], |h'.buckets|))
  {
    var h0 := Init<T>(width);
    InitModels<T>(width, Clean);
    RunModels(h0, map[], ops, h0.width);
    var h, m := Run(h0, ops), Known(map[], ops);
    var h1, h' := Store(h, k, d).0, Insert(h, k, d).0;
    if h.width == h0.width + 1 && h'.width == h0.width + 2 && 0 in m[k := d] {
      StoreRefines(h, m, k, d, Early);
      StoreKeepsFilled(h, k, d);
      Pow2Mono(1, h.width);
      RehashStoredZero(h1.buckets, m[k := d], |h'.buckets|);
      assert 0 % |h'.buckets| == 0;
    }
  }
}
