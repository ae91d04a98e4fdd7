/** The hash table of include/dyco/dyco_htable.h, updated in place. */
module HTableHeap {
  import opened Powers
  import opened HTableSpec
  import opened Options

  lemma {:induction false} PlaceAllSnoc<T>(t: seq<Bucket<T>>, s: seq<Item<T>>, x: Item<T>)
    requires t != []
    ensures PlaceAll(t, s + [x]) == Place(PlaceAll(t, s), x)
  {
    PlaceAllConcat(t, s, [x]);
    assert [x][1..] == [];
  }

  lemma {:induction false} AllItemsSnoc<T>(t: seq<Bucket<T>>, b: Bucket<T>)
    ensures AllItems(t + [b]) == AllItems(t) + Items(b)
  {
    if t == [] {
      assert (t + [b])[1..] == [];
    } else {
      assert (t + [b])[1..] == t[1..] + [b];
      AllItemsSnoc(t[1..], b);
    }
  }

  class HTable<T> {
    var width: nat
    var count: int
    var table: array<Bucket<T>>

    ghost predicate Valid()
      reads this
    {
      table.Length == Pow2(width)
    }

    ghost function View(): Table<T>
      reads this, table
    {
      Table(width, count, table[..])
    }

    constructor (w: int)
      ensures Valid() && fresh(table) && View() == Init(w)
    {
      var wd := if w <= 0 then DEFAULT_WIDTH else if w > MAX_WIDTH then MAX_WIDTH else w;
      width, count := wd, 0;
      table := new Bucket<T>[Pow2(wd)](_ => Bucket(-1, None, []));
    }

    /** The walk along one bucket's chain that every operation makes. */
    method Walk(id: int) returns (i: nat)
      requires Valid()
      ensures i == IndexOf(Items(table[id % table.Length]), id)
    {
      var b := table[id % table.Length];
      if b.id == -1 {
        return 0;
      }
      if b.id == id {
        return 0;
      }
      var j := 0;
      while j < |b.next| && b.next[j].id != id
        invariant 0 <= j <= |b.next|
        invariant forall l :: 0 <= l < j ==> b.next[l].id != id
      {
        j := j + 1;
      }
      ghost var s := Items(b);
      assert forall l :: 0 < l < |s| ==> s[l] == b.next[l - 1];
      IndexUnique(s, id, j + 1);
      return j + 1;
    }

    method Insert(id: int, data: Ptr<T>) returns (ret: int)
      requires Valid()
      modifies this, table
      ensures Valid() && (table == old(table) || fresh(table))
      ensures (View(), ret) == HTableSpec.Insert(old(View()), id, data)
    {
      var idx := id % table.Length;
      var b := table[idx];
      var i := Walk(id);
      if b.id == -1 {
        table[idx] := Bucket(id, data, b.next);
        count := count + 1;
        ret := GrowIfFull();
      } else if i == 0 {
        table[idx] := b.(data := data);
        ret := 0;
      } else if i <= |b.next| {
        table[idx] := b.(next := b.next[i - 1 := Item(id, data)]);
        ret := 0;
      } else {
        table[idx] := b.(next := [Item(id, data)] + b.next);
        count := count + 1;
        ret := GrowIfFull();
      }
    }

    method GrowIfFull() returns (ret: int)
      requires Valid()
      modifies this
      ensures Valid() && (table == old(table) || fresh(table))
      ensures (View(), ret) == Grow(old(View()))
    {
      ret := 1;
      if (table.Length - 1) * 2 == count {
        var ok := Resize(width + 1);
        ret := if ok then 1 else -1;
      }
    }

    method Resize(w: nat) returns (ok: bool)
      requires Valid()
      modifies this
      ensures Valid() && (table == old(table) || fresh(table))
      ensures (View(), ok) == HTableSpec.Resize(old(View()), w)
    {
      if w == width || w > MAX_WIDTH {
        return false;
      }
      table := Rehash(Pow2(w));
      width := w;
      ok := true;
    }

    method Rehash(n: nat) returns (newtable: array<Bucket<T>>)
      requires n > 0
      ensures fresh(newtable) && newtable[..] == PlaceAll(Fresh(n), AllItems(table[..]))
    {
      newtable := new Bucket<T>[n](_ => Bucket(0, None, []));
      for i := 0 to n
        invariant i > 0 ==> newtable[0] == Bucket(-1, None, [])
        invariant forall j :: 0 < j < n ==> newtable[j] == Bucket(0, None, [])
      {
        newtable[0] := Bucket(-1, None, []);
      }
      assert newtable[..] == Fresh(n);
      ghost var t0 := newtable[..];
      for i := 0 to table.Length
        invariant newtable[..] == PlaceAll(t0, AllItems(table[..i]))
      {
        assert table[..i + 1] == table[..i] + [table[i]];
        AllItemsSnoc(table[..i], table[i]);
        PlaceAllConcat(t0, AllItems(table[..i]), Items(table[i]));
        MoveBucket(newtable, table[i]);
      }
      assert table[..table.Length] == table[..];
    }

    /** Moves one old bucket, first entry then chain, into the new table. */
    method MoveBucket(newtable: array<Bucket<T>>, b: Bucket<T>)
      requires newtable.Length > 0
      modifies newtable
      ensures newtable[..] == PlaceAll(old(newtable[..]), Items(b))
    {
      if b.id == -1 {
        return;
      }
      ghost var t0, s := newtable[..], Items(b);
      PlaceItem(newtable, Item(b.id, b.data));
      assert s[..1] == [] + [s[0]];
      PlaceAllSnoc(t0, [], s[0]);
      for j := 0 to |b.next|
        invariant newtable[..] == PlaceAll(t0, s[..j + 1])
      {
        PlaceAllSnoc(t0, s[..j + 1], s[j + 1]);
        assert s[..j + 1] + [s[j + 1]] == s[..j + 2];
        PlaceItem(newtable, b.next[j]);
      }
      assert s[..|b.next| + 1] == s;
    }

    method PlaceItem(newtable: array<Bucket<T>>, x: Item<T>)
      requires newtable.Length > 0
      modifies newtable
      ensures newtable[..] == Place(old(newtable[..]), x)
    {
      var idx := x.id % newtable.Length;
      var b := newtable[idx];
      newtable[idx] := if b.id == -1 then Bucket(x.id, x.data, b.next) else b.(next := [x] + b.next);
    }

    method Delete(id: int) returns (ret: int, data: Ptr<T>)
      requires Valid()
      modifies this`count, table
      ensures Valid()
      ensures (View(), ret) == HTableSpec.Delete(old(View()), id)
      ensures ret == 0 ==> Some(data) == Lookup(old(View()), id)
    {
      var idx := id % table.Length;
      var b := table[idx];
      var i := Walk(id);
      if b.id == -1 || i > |b.next| {
        return -1, None;
      }
      Unchain(b, i);
      if i == 0 {
        data := b.data;
        table[idx] := if b.next != [] then Bucket(b.next[0].id, b.next[0].data, b.next[1..])
                      else Bucket(-1, None, b.next);
      } else {
        data := b.next[i - 1].data;
        table[idx] := b.(next := b.next[..i - 1] + b.next[i..]);
      }
      count := count - 1;
      ret := 0;
    }

    /** htable_find; NULL also for an absent key. */
    method Find(id: int) returns (data: Ptr<T>)
      requires Valid()
      ensures data == match Lookup(View(), id) case Some(d) => d case None => None
    {
      var b := table[id % table.Length];
      var i := Walk(id);
      if b.id == -1 || i > |b.next| {
        return None;
      }
      return if i == 0 then b.data else b.next[i - 1].data;
    }

    method Contains(id: int) returns (ret: int)
      requires Valid()
      ensures ret == if Lookup(View(), id).Some? then 1 else 0
    {
      var b := table[id % table.Length];
      var i := Walk(id);
      return if b.id == -1 || i > |b.next| then 0 else 1;
    }
  }
}
