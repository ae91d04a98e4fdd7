/**
 Coroutine ids: every way of creating a coroutine takes the next of 2^24
 generation numbers, puts the scheduler's number in the top byte and enters the
 coroutine in cid_co_map; every way of ending one takes it out again.
 */
module CidSpec {
  import opened Powers
  import opened HTableSpec
  import opened Options

  /** A coroutine object. */
  type Co = nat

  const GENS: nat := 0x100_0000

  /** An unsigned 32-bit word stored in an int. */
  function Signed(w: nat): int {
    if w < 0x8000_0000 then w else w - 0x1_0000_0000
  }

  function CidFor(schedId: nat, gen: nat): int {
    Signed((schedId % 256) * GENS + gen)
  }

  datatype Registry = Registry(schedId: nat, gen: nat, coroCount: int, cidMap: Table<Co>)

  /** The coroutine enters the table under its id and is counted. */
  function Register(r: Registry, gen: nat, cid: int, co: Co): (Registry, int)
    requires Sized(r.cidMap)
  {
    var inserted := Insert(r.cidMap, cid, Some(co));
    (Registry(r.schedId, gen, r.coroCount + 1, inserted.0), inserted.1)
  }

  /** The id allocation shared by all four creating functions: the new id and what the insertion returned. */
  function Create(r: Registry, co: Co): (Registry, int, int)
    requires Sized(r.cidMap)
  {
    var gen := (r.gen + 1) % GENS;
    var cid := CidFor(r.schedId, gen);
    var registered := Register(r, gen, cid, co);
    (registered.0, cid, registered.1)
  }

  /** freecoro, cp_return and dyco_asymcoro_free, as far as the id is concerned. */
  function Free(r: Registry, cid: int): Registry
    requires Sized(r.cidMap)
  {
    r.(coroCount := r.coroCount - 1, cidMap := Delete(r.cidMap, cid).0)
  }

  // ------------------------------------------------------------ the ids alone

  /** Two creations get the same id exactly when a multiple of 2^24 apart: any 2^24 in a row differ. */
  lemma SameCidIff(schedId: nat, i: nat, j: nat)
    requires i <= j
    ensures CidFor(schedId, i % GENS) == CidFor(schedId, j % GENS) <==> (j - i) % 0x100_0000 == 0
    ensures i < j < i + 0x100_0000 ==> CidFor(schedId, i % GENS) != CidFor(schedId, j % GENS)
  {
  }

  /** Schedulers whose ids agree in their low byte can share coroutine ids, and no others. */
  lemma OtherSchedulers(a: nat, i: nat, b: nat, j: nat)
    requires i < GENS && j < GENS
    ensures CidFor(a, i) == CidFor(b, j) <==> a % 256 == b % 256 && i == j
  {
  }

  /** Which schedulers ever produce the two ids that the hash table cannot hold. */
  lemma CidPlainIff(schedId: nat, gen: nat)
    requires gen < GENS
    ensures CidFor(schedId, gen) == 0 <==> schedId % 256 == 0 && gen == 0
    ensures CidFor(schedId, gen) == -1 <==> schedId % 256 == 255 && gen == GENS - 1
  {
  }

  // -------------------------------------------------------------- whole runs

  /** `live` gives the creation number of each live id, `made` the number of creations so far. */
  datatype System = System(reg: Registry, made: nat, live: map<int, nat>, held: map<int, Ptr<Co>>)

  datatype Event = Born(co: Co) | Gone(cid: int)

  function NextCid(s: System): int {
    CidFor(s.reg.schedId, (s.made + 1) % GENS)
  }

  /** No live coroutine has seen 2^24 - 1 creations after its own. */
  ghost predicate Young(s: System) {
    forall cid :: cid in s.live ==> s.made + 1 - s.live[cid] < GENS
  }

  ghost predicate Enabled(s: System, e: Event) {
    match e
    case Born(_) => Young(s) && Plain(NextCid(s))
    case Gone(cid) => cid in s.live
  }

  ghost predicate TableOk(r: Registry, held: map<int, Ptr<Co>>) {
    Models(r.cidMap, held, Late) && Roomy(r.cidMap)
  }

  /** Each live id is the one its creation number determines. */
  ghost predicate LiveOk(schedId: nat, made: nat, live: map<int, nat>) {
    forall cid :: cid in live ==>
      0 < live[cid] <= made && Plain(cid) && cid == CidFor(schedId, live[cid] % GENS)
  }

  ghost predicate Inv(s: System) {
    && TableOk(s.reg, s.held) && LiveOk(s.reg.schedId, s.made, s.live) && s.held.Keys == s.live.Keys
    && s.reg.gen == s.made % GENS && s.reg.coroCount == |s.live|
  }

  ghost function Next(s: System, e: Event): (t: System)
    requires Sized(s.reg.cidMap)
    ensures Sized(t.reg.cidMap)
  {
    match e
    case Born(co) =>
      var (reg, cid, _) := Create(s.reg, co);
      System(reg, s.made + 1, s.live[cid := s.made + 1], s.held[cid := Some(co)])
    case Gone(cid) => System(Free(s.reg, cid), s.made, s.live - {cid}, s.held - {cid})
  }

  lemma {:induction false} RangeSize(keys: set<int>, lo: int, n: nat)
    requires forall k :: k in keys ==> lo <= k < lo + n
    ensures |keys| <= n
    decreases n
  {
    if n > 0 {
      RangeSize(keys - {lo + n - 1}, lo, n - 1);
    } else {
      assert forall k :: k !in keys;
      assert keys == {};
    }
  }

  /** One scheduler never has more than 2^24 live ids, far below where the table would refuse to grow. */
  lemma LiveBound(s: System)
    requires Inv(s)
    ensures |s.held| == |s.live| <= GENS
  {
    var lo := Signed((s.reg.schedId % 256) * GENS);
    forall cid | cid in s.live.Keys ensures lo <= cid < lo + GENS {
    }
    RangeSize(s.live.Keys, lo, GENS);
    assert |s.held| == |s.held.Keys| && |s.live| == |s.live.Keys|;
  }

  /** The next creation overwrites a live entry exactly when one was made a multiple of 2^24 creations before it. */
  lemma OverwriteIff(s: System)
    requires Inv(s)
    ensures NextCid(s) in s.live <==> exists cid :: cid in s.live && (s.made + 1 - s.live[cid]) % GENS == 0
    ensures Young(s) ==> NextCid(s) !in s.live
  {
    forall cid | cid in s.live
      ensures NextCid(s) == cid <==> (s.made + 1 - s.live[cid]) % GENS == 0
    {
      SameCidIff(s.reg.schedId, s.live[cid], s.made + 1);
    }
    if Young(s) {
      forall cid | cid in s.live ensures NextCid(s) != cid {
        SameCidIff(s.reg.schedId, s.live[cid], s.made + 1);
      }
    }
  }

  lemma GenStep(made: nat)
    ensures (made % GENS + 1) % GENS == (made + 1) % GENS
  {
  }

  lemma CreateIs(s: System, co: Co)
    requires Sized(s.reg.cidMap) && s.reg.gen == s.made % GENS
    ensures var r := Register(s.reg, (s.made + 1) % GENS, NextCid(s), co);
            Create(s.reg, co) == (r.0, NextCid(s), r.1)
  {
    var gen := (s.made + 1) % GENS;
    assert gen == (s.reg.gen + 1) % GENS by { GenStep(s.made); }
    var (table, ret) := Insert(s.reg.cidMap, CidFor(s.reg.schedId, gen), Some(co));
    CreateWith(s.reg, gen, table, ret, co);
  }

  /** A creation, given its generation and what the table makes of its id. */
  lemma CreateWith(r: Registry, gen: nat, table: Table<Co>, ret: int, co: Co)
    requires Sized(r.cidMap) && gen == (r.gen + 1) % GENS
    requires Insert(r.cidMap, CidFor(r.schedId, gen), Some(co)) == (table, ret)
    ensures Create(r, co) == (Registry(r.schedId, gen, r.coroCount + 1, table), CidFor(r.schedId, gen), ret)
  {
  }

  lemma BornLive(schedId: nat, made: nat, live: map<int, nat>, cid: int)
    requires LiveOk(schedId, made, live) && Plain(cid) && cid == CidFor(schedId, (made + 1) % GENS)
    ensures LiveOk(schedId, made + 1, live[cid := made + 1])
  {
  }

  lemma Capacity()
    ensures GENS + 1 < 2 * (Pow2(MAX_WIDTH) - 1)
  {
    Pow2Add(12, 12);
    assert Pow2(12) == 4096;
  }

  /** The insertion of an id is never refused. */
  lemma InsertAccepted(h: Table<Co>, held: map<int, Ptr<Co>>, cid: int, d: Ptr<Co>)
    requires Models(h, held, Late) && Roomy(h) && Plain(cid) && |held| <= GENS
    ensures var (h', ret) := Insert(h, cid, d);
            Models(h', held[cid := d], Late) && Roomy(h') && ret == if cid in held then 0 else 1
  {
    Capacity();
    InsertRefines(h, held, cid, d, Late);
  }

  /** What a creation does to the table and the counters, whatever is live. */
  lemma RegisterRefines(r: Registry, held: map<int, Ptr<Co>>, gen: nat, cid: int, co: Co)
    requires TableOk(r, held) && Plain(cid) && |held| <= GENS
    ensures var (r', ret) := Register(r, gen, cid, co);
            && TableOk(r', held[cid := Some(co)]) && ret == (if cid in held then 0 else 1)
            && r'.schedId == r.schedId && r'.gen == gen && r'.coroCount == r.coroCount + 1
  {
    InsertAccepted(r.cidMap, held, cid, Some(co));
  }

  /** The table side of a creation under a new id. */
  lemma BornTable(s: System, co: Co) returns (r: Registry)
    requires Inv(s) && Plain(NextCid(s)) && NextCid(s) !in s.live
    ensures Create(s.reg, co) == (r, NextCid(s), 1) && TableOk(r, s.held[NextCid(s) := Some(co)])
    ensures r.schedId == s.reg.schedId && r.gen == (s.made + 1) % GENS && r.coroCount == s.reg.coroCount + 1
  {
    CreateIs(s, co);
    LiveBound(s);
    assert NextCid(s) !in s.held;
    RegisterRefines(s.reg, s.held, (s.made + 1) % GENS, NextCid(s), co);
    r := Create(s.reg, co).0;
  }

  lemma BornInv(s: System, r: Registry, cid: int, d: Ptr<Co>)
    requires LiveOk(s.reg.schedId, s.made, s.live) && s.held.Keys == s.live.Keys && s.reg.coroCount == |s.live|
    requires cid == NextCid(s) && Plain(cid) && cid !in s.live && TableOk(r, s.held[cid := d])
    requires r.schedId == s.reg.schedId && r.gen == (s.made + 1) % GENS && r.coroCount == s.reg.coroCount + 1
    ensures Inv(System(r, s.made + 1, s.live[cid := s.made + 1], s.held[cid := d]))
  {
    MapSizes(s.live, cid, s.made + 1);
    BornLive(s.reg.schedId, s.made, s.live, cid);
  }

  lemma YoungIsNew(s: System)
    requires Inv(s) && Young(s)
    ensures NextCid(s) !in s.live
  {
    OverwriteIff(s);
  }

  lemma BornNext(s: System, co: Co, r: Registry) returns (t: System)
    requires Sized(s.reg.cidMap) && Create(s.reg, co) == (r, NextCid(s), 1)
    ensures t == Next(s, Born(co))
    ensures t == System(r, s.made + 1, s.live[NextCid(s) := s.made + 1], s.held[NextCid(s) := Some(co)])
  {
    t := Next(s, Born(co));
  }

  /** A creation while every live coroutine is young: its id is new, it is entered, and the state is the next one. */
  lemma BornIs(s: System, co: Co) returns (t: System)
    requires Inv(s) && Enabled(s, Born(co))
    ensures t == Next(s, Born(co)) && Inv(t) && NextCid(s) !in s.live
    ensures Create(s.reg, co).1 == NextCid(s) && Create(s.reg, co).2 == 1
    ensures t.live == s.live[NextCid(s) := s.made + 1] && t.made == s.made + 1 && t.reg.schedId == s.reg.schedId
  {
    var cid := NextCid(s);
    YoungIsNew(s);
    var r := BornTable(s, co);
    BornInv(s, r, cid, Some(co));
    t := BornNext(s, co, r);
  }

  lemma FreeRefines(r: Registry, held: map<int, Ptr<Co>>, cid: int)
    requires TableOk(r, held) && Plain(cid)
    ensures var r' := Free(r, cid);
            && TableOk(r', held - {cid}) && (Delete(r.cidMap, cid).1 == if cid in held then 0 else -1)
            && r'.schedId == r.schedId && r'.gen == r.gen && r'.coroCount == r.coroCount - 1
  {
    DeleteRefines(r.cidMap, held, cid, Late);
  }

  lemma GoneKeeps(s: System, cid: int)
    requires Inv(s) && cid in s.live
    ensures Inv(Next(s, Gone(cid))) && Delete(s.reg.cidMap, cid).1 == 0
  {
    FreeRefines(s.reg, s.held, cid);
    MapSizes(s.live, cid, 0);
  }

  ghost predicate IsRun(s: System, events: seq<Event>)
    requires Sized(s.reg.cidMap)
    decreases events
  {
    events == [] || (Enabled(s, events[0]) && IsRun(Next(s, events[0]), events[1..]))
  }

  ghost function Run(s: System, events: seq<Event>): (t: System)
    requires Sized(s.reg.cidMap) && IsRun(s, events)
    ensures Sized(t.reg.cidMap)
    decreases events
  {
    if events == [] then s else Run(Next(s, events[0]), events[1..])
  }

  lemma {:induction false} RunKeeps(s: System, events: seq<Event>)
    requires Inv(s) && IsRun(s, events)
    ensures Inv(Run(s, events))
    decreases events
  {
    if events != [] {
      match events[0] {
        case Born(co) =>
          var t := BornIs(s, co);
        case Gone(cid) => GoneKeeps(s, cid);
      }
      RunKeeps(Next(s, events[0]), events[1..]);
    }
  }

  ghost function Created(schedId: nat): (s: System)
    ensures Sized(s.reg.cidMap)
  {
    System(Registry(schedId, 0, 0, Init(0)), 0, map[], map[])
  }

  lemma CreatedInv(schedId: nat)
    ensures Inv(Created(schedId)) && Created(schedId).live == map[] && Created(schedId).made == 0
    ensures Created(schedId).reg.schedId == schedId
  {
    InitModels<Co>(0, Late);
  }

  /** In every state of the invariant: the counts agree and every live id is found. */
  lemma InvFacts(s: System)
    requires Inv(s)
    ensures s.reg.coroCount == s.reg.cidMap.count == |s.live| <= GENS
    ensures forall cid :: cid in s.live ==> Lookup(s.reg.cidMap, cid) == Some(s.held[cid])
  {
    LiveBound(s);
    forall cid | cid in s.live ensures Lookup(s.reg.cidMap, cid) == Some(s.held[cid]) {
      LookupRefines(s.reg.cidMap, s.held, cid, Late);
    }
  }

  /**
   While no coroutine outlives 2^24 - 1 later creations, the id of every creation
   is new, its insertion returns 1, every live id is found, and coro_count, the
   table's count and the number of live coroutines stay equal.
   */
  lemma {:induction false} IdsStayUnique(schedId: nat, events: seq<Event>, co: Co)
    requires IsRun(Created(schedId), events)
    ensures var s := Run(Created(schedId), events);
            && s.reg.coroCount == s.reg.cidMap.count == |s.live| <= GENS && Inv(s)
            && (forall cid :: cid in s.live ==> Lookup(s.reg.cidMap, cid) == Some(s.held[cid]))
            && (Enabled(s, Born(co)) ==> Create(s.reg, co).1 !in s.live && Create(s.reg, co).2 == 1)
  {
    CreatedInv(schedId);
    RunKeeps(Created(schedId), events);
    var s := Run(Created(schedId), events);
    InvFacts(s);
    if Enabled(s, Born(co)) { var t := BornIs(s, co); }
  }

  /** A creation that does overwrite a live entry leaves coro_count one above the table's count. */
  lemma OverwriteBreaksCount(s: System, co: Co)
    requires Inv(s) && NextCid(s) in s.live
    ensures var (r, cid, ret) := Create(s.reg, co); ret == 0 && r.coroCount == r.cidMap.count + 1
  {
    var cid := NextCid(s);
    assert cid in s.held;
    CreateIs(s, co);
    LiveBound(s);
    RegisterRefines(s.reg, s.held, (s.made + 1) % GENS, cid, co);
    MapSizes(s.held, cid, Some(co));
  }

  lemma {:induction false} RunOf(s: System, e: Event, t: System, rest: seq<Event>)
    requires Sized(s.reg.cidMap) && Enabled(s, e) && t == Next(s, e) && IsRun(t, rest)
    ensures IsRun(s, [e] + rest) && Run(s, [e] + rest) == Run(t, rest)
  {
    assert ([e] + rest)[1..] == rest;
  }

  lemma GoneIs(s: System, cid: int) returns (t: System)
    requires Inv(s) && cid in s.live
    ensures t == Next(s, Gone(cid)) && Inv(t)
    ensures t.live == s.live - {cid} && t.made == s.made && t.reg.schedId == s.reg.schedId
  {
    GoneKeeps(s, cid);
    t := Next(s, Gone(cid));
  }

  lemma PlainNext(s: System)
    requires 0 < s.reg.schedId % 256 < 255
    ensures Plain(NextCid(s))
  {
    CidPlainIff(s.reg.schedId, (s.made + 1) % GENS);
  }

  lemma Cycle(s: System, first: int) returns (cid: int, u: System, t: System)
    requires Inv(s) && 0 < s.reg.schedId % 256 < 255
    requires s.live.Keys == {first} && s.made + 1 - s.live[first] < GENS
    ensures Enabled(s, Born(0)) && u == Next(s, Born(0)) && Sized(u.reg.cidMap)
    ensures Enabled(u, Gone(cid)) && t == Next(u, Gone(cid)) && Inv(t)
    ensures t.live == s.live && t.made == s.made + 1 && t.reg.schedId == s.reg.schedId
  {
    PlainNext(s);
    cid := NextCid(s);
    u := BornIs(s, 0);
    t := GoneIs(u, cid);
    assert t.live == s.live;
  }

  lemma CycleThen(s: System, cid: int, u: System, t: System, rest: seq<Event>) returns (events: seq<Event>)
    requires Sized(s.reg.cidMap) && Enabled(s, Born(0)) && u == Next(s, Born(0))
    requires Enabled(u, Gone(cid)) && t == Next(u, Gone(cid)) && IsRun(t, rest)
    ensures IsRun(s, events) && Run(s, events) == Run(t, rest)
  {
    RunOf(u, Gone(cid), t, rest);
    RunOf(s, Born(0), u, [Gone(cid)] + rest);
    events := [Born(0)] + ([Gone(cid)] + rest);
  }

  /** Coroutines that are created and end at once use up ids; the one that lives on keeps its own. */
  lemma {:induction false} Churn(s: System, first: int, k: nat) returns (events: seq<Event>, end: System)
    requires Inv(s) && 0 < s.reg.schedId % 256 < 255
    requires s.live.Keys == {first} && s.made + k - s.live[first] < GENS
    ensures IsRun(s, events) && end == Run(s, events)
    ensures Inv(end) && end.live == s.live && end.made == s.made + k
    decreases k
  {
    if k == 0 {
      events, end := [], s;
    } else {
      var cid, u, t := Cycle(s, first);
      events, end := Churn(t, first, k - 1);
      events := CycleThen(s, cid, u, t, events);
    }
  }

  lemma Outlived(s: System, first: int)
    requires Inv(s) && s.live == map[first := 1] && s.made == GENS
    ensures NextCid(s) in s.live
  {
    assert s.live[first] == 1;
    SameCidIff(s.reg.schedId, 1, GENS + 1);
  }

  lemma FirstOf(s0: System) returns (first: int, s: System)
    requires Inv(s0) && s0.live == map[] && s0.made == 0 && 0 < s0.reg.schedId % 256 < 255
    ensures Enabled(s0, Born(0)) && s == Next(s0, Born(0)) && Inv(s)
    ensures s.live == map[first := 1] && s.made == 1 && s.reg.schedId == s0.reg.schedId
  {
    PlainNext(s0);
    first := NextCid(s0);
    s := BornIs(s0, 0);
  }

  lemma OverwriteFrom(s0: System) returns (events: seq<Event>, end: System)
    requires Inv(s0) && s0.live == map[] && s0.made == 0 && 0 < s0.reg.schedId % 256 < 255
    ensures IsRun(s0, events) && end == Run(s0, events)
    ensures Inv(end) && NextCid(end) in end.live
  {
    var first, s := FirstOf(s0);
    events, end := Churn(s, first, GENS - 1);
    RunOf(s0, Born(0), s, events);
    events := [Born(0)] + events;
    Outlived(end, first);
  }

  /** The hypothesis is needed: a coroutine that outlives 2^24 - 1 later creations is overwritten by the next. */
  lemma OverwriteReached(schedId: nat) returns (events: seq<Event>, end: System)
    requires 0 < schedId % 256 < 255
    ensures IsRun(Created(schedId), events) && end == Run(Created(schedId), events)
    ensures Inv(end) && NextCid(end) in end.live
  {
    CreatedInv(schedId);
    events, end := OverwriteFrom(Created(schedId));
  }
}

module CidHeap {
  import opened HTableSpec
  import opened Options
  import opened CidSpec
  import opened HTableHeap

  /** The fields of a scheduler that ids and counts live in. */
  class IdSource {
    const schedId: nat
    const cidMap: HTable<Co>
    var gen: nat
    var coroCount: int

    ghost predicate Valid()
      reads this, cidMap
    {
      cidMap.Valid()
    }

    ghost function View(): Registry
      reads this, cidMap, cidMap.table
    {
      Registry(schedId, gen, coroCount, cidMap.View())
    }

    constructor (id: nat)
      ensures Valid() && fresh(cidMap) && fresh(cidMap.table) && View() == Registry(id, 0, 0, Init(0))
    {
      schedId, gen, coroCount := id, 0, 0;
      cidMap := new HTable<Co>(0);
    }

    method Create(co: Co) returns (cid: int, ret: int)
      requires Valid()
      modifies this, cidMap, cidMap.table
      ensures Valid() && (View(), cid, ret) == CidSpec.Create(old(View()), co)
    {
      ghost var was := View();
      gen := (gen + 1) % GENS;
      cid := CidFor(schedId, gen);
      ret := cidMap.Insert(cid, Some(co));
      coroCount := coroCount + 1;
      CreateWith(was, gen, cidMap.View(), ret, co);
    }

    method Free(cid: int)
      requires Valid()
      modifies this, cidMap, cidMap.table
      ensures Valid() && View() == CidSpec.Free(old(View()), cid)
    {
      coroCount := coroCount - 1;
      var _, _ := cidMap.Delete(cid);
    }
  }
}
