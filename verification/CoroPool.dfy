/**
 The coroutine pool of src/dyco_coropool.c: its counts, its free list and its
 queue of callers waiting for a free coroutine. Freeing the coroutines that a
 shrink removes is outside the model.
 */
module CoroPoolSpec {
  import opened Waiters

  /** A coroutine object. */
  type Co = nat

  datatype Pool = Pool(totalsize: int, activenum: int, freelist: seq<Co>, sublist: seq<Ticket>, fds: map<Ticket, nat>)

  function Available(p: Pool): int {
    p.totalsize - p.activenum
  }

  /** Tells the first waiting caller, if any, and takes it off the queue. */
  function NotifyFirst(p: Pool): Pool {
    if p.sublist == [] then p
    else
      var t := p.sublist[0];
      p.(sublist := p.sublist[1..], fds := if t in p.fds then p.fds[t := p.fds[t] + 1] else p.fds)
  }

  function Push(p: Pool, c: Co): Pool {
    p.(freelist := [c] + p.freelist)
  }

  /** The growing loop of cp_resize: each new coroutine goes in front and wakes a caller. */
  function Grow(p: Pool, created: seq<Co>): Pool
    decreases created
  {
    if created == [] then p else Grow(NotifyFirst(Push(p, created[0])), created[1..])
  }

  /** How many coroutines a shrink to `newsize` takes off the free list. */
  function Excess(p: Pool, newsize: int): int {
    if newsize >= p.activenum then p.totalsize - newsize else Available(p)
  }

  /** cp_resize; `created` are the coroutines that growing creates. */
  function Resize(p: Pool, newsize: int, created: seq<Co>): Pool
    requires p.totalsize < newsize ==> |created| == newsize - p.totalsize
    requires newsize < p.totalsize ==> Excess(p, newsize) <= |p.freelist|
  {
    if newsize == p.totalsize then p
    else if p.totalsize < newsize then Grow(p, created).(totalsize := newsize)
    else
      var n := Excess(p, newsize);
      p.(freelist := if n > 0 then p.freelist[n..] else p.freelist, totalsize := newsize)
  }

  datatype Outcome = Parked | Returned(ret: int) | Obtained(co: Co)

  /** The end of cp_obtain: the first free coroutine starts working. */
  function Take(p: Pool): (Pool, Outcome)
    requires Available(p) > 0 ==> p.freelist != []
  {
    if Available(p) <= 0 then (p, Returned(Available(p)))
    else (p.(freelist := p.freelist[1..], activenum := p.activenum + 1), Obtained(p.freelist[0]))
  }

  /** cp_obtain up to the wait in cp_wait. */
  function Obtain(p: Pool, t: Ticket, timeout: int): (Pool, Outcome)
    requires Available(p) > 0 ==> p.freelist != []
  {
    if Available(p) > 0 || timeout == 0 then Take(p)
    else (p.(sublist := p.sublist + [t], fds := p.fds[t := 0]), Parked)
  }

  /** cp_obtain after its wait: a caller that timed out leaves the queue first. */
  function ObtainWake(p: Pool, t: Ticket): (Pool, Outcome)
    requires t in p.fds
    requires Available(p) > 0 ==> p.freelist != []
  {
    Take(p.(sublist := if p.fds[t] == 0 then Unlink(p.sublist, t) else p.sublist, fds := p.fds - {t}))
  }

  /** cp_return. */
  function Return(p: Pool, c: Co): Pool {
    NotifyFirst(Push(p, c).(activenum := p.activenum - 1))
  }

  // ------------------------------------------------------------- all callers

  /**
   The pool with the coroutines at work, all that were ever created, the size last asked
   for, and for every call that parked how many calls were made before it.
   */
  datatype System = System(
    pool: Pool,
    working: set<Co>,
    known: set<Co>,
    used: set<Ticket>,
    asked: int,
    since: map<Ticket, nat>)

  datatype Event =
    | ObtainCall(ticket: Ticket, timeout: int)
    | ObtainResumed(ticket: Ticket)
    | ReturnCall(co: Co)
    | ResizeCall(newsize: int, created: seq<Co>)

  ghost predicate Enabled(s: System, e: Event) {
    match e
    case ObtainCall(t, _) => t !in s.used
    case ObtainResumed(t) => t in s.pool.fds
    case ReturnCall(c) => c in s.working
    case ResizeCall(n, created) =>
      && |created| == (if s.pool.totalsize < n then n - s.pool.totalsize else 0)
      && Distinct(created) && (forall c :: c in created ==> c !in s.known)
  }

  /** The queue holds exactly the parked callers that have not been told. */
  ghost predicate QueueOk(p: Pool) {
    Distinct(p.sublist) && forall t :: t in p.sublist <==> t in p.fds && p.fds[t] == 0
  }

  /** Every coroutine of the pool is free or at work, never both. */
  ghost predicate FreeOk(p: Pool, working: set<Co>, known: set<Co>) {
    && Distinct(p.freelist) && (forall c :: c in p.freelist ==> c !in working && c in known)
    && working <= known && p.activenum == |working|
  }

  /** The parked callers that have been told and have not resumed yet. */
  ghost function Told(p: Pool): set<Ticket> {
    set t | t in p.fds && p.fds[t] > 0
  }

  /** While a caller waits untold, every available coroutine is promised to one that was told. */
  ghost predicate NoIdle(p: Pool) {
    p.sublist != [] ==> Available(p) <= |Told(p)|
  }

  /** The free list and the active count together cover the size. */
  ghost predicate Inv(s: System) {
    && |s.pool.freelist| + s.pool.activenum >= s.pool.totalsize
    && NoIdle(s.pool)
    && FreeOk(s.pool, s.working, s.known) && QueueOk(s.pool)
    && s.pool.fds.Keys <= s.used
  }

  /** What the operations need before they pop: the list is long enough. */
  lemma NeverPopsEmpty(s: System)
    requires Inv(s)
    ensures Available(s.pool) > 0 ==> s.pool.freelist != []
    ensures forall n :: n < s.pool.totalsize ==> Excess(s.pool, n) <= |s.pool.freelist|
  {
  }

  function Next(s: System, e: Event): System
    requires Inv(s) && Enabled(s, e)
  {
    NeverPopsEmpty(s);
    match e
    case ObtainCall(t, timeout) =>
      var (p, o) := Obtain(s.pool, t, timeout);
      s.(pool := p, used := s.used + {t}, working := if o.Obtained? then s.working + {o.co} else s.working,
         since := if o.Parked? then s.since[t := |s.used|] else s.since)
    case ObtainResumed(t) =>
      var (p, o) := ObtainWake(s.pool, t);
      s.(pool := p, working := if o.Obtained? then s.working + {o.co} else s.working)
    case ReturnCall(c) => s.(pool := Return(s.pool, c), working := s.working - {c})
    case ResizeCall(n, created) =>
      s.(pool := Resize(s.pool, n, created), known := s.known + (set c | c in created), asked := n)
  }

  // --------------------------------------------------- what every step keeps

  function Least(a: nat, b: nat): nat {
    if a <= b then a else b
  }

  lemma NotifyFirstKeeps(p: Pool)
    requires QueueOk(p)
    ensures QueueOk(NotifyFirst(p)) && NotifyFirst(p).fds.Keys == p.fds.Keys
    ensures var q := NotifyFirst(p);
            q.freelist == p.freelist && q.activenum == p.activenum && q.totalsize == p.totalsize
    ensures var q, n := NotifyFirst(p), Least(1, |p.sublist|);
            |Told(q)| == |Told(p)| + n && |q.sublist| == |p.sublist| - n
  {
    if p.sublist != [] {
      var t, rest := p.sublist[0], p.sublist[1..];
      assert t in p.sublist;
      assert forall i :: 0 <= i < |rest| ==> rest[i] == p.sublist[i + 1];
      assert t !in rest;
      assert forall u :: u in p.sublist <==> u == t || u in rest;
      assert Told(NotifyFirst(p)) == Told(p) + {t};
    }
  }

  lemma PushKeeps(p: Pool, c: Co, working: set<Co>, known: set<Co>)
    requires FreeOk(p, working, known) && c !in p.freelist && c !in working
    ensures FreeOk(Push(p, c), working, known + {c})
  {
  }

  lemma {:induction false} GrowKeeps(p: Pool, created: seq<Co>, working: set<Co>, known: set<Co>)
    requires FreeOk(p, working, known) && QueueOk(p) && Distinct(created) && (forall c :: c in created ==> c !in known)
    ensures var q := Grow(p, created);
            && FreeOk(q, working, known + set c | c in created) && QueueOk(q) && q.fds.Keys == p.fds.Keys
            && |q.freelist| == |p.freelist| + |created| && q.activenum == p.activenum
            && |Told(q)| == |Told(p)| + Least(|created|, |p.sublist|)
            && |q.sublist| == |p.sublist| - Least(|created|, |p.sublist|)
    decreases created
  {
    if created == [] {
      assert (set c | c in created) == {};
    } else {
      var c, rest := created[0], created[1..];
      assert c in created;
      assert forall i :: 0 <= i < |rest| ==> rest[i] == created[i + 1];
      assert c !in rest;
      PushKeeps(p, c, working, known);
      NotifyFirstKeeps(Push(p, c));
      assert Told(Push(p, c)) == Told(p);
      GrowKeeps(NotifyFirst(Push(p, c)), rest, working, known + {c});
      assert known + {c} + (set x | x in rest) == known + set x | x in created by {
        assert forall x :: x in created <==> x == c || x in rest;
      }
    }
  }

  lemma TakeKeeps(p: Pool, working: set<Co>, known: set<Co>)
    requires FreeOk(p, working, known) && |p.freelist| + p.activenum >= p.totalsize
    ensures Available(p) > 0 ==> p.freelist != []
    ensures var (q, o) := Take(p);
            && FreeOk(q, if o.Obtained? then working + {o.co} else working, known)
            && |q.freelist| + q.activenum >= q.totalsize
            && (o.Obtained? ==> o.co !in working)
            && (o.Obtained? <==> Available(p) > 0)
  {
  }

  lemma ObtainKeeps(s: System, t: Ticket, timeout: int)
    requires Inv(s) && t !in s.used
    ensures Inv(Next(s, ObtainCall(t, timeout)))
  {
    TakeKeeps(s.pool, s.working, s.known);
    var p := s.pool;
    if !(Available(p) > 0 || timeout == 0) {
      assert t !in p.sublist;
      var q := p.sublist + [t];
      assert forall u :: u in q <==> u == t || u in p.sublist;
      assert NoIdle(Obtain(p, t, timeout).0);
    } else if Available(p) > 0 {
      assert Told(Take(p).0) == Told(p);
    }
  }

  lemma WakeKeeps(s: System, t: Ticket)
    requires Inv(s) && t in s.pool.fds
    ensures s.pool.fds[t] == 0 ==> t in s.pool.sublist
    ensures Inv(Next(s, ObtainResumed(t)))
  {
    var p := s.pool;
    var p' := p.(sublist := if p.fds[t] == 0 then Unlink(p.sublist, t) else p.sublist, fds := p.fds - {t});
    if p.fds[t] == 0 { UnlinkResult(p.sublist, t); }
    assert QueueOk(p');
    assert Told(p') == Told(p) - {t};
    TakeKeeps(p', s.working, s.known);
    assert Told(Take(p').0) == Told(p');
  }

  lemma ReturnKeeps(s: System, c: Co)
    requires Inv(s) && c in s.working
    ensures Inv(Next(s, ReturnCall(c)))
  {
    var p := s.pool.(activenum := s.pool.activenum - 1);
    assert FreeOk(p, s.working - {c}, s.known);
    PushKeeps(p, c, s.working - {c}, s.known);
    assert s.known + {c} == s.known;
    NotifyFirstKeeps(Push(p, c));
    assert Told(Push(p, c)) == Told(s.pool);
  }

  lemma ResizeKeeps(s: System, newsize: int, created: seq<Co>)
    requires Inv(s) && Enabled(s, ResizeCall(newsize, created))
    ensures Inv(Next(s, ResizeCall(newsize, created)))
  {
    var p := s.pool;
    NeverPopsEmpty(s);
    if p.totalsize < newsize {
      GrowKeeps(p, created, s.working, s.known);
    } else {
      assert (set c | c in created) == {};
      var n := Excess(p, newsize);
      if newsize < p.totalsize && n > 0 {
        var rest := p.freelist[n..];
        assert forall i :: 0 <= i < |rest| ==> rest[i] == p.freelist[i + n];
      }
    }
  }

  lemma NextKeeps(s: System, e: Event)
    requires Inv(s) && Enabled(s, e)
    ensures Inv(Next(s, e))
  {
    match e {
      case ObtainCall(t, timeout) => ObtainKeeps(s, t, timeout);
      case ObtainResumed(t) => WakeKeeps(s, t);
      case ReturnCall(c) => ReturnKeeps(s, c);
      case ResizeCall(n, created) => ResizeKeeps(s, n, created);
    }
  }

  ghost predicate IsRun(s: System, events: seq<Event>)
    requires Inv(s)
    decreases events
  {
    events == [] || (Enabled(s, events[0]) && (NextKeeps(s, events[0]); IsRun(Next(s, events[0]), events[1..])))
  }

  /** What the steps keep holds at the end of every run. */
  ghost function Run(s: System, events: seq<Event>): (t: System)
    requires Inv(s) && IsRun(s, events)
    ensures Inv(t)
    decreases events
  {
    if events == [] then s else NextKeeps(s, events[0]); Run(Next(s, events[0]), events[1..])
  }

  /** cp_create with its loop of insertions at the head. */
  function Create(totalsize: int, created: seq<Co>): Pool {
    Grow(Pool(totalsize, 0, [], [], map[]), created)
  }

  lemma CreatedInv(totalsize: int, created: seq<Co>)
    requires 0 < totalsize == |created| && Distinct(created)
    ensures Inv(System(Create(totalsize, created), {}, set c | c in created, {}, totalsize, map[]))
  {
    var p := Pool(totalsize, 0, [], [], map[]);
    GrowKeeps(p, created, {}, {});
    GrowSize(p, created);
    assert {} + (set c | c in created) == set c | c in created;
  }

  lemma {:induction false} GrowSize(p: Pool, created: seq<Co>)
    ensures Grow(p, created).totalsize == p.totalsize
    decreases created
  {
    if created != [] { GrowSize(NotifyFirst(Push(p, created[0])), created[1..]); }
  }

  ghost function Start(totalsize: int, created: seq<Co>): (s: System)
    requires 0 < totalsize == |created| && Distinct(created)
    ensures Inv(s)
  {
    CreatedInv(totalsize, created);
    System(Create(totalsize, created), {}, set c | c in created, {}, totalsize, map[])
  }

  /**
   Pool safety over every run: the free list and the coroutines at work are
   disjoint and together cover the size, so an obtain that sees one available
   never pops an empty list and no shrink removes more than is there. A caller
   that is still untold finds its own node in the queue when it times out, and
   is only left waiting while every available coroutine is promised to others.
   */
  lemma {:induction false} PoolSafety(totalsize: int, created: seq<Co>, events: seq<Event>)
    requires 0 < totalsize == |created| && Distinct(created) && IsRun(Start(totalsize, created), events)
    ensures var s := Run(Start(totalsize, created), events);
            && |s.pool.freelist| + s.pool.activenum >= s.pool.totalsize
            && s.pool.activenum == |s.working| && (forall c :: c in s.pool.freelist ==> c !in s.working)
            && (Available(s.pool) > 0 ==> s.pool.freelist != [])
            && (forall n :: n < s.pool.totalsize ==> Excess(s.pool, n) <= |s.pool.freelist|)
            && (forall t :: t in s.pool.fds && s.pool.fds[t] == 0 ==> t in s.pool.sublist)
            && (s.pool.sublist != [] ==> Available(s.pool) <= |Told(s.pool)|)
  {
    NeverPopsEmpty(Run(Start(totalsize, created), events));
  }

  // --------------------------------------------------------- what a call answers

  lemma NextAsked(s: System, e: Event)
    requires Inv(s) && Enabled(s, e) && s.pool.totalsize == s.asked
    ensures Next(s, e).pool.totalsize == Next(s, e).asked
  {
    if e.ResizeCall? { GrowSize(s.pool, e.created); }
  }

  lemma {:induction false} RunAsked(s: System, events: seq<Event>)
    requires Inv(s) && s.pool.totalsize == s.asked && IsRun(s, events)
    ensures Run(s, events).pool.totalsize == Run(s, events).asked
    decreases events
  {
    if events != [] {
      NextKeeps(s, events[0]);
      NextAsked(s, events[0]);
      RunAsked(Next(s, events[0]), events[1..]);
    }
  }

  lemma {:induction false} SizeIsAsked(totalsize: int, created: seq<Co>, events: seq<Event>)
    requires 0 < totalsize == |created| && Distinct(created) && IsRun(Start(totalsize, created), events)
    ensures var s := Run(Start(totalsize, created), events);
            && s.pool.totalsize == s.asked && s.pool.activenum == |s.working|
            && (Available(s.pool) > 0 ==> s.pool.freelist != [])
  {
    GrowSize(Pool(totalsize, 0, [], [], map[]), created);
    RunAsked(Start(totalsize, created), events);
    NeverPopsEmpty(Run(Start(totalsize, created), events));
  }

  /** A coroutine if fewer are at work than were asked for; otherwise parked, or how many are available. */
  ghost predicate Answers(s: System, o: Outcome, mayPark: bool) {
    if |s.working| < s.asked then o.Obtained? && s.pool.freelist != [] && o.co == s.pool.freelist[0]
    else if mayPark then o.Parked?
    else o == Returned(s.asked - |s.working|)
  }

  /**
   In every run an obtain, when called and again when it resumes, gets a free coroutine
   exactly when fewer are at work than the size last asked for. Otherwise it parks if it
   may, and else returns how many are available, which is not positive.
   */
  lemma {:induction false} ObtainAnswers(
        totalsize: int, created: seq<Co>, events: seq<Event>, t: Ticket, timeout: int)
    requires 0 < totalsize == |created| && Distinct(created) && IsRun(Start(totalsize, created), events)
    ensures var s := Run(Start(totalsize, created), events);
            && (Available(s.pool) > 0 ==> s.pool.freelist != [])
            && Answers(s, Obtain(s.pool, t, timeout).1, timeout != 0)
            && (t in s.pool.fds ==> Answers(s, ObtainWake(s.pool, t).1, false))
  {
    SizeIsAsked(totalsize, created, events);
  }

  function Max(a: int, b: int): int {
    if a >= b then a else b
  }

  /**
   In every run a shrink takes off the front of the free list as many coroutines as the
   size exceeds both the new size and the number at work, and none if it does not. Nobody
   at work or waiting is touched.
   */
  lemma {:induction false} ShrinkTakes(totalsize: int, created: seq<Co>, events: seq<Event>, n: int)
    requires 0 < totalsize == |created| && Distinct(created) && IsRun(Start(totalsize, created), events)
    requires n < Run(Start(totalsize, created), events).asked
    ensures var s := Run(Start(totalsize, created), events);
            && Enabled(s, ResizeCall(n, []))
            && var s', k := Next(s, ResizeCall(n, [])), Max(0, s.asked - Max(n, |s.working|));
               && k <= |s.pool.freelist| && s'.pool.freelist == s.pool.freelist[k..]
               && s'.working == s.working && s'.pool.sublist == s.pool.sublist && s'.pool.fds == s.pool.fds
  {
    SizeIsAsked(totalsize, created, events);
    NeverPopsEmpty(Run(Start(totalsize, created), events));
  }

  function LatestFirst(created: seq<Co>): seq<Co> {
    if created == [] then [] else LatestFirst(created[1..]) + [created[0]]
  }

  /** From `p` to `q` the first `k` callers of the queue are told, once each. */
  ghost predicate Tells(p: Pool, k: nat, q: Pool)
    requires k <= |p.sublist|
  {
    && q.sublist == p.sublist[k..] && q.fds.Keys == p.fds.Keys
    && (forall t :: t in p.fds ==> q.fds[t] == p.fds[t] + if t in p.sublist[..k] then 1 else 0)
  }

  /** The new coroutines are in front, the latest first, and the longest waiting callers, one for each, are told. */
  ghost predicate Grown(p: Pool, created: seq<Co>, q: Pool) {
    q.freelist == LatestFirst(created) + p.freelist && Tells(p, Least(|created|, |p.sublist|), q)
  }

  lemma NotifyTells(p: Pool)
    requires QueueOk(p)
    ensures Tells(p, Least(1, |p.sublist|), NotifyFirst(p))
  {
    if p.sublist != [] { assert p.sublist[0] in p.sublist && p.sublist[..1] == [p.sublist[0]]; }
  }

  lemma TellsMore(p: Pool, i: nat, q: Pool, j: nat, r: Pool)
    requires QueueOk(p) && i <= |p.sublist| && Tells(p, i, q) && j <= |q.sublist| && Tells(q, j, r)
    ensures Tells(p, i + j, r)
  {
    var a, b := p.sublist[..i], q.sublist[..j];
    assert p.sublist[..i + j] == a + b && p.sublist[i..][j..] == p.sublist[i + j..];
    forall t | t in p.fds ensures r.fds[t] == p.fds[t] + if t in a + b then 1 else 0 {
      assert t in a + b <==> t in a || t in b;
      assert !(t in a && t in b);
    }
  }

  lemma {:induction false} GrowQueue(p: Pool, created: seq<Co>)
    requires QueueOk(p)
    ensures Tells(p, Least(|created|, |p.sublist|), Grow(p, created))
    decreases created
  {
    if created == [] {
      assert p.sublist[..0] == [];
    } else {
      var p0 := Push(p, created[0]);
      var p' := NotifyFirst(p0);
      NotifyFirstKeeps(p0);
      NotifyTells(p0);
      GrowQueue(p', created[1..]);
      TellsMore(p0, Least(1, |p.sublist|), p', Least(|created| - 1, |p'.sublist|), Grow(p', created[1..]));
    }
  }

  lemma {:induction false} GrowFree(p: Pool, created: seq<Co>)
    ensures Grow(p, created).freelist == LatestFirst(created) + p.freelist
    decreases created
  {
    if created != [] {
      var p' := NotifyFirst(Push(p, created[0]));
      GrowFree(p', created[1..]);
      Regroup(LatestFirst(created[1..]), created[0], p.freelist);
    }
  }

  lemma Regroup(a: seq<Co>, c: Co, b: seq<Co>)
    ensures a + ([c] + b) == a + [c] + b
  {
  }

  /** In every run a growth creates what is missing and tells as many callers, the longest waiting first. */
  lemma {:induction false} GrowthTells(
        totalsize: int, created: seq<Co>, events: seq<Event>, n: int, more: seq<Co>)
    requires 0 < totalsize == |created| && Distinct(created) && IsRun(Start(totalsize, created), events)
    requires n > Run(Start(totalsize, created), events).asked
    requires Enabled(Run(Start(totalsize, created), events), ResizeCall(n, more))
    ensures var s := Run(Start(totalsize, created), events);
            var s' := Next(s, ResizeCall(n, more));
            Grown(s.pool, more, s'.pool) && |more| == n - s.asked && s'.working == s.working
  {
    SizeIsAsked(totalsize, created, events);
    GrowQueue(Run(Start(totalsize, created), events).pool, more);
    GrowFree(Run(Start(totalsize, created), events).pool, more);
  }

  /** In every run a returned coroutine is the next to be obtained, and the longest waiting caller is told. */
  lemma {:induction false} ReturnAnswers(
        totalsize: int, created: seq<Co>, events: seq<Event>, c: Co, t: Ticket, timeout: int)
    requires 0 < totalsize == |created| && Distinct(created) && IsRun(Start(totalsize, created), events)
    requires c in Run(Start(totalsize, created), events).working
    ensures var s := Run(Start(totalsize, created), events);
            var s' := Next(s, ReturnCall(c));
            && s'.working == s.working - {c} && s'.pool.freelist == [c] + s.pool.freelist
            && (|s'.working| < s'.asked ==> Obtain(s'.pool, t, timeout).1 == Obtained(c))
            && Told(s'.pool) == Told(s.pool) + (if s.pool.sublist == [] then {} else {s.pool.sublist[0]})
  {
    SizeIsAsked(totalsize, created, events);
    var s := Run(Start(totalsize, created), events);
    ReturnTold(s.pool, c);
    assert |s.working - {c}| == |s.working| - 1;
  }

  lemma ReturnTold(p: Pool, c: Co)
    requires QueueOk(p)
    ensures var q := Return(p, c);
            && q.freelist == [c] + p.freelist && q.activenum == p.activenum - 1 && q.totalsize == p.totalsize
            && Told(q) == Told(p) + (if p.sublist == [] then {} else {p.sublist[0]})
  {
    if p.sublist != [] { assert p.sublist[0] in p.sublist; }
  }

  // ------------------------------------------------------- first come, first told

  ghost predicate Rising(q: seq<Ticket>, since: map<Ticket, nat>) {
    (forall t :: t in q ==> t in since) && forall i, j :: 0 <= i < j < |q| ==> since[q[i]] < since[q[j]]
  }

  /** The queue is in the order of the calls, and whoever was told called before everyone in it. */
  ghost predicate Ordered(p: Pool, since: map<Ticket, nat>) {
    && (forall t :: t in p.fds ==> t in since) && Rising(p.sublist, since)
    && (forall t, u :: t in Told(p) && u in p.sublist ==> since[t] < since[u])
  }

  ghost predicate InOrder(s: System) {
    Ordered(s.pool, s.since) && forall t :: t in s.pool.fds ==> s.since[t] < |s.used|
  }

  lemma NotifyOrdered(p: Pool, since: map<Ticket, nat>)
    requires QueueOk(p) && Ordered(p, since)
    ensures Ordered(NotifyFirst(p), since)
  {
    if p.sublist != [] {
      var q, t := NotifyFirst(p), p.sublist[0];
      assert t in p.sublist;
      assert forall i :: 0 <= i < |q.sublist| ==> q.sublist[i] == p.sublist[i + 1];
      assert Told(q) == Told(p) + {t};
    }
  }

  lemma {:induction false} GrowOrdered(p: Pool, created: seq<Co>, since: map<Ticket, nat>)
    requires QueueOk(p) && Ordered(p, since)
    ensures Ordered(Grow(p, created), since)
    decreases created
  {
    if created != [] {
      var q := Push(p, created[0]);
      assert Told(q) == Told(p);
      NotifyFirstKeeps(q);
      NotifyOrdered(q, since);
      GrowOrdered(NotifyFirst(q), created[1..], since);
    }
  }

  lemma ParkOrdered(s: System, t: Ticket)
    requires Inv(s) && InOrder(s) && t !in s.used
    ensures Ordered(s.pool.(sublist := s.pool.sublist + [t], fds := s.pool.fds[t := 0]), s.since[t := |s.used|])
  {
    var p := s.pool.(sublist := s.pool.sublist + [t], fds := s.pool.fds[t := 0]);
    assert forall u :: u in p.sublist <==> u == t || u in s.pool.sublist;
    assert Told(p) == Told(s.pool);
    assert forall i :: 0 <= i < |s.pool.sublist| ==> s.pool.sublist[i] in s.pool.sublist;
  }

  lemma RisingRest(q: seq<Ticket>, since: map<Ticket, nat>)
    requires Rising(q, since) && q != []
    ensures Rising(q[1..], since) && forall t :: t in q[1..] ==> since[q[0]] < since[t]
  {
    assert forall i :: 0 <= i < |q[1..]| ==> q[1..][i] == q[i + 1];
  }

  lemma RisingCons(t: Ticket, q: seq<Ticket>, since: map<Ticket, nat>)
    requires Rising(q, since) && t in since && forall u :: u in q ==> since[t] < since[u]
    ensures Rising([t] + q, since)
  {
    var r := [t] + q;
    forall i, j | 0 <= i < j < |r| ensures since[r[i]] < since[r[j]] {
      assert r[j] == q[j - 1] && q[j - 1] in q;
    }
  }

  lemma {:induction false} UnlinkOrdered(q: seq<Ticket>, t: Ticket, since: map<Ticket, nat>)
    requires Rising(q, since)
    ensures Rising(Unlink(q, t), since) && forall u :: u in Unlink(q, t) ==> u in q
  {
    if q != [] {
      RisingRest(q, since);
      if q[0] != t {
        UnlinkOrdered(q[1..], t, since);
        RisingCons(q[0], Unlink(q[1..], t), since);
      }
    }
  }

  /** A caller that resumes leaves the order of the others alone. */
  lemma {:induction false} LeaveOrdered(p: Pool, t: Ticket, q: Pool, since: map<Ticket, nat>)
    requires Ordered(p, since) && t in p.fds && q.fds == p.fds - {t}
    requires q.sublist == if p.fds[t] == 0 then Unlink(p.sublist, t) else p.sublist
    ensures Ordered(q, since)
  {
    UnlinkOrdered(p.sublist, t, since);
    assert Told(q) <= Told(p);
  }

  lemma WakeOrdered(s: System, t: Ticket)
    requires Inv(s) && InOrder(s) && t in s.pool.fds
    ensures InOrder(Next(s, ObtainResumed(t)))
  {
    LeaveOrdered(s.pool, t, Next(s, ObtainResumed(t)).pool, s.since);
  }

  lemma NextInOrder(s: System, e: Event)
    requires Inv(s) && InOrder(s) && Enabled(s, e)
    ensures InOrder(Next(s, e))
  {
    match e {
      case ObtainCall(t, timeout) =>
        ObtainOrdered(s, t, timeout);
      case ObtainResumed(t) => WakeOrdered(s, t);
      case ReturnCall(c) =>
        var q := Push(s.pool, c).(activenum := s.pool.activenum - 1);
        assert Told(q) == Told(s.pool);
        NotifyOrdered(q, s.since);
      case ResizeCall(n, created) => ResizeOrdered(s, n, created);
    }
  }

  lemma ObtainOrdered(s: System, t: Ticket, timeout: int)
    requires Inv(s) && InOrder(s) && t !in s.used
    ensures InOrder(Next(s, ObtainCall(t, timeout)))
  {
    ParkOrdered(s, t);
    var p' := Next(s, ObtainCall(t, timeout)).pool;
    if p'.fds == s.pool.fds { assert Told(p') == Told(s.pool); }
  }

  lemma ResizeOrdered(s: System, n: int, created: seq<Co>)
    requires Inv(s) && InOrder(s) && Enabled(s, ResizeCall(n, created))
    ensures InOrder(Next(s, ResizeCall(n, created)))
  {
    var p' := Next(s, ResizeCall(n, created)).pool;
    if n > s.pool.totalsize {
      GrowOrdered(s.pool, created, s.since);
      GrowKeeps(s.pool, created, s.working, s.known);
      assert Told(p') == Told(Grow(s.pool, created));
    } else {
      assert Told(p') == Told(s.pool);
    }
  }

  lemma {:induction false} RunInOrder(s: System, events: seq<Event>)
    requires Inv(s) && InOrder(s) && IsRun(s, events)
    ensures InOrder(Run(s, events))
    decreases events
  {
    if events != [] {
      NextKeeps(s, events[0]);
      NextInOrder(s, events[0]);
      RunInOrder(Next(s, events[0]), events[1..]);
    }
  }

  /** In every run whoever has been told called before everyone who still waits, and the queue is in that order. */
  lemma {:induction false} FirstComeFirstTold(totalsize: int, created: seq<Co>, events: seq<Event>)
    requires 0 < totalsize == |created| && Distinct(created) && IsRun(Start(totalsize, created), events)
    ensures var s := Run(Start(totalsize, created), events); Ordered(s.pool, s.since)
  {
    StartTold(totalsize, created);
    GrowKeeps(Pool(totalsize, 0, [], [], map[]), created, {}, {});
    RunInOrder(Start(totalsize, created), events);
  }

  // ----------------------------------------------------- whether told means obtained

  /** There is an available coroutine for everyone who was told. */
  ghost predicate Promised(p: Pool) {
    Told(p) == {} || |Told(p)| <= Available(p)
  }

  /** Every available coroutine is promised, and there is one. */
  ghost predicate AllSpoken(p: Pool) {
    Told(p) != {} && Available(p) == |Told(p)|
  }

  /**
   The guards: nobody untold takes a coroutine while all are spoken for, no shrink cuts
   into promised ones, and nobody is told while more are at work than the size allows
   and the new ones do not suffice.
   */
  ghost predicate Honours(s: System, e: Event) {
    var p := s.pool;
    match e
    case ObtainCall(_, _) => !AllSpoken(p)
    case ObtainResumed(t) => t in Told(p) || !AllSpoken(p)
    case ReturnCall(_) => p.sublist == [] || Available(p) >= 0
    case ResizeCall(n, created) =>
      if n < p.totalsize then Told(p) == {} || |Told(p)| <= n - p.activenum
      else p.sublist == [] || Available(p) >= 0 || Least(|created|, |p.sublist|) <= n - p.activenum || n == p.totalsize
  }

  lemma TakeTold(p: Pool)
    requires Available(p) > 0 ==> p.freelist != []
    ensures var (q, o) := Take(p);
            && Told(q) == Told(p) && (o.Obtained? <==> Available(p) > 0)
            && Available(q) == if Available(p) > 0 then Available(p) - 1 else Available(p)
  {
  }

  lemma ObtainHonoursIff(s: System, t: Ticket, timeout: int)
    requires Inv(s) && Promised(s.pool) && t !in s.used
    ensures Promised(Next(s, ObtainCall(t, timeout)).pool) <==> Honours(s, ObtainCall(t, timeout))
  {
    var p := s.pool;
    NeverPopsEmpty(s);
    TakeTold(p);
    assert Told(p.(sublist := p.sublist + [t], fds := p.fds[t := 0])) == Told(p);
  }

  lemma WakeHonoursIff(s: System, t: Ticket)
    requires Inv(s) && Promised(s.pool) && t in s.pool.fds
    ensures Promised(Next(s, ObtainResumed(t)).pool) <==> Honours(s, ObtainResumed(t))
    ensures t in Told(s.pool) ==> Available(s.pool) > 0 && ObtainWake(s.pool, t).1.Obtained?
  {
    var p := s.pool;
    NeverPopsEmpty(s);
    var p' := p.(sublist := if p.fds[t] == 0 then Unlink(p.sublist, t) else p.sublist, fds := p.fds - {t});
    assert Told(p') == Told(p) - {t};
    assert t in Told(p) ==> |Told(p) - {t}| == |Told(p)| - 1;
    TakeTold(p');
    assert Told(p) == {} <==> |Told(p)| == 0;
  }

  lemma ReturnHonoursIff(s: System, c: Co)
    requires Inv(s) && Promised(s.pool) && c in s.working
    ensures Promised(Next(s, ReturnCall(c)).pool) <==> Honours(s, ReturnCall(c))
  {
    var p := Push(s.pool, c).(activenum := s.pool.activenum - 1);
    assert Told(p) == Told(s.pool);
    NotifyFirstKeeps(p);
    assert Told(NotifyFirst(p)) == {} <==> |Told(NotifyFirst(p))| == 0;
  }

  lemma ResizeHonoursIff(s: System, n: int, created: seq<Co>)
    requires Inv(s) && Promised(s.pool) && Enabled(s, ResizeCall(n, created))
    ensures Promised(Next(s, ResizeCall(n, created)).pool) <==> Honours(s, ResizeCall(n, created))
  {
    var p := s.pool;
    NeverPopsEmpty(s);
    var q := Next(s, ResizeCall(n, created)).pool;
    if p.totalsize < n {
      GrowKeeps(p, created, s.working, s.known);
      assert Told(q) == Told(Grow(p, created));
      assert Told(q) == {} <==> |Told(q)| == 0;
    } else {
      assert Told(q) == Told(p);
    }
  }

  /** Each event keeps a coroutine for everyone who was told exactly when it honours its guard. */
  lemma HonoursIff(s: System, e: Event)
    requires Inv(s) && Promised(s.pool) && Enabled(s, e)
    ensures Promised(Next(s, e).pool) <==> Honours(s, e)
  {
    match e {
      case ObtainCall(t, timeout) => ObtainHonoursIff(s, t, timeout);
      case ObtainResumed(t) => WakeHonoursIff(s, t);
      case ReturnCall(c) => ReturnHonoursIff(s, c);
      case ResizeCall(n, created) => ResizeHonoursIff(s, n, created);
    }
  }

  ghost predicate AllHonour(s: System, events: seq<Event>)
    requires Inv(s) && IsRun(s, events)
    decreases events
  {
    events == [] ||
    (Honours(s, events[0]) && (NextKeeps(s, events[0]); AllHonour(Next(s, events[0]), events[1..])))
  }

  lemma {:induction false} RunPromised(s: System, events: seq<Event>)
    requires Inv(s) && Promised(s.pool) && IsRun(s, events) && AllHonour(s, events)
    ensures Promised(Run(s, events).pool)
    decreases events
  {
    if events != [] {
      NextKeeps(s, events[0]);
      HonoursIff(s, events[0]);
      RunPromised(Next(s, events[0]), events[1..]);
    }
  }

  /** In runs that honour the guards, everyone who was told obtains a coroutine on resuming. */
  lemma {:induction false} ToldObtains(totalsize: int, created: seq<Co>, events: seq<Event>, t: Ticket)
    requires 0 < totalsize == |created| && Distinct(created)
    requires IsRun(Start(totalsize, created), events) && AllHonour(Start(totalsize, created), events)
    requires t in Told(Run(Start(totalsize, created), events).pool)
    ensures var p := Run(Start(totalsize, created), events).pool;
            Available(p) > 0 && p.freelist != [] && ObtainWake(p, t).1.Obtained?
  {
    var s0 := Start(totalsize, created);
    StartTold(totalsize, created);
    RunPromised(s0, events);
    NeverPopsEmpty(Run(s0, events));
    WakeHonoursIff(Run(s0, events), t);
  }

  lemma StartTold(totalsize: int, created: seq<Co>)
    requires 0 < totalsize == |created| && Distinct(created)
    ensures Told(Start(totalsize, created).pool) == {}
  {
    var p := Pool(totalsize, 0, [], [], map[]);
    GrowKeeps(p, created, {}, {});
    assert Told(p) == {};
  }

  lemma {:induction false} RunOf(s: System, e: Event, next: System, rest: seq<Event>)
    requires Inv(s) && Enabled(s, e) && Next(s, e) == next && Inv(next) && IsRun(next, rest)
    ensures IsRun(s, [e] + rest) && Run(s, [e] + rest) == Run(next, rest)
  {
    assert ([e] + rest)[1..] == rest;
  }

  /** The coroutine that is returned is promised to the caller that waits. */
  lemma ReturnTells(s: System, t: System)
    requires Inv(s) && s == System(Pool(1, 1, [], [1], map[1 := 0]), {5}, {5}, {0, 1}, 1, map[1 := 1])
    requires t == System(Pool(1, 0, [5], [], map[1 := 1]), {}, {5}, {0, 1}, 1, map[1 := 1])
    ensures Enabled(s, ReturnCall(5)) && Next(s, ReturnCall(5)) == t
  {
    assert [1][1..] == [] && [5] + [] == [5];
    assert map[1 := 0][1 := 1] == map[1 := 1];
  }

  /** The caller that was told is overtaken by one that did not have to wait. */
  lemma Overtaken(s: System) returns (events: seq<Event>)
    requires Inv(s) && s == System(Pool(1, 0, [5], [], map[1 := 1]), {}, {5}, {0, 1}, 1, map[1 := 1])
    ensures IsRun(s, events) && Run(s, events).pool == Pool(1, 1, [], [], map[1 := 1])
  {
    var e := ObtainCall(2, 0);
    NextKeeps(s, e);
    RunOf(s, e, Next(s, e), []);
    events := [e] + [];
  }

  lemma OneWaits(s: System) returns (events: seq<Event>)
    requires Inv(s) && s == System(Pool(1, 1, [], [1], map[1 := 0]), {5}, {5}, {0, 1}, 1, map[1 := 1])
    ensures IsRun(s, events) && Run(s, events).pool == Pool(1, 1, [], [], map[1 := 1])
  {
    var t := System(Pool(1, 0, [5], [], map[1 := 1]), {}, {5}, {0, 1}, 1, map[1 := 1]);
    ReturnTells(s, t);
    NextKeeps(s, ReturnCall(5));
    events := Overtaken(t);
    RunOf(s, ReturnCall(5), t, events);
    events := [ReturnCall(5)] + events;
  }

  lemma OneAtWork(s: System) returns (events: seq<Event>)
    requires Inv(s) && s == System(Pool(1, 1, [], [], map[]), {5}, {5}, {0}, 1, map[])
    ensures IsRun(s, events) && Run(s, events).pool == Pool(1, 1, [], [], map[1 := 1])
  {
    var e := ObtainCall(1, -1);
    var t := Next(s, e);
    NextKeeps(s, e);
    assert t == System(Pool(1, 1, [], [1], map[1 := 0]), {5}, {5}, {0, 1}, 1, map[1 := 1]);
    events := OneWaits(t);
    RunOf(s, e, t, events);
    events := [e] + events;
  }

  lemma OneFree(s: System) returns (events: seq<Event>)
    requires Inv(s) && s == System(Pool(1, 0, [5], [], map[]), {}, {5}, {}, 1, map[])
    ensures IsRun(s, events) && Run(s, events).pool == Pool(1, 1, [], [], map[1 := 1])
  {
    var e := ObtainCall(0, 0);
    var t := Next(s, e);
    NextKeeps(s, e);
    assert t == System(Pool(1, 1, [], [], map[]), {5}, {5}, {0}, 1, map[]);
    events := OneAtWork(t);
    RunOf(s, e, t, events);
    events := [e] + events;
  }

  /** Without the guards a told caller gets 0: in a pool of one, the next obtain takes what was returned for it. */
  lemma ToldCanFail() returns (events: seq<Event>)
    ensures IsRun(Start(1, [5]), events)
    ensures var p := Run(Start(1, [5]), events).pool;
            1 in Told(p) && Available(p) <= 0 && ObtainWake(p, 1).1 == Returned(0)
  {
    var s0 := Start(1, [5]);
    assert (set c | c in [5]) == {5};
    assert s0.pool == Pool(1, 0, [5], [], map[]);
    events := OneFree(s0);
  }
}

module CoroPoolHeap {
  import opened Waiters
  import opened CoroPoolSpec

  /** The pool object, updated in place. */
  class CoroPool {
    var totalsize: int
    var activenum: int
    var freelist: seq<Co>
    var sublist: seq<Ticket>
    var fds: map<Ticket, nat>

    ghost function View(): Pool
      reads this
    {
      Pool(totalsize, activenum, freelist, sublist, fds)
    }

    /** Every queued caller still owns its eventfd. */
    ghost predicate Valid()
      reads this
    {
      forall t :: t in sublist ==> t in fds
    }

    /** cp_create. */
    constructor (size: int, created: seq<Co>)
      requires 0 < size == |created|
      ensures Valid() && View() == Create(size, created)
    {
      totalsize, activenum, freelist, sublist, fds := size, 0, [], [], map[];
      new;
      var i := 0;
      while i < size
        invariant 0 <= i <= size && Valid() && sublist == []
        invariant Grow(View(), created[i..]) == Create(size, created)
      {
        assert created[i..][0] == created[i] && created[i..][1..] == created[i + 1..];
        freelist := [created[i]] + freelist;
        i := i + 1;
      }
    }

    method TellFirst()
      requires Valid()
      modifies this`sublist, this`fds
      ensures Valid() && View() == NotifyFirst(old(View()))
    {
      if sublist != [] {
        var head := sublist[0];
        assert head in sublist;
        fds := fds[head := fds[head] + 1];
        sublist := sublist[1..];
      }
    }

    method GrowTo(newsize: int, created: seq<Co>)
      requires Valid() && totalsize < newsize && |created| == newsize - totalsize
      modifies this
      ensures Valid() && View() == Grow(old(View()), created).(totalsize := newsize)
    {
      var i := totalsize;
      while i < newsize
        invariant old(totalsize) <= i <= newsize && Valid() && totalsize == old(totalsize)
        invariant Grow(View(), created[i - old(totalsize)..]) == Grow(old(View()), created)
      {
        ghost var rest := created[i - old(totalsize)..];
        assert rest[1..] == created[i + 1 - old(totalsize)..];
        freelist := [created[i - totalsize]] + freelist;
        TellFirst();
        i := i + 1;
      }
      totalsize := newsize;
    }

    method ShrinkTo(newsize: int)
      requires newsize < totalsize && Excess(View(), newsize) <= |freelist|
      modifies this`totalsize, this`freelist
      ensures View() == CoroPoolSpec.Resize(old(View()), newsize, [])
    {
      var n := if newsize >= activenum then totalsize - newsize else totalsize - activenum;
      var i := 0;
      while i < n
        invariant 0 <= i && (i <= n || i == 0) && i <= |old(freelist)|
        invariant freelist == old(freelist)[i..]
      {
        freelist := freelist[1..];
        i := i + 1;
      }
      totalsize := newsize;
    }

    /** cp_resize; `created` are the coroutines that growing creates. */
    method Resize(newsize: int, created: seq<Co>)
      requires Valid()
      requires |created| == if totalsize < newsize then newsize - totalsize else 0
      requires newsize < totalsize ==> Excess(View(), newsize) <= |freelist|
      modifies this
      ensures Valid() && View() == CoroPoolSpec.Resize(old(View()), newsize, created)
    {
      if newsize == totalsize {
        return;
      }
      if totalsize < newsize {
        GrowTo(newsize, created);
      } else {
        ShrinkTo(newsize);
      }
    }

    method TakeFirst() returns (o: Outcome)
      requires Available(View()) > 0 ==> freelist != []
      modifies this`freelist, this`activenum
      ensures (View(), o) == Take(old(View()))
    {
      if totalsize - activenum <= 0 {
        return Returned(totalsize - activenum);
      }
      var co := freelist[0];
      freelist := freelist[1..];
      activenum := activenum + 1;
      return Obtained(co);
    }

    /** cp_obtain up to its wait. */
    method Obtain(t: Ticket, timeout: int) returns (o: Outcome)
      requires Valid()
      requires Available(View()) > 0 ==> freelist != []
      modifies this
      ensures Valid() && (View(), o) == CoroPoolSpec.Obtain(old(View()), t, timeout)
    {
      if totalsize - activenum > 0 || timeout == 0 {
        o := TakeFirst();
      } else {
        fds := fds[t := 0];
        sublist := sublist + [t];
        o := Parked;
      }
    }

    /** cp_obtain from the point where its wait ends. */
    method ObtainWake(t: Ticket) returns (o: Outcome)
      requires t in fds && (fds[t] == 0 ==> t in sublist)
      requires Available(View()) > 0 ==> freelist != []
      modifies this
      ensures (View(), o) == CoroPoolSpec.ObtainWake(old(View()), t)
    {
      if fds[t] == 0 {
        sublist := UnlinkWalk(sublist, t);
      }
      fds := fds - {t};
      o := TakeFirst();
    }

    /** cp_return. */
    method Return(c: Co)
      requires Valid()
      modifies this
      ensures Valid() && View() == CoroPoolSpec.Return(old(View()), c)
    {
      freelist := [c] + freelist;
      activenum := activenum - 1;
      TellFirst();
    }
  }
}
