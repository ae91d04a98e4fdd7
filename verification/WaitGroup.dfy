/**
 The waitgroup of src/dyco_waitgroup.c, its two kinds of waiter lists and the
 eventfds of the parked callers. Waits are cut at their wait point.
 */
module WaitGroupSpec {
  import opened Waiters

  type Cid = int

  /** `targets` is target_sublist_map, `final` is final_sublist, both lists from the head. */
  datatype Group = Group(totSize: nat, finished: nat, members: set<Cid>,
                         targets: map<nat, seq<Ticket>>, final: seq<Ticket>, fds: map<Ticket, nat>)

  datatype Outcome = Parked | Returned(ret: int)

  /** dyco_waitgroup_add. */
  function Add(g: Group, cid: Cid): (Group, int) {
    if cid in g.members then (g, 0)
    else (g.(members := g.members + {cid}, totSize := g.totSize + 1), 1)
  }

  /** The list for a target; a target of at most 0 stands for all and is written 0. */
  function Goal(target: int): nat {
    if target <= 0 then 0 else target
  }

  function ListFor(g: Group, goal: nat): seq<Ticket> {
    if goal == 0 then g.final else if goal in g.targets then g.targets[goal] else []
  }

  /** dyco_waitgroup_done by the coroutine `cid`. */
  function Done(g: Group, cid: Cid): (Group, int) {
    if cid !in g.members then (g, 0)
    else
      var f := g.finished + 1;
      var fds := NotifyAll(g.fds, ListFor(g, f), f);
      (g.(finished := f, fds := if f == g.totSize then NotifyAll(fds, g.final, f) else fds), 1)
  }

  /** dyco_waitgroup_wait, with a nonzero timeout, up to its wait. */
  function Wait(g: Group, t: Ticket, target: int): (Group, Outcome) {
    var goal := Goal(target);
    var list := ListFor(g, goal);
    var g' := g.(fds := g.fds[t := 0]);
    if goal == 0 then
      if g.finished == g.totSize then (g, Returned(g.finished))
      else (g'.(final := if list == [] then [t] else [list[0], t] + list[1..]), Parked)
    else if g.finished >= goal then (g, Returned(goal))
    else (g'.(targets := g.targets[goal := [t] + list]), Parked)
  }

  /** A waiter resumed by its notification or its timeout. */
  function Wake(g: Group, t: Ticket, goal: nat): (Group, Outcome)
    requires t in g.fds
  {
    var rest := Unlink(ListFor(g, goal), t);
    var g' := g.(fds := g.fds - {t});
    var g'' := if goal == 0 then g'.(final := rest)
               else if rest == [] then g'.(targets := g.targets - {goal})
               else g'.(targets := g.targets[goal := rest]);
    (g'', Returned(if g.fds[t] > 0 then g.fds[t] else -1))
  }

  // ------------------------------------------------------------- all callers

  /**
   `waiting` maps every parked call to its goal and `hits` to the sizes at which the
   group was complete since it parked; `doneBy` holds the members that called done.
   */
  datatype System = System(
    group: Group,
    waiting: map<Ticket, nat>,
    hits: map<Ticket, seq<nat>>,
    used: set<Ticket>,
    doneBy: set<Cid>)

  datatype Event =
    | AddCall(cid: Cid)
    | DoneCall(cid: Cid)
    | WaitCall(ticket: Ticket, target: int)
    | Resumed(ticket: Ticket)

  predicate Enabled(s: System, e: Event) {
    match e
    case AddCall(_) => true
    case DoneCall(c) => true
    case WaitCall(t, _) => t !in s.used
    case Resumed(t) => t in s.waiting && t in s.group.fds
  }

  function Next(s: System, e: Event): System
    requires Enabled(s, e)
  {
    match e
    case AddCall(c) => s.(group := Add(s.group, c).0)
    case DoneCall(c) =>
      var (g, r) := Done(s.group, c);
      s.(group := g,
         doneBy := if r == 1 then s.doneBy + {c} else s.doneBy,
         hits := if r == 1 && g.finished == g.totSize then map t | t in s.hits :: s.hits[t] + [g.finished] else s.hits)
    case WaitCall(t, target) =>
      var (g, o) := Wait(s.group, t, target);
      var s' := s.(group := g, used := s.used + {t});
      if o.Parked? then s'.(waiting := s.waiting[t := Goal(target)], hits := s.hits[t := []]) else s'
    case Resumed(t) =>
      s.(group := Wake(s.group, t, s.waiting[t]).0, waiting := s.waiting - {t}, hits := s.hits - {t})
  }

  function Created(): System {
    System(Group(0, 0, {}, map[], [], map[]), map[], map[], {}, {})
  }

  ghost predicate IsRun(s: System, events: seq<Event>)
    decreases events
  {
    events == [] || (Enabled(s, events[0]) && IsRun(Next(s, events[0]), events[1..]))
  }

  ghost function Run(s: System, events: seq<Event>): System
    requires IsRun(s, events)
    decreases events
  {
    if events == [] then s else Run(Next(s, events[0]), events[1..])
  }

  // -------------------------------------------------- what every event keeps

  /** The list for `goal` holds exactly the calls parked for it. */
  ghost predicate ListOk(list: seq<Ticket>, goal: nat, waiting: map<Ticket, nat>) {
    && Distinct(list)
    && (forall t :: t in list ==> t in waiting && waiting[t] == goal)
    && (forall t :: t in waiting && waiting[t] == goal ==> t in list)
  }

  ghost predicate ListsOk(s: System) {
    && s.waiting.Keys == s.group.fds.Keys && s.waiting.Keys <= s.used
    && 0 !in s.group.targets
    && (forall k: nat :: ListOk(ListFor(s.group, k), k, s.waiting))
  }

  function Sum(h: seq<nat>): nat {
    if h == [] then 0 else h[0] + Sum(h[1..])
  }

  /** What the eventfd of a parked call holds: its target once reached, or all the sizes it was told. */
  ghost predicate Told(goal: nat, fd: nat, hits: seq<nat>, finished: nat) {
    if goal > 0 then fd == (if finished < goal then 0 else goal)
    else fd == Sum(hits) && forall i :: 0 <= i < |hits| ==> hits[i] > 0
  }

  ghost predicate Inv(s: System) {
    && ListsOk(s) && s.hits.Keys == s.waiting.Keys
    && forall t :: t in s.waiting ==> Told(s.waiting[t], s.group.fds[t], s.hits[t], s.group.finished)
  }

  /** One call of done: each waiter's eventfd gains what its own list is sent. */
  lemma DoneFds(s: System, cid: Cid)
    requires ListsOk(s) && cid in s.group.members
    ensures var g := s.group;
            var (g', r) := Done(g, cid);
            && g'.fds.Keys == g.fds.Keys
            && forall t :: t in s.waiting ==>
                 var own := s.waiting[t] == g'.finished || (s.waiting[t] == 0 && g'.finished == g.totSize);
                 g'.fds[t] == g.fds[t] + if own then g'.finished else 0
  {
    var g := s.group;
    var f := g.finished + 1;
    var own := ListFor(g, f);
    assert ListOk(own, f, s.waiting) && ListOk(ListFor(g, 0), 0, s.waiting);
    NotifyAllResult(g.fds, own, f);
    NotifyAllResult(NotifyAll(g.fds, own, f), g.final, f);
  }

  lemma {:induction false} SumSnoc(h: seq<nat>, n: nat)
    ensures Sum(h + [n]) == Sum(h) + n
    decreases h
  {
    if h == [] {
      assert [n][1..] == [];
    } else {
      assert (h + [n])[1..] == h[1..] + [n];
      SumSnoc(h[1..], n);
    }
  }

  lemma DoneLists(s: System, cid: Cid)
    requires ListsOk(s) && cid in s.group.members
    ensures ListsOk(Next(s, DoneCall(cid)))
  {
    DoneFds(s, cid);
    assert forall k: nat :: ListFor(Next(s, DoneCall(cid)).group, k) == ListFor(s.group, k);
  }

  lemma DoneTold(s: System, cid: Cid, t: Ticket)
    requires Inv(s) && cid in s.group.members && t in s.waiting
    ensures var s' := Next(s, DoneCall(cid));
            && t in s'.group.fds && t in s'.hits
            && Told(s.waiting[t], s'.group.fds[t], s'.hits[t], s'.group.finished)
  {
    DoneFds(s, cid);
    assert Told(s.waiting[t], s.group.fds[t], s.hits[t], s.group.finished);
    SumSnoc(s.hits[t], s.group.finished + 1);
  }

  lemma DoneKeeps(s: System, cid: Cid)
    requires Inv(s)
    ensures Inv(Next(s, DoneCall(cid)))
  {
    if cid in s.group.members {
      var s' := Next(s, DoneCall(cid));
      DoneLists(s, cid);
      forall t | t in s'.waiting ensures Told(s'.waiting[t], s'.group.fds[t], s'.hits[t], s'.group.finished) {
        DoneTold(s, cid, t);
      }
    }
  }

  lemma AddKeeps(s: System, cid: Cid)
    requires Inv(s)
    ensures Inv(Next(s, AddCall(cid)))
  {
    var g' := Next(s, AddCall(cid)).group;
    assert forall k: nat :: ListFor(g', k) == ListFor(s.group, k);
  }

  lemma OtherList(list: seq<Ticket>, k: nat, waiting: map<Ticket, nat>, t: Ticket, goal: nat)
    requires ListOk(list, k, waiting) && k != goal
    ensures t !in waiting ==> ListOk(list, k, waiting[t := goal])
    ensures t in waiting && waiting[t] == goal ==> ListOk(list, k, waiting - {t})
  {
  }

  lemma WaitLists(s: System, t: Ticket, target: int)
    requires ListsOk(s) && t !in s.used && Wait(s.group, t, target).1.Parked?
    ensures ListsOk(Next(s, WaitCall(t, target)))
  {
    var s' := Next(s, WaitCall(t, target));
    var goal := Goal(target);
    forall k: nat ensures ListOk(ListFor(s'.group, k), k, s'.waiting) {
      var list := ListFor(s.group, k);
      assert ListOk(list, k, s.waiting);
      if k == goal {
        assert t !in list;
        if list != [] { assert list == [list[0]] + list[1..]; }
        assert forall u :: u in ListFor(s'.group, k) <==> u == t || u in list;
      } else {
        OtherList(list, k, s.waiting, t, goal);
      }
    }
  }

  lemma WaitKeeps(s: System, t: Ticket, target: int)
    requires Inv(s) && t !in s.used
    ensures Inv(Next(s, WaitCall(t, target)))
  {
    if Wait(s.group, t, target).1.Parked? { WaitLists(s, t, target); }
  }

  lemma WakeLists(s: System, t: Ticket)
    requires ListsOk(s) && t in s.waiting
    ensures t in s.group.fds && ListsOk(Next(s, Resumed(t)))
  {
    var s', goal := Next(s, Resumed(t)), s.waiting[t];
    forall k: nat ensures ListOk(ListFor(s'.group, k), k, s'.waiting) {
      var list := ListFor(s.group, k);
      assert ListOk(list, k, s.waiting);
      if k == goal {
        UnlinkResult(list, t);
        assert ListFor(s'.group, k) == Unlink(list, t);
      } else {
        OtherList(list, k, s.waiting, t, goal);
      }
    }
  }

  lemma NextKeeps(s: System, e: Event)
    requires Inv(s) && Enabled(s, e)
    ensures Inv(Next(s, e))
  {
    match e {
      case AddCall(c) => AddKeeps(s, c);
      case DoneCall(c) => DoneKeeps(s, c);
      case WaitCall(t, target) => WaitKeeps(s, t, target);
      case Resumed(t) => WakeLists(s, t);
    }
  }

  lemma {:induction false} RunKeeps(s: System, events: seq<Event>)
    requires Inv(s) && IsRun(s, events)
    ensures Inv(Run(s, events))
    decreases events
  {
    if events != [] {
      NextKeeps(s, events[0]);
      RunKeeps(Next(s, events[0]), events[1..]);
    }
  }

  /** Everyone who was added. */
  ghost function Joined(events: seq<Event>): set<Cid> {
    set i | 0 <= i < |events| && events[i].AddCall? :: events[i].cid
  }

  /** How many calls of done came from a coroutine that was a member by then. */
  ghost function Finishes(members: set<Cid>, events: seq<Event>): nat
    decreases events
  {
    if events == [] then 0
    else
      match events[0]
      case AddCall(c) => Finishes(members + {c}, events[1..])
      case DoneCall(c) => (if c in members then 1 else 0) + Finishes(members, events[1..])
      case _ => Finishes(members, events[1..])
  }

  lemma {:induction false} FinishesStep(members: set<Cid>, events: seq<Event>)
    requires events != []
    ensures var e := events[0];
            Finishes(members, events) == (if e.DoneCall? && e.cid in members then 1 else 0) +
                                         Finishes(members + (if e.AddCall? then {e.cid} else {}), events[1..])
  {
    assert members + {} == members;
  }

  lemma JoinedStep(events: seq<Event>)
    requires events != []
    ensures Joined(events) == (if events[0].AddCall? then {events[0].cid} else {}) + Joined(events[1..])
  {
    forall c | c in Joined(events)
      ensures c in (if events[0].AddCall? then {events[0].cid} else {}) + Joined(events[1..])
    {
      var i :| 0 <= i < |events| && events[i].AddCall? && events[i].cid == c;
      if i > 0 { assert events[1..][i - 1] == events[i]; }
    }
    forall c | c in Joined(events[1..]) ensures c in Joined(events) {
      var i :| 0 <= i < |events[1..]| && events[1..][i].AddCall? && events[1..][i].cid == c;
      assert events[i + 1].cid == c;
    }
  }

  lemma {:induction false} RunMembers(s: System, events: seq<Event>)
    requires IsRun(s, events)
    ensures Run(s, events).group.members == s.group.members + Joined(events)
    decreases events
  {
    if events == [] {
      assert Joined(events) == {};
    } else {
      RunMembers(Next(s, events[0]), events[1..]);
      JoinedStep(events);
      NextMembers(s, events[0]);
    }
  }

  lemma NextMembers(s: System, e: Event)
    requires Enabled(s, e)
    ensures Next(s, e).group.members == s.group.members + (if e.AddCall? then {e.cid} else {})
  {
    if e.AddCall? && e.cid in s.group.members { assert s.group.members + {e.cid} == s.group.members; }
  }

  lemma {:induction false} RunSize(s: System, events: seq<Event>)
    requires IsRun(s, events) && s.group.totSize == |s.group.members|
    ensures Run(s, events).group.totSize == |Run(s, events).group.members|
    decreases events
  {
    if events != [] { RunSize(Next(s, events[0]), events[1..]); }
  }

  lemma {:induction false} RunFinished(s: System, events: seq<Event>)
    requires IsRun(s, events)
    ensures Run(s, events).group.finished == s.group.finished + Finishes(s.group.members, events)
    decreases events
  {
    if events != [] {
      RunFinished(Next(s, events[0]), events[1..]);
      NextMembers(s, events[0]);
      FinishesStep(s.group.members, events);
    }
  }

  /** In every run the group counts its members once each and every call of done that a member made. */
  lemma {:induction false} GroupCounts(events: seq<Event>, c: Cid)
    requires IsRun(Created(), events)
    ensures var g := Run(Created(), events).group;
            && g.totSize == |Joined(events)| && g.finished == Finishes({}, events)
            && Add(g, c).1 == (if c in Joined(events) then 0 else 1)
            && Done(g, c).1 == (if c in Joined(events) then 1 else 0)
  {
    RunMembers(Created(), events);
    RunSize(Created(), events);
    RunFinished(Created(), events);
    assert {} + Joined(events) == Joined(events);
  }

  /**
   What a wait with a nonzero timeout does when it is called, in every run: for a positive
   target it returns that target at once if at least so many have finished, for all it
   returns the size at once if exactly so many have, and in every other case it parks.
   */
  lemma {:induction false} WaitAnswers(events: seq<Event>, t: Ticket, target: int)
    requires IsRun(Created(), events)
    ensures var (g, o) := Wait(Run(Created(), events).group, t, target);
            var n, all := Finishes({}, events), |Joined(events)|;
            && (target > 0 ==> o == if n >= target then Returned(target) else Parked)
            && (target <= 0 ==> o == if n == all then Returned(all) else Parked)
            && (o.Returned? ==> g == Run(Created(), events).group)
            && (o.Parked? ==> t in g.fds && g.fds[t] == 0 && t in ListFor(g, Goal(target)))
  {
    GroupCounts(events, 0);
  }

  /** In every run a wait for a positive target returns the target, or -1 while it is not reached. */
  lemma {:induction false} TargetWaitReturns(events: seq<Event>, t: Ticket)
    requires IsRun(Created(), events)
    requires t in Run(Created(), events).waiting && Run(Created(), events).waiting[t] > 0
    ensures var s := Run(Created(), events);
            var goal := s.waiting[t];
            t in s.group.fds && Wake(s.group, t, goal).1 == Returned(if s.group.finished >= goal then goal else -1)
  {
    RunKeeps(Created(), events);
  }

  // ------------------------------------------------------------ no lost wake-up

  /** Whoever is parked without a notification still has something to wait for. */
  ghost predicate NoLostWake(s: System) {
    forall t :: t in s.waiting && t in s.group.fds && s.group.fds[t] == 0 ==>
      s.group.finished < if s.waiting[t] > 0 then s.waiting[t] else s.group.totSize
  }

  /** A wait for all is made while no more have finished than there are members. */
  predicate InTime(s: System, e: Event) {
    e.WaitCall? && e.target <= 0 ==> s.group.finished <= s.group.totSize
  }

  ghost predicate AllInTime(s: System, events: seq<Event>)
    requires IsRun(s, events)
    decreases events
  {
    events == [] || (InTime(s, events[0]) && AllInTime(Next(s, events[0]), events[1..]))
  }

  /** A wait keeps everyone's wake-up exactly when it is for a target or is made in time. */
  lemma WaitInTimeIff(s: System, t: Ticket, target: int)
    requires Inv(s) && NoLostWake(s) && t !in s.used
    ensures NoLostWake(Next(s, WaitCall(t, target))) <==> target > 0 || s.group.finished <= s.group.totSize
  {
    var s' := Next(s, WaitCall(t, target));
    if target <= 0 && s.group.finished > s.group.totSize {
      assert t in s'.waiting && s'.group.fds[t] == 0;
    }
  }

  lemma NextNoLostWake(s: System, e: Event)
    requires Inv(s) && NoLostWake(s) && Enabled(s, e) && InTime(s, e)
    ensures NoLostWake(Next(s, e))
  {
    match e {
      case DoneCall(c) =>
        if c in s.group.members { DoneFds(s, c); }
      case WaitCall(t, target) => WaitInTimeIff(s, t, target);
      case _ =>
    }
  }

  lemma {:induction false} RunNoLostWake(s: System, events: seq<Event>)
    requires Inv(s) && NoLostWake(s) && IsRun(s, events) && AllInTime(s, events)
    ensures NoLostWake(Run(s, events))
    decreases events
  {
    if events != [] {
      NextKeeps(s, events[0]);
      NextNoLostWake(s, events[0]);
      RunNoLostWake(Next(s, events[0]), events[1..]);
    }
  }

  /**
   If every wait for all is made in time, whoever is parked without a notification has
   finished < target, or finished < tot_size.
   */
  lemma {:induction false} NoLostWakeUp(events: seq<Event>, t: Ticket)
    requires IsRun(Created(), events) && AllInTime(Created(), events) && t in Run(Created(), events).waiting
    ensures var s := Run(Created(), events);
            t in s.group.fds && (s.group.fds[t] == 0 ==>
              s.group.finished < if s.waiting[t] > 0 then s.waiting[t] else s.group.totSize)
  {
    RunKeeps(Created(), events);
    RunNoLostWake(Created(), events);
  }

  // -------------------------------------------------- members that finish once

  /** Along the run, every member calls done at most once. */
  ghost predicate OnceAll(s: System, events: seq<Event>)
    requires IsRun(s, events)
    decreases events
  {
    events == [] || ((events[0].DoneCall? ==> events[0].cid !in s.doneBy) && OnceAll(Next(s, events[0]), events[1..]))
  }

  ghost predicate CountsOk(s: System) {
    s.group.totSize == |s.group.members| && s.doneBy <= s.group.members && s.group.finished == |s.doneBy|
  }

  lemma SubsetSize<A>(a: set<A>, b: set<A>)
    requires a <= b
    ensures |a| <= |b|
  {
    assert b == a + (b - a);
  }

  lemma DoneCounts(s: System, c: Cid)
    requires CountsOk(s) && c !in s.doneBy
    ensures CountsOk(Next(s, DoneCall(c)))
  {
    var (g, r) := Done(s.group, c);
    assert g.members == s.group.members && g.totSize == s.group.totSize;
  }

  lemma AddCounts(s: System, c: Cid)
    requires CountsOk(s)
    ensures CountsOk(Next(s, AddCall(c)))
  {
  }

  lemma NextCounts(s: System, e: Event)
    requires CountsOk(s) && Enabled(s, e) && (e.DoneCall? ==> e.cid !in s.doneBy)
    ensures CountsOk(Next(s, e)) && InTime(s, e)
  {
    SubsetSize(s.doneBy, s.group.members);
    match e {
      case DoneCall(c) => DoneCounts(s, c);
      case AddCall(c) => AddCounts(s, c);
      case WaitCall(t, target) => assert Next(s, e).group.members == s.group.members;
      case Resumed(t) => assert Next(s, e).group.members == s.group.members;
    }
  }

  /** If members finish at most once, every wait is in time, so nobody is ever stranded. */
  lemma {:induction false} OnceIsInTime(s: System, events: seq<Event>)
    requires CountsOk(s) && IsRun(s, events) && OnceAll(s, events)
    ensures AllInTime(s, events)
    decreases events
  {
    if events != [] {
      NextCounts(s, events[0]);
      OnceIsInTime(Next(s, events[0]), events[1..]);
    }
  }

  /** A member that calls done twice brings the group to where a wait for all is stranded. */
  lemma DoneTwiceOvertakes() returns (events: seq<Event>)
    ensures IsRun(Created(), events) && AllInTime(Created(), events)
    ensures var s := Run(Created(), events); s.group.finished > s.group.totSize && !InTime(s, WaitCall(0, 0))
  {
    events := [AddCall(1), DoneCall(1), DoneCall(1)];
    var s1 := Next(Created(), events[0]);
    var s2 := Next(s1, events[1]);
    assert events[1..][0] == events[1] && events[1..][1..] == events[2..] && events[2..][1..] == [];
    assert IsRun(s2, events[2..]) && IsRun(s1, events[1..]);
    assert AllInTime(s2, events[2..]) && AllInTime(s1, events[1..]);
  }

  // ------------------------------------------------- what a wait for all returns

  lemma {:induction false} SumPositive(h: seq<nat>)
    requires forall i :: 0 <= i < |h| ==> h[i] > 0
    ensures Sum(h) == 0 <==> h == []
    ensures h != [] ==> (Sum(h) == h[0] <==> |h| == 1)
    decreases h
  {
    if h != [] {
      assert forall i :: 0 <= i < |h[1..]| ==> h[1..][i] == h[i + 1];
      SumPositive(h[1..]);
    }
  }

  /**
   In every run a wait for all returns -1 while the group has not been complete since
   it parked, and otherwise the size at its notification exactly when the group was
   complete only once before it resumed; each further completion is added to it.
   */
  lemma {:induction false} WaitAllReturns(events: seq<Event>, t: Ticket)
    requires IsRun(Created(), events)
    requires t in Run(Created(), events).waiting && Run(Created(), events).waiting[t] == 0
    ensures var s := Run(Created(), events);
            && t in s.group.fds && t in s.hits
            && var ret := Wake(s.group, t, 0).1;
               && (s.hits[t] == [] ==> ret == Returned(-1))
               && (s.hits[t] != [] ==>
                     ret == Returned(Sum(s.hits[t])) && (ret == Returned(s.hits[t][0]) <==> |s.hits[t]| == 1))
  {
    RunKeeps(Created(), events);
    SumPositive(Run(Created(), events).hits[t]);
  }

  ghost predicate PendingAll(s: System, t: Ticket) {
    t in s.waiting && s.waiting[t] == 0 && t in s.hits && s.hits[t] != []
  }

  /** No new member joins while a wait for all has a notification pending. */
  ghost predicate Settled(s: System, e: Event) {
    e.AddCall? && e.cid !in s.group.members ==> forall t :: !PendingAll(s, t)
  }

  ghost predicate AllSettled(s: System, events: seq<Event>)
    requires IsRun(s, events)
    decreases events
  {
    events == [] || (Settled(s, events[0]) && AllSettled(Next(s, events[0]), events[1..]))
  }

  /** A notified wait for all was told one size, and the group has not grown since. */
  ghost predicate ToldOnce(s: System) {
    forall t :: PendingAll(s, t) ==> |s.hits[t]| == 1 && s.group.finished >= s.group.totSize
  }

  lemma NextToldOnce(s: System, e: Event)
    requires Inv(s) && ToldOnce(s) && Enabled(s, e) && Settled(s, e)
    ensures ToldOnce(Next(s, e))
  {
    var s' := Next(s, e);
    forall t | PendingAll(s', t) ensures |s'.hits[t]| == 1 && s'.group.finished >= s'.group.totSize {
      assert e.DoneCall? || PendingAll(s, t);
    }
  }

  lemma {:induction false} RunToldOnce(s: System, events: seq<Event>)
    requires Inv(s) && ToldOnce(s) && IsRun(s, events) && AllSettled(s, events)
    ensures ToldOnce(Run(s, events))
    decreases events
  {
    if events != [] {
      NextKeeps(s, events[0]);
      NextToldOnce(s, events[0]);
      RunToldOnce(Next(s, events[0]), events[1..]);
    }
  }

  /** In runs where nobody joins while one is pending, a notified wait for all returns the size it was told. */
  lemma {:induction false} SettledWaitAll(events: seq<Event>, t: Ticket)
    requires IsRun(Created(), events) && AllSettled(Created(), events) && PendingAll(Run(Created(), events), t)
    ensures var s := Run(Created(), events);
            t in s.group.fds && Wake(s.group, t, 0).1 == Returned(s.hits[t][0])
  {
    RunKeeps(Created(), events);
    RunToldOnce(Created(), events);
    WaitAllReturns(events, t);
  }

  /**
   The condition is needed: while a wait for all is pending on a complete group, a member
   that joins and finishes changes what it returns exactly when it is a new one.
   */
  lemma JoinBreaksIff(s: System, t: Ticket, c: Cid)
    requires Inv(s) && PendingAll(s, t) && s.group.finished == s.group.totSize
    ensures var s' := Next(Next(s, AddCall(c)), DoneCall(c));
            && t in s.group.fds && t in s'.group.fds
            && (Wake(s'.group, t, 0).1 != Wake(s.group, t, 0).1 <==> c !in s.group.members)
  {
    AddKeeps(s, c);
    var s1 := Next(s, AddCall(c));
    assert s1.group.fds == s.group.fds;
    DoneFds(s1, c);
    assert Told(s.waiting[t], s.group.fds[t], s.hits[t], s.group.finished);
    SumPositive(s.hits[t]);
  }

  /** Such a state is reached by one member that joins and finishes while a call waits for all. */
  lemma ReachPending() returns (events: seq<Event>)
    ensures IsRun(Created(), events) && AllSettled(Created(), events)
    ensures var s := Run(Created(), events); PendingAll(s, 0) && s.group.finished == s.group.totSize
  {
    events := [AddCall(1), WaitCall(0, 0), DoneCall(1)];
    var s0 := Created();
    var s1 := Next(s0, events[0]);
    var s2 := Next(s1, events[1]);
    assert events[1..][0] == events[1] && events[1..][1..] == events[2..] && events[2..][1..] == [];
    assert IsRun(s2, events[2..]) && IsRun(s1, events[1..]);
    assert AllSettled(s2, events[2..]) && AllSettled(s1, events[1..]);
  }
}

/** The waitgroup object. */
module WaitGroupHeap {
  import opened Waiters
  import opened WaitGroupSpec

  class WaitGroup {
    var totSize: nat
    var finished: nat
    var members: set<Cid>
    var targets: map<nat, seq<Ticket>>
    var final: seq<Ticket>
    var fds: map<Ticket, nat>

    ghost function View(): Group
      reads this
    {
      Group(totSize, finished, members, targets, final, fds)
    }

    /** Every listed node has an open eventfd. */
    ghost predicate Valid()
      reads this
    {
      && (forall t :: t in final ==> t in fds)
      && (forall k, t :: k in targets && t in targets[k] ==> t in fds)
    }

    constructor ()
      ensures Valid() && View() == Created().group
    {
      totSize, finished, members, targets, final, fds := 0, 0, {}, map[], [], map[];
    }

    method Add(cid: Cid) returns (ret: int)
      modifies this`members, this`totSize
      ensures (View(), ret) == WaitGroupSpec.Add(old(View()), cid)
    {
      if cid in members {
        return 0;
      }
      members := members + {cid};
      totSize := totSize + 1;
      return 1;
    }

    method Done(cid: Cid) returns (ret: int)
      requires Valid()
      modifies this`finished, this`fds
      ensures Valid() && (View(), ret) == WaitGroupSpec.Done(old(View()), cid)
    {
      if cid !in members {
        return 0;
      }
      finished := finished + 1;
      if finished in targets {
        fds := NotifyWalk(fds, targets[finished], finished);
      }
      if finished == totSize {
        fds := NotifyWalk(fds, final, finished);
      }
      return 1;
    }

    method Wait(t: Ticket, target: int) returns (o: Outcome)
      requires Valid()
      modifies this`final, this`targets, this`fds
      ensures Valid() && (View(), o) == WaitGroupSpec.Wait(old(View()), t, target)
    {
      if target <= 0 {
        if finished == totSize {
          return Returned(finished);
        }
        if final == [] {
          final := [t];
        } else {
          final := [final[0], t] + final[1..];
        }
      } else {
        if finished >= target {
          return Returned(target);
        }
        var list := if target in targets then targets[target] else [];
        targets := targets[target := [t] + list];
      }
      fds := fds[t := 0];
      return Parked;
    }

    method Wake(t: Ticket, goal: nat) returns (o: Outcome)
      requires t in fds && t in ListFor(View(), goal)
      modifies this`final, this`targets, this`fds
      ensures (View(), o) == WaitGroupSpec.Wake(old(View()), t, goal)
    {
      var count := fds[t];
      if goal == 0 {
        final := UnlinkWalk(final, t);
      } else {
        var rest := UnlinkWalk(targets[goal], t);
        if rest != [] {
          targets := targets[goal := rest];
        } else {
          targets := targets - {goal};
        }
      }
      fds := fds - {t};
      return Returned(if count > 0 then count else -1);
    }
  }
}
