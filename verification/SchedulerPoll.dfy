/** Step D of dyco_schedule_run: how long the poll may block, in every reachable state. */
module SchedulerPoll {
  import opened Entries
  import opened Deadlines
  import opened SchedulerSpec
  import opened SchedulerLoop

  /** schedule_epoll_wait on the scheduler's own queues, sleepers and descriptors. */
  function PollOf(s: Sched, now: nat, loopwait: nat): Poll {
    PollFor(s.sleeping, s.fds == map[], s.ready == [] && s.urgent == [], now, loopwait)
  }

  const SPAN: nat := 0x1_0000_0000

  /** After `n` events no deadline is further away than 2^32 microseconds and one bump per event. */
  ghost predicate Near(z: seq<Entry<Co>>, clock: nat, n: nat) {
    Sorted(z) && |z| <= n && forall e :: e in z ==> e.key <= clock + SPAN + n
  }

  lemma {:induction false} RemovedNear(z: seq<Entry<Co>>, key: nat, clock: nat, now: nat, n: nat)
    requires Near(z, clock, n) && clock <= now
    ensures Near(WithoutKey(z, key), now, n)
  {
    WithoutKeyContents(z, key);
  }

  lemma {:induction false} InsertedNear(z: seq<Entry<Co>>, x: Entry<Co>, clock: nat, n: nat)
    requires Near(z, clock, n) && !HasKey(z, x.key) && x.key <= clock + SPAN + n
    ensures Near(InsertSorted(z, x), clock, n + 1)
  {
    InsertSortedContents(z, x);
  }

  lemma FirstGoneNear(z: seq<Entry<Co>>, clock: nat, now: nat, n: nat)
    requires Near(z, clock, n) && clock <= now && z != []
    ensures Near(z[1..], now, n)
  {
    RestEntries(z);
  }

  lemma SleepNear(z: seq<Entry<Co>>, c: Co, key: nat, msecs: int, clock: nat, now: nat, n: nat)
    requires Near(z, clock, n) && clock <= now
    ensures Near(Deadlines.SchedSleep(z, c, key, msecs, now).0, now, n + 1)
  {
    var rest := WithoutKey(z, key);
    RemovedNear(z, key, clock, now, n);
    if msecs > 0 {
      var d := LeastFree(rest, now + Usecs(msecs));
      LeastFreeIsLeast(rest, now + Usecs(msecs));
      InsertedNear(rest, Entry(d, c), now, n);
    }
  }

  lemma NextNear(s: System, e: Event, n: nat)
    requires Near(s.sched.sleeping, s.clock, n) && Enabled(s, e)
    ensures Near(Next(s, e).sched.sleeping, Next(s, e).clock, n + 1)
  {
    var d, z := s.sched, s.sched.sleeping;
    match e {
      case SleepFor(m, now) => SleepNear(z, d.curr.value, d.bits[d.curr.value].key, ToInt(m), s.clock, now, n);
      case WaitFd(fd, timeout, now) =>
        SleepNear(z, d.curr.value, d.bits[d.curr.value].key, timeout, s.clock, now, n);
      case ExpireOne(now) =>
        if z != [] { FirstGoneNear(z, s.clock, now, n); }
      case EndSleep => RemovedNear(z, d.bits[d.curr.value].key, s.clock, s.clock, n);
      case Exit => RemovedNear(z, d.bits[d.curr.value].key, s.clock, s.clock, n);
      case _ =>
    }
  }

  lemma {:induction false} RunNear(s: System, events: seq<Event>, n: nat)
    requires Near(s.sched.sleeping, s.clock, n) && IsRun(s, events)
    ensures Near(Run(s, events).sched.sleeping, Run(s, events).clock, n + |events|)
    decreases events
  {
    if events != [] {
      NextNear(s, events[0], n);
      RunNear(Next(s, events[0]), events[1..], n + 1);
    }
  }

  lemma EarliestDecides(z: seq<Entry<Co>>, now: nat, limit: int)
    requires Sorted(z) && z != [] && (z[0].key <= now ==> limit <= now)
    ensures (forall e :: e in z && e.key > now ==> limit <= e.key) <==> (z[0].key > now ==> limit <= z[0].key)
  {
    assert z[0] in z;
    forall e | e in z ensures z[0].key <= e.key {
      var i :| 0 <= i < |z| && z[i] == e;
    }
  }

  /** When the last call of epoll_wait gives up by itself. */
  function Limit(p: Poll, now: nat, answers: seq<Answer>): int {
    LastAsk(now, answers) + 1000 * Millis(p)
  }

  /**
   In every run, with any sleeps and any waits, of fewer than 2 * 10^12 events: the poll
   is left out exactly when nobody sleeps or waits for a descriptor and does not block
   while a coroutine is ready. It is over by the deadline of every sleeper not yet due if
   and only if its last call was made within the part of a millisecond that the timeout
   leaves out, so always when no signal interrupted it; and it does not give up a
   millisecond or more before the earliest. The ready queues are sequences here, also
   after a coroutine that is already queued is enqueued.
   */
  lemma {:induction false} PollInTime(events: seq<Event>, now: nat, loopwait: nat, answers: seq<Answer>)
    requires IsRun(Created(), events) && |events| < 2_000_000_000_000 && Run(Created(), events).clock <= now
    requires AnswersOk(PollOf(Run(Created(), events).sched, now, loopwait), now, answers)
    ensures var s := Run(Created(), events).sched;
            var p := PollOf(s, now, loopwait);
            && (p.NoPoll? <==> s.fds == map[] && s.sleeping == [])
            && (s.ready != [] || s.urgent != [] ==> PollEnd(now, answers) == now)
            && (s.sleeping != [] ==>
                  && LastAsk(now, answers) <= PollEnd(now, answers) <= Limit(p, now, answers)
                  && ((forall e :: e in s.sleeping && e.key > now ==> Limit(p, now, answers) <= e.key) <==>
                      LastAsk(now, answers) - now <= Slack(s.sleeping, now))
                  && (s.ready == [] && s.urgent == [] ==> s.sleeping[0].key < Limit(p, now, answers) + 1000))
  {
    RunNear(Created(), events, 0);
    var s := Run(Created(), events).sched;
    if s.sleeping != [] {
      assert s.sleeping[0] in s.sleeping;
      PollWithSleeper(s.sleeping, s.fds == map[], s.ready == [] && s.urgent == [], now, loopwait, answers);
      EarliestDecides(s.sleeping, now, Limit(PollOf(s, now, loopwait), now, answers));
    }
  }

  /** A coroutine that sleeps alone, from the creation of the scheduler. */
  lemma {:induction false} SleepsAlone(msecs: nat) returns (events: seq<Event>)
    requires 0 < msecs <= 4294967
    ensures IsRun(Created(), events) && AllPlainly(events)
    ensures var s := Run(Created(), events);
            && s.clock == 0 && s.sched.sleeping == [Entry(1000 * msecs, 0)]
            && s.sched.ready == [] && s.sched.urgent == []
  {
    var s0 := Created();
    var s1 := Next(s0, Make(0, false));
    var s2 := Next(s1, Start);
    var s3 := Next(s2, ResumeFirst(false));
    assert s3.sched.ready == [] && s3.sched.bits == map[0 := Bits(false, false, false, false, 0)];
    UsecsExact(msecs);
    var s4 := Next(s3, SleepFor(msecs, 0));
    assert s4.sched.sleeping == [Entry(1000 * msecs, 0)];
    RunOf(s3, SleepFor(msecs, 0), s4, []);
    events := [SleepFor(msecs, 0)] + [];
    RunOf(s2, ResumeFirst(false), s3, events);
    events := [ResumeFirst(false)] + events;
    RunOf(s1, Start, s2, events);
    events := [Start] + events;
    RunOf(s0, Make(0, false), s1, events);
    events := [Make(0, false)] + events;
  }

  /** Whatever the length of its sleep, signals can keep the poll from ending before any given time. */
  lemma {:induction false} InterruptedOversleeps(msecs: nat, loopwait: nat, bound: nat)
    returns (events: seq<Event>, answers: seq<Answer>)
    requires 0 < msecs <= 4294967
    ensures IsRun(Created(), events) && AllPlainly(events)
    ensures var s := Run(Created(), events).sched;
            && s.sleeping == [Entry(1000 * msecs, 0)]
            && AnswersOk(PollOf(s, 0, loopwait), 0, answers) && PollEnd(0, answers) > bound
  {
    events := SleepsAlone(msecs);
    answers := Postpones(0, msecs, bound);
  }

  // ------------------------------------------------------------ what is reported

  /** The waiters of the reported descriptors that have a given URGENT bit, in the order of their first report. */
  function Awaited(fds: map<Fd, Co>, bits: map<Co, Bits>, reports: seq<Fd>, u: bool): seq<Co>
    decreases reports
  {
    if reports == [] then []
    else
      var f := reports[0];
      (if f in fds && fds[f] in bits && bits[fds[f]].urgent == u then [fds[f]] else []) +
      Awaited(fds - {f}, bits, reports[1..], u)
  }

  ghost predicate IsReported(fds: map<Fd, Co>, reports: seq<Fd>, c: Co) {
    exists f :: f in reports && f in fds && fds[f] == c
  }

  /** From `s` to `t` these descriptors have left the map, their waiters are ready, and nothing else has changed. */
  ghost predicate Polled(s: Sched, t: Sched, reports: seq<Fd>) {
    && t.fds == s.fds - (set f | f in reports) && t.bits.Keys == s.bits.Keys
    && t.sleeping == s.sleeping && t.curr == s.curr && t.status == s.status
    && forall c :: c in s.bits ==>
         t.bits[c] == if IsReported(s.fds, reports, c) then s.bits[c].(ready := true, waiting := false) else s.bits[c]
  }

  lemma ReportedStep(fds: map<Fd, Co>, reports: seq<Fd>, c: Co)
    requires reports != []
    ensures IsReported(fds, reports, c) <==>
            (reports[0] in fds && fds[reports[0]] == c) || IsReported(fds - {reports[0]}, reports[1..], c)
  {
    assert forall f :: f in reports <==> f == reports[0] || f in reports[1..];
    if f :| f in reports && f in fds && fds[f] == c {
      if f != reports[0] { assert f in fds - {reports[0]}; }
    }
  }

  lemma {:induction false} AwaitedOne(fds: map<Fd, Co>, bits: map<Co, Bits>, f: Fd, u: bool)
    ensures Awaited(fds, bits, [f], u) ==
            if f in fds && fds[f] in bits && bits[fds[f]].urgent == u then [fds[f]] else []
  {
    assert [f][1..] == [];
  }

  lemma {:induction false} FdReadyQueues(s: Sched, fd: Fd, u: bool)
    requires fd in s.fds ==> s.fds[fd] in s.bits
    ensures Queue(FdReady(s, fd), u) == Queue(s, u) + Awaited(s.fds, s.bits, [fd], u)
  {
    AwaitedOne(s.fds, s.bits, fd, u);
  }

  lemma FdReadyPolls(s: Sched, clock: nat, fd: Fd)
    requires Looping(System(s, clock))
    ensures fd in s.fds ==> s.fds[fd] in s.bits
    ensures Polled(s, FdReady(s, fd), [fd])
  {
    assert (set f | f in [fd]) == {fd};
    assert forall c :: IsReported(s.fds, [fd], c) <==> fd in s.fds && s.fds[fd] == c by {
      assert fd in [fd];
    }
    if fd in s.fds {
      assert Located(s, clock, s.fds[fd]) && Waits(s, s.fds[fd]);
    } else {
      assert s.fds - {fd} == s.fds;
    }
  }

  lemma PolledStep(s: Sched, t: Sched, r: Sched, reports: seq<Fd>)
    requires reports != [] && Polled(s, t, [reports[0]]) && Polled(t, r, reports[1..])
    ensures Polled(s, r, reports)
  {
    var f, rest := reports[0], reports[1..];
    assert forall g :: g in reports <==> g == f || g in rest;
    assert s.fds - (set g | g in [f]) - (set g | g in rest) == s.fds - (set g | g in reports);
    assert t.fds == s.fds - {f};
    forall c | c in s.bits
      ensures r.bits[c] ==
              if IsReported(s.fds, reports, c) then s.bits[c].(ready := true, waiting := false) else s.bits[c]
    {
      ReportedStep(s.fds, reports, c);
      ReportedStep(s.fds, [f], c);
      assert [f][1..] == [] && !IsReported(t.fds, [], c);
    }
  }

  lemma {:induction false} ReportsPoll(s: Sched, clock: nat, reports: seq<Fd>)
    requires Looping(System(s, clock))
    ensures ReportsOk(s, reports) && Polled(s, Reports(s, reports), reports)
    decreases reports
  {
    if reports == [] {
      assert s.fds - (set f | f in reports) == s.fds;
    } else {
      var t := FdReady(s, reports[0]);
      FdReadyPolls(s, clock, reports[0]);
      FdReadyKeeps(s, clock, reports[0]);
      ReportsPoll(t, clock, reports[1..]);
      PolledStep(s, t, Reports(t, reports[1..]), reports);
    }
  }

  lemma {:induction false} AwaitedSame(
        fds: map<Fd, Co>, bits: map<Co, Bits>, bits': map<Co, Bits>, reports: seq<Fd>, u: bool)
    requires bits.Keys == bits'.Keys && (forall c :: c in bits ==> bits[c].urgent == bits'[c].urgent)
    ensures Awaited(fds, bits, reports, u) == Awaited(fds, bits', reports, u)
    decreases reports
  {
    if reports != [] { AwaitedSame(fds - {reports[0]}, bits, bits', reports[1..], u); }
  }

  /** Who is awaited before one report is the waiter of that one and then who is awaited after it. */
  lemma {:induction false} AwaitedStep(
        fds: map<Fd, Co>, bits: map<Co, Bits>, bits': map<Co, Bits>, reports: seq<Fd>, u: bool)
    requires reports != []
    requires bits.Keys == bits'.Keys && (forall c :: c in bits ==> bits[c].urgent == bits'[c].urgent)
    ensures Awaited(fds, bits, reports, u) ==
            Awaited(fds, bits, [reports[0]], u) + Awaited(fds - {reports[0]}, bits', reports[1..], u)
  {
    AwaitedOne(fds, bits, reports[0], u);
    AwaitedSame(fds - {reports[0]}, bits, bits', reports[1..], u);
  }

  lemma Regroup(q: seq<Co>, a: seq<Co>, b: seq<Co>)
    ensures q + a + b == q + (a + b)
  {
  }

  lemma {:induction false} ReportStep(s: Sched, clock: nat, reports: seq<Fd>, u: bool) returns (t: Sched)
    requires Looping(System(s, clock)) && reports != []
    ensures (reports[0] in s.fds ==> s.fds[reports[0]] in s.bits) && t == FdReady(s, reports[0])
    ensures Looping(System(t, clock))
    ensures t.fds == s.fds - {reports[0]} && t.bits.Keys == s.bits.Keys
    ensures forall c :: c in s.bits ==> s.bits[c].urgent == t.bits[c].urgent
  {
    t := FdReady(s, reports[0]);
    FdReadyKeeps(s, clock, reports[0]);
    FdReadyPolls(s, clock, reports[0]);
    assert (set f | f in [reports[0]]) == {reports[0]};
  }

  lemma {:induction false} ReportsQueue(s: Sched, clock: nat, reports: seq<Fd>, u: bool)
    requires Looping(System(s, clock)) && ReportsOk(s, reports)
    ensures Queue(Reports(s, reports), u) == Queue(s, u) + Awaited(s.fds, s.bits, reports, u)
    decreases reports
  {
    if reports != [] {
      var t := ReportStep(s, clock, reports, u);
      FdReadyQueues(s, reports[0], u);
      AwaitedStep(s.fds, s.bits, t.bits, reports, u);
      Regroup(Queue(s, u), Awaited(s.fds, s.bits, [reports[0]], u), Awaited(t.fds, t.bits, reports[1..], u));
      ReportsQueue(t, clock, reports[1..], u);
    }
  }

  /**
   A poll handles everything that is reported: each queue grows by exactly the waiters of
   the reported descriptors with that URGENT bit, these descriptors leave the map, their
   waiters' bits say ready and no longer waiting, and nothing else changes.
   */
  lemma {:induction false} ReportsExact(s: Sched, clock: nat, reports: seq<Fd>, u: bool)
    requires Looping(System(s, clock))
    ensures ReportsOk(s, reports) && Polled(s, Reports(s, reports), reports)
    ensures Queue(Reports(s, reports), u) == Queue(s, u) + Awaited(s.fds, s.bits, reports, u)
  {
    ReportsPoll(s, clock, reports);
    ReportsQueue(s, clock, reports, u);
  }

  lemma {:induction false} AwaitedAre(fds: map<Fd, Co>, bits: map<Co, Bits>, reports: seq<Fd>, u: bool, c: Co)
    ensures c in Awaited(fds, bits, reports, u) <==> IsReported(fds, reports, c) && c in bits && bits[c].urgent == u
    decreases reports
  {
    if reports != [] {
      AwaitedAre(fds - {reports[0]}, bits, reports[1..], u, c);
      ReportedStep(fds, reports, c);
    }
  }

  /** When the descriptor of a waiter is first reported. */
  function FirstReport(fds: map<Fd, Co>, reports: seq<Fd>, c: Co): nat {
    if reports == [] || (reports[0] in fds && fds[reports[0]] == c) then 0
    else 1 + FirstReport(fds, reports[1..], c)
  }

  lemma {:induction false} FirstReportRest(fds: map<Fd, Co>, f: Fd, reports: seq<Fd>, c: Co)
    requires f in fds ==> fds[f] != c
    ensures FirstReport(fds - {f}, reports, c) == FirstReport(fds, reports, c)
  {
    if reports != [] { FirstReportRest(fds, f, reports[1..], c); }
  }

  /** A waiter that is awaited after the first report is not the waiter of that one. */
  lemma {:induction false} LaterReport(fds: map<Fd, Co>, bits: map<Co, Bits>, reports: seq<Fd>, u: bool, c: Co)
    requires reports != [] && c in Awaited(fds - {reports[0]}, bits, reports[1..], u)
    requires forall f, g :: f in fds && g in fds && fds[f] == fds[g] ==> f == g
    ensures reports[0] in fds ==> fds[reports[0]] != c
    ensures FirstReport(fds, reports, c) == 1 + FirstReport(fds - {reports[0]}, reports[1..], c)
  {
    AwaitedAre(fds - {reports[0]}, bits, reports[1..], u, c);
    FirstReportRest(fds, reports[0], reports[1..], c);
  }

  ghost predicate ByReport(fds: map<Fd, Co>, reports: seq<Fd>, q: seq<Co>) {
    forall i, j :: 0 <= i < j < |q| ==> FirstReport(fds, reports, q[i]) < FirstReport(fds, reports, q[j])
  }

  lemma {:induction false} ByReportCons(fds: map<Fd, Co>, reports: seq<Fd>, c: Co, q: seq<Co>)
    requires ByReport(fds, reports, q)
    requires forall d :: d in q ==> FirstReport(fds, reports, c) < FirstReport(fds, reports, d)
    ensures ByReport(fds, reports, [c] + q)
  {
    var r := [c] + q;
    forall i, j | 0 <= i < j < |r| ensures FirstReport(fds, reports, r[i]) < FirstReport(fds, reports, r[j]) {
      assert r[j] == q[j - 1] && q[j - 1] in q;
    }
  }

  lemma {:induction false} ByReportRest(fds: map<Fd, Co>, bits: map<Co, Bits>, reports: seq<Fd>, u: bool)
    requires forall f, g :: f in fds && g in fds && fds[f] == fds[g] ==> f == g
    requires reports != []
    requires ByReport(fds - {reports[0]}, reports[1..], Awaited(fds - {reports[0]}, bits, reports[1..], u))
    ensures ByReport(fds, reports, Awaited(fds - {reports[0]}, bits, reports[1..], u))
  {
    var r := Awaited(fds - {reports[0]}, bits, reports[1..], u);
    forall i, j | 0 <= i < j < |r| ensures FirstReport(fds, reports, r[i]) < FirstReport(fds, reports, r[j]) {
      LaterReport(fds, bits, reports, u, r[i]);
      LaterReport(fds, bits, reports, u, r[j]);
    }
  }

  lemma {:induction false} AwaitedSorted(fds: map<Fd, Co>, bits: map<Co, Bits>, reports: seq<Fd>, u: bool)
    requires forall f, g :: f in fds && g in fds && fds[f] == fds[g] ==> f == g
    ensures ByReport(fds, reports, Awaited(fds, bits, reports, u))
    decreases reports
  {
    if reports != [] {
      var f, r := reports[0], Awaited(fds - {reports[0]}, bits, reports[1..], u);
      AwaitedSorted(fds - {f}, bits, reports[1..], u);
      ByReportRest(fds, bits, reports, u);
      if Awaited(fds, bits, reports, u) != r {
        forall d | d in r ensures FirstReport(fds, reports, fds[f]) < FirstReport(fds, reports, d) {
          LaterReport(fds, bits, reports, u, d);
        }
        ByReportCons(fds, reports, fds[f], r);
      }
    }
  }

  /** Nobody awaited is missing or there twice, and they stand in the order of their first report. */
  lemma {:induction false} AwaitedOrdered(fds: map<Fd, Co>, bits: map<Co, Bits>, reports: seq<Fd>, u: bool)
    requires forall f, g :: f in fds && g in fds && fds[f] == fds[g] ==> f == g
    ensures var q := Awaited(fds, bits, reports, u);
            && (forall c :: c in q <==> IsReported(fds, reports, c) && c in bits && bits[c].urgent == u)
            && ByReport(fds, reports, q)
  {
    var q := Awaited(fds, bits, reports, u);
    forall c ensures c in q <==> IsReported(fds, reports, c) && c in bits && bits[c].urgent == u {
      AwaitedAre(fds, bits, reports, u, c);
    }
    AwaitedSorted(fds, bits, reports, u);
  }
}
