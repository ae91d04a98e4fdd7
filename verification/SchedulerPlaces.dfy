/**
 Where each event takes the coroutine it is about, and that it takes nobody else
 anywhere: the scheduler as a machine that moves coroutines between places.
 */
module SchedulerPlaces {
  import opened Options
  import opened Entries
  import opened Deadlines
  import opened SchedulerSpec

  datatype Place = Gone | Running | Queued(urgent: bool) | Sleeping(deadline: nat) | Waiting(fd: Fd)

  ghost predicate At(s: Sched, c: Co, p: Place) {
    match p
    case Gone => c !in s.bits
    case Running => s.curr == Some(c)
    case Queued(u) => c in Queue(s, u)
    case Sleeping(d) => Entry(d, c) in s.sleeping
    case Waiting(fd) => fd in s.fds && s.fds[fd] == c
  }

  /** The first deadline from `want` on that no sleeper has. */
  ghost predicate Earliest(s: seq<Entry<Co>>, want: nat, d: nat) {
    want <= d && !HasKey(s, d) && forall k :: want <= k < d ==> HasKey(s, k)
  }

  /** The coroutine that an event is about, where it is before and where it goes. */
  ghost predicate Moves(s: System, e: Event, c: Co, from: Place, to: Place) {
    var d := s.sched;
    var queued := Queued(c in d.bits && d.bits[c].urgent);
    match e
    case Make(made, u) => c == made && from == Gone && to == Queued(u)
    case ResumeFirst(u) => Queue(d, u) != [] && c == Queue(d, u)[0] && from == Queued(u) && to == Running
    case Nap => d.curr == Some(c) && from == Running && to == queued
    case SleepFor(msecs, now) =>
      d.curr == Some(c) && from == Running && to.Sleeping? && Earliest(d.sleeping, now + Usecs(msecs), to.deadline)
    case WaitFd(fd, _, _) => d.curr == Some(c) && from == Running && to == Waiting(fd)
    case Exit => d.curr == Some(c) && from == Running && to == Gone
    case Stop => d.curr == Some(c) && from == Running && to == queued
    case ExpireOne(now) =>
      && d.sleeping != [] && c == d.sleeping[0].node && d.sleeping[0].key <= now
      && from == Sleeping(d.sleeping[0].key) && to == queued
    case Report(fd) => fd in d.fds && c == d.fds[fd] && from == Waiting(fd) && to == queued
    case _ => false
  }

  /** An event takes the coroutine it is about from one place to the other and leaves everyone else's place alone. */
  ghost predicate Moved(s: System, e: Event, t: Sched, c: Co) {
    && (forall from, to :: Moves(s, e, c, from, to) ==> At(s.sched, c, from) && At(t, c, to))
    && ((forall from, to :: !Moves(s, e, c, from, to)) ==> forall p :: At(t, c, p) <==> At(s.sched, c, p))
  }

  /** The entries after a safe sleep: those before and one more, at the earliest free deadline. */
  lemma SleepShape(s: Sched, clock: nat, c: Co, msecs: nat, want: nat, now: nat) returns (d: nat)
    requires Inv(s, clock) && s.curr == Some(c) && clock <= now && Safe(msecs) && want == now + Usecs(msecs)
    ensures Earliest(s.sleeping, want, d) && forall k :: Earliest(s.sleeping, want, k) ==> k == d
    ensures var t := SchedulerSpec.SchedSleep(s, c, msecs, now);
            && (forall x :: x in t.sleeping <==> x == Entry(d, c) || x in s.sleeping)
            && t.ready == s.ready && t.urgent == s.urgent && t.fds == s.fds && t.bits.Keys == s.bits.Keys
  {
    assert Located(s, clock, c);
    var key := s.bits[c].key;
    SchedSleepAdds(s.sleeping, c, key, msecs, now);
    d := Deadlines.SchedSleep(s.sleeping, c, key, msecs, now).1;
  }

  lemma SleepPlaces(s: System, t: Sched, msecs: nat, now: nat, d: nat, c: Co)
    requires s.sched.curr.Some? && t.curr.None? && t.bits.Keys == s.sched.bits.Keys
    requires t.ready == s.sched.ready && t.urgent == s.sched.urgent && t.fds == s.sched.fds
    requires forall x :: x in t.sleeping <==> x == Entry(d, s.sched.curr.value) || x in s.sched.sleeping
    requires var want := now + Usecs(msecs);
             && Earliest(s.sched.sleeping, want, d)
             && forall k :: Earliest(s.sched.sleeping, want, k) ==> k == d
    ensures Moved(s, SleepFor(msecs, now), t, c)
  {
    if s.sched.curr == Some(c) {
      assert Moves(s, SleepFor(msecs, now), c, Running, Sleeping(d));
    } else {
      forall p ensures At(t, c, p) <==> At(s.sched, c, p) {
      }
    }
  }

  lemma SleepMoves(s: System, msecs: nat, now: nat, c: Co)
    requires Inv(s.sched, s.clock) && Enabled(s, SleepFor(msecs, now)) && Safe(msecs)
    ensures Moved(s, SleepFor(msecs, now), Next(s, SleepFor(msecs, now)).sched, c)
  {
    assert ToInt(msecs) == msecs;
    var d := SleepShape(s.sched, s.clock, s.sched.curr.value, msecs, now + Usecs(msecs), now);
    SleepPlaces(s, Next(s, SleepFor(msecs, now)).sched, msecs, now, d, c);
  }

  lemma WaitShape(s: Sched, clock: nat, c: Co, fd: Fd, timeout: int, now: nat)
    requires Inv(s, clock) && s.curr == Some(c) && timeout < 0
    ensures var t := SchedulerSpec.SchedSleep(SchedWait(s, c, fd), c, timeout, now);
            && t.ready == s.ready && t.urgent == s.urgent && t.sleeping == s.sleeping
            && t.fds == s.fds[fd := c] && t.bits.Keys == s.bits.Keys
  {
    assert Located(s, clock, c);
    WithoutAbsent(s.sleeping, s.bits[c].key);
  }

  lemma WaitPlaces(s: System, t: Sched, fd: Fd, timeout: int, now: nat, c: Co)
    requires s.sched.curr.Some? && t.curr.None? && t.bits.Keys == s.sched.bits.Keys && fd !in s.sched.fds
    requires t.ready == s.sched.ready && t.urgent == s.sched.urgent && t.sleeping == s.sched.sleeping
    requires t.fds == s.sched.fds[fd := s.sched.curr.value]
    ensures Moved(s, WaitFd(fd, timeout, now), t, c)
  {
    if s.sched.curr == Some(c) {
      assert Moves(s, WaitFd(fd, timeout, now), c, Running, Waiting(fd));
    } else {
      forall p ensures At(t, c, p) <==> At(s.sched, c, p) {
      }
    }
  }

  lemma WaitMoves(s: System, fd: Fd, timeout: int, now: nat, c: Co)
    requires Inv(s.sched, s.clock) && Enabled(s, WaitFd(fd, timeout, now)) && timeout < 0
    ensures Moved(s, WaitFd(fd, timeout, now), Next(s, WaitFd(fd, timeout, now)).sched, c)
  {
    WaitShape(s.sched, s.clock, s.sched.curr.value, fd, timeout, now);
    WaitPlaces(s, Next(s, WaitFd(fd, timeout, now)).sched, fd, timeout, now, c);
  }

  lemma {:induction false} EnqueueAt(s: Sched, c: Co, d: Co, u: bool)
    requires c in s.bits
    ensures d in Queue(Enqueue(s, c), u) <==> d in Queue(s, u) || (d == c && s.bits[c].urgent == u)
  {
  }

  lemma YieldMoves(s: System, e: Event, c: Co)
    requires Enabled(s, e) && (e.Nap? || e.Stop?)
    ensures Moved(s, e, Next(s, e).sched, c)
  {
    var me, t := s.sched.curr.value, Next(s, e).sched;
    forall u ensures c in Queue(t, u) <==> c in Queue(s.sched, u) || (c == me && s.sched.bits[me].urgent == u) {
      EnqueueAt(s.sched, me, c, u);
    }
    if c == me {
      assert Moves(s, e, c, Running, Queued(s.sched.bits[me].urgent));
    } else {
      forall p ensures At(t, c, p) <==> At(s.sched, c, p) {
      }
    }
  }

  lemma ExitMoves(s: System, c: Co)
    requires Inv(s.sched, s.clock) && Enabled(s, Exit)
    ensures Moved(s, Exit, Next(s, Exit).sched, c)
  {
    var me, t := s.sched.curr.value, Next(s, Exit).sched;
    assert Located(s.sched, s.clock, me);
    if c == me {
      assert Moves(s, Exit, c, Running, Gone);
    } else {
      forall p ensures At(t, c, p) <==> At(s.sched, c, p) {
      }
    }
  }

  lemma MakeMoves(s: System, made: Co, u: bool, c: Co)
    requires Enabled(s, Make(made, u))
    ensures Moved(s, Make(made, u), Next(s, Make(made, u)).sched, c)
  {
    var e := Make(made, u);
    var t := Next(s, e).sched;
    if c == made {
      assert Moves(s, e, c, Gone, Queued(u));
    } else {
      forall p ensures At(t, c, p) <==> At(s.sched, c, p) {
      }
    }
  }

  lemma ResumeMoves(s: System, u: bool, c: Co)
    requires Inv(s.sched, s.clock) && Enabled(s, ResumeFirst(u))
    ensures Moved(s, ResumeFirst(u), Next(s, ResumeFirst(u)).sched, c)
  {
    var e := ResumeFirst(u);
    var q, t := Queue(s.sched, u), Next(s, e).sched;
    assert forall x :: x in q <==> x == q[0] || x in q[1..];
    if c == q[0] {
      assert Moves(s, e, c, Queued(u), Running);
    } else {
      forall p ensures At(t, c, p) <==> At(s.sched, c, p) {
      }
    }
  }

  lemma ExpirePlaces(s: System, now: nat, c: Co)
    requires Enabled(s, ExpireOne(now))
    ensures Moved(s, ExpireOne(now), Next(s, ExpireOne(now)).sched, c)
  {
    var e := ExpireOne(now);
    var z, t := s.sched.sleeping, Next(s, e).sched;
    if z != [] && z[0].key <= now {
      var due := z[0].node;
      assert forall x :: x in z <==> x == z[0] || x in z[1..];
      ExpireJoins(s.sched, now, c);
      if c == due {
        assert Moves(s, e, c, Sleeping(z[0].key), Queued(s.sched.bits[due].urgent));
      } else {
        forall p ensures At(t, c, p) <==> At(s.sched, c, p) {
        }
      }
    }
  }

  lemma ExpireJoins(s: Sched, now: nat, c: Co)
    requires s.sleeping != [] && s.sleeping[0].key <= now && s.sleeping[0].node in s.bits
    ensures var t, due := Expire(s, now), s.sleeping[0].node;
            && t.sleeping == s.sleeping[1..] && t.fds == s.fds && t.curr == s.curr && t.bits.Keys == s.bits.Keys
            && forall u :: c in Queue(t, u) <==> c in Queue(s, u) || (c == due && s.bits[due].urgent == u)
  {
    var due := s.sleeping[0].node;
    var r := s.(sleeping := s.sleeping[1..], bits := s.bits[due := s.bits[due].(sleeping := false)]);
    forall u ensures c in Queue(Expire(s, now), u) <==> c in Queue(s, u) || (c == due && s.bits[due].urgent == u) {
      EnqueueAt(r, due, c, u);
    }
  }

  lemma ReportJoins(s: Sched, clock: nat, fd: Fd, c: Co)
    requires Inv(s, clock) && fd in s.fds && s.fds[fd] in s.bits
    ensures var t, w := FdReady(s, fd), s.fds[fd];
            && t.fds == s.fds - {fd} && t.sleeping == s.sleeping && t.curr == s.curr && t.bits.Keys == s.bits.Keys
            && forall u :: c in Queue(t, u) <==> c in Queue(s, u) || (c == w && s.bits[w].urgent == u)
  {
    var w := s.fds[fd];
    assert Located(s, clock, w) && Waits(s, w);
    forall u ensures c in Queue(FdReady(s, fd), u) <==> c in Queue(s, u) || (c == w && s.bits[w].urgent == u) {
      EnqueueAt(s, w, c, u);
    }
  }

  lemma ReportPlaces(s: System, t: Sched, fd: Fd, c: Co)
    requires fd in s.sched.fds && s.sched.fds[fd] in s.sched.bits && t.bits.Keys == s.sched.bits.Keys
    requires t.fds == s.sched.fds - {fd} && t.sleeping == s.sched.sleeping && t.curr == s.sched.curr
    requires var w := s.sched.fds[fd];
             forall u :: c in Queue(t, u) <==> c in Queue(s.sched, u) || (c == w && s.sched.bits[w].urgent == u)
    ensures Moved(s, Report(fd), t, c)
  {
    var w := s.sched.fds[fd];
    if c == w {
      assert Moves(s, Report(fd), c, Waiting(fd), Queued(s.sched.bits[w].urgent));
    } else {
      forall p ensures At(t, c, p) <==> At(s.sched, c, p) {
      }
    }
  }

  lemma ReportMoves(s: System, fd: Fd, c: Co)
    requires Inv(s.sched, s.clock) && Enabled(s, Report(fd))
    ensures Moved(s, Report(fd), Next(s, Report(fd)).sched, c)
  {
    if fd in s.sched.fds {
      ReportJoins(s.sched, s.clock, fd, c);
      ReportPlaces(s, Next(s, Report(fd)).sched, fd, c);
    }
  }

  /** Ending a wait that is over, changing an urgency and starting or finishing the loop move nobody. */
  lemma NobodyMoves(s: System, e: Event, c: Co)
    requires Inv(s.sched, s.clock) && Enabled(s, e)
    requires e.SetUrgent? || e.EndSleep? || e.EndWait? || e.Start? || e.Finish?
    ensures Moved(s, e, Next(s, e).sched, c)
  {
    if s.sched.curr.Some? { assert Located(s.sched, s.clock, s.sched.curr.value); }
    forall p ensures At(Next(s, e).sched, c, p) <==> At(s.sched, c, p) {
    }
  }

  lemma EventMoves(s: System, e: Event, c: Co)
    requires Inv(s.sched, s.clock) && Enabled(s, e) && Plainly(e)
    ensures Moved(s, e, Next(s, e).sched, c)
  {
    match e {
      case Make(made, u) => MakeMoves(s, made, u, c);
      case ResumeFirst(u) => ResumeMoves(s, u, c);
      case Nap => YieldMoves(s, e, c);
      case SleepFor(msecs, now) => SleepMoves(s, msecs, now, c);
      case WaitFd(fd, timeout, now) => WaitMoves(s, fd, timeout, now, c);
      case Exit => ExitMoves(s, c);
      case Stop => YieldMoves(s, e, c);
      case ExpireOne(now) => ExpirePlaces(s, now, c);
      case Report(fd) => ReportMoves(s, fd, c);
      case _ => NobodyMoves(s, e, c);
    }
  }

  /**
   In every run with safe sleeps and endless waits each event takes the coroutine it is
   about where it is meant to go: a call of the running one to its queue, to the earliest
   free deadline, to its descriptor or away, an expiry or a report to its queue, a resume
   to running. Everyone else stays where they are.
   */
  lemma {:induction false} EveryEventMoves(events: seq<Event>, e: Event, c: Co)
    requires IsRun(Created(), events) && AllPlainly(events) && Enabled(Run(Created(), events), e) && Plainly(e)
    ensures var s := Run(Created(), events); Moved(s, e, Next(s, e).sched, c)
  {
    RunKeeps(Created(), events);
    EventMoves(Run(Created(), events), e, c);
  }

  // ------------------------------------------------------------------- urgency

  /** The urgency that a coroutine was last created with or set to. */
  function LastSet(events: seq<Event>, c: Co, u: bool): bool
    decreases events
  {
    if events == [] then u
    else
      var e := events[0];
      LastSet(events[1..], c, if (e.Make? || e.SetUrgent?) && e.co == c then e.urgent else u)
  }

  lemma {:induction false} RunUrgency(s: System, events: seq<Event>, c: Co, u: bool)
    requires IsRun(s, events) && (c in s.sched.bits ==> s.sched.bits[c].urgent == u)
    ensures var t := Run(s, events).sched; c in t.bits ==> t.bits[c].urgent == LastSet(events, c, u)
    decreases events
  {
    if events != [] {
      var e := events[0];
      var v := if (e.Make? || e.SetUrgent?) && e.co == c then e.urgent else u;
      NextUrgency(s, e, c, u, v);
      RunUrgency(Next(s, e), events[1..], c, v);
    }
  }

  lemma NextUrgency(s: System, e: Event, c: Co, u: bool, v: bool)
    requires Enabled(s, e) && (c in s.sched.bits ==> s.sched.bits[c].urgent == u)
    requires v == if (e.Make? || e.SetUrgent?) && e.co == c then e.urgent else u
    ensures var t := Next(s, e).sched; c in t.bits ==> t.bits[c].urgent == v
  {
  }

  /** In every run, with any sleeps and waits, a coroutine's URGENT bit is what it was last created with or set to. */
  lemma {:induction false} UrgencyIsLastSet(events: seq<Event>, c: Co)
    requires IsRun(Created(), events)
    ensures var t := Run(Created(), events).sched; c in t.bits ==> t.bits[c].urgent == LastSet(events, c, false)
  {
    RunUrgency(Created(), events, c, false);
  }
}
