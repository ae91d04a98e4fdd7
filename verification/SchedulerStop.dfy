/** The status of the scheduler: what sets it, and that a call of dyco_schedule_run returns 1 through a stop alone. */
module SchedulerStop {
  import opened Options
  import opened SchedulerSpec
  import opened SchedulerLoop

  /** The status after some events, from what they are alone. */
  function StatusAfter(status: SchedStatus, events: seq<Event>): SchedStatus
    decreases events
  {
    if events == [] then status
    else
      StatusAfter(match events[0]
                  case Make(_, _) => if status == SchedDone then SchedReady else status
                  case Start => if status == SchedDone then SchedDone else SchedRunning
                  case Stop => SchedStopped
                  case Finish => SchedDone
                  case _ => status, events[1..])
  }

  lemma {:induction false} RunStatus(s: System, events: seq<Event>)
    requires IsRun(s, events)
    ensures Run(s, events).sched.status == StatusAfter(s.sched.status, events)
    decreases events
  {
    if events != [] { RunStatus(Next(s, events[0]), events[1..]); }
  }

  /**
   In every run, with any sleeps and waits, only a stop stops the scheduler, only finding
   nothing left finishes it, a start runs it again unless it is done, and a creation makes
   a finished one ready.
   */
  lemma {:induction false} StatusIsLastSet(events: seq<Event>)
    requires IsRun(Created(), events)
    ensures Run(Created(), events).sched.status == StatusAfter(SchedReady, events)
  {
    RunStatus(Created(), events);
  }

  // ---------------------------------------------------------- where a stop ends

  predicate Stops(turn: Turn) {
    turn.acts != [] && turn.acts[|turn.acts| - 1] == Stop
  }

  lemma {:induction false} ActivityStops(s: System, acts: Activity)
    requires IsActivity(s, acts) && s.sched.status == SchedRunning
    ensures var t := ActivityEnd(s, acts);
            t.sched.status == if acts[|acts| - 1] == Stop then SchedStopped else SchedRunning
    ensures forall i :: 0 <= i < |acts| - 1 ==> acts[i] != Stop
    decreases acts
  {
    var t := Next(s, acts[0]);
    if t.sched.curr.Some? {
      ActivityStops(t, acts[1..]);
      assert forall i :: 0 < i < |acts| ==> acts[i] == acts[1..][i - 1];
    }
  }

  lemma TurnStops(u: bool, turn: Turn)
    requires TurnOk(u, turn)
    ensures turn.after.sched.status == if Stops(turn) then SchedStopped else SchedRunning
  {
    ActivityStops(Next(turn.before, ResumeFirst(u)), turn.acts);
  }

  /** Nobody but the last stops, and the phase ends stopped exactly if that one does. */
  ghost predicate StopsLast(script: seq<Turn>, end: System) {
    && (forall i :: 0 <= i < |script| - 1 ==> !Stops(script[i]))
    && end.sched.status == if script != [] && Stops(script[|script| - 1]) then SchedStopped else SchedRunning
  }

  lemma {:induction false} PhaseStops(s: System, u: bool, last: Option<Co>, idx: nat, script: seq<Turn>)
    requires PhaseShape(s, u, last, idx, script) && TurnsOk(u, script) && s.sched.status == SchedRunning
    ensures StopsLast(script, End(s, script))
    decreases script
  {
    if script != [] {
      assert TurnOk(u, script[0]);
      TurnStops(u, script[0]);
      if |script| > 1 {
        var t, rest := script[0].after, script[1..];
        RestOk(u, script);
        PhaseStops(t, u, last, idx + 1, rest);
        assert forall i :: 0 < i < |script| ==> script[i] == rest[i - 1];
      }
    }
  }

  lemma RestOk(u: bool, script: seq<Turn>)
    requires TurnsOk(u, script) && script != []
    ensures TurnsOk(u, script[1..])
  {
    forall i | 0 <= i < |script[1..]| ensures TurnOk(u, script[1..][i]) {
      assert TurnOk(u, script[i + 1]);
    }
  }

  ghost predicate StopIn(r: Round) {
    || (exists i :: 0 <= i < |r.urgent| && Stops(r.urgent[i]))
    || (exists i :: 0 <= i < |r.ordinary| && Stops(r.ordinary[i]))
  }

  lemma {:induction false} PassStatus(s: Sched, clock: nat, readings: seq<nat>)
    requires PassOk(s, clock, readings)
    ensures Pass(s, clock, readings).status == s.status
    decreases readings
  {
    if IsDue(s, readings[0]) { PassStatus(Expire(s, readings[0]), readings[0], readings[1..]); }
  }

  lemma {:induction false} ReportsStatus(s: Sched, reports: seq<Fd>)
    requires ReportsOk(s, reports)
    ensures Reports(s, reports).status == s.status
    decreases reports
  {
    if reports != [] { ReportsStatus(FdReady(s, reports[0]), reports[1..]); }
  }

  /** A turn of the loop ends stopped exactly if somebody stops in it, and then nobody is resumed or polled after. */
  lemma RoundStops(r: Round)
    requires RoundOk(r) && r.before.sched.status == SchedRunning
    ensures r.after.sched.status == if StopIn(r) then SchedStopped else SchedRunning
    ensures forall i :: 0 <= i < |r.urgent| && Stops(r.urgent[i]) ==>
              i == |r.urgent| - 1 && r.ordinary == [] && r.reports == []
    ensures forall i :: 0 <= i < |r.ordinary| && Stops(r.ordinary[i]) ==> i == |r.ordinary| - 1 && r.reports == []
  {
    PassStatus(r.before.sched, r.before.clock, r.readings);
    PhaseStops(r.expired, true, Last(Queue(r.expired.sched, true)), 0, r.urgent);
    var b := AfterUrgent(r);
    if !IsStopped(b) {
      PhaseStops(b, false, Last(Queue(b.sched, false)), 0, r.ordinary);
      if !IsStopped(AfterOrdinary(r)) { ReportsStatus(AfterOrdinary(r).sched, r.reports); }
    }
  }

  lemma {:induction false} LoopStops(s: System, rounds: seq<Round>)
    requires LoopShape(s, rounds) && Linked(s, rounds) && RoundsOk(rounds) && s.sched.status == SchedRunning
    ensures forall i :: 0 <= i < |rounds| - 1 ==> !StopIn(rounds[i])
    ensures IsStopped(LoopEnd(s, rounds)) <==> rounds != [] && StopIn(rounds[|rounds| - 1])
    decreases rounds
  {
    if rounds != [] {
      assert RoundOk(rounds[0]);
      RoundStops(rounds[0]);
      if !IsStopped(rounds[0].after) {
        var rest := rounds[1..];
        assert RoundsOk(rest) by {
          forall i | 0 <= i < |rest| ensures RoundOk(rest[i]) {
            assert RoundOk(rounds[i + 1]);
          }
        }
        LoopStops(rounds[0].after, rest);
        assert forall i :: 0 < i < |rounds| ==> rounds[i] == rest[i - 1];
      }
    }
  }

  /**
   A call of dyco_schedule_run, with any sleeps and waits, returns 1 exactly if somebody
   stops in its last turn, and nobody stops in an earlier one.
   */
  lemma {:induction false} StopEndsRun(s: System, rounds: seq<Round>)
    requires RunOk(s, rounds)
    ensures RunResult(s, rounds).1 == if rounds != [] && StopIn(rounds[|rounds| - 1]) then 1 else 0
    ensures forall i :: 0 <= i < |rounds| - 1 ==> !StopIn(rounds[i])
  {
    if s.sched.status != SchedDone { LoopStops(s.(sched := s.sched.(status := SchedRunning)), rounds); }
  }
}
