/** The scheduler object and its loop, updated in place. */
module SchedulerHeap {
  import opened Options
  import opened Entries
  import opened Deadlines
  import opened SchedulerSpec
  import opened SchedulerLoop

  lemma OrderStep(resumed: seq<Co>, co: Co, rest: seq<Co>, left: seq<Co>, order: seq<Co>)
    requires rest == [co] + left && resumed + rest == order
    ensures resumed + [co] + left == order
  {
  }

  class Scheduler {
    var ready: seq<Co>
    var urgent: seq<Co>
    var sleeping: seq<Entry<Co>>
    var fds: map<Fd, Co>
    var bits: map<Co, Bits>
    var curr: Option<Co>
    var status: SchedStatus
    ghost var clock: nat

    ghost function Sched(): Sched
      reads this
    {
      SchedulerSpec.Sched.Sched(ready, urgent, sleeping, fds, bits, curr, status)
    }

    ghost function View(): System
      reads this
    {
      System(Sched(), clock)
    }

    /** dyco_schedule_create. */
    constructor ()
      ensures View() == Created()
    {
      ready, urgent, sleeping, fds, bits := [], [], [], map[], map[];
      curr, status, clock := None, SchedReady, 0;
    }

    method Enqueue(c: Co)
      requires c in bits
      modifies this`ready, this`urgent, this`bits
      ensures Sched() == SchedulerSpec.Enqueue(old(Sched()), c)
    {
      bits := bits[c := bits[c].(ready := true)];
      if bits[c].urgent {
        urgent := urgent + [c];
      } else {
        ready := ready + [c];
      }
    }

    /** dyco_coroutine_create and dyco_coroutine_create_urgent. */
    method Create(c: Co, isUrgent: bool)
      modifies this
      ensures View() == old(View()).(sched := SchedulerSpec.Create(old(Sched()), c, isUrgent))
    {
      bits := bits[c := Bits(true, false, false, isUrgent, 0)];
      if isUrgent {
        urgent := urgent + [c];
      } else {
        ready := ready + [c];
      }
      if status == SchedDone {
        status := SchedReady;
      }
    }

    /** dyco_coroutine_setUrgent and dyco_coroutine_unsetUrgent. */
    method Mark(c: Co, isUrgent: bool) returns (ret: int)
      modifies this`bits
      ensures Sched() == SchedulerSpec.Mark(old(Sched()), c, isUrgent) &&
              (ret == 0 <==> c in old(bits)) && -1 <= ret <= 0
    {
      if c !in bits {
        return -1;
      }
      bits := bits[c := bits[c].(urgent := isUrgent)];
      return 0;
    }

    /** schedule_sched_sleep: whoever has the old key goes, then the deadline grows until it is free. */
    method SchedSleep(c: Co, msecs: int, now: nat)
      requires c in bits
      modifies this`sleeping, this`bits
      ensures Sched() == SchedulerSpec.SchedSleep(old(Sched()), c, msecs, now)
    {
      if HasKey(sleeping, bits[c].key) {
        sleeping := WithoutKey(sleeping, bits[c].key);
      } else {
        WithoutAbsent(sleeping, bits[c].key);
      }
      if msecs <= 0 {
        assert bits[c := bits[c]] == bits;
        return;
      }
      ghost var rest := sleeping;
      var key: nat := now + Usecs(msecs);
      while HasKey(sleeping, key)
        invariant sleeping == rest && bits == old(bits)
        invariant LeastFree(rest, key) == LeastFree(rest, now + Usecs(msecs))
        decreases CountFrom(rest, key)
      {
        CountFromBound(rest, key);
        key := key + 1;
      }
      sleeping := InsertSorted(sleeping, Entry(key, c));
      bits := bits[c := bits[c].(key := key, sleeping := true)];
    }

    method CancelSleep(c: Co)
      requires c in bits
      modifies this`sleeping, this`bits
      ensures Sched() == SchedulerSpec.CancelSleep(old(Sched()), c)
    {
      if bits[c].sleeping {
        sleeping := WithoutKey(sleeping, bits[c].key);
        bits := bits[c := bits[c].(sleeping := false)];
      }
    }

    method SchedWait(c: Co, fd: Fd)
      requires c in bits
      modifies this`fds, this`bits
      ensures Sched() == SchedulerSpec.SchedWait(old(Sched()), c, fd)
    {
      fds := fds[fd := c];
      bits := bits[c := bits[c].(waiting := true)];
    }

    method CancelWait(c: Co, fd: Fd) returns (ret: int)
      requires c in bits
      modifies this`fds, this`bits
      ensures Sched() == SchedulerSpec.CancelWait(old(Sched()), c, fd) && ret == if old(bits[c].waiting) then 0 else 1
    {
      if bits[c].waiting {
        fds := fds - {fd};
        bits := bits[c := bits[c].(waiting := false)];
        return 0;
      }
      return 1;
    }

    /** One call of the running coroutine. */
    method Perform(e: Event)
      requires Enabled(View(), e) && IsCall(e)
      modifies this
      ensures View() == Next(old(View()), e)
    {
      match e {
        case Make(c, u) => Create(c, u);
        case SetUrgent(c, u) =>
          var _ := Mark(c, u);
        case SleepFor(msecs, now) =>
          SchedSleep(curr.value, ToInt(msecs), now);
          curr, clock := None, now;
        case WaitFd(fd, timeout, now) =>
          SchedWait(curr.value, fd);
          SchedSleep(curr.value, timeout, now);
          curr, clock := None, now;
        case EndSleep => CancelSleep(curr.value);
        case EndWait(fd) =>
          var _ := CancelWait(curr.value, fd);
        case Nap => Yielding(e);
        case Exit => Yielding(e);
        case Stop => Yielding(e);
      }
    }

    method Yielding(e: Event)
      requires Enabled(View(), e) && (e.Nap? || e.Exit? || e.Stop?)
      modifies this
      ensures View() == Next(old(View()), e)
    {
      var c := curr.value;
      if e.Exit? {
        CancelSleep(c);
        bits := bits - {c};
      } else {
        Enqueue(c);
        if e.Stop? {
          status := SchedStopped;
        }
      }
      curr := None;
    }

    /** resume: the first coroutine of a queue runs until it gives control back. */
    method Resume(u: bool, acts: Activity)
      requires Enabled(View(), ResumeFirst(u)) && IsActivity(Next(View(), ResumeFirst(u)), acts)
      modifies this
      ensures View() == ActivityEnd(Next(old(View()), ResumeFirst(u)), acts)
    {
      var c := if u then urgent[0] else ready[0];
      if u {
        urgent := urgent[1..];
      } else {
        ready := ready[1..];
      }
      bits := bits[c := bits[c].(ready := false)];
      curr := Some(c);
      RunCalls(acts);
    }

    method RunCalls(acts: Activity)
      requires IsActivity(View(), acts)
      modifies this
      ensures View() == ActivityEnd(old(View()), acts)
    {
      var i := 0;
      var running := true;
      while running
        invariant 0 <= i <= |acts|
        invariant running ==> IsActivity(View(), acts[i..]) &&
                              ActivityEnd(View(), acts[i..]) == ActivityEnd(old(View()), acts)
        invariant !running ==> View() == ActivityEnd(old(View()), acts)
        decreases |acts| - i, running
      {
        assert acts[i..][0] == acts[i] && acts[i..][1..] == acts[i + 1..];
        Perform(acts[i]);
        i := i + 1;
        running := curr.Some?;
      }
    }

    /** One turn of step A: the earliest sleeper, if due, becomes ready. */
    method ExpireOne(now: nat) returns (due: bool)
      requires sleeping != [] ==> sleeping[0].node in bits
      modifies this`sleeping, this`bits, this`ready, this`urgent
      ensures due == IsDue(old(Sched()), now) && Sched() == Expire(old(Sched()), now)
    {
      if sleeping == [] || sleeping[0].key > now {
        return false;
      }
      var c := sleeping[0].node;
      sleeping := sleeping[1..];
      bits := bits[c := bits[c].(sleeping := false)];
      Enqueue(c);
      return true;
    }

    /** Step A: the clock is read before each turn. */
    method ExpirePass(readings: seq<nat>)
      requires PassOk(Sched(), clock, readings)
      modifies this
      ensures View() == System(Pass(old(Sched()), old(clock), readings), readings[|readings| - 1])
    {
      var i := 0;
      var due := true;
      while due
        invariant 0 <= i <= |readings|
        invariant due ==> PassOk(Sched(), clock, readings[i..])
                          && Pass(Sched(), clock, readings[i..]) == Pass(old(Sched()), old(clock), readings)
        invariant !due ==> i == |readings| &&
                           Sched() == Pass(old(Sched()), old(clock), readings) && clock == readings[i - 1]
        decreases |readings| - i, due
      {
        assert readings[i..][0] == readings[i] && readings[i..][1..] == readings[i + 1..];
        due := ExpireOne(readings[i]);
        clock := readings[i];
        i := i + 1;
      }
    }

    /** The body of the loop of steps B and C; true when the loop is left. */
    method TakeTurn(u: bool, last: Option<Co>, idx: nat, turn: Turn) returns (co: Co, leave: bool)
      requires TurnOk(u, turn) && View() == turn.before
      modifies this
      ensures Queue(turn.before.sched, u) != [] && co == Queue(turn.before.sched, u)[0]
      ensures View() == turn.after && leave == Leaves(turn.after, co, last, idx)
    {
      co := if u then urgent[0] else ready[0];
      Resume(u, turn.acts);
      leave := status == SchedStopped || Some(co) == last || idx + 1 == MAX_RESUMES;
    }

    method TurnAt(u: bool, last: Option<Co>, idx: nat, script: seq<Turn>) returns (co: Co, leave: bool)
      requires idx < |script| && TurnsOk(u, script) && View() == script[idx].before && Queue(View().sched, u) != []
      modifies this
      ensures co == Queue(script[idx].before.sched, u)[0]
      ensures View() == script[idx].after && leave == Leaves(script[idx].after, co, last, idx)
    {
      assert TurnOk(u, script[idx]);
      co, leave := TakeTurn(u, last, idx, script[idx]);
    }

    /** Steps B and C: resumes at most 128 of the coroutines that are queued now. */
    method RunPhase(u: bool, script: seq<Turn>) returns (resumed: seq<Co>)
      requires PhaseOk(View(), u, script)
      modifies this
      ensures View() == End(old(View()), script) && resumed == Order(old(View()), u, script)
    {
      var last := Last(if u then urgent else ready);
      var idx := 0;
      var leave := false;
      resumed := [];
      ghost var s, order := View(), Order(View(), u, script);
      while !leave && (if u then urgent else ready) != []
        invariant 0 <= idx <= |script| && View() == End(s, script[..idx])
        invariant !leave ==> PhaseShape(View(), u, last, idx, script[idx..])
        invariant leave ==> script[..idx] == script && resumed == order
        invariant resumed + Order(View(), u, script[idx..]) == order
        decreases |script| - idx
      {
        ghost var t := View();
        PhaseStep(t, u, last, idx, script);
        var co;
        co, leave := TurnAt(u, last, idx, script);
        OrderStep(resumed, co, Order(t, u, script[idx..]), Order(View(), u, script[idx + 1..]), order);
        resumed := resumed + [co];
        idx := idx + 1;
      }
      assert script[..idx] == script;
    }

    /** Step D: every reported descriptor that somebody waits for makes that coroutine ready. */
    method Poll(reports: seq<Fd>)
      requires ReportsOk(Sched(), reports)
      modifies this`fds, this`bits, this`ready, this`urgent
      ensures Sched() == Reports(old(Sched()), reports)
    {
      var idx := 0;
      while idx < |reports|
        invariant 0 <= idx <= |reports| && ReportsOk(Sched(), reports[idx..])
        invariant Reports(Sched(), reports[idx..]) == Reports(old(Sched()), reports)
      {
        var fd := reports[idx];
        assert reports[idx..][0] == fd && reports[idx..][1..] == reports[idx + 1..];
        if fd in fds {
          var co := fds[fd];
          Enqueue(co);
          var _ := CancelWait(co, fd);
        }
        idx := idx + 1;
      }
    }

    /** One turn of the loop; false when a coroutine stopped it. */
    method RunRound(r: Round) returns (going: bool)
      requires RoundOk(r) && View() == r.before
      modifies this
      ensures View() == r.after && going == !IsStopped(r.after)
    {
      ExpirePass(r.readings);
      var _ := RunPhase(true, r.urgent);
      if status == SchedStopped {
        return false;
      }
      var _ := RunPhase(false, r.ordinary);
      if status == SchedStopped {
        return false;
      }
      Poll(r.reports);
      return status != SchedStopped;
    }

    /** dyco_schedule_run on a scheduler that is neither running nor aborted. */
    method Run(rounds: seq<Round>) returns (ret: int)
      requires RunOk(View(), rounds) && status != SchedRunning
      modifies this
      ensures (View(), ret) == RunResult(old(View()), rounds)
    {
      if status == SchedDone {
        return 0;
      }
      status := SchedRunning;
      ghost var s := View();
      var i := 0;
      while !(fds == map[] && sleeping == [] && ready == [] && urgent == [])
        invariant 0 <= i <= |rounds| && View() == LoopEnd(s, rounds[..i]) && !IsStopped(View())
        invariant LoopShape(View(), rounds[i..]) && Linked(View(), rounds[i..])
        decreases |rounds| - i
      {
        ghost var rest := rounds[i..];
        assert rest[0] == rounds[i] && rest[1..] == rounds[i + 1..];
        var going := RunRound(rounds[i]);
        i := i + 1;
        assert LoopEnd(s, rounds[..i]) == rounds[i - 1].after;
        if !going {
          assert rounds[..i] == rounds;
          return 1;
        }
      }
      assert rounds[..i] == rounds;
      status := SchedDone;
      return 0;
    }
  }
}
