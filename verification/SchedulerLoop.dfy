/**
 The loop of dyco_schedule_run, as it goes through what is outside the scheduler:
 the clock readings of each expiry pass, what each resumed coroutine does until it
 gives control back, and the descriptors each poll reports.
 */
module SchedulerLoop {
  import opened Options
  import opened Entries
  import opened Deadlines
  import opened Waiters
  import opened SchedulerSpec

  /** DYCO_URGENT_MAXEXEC and DYCO_URGENT_MAXWAIT. */
  const MAX_RESUMES: nat := 128

  // ------------------------------------------------------------------- turns

  /** The calls of one coroutine between being resumed and giving control back. */
  type Activity = seq<Event>

  ghost predicate IsActivity(s: System, acts: Activity)
    decreases acts
  {
    && acts != [] && IsCall(acts[0]) && Enabled(s, acts[0])
    && var t := Next(s, acts[0]);
       if t.sched.curr.None? then |acts| == 1 else IsActivity(t, acts[1..])
  }

  ghost function ActivityEnd(s: System, acts: Activity): System
    requires IsActivity(s, acts)
    decreases acts
  {
    var t := Next(s, acts[0]);
    if t.sched.curr.None? then t else ActivityEnd(t, acts[1..])
  }

  /** One resumed coroutine, with the states before it and when it has given control back. */
  datatype Turn = Turn(before: System, acts: Activity, after: System)

  ghost predicate TurnOk(u: bool, turn: Turn) {
    var s := turn.before;
    && Enabled(s, ResumeFirst(u)) && IsActivity(Next(s, ResumeFirst(u)), turn.acts)
    && turn.after == ActivityEnd(Next(s, ResumeFirst(u)), turn.acts)
  }

  // ------------------------------------------------------------------ phases

  function Last(q: seq<Co>): Option<Co> {
    if q == [] then None else Some(q[|q| - 1])
  }

  predicate IsStopped(s: System) {
    s.sched.status == SchedStopped
  }

  /** Whether a phase ends after resuming `c` as its (idx+1)st. */
  predicate Leaves(t: System, c: Co, last: Option<Co>, idx: nat) {
    IsStopped(t) || Some(c) == last || idx + 1 == MAX_RESUMES
  }

  /** The turns are those that the phase loop takes; `last` ended the queue when the phase began. */
  predicate PhaseShape(s: System, u: bool, last: Option<Co>, idx: nat, script: seq<Turn>)
    decreases script
  {
    if Queue(s.sched, u) == [] then script == []
    else
      && script != [] && script[0].before == s
      && if Leaves(script[0].after, Queue(s.sched, u)[0], last, idx) then |script| == 1
         else PhaseShape(script[0].after, u, last, idx + 1, script[1..])
  }

  function End(s: System, script: seq<Turn>): System {
    if script == [] then s else script[|script| - 1].after
  }

  /** The coroutines a phase resumes. */
  function Order(s: System, u: bool, script: seq<Turn>): seq<Co>
    decreases script
  {
    if script == [] || Queue(s.sched, u) == [] then []
    else [Queue(s.sched, u)[0]] + Order(script[0].after, u, script[1..])
  }

  ghost predicate TurnsOk(u: bool, script: seq<Turn>) {
    forall i {:trigger TurnOk(u, script[i])} :: 0 <= i < |script| ==> TurnOk(u, script[i])
  }

  ghost predicate PhaseOk(s: System, u: bool, script: seq<Turn>) {
    PhaseShape(s, u, Last(Queue(s.sched, u)), 0, script) && TurnsOk(u, script)
  }

  /** The loop of a phase at its idx-th turn. */
  lemma {:induction false} PhaseStep(s: System, u: bool, last: Option<Co>, idx: nat, script: seq<Turn>)
    requires idx <= |script| && Queue(s.sched, u) != [] && PhaseShape(s, u, last, idx, script[idx..])
    ensures idx < |script| && script[idx].before == s && script[..idx + 1][idx] == script[idx]
    ensures var t, c := script[idx].after, Queue(s.sched, u)[0];
            && Order(s, u, script[idx..]) == [c] + Order(t, u, script[idx + 1..])
            && (Leaves(t, c, last, idx) ==> script[..idx + 1] == script && Order(t, u, script[idx + 1..]) == [])
            && (!Leaves(t, c, last, idx) ==> PhaseShape(t, u, last, idx + 1, script[idx + 1..]))
  {
  }

  // ------------------------------------------------------- passes and reports

  predicate IsDue(s: Sched, now: nat) {
    s.sleeping != [] && s.sleeping[0].key <= now
  }

  /** The expiry pass: one reading of the clock per turn, the last finding nobody due. */
  predicate PassOk(s: Sched, clock: nat, readings: seq<nat>)
    decreases readings
  {
    && readings != [] && clock <= readings[0] && (s.sleeping != [] ==> s.sleeping[0].node in s.bits)
    && if IsDue(s, readings[0]) then PassOk(Expire(s, readings[0]), readings[0], readings[1..]) else |readings| == 1
  }

  function Pass(s: Sched, clock: nat, readings: seq<nat>): Sched
    requires PassOk(s, clock, readings)
    decreases readings
  {
    if IsDue(s, readings[0]) then Pass(Expire(s, readings[0]), readings[0], readings[1..]) else s
  }

  predicate ReportsOk(s: Sched, fds: seq<Fd>)
    decreases fds
  {
    fds == [] || ((fds[0] in s.fds ==> s.fds[fds[0]] in s.bits) && ReportsOk(FdReady(s, fds[0]), fds[1..]))
  }

  function Reports(s: Sched, fds: seq<Fd>): Sched
    requires ReportsOk(s, fds)
    decreases fds
  {
    if fds == [] then s else Reports(FdReady(s, fds[0]), fds[1..])
  }

  // ------------------------------------------------------------------ rounds

  /** One turn of the loop: readings, both phases and the reported descriptors, with the states between. */
  datatype Round = Round(
    before: System,
    readings: seq<nat>,
    expired: System,
    urgent: seq<Turn>,
    ordinary: seq<Turn>,
    reports: seq<Fd>,
    after: System)

  function AfterUrgent(r: Round): System {
    End(r.expired, r.urgent)
  }

  function AfterOrdinary(r: Round): System {
    End(AfterUrgent(r), r.ordinary)
  }

  ghost predicate RoundOk(r: Round) {
    && PassOk(r.before.sched, r.before.clock, r.readings)
    && r.expired == System(Pass(r.before.sched, r.before.clock, r.readings), r.readings[|r.readings| - 1])
    && PhaseOk(r.expired, true, r.urgent)
    && if IsStopped(AfterUrgent(r)) then r.ordinary == [] && r.reports == [] && r.after == AfterUrgent(r)
       else
         && PhaseOk(AfterUrgent(r), false, r.ordinary)
         && if IsStopped(AfterOrdinary(r)) then r.reports == [] && r.after == AfterOrdinary(r)
            else
              && ReportsOk(AfterOrdinary(r).sched, r.reports)
              && r.after == AfterOrdinary(r).(sched := Reports(AfterOrdinary(r).sched, r.reports))
  }

  /** Each round begins where the one before it ended. */
  predicate Linked(s: System, rounds: seq<Round>)
    decreases rounds
  {
    rounds == [] || (rounds[0].before == s && Linked(rounds[0].after, rounds[1..]))
  }

  function LoopEnd(s: System, rounds: seq<Round>): System {
    if rounds == [] then s else rounds[|rounds| - 1].after
  }

  /** The rounds are those that the loop takes: until nothing is left or a coroutine stops it. */
  predicate LoopShape(s: System, rounds: seq<Round>)
    decreases rounds
  {
    if IsDone(s.sched) then rounds == []
    else
      && rounds != []
      && if IsStopped(rounds[0].after) then |rounds| == 1 else LoopShape(rounds[0].after, rounds[1..])
  }

  // --------------------------------------------------- queues only grow behind

  ghost predicate Extends(s: Sched, t: Sched) {
    s.ready <= t.ready && s.urgent <= t.urgent
  }

  /** No call of a running coroutine touches what is already queued. */
  lemma CallExtends(s: System, e: Event)
    requires Enabled(s, e) && IsCall(e)
    ensures Extends(s.sched, Next(s, e).sched)
  {
  }

  /** Whoever becomes ready, by whichever event, joins the end of the queue of its URGENT bit. */
  lemma JoinsByUrgency(s: System, e: Event, u: bool, i: nat)
    requires Enabled(s, e) && !e.ResumeFirst? && |Queue(s.sched, u)| <= i < |Queue(Next(s, e).sched, u)|
    ensures var t := Next(s, e).sched;
            var c := Queue(t, u)[i];
            && Queue(s.sched, u) <= Queue(t, u) && i == |Queue(s.sched, u)| && Queue(s.sched, !u) == Queue(t, !u)
            && c in t.bits && t.bits[c].urgent == u && t.bits[c].ready
  {
  }

  lemma {:induction false} ActivityExtends(s: System, acts: Activity)
    requires IsActivity(s, acts)
    ensures Extends(s.sched, ActivityEnd(s, acts).sched)
    decreases acts
  {
    CallExtends(s, acts[0]);
    var t := Next(s, acts[0]);
    if t.sched.curr.Some? { ActivityExtends(t, acts[1..]); }
  }

  lemma {:induction false} PassExtends(s: Sched, clock: nat, readings: seq<nat>)
    requires PassOk(s, clock, readings)
    ensures Extends(s, Pass(s, clock, readings))
    decreases readings
  {
    if IsDue(s, readings[0]) { PassExtends(Expire(s, readings[0]), readings[0], readings[1..]); }
  }

  lemma {:induction false} ReportsExtend(s: Sched, fds: seq<Fd>)
    requires ReportsOk(s, fds)
    ensures Extends(s, Reports(s, fds))
    decreases fds
  {
    if fds != [] { ReportsExtend(FdReady(s, fds[0]), fds[1..]); }
  }

  // ---------------------------------------------------------- bounded waiting

  /** A turn takes the head of its queue and otherwise only adds behind. */
  ghost predicate Advances(s: System, u: bool, t: System) {
    && Queue(s.sched, u) != [] && Queue(s.sched, u)[1..] <= Queue(t.sched, u)
    && Queue(s.sched, !u) <= Queue(t.sched, !u)
  }

  lemma TurnAdvances(u: bool, turn: Turn)
    requires TurnOk(u, turn)
    ensures Advances(turn.before, u, turn.after)
  {
    ActivityExtends(Next(turn.before, ResumeFirst(u)), turn.acts);
  }

  /** What the queues see of a phase. */
  ghost predicate AllAdvance(u: bool, script: seq<Turn>) {
    forall i :: 0 <= i < |script| ==> Advances(script[i].before, u, script[i].after)
  }

  lemma TurnsAdvance(u: bool, script: seq<Turn>)
    requires TurnsOk(u, script)
    ensures AllAdvance(u, script)
  {
    forall i | 0 <= i < |script| ensures Advances(script[i].before, u, script[i].after) {
      TurnAdvances(u, script[i]);
    }
  }

  /** How many of `n` queued coroutines a phase may still resume after `idx`. */
  function Share(n: nat, idx: nat): nat
    requires idx < MAX_RESUMES
  {
    if idx + n < MAX_RESUMES then n else MAX_RESUMES - idx
  }

  /** What one resumed coroutine does to the queue it came from. */
  datatype Lap = Lap(added: seq<Co>, stop: bool)

  /** A phase as its queue sees it: what is left, what was resumed, and whether it was cut short. */
  function Laps(q: seq<Co>, last: Option<Co>, idx: nat, laps: seq<Lap>): (seq<Co>, seq<Co>, bool)
    decreases laps
  {
    if q == [] || laps == [] then (q, [], q != [])
    else
      var rest := q[1..] + laps[0].added;
      if laps[0].stop || Some(q[0]) == last || idx + 1 == MAX_RESUMES then (rest, [q[0]], laps[0].stop)
      else
        var (left, order, stop) := Laps(rest, last, idx + 1, laps[1..]);
        (left, [q[0]] + order, stop)
  }

  /**
   A phase that still has the snapshot `q` before it resumes it in order whatever is
   added behind, and up to its share unless the coroutine resumed last stopped it.
   */
  lemma {:induction false} LapsFrom(q: seq<Co>, more: seq<Co>, idx: nat, laps: seq<Lap>)
    returns (n: nat, extra: seq<Co>)
    requires Distinct(q) && q != [] && idx < MAX_RESUMES
    ensures n <= Share(|q|, idx) && Laps(q + more, Last(q), idx, laps).1 == q[..n]
    ensures Laps(q + more, Last(q), idx, laps).0 == q[n..] + extra
    ensures !Laps(q + more, Last(q), idx, laps).2 ==> n == Share(|q|, idx)
    decreases laps
  {
    if laps == [] {
      n, extra := 0, more;
      return;
    }
    assert (q + more)[1..] + laps[0].added == q[1..] + (more + laps[0].added);
    if laps[0].stop || |q| == 1 || idx + 1 == MAX_RESUMES {
      n, extra := 1, more + laps[0].added;
      assert q[..1] == [q[0]];
    } else {
      PopDistinct(q);
      assert q[1..][|q| - 2] == q[|q| - 1];
      n, extra := LapsFrom(q[1..], more + laps[0].added, idx + 1, laps[1..]);
      assert [q[0]] + q[1..][..n] == q[..n + 1] && q[1..][n..] == q[n + 1..];
      n := n + 1;
    }
  }

  lemma FirstAdvances(s: System, u: bool, script: seq<Turn>) returns (added: seq<Co>)
    requires AllAdvance(u, script) && script != [] && script[0].before == s
    ensures Queue(s.sched, u) != [] && Queue(script[0].after.sched, u) == Queue(s.sched, u)[1..] + added
    ensures Queue(s.sched, !u) <= Queue(script[0].after.sched, !u)
    ensures AllAdvance(u, script[1..]) && End(s, script) == End(script[0].after, script[1..])
  {
    added := Queue(script[0].after.sched, u)[|Queue(s.sched, u)| - 1..];
  }

  /** The queue of a phase over the system moves as its laps say. */
  lemma {:induction false} PhaseLaps(s: System, u: bool, last: Option<Co>, idx: nat, script: seq<Turn>)
    returns (laps: seq<Lap>)
    requires PhaseShape(s, u, last, idx, script) && AllAdvance(u, script)
    ensures Laps(Queue(s.sched, u), last, idx, laps).0 == Queue(End(s, script).sched, u)
    ensures Laps(Queue(s.sched, u), last, idx, laps).1 == Order(s, u, script) && |Order(s, u, script)| == |script|
    ensures Laps(Queue(s.sched, u), last, idx, laps).2 ==> IsStopped(End(s, script))
    decreases script
  {
    laps := [];
    if Queue(s.sched, u) != [] {
      var t := script[0].after;
      var added := FirstAdvances(s, u, script);
      if !Leaves(t, Queue(s.sched, u)[0], last, idx) {
        laps := PhaseLaps(t, u, last, idx + 1, script[1..]);
      }
      laps := [Lap(added, IsStopped(t))] + laps;
    }
  }

  lemma {:induction false} OtherQueue(s: System, u: bool, last: Option<Co>, idx: nat, script: seq<Turn>)
    requires PhaseShape(s, u, last, idx, script) && AllAdvance(u, script)
    ensures Queue(s.sched, !u) <= Queue(End(s, script).sched, !u)
    decreases script
  {
    if script != [] {
      var added := FirstAdvances(s, u, script);
      if |script| > 1 { OtherQueue(script[0].after, u, last, idx + 1, script[1..]); }
    }
  }

  /** Each phase resumes exactly the first min(n, 128) of its snapshot in order, unless one stops the scheduler. */
  lemma PhaseExact(s: System, u: bool, script: seq<Turn>) returns (extra: seq<Co>)
    requires Distinct(Queue(s.sched, u)) && PhaseShape(s, u, Last(Queue(s.sched, u)), 0, script) &&
             AllAdvance(u, script)
    ensures var q := Queue(s.sched, u);
            && |script| <= Share(|q|, 0) && Order(s, u, script) == q[..|script|]
            && (!IsStopped(End(s, script)) ==> |script| == Share(|q|, 0))
            && Queue(End(s, script).sched, u) == q[|script|..] + extra
    ensures Queue(s.sched, !u) <= Queue(End(s, script).sched, !u)
  {
    var q := Queue(s.sched, u);
    OtherQueue(s, u, Last(q), 0, script);
    var laps := PhaseLaps(s, u, Last(q), 0, script);
    extra := [];
    if q != [] {
      var n;
      n, extra := LapsFrom(q, [], 0, laps);
      assert q + [] == q;
    }
  }

  /** What the queues see of a round that nobody stops, with snapshots that hold no coroutine twice. */
  ghost predicate FairRound(r: Round) {
    var b := AfterUrgent(r);
    && Extends(r.before.sched, r.expired.sched)
    && PhaseShape(r.expired, true, Last(r.expired.sched.urgent), 0, r.urgent) && AllAdvance(true, r.urgent)
    && PhaseShape(b, false, Last(b.sched.ready), 0, r.ordinary) && AllAdvance(false, r.ordinary)
    && Extends(AfterOrdinary(r).sched, r.after.sched)
    && !IsStopped(b) && !IsStopped(AfterOrdinary(r))
    && Distinct(r.expired.sched.urgent) && Distinct(b.sched.ready)
  }

  /** Nobody stops the round and neither snapshot holds a coroutine twice. */
  ghost predicate Calm(r: Round) {
    !IsStopped(AfterUrgent(r)) && !IsStopped(AfterOrdinary(r))
    && Distinct(r.expired.sched.urgent) && Distinct(AfterUrgent(r).sched.ready)
  }

  lemma RoundIsFair(r: Round)
    requires RoundOk(r) && Calm(r)
    ensures FairRound(r)
  {
    PassExtends(r.before.sched, r.before.clock, r.readings);
    TurnsAdvance(true, r.urgent);
    TurnsAdvance(false, r.ordinary);
    ReportsExtend(AfterOrdinary(r).sched, r.reports);
  }

  lemma FrontTaken(front: seq<Co>, snapshot: seq<Co>, n: nat, left: seq<Co>, k: nat)
    requires front <= snapshot && n == Share(|snapshot|, 0) && snapshot[n..] <= left && k < |front|
    ensures k < MAX_RESUMES ==> k < n && snapshot[..n][k] == front[k]
    ensures k >= MAX_RESUMES ==> n == MAX_RESUMES && k - n < |left| && left[k - n] == front[k]
  {
  }

  lemma UrgentServed(r: Round)
    requires FairRound(r)
    ensures |Order(r.expired, true, r.urgent)| <= MAX_RESUMES
    ensures r.before.sched.ready <= AfterUrgent(r).sched.ready
  {
    var extra := PhaseExact(r.expired, true, r.urgent);
  }

  lemma OrdinaryServed(r: Round)
    requires FairRound(r)
    ensures var q, n := AfterUrgent(r).sched.ready, |r.ordinary|;
            && n == Share(|q|, 0) && n <= |q| && Order(AfterUrgent(r), false, r.ordinary) == q[..n]
            && q[n..] <= r.after.sched.ready
  {
    var b := AfterUrgent(r);
    var extra := PhaseExact(b, false, r.ordinary);
    assert b.sched.ready[|r.ordinary|..] <= AfterOrdinary(r).sched.ready;
  }

  /** A round resumes at most 128 urgent coroutines, and then the front of the ordinary queue up to 128. */
  lemma RoundServes(r: Round, k: nat)
    requires FairRound(r) && k < |r.before.sched.ready|
    ensures |Order(r.expired, true, r.urgent)| <= MAX_RESUMES
    ensures var order := Order(AfterUrgent(r), false, r.ordinary);
            && |order| <= MAX_RESUMES
            && (k < MAX_RESUMES ==> k < |order| && order[k] == r.before.sched.ready[k])
            && (k >= MAX_RESUMES ==>
                  && |order| == MAX_RESUMES && k - MAX_RESUMES < |r.after.sched.ready|
                  && r.after.sched.ready[k - MAX_RESUMES] == r.before.sched.ready[k])
  {
    UrgentServed(r);
    OrdinaryServed(r);
    FrontTaken(r.before.sched.ready, AfterUrgent(r).sched.ready, |r.ordinary|, r.after.sched.ready, k);
  }

  /** The ordinary coroutines resumed in a series of rounds, in order. */
  function Served(rounds: seq<Round>): seq<Co> {
    if rounds == [] then []
    else Order(AfterUrgent(rounds[0]), false, rounds[0].ordinary) + Served(rounds[1..])
  }

  ghost predicate AllFair(rounds: seq<Round>) {
    forall i {:trigger FairRound(rounds[i])} :: 0 <= i < |rounds| ==> FairRound(rounds[i])
  }

  lemma {:induction false} FirstFair(s: System, rounds: seq<Round>)
    requires Linked(s, rounds) && AllFair(rounds) && rounds != []
    ensures rounds[0].before == s && FairRound(rounds[0]) && Linked(rounds[0].after, rounds[1..]) &&
            AllFair(rounds[1..])
  {
  }

  lemma ConcatAt(a: seq<Co>, b: seq<Co>, k: nat)
    ensures |a + b| == |a| + |b| && (k < |a| ==> (a + b)[k] == a[k])
    ensures |a| <= k < |a + b| ==> (a + b)[k] == b[k - |a|]
  {
  }

  lemma {:induction false} ServedParts(rounds: seq<Round>, k: nat)
    requires rounds != []
    ensures var order := Order(AfterUrgent(rounds[0]), false, rounds[0].ordinary);
            && |Served(rounds)| == |order| + |Served(rounds[1..])|
            && (k < |order| ==> Served(rounds)[k] == order[k])
            && (|order| <= k < |Served(rounds)| ==> Served(rounds)[k] == Served(rounds[1..])[k - |order|])
  {
    ConcatAt(Order(AfterUrgent(rounds[0]), false, rounds[0].ordinary), Served(rounds[1..]), k);
  }

  lemma {:induction false} ServedInTurn(s: System, rounds: seq<Round>, k: nat)
    requires Linked(s, rounds) && AllFair(rounds) && k < |s.sched.ready| && k < MAX_RESUMES * |rounds|
    ensures k < |Served(rounds)| && Served(rounds)[k] == s.sched.ready[k]
    decreases rounds
  {
    FirstFair(s, rounds);
    RoundServes(rounds[0], k);
    if k >= MAX_RESUMES { ServedInTurn(rounds[0].after, rounds[1..], k - MAX_RESUMES); }
    ServedParts(rounds, k);
  }

  ghost predicate RoundsOk(rounds: seq<Round>) {
    forall i {:trigger RoundOk(rounds[i])} :: 0 <= i < |rounds| ==> RoundOk(rounds[i])
  }

  /**
   Bounded waiting: in rounds that nobody stops and whose snapshots hold no coroutine
   twice, whatever is enqueued meanwhile, the coroutine at position k of the ordinary
   queue is the k-th ordinary coroutine resumed from now on, after at most k/128 + 1
   rounds, each with at most 128 urgent resumes before its ordinary ones.
   */
  lemma {:induction false} BoundedWaiting(s: System, rounds: seq<Round>, k: nat)
    requires Linked(s, rounds) && RoundsOk(rounds) && (forall i :: 0 <= i < |rounds| ==> Calm(rounds[i]))
    requires k < |s.sched.ready| && |rounds| == k / 128 + 1
    ensures k < |Served(rounds)| && Served(rounds)[k] == s.sched.ready[k]
    ensures forall i :: 0 <= i < |rounds| ==> |Order(rounds[i].expired, true, rounds[i].urgent)| <= 128
  {
    forall i | 0 <= i < |rounds|
      ensures FairRound(rounds[i]) && |Order(rounds[i].expired, true, rounds[i].urgent)| <= MAX_RESUMES
    {
      RoundIsFair(rounds[i]);
      var extra := PhaseExact(rounds[i].expired, true, rounds[i].urgent);
    }
    ServedInTurn(s, rounds, k);
  }

  // -------------------------------------------------- the expiry pass in detail

  /** The nodes of some entries whose URGENT bit has the given value, in the order of the entries. */
  function Select(bits: map<Co, Bits>, entries: seq<Entry<Co>>, u: bool): seq<Co> {
    if entries == [] then []
    else
      var c := entries[0].node;
      (if c in bits && bits[c].urgent == u then [c] else []) + Select(bits, entries[1..], u)
  }

  lemma {:induction false} SelectSame(bits: map<Co, Bits>, bits': map<Co, Bits>, entries: seq<Entry<Co>>, u: bool)
    requires bits.Keys == bits'.Keys && (forall c :: c in bits ==> bits[c].urgent == bits'[c].urgent)
    ensures Select(bits, entries, u) == Select(bits', entries, u)
  {
    if entries != [] { SelectSame(bits, bits', entries[1..], u); }
  }

  lemma ExpireMoves(s: Sched, now: nat)
    requires IsDue(s, now) && s.sleeping[0].node in s.bits
    ensures var c, t := s.sleeping[0].node, Expire(s, now);
            && t.sleeping == s.sleeping[1..] && t.bits.Keys == s.bits.Keys
            && (forall d :: d in s.bits ==> s.bits[d].urgent == t.bits[d].urgent)
            && (forall u :: Queue(t, u) == Queue(s, u) + if s.bits[c].urgent == u then [c] else [])
  {
  }

  lemma {:induction false} PassReads(s: Sched, clock: nat, readings: seq<nat>)
    requires PassOk(s, clock, readings)
    ensures Readings(s.sleeping, clock, readings) && |readings| - 1 <= |s.sleeping|
    ensures Pass(s, clock, readings).sleeping == s.sleeping[|readings| - 1..]
    decreases readings
  {
    if IsDue(s, readings[0]) {
      ExpireMoves(s, readings[0]);
      PassReads(Expire(s, readings[0]), readings[0], readings[1..]);
    }
  }

  lemma {:induction false} SelectFirst(s: Sched, t: Sched, n: nat, u: bool, head: seq<Co>)
    requires 0 < n <= |s.sleeping| && s.sleeping[0].node in s.bits && t.sleeping == s.sleeping[1..] &&
             t.bits.Keys == s.bits.Keys
    requires forall d :: d in s.bits ==> s.bits[d].urgent == t.bits[d].urgent
    requires head == if s.bits[s.sleeping[0].node].urgent == u then [s.sleeping[0].node] else []
    ensures Select(s.bits, s.sleeping[..n], u) == head + Select(t.bits, t.sleeping[..n - 1], u)
  {
    assert s.sleeping[..n][1..] == t.sleeping[..n - 1];
    SelectSame(s.bits, t.bits, t.sleeping[..n - 1], u);
  }

  lemma PassTurn(s: Sched, clock: nat, readings: seq<nat>, u: bool) returns (t: Sched, head: seq<Co>)
    requires PassOk(s, clock, readings) && IsDue(s, readings[0]) && |readings| - 1 <= |s.sleeping|
    ensures PassOk(t, readings[0], readings[1..]) && |readings| >= 2 && |readings| - 2 <= |t.sleeping|
    ensures Pass(s, clock, readings) == Pass(t, readings[0], readings[1..])
    ensures Queue(t, u) == Queue(s, u) + head
    ensures Select(s.bits, s.sleeping[..|readings| - 1], u) == head + Select(t.bits, t.sleeping[..|readings| - 2], u)
  {
    var c := s.sleeping[0].node;
    t, head := Expire(s, readings[0]), if s.bits[c].urgent == u then [c] else [];
    ExpireMoves(s, readings[0]);
    PassReads(t, readings[0], readings[1..]);
    SelectFirst(s, t, |readings| - 1, u, head);
  }

  lemma {:induction false} PassQueues(s: Sched, clock: nat, readings: seq<nat>, u: bool)
    requires PassOk(s, clock, readings) && |readings| - 1 <= |s.sleeping|
    ensures Queue(Pass(s, clock, readings), u) == Queue(s, u) + Select(s.bits, s.sleeping[..|readings| - 1], u)
    decreases readings
  {
    if IsDue(s, readings[0]) {
      var t, head := PassTurn(s, clock, readings, u);
      PassQueues(t, readings[0], readings[1..], u);
      var rest := Select(t.bits, t.sleeping[..|readings| - 2], u);
      assert Queue(s, u) + head + rest == Queue(s, u) + (head + rest);
    }
  }

  /**
   An expiry pass takes the sleepers that come first, every one due at its first
   reading and none not due at its last, and appends them to the queue of their
   URGENT bit in the order of their deadlines.
   */
  lemma {:induction false} PassExact(s: Sched, clock: nat, readings: seq<nat>, u: bool)
    requires PassOk(s, clock, readings) && Sorted(s.sleeping)
    ensures var z, n, t := s.sleeping, |readings| - 1, Pass(s, clock, readings);
            && n <= |z| && t.sleeping == z[n..]
            && Queue(t, u) == Queue(s, u) + Select(s.bits, z[..n], u)
            && (forall j :: 0 <= j < |z| && z[j].key <= readings[0] ==> j < n)
            && (forall j :: 0 <= j < n ==> z[j].key <= readings[n])
            && (forall j :: n <= j < |z| ==> z[j].key > readings[n])
  {
    PassReads(s, clock, readings);
    PassQueues(s, clock, readings, u);
    ReadingsExact(s.sleeping, clock, readings);
  }

  lemma {:induction false} SelectAre(s: Sched, entries: seq<Entry<Co>>, u: bool, c: Co)
    requires forall e :: e in entries ==> e.node in s.bits && s.bits[e.node].key == e.key
    ensures c in Select(s.bits, entries, u) <==>
            c in s.bits && Entry(s.bits[c].key, c) in entries && s.bits[c].urgent == u
  {
    if entries != [] {
      assert entries[0] in entries && forall e :: e in entries <==> e == entries[0] || e in entries[1..];
      SelectAre(s, entries[1..], u, c);
    }
  }

  ghost predicate ByKey(s: Sched, q: seq<Co>) {
    forall i, j :: 0 <= i < j < |q| ==> q[i] in s.bits && q[j] in s.bits && s.bits[q[i]].key < s.bits[q[j]].key
  }

  lemma ByKeyCons(s: Sched, c: Co, q: seq<Co>)
    requires ByKey(s, q) && c in s.bits && forall d :: d in q ==> d in s.bits && s.bits[c].key < s.bits[d].key
    ensures ByKey(s, [c] + q)
  {
    var r := [c] + q;
    forall i, j | 0 <= i < j < |r| ensures r[i] in s.bits && r[j] in s.bits && s.bits[r[i]].key < s.bits[r[j]].key {
      assert r[j] == q[j - 1] && q[j - 1] in q;
    }
  }

  lemma {:induction false} SelectLater(s: Sched, entries: seq<Entry<Co>>, u: bool, c: Co)
    requires entries != [] && Sorted(entries)
    requires forall e :: e in entries ==> e.node in s.bits && s.bits[e.node].key == e.key
    requires c in Select(s.bits, entries[1..], u)
    ensures c in s.bits && entries[0].key < s.bits[c].key
  {
    SelectAre(s, entries[1..], u, c);
    var i :| 0 <= i < |entries[1..]| && entries[1..][i] == Entry(s.bits[c].key, c);
    assert entries[i + 1].key == s.bits[c].key;
  }

  lemma {:induction false} SelectSorted(s: Sched, entries: seq<Entry<Co>>, u: bool)
    requires Sorted(entries) && (forall e :: e in entries ==> e.node in s.bits && s.bits[e.node].key == e.key)
    ensures ByKey(s, Select(s.bits, entries, u))
  {
    if entries != [] {
      var x, rest := entries[0], entries[1..];
      assert x in entries && forall i :: 0 <= i < |rest| ==> rest[i] == entries[i + 1];
      SelectSorted(s, rest, u);
      var r := Select(s.bits, rest, u);
      forall d | d in r ensures d in s.bits && s.bits[x.node].key < s.bits[d].key {
        SelectLater(s, entries, u, d);
      }
      ByKeyCons(s, x.node, r);
    }
  }

  /** Selecting keeps the order of deadlines and loses nobody of that urgency. */
  lemma {:induction false} SelectOrdered(s: Sched, entries: seq<Entry<Co>>, u: bool)
    requires Sorted(entries) && (forall e :: e in entries ==> e.node in s.bits && s.bits[e.node].key == e.key)
    ensures var q := Select(s.bits, entries, u);
            && ByKey(s, q)
            && (forall c :: c in q <==> c in s.bits && Entry(s.bits[c].key, c) in entries && s.bits[c].urgent == u)
  {
    var q := Select(s.bits, entries, u);
    forall c ensures c in q <==> c in s.bits && Entry(s.bits[c].key, c) in entries && s.bits[c].urgent == u {
      SelectAre(s, entries, u, c);
    }
    SelectSorted(s, entries, u);
  }

  // ------------------------------------------------------------- whole calls

  /** Between turns: nobody runs and every coroutine is where its bits say. */
  ghost predicate Looping(s: System) {
    Inv(s.sched, s.clock) && s.sched.curr.None? && s.sched.status == SchedRunning
  }

  /** Stopped by a coroutine, which is still there. */
  ghost predicate Halted(s: System) {
    Inv(s.sched, s.clock) && s.sched.curr.None? && s.sched.status == SchedStopped && s.sched.bits != map[]
  }

  lemma CallStatus(s: System, e: Event)
    requires Enabled(s, e) && IsCall(e) && s.sched.status == SchedRunning && s.sched.curr.Some? &&
             s.sched.curr.value in s.sched.bits
    ensures var t := Next(s, e).sched;
            && (t.status == SchedRunning || (t.status == SchedStopped && t.curr.None? && t.bits != map[]))
            && (t.curr.None? || t.curr == s.sched.curr)
  {
    var c := s.sched.curr.value;
    if e.Stop? { assert c in Next(s, e).sched.bits; }
  }

  lemma {:induction false} ActivityKeeps(s: System, acts: Activity)
    requires Inv(s.sched, s.clock) && s.sched.curr.Some? && IsActivity(s, acts) && AllPlainly(acts)
    ensures Looping(ActivityEnd(s, acts)) || Halted(ActivityEnd(s, acts))
    decreases acts
  {
    NextKeeps(s, acts[0]);
    CallStatus(s, acts[0]);
    var t := Next(s, acts[0]);
    if t.sched.curr.Some? { ActivityKeeps(t, acts[1..]); }
  }

  /** A step of the loop taken between turns ends between turns, or stopped. */
  ghost predicate Sound(s: System, t: System) {
    Looping(s) ==> Looping(t) || Halted(t)
  }

  lemma TurnSound(u: bool, turn: Turn)
    requires TurnOk(u, turn) && AllPlainly(turn.acts)
    ensures Sound(turn.before, turn.after)
  {
    if Looping(turn.before) {
      NextKeeps(turn.before, ResumeFirst(u));
      ActivityKeeps(Next(turn.before, ResumeFirst(u)), turn.acts);
    }
  }

  ghost predicate PlainTurns(script: seq<Turn>) {
    forall i :: 0 <= i < |script| ==> AllPlainly(script[i].acts)
  }

  /** A phase whose turns are sound ends between turns, or stopped. */
  lemma {:induction false} TurnsKeep(s: System, u: bool, last: Option<Co>, idx: nat, script: seq<Turn>)
    requires Looping(s) && PhaseShape(s, u, last, idx, script)
    requires forall j :: 0 <= j < |script| ==> Sound(script[j].before, script[j].after)
    ensures Looping(End(s, script)) || Halted(End(s, script))
    decreases script
  {
    if script != [] {
      assert Sound(script[0].before, script[0].after);
      if |script| > 1 { TurnsKeep(script[0].after, u, last, idx + 1, script[1..]); }
    }
  }

  lemma PhaseKeeps(s: System, u: bool, script: seq<Turn>)
    requires Looping(s) && PhaseOk(s, u, script) && PlainTurns(script)
    ensures Looping(End(s, script)) || Halted(End(s, script))
  {
    forall j | 0 <= j < |script| ensures Sound(script[j].before, script[j].after) {
      TurnSound(u, script[j]);
    }
    TurnsKeep(s, u, Last(Queue(s.sched, u)), 0, script);
  }

  /** An expiry pass is a run of expiries, one for each reading of the clock. */
  lemma {:induction false} PassRuns(s: Sched, clock: nat, readings: seq<nat>) returns (events: seq<Event>)
    requires PassOk(s, clock, readings) && s.curr.None? && s.status == SchedRunning
    ensures IsRun(System(s, clock), events) && AllPlainly(events)
    ensures var t := Pass(s, clock, readings);
            Run(System(s, clock), events) == System(t, readings[|readings| - 1]) && t.curr.None? && t.status == s.status
    decreases readings
  {
    var e, t := ExpireOne(readings[0]), System(Expire(s, readings[0]), readings[0]);
    events := [];
    if IsDue(s, readings[0]) {
      events := PassRuns(t.sched, readings[0], readings[1..]);
      assert readings[1..][|readings| - 2] == readings[|readings| - 1];
    }
    RunOf(System(s, clock), e, t, events);
    events := [e] + events;
  }

  lemma {:induction false} PassKeeps(s: Sched, clock: nat, readings: seq<nat>)
    requires Looping(System(s, clock)) && PassOk(s, clock, readings)
    ensures Looping(System(Pass(s, clock, readings), readings[|readings| - 1]))
  {
    var events := PassRuns(s, clock, readings);
    RunKeeps(System(s, clock), events);
  }

  lemma {:induction false} ReportsKeep(s: Sched, clock: nat, fds: seq<Fd>)
    requires Looping(System(s, clock)) && ReportsOk(s, fds)
    ensures Looping(System(Reports(s, fds), clock))
    decreases fds
  {
    if fds != [] {
      FdReadyKeeps(s, clock, fds[0]);
      ReportsKeep(FdReady(s, fds[0]), clock, fds[1..]);
    }
  }

  ghost predicate PlainRound(r: Round) {
    PlainTurns(r.urgent) && PlainTurns(r.ordinary)
  }

  /** A round of plain turns ends between turns, with duplicate-free snapshots on the way, or stopped. */
  lemma RoundKeeps(r: Round)
    requires RoundOk(r) && PlainRound(r) && Looping(r.before)
    ensures Looping(r.after) || Halted(r.after)
    ensures Looping(r.after) ==> Calm(r)
  {
    PassKeeps(r.before.sched, r.before.clock, r.readings);
    var b, c := AfterUrgent(r), AfterOrdinary(r);
    PhaseKeeps(r.expired, true, r.urgent);
    if !IsStopped(b) {
      PhaseKeeps(b, false, r.ordinary);
      if !IsStopped(c) { ReportsKeep(c.sched, c.clock, r.reports); }
    }
  }

  ghost predicate PlainRounds(rounds: seq<Round>) {
    forall i :: 0 <= i < |rounds| ==> PlainRound(rounds[i])
  }

  /** What a round does as far as where coroutines are is concerned. */
  ghost predicate SoundRound(r: Round) {
    Sound(r.before, r.after) && (Looping(r.before) && Looping(r.after) ==> Calm(r))
  }

  lemma RoundsAreSound(rounds: seq<Round>)
    requires RoundsOk(rounds) && PlainRounds(rounds)
    ensures forall j :: 0 <= j < |rounds| ==> SoundRound(rounds[j])
  {
    forall j | 0 <= j < |rounds| ensures SoundRound(rounds[j]) {
      if Looping(rounds[j].before) { RoundKeeps(rounds[j]); }
    }
  }

  /** A loop whose rounds are sound ends stopped, or between turns with nothing left. */
  lemma {:induction false} LoopKeepsPlaces(s: System, rounds: seq<Round>)
    requires Looping(s) && Linked(s, rounds) && LoopShape(s, rounds)
    requires forall j :: 0 <= j < |rounds| ==> SoundRound(rounds[j])
    ensures var t := LoopEnd(s, rounds); Halted(t) || (Looping(t) && IsDone(t.sched))
    decreases rounds
  {
    if rounds != [] {
      assert SoundRound(rounds[0]);
      if !IsStopped(rounds[0].after) { LoopKeepsPlaces(rounds[0].after, rounds[1..]); }
    }
  }

  lemma {:induction false} SoundIsCalm(s: System, rounds: seq<Round>)
    requires Looping(s) && Linked(s, rounds)
    requires forall j :: 0 <= j < |rounds| ==> SoundRound(rounds[j]) && !IsStopped(rounds[j].after)
    ensures forall j :: 0 <= j < |rounds| ==> Calm(rounds[j])
    decreases rounds
  {
    if rounds != [] {
      assert SoundRound(rounds[0]);
      SoundIsCalm(rounds[0].after, rounds[1..]);
      assert forall j :: 0 < j < |rounds| ==> rounds[j] == rounds[1..][j - 1];
    }
  }

  /** dyco_schedule_run on a scheduler that is neither running nor aborted: its rounds. */
  ghost predicate RunOk(s: System, rounds: seq<Round>) {
    if s.sched.status == SchedDone then rounds == []
    else
      var t := s.(sched := s.sched.(status := SchedRunning));
      LoopShape(t, rounds) && Linked(t, rounds) && RoundsOk(rounds)
  }

  /** Its effect and its return value. */
  function RunResult(s: System, rounds: seq<Round>): (System, int) {
    if s.sched.status == SchedDone then (s, 0)
    else
      var t := LoopEnd(s.(sched := s.sched.(status := SchedRunning)), rounds);
      if IsStopped(t) then (t, 1) else (t.(sched := t.sched.(status := SchedDone)), 0)
  }

  /**
   A run over plain turns keeps every coroutine in one place; it returns 0 exactly
   when all have exited, and otherwise 1, stopped, from where it can run again.
   */
  lemma RunReturns(s: System, rounds: seq<Round>)
    requires Inv(s.sched, s.clock) && s.sched.curr.None? && s.sched.status != SchedRunning
    requires RunOk(s, rounds) && PlainRounds(rounds)
    ensures var (t, ret) := RunResult(s, rounds);
            && Inv(t.sched, t.clock) && t.sched.curr.None? && AllPlaced(t.sched)
            && (ret == 0 || ret == 1) && (ret == 0 <==> t.sched.bits == map[])
            && t.sched.status == (if ret == 0 then SchedDone else SchedStopped)
  {
    if s.sched.status != SchedDone {
      var r := s.(sched := s.sched.(status := SchedRunning));
      StatusKeeps(s.sched, s.clock, SchedRunning);
      RoundsAreSound(rounds);
      LoopKeepsPlaces(r, rounds);
      var t := LoopEnd(r, rounds);
      if !IsStopped(t) {
        DoneMeansExited(t.sched, t.clock);
        StatusKeeps(t.sched, t.clock, SchedDone);
      }
    }
    InvPlaces(RunResult(s, rounds).0.sched, RunResult(s, rounds).0.clock);
  }

  /** Plain runs have duplicate-free snapshots, so bounded waiting holds in all of them while nobody stops. */
  lemma {:induction false} PlainRunsAreFair(s: System, rounds: seq<Round>, k: nat)
    requires Looping(s) && Linked(s, rounds) && RoundsOk(rounds) && PlainRounds(rounds)
    requires forall i :: 0 <= i < |rounds| ==> !IsStopped(rounds[i].after)
    requires k < |s.sched.ready| && |rounds| == k / 128 + 1
    ensures k < |Served(rounds)| && Served(rounds)[k] == s.sched.ready[k]
  {
    RoundsAreSound(rounds);
    SoundIsCalm(s, rounds);
    BoundedWaiting(s, rounds, k);
  }

  // ----------------------------------------------- a timed wait, enqueued twice

  /** Two new coroutines in a scheduler that has just been started. */
  function TwoStarted(): System {
    var b := Bits(true, false, false, false, 0);
    System(Sched([0, 1], [], [], map[], map[0 := b, 1 := b], None, SchedRunning), 0)
  }

  lemma ReachTwoStarted() returns (events: seq<Event>)
    ensures IsRun(Created(), events) && Run(Created(), events) == TwoStarted()
  {
    var s0 := Created();
    var s1 := Next(s0, Make(0, false));
    var s2 := Next(s1, Make(1, false));
    assert Next(s2, Start) == TwoStarted();
    RunOf(s2, Start, TwoStarted(), []);
    events := [Start] + [];
    RunOf(s1, Make(1, false), s2, events);
    events := [Make(1, false)] + events;
    RunOf(s0, Make(0, false), s1, events);
    events := [Make(0, false)] + events;
  }

  /** The turn of a coroutine that makes one call and with it gives control back. */
  lemma OneCall(s: System, e: Event) returns (turn: Turn)
    requires Enabled(s, ResumeFirst(false)) && IsCall(e)
    requires Enabled(Next(s, ResumeFirst(false)), e) && Next(Next(s, ResumeFirst(false)), e).sched.curr.None?
    ensures turn.before == s && turn.after == Next(Next(s, ResumeFirst(false)), e) && TurnOk(false, turn)
  {
    turn := Turn(s, [e], Next(Next(s, ResumeFirst(false)), e));
  }

  /** The first coroutine waits for descriptor 5 with a timeout. */
  lemma WaiterTurn(timeout: int) returns (turn: Turn, key: nat)
    requires timeout > 0
    ensures turn.before == TwoStarted() && TurnOk(false, turn)
    ensures var d := turn.after.sched;
            && turn.after.clock == 0 && d.ready == [1] && d.urgent == [] && d.sleeping == [Entry(key, 0)]
            && d.fds == map[5 := 0] && d.curr.None? && d.status == SchedRunning
            && d.bits == map[0 := Bits(false, true, true, false, key), 1 := Bits(true, false, false, false, 0)]
  {
    var s := Next(TwoStarted(), ResumeFirst(false));
    assert s.sched.ready == [1];
    turn := OneCall(TwoStarted(), WaitFd(5, timeout, 0));
    key := turn.after.sched.bits[0].key;
    assert turn.after.sched.sleeping == [Entry(key, 0)];
  }

  /** The second one yields. */
  lemma YielderTurn(s: System, key: nat) returns (turn: Turn)
    requires s.sched.ready == [1] && s.sched.curr.None? && s.sched.status == SchedRunning
    requires s.sched.bits == map[0 := Bits(false, true, true, false, key), 1 := Bits(true, false, false, false, 0)]
    ensures turn.before == s && TurnOk(false, turn) && turn.after == s
  {
    turn := OneCall(s, Nap);
    assert turn.after.sched.ready == [1] && turn.after.sched.bits == s.sched.bits;
  }

  /** The poll reports the descriptor, and the next expiry pass finds the deadline come. */
  lemma BothFire(s: System, key: nat) returns (t: Sched, readings: seq<nat>)
    requires s.sched.ready == [1] && s.sched.sleeping == [Entry(key, 0)] && s.sched.fds == map[5 := 0]
    requires s.sched.bits == map[0 := Bits(false, true, true, false, key), 1 := Bits(true, false, false, false, 0)]
    requires s.clock == 0
    ensures ReportsOk(s.sched, [5]) && t == Reports(s.sched, [5]) && t.ready == [1, 0] && !t.bits[0].waiting
    ensures PassOk(t, s.clock, readings) && Pass(t, s.clock, readings).ready == [1, 0, 0]
  {
    t := FdReady(s.sched, 5);
    assert t.ready == [1, 0];
    readings := [key] + [key];
    var t' := Expire(t, key);
    assert t'.sleeping == [] && t'.ready == [1, 0, 0];
    assert readings[1..] == [key] && PassOk(t', key, [key]) && Pass(t', key, [key]) == t';
  }

  /**
   A descriptor wait with any positive timeout whose descriptor is reported in one turn of
   the loop and whose timer fires at the beginning of the next is enqueued twice.
   */
  lemma TimedWaitEnqueuesTwice(timeout: int) returns (events: seq<Event>, r: Round, readings: seq<nat>)
    requires timeout > 0
    ensures IsRun(Created(), events) && r.before == Run(Created(), events) && RoundOk(r)
    ensures !IsStopped(r.after) && PassOk(r.after.sched, r.after.clock, readings)
    ensures Pass(r.after.sched, r.after.clock, readings).ready == [1, 0, 0]
  {
    events := ReachTwoStarted();
    var s := TwoStarted();
    var a, key := WaiterTurn(timeout);
    var b := YielderTurn(a.after, key);
    var t;
    t, readings := BothFire(b.after, key);
    r := Round(s, [0], s, [], [a, b], [5], b.after.(sched := t));
    assert PassOk(s.sched, 0, [0]) && Pass(s.sched, 0, [0]) == s.sched;
    assert [a, b][1..] == [b] && PhaseShape(a.after, false, Some(1), 1, [b]);
    assert TurnsOk(false, [a, b]);
  }
}
