/**
 The scheduler of src/dyco_schedule.c: two ready queues, the sleeping index, the
 map from descriptors to waiting coroutines and the coroutine that runs. The
 sleeping index is the sorted sequence that the tree was shown to hold.
 */
module SchedulerSpec {
  import opened Options
  import opened Entries
  import opened Deadlines
  import opened Waiters

  /** A symmetric coroutine. */
  type Co = nat

  type Fd = nat

  datatype SchedStatus = SchedReady | SchedRunning | SchedStopped | SchedDone

  /** The status bits of a coroutine that the scheduler acts on, and its sleep_usecs. */
  datatype Bits = Bits(ready: bool, sleeping: bool, waiting: bool, urgent: bool, key: nat)

  datatype Sched = Sched(
    ready: seq<Co>,
    urgent: seq<Co>,
    sleeping: seq<Entry<Co>>,
    fds: map<Fd, Co>,
    bits: map<Co, Bits>,
    curr: Option<Co>,
    status: SchedStatus)

  function Queue(s: Sched, urgent: bool): seq<Co> {
    if urgent then s.urgent else s.ready
  }

  function SetQueue(s: Sched, urgent: bool, q: seq<Co>): Sched {
    if urgent then s.(urgent := q) else s.(ready := q)
  }

  /** Sets the READY bit and appends to the queue that the URGENT bit selects. */
  function Enqueue(s: Sched, c: Co): Sched
    requires c in s.bits
  {
    var b := s.bits[c];
    SetQueue(s, b.urgent, Queue(s, b.urgent) + [c]).(bits := s.bits[c := b.(ready := true)])
  }

  /** dyco_coroutine_create and dyco_coroutine_create_urgent. */
  function Create(s: Sched, c: Co, urgent: bool): Sched {
    SetQueue(s, urgent, Queue(s, urgent) + [c]).(
      bits := s.bits[c := Bits(true, false, false, urgent, 0)],
      status := if s.status == SchedDone then SchedReady else s.status)
  }

  /** Takes the first coroutine of a queue and runs it. */
  function Resume(s: Sched, urgent: bool): Sched
    requires Queue(s, urgent) != [] && Queue(s, urgent)[0] in s.bits
  {
    var c := Queue(s, urgent)[0];
    SetQueue(s, urgent, Queue(s, urgent)[1..]).(
      bits := s.bits[c := s.bits[c].(ready := false)],
      curr := Some(c))
  }

  ghost function SchedSleep(s: Sched, c: Co, msecs: int, now: nat): Sched
    requires c in s.bits
  {
    var b := s.bits[c];
    var (entries, key) := Deadlines.SchedSleep(s.sleeping, c, b.key, msecs, now);
    s.(sleeping := entries, bits := s.bits[c := b.(key := key, sleeping := b.sleeping || msecs > 0)])
  }

  function CancelSleep(s: Sched, c: Co): Sched
    requires c in s.bits
  {
    var b := s.bits[c];
    if b.sleeping then s.(sleeping := WithoutKey(s.sleeping, b.key), bits := s.bits[c := b.(sleeping := false)]) else s
  }

  function SchedWait(s: Sched, c: Co, fd: Fd): Sched
    requires c in s.bits
  {
    s.(fds := s.fds[fd := c], bits := s.bits[c := s.bits[c].(waiting := true)])
  }

  function CancelWait(s: Sched, c: Co, fd: Fd): Sched
    requires c in s.bits
  {
    var b := s.bits[c];
    if b.waiting then s.(fds := s.fds - {fd}, bits := s.bits[c := b.(waiting := false)]) else s
  }

  /** dyco_coroutine_setUrgent and its opposite: the bit changes, the queues do not. */
  function Mark(s: Sched, c: Co, urgent: bool): Sched {
    if c in s.bits then s.(bits := s.bits[c := s.bits[c].(urgent := urgent)]) else s
  }

  /** One turn of the expiry loop. */
  function Expire(s: Sched, now: nat): Sched
    requires s.sleeping != [] ==> s.sleeping[0].node in s.bits
  {
    if s.sleeping == [] || s.sleeping[0].key > now then s
    else
      var c := s.sleeping[0].node;
      Enqueue(s.(sleeping := s.sleeping[1..], bits := s.bits[c := s.bits[c].(sleeping := false)]), c)
  }

  /** One event that epoll reported; a descriptor nobody waits for is skipped. */
  function FdReady(s: Sched, fd: Fd): Sched
    requires fd in s.fds ==> s.fds[fd] in s.bits
  {
    if fd in s.fds then CancelWait(Enqueue(s, s.fds[fd]), s.fds[fd], fd) else s
  }

  predicate IsDone(s: Sched) {
    s.fds == map[] && s.sleeping == [] && s.ready == [] && s.urgent == []
  }

  // -------------------------------------------------------------- all events

  datatype Event =
    | Make(co: Co, urgent: bool)
    | SetUrgent(co: Co, urgent: bool)
    | ResumeFirst(urgent: bool)
    | Nap
    | SleepFor(msecs: nat, now: nat)
    | WaitFd(fd: Fd, timeout: int, now: nat)
    | EndSleep
    | EndWait(fd: Fd)
    | Exit
    | Stop
    | ExpireOne(now: nat)
    | Report(fd: Fd)
    | Start
    | Finish

  /** The scheduler and the last reading of its clock. */
  datatype System = System(sched: Sched, clock: nat)

  /** The calls a running coroutine makes. */
  predicate IsCall(e: Event) {
    !(e.ResumeFirst? || e.ExpireOne? || e.Report? || e.Start? || e.Finish?)
  }

  /** The node that RB_REMOVE is to take out is in the tree; what the code does otherwise is undefined. */
  predicate Removable(s: Sched, c: Co)
    requires c in s.bits
  {
    s.bits[c].sleeping ==> Entry(s.bits[c].key, c) in s.sleeping
  }

  predicate Enabled(s: System, e: Event) {
    var d := s.sched;
    var calling := d.curr.Some? && d.curr.value in d.bits;
    var looping := d.curr.None? && d.status == SchedRunning;
    match e
    case Make(c, _) => c !in d.bits
    case SetUrgent(_, _) => true
    case ResumeFirst(u) => looping && Queue(d, u) != [] && Queue(d, u)[0] in d.bits
    case Nap => calling
    case SleepFor(m, now) => calling && 0 < m < 0x1_0000_0000 && s.clock <= now
    case WaitFd(fd, timeout, now) => calling && timeout != 0 && s.clock <= now && fd !in d.fds
    case EndSleep => calling && Removable(d, d.curr.value)
    case EndWait(_) => calling
    case Exit => calling && Removable(d, d.curr.value)
    case Stop => calling
    case ExpireOne(now) => looping && s.clock <= now && (d.sleeping != [] ==> d.sleeping[0].node in d.bits)
    case Report(fd) => looping && (fd in d.fds ==> d.fds[fd] in d.bits)
    case Start => d.curr.None? && d.status != SchedRunning
    case Finish => looping && IsDone(d)
  }

  ghost function Next(s: System, e: Event): System
    requires Enabled(s, e)
  {
    var d := s.sched;
    match e
    case Make(c, u) => s.(sched := Create(d, c, u))
    case SetUrgent(c, u) => s.(sched := Mark(d, c, u))
    case ResumeFirst(u) => s.(sched := Resume(d, u))
    case Nap => s.(sched := Enqueue(d, d.curr.value).(curr := None))
    case SleepFor(m, now) => System(SchedSleep(d, d.curr.value, ToInt(m), now).(curr := None), now)
    case WaitFd(fd, timeout, now) =>
      var c := d.curr.value;
      System(SchedSleep(SchedWait(d, c, fd), c, timeout, now).(curr := None), now)
    case EndSleep => s.(sched := CancelSleep(d, d.curr.value))
    case EndWait(fd) => s.(sched := CancelWait(d, d.curr.value, fd))
    case Exit =>
      var d' := CancelSleep(d, d.curr.value);
      s.(sched := d'.(bits := d'.bits - {d.curr.value}, curr := None))
    case Stop => s.(sched := Enqueue(d, d.curr.value).(curr := None, status := SchedStopped))
    case ExpireOne(now) => System(Expire(d, now), now)
    case Report(fd) => s.(sched := FdReady(d, fd))
    case Start => if d.status == SchedDone then s else s.(sched := d.(status := SchedRunning))
    case Finish => s.(sched := d.(status := SchedDone))
  }

  ghost predicate IsRun(s: System, events: seq<Event>)
    decreases events
  {
    events == [] || (Enabled(s, events[0]) && IsRun(Next(s, events[0]), events[1..]))
  }

  ghost function Run(s: System, events: seq<Event>): System
    requires IsRun(s, events)
    decreases events
  {
    if events == [] then s else Run(Next(s, events[0]), events[1..])
  }

  function Created(): System {
    System(Sched([], [], [], map[], map[], None, SchedReady), 0)
  }

  // ------------------------------------------------- where each coroutine is

  ghost predicate Waits(s: Sched, c: Co) {
    exists fd :: fd in s.fds && s.fds[fd] == c
  }

  /** Exactly one of four. */
  predicate One(a: bool, b: bool, c: bool, d: bool) {
    if a then !b && !c && !d else if b then !c && !d else c != d
  }

  /** The bits of `c` agree with the structures, of which exactly one holds it. */
  ghost predicate Located(s: Sched, clock: nat, c: Co)
    requires c in s.bits
  {
    var b := s.bits[c];
    && (b.ready <==> c in s.ready || c in s.urgent) && !(c in s.ready && c in s.urgent)
    && (b.sleeping <==> Entry(b.key, c) in s.sleeping)
    && (b.waiting <==> Waits(s, c))
    && One(s.curr == Some(c), b.ready, b.sleeping, b.waiting)
    && (!b.sleeping ==> b.key <= clock && !HasKey(s.sleeping, b.key))
  }

  ghost predicate QueuesOk(s: Sched) {
    && Distinct(s.ready) && Distinct(s.urgent)
    && (forall c :: c in s.ready ==> c in s.bits)
    && (forall c :: c in s.urgent ==> c in s.bits)
  }

  ghost predicate SleepersOk(s: Sched) {
    && Sorted(s.sleeping)
    && (forall e :: e in s.sleeping ==> e.node in s.bits && e.key == s.bits[e.node].key && e.key > 0)
  }

  ghost predicate FdsOk(s: Sched) {
    && (forall fd :: fd in s.fds ==> s.fds[fd] in s.bits)
    && (forall f, g :: f in s.fds && g in s.fds && s.fds[f] == s.fds[g] ==> f == g)
  }

  ghost predicate ControlOk(s: Sched) {
    && (s.curr.Some? ==> s.curr.value in s.bits && s.status == SchedRunning)
    && (s.status == SchedDone ==> s.bits == map[])
  }

  ghost predicate Inv(s: Sched, clock: nat) {
    && QueuesOk(s) && SleepersOk(s) && FdsOk(s) && ControlOk(s)
    && forall c :: c in s.bits ==> Located(s, clock, c)
  }

  // --------------------------------------------------- what every step keeps

  lemma AppendDistinct(q: seq<Co>, c: Co)
    requires Distinct(q) && c !in q
    ensures Distinct(q + [c]) && forall d :: d in q + [c] <==> d == c || d in q
  {
  }

  lemma PopDistinct(q: seq<Co>)
    requires Distinct(q) && q != []
    ensures Distinct(q[1..]) && q[0] !in q[1..] && forall d :: d in q <==> d == q[0] || d in q[1..]
  {
  }

  /** The running coroutine goes to the end of a queue. */
  lemma EnqueueKeeps(s: Sched, clock: nat, c: Co)
    requires Inv(s, clock) && s.curr == Some(c)
    ensures Inv(Enqueue(s, c).(curr := None), clock)
  {
    var u := s.bits[c].urgent;
    var t := Enqueue(s, c).(curr := None);
    assert Located(s, clock, c);
    AppendDistinct(Queue(s, u), c);
    forall d | d in t.bits ensures Located(t, clock, d) {
      assert Located(s, clock, d);
    }
  }

  lemma CreateKeeps(s: Sched, clock: nat, c: Co, u: bool)
    requires Inv(s, clock) && c !in s.bits
    ensures Inv(Create(s, c, u), clock)
  {
    var t := Create(s, c, u);
    AppendDistinct(Queue(s, u), c);
    forall d | d in t.bits ensures Located(t, clock, d) {
      if d != c { assert Located(s, clock, d); }
    }
  }

  lemma ResumeKeeps(s: Sched, clock: nat, u: bool)
    requires Inv(s, clock) && s.curr.None? && s.status == SchedRunning && Queue(s, u) != []
    ensures Queue(s, u)[0] in s.bits && Inv(Resume(s, u), clock)
  {
    var c := Queue(s, u)[0];
    assert c in Queue(s, u);
    var t := Resume(s, u);
    PopDistinct(Queue(s, u));
    forall d | d in t.bits ensures Located(t, clock, d) {
      assert Located(s, clock, d);
    }
  }

  lemma MarkKeeps(s: Sched, clock: nat, c: Co, u: bool)
    requires Inv(s, clock)
    ensures Inv(Mark(s, c, u), clock)
  {
    var t := Mark(s, c, u);
    forall d | d in t.bits ensures Located(t, clock, d) {
      assert Located(s, clock, d);
    }
  }

  lemma ClockKeeps(s: Sched, clock: nat, now: nat)
    requires Inv(s, clock) && clock <= now
    ensures Inv(s, now)
  {
  }

  /** The sleeps whose 32-bit conversion neither turns negative nor wraps to zero. */
  predicate Safe(msecs: nat) {
    0 < msecs <= 0x7fff_ffff && msecs % 0x2000_0000 != 0
  }

  lemma HasKeyIn(s: seq<Entry<Co>>, k: nat)
    ensures HasKey(s, k) <==> exists e :: e in s && e.key == k
  {
  }

  lemma NewKeys(s: seq<Entry<Co>>, t: seq<Entry<Co>>, x: Entry<Co>, k: nat)
    requires forall e :: e in t <==> e == x || e in s
    ensures HasKey(t, k) <==> k == x.key || HasKey(s, k)
  {
    HasKeyIn(s, k);
    HasKeyIn(t, k);
    assert x in t;
  }

  /** A deadline of a safe sleep lies above the clock, so it is no other coroutine's old key. */
  lemma SleepEntry(s: Sched, c: Co, msecs: nat, now: nat)
    requires Inv(s, now) && s.curr == Some(c) && Safe(msecs)
    ensures var t := SchedSleep(s, c, msecs, now);
            var d := t.bits[c].key;
            && now < d && !HasKey(s.sleeping, d) && Sorted(t.sleeping)
            && (forall e :: e in t.sleeping <==> e == Entry(d, c) || e in s.sleeping)
  {
    assert Located(s, now, c);
    UsecsExact(msecs);
    SchedSleepAdds(s.sleeping, c, s.bits[c].key, msecs, now);
  }

  lemma SleepKeeps(s: Sched, c: Co, msecs: nat, now: nat)
    requires Inv(s, now) && s.curr == Some(c) && Safe(msecs)
    ensures Inv(SchedSleep(s, c, msecs, now).(curr := None), now)
  {
    var t := SchedSleep(s, c, msecs, now).(curr := None);
    SleepEntry(s, c, msecs, now);
    forall d | d in t.bits ensures Located(t, now, d) {
      assert Located(s, now, d);
      NewKeys(s.sleeping, t.sleeping, Entry(t.bits[c].key, c), s.bits[d].key);
    }
  }

  lemma SchedWaitKeeps(s: Sched, clock: nat, c: Co, fd: Fd)
    requires Inv(s, clock) && s.curr == Some(c) && fd !in s.fds
    ensures Inv(SchedWait(s, c, fd).(curr := None), clock)
  {
    var t := SchedWait(s, c, fd).(curr := None);
    assert Located(s, clock, c);
    assert t.fds[fd] == c;
    assert forall f :: f in s.fds ==> t.fds[f] == s.fds[f] && s.fds[f] != c;
    forall d | d in t.bits ensures Located(t, clock, d) {
      assert Located(s, clock, d);
      assert d != c ==> (Waits(t, d) <==> Waits(s, d));
    }
  }

  /** With no timeout, the sleep call of a descriptor wait only removes by key, and no sleeper has that key. */
  lemma RemovesNobody(s: Sched, clock: nat, c: Co, fd: Fd, timeout: int, now: nat)
    requires Inv(s, clock) && s.curr == Some(c) && timeout < 0
    ensures SchedSleep(SchedWait(s, c, fd), c, timeout, now) == SchedWait(s, c, fd)
  {
    assert Located(s, clock, c);
    WithoutAbsent(s.sleeping, s.bits[c].key);
  }

  /** A sleeper taken out, and put where the running coroutine would be. */
  function TakeSleeper(s: Sched): Sched
    requires s.sleeping != [] && s.sleeping[0].node in s.bits
  {
    var c := s.sleeping[0].node;
    s.(sleeping := s.sleeping[1..], bits := s.bits[c := s.bits[c].(sleeping := false)], curr := Some(c))
  }

  lemma RestEntries(s: seq<Entry<Co>>)
    requires Sorted(s) && s != []
    ensures Sorted(s[1..]) && s[0] !in s[1..] && forall e :: e in s <==> e == s[0] || e in s[1..]
  {
  }

  lemma OtherStaysLocated(s: Sched, now: nat, d: Co)
    requires SleepersOk(s) && s.curr.None? && s.sleeping != [] && s.sleeping[0].node in s.bits
    requires d in s.bits && d != s.sleeping[0].node && Located(s, now, d)
    ensures Located(TakeSleeper(s), now, d)
  {
  }

  lemma TakeSleeperKeeps(s: Sched, now: nat)
    requires Inv(s, now) && s.curr.None? && s.status == SchedRunning && s.sleeping != [] && s.sleeping[0].key <= now
    ensures s.sleeping[0].node in s.bits && Inv(TakeSleeper(s), now)
  {
    var x := s.sleeping[0];
    assert x in s.sleeping;
    var t := TakeSleeper(s);
    RestEntries(s.sleeping);
    forall d | d in t.bits ensures Located(t, now, d) {
      assert Located(s, now, d);
      if d != x.node {
        OtherStaysLocated(s, now, d);
      } else {
        assert forall i :: 0 < i < |s.sleeping| ==> s.sleeping[i].key > x.key;
      }
    }
  }

  lemma ExpireKeeps(s: Sched, now: nat)
    requires Inv(s, now) && s.curr.None? && s.status == SchedRunning
    ensures s.sleeping != [] ==> s.sleeping[0].node in s.bits
    ensures Inv(Expire(s, now), now)
  {
    if s.sleeping != [] { assert s.sleeping[0] in s.sleeping; }
    if s.sleeping != [] && s.sleeping[0].key <= now {
      var c := s.sleeping[0].node;
      TakeSleeperKeeps(s, now);
      EnqueueKeeps(TakeSleeper(s), now, c);
      assert Expire(s, now) == Enqueue(TakeSleeper(s), c).(curr := None);
    }
  }

  lemma TakeWaiterKeeps(s: Sched, clock: nat, fd: Fd)
    requires Inv(s, clock) && s.curr.None? && s.status == SchedRunning && fd in s.fds
    ensures s.fds[fd] in s.bits && Inv(CancelWait(s, s.fds[fd], fd).(curr := Some(s.fds[fd])), clock)
  {
    var c := s.fds[fd];
    assert Located(s, clock, c) && Waits(s, c);
    var t := CancelWait(s, c, fd).(curr := Some(c));
    forall d | d in t.bits ensures Located(t, clock, d) {
      assert Located(s, clock, d);
      if x :| x in s.fds && s.fds[x] == d { assert d != c ==> t.fds[x] == d; }
    }
  }

  lemma FdReadyIs(s: Sched, fd: Fd)
    requires s.curr.None? && fd in s.fds && s.fds[fd] in s.bits && s.bits[s.fds[fd]].waiting
    ensures FdReady(s, fd) == Enqueue(CancelWait(s, s.fds[fd], fd).(curr := Some(s.fds[fd])), s.fds[fd]).(curr := None)
  {
    var c, b := s.fds[fd], s.bits[s.fds[fd]];
    assert s.bits[c := b.(ready := true)][c := b.(ready := true, waiting := false)]
        == s.bits[c := b.(waiting := false)][c := b.(waiting := false, ready := true)];
  }

  lemma FdReadyKeeps(s: Sched, clock: nat, fd: Fd)
    requires Inv(s, clock) && s.curr.None? && s.status == SchedRunning
    ensures fd in s.fds ==> s.fds[fd] in s.bits
    ensures Inv(FdReady(s, fd), clock)
  {
    if fd in s.fds {
      var c := s.fds[fd];
      assert Located(s, clock, c) && Waits(s, c);
      TakeWaiterKeeps(s, clock, fd);
      EnqueueKeeps(CancelWait(s, c, fd).(curr := Some(c)), clock, c);
      FdReadyIs(s, fd);
    }
  }

  lemma ExitKeeps(s: Sched, clock: nat, c: Co)
    requires Inv(s, clock) && s.curr == Some(c)
    ensures CancelSleep(s, c) == s && Inv(s.(bits := s.bits - {c}, curr := None), clock)
  {
    assert Located(s, clock, c);
    var t := s.(bits := s.bits - {c}, curr := None);
    assert forall e :: e in s.sleeping ==> e.node != c;
    assert forall fd :: fd in s.fds ==> s.fds[fd] != c;
    forall d | d in t.bits ensures Located(t, clock, d) {
      assert Located(s, clock, d);
    }
  }

  /** The waits of the runs in question: safe sleeps and descriptor waits without a timeout. */
  predicate Plainly(e: Event) {
    match e
    case SleepFor(msecs, _) => Safe(msecs)
    case WaitFd(_, timeout, _) => timeout < 0
    case _ => true
  }

  lemma SleepForKeeps(s: System, msecs: nat, now: nat)
    requires Inv(s.sched, s.clock) && Enabled(s, SleepFor(msecs, now)) && Safe(msecs)
    ensures var t := Next(s, SleepFor(msecs, now)); Inv(t.sched, t.clock)
  {
    ClockKeeps(s.sched, s.clock, now);
    assert ToInt(msecs) == msecs;
    SleepKeeps(s.sched, s.sched.curr.value, msecs, now);
  }

  lemma WaitFdKeeps(s: System, fd: Fd, timeout: int, now: nat)
    requires Inv(s.sched, s.clock) && Enabled(s, WaitFd(fd, timeout, now)) && timeout < 0
    ensures var t := Next(s, WaitFd(fd, timeout, now)); Inv(t.sched, t.clock)
  {
    var c := s.sched.curr.value;
    ClockKeeps(s.sched, s.clock, now);
    SchedWaitKeeps(s.sched, now, c, fd);
    RemovesNobody(s.sched, now, c, fd, timeout, now);
  }

  lemma CallKeeps(s: System, e: Event)
    requires Inv(s.sched, s.clock) && Enabled(s, e) && (e.Nap? || e.EndSleep? || e.EndWait? || e.Exit? || e.Stop?)
    ensures Inv(Next(s, e).sched, Next(s, e).clock)
  {
    var c := s.sched.curr.value;
    assert Located(s.sched, s.clock, c);
    match e {
      case Nap => EnqueueKeeps(s.sched, s.clock, c);
      case EndSleep =>
      case EndWait(fd) =>
      case Exit => ExitKeeps(s.sched, s.clock, c);
      case Stop => StopKeeps(s.sched, s.clock, c);
    }
  }

  lemma StatusKeeps(s: Sched, clock: nat, status: SchedStatus)
    requires Inv(s, clock) && s.curr.None? && (status == SchedDone ==> s.bits == map[])
    ensures Inv(s.(status := status), clock)
  {
    var t := s.(status := status);
    forall d | d in t.bits ensures Located(t, clock, d) {
      assert Located(s, clock, d);
    }
  }

  lemma StopKeeps(s: Sched, clock: nat, c: Co)
    requires Inv(s, clock) && s.curr == Some(c)
    ensures Inv(Enqueue(s, c).(curr := None, status := SchedStopped), clock)
  {
    EnqueueKeeps(s, clock, c);
    StatusKeeps(Enqueue(s, c).(curr := None), clock, SchedStopped);
  }

  /** When the loop finds all four structures empty, every coroutine has exited. */
  lemma DoneMeansExited(s: Sched, clock: nat)
    requires Inv(s, clock) && IsDone(s) && s.curr.None?
    ensures s.bits == map[]
  {
  }

  lemma LoopKeeps(s: System, e: Event)
    requires Inv(s.sched, s.clock) && Enabled(s, e) &&
             (e.ResumeFirst? || e.ExpireOne? || e.Report? || e.Start? || e.Finish?)
    ensures Inv(Next(s, e).sched, Next(s, e).clock)
  {
    match e {
      case ResumeFirst(u) => ResumeKeeps(s.sched, s.clock, u);
      case ExpireOne(now) =>
        ClockKeeps(s.sched, s.clock, now);
        ExpireKeeps(s.sched, now);
      case Report(fd) => FdReadyKeeps(s.sched, s.clock, fd);
      case Start => StatusKeeps(s.sched, s.clock, SchedRunning);
      case Finish =>
        DoneMeansExited(s.sched, s.clock);
        StatusKeeps(s.sched, s.clock, SchedDone);
    }
  }

  lemma NextKeeps(s: System, e: Event)
    requires Inv(s.sched, s.clock) && Enabled(s, e) && Plainly(e)
    ensures Inv(Next(s, e).sched, Next(s, e).clock)
  {
    match e {
      case Make(c, u) => CreateKeeps(s.sched, s.clock, c, u);
      case SetUrgent(c, u) => MarkKeeps(s.sched, s.clock, c, u);
      case SleepFor(msecs, now) => SleepForKeeps(s, msecs, now);
      case WaitFd(fd, timeout, now) => WaitFdKeeps(s, fd, timeout, now);
      case Nap => CallKeeps(s, e);
      case EndSleep => CallKeeps(s, e);
      case EndWait(_) => CallKeeps(s, e);
      case Exit => CallKeeps(s, e);
      case Stop => CallKeeps(s, e);
      case _ => LoopKeeps(s, e);
    }
  }

  ghost predicate AllPlainly(events: seq<Event>) {
    forall i :: 0 <= i < |events| ==> Plainly(events[i])
  }

  lemma {:induction false} RunKeeps(s: System, events: seq<Event>)
    requires Inv(s.sched, s.clock) && IsRun(s, events) && AllPlainly(events)
    ensures Inv(Run(s, events).sched, Run(s, events).clock)
    decreases events
  {
    if events != [] {
      NextKeeps(s, events[0]);
      RunKeeps(Next(s, events[0]), events[1..]);
    }
  }

  // ------------------------------------------------------ the location theorem

  /** How often a coroutine occurs in all the places together. */
  ghost function Places(s: Sched, c: Co): nat {
    (if s.curr == Some(c) then 1 else 0) + multiset(s.ready)[c] + multiset(s.urgent)[c]
    + |Sleeps(s, c)| + |Descriptors(s, c)|
  }

  ghost function Sleeps(s: Sched, c: Co): set<int> {
    set i | 0 <= i < |s.sleeping| && s.sleeping[i].node == c
  }

  ghost function Descriptors(s: Sched, c: Co): set<Fd> {
    set fd | fd in s.fds && s.fds[fd] == c
  }

  lemma {:induction false} DistinctOccurs(q: seq<Co>, c: Co)
    requires Distinct(q)
    ensures multiset(q)[c] == if c in q then 1 else 0
    decreases q
  {
    if q != [] {
      PopDistinct(q);
      DistinctOccurs(q[1..], c);
      assert q == [q[0]] + q[1..];
    }
  }

  lemma SleepsOnce(s: Sched, c: Co)
    requires SleepersOk(s) && c in s.bits
    ensures |Sleeps(s, c)| == if Entry(s.bits[c].key, c) in s.sleeping then 1 else 0
  {
    assert forall i :: 0 <= i < |s.sleeping| ==> s.sleeping[i] in s.sleeping;
    if Entry(s.bits[c].key, c) in s.sleeping {
      var i :| 0 <= i < |s.sleeping| && s.sleeping[i] == Entry(s.bits[c].key, c);
      assert Sleeps(s, c) == {i};
    } else {
      assert Sleeps(s, c) == {};
    }
  }

  lemma WaitsOnce(s: Sched, c: Co)
    requires FdsOk(s)
    ensures |Descriptors(s, c)| == if Waits(s, c) then 1 else 0
  {
    if Waits(s, c) {
      var fd :| fd in s.fds && s.fds[fd] == c;
      assert Descriptors(s, c) == {fd};
    } else {
      assert Descriptors(s, c) == {};
    }
  }

  lemma OnePlace(s: Sched, clock: nat, c: Co)
    requires Inv(s, clock) && c in s.bits
    ensures Places(s, c) == 1
  {
    assert Located(s, clock, c);
    DistinctOccurs(s.ready, c);
    DistinctOccurs(s.urgent, c);
    SleepsOnce(s, c);
    WaitsOnce(s, c);
  }

  /** The property that the runs in question have: one place each, and bits that say which. */
  ghost predicate AllPlaced(s: Sched) {
    forall c :: c in s.bits ==>
      && Places(s, c) == 1
      && (s.bits[c].ready <==> c in s.ready || c in s.urgent)
      && (s.bits[c].sleeping <==> Entry(s.bits[c].key, c) in s.sleeping)
      && (s.bits[c].waiting <==> Waits(s, c))
  }

  lemma InvPlaces(s: Sched, clock: nat)
    requires Inv(s, clock)
    ensures AllPlaced(s) && (s.curr.None? && IsDone(s) ==> s.bits == map[])
  {
    forall c | c in s.bits
      ensures && Places(s, c) == 1
              && (s.bits[c].ready <==> c in s.ready || c in s.urgent)
              && (s.bits[c].sleeping <==> Entry(s.bits[c].key, c) in s.sleeping)
              && (s.bits[c].waiting <==> Waits(s, c))
    {
      assert Located(s, clock, c);
      OnePlace(s, clock, c);
    }
    if s.curr.None? && IsDone(s) { DoneMeansExited(s, clock); }
  }

  /**
   In every run whose waits are safe sleeps or descriptor waits without a timeout,
   through stops and re-runs, each unfinished coroutine is in exactly one place and
   its bits say which; the loop ends, and a later run returns 0 at once, only when
   all have exited.
   */
  lemma {:induction false} Location(events: seq<Event>)
    requires IsRun(Created(), events) && AllPlainly(events)
    ensures var s := Run(Created(), events).sched;
            && AllPlaced(s)
            && (s.curr.None? && IsDone(s) ==> s.bits == map[])
            && (s.status == SchedDone ==> s.bits == map[])
  {
    RunKeeps(Created(), events);
    InvPlaces(Run(Created(), events).sched, Run(Created(), events).clock);
  }

  /**
   In those runs the removal by old key that begins a sleep removes nobody: no
   sleeper has the key of a coroutine outside the index, which is at most the clock.
   And a removal of the node itself always finds it in the index.
   */
  lemma {:induction false} RemovalHitsNobody(events: seq<Event>, c: Co)
    requires IsRun(Created(), events) && AllPlainly(events)
    requires c in Run(Created(), events).sched.bits
    ensures var s := Run(Created(), events);
            var b := s.sched.bits[c];
            && Removable(s.sched, c)
            && (!b.sleeping ==> b.key <= s.clock && WithoutKey(s.sched.sleeping, b.key) == s.sched.sleeping)
  {
    RunKeeps(Created(), events);
    var s := Run(Created(), events);
    assert Located(s.sched, s.clock, c);
    if !s.sched.bits[c].sleeping { WithoutAbsent(s.sched.sleeping, s.sched.bits[c].key); }
  }

  // ------------------------------------------------------------- what can fail

  lemma {:induction false} RunOf(s: System, e: Event, t: System, rest: seq<Event>)
    requires Enabled(s, e) && Next(s, e) == t && IsRun(t, rest)
    ensures IsRun(s, [e] + rest) && Run(s, [e] + rest) == Run(t, rest)
  {
  }

  /** Two new coroutines, the first of which is about to sleep. */
  function TwoReady(): System {
    var fresh0 := Bits(true, false, false, false, 0);
    System(Sched([1], [], [], map[], map[0 := fresh0.(ready := false), 1 := fresh0], Some(0), SchedRunning), 0)
  }

  lemma ReachTwoReady(rest: seq<Event>) returns (events: seq<Event>)
    requires IsRun(TwoReady(), rest)
    ensures IsRun(Created(), events) && Run(Created(), events) == Run(TwoReady(), rest)
    ensures events == [Make(0, false), Make(1, false), Start, ResumeFirst(false)] + rest
  {
    var s0 := Created();
    var s1 := Next(s0, Make(0, false));
    var s2 := Next(s1, Make(1, false));
    assert s2.sched.ready == [0, 1];
    var s3 := Next(s2, Start);
    assert Next(s3, ResumeFirst(false)) == TwoReady();
    RunOf(s3, ResumeFirst(false), TwoReady(), rest);
    events := [ResumeFirst(false)] + rest;
    RunOf(s2, Start, s3, events);
    events := [Start] + events;
    RunOf(s1, Make(1, false), s2, events);
    events := [Make(1, false)] + events;
    RunOf(s0, Make(0, false), s1, events);
    events := [Make(0, false)] + events;
  }

  /** An unsafe sleep at clock 0 leaves its caller out of the index, or there under the key 0. */
  lemma UnsafeSleep(msecs: nat)
    requires 0 < msecs < 0x1_0000_0000 && !Safe(msecs)
    ensures var t := Next(TwoReady(), SleepFor(msecs, 0)).sched;
            (t.sleeping == [] || t.sleeping == [Entry(0, 0)]) && (msecs > 0x7fff_ffff ==> Places(t, 0) == 0)
  {
    var t := Next(TwoReady(), SleepFor(msecs, 0)).sched;
    if msecs <= 0x7fff_ffff {
      UsecsExact(msecs);
    } else {
      assert Sleeps(t, 0) == {} && Descriptors(t, 0) == {};
    }
  }

  /** The other coroutine, whose key is 0 too, then takes it out with its own sleep. */
  lemma OtherSleeps(s: System) returns (events: seq<Event>)
    requires s.sched.sleeping == [] || s.sched.sleeping == [Entry(0, 0)]
    requires s.sched.ready == [1] && s.sched.urgent == [] && s.sched.fds == map[] && s.clock == 0
    requires s.sched.curr.None? && s.sched.status == SchedRunning
    requires 0 in s.sched.bits && 1 in s.sched.bits && s.sched.bits[1].key == 0
    ensures events == [ResumeFirst(false), SleepFor(1, 0)]
    ensures IsRun(s, events) && 0 in Run(s, events).sched.bits && Places(Run(s, events).sched, 0) == 0
  {
    var e, f := ResumeFirst(false), SleepFor(1, 0);
    var t := Next(s, e);
    var u := Next(t, f);
    assert WithoutKey(t.sched.sleeping, 0) == [];
    assert u.sched.sleeping == [Entry(u.sched.bits[1].key, 1)];
    assert Sleeps(u.sched, 0) == {} && Descriptors(u.sched, 0) == {};
    RunOf(t, f, u, []);
    RunOf(s, e, t, [f] + []);
    events := [e] + ([f] + []);
  }

  /** After an unsafe sleep and another coroutine's sleep, its caller is alive and nowhere. */
  lemma UnsafeSleepLoses(msecs: nat) returns (events: seq<Event>)
    requires 0 < msecs < 0x1_0000_0000 && !Safe(msecs)
    ensures IsRun(Created(), events) && SleepsOnly(events, msecs)
    ensures 0 in Run(Created(), events).sched.bits && Places(Run(Created(), events).sched, 0) == 0
  {
    var s0, e := TwoReady(), SleepFor(msecs, 0);
    var s1 := Next(s0, e);
    UnsafeSleep(msecs);
    var rest := OtherSleeps(s1);
    RunOf(s0, e, s1, rest);
    events := ReachTwoReady([e] + rest);
  }

  ghost predicate SleepsOnly(events: seq<Event>, msecs: nat) {
    forall i :: 0 <= i < |events| ==> Plainly(events[i]) || (events[i].SleepFor? && events[i].msecs == msecs)
  }

  /** A sleep of `msecs` can be allowed in every run exactly when it is safe. */
  lemma SafeSleepIff(msecs: nat)
    requires 0 < msecs < 0x1_0000_0000
    ensures Safe(msecs) <==>
            forall events :: IsRun(Created(), events) && SleepsOnly(events, msecs)
              ==> AllPlaced(Run(Created(), events).sched)
  {
    if Safe(msecs) {
      forall events | IsRun(Created(), events) && SleepsOnly(events, msecs)
        ensures AllPlaced(Run(Created(), events).sched)
      {
        Location(events);
      }
    } else {
      var events := UnsafeSleepLoses(msecs);
      assert !AllPlaced(Run(Created(), events).sched);
    }
  }

  ghost predicate WaitsOnly(events: seq<Event>, timeout: int) {
    forall i :: 0 <= i < |events| ==> Plainly(events[i]) || (events[i].WaitFd? && events[i].timeout == timeout)
  }

  /** With a timeout, a descriptor wait puts its caller in two places at once. */
  lemma TimedWaitIsTwice(timeout: int)
    requires timeout > 0
    ensures IsRun(TwoReady(), [WaitFd(5, timeout, 0)])
    ensures var s := Run(TwoReady(), [WaitFd(5, timeout, 0)]).sched; 0 in s.bits && Places(s, 0) == 2
  {
    var s0 := TwoReady();
    var s1 := Next(s0, WaitFd(5, timeout, 0));
    assert s1.sched.sleeping == [Entry(s1.sched.bits[0].key, 0)] && s1.sched.fds == map[5 := 0];
    assert Sleeps(s1.sched, 0) == {0} && Descriptors(s1.sched, 0) == {5};
    RunOf(s0, WaitFd(5, timeout, 0), s1, []);
    assert [WaitFd(5, timeout, 0)] + [] == [WaitFd(5, timeout, 0)];
  }

  /** A descriptor wait with a given nonzero timeout can be allowed in every run exactly when it is endless. */
  lemma EndlessWaitIff(timeout: int)
    requires timeout != 0
    ensures timeout < 0 <==>
            forall events :: IsRun(Created(), events) && WaitsOnly(events, timeout)
              ==> AllPlaced(Run(Created(), events).sched)
  {
    if timeout < 0 {
      forall events | IsRun(Created(), events) && WaitsOnly(events, timeout)
        ensures AllPlaced(Run(Created(), events).sched)
      {
        Location(events);
      }
    } else {
      TimedWaitIsTwice(timeout);
      var events := ReachTwoReady([WaitFd(5, timeout, 0)]);
      assert WaitsOnly(events, timeout);
      assert !AllPlaced(Run(Created(), events).sched);
    }
  }

  // ------------------------------------------------------------ ending a wait

  /**
   In any state, the two calls that end a wait take the caller's own entry out of the
   sleepers and the descriptor out of the map if its bits say that it sleeps or waits, and
   nobody else is touched. Afterwards its bits say that it does neither.
   */
  lemma EndsExact(s: Sched, c: Co, fd: Fd)
    requires Sorted(s.sleeping) && c in s.bits && Removable(s, c)
    ensures var t, b := CancelWait(CancelSleep(s, c), c, fd), s.bits[c];
            && (forall x :: x in t.sleeping <==> x in s.sleeping && !(b.sleeping && x == Entry(b.key, c)))
            && (forall f :: f in t.fds <==> f in s.fds && !(b.waiting && f == fd))
            && (forall f :: f in t.fds ==> t.fds[f] == s.fds[f])
            && t.bits.Keys == s.bits.Keys && t.bits[c] == b.(sleeping := false, waiting := false)
            && (forall d :: d in s.bits && d != c ==> t.bits[d] == s.bits[d])
            && t.ready == s.ready && t.urgent == s.urgent && t.curr == s.curr && t.status == s.status
  {
    if s.bits[c].sleeping { OwnEntry(s.sleeping, Entry(s.bits[c].key, c)); }
  }

  /** Removing by the key of an entry that is there removes that entry alone. */
  lemma {:induction false} OwnEntry(z: seq<Entry<Co>>, own: Entry<Co>)
    requires Sorted(z) && own in z
    ensures forall x :: x in WithoutKey(z, own.key) <==> x in z && x != own
  {
    WithoutKeyContents(z, own.key);
    var i :| 0 <= i < |z| && z[i] == own;
    assert forall j :: 0 <= j < |z| && j != i ==> z[j].key != own.key;
  }

  // ------------------------------------------------------ the tree behind the ids

  /**
   If the sleepers here are those of a tree, named by `f`, they stay so when the tree and
   this state schedule or cancel a sleep of the same coroutine or expire one sleeper.
   */
  lemma {:induction false} TreeStaysLinked<N>(
        s: Sched, z: seq<Entry<N>>, f: N -> Co, co: N, msecs: int, now: nat)
    requires s.sleeping == Relabel(z, f) && f(co) in s.bits && (z != [] ==> f(z[0].node) in s.bits)
    ensures var (t, key) := Deadlines.SchedSleep(z, co, s.bits[f(co)].key, msecs, now);
            var s' := SchedSleep(s, f(co), msecs, now);
            s'.sleeping == Relabel(t, f) && s'.bits[f(co)].key == key
    ensures var b := s.bits[f(co)];
            CancelSleep(s, f(co)).sleeping == Relabel(if b.sleeping then WithoutKey(z, b.key) else z, f)
    ensures Expire(s, now).sleeping == Relabel(if z != [] && z[0].key <= now then z[1..] else z, f)
  {
    SchedSleepRelabels(z, f, co, s.bits[f(co)].key, msecs, now);
    RelabelWithout(z, f, s.bits[f(co)].key);
    if z != [] { assert Relabel(z, f)[1..] == Relabel(z[1..], f); }
  }
}
