/**
 The semaphore of src/dyco_semaphore.c: a value and a FIFO queue of waiters, each
 woken through an eventfd of its own. A node keeps the number of that descriptor,
 which the wait closes when it ends, so the descriptor table is part of the model.
 */
module SemaphoreSpec {
  import opened Waiters

  const VALUE_MAX := 0x7fff_ffff

  type Fd = nat
  type User = nat

  /** What a descriptor number stands for: a waiter's eventfd, or a file of the rest of the program. */
  datatype File = Eventfd(count: nat) | Foreign(writable: bool)

  datatype Node = Node(ticket: Ticket, fd: Fd)

  datatype Sem = Sem(semval: int, wqueue: seq<Node>, files: map<Fd, File>)

  datatype Outcome = Parked | Returned(ret: int)

  /** dyco_semaphore_wait up to its wait point; `node` is the one it may queue. */
  function Wait(s: Sem, node: Node, timeout: int, inCoroutine: bool): (Sem, Outcome) {
    if s.semval > 0 then (s.(semval := s.semval - 1), Returned(0))
    else if timeout == 0 || !inCoroutine then (s, Returned(-1))
    else (s.(wqueue := s.wqueue + [node], files := s.files[node.fd := Eventfd(0)]), Parked)
  }

  /** dyco_semaphore_wait from the end of its wait: the eventfd is read and closed, the node stays. */
  function WaitEnd(s: Sem, fd: Fd): (Sem, int)
    requires fd in s.files && s.files[fd].Eventfd?
  {
    (s.(files := s.files - {fd}), if s.files[fd].count == 1 then 0 else -1)
  }

  datatype Signalled = Failed | Counted | Woke | Strayed | Died

  /** dyco_semaphore_signal: a write to a descriptor that is not open or not writable ends the process. */
  function Signal(s: Sem, inCoroutine: bool): (Sem, Signalled) {
    if s.semval == VALUE_MAX then (s, Failed)
    else if s.wqueue == [] then (s.(semval := s.semval + 1), Counted)
    else if !inCoroutine then (s, Failed)
    else
      var fd, s' := s.wqueue[0].fd, s.(wqueue := s.wqueue[1..]);
      if fd !in s.files then (s', Died)
      else match s.files[fd]
        case Eventfd(count) => (s'.(files := s.files[fd := Eventfd(count + 1)]), Woke)
        case Foreign(writable) => (s', if writable then Strayed else Died)
  }

  // ------------------------------------------------------------- all callers

  datatype Waiting = Waiting(user: User, fd: Fd, timed: bool)

  /**
   The semaphore with its callers: who is parked, who is inside (its wait returned 0
   and its signal has not), how many waits and signals returned 0, how many units went
   to files of others and how many were read by a wait that then returned -1.
   */
  datatype System = System(
    sem: Sem,
    parked: map<Ticket, Waiting>,
    used: set<Ticket>,
    inside: set<User>,
    waits: nat,
    signals: nat,
    strayed: nat,
    spoiled: nat,
    queued: seq<Node>,
    woken: seq<Node>,
    dead: bool)

  datatype Event =
    | WaitCall(user: User, node: Node, timeout: int, inCoroutine: bool)
    | Resumed(ticket: Ticket)
    | SignalCall(user: User, inCoroutine: bool)
    | OtherOpens(fd: Fd, writable: bool)
    | OtherCloses(fd: Fd)

  /** A wait is given any free descriptor number and resumes when granted or, if it is timed, at any time. */
  predicate Enabled(s: System, e: Event) {
    && !s.dead
    && match e
       case WaitCall(_, node, _, _) => node.ticket !in s.used && node.fd !in s.sem.files
       case Resumed(t) =>
         && t in s.parked && s.parked[t].fd in s.sem.files && s.sem.files[s.parked[t].fd].Eventfd?
         && (s.sem.files[s.parked[t].fd].count > 0 || s.parked[t].timed)
       case SignalCall(_, _) => true
       case OtherOpens(fd, _) => fd !in s.sem.files
       case OtherCloses(fd) => fd in s.sem.files && s.sem.files[fd].Foreign?
  }

  function Next(s: System, e: Event): System
    requires Enabled(s, e)
  {
    match e
    case WaitCall(user, node, timeout, inCoroutine) =>
      var (sem, o) := Wait(s.sem, node, timeout, inCoroutine);
      var s' := s.(sem := sem, used := s.used + {node.ticket});
      if o.Parked? then
        s'.(parked := s.parked[node.ticket := Waiting(user, node.fd, timeout > 0)], queued := s.queued + [node])
      else if o.ret == 0 then s'.(waits := s.waits + 1, inside := s.inside + {user})
      else s'
    case Resumed(t) =>
      var fd := s.parked[t].fd;
      var (sem, ret) := WaitEnd(s.sem, fd);
      var s' := s.(sem := sem, parked := s.parked - {t});
      if ret == 0 then s'.(waits := s.waits + 1, inside := s.inside + {s.parked[t].user})
      else s'.(spoiled := s.spoiled + s.sem.files[fd].count)
    case SignalCall(user, inCoroutine) =>
      var (sem, r) := Signal(s.sem, inCoroutine);
      if r.Failed? then s
      else
        var woken := if r.Counted? then s.woken else s.woken + [s.sem.wqueue[0]];
        if r.Died? then s.(sem := sem, woken := woken, dead := true)
        else s.(sem := sem, woken := woken, signals := s.signals + 1, inside := s.inside - {user},
                strayed := if r.Strayed? then s.strayed + 1 else s.strayed)
    case OtherOpens(fd, writable) => s.(sem := s.sem.(files := s.sem.files[fd := Foreign(writable)]))
    case OtherCloses(fd) => s.(sem := s.sem.(files := s.sem.files - {fd}))
  }

  function Created(value: nat): System {
    System(Sem(value, [], map[]), map[], {}, {}, 0, 0, 0, 0, [], [], false)
  }

  // ----------------------------------------------------------- units on the way

  function Units(f: File): nat {
    if f.Eventfd? then f.count else 0
  }

  ghost function Pick(fds: set<Fd>): Fd
    requires fds != {}
  {
    var fd :| fd in fds;
    fd
  }

  /** The units written to waiters and not read yet. */
  ghost function Total(files: map<Fd, File>): nat
    decreases |files.Keys|
  {
    if files.Keys == {} then 0
    else
      var fd := Pick(files.Keys);
      assert (files - {fd}).Keys == files.Keys - {fd};
      Units(files[fd]) + Total(files - {fd})
  }

  lemma Fewer(files: map<Fd, File>, fd: Fd)
    requires fd in files
    ensures (files - {fd}).Keys == files.Keys - {fd} && |(files - {fd}).Keys| < |files.Keys|
  {
  }

  lemma {:induction false} TotalRemove(files: map<Fd, File>, fd: Fd)
    requires fd in files
    ensures Total(files) == Units(files[fd]) + Total(files - {fd})
    decreases |files.Keys|
  {
    var x := Pick(files.Keys);
    var a, b := files - {x}, files - {fd};
    Fewer(files, x);
    assert Total(files) == Units(files[x]) + Total(a);
    if x != fd {
      Fewer(files, fd);
      TotalRemove(a, fd);
      TotalRemove(b, x);
      assert a - {fd} == b - {x};
    }
  }

  lemma TotalSet(files: map<Fd, File>, fd: Fd, f: File)
    ensures Total(files[fd := f]) == Units(f) + Total(files - {fd})
    ensures fd !in files ==> Total(files[fd := f]) == Units(f) + Total(files)
  {
    TotalRemove(files[fd := f], fd);
    assert files[fd := f] - {fd} == files - {fd};
    assert fd !in files ==> files - {fd} == files;
  }

  // --------------------------------------------------- what every step keeps

  ghost predicate QueueOk(s: System) {
    && s.queued == s.woken + s.sem.wqueue
    && (forall i, j :: 0 <= i < j < |s.queued| ==> s.queued[i].ticket != s.queued[j].ticket)
    && (forall n :: n in s.queued ==> n.ticket in s.used)
  }

  /** A parked caller has an open eventfd of its own, and until it is granted its node is in the queue. */
  ghost predicate ParkedOk(s: System) {
    && (forall t :: t in s.parked ==>
          && s.parked[t].fd in s.sem.files && s.sem.files[s.parked[t].fd].Eventfd?
          && Node(t, s.parked[t].fd) in s.queued
          && (s.sem.files[s.parked[t].fd].count == 0 ==> Node(t, s.parked[t].fd) in s.sem.wqueue))
    && (forall t, u :: t in s.parked && u in s.parked && s.parked[t].fd == s.parked[u].fd ==> t == u)
  }

  ghost predicate Inv(s: System) {
    && 0 <= s.sem.semval <= VALUE_MAX
    && (s.sem.semval > 0 ==> s.sem.wqueue == [])
    && QueueOk(s) && ParkedOk(s)
  }

  /** What was put in is what is there, taken, on its way, or gone to where nobody waits. */
  ghost predicate Conserved(s: System, value: nat) {
    value + s.signals == s.sem.semval + s.waits + Total(s.sem.files) + s.strayed + s.spoiled
  }

  lemma NextConserves(s: System, value: nat, e: Event)
    requires Conserved(s, value) && Enabled(s, e)
    ensures Conserved(Next(s, e), value)
  {
    var files := s.sem.files;
    match e {
      case WaitCall(_, node, _, _) => TotalSet(files, node.fd, Eventfd(0));
      case Resumed(t) => TotalRemove(files, s.parked[t].fd);
      case SignalCall(_, _) =>
        if s.sem.wqueue != [] && s.sem.wqueue[0].fd in files {
          var fd := s.sem.wqueue[0].fd;
          TotalRemove(files, fd);
          TotalSet(files, fd, Eventfd(Units(files[fd]) + 1));
        }
      case OtherOpens(fd, writable) => TotalSet(files, fd, Foreign(writable));
      case OtherCloses(fd) => TotalRemove(files, fd);
    }
  }

  lemma AppendNode(q: seq<Node>, node: Node)
    ensures forall n :: n in q + [node] <==> n == node || n in q
  {
  }

  lemma WaitQueue(s: System, e: Event)
    requires QueueOk(s) && Enabled(s, e) && e.WaitCall?
    ensures QueueOk(Next(s, e))
  {
    AppendNode(s.queued, e.node);
    assert s.woken + s.sem.wqueue + [e.node] == s.woken + (s.sem.wqueue + [e.node]);
    assert forall i :: 0 <= i < |s.queued| ==> s.queued[i] in s.queued;
  }

  lemma WaitParks(s: System, e: Event)
    requires QueueOk(s) && ParkedOk(s) && Enabled(s, e) && e.WaitCall?
    ensures ParkedOk(Next(s, e))
  {
    AppendNode(s.queued, e.node);
    AppendNode(s.sem.wqueue, e.node);
    assert e.node.ticket !in s.parked;
  }

  lemma WaitKeeps(s: System, e: Event)
    requires Inv(s) && Enabled(s, e) && e.WaitCall?
    ensures Inv(Next(s, e))
  {
    WaitQueue(s, e);
    WaitParks(s, e);
  }

  lemma SignalKeeps(s: System, e: Event)
    requires Inv(s) && Enabled(s, e) && e.SignalCall?
    ensures Inv(Next(s, e))
  {
    var q, w := s.sem.wqueue, s.woken;
    if q != [] && e.inCoroutine {
      assert w + [q[0]] + q[1..] == w + q;
      assert forall n :: n in q <==> n == q[0] || n in q[1..];
      forall t | t in s.parked && Node(t, s.parked[t].fd) == q[0] ensures s.sem.files[q[0].fd].Eventfd? {
      }
    }
  }

  lemma ResumedKeeps(s: System, t: Ticket)
    requires Inv(s) && Enabled(s, Resumed(t))
    ensures Inv(Next(s, Resumed(t)))
  {
  }

  lemma OtherKeeps(s: System, e: Event)
    requires Inv(s) && Enabled(s, e) && (e.OtherOpens? || e.OtherCloses?)
    ensures Inv(Next(s, e))
  {
  }

  lemma NextKeeps(s: System, e: Event)
    requires Inv(s) && Enabled(s, e)
    ensures Inv(Next(s, e))
  {
    match e {
      case WaitCall(_, _, _, _) => WaitKeeps(s, e);
      case Resumed(t) => ResumedKeeps(s, t);
      case SignalCall(_, _) => SignalKeeps(s, e);
      case _ => OtherKeeps(s, e);
    }
  }

  ghost predicate IsRun(s: System, events: seq<Event>)
    decreases events
  {
    events == [] || (Enabled(s, events[0]) && IsRun(Next(s, events[0]), events[1..]))
  }

  ghost function Run(s: System, events: seq<Event>): System
    requires IsRun(s, events)
    decreases events
  {
    if events == [] then s else Run(Next(s, events[0]), events[1..])
  }

  lemma {:induction false} RunKeeps(s: System, value: nat, events: seq<Event>)
    requires Inv(s) && Conserved(s, value) && IsRun(s, events)
    ensures Inv(Run(s, events)) && Conserved(Run(s, events), value)
    decreases events
  {
    if events != [] {
      NextKeeps(s, events[0]);
      NextConserves(s, value, events[0]);
      RunKeeps(Next(s, events[0]), value, events[1..]);
    }
  }

  /**
   Conservation over every run, whatever the timeouts: initial value plus signals is
   the value, the waits, the units on their way and those that reached nobody. A
   positive value means an empty queue, and nodes leave the queue in the order they came.
   */
  lemma {:induction false} SemaphoreConserves(value: nat, events: seq<Event>)
    requires value <= VALUE_MAX && IsRun(Created(value), events)
    ensures var s := Run(Created(value), events);
            && value + s.signals == s.sem.semval + s.waits + Total(s.sem.files) + s.strayed + s.spoiled
            && 0 <= s.sem.semval <= VALUE_MAX && (s.sem.semval > 0 ==> s.sem.wqueue == [])
            && s.queued == s.woken + s.sem.wqueue
  {
    RunKeeps(Created(value), value, events);
  }

  // --------------------------------------------------------- what a call answers

  /** The units that nobody has taken and that are on the way to nobody, from the history. */
  ghost function Free(value: nat, s: System): int {
    value + s.signals - (s.waits + Total(s.sem.files) + s.strayed + s.spoiled)
  }

  /** A wait answers 0 and takes a unit, answers -1, or parks, by whether one is free. */
  ghost predicate WaitAnswered(value: nat, s: System, e: Event)
    requires e.WaitCall? && Enabled(s, e)
  {
    var s', o := Next(s, e), Wait(s.sem, e.node, e.timeout, e.inCoroutine).1;
    && 0 <= Free(value, s) <= VALUE_MAX && Free(value, s') == Free(value, s) - (s'.waits - s.waits)
    && (o == Returned(0) <==> Free(value, s) > 0)
    && s'.waits == s.waits + (if Free(value, s) > 0 then 1 else 0)
    && (o == Returned(-1) <==> Free(value, s) == 0 && (e.timeout == 0 || !e.inCoroutine))
    && (o.Parked? <==> Free(value, s) == 0 && e.timeout != 0 && e.inCoroutine)
  }

  lemma WaitAnswersAt(s: System, value: nat, e: Event)
    requires 0 <= s.sem.semval <= VALUE_MAX && Conserved(s, value) && e.WaitCall? && Enabled(s, e)
    ensures WaitAnswered(value, s, e)
  {
    NextConserves(s, value, e);
  }

  lemma SignalAnswersAt(s: System, value: nat, user: User, inCoroutine: bool)
    requires Conserved(s, value) && s.queued == s.woken + s.sem.wqueue && !s.dead
    ensures var s', r := Next(s, SignalCall(user, inCoroutine)), Signal(s.sem, inCoroutine).1;
            && (r.Failed? <==> Free(value, s) == VALUE_MAX || (s.queued != s.woken && !inCoroutine))
            && (r.Failed? ==> s' == s)
            && (r.Counted? <==> Free(value, s) != VALUE_MAX && s.queued == s.woken)
            && (r.Counted? ==> Free(value, s') == Free(value, s) + 1)
  {
    assert s.queued == s.woken <==> s.sem.wqueue == [] by { assert |s.queued| == |s.woken| + |s.sem.wqueue|; }
    NextConserves(s, value, SignalCall(user, inCoroutine));
  }

  /**
   In every run a wait returns 0 at once, and counts, exactly when a unit is free. Otherwise
   it returns -1 exactly for timeout 0 or outside a coroutine, and parks in all other cases.
   */
  lemma {:induction false} WaitAnswers(value: nat, events: seq<Event>, e: Event)
    requires value <= VALUE_MAX && IsRun(Created(value), events)
    requires e.WaitCall? && Enabled(Run(Created(value), events), e)
    ensures WaitAnswered(value, Run(Created(value), events), e)
  {
    RunKeeps(Created(value), value, events);
    WaitAnswersAt(Run(Created(value), events), value, e);
  }

  /**
   In every run a signal fails exactly when the value is at its maximum or, outside a
   coroutine, somebody is queued. It adds a unit exactly when it does not fail and
   nobody is queued.
   */
  lemma {:induction false} SignalAnswers(value: nat, events: seq<Event>, user: User, inCoroutine: bool)
    requires value <= VALUE_MAX && IsRun(Created(value), events) && !Run(Created(value), events).dead
    ensures var s := Run(Created(value), events);
            var s', r := Next(s, SignalCall(user, inCoroutine)), Signal(s.sem, inCoroutine).1;
            && (r.Failed? <==> Free(value, s) == VALUE_MAX || (s.queued != s.woken && !inCoroutine))
            && (r.Failed? ==> s' == s)
            && (r.Counted? <==> Free(value, s) != VALUE_MAX && s.queued == s.woken)
            && (r.Counted? ==> Free(value, s') == Free(value, s) + 1)
  {
    RunKeeps(Created(value), value, events);
    SignalAnswersAt(Run(Created(value), events), value, user, inCoroutine);
  }

  ghost function WaitCalls(events: seq<Event>): nat {
    if events == [] then 0 else (if events[0].WaitCall? then 1 else 0) + WaitCalls(events[1..])
  }

  lemma {:induction false} UnitsLeft(s: System, events: seq<Event>)
    requires IsRun(s, events) && s.sem.wqueue == [] && WaitCalls(events) <= s.sem.semval
    ensures var t := Run(s, events); t.sem.wqueue == [] && t.sem.semval >= s.sem.semval - WaitCalls(events)
    decreases events
  {
    if events != [] { UnitsLeft(Next(s, events[0]), events[1..]); }
  }

  /** As many waits as the initial value succeed at once, whatever happens between them. */
  lemma {:induction false} FirstWaitsSucceed(value: nat, events: seq<Event>, e: Event)
    requires IsRun(Created(value), events) && WaitCalls(events) < value && e.WaitCall?
    ensures Wait(Run(Created(value), events).sem, e.node, e.timeout, e.inCoroutine).1 == Returned(0)
  {
    UnitsLeft(Created(value), events);
  }

  // ------------------------------------------------------------- bracketed use

  /** A user waits when it is neither inside nor waiting, and signals only from inside. */
  ghost predicate Bracketed(s: System, e: Event) {
    match e
    case WaitCall(user, _, _, _) => user !in s.inside && forall t :: t in s.parked ==> s.parked[t].user != user
    case SignalCall(user, _) => user in s.inside
    case _ => true
  }

  ghost predicate AllBracketed(s: System, events: seq<Event>)
    requires IsRun(s, events)
    decreases events
  {
    events == [] || (Bracketed(s, events[0]) && AllBracketed(Next(s, events[0]), events[1..]))
  }

  /** Those inside are counted, and nobody is inside and waiting or waiting twice. */
  ghost predicate UsersOk(s: System) {
    && s.waits == s.signals + |s.inside|
    && (forall t :: t in s.parked ==> s.parked[t].user !in s.inside)
    && (forall t, u :: t in s.parked && u in s.parked && s.parked[t].user == s.parked[u].user ==> t == u)
  }

  lemma WaitUsers(s: System, e: Event)
    requires UsersOk(s) && Enabled(s, e) && Bracketed(s, e) && e.WaitCall?
    ensures UsersOk(Next(s, e))
  {
  }

  lemma ResumedUsers(s: System, t: Ticket)
    requires UsersOk(s) && Enabled(s, Resumed(t))
    ensures UsersOk(Next(s, Resumed(t)))
  {
  }

  lemma NextUsers(s: System, e: Event)
    requires UsersOk(s) && Enabled(s, e) && Bracketed(s, e)
    ensures UsersOk(Next(s, e))
  {
    match e {
      case WaitCall(_, _, _, _) => WaitUsers(s, e);
      case Resumed(t) => ResumedUsers(s, t);
      case _ =>
    }
  }

  lemma {:induction false} RunUsers(s: System, events: seq<Event>)
    requires UsersOk(s) && IsRun(s, events) && AllBracketed(s, events)
    ensures UsersOk(Run(s, events))
    decreases events
  {
    if events != [] {
      NextUsers(s, events[0]);
      RunUsers(Next(s, events[0]), events[1..]);
    }
  }

  /**
   Mutual exclusion: in every run of bracketed users, whatever the timeouts and
   whatever descriptors are reused, at most the initial value of users are inside,
   and a signal from inside never fails at the maximum.
   */
  lemma {:induction false} InsideBound(value: nat, events: seq<Event>)
    requires value <= VALUE_MAX && IsRun(Created(value), events) && AllBracketed(Created(value), events)
    ensures var s := Run(Created(value), events);
            |s.inside| <= value && (s.inside != {} ==> !Signal(s.sem, true).1.Failed?)
  {
    RunKeeps(Created(value), value, events);
    RunUsers(Created(value), events);
  }

  // ------------------------------------------------------- where a signal goes

  function Grant(s: System, x: Ticket): nat
    requires x in s.parked
  {
    if s.parked[x].fd in s.sem.files then Units(s.sem.files[s.parked[x].fd]) else 0
  }

  /** The queue's head, if its caller is parked, names that caller's own open eventfd. */
  lemma HeadIsOwn(s: System)
    requires Inv(s) && s.sem.wqueue != []
    ensures var h := s.sem.wqueue[0];
            h.ticket in s.parked ==> s.parked[h.ticket].fd == h.fd && h.fd in s.sem.files && s.sem.files[h.fd].Eventfd?
  {
    var h := s.sem.wqueue[0];
    assert s.queued[|s.woken|] == h;
    if h.ticket in s.parked {
      var i :| 0 <= i < |s.queued| && s.queued[i] == Node(h.ticket, s.parked[h.ticket].fd);
      assert i == |s.woken|;
    }
  }

  /**
   A signal that takes a node off the queue grants the node's own caller exactly when
   that caller is still parked. Otherwise it grants whichever parked caller was given
   the same descriptor number since, writes to a file of somebody else, or ends the
   process, by what the number stands for now.
   */
  ghost predicate Goes(s: System, h: Node, t: System) {
    && (forall x :: x in s.parked ==>
          (x in t.parked && Grant(t, x) > Grant(s, x) <==>
             x == h.ticket || (h.ticket !in s.parked && s.parked[x].fd == h.fd)))
    && (t.strayed > s.strayed <==>
          h.ticket !in s.parked && h.fd in s.sem.files && s.sem.files[h.fd] == Foreign(true))
    && (t.dead <==>
          h.ticket !in s.parked && (h.fd !in s.sem.files || s.sem.files[h.fd] == Foreign(false)))
  }

  lemma SignalGoes(s: System, user: User)
    requires Inv(s) && !s.dead && s.sem.wqueue != []
    ensures Goes(s, s.sem.wqueue[0], Next(s, SignalCall(user, true)))
  {
    HeadIsOwn(s);
  }

  /** In every reachable state. */
  lemma {:induction false} SignalFate(value: nat, events: seq<Event>, user: User)
    requires value <= VALUE_MAX && IsRun(Created(value), events)
    requires !Run(Created(value), events).dead && Run(Created(value), events).sem.wqueue != []
    ensures var s := Run(Created(value), events);
            Goes(s, s.sem.wqueue[0], Next(s, SignalCall(user, true)))
  {
    RunKeeps(Created(value), value, events);
    SignalGoes(Run(Created(value), events), user);
  }

  // ------------------------------------------------- without positive timeouts

  /** Every queued node belongs to a caller that waits ungranted, and no unit went anywhere else. */
  ghost predicate NoStale(s: System) {
    && Kept(s)
    && (forall t :: t in s.parked ==> !s.parked[t].timed)
    && (forall n :: n in s.sem.wqueue ==>
          && n.ticket in s.parked && s.parked[n.ticket].fd == n.fd
          && n.fd in s.sem.files && s.sem.files[n.fd] == Eventfd(0))
    && (forall fd :: fd in s.sem.files ==> Units(s.sem.files[fd]) <= 1)
  }

  /** No signal ended the process and no unit reached somebody who does not get in. */
  predicate Kept(s: System) {
    !s.dead && s.strayed == 0 && s.spoiled == 0
  }

  predicate Untimed(e: Event) {
    e.WaitCall? ==> e.timeout <= 0
  }

  lemma SignalNoStale(s: System, e: Event)
    requires Inv(s) && NoStale(s) && Enabled(s, e) && e.SignalCall?
    ensures NoStale(Next(s, e))
  {
    var q, w := s.sem.wqueue, s.woken;
    if q != [] && e.inCoroutine {
      assert q[0] in q;
      forall n | n in q[1..] ensures n in q && n.ticket != q[0].ticket {
        var i :| 0 <= i < |q[1..]| && q[1..][i] == n;
        assert s.queued[|w|] == q[0] && s.queued[|w| + 1 + i] == n;
      }
    }
  }

  lemma NextNoStale(s: System, e: Event)
    requires Inv(s) && NoStale(s) && Enabled(s, e) && Untimed(e)
    ensures NoStale(Next(s, e))
  {
    match e {
      case WaitCall(_, node, _, _) => AppendNode(s.sem.wqueue, node);
      case SignalCall(_, _) => SignalNoStale(s, e);
      case _ =>
    }
  }

  lemma {:induction false} RunNoStale(s: System, events: seq<Event>)
    requires Inv(s) && NoStale(s) && IsRun(s, events) && (forall i :: 0 <= i < |events| ==> Untimed(events[i]))
    ensures NoStale(Run(s, events)) && Inv(Run(s, events))
    decreases events
  {
    if events != [] {
      NextKeeps(s, events[0]);
      NextNoStale(s, events[0]);
      RunNoStale(Next(s, events[0]), events[1..]);
    }
  }

  /** The descriptors of callers that have been granted and have not resumed. */
  ghost function Granted(files: map<Fd, File>): set<Fd> {
    set fd | fd in files && Units(files[fd]) > 0
  }

  lemma {:induction false} TotalGranted(files: map<Fd, File>)
    requires forall fd :: fd in files ==> Units(files[fd]) <= 1
    ensures Total(files) == |Granted(files)|
    decreases |files.Keys|
  {
    if files.Keys == {} {
      assert Granted(files) == {};
    } else {
      var fd := Pick(files.Keys);
      assert (files - {fd}).Keys == files.Keys - {fd};
      TotalGranted(files - {fd});
      assert Granted(files - {fd}) == Granted(files) - {fd};
      assert fd in Granted(files) <==> Units(files[fd]) == 1;
    }
  }

  /**
   Without positive timeouts, initial value plus signals equals value plus waits plus
   callers granted and not yet resumed, and every queued node is that of a waiting caller.
   */
  lemma {:induction false} UntimedConserves(value: nat, events: seq<Event>)
    requires value <= VALUE_MAX && IsRun(Created(value), events)
    requires forall i :: 0 <= i < |events| ==> Untimed(events[i])
    ensures var s := Run(Created(value), events);
            && Kept(s)
            && value + s.signals == s.sem.semval + s.waits + |Granted(s.sem.files)|
            && (forall n :: n in s.sem.wqueue ==> n.ticket in s.parked && s.parked[n.ticket].fd == n.fd)
  {
    RunKeeps(Created(value), value, events);
    RunNoStale(Created(value), events);
    TotalGranted(Run(Created(value), events).sem.files);
  }

  // ---------------------------------------------------- with positive timeouts

  ghost predicate WaitsOnly(events: seq<Event>, timeout: int) {
    forall i :: 0 <= i < |events| ==> Untimed(events[i]) || (events[i].WaitCall? && events[i].timeout == timeout)
  }

  lemma {:induction false} RunOf(s: System, e: Event, t: System, rest: seq<Event>)
    requires Enabled(s, e) && Next(s, e) == t && IsRun(t, rest)
    ensures IsRun(s, [e] + rest) && Run(s, [e] + rest) == Run(t, rest)
  {
    assert ([e] + rest)[1..] == rest;
  }

  /** One wait times out; its node, with the closed descriptor 5, stays at the head of the queue. */
  function Stale(): System {
    Created(0).(sem := Sem(0, [Node(0, 5)], map[]), used := {0}, queued := [Node(0, 5)])
  }

  lemma ReachStale(timeout: int, rest: seq<Event>) returns (events: seq<Event>)
    requires timeout > 0 && IsRun(Stale(), rest) && WaitsOnly(rest, timeout)
    ensures IsRun(Created(0), events) && Run(Created(0), events) == Run(Stale(), rest) && WaitsOnly(events, timeout)
  {
    var s0, e, f := Created(0), WaitCall(0, Node(0, 5), timeout, true), Resumed(0);
    var s1 := Next(s0, e);
    assert Next(s1, f) == Stale() by {
      assert s1.sem.files - {5} == map[] && s1.parked - {0} == map[];
    }
    RunOf(s1, f, Stale(), rest);
    RunOf(s0, e, s1, [f] + rest);
    events := [e] + ([f] + rest);
  }

  /** The next signal writes to a closed descriptor and ends the process. */
  lemma TimeoutKills(timeout: int) returns (events: seq<Event>)
    requires timeout > 0
    ensures IsRun(Created(0), events) && WaitsOnly(events, timeout) && Run(Created(0), events).dead
  {
    var e := SignalCall(0, true);
    RunOf(Stale(), e, Next(Stale(), e), []);
    events := ReachStale(timeout, [e] + []);
  }

  /** If another file has been given the number, the signal writes into that file. */
  lemma TimeoutStrays(timeout: int) returns (events: seq<Event>)
    requires timeout > 0
    ensures IsRun(Created(0), events) && WaitsOnly(events, timeout) && Run(Created(0), events).strayed > 0
  {
    var e, f := OtherOpens(5, true), SignalCall(0, true);
    var s := Next(Stale(), e);
    RunOf(s, f, Next(s, f), []);
    RunOf(Stale(), e, s, [f] + []);
    events := ReachStale(timeout, [e] + ([f] + []));
  }

  /** If a later wait has been given the number, it is granted twice and returns -1. */
  lemma TimeoutSpoils(timeout: int) returns (events: seq<Event>)
    requires timeout > 0
    ensures IsRun(Created(0), events) && WaitsOnly(events, timeout) && Run(Created(0), events).spoiled > 0
  {
    var e, f, g := WaitCall(1, Node(1, 5), -1, true), SignalCall(0, true), Resumed(1);
    var s := Next(Stale(), e);
    var s' := Next(s, f);
    assert s'.sem.wqueue == [Node(1, 5)] && s'.sem.files == map[5 := Eventfd(1)];
    var s'' := Next(s', f);
    assert s''.sem.files == map[5 := Eventfd(2)];
    RunOf(s'', g, Next(s'', g), []);
    RunOf(s', f, s'', [g] + []);
    RunOf(s, f, s', [f] + ([g] + []));
    RunOf(Stale(), e, s, [f] + ([f] + ([g] + [])));
    events := ReachStale(timeout, [e] + ([f] + ([f] + ([g] + []))));
  }

  /**
   Waits with a given nonzero timeout can be allowed in every run without a signal
   that ends the process, without one that writes into another file and without a
   wait that takes units and fails, each exactly when the timeout is endless.
   */
  lemma {:induction false} EndlessTimeoutIff(timeout: int)
    requires timeout != 0
    ensures timeout < 0 <==> forall value: nat, events ::
              value <= VALUE_MAX && IsRun(Created(value), events) && WaitsOnly(events, timeout) ==>
                !Run(Created(value), events).dead
    ensures timeout < 0 <==> forall value: nat, events ::
              value <= VALUE_MAX && IsRun(Created(value), events) && WaitsOnly(events, timeout) ==>
                Run(Created(value), events).strayed == 0
    ensures timeout < 0 <==> forall value: nat, events ::
              value <= VALUE_MAX && IsRun(Created(value), events) && WaitsOnly(events, timeout) ==>
                Run(Created(value), events).spoiled == 0
  {
    if timeout < 0 {
      forall value: nat, events | value <= VALUE_MAX && IsRun(Created(value), events) && WaitsOnly(events, timeout)
        ensures Kept(Run(Created(value), events))
      {
        UntimedConserves(value, events);
      }
    } else {
      var kills := TimeoutKills(timeout);
      var strays := TimeoutStrays(timeout);
      var spoils := TimeoutSpoils(timeout);
    }
  }
}

module SemaphoreHeap {
  import opened SemaphoreSpec

  /** The semaphore object, with the descriptor table of its process. */
  class Semaphore {
    var semval: int
    var wqueue: seq<Node>
    var files: map<Fd, File>

    ghost function View(): Sem
      reads this
    {
      Sem(semval, wqueue, files)
    }

    constructor (value: nat)
      requires value <= VALUE_MAX
      ensures View() == Created(value).sem
    {
      semval, wqueue, files := value, [], map[];
    }

    /** dyco_semaphore_wait up to its yield. */
    method Wait(node: Node, timeout: int, inCoroutine: bool) returns (o: Outcome)
      modifies this
      ensures (View(), o) == SemaphoreSpec.Wait(old(View()), node, timeout, inCoroutine)
    {
      if semval > 0 {
        semval := semval - 1;
        return Returned(0);
      }
      if timeout == 0 {
        return Returned(-1);
      }
      if !inCoroutine {
        return Returned(-1);
      }
      files := files[node.fd := Eventfd(0)];
      wqueue := wqueue + [node];
      return Parked;
    }

    /** dyco_semaphore_wait from its yield on. */
    method WaitEnd(fd: Fd) returns (ret: int)
      requires fd in files && files[fd].Eventfd?
      modifies this`files
      ensures (View(), ret) == SemaphoreSpec.WaitEnd(old(View()), fd)
    {
      var count := files[fd].count;
      files := files - {fd};
      return if count == 1 then 0 else -1;
    }

    /** eventfd_write: false when it fails. */
    method Write(fd: Fd) returns (ok: bool)
      modifies this`files
      ensures ok == (fd in files && files[fd] != Foreign(false))
      ensures files == if fd in old(files) && old(files)[fd].Eventfd?
                       then old(files)[fd := Eventfd(old(files)[fd].count + 1)] else old(files)
    {
      if fd !in files {
        return false;
      }
      if files[fd].Eventfd? {
        files := files[fd := Eventfd(files[fd].count + 1)];
        return true;
      }
      return files[fd].writable;
    }

    method Signal(inCoroutine: bool) returns (r: Signalled)
      modifies this
      ensures (View(), r) == SemaphoreSpec.Signal(old(View()), inCoroutine)
    {
      if semval == VALUE_MAX {
        return Failed;
      }
      if wqueue == [] {
        semval := semval + 1;
        return Counted;
      }
      if !inCoroutine {
        return Failed;
      }
      var head := wqueue[0];
      wqueue := wqueue[1..];
      var ok := Write(head.fd);
      if !ok {
        return Died;
      }
      return if files[head.fd].Eventfd? then Woke else Strayed;
    }
  }
}
