/**
 The half duplex channel of src/dyco_channel.c. Each call is cut at its one
 wait point: what runs before parking, and what runs after waking.
 */
module ChannelSpec {
  import opened Bytes

  datatype Status = NOP | EMPTY | FULL | WANTREAD | WANTWRITE | WANTCLOSE | CANCLOSE

  type Msg = seq<Byte>

  /** `r` and `w` are the counters of the two eventfds. */
  datatype Chan = Chan(maxsize: nat, msg: Msg, status: Status, r: nat, w: nat)

  /** What eventfd_write adds when the status is the notification. */
  function Value(s: Status): nat {
    match s
    case NOP => 0
    case EMPTY => 1
    case FULL => 2
    case WANTREAD => 3
    case WANTWRITE => 4
    case WANTCLOSE => 5
    case CANCLOSE => 6
  }

  /** How a segment of a call ends: parked at the wait point, or returned. */
  datatype Outcome = Parked | Returned(ret: int)

  function Accept(c: Chan, buf: Msg): Chan {
    c.(msg := buf, status := FULL)
  }

  function NotifyR(c: Chan): Chan {
    c.(r := c.r + Value(c.status))
  }

  function NotifyW(c: Chan): Chan {
    c.(w := c.w + Value(c.status))
  }

  /** dyco_channel_send up to its wait; `canWait` is false for timeout 0 or outside a coroutine. */
  function Send(c: Chan, buf: Msg, canWait: bool): (Chan, Outcome) {
    if |buf| > c.maxsize || |buf| == 0 then (c, Returned(-2))
    else match c.status
      case EMPTY => (Accept(c, buf), Returned(|buf|))
      case FULL =>
        var c' := c.(status := WANTWRITE);
        if canWait then (c', Parked) else SendAfter(c', buf)
      case WANTREAD => (NotifyR(Accept(c, buf)), Returned(|buf|))
      case WANTCLOSE => (c, Returned(-1))
      case _ => (c, Returned(-2))
  }

  /** The part of dyco_channel_send after hdc_wait. */
  function SendAfter(c: Chan, buf: Msg): (Chan, Outcome) {
    match c.status
    case EMPTY => (Accept(c, buf), Returned(|buf|))
    case FULL => (c, Returned(-2))
    case WANTREAD => (NotifyR(Accept(c, buf)), Returned(|buf|))
    case WANTWRITE => (c.(status := FULL), Returned(0))
    case WANTCLOSE => (NotifyR(c.(status := CANCLOSE)), Returned(-1))
    case _ => (c, Returned(-1))
  }

  /** A sender resumed from its wait reads its eventfd first. */
  function SendWake(c: Chan, buf: Msg): (Chan, Outcome) {
    SendAfter(c.(w := 0), buf)
  }

  /** dyco_channel_recv up to its wait, with the message a successful return copies out. */
  function Recv(c: Chan, maxsize: nat, canWait: bool): (Chan, Outcome, Msg) {
    if maxsize < c.maxsize then (c, Returned(-2), [])
    else match c.status
      case EMPTY =>
        var c' := c.(status := WANTREAD);
        if canWait then (c', Parked, []) else RecvAfter(c')
      case FULL => (c.(status := EMPTY), Returned(|c.msg|), c.msg)
      case WANTWRITE => (NotifyW(c.(status := EMPTY)), Returned(|c.msg|), c.msg)
      case WANTCLOSE => (c, Returned(-1), [])
      case _ => (c, Returned(-2), [])
  }

  function RecvAfter(c: Chan): (Chan, Outcome, Msg) {
    match c.status
    case EMPTY => (c, Returned(-2), [])
    case FULL => (c.(status := EMPTY), Returned(|c.msg|), c.msg)
    case WANTREAD => (c.(status := EMPTY), Returned(0), [])
    case WANTWRITE => (NotifyW(c.(status := EMPTY)), Returned(|c.msg|), c.msg)
    case WANTCLOSE => (NotifyW(c.(status := CANCLOSE)), Returned(-1), [])
    case _ => (c, Returned(-1), [])
  }

  function RecvWake(c: Chan): (Chan, Outcome, Msg) {
    RecvAfter(c.(r := 0))
  }

  // -------------------------------------- any number of senders and receivers

  type Pid = nat

  /** The channel, who is parked in it, and what has gone through it. */
  datatype System = System(
    chan: Chan,
    senders: map<Pid, Msg>,
    receivers: set<Pid>,
    accepted: seq<Msg>,
    received: seq<Msg>)

  datatype Event =
    | SendCall(pid: Pid, buf: Msg, canWait: bool)
    | SendResumed(pid: Pid)
    | RecvCall(pid: Pid, maxsize: nat, canWait: bool)
    | RecvResumed(pid: Pid)

  /** A parked call may go on at any time: it was notified, or its timeout passed. */
  predicate Enabled(s: System, e: Event) {
    match e
    case SendCall(p, _, _) => p !in s.senders && p !in s.receivers
    case SendResumed(p) => p in s.senders
    case RecvCall(p, _, _) => p !in s.senders && p !in s.receivers
    case RecvResumed(p) => p in s.receivers
  }

  /** A call succeeded when it returned a length. */
  predicate Succeeded(o: Outcome) {
    o.Returned? && o.ret > 0
  }

  function AfterSend(s: System, p: Pid, buf: Msg, c: Chan, o: Outcome): System {
    System(c, if o.Parked? then s.senders[p := buf] else s.senders - {p}, s.receivers,
           if Succeeded(o) then s.accepted + [buf] else s.accepted, s.received)
  }

  function AfterRecv(s: System, p: Pid, c: Chan, o: Outcome, m: Msg): System {
    System(c, s.senders, if o.Parked? then s.receivers + {p} else s.receivers - {p},
           s.accepted, if Succeeded(o) then s.received + [m] else s.received)
  }

  function Next(s: System, e: Event): System
    requires Enabled(s, e)
  {
    match e
    case SendCall(p, buf, canWait) => var (c, o) := Send(s.chan, buf, canWait); AfterSend(s, p, buf, c, o)
    case SendResumed(p) => var (c, o) := SendWake(s.chan, s.senders[p]); AfterSend(s, p, s.senders[p], c, o)
    case RecvCall(p, maxsize, canWait) => var (c, o, m) := Recv(s.chan, maxsize, canWait); AfterRecv(s, p, c, o, m)
    case RecvResumed(p) => var (c, o, m) := RecvWake(s.chan); AfterRecv(s, p, c, o, m)
  }

  function Held(c: Chan): seq<Msg> {
    if c.status.FULL? || c.status.WANTWRITE? then [c.msg] else []
  }

  /** The channel is a one-place queue between the accepted and the received messages. */
  ghost predicate Fifo(s: System) {
    && s.accepted == s.received + Held(s.chan)
    && (s.chan.status.EMPTY? || s.chan.status.FULL? || s.chan.status.WANTREAD? || s.chan.status.WANTWRITE?)
    && (Held(s.chan) != [] ==> 0 < |s.chan.msg| <= s.chan.maxsize)
    && (forall p :: p in s.senders ==> 0 < |s.senders[p]| <= s.chan.maxsize)
  }

  lemma NextFifo(s: System, e: Event)
    requires Fifo(s) && Enabled(s, e)
    ensures Fifo(Next(s, e)) && Next(s, e).chan.maxsize == s.chan.maxsize
  {
    var s' := Next(s, e);
    assert s.received + [s.chan.msg] + [] == s.received + [s.chan.msg];
    assert s.received + [] == s.received && s'.received + [] == s'.received;
  }

  ghost predicate IsRun(s: System, events: seq<Event>)
    decreases events
  {
    events == [] || (Enabled(s, events[0]) && IsRun(Next(s, events[0]), events[1..]))
  }

  ghost function Run(s: System, events: seq<Event>): System
    requires IsRun(s, events)
    decreases events
  {
    if events == [] then s else Run(Next(s, events[0]), events[1..])
  }

  function SizeFor(size: nat): nat {
    if size > 0 then size else 256
  }

  function Created(size: nat): System {
    System(Chan(SizeFor(size), [], EMPTY, 0, 0), map[], {}, [], [])
  }

  lemma {:induction false} RunFifo(s: System, events: seq<Event>)
    requires Fifo(s) && IsRun(s, events)
    ensures Fifo(Run(s, events))
    decreases events
  {
    if events != [] {
      NextFifo(s, events[0]);
      RunFifo(Next(s, events[0]), events[1..]);
    }
  }

  /**
   For any number of senders and receivers, any interleaving and any timeouts,
   the accepted messages are the received ones followed by the one held, if any.
   */
  lemma {:induction false} ChannelIsFifo(size: nat, events: seq<Event>)
    requires IsRun(Created(size), events)
    ensures var s := Run(Created(size), events);
            && s.accepted == s.received + Held(s.chan) && |Held(s.chan)| <= 1
  {
    RunFifo(Created(size), events);
  }

  // --------------------------------------------------------- what a call answers

  /** What a sender does to a channel that holds nothing: the message is taken in and its length returned. */
  ghost predicate Sends(s: System, buf: Msg, c: Chan, o: Outcome) {
    && o == Returned(|buf|) && Held(c) == [buf] && c.status.FULL? && c.w == s.chan.w
    && c.r == s.chan.r + (if s.chan.status.WANTREAD? then Value(FULL) else 0)
  }

  /**
   In every run a send whose message does not fit returns -2. Otherwise it succeeds, and
   returns the length of its message, exactly when nothing is held. While a message is
   held it parks if nobody has announced to, returns 0 if it may not park, and returns -2
   behind another that has; the held message stays.
   */
  lemma {:induction false} SendAnswers(size: nat, events: seq<Event>, buf: Msg, canWait: bool)
    requires IsRun(Created(size), events)
    ensures var s := Run(Created(size), events);
            var (c, o) := Send(s.chan, buf, canWait);
            var fits := 0 < |buf| <= SizeFor(size);
            && (!fits ==> o == Returned(-2) && c == s.chan)
            && (fits && s.accepted == s.received ==> Sends(s, buf, c, o))
            && (fits && s.accepted != s.received ==>
                  && (!o.Returned? || o.ret <= 0) && Held(c) == Held(s.chan) && c.r == s.chan.r && c.w == s.chan.w
                  && (o.Parked? <==> s.chan.status.FULL? && canWait) && (o.Parked? ==> c.status.WANTWRITE?)
                  && (o == Returned(0) <==> s.chan.status.FULL? && !canWait)
                  && (o == Returned(-2) <==> s.chan.status.WANTWRITE?) && (o.Returned? ==> c == s.chan))
  {
    RunFifo(Created(size), events);
    RunSize(Created(size), events);
    EmptyIff(Run(Created(size), events));
  }

  /** A sender that resumes succeeds, and returns the length of its message, exactly when nothing is held. */
  lemma {:induction false} SendWakeAnswers(size: nat, events: seq<Event>, p: Pid)
    requires IsRun(Created(size), events) && p in Run(Created(size), events).senders
    ensures var s := Run(Created(size), events);
            var (c, o) := SendWake(s.chan, s.senders[p]);
            && (s.accepted == s.received ==>
                  Sends(s.(chan := s.chan.(w := 0)), s.senders[p], c, o) && o.ret > 0)
            && (s.accepted != s.received ==>
                  && Held(c) == Held(s.chan) && c.status.FULL? && c.r == s.chan.r && c.w == 0
                  && o == Returned(if s.chan.status.WANTWRITE? then 0 else -2))
  {
    RunFifo(Created(size), events);
    EmptyIff(Run(Created(size), events));
  }

  /** What a receiver does to a channel that holds a message: it is handed out and its length returned. */
  ghost predicate Receives(s: System, c: Chan, o: Outcome, m: Msg) {
    && o == Returned(|m|) && |m| > 0 && s.accepted == s.received + [m] && c.status.EMPTY? && c.r == s.chan.r
    && c.w == s.chan.w + (if s.chan.status.WANTWRITE? then Value(EMPTY) else 0)
  }

  /**
   In every run a receive with too small a buffer returns -2. Otherwise it succeeds, with
   the oldest message accepted and not received and its length, exactly when one is held.
   While none is held it parks if nobody has announced to, returns 0 if it may not park,
   and returns -2 behind another that has.
   */
  lemma {:induction false} RecvAnswers(size: nat, events: seq<Event>, maxsize: nat, canWait: bool)
    requires IsRun(Created(size), events)
    ensures var s := Run(Created(size), events);
            var (c, o, m) := Recv(s.chan, maxsize, canWait);
            var fits := maxsize >= SizeFor(size);
            && (!fits ==> o == Returned(-2) && c == s.chan)
            && (fits && s.accepted != s.received ==> Receives(s, c, o, m))
            && (fits && s.accepted == s.received ==>
                  && (!o.Returned? || o.ret <= 0) && Held(c) == [] && c.r == s.chan.r && c.w == s.chan.w
                  && (o.Parked? <==> s.chan.status.EMPTY? && canWait) && (o.Parked? ==> c.status.WANTREAD?)
                  && (o == Returned(0) <==> s.chan.status.EMPTY? && !canWait)
                  && (o == Returned(-2) <==> s.chan.status.WANTREAD?) && (o.Returned? ==> c == s.chan))
  {
    RunFifo(Created(size), events);
    RunSize(Created(size), events);
    EmptyIff(Run(Created(size), events));
  }

  /** A receiver that resumes succeeds, with the oldest message, exactly when one is held. */
  lemma {:induction false} RecvWakeAnswers(size: nat, events: seq<Event>)
    requires IsRun(Created(size), events)
    ensures var s := Run(Created(size), events);
            var (c, o, m) := RecvWake(s.chan);
            && (s.accepted != s.received ==> Receives(s.(chan := s.chan.(r := 0)), c, o, m))
            && (s.accepted == s.received ==>
                  && Held(c) == [] && c.status.EMPTY? && c.w == s.chan.w && c.r == 0
                  && o == Returned(if s.chan.status.WANTREAD? then 0 else -2))
  {
    RunFifo(Created(size), events);
    EmptyIff(Run(Created(size), events));
  }

  lemma EmptyIff(s: System)
    requires Fifo(s)
    ensures s.accepted == s.received <==> Held(s.chan) == []
  {
    assert |s.accepted| == |s.received| + |Held(s.chan)|;
  }

  lemma {:induction false} RunSize(s: System, events: seq<Event>)
    requires Fifo(s) && IsRun(s, events)
    ensures Run(s, events).chan.maxsize == s.chan.maxsize
    decreases events
  {
    if events != [] {
      NextFifo(s, events[0]);
      RunSize(Next(s, events[0]), events[1..]);
    }
  }

  // --------------------------------------------------- who may use the channel

  /** Only these senders and these receivers call. */
  predicate By(e: Event, senders: set<Pid>, receivers: set<Pid>) {
    if e.SendCall? || e.SendResumed? then e.pid in senders else e.pid in receivers
  }

  ghost predicate AllBy(events: seq<Event>, senders: set<Pid>, receivers: set<Pid>) {
    forall i :: 0 <= i < |events| ==> By(events[i], senders, receivers)
  }

  /** Someone parked is either announced in the status or has a notification pending. */
  predicate Announced(s: System) {
    && (s.senders.Keys != {} ==> s.chan.status.WANTWRITE? || s.chan.w > 0)
    && (s.receivers != {} ==> s.chan.status.WANTREAD? || s.chan.r > 0)
  }

  /** One side may have several callers only if the other has none. */
  predicate OneEach(senders: set<Pid>, receivers: set<Pid>) {
    (|senders| <= 1 || receivers == {}) && (|receivers| <= 1 || senders == {})
  }

  ghost predicate NoLostWake(s: System, senders: set<Pid>, receivers: set<Pid>) {
    && s.senders.Keys <= senders && s.receivers <= receivers
    && (s.senders.Keys != {} <==> s.chan.status.WANTWRITE? || s.chan.w > 0)
    && (s.receivers != {} <==> s.chan.status.WANTREAD? || s.chan.r > 0)
    && (forall p, q :: p in s.senders && q in s.senders ==> p == q)
    && (forall p, q :: p in s.receivers && q in s.receivers ==> p == q)
    && (s.chan.status.WANTWRITE? ==> s.chan.w == 0)
    && (s.chan.status.WANTREAD? ==> s.chan.r == 0)
    && (s.chan.r > 0 ==> Held(s.chan) != [])
    && (s.chan.w > 0 ==> Held(s.chan) == [])
    && (receivers == {} ==> s.chan.w == 0) && (senders == {} ==> s.chan.r == 0)
  }

  lemma TwoIn(group: set<Pid>, p: Pid, q: Pid)
    requires p in group && q in group && p != q
    ensures |group| >= 2
  {
    assert {p, q} <= group && group == {p, q} + (group - {p, q});
  }

  /** A caller that is not parked is alone on its side, so nobody there has a notification pending. */
  lemma FreeSender(s: System, p: Pid, senders: set<Pid>, receivers: set<Pid>)
    requires NoLostWake(s, senders, receivers) && OneEach(senders, receivers) && p in senders && p !in s.senders
    ensures s.chan.w == 0
  {
    if s.chan.w > 0 {
      var q :| q in s.senders;
      TwoIn(senders, p, q);
    }
  }

  lemma FreeReceiver(s: System, p: Pid, senders: set<Pid>, receivers: set<Pid>)
    requires NoLostWake(s, senders, receivers) && OneEach(senders, receivers) && p in receivers && p !in s.receivers
    ensures s.chan.r == 0
  {
    if s.chan.r > 0 {
      var q :| q in s.receivers;
      TwoIn(receivers, p, q);
    }
  }

  lemma SendNoLostWake(s: System, e: Event, senders: set<Pid>, receivers: set<Pid>)
    requires Fifo(s) && NoLostWake(s, senders, receivers) && s.chan.w == 0
    requires Enabled(s, e) && By(e, senders, receivers) && e.SendCall?
    ensures NoLostWake(Next(s, e), senders, receivers)
  {
    var s' := Next(s, e);
    assert s'.senders == s.senders || (s.senders.Keys == {} && s'.senders == map[e.pid := e.buf]);
  }

  lemma SendWakeNoLostWake(s: System, e: Event, senders: set<Pid>, receivers: set<Pid>)
    requires Fifo(s) && NoLostWake(s, senders, receivers) && OneEach(senders, receivers)
    requires Enabled(s, e) && By(e, senders, receivers) && e.SendResumed?
    ensures NoLostWake(Next(s, e), senders, receivers)
  {
  }

  lemma RecvNoLostWake(s: System, e: Event, senders: set<Pid>, receivers: set<Pid>)
    requires Fifo(s) && NoLostWake(s, senders, receivers) && s.chan.r == 0
    requires Enabled(s, e) && By(e, senders, receivers) && e.RecvCall?
    ensures NoLostWake(Next(s, e), senders, receivers)
  {
    var s' := Next(s, e);
    assert s'.receivers == s.receivers || (s.receivers == {} && s'.receivers == {e.pid});
  }

  lemma RecvWakeNoLostWake(s: System, e: Event, senders: set<Pid>, receivers: set<Pid>)
    requires Fifo(s) && NoLostWake(s, senders, receivers) && OneEach(senders, receivers)
    requires Enabled(s, e) && By(e, senders, receivers) && e.RecvResumed?
    ensures NoLostWake(Next(s, e), senders, receivers)
  {
  }

  lemma {:induction false} RunNoLostWake(s: System, events: seq<Event>, senders: set<Pid>, receivers: set<Pid>)
    requires Fifo(s) && NoLostWake(s, senders, receivers) && OneEach(senders, receivers)
    requires IsRun(s, events) && AllBy(events, senders, receivers)
    ensures NoLostWake(Run(s, events), senders, receivers)
    decreases events
  {
    if events != [] {
      NextFifo(s, events[0]);
      match events[0] {
        case SendCall(p, _, _) =>
          FreeSender(s, p, senders, receivers);
          SendNoLostWake(s, events[0], senders, receivers);
        case SendResumed(_) => SendWakeNoLostWake(s, events[0], senders, receivers);
        case RecvCall(p, _, _) =>
          FreeReceiver(s, p, senders, receivers);
          RecvNoLostWake(s, events[0], senders, receivers);
        case RecvResumed(_) => RecvWakeNoLostWake(s, events[0], senders, receivers);
      }
      RunNoLostWake(Next(s, events[0]), events[1..], senders, receivers);
    }
  }

  /** With one caller on each side, a sender and a receiver are never both parked with nothing pending. */
  lemma {:induction false} NeverBothStuck(size: nat, events: seq<Event>, senders: set<Pid>, receivers: set<Pid>)
    requires IsRun(Created(size), events) && AllBy(events, senders, receivers) && OneEach(senders, receivers)
    ensures var s := Run(Created(size), events);
            Announced(s) && !(s.senders.Keys != {} && s.receivers != {} && s.chan.w == 0 && s.chan.r == 0)
  {
    RunNoLostWake(Created(size), events, senders, receivers);
  }

  // ----------------------------------------------------------- what can fail

  lemma {:induction false} RunOf(s: System, e: Event, t: System, rest: seq<Event>)
    requires Enabled(s, e) && Next(s, e) == t && IsRun(t, rest)
    ensures IsRun(s, [e] + rest) && Run(s, [e] + rest) == Run(t, rest)
  {
    assert ([e] + rest)[1..] == rest;
  }

  /** A sender that was notified takes back the announcement of the one that parked after it. */
  lemma SecondSenderStrands(size: nat, a: Pid, d: Pid, b: Pid) returns (events: seq<Event>)
    requires a != d && a != b
    ensures IsRun(Created(size), events) && AllBy(events, {a, d}, {b}) && !Announced(Run(Created(size), events))
  {
    var m := [1 as Byte];
    var s0 := Created(size);
    var ea, ed, er := SendCall(a, m, true), SendCall(d, m, true), SendResumed(a);
    var eb := RecvCall(b, s0.chan.maxsize, true);
    var s1 := Next(s0, ea);
    var s2 := Next(s1, ea);
    var s3 := Next(s2, eb);
    var s4 := Next(s3, ed);
    var s5 := Next(s4, ed);
    assert s5.senders == map[a := m, d := m];
    var s6 := Next(s5, er);
    assert d in s6.senders.Keys;
    RunOf(s5, er, s6, []);
    RunOf(s4, ed, s5, [er] + []);
    RunOf(s3, ed, s4, [ed] + ([er] + []));
    RunOf(s2, eb, s3, [ed] + ([ed] + ([er] + [])));
    RunOf(s1, ea, s2, [eb] + ([ed] + ([ed] + ([er] + []))));
    RunOf(s0, ea, s1, [ea] + ([eb] + ([ed] + ([ed] + ([er] + [])))));
    events := [ea] + ([ea] + ([eb] + ([ed] + ([ed] + ([er] + [])))));
  }

  /** And a notified receiver that of the receiver that parked after it. */
  lemma SecondReceiverStrands(size: nat, a: Pid, d: Pid, b: Pid) returns (events: seq<Event>)
    requires a != d && a != b
    ensures IsRun(Created(size), events) && AllBy(events, {b}, {a, d}) && !Announced(Run(Created(size), events))
  {
    var s0 := Created(size);
    var n := s0.chan.maxsize;
    var ea, ed, eb, er := RecvCall(a, n, true), RecvCall(d, n, true), SendCall(b, [1 as Byte], true), RecvResumed(a);
    var s1 := Next(s0, ea);
    var s2 := Next(s1, eb);
    var s3 := Next(s2, ed);
    var s4 := Next(s3, ed);
    assert s4.receivers == {a, d};
    var s5 := Next(s4, er);
    assert d in s5.receivers;
    RunOf(s4, er, s5, []);
    RunOf(s3, ed, s4, [er] + []);
    RunOf(s2, ed, s3, [ed] + ([er] + []));
    RunOf(s1, eb, s2, [ed] + ([ed] + ([er] + [])));
    RunOf(s0, ea, s1, [eb] + ([ed] + ([ed] + ([er] + []))));
    events := [ea] + ([eb] + ([ed] + ([ed] + ([er] + []))));
  }

  /** Of two callers, one different from a given third and another one. */
  lemma PickTwo(group: set<Pid>, b: Pid) returns (a: Pid, d: Pid)
    requires |group| >= 2
    ensures a in group && d in group && a != d && a != b
  {
    var x :| x in group;
    assert |group - {x}| >= 1;
    var y :| y in group - {x};
    if x != b { a, d := x, y; } else { a, d := y, x; }
  }

  lemma Wider(events: seq<Event>, senders: set<Pid>, receivers: set<Pid>, senders': set<Pid>, receivers': set<Pid>)
    requires AllBy(events, senders, receivers) && senders <= senders' && receivers <= receivers'
    ensures AllBy(events, senders', receivers')
  {
  }

  lemma ManyStrand(size: nat, senders: set<Pid>, receivers: set<Pid>) returns (events: seq<Event>)
    requires !OneEach(senders, receivers)
    ensures IsRun(Created(size), events) && AllBy(events, senders, receivers) && !Announced(Run(Created(size), events))
  {
    if |senders| > 1 && receivers != {} {
      var b :| b in receivers;
      var a, d := PickTwo(senders, b);
      events := SecondSenderStrands(size, a, d, b);
      Wider(events, {a, d}, {b}, senders, receivers);
    } else {
      var b :| b in senders;
      var a, d := PickTwo(receivers, b);
      events := SecondReceiverStrands(size, a, d, b);
      Wider(events, {b}, {a, d}, senders, receivers);
    }
  }

  /**
   In no run of given senders and receivers is a parked caller left unannounced,
   exactly when there is at most one sender or no receiver and at most one receiver
   or no sender.
   */
  lemma {:induction false} NoneStrandedIff(size: nat, senders: set<Pid>, receivers: set<Pid>)
    ensures OneEach(senders, receivers) <==>
            forall events :: IsRun(Created(size), events) && AllBy(events, senders, receivers) ==>
              Announced(Run(Created(size), events))
  {
    if OneEach(senders, receivers) {
      forall events | IsRun(Created(size), events) && AllBy(events, senders, receivers)
        ensures Announced(Run(Created(size), events))
      {
        NeverBothStuck(size, events, senders, receivers);
      }
    } else {
      var events := ManyStrand(size, senders, receivers);
    }
  }
}

/** The channel object, its message buffer updated in place. */
module ChannelHeap {
  import opened Bytes
  import opened ChannelSpec

  class Channel {
    const maxsize: nat
    const msg: array<Byte>
    var msglen: nat
    var status: Status
    var rNotify: nat
    var wNotify: nat

    ghost predicate Valid()
      reads this
    {
      msg.Length == maxsize && msglen <= maxsize
    }

    ghost function View(): Chan
      requires Valid()
      reads this, msg
    {
      Chan(maxsize, msg[..msglen], status, rNotify, wNotify)
    }

    constructor (size: nat)
      ensures Valid() && fresh(msg) && View() == Created(size).chan
    {
      var n := if size > 0 then size else 256;
      maxsize, msglen, status, rNotify, wNotify := n, 0, EMPTY, 0, 0;
      msg := new Byte[n];
    }

    method Put(buf: array<Byte>, size: nat)
      requires Valid() && size <= buf.Length && size <= maxsize && buf != msg
      modifies this, msg
      ensures Valid() && View() == Accept(old(View()), buf[..size]) && buf[..] == old(buf[..])
    {
      msglen := size;
      CopyBytes(msg, 0, buf, 0, size);
      status := FULL;
      assert msg[..msglen] == buf[..size];
    }

    method Take(buf: array<Byte>) returns (ret: int)
      requires Valid() && buf.Length >= maxsize && buf != msg
      modifies this`status, buf
      ensures Valid() && View() == old(View()).(status := EMPTY)
      ensures ret == |old(View()).msg| && buf[..ret] == old(View()).msg
    {
      ret := msglen;
      CopyBytes(buf, 0, msg, 0, msglen);
      status := EMPTY;
    }

    method NotifyReader()
      requires Valid()
      modifies this`rNotify
      ensures View() == NotifyR(old(View()))
    {
      rNotify := rNotify + Value(status);
    }

    method NotifyWriter()
      requires Valid()
      modifies this`wNotify
      ensures View() == NotifyW(old(View()))
    {
      wNotify := wNotify + Value(status);
    }

    method Send(buf: array<Byte>, size: nat, canWait: bool) returns (o: Outcome)
      requires Valid() && size <= buf.Length && buf != msg
      modifies this, msg
      ensures Valid() && (View(), o) == ChannelSpec.Send(old(View()), buf[..size], canWait)
    {
      if size > maxsize || size == 0 {
        return Returned(-2);
      }
      match status {
        case EMPTY =>
          Put(buf, size);
          o := Returned(size);
        case FULL =>
          status := WANTWRITE;
          if canWait {
            return Parked;
          }
          o := SendAfter(buf, size);
        case WANTREAD =>
          Put(buf, size);
          NotifyReader();
          o := Returned(size);
        case WANTCLOSE =>
          o := Returned(-1);
        case _ =>
          o := Returned(-2);
      }
    }

    method SendAfter(buf: array<Byte>, size: nat) returns (o: Outcome)
      requires Valid() && size <= buf.Length && 0 < size <= maxsize && buf != msg
      modifies this, msg
      ensures Valid() && (View(), o) == ChannelSpec.SendAfter(old(View()), buf[..size])
    {
      match status {
        case EMPTY =>
          Put(buf, size);
          o := Returned(size);
        case FULL =>
          o := Returned(-2);
        case WANTREAD =>
          Put(buf, size);
          NotifyReader();
          o := Returned(size);
        case WANTWRITE =>
          status := FULL;
          o := Returned(0);
        case WANTCLOSE =>
          status := CANCLOSE;
          NotifyReader();
          o := Returned(-1);
        case _ =>
          o := Returned(-1);
      }
    }

    method SendWake(buf: array<Byte>, size: nat) returns (o: Outcome)
      requires Valid() && size <= buf.Length && 0 < size <= maxsize && buf != msg
      modifies this, msg
      ensures Valid() && (View(), o) == ChannelSpec.SendWake(old(View()), buf[..size])
    {
      wNotify := 0;
      o := SendAfter(buf, size);
    }

    method Recv(buf: array<Byte>, canWait: bool) returns (o: Outcome)
      requires Valid() && buf != msg
      modifies this, buf
      ensures Valid()
      ensures var (c, r, m) := ChannelSpec.Recv(old(View()), buf.Length, canWait);
              View() == c && o == r && (Succeeded(o) ==> o.ret <= buf.Length && buf[..o.ret] == m)
    {
      if buf.Length < maxsize {
        return Returned(-2);
      }
      var n;
      match status {
        case EMPTY =>
          status := WANTREAD;
          if canWait {
            return Parked;
          }
          o := RecvAfter(buf);
        case FULL =>
          n := Take(buf);
          o := Returned(n);
        case WANTWRITE =>
          n := Take(buf);
          NotifyWriter();
          o := Returned(n);
        case WANTCLOSE =>
          o := Returned(-1);
        case _ =>
          o := Returned(-2);
      }
    }

    method RecvAfter(buf: array<Byte>) returns (o: Outcome)
      requires Valid() && buf != msg && buf.Length >= maxsize
      modifies this, buf
      ensures Valid()
      ensures var (c, r, m) := ChannelSpec.RecvAfter(old(View()));
              View() == c && o == r && (Succeeded(o) ==> o.ret <= buf.Length && buf[..o.ret] == m)
    {
      var n;
      match status {
        case EMPTY =>
          o := Returned(-2);
        case FULL =>
          n := Take(buf);
          o := Returned(n);
        case WANTREAD =>
          status := EMPTY;
          o := Returned(0);
        case WANTWRITE =>
          n := Take(buf);
          NotifyWriter();
          o := Returned(n);
        case WANTCLOSE =>
          status := CANCLOSE;
          NotifyWriter();
          o := Returned(-1);
        case _ =>
          o := Returned(-1);
      }
    }

    method RecvWake(buf: array<Byte>) returns (o: Outcome)
      requires Valid() && buf != msg && buf.Length >= maxsize
      modifies this, buf
      ensures Valid()
      ensures var (c, r, m) := ChannelSpec.RecvWake(old(View()));
              View() == c && o == r && (Succeeded(o) ==> o.ret <= buf.Length && buf[..o.ret] == m)
    {
      rNotify := 0;
      o := RecvAfter(buf);
    }
  }
}
