/**
 The publish-subscribe channel of src/dyco_pubsub.c, called from coroutines with
 nonzero timeouts and not destroyed. Each call is cut at its wait point.
 */
module PubSubSpec {
  import opened Bytes
  import opened Waiters

  datatype Status = NOP | EMPTY | TRANS | CLOSE

  type Msg = seq<Byte>

  /** `subs` is the list from its head; `fds` the counters of the subscribers' eventfds. */
  datatype Chan = Chan(maxsize: nat, msg: Msg, subs: seq<Ticket>, fds: map<Ticket, nat>,
                       subNum: nat, ackRem: int, status: Status, pubFd: nat)

  function Value(s: Status): nat {
    match s
    case NOP => 0
    case EMPTY => 1
    case TRANS => 2
    case CLOSE => 3
  }

  function StatusOf(count: nat): Status {
    if count == 1 then EMPTY else if count == 2 then TRANS else if count == 3 then CLOSE else NOP
  }

  datatype Outcome = Parked | Returned(ret: int, copied: Msg)

  /** dyco_pubsub_publish up to its wait. */
  function Publish(c: Chan, buf: Msg): (Chan, Outcome) {
    if !c.status.EMPTY? || |buf| > c.maxsize || |buf| == 0 then (c, Returned(-2, []))
    else if c.subNum == 0 then (c, Returned(0, []))
    else (c.(msg := buf, status := TRANS, fds := NotifyAll(c.fds, c.subs, Value(TRANS)), ackRem := c.subNum), Parked)
  }

  /** The publisher resumed by its notification. */
  function PublishWake(c: Chan): (Chan, Outcome) {
    (c.(pubFd := 0, status := EMPTY), Returned(|c.msg|, []))
  }

  /** dyco_pubsub_subscribe up to its wait. */
  function Subscribe(c: Chan, t: Ticket, maxsize: nat): (Chan, Outcome) {
    if maxsize < c.maxsize then (c, Returned(-2, []))
    else if c.status.EMPTY? || c.status.TRANS? then
      (c.(subs := [t] + c.subs, fds := c.fds[t := 0], subNum := c.subNum + 1), Parked)
    else (c, Returned(-1, []))
  }

  /** The node leaves the list and its eventfd is closed. */
  function Detach(c: Chan, t: Ticket): Chan
    requires c.subNum > 0
  {
    c.(subNum := c.subNum - 1, subs := Unlink(c.subs, t), fds := c.fds - {t})
  }

  /** A subscriber resumed by its notification or its timeout. */
  function SubscribeWake(c: Chan, t: Ticket): (Chan, Outcome)
    requires t in c.fds && c.subNum > 0
  {
    var count := c.fds[t];
    var c' := Detach(c, t);
    if count == 0 then (c', Returned(-2, []))
    else
      var c'' := c'.(ackRem := c.ackRem - 1);
      if c''.ackRem == 0 || StatusOf(count).EMPTY? then
        (c''.(pubFd := c.pubFd + Value(c.status)), Returned(|c.msg|, c.msg))
      else if StatusOf(count).TRANS? then (c'', Returned(|c.msg|, c.msg))
      else if StatusOf(count).CLOSE? then (c'', Returned(-1, []))
      else (c'', Returned(-2, []))
  }

  // ------------------------------------------------------------- all callers

  datatype Copy = Copy(ticket: Ticket, bytes: Msg)

  /** One publish: what it sent, who was registered then, and who copied what. */
  datatype Publication = Publication(bytes: Msg, targets: set<Ticket>, copies: seq<Copy>)

  datatype System = System(chan: Chan, used: set<Ticket>, current: Publication, done: seq<Publication>)

  datatype Event =
    | PublishCall(buf: Msg)
    | PublishResumed
    | SubscribeCall(ticket: Ticket, maxsize: nat)
    | SubscribeResumed(ticket: Ticket)

  /** The publisher waits without a timeout; a subscriber may also be timed out. */
  ghost predicate Enabled(s: System, e: Event) {
    match e
    case PublishCall(_) => true
    case PublishResumed => s.chan.status.TRANS? && s.chan.pubFd > 0
    case SubscribeCall(t, _) => t !in s.used
    case SubscribeResumed(t) => t in s.chan.fds && s.chan.subNum > 0
  }

  ghost function Next(s: System, e: Event): System
    requires Enabled(s, e)
  {
    match e
    case PublishCall(buf) =>
      var (c, o) := Publish(s.chan, buf);
      s.(chan := c, current := if o.Parked? then Publication(buf, s.chan.fds.Keys, []) else s.current)
    case PublishResumed => s.(chan := PublishWake(s.chan).0, done := s.done + [s.current])
    case SubscribeCall(t, maxsize) => s.(chan := Subscribe(s.chan, t, maxsize).0, used := s.used + {t})
    case SubscribeResumed(t) =>
      var (c, o) := SubscribeWake(s.chan, t);
      s.(chan := c, current :=
        if o.Returned? && o.ret > 0 then s.current.(copies := s.current.copies + [Copy(t, o.copied)]) else s.current)
  }

  ghost function Pending(c: Chan): set<Ticket> {
    set t | t in c.fds && c.fds[t] > 0
  }

  ghost function Copiers(p: Publication): set<Ticket> {
    set i | 0 <= i < |p.copies| :: p.copies[i].ticket
  }

  /** Each of the listed copies is by a different target and has the published bytes. */
  ghost predicate CopiesOk(p: Publication) {
    && (forall i, j :: 0 <= i < j < |p.copies| ==> p.copies[i].ticket != p.copies[j].ticket)
    && (forall i :: 0 <= i < |p.copies| ==> p.copies[i].bytes == p.bytes)
  }

  /** Every subscriber registered at publish time copied exactly the published bytes, once. */
  ghost predicate Complete(p: Publication) {
    CopiesOk(p) && Copiers(p) == p.targets
  }

  /** sub_num counts the list, whose nodes are the parked subscribers. */
  ghost predicate Linked(c: Chan) {
    && Distinct(c.subs) && (forall t :: t in c.subs <==> t in c.fds) && c.subNum == |c.subs|
    && (forall t :: t in c.fds ==> c.fds[t] == 0 || c.fds[t] == Value(TRANS))
  }

  ghost predicate ListOk(c: Chan) {
    Linked(c) && c.ackRem == |Pending(c)|
  }

  /** During a publish: who has copied, who still will, and when the publisher is told. */
  ghost predicate Sending(c: Chan, p: Publication) {
    && 0 < |c.msg| && c.msg == p.bytes && CopiesOk(p)
    && Pending(c) <= p.targets && Copiers(p) == p.targets - Pending(c)
    && (c.pubFd > 0 <==> Pending(c) == {})
  }

  ghost predicate Inv(s: System) {
    var c := s.chan;
    && ListOk(c) && (forall t :: t in c.fds ==> t in s.used)
    && (c.status.EMPTY? || c.status.TRANS?)
    && (c.status.EMPTY? ==> Pending(c) == {} && c.pubFd == 0)
    && (c.status.TRANS? ==> Sending(c, s.current))
    && (forall i :: 0 <= i < |s.done| ==> Complete(s.done[i]))
  }

  // --------------------------------------------------- what every step keeps

  lemma SubscribeKeeps(s: System, t: Ticket, maxsize: nat)
    requires Inv(s) && t !in s.used
    ensures Inv(Next(s, SubscribeCall(t, maxsize)))
  {
    var c := s.chan;
    var c' := Subscribe(c, t, maxsize).0;
    if maxsize >= c.maxsize {
      assert Pending(c') == Pending(c);
      assert forall u :: u in c'.subs <==> u == t || u in c.subs;
    }
  }

  lemma PublishKeeps(s: System, buf: Msg)
    requires Inv(s)
    ensures Inv(Next(s, PublishCall(buf)))
  {
    var c := s.chan;
    var (c', o) := Publish(c, buf);
    if o.Parked? {
      NotifyAllResult(c.fds, c.subs, Value(TRANS));
      DistinctSize(c.subs, c.fds.Keys);
      assert forall t :: t in c.fds && c.fds[t] > 0 ==> t in Pending(c);
      assert Pending(c') == c.fds.Keys;
      assert c.subs[0] in c.fds;
      assert Copiers(Publication(buf, c.fds.Keys, [])) == {};
    }
  }

  lemma DetachOk(c: Chan, t: Ticket)
    requires Linked(c) && t in c.fds
    ensures c.subNum > 0 && Linked(Detach(c, t)) && Detach(c, t).fds.Keys == c.fds.Keys - {t}
    ensures Pending(Detach(c, t)) == Pending(c) - {t}
    ensures |Pending(Detach(c, t))| == |Pending(c)| - (if t in Pending(c) then 1 else 0)
  {
    UnlinkResult(c.subs, t);
    var c' := Detach(c, t);
    assert Pending(c') == Pending(c) - {t};
  }

  lemma SubscribeWakeChan(c: Chan, t: Ticket)
    requires ListOk(c) && t in c.fds
    ensures c.subNum > 0
    ensures var (c', o) := SubscribeWake(c, t);
            && ListOk(c') && Pending(c') == Pending(c) - {t} && c'.fds.Keys == c.fds.Keys - {t}
            && c'.msg == c.msg && c'.status == c.status && c'.maxsize == c.maxsize
            && (t !in Pending(c) ==> o == Returned(-2, []) && c'.pubFd == c.pubFd)
            && (t in Pending(c) ==> o == Returned(|c.msg|, c.msg))
            && (t in Pending(c) ==> c'.pubFd == c.pubFd + if Pending(c') == {} then Value(c.status) else 0)
  {
    DetachOk(c, t);
    var c', d := SubscribeWake(c, t).0, Detach(c, t);
    assert c'.subs == d.subs && c'.fds == d.fds && c'.subNum == d.subNum;
    assert Pending(c') == Pending(d);
    assert Linked(c');
  }

  lemma CopiersSnoc(p: Publication, t: Ticket)
    requires CopiesOk(p) && t !in Copiers(p)
    ensures var p' := p.(copies := p.copies + [Copy(t, p.bytes)]);
            CopiesOk(p') && Copiers(p') == Copiers(p) + {t}
  {
    var p' := p.(copies := p.copies + [Copy(t, p.bytes)]);
    assert forall i :: 0 <= i < |p.copies| ==> p'.copies[i] == p.copies[i] && p.copies[i].ticket in Copiers(p);
    assert p'.copies[|p.copies|].ticket == t;
    forall u | u in Copiers(p) + {t} ensures u in Copiers(p') {
      if u != t {
        var i :| 0 <= i < |p.copies| && p.copies[i].ticket == u;
        assert p'.copies[i].ticket == u;
      }
    }
  }

  /** A pending subscriber copies, and the publication counts it. */
  lemma CopyKeepsSending(s: System, t: Ticket)
    requires ListOk(s.chan) && t in Pending(s.chan) && s.chan.status.TRANS? && Sending(s.chan, s.current)
    ensures s.chan.subNum > 0
    ensures var c' := SubscribeWake(s.chan, t).0;
            Sending(c', s.current.(copies := s.current.copies + [Copy(t, s.chan.msg)]))
  {
    SubscribeWakeChan(s.chan, t);
    assert t !in Copiers(s.current);
    CopiersSnoc(s.current, t);
  }

  lemma SubscribeWakeKeeps(s: System, t: Ticket)
    requires Inv(s) && t in s.chan.fds
    ensures Enabled(s, SubscribeResumed(t)) && Inv(Next(s, SubscribeResumed(t)))
  {
    var c := s.chan;
    SubscribeWakeChan(c, t);
    if t in Pending(c) {
      CopyKeepsSending(s, t);
    } else {
      assert Pending(c) - {t} == Pending(c);
    }
  }

  lemma NextKeeps(s: System, e: Event)
    requires Inv(s) && Enabled(s, e)
    ensures Inv(Next(s, e))
  {
    match e {
      case PublishCall(buf) => PublishKeeps(s, buf);
      case PublishResumed =>
      case SubscribeCall(t, maxsize) => SubscribeKeeps(s, t, maxsize);
      case SubscribeResumed(t) => SubscribeWakeKeeps(s, t);
    }
  }

  ghost predicate IsRun(s: System, events: seq<Event>)
    decreases events
  {
    events == [] || (Enabled(s, events[0]) && IsRun(Next(s, events[0]), events[1..]))
  }

  ghost function Run(s: System, events: seq<Event>): System
    requires IsRun(s, events)
    decreases events
  {
    if events == [] then s else Run(Next(s, events[0]), events[1..])
  }

  lemma {:induction false} RunKeeps(s: System, events: seq<Event>)
    requires Inv(s) && IsRun(s, events)
    ensures Inv(Run(s, events))
    decreases events
  {
    if events != [] {
      NextKeeps(s, events[0]);
      RunKeeps(Next(s, events[0]), events[1..]);
    }
  }

  function SizeFor(size: nat): nat {
    if size > 0 then size else 256
  }

  function Created(size: nat): System {
    System(Chan(SizeFor(size), [], [], map[], 0, 0, EMPTY, 0), {}, Publication([], {}, []), [])
  }

  /**
   Exactly-once barrier, in every run: each publish that returned had every
   subscriber registered at its start copy its bytes exactly once before, ack_rem
   counts the pending notifications and sub_num the listed nodes.
   */
  lemma {:induction false} ExactlyOnce(size: nat, events: seq<Event>)
    requires IsRun(Created(size), events)
    ensures var s := Run(Created(size), events);
            && (forall i :: 0 <= i < |s.done| ==> Complete(s.done[i]))
            && s.chan.ackRem == |Pending(s.chan)| && s.chan.subNum == |s.chan.subs|
  {
    RunKeeps(Created(size), events);
  }

  /** The publisher can only go on once the last registered subscriber has copied. */
  lemma {:induction false} PublishReturnsLast(size: nat, events: seq<Event>)
    requires IsRun(Created(size), events) && Enabled(Run(Created(size), events), PublishResumed)
    ensures Complete(Run(Created(size), events).current)
  {
    RunKeeps(Created(size), events);
  }

  /** While a publish waits, some registered subscriber still has to copy or it is notified. */
  lemma {:induction false} PublisherNotForgotten(size: nat, events: seq<Event>)
    requires IsRun(Created(size), events) && Run(Created(size), events).chan.status.TRANS?
    ensures var s := Run(Created(size), events);
            s.chan.pubFd > 0 || exists t :: t in s.current.targets && t in Pending(s.chan)
  {
    RunKeeps(Created(size), events);
    var s := Run(Created(size), events);
    if s.chan.pubFd == 0 {
      var t :| t in Pending(s.chan);
    }
  }

  // --------------------------------------------------------- what a call answers

  /** A registered subscriber is pending exactly if it was registered when the publish began. */
  ghost predicate TargetsOk(s: System) {
    && s.current.targets <= s.used
    && (s.chan.status.TRANS? ==> forall t :: t in s.chan.fds && t in s.current.targets ==> t in Pending(s.chan))
  }

  lemma PublishTargets(s: System, buf: Msg)
    requires Inv(s)
    ensures var (c, o) := Publish(s.chan, buf);
            o.Parked? ==> Pending(c) == c.fds.Keys == s.chan.fds.Keys && c.status.TRANS? && c.msg == buf
  {
    var c := s.chan;
    if Publish(c, buf).1.Parked? {
      NotifyAllResult(c.fds, c.subs, Value(TRANS));
      assert Pending(Publish(c, buf).0) == c.fds.Keys;
    }
  }

  lemma NextTargets(s: System, e: Event)
    requires Inv(s) && TargetsOk(s) && Enabled(s, e)
    ensures TargetsOk(Next(s, e)) && Next(s, e).chan.maxsize == s.chan.maxsize
  {
    match e {
      case PublishCall(buf) => PublishTargets(s, buf);
      case PublishResumed =>
      case SubscribeCall(t, maxsize) => SubscribeTargets(s, t, maxsize);
      case SubscribeResumed(t) => WakeTargets(s, t);
    }
  }

  lemma SubscribeTargets(s: System, t: Ticket, maxsize: nat)
    requires TargetsOk(s) && t !in s.used
    ensures TargetsOk(Next(s, SubscribeCall(t, maxsize)))
    ensures Next(s, SubscribeCall(t, maxsize)).chan.maxsize == s.chan.maxsize
  {
  }

  lemma WakeTargets(s: System, t: Ticket)
    requires ListOk(s.chan) && TargetsOk(s) && Enabled(s, SubscribeResumed(t))
    ensures TargetsOk(Next(s, SubscribeResumed(t)))
    ensures Next(s, SubscribeResumed(t)).chan.maxsize == s.chan.maxsize
  {
    SubscribeWakeChan(s.chan, t);
    LeaveTargets(s, t, Next(s, SubscribeResumed(t)));
  }

  lemma LeaveTargets(s: System, t: Ticket, r: System)
    requires TargetsOk(s) && r.current.targets == s.current.targets && r.used == s.used
    requires r.chan.status == s.chan.status && r.chan.fds.Keys == s.chan.fds.Keys - {t}
    requires Pending(r.chan) == Pending(s.chan) - {t}
    ensures TargetsOk(r)
  {
  }

  lemma {:induction false} RunTargets(s: System, events: seq<Event>)
    requires Inv(s) && TargetsOk(s) && IsRun(s, events)
    ensures var r := Run(s, events); Inv(r) && TargetsOk(r) && r.chan.maxsize == s.chan.maxsize
    decreases events
  {
    if events != [] {
      NextKeeps(s, events[0]);
      NextTargets(s, events[0]);
      RunTargets(Next(s, events[0]), events[1..]);
    }
  }

  /**
   In every run a publish is accepted, and parks, exactly when none is under way, the
   message fits and somebody is registered; then everyone registered has a notification
   pending. Otherwise nothing changes, and it returns 0 exactly when it was only that
   nobody is registered, and -2 in all other cases.
   */
  lemma {:induction false} PublishAnswers(size: nat, events: seq<Event>, buf: Msg)
    requires IsRun(Created(size), events)
    ensures var s := Run(Created(size), events);
            var (c, o) := Publish(s.chan, buf);
            var admissible := s.chan.status.EMPTY? && 0 < |buf| <= SizeFor(size);
            && (o.Parked? <==> admissible && s.chan.fds.Keys != {})
            && (o.Parked? ==> Pending(c) == c.fds.Keys == s.chan.fds.Keys && c.status.TRANS? && c.msg == buf)
            && (!o.Parked? ==> c == s.chan && o == Returned(if admissible then 0 else -2, []))
  {
    RunTargets(Created(size), events);
    var s := Run(Created(size), events);
    PublishTargets(s, buf);
    assert s.chan.subNum == 0 <==> s.chan.fds.Keys == {} by { DistinctSize(s.chan.subs, s.chan.fds.Keys); }
  }

  /** During a publish, and until it resumes, its bytes are what subscribers copy. */
  lemma {:induction false} BytesStay(s: System, events: seq<Event>)
    requires Inv(s) && s.chan.status.TRANS? && IsRun(s, events) && PublishResumed !in events
    ensures var r := Run(s, events); Inv(r) && r.chan.status.TRANS? && r.current.bytes == s.current.bytes
    decreases events
  {
    if events != [] {
      assert events[0] in events;
      NextKeeps(s, events[0]);
      if events[0].SubscribeResumed? { SubscribeWakeChan(s.chan, events[0].ticket); }
      BytesStay(Next(s, events[0]), events[1..]);
    }
  }

  /**
   An accepted publish, whatever happens until it resumes, stays under way for all others
   and then returns the length of its message and leaves the channel free.
   */
  lemma {:induction false} PublishReturns(size: nat, events: seq<Event>, buf: Msg, between: seq<Event>)
    requires IsRun(Created(size), events) && Publish(Run(Created(size), events).chan, buf).1.Parked?
    requires IsRun(Next(Run(Created(size), events), PublishCall(buf)), between) && PublishResumed !in between
    ensures var s := Run(Next(Run(Created(size), events), PublishCall(buf)), between);
            var (c, o) := PublishWake(s.chan);
            && s.chan.status.TRANS? && s.current.bytes == buf
            && o == Returned(|buf|, []) && c.status.EMPTY? && c.fds == s.chan.fds
  {
    RunKeeps(Created(size), events);
    var s := Run(Created(size), events);
    NextKeeps(s, PublishCall(buf));
    BytesStay(Next(s, PublishCall(buf)), between);
  }

  /**
   In every run a subscribe with a large enough buffer is registered and parks, and any
   other returns -2. On resuming it returns the message of the publish under way if it was
   registered when that began, and -2 otherwise.
   */
  lemma {:induction false} SubscribeAnswers(size: nat, events: seq<Event>, t: Ticket, maxsize: nat)
    requires IsRun(Created(size), events)
    ensures var s := Run(Created(size), events);
            var (c, o) := Subscribe(s.chan, t, maxsize);
            && (maxsize >= SizeFor(size) ==> o.Parked? && c.fds == s.chan.fds[t := 0] && c.status == s.chan.status)
            && (maxsize < SizeFor(size) ==> o == Returned(-2, []) && c == s.chan)
            && (t in s.chan.fds ==>
                  var told := s.chan.status.TRANS? && t in s.current.targets;
                  && s.chan.subNum > 0
                  && SubscribeWake(s.chan, t).1 ==
                     if told then Returned(|s.current.bytes|, s.current.bytes) else Returned(-2, []))
  {
    RunTargets(Created(size), events);
    var s := Run(Created(size), events);
    if t in s.chan.fds { SubscribeWakeChan(s.chan, t); }
  }
}

/** The channel object: its buffer, its list and its counters updated in place. */
module PubSubHeap {
  import opened Bytes
  import opened Waiters
  import opened PubSubSpec

  class Channel {
    const maxsize: nat
    const msg: array<Byte>
    var msglen: nat
    var subs: seq<Ticket>
    var fds: map<Ticket, nat>
    var subNum: nat
    var ackRem: int
    var status: Status
    var pubFd: nat

    ghost predicate Valid()
      reads this
    {
      msg.Length == maxsize && msglen <= maxsize && (forall t :: t in subs <==> t in fds) && subNum == |subs|
    }

    ghost function View(): Chan
      requires Valid()
      reads this, msg
    {
      Chan(maxsize, msg[..msglen], subs, fds, subNum, ackRem, status, pubFd)
    }

    constructor (size: nat)
      ensures Valid() && fresh(msg) && View() == Created(size).chan
    {
      var n := if size > 0 then size else 256;
      maxsize, msglen, status := n, 0, EMPTY;
      subs, fds, subNum, ackRem, pubFd := [], map[], 0, 0, 0;
      msg := new Byte[n];
    }

    /** psc_subnotify. */
    method NotifySubscribers()
      requires Valid()
      modifies this`fds, this`ackRem
      ensures fds == NotifyAll(old(fds), subs, Value(status)) && fds.Keys == old(fds.Keys)
      ensures ackRem == subNum
    {
      fds := NotifyWalk(fds, subs, Value(status));
      ackRem := subNum;
    }

    method Publish(buf: array<Byte>, size: nat) returns (o: Outcome)
      requires Valid() && size <= buf.Length && buf != msg
      modifies this, msg
      ensures Valid() && (View(), o) == PubSubSpec.Publish(old(View()), buf[..size])
    {
      if !status.EMPTY? || size > maxsize || size == 0 {
        return Returned(-2, []);
      }
      if subNum == 0 {
        return Returned(0, []);
      }
      msglen := size;
      CopyBytes(msg, 0, buf, 0, size);
      assert msg[..msglen] == buf[..size];
      status := TRANS;
      NotifySubscribers();
      return Parked;
    }

    method PublishWake() returns (o: Outcome)
      requires Valid()
      modifies this`pubFd, this`status
      ensures Valid() && (View(), o) == PubSubSpec.PublishWake(old(View()))
    {
      pubFd := 0;
      status := EMPTY;
      return Returned(msglen, []);
    }

    method Subscribe(t: Ticket, size: nat) returns (o: Outcome)
      requires Valid()
      modifies this`subs, this`fds, this`subNum
      ensures Valid() && (View(), o) == PubSubSpec.Subscribe(old(View()), t, size)
    {
      if size < maxsize {
        return Returned(-2, []);
      }
      match status {
        case EMPTY =>
        case TRANS =>
        case _ => return Returned(-1, []);
      }
      subs, fds, subNum := [t] + subs, fds[t := 0], subNum + 1;
      return Parked;
    }

    method Leave(t: Ticket)
      requires Valid() && Distinct(subs) && t in fds
      modifies this`subs, this`fds, this`subNum
      ensures Valid() && old(View().subNum) > 0 && View() == Detach(old(View()), t)
    {
      UnlinkResult(subs, t);
      subNum := subNum - 1;
      subs := UnlinkWalk(subs, t);
      fds := fds - {t};
    }

    method CopyOut(buf: array<Byte>) returns (o: Outcome)
      requires Valid() && buf.Length >= maxsize && buf != msg
      modifies buf
      ensures o == Returned(msglen, msg[..msglen]) && buf[..o.ret] == o.copied && View() == old(View())
    {
      CopyBytes(buf, 0, msg, 0, msglen);
      o := Returned(msglen, msg[..msglen]);
    }

    method SubscribeWake(t: Ticket, buf: array<Byte>) returns (o: Outcome)
      requires Valid() && Distinct(subs) && t in fds && buf.Length >= maxsize && buf != msg
      modifies this, buf
      ensures Valid() && old(View().subNum) > 0
      ensures (View(), o) == PubSubSpec.SubscribeWake(old(View()), t)
      ensures o.Returned? && o.ret > 0 ==> o.ret <= buf.Length && buf[..o.ret] == o.copied
    {
      var count := fds[t];
      Leave(t);
      if count == 0 {
        return Returned(-2, []);
      }
      ackRem := ackRem - 1;
      var st := if ackRem == 0 then EMPTY else StatusOf(count);
      match st {
        case EMPTY =>
          o := CopyOut(buf);
          pubFd := pubFd + Value(status);
        case TRANS =>
          o := CopyOut(buf);
        case CLOSE =>
          o := Returned(-1, []);
        case NOP =>
          o := Returned(-2, []);
      }
    }
  }
}
