/**
 What src/dyco_schedule.c does to the sleeping index, as functions on the
 sorted sequence of (deadline, coroutine) entries.
 */
module Deadlines {
  import opened Entries

  /** The product msecs * 1000u, computed in 32 bits. */
  function Usecs(msecs: int): nat {
    (msecs * 1000) % 0x1_0000_0000
  }

  /** How many entries have a key of at least `d`. */
  function CountFrom<N>(s: seq<Entry<N>>, d: nat): nat {
    if s == [] then 0 else (if s[0].key >= d then 1 else 0) + CountFrom(s[1..], d)
  }

  lemma {:induction false} CountFromBound<N>(s: seq<Entry<N>>, d: nat)
    ensures CountFrom(s, d + 1) <= CountFrom(s, d) <= |s|
    ensures HasKey(s, d) ==> CountFrom(s, d + 1) < CountFrom(s, d)
  {
    if s != [] {
      CountFromBound(s[1..], d);
      if i :| 0 <= i < |s| && s[i].key == d {
        if i > 0 { assert s[1..][i - 1].key == d; }
      }
    }
  }

  /** The deadline reached by increasing `d` while some sleeper already has it. */
  ghost function LeastFree<N>(s: seq<Entry<N>>, d: nat): nat
    decreases CountFrom(s, d)
  {
    CountFromBound(s, d);
    if HasKey(s, d) then LeastFree(s, d + 1) else d
  }

  /** It is the least unused deadline not below `d`, after at most one bump per sleeper. */
  lemma {:induction false} LeastFreeIsLeast<N>(s: seq<Entry<N>>, d: nat)
    ensures d <= LeastFree(s, d) <= d + CountFrom(s, d) <= d + |s|
    ensures !HasKey(s, LeastFree(s, d))
    ensures forall k :: d <= k < LeastFree(s, d) ==> HasKey(s, k)
    decreases CountFrom(s, d)
  {
    CountFromBound(s, d);
    if HasKey(s, d) { LeastFreeIsLeast(s, d + 1); }
  }

  /** schedule_sched_sleep: the new entries and the coroutine's new key. */
  ghost function SchedSleep<N>(s: seq<Entry<N>>, co: N, key: nat, msecs: int, now: nat): (seq<Entry<N>>, nat) {
    var rest := WithoutKey(s, key);
    if msecs <= 0 then (rest, key)
    else
      var d := LeastFree(rest, now + Usecs(msecs));
      (InsertSorted(rest, Entry(d, co)), d)
  }

  /** The same sleepers under other names. */
  ghost function Relabel<N, M>(s: seq<Entry<N>>, f: N -> M): (r: seq<Entry<M>>)
    ensures |r| == |s| && forall i :: 0 <= i < |s| ==> r[i] == Entry(s[i].key, f(s[i].node))
  {
    if s == [] then [] else [Entry(s[0].key, f(s[0].node))] + Relabel(s[1..], f)
  }

  lemma {:induction false} RelabelWithout<N, M>(s: seq<Entry<N>>, f: N -> M, key: nat)
    ensures Relabel(WithoutKey(s, key), f) == WithoutKey(Relabel(s, f), key)
  {
    if s != [] { RelabelWithout(s[1..], f, key); }
  }

  lemma {:induction false} RelabelInsert<N, M>(s: seq<Entry<N>>, f: N -> M, e: Entry<N>)
    ensures Relabel(InsertSorted(s, e), f) == InsertSorted(Relabel(s, f), Entry(e.key, f(e.node)))
  {
    if s == [] {
      assert Relabel([e], f) == [Entry(e.key, f(e.node))];
    } else {
      RelabelInsert(s[1..], f, e);
    }
  }

  lemma {:induction false} RelabelLeastFree<N, M>(s: seq<Entry<N>>, f: N -> M, d: nat)
    ensures LeastFree(Relabel(s, f), d) == LeastFree(s, d)
    decreases CountFrom(s, d)
  {
    var r := Relabel(s, f);
    CountFromBound(s, d);
    assert forall i :: 0 <= i < |s| ==> r[i].key == s[i].key;
    if i :| 0 <= i < |s| && s[i].key == d {
      assert r[i].key == d;
      RelabelLeastFree(s, f, d + 1);
    }
  }

  /**
   Scheduling a sleep commutes with renaming the sleepers, so what it does to the
   coroutines of the tree is what the scheduler's state machine does to their ids.
   */
  lemma {:induction false} SchedSleepRelabels<N, M>(
        s: seq<Entry<N>>, f: N -> M, co: N, key: nat, msecs: int, now: nat)
    ensures var (t, k) := SchedSleep(s, co, key, msecs, now);
            SchedSleep(Relabel(s, f), f(co), key, msecs, now) == (Relabel(t, f), k)
  {
    RelabelWithout(s, f, key);
    if msecs > 0 {
      var rest := WithoutKey(s, key);
      RelabelLeastFree(rest, f, now + Usecs(msecs));
      RelabelInsert(rest, f, Entry(LeastFree(rest, now + Usecs(msecs)), co));
    }
  }

  lemma {:induction false} WithoutAbsent<N>(s: seq<Entry<N>>, k: nat)
    requires !HasKey(s, k)
    ensures WithoutKey(s, k) == s
  {
    if s != [] {
      assert s[0].key != k;
      assert forall i :: 0 <= i < |s[1..]| ==> s[1..][i].key == s[i + 1].key;
      WithoutAbsent(s[1..], k);
    }
  }

  /** Where an unused key belongs. */
  lemma PositionOf<N>(s: seq<Entry<N>>, key: nat) returns (i: nat)
    requires Sorted(s) && !HasKey(s, key)
    ensures i <= |s| && Over(s[..i], key) && Below(key, s[i..])
  {
    i := 0;
    while i < |s| && s[i].key < key
      invariant 0 <= i <= |s| && Over(s[..i], key)
    {
      i := i + 1;
    }
    assert i < |s| ==> s[i].key > key;
    forall j | 0 <= j < |s[i..]| ensures key < s[i..][j].key {
      assert j > 0 ==> s[i].key < s[i + j].key;
    }
  }

  lemma {:induction false} InsertSortedContents<N>(s: seq<Entry<N>>, e: Entry<N>)
    requires Sorted(s) && !HasKey(s, e.key)
    ensures Sorted(InsertSorted(s, e)) && |InsertSorted(s, e)| == |s| + 1
    ensures forall x :: x in InsertSorted(s, e) <==> x == e || x in s
  {
    var i := PositionOf(s, e.key);
    var a, b := s[..i], s[i..];
    assert a + b == s;
    InsertBetween(a, e, b);
    SortedBetween(a, e, b);
  }

  lemma {:induction false} WithoutKeyContents<N>(s: seq<Entry<N>>, k: nat)
    requires Sorted(s)
    ensures Sorted(WithoutKey(s, k)) && !HasKey(WithoutKey(s, k), k)
    ensures forall x :: x in WithoutKey(s, k) <==> x in s && x.key != k
    ensures |WithoutKey(s, k)| == if HasKey(s, k) then |s| - 1 else |s|
  {
    if i :| 0 <= i < |s| && s[i].key == k {
      assert s == s[..i] + [s[i]] + s[i + 1..];
      RemoveBetween(s[..i], s[i], s[i + 1..]);
    } else {
      WithoutAbsent(s, k);
    }
  }

  lemma {:induction false} InsertFree<N>(s: seq<Entry<N>>, co: N, want: nat)
    requires Sorted(s)
    ensures var d := LeastFree(s, want);
            var r := InsertSorted(s, Entry(d, co));
            Sorted(r) && |r| == |s| + 1 && forall x :: x in r <==> x == Entry(d, co) || x in s
  {
    LeastFreeIsLeast(s, want);
    InsertSortedContents(s, Entry(LeastFree(s, want), co));
  }

  /**
   Scheduling a sleep of a coroutine whose old key no sleeper holds adds exactly
   one entry, at the least unused deadline not below now + 1000 msecs, and keeps
   all deadlines distinct.
   */
  lemma SchedSleepAdds<N>(s: seq<Entry<N>>, co: N, key: nat, msecs: int, now: nat)
    requires Sorted(s) && !HasKey(s, key) && 0 < msecs
    ensures var (s', d) := SchedSleep(s, co, key, msecs, now);
            && Sorted(s') && |s'| == |s| + 1
            && (forall x :: x in s' <==> x == Entry(d, co) || x in s)
            && !HasKey(s, d) && now + Usecs(msecs) <= d <= now + Usecs(msecs) + |s|
            && (forall k :: now + Usecs(msecs) <= k < d ==> HasKey(s, k))
    ensures msecs <= 4294967 ==> Usecs(msecs) == 1000 * msecs
  {
    WithoutAbsent(s, key);
    LeastFreeIsLeast(s, now + Usecs(msecs));
    InsertFree(s, co, now + Usecs(msecs));
  }

  /**
   Whatever the argument, scheduling a sleep takes out exactly whoever has the caller's
   old key, be that the caller or another. A positive argument then adds the caller.
   */
  lemma SchedSleepExact<N>(s: seq<Entry<N>>, co: N, key: nat, msecs: int, now: nat)
    requires Sorted(s)
    ensures var (s', d) := SchedSleep(s, co, key, msecs, now);
            && Sorted(s') && (msecs <= 0 ==> d == key)
            && (forall x :: x in s' <==> (msecs > 0 && x == Entry(d, co)) || (x in s && x.key != key))
  {
    WithoutKeyContents(s, key);
    if msecs > 0 {
      var rest := WithoutKey(s, key);
      WithoutAbsent(rest, key);
      assert SchedSleep(s, co, key, msecs, now) == SchedSleep(rest, co, key, msecs, now);
      SchedSleepAdds(rest, co, key, msecs, now);
    }
  }

  lemma NoSmallMultiple(r: nat)
    requires 0 < r < 0x2000_0000
    ensures (1000 * r) % 0x1_0000_0000 != 0
  {
  }

  /** The conversion is exact just up to 4294967 ms, and zero just for multiples of 2^29. */
  lemma UsecsExact(msecs: int)
    requires 0 < msecs <= 0x7fff_ffff
    ensures Usecs(msecs) == 1000 * msecs <==> msecs <= 4294967
    ensures Usecs(msecs) == 0 <==> msecs % 0x2000_0000 == 0
  {
    var q, r := msecs / 0x2000_0000, msecs % 0x2000_0000;
    assert msecs * 1000 == 0x1_0000_0000 * (125 * q) + 1000 * r;
    assert Usecs(msecs) == (1000 * r) % 0x1_0000_0000;
    if r != 0 { NoSmallMultiple(r); }
  }

  // ------------------------------------------------------------------ expiry

  /** The clock readings with which an expiry pass over some entries goes through its turns. */
  predicate Readings<N>(entries: seq<Entry<N>>, clock: nat, readings: seq<nat>)
    decreases readings
  {
    && readings != [] && clock <= readings[0]
    && if entries != [] && entries[0].key <= readings[0] then Readings(entries[1..], readings[0], readings[1..])
       else |readings| == 1
  }

  /** At each turn but the last the earliest remaining sleeper is due. */
  lemma {:induction false} ReadingsTurns<N>(entries: seq<Entry<N>>, clock: nat, readings: seq<nat>)
    requires Readings(entries, clock, readings)
    ensures var n := |readings| - 1;
            && n <= |entries| && (forall j :: 0 <= j < n ==> entries[j].key <= readings[j])
            && (n < |entries| ==> entries[n].key > readings[n])
    decreases readings
  {
    if entries != [] && entries[0].key <= readings[0] { ReadingsTurns(entries[1..], readings[0], readings[1..]); }
  }

  lemma {:induction false} ReadingsTurn<N>(entries: seq<Entry<N>>, clock: nat, readings: seq<nat>, n: nat)
    requires Readings(entries, clock, readings) && n < |readings|
    ensures n <= |entries| && (n + 1 < |readings| <==> n < |entries| && entries[n].key <= readings[n])
  {
    ReadingsTurns(entries, clock, readings);
  }

  /** A pass takes every sleeper due at its first reading and none that is not due at its last. */
  lemma {:induction false} ReadingsExact<N>(entries: seq<Entry<N>>, clock: nat, readings: seq<nat>)
    requires Sorted(entries) && Readings(entries, clock, readings)
    ensures var n := |readings| - 1;
            && n <= |entries| && clock <= readings[0] <= readings[n]
            && (forall j :: 0 <= j < |entries| && entries[j].key <= readings[0] ==> j < n)
            && (forall j :: 0 <= j < n ==> entries[j].key <= readings[n])
            && (forall j :: n <= j < |entries| ==> entries[j].key > readings[n])
    decreases readings
  {
    if entries != [] && entries[0].key <= readings[0] {
      assert forall j :: 0 < j < |entries| ==> entries[j] == entries[1..][j - 1];
      ReadingsExact(entries[1..], readings[0], readings[1..]);
    }
  }

  // -------------------------------------------------------------------- poll

  /** schedule_min_timeout: microseconds to the earliest deadline. */
  function MinTimeout<N>(s: seq<Entry<N>>, now: nat, loopwait: nat): nat {
    if s == [] then loopwait
    else if s[0].key > now then s[0].key - now else 0
  }

  /** What schedule_epoll_wait asks for: nothing, a look without waiting, or a wait that EINTR makes it repeat. */
  datatype Poll = NoPoll | Look | Ask(timeout: int)

  /** The milliseconds it passes to epoll_wait, negative for ever. */
  function Millis(p: Poll): int {
    if p.Ask? then p.timeout else 0
  }

  /** Conversion of an unsigned 64-bit value to int. */
  function ToInt(u: nat): int {
    var w := u % 0x1_0000_0000;
    if w < 0x8000_0000 then w else w - 0x1_0000_0000
  }

  function PollFor<N>(s: seq<Entry<N>>, noneWaiting: bool, noneReady: bool, now: nat, loopwait: nat): Poll {
    if noneWaiting && s == [] then NoPoll
    else if !noneReady then Look
    else
      var timeout := MinTimeout(s, now, loopwait);
      if timeout == 0 then Look else Ask(ToInt(timeout / 1000))
  }

  /** How one call of epoll_wait ends, and when: by a signal, or with some number of events. */
  datatype Answer = Interrupted(at: nat) | Got(nready: nat, at: nat)

  /** A call made at `now` returns no earlier, and no later than its timeout. */
  predicate AnswerOk(now: nat, millis: int, a: Answer) {
    now <= a.at && (millis >= 0 ==> a.at <= now + 1000 * millis)
  }

  /** The loop: an interrupted call is repeated with the same timeout. */
  predicate AsksOk(now: nat, millis: int, answers: seq<Answer>)
    decreases answers
  {
    && answers != [] && AnswerOk(now, millis, answers[0])
    && if answers[0].Interrupted? then AsksOk(answers[0].at, millis, answers[1..]) else |answers| == 1
  }

  predicate AnswersOk(p: Poll, now: nat, answers: seq<Answer>) {
    match p
    case NoPoll => answers == []
    case Look => |answers| == 1 && AnswerOk(now, 0, answers[0])
    case Ask(millis) => AsksOk(now, millis, answers)
  }

  /** When the last call was made. */
  function LastAsk(now: nat, answers: seq<Answer>): nat {
    if |answers| < 2 then now else answers[|answers| - 2].at
  }

  /** When the poll is over. */
  function PollEnd(now: nat, answers: seq<Answer>): nat {
    if answers == [] then now else answers[|answers| - 1].at
  }

  /** What schedule_epoll_wait returns. */
  function PollResult(answers: seq<Answer>): int {
    if answers == [] then 0
    else
      var a := answers[|answers| - 1];
      if a.Got? then a.nready else -1
  }

  lemma {:induction false} AsksEnd(now: nat, millis: int, answers: seq<Answer>)
    requires AsksOk(now, millis, answers)
    ensures answers[|answers| - 1].Got?
    ensures var last := LastAsk(now, answers);
            now <= last && AnswerOk(last, millis, answers[|answers| - 1]) && (millis == 0 ==> last == now)
    decreases answers
  {
    if answers[0].Interrupted? {
      AsksEnd(answers[0].at, millis, answers[1..]);
    }
  }

  /** The microseconds that the timeout of a poll leaves out before the earliest deadline. */
  function Slack<N>(s: seq<Entry<N>>, now: nat): nat {
    if s != [] && s[0].key > now then (s[0].key - now) % 1000 else 0
  }

  /**
   With a sleeper whose remaining time is in range, each call asks for the whole
   milliseconds that remained at first. So the last one ends no later than the earliest
   deadline if and only if it was made within the part of a millisecond that these leave
   out, which is the case without an interruption; and less than a millisecond before it.
   */
  lemma {:induction false} PollWithSleeper<N>(
        s: seq<Entry<N>>, noneWaiting: bool, noneReady: bool, now: nat, loopwait: nat, answers: seq<Answer>)
    requires s != [] && s[0].key - now < 1000 * 0x8000_0000
    requires AnswersOk(PollFor(s, noneWaiting, noneReady, now, loopwait), now, answers)
    ensures var p, last := PollFor(s, noneWaiting, noneReady, now, loopwait), LastAsk(now, answers);
            && !p.NoPoll? && Millis(p) >= 0 && last <= PollEnd(now, answers) <= last + 1000 * Millis(p)
            && (!noneReady || s[0].key <= now ==> Millis(p) == 0 && last == PollEnd(now, answers) == now)
            && (s[0].key > now ==> (last + 1000 * Millis(p) <= s[0].key <==> last - now <= Slack(s, now)))
            && (noneReady ==> s[0].key < last + 1000 * (Millis(p) + 1))
  {
    var p := PollFor(s, noneWaiting, noneReady, now, loopwait);
    if p.Ask? { AsksEnd(now, p.timeout, answers); }
  }

  /** Signals that keep coming before the timeout postpone the end of a poll for as long as one likes. */
  lemma {:induction false} Postpones(now: nat, millis: int, bound: nat) returns (answers: seq<Answer>)
    requires millis > 0
    ensures AsksOk(now, millis, answers) && PollEnd(now, answers) > bound
    decreases bound - now
  {
    var end := now + 1000 * millis;
    if end > bound {
      answers := [Got(0, end)];
    } else {
      var rest := Postpones(end - 1, millis, bound);
      answers := [Interrupted(end - 1)] + rest;
      assert answers[1..] == rest;
    }
  }

  /**
   Without a sleeper the poll asks for the loop timeout in whole milliseconds exactly
   when that fits an int, and is endless exactly when its low 32 bits are negative as one.
   */
  lemma LoopwaitIff(now: nat, loopwait: nat)
    ensures var p := PollFor<int>([], false, true, now, loopwait);
            && (Millis(p) == loopwait / 1000 <==> loopwait < 1000 * 0x8000_0000)
            && (Millis(p) < 0 <==> (loopwait / 1000) % 0x1_0000_0000 >= 0x8000_0000)
  {
  }
}
