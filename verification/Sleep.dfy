/**
 schedule_sched_sleep, schedule_cancel_sleep, schedule_get_expired and
 schedule_min_timeout of src/dyco_schedule.c, on the heap tree.
 */
module Sleep {
  import opened Entries
  import opened Deadlines
  import opened RbTree
  import opened RbHeap

  /** A coroutine is in the index exactly when its own key and itself are an entry. */
  lemma Membership(index: SleepTree)
    requires index.Valid()
    ensures forall n :: n in index.repr <==> Entry(n.sleepUsecs, n) in index.Elems()
    ensures forall e :: e in index.Elems() ==> e.node in index.repr && e.node.sleepUsecs == e.key
  {
    RepEntries(index.tree, null);
  }

  /** RB_EMPTY. */
  lemma EmptyIff(index: SleepTree)
    requires index.Valid()
    ensures index.root == null <==> index.Elems() == []
  {
  }

  /** The first half of schedule_sched_sleep: whichever sleeper has the key goes. */
  method RemoveByKey(index: SleepTree, key: nat)
    requires index.Valid()
    modifies index, index.repr`left, index.repr`right, index.repr`parent, index.repr`color
    ensures index.Valid() && index.repr <= old(index.repr)
    ensures index.Elems() == WithoutKey(old(index.Elems()), key)
  {
    Membership(index);
    var tmp := index.Find(key);
    if tmp != null {
      index.Remove(tmp);
    } else {
      WithoutAbsent(index.Elems(), key);
    }
  }

  method TryInsert(index: SleepTree, co: Coroutine, key: nat) returns (tmp: Coroutine?)
    requires index.Valid() && co !in index.repr
    modifies index, index.repr`left, index.repr`right, index.repr`parent, index.repr`color
    modifies co`left, co`right, co`parent, co`color, co`sleepUsecs
    ensures index.Valid() && co.sleepUsecs == key && (tmp != null <==> HasKey(old(index.Elems()), key))
    ensures tmp != null ==> index.Elems() == old(index.Elems()) && index.repr == old(index.repr)
    ensures tmp == null ==>
              && index.Elems() == InsertSorted(old(index.Elems()), Entry(key, co))
              && index.repr == old(index.repr) + {co}
  {
    co.sleepUsecs := key;
    assert index.Valid();
    tmp := index.Insert(co);
  }

  /** The insertion loop: the deadline grows by one while another sleeper has it. */
  method Bump(index: SleepTree, co: Coroutine, want: nat)
    requires index.Valid() && co !in index.repr
    modifies index, index.repr`left, index.repr`right, index.repr`parent, index.repr`color
    modifies co`left, co`right, co`parent, co`color, co`sleepUsecs
    ensures index.Valid() && index.repr == old(index.repr) + {co}
    ensures co.sleepUsecs == LeastFree(old(index.Elems()), want)
    ensures index.Elems() == InsertSorted(old(index.Elems()), Entry(co.sleepUsecs, co))
  {
    ghost var s := index.Elems();
    var key := want;
    var placed := false;
    while !placed
      invariant index.Valid() && LeastFree(s, key) == LeastFree(s, want)
      invariant !placed ==> index.Elems() == s && index.repr == old(index.repr)
      invariant placed ==>
                  && !HasKey(s, key) && co.sleepUsecs == key && index.repr == old(index.repr) + {co}
                  && index.Elems() == InsertSorted(s, Entry(key, co))
      decreases !placed, CountFrom(s, key)
    {
      var tmp := TryInsert(index, co, key);
      if tmp == null {
        placed := true;
      } else {
        CountFromBound(s, key);
        key := key + 1;
      }
    }
  }

  /** schedule_sched_sleep. */
  method SchedSleep(index: SleepTree, co: Coroutine, msecs: int, now: nat)
    requires index.Valid()
    modifies index, index.repr`left, index.repr`right, index.repr`parent, index.repr`color
    modifies co`left, co`right, co`parent, co`color, co`sleepUsecs, co`sleeping, co`expired
    ensures index.Valid()
    ensures (index.Elems(), co.sleepUsecs) ==
            Deadlines.SchedSleep(old(index.Elems()), co, old(co.sleepUsecs), msecs, now)
    ensures co.sleeping == (msecs > 0 || old(co.sleeping)) && co.expired == (msecs <= 0 && old(co.expired))
  {
    RemoveByKey(index, co.sleepUsecs);
    if msecs > 0 {
      assert co !in index.repr by {
        WithoutKeyContents(old(index.Elems()), co.sleepUsecs);
        Membership(index);
      }
      co.sleeping, co.expired := true, false;
      assert index.Valid();
      Bump(index, co, now + Usecs(msecs));
    }
  }

  /** schedule_cancel_sleep. */
  method CancelSleep(index: SleepTree, co: Coroutine)
    requires index.Valid() && (co.sleeping ==> co in index.repr)
    modifies index, index.repr`left, index.repr`right, index.repr`parent, index.repr`color, co`sleeping
    ensures index.Valid() && !co.sleeping
    ensures index.repr == if old(co.sleeping) then old(index.repr) - {co} else old(index.repr)
    ensures index.Elems() ==
            if old(co.sleeping) then WithoutKey(old(index.Elems()), co.sleepUsecs) else old(index.Elems())
  {
    if co.sleeping {
      index.Remove(co);
      co.sleeping := false;
    }
  }

  /** schedule_get_expired: takes the earliest sleeper out if its deadline has come. */
  method GetExpired(index: SleepTree, now: nat) returns (co: Coroutine?)
    requires index.Valid()
    modifies index, index.repr`left, index.repr`right, index.repr`parent, index.repr`color
    modifies index.repr`sleeping, index.repr`expired
    ensures index.Valid() && index.repr <= old(index.repr)
    ensures co == null ==> index.Elems() == old(index.Elems()) && Below(now, index.Elems())
    ensures co != null ==>
              && old(index.Elems()) == [Entry(co.sleepUsecs, co)] + index.Elems()
              && co.sleepUsecs <= now && !co.sleeping && co.expired
  {
    co := index.MinMax(-1);
    if co == null {
      return;
    }
    if co.sleepUsecs <= now {
      index.Remove(co);
      co.sleeping, co.expired := false, true;
    } else {
      co := null;
    }
  }

  /** schedule_min_timeout. */
  method MinTimeout(index: SleepTree, now: nat, loopwait: nat) returns (usecs: nat)
    requires index.Valid()
    ensures usecs == Deadlines.MinTimeout(index.Elems(), now, loopwait)
  {
    var co := index.MinMax(-1);
    if co == null {
      return loopwait;
    }
    return if co.sleepUsecs > now then co.sleepUsecs - now else 0;
  }

  /** schedule_epoll_wait, where `answers` is how its calls of epoll_wait end. */
  method EpollWait(index: SleepTree, noneWaiting: bool, noneReady: bool, now: nat, loopwait: nat, answers: seq<Answer>)
    returns (nready: int)
    requires index.Valid() && AnswersOk(PollFor(index.Elems(), noneWaiting, noneReady, now, loopwait), now, answers)
    ensures nready == PollResult(answers)
  {
    EmptyIff(index);
    if noneWaiting && index.root == null {
      return 0;
    }
    if !noneReady {
      return if answers[0].Got? then answers[0].nready else -1;
    }
    var timeout := MinTimeout(index, now, loopwait);
    if timeout == 0 {
      return if answers[0].Got? then answers[0].nready else -1;
    }
    var i := 0;
    ghost var start := now;
    while answers[i].Interrupted?
      invariant 0 <= i < |answers| && AsksOk(start, ToInt(timeout / 1000), answers[i..])
      decreases |answers| - i
    {
      assert answers[i..][0] == answers[i] && answers[i..][1..] == answers[i + 1..];
      start, i := answers[i].at, i + 1;
    }
    return answers[i].nready;
  }

  /** One turn of that loop, after `n` sleepers were taken. */
  method ExpireNext(index: SleepTree, ghost s: seq<Entry<Coroutine>>, ghost n: nat, now: nat) returns (co: Coroutine?)
    requires index.Valid() && n <= |s| && index.Elems() == s[n..]
    modifies index, index.repr`left, index.repr`right, index.repr`parent, index.repr`color
    modifies index.repr`sleeping, index.repr`expired
    ensures index.Valid() && index.repr <= old(index.repr)
    ensures co != null <==> n < |s| && s[n].key <= now
    ensures co == null ==> index.Elems() == s[n..]
    ensures co != null ==> s[n].node == co && index.Elems() == s[n + 1..]
  {
    co := GetExpired(index, now);
    assert n < |s| ==> s[n..][0] == s[n] && s[n..][1..] == s[n + 1..];
  }

  ghost predicate Taken(due: seq<Coroutine>, s: seq<Entry<Coroutine>>) {
    |due| <= |s| && forall i :: 0 <= i < |due| ==> due[i] == s[i].node
  }

  /** The loop on schedule_get_expired: takes sleepers out, reading the clock before each, until none is due. */
  method ExpirePass(index: SleepTree, ghost clock: nat, readings: seq<nat>) returns (due: seq<Coroutine>)
    requires index.Valid() && Readings(index.Elems(), clock, readings)
    modifies index, index.repr`left, index.repr`right, index.repr`parent, index.repr`color
    modifies index.repr`sleeping, index.repr`expired
    ensures index.Valid() && |due| == |readings| - 1 && Taken(due, old(index.Elems()))
    ensures index.Elems() == old(index.Elems())[|due|..]
  {
    ghost var s := index.Elems();
    due := [];
    var going := true;
    while going
      invariant index.Valid() && index.repr <= old(index.repr)
      invariant Taken(due, s) && |due| < |readings| && index.Elems() == s[|due|..]
      invariant !going ==> |due| + 1 == |readings|
      decreases |s| - |due|, going
    {
      ReadingsTurn(s, clock, readings, |due|);
      var co := ExpireNext(index, s, |due|, readings[|due|]);
      going := co != null;
      if going {
        due := due + [co];
      }
    }
  }
}
