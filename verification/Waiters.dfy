/**
 Lists of parked callers, each waiting on an eventfd of its own: the dyco_sublist
 that pub/sub, waitgroup, semaphore and pool share. An eventfd is its counter; a
 write adds to it, and a non-blocking read returns and clears it or fails at zero.
 */
module Waiters {

  /** One call that parked: its list node and its eventfd. */
  type Ticket = nat

  ghost predicate Distinct(q: seq<Ticket>) {
    forall i, j :: 0 <= i < j < |q| ==> q[i] != q[j]
  }

  /** A walk along a list that writes `v` to the eventfd of every node. */
  function NotifyAll(fds: map<Ticket, nat>, subs: seq<Ticket>, v: nat): map<Ticket, nat>
    decreases subs
  {
    if subs == [] then fds
    else NotifyAll(if subs[0] in fds then fds[subs[0] := fds[subs[0]] + v] else fds, subs[1..], v)
  }

  function Unlink(subs: seq<Ticket>, t: Ticket): seq<Ticket> {
    if subs == [] then [] else if subs[0] == t then subs[1..] else [subs[0]] + Unlink(subs[1..], t)
  }

  lemma {:induction false} NotifyAllResult(fds: map<Ticket, nat>, subs: seq<Ticket>, v: nat)
    requires Distinct(subs) && (forall t :: t in subs ==> t in fds)
    ensures NotifyAll(fds, subs, v).Keys == fds.Keys
    ensures forall t :: t in fds ==> NotifyAll(fds, subs, v)[t] == fds[t] + if t in subs then v else 0
    decreases subs
  {
    if subs != [] {
      var rest := subs[1..];
      assert forall i :: 0 <= i < |rest| ==> rest[i] == subs[i + 1];
      assert subs[0] !in rest;
      assert forall t :: t in subs <==> t == subs[0] || t in rest;
      NotifyAllResult(fds[subs[0] := fds[subs[0]] + v], rest, v);
    }
  }

  lemma {:induction false} UnlinkResult(subs: seq<Ticket>, t: Ticket)
    requires Distinct(subs) && t in subs
    ensures Distinct(Unlink(subs, t)) && |Unlink(subs, t)| == |subs| - 1
    ensures forall u :: u in Unlink(subs, t) <==> u in subs && u != t
  {
    var rest := subs[1..];
    assert forall i :: 0 <= i < |rest| ==> rest[i] == subs[i + 1];
    assert subs[0] !in rest;
    assert forall u :: u in subs <==> u == subs[0] || u in rest;
    if subs[0] != t {
      UnlinkResult(rest, t);
      var r := Unlink(rest, t);
      assert Unlink(subs, t) == [subs[0]] + r;
      assert subs[0] !in r;
    }
  }

  lemma {:induction false} DistinctSize(subs: seq<Ticket>, keys: set<Ticket>)
    requires Distinct(subs) && (forall t :: t in subs <==> t in keys)
    ensures |subs| == |keys|
    decreases subs
  {
    if subs == [] {
      assert keys == {};
    } else {
      var rest := subs[1..];
      assert forall i :: 0 <= i < |rest| ==> rest[i] == subs[i + 1];
      assert subs[0] !in rest;
      assert forall t :: t in subs <==> t == subs[0] || t in rest;
      DistinctSize(rest, keys - {subs[0]});
    }
  }

  lemma {:induction false} UnlinkAt(subs: seq<Ticket>, t: Ticket, i: nat)
    requires i < |subs| && subs[i] == t && (forall j :: 0 <= j < i ==> subs[j] != t)
    ensures Unlink(subs, t) == subs[..i] + subs[i + 1..]
  {
    if i > 0 {
      UnlinkAt(subs[1..], t, i - 1);
      assert subs[..i] + subs[i + 1..] == [subs[0]] + (subs[1..][..i - 1] + subs[1..][i..]);
    }
  }

  /** The notification loop of psc_subnotify and dyco_waitgroup_done. */
  method NotifyWalk(fds0: map<Ticket, nat>, subs: seq<Ticket>, v: nat) returns (fds: map<Ticket, nat>)
    requires forall t :: t in subs ==> t in fds0
    ensures fds == NotifyAll(fds0, subs, v) && fds.Keys == fds0.Keys
  {
    fds := fds0;
    var i := 0;
    while i < |subs|
      invariant 0 <= i <= |subs| && fds.Keys == fds0.Keys
      invariant NotifyAll(fds, subs[i..], v) == NotifyAll(fds0, subs, v)
    {
      assert subs[i] in subs && subs[i..][1..] == subs[i + 1..];
      fds := fds[subs[i] := fds[subs[i]] + v];
      i := i + 1;
    }
  }

  /** The loop that finds a caller's own node and takes it out of the list. */
  method UnlinkWalk(subs: seq<Ticket>, t: Ticket) returns (r: seq<Ticket>)
    requires t in subs
    ensures r == Unlink(subs, t)
  {
    var i := 0;
    while subs[i] != t
      invariant 0 <= i < |subs| && t in subs[i..]
      invariant forall j :: 0 <= j < i ==> subs[j] != t
      decreases |subs| - i
    {
      assert subs[i..] == [subs[i]] + subs[i + 1..];
      i := i + 1;
    }
    UnlinkAt(subs, t, i);
    r := subs[..i] + subs[i + 1..];
  }
}
