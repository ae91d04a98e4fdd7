/**
 savestk, loadstk, yield and resume of src/dyco_coroutine.c: many coroutines
 run on one buffer whose live part is copied out on yield and back on resume.
 Stacks grow downwards, so the live part is a suffix of the buffer.
 */
module StackSpec {
  import opened Bytes

  type Cid = nat

  /**
   A coroutine's stack fields. `buf` is the memory that co->stack points to, so
   its length is the capacity of that allocation; `sp` is the depth its saved
   context has reached.
   */
  datatype Coro = Coro(isNew: bool, own: bool, buf: seq<Byte>, stackSize: nat, sp: nat)

  datatype Running = Nobody | Runs(cid: Cid, depth: nat)

  datatype Machine = Machine(shared: seq<Byte>, coros: map<Cid, Coro>, running: Running)

  function Suffix(s: seq<Byte>, n: nat): seq<Byte>
    requires n <= |s|
  {
    s[|s| - n..]
  }

  /** savestk: the buffer is reallocated only when the recorded size is too small. */
  function SaveStk(co: Coro, shared: seq<Byte>, depth: nat): Coro
    requires depth <= |shared| && co.stackSize <= |co.buf|
  {
    if co.own then co
    else
      var rest := if co.stackSize < depth then [] else co.buf[depth..];
      co.(buf := Suffix(shared, depth) + rest, stackSize := depth)
  }

  /** loadstk. */
  function LoadStk(co: Coro, shared: seq<Byte>): seq<Byte>
    requires co.stackSize <= |co.buf| && (!co.own ==> co.stackSize <= |shared|)
  {
    if co.own then shared else shared[..|shared| - co.stackSize] + co.buf[..co.stackSize]
  }

  /**
   One step: a coroutine is created (on the shared stack or with its own), is
   resumed, computes (leaving any bytes anywhere on the stack it runs on, at
   any depth), yields or asks the scheduler to stop, or exits, to be freed or
   to go back to its pool and start afresh.
   */
  datatype Step =
    | Create(cid: Cid, ownStack: seq<Byte>)
    | Resume(cid: Cid)
    | Work(bytes: seq<Byte>, depth: nat)
    | Yield
    | Exit(pooled: bool)

  ghost predicate Enabled(m: Machine, s: Step) {
    match s
    case Create(c, _) => c !in m.coros
    case Resume(c) => m.running.Nobody? && c in m.coros
    case Work(bytes, depth) =>
      && m.running.Runs? && m.running.cid in m.coros
      && |bytes| == |StackOf(m, m.running.cid)| && depth <= |bytes|
    case Yield => m.running.Runs? && m.running.cid in m.coros
    case Exit(_) => m.running.Runs? && m.running.cid in m.coros
  }

  /** The memory a coroutine runs on. */
  function StackOf(m: Machine, c: Cid): seq<Byte>
    requires c in m.coros
  {
    if m.coros[c].own then m.coros[c].buf else m.shared
  }

  ghost predicate CoroOk(co: Coro, size: nat) {
    && co.stackSize <= |co.buf|
    && (co.own ==> co.sp <= |co.buf|)
    && (!co.own ==> co.stackSize <= size)
    && (co.isNew ==> co.sp == 0)
  }

  /** Every save buffer holds its recorded size, and no depth exceeds its stack. */
  ghost predicate Inv(m: Machine) {
    && (forall c :: c in m.coros ==> CoroOk(m.coros[c], |m.shared|))
    && (forall c :: c in m.coros && !m.coros[c].own && !m.coros[c].isNew && !(m.running.Runs? && m.running.cid == c) ==>
          m.coros[c].sp == m.coros[c].stackSize)
    && (m.running.Runs? ==>
          m.running.cid in m.coros && m.running.depth <= |StackOf(m, m.running.cid)| && !m.coros[m.running.cid].isNew)
  }

  function Next(m: Machine, s: Step): Machine
    requires Inv(m) && Enabled(m, s)
  {
    match s
    case Create(c, st) =>
      m.(coros := m.coros[c := Coro(true, st != [], st, |st|, 0)])
    case Resume(c) =>
      var co := m.coros[c];
      var shared := if co.isNew then m.shared else LoadStk(co, m.shared);
      Machine(shared, m.coros[c := co.(isNew := false)], Runs(c, co.sp))
    case Work(bytes, depth) =>
      var c := m.running.cid;
      if m.coros[c].own
      then Machine(m.shared, m.coros[c := m.coros[c].(buf := bytes)], Runs(c, depth))
      else Machine(bytes, m.coros, Runs(c, depth))
    case Yield =>
      var c, d := m.running.cid, m.running.depth;
      Machine(m.shared, m.coros[c := SaveStk(m.coros[c], m.shared, if m.coros[c].own then 0 else d).(sp := d)], Nobody)
    case Exit(pooled) =>
      var c := m.running.cid;
      Machine(m.shared, if pooled then m.coros[c := m.coros[c].(isNew := true, sp := 0)] else m.coros - {c}, Nobody)
  }

  lemma NextKeepsInv(m: Machine, s: Step)
    requires Inv(m) && Enabled(m, s)
    ensures Inv(Next(m, s)) && |Next(m, s).shared| == |m.shared|
  {
  }

  // -------------------------------------------------- private stacks, abstractly

  /** Every coroutine has a stack of its own; nothing is copied. */
  datatype Private = Private(stacks: map<Cid, seq<Byte>>, running: set<Cid>)

  ghost predicate PEnabled(a: Private, s: Step) {
    match s
    case Create(c, _) => c !in a.stacks
    case Resume(c) => a.running == {} && c in a.stacks
    case Work(bytes, depth) => depth <= |bytes| && exists c :: c in a.stacks && a.running == {c}
    case Yield => exists c :: c in a.stacks && a.running == {c}
    case Exit(_) => exists c :: c in a.stacks && a.running == {c}
  }

  ghost function TheRunner(a: Private): Cid
    requires exists c :: c in a.stacks && a.running == {c}
  {
    var c :| c in a.stacks && a.running == {c};
    c
  }

  ghost function PNext(a: Private, s: Step): Private
    requires PEnabled(a, s)
  {
    match s
    case Create(c, _) => a.(stacks := a.stacks[c := []])
    case Resume(c) => a.(running := {c})
    case Work(bytes, depth) => a.(stacks := a.stacks[TheRunner(a) := Suffix(bytes, depth)])
    case Yield => a.(running := {})
    case Exit(pooled) =>
      Private(if pooled then a.stacks[TheRunner(a) := []] else a.stacks - {TheRunner(a)}, {})
  }

  /** The bytes that make up the stack of `c`, wherever they are at the moment. */
  ghost function StackBytes(m: Machine, c: Cid): seq<Byte>
    requires Inv(m) && c in m.coros
  {
    var co := m.coros[c];
    if m.running.Runs? && m.running.cid == c then Suffix(StackOf(m, c), m.running.depth)
    else if co.own then Suffix(co.buf, co.sp)
    else co.buf[..co.sp]
  }

  ghost function Abs(m: Machine): Private
    requires Inv(m)
  {
    Private(map c | c in m.coros :: StackBytes(m, c), if m.running.Runs? then {m.running.cid} else {})
  }

  lemma RunnerIs(m: Machine)
    requires Inv(m) && m.running.Runs?
    ensures (exists c :: c in Abs(m).stacks && Abs(m).running == {c}) && TheRunner(Abs(m)) == m.running.cid
  {
  }

  /** Copying out and back moves bytes but changes nobody's stack. */
  lemma SwitchKeepsBytes(m: Machine, s: Step)
    requires Inv(m) && Enabled(m, s) && (s.Resume? || s.Yield?)
    ensures Inv(Next(m, s)) && Next(m, s).coros.Keys == m.coros.Keys
    ensures forall d :: d in m.coros ==> StackBytes(Next(m, s), d) == StackBytes(m, d)
  {
    NextKeepsInv(m, s);
    var c := if s.Resume? then s.cid else m.running.cid;
    var m' := Next(m, s);
    assert StackBytes(m', c) == StackBytes(m, c);
    assert forall d :: d in m.coros && d != c ==> m'.coros[d] == m.coros[d];
  }

  lemma WorkBytes(m: Machine, s: Step)
    requires Inv(m) && Enabled(m, s) && s.Work?
    ensures Inv(Next(m, s)) && Next(m, s).coros.Keys == m.coros.Keys
    ensures forall d :: d in m.coros ==>
              StackBytes(Next(m, s), d) == if d == m.running.cid then Suffix(s.bytes, s.depth) else StackBytes(m, d)
  {
    NextKeepsInv(m, s);
  }

  lemma SwitchRefines(m: Machine, s: Step)
    requires Inv(m) && Enabled(m, s) && (s.Resume? || s.Yield?)
    ensures Inv(Next(m, s)) && PEnabled(Abs(m), s) && Abs(Next(m, s)) == PNext(Abs(m), s)
  {
    SwitchKeepsBytes(m, s);
    if m.running.Runs? { RunnerIs(m); }
    assert Abs(Next(m, s)).stacks == Abs(m).stacks;
  }

  lemma WorkRefines(m: Machine, s: Step)
    requires Inv(m) && Enabled(m, s) && s.Work?
    ensures Inv(Next(m, s)) && PEnabled(Abs(m), s) && Abs(Next(m, s)) == PNext(Abs(m), s)
  {
    WorkBytes(m, s);
    RunnerIs(m);
    assert Abs(Next(m, s)).stacks == Abs(m).stacks[m.running.cid := Suffix(s.bytes, s.depth)];
  }

  lemma LifeRefines(m: Machine, s: Step)
    requires Inv(m) && Enabled(m, s) && (s.Create? || s.Exit?)
    ensures Inv(Next(m, s)) && PEnabled(Abs(m), s) && Abs(Next(m, s)) == PNext(Abs(m), s)
  {
    NextKeepsInv(m, s);
    if s.Exit? { RunnerIs(m); }
    var c := if s.Create? then s.cid else m.running.cid;
    assert c in Next(m, s).coros ==> StackBytes(Next(m, s), c) == [];
    assert Abs(Next(m, s)).stacks == PNext(Abs(m), s).stacks;
  }

  lemma StepRefines(m: Machine, s: Step)
    requires Inv(m) && Enabled(m, s)
    ensures Inv(Next(m, s)) && PEnabled(Abs(m), s) && Abs(Next(m, s)) == PNext(Abs(m), s)
  {
    match s {
      case Create(_, _) => LifeRefines(m, s);
      case Resume(_) => SwitchRefines(m, s);
      case Work(_, _) => WorkRefines(m, s);
      case Yield => SwitchRefines(m, s);
      case Exit(_) => LifeRefines(m, s);
    }
  }

  // -------------------------------------------------------------- whole runs

  ghost predicate EnabledAll(m: Machine, steps: seq<Step>)
    requires Inv(m)
    decreases steps
  {
    steps == [] || (
      && Enabled(m, steps[0])
      && (NextKeepsInv(m, steps[0]); EnabledAll(Next(m, steps[0]), steps[1..])))
  }

  ghost function Run(m: Machine, steps: seq<Step>): Machine
    requires Inv(m) && EnabledAll(m, steps)
    decreases steps
  {
    if steps == [] then m
    else NextKeepsInv(m, steps[0]); Run(Next(m, steps[0]), steps[1..])
  }

  ghost predicate PEnabledAll(a: Private, steps: seq<Step>)
    decreases steps
  {
    steps == [] || (PEnabled(a, steps[0]) && PEnabledAll(PNext(a, steps[0]), steps[1..]))
  }

  ghost function PRun(a: Private, steps: seq<Step>): Private
    requires PEnabledAll(a, steps)
    decreases steps
  {
    if steps == [] then a else PRun(PNext(a, steps[0]), steps[1..])
  }

  /** For any interleaving, the shared stack with saved copies is a set of private stacks. */
  lemma {:induction false} SharedRefinesPrivate(m: Machine, steps: seq<Step>)
    requires Inv(m) && EnabledAll(m, steps)
    ensures Inv(Run(m, steps)) && PEnabledAll(Abs(m), steps) && Abs(Run(m, steps)) == PRun(Abs(m), steps)
    decreases steps
  {
    if steps != [] {
      StepRefines(m, steps[0]);
      SharedRefinesPrivate(Next(m, steps[0]), steps[1..]);
    }
  }

  /** A suspended coroutine keeps its bytes and its depth until it is resumed. */
  lemma {:induction false} SuspendedKeeps(m: Machine, steps: seq<Step>, c: Cid)
    requires Inv(m) && EnabledAll(m, steps) && c in m.coros && !m.coros[c].isNew
    requires !(m.running.Runs? && m.running.cid == c) && (forall s :: s in steps ==> s != Resume(c))
    ensures var m' := Run(m, steps);
            && Inv(m') && |m'.shared| == |m.shared| && c in m'.coros && m'.coros[c] == m.coros[c]
            && !(m'.running.Runs? && m'.running.cid == c)
    decreases steps
  {
    if steps != [] {
      NextKeepsInv(m, steps[0]);
      assert steps[0] in steps && forall s :: s in steps[1..] ==> s in steps;
      SuspendedKeeps(Next(m, steps[0]), steps[1..], c);
    }
  }

  /** Whatever others did meanwhile, a resumed coroutine finds what it left at its yield. */
  lemma {:induction false} ResumeFindsWhatYieldLeft(m: Machine, between: seq<Step>)
    requires Inv(m) && m.running.Runs?
    requires Inv(Next(m, Yield)) && EnabledAll(Next(m, Yield), between)
    requires forall s :: s in between ==> s != Resume(m.running.cid)
    requires Run(Next(m, Yield), between).running.Nobody?
    ensures var c, m1 := m.running.cid, Run(Next(m, Yield), between);
            && Inv(m1) && Enabled(m1, Resume(c))
            && var m2 := Next(m1, Resume(c));
               && m2.running == m.running && Inv(m2)
               && Suffix(StackOf(m2, c), m.running.depth) == Suffix(StackOf(m, c), m.running.depth)
  {
    var c := m.running.cid;
    StepRefines(m, Yield);
    SuspendedKeeps(Next(m, Yield), between, c);
    var m1 := Run(Next(m, Yield), between);
    StepRefines(m1, Resume(c));
    assert StackBytes(m, c) == Abs(m).stacks[c] == Abs(Next(m, Yield)).stacks[c] == StackBytes(Next(m, Yield), c);
    assert StackBytes(m1, c) == StackBytes(Next(m, Yield), c);
    assert StackBytes(Next(m1, Resume(c)), c) == Abs(Next(m1, Resume(c))).stacks[c] == StackBytes(m1, c);
  }
}

/** The same two copies on arrays, as the code makes them. */
module StackHeap {
  import opened Bytes
  import opened StackSpec

  class Coroutine {
    var isNew: bool
    var own: bool
    var stack: array<Byte>
    var stackSize: nat
    var sp: nat

    ghost predicate Valid()
      reads this
    {
      stackSize <= stack.Length
    }

    ghost function View(): Coro
      reads this, stack
    {
      Coro(isNew, own, stack[..], stackSize, sp)
    }

    constructor ()
      ensures Valid() && fresh(stack) && View() == Coro(true, false, [], 0, 0)
    {
      isNew, own, stackSize, sp := true, false, 0, 0;
      stack := new Byte[0];
    }

    /** savestk, with `depth` the distance from the top of the shared stack. */
    method SaveStk(shared: array<Byte>, depth: nat)
      requires Valid() && depth <= shared.Length && stack != shared
      modifies this`stack, this`stackSize, stack
      ensures Valid() && (stack == old(stack) || fresh(stack))
      ensures View() == StackSpec.SaveStk(old(View()), shared[..], depth)
      ensures shared[..] == old(shared[..])
    {
      if own {
        return;
      }
      if stackSize < depth {
        stack := Realloc(stack, depth);
      }
      stackSize := depth;
      ghost var rest := stack[depth..];
      CopyBytes(stack, 0, shared, shared.Length - depth, depth);
      assert shared[shared.Length - depth..shared.Length] == Suffix(shared[..], depth);
      assert stack[..] == Suffix(shared[..], depth) + rest;
    }

    /** loadstk. */
    method LoadStk(shared: array<Byte>)
      requires Valid() && (!own ==> stackSize <= shared.Length) && stack != shared
      modifies shared
      ensures shared[..] == StackSpec.LoadStk(View(), old(shared[..]))
    {
      if own {
        return;
      }
      CopyBytes(shared, shared.Length - stackSize, stack, 0, stackSize);
    }
  }

  method Realloc(a: array<Byte>, n: nat) returns (b: array<Byte>)
    ensures fresh(b) && b.Length == n
    ensures forall i :: 0 <= i < n && i < a.Length ==> b[i] == a[i]
  {
    b := new Byte[n](i => 0);
    for i := 0 to if n < a.Length then n else a.Length
      invariant forall j :: 0 <= j < i ==> b[j] == a[j]
    {
      b[i] := a[i];
    }
  }
}
