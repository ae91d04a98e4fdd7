/**
 The red-black tree of include/dyco/sys_tree.h as a value: coloured trees, the
 upward path from a node to the root (what the rbe_parent links trace), and the
 balance lemmas behind each case of the two colour fix-ups. The mirror-image
 branches of the macros are one case here, parameterised by a side.
 */
module RbTree {
  import opened Entries
  import opened Powers

  datatype Color = Red | Black

  datatype Side = Left | Right

  function Other(s: Side): Side {
    if s.Left? then Right else Left
  }

  datatype Tree<N> = Leaf | Node(left: Tree<N>, color: Color, node: N, key: nat, right: Tree<N>)

  /** A node whose child on side `s` is `near` and whose other child is `far`. */
  function Mk<N>(s: Side, near: Tree<N>, c: Color, n: N, k: nat, far: Tree<N>): Tree<N> {
    if s.Left? then Node(near, c, n, k, far) else Node(far, c, n, k, near)
  }

  function Kid<N>(t: Tree<N>, s: Side): Tree<N>
    requires t.Node?
  {
    if s.Left? then t.left else t.right
  }

  /** The tree after the child on side `Other(s)` has been rotated above the root. */
  function RotT<N>(s: Side, t: Tree<N>): Tree<N>
    requires t.Node? && Kid(t, Other(s)).Node?
  {
    var u := Kid(t, Other(s));
    Mk(s, Mk(s, Kid(t, s), t.color, t.node, t.key, Kid(u, s)), u.color, u.node, u.key, Kid(u, Other(s)))
  }

  /**
   The part of a tree outside one subtree, read upwards from that subtree:
   `side` is where the subtree hangs from `node`, `sib` is the other child.
   */
  datatype Path<N> = Top | Step(side: Side, color: Color, node: N, key: nat, sib: Tree<N>, up: Path<N>)

  function Zip<N>(p: Path<N>, t: Tree<N>): Tree<N>
    decreases p
  {
    if p.Top? then t else Zip(p.up, Mk(p.side, t, p.color, p.node, p.key, p.sib))
  }

  function PathLen<N>(p: Path<N>): nat {
    if p.Top? then 0 else 1 + PathLen(p.up)
  }

  // ---------------------------------------------------------------- contents

  ghost function Nodes<N>(t: Tree<N>): set<N> {
    if t.Leaf? then {} else Nodes(t.left) + {t.node} + Nodes(t.right)
  }

  ghost function PNodes<N>(p: Path<N>): set<N> {
    if p.Top? then {} else {p.node} + Nodes(p.sib) + PNodes(p.up)
  }

  function Inorder<N>(t: Tree<N>): seq<Entry<N>> {
    if t.Leaf? then [] else Inorder(t.left) + [Entry(t.key, t.node)] + Inorder(t.right)
  }

  function Before<N>(p: Path<N>): seq<Entry<N>> {
    if p.Top? then []
    else if p.side.Left? then Before(p.up)
    else Before(p.up) + Inorder(p.sib) + [Entry(p.key, p.node)]
  }

  function After<N>(p: Path<N>): seq<Entry<N>> {
    if p.Top? then []
    else if p.side.Left? then [Entry(p.key, p.node)] + Inorder(p.sib) + After(p.up)
    else After(p.up)
  }

  /** Nodes of a subtree, of a path, and across the two never repeat. */
  ghost predicate Wf<N>(t: Tree<N>) {
    t.Leaf? || (
      && Wf(t.left) && Wf(t.right)
      && t.node !in Nodes(t.left) && t.node !in Nodes(t.right)
      && Nodes(t.left) !! Nodes(t.right))
  }

  ghost predicate PWf<N>(p: Path<N>) {
    p.Top? || (
      && Wf(p.sib) && PWf(p.up)
      && p.node !in Nodes(p.sib) && p.node !in PNodes(p.up)
      && Nodes(p.sib) !! PNodes(p.up))
  }

  lemma {:induction false} WfMk<N>(s: Side, near: Tree<N>, c: Color, n: N, k: nat, far: Tree<N>)
    ensures Nodes(Mk(s, near, c, n, k, far)) == Nodes(near) + {n} + Nodes(far)
    ensures Wf(Mk(s, near, c, n, k, far)) <==>
            Wf(near) && Wf(far) && n !in Nodes(near) && n !in Nodes(far) && Nodes(near) !! Nodes(far)
  {
  }

  /** Rotation keeps the nodes, and the five parts it rearranges are disjoint. */
  lemma {:induction false} RotWf<N>(s: Side, t: Tree<N>)
    requires t.Node? && Kid(t, Other(s)).Node? && Wf(t)
    ensures Nodes(RotT(s, t)) == Nodes(t) && Wf(RotT(s, t))
    ensures var u := Kid(t, Other(s));
            var a, b, d := Nodes(Kid(t, s)), Nodes(Kid(u, s)), Nodes(Kid(u, Other(s)));
            && Nodes(t) == a + {t.node} + b + {u.node} + d
            && t.node != u.node
            && t.node !in a && t.node !in b && t.node !in d
            && u.node !in a && u.node !in b && u.node !in d
            && a !! b && a !! d && b !! d
    ensures Wf(Kid(Kid(t, Other(s)), s))
  {
  }

  lemma Regroup<A>(a: seq<A>, b: seq<A>, c: seq<A>, d: seq<A>, e: seq<A>)
    ensures a + (b + c + d) + e == a + b + (c + d + e)
    ensures a + (b + c + d) + e == a + b + c + d + e
  {
  }

  lemma {:induction false} ZipInorder<N>(p: Path<N>, t: Tree<N>)
    ensures Inorder(Zip(p, t)) == Before(p) + Inorder(t) + After(p)
    decreases p
  {
    if p.Step? {
      var t' := Mk(p.side, t, p.color, p.node, p.key, p.sib);
      ZipInorder(p.up, t');
      var e := [Entry(p.key, p.node)];
      Regroup(Before(p.up), Inorder(t), e, Inorder(p.sib), After(p.up));
      Regroup(Before(p.up), Inorder(p.sib), e, Inorder(t), After(p.up));
    }
  }

  lemma {:induction false} SortedSubtree<N>(p: Path<N>, t: Tree<N>)
    requires Sorted(Inorder(Zip(p, t)))
    ensures Sorted(Inorder(t))
    ensures t.Node? ==> Over(Inorder(t.left), t.key) && Below(t.key, Inorder(t.right))
  {
    ZipInorder(p, t);
    SortedParts(Before(p) + Inorder(t), After(p));
    SortedParts(Before(p), Inorder(t));
    if t.Node? {
      RemoveBetween(Inorder(t.left), Entry(t.key, t.node), Inorder(t.right));
    }
  }

  /** Below the node it compares with, a search keeps `k` between what it passed. */
  lemma {:induction false} Descend<N>(p: Path<N>, t: Tree<N>, k: nat)
    requires t.Node? && k != t.key && Sorted(Inorder(Zip(p, t)))
    requires Over(Before(p), k) && Below(k, After(p))
    ensures var s := if k < t.key then Left else Right;
            var q := Step(s, t.color, t.node, t.key, Kid(t, Other(s)), p);
            Over(Before(q), k) && Below(k, After(q)) && Zip(q, Kid(t, s)) == Zip(p, t)
  {
    SortedSubtree(p, t);
  }

  lemma {:induction false} RotInorder<N>(s: Side, t: Tree<N>)
    requires t.Node? && Kid(t, Other(s)).Node?
    ensures Inorder(RotT(s, t)) == Inorder(t)
  {
  }

  lemma {:induction false} InorderNodes<N>(t: Tree<N>, n: N)
    ensures n in Nodes(t) <==> exists i :: 0 <= i < |Inorder(t)| && Inorder(t)[i].node == n
  {
    if t.Node? {
      InorderNodes(t.left, n);
      InorderNodes(t.right, n);
      var l, r := Inorder(t.left), Inorder(t.right);
      var s := Inorder(t);
      assert s[|l|] == Entry(t.key, t.node);
      assert forall i :: 0 <= i < |l| ==> s[i] == l[i];
      assert forall i :: 0 <= i < |r| ==> s[|l| + 1 + i] == r[i];
      if n in Nodes(t.right) {
        var i :| 0 <= i < |r| && r[i].node == n;
        assert s[|l| + 1 + i].node == n;
      }
      if i :| 0 <= i < |s| && s[i].node == n {
        if i > |l| { assert s[i] == r[i - |l| - 1]; }
      }
    }
  }

  // ----------------------------------------------------------------- balance

  predicate IsRed<N>(t: Tree<N>) {
    t.Node? && t.color.Red?
  }

  function Blacken<N>(t: Tree<N>): Tree<N> {
    if t.Leaf? then t else t.(color := Black)
  }

  function Weight(c: Color): nat {
    if c.Black? then 1 else 0
  }

  function BH<N>(t: Tree<N>): nat {
    if t.Leaf? then 0 else BH(t.left) + Weight(t.color)
  }

  predicate EqBH<N>(t: Tree<N>) {
    t.Leaf? || (BH(t.left) == BH(t.right) && EqBH(t.left) && EqBH(t.right))
  }

  predicate NoRR<N>(t: Tree<N>) {
    t.Leaf? || (
      && (t.color.Red? ==> !IsRed(t.left) && !IsRed(t.right))
      && NoRR(t.left) && NoRR(t.right))
  }

  /** The red-black invariants: black root, equal black heights, no red-red edge. */
  predicate IsRB<N>(t: Tree<N>) {
    !IsRed(t) && EqBH(t) && NoRR(t)
  }

  /** A subtree of black height `h` hung below `p` keeps all black heights equal. */
  predicate PBal<N>(p: Path<N>, h: nat) {
    p.Top? || (EqBH(p.sib) && BH(p.sib) == h && PBal(p.up, h + Weight(p.color)))
  }

  /** No red-red edge outside the hole, and the topmost node is black. */
  predicate PNoRR<N>(p: Path<N>) {
    p.Top? || (
      && NoRR(p.sib) && PNoRR(p.up)
      && (p.color.Red? ==> !IsRed(p.sib) && p.up.Step? && p.up.color.Black?))
  }

  /** A red subtree may only hang below a black node. */
  predicate Fits<N>(p: Path<N>, t: Tree<N>) {
    IsRed(t) ==> p.Step? && p.color.Black?
  }

  lemma {:induction false} ZipRB<N>(p: Path<N>, t: Tree<N>)
    ensures IsRB(Zip(p, t)) <==>
            EqBH(t) && NoRR(t) && PBal(p, BH(t)) && PNoRR(p) && Fits(p, t)
    decreases p
  {
    if p.Step? {
      var t' := Mk(p.side, t, p.color, p.node, p.key, p.sib);
      ZipRB(p.up, t');
      if BH(t) == BH(p.sib) {
        assert BH(t') == BH(t) + Weight(p.color);
      }
    }
  }

  lemma {:induction false} MkBalance<N>(s: Side, near: Tree<N>, c: Color, n: N, k: nat, far: Tree<N>)
    ensures EqBH(Mk(s, near, c, n, k, far)) <==> EqBH(near) && EqBH(far) && BH(near) == BH(far)
    ensures BH(near) == BH(far) ==> BH(Mk(s, near, c, n, k, far)) == BH(near) + Weight(c)
    ensures NoRR(Mk(s, near, c, n, k, far)) <==>
            NoRR(near) && NoRR(far) && (c.Red? ==> !IsRed(near) && !IsRed(far))
  {
  }

  // --------------------------------------------- RB_INSERT_COLOR, case by case

  /** Balanced everywhere, except that the red `t` may hang below a red node. */
  predicate InsInv<N>(p: Path<N>, t: Tree<N>) {
    IsRed(t) && EqBH(t) && NoRR(t) && PBal(p, BH(t)) && PNoRR(p)
  }

  /** A red leaf in the place a search found for its key. */
  lemma {:induction false} InsLeaf<N>(p: Path<N>, k: nat, n: N)
    requires IsRB(Zip(p, Leaf)) && Sorted(Before(p) + After(p)) && Over(Before(p), k) && Below(k, After(p))
    ensures var leaf := Node(Leaf, Red, n, k, Leaf);
            && InsInv(p, leaf) && Sorted(Inorder(Zip(p, leaf)))
            && Inorder(Zip(p, leaf)) == InsertSorted(Before(p) + After(p), Entry(k, n))
  {
    var leaf, e := Node(Leaf, Red, n, k, Leaf), Entry(k, n);
    ZipRB(p, Leaf);
    ZipInorder(p, leaf);
    InsertBetween(Before(p), e, After(p));
    SortedBetween(Before(p), e, After(p));
    assert Inorder(leaf) == [e];
  }

  lemma {:induction false} InsDone<N>(p: Path<N>, t: Tree<N>)
    requires InsInv(p, t)
    requires p.Step? ==> p.color.Black?
    ensures IsRB(Blacken(Zip(p, t)))
    ensures p.Step? ==> Blacken(Zip(p, t)) == Zip(p, t)
  {
    ZipRB(p, t);
  }

  lemma {:induction false} InsRecolor<N>(p: Path<N>, t: Tree<N>)
    requires InsInv(p, t) && p.Step? && p.color.Red? && IsRed(p.up.sib)
    ensures p.up.Step?
    ensures var t' := Mk(p.up.side, Mk(p.side, t, Black, p.node, p.key, p.sib),
                         Red, p.up.node, p.up.key, Blacken(p.up.sib));
            InsInv(p.up.up, t') && Inorder(Zip(p.up.up, t')) == Inorder(Zip(p, t))
  {
    var g := p.up;
    var low := Mk(p.side, t, Black, p.node, p.key, p.sib);
    MkBalance(p.side, t, Black, p.node, p.key, p.sib);
    MkBalance(g.side, low, Red, g.node, g.key, Blacken(g.sib));
    assert PBal(g, BH(t)) && PNoRR(g);
    assert PBal(g.up, BH(t) + 1) && PNoRR(g.up);
    var high := Mk(p.side, t, p.color, p.node, p.key, p.sib);
    ZipInorder(g.up, Mk(g.side, low, Red, g.node, g.key, Blacken(g.sib)));
    ZipInorder(g.up, Mk(g.side, high, g.color, g.node, g.key, g.sib));
  }

  lemma {:induction false} InsInner<N>(p: Path<N>, t: Tree<N>)
    requires InsInv(p, t) && p.Step? && p.color.Red? && p.up.Step? && p.side != p.up.side
    ensures var p' := Step(p.up.side, Red, t.node, t.key, Kid(t, p.side), p.up);
            var t' := Mk(p.up.side, p.sib, Red, p.node, p.key, Kid(t, p.up.side));
            InsInv(p', t') && Inorder(Zip(p', t')) == Inorder(Zip(p, t))
  {
    var s := p.up.side;
    var high := Mk(p.side, t, p.color, p.node, p.key, p.sib);
    MkBalance(s, p.sib, Red, p.node, p.key, Kid(t, s));
    RotInorder(s, high);
    ZipInorder(p.up, high);
    ZipInorder(p.up, RotT(s, high));
  }

  lemma {:induction false} InsOuter<N>(p: Path<N>, t: Tree<N>)
    requires InsInv(p, t) && p.Step? && p.color.Red? && p.up.Step? && !IsRed(p.up.sib)
    requires p.side == p.up.side
    ensures var p' := Step(p.up.side, Black, p.node, p.key,
                           Mk(p.up.side, p.sib, Red, p.up.node, p.up.key, p.up.sib), p.up.up);
            InsInv(p', t) && Inorder(Zip(p', t)) == Inorder(Zip(p, t))
  {
    var g := p.up;
    MkBalance(g.side, p.sib, Red, g.node, g.key, g.sib);
    assert PBal(g, BH(t)) && PNoRR(g);
    var high := Mk(g.side, Mk(p.side, t, p.color, p.node, p.key, p.sib), g.color, g.node, g.key, g.sib);
    RotInorder(Other(g.side), high);
    ZipInorder(g.up, high);
    ZipInorder(g.up, Mk(g.side, t, Black, p.node, p.key, Mk(g.side, p.sib, Red, g.node, g.key, g.sib)));
  }

  // --------------------------------------------- RB_REMOVE_COLOR, case by case

  /** Balanced everywhere, except that `t` is one black node short. */
  predicate RemInv<N>(p: Path<N>, t: Tree<N>) {
    EqBH(t) && NoRR(Blacken(t)) && PBal(p, BH(t) + 1) && PNoRR(p)
  }

  lemma {:induction false} RemDone<N>(p: Path<N>, t: Tree<N>)
    requires RemInv(p, t) && (IsRed(t) || p.Top?)
    ensures IsRB(Zip(p, Blacken(t)))
  {
    ZipRB(p, Blacken(t));
  }

  lemma {:induction false} RemRedSibling<N>(p: Path<N>, t: Tree<N>)
    requires RemInv(p, t) && p.Step? && IsRed(p.sib)
    ensures p.color.Black?
    ensures var s := p.side;
            var p' := Step(s, Red, p.node, p.key, Kid(p.sib, s),
                           Step(s, Black, p.sib.node, p.sib.key, Kid(p.sib, Other(s)), p.up));
            RemInv(p', t) && p'.sib.Node? && !IsRed(p'.sib) && Inorder(Zip(p', t)) == Inorder(Zip(p, t))
  {
    var s := p.side;
    var high := Mk(s, t, p.color, p.node, p.key, p.sib);
    RotInorder(s, high);
    ZipInorder(p.up, high);
    ZipInorder(p.up, Mk(s, Mk(s, t, Red, p.node, p.key, Kid(p.sib, s)),
                        Black, p.sib.node, p.sib.key, Kid(p.sib, Other(s))));
  }

  lemma {:induction false} RemRecolor<N>(p: Path<N>, t: Tree<N>)
    requires RemInv(p, t) && !IsRed(t) && p.Step? && p.sib.Node? && p.sib.color.Black?
    requires !IsRed(p.sib.left) && !IsRed(p.sib.right)
    ensures var t' := Mk(p.side, t, p.color, p.node, p.key, p.sib.(color := Red));
            RemInv(p.up, t') && Inorder(Zip(p.up, t')) == Inorder(Zip(p, t))
  {
    ZipInorder(p.up, Mk(p.side, t, p.color, p.node, p.key, p.sib));
    ZipInorder(p.up, Mk(p.side, t, p.color, p.node, p.key, p.sib.(color := Red)));
  }

  lemma {:induction false} RemNephew<N>(p: Path<N>, t: Tree<N>)
    requires RemInv(p, t) && p.Step? && p.sib.Node? && p.sib.color.Black?
    requires IsRed(Kid(p.sib, p.side)) && !IsRed(Kid(p.sib, Other(p.side)))
    ensures var near := Kid(p.sib, p.side);
            var sib2 := Mk(p.side, Kid(near, p.side), Black, near.node, near.key,
                           Mk(p.side, Kid(near, Other(p.side)), Red, p.sib.node, p.sib.key, Kid(p.sib, Other(p.side))));
            && RemInv(p.(sib := sib2), t) && IsRed(Kid(sib2, Other(p.side)))
            && Inorder(Zip(p.(sib := sib2), t)) == Inorder(Zip(p, t))
  {
    var s, near, far := p.side, Kid(p.sib, p.side), Kid(p.sib, Other(p.side));
    var low := Mk(s, Kid(near, Other(s)), Red, p.sib.node, p.sib.key, far);
    var sib2 := Mk(s, Kid(near, s), Black, near.node, near.key, low);
    MkBalance(s, Kid(near, Other(s)), Red, p.sib.node, p.sib.key, far);
    MkBalance(s, Kid(near, s), Black, near.node, near.key, low);
    MkBalance(s, near, Black, p.sib.node, p.sib.key, far);
    MkBalance(s, Kid(near, s), Red, near.node, near.key, Kid(near, Other(s)));
    RotInorder(Other(s), p.sib);
    assert Inorder(sib2) == Inorder(p.sib);
    ZipInorder(p.up, Mk(s, t, p.color, p.node, p.key, p.sib));
    ZipInorder(p.up, Mk(s, t, p.color, p.node, p.key, sib2));
  }

  lemma {:induction false} RemFinal<N>(p: Path<N>, t: Tree<N>)
    requires RemInv(p, t) && !IsRed(t) && p.Step? && p.sib.Node? && p.sib.color.Black?
    requires IsRed(Kid(p.sib, Other(p.side)))
    ensures var t' := Mk(p.side, Mk(p.side, t, Black, p.node, p.key, Kid(p.sib, p.side)),
                         p.color, p.sib.node, p.sib.key, Blacken(Kid(p.sib, Other(p.side))));
            IsRB(Zip(p.up, t')) && Inorder(Zip(p.up, t')) == Inorder(Zip(p, t))
  {
    var s, near, far := p.side, Kid(p.sib, p.side), Kid(p.sib, Other(p.side));
    var low := Mk(s, t, Black, p.node, p.key, near);
    var t' := Mk(s, low, p.color, p.sib.node, p.sib.key, Blacken(far));
    MkBalance(s, near, Black, p.sib.node, p.sib.key, far);
    MkBalance(s, t, Black, p.node, p.key, near);
    MkBalance(s, low, p.color, p.sib.node, p.sib.key, Blacken(far));
    ZipRB(p.up, t');
    var high := Mk(s, t, p.color, p.node, p.key, p.sib);
    RotInorder(s, high);
    ZipInorder(p.up, high);
    ZipInorder(p.up, t');
    assert Inorder(t') == Inorder(RotT(s, high));
  }

  /** The fix-up reads the sibling's colour without a null test: it is never null. */
  lemma SiblingExists<N>(p: Path<N>, t: Tree<N>)
    requires RemInv(p, t) && p.Step?
    ensures p.sib.Node?
  {
  }

  // --------------------------------------------------- RB_REMOVE, what it cuts

  /** The path `q` continued by `base` where `q` ends. */
  function App<N>(q: Path<N>, base: Path<N>): Path<N> {
    if q.Top? then base else q.(up := App(q.up, base))
  }

  predicate LeftSpine<N>(q: Path<N>) {
    q.Top? || (q.side.Left? && LeftSpine(q.up))
  }

  lemma {:induction false} SpineFirst<N>(q: Path<N>)
    requires LeftSpine(q)
    ensures Before(q) == []
    decreases q
  {
    if q.Step? { SpineFirst(q.up); }
  }

  lemma {:induction false} ZipApp<N>(q: Path<N>, base: Path<N>, t: Tree<N>)
    ensures Zip(App(q, base), t) == Zip(base, Zip(q, t))
    decreases q
  {
    if q.Step? { ZipApp(q.up, base, Mk(q.side, t, q.color, q.node, q.key, q.sib)); }
  }

  lemma {:induction false} AppContents<N>(q: Path<N>, base: Path<N>)
    requires LeftSpine(q)
    ensures Before(App(q, base)) == Before(base) && After(App(q, base)) == After(q) + After(base)
  {
    if q.Step? {
      AppContents(q.up, base);
      assert After(q) + After(base) == [Entry(q.key, q.node)] + Inorder(q.sib) + (After(q.up) + After(base));
    }
  }

  /** Balance along a path does not depend on which node carries a colour. */
  lemma {:induction false} AppBalance<N>(q: Path<N>, base: Path<N>, n: N, k: nat, h: nat)
    requires base.Step?
    ensures PBal(App(q, base), h) <==> PBal(App(q, base.(node := n, key := k)), h)
    ensures PNoRR(App(q, base)) <==> PNoRR(App(q, base.(node := n, key := k)))
  {
    if q.Step? {
      AppBalance(q.up, base, n, k, h + Weight(q.color));
      if q.up.Step? { assert App(q.up, base).color == q.up.color; }
    }
  }

  /** What is left to repair when a node of colour `c` gives its place to `child`. */
  predicate Cut<N>(c: Color, p: Path<N>, child: Tree<N>) {
    if c.Black? then RemInv(p, child) else IsRB(Zip(p, child))
  }

  lemma RegroupOne<A>(x: seq<A>, e: seq<A>, c: seq<A>, y: seq<A>)
    ensures x + ([] + e + c) + y == x + e + (c + y)
    ensures x + (c + e + []) + y == (x + c) + e + y
    ensures x + c + y == x + (c + y)
  {
  }

  lemma RegroupTwo<A>(x: seq<A>, e: seq<A>, f: seq<A>, r: seq<A>, y: seq<A>, z: seq<A>)
    ensures (x + e) + ([] + f + r) + (y + z) == x + e + (f + r + y + z)
    ensures (x + f) + r + (y + z) == x + (f + r + y + z)
  {
  }

  lemma {:induction false} CutOne<N>(p: Path<N>, t: Tree<N>, s: Side)
    requires t.Node? && Kid(t, s).Leaf? && IsRB(Zip(p, t)) && Sorted(Inorder(Zip(p, t)))
    ensures Cut(t.color, p, Kid(t, Other(s)))
    ensures Inorder(Zip(p, Kid(t, Other(s)))) == WithoutKey(Inorder(Zip(p, t)), t.key)
    ensures Sorted(Inorder(Zip(p, Kid(t, Other(s)))))
  {
    var child, e := Kid(t, Other(s)), Entry(t.key, t.node);
    ZipRB(p, t);
    ZipRB(p, child);
    ZipInorder(p, t);
    ZipInorder(p, child);
    RegroupOne(Before(p), [e], Inorder(child), After(p));
    if s.Left? {
      RemoveBetween(Before(p), e, Inorder(child) + After(p));
    } else {
      RemoveBetween(Before(p) + Inorder(child), e, After(p));
    }
  }

  lemma {:induction false} CutBalance<N>(q: Path<N>, base: Path<N>, m: Tree<N>)
    requires base.Step? && m.Node? && m.left.Leaf? && IsRB(Zip(App(q, base), m))
    ensures Cut(m.color, App(q, base.(node := m.node, key := m.key)), m.right)
  {
    var from, to := App(q, base), App(q, base.(node := m.node, key := m.key));
    ZipRB(from, m);
    AppBalance(q, base, m.node, m.key, BH(m));
    ZipRB(to, m.right);
  }

  lemma {:induction false} CutContents<N>(q: Path<N>, base: Path<N>, m: Tree<N>)
    requires base.Step? && base.side.Right? && LeftSpine(q) && m.Node? && m.left.Leaf?
    ensures var a, b := Before(base.up) + Inorder(base.sib),
                        [Entry(m.key, m.node)] + Inorder(m.right) + After(q) + After(base);
            && Inorder(Zip(App(q, base), m)) == a + [Entry(base.key, base.node)] + b
            && Inorder(Zip(App(q, base.(node := m.node, key := m.key)), m.right)) == a + b
  {
    var base' := base.(node := m.node, key := m.key);
    AppContents(q, base);
    AppContents(q, base');
    ZipInorder(App(q, base), m);
    ZipInorder(App(q, base'), m.right);
    var a, e, f := Before(base.up) + Inorder(base.sib), [Entry(base.key, base.node)], [Entry(m.key, m.node)];
    RegroupTwo(a, e, f, Inorder(m.right), After(q), After(base));
  }

  /** The successor `m`, cut out below `q`, replaces the removed node `base.node`. */
  lemma {:induction false} CutTwo<N>(q: Path<N>, base: Path<N>, m: Tree<N>)
    requires base.Step? && base.side.Right? && LeftSpine(q) && m.Node? && m.left.Leaf?
    requires IsRB(Zip(App(q, base), m)) && Sorted(Inorder(Zip(App(q, base), m)))
    ensures var to := App(q, base.(node := m.node, key := m.key));
            && Cut(m.color, to, m.right)
            && Inorder(Zip(to, m.right)) == WithoutKey(Inorder(Zip(App(q, base), m)), base.key)
            && Sorted(Inorder(Zip(to, m.right)))
  {
    CutBalance(q, base, m);
    CutContents(q, base, m);
    RemoveBetween(Before(base.up) + Inorder(base.sib), Entry(base.key, base.node),
                  [Entry(m.key, m.node)] + Inorder(m.right) + After(q) + After(base));
  }

  // ------------------------------------------------------------------ height

  function Height<N>(t: Tree<N>): nat {
    if t.Leaf? then 0
    else 1 + if Height(t.left) > Height(t.right) then Height(t.left) else Height(t.right)
  }

  lemma {:induction false} SizeFromBH<N>(t: Tree<N>)
    requires EqBH(t)
    ensures Pow2(BH(t)) <= |Inorder(t)| + 1
  {
    if t.Node? {
      SizeFromBH(t.left);
      SizeFromBH(t.right);
    }
  }

  lemma {:induction false} HeightFromBH<N>(t: Tree<N>)
    requires EqBH(t) && NoRR(t)
    ensures Height(t) <= 2 * BH(t) + (if IsRed(t) then 1 else 0)
  {
    if t.Node? {
      HeightFromBH(t.left);
      HeightFromBH(t.right);
    }
  }

  lemma SquareMono(a: nat, b: nat)
    requires a <= b
    ensures a * a <= b * b
  {
  }

  /** The height is at most 2 log2(n + 1). */
  lemma {:induction false} HeightBound<N>(t: Tree<N>)
    requires IsRB(t)
    ensures Pow2(Height(t)) <= (|Inorder(t)| + 1) * (|Inorder(t)| + 1)
  {
    var n, b := |Inorder(t)| + 1, Pow2(BH(t));
    HeightFromBH(t);
    Pow2Mono(Height(t), 2 * BH(t));
    Pow2Add(BH(t), BH(t));
    SizeFromBH(t);
    SquareMono(b, n);
  }
}
