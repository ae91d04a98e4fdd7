/**
 The red-black tree of include/dyco/sys_tree.h in the heap: nodes linked by
 rbe_left, rbe_right and rbe_parent, rewritten in place.
 */
module RbHeap {
  import opened Entries
  import opened RbTree

  /**
   The part of a coroutine that the sleeping index uses: its key, its RB_ENTRY
   and the status bits that the sleep functions set and clear.
   */
  class Coroutine {
    var left: Coroutine?
    var right: Coroutine?
    var parent: Coroutine?
    var color: Color
    var sleepUsecs: nat
    var sleeping: bool
    var expired: bool

    function Child(s: Side): Coroutine?
      reads this
    {
      if s.Left? then left else right
    }

    method SetChild(s: Side, c: Coroutine?)
      modifies this`left, this`right
      ensures Child(s) == c && Child(Other(s)) == old(Child(Other(s)))
    {
      if s.Left? { left := c; } else { right := c; }
    }
  }

  ghost function RootOf(t: Tree<Coroutine>): Coroutine? {
    if t.Leaf? then null else t.node
  }

  ghost function TopOf(p: Path<Coroutine>): Coroutine? {
    if p.Top? then null else p.node
  }

  /** The heap below `RootOf(t)` is `t`, and its root's parent link is `par`. */
  ghost predicate Rep(t: Tree<Coroutine>, par: Coroutine?)
    reads Nodes(t)
  {
    t.Leaf? || (
      && t.node.left == RootOf(t.left) && t.node.right == RootOf(t.right)
      && t.node.parent == par && t.node.color == t.color && t.node.sleepUsecs == t.key
      && Rep(t.left, t.node) && Rep(t.right, t.node))
  }

  lemma {:induction false} RepKids(t: Tree<Coroutine>, par: Coroutine?)
    requires t.Node? && Rep(t, par)
    ensures forall s: Side :: Rep(Kid(t, s), t.node) && t.node.Child(s) == RootOf(Kid(t, s))
  {
  }

  lemma {:induction false} RepMk(s: Side, near: Tree<Coroutine>, c: Color, n: Coroutine, k: nat, far: Tree<Coroutine>)
    requires Rep(near, n) && Rep(far, n)
    requires n.Child(s) == RootOf(near) && n.Child(Other(s)) == RootOf(far)
    requires n.color == c && n.sleepUsecs == k
    ensures Rep(Mk(s, near, c, n, k, far), n.parent)
  {
  }

  lemma {:induction false} RepEntries(t: Tree<Coroutine>, par: Coroutine?)
    requires Rep(t, par)
    ensures forall e :: e in Inorder(t) ==> e.node in Nodes(t) && e.key == e.node.sleepUsecs
    ensures forall n :: n in Nodes(t) ==> Entry(n.sleepUsecs, n) in Inorder(t)
  {
    if t.Node? {
      RepEntries(t.left, t.node);
      RepEntries(t.right, t.node);
    }
  }

  class SleepTree {
    var root: Coroutine?
    ghost var tree: Tree<Coroutine>
    ghost var repr: set<Coroutine>

    /** The sleepers, in increasing order of their deadlines. */
    ghost function Elems(): seq<Entry<Coroutine>>
      reads this
    {
      Inorder(tree)
    }

    ghost predicate Valid()
      reads this, Nodes(tree)
    {
      At(Top, tree) && IsRB(tree) && Sorted(Elems())
    }

    constructor ()
      ensures Valid() && Elems() == [] && repr == {}
    {
      root, tree, repr := null, Leaf, {};
    }

    /** The heap around the subtree rooted at `child` is `p`, up to the root pointer. */
    ghost predicate RepPath(p: Path<Coroutine>, child: Coroutine?)
      reads this`root, PNodes(p)
    {
      if p.Top? then root == child
      else
        && p.node.Child(p.side) == child && p.node.Child(Other(p.side)) == RootOf(p.sib)
        && p.node.parent == TopOf(p.up) && p.node.color == p.color && p.node.sleepUsecs == p.key
        && Rep(p.sib, p.node) && RepPath(p.up, p.node)
    }

    /** The whole heap tree is `Zip(p, t)`, seen from the subtree `t`. */
    ghost predicate At(p: Path<Coroutine>, t: Tree<Coroutine>)
      reads this`root, this`repr, PNodes(p), Nodes(t)
    {
      && Wf(t) && PWf(p) && Nodes(t) !! PNodes(p) && repr == PNodes(p) + Nodes(t)
      && Rep(t, TopOf(p)) && RepPath(p, RootOf(t))
    }

    lemma Refocus(s: Side, near: Tree<Coroutine>, c: Color, n: Coroutine, k: nat, far: Tree<Coroutine>,
            p: Path<Coroutine>)
      ensures At(p, Mk(s, near, c, n, k, far)) <==> At(Step(s, c, n, k, far, p), near)
    {
    }

    method SetColor(x: Coroutine, c: Color, ghost p: Path<Coroutine>, ghost t: Tree<Coroutine>)
      requires At(p, t) && t.Node? && t.node == x
      modifies x`color
      ensures At(p, t.(color := c))
    {
      x.color := c;
      assert Rep(t.left, x) && Rep(t.right, x);
    }

    /** Makes the link that led to `elm` lead to `tmp`. */
    method Relink(elm: Coroutine, tmp: Coroutine?, ghost p: Path<Coroutine>)
      requires PWf(p) && PNodes(p) <= repr && RepPath(p, elm) && elm.parent == TopOf(p)
      requires p.Step? ==> elm !in Nodes(p.sib)
      modifies this`root, PNodes(p)`left, PNodes(p)`right
      ensures RepPath(p, tmp)
    {
      if elm.parent != null {
        if elm == elm.parent.left {
          elm.parent.left := tmp;
        } else {
          elm.parent.right := tmp;
        }
        assert Rep(p.sib, p.node) && RepPath(p.up, p.node);
      } else {
        root := tmp;
      }
    }

    /** Sets the parent link of the root of `t`, if there is one. */
    method Adopt(c: Coroutine?, par: Coroutine?, ghost t: Tree<Coroutine>, ghost was: Coroutine?)
      requires Wf(t) && Rep(t, was) && c == RootOf(t)
      modifies if c == null then {} else {c}`parent
      ensures Rep(t, par)
    {
      if c != null {
        c.parent := par;
        assert Rep(t.left, c) && Rep(t.right, c);
      }
    }

    /** Hangs `c`, the root of `near`, below `n` on side `s`. */
    method Attach(s: Side, n: Coroutine, c: Coroutine?, ghost near: Tree<Coroutine>, ghost was: Coroutine?,
            ghost far: Tree<Coroutine>)
      requires Wf(near) && Rep(near, was) && c == RootOf(near) && Rep(far, n)
      requires n !in Nodes(near) && n !in Nodes(far) && Nodes(near) !! Nodes(far)
      requires Nodes(near) + Nodes(far) <= repr
      requires n.Child(Other(s)) == RootOf(far)
      modifies n`left, n`right, if c == null then {} else {c}`parent
      ensures Rep(Mk(s, near, n.color, n, n.sleepUsecs, far), n.parent)
      ensures n.Child(s) == c && n.Child(Other(s)) == old(n.Child(Other(s)))
    {
      n.SetChild(s, c);
      assert Rep(near, was) && Rep(far, n);
      Adopt(c, n, near, was);
      RepMk(s, near, n.color, n, n.sleepUsecs, far);
    }

    /** `tmp`, whose other child is `far`, takes the place of `elm` and takes `elm` below it. */
    method Hoist(s: Side, elm: Coroutine, tmp: Coroutine, ghost p: Path<Coroutine>,
            ghost low: Tree<Coroutine>, ghost far: Tree<Coroutine>)
      requires PWf(p) && PNodes(p) <= repr && low.Node? && low.node == elm && Wf(low)
      requires Nodes(low) <= repr && Nodes(far) <= repr && Nodes(low) !! Nodes(far)
      requires tmp !in Nodes(low) && tmp !in Nodes(far) && tmp !in PNodes(p)
      requires PNodes(p) !! Nodes(low) && PNodes(p) !! Nodes(far)
      requires Rep(low, TopOf(p)) && Rep(far, tmp) && RepPath(p, elm)
      requires tmp.Child(Other(s)) == RootOf(far)
      modifies this`root, PNodes(p)`left, PNodes(p)`right, elm`parent, tmp`parent, tmp`left, tmp`right
      ensures Rep(Mk(s, low, tmp.color, tmp, tmp.sleepUsecs, far), TopOf(p)) && RepPath(p, tmp)
    {
      tmp.parent := elm.parent;
      assert Rep(low, TopOf(p)) && Rep(far, tmp) && RepPath(p, elm);
      Relink(elm, tmp, p);
      assert Rep(low, TopOf(p)) && Rep(far, tmp);
      Attach(s, tmp, elm, low, TopOf(p), far);
    }

    /** The inner subtree `b` moves from `tmp` to `elm`; all around them is as before. */
    method AttachInner(s: Side, elm: Coroutine, tmp: Coroutine, ghost p: Path<Coroutine>,
                       ghost a: Tree<Coroutine>, ghost b: Tree<Coroutine>, ghost d: Tree<Coroutine>)
      requires Wf(b) && Nodes(a) <= repr && Nodes(b) <= repr && Nodes(d) <= repr && PNodes(p) <= repr
      requires Nodes(a) !! Nodes(b) && Nodes(b) !! Nodes(d) && PNodes(p) !! Nodes(b)
      requires elm !in Nodes(a) && elm !in Nodes(b) && elm !in Nodes(d) && elm !in PNodes(p)
      requires Rep(a, elm) && Rep(b, tmp) && Rep(d, tmp) && RepPath(p, elm)
      requires elm.Child(s) == RootOf(a) && tmp.Child(s) == RootOf(b)
      modifies elm`left, elm`right, Nodes(b)`parent
      ensures Rep(Mk(s, a, elm.color, elm, elm.sleepUsecs, b), elm.parent) && Rep(d, tmp) && RepPath(p, elm)
      ensures elm.parent == old(elm.parent)
    {
      Attach(Other(s), elm, tmp.Child(s), b, tmp, a);
    }

    method RotateParts(s: Side, elm: Coroutine, tmp: Coroutine, ghost p: Path<Coroutine>,
                       ghost a: Tree<Coroutine>, ghost b: Tree<Coroutine>, ghost d: Tree<Coroutine>)
      requires PWf(p) && PNodes(p) <= repr && Wf(a) && Wf(b) && elm in repr && tmp in repr
      requires Nodes(a) <= repr && Nodes(b) <= repr && Nodes(d) <= repr
      requires Nodes(a) !! Nodes(b) && Nodes(a) !! Nodes(d) && Nodes(b) !! Nodes(d)
      requires PNodes(p) !! Nodes(a) && PNodes(p) !! Nodes(b) && PNodes(p) !! Nodes(d)
      requires elm !in Nodes(a) && elm !in Nodes(b) && elm !in Nodes(d) && elm !in PNodes(p)
      requires tmp !in Nodes(a) && tmp !in Nodes(b) && tmp !in Nodes(d) && tmp !in PNodes(p) && elm != tmp
      requires Rep(a, elm) && Rep(b, tmp) && Rep(d, tmp) && RepPath(p, elm) && elm.parent == TopOf(p)
      requires elm.Child(s) == RootOf(a) && tmp.Child(s) == RootOf(b) && tmp.Child(Other(s)) == RootOf(d)
      modifies this`root, repr`left, repr`right, repr`parent
      ensures Rep(Mk(s, Mk(s, a, elm.color, elm, elm.sleepUsecs, b), tmp.color, tmp, tmp.sleepUsecs, d), TopOf(p))
      ensures RepPath(p, tmp)
    {
      ghost var low := Mk(s, a, elm.color, elm, elm.sleepUsecs, b);
      WfMk(s, a, elm.color, elm, elm.sleepUsecs, b);
      AttachInner(s, elm, tmp, p, a, b, d);
      Hoist(s, elm, tmp, p, low, d);
    }

    method Rotate(s: Side, elm: Coroutine, ghost p: Path<Coroutine>, ghost t: Tree<Coroutine>)
      returns (tmp: Coroutine)
      requires At(p, t) && t.Node? && t.node == elm && Kid(t, Other(s)).Node?
      modifies this`root, repr`left, repr`right, repr`parent
      ensures At(p, RotT(s, t)) && tmp == Kid(t, Other(s)).node
    {
      ghost var u := Kid(t, Other(s));
      RotWf(s, t);
      RepKids(t, TopOf(p));
      RepKids(u, elm);
      tmp := elm.Child(Other(s));
      RotateParts(s, elm, tmp, p, Kid(t, s), Kid(u, s), Kid(u, Other(s)));
    }

    // ------------------------------------------------------ RB_INSERT_COLOR

    /** RB_SET_BLACKRED(parent, gparent), seen from the grandparent afterwards. */
    method SetBlackRed(parent: Coroutine, gparent: Coroutine, ghost p: Path<Coroutine>, ghost t: Tree<Coroutine>)
      requires At(p, t) && p.Step? && p.node == parent && p.up.Step? && p.up.node == gparent
      modifies parent`color, gparent`color
      ensures At(p.up.up, Mk(p.up.side, Mk(p.side, t, Black, p.node, p.key, p.sib),
                             Red, p.up.node, p.up.key, p.up.sib))
    {
      ghost var g := p.up;
      ghost var low := Mk(p.side, t, p.color, p.node, p.key, p.sib);
      Refocus(p.side, t, p.color, p.node, p.key, p.sib, g);
      SetColor(parent, Black, g, low);
      low := low.(color := Black);
      Refocus(g.side, low, g.color, g.node, g.key, g.sib, g.up);
      SetColor(gparent, Red, g.up, Mk(g.side, low, g.color, g.node, g.key, g.sib));
    }

    /** Red uncle: both children of the grandparent turn black, the grandparent red. */
    method InsertRecolor(parent: Coroutine, gparent: Coroutine, uncle: Coroutine, ghost p: Path<Coroutine>,
            ghost t: Tree<Coroutine>)
      requires At(p, t) && p.Step? && p.node == parent && p.up.Step? && p.up.node == gparent
      requires p.up.sib.Node? && p.up.sib.node == uncle
      modifies parent`color, gparent`color, uncle`color
      ensures At(p.up.up, Mk(p.up.side, Mk(p.side, t, Black, p.node, p.key, p.sib),
                             Red, p.up.node, p.up.key, Blacken(p.up.sib)))
    {
      ghost var g := p.up;
      ghost var low := Mk(p.side, t, Black, p.node, p.key, p.sib);
      SetBlackRed(parent, gparent, p, t);
      Refocus(Other(g.side), g.sib, Red, g.node, g.key, low, g.up);
      SetColor(uncle, Black, Step(Other(g.side), Red, g.node, g.key, low, g.up), g.sib);
      Refocus(Other(g.side), Blacken(g.sib), Red, g.node, g.key, low, g.up);
    }

    /** Black uncle, inner child: `elm` and its parent change places. */
    method InsertInner(s: Side, parent: Coroutine, ghost p: Path<Coroutine>, ghost t: Tree<Coroutine>)
      requires At(p, t) && t.Node? && p.Step? && p.node == parent && p.side != s
      modifies this`root, repr`left, repr`right, repr`parent
      ensures At(Step(s, t.color, t.node, t.key, Kid(t, p.side), p.up),
                 Mk(s, p.sib, p.color, p.node, p.key, Kid(t, s)))
    {
      ghost var low := Mk(p.side, t, p.color, p.node, p.key, p.sib);
      Refocus(p.side, t, p.color, p.node, p.key, p.sib, p.up);
      var _ := Rotate(s, parent, p.up, low);
      Refocus(s, Mk(s, p.sib, p.color, p.node, p.key, Kid(t, s)), t.color, t.node, t.key, Kid(t, p.side), p.up);
    }

    /** Black uncle, outer child: the parent rises above the grandparent. */
    method InsertOuter(s: Side, parent: Coroutine, gparent: Coroutine, ghost p: Path<Coroutine>,
            ghost t: Tree<Coroutine>)
      requires At(p, t) && t.Node? && p.Step? && p.node == parent && p.side == s
      requires p.up.Step? && p.up.node == gparent && p.up.side == s
      modifies this`root, repr`left, repr`right, repr`parent, repr`color
      ensures At(Step(s, Black, p.node, p.key, Mk(s, p.sib, Red, p.up.node, p.up.key, p.up.sib), p.up.up), t)
    {
      ghost var g := p.up;
      ghost var low := Mk(s, t, Black, p.node, p.key, p.sib);
      SetBlackRed(parent, gparent, p, t);
      var _ := Rotate(Other(s), gparent, g.up, Mk(s, low, Red, g.node, g.key, g.sib));
      Refocus(s, t, Black, p.node, p.key, Mk(s, p.sib, Red, g.node, g.key, g.sib), g.up);
    }

    /** What the links around a node say about the path above it. */
    lemma View(p: Path<Coroutine>, t: Tree<Coroutine>)
      requires At(p, t)
      ensures t.Node? ==> t.node.parent == TopOf(p) && t.node.color == t.color && t.node.sleepUsecs == t.key
      ensures p.Step? ==>
                && p.node.color == p.color && p.node.parent == TopOf(p.up)
                && p.node.Child(p.side) == RootOf(t) && p.node.Child(Other(p.side)) == RootOf(p.sib)
                && (p.sib.Node? ==> p.sib.node.color == p.sib.color)
                && (t.Node? || p.sib.Node? ==> (p.node.left == RootOf(t) <==> p.side.Left?))
    {
    }

    lemma {:induction false} ZipAt(p: Path<Coroutine>, t: Tree<Coroutine>)
      ensures At(p, t) <==> At(Top, Zip(p, t))
      decreases p
    {
      if p.Step? {
        Refocus(p.side, t, p.color, p.node, p.key, p.sib, p.up);
        ZipAt(p.up, Mk(p.side, t, p.color, p.node, p.key, p.sib));
      }
    }

    /** One round of the loop of RB_INSERT_COLOR. */
    method InsertRound(elm0: Coroutine, ghost p: Path<Coroutine>, ghost t: Tree<Coroutine>)
      returns (elm: Coroutine, ghost q: Path<Coroutine>, ghost r: Tree<Coroutine>)
      requires At(p, t) && InsInv(p, t) && t.node == elm0 && p.Step? && p.color.Red?
      modifies this`root, repr`left, repr`right, repr`parent, repr`color
      ensures At(q, r) && InsInv(q, r) && r.node == elm && Inorder(Zip(q, r)) == Inorder(Zip(p, t))
      ensures PathLen(q) < PathLen(p)
    {
      elm, q, r := elm0, p, t;
      View(p, t);
      var parent := elm.parent;
      var gparent := parent.parent;
      Refocus(p.side, t, p.color, p.node, p.key, p.sib, p.up);
      View(p.up, Mk(p.side, t, p.color, p.node, p.key, p.sib));
      var s := if parent == gparent.left then Left else Right;
      var tmp := gparent.Child(Other(s));
      if tmp != null && tmp.color.Red? {
        InsRecolor(p, t);
        InsertRecolor(parent, gparent, tmp, p, t);
        q, r := p.up.up, Mk(p.up.side, Mk(p.side, t, Black, p.node, p.key, p.sib),
                                Red, p.up.node, p.up.key, Blacken(p.up.sib));
        elm := gparent;
      } else {
        if parent.Child(Other(s)) == elm {
          InsInner(p, t);
          InsertInner(s, parent, p, t);
          q, r := Step(s, Red, t.node, t.key, Kid(t, p.side), p.up), Mk(s, p.sib, Red, p.node, p.key, Kid(t, s));
          elm, parent := parent, elm;
        }
        InsOuter(q, r);
        InsertOuter(s, parent, gparent, q, r);
        q := Step(s, Black, q.node, q.key, Mk(s, q.sib, Red, q.up.node, q.up.key, q.up.sib), q.up.up);
      }
    }

    method InsertColor(elm0: Coroutine, ghost p0: Path<Coroutine>, ghost t0: Tree<Coroutine>)
      returns (ghost tree: Tree<Coroutine>)
      requires At(p0, t0) && InsInv(p0, t0) && t0.node == elm0
      modifies this`root, repr`left, repr`right, repr`parent, repr`color
      ensures At(Top, tree) && IsRB(tree) && Inorder(tree) == Inorder(Zip(p0, t0))
    {
      var elm := elm0;
      ghost var p, t := p0, t0;
      View(p, t);
      while elm.parent != null && elm.parent.color.Red?
        invariant At(p, t) && InsInv(p, t) && t.node == elm && Inorder(Zip(p, t)) == Inorder(Zip(p0, t0))
        invariant elm.parent == TopOf(p) && (p.Step? ==> p.node.color == p.color)
        decreases PathLen(p)
      {
        elm, p, t := InsertRound(elm, p, t);
        View(p, t);
      }
      InsDone(p, t);
      ZipAt(p, t);
      tree := Zip(p, t);
      SetColor(root, Black, Top, tree);
      tree := Blacken(tree);
    }

    // ------------------------------------------------------ RB_REMOVE_COLOR

    /** The same heap seen from the sibling. */
    lemma RefocusSib(p: Path<Coroutine>, t: Tree<Coroutine>)
      requires p.Step?
      ensures At(p, t) <==> At(Step(Other(p.side), p.color, p.node, p.key, t, p.up), p.sib)
    {
    }

    method SetParentColor(x: Coroutine, c: Color, ghost p: Path<Coroutine>, ghost t: Tree<Coroutine>)
      requires At(p, t) && p.Step? && p.node == x
      modifies x`color
      ensures At(p.(color := c), t)
    {
      Refocus(p.side, t, p.color, p.node, p.key, p.sib, p.up);
      SetColor(x, c, p.up, Mk(p.side, t, p.color, p.node, p.key, p.sib));
      Refocus(p.side, t, c, p.node, p.key, p.sib, p.up);
    }

    method SetSiblingColor(x: Coroutine, c: Color, ghost p: Path<Coroutine>, ghost t: Tree<Coroutine>)
      requires At(p, t) && p.Step? && p.sib.Node? && p.sib.node == x
      modifies x`color
      ensures At(p.(sib := p.sib.(color := c)), t)
    {
      RefocusSib(p, t);
      SetColor(x, c, Step(Other(p.side), p.color, p.node, p.key, t, p.up), p.sib);
      RefocusSib(p.(sib := p.sib.(color := c)), t);
    }

    /** Turns the child of the sibling on side `k` black. */
    method BlackenNephew(x: Coroutine, k: Side, ghost p: Path<Coroutine>, ghost t: Tree<Coroutine>)
      requires At(p, t) && p.Step? && p.sib.Node? && Kid(p.sib, k).Node? && Kid(p.sib, k).node == x
      modifies x`color
      ensures At(p.(sib := Mk(k, Blacken(Kid(p.sib, k)), p.sib.color, p.sib.node, p.sib.key, Kid(p.sib, Other(k)))), t)
    {
      ghost var up := Step(Other(p.side), p.color, p.node, p.key, t, p.up);
      ghost var u, v := Kid(p.sib, k), Kid(p.sib, Other(k));
      RefocusSib(p, t);
      Refocus(k, u, p.sib.color, p.sib.node, p.sib.key, v, up);
      SetColor(x, Black, Step(k, p.sib.color, p.sib.node, p.sib.key, v, up), u);
      Refocus(k, Blacken(u), p.sib.color, p.sib.node, p.sib.key, v, up);
      RefocusSib(p.(sib := Mk(k, Blacken(u), p.sib.color, p.sib.node, p.sib.key, v)), t);
    }

    /** Red sibling: it rises above the parent, which becomes red. */
    method RemoveRedSibling(s: Side, parent: Coroutine, tmp: Coroutine, ghost p: Path<Coroutine>,
            ghost t: Tree<Coroutine>)
      requires At(p, t) && p.Step? && p.side == s && p.node == parent && p.sib.Node? && p.sib.node == tmp
      modifies this`root, repr`left, repr`right, repr`parent, repr`color
      ensures At(Step(s, Red, p.node, p.key, Kid(p.sib, s),
                      Step(s, Black, p.sib.node, p.sib.key, Kid(p.sib, Other(s)), p.up)), t)
    {
      SetSiblingColor(tmp, Black, p, t);
      ghost var q := p.(sib := p.sib.(color := Black));
      SetParentColor(parent, Red, q, t);
      Refocus(s, t, Red, p.node, p.key, q.sib, p.up);
      var _ := Rotate(s, parent, p.up, Mk(s, t, Red, p.node, p.key, q.sib));
      ghost var low := Mk(s, t, Red, p.node, p.key, Kid(p.sib, s));
      Refocus(s, low, Black, q.sib.node, q.sib.key, Kid(p.sib, Other(s)), p.up);
      Refocus(s, t, Red, p.node, p.key, Kid(p.sib, s),
              Step(s, Black, q.sib.node, q.sib.key, Kid(p.sib, Other(s)), p.up));
    }

    /** Far nephew black: the near one, turned black, rises above the sibling, turned red. */
    method RemoveNephew(s: Side, tmp: Coroutine, near: Coroutine, ghost p: Path<Coroutine>, ghost t: Tree<Coroutine>)
      requires At(p, t) && p.Step? && p.side == s && p.sib.Node? && p.sib.node == tmp
      requires Kid(p.sib, s).Node? && Kid(p.sib, s).node == near
      modifies this`root, repr`left, repr`right, repr`parent, repr`color
      ensures var u := Kid(p.sib, s);
              At(p.(sib := Mk(s, Kid(u, s), Black, u.node, u.key,
                              Mk(s, Kid(u, Other(s)), Red, p.sib.node, p.sib.key, Kid(p.sib, Other(s))))), t)
    {
      ghost var u, v := Kid(p.sib, s), Kid(p.sib, Other(s));
      BlackenNephew(near, s, p, t);
      ghost var q := p.(sib := Mk(s, Blacken(u), p.sib.color, p.sib.node, p.sib.key, v));
      SetSiblingColor(tmp, Red, q, t);
      q := q.(sib := q.sib.(color := Red));
      RefocusSib(q, t);
      var _ := Rotate(Other(s), tmp, Step(Other(s), p.color, p.node, p.key, t, p.up), q.sib);
      RefocusSib(p.(sib := RotT(Other(s), q.sib)), t);
    }

    /** Far nephew red: the sibling rises above the parent and takes its colour. */
    method RemoveFinal(s: Side, parent: Coroutine, tmp: Coroutine, far: Coroutine, ghost p: Path<Coroutine>,
            ghost t: Tree<Coroutine>)
      requires At(p, t) && p.Step? && p.side == s && p.node == parent && p.sib.Node? && p.sib.node == tmp
      requires Kid(p.sib, Other(s)).Node? && Kid(p.sib, Other(s)).node == far
      modifies this`root, repr`left, repr`right, repr`parent, repr`color
      ensures At(p.up, Mk(s, Mk(s, t, Black, p.node, p.key, Kid(p.sib, s)),
                          p.color, p.sib.node, p.sib.key, Blacken(Kid(p.sib, Other(s)))))
    {
      ghost var u, v := Kid(p.sib, s), Kid(p.sib, Other(s));
      View(p, t);
      SetSiblingColor(tmp, parent.color, p, t);
      ghost var q := p.(sib := p.sib.(color := p.color));
      SetParentColor(parent, Black, q, t);
      q := q.(color := Black);
      BlackenNephew(far, Other(s), q, t);
      q := q.(sib := Mk(s, u, p.color, p.sib.node, p.sib.key, Blacken(v)));
      Refocus(s, t, Black, p.node, p.key, q.sib, p.up);
      var _ := Rotate(s, parent, p.up, Mk(s, t, Black, p.node, p.key, q.sib));
    }

    /** The sibling seen from `parent`, and its children, as the links show them. */
    lemma SiblingView(p: Path<Coroutine>, t: Tree<Coroutine>)
      requires At(p, t) && p.Step? && p.sib.Node?
      ensures p.node.Child(Other(p.side)) == p.sib.node && p.sib.node.color == p.sib.color
      ensures forall k: Side :: p.sib.node.Child(k) == RootOf(Kid(p.sib, k))
      ensures forall k: Side :: Kid(p.sib, k).Node? ==> Kid(p.sib, k).node.color == Kid(p.sib, k).color
    {
      forall k: Side
        ensures p.sib.node.Child(k) == RootOf(Kid(p.sib, k))
        ensures Kid(p.sib, k).Node? ==> Kid(p.sib, k).node.color == Kid(p.sib, k).color
      {
        RepKids(p.sib, p.node);
        assert Rep(Kid(p.sib, k), p.sib.node);
      }
    }

    /** One round of the loop of RB_REMOVE_COLOR; `done` tells that it left by its break. */
    method RemoveRound(s: Side, elm0: Coroutine?, parent0: Coroutine, ghost p: Path<Coroutine>,
            ghost t: Tree<Coroutine>)
      returns (elm: Coroutine?, parent: Coroutine?, done: bool, ghost q: Path<Coroutine>, ghost r: Tree<Coroutine>)
      requires At(p, t) && RemInv(p, t) && !IsRed(t) && RootOf(t) == elm0
      requires p.Step? && p.node == parent0 && p.side == s
      modifies this`root, repr`left, repr`right, repr`parent, repr`color
      ensures At(q, r) && Inorder(Zip(q, r)) == Inorder(Zip(p, t))
      ensures done ==> IsRB(Zip(q, r)) && elm == root
      ensures !done ==> RemInv(q, r) && RootOf(r) == elm && TopOf(q) == parent
      ensures !done ==> IsRed(r) || PathLen(q) < PathLen(p)
    {
      q := p;
      SiblingExists(p, t);
      SiblingView(p, t);
      var tmp := parent0.Child(Other(s));
      if tmp.color.Red? {
        RemRedSibling(p, t);
        RemoveRedSibling(s, parent0, tmp, p, t);
        q := Step(s, Red, p.node, p.key, Kid(p.sib, s),
             Step(s, Black, p.sib.node, p.sib.key, Kid(p.sib, Other(s)), p.up));
        SiblingView(q, t);
        tmp := parent0.Child(Other(s));
      }
      elm, parent, done, q, r := RemoveBlackSibling(s, parent0, tmp, q, t);
    }

    /** The rest of a round, once the sibling `tmp` is black. */
    method RemoveBlackSibling(s: Side, parent0: Coroutine, tmp: Coroutine, ghost p: Path<Coroutine>,
            ghost t: Tree<Coroutine>)
      returns (elm: Coroutine?, parent: Coroutine?, done: bool, ghost q: Path<Coroutine>, ghost r: Tree<Coroutine>)
      requires At(p, t) && RemInv(p, t) && !IsRed(t) && p.Step? && p.node == parent0 && p.side == s
      requires p.sib.Node? && p.sib.color.Black? && p.sib.node == tmp
      modifies this`root, repr`left, repr`right, repr`parent, repr`color
      ensures At(q, r) && Inorder(Zip(q, r)) == Inorder(Zip(p, t))
      ensures done ==> IsRB(Zip(q, r)) && elm == root
      ensures !done ==> RemInv(q, r) && RootOf(r) == elm && TopOf(q) == parent
      ensures !done ==> q == p.up && r.Node? && r.color == p.color
    {
      SiblingView(p, t);
      var near, far := tmp.Child(s), tmp.Child(Other(s));
      if (near == null || near.color.Black?) && (far == null || far.color.Black?) {
        RemRecolor(p, t);
        SetSiblingColor(tmp, Red, p, t);
        q, r := p.up, Mk(s, t, p.color, p.node, p.key, p.sib.(color := Red));
        Refocus(s, t, p.color, p.node, p.key, p.sib.(color := Red), q);
        View(q, r);
        elm, parent, done := parent0, parent0.parent, false;
      } else {
        q, r := RemoveLast(s, parent0, tmp, p, t);
        elm, parent, done := root, parent0, true;
      }
    }

    /** The last two cases, after which the loop stops. */
    method RemoveLast(s: Side, parent: Coroutine, tmp0: Coroutine, ghost p: Path<Coroutine>, ghost t: Tree<Coroutine>)
      returns (ghost q: Path<Coroutine>, ghost r: Tree<Coroutine>)
      requires At(p, t) && RemInv(p, t) && !IsRed(t) && p.Step? && p.side == s && p.node == parent
      requires p.sib.Node? && p.sib.color.Black? && p.sib.node == tmp0
      requires IsRed(p.sib.left) || IsRed(p.sib.right)
      modifies this`root, repr`left, repr`right, repr`parent, repr`color
      ensures At(q, r) && IsRB(Zip(q, r)) && Inorder(Zip(q, r)) == Inorder(Zip(p, t))
    {
      var tmp := tmp0;
      q := p;
      SiblingView(p, t);
      var far := tmp.Child(Other(s));
      if far == null || far.color.Black? {
        RemNephew(p, t);
        RemoveNephew(s, tmp, tmp.Child(s), p, t);
        ghost var u := Kid(p.sib, s);
        q := p.(sib := Mk(s, Kid(u, s), Black, u.node, u.key,
                          Mk(s, Kid(u, Other(s)), Red, p.sib.node, p.sib.key, Kid(p.sib, Other(s)))));
        SiblingView(q, t);
        tmp := parent.Child(Other(s));
      }
      RemFinal(q, t);
      RemoveFinal(s, parent, tmp, tmp.Child(Other(s)), q, t);
      r := Mk(s, Mk(s, t, Black, q.node, q.key, Kid(q.sib, s)),
              q.color, q.sib.node, q.sib.key, Blacken(Kid(q.sib, Other(s))));
      q := q.up;
    }

    lemma {:induction false} RootAbove(p: Path<Coroutine>, child: Coroutine?)
      requires RepPath(p, child) && p.Step?
      ensures root != null && root in PNodes(p)
    {
      if p.up.Step? { RootAbove(p.up, p.node); }
    }

    method RemoveColor(parent0: Coroutine?, elm0: Coroutine?, ghost p0: Path<Coroutine>, ghost t0: Tree<Coroutine>)
      returns (ghost tree: Tree<Coroutine>)
      requires At(p0, t0) && RemInv(p0, t0) && elm0 == RootOf(t0) && parent0 == TopOf(p0)
      modifies this`root, repr`left, repr`right, repr`parent, repr`color
      ensures At(Top, tree) && IsRB(tree) && Inorder(tree) == Inorder(Zip(p0, t0))
    {
      var elm, parent, done := elm0, parent0, false;
      ghost var p, t := p0, t0;
      View(p, t);
      if p.Step? { RootAbove(p, elm); }
      while !done && (elm == null || elm.color.Black?) && elm != root
        invariant At(p, t) && Inorder(Zip(p, t)) == Inorder(Zip(p0, t0))
        invariant done ==> IsRB(Zip(p, t)) && elm == root
        invariant !done ==> RemInv(p, t) && elm == RootOf(t) && parent == TopOf(p)
        invariant !done && elm != null ==> elm.color == t.color
        invariant !done ==> (elm == root <==> p.Top?)
        decreases if done || IsRed(t) then 0 else 1 + PathLen(p)
      {
        SiblingExists(p, t);
        View(p, t);
        var s := if parent.left == elm then Left else Right;
        elm, parent, done, p, t := RemoveRound(s, elm, parent, p, t);
        View(p, t);
        if p.Step? { RootAbove(p, RootOf(t)); }
      }
      ZipAt(p, t);
      tree := Zip(p, t);
      if done {
        if elm != null {
          SetColor(elm, Black, Top, tree);
        }
      } else {
        RemDone(p, t);
        if elm != null {
          SetColor(elm, Black, p, t);
        }
        ZipAt(p, Blacken(t));
        ZipInorder(p, t);
        ZipInorder(p, Blacken(t));
        tree := Zip(p, Blacken(t));
      }
    }

    // ------------------------------------------------- searching and inserting

    /** RB_FIND: the node with key `k`, or null when no sleeper has it. */
    method Find(k: nat) returns (tmp: Coroutine?)
      requires Valid()
      ensures tmp != null ==> tmp in repr && Entry(k, tmp) in Elems()
      ensures tmp == null <==> !HasKey(Elems(), k)
    {
      tmp := root;
      ghost var p, t := Top, tree;
      while tmp != null
        invariant At(p, t) && tmp == RootOf(t) && Zip(p, t) == tree
        invariant Over(Before(p), k) && Below(k, After(p))
        decreases t
      {
        View(p, t);
        if tmp.sleepUsecs == k {
          ZipInorder(p, t);
          assert Elems()[|Before(p)| + |Inorder(t.left)|] == Entry(k, tmp);
          return;
        }
        Descend(p, t, k);
        RepKids(t, TopOf(p));
        var s := if k < tmp.sleepUsecs then Left else Right;
        Refocus(s, Kid(t, s), t.color, t.node, t.key, Kid(t, Other(s)), p);
        tmp := tmp.Child(s);
        p, t := Step(s, t.color, t.node, t.key, Kid(t, Other(s)), p), Kid(t, s);
      }
      ZipInorder(p, t);
    }

    /** RB_MINMAX: the first sleeper for a negative `val`, the last one otherwise. */
    method MinMax(val: int) returns (parent: Coroutine?)
      requires Valid()
      ensures parent == null <==> Elems() == []
      ensures parent != null ==> parent in repr
      ensures parent != null && val < 0 ==> Elems()[0] == Entry(parent.sleepUsecs, parent)
      ensures parent != null && val >= 0 ==> Elems()[|Elems()| - 1] == Entry(parent.sleepUsecs, parent)
    {
      var tmp := root;
      parent := null;
      ghost var p, t := Top, tree;
      while tmp != null
        invariant At(p, t) && tmp == RootOf(t) && parent == TopOf(p) && Zip(p, t) == tree
        invariant val < 0 ==> Before(p) == [] && (p.Step? ==> p.side.Left?)
        invariant val >= 0 ==> After(p) == [] && (p.Step? ==> p.side.Right?)
        decreases t
      {
        parent := tmp;
        RepKids(t, TopOf(p));
        var s := if val < 0 then Left else Right;
        Refocus(s, Kid(t, s), t.color, t.node, t.key, Kid(t, Other(s)), p);
        tmp := tmp.Child(s);
        p, t := Step(s, t.color, t.node, t.key, Kid(t, Other(s)), p), Kid(t, s);
      }
      ZipInorder(p, t);
    }

    /** Hangs `c` from `parent` on side `s`, or makes it the root. */
    method Hang(c: Coroutine, parent: Coroutine?, s: Side, ghost p: Path<Coroutine>, ghost was: Coroutine?)
      requires PWf(p) && PNodes(p) <= repr && RepPath(p, was) && parent == TopOf(p) && (p.Step? ==> p.side == s)
      modifies this`root, PNodes(p)`left, PNodes(p)`right
      ensures RepPath(p, c)
    {
      if parent != null {
        if s.Left? { parent.left := c; } else { parent.right := c; }
        assert Rep(p.sib, parent) && RepPath(p.up, parent);
      } else {
        root := c;
      }
    }

    /** RB_SET and the link from `parent`: `elm` becomes a red leaf. */
    method Place(elm: Coroutine, parent: Coroutine?, s: Side, ghost p: Path<Coroutine>)
      requires At(p, Leaf) && parent == TopOf(p) && elm !in repr && (p.Step? ==> p.side == s)
      modifies this`root, this`repr, repr`left, repr`right, elm`left, elm`right, elm`parent, elm`color
      ensures repr == old(repr) + {elm}
      ensures At(p, Node(Leaf, Red, elm, elm.sleepUsecs, Leaf))
    {
      elm.parent := parent;
      elm.left, elm.right, elm.color := null, null, Red;
      assert RepPath(p, null);
      Hang(elm, parent, s, p, null);
      repr := repr + {elm};
      assert RepPath(p, elm);
    }

    /** The search of RB_INSERT: the node with key `k`, or the place for one. */
    method InsertionPoint(k: nat) returns (tmp: Coroutine?, parent: Coroutine?, s: Side, ghost p: Path<Coroutine>)
      requires Valid()
      ensures tmp != null ==> Entry(k, tmp) in Elems()
      ensures tmp == null ==>
                && At(p, Leaf) && Zip(p, Leaf) == tree && parent == TopOf(p) && (p.Step? ==> p.side == s)
                && Elems() == Before(p) + After(p) && Over(Before(p), k) && Below(k, After(p))
    {
      tmp, parent, s, p := root, null, Left, Top;
      ghost var t := tree;
      while tmp != null
        invariant At(p, t) && tmp == RootOf(t) && Zip(p, t) == tree
        invariant parent == TopOf(p) && (p.Step? ==> p.side == s)
        invariant Over(Before(p), k) && Below(k, After(p))
        decreases t
      {
        View(p, t);
        if k == tmp.sleepUsecs {
          ZipInorder(p, t);
          assert Elems()[|Before(p)| + |Inorder(t.left)|] == Entry(k, tmp);
          return;
        }
        parent := tmp;
        Descend(p, t, k);
        RepKids(t, TopOf(p));
        s := if k < tmp.sleepUsecs then Left else Right;
        Refocus(s, Kid(t, s), t.color, t.node, t.key, Kid(t, Other(s)), p);
        tmp := tmp.Child(s);
        p, t := Step(s, t.color, t.node, t.key, Kid(t, Other(s)), p), Kid(t, s);
      }
      ZipInorder(p, t);
    }

    /** The rest of RB_INSERT, at the place the search found. */
    method InsertAt(elm: Coroutine, parent: Coroutine?, s: Side, ghost p: Path<Coroutine>)
      requires At(p, Leaf) && parent == TopOf(p) && (p.Step? ==> p.side == s) && elm !in repr
      requires IsRB(Zip(p, Leaf)) && Sorted(Before(p) + After(p))
      requires Over(Before(p), elm.sleepUsecs) && Below(elm.sleepUsecs, After(p))
      modifies this, repr`left, repr`right, repr`parent, repr`color, elm`left, elm`right, elm`parent, elm`color
      ensures Valid() && repr == old(repr) + {elm}
      ensures Elems() == InsertSorted(Before(p) + After(p), Entry(elm.sleepUsecs, elm))
    {
      InsLeaf(p, elm.sleepUsecs, elm);
      Place(elm, parent, s, p);
      tree := InsertColor(elm, p, Node(Leaf, Red, elm, elm.sleepUsecs, Leaf));
    }

    /** RB_INSERT: returns the node that already has the key, or adds `elm`. */
    method Insert(elm: Coroutine) returns (tmp: Coroutine?)
      requires Valid() && elm !in repr
      modifies this, repr`left, repr`right, repr`parent, repr`color, elm`left, elm`right, elm`parent, elm`color
      ensures Valid()
      ensures tmp != null <==> HasKey(old(Elems()), elm.sleepUsecs)
      ensures tmp != null ==> Entry(elm.sleepUsecs, tmp) in Elems()
                              && unchanged(this) && unchanged(repr) && unchanged(elm)
      ensures tmp == null ==> repr == old(repr) + {elm}
      ensures tmp == null ==> Elems() == InsertSorted(old(Elems()), Entry(elm.sleepUsecs, elm))
    {
      var parent, s;
      ghost var p;
      tmp, parent, s, p := InsertionPoint(elm.sleepUsecs);
      if tmp == null {
        InsertAt(elm, parent, s, p);
      }
    }

    // -------------------------------------------------------------- RB_REMOVE

    /** A node of the tree is the root of some subtree of it. */
    lemma Locate(n: Coroutine, p: Path<Coroutine>, t: Tree<Coroutine>)
      returns (q: Path<Coroutine>, r: Tree<Coroutine>)
      requires At(p, t) && n in Nodes(t)
      ensures At(q, r) && r.Node? && r.node == n && Zip(q, r) == Zip(p, t)
      decreases t
    {
      if t.node == n {
        q, r := p, t;
      } else {
        var s := if n in Nodes(t.left) then Left else Right;
        Refocus(s, Kid(t, s), t.color, t.node, t.key, Kid(t, Other(s)), p);
        q, r := Locate(n, Step(s, t.color, t.node, t.key, Kid(t, Other(s)), p), Kid(t, s));
      }
    }

    /** Replaces `elm` by its only child. */
    method Splice(elm: Coroutine, child: Coroutine?, s: Side, ghost p: Path<Coroutine>, ghost t: Tree<Coroutine>)
      requires At(p, t) && t.Node? && t.node == elm && Kid(t, s).Leaf? && child == RootOf(Kid(t, Other(s)))
      modifies this`root, this`repr, PNodes(p)`left, PNodes(p)`right, if child == null then {} else {child}`parent
      ensures repr == old(repr) - {elm}
      ensures At(p, Kid(t, Other(s)))
    {
      ghost var ct := Kid(t, Other(s));
      RepKids(t, TopOf(p));
      Adopt(child, elm.parent, ct, elm);
      assert RepPath(p, elm);
      Relink(elm, child, p);
      assert Rep(ct, TopOf(p));
      repr := repr - {elm};
    }

    method AdoptBoth(was: Coroutine, elm: Coroutine, ghost l: Tree<Coroutine>, ghost r: Tree<Coroutine>)
      requires Wf(l) && Wf(r) && Nodes(l) !! Nodes(r) && Nodes(l) <= repr && Nodes(r) <= repr
      requires was !in Nodes(l) && was !in Nodes(r)
      requires Rep(l, was) && Rep(r, was) && was.left == RootOf(l) && was.right == RootOf(r)
      modifies Nodes(l)`parent, Nodes(r)`parent
      ensures Rep(l, elm) && Rep(r, elm)
    {
      Adopt(was.left, elm, l, was);
      assert Rep(r, was);
      Adopt(was.right, elm, r, was);
      assert Rep(l, elm);
    }

    /** `elm`, a copy of `was`, takes its place above the subtrees `l` and `r`. */
    method TakeOver(was: Coroutine, elm: Coroutine, ghost p: Path<Coroutine>, ghost l: Tree<Coroutine>,
            ghost r: Tree<Coroutine>)
      requires PWf(p) && PNodes(p) <= repr && Wf(l) && Wf(r) && Nodes(l) <= repr && Nodes(r) <= repr
      requires was in repr && elm !in repr
      requires was !in Nodes(l) && was !in Nodes(r) && was !in PNodes(p)
      requires Nodes(l) !! Nodes(r) && Nodes(l) !! PNodes(p) && Nodes(r) !! PNodes(p)
      requires Rep(l, was) && Rep(r, was) && RepPath(p, was) && was.parent == TopOf(p)
      requires was.left == RootOf(l) && was.right == RootOf(r)
      requires elm.left == was.left && elm.right == was.right && elm.parent == was.parent && elm.color == was.color
      modifies this`root, PNodes(p)`left, PNodes(p)`right, Nodes(l)`parent, Nodes(r)`parent
      ensures Rep(Node(l, was.color, elm, elm.sleepUsecs, r), TopOf(p)) && RepPath(p, elm)
    {
      Relink(was, elm, p);
      assert Rep(l, was) && Rep(r, was);
      AdoptBoth(was, elm, l, r);
      assert RepPath(p, elm);
    }

    /** The copy of the links and the colour, and then the place. */
    method CopyOver(was: Coroutine, elm: Coroutine, ghost p: Path<Coroutine>,
                    ghost l: Tree<Coroutine>, ghost r: Tree<Coroutine>)
      requires PWf(p) && PNodes(p) <= repr && Wf(l) && Wf(r) && Nodes(l) <= repr && Nodes(r) <= repr
      requires was in repr && elm !in repr
      requires was !in Nodes(l) && was !in Nodes(r) && was !in PNodes(p)
      requires Nodes(l) !! Nodes(r) && Nodes(l) !! PNodes(p) && Nodes(r) !! PNodes(p)
      requires Rep(l, was) && Rep(r, was) && RepPath(p, was) && was.parent == TopOf(p)
      requires was.left == RootOf(l) && was.right == RootOf(r)
      modifies this`root, PNodes(p)`left, PNodes(p)`right, Nodes(l)`parent, Nodes(r)`parent
      modifies elm`left, elm`right, elm`parent, elm`color
      ensures Rep(Node(l, was.color, elm, elm.sleepUsecs, r), TopOf(p)) && RepPath(p, elm)
    {
      elm.left, elm.right, elm.parent, elm.color := was.left, was.right, was.parent, was.color;
      assert Rep(l, was) && Rep(r, was) && RepPath(p, was);
      TakeOver(was, elm, p, l, r);
    }

    method Replace(was: Coroutine, elm: Coroutine, ghost p: Path<Coroutine>, ghost t: Tree<Coroutine>)
      requires At(p, t) && t.Node? && t.node == was && elm !in repr
      modifies this`root, this`repr, repr`left, repr`right, repr`parent, elm`left, elm`right, elm`parent, elm`color
      ensures repr == old(repr) - {was} + {elm}
      ensures At(p, Node(t.left, t.color, elm, elm.sleepUsecs, t.right))
    {
      CopyOver(was, elm, p, t.left, t.right);
      repr := repr - {was} + {elm};
    }

    /** The leftmost node of the right subtree: the next one in order. */
    method Successor(was: Coroutine, ghost p: Path<Coroutine>, ghost t: Tree<Coroutine>)
      returns (elm: Coroutine, ghost q: Path<Coroutine>, ghost m: Tree<Coroutine>)
      requires At(p, t) && t.Node? && t.node == was && t.right.Node?
      ensures var from := App(q, Step(Right, t.color, was, t.key, t.left, p));
              At(from, m) && Zip(from, m) == Zip(p, t)
      ensures LeftSpine(q) && m.Node? && m.left.Leaf? && m.node == elm
      ensures Inorder(t.right) != [] && Inorder(t.right)[0].node == elm
    {
      ghost var base := Step(Right, t.color, was, t.key, t.left, p);
      Refocus(Right, t.right, t.color, was, t.key, t.left, p);
      RepKids(t, TopOf(p));
      elm, q, m := was.right, Top, t.right;
      RepKids(m, was);
      while elm.left != null
        invariant At(App(q, base), m) && Zip(App(q, base), m) == Zip(p, t)
        invariant LeftSpine(q) && m.Node? && m.node == elm && elm.left == RootOf(m.left) && Zip(q, m) == t.right
        decreases m
      {
        Refocus(Left, m.left, m.color, elm, m.key, m.right, App(q, base));
        RepKids(m, TopOf(App(q, base)));
        elm := elm.left;
        q, m := Step(Left, m.color, m.node, m.key, m.right, q), m.left;
        RepKids(m, TopOf(App(q, base)));
      }
      ZipInorder(q, m);
      SpineFirst(q);
    }

    lemma {:induction false} AppAt(q: Path<Coroutine>, base: Path<Coroutine>, t: Tree<Coroutine>)
      ensures At(App(q, base), t) <==> At(base, Zip(q, t))
      decreases q
    {
      if q.Step? {
        Refocus(q.side, t, q.color, q.node, q.key, q.sib, App(q.up, base));
        AppAt(q.up, base, Mk(q.side, t, q.color, q.node, q.key, q.sib));
      }
    }

    /** `elm` takes the place of `base.node`, seen from a subtree below it. */
    method SwapIn(was: Coroutine, elm: Coroutine, ghost q: Path<Coroutine>, ghost base: Path<Coroutine>,
            ghost t: Tree<Coroutine>)
      requires base.Step? && base.side.Right? && base.node == was && At(App(q, base), t) && elm !in repr
      modifies this`root, this`repr, repr`left, repr`right, repr`parent, elm`left, elm`right, elm`parent, elm`color
      ensures repr == old(repr) - {was} + {elm}
      ensures At(App(q, base.(node := elm, key := elm.sleepUsecs)), t)
    {
      ghost var r := Zip(q, t);
      AppAt(q, base, t);
      Refocus(Right, r, base.color, was, base.key, base.sib, base.up);
      Replace(was, elm, base.up, Node(base.sib, base.color, was, base.key, r));
      Refocus(Right, r, base.color, elm, elm.sleepUsecs, base.sib, base.up);
      AppAt(q, base.(node := elm, key := elm.sleepUsecs), t);
    }

    lemma {:induction false} TopInPath(q: Path<Coroutine>, base: Path<Coroutine>)
      requires base.Step? && PWf(App(q, base))
      ensures q.Step? ==> q.node != base.node && base.node in PNodes(App(q.up, base))
    {
      if q.Step? {
        assert PWf(App(q.up, base)) && q.node !in PNodes(App(q.up, base));
        TopInPath(q.up, base);
      }
    }

    /** A node with two children: its successor is cut out and put in its place. */
    method RemoveTwo(was: Coroutine, ghost p: Path<Coroutine>, ghost t: Tree<Coroutine>)
      returns (parent: Coroutine?, child: Coroutine?, color: Color, ghost to: Path<Coroutine>,
              ghost ct: Tree<Coroutine>)
      requires At(p, t) && t.Node? && t.node == was && t.right.Node?
      requires IsRB(Zip(p, t)) && Sorted(Inorder(Zip(p, t)))
      modifies this`root, this`repr, repr`left, repr`right, repr`parent, repr`color
      ensures repr == old(repr) - {was}
      ensures At(to, ct) && Cut(color, to, ct) && parent == TopOf(to) && child == RootOf(ct)
      ensures Inorder(Zip(to, ct)) == WithoutKey(Inorder(Zip(p, t)), t.key) && Sorted(Inorder(Zip(to, ct)))
    {
      var elm;
      ghost var q, m;
      elm, q, m := Successor(was, p, t);
      ghost var base := Step(Right, t.color, was, t.key, t.left, p);
      CutTwo(q, base, m);
      parent, child, color, to, ct := CutOut(was, elm, q, base, m);
    }

    method CutOut(was: Coroutine, elm: Coroutine, ghost q: Path<Coroutine>, ghost base: Path<Coroutine>,
            ghost m: Tree<Coroutine>)
      returns (parent: Coroutine?, child: Coroutine?, color: Color, ghost to: Path<Coroutine>,
              ghost ct: Tree<Coroutine>)
      requires base.Step? && base.side.Right? && base.node == was && At(App(q, base), m)
      requires m.Node? && m.left.Leaf? && m.node == elm
      modifies this`root, this`repr, repr`left, repr`right, repr`parent, repr`color
      ensures repr == old(repr) - {was} && color == m.color && ct == m.right
      ensures to == App(q, base.(node := elm, key := m.key))
      ensures At(to, ct) && parent == TopOf(to) && child == RootOf(ct)
    {
      View(App(q, base), m);
      TopInPath(q, base);
      child, parent, color, ct := elm.right, elm.parent, elm.color, m.right;
      Splice(elm, child, Left, App(q, base), m);
      if elm.parent == was {
        parent := elm;
      }
      SwapIn(was, elm, q, base, ct);
      to := App(q, base.(node := elm, key := m.key));
    }

    method RemoveOne(elm: Coroutine, s: Side, ghost p: Path<Coroutine>, ghost t: Tree<Coroutine>)
      returns (parent: Coroutine?, child: Coroutine?, color: Color, ghost to: Path<Coroutine>,
              ghost ct: Tree<Coroutine>)
      requires At(p, t) && t.Node? && t.node == elm && Kid(t, s).Leaf?
      requires IsRB(Zip(p, t)) && Sorted(Inorder(Zip(p, t)))
      modifies this`root, this`repr, repr`left, repr`right, repr`parent, repr`color
      ensures repr == old(repr) - {elm}
      ensures At(to, ct) && Cut(color, to, ct) && parent == TopOf(to) && child == RootOf(ct)
      ensures Inorder(Zip(to, ct)) == WithoutKey(Inorder(Zip(p, t)), t.key) && Sorted(Inorder(Zip(to, ct)))
    {
      View(p, t);
      RepKids(t, TopOf(p));
      CutOne(p, t, s);
      to, ct := p, Kid(t, Other(s));
      child, parent, color := elm.Child(Other(s)), elm.parent, elm.color;
      Splice(elm, child, s, p, t);
    }

    /** The end of RB_REMOVE: repairs the colours when a black node was cut. */
    method Repair(parent: Coroutine?, child: Coroutine?, color: Color, ghost to: Path<Coroutine>,
            ghost ct: Tree<Coroutine>)
      requires At(to, ct) && Cut(color, to, ct) && parent == TopOf(to) && child == RootOf(ct)
      requires Sorted(Inorder(Zip(to, ct)))
      modifies this`root, this`tree, repr`left, repr`right, repr`parent, repr`color
      ensures Valid() && Elems() == Inorder(Zip(to, ct))
    {
      if color.Black? {
        tree := RemoveColor(parent, child, to, ct);
      } else {
        ZipAt(to, ct);
        tree := Zip(to, ct);
      }
    }

    method Unlink(elm: Coroutine, ghost p: Path<Coroutine>, ghost t: Tree<Coroutine>)
      returns (parent: Coroutine?, child: Coroutine?, color: Color, ghost to: Path<Coroutine>,
              ghost ct: Tree<Coroutine>)
      requires At(p, t) && t.Node? && t.node == elm && IsRB(Zip(p, t)) && Sorted(Inorder(Zip(p, t)))
      modifies this`root, this`repr, repr`left, repr`right, repr`parent, repr`color
      ensures repr == old(repr) - {elm}
      ensures At(to, ct) && Cut(color, to, ct) && parent == TopOf(to) && child == RootOf(ct)
      ensures Inorder(Zip(to, ct)) == WithoutKey(Inorder(Zip(p, t)), t.key) && Sorted(Inorder(Zip(to, ct)))
    {
      if elm.left == null {
        parent, child, color, to, ct := RemoveOne(elm, Left, p, t);
      } else if elm.right == null {
        parent, child, color, to, ct := RemoveOne(elm, Right, p, t);
      } else {
        parent, child, color, to, ct := RemoveTwo(elm, p, t);
      }
    }

    /** RB_REMOVE: the sleepers are the old ones without `elm`. */
    method Remove(elm: Coroutine)
      requires Valid() && elm in repr
      modifies this, repr`left, repr`right, repr`parent, repr`color
      ensures Valid() && repr == old(repr) - {elm}
      ensures Elems() == WithoutKey(old(Elems()), elm.sleepUsecs)
    {
      ghost var p, t := Locate(elm, Top, tree);
      View(p, t);
      var parent, child, color;
      ghost var to, ct;
      parent, child, color, to, ct := Unlink(elm, p, t);
      Repair(parent, child, color, to, ct);
    }
  }
}
