/**
  The red-black tree of libosmocore/src/rbtree.c, updated in place.  Every method follows the C
  function of the same name; the ghost path and subtree say where in the tree it works.
 */
module RbTree {
  import opened RbTrees
  import opened RbHeap

  class Root {
    var node: Node?
    ghost var nodes: set<Node>
    ghost var tree: Tree

    /** Links, parent links and colours of exactly `nodes` form the red-black tree `tree`. */
    ghost predicate Valid()
      reads this, nodes`left, nodes`right, nodes`parent, nodes`red
    {
      Zip(Snap(), node, Top, tree) && RedBlack(tree)
    }

    ghost function Order(): seq<Node>
      reads this
    {
      InOrder(tree)
    }

    ghost function Snap(): Heap
      reads `nodes, nodes`left, nodes`right, nodes`parent, nodes`red
    {
      map n | n in nodes :: Cell(n.left, n.right, n.parent, n.red)
    }

    constructor ()
      ensures Valid() && nodes == {} && Order() == []
    {
      node, nodes, tree := null, {}, Leaf;
    }

    // ---- rotations ----

    method RotateLeft(x: Node)
      requires x.right != null && x.right != x && x.parent != x && x.parent != x.right
      requires x.right.left != null ==> x.right.left !in {x, x.right} && x.right.left != x.parent
      modifies `node, x`right, x`parent, x.right`left, x.right`parent
      modifies if x.right.left == null then {} else {x.right.left}`parent
      modifies if x.parent == null then {} else {x.parent}`left
      modifies if x.parent == null then {} else {x.parent}`right
      ensures x.right == old(x.right.left) && x.parent == old(x.right)
      ensures old(x.right).left == x && old(x.right).parent == old(x.parent)
      ensures old(x.right.left) != null ==> old(x.right.left).parent == x
      ensures old(x.parent) != null ==>
                && old(x.parent).left == (if old(x.parent.left) == x then old(x.right) else old(x.parent.left))
                && old(x.parent).right == (if old(x.parent.left) == x then old(x.parent.right) else old(x.right))
      ensures node == if old(x.parent) == null then old(x.right) else old(node)
    {
      var right := x.right;
      var parent := x.parent;
      x.right := right.left;
      if x.right != null {
        right.left.parent := x;
      }
      right.left := x;
      right.parent := parent;
      if parent != null {
        if x == parent.left {
          parent.left := right;
        } else {
          parent.right := right;
        }
      } else {
        node := right;
      }
      x.parent := right;
    }

    method RotateRight(x: Node)
      requires x.left != null && x.left != x && x.parent != x && x.parent != x.left
      requires x.left.right != null ==> x.left.right !in {x, x.left} && x.left.right != x.parent
      modifies `node, x`left, x`parent, x.left`right, x.left`parent
      modifies if x.left.right == null then {} else {x.left.right}`parent
      modifies if x.parent == null then {} else {x.parent}`left
      modifies if x.parent == null then {} else {x.parent}`right
      ensures x.left == old(x.left.right) && x.parent == old(x.left)
      ensures old(x.left).right == x && old(x.left).parent == old(x.parent)
      ensures old(x.left.right) != null ==> old(x.left.right).parent == x
      ensures old(x.parent) != null ==>
                && old(x.parent).right == (if old(x.parent.right) == x then old(x.left) else old(x.parent.right))
                && old(x.parent).left == (if old(x.parent.right) == x then old(x.parent.left) else old(x.left))
      ensures node == if old(x.parent) == null then old(x.left) else old(node)
    {
      var left := x.left;
      var parent := x.parent;
      x.left := left.right;
      if x.left != null {
        left.right.parent := x;
      }
      left.right := x;
      left.parent := parent;
      if parent != null {
        if x == parent.right {
          parent.right := left;
        } else {
          parent.left := left;
        }
      } else {
        node := left;
      }
      x.parent := left;
    }

    /** `RotateLeft` rotates the represented subtree and keeps all links consistent. */
    method RotateLeftAt(x: Node, ghost p: Path, ghost t: Tree)
      requires t.Fork? && t.r.Fork? && t.n == x && Zip(Snap(), node, p, t)
      modifies `node, nodes`left, nodes`right, nodes`parent
      ensures Zip(Snap(), node, p, RotL(t))
    {
      hide Zip;
      ghost var h, root := Snap(), node;
      RotLSite(h, root, p, t);
      RotateLeft(x);
      RotatedLeft(h, Snap(), root, node, p, t);
    }

    method RotateRightAt(x: Node, ghost p: Path, ghost t: Tree)
      requires t.Fork? && t.l.Fork? && t.n == x && Zip(Snap(), node, p, t)
      modifies `node, nodes`left, nodes`right, nodes`parent
      ensures Zip(Snap(), node, p, RotR(t))
    {
      hide Zip;
      ghost var h, root := Snap(), node;
      RotRSite(h, root, p, t);
      RotateRight(x);
      RotatedRight(h, Snap(), root, node, p, t);
    }

    method SetColor(x: Node, red: bool, ghost p: Path, ghost t: Tree)
      requires t.Fork? && t.n == x && Zip(Snap(), node, p, t)
      modifies nodes`red
      ensures Zip(Snap(), node, p, t.(red := red))
    {
      ghost var h := Snap();
      x.red := red;
      assert Snap() == h[x := h[x].(red := red)];
      Painted(h, Snap(), node, p, t, red);
    }

    // ---- rb_insert_color ----

    /** The branch for a red uncle, whichever side it is on. */
    method RecolourUncle(uncle: Node, parent: Node, gparent: Node, ghost p: Path, ghost t: Tree)
      requires Zip(Snap(), node, p, t) && !p.Top? && !p.up.Top? && p.up.sib.Fork?
      requires parent == p.n && gparent == p.up.n && uncle == p.up.sib.n
      modifies nodes`red
      ensures Zip(Snap(), node, p.up.up, Recoloured(p, t))
    {
      hide Zip;
      ghost var g, par := p.up, Up(p, t);
      ghost var uncle' := Paint(g.sib, false);
      ZipUp(Snap(), node, p, t);
      ZipSwap(Snap(), node, g, par);
      SetColor(uncle, false, Sibling(g, par), g.sib);
      ZipSwap(Snap(), node, Sibling(g, par), uncle');
      SetColor(parent, false, g.(sib := uncle'), par);
      ZipUp(Snap(), node, g.(sib := uncle'), Paint(par, false));
      SetColor(gparent, true, g.up, Up(g.(sib := uncle'), Paint(par, false)));
    }

    /** The parent is a left child and the uncle is black or absent. */
    method RestoreLeft(x: Node, parent: Node, gparent: Node, ghost p: Path, ghost t: Tree)
      returns (x': Node)
      requires Zip(Snap(), node, p, t) && Inserting(p, t) && !p.Top? && p.red && p.up.InLeft?
      requires x == t.n && parent == p.n && gparent == p.up.n
      modifies `node, nodes`left, nodes`right, nodes`parent, nodes`red
      ensures Zip(Snap(), node, p.up.up, Restored(p, t))
      ensures Restored(p, t).l.Fork? && x' == Restored(p, t).l.n
    {
      hide Zip;
      StraightenedKeeps(p, t);
      ghost var g, s := p.up, Straightened(p, t);
      ZipUp(Snap(), node, p, t);
      SlotFacts(Snap(), node, p, t);
      var par := parent;
      x' := x;
      if parent.right == x {
        RotateLeftAt(parent, g, Up(p, t));
        x', par := parent, x;
      }
      SetColor(par, false, g, s);
      ZipUp(Snap(), node, g, s.(red := false));
      SetColor(gparent, true, g.up, Up(g, s.(red := false)));
      RotateRightAt(gparent, g.up, Up(g, s.(red := false)).(red := true));
    }

    method RestoreRight(x: Node, parent: Node, gparent: Node, ghost p: Path, ghost t: Tree)
      returns (x': Node)
      requires Zip(Snap(), node, p, t) && Inserting(p, t) && !p.Top? && p.red && p.up.InRight?
      requires x == t.n && parent == p.n && gparent == p.up.n
      modifies `node, nodes`left, nodes`right, nodes`parent, nodes`red
      ensures Zip(Snap(), node, p.up.up, Restored(p, t))
      ensures Restored(p, t).r.Fork? && x' == Restored(p, t).r.n
    {
      hide Zip;
      StraightenedKeeps(p, t);
      ghost var g, s := p.up, Straightened(p, t);
      ZipUp(Snap(), node, p, t);
      SlotFacts(Snap(), node, p, t);
      var par := parent;
      x' := x;
      if parent.left == x {
        RotateRightAt(parent, g, Up(p, t));
        x', par := parent, x;
      }
      SetColor(par, false, g, s);
      ZipUp(Snap(), node, g, s.(red := false));
      SetColor(gparent, true, g.up, Up(g, s.(red := false)));
      RotateLeftAt(gparent, g.up, Up(g, s.(red := false)).(red := true));
    }

    /** One turn of the loop of `InsertColor`. */
    method InsertStep(x: Node, ghost p: Path, ghost t: Tree) returns (x': Node, ghost p': Path, ghost t': Tree)
      requires Zip(Snap(), node, p, t) && Inserting(p, t) && x == t.n && !p.Top? && p.red
      modifies `node, nodes`left, nodes`right, nodes`parent, nodes`red
      ensures Zip(Snap(), node, p', t') && Inserting(p', t') && x' == t'.n
      ensures Wrap(p', InOrder(t')) == Wrap(p, InOrder(t)) && Depth(p') < Depth(p)
    {
      hide Zip;
      assert PathNoRedRed(p.up, true) && Depth(p) == 2 + Depth(p.up.up);
      SlotFacts(Snap(), node, p, t);
      ZipUp(Snap(), node, p, t);
      SlotFacts(Snap(), node, p.up, Up(p, t));
      SiblingFacts(Snap(), node, p.up, Up(p, t));
      var parent := x.parent;
      var gparent := parent.parent;
      var uncle := if parent == gparent.left then gparent.right else gparent.left;
      if uncle != null && uncle.red {
        RecolouredInserting(p, t);
        RecolourUncle(uncle, parent, gparent, p, t);
        x', p', t' := gparent, p.up.up, Recoloured(p, t);
      } else {
        RestoredInserting(p, t);
        ghost var r := Restored(p, t);
        if parent == gparent.left {
          x' := RestoreLeft(x, parent, gparent, p, t);
          ZipDownLeft(Snap(), node, p.up.up, r);
          p', t' := InLeft(p.up.up, r.n, r.red, r.r), r.l;
        } else {
          x' := RestoreRight(x, parent, gparent, p, t);
          ZipDownRight(Snap(), node, p.up.up, r);
          p', t' := InRight(p.up.up, r.n, r.red, r.l), r.r;
        }
      }
    }

    /** Turns a tree with one freshly linked red node back into a red-black tree over the same
        in-order sequence. */
    method InsertColor(x: Node, ghost p0: Path, ghost t0: Tree) returns (ghost tree: Tree)
      requires Zip(Snap(), node, p0, t0) && Inserting(p0, t0) && x == t0.n
      modifies `node, nodes`left, nodes`right, nodes`parent, nodes`red
      ensures Zip(Snap(), node, Top, tree) && RedBlack(tree)
      ensures InOrder(tree) == Wrap(p0, InOrder(t0))
    {
      hide Zip;
      var cur := x;
      ghost var p, t := p0, t0;
      SlotFacts(Snap(), node, p, t);
      while cur.parent != null && cur.parent.red
        invariant cur in nodes && Zip(Snap(), node, p, t) && Inserting(p, t) && cur == t.n
        invariant cur.parent == Parent(p) && (!p.Top? ==> p.n in nodes && p.n.red == p.red)
        invariant Wrap(p, InOrder(t)) == Wrap(p0, InOrder(t0))
        decreases Depth(p)
      {
        cur, p, t := InsertStep(cur, p, t);
        SlotFacts(Snap(), node, p, t);
      }
      InsertingDone(p, t);
      ZipPlug(Snap(), node, p, t);
      SlotFacts(Snap(), node, Top, Plug(p, t));
      SetColor(node, false, Top, Plug(p, t));
      tree := Paint(Plug(p, t), false);
    }

    // ---- __rb_erase_color ----

    /** Red sibling on the right of the short subtree. */
    method LowerLeft(other: Node, parent: Node, ghost p: Path, ghost t: Tree)
      requires Zip(Snap(), node, p, t) && p.InLeft? && p.sib.Fork? && other == p.sib.n && parent == p.n
      modifies `node, nodes`left, nodes`right, nodes`parent, nodes`red
      ensures Zip(Snap(), node, Lowered(p), t)
    {
      hide Zip;
      ghost var o := p.sib.(red := false);
      ZipSwap(Snap(), node, p, t);
      SetColor(other, false, Sibling(p, t), p.sib);
      ZipUp(Snap(), node, Sibling(p, t), o);
      SetColor(parent, true, p.up, Fork(t, p.n, o, p.red));
      RotateLeftAt(parent, p.up, Fork(t, p.n, o, true));
      ZipDownLeft(Snap(), node, p.up, Fork(Fork(t, p.n, o.l, true), o.n, o.r, false));
      ZipDownLeft(Snap(), node, InLeft(p.up, o.n, false, o.r), Fork(t, p.n, o.l, true));
    }

    method LowerRight(other: Node, parent: Node, ghost p: Path, ghost t: Tree)
      requires Zip(Snap(), node, p, t) && p.InRight? && p.sib.Fork? && other == p.sib.n && parent == p.n
      modifies `node, nodes`left, nodes`right, nodes`parent, nodes`red
      ensures Zip(Snap(), node, Lowered(p), t)
    {
      hide Zip;
      ghost var o := p.sib.(red := false);
      ZipSwap(Snap(), node, p, t);
      SetColor(other, false, Sibling(p, t), p.sib);
      ZipUp(Snap(), node, Sibling(p, t), o);
      SetColor(parent, true, p.up, Fork(o, p.n, t, p.red));
      RotateRightAt(parent, p.up, Fork(o, p.n, t, true));
      ZipDownRight(Snap(), node, p.up, Fork(o.l, o.n, Fork(o.r, p.n, t, true), false));
      ZipDownRight(Snap(), node, InRight(p.up, o.n, false, o.l), Fork(o.r, p.n, t, true));
    }

    /** Both nephews black: `rb_set_red(other)`, on either side. */
    method RaiseSibling(other: Node, ghost p: Path, ghost t: Tree)
      requires Zip(Snap(), node, p, t) && !p.Top? && p.sib.Fork? && other == p.sib.n
      modifies nodes`red
      ensures Zip(Snap(), node, p.up, Raised(p, t))
    {
      hide Zip;
      ZipSwap(Snap(), node, p, t);
      SetColor(other, true, Sibling(p, t), p.sib);
      ZipUp(Snap(), node, Sibling(p, t), p.sib.(red := true));
    }

    /** Makes the right nephew the red one; the short subtree is on the left. */
    method TurnLeft(sibling: Node, parent: Node, ghost p: Path, ghost t: Tree) returns (other: Node)
      requires Zip(Snap(), node, p, t) && Erasing(p, t) && p.InLeft? && p.sib.Fork? && !p.sib.red
      requires (Red(p.sib.l) || Red(p.sib.r)) && sibling == p.sib.n && parent == p.n
      modifies `node, nodes`left, nodes`right, nodes`parent, nodes`red
      ensures Zip(Snap(), node, Sibling(p, t), Turned(p))
      ensures Turned(p).Fork? && other == Turned(p).n
    {
      hide Zip;
      TurnedKeeps(p, t);
      ghost var s, o := Sibling(p, t), p.sib;
      ZipSwap(Snap(), node, p, t);
      SlotFacts(Snap(), node, s, o);
      ZipDownRight(Snap(), node, s, o);
      SlotFacts(Snap(), node, InRight(s, o.n, o.red, o.l), o.r);
      other := sibling;
      if other.right == null || !other.right.red {
        ZipDownLeft(Snap(), node, s, o);
        SetColor(other.left, false, InLeft(s, o.n, false, o.r), o.l);
        ZipUp(Snap(), node, InLeft(s, o.n, false, o.r), o.l.(red := false));
        SetColor(other, true, s, Fork(o.l.(red := false), o.n, o.r, false));
        RotateRightAt(other, s, Fork(o.l.(red := false), o.n, o.r, true));
        SlotFacts(Snap(), node, s, Turned(p));
        other := parent.right;
      }
    }

    /** The three colour updates before the last rotation. */
    method PaintLeft(other: Node, parent: Node, ghost s: Path, ghost o: Tree)
      requires Zip(Snap(), node, s, o) && s.InRight? && o.Fork? && o.r.Fork? && other == o.n && parent == s.n
      modifies nodes`red
      ensures Zip(Snap(), node, s.up, Fork(s.sib, s.n, Fork(o.l, o.n, o.r.(red := false), s.red), false))
    {
      hide Zip;
      SlotFacts(Snap(), node, s, o);
      SetColor(other, parent.red, s, o);
      ghost var o1 := o.(red := s.red);
      ZipUp(Snap(), node, s, o1);
      SetColor(parent, false, s.up, Fork(s.sib, s.n, o1, s.red));
      ghost var s1 := InRight(s.up, s.n, false, s.sib);
      ZipDownRight(Snap(), node, s.up, Fork(s.sib, s.n, o1, false));
      SlotFacts(Snap(), node, s1, o1);
      ZipDownRight(Snap(), node, s1, o1);
      SetColor(other.right, false, InRight(s1, o1.n, s.red, o1.l), o1.r);
      ZipUp(Snap(), node, InRight(s1, o1.n, s.red, o1.l), o1.r.(red := false));
      ZipUp(Snap(), node, s1, o1.(r := o1.r.(red := false)));
    }

    /** A red nephew, the short subtree on the left. */
    method CloseLeft(sibling: Node, parent: Node, ghost p: Path, ghost t: Tree)
      requires Zip(Snap(), node, p, t) && Erasing(p, t) && p.InLeft? && p.sib.Fork? && !p.sib.red
      requires (Red(p.sib.l) || Red(p.sib.r)) && sibling == p.sib.n && parent == p.n
      modifies `node, nodes`left, nodes`right, nodes`parent, nodes`red
      ensures Zip(Snap(), node, p.up, Closed(p, t))
    {
      hide Zip;
      TurnedKeeps(p, t);
      ghost var o := Turned(p);
      var other := TurnLeft(sibling, parent, p, t);
      PaintLeft(other, parent, Sibling(p, t), o);
      RotateLeftAt(parent, p.up, Fork(t, p.n, Fork(o.l, o.n, o.r.(red := false), p.red), false));
    }

    /** Makes the left nephew the red one; the short subtree is on the right. */
    method TurnRight(sibling: Node, parent: Node, ghost p: Path, ghost t: Tree) returns (other: Node)
      requires Zip(Snap(), node, p, t) && Erasing(p, t) && p.InRight? && p.sib.Fork? && !p.sib.red
      requires (Red(p.sib.l) || Red(p.sib.r)) && sibling == p.sib.n && parent == p.n
      modifies `node, nodes`left, nodes`right, nodes`parent, nodes`red
      ensures Zip(Snap(), node, Sibling(p, t), Turned(p))
      ensures Turned(p).Fork? && other == Turned(p).n
    {
      hide Zip;
      TurnedKeeps(p, t);
      ghost var s, o := Sibling(p, t), p.sib;
      ZipSwap(Snap(), node, p, t);
      SlotFacts(Snap(), node, s, o);
      ZipDownLeft(Snap(), node, s, o);
      SlotFacts(Snap(), node, InLeft(s, o.n, o.red, o.r), o.l);
      other := sibling;
      if other.left == null || !other.left.red {
        ZipDownRight(Snap(), node, s, o);
        SetColor(other.right, false, InRight(s, o.n, false, o.l), o.r);
        ZipUp(Snap(), node, InRight(s, o.n, false, o.l), o.r.(red := false));
        SetColor(other, true, s, Fork(o.l, o.n, o.r.(red := false), false));
        RotateLeftAt(other, s, Fork(o.l, o.n, o.r.(red := false), true));
        SlotFacts(Snap(), node, s, Turned(p));
        other := parent.left;
      }
    }

    /** The three colour updates before the last rotation. */
    method PaintRight(other: Node, parent: Node, ghost s: Path, ghost o: Tree)
      requires Zip(Snap(), node, s, o) && s.InLeft? && o.Fork? && o.l.Fork? && other == o.n && parent == s.n
      modifies nodes`red
      ensures Zip(Snap(), node, s.up, Fork(Fork(o.l.(red := false), o.n, o.r, s.red), s.n, s.sib, false))
    {
      hide Zip;
      SlotFacts(Snap(), node, s, o);
      SetColor(other, parent.red, s, o);
      ghost var o1 := o.(red := s.red);
      ZipUp(Snap(), node, s, o1);
      SetColor(parent, false, s.up, Fork(o1, s.n, s.sib, s.red));
      ghost var s1 := InLeft(s.up, s.n, false, s.sib);
      ZipDownLeft(Snap(), node, s.up, Fork(o1, s.n, s.sib, false));
      SlotFacts(Snap(), node, s1, o1);
      ZipDownLeft(Snap(), node, s1, o1);
      SetColor(other.left, false, InLeft(s1, o1.n, s.red, o1.r), o1.l);
      ZipUp(Snap(), node, InLeft(s1, o1.n, s.red, o1.r), o1.l.(red := false));
      ZipUp(Snap(), node, s1, o1.(l := o1.l.(red := false)));
    }

    /** A red nephew, the short subtree on the right. */
    method CloseRight(sibling: Node, parent: Node, ghost p: Path, ghost t: Tree)
      requires Zip(Snap(), node, p, t) && Erasing(p, t) && p.InRight? && p.sib.Fork? && !p.sib.red
      requires (Red(p.sib.l) || Red(p.sib.r)) && sibling == p.sib.n && parent == p.n
      modifies `node, nodes`left, nodes`right, nodes`parent, nodes`red
      ensures Zip(Snap(), node, p.up, Closed(p, t))
    {
      hide Zip;
      TurnedKeeps(p, t);
      ghost var o := Turned(p);
      var other := TurnRight(sibling, parent, p, t);
      PaintRight(other, parent, Sibling(p, t), o);
      RotateRightAt(parent, p.up, Fork(Fork(o.l.(red := false), o.n, o.r, p.red), p.n, t, false));
    }

    /** One turn of the loop of `EraseColor`, the short subtree on the left.  It ends settled, or
        with a subtree that is red or closer to the root. */
    method EraseStepLeft(parent: Node, ghost p0: Path, ghost t: Tree)
      returns (done: bool, ghost p': Path, ghost t': Tree)
      requires Zip(Snap(), node, p0, t) && Erasing(p0, t) && !Red(t) && p0.InLeft? && parent == p0.n
      modifies `node, nodes`left, nodes`right, nodes`parent, nodes`red
      ensures Zip(Snap(), node, p', t') && Wrap(p', InOrder(t')) == Wrap(p0, InOrder(t))
      ensures done ==> Settled(p', t')
      ensures !done ==> Erasing(p', t') && t'.Fork? && t'.n == parent && (Red(t') || Depth(p') < Depth(p0))
    {
      hide Zip;
      ghost var p := p0;
      ErasingSibling(p, t);
      SlotFacts(Snap(), node, p, t);
      SiblingFacts(Snap(), node, p, t);
      var other := parent.right;
      if other.red {
        LoweredErasing(p, t);
        LowerLeft(other, parent, p, t);
        p := Lowered(p);
        ErasingSibling(p, t);
        SlotFacts(Snap(), node, p, t);
        SiblingFacts(Snap(), node, p, t);
        other := parent.right;
      }
      NephewFacts(Snap(), node, p, t);
      if (other.left == null || !other.left.red) && (other.right == null || !other.right.red) {
        RaisedErasing(p, t);
        RaiseSibling(other, p, t);
        done, p', t' := false, p.up, Raised(p, t);
      } else {
        ClosedSettled(p, t);
        CloseLeft(other, parent, p, t);
        done, p', t' := true, p.up, Closed(p, t);
      }
    }

    /** One turn of the loop of `EraseColor`, the short subtree on the right. */
    method EraseStepRight(parent: Node, ghost p0: Path, ghost t: Tree)
      returns (done: bool, ghost p': Path, ghost t': Tree)
      requires Zip(Snap(), node, p0, t) && Erasing(p0, t) && !Red(t) && p0.InRight? && parent == p0.n
      modifies `node, nodes`left, nodes`right, nodes`parent, nodes`red
      ensures Zip(Snap(), node, p', t') && Wrap(p', InOrder(t')) == Wrap(p0, InOrder(t))
      ensures done ==> Settled(p', t')
      ensures !done ==> Erasing(p', t') && t'.Fork? && t'.n == parent && (Red(t') || Depth(p') < Depth(p0))
    {
      hide Zip;
      ghost var p := p0;
      ErasingSibling(p, t);
      SlotFacts(Snap(), node, p, t);
      SiblingFacts(Snap(), node, p, t);
      var other := parent.left;
      if other.red {
        LoweredErasing(p, t);
        LowerRight(other, parent, p, t);
        p := Lowered(p);
        ErasingSibling(p, t);
        SlotFacts(Snap(), node, p, t);
        SiblingFacts(Snap(), node, p, t);
        other := parent.left;
      }
      NephewFacts(Snap(), node, p, t);
      if (other.left == null || !other.left.red) && (other.right == null || !other.right.red) {
        RaisedErasing(p, t);
        RaiseSibling(other, p, t);
        done, p', t' := false, p.up, Raised(p, t);
      } else {
        ClosedSettled(p, t);
        CloseRight(other, parent, p, t);
        done, p', t' := true, p.up, Closed(p, t);
      }
    }

    method EraseStep(x: Node?, parent: Node, ghost p: Path, ghost t: Tree)
      returns (done: bool, ghost p': Path, ghost t': Tree)
      requires Zip(Snap(), node, p, t) && Erasing(p, t) && !Red(t) && !p.Top? && x == Ref(t) && parent == p.n
      modifies `node, nodes`left, nodes`right, nodes`parent, nodes`red
      ensures Zip(Snap(), node, p', t') && Wrap(p', InOrder(t')) == Wrap(p, InOrder(t))
      ensures done ==> Settled(p', t')
      ensures !done ==> Erasing(p', t') && t'.Fork? && t'.n == parent && (Red(t') || Depth(p') < Depth(p))
    {
      hide Zip;
      SlotFacts(Snap(), node, p, t);
      ErasingSibling(p, t);
      if parent.left == x {
        done, p', t' := EraseStepLeft(parent, p, t);
      } else {
        done, p', t' := EraseStepRight(parent, p, t);
      }
    }

    /** `rb_set_black(node)` after the loop. */
    method Blacken(x: Node?, ghost p: Path, ghost t: Tree) returns (ghost tree: Tree)
      requires Zip(Snap(), node, p, t) && Settled(p, Paint(t, false)) && x == Ref(t)
      modifies nodes`red
      ensures Zip(Snap(), node, Top, tree) && RedBlack(tree) && InOrder(tree) == Wrap(p, InOrder(t))
    {
      hide Zip;
      if x != null {
        SetColor(x, false, p, t);
      }
      assert InOrder(Paint(t, false)) == InOrder(t);
      PlugRedBlack(p, Paint(t, false));
      PlugOrder(p, Paint(t, false));
      ZipPlug(Snap(), node, p, Paint(t, false));
      tree := Plug(p, Paint(t, false));
    }

    /** Makes up for the black node missing above `x`: the result is a red-black tree over the
        same in-order sequence. */
    method EraseColor(x: Node?, parent: Node?, ghost p0: Path, ghost t0: Tree) returns (ghost tree: Tree)
      requires Zip(Snap(), node, p0, t0) && Erasing(p0, t0) && x == Ref(t0) && parent == Parent(p0)
      modifies `node, nodes`left, nodes`right, nodes`parent, nodes`red
      ensures Zip(Snap(), node, Top, tree) && RedBlack(tree)
      ensures InOrder(tree) == Wrap(p0, InOrder(t0))
    {
      hide Zip, Wrap, InOrder, Erasing, Settled, RedBlack, Plug, Depth;
      var cur, par := x, parent;
      ghost var p, t, settled := p0, t0, false;
      SlotFacts(Snap(), node, p, t);
      RootIsTop(Snap(), node, p, t);
      while (cur == null || !cur.red) && cur != node
        invariant Zip(Snap(), node, p, t) && Wrap(p, InOrder(t)) == Wrap(p0, InOrder(t0))
        invariant !settled && Erasing(p, t) && par == Parent(p)
        invariant cur == Ref(t) && (t.Fork? ==> t.n in nodes && t.n.red == t.red) && (node == Ref(t) <==> p.Top?)
        decreases if Red(t) then 0 else 1 + Depth(p)
      {
        var done;
        done, p, t := EraseStep(cur, par, p, t);
        SlotFacts(Snap(), node, p, t);
        if done {
          SettledWhole(p, t);
          ZipPlug(Snap(), node, p, t);
          p, t, settled := Top, Plug(p, t), true;
          SlotFacts(Snap(), node, p, t);
          cur := node;
          break;
        }
        RootIsTop(Snap(), node, p, t);
        cur := par;
        par := cur.parent;
      }
      if !settled {
        ErasingDone(p, t);
      }
      tree := Blacken(cur, p, t);
    }

    // ---- rb_erase ----

    ghost method Forget(x: Node)
      modifies `nodes
      ensures nodes == old(nodes) - {x} && Snap() == old(Snap()) - {x}
    {
      nodes := nodes - {x};
    }

    /** A node with at most one child gives way to that child. */
    method Unlink(x: Node, child: Node?, ghost p: Path, ghost t: Tree, ghost c: Tree)
      requires Zip(Snap(), node, p, t) && t.Fork? && t.n == x && child == Ref(c)
      requires (t.l.Leaf? && c == t.r) || (t.r.Leaf? && c == t.l)
      modifies this, nodes`left, nodes`right, nodes`parent
      ensures nodes == old(nodes) - {x} && Zip(Snap(), node, p, c)
    {
      hide Zip;
      ghost var h, root := Snap(), node;
      SlotFacts(h, root, p, t);
      ChildFacts(h, root, p, t);
      var parent := x.parent;
      if child != null {
        child.parent := parent;
      }
      if parent != null {
        if parent.left == x {
          parent.left := child;
        } else {
          parent.right := child;
        }
      } else {
        node := child;
      }
      SplicedOut(h, Snap() - {x}, root, node, p, t, c);
      Forget(x);
    }

    /** The successor `y` leaves its place to its right child and takes over the place of `x`. */
    method Transplant(x: Node, y: Node) returns (child: Node?, parent: Node, red: bool)
      requires x.left != null && x.right != null && y.parent != null && y.parent != y && x.right.parent == x
      requires x.left !in {x, y, x.right, y.parent} && x.left != y.right && x.left != x.parent
      requires x != y && x.parent != y && x.parent != x.right && x.parent != x && x.parent != y.parent
      requires y.parent == x <==> x.right == y
      requires y.right != null ==> y.right !in {x, y, x.right, y.parent} && y.right != x.parent
      modifies `node, y`left, y`right, y`parent, y`red, x.left`parent, x.right`parent, y.parent`left
      modifies if y.right == null then {} else {y.right}`parent
      modifies if x.parent == null then {} else {x.parent}`left
      modifies if x.parent == null then {} else {x.parent}`right
      ensures child == old(y.right) && parent == (if old(x.right) == y then y else old(y.parent)) && red == old(y.red)
      ensures x.left == old(x.left) && y.left == x.left && y.red == x.red && y.parent == old(x.parent)
      ensures y.right == if old(x.right) == y then old(y.right) else old(x.right)
      ensures old(x.left).parent == y
      ensures old(x.right) != y ==> old(x.right).parent == y && old(y.parent).left == old(y.right)
      ensures old(y.right) != null ==>
                old(y.right).parent == if old(x.right) == y then old(y.right.parent) else old(y.parent)
      ensures old(x.parent) != null ==>
                && old(x.parent).left == (if old(x.parent.left) == x then y else old(x.parent.left))
                && old(x.parent).right == (if old(x.parent.left) == x then old(x.parent.right) else y)
      ensures node == if old(x.parent) == null then y else old(node)
    {
      if x.parent != null {
        if x.parent.left == x {
          x.parent.left := y;
        } else {
          x.parent.right := y;
        }
      } else {
        node := y;
      }
      child, parent, red := y.right, y.parent, y.red;
      if parent == x {
        parent := y;
      } else {
        if child != null {
          child.parent := parent;
        }
        parent.left := child;
        y.right := x.right;
        x.right.parent := y;
      }
      y.parent, y.red := x.parent, x.red;
      y.left := x.left;
      x.left.parent := y;
    }

    /** The same, as a change of the whole heap. */
    method Graft(x: Node, y: Node) returns (child: Node?, parent: Node, red: bool)
      requires {x, y} <= nodes && x.left in nodes && x.right in nodes && y.parent in nodes
      requires (y.right != null ==> y.right in nodes) && (x.parent != null ==> x.parent in nodes)
      requires y.parent != y && x.right.parent == x
      requires x.left !in {x, y, x.right, y.parent} && x.left != y.right && x.left != x.parent
      requires x != y && x.parent != y && x.parent != x.right && x.parent != x && x.parent != y.parent
      requires y.parent == x <==> x.right == y
      requires y.right != null ==> y.right !in {x, y, x.right, y.parent} && y.right != x.parent
      modifies `node, nodes`left, nodes`right, nodes`parent, nodes`red
      ensures child == old(y.right) && parent == (if old(x.right) == y then y else old(y.parent)) && red == old(y.red)
      ensures Grafting(old(Snap()), Snap(), old(node), node, x, y)
    {
      child, parent, red := Transplant(x, y);
    }

    /** `q` leads from the right child of `x` down its left edge to the successor. */
    method TransplantAt(x: Node, y: Node, ghost p: Path, ghost t: Tree, ghost q: Path, ghost s: Tree)
      returns (child: Node?, parent: Node, red: bool)
      requires t.Fork? && t.n == x && t.l.Fork? && s.Fork? && s.n == y && s.l.Leaf? && t.r == Plug(q, s)
      requires Zip(Snap(), node, p, t) && OnlyLeft(q)
      modifies this, nodes`left, nodes`right, nodes`parent, nodes`red
      ensures nodes == old(nodes) - {x}
      ensures Zip(Snap(), node, Compose(InRight(p, y, t.red, t.l), q), s.r)
      ensures child == Ref(s.r) && parent == (if q.Top? then y else q.n) && red == s.red
    {
      hide Zip, Plug, Compose, OnlyLeft, Grafting;
      ghost var h, root := Snap(), node;
      TransplantSite(h, root, p, t, q, s);
      child, parent, red := Graft(x, y);
      Grafted(h, Snap(), root, node, p, t, q, s);
      Forget(x);
    }

    /** `rb_erase` of a node with at most one child. */
    method EraseOuter(x: Node, child: Node?, ghost p: Path, ghost t: Tree, ghost c: Tree)
      requires Zip(Snap(), node, p, t) && Settled(p, t) && t.Fork? && t.n == x && child == Ref(c)
      requires (t.l.Leaf? && c == t.r) || (t.r.Leaf? && c == t.l)
      modifies this, nodes`left, nodes`right, nodes`parent, nodes`red
      ensures nodes == old(nodes) - {x} && Valid()
      ensures Order() == Wrap(p, InOrder(t.l) + InOrder(t.r))
    {
      hide Zip, Settled, Erasing, RedBlack, InOrder, Wrap;
      UnlinkedColours(p, t, c);
      SlotFacts(Snap(), node, p, t);
      var parent, red := x.parent, x.red;
      Unlink(x, child, p, t, c);
      if !red {
        tree := EraseColor(child, parent, p, c);
      } else {
        SettledPlug(p, c);
        ZipPlug(Snap(), node, p, c);
        tree := Plug(p, c);
      }
    }

    /** `rb_erase` of a node with two children. */
    method EraseInner(x: Node, ghost p: Path, ghost t: Tree)
      requires Zip(Snap(), node, p, t) && Settled(p, t) && t.Fork? && t.n == x && t.l.Fork? && t.r.Fork?
      modifies this, nodes`left, nodes`right, nodes`parent, nodes`red
      ensures nodes == old(nodes) - {x} && Valid()
      ensures Order() == Wrap(p, InOrder(t.l) + InOrder(t.r))
    {
      hide Zip, Settled, Erasing, RedBlack, InOrder, Wrap, Plug, Compose, OnlyLeft;
      var y;
      ghost var q, s;
      y, q, s := Leftmost(x, p, t);
      TransplantColours(p, t, q, s);
      TransplantOrder(p, t, q, s);
      var child, parent, red := TransplantAt(x, y, p, t, q, s);
      ghost var w := Compose(InRight(p, y, t.red, t.l), q);
      ComposeParent(InRight(p, y, t.red, t.l), q);
      if !red {
        tree := EraseColor(child, parent, w, s.r);
      } else {
        SettledPlug(w, s.r);
        ZipPlug(Snap(), node, w, s.r);
        tree := Plug(w, s.r);
      }
    }

    /** The leftmost node of the right subtree. */
    method Leftmost(x: Node, ghost p: Path, ghost t: Tree) returns (y: Node, ghost q: Path, ghost s: Tree)
      requires Zip(Snap(), node, p, t) && t.Fork? && t.n == x && t.r.Fork?
      ensures OnlyLeft(q) && t.r == Plug(q, s) && s.Fork? && s.l.Leaf? && y == s.n
    {
      hide Zip;
      SlotFacts(Snap(), node, p, t);
      y, q, s := x.right, Top, t.r;
      SuccessorZip(Snap(), node, p, t, q, s);
      SlotFacts(Snap(), node, SuccessorPath(p, t, q), s);
      while y.left != null
        invariant OnlyLeft(q) && t.r == Plug(q, s) && s.Fork? && y == s.n && y in nodes && y.left == Ref(s.l)
        decreases s
      {
        y := y.left;
        q, s := InLeft(q, s.n, s.red, s.r), s.l;
        SuccessorZip(Snap(), node, p, t, q, s);
        SlotFacts(Snap(), node, SuccessorPath(p, t, q), s);
      }
    }

    /** `rb_erase`: exactly `x` leaves the in-order sequence, and what remains is a red-black tree. */
    method Erase(x: Node) returns (ghost i: nat)
      requires Valid() && x in nodes
      modifies this, nodes`left, nodes`right, nodes`parent, nodes`red
      ensures Valid() && nodes == old(nodes) - {x}
      ensures RemovedAt(old(Order()), Order(), i) && old(Order())[i] == x
    {
      hide Zip, Settled, InOrder, Wrap;
      ghost var h := Snap();
      ghost var p, t := LocateRoot(h, node, tree, x);
      SlotFacts(h, node, p, t);
      i := |Before(p)| + |InOrder(t.l)|;
      WrapRemoved(p, InOrder(t.l), x, InOrder(t.r));
      if x.left == null {
        EraseOuter(x, x.right, p, t, t.r);
      } else if x.right == null {
        EraseOuter(x, x.left, p, t, t.l);
      } else {
        EraseInner(x, p, t);
      }
    }

    // ---- rb_link_node followed by rb_insert_color ----

    /** Hangs the red leaf `x` into the empty slot `p`. */
    method Link(x: Node, parent: Node?, asLeft: bool, ghost p: Path)
      requires Zip(Snap(), node, p, Leaf) && x !in nodes
      requires parent == Parent(p) && (parent != null ==> (asLeft <==> p.InLeft?))
      modifies this, x`left, x`right, x`parent, x`red, nodes`left, nodes`right
      ensures nodes == old(nodes) + {x} && Zip(Snap(), node, p, Fork(Leaf, x, Leaf, true))
    {
      hide Zip;
      ghost var h, root := Snap(), node;
      SlotFacts(h, root, p, Leaf);
      x.parent, x.red := parent, true;
      x.left, x.right := null, null;
      if parent == null {
        node := x;
      } else if asLeft {
        parent.left := x;
      } else {
        parent.right := x;
      }
      nodes := nodes + {x};
      Grown(h, Snap(), root, node, p, x);
    }

    /** The new element enters the in-order sequence at the chosen slot, and the tree is
        red-black again. */
    method Insert(x: Node, parent: Node?, asLeft: bool, ghost p: Path)
      requires Zip(Snap(), node, p, Leaf) && Settled(p, Leaf) && x !in nodes
      requires parent == Parent(p) && (parent != null ==> (asLeft <==> p.InLeft?))
      modifies this, x`left, x`right, x`parent, x`red, nodes`left, nodes`right, nodes`parent, nodes`red
      ensures Valid() && nodes == old(nodes) + {x} && Order() == Before(p) + [x] + After(p)
    {
      hide Zip;
      Link(x, parent, asLeft, p);
      tree := InsertColor(x, p, Fork(Leaf, x, Leaf, true));
      WrapSplits(p, [x]);
      assert InOrder(Fork(Leaf, x, Leaf, true)) == [x];
    }

    // ---- rb_first, rb_next ----

    method First() returns (x: Node?)
      requires Valid()
      ensures x == if Order() == [] then null else Order()[0]
    {
      hide Zip;
      SlotFacts(Snap(), node, Top, tree);
      x := node;
      if x == null {
        return;
      }
      ghost var p, t := Top, tree;
      while x.left != null
        invariant Zip(Snap(), node, p, t) && t.Fork? && x == t.n && x in nodes && x.left == Ref(t.l)
        invariant Before(p) == [] && Wrap(p, InOrder(t)) == Order()
        decreases t
      {
        x := x.left;
        ZipDownLeft(Snap(), node, p, t);
        p, t := InLeft(p, t.n, t.red, t.r), t.l;
        SlotFacts(Snap(), node, p, t);
      }
      WrapSplits(p, InOrder(t));
    }

    /** The successor of a node in the in-order sequence, or null after the last one. */
    method Next(x: Node, ghost i: nat) returns (y: Node?)
      requires Valid() && i < |Order()| && Order()[i] == x
      ensures y == if i + 1 < |Order()| then Order()[i + 1] else null
    {
      hide Zip;
      ghost var p, t := LocateAt(Snap(), node, tree, i);
      SlotFacts(Snap(), node, p, t);
      WrapSplits(p, InOrder(t));
      if x.parent == x {
        return null;
      }
      if x.right != null {
        ZipDownRight(Snap(), node, p, t);
        ghost var q, s := InRight(p, t.n, t.red, t.l), t.r;
        SlotFacts(Snap(), node, q, s);
        y := x.right;
        while y.left != null
          invariant Zip(Snap(), node, q, s) && s.Fork? && y == s.n && y in nodes && y.left == Ref(s.l)
          invariant |Before(q)| == i + 1 && Wrap(q, InOrder(s)) == Order()
          decreases s
        {
          y := y.left;
          ZipDownLeft(Snap(), node, q, s);
          q, s := InLeft(q, s.n, s.red, s.r), s.l;
          SlotFacts(Snap(), node, q, s);
        }
        WrapSplits(q, InOrder(s));
        return;
      }
      var cur := x;
      y := x.parent;
      while y != null && cur == y.right
        invariant Zip(Snap(), node, p, t) && t.Fork? && cur == t.n && cur in nodes && y == Parent(p) && y == cur.parent
        invariant y != null ==> y in nodes
        invariant Wrap(p, InOrder(t)) == Order() && |Before(p)| + |InOrder(t)| == i + 1
        decreases Depth(p)
      {
        SlotFacts(Snap(), node, p, t);
        cur := y;
        ZipUp(Snap(), node, p, t);
        p, t := p.up, Up(p, t);
        SlotFacts(Snap(), node, p, t);
        y := cur.parent;
      }
      SlotFacts(Snap(), node, p, t);
      WrapSplits(p, InOrder(t));
    }
  }
}
