/**
  How the link fields of the nodes represent a tree, and what each elementary pointer update of
  libosmocore/src/rbtree.c does to the represented tree.  A heap is a snapshot of the link
  fields; the lemmas relate the snapshots before and after an update.
 */
module RbHeap {
  import opened RbTrees

  /** The link fields of one node (`rb_left`, `rb_right` and the two halves of
      `rb_parent_color`). */
  datatype Cell = Cell(left: Node?, right: Node?, parent: Node?, red: bool)

  type Heap = map<Node, Cell>

  // ---- which nodes a tree and a path occupy ----

  ghost function Nodes(t: Tree): set<Node> {
    if t.Leaf? then {} else Nodes(t.l) + {t.n} + Nodes(t.r)
  }

  ghost function Above(p: Path): set<Node> {
    if p.Top? then {} else Above(p.up) + {p.n} + Nodes(p.sib)
  }

  ghost predicate Distinct(t: Tree) {
    t.Fork? ==>
      && Distinct(t.l) && Distinct(t.r) && Nodes(t.l) !! Nodes(t.r)
      && t.n !in Nodes(t.l) && t.n !in Nodes(t.r)
  }

  ghost predicate DistinctPath(p: Path) {
    !p.Top? ==>
      && DistinctPath(p.up) && Distinct(p.sib) && Above(p.up) !! Nodes(p.sib)
      && p.n !in Above(p.up) && p.n !in Nodes(p.sib)
  }

  ghost predicate Apart(p: Path, t: Tree) {
    Distinct(t) && DistinctPath(p) && Nodes(t) !! Above(p)
  }

  lemma {:induction false} OrderMembers(t: Tree, n: Node)
    ensures n in InOrder(t) <==> n in Nodes(t)
  {
    if t.Fork? {
      OrderMembers(t.l, n);
      OrderMembers(t.r, n);
    }
  }

  // ---- representation ----

  ghost predicate Rep(h: Heap, t: Tree, parent: Node?) {
    t.Fork? ==>
      && t.n in h && h[t.n] == Cell(Ref(t.l), Ref(t.r), parent, t.red)
      && Rep(h, t.l, t.n) && Rep(h, t.r, t.n)
  }

  ghost predicate RepPath(h: Heap, root: Node?, p: Path, ref: Node?) {
    match p
    case Top => root == ref
    case InLeft(up, n, red, sib) =>
      n in h && h[n] == Cell(ref, Ref(sib), Parent(up), red) && Rep(h, sib, n) && RepPath(h, root, up, n)
    case InRight(up, n, red, sib) =>
      n in h && h[n] == Cell(Ref(sib), ref, Parent(up), red) && Rep(h, sib, n) && RepPath(h, root, up, n)
  }

  /** The heap holds exactly the tree `Plug(p, t)`, with consistent child and parent links. */
  ghost predicate Zip(h: Heap, root: Node?, p: Path, t: Tree) {
    && Apart(p, t) && h.Keys == Nodes(t) + Above(p)
    && Rep(h, t, Parent(p)) && RepPath(h, root, p, Ref(t))
  }

  // ---- frames ----

  ghost predicate Agree(h: Heap, h': Heap, s: set<Node>) {
    forall n :: n in s && n in h ==> n in h' && h[n] == h'[n]
  }

  lemma {:induction false} RepFrame(h: Heap, h': Heap, t: Tree, parent: Node?)
    requires Rep(h, t, parent) && Agree(h, h', Nodes(t))
    ensures Rep(h', t, parent)
  {
    if t.Fork? {
      RepFrame(h, h', t.l, t.n);
      RepFrame(h, h', t.r, t.n);
    }
  }

  lemma {:induction false} RepPathFrame(h: Heap, h': Heap, root: Node?, p: Path, ref: Node?)
    requires RepPath(h, root, p, ref) && Agree(h, h', Above(p))
    ensures RepPath(h', root, p, ref)
  {
    if !p.Top? {
      RepFrame(h, h', p.sib, p.n);
      RepPathFrame(h, h', root, p.up, p.n);
    }
  }

  /** Only the parent link (and perhaps the colour) of the topmost node was rewritten. */
  lemma Reparented(h: Heap, h': Heap, t: Tree, from: Node?, to: Node?)
    requires Distinct(t) && Rep(h, t, from)
    requires t.Fork? ==> t.n in h' && h'[t.n] == h[t.n].(parent := to)
    requires Agree(h, h', Nodes(t) - {Ref(t)})
    ensures Rep(h', t, to)
  {
    if t.Fork? {
      RepFrame(h, h', t.l, t.n);
      RepFrame(h, h', t.r, t.n);
    }
  }

  ghost function Relink(c: Cell, p: Path, ref: Node?): Cell {
    if p.InLeft? then c.(left := ref) else c.(right := ref)
  }

  /** Only the slot that `p` denotes was rewritten. */
  lemma Relinked(h: Heap, h': Heap, root: Node?, root': Node?, p: Path, ref: Node?, ref': Node?)
    requires DistinctPath(p) && RepPath(h, root, p, ref)
    requires root' == if p.Top? then ref' else root
    requires !p.Top? ==> p.n in h' && h'[p.n] == Relink(h[p.n], p, ref')
    requires Agree(h, h', Above(p) - {Parent(p)})
    ensures RepPath(h', root', p, ref')
  {
    if !p.Top? {
      RepFrame(h, h', p.sib, p.n);
      RepPathFrame(h, h', root, p.up, p.n);
    }
  }

  // ---- moving the focus; the heap stays as it is ----

  lemma ZipUp(h: Heap, root: Node?, p: Path, t: Tree)
    requires !p.Top? && Zip(h, root, p, t)
    ensures Zip(h, root, p.up, Up(p, t))
  {
  }

  lemma ZipDownLeft(h: Heap, root: Node?, p: Path, t: Tree)
    requires t.Fork? && Zip(h, root, p, t)
    ensures Zip(h, root, InLeft(p, t.n, t.red, t.r), t.l)
  {
  }

  lemma ZipDownRight(h: Heap, root: Node?, p: Path, t: Tree)
    requires t.Fork? && Zip(h, root, p, t)
    ensures Zip(h, root, InRight(p, t.n, t.red, t.l), t.r)
  {
  }

  /** The other child slot of the same node. */
  function Sibling(p: Path, t: Tree): Path
    requires !p.Top?
  {
    if p.InLeft? then InRight(p.up, p.n, p.red, t) else InLeft(p.up, p.n, p.red, t)
  }

  lemma ZipSwap(h: Heap, root: Node?, p: Path, t: Tree)
    requires !p.Top? && Zip(h, root, p, t)
    ensures Zip(h, root, Sibling(p, t), p.sib)
  {
  }

  lemma {:induction false} ZipPlug(h: Heap, root: Node?, p: Path, t: Tree)
    requires Zip(h, root, p, t)
    ensures Zip(h, root, Top, Plug(p, t))
  {
    if !p.Top? {
      ZipUp(h, root, p, t);
      ZipPlug(h, root, p.up, Up(p, t));
    }
  }

  /** What the slot of a subtree looks like from the subtree. */
  lemma SlotFacts(h: Heap, root: Node?, p: Path, t: Tree)
    requires Zip(h, root, p, t)
    ensures p.Top? <==> Parent(p) == null
    ensures p.Top? ==> root == Ref(t)
    ensures !p.Top? ==> p.n in h && p.n !in Nodes(t) && h[p.n].red == p.red && h[p.n].parent == Parent(p.up)
    ensures p.InLeft? ==> h[p.n].left == Ref(t) && h[p.n].right == Ref(p.sib)
    ensures p.InRight? ==> h[p.n].right == Ref(t) && h[p.n].left == Ref(p.sib)
    ensures !p.Top? && t.Fork? ==> Ref(p.sib) != t.n
    ensures t.Fork? ==> t.n in h && h[t.n] == Cell(Ref(t.l), Ref(t.r), Parent(p), t.red)
  {
    assert !p.Top? && p.sib.Fork? ==> p.sib.n in Nodes(p.sib);
  }

  lemma ChildFacts(h: Heap, root: Node?, p: Path, t: Tree)
    requires Zip(h, root, p, t) && t.Fork?
    ensures t.l.Fork? ==>
              && t.l.n in h && t.l.n != t.n && t.l.n != Parent(p) && h[t.l.n].parent == t.n
              && h[t.l.n].red == t.l.red
    ensures t.r.Fork? ==>
              && t.r.n in h && t.r.n != t.n && t.r.n != Parent(p) && h[t.r.n].parent == t.n
              && h[t.r.n].red == t.r.red
    ensures t.l.Fork? && t.r.Fork? ==> t.l.n != t.r.n
  {
    assert Rep(h, t.l, t.n) && Rep(h, t.r, t.n);
    assert t.l.Fork? ==> t.l.n in Nodes(t.l);
    assert t.r.Fork? ==> t.r.n in Nodes(t.r);
  }

  /** What the sibling of a subtree looks like. */
  lemma SiblingFacts(h: Heap, root: Node?, p: Path, t: Tree)
    requires Zip(h, root, p, t) && !p.Top?
    ensures p.sib.Fork? ==> p.sib.n in h && h[p.sib.n] == Cell(Ref(p.sib.l), Ref(p.sib.r), p.n, p.sib.red)
  {
  }

  lemma NephewFacts(h: Heap, root: Node?, p: Path, t: Tree)
    requires Zip(h, root, p, t) && !p.Top? && p.sib.Fork?
    ensures p.sib.n in h && h[p.sib.n].left == Ref(p.sib.l) && h[p.sib.n].right == Ref(p.sib.r)
    ensures p.sib.l.Fork? ==> p.sib.l.n in h && h[p.sib.l.n].red == p.sib.l.red
    ensures p.sib.r.Fork? ==> p.sib.r.n in h && h[p.sib.r.n].red == p.sib.r.red
  {
    assert Rep(h, p.sib, p.n);
    assert Rep(h, p.sib.l, p.sib.n) && Rep(h, p.sib.r, p.sib.n);
  }

  lemma {:induction false} RootAbove(h: Heap, root: Node?, p: Path, ref: Node?)
    requires RepPath(h, root, p, ref) && !p.Top?
    ensures root != null && root in Above(p)
  {
    if !p.up.Top? {
      RootAbove(h, root, p.up, p.n);
    }
  }

  lemma RootIsTop(h: Heap, root: Node?, p: Path, t: Tree)
    requires Zip(h, root, p, t)
    ensures root == Ref(t) <==> p.Top?
  {
    if !p.Top? {
      RootAbove(h, root, p, Ref(t));
    }
  }

  // ---- updates ----

  /** Renaming or repainting the topmost node. */
  lemma TopApart(p: Path, t: Tree, y: Node, red: bool)
    requires t.Fork? && Apart(p, t) && (y == t.n || y !in Nodes(t) + Above(p))
    ensures Apart(p, Fork(t.l, y, t.r, red))
    ensures Nodes(Fork(t.l, y, t.r, red)) == Nodes(t) - {t.n} + {y}
  {
  }

  lemma Painted(h: Heap, h': Heap, root: Node?, p: Path, t: Tree, red: bool)
    requires t.Fork? && Zip(h, root, p, t) && h' == h[t.n := h[t.n].(red := red)]
    ensures Zip(h', root, p, t.(red := red))
  {
    TopApart(p, t, t.n, red);
    RepFrame(h, h', t.l, t.n);
    RepFrame(h, h', t.r, t.n);
    RepPathFrame(h, h', root, p, t.n);
  }

  lemma RotLApart(p: Path, t: Tree)
    requires t.Fork? && t.r.Fork? && Apart(p, t)
    ensures Apart(p, RotL(t)) && Nodes(RotL(t)) == Nodes(t) && Distinct(t.r)
    ensures Nodes(t) == Nodes(t.l) + {t.n} + (Nodes(t.r.l) + {t.r.n} + Nodes(t.r.r))
  {
    assert Distinct(t.r) && Nodes(t.r) == Nodes(t.r.l) + {t.r.n} + Nodes(t.r.r);
    assert Nodes(RotL(t).l) == Nodes(t.l) + {t.n} + Nodes(t.r.l);
  }

  lemma RotRApart(p: Path, t: Tree)
    requires t.Fork? && t.l.Fork? && Apart(p, t)
    ensures Apart(p, RotR(t)) && Nodes(RotR(t)) == Nodes(t) && Distinct(t.l)
    ensures Nodes(t) == (Nodes(t.l.l) + {t.l.n} + Nodes(t.l.r)) + {t.n} + Nodes(t.r)
  {
    assert Distinct(t.l) && Nodes(t.l) == Nodes(t.l.l) + {t.l.n} + Nodes(t.l.r);
    assert Nodes(RotR(t).r) == Nodes(t.l.r) + {t.n} + Nodes(t.r);
  }

  /** The cells that a left rotation reads and writes are four different ones. */
  lemma RotLSite(h: Heap, root: Node?, p: Path, t: Tree)
    requires t.Fork? && t.r.Fork? && Zip(h, root, p, t)
    ensures t.n in h && h[t.n] == Cell(Ref(t.l), t.r.n, Parent(p), t.red)
    ensures t.r.n in h && h[t.r.n] == Cell(Ref(t.r.l), Ref(t.r.r), t.n, t.r.red) && t.r.n != t.n
    ensures t.r.l.Fork? ==> t.r.l.n in h && t.r.l.n !in {t.n, t.r.n} && t.r.l.n != Parent(p)
    ensures !p.Top? ==> p.n in h && p.n !in {t.n, t.r.n}
    ensures p.InLeft? ==> h[p.n].left == t.n
    ensures p.InRight? ==> h[p.n].left != t.n && h[p.n].right == t.n
  {
    RotLApart(p, t);
    SlotFacts(h, root, p, t);
    assert Rep(h, t.r, t.n);
    assert t.r.l.Fork? ==> t.r.l.n in Nodes(t.r.l);
  }

  lemma RotRSite(h: Heap, root: Node?, p: Path, t: Tree)
    requires t.Fork? && t.l.Fork? && Zip(h, root, p, t)
    ensures t.n in h && h[t.n] == Cell(t.l.n, Ref(t.r), Parent(p), t.red)
    ensures t.l.n in h && h[t.l.n] == Cell(Ref(t.l.l), Ref(t.l.r), t.n, t.l.red) && t.l.n != t.n
    ensures t.l.r.Fork? ==> t.l.r.n in h && t.l.r.n !in {t.n, t.l.n} && t.l.r.n != Parent(p)
    ensures !p.Top? ==> p.n in h && p.n !in {t.n, t.l.n}
    ensures p.InLeft? ==> h[p.n].right != t.n && h[p.n].left == t.n
    ensures p.InRight? ==> h[p.n].right == t.n
  {
    RotRApart(p, t);
    SlotFacts(h, root, p, t);
    assert Rep(h, t.l, t.n);
    assert t.l.r.Fork? ==> t.l.r.n in Nodes(t.l.r);
  }

  lemma RotatedLeft(h: Heap, h': Heap, root: Node?, root': Node?, p: Path, t: Tree)
    requires t.Fork? && t.r.Fork? && Zip(h, root, p, t)
    requires h'.Keys == h.Keys && root' == if p.Top? then t.r.n else root
    requires h'[t.n] == Cell(Ref(t.l), Ref(t.r.l), t.r.n, t.red)
    requires h'[t.r.n] == Cell(t.n, Ref(t.r.r), Parent(p), t.r.red)
    requires t.r.l.Fork? ==> t.r.l.n in h' && h'[t.r.l.n] == h[t.r.l.n].(parent := t.n)
    requires !p.Top? ==> p.n in h' && h'[p.n] == Relink(h[p.n], p, t.r.n)
    requires Agree(h, h', h.Keys - {t.n, t.r.n, Ref(t.r.l), Parent(p)})
    ensures Zip(h', root', p, RotL(t))
  {
    var y, a, b, c := t.r, t.l, t.r.l, t.r.r;
    RotLApart(p, t);
    assert Rep(h, y, t.n);
    assert Agree(h, h', Nodes(a)) by { assert b.Fork? ==> b.n in Nodes(b); }
    RepFrame(h, h', a, t.n);
    assert Agree(h, h', Nodes(c)) by { assert b.Fork? ==> b.n in Nodes(b); }
    RepFrame(h, h', c, y.n);
    Reparented(h, h', b, y.n, t.n);
    Relinked(h, h', root, root', p, t.n, y.n);
  }

  lemma RotatedRight(h: Heap, h': Heap, root: Node?, root': Node?, p: Path, t: Tree)
    requires t.Fork? && t.l.Fork? && Zip(h, root, p, t)
    requires h'.Keys == h.Keys && root' == if p.Top? then t.l.n else root
    requires h'[t.n] == Cell(Ref(t.l.r), Ref(t.r), t.l.n, t.red)
    requires h'[t.l.n] == Cell(Ref(t.l.l), t.n, Parent(p), t.l.red)
    requires t.l.r.Fork? ==> t.l.r.n in h' && h'[t.l.r.n] == h[t.l.r.n].(parent := t.n)
    requires !p.Top? ==> p.n in h' && h'[p.n] == Relink(h[p.n], p, t.l.n)
    requires Agree(h, h', h.Keys - {t.n, t.l.n, Ref(t.l.r), Parent(p)})
    ensures Zip(h', root', p, RotR(t))
  {
    var y, a, b, c := t.l, t.l.l, t.l.r, t.r;
    RotRApart(p, t);
    assert Rep(h, y, t.n);
    assert Agree(h, h', Nodes(a)) by { assert b.Fork? ==> b.n in Nodes(b); }
    RepFrame(h, h', a, y.n);
    assert Agree(h, h', Nodes(c)) by { assert b.Fork? ==> b.n in Nodes(b); }
    RepFrame(h, h', c, t.n);
    Reparented(h, h', b, y.n, t.n);
    Relinked(h, h', root, root', p, t.n, y.n);
  }

  /** A fresh red leaf `x` was hung into the empty slot `p`. */
  lemma Grown(h: Heap, h': Heap, root: Node?, root': Node?, p: Path, x: Node)
    requires Zip(h, root, p, Leaf) && x !in h
    requires h'.Keys == h.Keys + {x} && h'[x] == Cell(null, null, Parent(p), true)
    requires root' == if p.Top? then x else root
    requires !p.Top? ==> p.n in h' && h'[p.n] == Relink(h[p.n], p, x)
    requires Agree(h, h', h.Keys - {Parent(p)})
    ensures Zip(h', root', p, Fork(Leaf, x, Leaf, true))
  {
    Relinked(h, h', root, root', p, null, x);
  }

  /** A node with at most one child was replaced by that child `c`. */
  lemma SplicedOut(h: Heap, h': Heap, root: Node?, root': Node?, p: Path, t: Tree, c: Tree)
    requires t.Fork? && Zip(h, root, p, t)
    requires (t.l.Leaf? && c == t.r) || (t.r.Leaf? && c == t.l)
    requires h'.Keys == h.Keys - {t.n} && root' == if p.Top? then Ref(c) else root
    requires c.Fork? ==> c.n in h' && h'[c.n] == h[c.n].(parent := Parent(p))
    requires !p.Top? ==> p.n in h' && h'[p.n] == Relink(h[p.n], p, Ref(c))
    requires Agree(h, h', h.Keys - {t.n, Ref(c), Parent(p)})
    ensures Zip(h', root', p, c)
  {
    Reparented(h, h', c, t.n, Parent(p));
    Relinked(h, h', root, root', p, t.n, Ref(c));
  }

  /** Node `y` took the place, the links and the colour of the topmost node. */
  lemma Replaced(h: Heap, h': Heap, root: Node?, root': Node?, p: Path, t: Tree, y: Node)
    requires t.Fork? && Zip(h, root, p, t) && y !in h
    requires h'.Keys == h.Keys - {t.n} + {y} && root' == if p.Top? then y else root
    requires h'[y] == h[t.n]
    requires t.l.Fork? ==> t.l.n in h' && h'[t.l.n] == h[t.l.n].(parent := y)
    requires t.r.Fork? ==> t.r.n in h' && h'[t.r.n] == h[t.r.n].(parent := y)
    requires !p.Top? ==> p.n in h' && h'[p.n] == Relink(h[p.n], p, y)
    requires Agree(h, h', h.Keys - {t.n, Ref(t.l), Ref(t.r), Parent(p)})
    ensures Zip(h', root', p, t.(n := y))
  {
    TopApart(p, t, y, t.red);
    assert Agree(h, h', Nodes(t.l) - {Ref(t.l)}) by { assert t.r.Fork? ==> t.r.n in Nodes(t.r); }
    assert Agree(h, h', Nodes(t.r) - {Ref(t.r)}) by { assert t.l.Fork? ==> t.l.n in Nodes(t.l); }
    Reparented(h, h', t.l, t.n, y);
    Reparented(h, h', t.r, t.n, y);
    Relinked(h, h', root, root', p, t.n, y);
  }

  // ---- paths inside a subtree ----

  /** The place `q` inside the subtree that hangs at `base`. */
  function Compose(base: Path, q: Path): Path {
    match q
    case Top => base
    case InLeft(up, n, red, sib) => InLeft(Compose(base, up), n, red, sib)
    case InRight(up, n, red, sib) => InRight(Compose(base, up), n, red, sib)
  }

  lemma ComposeParent(base: Path, q: Path)
    ensures Parent(Compose(base, q)) == if q.Top? then Parent(base) else q.n
  {
  }

  lemma {:induction false} ComposeZip(h: Heap, root: Node?, base: Path, q: Path, t: Tree)
    ensures Zip(h, root, Compose(base, q), t) <==> Zip(h, root, base, Plug(q, t))
  {
    if !q.Top? {
      ComposeZip(h, root, base, q.up, Up(q, t));
      var p := Compose(base, q);
      assert Up(p, t) == Up(q, t) && p.up == Compose(base, q.up);
      if Zip(h, root, p, t) {
        ZipUp(h, root, p, t);
      }
      if Zip(h, root, p.up, Up(p, t)) {
        if q.InLeft? {
          ZipDownLeft(h, root, p.up, Up(p, t));
        } else {
          ZipDownRight(h, root, p.up, Up(p, t));
        }
      }
    }
  }

  lemma {:induction false} ComposeWrap(base: Path, q: Path, s: seq<Node>)
    ensures Wrap(Compose(base, q), s) == Wrap(base, Wrap(q, s))
  {
    match q
    case Top =>
    case InLeft(up, n, _, sib) => ComposeWrap(base, up, s + [n] + InOrder(sib));
    case InRight(up, n, _, sib) => ComposeWrap(base, up, InOrder(sib) + [n] + s);
  }

  /** Exchanging the node at the joint leaves the colours and black heights above `q` alone. */
  lemma {:induction false} ComposeColours(base: Path, y: Node, q: Path, k: int, red: bool)
    requires !base.Top? && PathBal(Compose(base, q), k) && PathNoRedRed(Compose(base, q), red)
    ensures PathBal(Compose(base.(n := y), q), k) && PathNoRedRed(Compose(base.(n := y), q), red)
  {
    if !q.Top? {
      ComposeColours(base, y, q.up, k + if q.red then 0 else 1, q.red);
    }
  }

  /** The place of a given node. */
  lemma {:induction false} Locate(h: Heap, root: Node?, p: Path, t: Tree, x: Node) returns (q: Path, s: Tree)
    requires Zip(h, root, p, t) && x in Nodes(t)
    requires Bal(t) && NoRedRed(t) && PathBal(p, Bh(t)) && PathNoRedRed(p, Red(t))
    ensures Zip(h, root, q, s) && s.Fork? && s.n == x && Wrap(q, InOrder(s)) == Wrap(p, InOrder(t))
    ensures Bal(s) && NoRedRed(s) && PathBal(q, Bh(s)) && PathNoRedRed(q, Red(s))
    decreases t
  {
    if t.n == x {
      q, s := p, t;
    } else if x in Nodes(t.l) {
      ZipDownLeft(h, root, p, t);
      q, s := Locate(h, root, InLeft(p, t.n, t.red, t.r), t.l, x);
    } else {
      ZipDownRight(h, root, p, t);
      q, s := Locate(h, root, InRight(p, t.n, t.red, t.l), t.r, x);
    }
  }

  // ---- replacing a node by its in-order successor ----

  predicate OnlyLeft(q: Path) {
    !q.Top? ==> q.InLeft? && OnlyLeft(q.up)
  }

  lemma {:induction false} PlugRef(q: Path, s: Tree, c: Tree)
    requires !q.Top?
    ensures Ref(Plug(q, s)) == Ref(Plug(q, c)) && Plug(q, s).Fork? && Plug(q, c).Fork?
  {
    if !q.up.Top? {
      PlugRef(q.up, Up(q, s), Up(q, c));
    }
  }

  lemma {:induction false} ComposeAbove(base: Path, q: Path)
    ensures Above(Compose(base, q)) == Above(base) + Above(q)
    ensures DistinctPath(Compose(base, q)) ==> Above(base) !! Above(q)
    ensures !q.Top? ==> Compose(base, q).n == q.n
  {
    if !q.Top? {
      ComposeAbove(base, q.up);
    }
  }

  lemma {:induction false} PlugRefAbove(q: Path, s: Tree)
    requires !q.Top?
    ensures Ref(Plug(q, s)) in Above(q)
  {
    if !q.up.Top? {
      PlugRefAbove(q.up, Up(q, s));
    }
  }

  /** The slot of the successor of `t.n`, which `q` finds inside `t.r`. */
  function SuccessorPath(p: Path, t: Tree, q: Path): Path
    requires t.Fork?
  {
    Compose(InRight(p, t.n, t.red, t.l), q)
  }

  lemma SuccessorZip(h: Heap, root: Node?, p: Path, t: Tree, q: Path, s: Tree)
    requires t.Fork? && t.r == Plug(q, s) && Zip(h, root, p, t)
    ensures Zip(h, root, SuccessorPath(p, t, q), s)
    ensures Parent(SuccessorPath(p, t, q)) == if q.Top? then t.n else q.n
    ensures Above(SuccessorPath(p, t, q)) == Above(p) + {t.n} + Nodes(t.l) + Above(q)
    ensures Above(p) + {t.n} + Nodes(t.l) !! Above(q)
  {
    var base := InRight(p, t.n, t.red, t.l);
    ZipDownRight(h, root, p, t);
    ComposeZip(h, root, base, q, s);
    ComposeAbove(base, q);
  }

  /** The cells around a node and its successor are different ones, except for the coincidences
      that the code tests for. */
  lemma TransplantSite(h: Heap, root: Node?, p: Path, t: Tree, q: Path, s: Tree)
    requires t.Fork? && t.l.Fork? && s.Fork? && s.l.Leaf? && t.r == Plug(q, s) && Zip(h, root, p, t)
    ensures t.n in h && h[t.n] == Cell(t.l.n, Ref(t.r), Parent(p), t.red)
    ensures s.n in h && h[s.n] == Cell(null, Ref(s.r), if q.Top? then t.n else q.n, s.red)
    ensures s.n != t.n && s.n != Parent(p) && (!q.Top? ==> q.n in h && q.n !in {t.n, s.n, t.l.n} && q.n != Parent(p))
    ensures t.l.n in h && t.l.n !in {t.n, s.n} && t.l.n != Parent(p)
    ensures t.r.Fork? && t.r.n in h && t.r.n !in {t.n, t.l.n} && t.r.n != Parent(p) && h[t.r.n].parent == t.n
    ensures t.r.n == s.n <==> q.Top?
    ensures s.r.Fork? ==>
              && s.r.n in h && s.r.n !in {t.n, s.n, t.l.n, t.r.n} && s.r.n != Parent(p)
              && (!q.Top? ==> s.r.n != q.n)
    ensures s.r.Fork? ==> h[s.r.n].parent == s.n
    ensures !p.Top? ==> p.n in h && p.n != t.n
    ensures p.InLeft? ==> h[p.n].left == t.n
    ensures p.InRight? ==> h[p.n].left != t.n && h[p.n].right == t.n
  {
    var w := SuccessorPath(p, t, q);
    SuccessorZip(h, root, p, t, q, s);
    SlotFacts(h, root, p, t);
    SlotFacts(h, root, w, s);
    ChildFacts(h, root, w, s);
    assert s.r.Fork? ==> s.r.n in Nodes(s);
    if !q.Top? {
      PlugRef(q, s, s);
      PlugRefAbove(q, s);
    }
    ChildFacts(h, root, p, t);
  }

  /** The heap in between: the successor is out of the tree, nothing else has changed. */
  ghost function Detached(h: Heap, w: Path, s: Tree): Heap
    requires s.Fork? && !w.Top? && w.n in h && (s.r.Fork? ==> s.r.n in h)
  {
    var h1 := (h - {s.n})[w.n := Relink(h[w.n], w, Ref(s.r))];
    if s.r.Fork? then h1[s.r.n := h[s.r.n].(parent := w.n)] else h1
  }

  lemma DetachedZip(h: Heap, root: Node?, p: Path, t: Tree, q: Path, s: Tree)
    requires t.Fork? && t.l.Fork? && s.Fork? && s.l.Leaf? && t.r == Plug(q, s) && Zip(h, root, p, t)
    ensures var w := SuccessorPath(p, t, q);
            && !w.Top? && w.n in h && (s.r.Fork? ==> s.r.n in h)
            && Zip(Detached(h, w, s), root, p, t.(r := Plug(q, s.r)))
  {
    hide Zip;
    var w := SuccessorPath(p, t, q);
    SuccessorZip(h, root, p, t, q, s);
    TransplantSite(h, root, p, t, q, s);
    var h1 := Detached(h, w, s);
    SplicedOut(h, h1, root, root, w, s, s.r);
    ComposeZip(h1, root, InRight(p, t.n, t.red, t.l), q, s.r);
    ZipUp(h1, root, InRight(p, t.n, t.red, t.l), Plug(q, s.r));
  }

  lemma Transplanted(h: Heap, h': Heap, root: Node?, root': Node?, p: Path, t: Tree, q: Path, s: Tree)
    requires t.Fork? && t.l.Fork? && t.r.Fork? && s.Fork? && s.l.Leaf? && t.r == Plug(q, s) && OnlyLeft(q)
    requires Zip(h, root, p, t) && h'.Keys == h.Keys - {t.n} && root' == if p.Top? then s.n else root
    requires s.n in h' && h'[s.n] == Cell(t.l.n, if q.Top? then Ref(s.r) else t.r.n, Parent(p), t.red)
    requires t.l.n in h && t.l.n in h' && h'[t.l.n] == h[t.l.n].(parent := s.n)
    requires !q.Top? ==> q.n in h && q.n in h' && t.r.n in h && t.r.n in h'
    requires !q.Top? ==> h'[t.r.n] == h[t.r.n].(parent := s.n, left := if t.r.n == q.n then Ref(s.r) else h[t.r.n].left)
    requires !q.Top? && q.n != t.r.n ==> h'[q.n] == h[q.n].(left := Ref(s.r))
    requires s.r.Fork? ==> s.r.n in h && s.r.n in h' && h'[s.r.n] == h[s.r.n].(parent := if q.Top? then s.n else q.n)
    requires !p.Top? ==> p.n in h && p.n in h' && h'[p.n] == Relink(h[p.n], p, s.n)
    requires Agree(h, h', h.Keys - {t.n, s.n, t.l.n, t.r.n, Ref(s.r), Parent(q), Parent(p)})
    ensures Zip(h', root', Compose(InRight(p, s.n, t.red, t.l), q), s.r)
  {
    hide Zip, Above, Nodes;
    var w := SuccessorPath(p, t, q);
    SuccessorZip(h, root, p, t, q, s);
    TransplantSite(h, root, p, t, q, s);
    DetachedZip(h, root, p, t, q, s);
    var h1, u := Detached(h, w, s), t.(r := Plug(q, s.r));
    SlotFacts(h1, root, p, u);
    ChildFacts(h1, root, p, u);
    if !q.Top? {
      PlugRef(q, s, s.r);
    }
    Replaced(h1, h', root, root', p, u, s.n);
    ZipDownRight(h', root', p, u.(n := s.n));
    ComposeZip(h', root', InRight(p, s.n, t.red, t.l), q, s.r);
  }

  /** What `rb_erase` does to the cells when `y` takes the place of `x`; the cell of `x` stays. */
  ghost predicate Grafting(h: Heap, h': Heap, root: Node?, root': Node?, x: Node, y: Node) {
    && x in h && y in h && h'.Keys == h.Keys
    && var a, b, c, d, e := h[x].left, h[x].right, h[y].right, h[y].parent, h[x].parent;
       && a in h && b in h && d in h && (c != null ==> c in h) && (e != null ==> e in h)
       && h'[y] == Cell(a, if b == y then c else b, e, h[x].red)
       && h'[a] == h[a].(parent := y)
       && (b != y ==> h'[b] == h[b].(parent := y, left := if d == b then c else h[b].left))
       && (b != y && d != b ==> h'[d] == h[d].(left := c))
       && (c != null ==> h'[c] == h[c].(parent := if b == y then h[c].parent else d))
       && (e != null ==> h'[e] == if h[e].left == x then h[e].(left := y) else h[e].(right := y))
       && root' == (if e == null then y else root)
       && Agree(h, h', h.Keys - {x, y, a, b, c, d, e})
  }

  lemma AgreeWithout(h: Heap, h': Heap, s: set<Node>, x: Node, t: set<Node>)
    requires Agree(h, h', s) && t <= s && x !in t
    ensures Agree(h, h' - {x}, t)
  {
  }

  lemma Grafted(h: Heap, h': Heap, root: Node?, root': Node?, p: Path, t: Tree, q: Path, s: Tree)
    requires t.Fork? && t.l.Fork? && s.Fork? && s.l.Leaf? && t.r == Plug(q, s) && OnlyLeft(q)
    requires Zip(h, root, p, t) && Grafting(h, h', root, root', t.n, s.n)
    ensures Zip(h' - {t.n}, root', Compose(InRight(p, s.n, t.red, t.l), q), s.r)
  {
    hide Zip, Plug, Compose, OnlyLeft, Agree;
    TransplantSite(h, root, p, t, q, s);
    AgreeWithout(h, h', h.Keys - {t.n, s.n, t.l.n, t.r.n, Ref(s.r), h[s.n].parent, Parent(p)}, t.n,
                 h.Keys - {t.n, s.n, t.l.n, t.r.n, Ref(s.r), Parent(q), Parent(p)});
    Transplanted(h, h' - {t.n}, root, root', p, t, q, s);
  }

  lemma {:induction false} OnlyLeftBefore(q: Path)
    requires OnlyLeft(q)
    ensures Before(q) == []
  {
    if !q.Top? {
      OnlyLeftBefore(q.up);
    }
  }

  lemma {:induction false} SettledInside(base: Path, q: Path, s: Tree)
    requires OnlyLeft(q) && Settled(base, Plug(q, s))
    ensures Settled(Compose(base, q), s)
  {
    if !q.Top? {
      SettledInside(base, q.up, Up(q, s));
      SettledDown(Compose(base, q.up), Up(q, s));
    }
  }

  /** Colours around the place that the successor has left. */
  lemma TransplantColours(p: Path, t: Tree, q: Path, s: Tree)
    requires Settled(p, t) && t.Fork? && t.r == Plug(q, s) && OnlyLeft(q) && s.Fork? && s.l.Leaf?
    ensures var w := Compose(InRight(p, s.n, t.red, t.l), q);
            (s.red ==> Settled(w, s.r)) && (!s.red ==> Erasing(w, s.r))
  {
    hide Wrap, InOrder;
    var base := InRight(p, t.n, t.red, t.l);
    SettledDown(p, t);
    SettledInside(base, q, s);
    ComposeColours(base, s.n, q, Bh(s), s.red);
    UnlinkedColours(Compose(InRight(p, s.n, t.red, t.l), q), s, s.r);
  }

  /** The in-order sequence once the successor stands in the place of `t.n`. */
  lemma TransplantOrder(p: Path, t: Tree, q: Path, s: Tree)
    requires t.Fork? && t.r == Plug(q, s) && OnlyLeft(q) && s.Fork? && s.l.Leaf?
    ensures Wrap(Compose(InRight(p, s.n, t.red, t.l), q), InOrder(s.r)) == Wrap(p, InOrder(t.l) + InOrder(t.r))
  {
    hide Wrap, InOrder, Before, After, Plug;
    var a, b, c := InOrder(t.l), InOrder(s.r), After(q);
    OnlyLeftBefore(q);
    ComposeWrap(InRight(p, s.n, t.red, t.l), q, b);
    WrapSplits(q, b);
    WrapInRight(p, s.n, t.red, t.l, [] + b + c);
    WrapSplits(q, InOrder(s));
    PlugOrder(q, s);
    InOrderLeftless(s);
    assert a + [s.n] + ([] + b + c) == a + ([] + ([s.n] + b) + c);
  }

  lemma WrapInRight(p: Path, n: Node, red: bool, sib: Tree, s: seq<Node>)
    ensures Wrap(InRight(p, n, red, sib), s) == Wrap(p, InOrder(sib) + [n] + s)
  {
  }

  lemma InOrderLeftless(s: Tree)
    requires s.Fork? && s.l.Leaf?
    ensures InOrder(s) == [s.n] + InOrder(s.r)
  {
  }

  lemma {:induction false} LocateFrom(h: Heap, root: Node?, p: Path, t: Tree, i: nat) returns (q: Path, s: Tree)
    requires Zip(h, root, p, t) && i < |InOrder(t)|
    ensures Zip(h, root, q, s) && s.Fork? && Wrap(q, InOrder(s)) == Wrap(p, InOrder(t))
    ensures s.n == InOrder(t)[i] && |Before(q)| + |InOrder(s.l)| == |Before(p)| + i
    decreases t
  {
    var k := |InOrder(t.l)|;
    if i == k {
      q, s := p, t;
    } else if i < k {
      ZipDownLeft(h, root, p, t);
      q, s := LocateFrom(h, root, InLeft(p, t.n, t.red, t.r), t.l, i);
    } else {
      ZipDownRight(h, root, p, t);
      q, s := LocateFrom(h, root, InRight(p, t.n, t.red, t.l), t.r, i - k - 1);
    }
  }

  /** The place of the node with a given index in the in-order sequence. */
  lemma LocateAt(h: Heap, root: Node?, t: Tree, i: nat) returns (q: Path, s: Tree)
    requires Zip(h, root, Top, t) && i < |InOrder(t)|
    ensures Zip(h, root, q, s) && s.Fork? && Wrap(q, InOrder(s)) == InOrder(t)
    ensures s.n == InOrder(t)[i] && |Before(q)| + |InOrder(s.l)| == i
  {
    q, s := LocateFrom(h, root, Top, t, i);
  }

  lemma LocateRoot(h: Heap, root: Node?, t: Tree, x: Node) returns (q: Path, s: Tree)
    requires Zip(h, root, Top, t) && RedBlack(t) && x in h
    ensures Zip(h, root, q, s) && Settled(q, s) && s.Fork? && s.n == x
    ensures InOrder(t) == Wrap(q, InOrder(s)) && InOrder(s) == InOrder(s.l) + [x] + InOrder(s.r)
  {
    q, s := Locate(h, root, Top, t, x);
  }
}
