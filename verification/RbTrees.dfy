/**
  The abstract side of the red-black tree of libosmocore/src/rbtree.c: trees whose elements
  are node objects, the path from a subtree up to the root, and the red-black rules on both.
  Nothing here looks at the heap.
 */
module RbTrees {
  import opened Powers

  datatype TimeVal = TimeVal(sec: int, usec: int)

  /** `struct osmo_timer_list` with the `struct rb_node` it embeds: the links and the colour
      belong to rbtree.c, `timeout` and `active` to timer.c. */
  class Node {
    var left: Node?
    var right: Node?
    var parent: Node?
    var red: bool
    var timeout: TimeVal
    var active: bool

    constructor (timeout: TimeVal)
      ensures this.timeout == timeout && !active
    {
      left, right, parent, red := null, null, null, true;
      this.timeout, active := timeout, false;
    }
  }

  datatype Tree = Leaf | Fork(l: Tree, n: Node, r: Tree, red: bool)

  /** Where a subtree hangs: `InLeft(up, n, red, sib)` is the left child slot of `n`, whose
      other child is `sib` and which itself hangs at `up`. */
  datatype Path =
    | Top
    | InLeft(up: Path, n: Node, red: bool, sib: Tree)
    | InRight(up: Path, n: Node, red: bool, sib: Tree)

  function Ref(t: Tree): Node? { if t.Fork? then t.n else null }

  function Parent(p: Path): Node? { if p.Top? then null else p.n }

  predicate Red(t: Tree) { t.Fork? && t.red }

  function Paint(t: Tree, red: bool): Tree { if t.Fork? then t.(red := red) else t }

  /** The subtree one level up. */
  function Up(p: Path, t: Tree): Tree
    requires !p.Top?
  {
    if p.InLeft? then Fork(t, p.n, p.sib, p.red) else Fork(p.sib, p.n, t, p.red)
  }

  function Plug(p: Path, t: Tree): Tree {
    if p.Top? then t else Plug(p.up, Up(p, t))
  }

  function Depth(p: Path): nat { if p.Top? then 0 else 1 + Depth(p.up) }

  function RotL(t: Tree): Tree
    requires t.Fork? && t.r.Fork?
  {
    Fork(Fork(t.l, t.n, t.r.l, t.red), t.r.n, t.r.r, t.r.red)
  }

  function RotR(t: Tree): Tree
    requires t.Fork? && t.l.Fork?
  {
    Fork(t.l.l, t.l.n, Fork(t.l.r, t.n, t.r, t.red), t.l.red)
  }

  // ---- in-order sequence ----

  function InOrder(t: Tree): seq<Node> {
    if t.Leaf? then [] else InOrder(t.l) + [t.n] + InOrder(t.r)
  }

  /** The in-order sequence of a whole tree, given that of the subtree at `p`. */
  function Wrap(p: Path, s: seq<Node>): seq<Node> {
    match p
    case Top => s
    case InLeft(up, n, _, sib) => Wrap(up, s + [n] + InOrder(sib))
    case InRight(up, n, _, sib) => Wrap(up, InOrder(sib) + [n] + s)
  }

  function Before(p: Path): seq<Node> {
    match p
    case Top => []
    case InLeft(up, _, _, _) => Before(up)
    case InRight(up, n, _, sib) => Before(up) + InOrder(sib) + [n]
  }

  function After(p: Path): seq<Node> {
    match p
    case Top => []
    case InLeft(up, n, _, sib) => [n] + InOrder(sib) + After(up)
    case InRight(up, _, _, _) => After(up)
  }

  lemma {:induction false} WrapSplits(p: Path, s: seq<Node>)
    ensures Wrap(p, s) == Before(p) + s + After(p)
  {
    match p
    case Top =>
    case InLeft(up, n, _, sib) =>
      WrapSplits(up, s + [n] + InOrder(sib));
      assert Before(up) + (s + [n] + InOrder(sib)) + After(up) == Before(p) + s + After(p);
    case InRight(up, n, _, sib) =>
      WrapSplits(up, InOrder(sib) + [n] + s);
      assert Before(up) + (InOrder(sib) + [n] + s) + After(up) == Before(p) + s + After(p);
  }

  lemma {:induction false} PlugOrder(p: Path, t: Tree)
    ensures InOrder(Plug(p, t)) == Wrap(p, InOrder(t))
  {
    if !p.Top? {
      PlugOrder(p.up, Up(p, t));
    }
  }

  lemma Reassociate(a: seq<Node>, x: Node, b: seq<Node>, y: Node, c: seq<Node>)
    ensures (a + [x] + b) + [y] + c == a + [x] + (b + [y] + c)
  {
  }

  lemma RotLOrder(t: Tree)
    requires t.Fork? && t.r.Fork?
    ensures InOrder(RotL(t)) == InOrder(t)
  {
    var a, b, c := InOrder(t.l), InOrder(t.r.l), InOrder(t.r.r);
    assert InOrder(t.r) == b + [t.r.n] + c;
    assert InOrder(RotL(t).l) == a + [t.n] + b;
    Reassociate(a, t.n, b, t.r.n, c);
  }

  lemma RotROrder(t: Tree)
    requires t.Fork? && t.l.Fork?
    ensures InOrder(RotR(t)) == InOrder(t)
  {
    var a, b, c := InOrder(t.l.l), InOrder(t.l.r), InOrder(t.r);
    assert InOrder(t.l) == a + [t.l.n] + b;
    assert InOrder(RotR(t).r) == b + [t.n] + c;
    Reassociate(a, t.l.n, b, t.n, c);
  }

  // ---- red-black rules ----

  /** Number of black nodes on the way down to a leaf, measured along the left edge. */
  function Bh(t: Tree): nat {
    if t.Leaf? then 0 else Bh(t.l) + if t.red then 0 else 1
  }

  /** Every way down passes the same number of black nodes. */
  predicate Bal(t: Tree) {
    t.Fork? ==> Bal(t.l) && Bal(t.r) && Bh(t.l) == Bh(t.r)
  }

  predicate NoRedRed(t: Tree) {
    t.Fork? ==> NoRedRed(t.l) && NoRedRed(t.r) && (t.red ==> !Red(t.l) && !Red(t.r))
  }

  predicate RedBlack(t: Tree) { Bal(t) && NoRedRed(t) && !Red(t) }

  /** The surroundings `p` balance exactly the subtrees of black height `k`. */
  predicate PathBal(p: Path, k: int) {
    !p.Top? ==> Bal(p.sib) && Bh(p.sib) == k && PathBal(p.up, k + if p.red then 0 else 1)
  }

  /** The surroundings `p` have no red-red edge around a subtree of the given colour and a
      black root. */
  predicate PathNoRedRed(p: Path, red: bool) {
    if p.Top? then !red
    else (p.red ==> !red && !Red(p.sib)) && NoRedRed(p.sib) && PathNoRedRed(p.up, p.red)
  }

  lemma {:induction false} PlugRedBlack(p: Path, t: Tree)
    requires Bal(t) && NoRedRed(t) && PathBal(p, Bh(t)) && PathNoRedRed(p, Red(t))
    ensures RedBlack(Plug(p, t))
  {
    if !p.Top? {
      PlugRedBlack(p.up, Up(p, t));
    }
  }

  // ---- what the recolouring loops keep ----

  /** `rb_insert_color` works on a red subtree that is right in itself and hangs at a place that
      is right for a black one; only the edge between the two may be red-red. */
  predicate Inserting(p: Path, t: Tree) {
    Bal(t) && NoRedRed(t) && Red(t) && PathBal(p, Bh(t)) && PathNoRedRed(p, false)
  }

  /** Red uncle: parent and uncle black, grandparent red, carry on from the grandparent. */
  function Recoloured(p: Path, t: Tree): Tree
    requires !p.Top? && !p.up.Top?
  {
    Paint(Up(p.up.(sib := Paint(p.up.sib, false)), Paint(Up(p, t), false)), true)
  }

  lemma RecolouredInserting(p: Path, t: Tree)
    requires Inserting(p, t) && !p.Top? && p.red && !p.up.Top? && Red(p.up.sib)
    ensures Inserting(p.up.up, Recoloured(p, t))
    ensures Wrap(p.up.up, InOrder(Recoloured(p, t))) == Wrap(p, InOrder(t))
  {
    var g, par, uncle := p.up, Paint(Up(p, t), false), Paint(p.up.sib, false);
    assert PathBal(g, Bh(t)) && PathNoRedRed(g, true) && !g.red;
    assert Bal(par) && NoRedRed(par) && Bh(par) == Bh(t) + 1 && InOrder(par) == InOrder(Up(p, t));
    assert Bal(uncle) && NoRedRed(uncle) && Bh(uncle) == Bh(t) + 1 && InOrder(uncle) == InOrder(g.sib);
  }

  /** Black uncle: the parent's subtree once the red child is on the outer side. */
  function Straightened(p: Path, t: Tree): Tree
    requires !p.Top? && !p.up.Top? && t.Fork?
  {
    if p.up.InLeft? && p.InRight? then RotL(Up(p, t))
    else if p.up.InRight? && p.InLeft? then RotR(Up(p, t))
    else Up(p, t)
  }

  lemma StraightenedKeeps(p: Path, t: Tree)
    requires Inserting(p, t) && !p.Top? && p.red && !p.up.Top?
    ensures var s := Straightened(p, t);
            && s.Fork? && InOrder(s) == InOrder(Up(p, t)) && s.red
            && Bal(s.l) && Bal(s.r) && Bh(s.l) == Bh(t) && Bh(s.r) == Bh(t)
            && NoRedRed(s.l) && NoRedRed(s.r)
            && (p.up.InLeft? ==> Red(s.l) && !Red(s.r)) && (p.up.InRight? ==> Red(s.r) && !Red(s.l))
  {
    assert PathNoRedRed(p.up, true);
    if p.up.InLeft? && p.InRight? {
      RotLOrder(Up(p, t));
    } else if p.up.InRight? && p.InLeft? {
      RotROrder(Up(p, t));
    }
  }

  /** The grandparent's subtree after the last rotation. */
  function Restored(p: Path, t: Tree): Tree
    requires !p.Top? && !p.up.Top? && t.Fork?
  {
    var g := Paint(Up(p.up, Paint(Straightened(p, t), false)), true);
    if p.up.InLeft? then RotR(g) else RotL(g)
  }

  /** The red child on the outer side, where the loop sees a black parent and stops. */
  function OuterPath(p: Path, s: Tree): Path
    requires !p.Top? && !p.up.Top? && s.Fork?
  {
    if p.up.InLeft? then InLeft(p.up.up, s.n, s.red, s.r) else InRight(p.up.up, s.n, s.red, s.l)
  }

  lemma RestoredInserting(p: Path, t: Tree)
    requires Inserting(p, t) && !p.Top? && p.red && !p.up.Top? && !Red(p.up.sib)
    ensures var s := Restored(p, t);
            && s.Fork? && s.n == Straightened(p, t).n && !s.red
            && Inserting(OuterPath(p, s), if p.up.InLeft? then s.l else s.r)
            && Wrap(p.up.up, InOrder(s)) == Wrap(p, InOrder(t))
  {
    StraightenedKeeps(p, t);
    var g, k := p.up, Bh(t);
    var s := Paint(Straightened(p, t), false);
    assert PathBal(g, k) && PathNoRedRed(g, true) && !g.red;
    assert InOrder(s) == InOrder(Up(p, t));
    var top := Paint(Up(g, s), true);
    assert InOrder(top) == InOrder(Up(g, Up(p, t)));
    if g.InLeft? {
      RotROrder(top);
    } else {
      RotLOrder(top);
    }
  }

  /** When the loop stops, painting the root black is all that is missing. */
  lemma InsertingDone(p: Path, t: Tree)
    requires Inserting(p, t) && (!p.Top? ==> !p.red)
    ensures Plug(p, t).Fork? && RedBlack(Paint(Plug(p, t), false))
    ensures InOrder(Paint(Plug(p, t), false)) == Wrap(p, InOrder(t))
  {
    PlugOrder(p, t);
    PlugFork(p, t);
    if !p.Top? {
      PlugRedBlack(p, t);
    }
  }

  lemma {:induction false} PlugFork(p: Path, t: Tree)
    requires t.Fork?
    ensures Plug(p, t).Fork?
  {
    if !p.Top? {
      PlugFork(p.up, Up(p, t));
    }
  }

  /** `__rb_erase_color` works on a subtree that is one black node short for its place.  Its
      topmost node may be red, and then red-red with its neighbours. */
  predicate Erasing(p: Path, t: Tree) {
    && Bal(t) && NoRedRed(Paint(t, false))
    && PathBal(p, Bh(t) + 1) && PathNoRedRed(p, false)
  }

  /** A subtree that fits its place in every respect. */
  predicate Settled(p: Path, t: Tree) {
    Bal(t) && NoRedRed(t) && PathBal(p, Bh(t)) && PathNoRedRed(p, Red(t))
  }

  lemma ErasingSibling(p: Path, t: Tree)
    requires Erasing(p, t) && !Red(t) && !p.Top?
    ensures p.sib.Fork? && NoRedRed(t)
    ensures Red(p.sib) ==> p.sib.l.Fork? && p.sib.r.Fork? && !p.red
  {
  }

  /** Red sibling: after one rotation the sibling is black and the parent red. */
  function Lowered(p: Path): Path
    requires !p.Top? && p.sib.Fork?
  {
    if p.InLeft?
    then InLeft(InLeft(p.up, p.sib.n, false, p.sib.r), p.n, true, p.sib.l)
    else InRight(InRight(p.up, p.sib.n, false, p.sib.l), p.n, true, p.sib.r)
  }

  lemma LoweredErasing(p: Path, t: Tree)
    requires Erasing(p, t) && !Red(t) && !p.Top? && Red(p.sib)
    ensures p.sib.Fork? && Erasing(Lowered(p), t) && !Red(Lowered(p).sib)
    ensures Wrap(Lowered(p), InOrder(t)) == Wrap(p, InOrder(t))
  {
    var o, u := p.sib, p.up;
    assert Bh(o) == Bh(t) + 1 == Bh(o.l) == Bh(o.r) && PathNoRedRed(u, false);
    if p.InLeft? {
      Reassociate(InOrder(t), p.n, InOrder(o.l), o.n, InOrder(o.r));
    } else {
      Reassociate(InOrder(o.l), o.n, InOrder(o.r), p.n, InOrder(t));
    }
  }

  /** Black sibling without red children: it turns red and the parent is now one black short. */
  function Raised(p: Path, t: Tree): Tree
    requires !p.Top?
  {
    Up(p.(sib := Paint(p.sib, true)), t)
  }

  lemma RaisedErasing(p: Path, t: Tree)
    requires Erasing(p, t) && !Red(t) && !p.Top? && p.sib.Fork? && !p.sib.red && !Red(p.sib.l) && !Red(p.sib.r)
    ensures Erasing(p.up, Raised(p, t))
    ensures Wrap(p.up, InOrder(Raised(p, t))) == Wrap(p, InOrder(t))
  {
    var o := Paint(p.sib, true);
    assert Bal(o) && NoRedRed(o) && Bh(o) == Bh(t) && InOrder(o) == InOrder(p.sib);
    assert PathNoRedRed(p.up, p.red);
    PathBlackSafe(p.up, p.red);
  }

  lemma PathBlackSafe(p: Path, red: bool)
    requires PathNoRedRed(p, red)
    ensures PathNoRedRed(p, false)
  {
  }

  /** The sibling once its outer child is the red one. */
  function Turned(p: Path): Tree
    requires !p.Top? && p.sib.Fork?
    requires if p.InLeft? then Red(p.sib.r) || p.sib.l.Fork? else Red(p.sib.l) || p.sib.r.Fork?
  {
    var o := p.sib;
    if p.InLeft? then
      if Red(o.r) then o else RotR(Fork(Paint(o.l, false), o.n, o.r, true))
    else
      if Red(o.l) then o else RotL(Fork(o.l, o.n, Paint(o.r, false), true))
  }

  lemma TurnedKeeps(p: Path, t: Tree)
    requires Erasing(p, t) && !p.Top? && p.sib.Fork? && !p.sib.red && (Red(p.sib.l) || Red(p.sib.r))
    ensures var o := Turned(p);
            && o.Fork? && InOrder(o) == InOrder(p.sib)
            && Bal(o.l) && Bal(o.r) && Bh(o.l) == Bh(t) && Bh(o.r) == Bh(t) && NoRedRed(o.l) && NoRedRed(o.r)
            && (p.InLeft? ==> Red(o.r)) && (p.InRight? ==> Red(o.l))
  {
    var o := p.sib;
    assert Bal(o.l) && Bal(o.r) && NoRedRed(o.l) && NoRedRed(o.r) && Bh(o.l) == Bh(o.r) == Bh(t);
    if p.InLeft? && !Red(o.r) {
      var o' := Fork(Paint(o.l, false), o.n, o.r, true);
      assert InOrder(Paint(o.l, false)) == InOrder(o.l);
      RotROrder(o');
    } else if p.InRight? && !Red(o.l) {
      var o' := Fork(o.l, o.n, Paint(o.r, false), true);
      assert InOrder(Paint(o.r, false)) == InOrder(o.r);
      RotLOrder(o');
    }
  }

  /** The parent's subtree after the last rotation: the missing black node is back. */
  function Closed(p: Path, t: Tree): Tree
    requires !p.Top? && p.sib.Fork?
    requires if p.InLeft? then Red(p.sib.r) || p.sib.l.Fork? else Red(p.sib.l) || p.sib.r.Fork?
  {
    var o := Turned(p);
    if p.InLeft?
    then RotL(Fork(t, p.n, Fork(o.l, o.n, Paint(o.r, false), p.red), false))
    else RotR(Fork(Fork(Paint(o.l, false), o.n, o.r, p.red), p.n, t, false))
  }

  lemma ClosedSettled(p: Path, t: Tree)
    requires Erasing(p, t) && !Red(t) && !p.Top? && p.sib.Fork? && !p.sib.red && (Red(p.sib.l) || Red(p.sib.r))
    ensures Settled(p.up, Closed(p, t))
    ensures Wrap(p.up, InOrder(Closed(p, t))) == Wrap(p, InOrder(t))
  {
    TurnedKeeps(p, t);
    var o := Turned(p);
    assert NoRedRed(t) && PathBal(p.up, Bh(t) + 1 + if p.red then 0 else 1) && PathNoRedRed(p.up, p.red);
    if p.InLeft? {
      var o' := Fork(o.l, o.n, Paint(o.r, false), p.red);
      assert InOrder(Paint(o.r, false)) == InOrder(o.r) && InOrder(o') == InOrder(o);
      RotLOrder(Fork(t, p.n, o', false));
    } else {
      var o' := Fork(Paint(o.l, false), o.n, o.r, p.red);
      assert InOrder(Paint(o.l, false)) == InOrder(o.l) && InOrder(o') == InOrder(o);
      RotROrder(Fork(o', p.n, t, false));
    }
  }

  lemma SettledWhole(p: Path, t: Tree)
    requires Settled(p, t)
    ensures Settled(Top, Paint(Plug(p, t), false)) && Wrap(Top, InOrder(Plug(p, t))) == Wrap(p, InOrder(t))
  {
    PlugRedBlack(p, t);
    PlugOrder(p, t);
  }

  lemma SettledPlug(p: Path, t: Tree)
    requires Settled(p, t)
    ensures RedBlack(Plug(p, t)) && InOrder(Plug(p, t)) == Wrap(p, InOrder(t))
  {
    PlugRedBlack(p, t);
    PlugOrder(p, t);
  }

  /** Leaving the loop at a red node or at the root: painting it black settles it. */
  lemma ErasingDone(p: Path, t: Tree)
    requires Erasing(p, t) && (Red(t) || p.Top?)
    ensures Settled(p, Paint(t, false)) && InOrder(Paint(t, false)) == InOrder(t)
  {
  }

  /** Taking a node with at most one child out. */
  lemma UnlinkedColours(p: Path, t: Tree, c: Tree)
    requires Settled(p, t) && t.Fork? && ((t.l.Leaf? && c == t.r) || (t.r.Leaf? && c == t.l))
    ensures t.red ==> Settled(p, c)
    ensures !t.red ==> Erasing(p, c)
    ensures InOrder(t) == InOrder(t.l) + [t.n] + InOrder(t.r) && InOrder(c) == InOrder(t.l) + InOrder(t.r)
  {
    assert Bal(c) && NoRedRed(c);
    PathBlackSafe(p, t.red);
  }

  /** `s'` is `s` without its element at `i`. */
  predicate RemovedAt(s: seq<Node>, s': seq<Node>, i: nat) {
    i < |s| && s' == s[..i] + s[i + 1..]
  }

  lemma WrapRemoved(p: Path, a: seq<Node>, x: Node, b: seq<Node>)
    ensures var i := |Before(p)| + |a|;
            && RemovedAt(Wrap(p, a + [x] + b), Wrap(p, a + b), i) && Wrap(p, a + [x] + b)[i] == x
  {
    hide Wrap, Before, After;
    WrapSplits(p, a + [x] + b);
    WrapSplits(p, a + b);
    var f, g := Before(p), After(p);
    assert f + (a + [x] + b) + g == (f + a) + ([x] + (b + g));
    assert f + (a + b) + g == (f + a) + (b + g);
    assert ([x] + (b + g))[1..] == b + g;
  }

  lemma SettledDown(p: Path, t: Tree)
    requires Settled(p, t) && t.Fork?
    ensures Settled(InLeft(p, t.n, t.red, t.r), t.l) && Settled(InRight(p, t.n, t.red, t.l), t.r)
  {
  }

  // ---- height ----

  function Height(t: Tree): nat {
    if t.Leaf? then 0
    else 1 + if Height(t.l) <= Height(t.r) then Height(t.r) else Height(t.l)
  }

  /** No subtree lies deeper than the height allows. */
  lemma {:induction false} DepthWithin(p: Path, t: Tree)
    ensures Depth(p) + Height(t) <= Height(Plug(p, t))
  {
    if !p.Top? {
      DepthWithin(p.up, Up(p, t));
    }
  }

  lemma {:induction false} BlackHeightBounds(t: Tree)
    requires Bal(t) && NoRedRed(t)
    ensures Pow2(Bh(t)) <= |InOrder(t)| + 1
    ensures Height(t) <= 2 * Bh(t) + if Red(t) then 1 else 0
  {
    if t.Fork? {
      BlackHeightBounds(t.l);
      BlackHeightBounds(t.r);
    }
  }

  lemma {:induction false} Pow2Monotone(a: nat, b: nat)
    requires a <= b
    ensures Pow2(a) <= Pow2(b)
  {
    if a < b {
      Pow2Monotone(a, b - 1);
    }
  }

  lemma {:induction false} Pow2Double(a: nat)
    ensures Pow2(2 * a) == Pow2(a) * Pow2(a)
  {
    if a > 0 {
      Pow2Double(a - 1);
      assert Pow2(2 * a) == 2 * Pow2(2 * a - 1) == 4 * Pow2(2 * (a - 1));
    }
  }

  lemma SquareMonotone(a: nat, b: nat)
    requires a <= b
    ensures a * a <= b * b
  {
    assert a * (b - a) >= 0 && (b - a) * b >= 0;
  }

  /** A red-black tree of n nodes is at most 2 * log2(n + 1) high. */
  lemma HeightBound(t: Tree)
    requires RedBlack(t)
    ensures Pow2(Height(t)) <= (|InOrder(t)| + 1) * (|InOrder(t)| + 1)
  {
    BlackHeightBounds(t);
    Pow2Monotone(Height(t), 2 * Bh(t));
    Pow2Double(Bh(t));
    SquareMonotone(Pow2(Bh(t)), |InOrder(t)| + 1);
  }
}
