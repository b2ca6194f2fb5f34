/**
  The timer queue of libosmocore/src/timer.c on top of the red-black tree: timers sorted by
  timeout, and the eviction loop that fires expired timers while their callbacks may add, delete
  or reschedule any timer.
 */
module Timers {
  import opened RbTrees
  import opened RbHeap
  import opened RbTree
  import opened Wrappers

  /** `timercmp(a, b, <)` */
  predicate Less(a: TimeVal, b: TimeVal) {
    a.sec < b.sec || (a.sec == b.sec && a.usec < b.usec)
  }

  /** `timeradd` */
  function AddTime(a: TimeVal, b: TimeVal): TimeVal {
    if a.usec + b.usec >= 1000000
    then TimeVal(a.sec + b.sec + 1, a.usec + b.usec - 1000000)
    else TimeVal(a.sec + b.sec, a.usec + b.usec)
  }

  /** `timersub` */
  function SubTime(a: TimeVal, b: TimeVal): TimeVal {
    if a.usec < b.usec
    then TimeVal(a.sec - b.sec - 1, a.usec - b.usec + 1000000)
    else TimeVal(a.sec - b.sec, a.usec - b.usec)
  }

  const LONG_MAX := 0x7fff_ffff_ffff_ffff

  /** The time in microseconds. */
  function Micros(a: TimeVal): int { 1000000 * a.sec + a.usec }

  predicate Normal(a: TimeVal) { 0 <= a.usec < 1000000 }

  /** For normal times the comparison is that of the times in microseconds, and sum and difference
      are sum and difference of these. */
  lemma LessIs(a: TimeVal, b: TimeVal)
    requires Normal(a) && Normal(b)
    ensures Less(a, b) <==> Micros(a) < Micros(b)
    ensures Normal(AddTime(a, b)) && Micros(AddTime(a, b)) == Micros(a) + Micros(b)
    ensures Normal(SubTime(a, b)) && Micros(SubTime(a, b)) == Micros(a) - Micros(b)
  {
  }

  lemma LessAll()
    ensures forall a, b :: Normal(a) && Normal(b) ==> (Less(a, b) <==> Micros(a) < Micros(b))
  {
  }

  /** What a callback may do to a timer: set its timeout and add it, schedule it relative to the
      current time, or delete it. */
  datatype Op =
    | Add(timer: Node, timeout: TimeVal)
    | Schedule(timer: Node, seconds: int, microseconds: int, now: TimeVal)
    | Del(timer: Node)

  // ---- firing order ----

  function Without(s: seq<Node>, t: Node): seq<Node> {
    if s == [] then [] else if s[0] == t then Without(s[1..], t) else [s[0]] + Without(s[1..], t)
  }

  /** What a callback leaves of the eviction list. */
  function Untouched(s: seq<Node>, ops: seq<Op>): seq<Node>
    decreases |ops|
  {
    if ops == [] then s else Untouched(Without(s, ops[0].timer), ops[1..])
  }

  predicate Touches(ops: seq<Op>, t: Node) {
    exists i :: 0 <= i < |ops| && ops[i].timer == t
  }

  predicate NoDup(s: seq<Node>) {
    forall i, j :: 0 <= i < j < |s| ==> s[i] != s[j]
  }

  lemma {:induction false} WithoutMembers(s: seq<Node>, t: Node, x: Node)
    ensures x in Without(s, t) <==> x in s && x != t
    ensures |Without(s, t)| <= |s|
  {
    if s != [] {
      WithoutMembers(s[1..], t, x);
    }
  }

  lemma NoDupCons(x: Node, s: seq<Node>)
    requires NoDup(s) && x !in s
    ensures NoDup([x] + s)
  {
  }

  lemma NoDupHead(s: seq<Node>)
    requires NoDup(s) && s != []
    ensures s[0] !in s[1..] && NoDup(s[1..])
  {
  }

  lemma {:induction false} WithoutNoDup(s: seq<Node>, t: Node)
    requires NoDup(s)
    ensures NoDup(Without(s, t)) && (t !in s ==> Without(s, t) == s)
  {
    if s != [] {
      assert NoDup(s[1..]) && s == [s[0]] + s[1..];
      hide NoDup;
      WithoutNoDup(s[1..], t);
      if s[0] != t {
        assert s[0] !in s[1..] by { NoDupHead(s); }
        WithoutMembers(s[1..], t, s[0]);
        NoDupCons(s[0], Without(s[1..], t));
      }
    }
  }

  lemma {:induction false} UntouchedMembers(s: seq<Node>, ops: seq<Op>, x: Node)
    ensures x in Untouched(s, ops) <==> x in s && !Touches(ops, x)
    decreases |ops|
  {
    if ops != [] {
      WithoutMembers(s, ops[0].timer, x);
      UntouchedMembers(Without(s, ops[0].timer), ops[1..], x);
      if Touches(ops, x) && ops[0].timer != x {
        var i :| 0 <= i < |ops| && ops[i].timer == x;
        assert ops[1..][i - 1].timer == x;
      }
    }
  }

  lemma {:induction false} UntouchedShape(s: seq<Node>, ops: seq<Op>)
    requires NoDup(s)
    ensures NoDup(Untouched(s, ops)) && |Untouched(s, ops)| <= |s|
    decreases |ops|
  {
    if ops != [] {
      WithoutNoDup(s, ops[0].timer);
      WithoutMembers(s, ops[0].timer, ops[0].timer);
      UntouchedShape(Without(s, ops[0].timer), ops[1..]);
    }
  }

  /** The timers that fire from an eviction list, when the n-th callback of the run performs
      `script(n)` and the next callback to run is number `k`. */
  ghost function Firing(list: seq<Node>, script: nat -> seq<Op>, k: nat): seq<Node>
    requires NoDup(list)
    decreases |list|
  {
    if list == [] then []
    else
      UntouchedShape(list[1..], script(k));
      [list[0]] + Firing(Untouched(list[1..], script(k)), script, k + 1)
  }

  /** Only listed timers fire, each at most once, and a timer that fires as number `j` was not
      touched by any callback that ran before it. */
  lemma {:induction false} FiringSound(list: seq<Node>, script: nat -> seq<Op>, k: nat)
    requires NoDup(list)
    ensures var f := Firing(list, script, k);
            && NoDup(f) && (forall j :: 0 <= j < |f| ==> f[j] in list)
            && forall n, j :: k <= n < k + j && j < |f| ==> !Touches(script(n), f[j])
    decreases |list|
  {
    if list != [] {
      UntouchedShape(list[1..], script(k));
      var rest := Untouched(list[1..], script(k));
      var g := Firing(rest, script, k + 1);
      FiringSound(rest, script, k + 1);
      var f := [list[0]] + g;
      forall j | 0 <= j < |g| ensures g[j] in list[1..] && !Touches(script(k), g[j]) {
        UntouchedMembers(list[1..], script(k), g[j]);
      }
      NoDupHead(list);
      NoDupCons(list[0], g);
      forall n, j | k <= n < k + j && j < |f| ensures !Touches(script(n), f[j]) {
        assert f[j] == g[j - 1];
      }
    }
  }

  /** `x` stands before `y`. */
  predicate Precedes(s: seq<Node>, x: Node, y: Node) {
    exists i, j :: 0 <= i < j < |s| && s[i] == x && s[j] == y
  }

  lemma PrecedesAsymmetric(s: seq<Node>, x: Node, y: Node)
    requires NoDup(s) && Precedes(s, x, y)
    ensures x != y && !Precedes(s, y, x)
  {
    var i, j :| 0 <= i < j < |s| && s[i] == x && s[j] == y;
  }

  lemma PrecedesCons(x: Node, s: seq<Node>, y: Node, z: Node)
    requires Precedes(s, y, z)
    ensures Precedes([x] + s, y, z)
  {
    var i, j :| 0 <= i < j < |s| && s[i] == y && s[j] == z;
    assert ([x] + s)[i + 1] == y && ([x] + s)[j + 1] == z;
  }

  lemma HeadPrecedes(s: seq<Node>, y: Node)
    requires s != [] && y in s[1..]
    ensures Precedes(s, s[0], y)
  {
    var j :| 0 <= j < |s[1..]| && s[1..][j] == y;
    assert s[j + 1] == y;
  }

  lemma {:induction false} WithoutPrecedes(s: seq<Node>, t: Node, x: Node, y: Node)
    requires Precedes(Without(s, t), x, y)
    ensures Precedes(s, x, y)
  {
    if s != [] {
      var rest := Without(s[1..], t);
      assert s == [s[0]] + s[1..];
      if s[0] == t || Precedes(rest, x, y) {
        WithoutPrecedes(s[1..], t, x, y);
        PrecedesCons(s[0], s[1..], x, y);
      } else {
        ConsPrecedes(s[0], rest, x, y);
        WithoutMembers(s[1..], t, y);
        HeadPrecedes(s, y);
      }
    }
  }

  lemma ConsPrecedes(h: Node, s: seq<Node>, x: Node, y: Node)
    requires Precedes([h] + s, x, y) && !Precedes(s, x, y)
    ensures x == h && y in s
  {
    var i, j :| 0 <= i < j < |[h] + s| && ([h] + s)[i] == x && ([h] + s)[j] == y;
    assert s[j - 1] == y;
  }

  lemma {:induction false} UntouchedPrecedes(s: seq<Node>, ops: seq<Op>, x: Node, y: Node)
    requires Precedes(Untouched(s, ops), x, y)
    ensures Precedes(s, x, y)
    decreases |ops|
  {
    hide Precedes, Without;
    if ops != [] {
      UntouchedPrecedes(Without(s, ops[0].timer), ops[1..], x, y);
      WithoutPrecedes(s, ops[0].timer, x, y);
    }
  }

  /** What stands in order among the survivors of a callback stands in order in the list. */
  lemma RestPrecedes(list: seq<Node>, ops: seq<Op>, x: Node, y: Node)
    requires list != [] && Precedes(Untouched(list[1..], ops), x, y)
    ensures Precedes(list, x, y)
  {
    hide Precedes, Untouched;
    UntouchedPrecedes(list[1..], ops, x, y);
    PrecedesCons(list[0], list[1..], x, y);
    assert list == [list[0]] + list[1..];
  }

  /** Timers fire in the order of the list. */
  lemma {:induction false} FiringOrder(list: seq<Node>, script: nat -> seq<Op>, k: nat, i: nat, j: nat)
    requires NoDup(list) && i < j < |Firing(list, script, k)|
    ensures Precedes(list, Firing(list, script, k)[i], Firing(list, script, k)[j])
    decreases |list|
  {
    hide NoDup, Precedes, Untouched;
    FiringUnfold(list, script, k);
    var rest := Untouched(list[1..], script(k));
    var g := Firing(rest, script, k + 1);
    if i > 0 {
      FiringOrder(rest, script, k + 1, i - 1, j - 1);
      RestPrecedes(list, script(k), g[i - 1], g[j - 1]);
    } else {
      FiringSound(rest, script, k + 1);
      UntouchedMembers(list[1..], script(k), g[j - 1]);
      HeadPrecedes(list, g[j - 1]);
    }
  }

  /** A callback, of those that start with number `k`, touched `t` before the turn of `t` came. */
  predicate TouchedEarlier(list: seq<Node>, fired: seq<Node>, script: nat -> seq<Op>, k: nat, t: Node) {
    exists j :: 0 <= j < |fired| && Precedes(list, fired[j], t) && Touches(script(k + j), t)
  }

  /** A listed timer that does not fire was touched by a callback that ran before its turn. */
  lemma {:induction false} FiringComplete(list: seq<Node>, script: nat -> seq<Op>, k: nat, t: Node)
    requires NoDup(list) && t in list && t !in Firing(list, script, k)
    ensures TouchedEarlier(list, Firing(list, script, k), script, k, t)
    decreases |list|
  {
    hide NoDup, Precedes, Untouched, Touches;
    FiringUnfold(list, script, k);
    var rest := Untouched(list[1..], script(k));
    var f, g := Firing(list, script, k), Firing(rest, script, k + 1);
    assert t in list[1..] && f[0] == list[0];
    if Touches(script(k), t) {
      HeadPrecedes(list, t);
      assert Precedes(list, f[0], t) && Touches(script(k + 0), t);
    } else {
      UntouchedMembers(list[1..], script(k), t);
      FiringComplete(rest, script, k + 1, t);
      var j :| 0 <= j < |g| && Precedes(rest, g[j], t) && Touches(script(k + 1 + j), t);
      RestPrecedes(list, script(k), g[j], t);
      assert f[j + 1] == g[j] && k + (j + 1) == k + 1 + j;
    }
  }

  /** No callback among the first `n` touches the timer. */
  ghost predicate LeftAlone(script: nat -> seq<Op>, n: nat, t: Node) {
    forall i :: 0 <= i < n ==> !Touches(script(i), t)
  }

  /** An eviction list fires, in its order and each once, exactly the timers that no callback
      touches before their turn. */
  lemma FiringExactly(list: seq<Node>, script: nat -> seq<Op>)
    requires NoDup(list)
    ensures var f := Firing(list, script, 0);
            && NoDup(f)
            && (forall t :: t in f ==> t in list)
            && (forall i, j :: 0 <= i < j < |f| ==> Precedes(list, f[i], f[j]))
            && (forall j :: 0 <= j < |f| ==> LeftAlone(script, j, f[j]))
            && (forall t :: t in list ==> (t in f <==> !TouchedEarlier(list, f, script, 0, t)))
  {
    hide Precedes, Untouched, Touches, Firing;
    FiringSound(list, script, 0);
    var f := Firing(list, script, 0);
    forall i, j | 0 <= i < j < |f| ensures Precedes(list, f[i], f[j]) {
      FiringOrder(list, script, 0, i, j);
    }
    forall t | t in list ensures t in f <==> !TouchedEarlier(list, f, script, 0, t) {
      if t !in f {
        FiringComplete(list, script, 0, t);
      } else if TouchedEarlier(list, f, script, 0, t) {
        var j :| 0 <= j < |f| && Precedes(list, f[j], t) && Touches(script(0 + j), t);
        var m :| 0 <= m < |f| && f[m] == t;
        PrecedesAsymmetric(list, f[j], t);
        assert false;
      }
    }
  }

  lemma ReversePrecedes(s: seq<Node>, x: Node, y: Node)
    requires Precedes(Reverse(s), x, y)
    ensures Precedes(s, y, x)
  {
    hide Reverse;
    ReverseIndex(s);
    var i, j :| 0 <= i < j < |Reverse(s)| && Reverse(s)[i] == x && Reverse(s)[j] == y;
    assert s[|s| - 1 - j] == y && s[|s| - 1 - i] == x;
  }

  /** The same for the expired timers, which are listed latest first. */
  lemma FiringReversed(expired: seq<Node>, script: nat -> seq<Op>, due: Due)
    requires NoDup(expired) && Sorted(expired, due, null)
    ensures NoDup(Reverse(expired))
    ensures var f := Firing(Reverse(expired), script, 0);
            && NoDup(f)
            && (forall t :: t in f ==> t in expired && t in due)
            && (forall i, j :: 0 <= i < j < |f| ==> Precedes(expired, f[j], f[i]) && !Less(due[f[i]], due[f[j]]))
            && (forall j :: 0 <= j < |f| ==> LeftAlone(script, j, f[j]))
            && (forall t :: t in expired ==> (t in f <==> !TouchedEarlier(Reverse(expired), f, script, 0, t)))
  {
    hide Precedes, Touches, Firing, Reverse, Less, Sorted, NoDup, TouchedEarlier, LeftAlone;
    ReverseShape(expired);
    FiringExactly(Reverse(expired), script);
    SortedWithin(expired, due);
    var f := Firing(Reverse(expired), script, 0);
    forall j | 0 <= j < |f| ensures f[j] in due {
      assert f[j] in Reverse(expired);
    }
    forall i, j | 0 <= i < j < |f| ensures Precedes(expired, f[j], f[i]) && !Less(due[f[i]], due[f[j]]) {
      ReversePrecedes(expired, f[i], f[j]);
      SortedPrecedes(expired, due, f[j], f[i]);
    }
  }

  lemma SortedPrecedes(s: seq<Node>, due: Due, x: Node, y: Node)
    requires Sorted(s, due, null) && Precedes(s, x, y)
    ensures x in due && y in due && !Less(due[y], due[x])
  {
  }

  lemma SortedPrefix(s: seq<Node>, k: nat, due: Due)
    requires Sorted(s, due, null) && k <= |s|
    ensures Sorted(s[..k], due, null)
  {
  }

  // ---- order by timeout ----

  type Due = map<Node, TimeVal>

  /** No timer stands before one that expires earlier; `except` may stand anywhere. */
  ghost predicate Sorted(s: seq<Node>, due: Due, except: Node?) {
    && (forall i :: 0 <= i < |s| ==> s[i] in due)
    && forall i, j :: 0 <= i < j < |s| && s[i] != except && s[j] != except ==> !Less(due[s[j]], due[s[i]])
  }

  ghost predicate NotAfter(s: seq<Node>, due: Due, t: TimeVal) {
    forall i :: 0 <= i < |s| ==> s[i] in due && !Less(t, due[s[i]])
  }

  ghost predicate AllAfter(s: seq<Node>, due: Due, t: TimeVal) {
    forall i :: 0 <= i < |s| ==> s[i] in due && Less(t, due[s[i]])
  }

  /** `s'` is `s` with `t` inserted behind everything that does not expire later. */
  ghost predicate InsertedAt(s: seq<Node>, s': seq<Node>, k: nat, t: Node, due: Due) {
    && k <= |s| && s' == s[..k] + [t] + s[k..] && t in due
    && NotAfter(s[..k], due, due[t]) && AllAfter(s[k..], due, due[t])
  }

  /** Sorted means by rising time in microseconds. */
  lemma SortedByMicros(s: seq<Node>, due: Due)
    requires forall i :: 0 <= i < |s| ==> s[i] in due && Normal(due[s[i]])
    ensures Sorted(s, due, null) <==> forall i, j :: 0 <= i < j < |s| ==> Micros(due[s[i]]) <= Micros(due[s[j]])
  {
    hide Less, Micros, Normal;
    forall i, j | 0 <= i < j < |s| ensures !Less(due[s[j]], due[s[i]]) <==> Micros(due[s[i]]) <= Micros(due[s[j]]) {
      LessIs(due[s[j]], due[s[i]]);
    }
  }

  lemma InsertedSorted(s: seq<Node>, s': seq<Node>, k: nat, t: Node, due: Due)
    requires Sorted(s, due, null) && InsertedAt(s, s', k, t, due)
    ensures Sorted(s', due, null)
  {
    forall i | 0 <= i < |s'| ensures s'[i] in due {
    }
    forall i, j | 0 <= i < j < |s'| ensures !Less(due[s'[j]], due[s'[i]]) {
      if i < k { assert s'[i] == s[..k][i] == s[i]; }
      if j < k { assert s'[j] == s[..k][j] == s[j]; }
      if i > k { assert s'[i] == s[k..][i - k - 1] == s[i - 1]; }
      if j > k { assert s'[j] == s[k..][j - k - 1] == s[j - 1]; }
    }
  }

  lemma RemovedSorted(s: seq<Node>, s': seq<Node>, i: nat, t: Node, due: Due)
    requires Sorted(s, due, t) && RemovedAt(s, s', i) && s[i] == t && t !in s'
    ensures Sorted(s', due, null)
  {
  }

  /** Where the scan of a sorted sequence stands at `k`: it goes on, or everything left is later. */
  lemma SortedAt(s: seq<Node>, k: nat, due: Due, now: TimeVal)
    requires Sorted(s, due, null) && k < |s| && NotAfter(s[..k], due, now)
    ensures s[k] in due && s[..k + 1] == s[..k] + [s[k]]
    ensures Less(now, due[s[k]]) ==> AllAfter(s[k..], due, now)
    ensures !Less(now, due[s[k]]) ==> NotAfter(s[..k + 1], due, now)
  {
    forall j | 0 <= j < |s[k..]| && Less(now, due[s[k]]) ensures Less(now, due[s[k..][j]]) {
      assert s[k..][j] == s[k + j];
    }
  }

  lemma SortedWithin(s: seq<Node>, due: Due)
    requires Sorted(s, due, null)
    ensures forall i :: 0 <= i < |s| ==> s[i] in due
  {
  }

  lemma SortedAbsent(s: seq<Node>, due: Due, t: Node)
    requires Sorted(s, due, t) && t !in s
    ensures Sorted(s, due, null)
  {
  }

  lemma LaterHalf(f: seq<Node>, a: seq<Node>, x: Node, b: seq<Node>, g: seq<Node>, due: Due, time: TimeVal)
    requires Sorted(f + (a + [x] + b) + g, due, null) && x in due && Less(time, due[x]) && AllAfter(g, due, time)
    ensures f + (a + [x] + b) + g == f + a + ([x] + b + g) && AllAfter([x] + b + g, due, time)
  {
    var order := f + (a + [x] + b) + g;
    assert order == f + a + ([x] + b + g);
    forall j | 0 <= j < |b| ensures b[j] in due && Less(time, due[b[j]]) {
      assert order[|f| + |a|] == x && order[|f| + |a| + 1 + j] == b[j];
    }
  }

  lemma EarlierHalf(f: seq<Node>, a: seq<Node>, x: Node, b: seq<Node>, g: seq<Node>, due: Due, time: TimeVal)
    requires Sorted(f + (a + [x] + b) + g, due, null) && x in due && !Less(time, due[x]) && NotAfter(f, due, time)
    ensures f + (a + [x] + b) + g == f + a + [x] + b + g && NotAfter(f + a + [x], due, time)
  {
    var order := f + (a + [x] + b) + g;
    assert order == f + a + [x] + b + g;
    forall j | 0 <= j < |a| ensures a[j] in due && !Less(time, due[a[j]]) {
      assert order[|f| + |a|] == x && order[|f| + j] == a[j];
    }
  }

  lemma DescendLeft(order: seq<Node>, p: Path, t: Tree, due: Due, time: TimeVal)
    requires Sorted(order, due, null) && order == Before(p) + InOrder(t) + After(p) && t.Fork?
    requires t.n in due && Less(time, due[t.n]) && AllAfter(After(p), due, time)
    ensures var q := InLeft(p, t.n, t.red, t.r);
            AllAfter(After(q), due, time) && Before(q) == Before(p) && order == Before(q) + InOrder(t.l) + After(q)
  {
    hide Sorted, Less, AllAfter;
    LaterHalf(Before(p), InOrder(t.l), t.n, InOrder(t.r), After(p), due, time);
  }

  lemma DescendRight(order: seq<Node>, p: Path, t: Tree, due: Due, time: TimeVal)
    requires Sorted(order, due, null) && order == Before(p) + InOrder(t) + After(p) && t.Fork?
    requires t.n in due && !Less(time, due[t.n]) && NotAfter(Before(p), due, time)
    ensures var q := InRight(p, t.n, t.red, t.l);
            NotAfter(Before(q), due, time) && After(q) == After(p) && order == Before(q) + InOrder(t.r) + After(q)
  {
    hide Sorted, Less, NotAfter;
    EarlierHalf(Before(p), InOrder(t.l), t.n, InOrder(t.r), After(p), due, time);
  }

  lemma OrderWithin(h: Heap, root: Node?, t: Tree)
    requires Zip(h, root, Top, t)
    ensures NoDup(InOrder(t)) && forall n :: n in InOrder(t) <==> n in h
  {
    OrderNoDup(t);
    forall n ensures n in InOrder(t) <==> n in h {
      OrderMembers(t, n);
    }
  }

  lemma SettledTop(t: Tree)
    requires RedBlack(t)
    ensures Settled(Top, t) && Before(Top) + InOrder(t) + After(Top) == InOrder(t)
  {
  }

  lemma LeafOrder(p: Path, t: Tree)
    requires t.Leaf?
    ensures Before(p) + InOrder(t) + After(p) == Before(p) + After(p) && t == Leaf
  {
  }

  // ---- the queue ----

  class Queue {
    const root: Root
    var evict: seq<Node>
    ghost const timers: set<Node>

    ghost function Timeouts(): Due
      reads timers`timeout
    {
      map t | t in timers :: t.timeout
    }

    /** The tree holds exactly the active timers, and the eviction list only such timers. */
    ghost predicate Consistent()
      reads this, root, root.nodes`left, root.nodes`right, root.nodes`parent, root.nodes`red, timers`active
    {
      && root.Valid() && root.nodes <= timers
      && (forall t :: t in timers ==> (t.active <==> t in root.nodes))
      && NoDup(evict) && (forall t :: t in evict ==> t in root.nodes)
    }

    ghost predicate Inv()
      reads this, root, root.nodes`left, root.nodes`right, root.nodes`parent, root.nodes`red
      reads timers`active, timers`timeout
    {
      Consistent() && Sorted(root.Order(), Timeouts(), null)
    }

    constructor (ghost timers: set<Node>)
      requires forall t :: t in timers ==> !t.active
      ensures this.timers == timers && Inv() && evict == [] && fresh(root)
    {
      root := new Root();
      this.timers := timers;
      evict := [];
    }

    /** The descent of `__add_timer` to the slot where a timer belongs. */
    method FindSlot(time: TimeVal) returns (parent: Node?, asLeft: bool, ghost p: Path)
      requires root.Valid() && root.nodes <= timers && Sorted(root.Order(), Timeouts(), null)
      ensures Zip(root.Snap(), root.node, p, Leaf) && Settled(p, Leaf) && root.Order() == Before(p) + After(p)
      ensures parent == Parent(p) && (parent != null ==> (asLeft <==> p.InLeft?))
      ensures NotAfter(Before(p), Timeouts(), time) && AllAfter(After(p), Timeouts(), time)
    {
      hide Zip, Settled, RedBlack, InOrder, Sorted, NotAfter, AllAfter;
      ghost var h, due, t := root.Snap(), Timeouts(), root.tree;
      assert NotAfter([], due, time) && AllAfter([], due, time) by { EmptyBounds(due, time); }
      SettledTop(t);
      p := Top;
      SlotFacts(h, root.node, p, t);
      var cur := root.node;
      parent, asLeft := null, true;
      while cur != null
        invariant Zip(h, root.node, p, t) && Settled(p, t) && cur == Ref(t) && (cur != null ==> cur in h)
        invariant parent == Parent(p) && (parent != null ==> (asLeft <==> p.InLeft?))
        invariant root.Order() == Before(p) + InOrder(t) + After(p)
        invariant NotAfter(Before(p), due, time) && AllAfter(After(p), due, time)
        decreases t
      {
        parent := cur;
        SettledDown(p, t);
        SlotFacts(h, root.node, p, t);
        if Less(time, cur.timeout) {
          DescendLeft(root.Order(), p, t, due, time);
          ZipDownLeft(h, root.node, p, t);
          cur, asLeft := cur.left, true;
          p, t := InLeft(p, t.n, t.red, t.r), t.l;
        } else {
          DescendRight(root.Order(), p, t, due, time);
          ZipDownRight(h, root.node, p, t);
          cur, asLeft := cur.right, false;
          p, t := InRight(p, t.n, t.red, t.l), t.r;
        }
        SlotFacts(h, root.node, p, t);
      }
      LeafOrder(p, t);
    }

    /** `__add_timer`: the new timer goes behind all timers that do not expire later. */
    method AddTimer(timer: Node) returns (ghost k: nat)
      requires root.Valid() && root.nodes <= timers && Sorted(root.Order(), Timeouts(), null)
      requires timer in timers && timer !in root.nodes
      modifies root, timers`left, timers`right, timers`parent, timers`red
      ensures root.Valid() && root.nodes == old(root.nodes) + {timer}
      ensures InsertedAt(old(root.Order()), root.Order(), k, timer, Timeouts())
    {
      hide Zip, Settled, RedBlack, InOrder, Sorted, NotAfter, AllAfter;
      ghost var order := root.Order();
      ghost var p;
      var parent, asLeft;
      parent, asLeft, p := FindSlot(timer.timeout);
      root.Insert(timer, parent, asLeft, p);
      k := |Before(p)|;
      assert order[..k] == Before(p) && order[k..] == After(p);
    }

    /** `osmo_timer_del`; `timer` may have had its timeout rewritten while it was queued. */
    method TimerDel(timer: Node)
      requires Consistent() && timer in timers && Sorted(root.Order(), Timeouts(), timer)
      modifies `evict, root, timers`left, timers`right, timers`parent, timers`red, timers`active
      ensures Inv() && root.nodes == old(root.nodes) - {timer}
      ensures evict == Without(old(evict), timer)
    {
      hide Zip, RedBlack, InOrder, NoDup, Without, Sorted, Less, RemovedAt;
      ghost var order := root.Order();
      WithoutNoDup(evict, timer);
      OrderWithin(root.Snap(), root.node, root.tree);
      if timer.active {
        timer.active := false;
        ghost var i := root.Erase(timer);
        OrderWithin(root.Snap(), root.node, root.tree);
        RemovedSorted(order, root.Order(), i, timer, Timeouts());
        forall t | t in Without(evict, timer) ensures t in root.nodes {
          WithoutMembers(evict, timer, t);
        }
        if timer in evict {
          evict := Without(evict, timer);
        }
      } else {
        SortedAbsent(order, Timeouts(), timer);
      }
    }

    /** `osmo_timer_add` */
    method TimerAdd(timer: Node)
      requires Consistent() && timer in timers && Sorted(root.Order(), Timeouts(), timer)
      modifies `evict, root, timers`left, timers`right, timers`parent, timers`red, timers`active
      ensures Inv() && root.nodes == old(root.nodes) + {timer}
      ensures evict == Without(old(evict), timer)
    {
      hide Zip, RedBlack, InOrder, NoDup, Sorted, InsertedAt;
      TimerDel(timer);
      forall t | t in evict ensures t != timer {
        WithoutMembers(old(evict), timer, t);
      }
      timer.active := true;
      ghost var order := root.Order();
      ghost var k := AddTimer(timer);
      InsertedSorted(order, root.Order(), k, timer, Timeouts());
    }

    /** One call that a callback makes. */
    method Perform(op: Op)
      requires Inv() && op.timer in timers
      modifies `evict, root, timers`left, timers`right, timers`parent, timers`red, timers`active, timers`timeout
      ensures Inv() && evict == Without(old(evict), op.timer)
      ensures root.nodes == if op.Del? then old(root.nodes) - {op.timer} else old(root.nodes) + {op.timer}
      ensures op.timer.timeout == match op
                case Add(_, timeout) => timeout
                case Schedule(_, s, us, now) => AddTime(TimeVal(s, us), now)
                case Del(t) => old(t.timeout)
      ensures op.Schedule? && Normal(op.now) && 0 <= op.microseconds < 1000000 ==>
                && Normal(op.timer.timeout)
                && Micros(op.timer.timeout) == 1000000 * op.seconds + op.microseconds + Micros(op.now)
      ensures forall t :: t in timers && t != op.timer ==> t.timeout == old(t.timeout) && t.active == old(t.active)
    {
      hide Zip, RedBlack, InOrder, NoDup;
      match op {
        case Add(t, timeout) =>
          t.timeout := timeout;
          TimerAdd(t);
        case Schedule(t, seconds, microseconds, now) =>
          t.timeout := AddTime(TimeVal(seconds, microseconds), now);
          TimerAdd(t);
        case Del(t) =>
          TimerDel(t);
      }
    }

    /** The body of one callback. */
    method Callback(ops: seq<Op>)
      requires Inv() && forall i :: 0 <= i < |ops| ==> ops[i].timer in timers
      modifies `evict, root, timers`left, timers`right, timers`parent, timers`red, timers`active, timers`timeout
      ensures Inv() && evict == Untouched(old(evict), ops)
      ensures forall t :: t in timers && !Touches(ops, t) ==> t.active == old(t.active) && t.timeout == old(t.timeout)
    {
      hide Zip, RedBlack, InOrder, NoDup, Sorted;
      for i := 0 to |ops|
        invariant Inv() && Untouched(evict, ops[i..]) == Untouched(old(evict), ops)
        invariant forall t :: t in timers && !Touches(ops, t) ==>
                    t.active == old(t.active) && t.timeout == old(t.timeout)
      {
        assert ops[i..][0] == ops[i] && ops[i..][1..] == ops[i + 1..];
        assert Touches(ops, ops[i].timer);
        Perform(ops[i]);
      }
    }

    /** The expired timers, latest first, as `llist_add` stacks them up. */
    method CollectExpired(now: TimeVal) returns (ghost k: nat)
      requires Inv() && evict == []
      modifies `evict
      ensures Inv() && k <= |root.Order()| && evict == Reverse(root.Order()[..k])
      ensures NoDup(evict) && NoDup(root.Order()[..k])
      ensures forall t :: t in root.nodes ==> (t in root.Order()[..k] <==> !Less(now, t.timeout))
    {
      hide Zip, RedBlack, InOrder, Sorted, NotAfter, AllAfter, Less, NoDup, Reverse;
      OrderWithin(root.Snap(), root.node, root.tree);
      ghost var order, due := root.Order(), Timeouts();
      k := 0;
      EmptyBounds(due, now);
      EmptyReverse();
      SortedWithin(order, due);
      var node := root.First();
      while node != null
        invariant k <= |order| && node == (if k < |order| then order[k] else null)
        invariant root.Valid() && evict == Reverse(order[..k]) && NotAfter(order[..k], due, now)
        decreases |order| - k
      {
        SortedAt(order, k, due, now);
        if Less(now, node.timeout) {
          break;
        }
        evict := [node] + evict;
        ReverseSnoc(order[..k], node);
        node := root.Next(node, k);
        k := k + 1;
      }
      if node == null {
        EmptyBounds(due, now);
      }
      ExpiredExactly(order, k, due, now);
      NoDupPrefix(order, k);
      ReverseShape(order[..k]);
      forall t | t in evict ensures t in root.nodes {
        assert t in order[..k] && t in order;
      }
    }

    /** One turn of the eviction loop: delete the first listed timer and run its callback. */
    method FireFirst(ops: seq<Op>) returns (timer: Node)
      requires Inv() && evict != [] && forall i :: 0 <= i < |ops| ==> ops[i].timer in timers
      modifies `evict, root, timers`left, timers`right, timers`parent, timers`red, timers`active, timers`timeout
      ensures Inv() && NoDup(evict) && timer == old(evict)[0] && evict == Untouched(old(evict)[1..], ops)
      ensures forall t :: t in timers && !Touches(ops, t) ==>
                t.active == (old(t.active) && t != timer) && t.timeout == old(t.timeout)
    {
      hide Zip, RedBlack, InOrder, Untouched;
      timer := evict[0];
      NoDupHead(evict);
      WithoutNoDup(evict[1..], timer);
      TimerDel(timer);
      Callback(ops);
    }

    /** The eviction loop, restarted after every callback. */
    method FireAll(script: nat -> seq<Op>) returns (work: bool, fired: seq<Node>)
      requires Inv() && NoDup(evict)
      requires forall n, i :: 0 <= i < |script(n)| ==> script(n)[i].timer in timers
      modifies `evict, root, timers`left, timers`right, timers`parent, timers`red, timers`active, timers`timeout
      ensures Inv() && evict == [] && (work <==> fired != []) && fired == Firing(old(evict), script, 0)
      ensures forall t :: t in timers && LeftAlone(script, |fired|, t) ==>
                t.timeout == old(t.timeout) && (t.active <==> old(t.active) && t !in fired)
    {
      hide NoDup, Untouched, Inv, Touches, LeftAlone, Firing;
      work, fired := false, [];
      ghost var list := evict;
      while evict != []
        invariant Inv() && NoDup(evict) && NoDup(list) && (work <==> fired != [])
        invariant fired + Firing(evict, script, |fired|) == Firing(list, script, 0)
        invariant forall t :: t in timers && LeftAlone(script, |fired|, t) ==>
                    t.timeout == old(t.timeout) && (t.active <==> old(t.active) && t !in fired)
        decreases |evict|
      {
        FiringUnfold(evict, script, |fired|);
        LeftAloneStep(script, |fired|);
        ghost var f := fired;
        var timer := FireFirst(script(|fired|));
        fired := fired + [timer];
        work := true;
        Regrouped(f, timer, Firing(evict, script, |fired|));
      }
      FiringNone(script, |fired|);
    }

    /** `osmo_timers_update`, where the n-th callback to run performs the calls `script(n)`.
        Of the timers expired at entry, and of no others, each fires once and in reverse order of
        expiry, unless the callback of one that comes before it in that order touched it.  Timers
        that no callback touched keep their timeout and stay queued exactly if they had not
        expired. */
    method Update(now: TimeVal, script: nat -> seq<Op>) returns (work: bool, fired: seq<Node>, ghost expired: seq<Node>)
      requires Inv() && evict == []
      requires forall n, i :: 0 <= i < |script(n)| ==> script(n)[i].timer in timers
      modifies `evict, root, timers`left, timers`right, timers`parent, timers`red, timers`active, timers`timeout
      ensures Inv() && evict == [] && (work <==> fired != [])
      ensures NoDup(expired) && expired <= old(root.Order())
      ensures forall t :: t in old(root.nodes) ==> (t in expired <==> !Less(now, old(t.timeout)))
      ensures forall t :: t in old(root.nodes) && Normal(now) && Normal(old(t.timeout)) ==>
                (t in expired <==> Micros(old(t.timeout)) <= Micros(now))
      ensures NoDup(Reverse(expired)) && fired == Firing(Reverse(expired), script, 0)
      ensures NoDup(fired) && forall t :: t in fired ==> t in expired && t in old(Timeouts())
      ensures forall i, j :: 0 <= i < j < |fired| ==>
                Precedes(expired, fired[j], fired[i]) && !Less(old(Timeouts())[fired[i]], old(Timeouts())[fired[j]])
      ensures forall i, j :: 0 <= i < j < |fired| ==>
                var a, b := old(Timeouts())[fired[i]], old(Timeouts())[fired[j]];
                Normal(a) && Normal(b) ==> Micros(b) <= Micros(a)
      ensures forall j :: 0 <= j < |fired| ==> LeftAlone(script, j, fired[j])
      ensures forall t :: t in expired ==> (t in fired <==> !TouchedEarlier(Reverse(expired), fired, script, 0, t))
      ensures forall t :: t in timers && LeftAlone(script, |fired|, t) ==>
                t.timeout == old(t.timeout) && (t.active <==> old(t.active) && t !in expired)
    {
      hide NoDup, Untouched, Consistent, Sorted, Less, Micros, Normal, Reverse, Touches, Firing, Precedes;
      ghost var k := CollectExpired(now);
      expired := root.Order()[..k];
      SortedPrefix(root.Order(), k, Timeouts());
      FiringReversed(expired, script, Timeouts());
      work, fired := FireAll(script);
      LessAll();
    }

    /** `osmo_timers_prepare` with `update_nearest`: how long to wait for the earliest timer. */
    method Prepare(now: TimeVal) returns (nearest: Option<TimeVal>)
      requires Inv()
      ensures match nearest
              case None => forall t :: t in root.nodes ==> 0x7fff_ffff_ffff_ffff <= t.timeout.sec
              case Some(d) =>
                exists t :: t in root.nodes && t.timeout.sec != 0x7fff_ffff_ffff_ffff
                            && (forall u :: u in root.nodes ==> !Less(u.timeout, t.timeout))
                            && if Less(now, t.timeout)
                               then (0 <= t.timeout.usec < 1000000 ==> AddTime(d, now) == t.timeout)
                               else d == TimeVal(0, 0)
      ensures Normal(now) && (forall t :: t in root.nodes ==> Normal(t.timeout)) && nearest.Some? ==>
                exists t :: t in root.nodes && t.timeout.sec != LONG_MAX
                            && (forall u :: u in root.nodes ==> Micros(t.timeout) <= Micros(u.timeout))
                            && Micros(nearest.value) == if Micros(now) < Micros(t.timeout)
                                                        then Micros(t.timeout) - Micros(now) else 0
    {
      hide Zip, RedBlack, InOrder;
      OrderWithin(root.Snap(), root.node, root.tree);
      var first := root.First();
      if first == null || first.timeout.sec == LONG_MAX {
        nearest := None;
      } else if Less(now, first.timeout) {
        nearest := Some(SubTime(first.timeout, now));
      } else {
        nearest := Some(TimeVal(0, 0));
      }
      LessAll();
      assert first != null ==> first == root.Order()[0] && first in root.Order() && first in root.nodes;
      forall u | u in root.nodes ensures first != null && !Less(u.timeout, first.timeout) {
        assert u in root.Order();
        var i :| 0 <= i < |root.Order()| && root.Order()[i] == u;
        assert Sorted(root.Order(), Timeouts(), null);
      }
    }
  }

  lemma LeftAloneStep(script: nat -> seq<Op>, n: nat)
    ensures forall t :: LeftAlone(script, n + 1, t) <==> LeftAlone(script, n, t) && !Touches(script(n), t)
  {
    hide Touches;
  }

  lemma Regrouped(f: seq<Node>, t: Node, rest: seq<Node>)
    ensures f + ([t] + rest) == f + [t] + rest
  {
  }

  lemma FiringNone(script: nat -> seq<Op>, k: nat)
    ensures NoDup([]) && Firing([], script, k) == []
  {
  }

  lemma FiringUnfold(list: seq<Node>, script: nat -> seq<Op>, k: nat)
    requires NoDup(list) && list != []
    ensures var rest := Untouched(list[1..], script(k));
            NoDup(rest) && |rest| < |list| && Firing(list, script, k) == [list[0]] + Firing(rest, script, k + 1)
  {
    UntouchedShape(list[1..], script(k));
  }

  lemma {:induction false} OrderNoDup(t: Tree)
    requires Distinct(t)
    ensures NoDup(InOrder(t))
  {
    if t.Fork? {
      OrderNoDup(t.l);
      OrderNoDup(t.r);
      var a, b := InOrder(t.l), InOrder(t.r);
      OrderMembers(t.l, t.n);
      OrderMembers(t.r, t.n);
      forall n | n in a ensures n !in b {
        OrderMembers(t.l, n);
        OrderMembers(t.r, n);
      }
      NoDupCons(t.n, b);
      NoDupConcat(a, [t.n] + b);
      assert InOrder(t) == a + ([t.n] + b);
    }
  }

  lemma NoDupPrefix(s: seq<Node>, k: nat)
    requires NoDup(s) && k <= |s|
    ensures NoDup(s[..k])
  {
  }

  lemma EmptyReverse()
    ensures Reverse([]) == []
  {
  }

  lemma NoDupConcat(a: seq<Node>, b: seq<Node>)
    requires NoDup(a) && NoDup(b) && forall n :: n in a ==> n !in b
    ensures NoDup(a + b)
  {
    var s := a + b;
    forall i, j | 0 <= i < j < |s| ensures s[i] != s[j] {
      if i < |a| <= j {
        assert s[i] in a && s[j] == b[j - |a|];
      }
    }
  }

  lemma {:induction false} ReverseIndex(s: seq<Node>)
    ensures |Reverse(s)| == |s| && forall i :: 0 <= i < |s| ==> Reverse(s)[i] == s[|s| - 1 - i]
  {
    if s != [] {
      ReverseIndex(s[1..]);
    }
  }

  lemma ReverseShape(s: seq<Node>)
    ensures NoDup(s) ==> NoDup(Reverse(s))
    ensures forall n :: n in Reverse(s) <==> n in s
  {
    ReverseIndex(s);
    forall n | n in s ensures n in Reverse(s) {
      var i :| 0 <= i < |s| && s[i] == n;
      assert Reverse(s)[|s| - 1 - i] == n;
    }
  }

  lemma ExpiredExactly(order: seq<Node>, k: nat, due: Due, now: TimeVal)
    requires k <= |order| && NotAfter(order[..k], due, now) && AllAfter(order[k..], due, now)
    ensures forall t :: t in order ==> t in due && (t in order[..k] <==> !Less(now, due[t]))
  {
    forall t | t in order ensures t in due && (t in order[..k] <==> !Less(now, due[t])) {
      assert order == order[..k] + order[k..];
      if t in order[..k] {
      } else {
        assert t in order[k..];
      }
    }
  }

  function Reverse(s: seq<Node>): seq<Node> {
    if s == [] then [] else Reverse(s[1..]) + [s[0]]
  }

  lemma {:induction false} ReverseSnoc(s: seq<Node>, x: Node)
    ensures Reverse(s + [x]) == [x] + Reverse(s)
  {
    if s != [] {
      ReverseSnoc(s[1..], x);
      assert (s + [x])[1..] == s[1..] + [x];
    }
  }

  lemma EmptyBounds(due: Due, t: TimeVal)
    ensures NotAfter([], due, t) && AllAfter([], due, t)
  {
  }
}
