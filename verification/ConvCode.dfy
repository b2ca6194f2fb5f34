/**
  The rate 1/2, constraint length 5 code of the GSM control channels: the state tables that
  gsm-parser/sch.c and gsm-parser/viterbi.c both contain, and its trellis.
 */
module ConvCode {
  import opened Gf2
  import opened Slices
  import opened Trellis

  const STATES := 16

  /** Output symbol (first bit is the high one) given the current state and input bit. */
  const NEXT_OUTPUT: seq<seq<nat>> := [
    [0, 3], [3, 0], [3, 0], [0, 3], [0, 3], [3, 0], [3, 0], [0, 3],
    [1, 2], [2, 1], [2, 1], [1, 2], [1, 2], [2, 1], [2, 1], [1, 2]]

  /** Next state given the current state and input bit. */
  const NEXT_STATE: seq<seq<nat>> := [
    [0, 8], [0, 8], [1, 9], [1, 9], [2, 10], [2, 10], [3, 11], [3, 11],
    [4, 12], [4, 12], [5, 13], [5, 13], [6, 14], [6, 14], [7, 15], [7, 15]]

  function Mod2(n: nat): Bit { n % 2 }

  function Next(s: nat, b: Bit): (r: nat)
    requires s < STATES
    ensures r < STATES
  {
    assert Listed(s);
    NEXT_STATE[s][b]
  }

  function Output(s: nat, b: Bit): (r: nat)
    requires s < STATES
    ensures r < 4
  {
    assert Listed(s);
    NEXT_OUTPUT[s][b]
  }

  predicate Listed(s: nat) { s in {0, 1, 2, 3, 4, 5, 6, 7, 8, 9, 10, 11, 12, 13, 14, 15} }

  /** The table rows are a shift register over the last four input bits. */
  lemma NextIsShift(s: nat, b: Bit)
    requires s < STATES
    ensures Next(s, b) == s / 2 + 8 * b
  {
    assert Listed(s);
  }

  /** The two bits of the output symbol are the generator polynomials 1 + x^3 + x^4 and
      1 + x + x^3 + x^4 over the register. */
  lemma OutputIsPolynomials(s: nat, b: Bit)
    requires s < STATES
    ensures Output(s, b) / 2 == Mod2(b + s / 2 % 2 + s % 2)
    ensures Output(s, b) % 2 == Mod2(b + s / 8 + s / 2 % 2 + s % 2)
  {
    assert Listed(s);
  }

  lemma OutputDiffers(s: nat, a: Bit, b: Bit)
    requires s < STATES && Output(s, a) == Output(s, b)
    ensures a == b
  {
    assert Listed(s);
  }

  // ---- encoding ----

  function State(u: seq<Bit>): (s: nat)
    ensures s < STATES
  {
    if u == [] then 0 else Next(State(u[..|u| - 1]), u[|u| - 1])
  }

  /** The output symbols for input `u`, from state 0. */
  function Symbols(u: seq<Bit>): (r: seq<nat>)
    ensures |r| == |u| && forall t :: 0 <= t < |r| ==> r[t] < 4
  {
    if u == [] then []
    else
      var init := u[..|u| - 1];
      Symbols(init) + [Output(State(init), u[|u| - 1])]
  }

  /** The coded bits, two per symbol, high bit first. */
  function Coded(u: seq<Bit>): (r: seq<Bit>)
    ensures |r| == 2 * |u|
  {
    if u == [] then []
    else
      var init := u[..|u| - 1];
      var o := Output(State(init), u[|u| - 1]);
      Coded(init) + [o / 2, o % 2]
  }

  lemma {:induction false} CodedSymbols(u: seq<Bit>, k: nat)
    requires k < |u|
    ensures Coded(u)[2 * k] == Symbols(u)[k] / 2 && Coded(u)[2 * k + 1] == Symbols(u)[k] % 2
  {
    hide Next, Output;
    if k < |u| - 1 {
      CodedSymbols(u[..|u| - 1], k);
    }
  }

  lemma CodedLast(u: seq<Bit>)
    requires u != []
    ensures var k := |u| - 1;
            && Coded(u)[..2 * k] == Coded(u[..k]) && Symbols(u)[..k] == Symbols(u[..k])
            && Coded(u)[2 * k] == Symbols(u)[k] / 2 && Coded(u)[2 * k + 1] == Symbols(u)[k] % 2
  {
    hide Coded, Symbols;
    var k := |u| - 1;
    var o := SymbolSplit(u);
    Snoc(Symbols(u[..k]), o);
    FrontOf(Coded(u[..k]), [o / 2, o % 2]);
    assert [o / 2, o % 2][0] == o / 2 && [o / 2, o % 2][1] == o % 2;
  }

  /** What the last input bit adds. */
  lemma SymbolSplit(u: seq<Bit>) returns (o: nat)
    requires u != []
    ensures o < 4 && o == Output(State(u[..|u| - 1]), u[|u| - 1])
    ensures Symbols(u) == Symbols(u[..|u| - 1]) + [o] && Coded(u) == Coded(u[..|u| - 1]) + [o / 2, o % 2]
  {
    hide Next, Output;
    o := Output(State(u[..|u| - 1]), u[|u| - 1]);
  }

  function At(u: seq<Bit>, i: int): Bit { if 0 <= i < |u| then u[i] else 0 }

  lemma {:induction false} StateIsRegister(u: seq<Bit>)
    ensures var n := |u|; State(u) == 8 * At(u, n - 1) + 4 * At(u, n - 2) + 2 * At(u, n - 3) + At(u, n - 4)
  {
    hide Next;
    if u != [] {
      StateIsRegister(u[..|u| - 1]);
      NextIsShift(State(u[..|u| - 1]), u[|u| - 1]);
    }
  }

  lemma {:induction false} SymbolsPrefix(u: seq<Bit>, k: nat)
    requires k <= |u|
    ensures Symbols(u[..k]) == Symbols(u)[..k]
  {
    if k < |u| {
      var init := u[..|u| - 1];
      SymbolsPrefix(init, k);
      assert init[..k] == u[..k];
      assert Symbols(u)[..k] == Symbols(init)[..k];
    } else {
      assert u[..k] == u;
    }
  }

  lemma RegisterBits(a: Bit, b: Bit, c: Bit, d: Bit)
    ensures var s := 8 * a + 4 * b + 2 * c + d; s / 8 == a && s / 2 % 2 == c && s % 2 == d
  {
  }

  lemma SymbolAt(u: seq<Bit>, k: nat)
    requires k < |u|
    ensures Symbols(u)[k] == Output(State(u[..k]), u[k])
  {
    hide Next, Output;
    SymbolsPrefix(u, k + 1);
    assert u[..k + 1][..k] == u[..k];
  }

  /** The code words are the convolution of the input with the two generator polynomials. */
  lemma CodedIsConvolution(u: seq<Bit>, k: nat)
    requires k < |u|
    ensures Coded(u)[2 * k] == Mod2(At(u, k) + At(u, k - 3) + At(u, k - 4))
    ensures Coded(u)[2 * k + 1] == Mod2(At(u, k) + At(u, k - 1) + At(u, k - 3) + At(u, k - 4))
  {
    hide Next, Output, Mod2, Coded, Symbols, State;
    CodedSymbols(u, k);
    SymbolAt(u, k);
    StateIsRegister(u[..k]);
    OutputIsPolynomials(State(u[..k]), u[k]);
    RegisterBits(At(u, k - 1), At(u[..k], k - 2), At(u, k - 3), At(u, k - 4));
  }

  /** Different inputs have different code words. */
  lemma {:induction false} SymbolsInjective(u: seq<Bit>, v: seq<Bit>)
    requires |u| == |v| && Symbols(u) == Symbols(v)
    ensures u == v
  {
    hide Next, Output;
    if u != [] {
      var k := |u| - 1;
      assert Symbols(u)[..k] == Symbols(u[..k]) && Symbols(v)[..k] == Symbols(v[..k]);
      SymbolsInjective(u[..k], v[..k]);
      assert Symbols(u)[k] == Symbols(v)[k];
      OutputDiffers(State(u[..k]), u[k], v[k]);
      assert u == u[..k] + [u[k]] && v == v[..k] + [v[k]];
    }
  }

  /** Different inputs have different code words. */
  lemma CodedInjective(u: seq<Bit>, v: seq<Bit>)
    requires |u| == |v| && Coded(u) == Coded(v)
    ensures u == v
  {
    hide Coded, Symbols;
    forall k | 0 <= k < |u| ensures Symbols(u)[k] == Symbols(v)[k] {
      CodedSymbols(u, k);
      CodedSymbols(v, k);
    }
    SymbolsInjective(u, v);
  }

  // ---- the trellis ----

  /** What it costs to assume that each of the four symbols was sent. */
  type Costs = c: seq<nat> | |c| == 4 witness [0, 0, 0, 0]

  function StageOf(c: Costs): (st: Stage)
    ensures |st| == 2 * STATES && StageOk(st, STATES)
  {
    seq(2 * STATES, i requires 0 <= i < 2 * STATES => Edge(i / 2, Next(i / 2, i % 2), i % 2, c[Output(i / 2, i % 2)]))
  }

  lemma StageEdge(c: Costs, s: nat, b: Bit)
    requires s < STATES
    ensures StageOf(c)[2 * s + b] == Edge(s, Next(s, b), b, c[Output(s, b)])
  {
    hide Next, Output;
    assert (2 * s + b) / 2 == s && (2 * s + b) % 2 == b;
  }

  /** The survivors into all states after the first `k` transitions of a stage. */
  function Row(c: Costs, ae: seq<nat>, cap: nat, k: nat): (row: seq<Survivor>)
    requires |ae| == STATES && k <= 2 * STATES
    ensures |row| == STATES
  {
    Scan(StageOf(c), ae, cap, k)
  }

  lemma RowStart(c: Costs, ae: seq<nat>, cap: nat)
    requires |ae| == STATES
    ensures Row(c, ae, cap, 0) == seq(STATES, q => Survivor(cap, -1))
  {
    ScanStart(StageOf(c), ae, cap);
  }

  /** What one inner iteration of a decoder does to the survivors. */
  lemma RowStep(c: Costs, ae: seq<nat>, cap: nat, s: nat, b: Bit)
    requires |ae| == STATES && s < STATES
    ensures var row, m, q := Row(c, ae, cap, 2 * s + b), ae[s] + c[Output(s, b)], Next(s, b);
            Row(c, ae, cap, 2 * s + b + 1) == if m < row[q].metric then row[q := Survivor(m, 2 * s + b)] else row
  {
    hide Next, Output, StageOf;
    StageEdge(c, s, b);
    ScanStep(StageOf(c), ae, cap, 2 * s + b);
  }

  lemma RowCapped(c: Costs, ae: seq<nat>, cap: nat, k: nat, q: nat)
    requires |ae| == STATES && k <= 2 * STATES && q < STATES
    ensures Row(c, ae, cap, k)[q].metric <= cap
  {
    hide StageOf;
  }

  /** Nothing survives from a state that is not reached itself. */
  lemma RowSkip(c: Costs, ae: seq<nat>, cap: nat, s: nat)
    requires |ae| == STATES && s < STATES && ae[s] >= cap
    ensures Row(c, ae, cap, 2 * s + 2) == Row(c, ae, cap, 2 * s)
  {
    hide Next, Output, Row;
    RowCapped(c, ae, cap, 2 * s, Next(s, 0));
    RowCapped(c, ae, cap, 2 * s + 1, Next(s, 1));
    RowStep(c, ae, cap, s, 0);
    RowStep(c, ae, cap, s, 1);
  }

  function TrellisOf(cs: seq<Costs>): (tr: seq<Stage>)
    ensures |tr| == |cs| && TrellisOk(tr, STATES)
  {
    seq(|cs|, t requires 0 <= t < |cs| => StageOf(cs[t]))
  }

  function SymbolCost(syms: seq<nat>, cs: seq<Costs>): nat
    requires |syms| == |cs| && forall t :: 0 <= t < |syms| ==> syms[t] < 4
  {
    if syms == [] then 0
    else
      var k := |syms| - 1;
      SymbolCost(syms[..k], cs[..k]) + cs[k][syms[k]]
  }

  function InputCost(u: seq<Bit>, cs: seq<Costs>): nat
    requires |u| == |cs|
  {
    SymbolCost(Symbols(u), cs)
  }

  lemma InputCostEmpty(cs: seq<Costs>)
    requires cs == []
    ensures InputCost([], cs) == 0
  {
  }

  lemma InputCostLast(u: seq<Bit>, cs: seq<Costs>)
    requires |u| == |cs| > 0
    ensures var k := |u| - 1; InputCost(u, cs) == InputCost(u[..k], cs[..k]) + cs[k][Symbols(u)[k]]
  {
    hide Next, Output, Symbols;
    var o := SymbolSplit(u);
    Snoc(Symbols(u[..|u| - 1]), o);
  }

  /** The edges that input `u` takes. */
  function PathOf(u: seq<Bit>, cs: seq<Costs>): (p: seq<Edge>)
    requires |u| == |cs|
    ensures |p| == |u|
  {
    if u == [] then []
    else
      var k := |u| - 1;
      PathOf(u[..k], cs[..k]) + [StageOf(cs[k])[2 * State(u[..k]) + u[k]]]
  }

  lemma PathOfLast(u: seq<Bit>, cs: seq<Costs>)
    requires |u| == |cs| > 0
    ensures var k, p := |u| - 1, PathOf(u, cs);
            && p[..k] == PathOf(u[..k], cs[..k]) && p[k] in StageOf(cs[k])
            && p[k] == Edge(State(u[..k]), State(u), u[k], cs[k][Symbols(u)[k]])
  {
    hide Next, Output, StageOf, Symbols, PathOf, State;
    var k := |u| - 1;
    StateLast(u);
    var e := StageOf(cs[k])[2 * State(u[..k]) + u[k]];
    PathSplit(u, cs);
    Snoc(PathOf(u[..k], cs[..k]), e);
    StageEdge(cs[k], State(u[..k]), u[k]);
    var o := SymbolSplit(u);
    Snoc(Symbols(u[..k]), o);
  }

  lemma PathSplit(u: seq<Bit>, cs: seq<Costs>)
    requires |u| == |cs| > 0
    ensures var k := |u| - 1;
            PathOf(u, cs) == PathOf(u[..k], cs[..k]) + [StageOf(cs[k])[2 * State(u[..k]) + u[k]]]
  {
    hide State, StageOf;
  }

  lemma {:induction false} InputIsPath(u: seq<Bit>, cs: seq<Costs>)
    requires |u| == |cs|
    ensures IsPath(TrellisOf(cs), PathOf(u, cs), State(u))
  {
    hide State, StageOf, PathOf, Symbols;
    if u == [] {
      assert State(u) == 0 by { EmptyState(u); }
    } else {
      var k := |u| - 1;
      PathOfLast(u, cs);
      InputIsPath(u[..k], cs[..k]);
      assert TrellisOf(cs)[..k] == TrellisOf(cs[..k]);
    }
  }

  lemma EmptyState(u: seq<Bit>)
    requires u == []
    ensures State(u) == 0
  {
  }

  lemma {:induction false} PathCost(u: seq<Bit>, cs: seq<Costs>)
    requires |u| == |cs|
    ensures Cost(PathOf(u, cs)) == InputCost(u, cs)
  {
    hide State, StageOf, Symbols;
    if u == [] {
      InputCostEmpty(cs);
    } else {
      hide PathOf, InputCost;
      var k := |u| - 1;
      PathOfLast(u, cs);
      InputCostLast(u, cs);
      PathCost(u[..k], cs[..k]);
    }
  }

  lemma StageMember(c: Costs, e: Edge)
    requires e in StageOf(c)
    ensures e.bit < 2 && e.src < STATES && e.dst == Next(e.src, e.bit) && StageOf(c)[2 * e.src + e.bit] == e
  {
    hide Next, Output;
    var i :| 0 <= i < 2 * STATES && StageOf(c)[i] == e;
    assert i == 2 * (i / 2) + i % 2;
  }

  /** Every path through the trellis is the path of the bits on its edges. */
  lemma {:induction false} PathIsInput(path: seq<Edge>, cs: seq<Costs>, q: nat) returns (u: seq<Bit>)
    requires IsPath(TrellisOf(cs), path, q)
    ensures u == Bits(path) && |u| == |cs| && State(u) == q && PathOf(u, cs) == path
  {
    hide Next, Output, StageOf, PathOf, State, TrellisOf;
    u := [];
    if cs == [] {
      assert State(u) == 0 by { EmptyState(u); }
      assert PathOf(u, cs) == path by { NoPath(cs); }
    } else {
      var k := |cs| - 1;
      TrellisSplit(cs);
      var v := PathIsInput(path[..k], cs[..k], path[k].src);
      StageMember(cs[k], path[k]);
      u := v + [path[k].bit];
      Snoc(v, path[k].bit);
      LastOf(path);
      StateLast(u);
      PathSplit(u, cs);
    }
  }

  lemma NoPath(cs: seq<Costs>)
    requires cs == []
    ensures PathOf([], cs) == []
  {
  }

  lemma StateLast(u: seq<Bit>)
    requires u != []
    ensures State(u) == Next(State(u[..|u| - 1]), u[|u| - 1])
  {
    hide Next;
  }

  lemma TrellisSplit(cs: seq<Costs>)
    requires cs != []
    ensures var k := |cs| - 1; TrellisOf(cs)[..k] == TrellisOf(cs[..k]) && TrellisOf(cs)[k] == StageOf(cs[k])
  {
    hide StageOf;
  }

  // ---- what a decoder computes ----

  /** Accumulated errors after the costs `cs`. */
  function Accumulated(cs: seq<Costs>, cap: nat): (m: seq<nat>)
    ensures |m| == STATES && forall q :: 0 <= q < STATES ==> m[q] <= cap
  {
    Metrics(TrellisOf(cs), STATES, cap)
  }

  function Entering(cs: seq<Costs>, cap: nat, q: nat): (e: Edge)
    requires cs != [] && q < STATES && Accumulated(cs, cap)[q] < cap
    ensures e.bit < 2 && e.src < STATES && q == Next(e.src, e.bit) && Accumulated(cs[..|cs| - 1], cap)[e.src] < cap
  {
    hide Next, Output, StageOf;
    var tr := TrellisOf(cs);
    var e := LastEdge(tr, STATES, cap, q);
    assert tr[..|cs| - 1] == TrellisOf(cs[..|cs| - 1]);
    StageMember(cs[|cs| - 1], e);
    e
  }

  /** The bits on the surviving path into state `q`. */
  function Survivors(cs: seq<Costs>, cap: nat, q: nat): (u: seq<Bit>)
    requires q < STATES && Accumulated(cs, cap)[q] < cap
    ensures |u| == |cs|
  {
    if cs == [] then []
    else
      var e := Entering(cs, cap, q);
      Survivors(cs[..|cs| - 1], cap, e.src) + [e.bit]
  }

  /** One stage of a decoder: the survivors of the last scan are the next metrics. */
  lemma StageComplete(cs: seq<Costs>, t: nat, cap: nat, q: nat)
    requires t < |cs| && q < STATES
    ensures var r := Row(cs[t], Accumulated(cs[..t], cap), cap, 2 * STATES)[q];
            && r.metric == Accumulated(cs[..t + 1], cap)[q]
            && (r.metric < cap ==> cs[..t + 1] != [] && r.edge / 2 == Entering(cs[..t + 1], cap, q).src)
  {
    hide Next, Output, StageOf;
    var tr := TrellisOf(cs[..t + 1]);
    assert tr[..t] == TrellisOf(cs[..t]) && tr[t] == StageOf(cs[t]);
    var r := Row(cs[t], Accumulated(cs[..t], cap), cap, 2 * STATES)[q];
    if r.metric < cap {
      StageEdge(cs[t], r.edge / 2, r.edge % 2);
    }
  }

  lemma {:induction false} SurvivorsAreTraced(cs: seq<Costs>, cap: nat, q: nat)
    requires q < STATES && Accumulated(cs, cap)[q] < cap
    ensures Survivors(cs, cap, q) == Bits(Traced(TrellisOf(cs), STATES, cap, q))
  {
    hide Next, Output, StageOf, TrellisOf, LastEdge, Metrics, IsPath, Cost;
    if cs != [] {
      var k, e := |cs| - 1, Entering(cs, cap, q);
      TrellisSplit(cs);
      SurvivorsAreTraced(cs[..k], cap, e.src);
      var init := Traced(TrellisOf(cs[..k]), STATES, cap, e.src);
      BitsSnoc(init, e);
    }
  }

  lemma BitsSnoc(path: seq<Edge>, e: Edge)
    ensures Bits(path + [e]) == Bits(path) + [e.bit]
  {
  }

  /** Among the states of least metric, each is reached by an input that no other input beats. */
  lemma SurvivorsOptimal(cs: seq<Costs>, cap: nat, q: nat)
    requires q < STATES && Accumulated(cs, cap)[q] < cap
    requires forall q' :: 0 <= q' < STATES ==> Accumulated(cs, cap)[q] <= Accumulated(cs, cap)[q']
    ensures InputCost(Survivors(cs, cap, q), cs) == Accumulated(cs, cap)[q]
    ensures forall v: seq<Bit> :: |v| == |cs| ==> Accumulated(cs, cap)[q] <= InputCost(v, cs)
  {
    hide Next, Output, StageOf;
    var path := Traced(TrellisOf(cs), STATES, cap, q);
    SurvivorsAreTraced(cs, cap, q);
    var u := PathIsInput(path, cs, q);
    PathCost(u, cs);
    forall v: seq<Bit> | |v| == |cs| ensures Accumulated(cs, cap)[q] <= InputCost(v, cs) {
      AccumulatedLeast(cs, cap, v);
    }
  }

  lemma AccumulatedLeast(cs: seq<Costs>, cap: nat, v: seq<Bit>)
    requires |v| == |cs|
    ensures Accumulated(cs, cap)[State(v)] <= InputCost(v, cs)
  {
    InputIsPath(v, cs);
    PathCost(v, cs);
    MetricsLeast(TrellisOf(cs), STATES, cap, PathOf(v, cs), State(v));
  }

  /** A state is alive exactly when some input below the cap leads to it; every other state stays
      at the cap. */
  lemma AliveIffReached(cs: seq<Costs>, cap: nat, q: nat)
    requires q < STATES
    ensures Accumulated(cs, cap)[q] < cap <==>
            exists v: seq<Bit> :: |v| == |cs| && State(v) == q && InputCost(v, cs) < cap
  {
    hide Next, Output, StageOf;
    if Accumulated(cs, cap)[q] < cap {
      var u := PathIsInput(Traced(TrellisOf(cs), STATES, cap, q), cs, q);
      PathCost(u, cs);
    }
    forall v: seq<Bit> | |v| == |cs| && State(v) == q && InputCost(v, cs) < cap ensures Accumulated(cs, cap)[q] < cap {
      AccumulatedLeast(cs, cap, v);
    }
  }

  lemma AccumulatedStart(cs: seq<Costs>, cap: nat)
    ensures Accumulated(cs[..0], cap) == seq(STATES, q => if q == 0 then 0 else cap)
  {
    assert TrellisOf(cs[..0]) == [];
  }

  predicate Bounded(cs: seq<Costs>, c: nat) {
    forall t, o :: 0 <= t < |cs| && 0 <= o < 4 ==> cs[t][o] <= c
  }

  lemma {:induction false} SymbolCostBound(syms: seq<nat>, cs: seq<Costs>, c: nat)
    requires |syms| == |cs| && (forall t :: 0 <= t < |syms| ==> syms[t] < 4) && Bounded(cs, c)
    ensures SymbolCost(syms, cs) <= c * |cs|
  {
    if cs != [] {
      var k := |cs| - 1;
      SymbolCostBound(syms[..k], cs[..k], c);
      assert c * |cs| == c * k + c;
    }
  }

  /** While every input stays below the cap, so does some state. */
  lemma SomeStateAlive(cs: seq<Costs>, cap: nat, c: nat) returns (q: nat)
    requires Bounded(cs, c) && c * |cs| < cap
    ensures q < STATES && Accumulated(cs, cap)[q] < cap
  {
    var v: seq<Bit> := seq(|cs|, i => 0);
    SymbolCostBound(Symbols(v), cs, c);
    AccumulatedLeast(cs, cap, v);
    q := State(v);
  }

  /** Columns 1 to `t` of the state history hold the predecessor of every reached state. */
  ghost predicate Recorded(cs: seq<Costs>, cap: nat, history: array2<nat>, t: nat)
    requires t <= |cs| && history.Length0 == STATES && t < history.Length1
    reads history
  {
    forall u, q :: 1 <= u <= t && 0 <= q < STATES && Accumulated(cs[..u], cap)[q] < cap ==>
      history[q, u] == Entering(cs[..u], cap, q).src
  }

  /** One step of the traceback. */
  lemma TraceStep(cs: seq<Costs>, cap: nat, t: nat, q: nat)
    requires 1 <= t <= |cs| && q < STATES && Accumulated(cs[..t], cap)[q] < cap
    ensures cs[..t] != []
    ensures var e := Entering(cs[..t], cap, q);
            && Accumulated(cs[..t - 1], cap)[e.src] < cap
            && Survivors(cs[..t], cap, q) == Survivors(cs[..t - 1], cap, e.src) + [e.bit]
  {
    hide Next, Accumulated;
    Front(cs, t - 1, t);
  }

  /** The same out of the state history. */
  lemma RecordedStep(cs: seq<Costs>, cap: nat, history: array2<nat>, n: nat, t: nat, q: nat)
    requires n <= |cs| && history.Length0 == STATES && n < history.Length1 && Recorded(cs, cap, history, n)
    requires 1 <= t <= n && q < STATES && Accumulated(cs[..t], cap)[q] < cap
    ensures cs[..t] != []
    ensures var e := Entering(cs[..t], cap, q);
            && history[q, t] == e.src && Accumulated(cs[..t - 1], cap)[e.src] < cap
            && Survivors(cs[..t], cap, q) == Survivors(cs[..t - 1], cap, e.src) + [e.bit]
  {
    hide Next, Accumulated, Entering, Survivors;
    TraceStep(cs, cap, t, q);
  }

  lemma NoSurvivors(cs: seq<Costs>, cap: nat, q: nat)
    requires cs == [] && q < STATES && Accumulated(cs, cap)[q] < cap
    ensures Survivors(cs, cap, q) == []
  {
    hide Accumulated;
  }

  /** `conv_encode` of sch.c and `conv_cch_encode` of viterbi.c. */
  method ConvEncode(data: seq<Bit>) returns (output: seq<Bit>)
    ensures output == Coded(data)
  {
    hide Next, Output;
    var state := 0;
    output := [];
    for i := 0 to |data|
      invariant state == State(data[..i]) && output == Coded(data[..i])
    {
      assert data[..i + 1][..i] == data[..i];
      var o := Output(state, data[i]);
      state := Next(state, data[i]);
      output := output + [o / 2];
      output := output + [o % 2];
    }
    assert data[..|data|] == data;
  }

  /** The arrays record the survivors of column `t + 1`. */
  ghost predicate Scanned(row: seq<Survivor>, cap: nat, nae: array<nat>, history: array2<nat>, t: nat)
    requires |row| == STATES && nae.Length == STATES && history.Length0 == STATES && t + 1 < history.Length1
    reads nae, history
  {
    forall q :: 0 <= q < STATES ==>
      nae[q] == row[q].metric && (row[q].metric < cap ==> history[q, t + 1] == row[q].edge / 2)
  }

  /** The state with the fewest errors. */
  method FindLeast(ae: array<nat>, cap: nat) returns (minState: int, minError: nat)
    requires ae.Length == STATES
    ensures minError <= cap && (minError < cap ==> 0 <= minState < STATES && ae[minState] == minError)
    ensures forall q :: 0 <= q < STATES ==> minError <= ae[q]
  {
    minState, minError := -1, cap;
    for i := 0 to STATES
      invariant minError <= cap && (minError < cap ==> 0 <= minState < i && ae[minState] == minError)
      invariant forall q :: 0 <= q < i ==> minError <= ae[q]
    {
      if ae[i] < minError {
        minState := i;
        minError := ae[i];
      }
    }
  }
}
