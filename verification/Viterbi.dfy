/**
  The soft-decision Viterbi decoder of gsm-parser/viterbi.c, for blocks of any length.
 */
module Viterbi {
  import opened Gf2
  import opened Slices
  import opened Trellis
  import opened ConvCode

  /** `sbit` values: positive for 0, negative for 1. */
  type Soft = x: int | -128 <= x < 128

  /** The `DIFF` macro. */
  function Diff(x: int, y: int): (d: nat) {
    (x - y) * (x - y) / 512
  }

  /** The square of the difference, divided by 512 and rounded down. */
  lemma DiffIs(x: int, y: int)
    ensures 512 * Diff(x, y) <= (x - y) * (x - y) < 512 * Diff(x, y) + 512
  {
  }

  /** The soft value expected for a bit. */
  function Expected(b: Bit): Soft { if b == 1 then -127 else 127 }

  function SoftCosts(i0: Soft, i1: Soft): Costs {
    seq(4, o requires 0 <= o < 4 => Diff(Expected(o / 2), i0) + Diff(Expected(o % 2), i1))
  }

  function Received(input: seq<Soft>): (cs: seq<Costs>)
    requires |input| % 2 == 0
    ensures |cs| == |input| / 2
  {
    seq(|input| / 2, t requires 0 <= t < |input| / 2 => SoftCosts(input[2 * t], input[2 * t + 1]))
  }

  /** Accumulated `DIFF` cost of assuming that the bits `w` were sent. */
  function Deviation(w: seq<Bit>, input: seq<Soft>): nat
    requires |w| == |input|
  {
    if w == [] then 0
    else
      var k := |w| - 1;
      Deviation(w[..k], input[..k]) + Diff(Expected(w[k]), input[k])
  }

  lemma SquareBound(d: int, c: int)
    requires -c <= d <= c
    ensures 0 <= d * d <= c * c
  {
    var e := if d < 0 then -d else d;
    assert d * d == e * e;
    assert e * e <= e * c <= c * c;
  }

  lemma DiffBound(b: Bit, y: Soft)
    ensures Diff(Expected(b), y) <= 127
  {
    SquareBound(Expected(b) - y, 255);
  }

  lemma ReceivedBounded(input: seq<Soft>)
    requires |input| % 2 == 0
    ensures Bounded(Received(input), 254)
  {
    hide Diff;
    forall t, o | 0 <= t < |input| / 2 && 0 <= o < 4 ensures Received(input)[t][o] <= 254 {
      DiffBound(o / 2, input[2 * t]);
      DiffBound(o % 2, input[2 * t + 1]);
    }
  }

  lemma DeviationPair(w: seq<Bit>, y: seq<Soft>, k: nat)
    requires |w| == |y| == 2 * k + 2
    ensures Deviation(w, y) == Deviation(w[..2 * k], y[..2 * k])
                               + (Diff(Expected(w[2 * k]), y[2 * k]) + Diff(Expected(w[2 * k + 1]), y[2 * k + 1]))
  {
    hide Diff, Expected;
    assert w[..2 * k + 1][..2 * k] == w[..2 * k] && y[..2 * k + 1][..2 * k] == y[..2 * k];
  }

  lemma CostIs(i0: Soft, i1: Soft, o: nat)
    requires o < 4
    ensures SoftCosts(i0, i1)[o] == Diff(Expected(o / 2), i0) + Diff(Expected(o % 2), i1)
  {
  }

  lemma ReceivedPrefix(input: seq<Soft>, k: nat)
    requires |input| % 2 == 0 && 2 * k <= |input|
    ensures Received(input)[..k] == Received(input[..2 * k])
  {
    hide SoftCosts;
  }

  /** The trellis cost of an input is the deviation of its code word from the received one. */
  lemma {:induction false} InputCostIsDeviation(u: seq<Bit>, input: seq<Soft>)
    requires |input| == 2 * |u|
    ensures InputCost(u, Received(input)) == Deviation(Coded(u), input)
  {
    hide Next, Output, Coded, Diff, Expected, SoftCosts, InputCost, Symbols;
    if u == [] {
      InputCostEmpty(Received(input));
    } else {
      var k := |u| - 1;
      InputCostLast(u, Received(input));
      ReceivedPrefix(input, k);
      InputCostIsDeviation(u[..k], input[..2 * k]);
      CodedLast(u);
      DeviationPair(Coded(u), input, k);
      CostIs(input[2 * k], input[2 * k + 1], Symbols(u)[k]);
    }
  }

  // ---- conv_cch_decode ----

  /** The inner loops: all transitions out of all states. */
  method ScanStates(in0: Soft, in1: Soft, ae: array<nat>, aeNext: array<nat>, history: array2<nat>, i: nat)
    requires ae.Length == STATES && aeNext.Length == STATES && ae != aeNext
    requires history.Length0 == STATES && i + 1 < history.Length1
    requires forall q :: 0 <= q < STATES ==> aeNext[q] == MAX_AE
    modifies aeNext, history
    ensures Scanned(Row(SoftCosts(in0, in1), ae[..], MAX_AE, 2 * STATES), MAX_AE, aeNext, history, i)
    ensures forall q, u :: 0 <= q < STATES && 0 <= u < history.Length1 && u != i + 1 ==>
              history[q, u] == old(history[q, u])
  {
    hide Next, Output, SoftCosts, Row, Diff, Expected;
    ghost var c, m := SoftCosts(in0, in1), ae[..];
    RowStart(c, m, MAX_AE);
    for s := 0 to STATES
      invariant Scanned(Row(c, m, MAX_AE, 2 * s), MAX_AE, aeNext, history, i) && ae[..] == m
      invariant forall q, u :: 0 <= q < STATES && 0 <= u < history.Length1 && u != i + 1 ==>
                  history[q, u] == old(history[q, u])
    {
      for b := 0 to 2
        invariant Scanned(Row(c, m, MAX_AE, 2 * s + b), MAX_AE, aeNext, history, i) && ae[..] == m
        invariant forall q, u :: 0 <= q < STATES && 0 <= u < history.Length1 && u != i + 1 ==>
                    history[q, u] == old(history[q, u])
      {
        RowStep(c, m, MAX_AE, s, b);
        var out := Output(s, b);
        var state := Next(s, b);
        var ev0 := Expected(out / 2);
        var ev1 := Expected(out % 2);
        var nae := ae[s] + Diff(ev0, in0) + Diff(ev1, in1);
        CostIs(in0, in1, out);
        if aeNext[state] > nae {
          aeNext[state] := nae;
          history[state, i + 1] := s;
        }
      }
    }
  }

  /** One iteration of the trellis loop. */
  method AdvanceStage(input: seq<Soft>, i: nat, ae: array<nat>, aeNext: array<nat>, history: array2<nat>)
    requires |input| % 2 == 0 && 2 * i < |input|
    requires ae.Length == STATES && aeNext.Length == STATES && ae != aeNext
    requires history.Length0 == STATES && history.Length1 == |input| / 2 + 1
    requires ae[..] == Accumulated(Received(input)[..i], MAX_AE) && Recorded(Received(input), MAX_AE, history, i)
    modifies ae, aeNext, history
    ensures ae[..] == Accumulated(Received(input)[..i + 1], MAX_AE) && Recorded(Received(input), MAX_AE, history, i + 1)
  {
    hide SoftCosts, Accumulated, Entering, Row;
    ghost var cs, m := Received(input), ae[..];
    for s := 0 to STATES
      invariant forall q :: 0 <= q < s ==> aeNext[q] == MAX_AE
      modifies aeNext
    {
      aeNext[s] := MAX_AE;
    }
    ScanStates(input[2 * i], input[2 * i + 1], ae, aeNext, history, i);
    assert ae[..] == m;
    forall q | 0 <= q < STATES
      ensures aeNext[q] == Accumulated(cs[..i + 1], MAX_AE)[q]
      ensures aeNext[q] < MAX_AE ==> history[q, i + 1] == Entering(cs[..i + 1], MAX_AE, q).src
    {
      StageComplete(cs, i, MAX_AE, q);
    }
    forall u, q | 1 <= u <= i + 1 && 0 <= q < STATES && Accumulated(cs[..u], MAX_AE)[q] < MAX_AE
      ensures history[q, u] == Entering(cs[..u], MAX_AE, q).src
    {
      if u <= i {
        assert history[q, u] == old(history[q, u]);
        assert old(history[q, u]) == Entering(cs[..u], MAX_AE, q).src;
      } else {
        assert aeNext[q] == Accumulated(cs[..i + 1], MAX_AE)[q];
      }
    }
    forall q | 0 <= q < STATES {
      ae[q] := aeNext[q];
    }
  }

  /** The traceback tells the bit by looking where a 0 would have led. */
  method TraceBack(history: array2<nat>, minState: nat, n: nat, ghost cs: seq<Costs>) returns (output: seq<Bit>)
    requires |cs| == n && history.Length0 == STATES && history.Length1 == n + 1 && Recorded(cs, MAX_AE, history, n)
    requires minState < STATES && Accumulated(cs, MAX_AE)[minState] < MAX_AE
    ensures output == Survivors(cs, MAX_AE, minState)
  {
    hide Next, Accumulated, Entering, Survivors, Recorded;
    var out := new Bit[n];
    var curState: nat := minState;
    ghost var u := Survivors(cs, MAX_AE, minState);
    Whole(cs);
    Nothing(u);
    for i := n downto 0
      invariant curState < STATES && Accumulated(cs[..i], MAX_AE)[curState] < MAX_AE
      invariant Survivors(cs[..i], MAX_AE, curState) + out[i..] == u
    {
      RecordedStep(cs, MAX_AE, history, n, i + 1, curState);
      ghost var e := Entering(cs[..i + 1], MAX_AE, curState);
      Regroup(Survivors(cs[..i], MAX_AE, e.src), e.bit, out[i + 1..]);
      var next := curState;
      curState := history[curState, i + 1];
      NextTellsBit(e.src, e.bit);
      if Next(curState, 0) == next {
        out[i] := 0;
      } else {
        out[i] := 1;
      }
      assert out[i..] == [e.bit] + out[i + 1..];
    }
    NoSurvivors(cs[..0], MAX_AE, curState);
    Nothing(out[..]);
    output := out[..];
  }

  lemma NextTellsBit(p: nat, b: Bit)
    requires p < STATES
    ensures Next(p, 0) == Next(p, b) <==> b == 0
  {
    NextIsShift(p, 0);
    NextIsShift(p, b);
  }

  /** While 254 per symbol cannot reach `MAX_AE`, the output has least deviation from the soft
      input among all inputs of that length. */
  method ConvCchDecode(input: seq<Soft>) returns (output: seq<Bit>)
    requires |input| % 2 == 0 && 254 * (|input| / 2) < 0x00ff_ffff
    ensures |input| == 2 * |output|
    ensures forall v: seq<Bit> :: |input| == 2 * |v| ==> Deviation(Coded(output), input) <= Deviation(Coded(v), input)
  {
    hide Received, Deviation, Coded, Accumulated, Entering, Survivors, InputCost;
    var n := |input| / 2;
    ghost var cs := Received(input);
    var ae := new nat[STATES](i => if i == 0 then 0 else MAX_AE);
    var aeNext := new nat[STATES];
    var history := new nat[STATES, n + 1]((i, j) => 0);
    AccumulatedStart(cs, MAX_AE);
    for i := 0 to n
      invariant ae[..] == Accumulated(cs[..i], MAX_AE) && Recorded(cs, MAX_AE, history, i)
    {
      AdvanceStage(input, i, ae, aeNext, history);
    }
    assert cs[..n] == cs;
    ReceivedBounded(input);
    ghost var alive := SomeStateAlive(cs, MAX_AE, 254);
    assert ae[alive] < MAX_AE;
    var minState, minAe := FindLeast(ae, MAX_AE);
    assert minAe <= ae[alive];
    output := TraceBack(history, minState, n, cs);
    SurvivorsOptimal(cs, MAX_AE, minState);
    InputCostIsDeviation(output, input);
    forall v: seq<Bit> | |input| == 2 * |v| ensures Deviation(Coded(output), input) <= Deviation(Coded(v), input) {
      InputCostIsDeviation(v, input);
    }
  }
}
