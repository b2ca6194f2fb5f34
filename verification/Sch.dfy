/**
  The synchronisation channel coder of gsm-parser/sch.c: convolutional encoder and
  hard-decision Viterbi decoder, for blocks of any length.
 */
module Sch {
  import opened Gf2
  import opened Slices
  import opened ConvCode

  // ---- Hamming distance ----

  function Differ(a: Bit, b: Bit): nat { if a == b then 0 else 1 }

  function Hamming(a: seq<Bit>, b: seq<Bit>): nat
    requires |a| == |b|
  {
    if a == [] then 0
    else
      var k := |a| - 1;
      Hamming(a[..k], b[..k]) + Differ(a[k], b[k])
  }

  /** The positions in which two words differ. */
  function Differing(a: seq<Bit>, b: seq<Bit>): set<nat>
    requires |a| == |b|
  {
    set i: nat | 0 <= i < |a| && a[i] != b[i]
  }

  /** The distance is their number. */
  lemma {:induction false} HammingCounts(a: seq<Bit>, b: seq<Bit>)
    requires |a| == |b|
    ensures Hamming(a, b) == |Differing(a, b)|
  {
    if a == [] {
      assert Differing(a, b) == {};
    } else {
      var k := |a| - 1;
      HammingCounts(a[..k], b[..k]);
      var init: set<nat> := Differing(a[..k], b[..k]);
      assert Differing(a, b) == if a[k] != b[k] then init + {k} else init;
    }
  }

  lemma HammingZero(a: seq<Bit>, b: seq<Bit>)
    requires |a| == |b|
    ensures Hamming(a, b) == 0 <==> a == b
  {
    HammingCounts(a, b);
    if Hamming(a, b) == 0 {
      forall i | 0 <= i < |a| ensures a[i] == b[i] {
        assert i !in Differing(a, b);
      }
    }
  }

  /** Exclusive or of two 2-bit symbols. */
  function Xor2(a: nat, b: nat): nat
    requires a < 4 && b < 4
  {
    2 * Differ(a / 2, b / 2) + Differ(a % 2, b % 2)
  }

  /** `hamming_distance2` */
  function HammingDistance2(w: nat): nat
    requires w < 4
  {
    w % 2 + w / 2
  }

  function HardCosts(r0: Bit, r1: Bit): Costs {
    seq(4, o requires 0 <= o < 4 => HammingDistance2(Xor2(2 * r0 + r1, o)))
  }

  function Received(data: seq<Bit>): (cs: seq<Costs>)
    requires |data| % 2 == 0
    ensures |cs| == |data| / 2
  {
    seq(|data| / 2, t requires 0 <= t < |data| / 2 => HardCosts(data[2 * t], data[2 * t + 1]))
  }

  lemma HardCost(r0: Bit, r1: Bit, o: nat)
    requires o < 4
    ensures HardCosts(r0, r1)[o] == Differ(r0, o / 2) + Differ(r1, o % 2)
  {
    assert (2 * r0 + r1) / 2 == r0 && (2 * r0 + r1) % 2 == r1;
  }

  /** The trellis cost of an input is the distance of its code word from the received word. */
  lemma {:induction false} InputCostIsHamming(u: seq<Bit>, data: seq<Bit>)
    requires |data| == 2 * |u|
    ensures InputCost(u, Received(data)) == Hamming(Coded(u), data)
  {
    hide Next, Output, HardCosts, Hamming, Coded;
    if u == [] {
      NoDistance(Coded(u), data);
    } else {
      var k := |u| - 1;
      InputCostIsHamming(u[..k], data[..2 * k]);
      CodedLast(u);
      HammingPair(Coded(u), data, k);
      HardCost(data[2 * k], data[2 * k + 1], Symbols(u)[k]);
      assert Received(data)[..k] == Received(data[..2 * k]);
    }
  }

  lemma NoDistance(a: seq<Bit>, b: seq<Bit>)
    requires |a| == |b| == 0
    ensures Hamming(a, b) == 0
  {
  }

  lemma HammingPair(a: seq<Bit>, b: seq<Bit>, k: nat)
    requires |a| == |b| == 2 * k + 2
    ensures Hamming(a, b) == Hamming(a[..2 * k], b[..2 * k]) + Differ(b[2 * k], a[2 * k])
            + Differ(b[2 * k + 1], a[2 * k + 1])
  {
    assert a[..2 * k + 1][..2 * k] == a[..2 * k] && b[..2 * k + 1][..2 * k] == b[..2 * k];
  }

  // ---- conv_decode ----

  /** Given the previous and the current state, the input bit of the transition (2: none). */
  const PREV_NEXT_STATE: seq<seq<nat>> := [
    [0, 2, 2, 2, 2, 2, 2, 2, 1, 2, 2, 2, 2, 2, 2, 2], [0, 2, 2, 2, 2, 2, 2, 2, 1, 2, 2, 2, 2, 2, 2, 2],
    [2, 0, 2, 2, 2, 2, 2, 2, 2, 1, 2, 2, 2, 2, 2, 2], [2, 0, 2, 2, 2, 2, 2, 2, 2, 1, 2, 2, 2, 2, 2, 2],
    [2, 2, 0, 2, 2, 2, 2, 2, 2, 2, 1, 2, 2, 2, 2, 2], [2, 2, 0, 2, 2, 2, 2, 2, 2, 2, 1, 2, 2, 2, 2, 2],
    [2, 2, 2, 0, 2, 2, 2, 2, 2, 2, 2, 1, 2, 2, 2, 2], [2, 2, 2, 0, 2, 2, 2, 2, 2, 2, 2, 1, 2, 2, 2, 2],
    [2, 2, 2, 2, 0, 2, 2, 2, 2, 2, 2, 2, 1, 2, 2, 2], [2, 2, 2, 2, 0, 2, 2, 2, 2, 2, 2, 2, 1, 2, 2, 2],
    [2, 2, 2, 2, 2, 0, 2, 2, 2, 2, 2, 2, 2, 1, 2, 2], [2, 2, 2, 2, 2, 0, 2, 2, 2, 2, 2, 2, 2, 1, 2, 2],
    [2, 2, 2, 2, 2, 2, 0, 2, 2, 2, 2, 2, 2, 2, 1, 2], [2, 2, 2, 2, 2, 2, 0, 2, 2, 2, 2, 2, 2, 2, 1, 2],
    [2, 2, 2, 2, 2, 2, 2, 0, 2, 2, 2, 2, 2, 2, 2, 1], [2, 2, 2, 2, 2, 2, 2, 0, 2, 2, 2, 2, 2, 2, 2, 1]]

  function PrevNext(p: nat, q: nat): (r: nat)
    requires p < STATES && q < STATES
  {
    assert Listed(p);
    PREV_NEXT_STATE[p][q]
  }

  /** The third table inverts the second. */
  lemma PrevNextInverts(p: nat, b: Bit)
    requires p < STATES
    ensures PrevNext(p, Next(p, b)) == b
  {
    assert Listed(p);
  }

  /** The two inner loops of `conv_decode`: all transitions out of all states. */
  method ScanStates(r0: Bit, r1: Bit, ae: array<nat>, nae: array<nat>, history: array2<nat>, t: nat, cap: nat)
    requires ae.Length == STATES && nae.Length == STATES && ae != nae
    requires history.Length0 == STATES && t + 1 < history.Length1
    requires forall q :: 0 <= q < STATES ==> nae[q] == cap
    modifies nae, history
    ensures Scanned(Row(HardCosts(r0, r1), ae[..], cap, 2 * STATES), cap, nae, history, t)
    ensures forall q, u :: 0 <= q < STATES && 0 <= u < history.Length1 && u != t + 1 ==>
              history[q, u] == old(history[q, u])
  {
    hide Next, Output, HardCosts, Row;
    ghost var c, m := HardCosts(r0, r1), ae[..];
    var rdata := 2 * r0 + r1;
    RowStart(c, m, cap);
    for state := 0 to STATES
      invariant Scanned(Row(c, m, cap, 2 * state), cap, nae, history, t) && ae[..] == m
      invariant forall q, u :: 0 <= q < STATES && 0 <= u < history.Length1 && u != t + 1 ==>
                  history[q, u] == old(history[q, u])
    {
      if ae[state] >= cap {
        RowSkip(c, m, cap, state);
        continue;
      }
      for b := 0 to 2
        invariant Scanned(Row(c, m, cap, 2 * state + b), cap, nae, history, t) && ae[..] == m
        invariant forall q, u :: 0 <= q < STATES && 0 <= u < history.Length1 && u != t + 1 ==>
                    history[q, u] == old(history[q, u])
      {
        RowStep(c, m, cap, state, b);
        var nstate := Next(state, b);
        var o := Output(state, b);
        var distance := HammingDistance2(Xor2(rdata, o));
        DistanceIsCost(r0, r1, o);
        var accumulatedError := ae[state] + distance;
        if accumulatedError < nae[nstate] {
          nae[nstate] := accumulatedError;
          history[nstate, t + 1] := state;
        }
      }
    }
  }

  lemma DistanceIsCost(r0: Bit, r1: Bit, o: nat)
    requires o < 4
    ensures HammingDistance2(Xor2(2 * r0 + r1, o)) == HardCosts(r0, r1)[o]
  {
  }

  /** "Trace the path": reads the surviving input backwards out of the state history. */
  method TracePath(history: array2<nat>, minState: nat, n: nat, ghost cs: seq<Costs>, ghost cap: nat)
    returns (output: seq<Bit>)
    requires |cs| == n && history.Length0 == STATES && history.Length1 == n + 1 && Recorded(cs, cap, history, n)
    requires minState < STATES && Accumulated(cs, cap)[minState] < cap
    ensures output == Survivors(cs, cap, minState)
  {
    hide Next, PrevNext, Accumulated, Entering, Survivors, Recorded;
    var out := new Bit[n];
    var curState: nat := minState;
    ghost var u := Survivors(cs, cap, minState);
    Whole(cs);
    Nothing(u);
    var t := n;
    while t >= 1
      invariant 0 <= t <= n && curState < STATES && Accumulated(cs[..t], cap)[curState] < cap
      invariant Survivors(cs[..t], cap, curState) + out[t..] == u
    {
      RecordedStep(cs, cap, history, n, t, curState);
      ghost var e := Entering(cs[..t], cap, curState);
      Regroup(Survivors(cs[..t - 1], cap, e.src), e.bit, out[t..]);
      var next := curState;
      curState := history[curState, t];
      PrevNextInverts(e.src, e.bit);
      out[t - 1] := PrevNext(curState, next);
      assert out[t - 1..] == [e.bit] + out[t..];
      t := t - 1;
    }
    NoSurvivors(cs[..0], cap, curState);
    Nothing(out[..]);
    output := out[..];
  }

  /** One iteration of the trellis loop of `conv_decode`. */
  method AdvanceStage(data: seq<Bit>, t: nat, ae: array<nat>, nae: array<nat>, history: array2<nat>, cap: nat)
    requires |data| % 2 == 0 && 2 * t < |data| && ae.Length == STATES && nae.Length == STATES && ae != nae
    requires history.Length0 == STATES && history.Length1 == |data| / 2 + 1
    requires ae[..] == Accumulated(Received(data)[..t], cap) && Recorded(Received(data), cap, history, t)
    requires forall q :: 0 <= q < STATES ==> nae[q] == cap
    modifies ae, nae, history
    ensures ae[..] == Accumulated(Received(data)[..t + 1], cap) && Recorded(Received(data), cap, history, t + 1)
    ensures forall q :: 0 <= q < STATES ==> nae[q] == cap
  {
    hide HardCosts, Accumulated, Entering, Row;
    ghost var cs := Received(data);
    ScanStates(data[2 * t], data[2 * t + 1], ae, nae, history, t, cap);
    forall q | 0 <= q < STATES
      ensures nae[q] == Accumulated(cs[..t + 1], cap)[q]
      ensures nae[q] < cap ==> history[q, t + 1] == Entering(cs[..t + 1], cap, q).src
    {
      StageComplete(cs, t, cap, q);
    }
    forall u, q | 1 <= u <= t + 1 && 0 <= q < STATES && Accumulated(cs[..u], cap)[q] < cap
      ensures history[q, u] == Entering(cs[..u], cap, q).src
    {
      if u <= t {
        assert history[q, u] == old(history[q, u]);
        assert old(history[q, u]) == Entering(cs[..u], cap, q).src;
      } else {
        assert nae[q] == Accumulated(cs[..t + 1], cap)[q];
      }
    }
    for i := 0 to STATES
      invariant forall q :: 0 <= q < i ==> ae[q] == Accumulated(cs[..t + 1], cap)[q] && nae[q] == cap
      invariant forall q :: i <= q < STATES ==> nae[q] == Accumulated(cs[..t + 1], cap)[q]
      modifies ae, nae
    {
      ae[i] := nae[i];
      nae[i] := cap;
    }
  }

  /** For every received word the decoder finds an input whose code word is nearest to it, and
      returns the distance. */
  method ConvDecode(data: seq<Bit>) returns (output: seq<Bit>, errors: nat)
    requires |data| % 2 == 0
    ensures |data| == 2 * |output| && errors == Hamming(Coded(output), data)
    ensures forall v: seq<Bit> :: |data| == 2 * |v| ==> errors <= Hamming(Coded(v), data)
  {
    hide Received, Hamming, Coded, Accumulated, Entering, Survivors, InputCost;
    var n := |data| / 2;
    var maxError := 2 * n + 1;
    ghost var cs := Received(data);
    var ae := new nat[STATES](_ => maxError);
    var nae := new nat[STATES](_ => maxError);
    var history := new nat[STATES, n + 1]((i, j) => 0);
    ae[0] := 0;
    AccumulatedStart(cs, maxError);
    for t := 0 to n
      invariant ae[..] == Accumulated(cs[..t], maxError) && Recorded(cs, maxError, history, t)
      invariant forall q :: 0 <= q < STATES ==> nae[q] == maxError
    {
      AdvanceStage(data, t, ae, nae, history, maxError);
    }
    assert cs[..n] == cs;
    ReceivedBounded(data);
    ghost var alive := SomeStateAlive(cs, maxError, 2);
    assert ae[alive] < maxError;
    var minState;
    minState, errors := FindLeast(ae, maxError);
    assert errors <= ae[alive];
    output := TracePath(history, minState, n, cs, maxError);
    SurvivorsOptimal(cs, maxError, minState);
    InputCostIsHamming(output, data);
    forall v: seq<Bit> | |data| == 2 * |v| ensures errors <= Hamming(Coded(v), data) {
      InputCostIsHamming(v, data);
    }
  }

  lemma ReceivedBounded(data: seq<Bit>)
    requires |data| % 2 == 0
    ensures Bounded(Received(data), 2)
  {
  }

  /** An undisturbed code word comes back without errors. */
  method Loopback(u: seq<Bit>) returns (output: seq<Bit>, errors: nat)
    ensures output == u && errors == 0
  {
    hide Coded, Hamming;
    var word := ConvEncode(u);
    output, errors := ConvDecode(word);
    HammingZero(Coded(u), word);
    HammingZero(Coded(output), word);
    CodedInjective(u, output);
  }
}
