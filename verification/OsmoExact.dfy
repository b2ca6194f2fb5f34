/**
  When the input that `osmo_conv_decode` returns attains the least path metric.  The traceback
  of libosmocore/src/conv.c does not store input bits: it guesses each bit from two states, so
  the input it returns follows the best path but may not send the best path's word.
 */
module OsmoExact {
  import opened Gf2
  import opened Trellis
  import opened OsmoCode

  /** The bits that the traceback reads off the states of `u`. */
  function Guessed(c: OkCode, u: seq<Bit>): (g: seq<Bit>)
    requires |u| == c.len
    ensures |g| == c.len
  {
    seq(c.len, i requires 0 <= i < c.len => BitFor(c, StateAt(c, u, i), StateAt(c, u, i + 1)))
  }

  /** Guessing never leaves the state path. */
  lemma {:induction false} GuessedStates(c: OkCode, u: seq<Bit>, t: nat)
    requires |u| == c.len
    ensures StateAt(c, Guessed(c, u), t) == StateAt(c, u, t)
  {
    hide CodeOk, States, Next, TermNext;
    if t > 0 {
      GuessedStates(c, u, t - 1);
    }
  }

  /** The decoder's output is the guess for the best input. */
  lemma {:induction false} TracedIsGuessed(c: OkCode, input: seq<Soft>, t: nat, q: nat, u: seq<Bit>)
    requires q < States(c) && Accumulated(c, input, t)[q] < MAX_AE
    requires |u| == c.len && TracedInput(c, input, t, q, true) <= u
    ensures TracedInput(c, input, t, q, false) == Guessed(c, u)[..if t <= c.len then t else c.len]
  {
    hide CodeOk, States, Accumulated, StageAt, Entering, BitFor, StateAt, CostTo, Guessed;
    if t > 0 {
      var e := Entering(c, input, t - 1, q);
      TracedIsGuessed(c, input, t - 1, e.src, u);
      TracedAttains(c, input, t, q, u);
      TracedAttains(c, input, t - 1, e.src, u);
      if t <= c.len {
        GuessedNext(c, u, t - 1);
      }
    }
  }

  lemma GuessedNext(c: OkCode, u: seq<Bit>, t: nat)
    requires |u| == c.len && t < c.len
    ensures Guessed(c, u)[..t + 1] == Guessed(c, u)[..t] + [BitFor(c, StateAt(c, u, t), StateAt(c, u, t + 1))]
  {
    hide CodeOk, BitFor, StateAt;
  }

  // ---- the word decides the cost ----

  lemma {:induction false} SameSymbolSameCost(c: OkCode, t: nat, a: nat, b: nat, input: seq<Soft>, j: nat)
    requires j <= c.N && SymbolBits(c, t * c.N, a, j) == SymbolBits(c, t * c.N, b, j)
    ensures SymCost(c, a, InSym(c, input, t), j) == SymCost(c, b, InSym(c, input, t), j)
  {
    hide CodeOk, PIdx, Skipped, Kept, OutBit, ReadBit, BitCost;
    if j > 0 {
      var r := t * c.N;
      ReadIs(c, a, j - 1);
      ReadIs(c, b, j - 1);
      SymbolBitsLength(c, r, a, j - 1);
      SymbolBitsLength(c, r, b, j - 1);
      if Skipped(c, r + j - 1) {
        assert SymbolBits(c, r, a, j) == SymbolBits(c, r, a, j - 1);
        assert SymbolBits(c, r, b, j) == SymbolBits(c, r, b, j - 1);
        Free(ReadBit(c, a, j - 1));
        Free(ReadBit(c, b, j - 1));
      } else {
        AppendEqual(SymbolBits(c, r, a, j - 1), OutBit(c, a, j - 1), SymbolBits(c, r, b, j - 1), OutBit(c, b, j - 1));
      }
      SameSymbolSameCost(c, t, a, b, input, j - 1);
    }
  }

  lemma {:induction false} SameWordSameCost(c: OkCode, u: seq<Bit>, v: seq<Bit>, input: seq<Soft>, t: nat)
    requires |u| == |v| == c.len && Emitted(c, u, t) == Emitted(c, v, t)
    ensures CostTo(c, u, input, t) == CostTo(c, v, input, t)
  {
    hide CodeOk, OutAt, SymbolBits, SymCost, InSym, Kept;
    if t > 0 {
      EmittedLength(c, u, t - 1);
      EmittedLength(c, v, t - 1);
      var a, b := OutAt(c, u, t - 1), OutAt(c, v, t - 1);
      ConcatEqual(Emitted(c, u, t - 1), SymbolBits(c, (t - 1) * c.N, a, c.N),
                  Emitted(c, v, t - 1), SymbolBits(c, (t - 1) * c.N, b, c.N));
      SameWordSameCost(c, u, v, input, t - 1);
      SameSymbolSameCost(c, t - 1, a, b, input, c.N);
    }
  }

  // ---- ties ----

  function EdgeSrc(c: OkCode, t: nat, k: nat): nat { if t < c.len then k / 2 else k }

  function EdgeOut(c: OkCode, t: nat, k: nat): nat
    requires EdgeSrc(c, t, k) < States(c)
  {
    if t < c.len then Out(c, k / 2, k % 2) else TermOut(c, k)
  }

  function EdgeDst(c: OkCode, t: nat, k: nat): nat
    requires EdgeSrc(c, t, k) < States(c)
  {
    if t < c.len then Next(c, k / 2, k % 2) else TermNext(c, k)
  }

  function Edges(c: OkCode, t: nat): nat { if t < c.len then 2 * States(c) else States(c) }

  /** Only the cost of an edge depends on what was received. */
  lemma EdgeAt(c: OkCode, input: seq<Soft>, t: nat, k: nat)
    requires k < Edges(c, t)
    ensures EdgeSrc(c, t, k) < States(c) && |StageAt(c, input, t)| == Edges(c, t)
    ensures StageAt(c, input, t)[k]
            == Edge(EdgeSrc(c, t, k), EdgeDst(c, t, k), if t < c.len then k % 2 else 0,
                    SymCost(c, EdgeOut(c, t, k), InSym(c, input, t), c.N))
  {
    hide CodeOk, States, SymCost, InSym, Next, Out, TermNext, TermOut;
  }

  /** The index of the surviving edge into `q`. */
  function Winner(c: OkCode, input: seq<Soft>, t: nat, q: nat): (k: nat)
    requires q < States(c) && Accumulated(c, input, t + 1)[q] < MAX_AE
    ensures k < |StageAt(c, input, t)| && StageAt(c, input, t)[k] == Entering(c, input, t, q)
  {
    hide CodeOk, States, StageAt, Entering, Accumulated;
    StageComplete(c, input, t, q);
    Scan(StageAt(c, input, t), Accumulated(c, input, t), MAX_AE, |StageAt(c, input, t)|)[q].edge
  }

  /** Of the cheapest edges the first one scanned survives. */
  lemma WinnerFirst(c: OkCode, input: seq<Soft>, t: nat, q: nat, i: nat)
    requires q < States(c) && Accumulated(c, input, t + 1)[q] < MAX_AE
    requires i < |StageAt(c, input, t)| && StageAt(c, input, t)[i].dst == q && StageAt(c, input, t)[i].src < States(c)
    requires var e := StageAt(c, input, t)[i];
             Accumulated(c, input, t)[e.src] + e.cost <= Accumulated(c, input, t + 1)[q]
    ensures Winner(c, input, t, q) <= i
  {
    hide CodeOk, States, StageAt, Entering, Accumulated;
    var st := StageAt(c, input, t);
    StageComplete(c, input, t, q);
    RelaxFirst(st, Accumulated(c, input, t), MAX_AE, q, |st|, i);
  }

  // ---- the word of a survivor, received undisturbed ----

  /** The soft word that sending `w` delivers over an undisturbed channel. */
  function Clean(c: OkCode, w: seq<Bit>): (input: seq<Soft>)
    requires |w| == c.len
  {
    Undisturbed(Emitted(c, w, Steps(c)))
  }

  lemma CleanReached(c: OkCode, w: seq<Bit>, t: nat)
    requires c.N <= 8
    requires |w| == c.len && t <= Steps(c)
    ensures CostTo(c, w, Clean(c, w), t) == 0 && Accumulated(c, Clean(c, w), t)[StateAt(c, w, t)] == 0
  {
    hide CodeOk, CostTo, Emitted, Accumulated, StateAt;
    FreeIffSameWord(c, w, w, t);
    AccumulatedLeast(c, w, Clean(c, w), t);
  }

  /** Whatever is free for the undisturbed word of `w` is as cheap as `w` for every received word. */
  lemma CleanRival(c: OkCode, input: seq<Soft>, w: seq<Bit>, t: nat, k: nat)
    requires c.N <= 8
    requires |w| == c.len && t < Steps(c) && k < Edges(c, t) && EdgeSrc(c, t, k) < States(c)
    requires Accumulated(c, Clean(c, w), t)[EdgeSrc(c, t, k)] == 0
    requires SymCost(c, EdgeOut(c, t, k), InSym(c, Clean(c, w), t), c.N) == 0
    ensures Accumulated(c, input, t)[EdgeSrc(c, t, k)] + SymCost(c, EdgeOut(c, t, k), InSym(c, input, t), c.N)
            <= CostTo(c, w, input, t + 1)
  {
    hide CodeOk, States, Accumulated, StateAt, Emitted, SymbolBits, SymCost, InSym, EdgeSrc, EdgeOut, OutAt;
    hide Undisturbed, TracedInput;
    var p, out := EdgeSrc(c, t, k), EdgeOut(c, t, k);
    var head := TracedInput(c, Clean(c, w), t, p, true);
    var v: seq<Bit> := head + seq(c.len - |head|, i => 0);
    TracedAttains(c, Clean(c, w), t, p, v);
    FreeIffSameWord(c, w, v, t);
    SameWordSameCost(c, v, w, input, t);
    AccumulatedLeast(c, v, input, t);
    SymbolFreeIffEqual(c, w, t, out, c.N);
    SameSymbolSameCost(c, t, out, OutAt(c, w, t), input, c.N);
  }

  /** If `w` survives a step for some received word, it survives it for its own word. */
  lemma CleanStep(c: OkCode, input: seq<Soft>, w: seq<Bit>, t: nat, q: nat)
    requires c.N <= 8
    requires |w| == c.len && t < Steps(c) && q < States(c) && Accumulated(c, input, t + 1)[q] < MAX_AE
    requires StateAt(c, w, t + 1) == q && CostTo(c, w, input, t + 1) == Accumulated(c, input, t + 1)[q]
    requires var k := Winner(c, input, t, q);
             k < Edges(c, t) && EdgeSrc(c, t, k) == StateAt(c, w, t) && EdgeOut(c, t, k) == OutAt(c, w, t)
    ensures Accumulated(c, Clean(c, w), t + 1)[q] == 0
    ensures Winner(c, Clean(c, w), t, q) == Winner(c, input, t, q)
  {
    hide CodeOk, States, Accumulated, StateAt, Emitted, SymCost, InSym, EdgeSrc, EdgeOut, EdgeDst, OutAt, Clean;
    hide Winner, StageAt, Entering;
    var clean, k := Clean(c, w), Winner(c, input, t, q);
    CleanReached(c, w, t);
    CleanReached(c, w, t + 1);
    EdgeAt(c, input, t, k);
    EdgeAt(c, clean, t, k);
    WinnerFirst(c, clean, t, q, k);
    var k' := Winner(c, clean, t, q);
    EdgeAt(c, clean, t, k');
    EdgeAt(c, input, t, k');
    CleanRival(c, input, w, t, k');
    WinnerFirst(c, input, t, q, k');
  }

  /** The survivor for any received word is the survivor for its own word, ties included. */
  lemma {:induction false} CleanTrace(c: OkCode, input: seq<Soft>, w: seq<Bit>, t: nat, q: nat)
    requires c.N <= 8
    requires |w| == c.len && t <= Steps(c) && q < States(c) && Accumulated(c, input, t)[q] < MAX_AE
    requires TracedInput(c, input, t, q, true) <= w
    ensures Accumulated(c, Clean(c, w), t)[q] == 0
    ensures TracedInput(c, Clean(c, w), t, q, true) == TracedInput(c, input, t, q, true)
  {
    hide CodeOk, States, Accumulated, StateAt, CostTo, Emitted, SymCost, InSym, EdgeSrc, EdgeOut, EdgeDst, Clean;
    hide Winner, StageAt, Entering;
    TracedAttains(c, input, t, q, w);
    CleanReached(c, w, t);
    if t > 0 {
      var e, k := Entering(c, input, t - 1, q), Winner(c, input, t - 1, q);
      TracedAttains(c, input, t - 1, e.src, w);
      WinnerOutput(c, input, w, t - 1, q);
      EdgeAt(c, input, t - 1, k);
      EdgeAt(c, Clean(c, w), t - 1, k);
      CleanStep(c, input, w, t - 1, q);
      CleanTrace(c, input, w, t - 1, e.src);
    }
  }

  /** The step of `w` is the surviving edge. */
  lemma WinnerOutput(c: OkCode, input: seq<Soft>, w: seq<Bit>, t: nat, q: nat)
    requires |w| == c.len && q < States(c) && Accumulated(c, input, t + 1)[q] < MAX_AE
    requires TracedInput(c, input, t + 1, q, true) <= w && StateAt(c, w, t) == Entering(c, input, t, q).src
    ensures var k := Winner(c, input, t, q);
            k < Edges(c, t) && EdgeSrc(c, t, k) == StateAt(c, w, t) && EdgeOut(c, t, k) == OutAt(c, w, t)
  {
    hide CodeOk, States, Accumulated, StateAt, SymCost, InSym, Winner, StageAt, Entering;
    var k := Winner(c, input, t, q);
    StageSize(c, input, t);
    EdgeAt(c, input, t, k);
  }

  lemma StageSize(c: OkCode, input: seq<Soft>, t: nat)
    ensures |StageAt(c, input, t)| == Edges(c, t)
  {
  }

  // ---- when the least metric is attained ----

  /** An input that the flush steps bring back to state 0. */
  predicate Closes(c: OkCode, u: seq<Bit>) { |u| == c.len && StateAt(c, u, Steps(c)) == 0 }

  predicate Alive(c: OkCode, input: seq<Soft>) { Accumulated(c, input, Steps(c))[0] < MAX_AE }

  /** The decoder's output. */
  function Decoded(c: OkCode, input: seq<Soft>): (u: seq<Bit>)
    requires Alive(c, input)
    ensures |u| == c.len
  {
    hide CodeOk, States, Accumulated, TracedInput;
    Positive(c);
    TracedInput(c, input, Steps(c), 0, false)
  }

  /** The output attains the least metric of all terminated inputs. */
  predicate Attains(c: OkCode, input: seq<Soft>)
    requires Alive(c, input)
  {
    CostTo(c, Decoded(c, input), input, Steps(c)) == Accumulated(c, input, Steps(c))[0]
  }

  /** The best input, of which the output is the guess. */
  lemma BestInput(c: OkCode, input: seq<Soft>) returns (w: seq<Bit>)
    requires Alive(c, input)
    ensures Closes(c, w) && CostTo(c, w, input, Steps(c)) == Accumulated(c, input, Steps(c))[0]
    ensures w == TracedInput(c, input, Steps(c), 0, true) && Decoded(c, input) == Guessed(c, w)
  {
    hide CodeOk, States, Accumulated, StateAt, CostTo, TracedInput, Guessed;
    Positive(c);
    w := TracedInput(c, input, Steps(c), 0, true);
    TracedAttains(c, input, Steps(c), 0, w);
    TracedIsGuessed(c, input, Steps(c), 0, w);
  }

  lemma CleanAlive(c: OkCode, u: seq<Bit>)
    requires c.N <= 8
    requires Closes(c, u)
    ensures Alive(c, Clean(c, u)) && Accumulated(c, Clean(c, u), Steps(c))[0] == 0
  {
    hide CodeOk, Accumulated, StateAt, Clean, CostTo;
    CleanReached(c, u, Steps(c));
  }

  /** The word of `u`, received undisturbed, is decoded to an input with that same word. */
  predicate LoopsBack(c: OkCode, u: seq<Bit>)
    requires c.N <= 8
    requires Closes(c, u)
  {
    CleanAlive(c, u);
    Emitted(c, Decoded(c, Clean(c, u)), Steps(c)) == Emitted(c, u, Steps(c))
  }

  lemma LoopsBackIffAttains(c: OkCode, u: seq<Bit>)
    requires c.N <= 8
    requires Closes(c, u)
    ensures Alive(c, Clean(c, u)) && (LoopsBack(c, u) <==> Attains(c, Clean(c, u)))
  {
    hide CodeOk, Accumulated, StateAt, Decoded, Emitted, CostTo;
    CleanAlive(c, u);
    FreeIffSameWord(c, u, Decoded(c, Clean(c, u)), Steps(c));
  }

  /** A word is decoded best if the undisturbed word of its survivor is. */
  lemma AttainsIfLoopsBack(c: OkCode, input: seq<Soft>)
    requires c.N <= 8
    requires Alive(c, input) && forall u :: Closes(c, u) ==> LoopsBack(c, u)
    ensures Attains(c, input)
  {
    hide CodeOk, Accumulated, StateAt, Emitted, CostTo, Clean, TracedInput, Guessed, Decoded;
    var w := BestInput(c, input);
    CleanAlive(c, w);
    Positive(c);
    CleanTrace(c, input, w, Steps(c), 0);
    var w' := BestInput(c, Clean(c, w));
    assert LoopsBack(c, w);
    SameWordSameCost(c, Guessed(c, w), w, input, Steps(c));
  }

  /** The decoder attains the least metric for every received word exactly if it brings every
      undisturbed code word back: noise adds no way to fail. */
  lemma AttainsIffLoopsBack(c: OkCode)
    requires c.N <= 8
    ensures (forall input :: Alive(c, input) ==> Attains(c, input)) <==> (forall u :: Closes(c, u) ==> LoopsBack(c, u))
  {
    hide CodeOk, LoopsBack, Attains, Closes, Alive, Clean;
    if forall u :: Closes(c, u) ==> LoopsBack(c, u) {
      forall input | Alive(c, input) ensures Attains(c, input) {
        AttainsIfLoopsBack(c, input);
      }
    }
    if forall input :: Alive(c, input) ==> Attains(c, input) {
      forall u | Closes(c, u) ensures LoopsBack(c, u) {
        LoopsBackIffAttains(c, u);
      }
    }
  }

  // ---- a condition on the tables ----

  /** Wherever `u` has a 1 that the traceback reads as 0, both bits send the same. */
  predicate Readable(c: OkCode, u: seq<Bit>)
    requires |u| == c.len
  {
    forall t :: 0 <= t < c.len ==> ReadableAt(c, u, t)
  }

  predicate ReadableAt(c: OkCode, u: seq<Bit>, t: nat)
    requires |u| == c.len && t < c.len
  {
    var s := StateAt(c, u, t);
    u[t] == 1 && Next(c, s, 0) == Next(c, s, 1) ==>
      SymbolBits(c, t * c.N, Out(c, s, 0), c.N) == SymbolBits(c, t * c.N, Out(c, s, 1), c.N)
  }

  /** Up to step `t`. */
  predicate ReadableTo(c: OkCode, u: seq<Bit>, t: nat)
    requires |u| == c.len
  {
    forall i :: 0 <= i < t && i < c.len ==> ReadableAt(c, u, i)
  }

  /** One step: the guess sends the same symbol exactly if the bit is readable. */
  lemma GuessedSymbol(c: OkCode, u: seq<Bit>, t: nat)
    requires |u| == c.len
    ensures SymbolBits(c, t * c.N, OutAt(c, Guessed(c, u), t), c.N) == SymbolBits(c, t * c.N, OutAt(c, u, t), c.N)
            <==> (t < c.len ==> ReadableAt(c, u, t))
  {
    hide CodeOk, States, Next, Out, TermOut, SymbolBits;
    GuessedStates(c, u, t);
    if t < c.len {
      var s := StateAt(c, u, t);
      assert StateAt(c, u, t + 1) == Next(c, s, u[t]);
      assert Guessed(c, u)[t] == BitFor(c, s, Next(c, s, u[t]));
    }
  }

  lemma {:induction false} GuessedPrefix(c: OkCode, u: seq<Bit>, t: nat)
    requires |u| == c.len
    ensures Emitted(c, Guessed(c, u), t) == Emitted(c, u, t) <==> ReadableTo(c, u, t)
  {
    hide CodeOk, SymbolBits, OutAt, Guessed, ReadableAt, Kept;
    if t > 0 {
      var g := Guessed(c, u);
      GuessedPrefix(c, u, t - 1);
      GuessedSymbol(c, u, t - 1);
      EmittedLength(c, g, t - 1);
      EmittedLength(c, u, t - 1);
      ConcatEqual(Emitted(c, g, t - 1), SymbolBits(c, (t - 1) * c.N, OutAt(c, g, t - 1), c.N),
                  Emitted(c, u, t - 1), SymbolBits(c, (t - 1) * c.N, OutAt(c, u, t - 1), c.N));
    }
  }

  /** Guessing the bits of `u` from its states keeps its word exactly if `u` is readable. */
  lemma GuessedWord(c: OkCode, u: seq<Bit>)
    requires |u| == c.len
    ensures Emitted(c, Guessed(c, u), Steps(c)) == Emitted(c, u, Steps(c)) <==> Readable(c, u)
  {
    hide CodeOk, Emitted, Guessed, ReadableAt;
    Positive(c);
    GuessedPrefix(c, u, Steps(c));
  }

  // ---- which of several inputs with the same word survives ----

  /** The index of the edge that `u` takes in step `t`. */
  function StepEdge(c: OkCode, u: seq<Bit>, t: nat): (k: nat)
    requires |u| == c.len
  {
    if t < c.len then 2 * StateAt(c, u, t) + u[t] else StateAt(c, u, t)
  }

  predicate AgreeAfter(c: OkCode, u: seq<Bit>, v: seq<Bit>, t: nat)
    requires |u| == |v| == c.len
  {
    forall i :: t < i < Steps(c) ==> StepEdge(c, u, i) == StepEdge(c, v, i)
  }

  predicate SameWord(c: OkCode, u: seq<Bit>, v: seq<Bit>)
    requires |u| == |v| == c.len
  {
    Emitted(c, u, Steps(c)) == Emitted(c, v, Steps(c))
  }

  /** Of all terminated inputs with its word, `w` takes the first edge wherever it parts, read
      backwards, from another one. */
  ghost predicate ScanFirst(c: OkCode, w: seq<Bit>) {
    Closes(c, w) && forall v, t :: Closes(c, v) && SameWord(c, v, w) && 0 <= t < Steps(c) && AgreeAfter(c, v, w, t)
                                   ==> StepEdge(c, w, t) <= StepEdge(c, v, t)
  }

  /** Inputs whose edges agree after step `t` are in the same state there. */
  lemma AgreeMeets(c: OkCode, u: seq<Bit>, v: seq<Bit>, t: nat)
    requires Closes(c, u) && Closes(c, v) && t < Steps(c) && AgreeAfter(c, u, v, t)
    ensures StateAt(c, u, t + 1) == StateAt(c, v, t + 1)
  {
    hide CodeOk, StateAt;
    if t + 1 < Steps(c) {
      assert StepEdge(c, u, t + 1) == StepEdge(c, v, t + 1);
    }
  }

  lemma EdgesAreInputs(c: OkCode, u: seq<Bit>, v: seq<Bit>)
    requires |u| == |v| == c.len && forall i :: 0 <= i < c.len ==> StepEdge(c, u, i) == StepEdge(c, v, i)
    ensures u == v
  {
    hide CodeOk, StateAt;
    forall i | 0 <= i < c.len ensures u[i] == v[i] {
      assert StepEdge(c, u, i) == StepEdge(c, v, i);
    }
  }

  lemma {:induction false} FirstEdgesAgree(c: OkCode, u: seq<Bit>, v: seq<Bit>, n: nat)
    requires ScanFirst(c, u) && ScanFirst(c, v) && SameWord(c, u, v) && n <= Steps(c)
    ensures forall i :: Steps(c) - n <= i < Steps(c) ==> StepEdge(c, u, i) == StepEdge(c, v, i)
  {
    hide CodeOk, StateAt, Emitted, StepEdge;
    if n > 0 {
      FirstEdgesAgree(c, u, v, n - 1);
      var t := Steps(c) - n;
      assert AgreeAfter(c, u, v, t) && AgreeAfter(c, v, u, t);
    }
  }

  /** No two inputs with the same word are both first. */
  lemma ScanFirstUnique(c: OkCode, u: seq<Bit>, v: seq<Bit>)
    requires ScanFirst(c, u) && ScanFirst(c, v) && SameWord(c, u, v)
    ensures u == v
  {
    hide CodeOk, StateAt, Emitted, StepEdge;
    Positive(c);
    FirstEdgesAgree(c, u, v, Steps(c));
    EdgesAreInputs(c, u, v);
  }

  /** The surviving edge of a traced input is its own edge. */
  lemma WinnerIsStep(c: OkCode, input: seq<Soft>, w: seq<Bit>, t: nat, q: nat)
    requires |w| == c.len && q < States(c) && Accumulated(c, input, t + 1)[q] < MAX_AE
    requires TracedInput(c, input, t + 1, q, true) <= w && StateAt(c, w, t) == Entering(c, input, t, q).src
    ensures Winner(c, input, t, q) == StepEdge(c, w, t)
  {
    hide CodeOk, States, Accumulated, StateAt, SymCost, InSym, Winner, StageAt, Entering;
    StageSize(c, input, t);
    EdgeAt(c, input, t, Winner(c, input, t, q));
  }

  /** The step that an input takes is an edge of the stage. */
  lemma StepIsEdge(c: OkCode, u: seq<Bit>, t: nat)
    requires |u| == c.len
    ensures var k := StepEdge(c, u, t);
            && k < Edges(c, t) && EdgeSrc(c, t, k) == StateAt(c, u, t)
            && EdgeOut(c, t, k) == OutAt(c, u, t) && EdgeDst(c, t, k) == StateAt(c, u, t + 1)
  {
    hide CodeOk, States, Next, Out, TermNext, TermOut;
  }

  lemma CostStep(c: OkCode, u: seq<Bit>, input: seq<Soft>, t: nat)
    requires |u| == c.len
    ensures CostTo(c, u, input, t + 1) == CostTo(c, u, input, t) + SymCost(c, OutAt(c, u, t), InSym(c, input, t), c.N)
  {
    hide SymCost, OutAt, InSym;
  }

  /** An input with the word of a survivor loses against it wherever the two part. */
  lemma SurvivorFirst(c: OkCode, w: seq<Bit>, v: seq<Bit>, t: nat)
    requires c.N <= 8 && Closes(c, w) && Closes(c, v) && SameWord(c, v, w) && t < Steps(c)
    requires var q := StateAt(c, w, t + 1);
             && StateAt(c, v, t + 1) == q && Accumulated(c, Clean(c, w), t + 1)[q] == 0
             && Winner(c, Clean(c, w), t, q) == StepEdge(c, w, t)
    ensures StepEdge(c, w, t) <= StepEdge(c, v, t)
  {
    hide CodeOk, States, StateAt, Emitted, Accumulated, CostTo, SymCost, InSym, OutAt;
    hide StepEdge, EdgeSrc, EdgeOut, EdgeDst, StageAt, Entering, Winner, Undisturbed;
    var clean, k := Clean(c, w), StepEdge(c, v, t);
    assert Clean(c, v) == clean;
    CleanReached(c, v, t);
    CleanReached(c, v, t + 1);
    CostStep(c, v, clean, t);
    StepIsEdge(c, v, t);
    EdgeAt(c, clean, t, k);
    WinnerFirst(c, clean, t, StateAt(c, w, t + 1), k);
  }

  /** Tracing passes through the states of the input, and its steps are the surviving edges. */
  lemma {:induction false} TracedSteps(c: OkCode, input: seq<Soft>, w: seq<Bit>, t: nat, q: nat, i: nat)
    requires |w| == c.len && q < States(c) && Accumulated(c, input, t)[q] < MAX_AE && i < t
    requires TracedInput(c, input, t, q, true) <= w
    ensures var r := StateAt(c, w, i + 1);
            Accumulated(c, input, i + 1)[r] < MAX_AE && Winner(c, input, i, r) == StepEdge(c, w, i)
  {
    hide CodeOk, States, Accumulated, StateAt, CostTo, Winner, StepEdge, StageAt, Entering;
    var e := Entering(c, input, t - 1, q);
    TracedAttains(c, input, t, q, w);
    TracedAttains(c, input, t - 1, e.src, w);
    if i == t - 1 {
      WinnerIsStep(c, input, w, i, q);
    } else {
      TracedSteps(c, input, w, t - 1, e.src, i);
    }
  }

  /** Every survivor is first among the inputs with its word. */
  lemma SurvivorIsFirst(c: OkCode, input: seq<Soft>, w: seq<Bit>)
    requires c.N <= 8 && Alive(c, input) && w == TracedInput(c, input, Steps(c), 0, true) && Closes(c, w)
    ensures ScanFirst(c, w)
  {
    hide CodeOk, States, Accumulated, StateAt, Emitted, TracedInput, Winner, StepEdge, Clean;
    Positive(c);
    CleanTrace(c, input, w, Steps(c), 0);
    forall v, t | Closes(c, v) && SameWord(c, v, w) && 0 <= t < Steps(c) && AgreeAfter(c, v, w, t)
      ensures StepEdge(c, w, t) <= StepEdge(c, v, t)
    {
      AgreeMeets(c, v, w, t);
      CleanReached(c, w, t + 1);
      TracedSteps(c, Clean(c, w), w, Steps(c), 0, t);
      SurvivorFirst(c, w, v, t);
    }
  }

  /** The first input of a word is what the decoder finds for that word. */
  lemma FirstSurvives(c: OkCode, w: seq<Bit>)
    requires c.N <= 8 && ScanFirst(c, w)
    ensures Alive(c, Clean(c, w)) && Decoded(c, Clean(c, w)) == Guessed(c, w)
  {
    hide CodeOk, States, Accumulated, StateAt, Emitted, TracedInput, StepEdge, CostTo, Guessed, Decoded;
    CleanAlive(c, w);
    var b := BestInput(c, Clean(c, w));
    FreeIffSameWord(c, w, b, Steps(c));
    SurvivorIsFirst(c, Clean(c, w), b);
    ScanFirstUnique(c, b, w);
  }

  /** For one received word: the output is the guess for a first input of least cost, and attains
      that cost if the input is readable. */
  lemma DecodedIsGuess(c: OkCode, input: seq<Soft>) returns (w: seq<Bit>)
    requires c.N <= 8 && Alive(c, input)
    ensures ScanFirst(c, w) && CostTo(c, w, input, Steps(c)) == Accumulated(c, input, Steps(c))[0]
    ensures Decoded(c, input) == Guessed(c, w) && (Readable(c, w) ==> Attains(c, input))
  {
    hide CodeOk, Accumulated, StateAt, Emitted, TracedInput, CostTo, Guessed, Decoded, ScanFirst, Readable;
    w := BestInput(c, input);
    SurvivorIsFirst(c, input, w);
    GuessedWord(c, w);
    if Readable(c, w) {
      SameWordSameCost(c, Guessed(c, w), w, input, Steps(c));
    }
  }

  /** The decoder attains the least metric for every received word exactly if, of the inputs of
      every word, the first one is readable.  (Where it reads nothing, every input attains it.) */
  lemma AttainsIffReadable(c: OkCode)
    ensures (forall input :: Alive(c, input) ==> Attains(c, input))
            <==> 8 < c.N || forall w :: ScanFirst(c, w) ==> Readable(c, w)
  {
    hide CodeOk, Attains, Alive, Readable, Decoded, StateAt, SameWord, AgreeAfter, StepEdge;
    if 8 < c.N {
      forall input | Alive(c, input) ensures Attains(c, input) {
        WideAttains(c, input);
      }
    } else if forall w :: ScanFirst(c, w) ==> Readable(c, w) {
      forall input | Alive(c, input) ensures Attains(c, input) {
        var w := DecodedIsGuess(c, input);
      }
    }
    if c.N <= 8 && forall input :: Alive(c, input) ==> Attains(c, input) {
      forall w | ScanFirst(c, w) ensures Readable(c, w) {
        AttainsReadable(c, w);
      }
    }
  }

  lemma WideAttains(c: OkCode, input: seq<Soft>)
    requires 8 < c.N && Alive(c, input)
    ensures Attains(c, input)
  {
    hide CodeOk, Accumulated, StateAt, CostTo, TracedInput, Guessed, Decoded;
    var w := BestInput(c, input);
    WideReadsNothing(c, w, Decoded(c, input), input, Steps(c));
  }

  lemma AttainsReadable(c: OkCode, w: seq<Bit>)
    requires c.N <= 8 && ScanFirst(c, w)
    requires forall input :: Alive(c, input) ==> Attains(c, input)
    ensures Readable(c, w)
  {
    hide CodeOk, StateAt, Emitted, Guessed, CostTo, Decoded, Accumulated, Readable;
    FirstSurvives(c, w);
    CleanAlive(c, w);
    FreeIffSameWord(c, w, Guessed(c, w), Steps(c));
    GuessedWord(c, w);
  }

  /** The word of one block comes back exactly if, of the inputs with that word, the first one is
      readable. */
  lemma LoopsBackIffReadable(c: OkCode, u: seq<Bit>)
    requires c.N <= 8 && Closes(c, u)
    ensures LoopsBack(c, u) <==> forall w :: ScanFirst(c, w) && SameWord(c, w, u) ==> Readable(c, w)
  {
    hide CodeOk, StateAt, Emitted, Guessed, CostTo, Decoded, Accumulated, Readable, TracedInput, Clean, StepEdge;
    CleanAlive(c, u);
    var w := BestInput(c, Clean(c, u));
    CleanWord(c, u, w);
    SurvivorIsFirst(c, Clean(c, u), w);
    GuessedWord(c, w);
    forall v | ScanFirst(c, v) && SameWord(c, v, u) ensures v == w {
      ScanFirstUnique(c, v, w);
    }
  }

  /** Only inputs with the word of `u` are free for its undisturbed word. */
  lemma CleanWord(c: OkCode, u: seq<Bit>, w: seq<Bit>)
    requires c.N <= 8 && |u| == |w| == c.len
    ensures CostTo(c, w, Clean(c, u), Steps(c)) == 0 <==> SameWord(c, w, u)
  {
    hide CodeOk, CostTo, Emitted;
    FreeIffSameWord(c, u, w, Steps(c));
  }

  // ---- sufficient conditions ----

  /** Every terminated input is readable. */
  ghost predicate Faithful(c: OkCode) {
    forall u :: Closes(c, u) ==> Readable(c, u)
  }

  /** In each state the two inputs lead to different states or give the same output. */
  lemma InvertibleIsFaithful(c: OkCode)
    requires Invertible(c)
    ensures Faithful(c)
  {
    hide CodeOk, SymbolBits;
  }

  /** A faithful code attains the least metric for every received word. */
  lemma FaithfulAttains(c: OkCode, input: seq<Soft>)
    requires Faithful(c) && Alive(c, input)
    ensures Attains(c, input)
  {
    hide CodeOk, Accumulated, StateAt, Emitted, CostTo, TracedInput, Guessed, Decoded, Readable;
    var w := BestInput(c, input);
    GuessedWord(c, w);
    SameWordSameCost(c, Guessed(c, w), w, input, Steps(c));
  }

  /** A code word tells the states. */
  ghost predicate WordsTellStates(c: OkCode) {
    forall u, v :: Closes(c, u) && Closes(c, v) && SameWord(c, u, v) ==> SameStates(c, u, v)
  }

  predicate SameStates(c: OkCode, u: seq<Bit>, v: seq<Bit>)
    requires |u| == |v| == c.len
  {
    forall t :: 0 <= t <= c.len ==> StateAt(c, u, t) == StateAt(c, v, t)
  }

  /** If the words tell the states, only faithful codes do. */
  lemma AttainsIffFaithful(c: OkCode)
    requires c.N <= 8 && WordsTellStates(c)
    ensures (forall input :: Alive(c, input) ==> Attains(c, input)) <==> Faithful(c)
  {
    hide CodeOk, Attains, Alive, StateAt, Emitted, Readable, SameStates;
    if Faithful(c) {
      forall input | Alive(c, input) ensures Attains(c, input) {
        FaithfulAttains(c, input);
      }
    }
    if forall input :: Alive(c, input) ==> Attains(c, input) {
      forall u | Closes(c, u) ensures Readable(c, u) {
        AttainsIsFaithful(c, u);
      }
    }
  }

  lemma AttainsIsFaithful(c: OkCode, u: seq<Bit>)
    requires c.N <= 8 && WordsTellStates(c) && Closes(c, u)
    requires forall input :: Alive(c, input) ==> Attains(c, input)
    ensures Readable(c, u)
  {
    hide CodeOk, StateAt, Emitted, Guessed, SameStates, CostTo, Decoded, Accumulated, TracedInput, Readable;
    LoopsBackIffAttains(c, u);
    CleanAlive(c, u);
    var w := BestInput(c, Clean(c, u));
    FreeIffSameWord(c, u, w, Steps(c));
    assert SameStates(c, u, w);
    SameGuess(c, u, w);
    GuessedWord(c, u);
  }

  lemma SameGuess(c: OkCode, u: seq<Bit>, v: seq<Bit>)
    requires |u| == |v| == c.len && SameStates(c, u, v)
    ensures Guessed(c, u) == Guessed(c, v)
  {
    hide CodeOk, StateAt, BitFor;
    forall i | 0 <= i < c.len ensures Guessed(c, u)[i] == Guessed(c, v)[i] {
    }
  }
}
