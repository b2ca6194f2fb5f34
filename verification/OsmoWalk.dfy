/**
  The codes of libosmocore/src/conv.c read directly off the fields of `struct osmo_conv_code`:
  the states that encoding an input walks through, what it sends and what a received word costs.
 */
module OsmoWalk {
  import opened Gf2
  import opened Powers
  import opened OsmoCode
  import opened OsmoExact
  import V = Viterbi

  /** `st` are the states of the encoder for the data `u`: from 0 on by the state table, in the
      flush steps by the termination table or, without one, as for zero bits. */
  predicate Walk(code: OkCode, u: seq<Bit>, st: seq<nat>) {
    && |u| == code.len && |st| == code.len + code.K && st[0] == 0
    && (forall i :: 0 <= i < |st| ==> st[i] < |code.nextState|)
    && (forall i :: 0 <= i < code.len ==> st[i + 1] == code.nextState[st[i]][u[i]])
    && (forall i :: code.len <= i < code.len + code.K - 1 ==>
          st[i + 1] == if code.term.Tables? then code.term.state[st[i]] else code.nextState[st[i]][0])
  }

  /** The output symbol of step `i`. */
  function Symbol(code: OkCode, u: seq<Bit>, st: seq<nat>, i: nat): nat
    requires Walk(code, u, st) && i < code.len + code.K - 1
  {
    if i < code.len then code.nextOutput[st[i]][u[i]]
    else if code.term.Tables? then code.term.output[st[i]] else code.nextOutput[st[i]][0]
  }

  /** Every transmitted bit is where it belongs: bit `j` of a symbol, the highest first. */
  predicate Sends(code: OkCode, u: seq<Bit>, st: seq<nat>, word: seq<Bit>)
    requires Walk(code, u, st)
  {
    && |word| == Kept(code, (code.len + code.K - 1) * code.N)
    && forall i, j :: 0 <= i < code.len + code.K - 1 && 0 <= j < code.N ==>
         SendsBit(code, Symbol(code, u, st, i), i, j, word)
  }

  /** Unless it is punctured. */
  predicate SendsBit(code: OkCode, symbol: nat, i: nat, j: nat, word: seq<Bit>)
    requires j < code.N
  {
    var r := i * code.N + j;
    !Skipped(code, r) ==> Kept(code, r) < |word| && word[Kept(code, r)] == symbol / Pow2(code.N - 1 - j) % 2
  }

  /** What a soft bit costs against an expected value of 127 for 0 and -127 for 1; 0 is undefined. */
  function SoftCost(x: int, bit: nat): int {
    var d := x - (if bit == 1 then -127 else 127);
    if x == 0 then 0 else d * d / 512
  }

  /** The soft bit received for position `r`: nothing where it is punctured. */
  function At(code: OkCode, input: seq<Soft>, r: nat): int {
    if Skipped(code, r) || |input| <= Kept(code, r) then 0 else input[Kept(code, r)]
  }

  /** The first `j` bits of a symbol at position `r`; the mask of the decoder has eight bits. */
  function BitsCost(code: OkCode, symbol: nat, input: seq<Soft>, r: nat, j: nat): int
    requires j <= code.N
  {
    if j == 0 then 0
    else
      var bit := if code.N <= 8 then symbol / Pow2(code.N - j) % 2 else 0;
      BitsCost(code, symbol, input, r, j - 1) + SoftCost(At(code, input, r + j - 1), bit)
  }

  /** The cost of the walk up to step `t`. */
  function WalkCost(code: OkCode, u: seq<Bit>, st: seq<nat>, input: seq<Soft>, t: nat): int
    requires Walk(code, u, st) && t <= code.len + code.K - 1
  {
    if t == 0 then 0
    else WalkCost(code, u, st, input, t - 1)
         + BitsCost(code, Symbol(code, u, st, t - 1), input, (t - 1) * code.N, code.N)
  }

  // ---- every input has one walk ----

  function StatesOf(code: OkCode, u: seq<Bit>): (st: seq<nat>)
    requires |u| == code.len
  {
    Positive(code);
    seq(code.len + code.K, t requires 0 <= t => StateAt(code, u, t))
  }

  lemma StatesWalk(code: OkCode, u: seq<Bit>)
    requires |u| == code.len
    ensures Walk(code, u, StatesOf(code, u))
  {
    Positive(code);
    var st := StatesOf(code, u);
    assert st[0] == StateAt(code, u, 0) == 0;
    forall i | 0 <= i < code.len + code.K - 1
      ensures st[i] < |code.nextState| && st[i + 1] == if i < code.len then code.nextState[st[i]][u[i]]
                       else if code.term.Tables? then code.term.state[st[i]] else code.nextState[st[i]][0]
    {
      assert st[i + 1] == StateAt(code, u, i + 1) && st[i] == StateAt(code, u, i);
    }
  }

  lemma {:induction false} WalkStates(code: OkCode, u: seq<Bit>, st: seq<nat>, t: nat)
    requires Walk(code, u, st) && t < |st|
    ensures st[t] == StateAt(code, u, t)
  {
    if t > 0 {
      WalkStates(code, u, st, t - 1);
      assert st[(t - 1) + 1] == st[t];
    }
  }

  lemma SymbolIs(code: OkCode, u: seq<Bit>, st: seq<nat>, i: nat)
    requires Walk(code, u, st) && i < code.len + code.K - 1
    ensures Symbol(code, u, st, i) == OutAt(code, u, i)
  {
    WalkStates(code, u, st, i);
  }

  // ---- the encoder and the decoder ----

  /** What the encoder emits is what the walk sends. */
  lemma EmittedSends(code: OkCode, u: seq<Bit>, st: seq<nat>)
    requires Walk(code, u, st)
    ensures Sends(code, u, st, Emitted(code, u, Steps(code)))
  {
    hide CodeOk, Walk, Skipped, Kept, OutAt, Symbol;
    Positive(code);
    WalkLength(code, u, st);
    var n := Steps(code);
    var word := Emitted(code, u, n);
    EmittedLength(code, u, n);
    forall i, j | 0 <= i < n && 0 <= j < code.N ensures SendsBit(code, Symbol(code, u, st, i), i, j, word) {
      SymbolIs(code, u, st, i);
      if !Skipped(code, i * code.N + j) {
        EmittedBitAt(code, u, i, j, n);
      }
    }
  }

  lemma WalkLength(code: OkCode, u: seq<Bit>, st: seq<nat>)
    requires Walk(code, u, st)
    ensures |u| == code.len && |st| == code.len + code.K
  {
  }

  lemma SoftCostIs(x: Soft, bit: Bit)
    ensures SoftCost(x, bit) == BitCost(x, bit)
  {
    V.SquareBound(x - V.Expected(bit), 255);
  }

  lemma {:induction false} BitsCostIs(code: OkCode, symbol: nat, input: seq<Soft>, t: nat, j: nat)
    requires j <= code.N
    ensures BitsCost(code, symbol, input, t * code.N, j) == SymCost(code, symbol, InSym(code, input, t), j)
  {
    hide CodeOk, Skipped, Kept, BitCost, SoftCost, ReadBit;
    if j > 0 {
      BitsCostIs(code, symbol, input, t, j - 1);
      ReadIs(code, symbol, j - 1);
      SoftCostIs(InBit(code, input, t, j - 1), ReadBit(code, symbol, j - 1));
    }
  }

  lemma {:induction false} WalkCostIs(code: OkCode, u: seq<Bit>, st: seq<nat>, input: seq<Soft>, t: nat)
    requires Walk(code, u, st) && t <= Steps(code)
    ensures WalkCost(code, u, st, input, t) == CostTo(code, u, input, t)
  {
    hide CodeOk, Symbol, OutAt, BitsCost, SymCost, InSym;
    if t > 0 {
      WalkCostIs(code, u, st, input, t - 1);
      SymbolIs(code, u, st, t - 1);
      BitsCostIs(code, Symbol(code, u, st, t - 1), input, t - 1, code.N);
    }
  }

  /** Encoding: the walk of an input and what it sends. */
  lemma Encodes(code: OkCode, u: seq<Bit>)
    requires |u| == code.len
    ensures exists st :: Walk(code, u, st) && Sends(code, u, st, Emitted(code, u, Steps(code)))
  {
    hide Walk, Sends, Emitted;
    StatesWalk(code, u);
    EmittedSends(code, u, StatesOf(code, u));
  }

  // ---- terminated walks ----

  predicate Terminated(code: OkCode, u: seq<Bit>, st: seq<nat>) {
    Walk(code, u, st) && st[|st| - 1] == 0
  }

  /** The bits that the traceback reads off the states. */
  predicate ReadOff(code: OkCode, u: seq<Bit>, st: seq<nat>, output: seq<Bit>)
    requires Walk(code, u, st)
  {
    && |output| == code.len
    && forall i :: 0 <= i < code.len ==> output[i] == if code.nextState[st[i]][0] == st[i + 1] then 0 else 1
  }

  /** Decoding: no terminated walk is cheaper, and the output is read off one of that cost. */
  ghost predicate Finds(code: OkCode, input: seq<Soft>, output: seq<Bit>, cost: nat) {
    && (forall u, st :: Terminated(code, u, st) ==> cost <= WalkCost(code, u, st, input, code.len + code.K - 1))
    && exists u, st :: Terminated(code, u, st) && ReadOff(code, u, st, output)
                       && cost == WalkCost(code, u, st, input, code.len + code.K - 1)
  }

  lemma ClosesIs(code: OkCode, u: seq<Bit>, st: seq<nat>)
    requires Walk(code, u, st)
    ensures |u| == code.len && (Closes(code, u) <==> Terminated(code, u, st))
  {
    WalkStates(code, u, st, |st| - 1);
  }

  lemma GuessedReadOff(code: OkCode, u: seq<Bit>, st: seq<nat>)
    requires Walk(code, u, st)
    ensures |u| == code.len && ReadOff(code, u, st, Guessed(code, u))
  {
    Positive(code);
    forall i | 0 <= i < code.len
      ensures Guessed(code, u)[i] == if code.nextState[st[i]][0] == st[i + 1] then 0 else 1
    {
      WalkStates(code, u, st, i);
      WalkStates(code, u, st, i + 1);
    }
  }

  lemma Decodes(code: OkCode, input: seq<Soft>, w: seq<Bit>, cost: nat)
    requires Closes(code, w) && cost == CostTo(code, w, input, Steps(code))
    requires forall u :: Closes(code, u) ==> cost <= CostTo(code, u, input, Steps(code))
    ensures Finds(code, input, Guessed(code, w), cost)
  {
    hide CodeOk, Walk, WalkCost, CostTo, StateAt, Guessed, ReadOff;
    var n, own := Steps(code), StatesOf(code, w);
    Positive(code);
    StatesWalk(code, w);
    ClosesIs(code, w, own);
    GuessedReadOff(code, w, own);
    WalkCostIs(code, w, own, input, n);
    forall u, st | Terminated(code, u, st) ensures cost <= WalkCost(code, u, st, input, n) {
      ClosesIs(code, u, st);
      WalkCostIs(code, u, st, input, n);
    }
  }
}
