/**
  The convolutional codes of libosmocore/src/conv.c: any code tables, any puncture list, flush
  termination.  This module says what encoder and decoder compute; OsmoConv contains them.
 */
module OsmoCode {
  import opened Gf2
  import opened Powers
  import opened Trellis
  import V = Viterbi

  /** Separate tables for the flush steps are optional. */
  datatype TermTables = NoTables | Tables(output: seq<nat>, state: seq<nat>)

  /** `struct osmo_conv_code`.  `puncture` ends with a negative entry; the empty sequence stands
      for the null pointer. */
  datatype Code = Code(N: nat, K: nat, len: nat, nextOutput: seq<seq<nat>>, nextState: seq<seq<nat>>,
                       term: TermTables, puncture: seq<int>)

  function States(c: Code): (n: nat)
    ensures 0 < n
  {
    if c.K == 0 then 1 else Pow2(c.K - 1)
  }

  /** The table entries are octets. */
  predicate CodeOk(c: Code) {
    && 0 < c.N && 0 < c.K
    && |c.nextOutput| == |c.nextState| == States(c)
    && (forall s :: 0 <= s < States(c) ==> |c.nextOutput[s]| == 2 && |c.nextState[s]| == 2)
    && (forall s, b :: 0 <= s < States(c) && 0 <= b < 2 ==> c.nextState[s][b] < States(c) && c.nextState[s][b] < 256)
    && (forall s, b :: 0 <= s < States(c) && 0 <= b < 2 ==> c.nextOutput[s][b] < 256)
    && (c.term.Tables? ==>
          && |c.term.output| == |c.term.state| == States(c)
          && (forall s :: 0 <= s < States(c) ==> c.term.state[s] < States(c) && c.term.state[s] < 256)
          && (forall s :: 0 <= s < States(c) ==> c.term.output[s] < 256))
    && (c.puncture != [] ==>
          && c.puncture[|c.puncture| - 1] < 0
          && forall i :: 0 <= i < |c.puncture| - 1 ==> 0 <= c.puncture[i])
  }

  type OkCode = c: Code | CodeOk(c) witness Code(1, 1, 0, [[0, 0]], [[0, 0]], NoTables, [])

  lemma Positive(c: OkCode)
    ensures 0 < c.N && 0 < c.K
  {
  }

  function Next(c: OkCode, s: nat, b: Bit): (r: nat)
    requires s < States(c)
    ensures r < States(c)
  {
    c.nextState[s][b]
  }

  function Out(c: OkCode, s: nat, b: Bit): nat
    requires s < States(c)
  {
    c.nextOutput[s][b]
  }

  function TermNext(c: OkCode, s: nat): (r: nat)
    requires s < States(c)
    ensures r < States(c)
  {
    if c.term.Tables? then c.term.state[s] else Next(c, s, 0)
  }

  function TermOut(c: OkCode, s: nat): nat
    requires s < States(c)
  {
    if c.term.Tables? then c.term.output[s] else Out(c, s, 0)
  }

  /** Bit `j` of an output symbol, the highest first. */
  function OutBit(c: OkCode, out: nat, j: nat): Bit
    requires j < c.N
  {
    out / Pow2(c.N - 1 - j) % 2
  }

  /** The decoder's `m` at bit `j`: an octet, so the mask of a code with N > 8 starts out as 0. */
  function MaskAt(c: OkCode, j: nat): (m: nat)
    requires j <= c.N
    ensures m < 256
  {
    if j == 0 then Pow2(c.N - 1) % 256 else MaskAt(c, j - 1) / 2
  }

  /** What the decoder takes for bit `j` of an output symbol. */
  function ReadBit(c: OkCode, out: nat, j: nat): Bit
    requires j < c.N
  {
    var m := MaskAt(c, j);
    if m == 0 then 0 else out / m % 2
  }

  lemma {:induction false} WidePower(n: nat)
    requires 8 <= n
    ensures Pow2(n) % 256 == 0
    decreases n
  {
    OctetPowers();
    if n > 8 {
      WidePower(n - 1);
    }
  }

  lemma {:induction false} MaskIs(c: OkCode, j: nat)
    requires j < c.N
    ensures MaskAt(c, j) == if c.N <= 8 then Pow2(c.N - 1 - j) else 0
  {
    hide CodeOk;
    OctetPowers();
    if j > 0 {
      MaskIs(c, j - 1);
      assert c.N <= 8 ==> Pow2(c.N - j) == 2 * Pow2(c.N - 1 - j);
    } else if c.N > 8 {
      WidePower(c.N - 1);
    } else {
      SmallPower(c.N - 1);
    }
  }

  lemma SmallPower(n: nat)
    requires n < 8
    ensures 0 < Pow2(n) < 256
  {
    OctetPowers();
    assert n == 0 || n == 1 || n == 2 || n == 3 || n == 4 || n == 5 || n == 6 || n == 7;
  }

  lemma ReadIs(c: OkCode, out: nat, j: nat)
    requires j < c.N
    ensures ReadBit(c, out, j) == if c.N <= 8 then OutBit(c, out, j) else 0
  {
    hide CodeOk, Pow2, MaskAt;
    MaskIs(c, j);
  }

  /** The decoder reads what the encoder sends exactly if a symbol fits the mask. */
  lemma ReadsSentIff(c: OkCode)
    ensures (forall out, j :: 0 <= out < 256 && 0 <= j < c.N ==> ReadBit(c, out, j) == OutBit(c, out, j)) <==> c.N <= 8
  {
    hide CodeOk, Pow2, MaskAt, ReadBit, OutBit;
    forall out, j | 0 <= out < 256 && 0 <= j < c.N && c.N <= 8 ensures ReadBit(c, out, j) == OutBit(c, out, j) {
      ReadIs(c, out, j);
    }
    if c.N > 8 {
      ReadIs(c, 1, c.N - 1);
      LastBit(c);
      assert ReadBit(c, 1, c.N - 1) != OutBit(c, 1, c.N - 1);
    }
  }

  lemma LastBit(c: OkCode)
    ensures 0 < c.N && OutBit(c, 1, c.N - 1) == 1
  {
    assert Pow2(0) == 1;
  }

  // ---- puncturing ----

  /** Length of the puncture list. */
  function Punctures(c: OkCode): nat { if c.puncture == [] then 0 else |c.puncture| - 1 }

  function PunctureAt(c: OkCode, p: nat): int { if p < |c.puncture| then c.puncture[p] else -1 }

  /** The puncture index once the first `r` positions have passed. */
  function PIdx(c: OkCode, r: nat): (p: nat)
    ensures p <= r && p <= Punctures(c)
  {
    if r == 0 then 0
    else
      var p := PIdx(c, r - 1);
      if PunctureAt(c, p) == r - 1 then p + 1 else p
  }

  predicate Skipped(c: OkCode, r: nat) { PunctureAt(c, PIdx(c, r)) == r }

  /** How many of the first `r` positions are transmitted. */
  function Kept(c: OkCode, r: nat): nat { r - PIdx(c, r) }

  lemma KeptStep(c: OkCode, r: nat)
    ensures PIdx(c, r + 1) == PIdx(c, r) + (if Skipped(c, r) then 1 else 0)
    ensures Kept(c, r + 1) == Kept(c, r) + (if Skipped(c, r) then 0 else 1)
  {
  }

  lemma {:induction false} KeptMonotone(c: OkCode, r: nat, t: nat)
    requires r <= t
    ensures Kept(c, r) <= Kept(c, t)
    decreases t - r
  {
    if r < t {
      KeptStep(c, r);
      KeptMonotone(c, r + 1, t);
    }
  }

  /** The entries increase and all lie below `r`. */
  predicate SortedBelow(c: OkCode, r: nat) {
    && (forall i, j :: 0 <= i < j < Punctures(c) ==> c.puncture[i] < c.puncture[j])
    && forall i :: 0 <= i < Punctures(c) ==> c.puncture[i] < r
  }

  /** With a sorted list, the index has passed exactly the entries below `r`. */
  lemma {:induction false} SortedPasses(c: OkCode, r: nat, i: nat)
    requires i < Punctures(c) && forall i, j :: 0 <= i < j < Punctures(c) ==> c.puncture[i] < c.puncture[j]
    ensures i < PIdx(c, r) <==> c.puncture[i] < r
  {
    if r > 0 {
      SortedPasses(c, r - 1, i);
      var p := PIdx(c, r - 1);
      if p < Punctures(c) {
        SortedPasses(c, r - 1, p);
      }
    }
  }

  /** Whatever the list, the entries that the index has passed increase. */
  lemma {:induction false} PassedIncrease(c: OkCode, r: nat, i: nat)
    requires i < PIdx(c, r)
    ensures c.puncture[i] < r && forall h :: 0 <= h < i ==> c.puncture[h] < c.puncture[i]
  {
    var p := PIdx(c, r - 1);
    if i < p {
      PassedIncrease(c, r - 1, i);
    } else {
      forall h | 0 <= h < i ensures c.puncture[h] < c.puncture[i] {
        PassedIncrease(c, r - 1, h);
      }
    }
  }

  /** All entries are used exactly when the list is sorted and in range. */
  lemma AllUsedIffSorted(c: OkCode, r: nat)
    ensures PIdx(c, r) == Punctures(c) <==> SortedBelow(c, r)
  {
    hide PIdx;
    if SortedBelow(c, r) && PIdx(c, r) < Punctures(c) {
      SortedPasses(c, r, PIdx(c, r));
      assert false;
    }
    if PIdx(c, r) == Punctures(c) {
      forall i | 0 <= i < Punctures(c)
        ensures c.puncture[i] < r && forall h :: 0 <= h < i ==> c.puncture[h] < c.puncture[i]
      {
        PassedIncrease(c, r, i);
      }
    }
  }

  /** With a sorted list exactly the listed positions are skipped. */
  lemma SkippedIff(c: OkCode, r: nat, n: nat)
    requires SortedBelow(c, n)
    ensures Skipped(c, r) <==> exists i :: 0 <= i < Punctures(c) && c.puncture[i] == r
  {
    hide PIdx;
    var p := PIdx(c, r);
    if p < Punctures(c) {
      SortedPasses(c, r, p);
    }
    forall i | 0 <= i < Punctures(c) && c.puncture[i] == r ensures Skipped(c, r) {
      SortedPasses(c, r, i);
      PassedIs(c, r, i);
    }
    ListEnd(c);
  }

  lemma PassedIs(c: OkCode, r: nat, i: nat)
    requires i < Punctures(c) && c.puncture[i] == r && PIdx(c, r) <= i
    requires forall i, j :: 0 <= i < j < Punctures(c) ==> c.puncture[i] < c.puncture[j]
    ensures PIdx(c, r) == i
  {
    hide PIdx;
    if PIdx(c, r) < i {
      SortedPasses(c, r, PIdx(c, r));
    }
  }

  /** The list ends at its first negative entry. */
  lemma ListEnd(c: OkCode)
    ensures c.puncture != [] ==>
              && c.puncture[Punctures(c)] < 0
              && forall i :: 0 <= i < Punctures(c) ==> 0 <= c.puncture[i]
  {
  }

  function KeptBelow(c: OkCode, r: nat): set<nat> { set i: nat | 0 <= i < r && !Skipped(c, i) }

  /** A transmitted bit stands behind all transmitted ones of lower positions. */
  lemma {:induction false} KeptCounts(c: OkCode, r: nat)
    ensures Kept(c, r) == |KeptBelow(c, r)|
  {
    hide Skipped, Kept;
    if r == 0 {
      assert KeptBelow(c, 0) == {};
      assert Kept(c, 0) == 0 by { NothingKept(c); }
    } else {
      KeptCounts(c, r - 1);
      KeptStep(c, r - 1);
      var below: set<nat> := KeptBelow(c, r - 1);
      assert KeptBelow(c, r) == if Skipped(c, r - 1) then below else below + {r - 1};
    }
  }

  lemma NothingKept(c: OkCode)
    ensures Kept(c, 0) == 0
  {
  }

  // ---- what is sent ----

  /** Data bits followed by K - 1 flush steps. */
  function Steps(c: OkCode): nat { c.len + c.K - 1 }

  lemma KeptFits(c: OkCode, t: nat)
    requires t <= Steps(c)
    ensures Kept(c, t * c.N) <= Kept(c, Steps(c) * c.N)
  {
    hide Kept;
    assert t * c.N <= Steps(c) * c.N;
    KeptMonotone(c, t * c.N, Steps(c) * c.N);
  }

  function StateAt(c: OkCode, u: seq<Bit>, t: nat): (s: nat)
    requires |u| == c.len
    ensures s < States(c)
  {
    if t == 0 then 0
    else if t <= c.len then Next(c, StateAt(c, u, t - 1), u[t - 1])
    else TermNext(c, StateAt(c, u, t - 1))
  }

  function OutAt(c: OkCode, u: seq<Bit>, t: nat): nat
    requires |u| == c.len
  {
    if t < c.len then Out(c, StateAt(c, u, t), u[t]) else TermOut(c, StateAt(c, u, t))
  }

  /** The transmitted ones among the first `j` bits of a symbol that starts at position `r`. */
  function SymbolBits(c: OkCode, r: nat, out: nat, j: nat): (bits: seq<Bit>)
    requires j <= c.N
  {
    if j == 0 then []
    else SymbolBits(c, r, out, j - 1) + (if Skipped(c, r + j - 1) then [] else [OutBit(c, out, j - 1)])
  }

  /** The transmitted bits of the first `t` steps. */
  function Emitted(c: OkCode, u: seq<Bit>, t: nat): (bits: seq<Bit>)
    requires |u| == c.len
  {
    if t == 0 then [] else Emitted(c, u, t - 1) + SymbolBits(c, (t - 1) * c.N, OutAt(c, u, t - 1), c.N)
  }

  lemma {:induction false} SymbolBitsLength(c: OkCode, r: nat, out: nat, j: nat)
    requires j <= c.N
    ensures Kept(c, r + j) == Kept(c, r) + |SymbolBits(c, r, out, j)|
  {
    hide PIdx, Skipped, Kept;
    if j > 0 {
      SymbolBitsLength(c, r, out, j - 1);
      KeptStep(c, r + j - 1);
    }
  }

  lemma NextSymbol(i: nat, n: nat)
    ensures i * n + n == (i + 1) * n
  {
  }

  lemma KeptStart(c: OkCode)
    ensures Kept(c, 0 * c.N) == 0
  {
  }

  lemma {:induction false} EmittedLength(c: OkCode, u: seq<Bit>, t: nat)
    requires |u| == c.len
    ensures |Emitted(c, u, t)| == Kept(c, t * c.N)
  {
    hide CodeOk, Skipped, OutAt, SymbolBits, Kept;
    if t == 0 {
      KeptStart(c);
    } else {
      EmittedLength(c, u, t - 1);
      SymbolBitsLength(c, (t - 1) * c.N, OutAt(c, u, t - 1), c.N);
      NextSymbol(t - 1, c.N);
    }
  }

  /** Where bit `j` of step `i` ends up. */
  lemma {:induction false} SymbolBitAt(c: OkCode, r: nat, out: nat, j: nat, n: nat)
    requires j < n <= c.N && !Skipped(c, r + j)
    ensures var k := Kept(c, r + j) - Kept(c, r);
            0 <= k < |SymbolBits(c, r, out, n)| && SymbolBits(c, r, out, n)[k] == OutBit(c, out, j)
  {
    hide PIdx, Skipped, Kept, OutBit;
    if j == n - 1 {
      SymbolBitsLength(c, r, out, j);
    } else {
      SymbolBitAt(c, r, out, j, n - 1);
    }
  }

  lemma {:induction false} EmittedBitAt(c: OkCode, u: seq<Bit>, i: nat, j: nat, t: nat)
    requires |u| == c.len && i < t && j < c.N && !Skipped(c, i * c.N + j)
    ensures var k := Kept(c, i * c.N + j);
            k < |Emitted(c, u, t)| && Emitted(c, u, t)[k] == OutBit(c, OutAt(c, u, i), j)
  {
    hide PIdx, Skipped, Kept, OutBit, OutAt, SymbolBits;
    if i == t - 1 {
      EmittedLength(c, u, i);
      SymbolBitAt(c, i * c.N, OutAt(c, u, i), j, c.N);
    } else {
      EmittedBitAt(c, u, i, j, t - 1);
    }
  }

  // ---- what a received word costs ----

  type Soft = V.Soft

  function SoftAt(input: seq<Soft>, i: nat): Soft { if i < |input| then input[i] else 0 }

  /** What the decoder takes for bit `j` of step `t`: 0 (undefined) where the bit is punctured. */
  function InBit(c: OkCode, input: seq<Soft>, t: nat, j: nat): Soft {
    var r := t * c.N + j;
    if Skipped(c, r) then 0 else SoftAt(input, Kept(c, r))
  }

  function InSym(c: OkCode, input: seq<Soft>, t: nat): (ins: seq<Soft>)
    ensures |ins| == c.N
  {
    seq(c.N, j requires 0 <= j => InBit(c, input, t, j))
  }

  /** Undefined bits cost nothing. */
  function BitCost(x: Soft, b: Bit): nat { if x != 0 then V.Diff(x, V.Expected(b)) else 0 }

  function SymCost(c: OkCode, out: nat, ins: seq<Soft>, j: nat): nat
    requires |ins| == c.N && j <= c.N
  {
    if j == 0 then 0 else SymCost(c, out, ins, j - 1) + BitCost(ins[j - 1], ReadBit(c, out, j - 1))
  }

  /** Accumulated cost of assuming that `u` was sent, after `t` steps. */
  function CostTo(c: OkCode, u: seq<Bit>, input: seq<Soft>, t: nat): nat
    requires |u| == c.len
  {
    if t == 0 then 0
    else CostTo(c, u, input, t - 1) + SymCost(c, OutAt(c, u, t - 1), InSym(c, input, t - 1), c.N)
  }

  lemma BitCostBound(x: Soft, b: Bit)
    ensures BitCost(x, b) <= 127
  {
    V.SquareBound(x - V.Expected(b), 255);
  }

  lemma {:induction false} SymCostBound(c: OkCode, out: nat, ins: seq<Soft>, j: nat)
    requires |ins| == c.N && j <= c.N
    ensures SymCost(c, out, ins, j) <= 127 * j
  {
    hide BitCost, ReadBit;
    if j > 0 {
      SymCostBound(c, out, ins, j - 1);
      BitCostBound(ins[j - 1], ReadBit(c, out, j - 1));
    }
  }

  lemma {:induction false} CostBound(c: OkCode, u: seq<Bit>, input: seq<Soft>, t: nat)
    requires |u| == c.len
    ensures CostTo(c, u, input, t) <= 127 * (c.N * t)
  {
    hide SymCost, OutAt, InSym;
    if t > 0 {
      CostBound(c, u, input, t - 1);
      SymCostBound(c, OutAt(c, u, t - 1), InSym(c, input, t - 1), c.N);
      assert c.N * t == c.N * (t - 1) + c.N;
    }
  }

  // ---- the trellis ----

  function ScanStage(c: OkCode, ins: seq<Soft>): (st: Stage)
    requires |ins| == c.N
    ensures |st| == 2 * States(c) && StageOk(st, States(c))
  {
    seq(2 * States(c), i requires 0 <= i < 2 * States(c) =>
      Edge(i / 2, Next(c, i / 2, i % 2), i % 2, SymCost(c, Out(c, i / 2, i % 2), ins, c.N)))
  }

  function FlushStage(c: OkCode, ins: seq<Soft>): (st: Stage)
    requires |ins| == c.N
    ensures |st| == States(c) && StageOk(st, States(c))
  {
    seq(States(c), s requires 0 <= s < States(c) => Edge(s, TermNext(c, s), 0, SymCost(c, TermOut(c, s), ins, c.N)))
  }

  function StageAt(c: OkCode, input: seq<Soft>, t: nat): (st: Stage)
    ensures StageOk(st, States(c))
  {
    if t < c.len then ScanStage(c, InSym(c, input, t)) else FlushStage(c, InSym(c, input, t))
  }

  /** The first `t` stages. */
  function TrellisTo(c: OkCode, input: seq<Soft>, t: nat): (tr: seq<Stage>)
    ensures |tr| == t && TrellisOk(tr, States(c))
  {
    seq(t, i requires 0 <= i => StageAt(c, input, i))
  }

  lemma TrellisStep(c: OkCode, input: seq<Soft>, t: nat)
    ensures TrellisTo(c, input, t + 1)[..t] == TrellisTo(c, input, t)
    ensures TrellisTo(c, input, t + 1)[t] == StageAt(c, input, t)
  {
    hide StageAt;
  }

  lemma ScanEdge(c: OkCode, ins: seq<Soft>, s: nat, b: Bit)
    requires |ins| == c.N && s < States(c)
    ensures ScanStage(c, ins)[2 * s + b] == Edge(s, Next(c, s, b), b, SymCost(c, Out(c, s, b), ins, c.N))
  {
    hide Next, Out, SymCost, States;
    assert (2 * s + b) / 2 == s && (2 * s + b) % 2 == b;
  }

  /** The accumulated errors after `t` steps. */
  function Accumulated(c: OkCode, input: seq<Soft>, t: nat): (m: seq<nat>)
    ensures |m| == States(c) && forall q :: 0 <= q < States(c) ==> m[q] <= MAX_AE
  {
    Metrics(TrellisTo(c, input, t), States(c), MAX_AE)
  }

  lemma AccumulatedStart(c: OkCode, input: seq<Soft>)
    ensures Accumulated(c, input, 0) == seq(States(c), q => if q == 0 then 0 else MAX_AE)
  {
  }

  /** The edge by which the survivor enters `q` in step `t`. */
  function Entering(c: OkCode, input: seq<Soft>, t: nat, q: nat): (e: Edge)
    requires q < States(c) && Accumulated(c, input, t + 1)[q] < MAX_AE
    ensures e in StageAt(c, input, t) && e.dst == q && e.src < States(c)
    ensures Accumulated(c, input, t)[e.src] < MAX_AE
    ensures Accumulated(c, input, t + 1)[q] == Accumulated(c, input, t)[e.src] + e.cost
  {
    TrellisStep(c, input, t);
    LastEdge(TrellisTo(c, input, t + 1), States(c), MAX_AE, q)
  }

  /** One step of the decoder: the survivors of the last scan are the next metrics. */
  lemma StageComplete(c: OkCode, input: seq<Soft>, t: nat, q: nat)
    requires q < States(c)
    ensures var st := StageAt(c, input, t);
            var r := Scan(st, Accumulated(c, input, t), MAX_AE, |st|)[q];
            && r.metric == Accumulated(c, input, t + 1)[q]
            && (r.metric < MAX_AE ==> 0 <= r.edge < |st| && st[r.edge] == Entering(c, input, t, q))
  {
    hide StageAt, States;
    TrellisStep(c, input, t);
  }

  lemma EdgeLeast(c: OkCode, input: seq<Soft>, t: nat, k: nat)
    requires k < |StageAt(c, input, t)|
    ensures var e := StageAt(c, input, t)[k];
            e.src < States(c) && e.dst < States(c)
            && Accumulated(c, input, t + 1)[e.dst] <= Accumulated(c, input, t)[e.src] + e.cost
  {
    hide StageAt, States, CodeOk;
    TrellisStep(c, input, t);
    var st := StageAt(c, input, t);
    RelaxLeast(st, Accumulated(c, input, t), MAX_AE, st[k].dst, |st|, k);
  }

  /** No input is cheaper than the metric of the state it leads to. */
  lemma {:induction false} AccumulatedLeast(c: OkCode, u: seq<Bit>, input: seq<Soft>, t: nat)
    requires |u| == c.len
    ensures Accumulated(c, input, t)[StateAt(c, u, t)] <= CostTo(c, u, input, t)
  {
    hide States, CodeOk, SymCost, InSym, ScanStage, FlushStage, Next, Out, TermNext, TermOut, Accumulated;
    if t == 0 {
      AccumulatedStart(c, input);
    } else {
      AccumulatedLeast(c, u, input, t - 1);
      var s, ins := StateAt(c, u, t - 1), InSym(c, input, t - 1);
      if t <= c.len {
        ScanEdge(c, ins, s, u[t - 1]);
        EdgeLeast(c, input, t - 1, 2 * s + u[t - 1]);
      } else {
        FlushEdge(c, ins, s);
        EdgeLeast(c, input, t - 1, s);
      }
    }
  }

  lemma FlushEdge(c: OkCode, ins: seq<Soft>, s: nat)
    requires |ins| == c.N && s < States(c)
    ensures FlushStage(c, ins)[s] == Edge(s, TermNext(c, s), 0, SymCost(c, TermOut(c, s), ins, c.N))
  {
  }

  // ---- traceback ----

  /** The traceback tells the bit by looking where a 0 would have led. */
  function BitFor(c: OkCode, p: nat, q: nat): Bit
    requires p < States(c)
  {
    if Next(c, p, 0) == q then 0 else 1
  }

  /** What the traceback relies on: a state transition tells the bit, or at least its output. */
  predicate Invertible(c: OkCode) {
    forall s :: 0 <= s < States(c) ==> Next(c, s, 0) != Next(c, s, 1) || Out(c, s, 0) == Out(c, s, 1)
  }

  lemma StageMember(c: OkCode, input: seq<Soft>, t: nat, e: Edge)
    requires e in StageAt(c, input, t)
    ensures e.src < States(c)
    ensures t < c.len ==> e.bit < 2 && e.dst == Next(c, e.src, e.bit)
                          && e.cost == SymCost(c, Out(c, e.src, e.bit), InSym(c, input, t), c.N)
    ensures c.len <= t ==>
              && e.dst == TermNext(c, e.src)
              && e.cost == SymCost(c, TermOut(c, e.src), InSym(c, input, t), c.N)
  {
    hide States, SymCost, InSym, Next, Out, TermNext, TermOut;
    var st := StageAt(c, input, t);
    var i :| 0 <= i < |st| && st[i] == e;
  }

  /** The bit of the surviving transition into `q` (`exact`), or as the decoder guesses it. */
  function TracedBit(c: OkCode, input: seq<Soft>, t: nat, q: nat, exact: bool): Bit
    requires t < c.len && q < States(c) && Accumulated(c, input, t + 1)[q] < MAX_AE
  {
    hide States, CodeOk, Accumulated, StageAt, Entering, Next;
    var e := Entering(c, input, t, q);
    StageMember(c, input, t, e);
    if exact then e.bit else BitFor(c, e.src, q)
  }

  /** The input read backwards from state `q` after `t` steps. */
  function TracedInput(c: OkCode, input: seq<Soft>, t: nat, q: nat, exact: bool): (u: seq<Bit>)
    requires q < States(c) && Accumulated(c, input, t)[q] < MAX_AE
    ensures |u| == if t <= c.len then t else c.len
  {
    hide States, CodeOk, Accumulated, StageAt, Entering, TracedBit, Next;
    if t == 0 then []
    else
      var p := Entering(c, input, t - 1, q).src;
      var u := TracedInput(c, input, t - 1, p, exact);
      if t <= c.len then u + [TracedBit(c, input, t - 1, q, exact)] else u
  }

  /** The exact input leads to `q`, at exactly the metric of `q`. */
  lemma {:induction false} TracedAttains(c: OkCode, input: seq<Soft>, t: nat, q: nat, u: seq<Bit>)
    requires q < States(c) && Accumulated(c, input, t)[q] < MAX_AE
    requires |u| == c.len && TracedInput(c, input, t, q, true) <= u
    ensures StateAt(c, u, t) == q && CostTo(c, u, input, t) == Accumulated(c, input, t)[q]
  {
    hide States, SymCost, InSym, Next, Out, TermNext, TermOut, Accumulated, StageAt, Entering;
    if t == 0 {
      AccumulatedStart(c, input);
    } else {
      var e := Entering(c, input, t - 1, q);
      StageMember(c, input, t - 1, e);
      TracedAttains(c, input, t - 1, e.src, u);
    }
  }

  /** The one-state code that sends its input bit as it is. */
  const UNCODED := Code(1, 1, 1, [[0, 1]], [[0, 0]], NoTables, [])

  lemma UncodedFacts()
    ensures CodeOk(UNCODED) && States(UNCODED) == 1
    ensures Next(UNCODED, 0, 0) == 0 && Next(UNCODED, 0, 1) == 0 && Out(UNCODED, 0, 0) == 0 && Out(UNCODED, 0, 1) == 1
    ensures !Skipped(UNCODED, 0) && Kept(UNCODED, 0) == 0
  {
  }

  lemma UncodedCost(b: Bit)
    ensures CodeOk(UNCODED) && CostTo(UNCODED, [b], [-127], 1) == 126 - 126 * b
  {
    hide CodeOk, CostTo, SymCost, Skipped, Kept, Next, Out, States;
    UncodedFacts();
    var c: OkCode, u: seq<Bit>, input: seq<Soft> := UNCODED, [b], [-127];
    CostOne(c, u, input);
    assert InSym(c, input, 0) == [-127] by { assert InBit(c, input, 0, 0) == -127; }
    OneBit(c, b, InSym(c, input, 0));
  }

  lemma OneBit(c: OkCode, b: Bit, ins: seq<Soft>)
    requires c.N == 1 && ins == [-127]
    ensures SymCost(c, b, ins, 1) == 126 - 126 * b
  {
    ReadIs(c, b, 0);
    assert OutBit(c, b, 0) == b;
    assert V.Diff(-127, 127) == 126;
    assert SymCost(c, b, ins, 0) == 0;
  }

  /** Without that condition the traceback can miss: a certain 1 is decoded as 0, although the
      metric of the true input is 0. */
  lemma NotInvertibleCanMiss()
    ensures CodeOk(UNCODED) && !Invertible(UNCODED) && States(UNCODED) == 1
    ensures Accumulated(UNCODED, [-127], 1)[0] == 0 && TracedInput(UNCODED, [-127], 1, 0, false) == [0]
    ensures CostTo(UNCODED, [0], [-127], 1) == 126 && CostTo(UNCODED, [1], [-127], 1) == 0
  {
    hide CodeOk, Accumulated, StageAt, Entering, CostTo;
    UncodedFacts();
    var c: OkCode, input: seq<Soft> := UNCODED, [-127];
    UncodedCost(0);
    UncodedCost(1);
    AccumulatedLeast(c, [1], input, 1);
    assert StateAt(c, [1], 1) < 1;
    assert TracedInput(c, input, 1, 0, false) == [TracedBit(c, input, 0, 0, false)] by {
      assert |TracedInput(c, input, 0, Entering(c, input, 0, 0).src, false)| == 0;
    }
  }

  lemma CostOne(c: OkCode, u: seq<Bit>, input: seq<Soft>)
    requires |u| == c.len == 1
    ensures CostTo(c, u, input, 1) == SymCost(c, Out(c, 0, u[0]), InSym(c, input, 0), c.N)
  {
    assert StateAt(c, u, 0) == 0;
    assert CostTo(c, u, input, 0) == 0;
  }

  // ---- undisturbed words ----

  /** The soft word that an undisturbed channel delivers. */
  function Undisturbed(bits: seq<Bit>): (input: seq<Soft>)
    ensures |input| == |bits|
  {
    seq(|bits|, i requires 0 <= i < |bits| => V.Expected(bits[i]))
  }

  lemma FreeIffEqual(a: Bit, b: Bit)
    ensures BitCost(V.Expected(a), b) == 0 <==> a == b
  {
  }

  lemma {:induction false} SymbolFreeIffEqual(c: OkCode, u: seq<Bit>, t: nat, out: nat, j: nat)
    requires |u| == c.len && t < Steps(c) && j <= c.N <= 8
    ensures SymCost(c, out, InSym(c, Undisturbed(Emitted(c, u, Steps(c))), t), j) == 0 <==>
            SymbolBits(c, t * c.N, out, j) == SymbolBits(c, t * c.N, OutAt(c, u, t), j)
  {
    hide CodeOk, PIdx, Skipped, Kept, OutBit, ReadBit, OutAt, Emitted, BitCost;
    if j > 0 {
      var word, r := Emitted(c, u, Steps(c)), t * c.N;
      var input, sent := Undisturbed(word), OutAt(c, u, t);
      SymbolFreeIffEqual(c, u, t, out, j - 1);
      ReadIs(c, out, j - 1);
      SymbolBitsLength(c, r, out, j - 1);
      SymbolBitsLength(c, r, sent, j - 1);
      if Skipped(c, r + j - 1) {
        Free(OutBit(c, out, j - 1));
        assert SymbolBits(c, r, out, j) == SymbolBits(c, r, out, j - 1);
        assert SymbolBits(c, r, sent, j) == SymbolBits(c, r, sent, j - 1);
      } else {
        EmittedBitAt(c, u, t, j - 1, Steps(c));
        FreeIffEqual(OutBit(c, sent, j - 1), OutBit(c, out, j - 1));
        AppendEqual(SymbolBits(c, r, out, j - 1), OutBit(c, out, j - 1),
                    SymbolBits(c, r, sent, j - 1), OutBit(c, sent, j - 1));
      }
    }
  }

  lemma Free(b: Bit)
    ensures BitCost(0, b) == 0
  {
  }

  lemma AppendEqual(a: seq<Bit>, x: Bit, b: seq<Bit>, y: Bit)
    requires |a| == |b|
    ensures a + [x] == b + [y] <==> a == b && x == y
  {
    if a + [x] == b + [y] {
      assert a == (a + [x])[..|a|] == (b + [y])[..|b|] == b;
      assert x == (a + [x])[|a|];
    }
  }

  /** Against an undisturbed word only the inputs with the very same transmitted bits are free. */
  lemma {:induction false} FreeIffSameWord(c: OkCode, u: seq<Bit>, v: seq<Bit>, t: nat)
    requires |u| == |v| == c.len && t <= Steps(c) && c.N <= 8
    ensures CostTo(c, v, Undisturbed(Emitted(c, u, Steps(c))), t) == 0 <==> Emitted(c, v, t) == Emitted(c, u, t)
  {
    hide CodeOk, OutAt, SymbolBits, SymCost, InSym, Kept, Undisturbed;
    if t > 0 {
      var a, b := Emitted(c, v, t - 1), Emitted(c, u, t - 1);
      FreeIffSameWord(c, u, v, t - 1);
      SymbolFreeIffEqual(c, u, t - 1, OutAt(c, v, t - 1), c.N);
      EmittedLength(c, u, t - 1);
      EmittedLength(c, v, t - 1);
      ConcatEqual(a, SymbolBits(c, (t - 1) * c.N, OutAt(c, v, t - 1), c.N),
                  b, SymbolBits(c, (t - 1) * c.N, OutAt(c, u, t - 1), c.N));
    }
  }

  lemma ConcatEqual(a: seq<Bit>, x: seq<Bit>, b: seq<Bit>, y: seq<Bit>)
    requires |a| == |b|
    ensures a + x == b + y <==> a == b && x == y
  {
    if a + x == b + y {
      assert a == (a + x)[..|a|] == (b + y)[..|b|] == b;
      assert x == (a + x)[|a|..] == (b + y)[|b|..] == y;
    }
  }

  lemma {:induction false} WideSymbol(c: OkCode, a: nat, b: nat, ins: seq<Soft>, j: nat)
    requires |ins| == c.N && j <= c.N && 8 < c.N
    ensures SymCost(c, a, ins, j) == SymCost(c, b, ins, j)
  {
    hide CodeOk, ReadBit, BitCost;
    if j > 0 {
      WideSymbol(c, a, b, ins, j - 1);
      ReadIs(c, a, j - 1);
      ReadIs(c, b, j - 1);
    }
  }

  /** With more than eight bits to a symbol the decoder reads nothing: all inputs cost the same. */
  lemma {:induction false} WideReadsNothing(c: OkCode, u: seq<Bit>, v: seq<Bit>, input: seq<Soft>, t: nat)
    requires |u| == |v| == c.len && 8 < c.N
    ensures CostTo(c, u, input, t) == CostTo(c, v, input, t)
  {
    hide CodeOk, SymCost, OutAt, InSym;
    if t > 0 {
      WideReadsNothing(c, u, v, input, t - 1);
      WideSymbol(c, OutAt(c, u, t - 1), OutAt(c, v, t - 1), InSym(c, input, t - 1), c.N);
    }
  }
}
