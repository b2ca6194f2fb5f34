/**
  Encoder and Viterbi decoder of libosmocore/src/conv.c, for flush terminated codes.
 */
module OsmoConv {
  import opened Gf2
  import opened Powers
  import opened Slices
  import opened Trellis
  import opened OsmoCode
  import opened OsmoExact
  import opened OsmoWalk
  import V = Viterbi

  datatype Termination = Flush | Truncation | TailBiting

  /** `osmo_conv_get_output_length`; without a length of its own the block has that of the code. */
  method GetOutputLength(code: OkCode, len: int, term: Termination) returns (outLen: int)
    ensures var steps := (if len <= 0 then code.len else len) + (if term == Flush then code.K - 1 else 0);
            outLen == code.N * steps - Punctures(code)
  {
    hide CodeOk;
    Positive(code);
    var inLen := if len <= 0 then code.len else len;
    outLen := inLen * code.N;
    if term == Flush {
      outLen := outLen + code.N * (code.K - 1);
      assert outLen == code.N * (inLen + (code.K - 1));
    }
    ListEnd(code);
    if code.puncture != [] {
      var pbits := 0;
      while code.puncture[pbits] >= 0
        invariant 0 <= pbits <= Punctures(code)
        decreases Punctures(code) - pbits
      {
        pbits := pbits + 1;
      }
      outLen := outLen - pbits;
    }
  }

  /** The announced length is the number of emitted bits exactly when the puncture list is sorted
      and within the block. */
  lemma OutputLengthExact(code: OkCode, u: seq<Bit>)
    requires |u| == code.len
    ensures |Emitted(code, u, Steps(code))| == code.N * Steps(code) - Punctures(code)
            <==> SortedBelow(code, code.N * Steps(code))
  {
    hide PIdx, Emitted, SortedBelow;
    EmittedLength(code, u, Steps(code));
    AllUsedIffSorted(code, code.N * Steps(code));
  }

  // ---- encoder ----

  /** `struct osmo_conv_encoder`; `data` is the block that is being encoded. */
  class Encoder {
    const code: OkCode
    ghost const data: seq<Bit>
    var iIdx: nat
    var pIdx: nat
    var state: nat

    ghost predicate Valid()
      reads this
    {
      && |data| == code.len && state < States(code)
      && pIdx == PIdx(code, iIdx * code.N) && state == StateAt(code, data, iIdx)
    }

    constructor (code: OkCode, ghost data: seq<Bit>)
      requires |data| == code.len
      ensures Valid() && iIdx == 0 && this.code == code && this.data == data
    {
      this.code := code;
      this.data := data;
      iIdx := 0;
      pIdx := 0;
      state := 0;
    }

    /** `_conv_encode_do_output` */
    method DoOutput(out: nat) returns (output: seq<Bit>)
      requires pIdx == PIdx(code, iIdx * code.N)
      modifies this`pIdx
      ensures pIdx == PIdx(code, (iIdx + 1) * code.N)
      ensures output == SymbolBits(code, iIdx * code.N, out, code.N)
    {
      hide *;
      NextSymbol(iIdx, code.N);
      output := OutputFrom(iIdx * code.N, out);
    }

    /** Its loop, for the symbol that starts at position `r`. */
    method OutputFrom(r: nat, out: nat) returns (output: seq<Bit>)
      requires pIdx == PIdx(code, r)
      modifies this`pIdx
      ensures pIdx == PIdx(code, r + code.N) && output == SymbolBits(code, r, out, code.N)
    {
      hide CodeOk, OutBit, PIdx;
      output := [];
      for j := 0 to code.N
        invariant pIdx == PIdx(code, r + j) && output == SymbolBits(code, r, out, j)
      {
        KeptStep(code, r + j);
        if PunctureAt(code, pIdx) == r + j {
          pIdx := pIdx + 1;
        } else {
          output := output + [OutBit(code, out, j)];
        }
      }
    }

    method EncodeRaw(input: seq<Bit>) returns (output: seq<Bit>)
      requires Valid() && iIdx + |input| <= code.len && input == data[iIdx..iIdx + |input|]
      modifies this
      ensures Valid() && iIdx == old(iIdx) + |input|
      ensures Emitted(code, data, iIdx) == Emitted(code, data, old(iIdx)) + output
    {
      hide CodeOk, States, PIdx, SymbolBits, Next, Out;
      output := [];
      for i := 0 to |input|
        invariant Valid() && iIdx == old(iIdx) + i
        invariant Emitted(code, data, iIdx) == Emitted(code, data, old(iIdx)) + output
      {
        var bit := input[i];
        var out := Out(code, state, bit);
        state := Next(code, state, bit);
        var bits := DoOutput(out);
        output := output + bits;
        iIdx := iIdx + 1;
      }
    }

    method EncodeFlush() returns (output: seq<Bit>)
      requires Valid() && iIdx == code.len
      modifies this
      ensures Valid() && iIdx == Steps(code)
      ensures Emitted(code, data, iIdx) == Emitted(code, data, old(iIdx)) + output
    {
      hide CodeOk, States, PIdx, SymbolBits, TermNext, TermOut;
      Positive(code);
      output := [];
      for i := 0 to code.K - 1
        invariant Valid() && iIdx == old(iIdx) + i
        invariant Emitted(code, data, iIdx) == Emitted(code, data, old(iIdx)) + output
      {
        var out := TermOut(code, state);
        state := TermNext(code, state);
        var bits := DoOutput(out);
        output := output + bits;
        iIdx := iIdx + 1;
      }
    }
  }

  /** `osmo_conv_encode` */
  method Encode(code: OkCode, input: seq<Bit>) returns (output: seq<Bit>)
    requires |input| == code.len
    ensures output == Emitted(code, input, Steps(code))
    ensures exists st :: Walk(code, input, st) && Sends(code, input, st, output)
  {
    hide Walk, Sends;
    var encoder := new Encoder(code, input);
    output := encoder.EncodeRaw(input);
    var tail := encoder.EncodeFlush();
    output := output + tail;
    Encodes(code, input);
  }

  // ---- decoder ----

  /** `struct osmo_conv_decoder`; `received` is the whole soft input of the block. */
  class Decoder {
    const code: OkCode
    ghost const received: seq<Soft>
    const ae: array<nat>
    const aeNext: array<nat>
    const history: array2<nat>
    var oIdx: nat
    var pIdx: nat

    ghost predicate Shaped()
      reads this
    {
      && ae.Length == States(code) && aeNext.Length == States(code) && ae != aeNext
      && history.Length0 == Steps(code) && history.Length1 == States(code)
      && oIdx <= Steps(code)
      && Kept(code, Steps(code) * code.N) <= |received|
    }

    ghost predicate Valid()
      reads this, ae, history
    {
      && Shaped() && pIdx == PIdx(code, oIdx * code.N)
      && ae[..] == Accumulated(code, received, oIdx) && Recorded(oIdx)
    }

    /** Row `t` of the history holds the predecessor of state `q`, if that is reached. */
    ghost predicate PredecessorAt(t: nat, q: nat)
      requires history.Length0 == Steps(code) && history.Length1 == States(code) && t < Steps(code) && q < States(code)
      reads history
    {
      Accumulated(code, received, t + 1)[q] < MAX_AE ==> history[t, q] == Entering(code, received, t, q).src
    }

    ghost predicate Recorded(t: nat)
      requires history.Length0 == Steps(code) && history.Length1 == States(code) && t <= Steps(code)
      reads history
    {
      forall i, q :: 0 <= i < t && 0 <= q < States(code) ==> PredecessorAt(i, q)
    }

    /** The arrays hold the survivors `row` of step `t`. */
    ghost predicate Scanned(row: seq<Survivor>, st: Stage, t: nat)
      requires StageOk(st, States(code)) && |row| == States(code)
      requires aeNext.Length == States(code) && history.Length0 == Steps(code) && history.Length1 == States(code)
              && t < Steps(code)
      reads aeNext, history
    {
      forall q :: 0 <= q < States(code) ==>
        && aeNext[q] == row[q].metric
        && (row[q].metric < MAX_AE ==> 0 <= row[q].edge < |st| && history[t, q] == st[row[q].edge].src)
    }

    /** `osmo_conv_decode_init` with start state 0. */
    constructor (code: OkCode, ghost received: seq<Soft>)
      requires Kept(code, Steps(code) * code.N) <= |received|
      ensures Valid() && oIdx == 0 && this.code == code && this.received == received
      ensures fresh(ae) && fresh(aeNext) && fresh(history)
    {
      this.code := code;
      this.received := received;
      ae := new nat[States(code)](i => if i == 0 then 0 else MAX_AE);
      aeNext := new nat[States(code)];
      history := new nat[Steps(code), States(code)];
      oIdx := 0;
      pIdx := 0;
      new;
      AccumulatedStart(code, received);
    }

    /** "Get input": the soft bits of one step, 0 for the punctured ones. */
    method GetInput(input: seq<Soft>, ghost base: nat) returns (inSym: seq<Soft>, used: nat)
      requires Shaped() && oIdx < Steps(code) && base <= |received| && input == received[base..]
      requires base == Kept(code, oIdx * code.N) && pIdx == PIdx(code, oIdx * code.N)
      modifies this`pIdx
      ensures inSym == InSym(code, received, oIdx)
      ensures pIdx == PIdx(code, (oIdx + 1) * code.N) && base + used == Kept(code, (oIdx + 1) * code.N)
    {
      hide CodeOk, States, PIdx, Kept, Skipped;
      NextSymbol(oIdx, code.N);
      KeptFits(code, oIdx + 1);
      inSym, used := InputFrom(oIdx * code.N, input, base);
    }

    /** Its loop, for the symbol that starts at position `r`. */
    method InputFrom(r: nat, input: seq<Soft>, ghost base: nat) returns (inSym: seq<Soft>, used: nat)
      requires base == Kept(code, r) <= |received| && input == received[base..] && Kept(code, r + code.N) <= |received|
      requires pIdx == PIdx(code, r)
      modifies this`pIdx
      ensures |inSym| == code.N && pIdx == PIdx(code, r + code.N) && base + used == Kept(code, r + code.N)
      ensures forall j :: 0 <= j < code.N ==>
                inSym[j] == if Skipped(code, r + j) then 0 else SoftAt(received, Kept(code, r + j))
    {
      hide CodeOk, PIdx, Kept;
      inSym, used := [], 0;
      for j := 0 to code.N
        invariant pIdx == PIdx(code, r + j) && base + used == Kept(code, r + j)
        invariant |inSym| == j
        invariant forall i :: 0 <= i < j ==>
                    inSym[i] == if Skipped(code, r + i) then 0 else SoftAt(received, Kept(code, r + i))
      {
        KeptStep(code, r + j);
        KeptMonotone(code, r + j + 1, r + code.N);
        if r + j == PunctureAt(code, pIdx) {
          inSym := inSym + [0];
          pIdx := pIdx + 1;
        } else {
          inSym := inSym + [input[used]];
          used := used + 1;
        }
      }
    }

    /** The error that one transition adds. */
    method PathError(out: nat, inSym: seq<Soft>, start: nat) returns (nae: nat)
      requires |inSym| == code.N
      ensures nae == start + SymCost(code, out, inSym, code.N)
    {
      hide CodeOk, Pow2;
      Positive(code);
      nae := start;
      var m := Pow2(code.N - 1) % 256;
      for j := 0 to code.N
        invariant nae == start + SymCost(code, out, inSym, j) && m == MaskAt(code, j)
      {
        var x := inSym[j];
        if x != 0 {
          var ov := V.Expected(if m == 0 then 0 else out / m % 2);
          nae := nae + V.Diff(x, ov);
        }
        m := m / 2;
      }
    }

    method ResetNext()
      requires aeNext.Length == States(code)
      modifies aeNext
      ensures forall q :: 0 <= q < States(code) ==> aeNext[q] == MAX_AE
    {
      for s := 0 to States(code)
        invariant forall q :: 0 <= q < s ==> aeNext[q] == MAX_AE
      {
        aeNext[s] := MAX_AE;
      }
    }

    /** One survivor test: edge `k` of the stage `st`. */
    method Survive(s: nat, state: nat, nae: nat, t: nat, ghost st: Stage, ghost m: seq<nat>, ghost k: nat)
      requires Shaped() && t < Steps(code) && StageOk(st, States(code)) && |m| == States(code) && k < |st|
      requires st[k].src == s && st[k].dst == state && nae == m[s] + st[k].cost
      requires Scanned(Scan(st, m, MAX_AE, k), st, t)
      modifies aeNext, history
      ensures Scanned(Scan(st, m, MAX_AE, k + 1), st, t)
      ensures forall i, q :: 0 <= i < Steps(code) && 0 <= q < States(code) && i != t ==>
                history[i, q] == old(history[i, q])
    {
      hide CodeOk, States, Scan, PIdx;
      ScanStep(st, m, MAX_AE, k);
      if aeNext[state] > nae {
        aeNext[state] := nae;
        history[t, state] := s;
      }
    }

    /** All transitions out of all states. */
    method ScanStates(inSym: seq<Soft>)
      requires Shaped() && oIdx < Steps(code) && |inSym| == code.N
      requires Recorded(oIdx) && forall q :: 0 <= q < States(code) ==> aeNext[q] == MAX_AE
      modifies aeNext, history
      ensures var st := ScanStage(code, inSym); Scanned(Scan(st, ae[..], MAX_AE, |st|), st, oIdx)
      ensures Recorded(oIdx)
    {
      hide CodeOk, States, Scan, PIdx, ScanStage, SymCost, Next, Out, Kept, Accumulated, Entering;
      ghost var st, m := ScanStage(code, inSym), ae[..];
      ScanStart(st, m, MAX_AE);
      for s := 0 to States(code)
        invariant ae[..] == m && Scanned(Scan(st, m, MAX_AE, 2 * s), st, oIdx)
        invariant forall i, q :: 0 <= i < Steps(code) && 0 <= q < States(code) && i != oIdx ==>
                    history[i, q] == old(history[i, q])
      {
        for b := 0 to 2
          invariant ae[..] == m && Scanned(Scan(st, m, MAX_AE, 2 * s + b), st, oIdx)
          invariant forall i, q :: 0 <= i < Steps(code) && 0 <= q < States(code) && i != oIdx ==>
                      history[i, q] == old(history[i, q])
        {
          ScanEdge(code, inSym, s, b);
          var out := Out(code, s, b);
          var state := Next(code, s, b);
          var nae := PathError(out, inSym, ae[s]);
          assert ae[s] == m[s];
          Survive(s, state, nae, oIdx, st, m, 2 * s + b);
        }
      }
      forall i, q | 0 <= i < oIdx && 0 <= q < States(code) ensures PredecessorAt(i, q) {
        assert old(PredecessorAt(i, q)) && history[i, q] == old(history[i, q]);
      }
    }

    /** The one termination transition out of every state. */
    method FlushStates(inSym: seq<Soft>)
      requires Shaped() && oIdx < Steps(code) && |inSym| == code.N
      requires Recorded(oIdx) && forall q :: 0 <= q < States(code) ==> aeNext[q] == MAX_AE
      modifies aeNext, history
      ensures var st := FlushStage(code, inSym); Scanned(Scan(st, ae[..], MAX_AE, |st|), st, oIdx)
      ensures Recorded(oIdx)
    {
      hide CodeOk, States, Scan, PIdx, FlushStage, SymCost, TermNext, TermOut, Kept, Accumulated, Entering;
      ghost var st, m := FlushStage(code, inSym), ae[..];
      ScanStart(st, m, MAX_AE);
      for s := 0 to States(code)
        invariant ae[..] == m && Scanned(Scan(st, m, MAX_AE, s), st, oIdx)
        invariant forall i, q :: 0 <= i < Steps(code) && 0 <= q < States(code) && i != oIdx ==>
                    history[i, q] == old(history[i, q])
      {
        FlushEdge(code, inSym, s);
        var out := TermOut(code, s);
        var state := TermNext(code, s);
        var nae := PathError(out, inSym, ae[s]);
        assert ae[s] == m[s];
        Survive(s, state, nae, oIdx, st, m, s);
      }
      forall i, q | 0 <= i < oIdx && 0 <= q < States(code) ensures PredecessorAt(i, q) {
        assert old(PredecessorAt(i, q)) && history[i, q] == old(history[i, q]);
      }
    }

    /** The end of a step: the survivors become the accumulated errors. */
    method Commit()
      requires oIdx < Steps(code) && ae.Length == States(code) && aeNext.Length == States(code) && ae != aeNext
      requires history.Length0 == Steps(code) && history.Length1 == States(code)
      requires ae[..] == Accumulated(code, received, oIdx) && Recorded(oIdx)
      requires var st := StageAt(code, received, oIdx); Scanned(Scan(st, ae[..], MAX_AE, |st|), st, oIdx)
      modifies ae
      ensures ae[..] == Accumulated(code, received, oIdx + 1) && Recorded(oIdx + 1)
    {
      hide CodeOk, States, Scan, StageAt, Accumulated, Entering;
      ghost var m, st := ae[..], StageAt(code, received, oIdx);
      forall q | 0 <= q < States(code)
        ensures aeNext[q] == Accumulated(code, received, oIdx + 1)[q]
        ensures aeNext[q] < MAX_AE ==> history[oIdx, q] == Entering(code, received, oIdx, q).src
      {
        StageComplete(code, received, oIdx, q);
      }
      forall q | 0 <= q < States(code) {
        ae[q] := aeNext[q];
      }
    }

    /** `osmo_conv_decode_scan`: the data bits.  Returns the number of soft bits used. */
    method DecodeScan(input: seq<Soft>, n: nat) returns (iIdx: nat)
      requires Valid() && oIdx + n <= code.len && Kept(code, oIdx * code.N) <= |received|
      requires input == received[Kept(code, oIdx * code.N)..]
      modifies this`oIdx, this`pIdx, ae, aeNext, history
      ensures Valid() && oIdx == old(oIdx) + n && old(Kept(code, oIdx * code.N)) + iIdx == Kept(code, oIdx * code.N)
    {
      hide CodeOk, States, Scan, Accumulated, Entering, PIdx, Kept, ScanStage, FlushStage, InSym, Scanned;
      iIdx := 0;
      Positive(code);
      ghost var base := Kept(code, oIdx * code.N);
      for i := 0 to n
        invariant Valid() && oIdx == old(oIdx) + i && base + iIdx == Kept(code, oIdx * code.N) <= |received|
      {
        ResetNext();
        assert input[iIdx..] == received[base + iIdx..];
        var inSym, used := GetInput(input[iIdx..], base + iIdx);
        iIdx := iIdx + used;
        ScanStates(inSym);
        Commit();
        oIdx := oIdx + 1;
        KeptFits(code, oIdx);
      }
    }

    /** `osmo_conv_decode_flush`: the termination. */
    method DecodeFlush(input: seq<Soft>) returns (iIdx: nat)
      requires Valid() && oIdx == code.len && Kept(code, oIdx * code.N) <= |received|
      requires input == received[Kept(code, oIdx * code.N)..]
      modifies this`oIdx, this`pIdx, ae, aeNext, history
      ensures Valid() && oIdx == Steps(code) && old(Kept(code, oIdx * code.N)) + iIdx == Kept(code, oIdx * code.N)
    {
      hide CodeOk, States, Scan, Accumulated, Entering, PIdx, Kept, ScanStage, FlushStage, InSym, Scanned;
      iIdx := 0;
      Positive(code);
      ghost var base := Kept(code, oIdx * code.N);
      for i := 0 to code.K - 1
        invariant Valid() && oIdx == old(oIdx) + i && base + iIdx == Kept(code, oIdx * code.N) <= |received|
      {
        ResetNext();
        assert input[iIdx..] == received[base + iIdx..];
        var inSym, used := GetInput(input[iIdx..], base + iIdx);
        iIdx := iIdx + used;
        FlushStates(inSym);
        Commit();
        oIdx := oIdx + 1;
        KeptFits(code, oIdx);
      }
    }

    /** One step of the traceback, out of the state history. */
    lemma StepBack(t: nat, q: nat)
      requires Valid() && t < oIdx && q < States(code) && Accumulated(code, received, t + 1)[q] < MAX_AE
      ensures var p := history[t, q];
              && p < States(code) && Accumulated(code, received, t)[p] < MAX_AE
              && TracedInput(code, received, t + 1, q, false) == TracedInput(code, received, t, p, false)
                                                                 + (if t < code.len then [BitFor(code, p, q)] else [])
    {
      hide CodeOk, States, Accumulated, Entering, PIdx, Kept, TracedInput, BitFor;
      assert PredecessorAt(t, q);
      TracedStep(code, received, t + 1, q);
    }

    /** Skips the flush steps of the traceback. */
    method SkipFlush() returns (curState: nat)
      requires Valid() && oIdx == Steps(code) && 0 < States(code) && Accumulated(code, received, oIdx)[0] < MAX_AE
      ensures curState < States(code) && Accumulated(code, received, code.len)[curState] < MAX_AE
      ensures TracedInput(code, received, code.len, curState, false) == TracedInput(code, received, oIdx, 0, false)
    {
      hide CodeOk, States, Accumulated, Entering, PIdx, Kept, TracedInput, BitFor, Recorded;
      Positive(code);
      curState := 0;
      for i := 0 to code.K - 1
        invariant curState < States(code) && Accumulated(code, received, oIdx - i)[curState] < MAX_AE
        invariant TracedInput(code, received, oIdx - i, curState, false) == TracedInput(code, received, oIdx, 0, false)
      {
        StepBack(oIdx - i - 1, curState);
        curState := history[oIdx - i - 1, curState];
      }
    }

    /** Generates the output backward. */
    method TraceBack(start: nat) returns (output: seq<Bit>)
      requires Valid() && oIdx == Steps(code)
      requires start < States(code) && Accumulated(code, received, code.len)[start] < MAX_AE
      ensures output == TracedInput(code, received, code.len, start, false)
    {
      hide CodeOk, States, Accumulated, Entering, PIdx, Kept, TracedInput, BitFor, Recorded;
      Positive(code);
      ghost var u := TracedInput(code, received, code.len, start, false);
      var curState: nat := start;
      output := [];
      Nothing(u);
      for t := code.len downto 0
        invariant curState < States(code) && Accumulated(code, received, t)[curState] < MAX_AE
        invariant TracedInput(code, received, t, curState, false) + output == u
      {
        StepBack(t, curState);
        var next := curState;
        curState := history[t, curState];
        var b := BitFor(code, curState, next);
        Regroup(TracedInput(code, received, t, curState, false), b, output);
        output := [b] + output;
      }
      NothingTraced(code, received, curState, false);
      Nothing(output);
    }

    /** `osmo_conv_decode_get_output` with flush bits and end state 0. */
    method GetOutput() returns (output: seq<Bit>, minAe: nat)
      requires Valid() && oIdx == Steps(code) && ae[0] < MAX_AE
      ensures minAe == Accumulated(code, received, oIdx)[0] < MAX_AE
      ensures output == TracedInput(code, received, oIdx, 0, false)
    {
      hide CodeOk, States, Accumulated, Entering, PIdx, Kept, TracedInput, BitFor;
      minAe := ae[0];
      var curState := SkipFlush();
      output := TraceBack(curState);
    }
  }

  lemma NothingTraced(c: OkCode, input: seq<Soft>, q: nat, exact: bool)
    requires q < States(c) && Accumulated(c, input, 0)[q] < MAX_AE
    ensures TracedInput(c, input, 0, q, exact) == []
  {
  }

  lemma TracedStep(c: OkCode, input: seq<Soft>, t: nat, q: nat)
    requires 0 < t && q < States(c) && Accumulated(c, input, t)[q] < MAX_AE
    ensures var e := Entering(c, input, t - 1, q);
            && e.src < States(c) && Accumulated(c, input, t - 1)[e.src] < MAX_AE
            && TracedInput(c, input, t, q, false) == TracedInput(c, input, t - 1, e.src, false)
                                                + (if t <= c.len then [BitFor(c, e.src, q)] else [])
  {
    hide CodeOk, States, Accumulated, Entering, StageAt, BitFor;
  }

  /** `osmo_conv_decode` for a flush terminated code: the least cost of all terminated inputs, and
      a terminated input: what the traceback guesses from the states of an input of that cost, the
      first one with its word.  It has that cost too if the code is as `AttainsIffReadable` says,
      for instance with `Invertible` tables. */
  method Decode(code: OkCode, input: seq<Soft>) returns (output: seq<Bit>, rv: nat)
    requires Kept(code, Steps(code) * code.N) <= |input| && exists u :: Closes(code, u)
    requires 127 * (code.N * Steps(code)) < 0x00ff_ffff
    ensures Closes(code, output) && Alive(code, input) && output == Decoded(code, input)
    ensures Finds(code, input, output, rv)
    ensures forall u :: Closes(code, u) ==> rv <= CostTo(code, u, input, Steps(code))
    ensures exists w :: BestFirst(code, w) && rv == CostTo(code, w, input, Steps(code)) && output == Guessed(code, w)
    ensures rv == CostTo(code, output, input, Steps(code)) <==> Attains(code, input)
    ensures (forall w :: ScanFirst(code, w) ==> Readable(code, w)) || Invertible(code) ==> Attains(code, input)
  {
    hide CodeOk, States, Accumulated, Entering, PIdx, Kept, TracedInput, StateAt, CostTo, Invertible, Guessed;
    hide SameWord, AgreeAfter, StepEdge, Readable, Attains;
    Positive(code);
    ghost var n := Steps(code);
    var decoder := new Decoder(code, input);
    assert Kept(code, 0 * code.N) == 0 by { KeptStart(code); }
    assert input[0..] == input;
    KeptFits(code, code.len);
    var l := decoder.DecodeScan(input, code.len);
    var rest := decoder.DecodeFlush(input[l..]);
    ghost var v :| Closes(code, v);
    AccumulatedLeast(code, v, input, n);
    CostBound(code, v, input, n);
    output, rv := decoder.GetOutput();
    forall u | Closes(code, u) ensures rv <= CostTo(code, u, input, n) {
      AccumulatedLeast(code, u, input, n);
    }
    DecodedFacts(code, input);
    ghost var w :| BestFirst(code, w) && rv == CostTo(code, w, input, n) && output == Guessed(code, w);
    Decodes(code, input, w, rv);
  }

  /** `w` is a terminated input, and the first one with its word unless the decoder reads nothing. */
  ghost predicate BestFirst(code: OkCode, w: seq<Bit>) {
    Closes(code, w) && (code.N <= 8 ==> ScanFirst(code, w))
  }

  lemma DecodedFacts(code: OkCode, input: seq<Soft>)
    requires Alive(code, input)
    ensures var n, out, least := Steps(code), Decoded(code, input), Accumulated(code, input, Steps(code))[0];
            && Closes(code, out) && (least == CostTo(code, out, input, n) <==> Attains(code, input))
            && exists w :: BestFirst(code, w) && least == CostTo(code, w, input, n) && out == Guessed(code, w)
    ensures (forall w :: ScanFirst(code, w) ==> Readable(code, w)) || Invertible(code) ==> Attains(code, input)
  {
    hide CodeOk, States, Accumulated, TracedInput, StateAt, CostTo, Invertible, Guessed, Decoded;
    hide SameWord, AgreeAfter, StepEdge, Readable;
    var w := BestInput(code, input);
    GuessedStates(code, w, Steps(code));
    if code.N <= 8 {
      SurvivorIsFirst(code, input, w);
    }
    assert BestFirst(code, w);
    if Invertible(code) {
      InvertibleIsFaithful(code);
      FaithfulAttains(code, input);
    } else if forall w :: ScanFirst(code, w) ==> Readable(code, w) {
      AttainsIffReadable(code);
    }
  }

  /** Encoding, an undisturbed channel and decoding give an input with the same code word, if a
      symbol has at most eight bits: exactly if the first input with that word is readable, and
      always for `Invertible` tables.  A decoder that reads nothing (`WideReadsNothing`) gives
      some terminated input. */
  method Loopback(code: OkCode, u: seq<Bit>) returns (output: seq<Bit>)
    requires Closes(code, u) && 127 * (code.N * Steps(code)) < 0x00ff_ffff
    ensures Closes(code, output)
    ensures code.N <= 8 && Invertible(code) ==> SameWord(code, output, u)
    ensures code.N <= 8 ==>
              (SameWord(code, output, u) <==>
               forall w :: ScanFirst(code, w) && SameWord(code, w, u) ==> Readable(code, w))
  {
    hide CodeOk, States, PIdx, Kept, StateAt, CostTo, Invertible, Emitted, Attains, Decoded;
    hide ScanFirst, Readable, Guessed;
    var word := Encode(code, u);
    EmittedLength(code, u, Steps(code));
    var rv;
    output, rv := Decode(code, Undisturbed(word));
    assert Undisturbed(word) == Clean(code, u);
    if code.N <= 8 {
      LoopsBackIffReadable(code, u);
      LoopsBackIffAttains(code, u);
    }
  }
}
