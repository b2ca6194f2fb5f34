/**
  The signalling channel pipeline of gsm-parser/cch.c (`encode_signalling`, `decode_signalling`)
  and the unciphered branch of `try_decode` in gsm-parser/ccch.c.
 */
module Sacch {
  import opened Gf2
  import opened BitFunc
  import opened Slices
  import opened ConvCode
  import opened Crc
  import opened Interleave
  import opened Viterbi

  const MESSAGE_SIZE := 23
  const DATA_BLOCK_SIZE := 184
  const PARITY_SIZE := 40
  const FLUSH_BITS_SIZE := 4
  const PARITY_OUTPUT_SIZE := DATA_BLOCK_SIZE + PARITY_SIZE + FLUSH_BITS_SIZE
  const CONV_SIZE := 2 * PARITY_OUTPUT_SIZE

  /** x^40 + x^26 + x^23 + x^17 + x^3 + 1 */
  const PARITY_POLYNOMIAL: seq<Bit> := [
    1, 0, 0, 0, 0, 0, 0, 0, 0, 0, 0, 0, 0, 0, 1, 0, 0, 1, 0, 0, 0, 0, 0, 1,
    0, 0, 0, 0, 0, 0, 0, 0, 0, 0, 0, 0, 0, 1, 0, 0, 1]

  lemma Generator()
    ensures |PARITY_POLYNOMIAL| == PARITY_SIZE + 1 && PARITY_POLYNOMIAL[0] == 1 && PARITY_POLYNOMIAL[PARITY_SIZE] == 1
  {
  }

  /** The exponents of the generator. */
  lemma GeneratorAt(i: nat)
    requires i <= PARITY_SIZE
    ensures PARITY_POLYNOMIAL[PARITY_SIZE - i] == if i in {40, 26, 23, 17, 3, 0} then 1 else 0
  {
    if
    case i < 14 =>
      assert i in {0, 1, 2, 3, 4, 5, 6, 7, 8, 9, 10, 11, 12, 13};
    case 14 <= i < 28 =>
      assert i in {14, 15, 16, 17, 18, 19, 20, 21, 22, 23, 24, 25, 26, 27};
    case 28 <= i =>
      assert i in {28, 29, 30, 31, 32, 33, 34, 35, 36, 37, 38, 39, 40};
  }

  /** x^17 + x^3 + 1 */
  function Trinomial(): (p: seq<Bit>)
    ensures |p| == 18
  {
    seq(18, i => if i in {0, 14, 17} then 1 else 0)
  }

  /** x^23 + 1 */
  function Binomial(): (p: seq<Bit>)
    ensures |p| == 24
  {
    [1] + Zeros(22) + [1]
  }

  /** It is the Fire code of section 4.1.2 of 3GPP TS 45.003: (x^23 + 1) (x^17 + x^3 + 1). */
  lemma GeneratorIsProduct()
    ensures Product(Binomial(), Trinomial(), PARITY_SIZE + 1) == PARITY_POLYNOMIAL
  {
    hide XorAt, Product;
    var t, n := Trinomial(), PARITY_SIZE + 1;
    ProductSnoc([1] + Zeros(22), 1, t, n);
    ProductZeros([1], 22, t, n);
    ProductSnoc([], 1, t, n);
    assert [] + [1] == [1];
    NoProduct(t, n);
    var once := XorAt(Zeros(n), 0, t, |t|);
    var twice := XorAt(once, 23, t, |t|);
    assert Product(Binomial(), t, n) == twice;
    Generator();
    forall i | 0 <= i < n ensures twice[i] == PARITY_POLYNOMIAL[i] {
      XorAtIndex(Zeros(n), 0, t, |t|, i);
      XorAtIndex(once, 23, t, |t|, i);
      GeneratorAt(PARITY_SIZE - i);
    }
  }

  lemma NoProduct(poly: seq<Bit>, n: nat)
    requires 0 < |poly| <= n + 1
    ensures Product([], poly, n) == Zeros(n)
  {
  }

  type Message = m: seq<Octet> | |m| == MESSAGE_SIZE witness seq(MESSAGE_SIZE, _ => 0)

  /** Message bits, parity and flush bits. */
  function Block(msg: Message): (u: seq<Bit>)
    ensures |u| == PARITY_OUTPUT_SIZE
  {
    Generator();
    var bits := seq(DATA_BLOCK_SIZE, i requires 0 <= i < DATA_BLOCK_SIZE => BitAt(msg, i));
    bits + Parity(bits, PARITY_POLYNOMIAL) + Zeros(FLUSH_BITS_SIZE)
  }

  /** Four bursts of 114 bits that carry the coded block of a message. */
  predicate BurstsOf(raw: seq<Bit>, msg: Message) {
    |raw| == CONV_SIZE && forall k :: 0 <= k < CONV_SIZE ==> raw[SacchMap(k)] == Coded(Block(msg))[k]
  }

  method EncodeSignalling(sacchMap: seq<nat>, msg: Message) returns (raw: seq<Bit>)
    requires MapReady(sacchMap)
    ensures BurstsOf(raw, msg)
  {
    hide SacchMap, Coded, Parity, BitAt;
    Generator();
    var bits := ExpandLsb(msg, DATA_BLOCK_SIZE);
    var parity := ParityEncode(bits, PARITY_POLYNOMIAL);
    var decodedData := bits + parity + Zeros(FLUSH_BITS_SIZE);
    assert bits == seq(DATA_BLOCK_SIZE, i requires 0 <= i < DATA_BLOCK_SIZE => BitAt(msg, i));
    var codedData := ConvEncode(decodedData);
    raw := InterSacch(sacchMap, codedData);
  }

  // ---- the sent code word is the unique cheapest one ----

  /** Every soft value has the sign of its bit and is not zero. */
  predicate Clean(input: seq<Soft>, w: seq<Bit>) {
    && |input| == |w|
    && forall i :: 0 <= i < |w| ==> if w[i] == 1 then -127 <= input[i] < 0 else 0 < input[i] <= 127
  }

  lemma DiffStrict(a: int)
    requires 1 <= a <= 127
    ensures Diff(127, a) < Diff(-127, a) && Diff(-127, -a) < Diff(127, -a)
  {
    assert (127 + a) * (127 + a) == (127 - a) * (127 - a) + 508 * a;
    assert (-127 - a) * (-127 - a) == (127 + a) * (127 + a);
    assert (-127 + a) * (-127 + a) == (127 - a) * (127 - a);
  }

  lemma {:induction false} CleanUnique(input: seq<Soft>, w: seq<Bit>, v: seq<Bit>)
    requires Clean(input, w) && |v| == |w|
    ensures Deviation(w, input) <= Deviation(v, input)
    ensures Deviation(v, input) == Deviation(w, input) ==> v == w
  {
    hide Diff, Deviation;
    if w != [] {
      var k := |w| - 1;
      CleanUnique(input[..k], w[..k], v[..k]);
      DeviationLast(w, input);
      DeviationLast(v, input);
      BitCheapest(w[k], v[k], input[k]);
      LastOf(v);
      LastOf(w);
    }
  }

  /** At one position. */
  lemma BitCheapest(b: Bit, x: Bit, y: Soft)
    requires if b == 1 then -127 <= y < 0 else 0 < y <= 127
    ensures Diff(Expected(b), y) <= Diff(Expected(x), y)
    ensures Diff(Expected(b), y) == Diff(Expected(x), y) ==> b == x
  {
    hide Diff;
    DiffStrict(if y < 0 then -y else y);
  }

  lemma DeviationLast(w: seq<Bit>, input: seq<Soft>)
    requires |w| == |input| > 0
    ensures var k := |w| - 1; Deviation(w, input) == Deviation(w[..k], input[..k]) + Diff(Expected(w[k]), input[k])
  {
    hide Diff, Expected;
  }

  // ---- decode_signalling ----

  /** `FC_check_crc`, which tries to repair a block whose parity fails, is not part of this model. */
  datatype Outcome = Decoded(msg: Message) | ParityFailed

  /** No block has a code word closer to the soft bits. */
  ghost predicate Cheapest(block: seq<Bit>, softData: seq<Soft>)
    requires |softData| == CONV_SIZE
  {
    && |block| == PARITY_OUTPUT_SIZE
    && forall v: seq<Bit> :: |v| == PARITY_OUTPUT_SIZE ==>
          Deviation(Coded(block), softData) <= Deviation(Coded(v), softData)
  }

  predicate ParityHolds(block: seq<Bit>)
    requires |block| == PARITY_OUTPUT_SIZE
  {
    Generator();
    block[DATA_BLOCK_SIZE..][..PARITY_SIZE] == Parity(block[..DATA_BLOCK_SIZE], PARITY_POLYNOMIAL)
  }

  /** What a decoded block is read as. */
  predicate ReadAs(block: seq<Bit>, r: Outcome)
    requires |block| == PARITY_OUTPUT_SIZE
  {
    && (r.Decoded? <==> ParityHolds(block))
    && (r.Decoded? ==> forall i :: 0 <= i < DATA_BLOCK_SIZE ==> BitAt(r.msg, i) == block[i])
  }

  method DecodeSignalling(softData: seq<Soft>) returns (r: Outcome)
    requires |softData| == CONV_SIZE
    ensures exists best :: Cheapest(best, softData) && ReadAs(best, r)
  {
    hide Coded, Deviation, Parity, Remainder, BitAt;
    Generator();
    var decodedData := ConvCchDecode(softData);
    ghost var best := decodedData;
    assert Cheapest(best, softData);
    var word := decodedData[..DATA_BLOCK_SIZE + PARITY_SIZE];
    var ok := ParityCheck(word, DATA_BLOCK_SIZE, PARITY_POLYNOMIAL, Ones(PARITY_SIZE));
    assert word == best[..DATA_BLOCK_SIZE] + best[DATA_BLOCK_SIZE..][..PARITY_SIZE];
    AcceptedIffEncoded(best[..DATA_BLOCK_SIZE], best[DATA_BLOCK_SIZE..][..PARITY_SIZE], PARITY_POLYNOMIAL);
    if !ok {
      r := ParityFailed;
      assert ReadAs(best, r);
      return;
    }
    var msg := new Octet[MESSAGE_SIZE];
    CompressLsb(decodedData, msg, DATA_BLOCK_SIZE);
    r := Decoded(msg[..]);
    assert ReadAs(best, r);
  }

  lemma BlockParts(msg: Message)
    ensures var u := Block(msg);
            && |u| == 184 + 40 + 4 && ParityHolds(u) && (forall i :: 0 <= i < 184 ==> u[i] == BitAt(msg, i))
            && forall i :: 224 <= i < 228 ==> u[i] == 0
  {
    hide Parity, BitAt;
    Generator();
    var bits := seq(DATA_BLOCK_SIZE, i requires 0 <= i < DATA_BLOCK_SIZE => BitAt(msg, i));
    var u := Block(msg);
    assert u[..DATA_BLOCK_SIZE] == bits;
    assert u[DATA_BLOCK_SIZE..][..PARITY_SIZE] == Parity(bits, PARITY_POLYNOMIAL);
  }

  /** On soft bits that all have the right sign, the cheapest block is the one that was sent. */
  lemma CheapestIsSent(softData: seq<Soft>, best: seq<Bit>, msg: Message)
    requires |best| == PARITY_OUTPUT_SIZE && Clean(softData, Coded(Block(msg)))
    requires Deviation(Coded(best), softData) <= Deviation(Coded(Block(msg)), softData)
    ensures best == Block(msg)
  {
    hide Coded, Deviation, Block;
    CleanUnique(softData, Coded(Block(msg)), Coded(best));
    CodedInjective(best, Block(msg));
  }

  // ---- try_decode ----

  /** What a burst bit becomes: `snr_amp` or minus that. */
  function SoftBit(bit: Bit, snr: nat): Soft
    requires snr < 256
  {
    if bit == 1 then -(snr / 2) else snr / 2
  }

  method SoftBursts(data: seq<Bit>, snr: seq<nat>) returns (deciphered: seq<Soft>)
    requires |data| == CONV_SIZE && |snr| == 4 && forall j :: 0 <= j < 4 ==> snr[j] < 256
    ensures |deciphered| == CONV_SIZE
    ensures forall p :: 0 <= p < CONV_SIZE ==>
              var amplitude: int := snr[p / 114] / 2; deciphered[p] == if data[p] == 1 then -amplitude else amplitude
  {
    deciphered := [];
    for j := 0 to 4
      invariant |deciphered| == 114 * j
      invariant forall p :: 0 <= p < 114 * j ==> deciphered[p] == SoftBit(data[p], snr[p / 114])
    {
      for i := 0 to 114
        invariant |deciphered| == 114 * j + i
        invariant forall p :: 0 <= p < 114 * j + i ==> deciphered[p] == SoftBit(data[p], snr[p / 114])
      {
        assert (114 * j + i) / 114 == j;
        deciphered := deciphered + [SoftBit(data[114 * j + i], snr[j])];
      }
    }
  }

  /** End to end: bursts that carry a message, received with every amplitude at least 1, decode to
      that message, whatever the message and the amplitudes are. */
  method TryDecode(sacchMap: seq<nat>, data: seq<Bit>, snr: seq<nat>) returns (r: Outcome)
    requires MapReady(sacchMap) && |data| == CONV_SIZE && |snr| == 4 && forall j :: 0 <= j < 4 ==> snr[j] < 256
    ensures forall msg: Message :: BurstsOf(data, msg) && (forall j :: 0 <= j < 4 ==> 2 <= snr[j]) ==> r == Decoded(msg)
  {
    hide SacchMap, Coded, Deviation, Block, BitAt, Parity;
    var deciphered := SoftBursts(data, snr);
    var convData := DeinterSacch(sacchMap, deciphered);
    r := DecodeSignalling(convData);
    ghost var best :| Cheapest(best, convData) && ReadAs(best, r);
    forall msg: Message | BurstsOf(data, msg) && (forall j :: 0 <= j < 4 ==> 2 <= snr[j]) ensures r == Decoded(msg) {
      CheapestIsSent(convData, best, msg);
      BlockParts(msg);
      BitsDetermine(r.msg, msg);
    }
  }

  /** The two directions together. */
  method Loopback(msg: Message, snr: seq<nat>) returns (r: Outcome)
    requires |snr| == 4 && forall j :: 0 <= j < 4 ==> 2 <= snr[j] < 256
    ensures r == Decoded(msg)
  {
    hide SacchMap, Coded, Block;
    var sacchMap := InitMap();
    var raw := EncodeSignalling(sacchMap, msg);
    r := TryDecode(sacchMap, raw, snr);
  }
}
