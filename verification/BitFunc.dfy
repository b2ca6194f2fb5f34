/** Packing of bits into octets, least significant bit first (gsm-parser/bit_func.c). */
module BitFunc {
  import opened Gf2
  import opened Powers

  type Octet = bv8

  /** `1 << (i & 7)` */
  function Mask(k: nat): Octet
    requires k < 8
  {
    match k
    case 0 => 1
    case 1 => 2
    case 2 => 4
    case 3 => 8
    case 4 => 16
    case 5 => 32
    case 6 => 64
    case _ => 128
  }

  function BitOf(x: Octet, k: nat): Bit
    requires k < 8
  {
    if x & Mask(k) != 0 then 1 else 0
  }

  /** `x |= mask` or `x &= ~mask` */
  function WithBit(x: Octet, k: nat, b: Bit): Octet
    requires k < 8
  {
    if b == 1 then x | Mask(k) else x & !Mask(k)
  }

  /** Bit `k` is the one of weight 2^k. */
  lemma MaskIs(k: nat)
    requires k < 8
    ensures Mask(k) as nat == Pow2(k)
  {
    OctetPowers();
  }

  /** Shifted down to the lowest place it shows. */
  lemma BitIsShifted(x: Octet, k: nat)
    requires k < 8
    ensures BitOf(x, k) == 1 <==> (x >> k) & 1 == 1
  {
    match k
    case 0 => assert x & 1 != 0 <==> (x >> 0) & 1 == 1;
    case 1 => assert x & 2 != 0 <==> (x >> 1) & 1 == 1;
    case 2 => assert x & 4 != 0 <==> (x >> 2) & 1 == 1;
    case 3 => assert x & 8 != 0 <==> (x >> 3) & 1 == 1;
    case 4 => assert x & 16 != 0 <==> (x >> 4) & 1 == 1;
    case 5 => assert x & 32 != 0 <==> (x >> 5) & 1 == 1;
    case 6 => assert x & 64 != 0 <==> (x >> 6) & 1 == 1;
    case _ => assert x & 128 != 0 <==> (x >> 7) & 1 == 1;
  }

  lemma MasksApart(k: nat, j: nat)
    requires k < 8 && j < 8
    ensures Mask(k) & Mask(j) == if k == j then Mask(k) else 0
    ensures Mask(k) != 0
  {
  }

  lemma OtherBits(x: Octet, m: Octet, n: Octet)
    requires m & n == 0
    ensures (x | m) & n == x & n && (x & !m) & n == x & n
  {
  }

  lemma ThisBit(x: Octet, m: Octet)
    ensures (x | m) & m == m && (x & !m) & m == 0
  {
  }

  /** Setting or clearing one bit changes that bit and no other. */
  lemma SetBit(x: Octet, k: nat, b: Bit, j: nat)
    requires k < 8 && j < 8
    ensures BitOf(WithBit(x, k, b), j) == if j == k then b else BitOf(x, j)
  {
    hide Mask;
    MasksApart(k, j);
    if j == k {
      ThisBit(x, Mask(k));
    } else {
      OtherBits(x, Mask(k), Mask(j));
    }
  }

  lemma OctetFromBits(x: Octet, y: Octet)
    requires forall k :: 0 <= k < 8 ==> BitOf(x, k) == BitOf(y, k)
    ensures x == y
  {
    assert BitOf(x, 0) == BitOf(y, 0) && BitOf(x, 1) == BitOf(y, 1) && BitOf(x, 2) == BitOf(y, 2)
        && BitOf(x, 3) == BitOf(y, 3);
    assert BitOf(x, 4) == BitOf(y, 4) && BitOf(x, 5) == BitOf(y, 5) && BitOf(x, 6) == BitOf(y, 6)
        && BitOf(x, 7) == BitOf(y, 7);
  }

  /** Bit `i` of a packed string. */
  function BitAt(s: seq<Octet>, i: nat): Bit
    requires i < 8 * |s|
  {
    BitOf(s[i / 8], i % 8)
  }

  /** Octet after octet, the lowest bit of each first. */
  lemma BitAtIs(s: seq<Octet>, i: nat)
    requires i < 8 * |s|
    ensures BitAt(s, i) == 1 <==> (s[i / 8] >> (i % 8)) & 1 == 1
  {
    BitIsShifted(s[i / 8], i % 8);
  }

  method ExpandLsb(input: seq<Octet>, size: nat) returns (output: seq<Bit>)
    requires size <= 8 * |input|
    ensures |output| == size && forall i :: 0 <= i < size ==> output[i] == BitAt(input, i)
  {
    output := [];
    for i := 0 to size
      invariant |output| == i && forall j :: 0 <= j < i ==> output[j] == BitAt(input, j)
    {
      output := output + [BitOf(input[i / 8], i % 8)];
    }
  }

  /** The string with bit `i` set to `b`. */
  function Written(s: seq<Octet>, i: nat, b: Bit): (t: seq<Octet>)
    requires i < 8 * |s|
    ensures |t| == |s|
  {
    s[i / 8 := WithBit(s[i / 8], i % 8, b)]
  }

  lemma WrittenBit(s: seq<Octet>, i: nat, b: Bit, j: nat)
    requires i < 8 * |s| && j < 8 * |s|
    ensures BitAt(Written(s, i, b), j) == if j == i then b else BitAt(s, j)
  {
    hide BitOf, WithBit;
    SetBit(s[i / 8], i % 8, b, j % 8);
  }

  /** Bits beyond `size` keep their old value. */
  method CompressLsb(input: seq<Bit>, output: array<Octet>, size: nat)
    requires size <= |input| && size <= 8 * output.Length
    modifies output
    ensures forall i :: 0 <= i < size ==> BitAt(output[..], i) == input[i]
    ensures forall i :: size <= i < 8 * output.Length ==> BitAt(output[..], i) == BitAt(old(output[..]), i)
  {
    hide BitOf, Mask, BitAt;
    for i := 0 to size
      invariant forall j :: 0 <= j < i ==> BitAt(output[..], j) == input[j]
      invariant forall j :: i <= j < 8 * output.Length ==> BitAt(output[..], j) == BitAt(old(output[..]), j)
    {
      ghost var was := output[..];
      if input[i] == 1 {
        output[i / 8] := output[i / 8] | Mask(i % 8);
      } else {
        output[i / 8] := output[i / 8] & !Mask(i % 8);
      }
      assert output[..] == Written(was, i, input[i]);
      forall j | 0 <= j < 8 * output.Length
        ensures BitAt(output[..], j) == if j == i then input[i] else BitAt(was, j)
      {
        WrittenBit(was, i, input[i], j);
      }
    }
  }

  /** The bits determine the octets. */
  lemma BitsDetermine(s: seq<Octet>, t: seq<Octet>)
    requires |s| == |t| && forall i :: 0 <= i < 8 * |s| ==> BitAt(s, i) == BitAt(t, i)
    ensures s == t
  {
    hide BitOf;
    forall b | 0 <= b < |s| ensures s[b] == t[b] {
      forall k | 0 <= k < 8 ensures BitOf(s[b], k) == BitOf(t[b], k) {
        assert BitAt(s, 8 * b + k) == BitAt(t, 8 * b + k);
      }
      OctetFromBits(s[b], t[b]);
    }
  }
}
