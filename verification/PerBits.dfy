/**
  Bit strings of the PER streams in libasn1c, most significant bit first: how they relate to
  numbers and to octets.
 */
module PerBits {
  import opened Gf2
  import opened Slices
  import opened Powers

  type Octet = x: nat | x < 256

  /** The lowest `w` bits of `v`. */
  function BitsOf(v: nat, w: nat): (bits: seq<Bit>)
    ensures |bits| == w
    decreases w
  {
    if w == 0 then [] else BitsOf(v / 2, w - 1) + [v % 2]
  }

  function ValueOf(bits: seq<Bit>): nat {
    if bits == [] then 0 else 2 * ValueOf(bits[..|bits| - 1]) + bits[|bits| - 1]
  }

  /** The highest bit comes first. */
  lemma {:induction false} BitsOfAt(v: nat, w: nat, i: nat)
    requires i < w
    ensures BitsOf(v, w)[i] == v / Pow2(w - 1 - i) % 2
    decreases w
  {
    hide Pow2;
    ShiftsAre(v, w - 1 - i);
    if i < w - 1 {
      BitsOfAt(v / 2, w - 1, i);
      ShiftsAre(v / 2, w - 2 - i);
    }
  }

  lemma {:induction false} ValueOfBits(v: nat, w: nat)
    ensures ValueOf(BitsOf(v, w)) == Low(v, w)
    decreases w
  {
    if w > 0 {
      ValueOfBits(v / 2, w - 1);
    }
  }

  lemma {:induction false} BitsOfValue(bits: seq<Bit>)
    ensures BitsOf(ValueOf(bits), |bits|) == bits
  {
    if bits != [] {
      var init, b := bits[..|bits| - 1], bits[|bits| - 1];
      BitsOfValue(init);
      LastOf(bits);
      LastBit(ValueOf(bits), |bits|);
      hide BitsOf;
      assert ValueOf(bits) == 2 * ValueOf(init) + b;
    }
  }

  /** The upper bits of a string are the bits of the shifted number. */
  lemma {:induction false} BitsSplit(v: nat, a: nat, b: nat)
    ensures BitsOf(v, a + b) == BitsOf(Shr(v, b), a) + BitsOf(v, b)
    decreases b
  {
    if b > 0 {
      BitsSplit(v / 2, a, b - 1);
      hide BitsOf;
      LastBit(v, a + b);
      LastBit(v, b);
      assert BitsOf(Shr(v / 2, b - 1), a) + BitsOf(v / 2, b - 1) + [v % 2]
          == BitsOf(Shr(v / 2, b - 1), a) + (BitsOf(v / 2, b - 1) + [v % 2]);
    }
  }

  lemma LastBit(v: nat, w: nat)
    requires 0 < w
    ensures BitsOf(v, w) == BitsOf(v / 2, w - 1) + [v % 2]
  {
  }

  /** Only the lowest `w` bits matter. */
  lemma {:induction false} BitsLow(v: nat, w: nat)
    ensures BitsOf(Low(v, w), w) == BitsOf(v, w)
    decreases w
  {
    if w > 0 {
      BitsLow(v / 2, w - 1);
    }
  }

  /** A number made of an upper and a lower part. */
  lemma {:induction false} BitsJoin(hi: nat, v: nat, a: nat, w: nat)
    requires Fits(v, w)
    ensures BitsOf(Shl(hi, w) + v, a + w) == BitsOf(hi, a) + BitsOf(v, w)
    decreases w
  {
    if w > 0 {
      FitsHalf(v, w);
      BitsJoin(hi, v / 2, a, w - 1);
      assert (Shl(hi, w) + v) / 2 == Shl(hi, w - 1) + v / 2 && (Shl(hi, w) + v) % 2 == v % 2;
    }
  }

  lemma {:induction false} BitsZero(w: nat)
    ensures BitsOf(0, w) == Zeros(w)
  {
    if w > 0 {
      BitsZero(w - 1);
    }
  }

  // ---- octet strings ----

  function OctetBits(s: seq<Octet>): (bits: seq<Bit>)
    ensures |bits| == 8 * |s|
  {
    if s == [] then [] else OctetBits(s[..|s| - 1]) + BitsOf(s[|s| - 1], 8)
  }

  lemma {:induction false} OctetBitsConcat(s: seq<Octet>, t: seq<Octet>)
    ensures OctetBits(s + t) == OctetBits(s) + OctetBits(t)
  {
    hide BitsOf;
    if t == [] {
      assert s + t == s;
    } else {
      var k := |t| - 1;
      OctetBitsConcat(s, t[..k]);
      assert (s + t)[..|s + t| - 1] == s + t[..k];
      assert OctetBits(s + t) == OctetBits(s) + OctetBits(t[..k]) + BitsOf(t[k], 8);
    }
  }

  lemma OctetBitsTake(s: seq<Octet>, i: nat)
    requires i <= |s|
    ensures OctetBits(s[..i]) == OctetBits(s)[..8 * i] && OctetBits(s[i..]) == OctetBits(s)[8 * i..]
  {
    hide OctetBits;
    assert s == s[..i] + s[i..];
    OctetBitsConcat(s[..i], s[i..]);
  }

  lemma OctetBitsSlice(s: seq<Octet>, i: nat, j: nat)
    requires i <= j <= |s|
    ensures OctetBits(s[i..j]) == OctetBits(s)[8 * i..8 * j]
  {
    hide OctetBits;
    OctetBitsTake(s, j);
    OctetBitsTake(s[..j], i);
    assert s[..j][i..] == s[i..j];
    assert OctetBits(s)[..8 * j][8 * i..] == OctetBits(s)[8 * i..8 * j];
  }

  /** Octet after octet, the highest bit of each first. */
  lemma OctetBitsAt(s: seq<Octet>, i: nat)
    requires i < 8 * |s|
    ensures OctetBits(s)[i] == s[i / 8] / Pow2(7 - i % 8) % 2
  {
    hide OctetBits, Pow2, BitsOf;
    var k := i / 8;
    assert s[k..k + 1] == [s[k]];
    OctetBitsSlice(s, k, k + 1);
    OneOctet(s[k]);
    BitsOfAt(s[k], 8, i % 8);
    assert OctetBits(s)[8 * k..8 * (k + 1)][i % 8] == OctetBits(s)[i];
  }

  lemma OneOctet(x: Octet)
    ensures OctetBits([x]) == BitsOf(x, 8)
  {
    hide BitsOf;
    assert OctetBits([x][..0]) == [];
  }

  /** The bits determine the octets. */
  lemma {:induction false} OctetBitsInjective(s: seq<Octet>, t: seq<Octet>)
    requires OctetBits(s) == OctetBits(t)
    ensures s == t
  {
    hide BitsOf, OctetBits;
    assert |OctetBits(s)| == |OctetBits(t)|;
    if s != [] {
      var k := |s| - 1;
      LastOctet(s);
      LastOctet(t);
      OctetBitsInjective(s[..k], t[..k]);
      OctetInjective(s[k], t[k]);
      LastOf(s);
      LastOf(t);
    }
  }

  lemma LastOctet(s: seq<Octet>)
    requires s != []
    ensures var k := |s| - 1;
            OctetBits(s)[..8 * k] == OctetBits(s[..k]) && OctetBits(s)[8 * k..] == BitsOf(s[k], 8)
  {
    hide BitsOf;
    FrontOf(OctetBits(s[..|s| - 1]), BitsOf(s[|s| - 1], 8));
  }

  lemma OctetInjective(x: Octet, y: Octet)
    requires BitsOf(x, 8) == BitsOf(y, 8)
    ensures x == y
  {
    hide BitsOf;
    ValueOfBits(x, 8);
    ValueOfBits(y, 8);
    OctetFits(x);
    OctetFits(y);
  }

  /** The big-endian number of an octet string. */
  function WordOf(s: seq<Octet>): nat {
    if s == [] then 0 else 256 * WordOf(s[..|s| - 1]) + s[|s| - 1]
  }

  lemma {:induction false} WordBits(s: seq<Octet>)
    ensures BitsOf(WordOf(s), 8 * |s|) == OctetBits(s)
  {
    hide BitsOf, Shl, Shr, Low, Pow2, Fits;
    if s == [] {
    } else {
      var k := |s| - 1;
      WordBits(s[..k]);
      ByteShifts(WordOf(s[..k]));
      OctetFits(s[k]);
      BitsJoin(WordOf(s[..k]), s[k], 8 * k, 8);
    }
  }
}
