/**
  The PER bit reader of libasn1c/src/per_support.c, without refill.
 */
module PerReader {
  import opened Gf2
  import opened Powers
  import opened PerBits
  import opened PerStream

  /** The bits from `k` to `off` of a word. */
  lemma LoadedBits(bs: seq<Octet>, k: nat, n: nat)
    requires k + n <= 8 * |bs|
    ensures ValueOf(OctetBits(bs)[k..k + n]) == Low(Shr(WordOf(bs), 8 * |bs| - (k + n)), n)
  {
    hide BitsOf, ValueOf, OctetBits, WordOf, Shr, Low;
    var free := 8 * |bs| - (k + n);
    var v := Shr(WordOf(bs), free);
    WordBits(bs);
    BitsSplit(WordOf(bs), k + n, free);
    BitsSplit(v, k, n);
    var a, b, c := BitsOf(Shr(v, n), k), BitsOf(v, n), BitsOf(WordOf(bs), free);
    assert OctetBits(bs) == a + b + c;
    assert (a + b + c)[k..k + n] == b;
    ValueOfBits(v, n);
  }

  lemma {:induction false} ValueConcat(a: seq<Bit>, b: seq<Bit>)
    ensures ValueOf(a + b) == Shl(ValueOf(a), |b|) + ValueOf(b)
  {
    if b == [] {
      assert a + b == a;
    } else {
      var k := |b| - 1;
      ValueConcat(a, b[..k]);
      assert (a + b)[..|a + b| - 1] == a + b[..k];
    }
  }

  lemma ValueFits(bits: seq<Bit>)
    ensures Fits(ValueOf(bits), |bits|)
  {
    hide BitsOf, ValueOf, Low;
    BitsOfValue(bits);
    ValueOfBits(ValueOf(bits), |bits|);
  }

  /** `asn_per_data_t`; advancing the pointer `buffer` drops octets from the sequence. */
  class Reader {
    var buffer: seq<Octet>
    var nboff: nat
    var nbits: nat
    var moved: nat

    predicate Valid()
      reads this
    {
      nboff <= nbits <= 8 * |buffer|
    }

    /** What is still to be read. */
    ghost function Rest(): (bits: seq<Bit>)
      requires Valid()
      reads this
      ensures |bits| == nbits - nboff
    {
      OctetBits(buffer)[nboff..nbits]
    }

    constructor (buffer: seq<Octet>, nboff: nat, nbits: nat, moved: nat)
      requires nboff <= nbits <= 8 * |buffer|
      ensures Valid() && this.buffer == buffer && this.nboff == nboff && this.nbits == nbits && this.moved == moved
    {
      this.buffer, this.nboff, this.nbits, this.moved := buffer, nboff, nbits, moved;
    }

    /** "Normalize position indicator." */
    method Normalize()
      requires Valid()
      modifies this
      ensures Valid() && Rest() == old(Rest()) && nboff < 8 && moved == old(moved)
              && nbits - nboff == old(nbits - nboff)
    {
      hide OctetBits;
      if nboff >= 8 {
        OctetBitsTake(buffer, nboff / 8);
        buffer := buffer[nboff / 8..];
        nbits := nbits - (nboff - nboff % 8);
        nboff := nboff % 8;
      }
    }

    /** The load and shift part: the `n` bits that end at offset `nboff`. */
    method Load(n: nat) returns (accum: nat)
      requires Valid() && n <= nboff <= 31 && nboff < n + 8
      ensures accum == ValueOf(OctetBits(buffer)[nboff - n..nboff])
    {
      hide OctetBits, ValueOf, Shr, Low, WordOf;
      var off := nboff;
      if off <= 8 {
        accum := if n != 0 then Shr(buffer[0], 8 - off) else 0;
        if n == 0 {
          NothingLoaded();
          assert OctetBits(buffer)[off..off] == [];
          return;
        }
        WordOf2(buffer[0], 0);
        assert buffer[..1] == [buffer[0]];
        LoadLemma(buffer, 1, off - n, n);
      } else if off <= 16 {
        var b0: nat, b1: nat := buffer[0], buffer[1];
        accum := Shr(256 * b0 + b1, 16 - off);
        WordOf2(buffer[0], buffer[1]);
        assert buffer[..2] == [buffer[0], buffer[1]];
        LoadLemma(buffer, 2, off - n, n);
      } else if off <= 24 {
        var b0: nat, b1: nat, b2: nat := buffer[0], buffer[1], buffer[2];
        accum := Shr(65536 * b0 + 256 * b1 + b2, 24 - off);
        WordOf3(buffer[0], buffer[1], buffer[2]);
        assert buffer[..3] == [buffer[0], buffer[1], buffer[2]];
        LoadLemma(buffer, 3, off - n, n);
      } else {
        var b0: nat, b1: nat, b2: nat, b3: nat := buffer[0], buffer[1], buffer[2], buffer[3];
        accum := Shr(16777216 * b0 + 65536 * b1 + 256 * b2 + b3, 32 - off);
        WordOf4(buffer[0], buffer[1], buffer[2], buffer[3]);
        assert buffer[..4] == [buffer[0], buffer[1], buffer[2], buffer[3]];
        LoadLemma(buffer, 4, off - n, n);
      }
      accum := Low(accum, n);
    }

    /** `per_get_few_bits`: the value of the next `n` bits, or -1 if there are fewer or `n` is
        negative or above 31. */
    method GetFewBits(n: int) returns (r: int)
      requires Valid()
      modifies this
      ensures Valid()
      ensures old(|Rest()|) < n || n < 0 || 31 < n ==> r == -1 && Rest() == old(Rest()) && moved == old(moved)
      ensures 0 <= n <= 31 && n <= old(|Rest()|) ==>
                && 0 <= r == ValueOf(old(Rest())[..n]) && Rest() == old(Rest())[n..] && moved == old(moved) + n
      decreases n
    {
      hide OctetBits, ValueOf, Shl, Shr, Low;
      if n < 0 {
        return -1;
      }
      var nleft := nbits - nboff;
      if n > nleft {
        return -1;
      }
      Normalize();
      ghost var was := Rest();
      moved := moved + n;
      nboff := nboff + n;
      assert OctetBits(buffer)[nboff - n..nboff] == was[..n];
      assert Rest() == was[n..];
      if nboff <= 31 {
        r := Load(n);
      } else if n <= 31 {
        var tpd := new Reader(buffer, nboff - n, nbits, moved - n);
        assert tpd.Rest() == was;
        var hi := tpd.GetFewBits(n - 24);
        var lo := tpd.GetFewBits(24);
        assert was[n - 24..][..24] == was[n - 24..n] && was[..n] == was[..n - 24] + was[n - 24..n];
        ValueConcat(was[..n - 24], was[n - 24..n]);
        r := Shl(hi, 24) + lo;
        ValueFits(was[..n]);
        r := Low(r, n);
      } else {
        nboff := nboff - n;
        moved := moved - n;
        r := -1;
      }
    }
  }

  /** The octets of a value, as `per_get_many_bits` stores them. */
  function Octets(v: nat, m: nat): (s: seq<Octet>)
    requires 1 <= m <= 3
    ensures |s| == m
  {
    (if m > 2 then [v / 65536 % 256] else []) + (if m > 1 then [v / 256 % 256] else []) + [v % 256]
  }

  lemma OctetsBits(v: nat, m: nat)
    requires 1 <= m <= 3 && Fits(v, 8 * m)
    ensures OctetBits(Octets(v, m)) == BitsOf(v, 8 * m)
  {
    hide OctetBits, BitsOf, WordOf, Low, Fits;
    var s := Octets(v, m);
    WordBits(s);
    FitsBelow(v, 8 * m);
    Pow2Octets();
    if m == 1 {
      WordOf2(s[0], 0);
      assert s == [s[0]];
    } else if m == 2 {
      WordOf2(s[0], s[1]);
      assert s == [s[0], s[1]];
    } else {
      WordOf3(s[0], s[1], s[2]);
      assert s == [s[0], s[1], s[2]];
      Digits3(v);
    }
  }

  lemma Pow2Octets()
    ensures Pow2(8) == 256 && Pow2(16) == 65536 && Pow2(24) == 16777216
  {
    assert Pow2(4) == 16;
    assert Pow2(7) == 128;
    assert Pow2(10) == 1024;
    assert Pow2(13) == 8192;
    assert Pow2(16) == 65536;
    assert Pow2(19) == 524288;
    assert Pow2(22) == 4194304;
  }

  /** The octets that hold `bits`, filled up with zeros. */
  lemma PaddedOctets(bits: seq<Bit>, free: nat, m: nat)
    requires 1 <= m <= 3 && |bits| + free == 8 * m
    ensures OctetBits(Octets(Shl(ValueOf(bits), free), m)) == bits + Zeros(free)
  {
    hide OctetBits, BitsOf, ValueOf, Low, Fits, Shl, Octets;
    var v := ValueOf(bits);
    ValueFits(bits);
    ShlFits(v, |bits|, free);
    OctetsBits(Shl(v, free), m);
    ShiftedBits(v, |bits|, free);
    BitsOfValue(bits);
    BitsZero(free);
  }

  lemma NothingLoaded()
    ensures ValueOf([]) == 0
  {
  }

  lemma LoadLemma(buffer: seq<Octet>, m: nat, k: nat, n: nat)
    requires m <= |buffer| && k + n <= 8 * m
    ensures ValueOf(OctetBits(buffer)[k..k + n]) == Low(Shr(WordOf(buffer[..m]), 8 * m - (k + n)), n)
  {
    hide OctetBits, ValueOf, Shr, Low, WordOf;
    LoadedBits(buffer[..m], k, n);
    OctetBitsTake(buffer, m);
    assert OctetBits(buffer)[..8 * m][k..k + n] == OctetBits(buffer)[k..k + n];
  }

  /** The loop of `per_get_many_bits`, which pads on the right. */
  method GetLeftBits(pd: Reader, count: nat) returns (ok: bool, dst: seq<Octet>)
    requires pd.Valid()
    modifies pd
    ensures pd.Valid() && (ok <==> count <= old(|pd.Rest()|))
    ensures ok ==>
              && count <= 8 * |dst| < count + 8
              && OctetBits(dst) == old(pd.Rest())[..count] + Zeros(8 * |dst| - count)
              && pd.Rest() == old(pd.Rest())[count..] && pd.moved == old(pd.moved) + count
  {
    hide OctetBits, ValueOf, BitsOf, Shl, Octets;
    var nbits := count;
    dst := [];
    ghost var was, done := pd.Rest(), 0;
    NoOctets();
    while nbits != 0
      invariant pd.Valid() && 0 <= nbits && count == done + nbits && done == 8 * |dst| && done <= |was|
      invariant OctetBits(dst) == was[..done] && pd.Rest() == was[done..] && pd.moved == old(pd.moved) + done
      decreases nbits
    {
      var n := if nbits >= 24 then 24 else nbits;
      var value := pd.GetFewBits(n);
      if value < 0 {
        return false, [];
      }
      Between(was, done, n);
      if nbits >= 24 {
        AppendOctets(dst, was, done, 24, 0, 3);
        ShlNone(value);
        dst := dst + Octets(value, 3);
        nbits := nbits - 24;
        done := done + 24;
        NoPadding(was[..done]);
      } else {
        var free := if n % 8 != 0 then 8 - n % 8 else 0;
        var m := (n + free) / 8;
        AppendOctets(dst, was, done, n, free, m);
        dst := dst + Octets(Shl(value, free), m);
        return true, dst;
      }
    }
    ok := true;
    NoPadding(was[..count]);
  }

  lemma Between(s: seq<Bit>, i: nat, n: nat)
    requires i + n <= |s|
    ensures s[i..][..n] == s[i..i + n] && s[i..][n..] == s[i + n..]
  {
  }

  lemma NoPadding(s: seq<Bit>)
    ensures s + Zeros(0) == s
  {
  }

  lemma AppendOctets(dst: seq<Octet>, was: seq<Bit>, done: nat, n: nat, free: nat, m: nat)
    requires done + n <= |was| && OctetBits(dst) == was[..done] && 1 <= m <= 3 && n + free == 8 * m
    ensures OctetBits(dst + Octets(Shl(ValueOf(was[done..done + n]), free), m)) == was[..done + n] + Zeros(free)
  {
    hide OctetBits, ValueOf, Shl, Octets;
    var bits := was[done..done + n];
    PaddedOctets(bits, free, m);
    OctetBitsConcat(dst, Octets(Shl(ValueOf(bits), free), m));
    assert was[..done + n] == was[..done] + bits;
  }

  lemma NoOctets()
    ensures OctetBits([]) == []
  {
  }

  lemma ShlNone(v: nat)
    ensures Shl(v, 0) == v
  {
  }

  /** `per_get_many_bits`: the next bits in octets, padded with zeros on the right, or on the left
      if `alright` asks for that. */
  method GetManyBits(pd: Reader, alright: bool, count: nat) returns (ok: bool, dst: seq<Octet>)
    requires pd.Valid()
    modifies pd
    ensures pd.Valid() && (ok <==> count <= old(|pd.Rest()|))
    ensures ok ==> count <= 8 * |dst| < count + 8
    ensures ok ==> OctetBits(dst) == var bits, pad := old(pd.Rest())[..count], Zeros(8 * |dst| - count);
                                     if alright then pad + bits else bits + pad
    ensures ok ==> pd.Rest() == old(pd.Rest())[count..] && pd.moved == old(pd.moved) + count
  {
    hide OctetBits, Reader.Rest;
    ghost var was := pd.Rest();
    if alright && count % 8 != 0 {
      ok, dst := GetRightBits(pd, count);
    } else {
      ok, dst := GetLeftBits(pd, count);
      if ok {
        SwapPadding(was[..count], 8 * |dst| - count);
      }
    }
  }

  method GetRightBits(pd: Reader, count: nat) returns (ok: bool, dst: seq<Octet>)
    requires pd.Valid() && count % 8 != 0
    modifies pd
    ensures pd.Valid() && (ok <==> count <= old(|pd.Rest()|))
    ensures ok ==> count <= 8 * |dst| < count + 8
    ensures ok ==> OctetBits(dst) == Zeros(8 * |dst| - count) + old(pd.Rest())[..count]
    ensures ok ==> pd.Rest() == old(pd.Rest())[count..] && pd.moved == old(pd.moved) + count
  {
    hide OctetBits, ValueOf, Reader.Rest;
    ghost var was := pd.Rest();
    var n := count % 8;
    var value := pd.GetFewBits(n);
    if value < 0 {
      return false, [];
    }
    HeadOctet(was[..n]);
    ok, dst := GetLeftBits(pd, count - n);
    if ok {
      Beyond(was, n, count);
      NoPadding(was[n..][..count - n]);
      AlignedJoin(value, dst, was, n, count);
      dst := [value] + dst;
    }
  }

  lemma Beyond(s: seq<Bit>, n: nat, count: nat)
    requires n <= count
    ensures count <= |s| ==> s[n..][count - n..] == s[count..]
  {
  }

  lemma SwapPadding(bits: seq<Bit>, n: nat)
    ensures n == 0 ==> Zeros(n) + bits == bits + Zeros(n)
  {
  }

  lemma HeadOctet(bits: seq<Bit>)
    requires |bits| < 8
    ensures ValueOf(bits) < 256 && OctetBits([ValueOf(bits)]) == Zeros(8 - |bits|) + bits
  {
    hide ValueOf, OctetBits, BitsOf;
    var n := |bits|;
    var v := ValueOf(Zeros(8 - n) + bits);
    ZerosValue(8 - n);
    ValueConcat(Zeros(8 - n), bits);
    ShlZero(n);
    assert v == ValueOf(bits);
    ValueFits(Zeros(8 - n) + bits);
    OctetFits(v);
    OneOctet(v);
    BitsOfValue(Zeros(8 - n) + bits);
  }

  lemma {:induction false} ZerosValue(n: nat)
    ensures ValueOf(Zeros(n)) == 0
  {
    if n > 0 {
      ZerosValue(n - 1);
      assert Zeros(n)[..n - 1] == Zeros(n - 1);
    }
  }

  lemma {:induction false} ShlZero(n: nat)
    ensures Shl(0, n) == 0
  {
    if n > 0 {
      ShlZero(n - 1);
    }
  }

  lemma AlignedJoin(x: Octet, dst: seq<Octet>, was: seq<Bit>, n: nat, count: nat)
    requires n < 8 && n <= count <= |was| && 8 * |dst| == count - n
    requires OctetBits([x]) == Zeros(8 - n) + was[..n] && OctetBits(dst) == was[n..][..count - n]
    ensures OctetBits([x] + dst) == Zeros(8 - n) + was[..count]
  {
    hide OctetBits;
    OctetBitsConcat([x], dst);
    assert was[..count] == was[..n] + was[n..][..count - n];
  }
}
