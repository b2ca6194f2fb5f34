/**
  The PER bit writer with its 32 octet buffer (libasn1c/src/per_support.c,
  libasn1c/src/per_encoder.c).  Octets are numbers below 256; shifts, masks and the joining of
  disjoint bit fields are written as Shl, Shr, Low and addition.
 */
module PerStream {
  import opened Gf2
  import opened Powers
  import opened PerBits

  const TMPSPACE := 32

  // ---- slices ----

  lemma PrefixOfJoin<T>(a: seq<T>, b: seq<T>, c: seq<T>)
    ensures (a + (b + c))[..|a| + |b|] == a + b
  {
  }

  lemma PrefixSplit(s: seq<Bit>, i: nat, m: seq<Bit>, k: nat)
    requires k <= |m| && i + |m| <= |s| && s[i..i + |m|] == m
    ensures s[..i + k] == s[..i] + m[..k]
  {
    forall j | 0 <= j < i + k ensures s[..i + k][j] == (s[..i] + m[..k])[j] {
      if i <= j {
        assert s[j] == s[i..i + |m|][j - i];
      }
    }
  }

  lemma Associate<T>(a: seq<T>, b: seq<T>, c: seq<T>)
    ensures a + (b + c) == (a + b) + c
  {
  }

  // ---- storing bits next to bits already present ----

  /** `x & omsk`: the upper `k` bits of an octet. */
  function Upper(x: Octet, k: nat): (r: Octet)
    requires k <= 8
  {
    UpperFits(x, k);
    Shl(Shr(x, 8 - k), 8 - k)
  }

  lemma UpperFits(x: Octet, k: nat)
    requires k <= 8
    ensures Shl(Shr(x, 8 - k), 8 - k) < 256
  {
    hide Shl, Shr, Low, Fits;
    OctetFits(x);
    ShrFits(x, k, 8 - k);
    ShlFits(Shr(x, 8 - k), k, 8 - k);
    OctetFits(Shl(Shr(x, 8 - k), 8 - k));
  }

  lemma {:induction false} WordOf2(a: Octet, b: Octet)
    ensures WordOf([a]) == a && WordOf([a, b]) == 256 * a + b
  {
    assert [a][..0] == [] && [a, b][..1] == [a];
  }

  lemma WordOf3(a: Octet, b: Octet, c: Octet)
    ensures WordOf([a, b, c]) == 65536 * a + 256 * b + c
  {
    assert [a, b, c][..2] == [a, b];
    WordOf2(a, b);
  }

  lemma WordOf4(a: Octet, b: Octet, c: Octet, d: Octet)
    ensures WordOf([a, b, c, d]) == 16777216 * a + 65536 * b + 256 * c + d
  {
    assert [a, b, c, d][..3] == [a, b, c];
    WordOf3(a, b, c);
  }

  lemma NestedDiv(v: nat)
    ensures v / 256 / 256 == v / 65536 && v / 65536 / 256 == v / 16777216
  {
  }

  lemma WideShl(v: nat)
    ensures Shl(v, 0) == v && Shl(v, 16) == 65536 * v && Shl(v, 24) == 16777216 * v
  {
    ShlAdd(v, 8, 8);
    ShlAdd(v, 16, 8);
    ByteShifts(v);
    ByteShifts(256 * v);
    ByteShifts(65536 * v);
  }

  lemma WideShr(v: nat)
    ensures Shr(v, 0) == v && Shr(v, 16) == v / 65536 && Shr(v, 24) == v / 16777216
  {
    ShrAdd(v, 8, 8);
    ShrAdd(v, 16, 8);
    ByteShifts(v);
    ByteShifts(v / 256);
    ByteShifts(v / 65536);
    NestedDiv(v);
  }

  /** The first octet of a store does not overflow. */
  lemma HeadFits(x: Octet, k: nat, s: nat, n: nat)
    requires k < 8 && Fits(s, 8 - k + n)
    ensures Upper(x, k) + Shr(s, n) < 256
  {
    hide Shl, Shr, Low, Fits;
    OctetFits(x);
    ShrFits(x, k, 8 - k);
    ShrFits(s, 8 - k, n);
    JoinFits(Shr(x, 8 - k), Shr(s, n), k, 8 - k);
    OctetFits(Upper(x, k) + Shr(s, n));
  }

  lemma ShiftedBits(v: nat, w: nat, free: nat)
    ensures BitsOf(Shl(v, free), w + free) == BitsOf(v, w) + BitsOf(0, free)
  {
    hide BitsOf, Shl, Fits;
    ZeroFits(free);
    BitsJoin(v, 0, w, free);
  }

  lemma JoinedPrefix(hi: nat, k: nat, v: nat, w: nat, free: nat)
    requires Fits(v, w)
    ensures BitsOf(Shl(hi, w + free) + Shl(v, free), k + (w + free))[..k + w] == BitsOf(hi, k) + BitsOf(v, w)
  {
    hide BitsOf, Shl, Fits;
    ShlFits(v, w, free);
    BitsJoin(hi, Shl(v, free), k, w + free);
    ShiftedBits(v, w, free);
    PrefixOfJoin(BitsOf(hi, k), BitsOf(v, w), BitsOf(0, free));
  }

  lemma UpperPart(x: Octet, k: nat)
    requires k <= 8
    ensures BitsOf(x, 8)[..k] == BitsOf(Shr(x, 8 - k), k)
  {
    hide BitsOf, Shr;
    BitsSplit(x, k, 8 - k);
  }

  /** A word made of the upper `k` bits of `x` and `w` new bits starts with exactly these. */
  lemma StoredBits(x: Octet, k: nat, v: nat, w: nat, bs: seq<Octet>)
    requires k < 8 && 0 < |bs| && k + w <= 8 * |bs| && Fits(v, w)
    requires WordOf(bs) == Shl(Upper(x, k), 8 * |bs| - 8) + Shl(v, 8 * |bs| - (k + w))
    ensures OctetBits(bs)[..k + w] == BitsOf(x, 8)[..k] + BitsOf(v, w)
  {
    hide Shl, Shr, Low, Fits, BitsOf, OctetBits, WordOf;
    var t, hi := 8 * |bs|, Shr(x, 8 - k);
    var free := t - (k + w);
    ShlAdd(hi, 8 - k, t - 8);
    assert WordOf(bs) == Shl(hi, w + free) + Shl(v, free);
    WordBits(bs);
    JoinedPrefix(hi, k, v, w, free);
    UpperPart(x, k);
  }

  /** Replacing octets from `b` on changes the bits from `8 * b` on. */
  lemma ReplacedBits(tmp: seq<Octet>, now: seq<Octet>, b: nat, bs: seq<Octet>, off: nat)
    requires b + |bs| <= |tmp| && off <= 8 * |bs| && now == tmp[..b] + bs + tmp[b + |bs|..]
    ensures OctetBits(now)[..8 * b + off] == OctetBits(tmp)[..8 * b] + OctetBits(bs)[..off]
  {
    hide OctetBits;
    OctetBitsConcat(tmp[..b] + bs, tmp[b + |bs|..]);
    OctetBitsConcat(tmp[..b], bs);
    OctetBitsSlice(tmp, 0, b);
  }

  lemma OctetAt(tmp: seq<Octet>, b: nat)
    requires b < |tmp|
    ensures OctetBits(tmp)[8 * b..8 * b + 8] == BitsOf(tmp[b], 8)
  {
    hide OctetBits, BitsOf;
    OctetBitsSlice(tmp, b, b + 1);
    assert tmp[b..b + 1] == [tmp[b]];
    OneOctet(tmp[b]);
  }

  lemma PartialOctet(tmp: seq<Octet>, b: nat, k: nat)
    requires b < |tmp| && k <= 8
    ensures OctetBits(tmp)[..8 * b + k] == OctetBits(tmp)[..8 * b] + BitsOf(tmp[b], 8)[..k]
  {
    OctetAt(tmp, b);
    var s, i, m := OctetBits(tmp), 8 * b, BitsOf(tmp[b], 8);
    hide *;
    PrefixSplit(s, i, m, k);
  }

  /** What a store of `w` bits at offset `k` of octet `b` makes of the buffer. */
  lemma StoreLemma(tmp: seq<Octet>, now: seq<Octet>, b: nat, k: nat, v: nat, w: nat, bs: seq<Octet>)
    requires 0 < |bs| && b + |bs| <= |tmp| && now == tmp[..b] + bs + tmp[b + |bs|..]
    requires k < 8 && k + w <= 8 * |bs| && Fits(v, w)
    requires WordOf(bs) == Shl(Upper(tmp[b], k), 8 * |bs| - 8) + Shl(v, 8 * |bs| - (k + w))
    ensures OctetBits(now)[..8 * b + k + w] == OctetBits(tmp)[..8 * b + k] + BitsOf(v, w)
  {
    hide Shl, Shr, Low, Fits, BitsOf, OctetBits, WordOf, Upper;
    StoredBits(tmp[b], k, v, w, bs);
    ReplacedBits(tmp, now, b, bs, k + w);
    PartialOctet(tmp, b, k);
    Associate(OctetBits(tmp)[..8 * b], BitsOf(tmp[b], 8)[..k], BitsOf(v, w));
  }

  lemma StoreFits(bits: nat, obits: nat, x: Octet, k: nat, n: nat)
    requires Fits(bits, obits) && k < 8 && k + obits <= 8 + n
    ensures var s := Shl(bits, 8 + n - (k + obits));
            && (n == 0 ==> Upper(x, k) + s < 256) && (n == 8 ==> Upper(x, k) + s / 256 < 256)
            && (n == 16 ==> Upper(x, k) + s / 65536 < 256) && (n == 24 ==> Upper(x, k) + s / 16777216 < 256)
  {
    hide Shl, Low, Fits, Upper;
    var s := Shl(bits, 8 + n - (k + obits));
    ShlFits(bits, obits, 8 + n - (k + obits));
    HeadFits(x, k, s, n);
    ByteShifts(s);
    WideShr(s);
  }

  /** The octets that the four branches of `per_put_few_bits` store. */
  function Stored(x: Octet, k: nat, v: nat, w: nat): (bs: seq<Octet>)
    requires k < 8 && k + w <= 31 && Fits(v, w)
  {
    hide Shl, Fits, Upper;
    var off, u := k + w, Upper(x, k);
    if off <= 8 then
      var s := Shl(v, 8 - off);
      StoreFits(v, w, x, k, 0);
      [u + s]
    else if off <= 16 then
      var s := Shl(v, 16 - off);
      StoreFits(v, w, x, k, 8);
      [u + s / 256, s % 256]
    else if off <= 24 then
      var s := Shl(v, 24 - off);
      StoreFits(v, w, x, k, 16);
      [u + s / 65536, s / 256 % 256, s % 256]
    else
      var s := Shl(v, 32 - off);
      StoreFits(v, w, x, k, 24);
      [u + s / 16777216, s / 65536 % 256, s / 256 % 256, s % 256]
  }

  lemma Digits3(s: nat)
    ensures s == 65536 * (s / 65536) + 256 * (s / 256 % 256) + s % 256
  {
    NestedDiv(s);
  }

  lemma Digits4(s: nat)
    ensures s == 16777216 * (s / 16777216) + 65536 * (s / 65536 % 256) + 256 * (s / 256 % 256) + s % 256
  {
    NestedDiv(s);
    Digits3(s);
  }

  lemma StoredWord(x: Octet, k: nat, v: nat, w: nat)
    requires k < 8 && 0 < w && k + w <= 31 && Fits(v, w)
    ensures var bs := Stored(x, k, v, w);
            && 0 < |bs| && k + w <= 8 * |bs| < k + w + 8
            && WordOf(bs) == Shl(Upper(x, k), 8 * |bs| - 8) + Shl(v, 8 * |bs| - (k + w))
  {
    hide Shl, Fits, Upper, WordOf;
    var bs, u := Stored(x, k, v, w), Upper(x, k);
    var s := Shl(v, 8 * |bs| - (k + w));
    WideShl(u);
    if |bs| == 1 {
      WordOf2(bs[0], 0);
    } else if |bs| == 2 {
      WordOf2(bs[0], bs[1]);
      ByteShifts(u);
    } else if |bs| == 3 {
      WordOf3(bs[0], bs[1], bs[2]);
      Digits3(s);
    } else {
      WordOf4(bs[0], bs[1], bs[2], bs[3]);
      Digits4(s);
    }
  }

  lemma UpperBits(x: Octet, k: nat)
    requires k < 8
    ensures BitsOf(Upper(x, k), 8) == BitsOf(x, 8)[..k] + Zeros(8 - k)
  {
    hide Shl, Shr, Low, Fits, BitsOf;
    ZeroFits(8 - k);
    BitsJoin(Shr(x, 8 - k), 0, k, 8 - k);
    BitsZero(8 - k);
    BitsSplit(x, k, 8 - k);
  }

  /** Handing the complete octets over and keeping the last, partial one. */
  lemma FlushLemma(sent: seq<Octet>, was: seq<Octet>, now: seq<Octet>, b: nat, k: nat)
    requires b <= |was| && k < 8 && 0 < |was| && |now| == |was|
    requires k != 0 ==> b < |was| && now[0] == was[b]
    ensures 8 * b + k <= 8 * |was| && OctetBits(sent + was[..b]) + OctetBits(now)[..k]
            == OctetBits(sent) + OctetBits(was)[..8 * b + k]
  {
    hide OctetBits;
    OctetBitsConcat(sent, was[..b]);
    OctetBitsSlice(was, 0, b);
    if k != 0 {
      OctetBitsSlice(now, 0, 1);
      OctetBitsSlice(was, b, b + 1);
      assert now[0..1] == was[b..b + 1];
      assert OctetBits(now)[..k] == OctetBits(now)[0..8][..k];
      assert OctetBits(was)[..8 * b + k] == OctetBits(was)[..8 * b] + OctetBits(was)[8 * b..8 * b + 8][..k];
    }
  }

  /** Clearing the unused bits of the last octet. */
  lemma FinishLemma(sent: seq<Octet>, was: seq<Octet>, now: seq<Octet>, p: nat)
    requires p <= 8 * |was| && |now| == |was|
    requires if p % 8 == 0 then now == was else now == was[p / 8 := Upper(was[p / 8], p % 8)]
    ensures var n := if p % 8 == 0 then p / 8 else p / 8 + 1;
            && n <= |now| && p <= 8 * n
            && OctetBits(sent + now[..n]) == OctetBits(sent) + OctetBits(was)[..p] + Zeros(8 * n - p)
  {
    hide OctetBits, Upper, BitsOf;
    var b, k := p / 8, p % 8;
    OctetBitsSlice(was, 0, b);
    if k == 0 {
      OctetBitsConcat(sent, now[..b]);
      assert OctetBits(was)[..p] == OctetBits(was[..b]);
      assert OctetBits(sent) + OctetBits(was)[..p] + Zeros(0) == OctetBits(sent) + OctetBits(was)[..p];
    } else {
      assert now[..b + 1] == was[..b] + [now[b]];
      OctetBitsConcat(sent, now[..b + 1]);
      OctetBitsConcat(was[..b], [now[b]]);
      OneOctet(now[b]);
      UpperBits(was[b], k);
      PartialOctet(was, b, k);
    }
  }

  // ---- writer ----

  /** `asn_per_outp_t`.  `buffer` is an index into `tmpspace`; `out` is what the callback got. */
  class Writer {
    const tmpspace: array<Octet>
    var buffer: nat
    var nboff: nat
    var nbits: nat
    var flushedBytes: nat
    var out: seq<Octet>

    ghost predicate Valid()
      reads this, tmpspace
    {
      && tmpspace.Length == TMPSPACE && buffer <= TMPSPACE
      && nbits == 8 * (TMPSPACE - buffer) && nboff <= nbits && flushedBytes == |out|
    }

    /** Everything written so far. */
    ghost function Bits(): (bits: seq<Bit>)
      requires Valid()
      reads this, tmpspace
      ensures |bits| == 8 * |out| + 8 * buffer + nboff
    {
      OctetBits(out) + OctetBits(tmpspace[..])[..8 * buffer + nboff]
    }

    constructor ()
      ensures Valid() && Bits() == [] && fresh(tmpspace)
    {
      tmpspace := new Octet[TMPSPACE](_ => 0);
      buffer, nboff, nbits, flushedBytes, out := 0, 0, 8 * TMPSPACE, 0, [];
    }

    /** "Normalize position indicator." */
    method Normalize()
      requires Valid()
      modifies this
      ensures Valid() && Bits() == old(Bits()) && nboff < 8 && out == old(out)
    {
      hide OctetBits;
      if nboff >= 8 {
        buffer := buffer + nboff / 8;
        nbits := nbits - (nboff - nboff % 8);
        nboff := nboff % 8;
      }
    }

    /** "Flush whole-bytes output, if necessary." */
    method MakeRoom(obits: nat)
      requires Valid() && nboff < 8 && obits <= 31
      modifies this, tmpspace
      ensures Valid() && Bits() == old(Bits()) && nboff == old(nboff) && nboff + obits <= nbits
    {
      hide OctetBits;
      if nboff + obits > nbits {
        ghost var was, sent := tmpspace[..], out;
        out := out + tmpspace[..buffer];
        ghost var b := buffer;
        if nboff != 0 {
          tmpspace[0] := tmpspace[buffer];
        }
        flushedBytes := flushedBytes + buffer;
        buffer := 0;
        nbits := 8 * TMPSPACE;
        FlushLemma(sent, was, tmpspace[..], b, nboff);
      }
    }

    /** The mask and store part. */
    method Store(bits: nat, obits: nat)
      requires Valid() && nboff < 8 && 0 < obits && nboff + obits <= 31 && nboff + obits <= nbits && Fits(bits, obits)
      modifies this`nboff, tmpspace
      ensures Valid() && Bits() == old(Bits()) + BitsOf(bits, obits)
    {
      hide Shl, Shr, Low, Fits, BitsOf, OctetBits, WordOf, Upper, Stored;
      var k, b := nboff, buffer;
      ghost var was := tmpspace[..];
      var bs := Stored(tmpspace[b], k, bits, obits);
      StoredWord(was[b], k, bits, obits);
      for i := 0 to |bs|
        modifies tmpspace
        invariant tmpspace[..] == was[..b] + bs[..i] + was[b + i..]
      {
        tmpspace[b + i] := bs[i];
      }
      assert bs[..|bs|] == bs;
      nboff := nboff + obits;
      StoreLemma(was, tmpspace[..], b, k, bits, obits, bs);
      Associate(OctetBits(out), OctetBits(was)[..8 * b + k], BitsOf(bits, obits));
    }

    /** `per_put_few_bits`: 0, or -1 for a width that is negative or above 31. */
    method PutFewBits(bits: nat, obits: int) returns (ret: int)
      requires Valid()
      modifies this, tmpspace
      ensures Valid()
      ensures ret == if 0 <= obits <= 31 then 0 else -1
      ensures Bits() == if 0 <= obits <= 31 then old(Bits()) + BitsOf(bits, obits) else old(Bits())
      decreases obits
    {
      hide Shl, Shr, Low, Fits, BitsOf, OctetBits;
      if obits <= 0 || obits >= 32 {
        ret := if obits != 0 then -1 else 0;
        return;
      }
      Normalize();
      MakeRoom(obits);
      var low := Low(bits, obits);
      LowFits(bits, obits);
      BitsLow(bits, obits);
      if nboff + obits <= 31 {
        Store(low, obits);
      } else {
        BitsSplit(low, 24, obits - 24);
        var r1 := PutFewBits(Shr(low, obits - 24), 24);
        var r2 := PutFewBits(low, obits - 24);
      }
      ret := 0;
    }

    /** `_uper_encode_flush_outp`, and the bit count that `uper_encode_internal` reports. */
    method Finish() returns (encoded: nat)
      requires Valid()
      modifies this, tmpspace
      ensures encoded == |old(Bits())|
      ensures encoded <= 8 * |out| < encoded + 8 && OctetBits(out) == old(Bits()) + Zeros(8 * |out| - encoded)
    {
      hide OctetBits, BitsOf, Shl, Shr;
      encoded := 8 * flushedBytes + (8 * buffer + nboff);
      if nboff == 0 && buffer == 0 {
        return;
      }
      var buf := buffer + nboff / 8;
      ghost var was, k := tmpspace[..], nboff % 8;
      if nboff % 8 != 0 {
        tmpspace[buf] := Upper(tmpspace[buf], nboff % 8);
        buf := buf + 1;
      }
      FinishLemma(out, was, tmpspace[..], 8 * buffer + nboff);
      out := out + tmpspace[..buf];
    }
  }

  /** The value of the next `n` bits of `src`, put together from one to three octets. */
  method ChunkValue(src: seq<Octet>, p: nat, n: nat) returns (value: nat)
    requires 0 < n <= 24 && 8 * p + n <= 8 * |src|
    ensures BitsOf(value, n) == OctetBits(src)[8 * p..8 * p + n]
  {
    hide OctetBits, BitsOf, Shr, WordOf;
    value := src[p];
    var m := 1;
    assert src[p..p + 1] == [src[p]];
    WordOf2(src[p], 0);
    if n > 8 {
      value := 256 * value + src[p + 1];
      m := 2;
      assert src[p..p + 2] == [src[p], src[p + 1]];
      WordOf2(src[p], src[p + 1]);
    }
    if n > 16 {
      value := 256 * value + src[p + 2];
      m := 3;
      assert src[p..p + 3] == [src[p], src[p + 1], src[p + 2]];
      WordOf3(src[p], src[p + 1], src[p + 2]);
    }
    TakenBits(src, p, m, n);
    if n % 8 != 0 {
      value := Shr(value, 8 - n % 8);
    }
  }

  lemma AppendSlice(was: seq<Bit>, all: seq<Bit>, i: nat, j: nat)
    requires i <= j <= |all|
    ensures was + all[..i] + all[i..j] == was + all[..j]
  {
    assert all[..j] == all[..i] + all[i..j];
  }

  /** `per_put_many_bits` */
  method PutManyBits(po: Writer, src: seq<Octet>, count: nat)
    requires po.Valid() && count <= 8 * |src|
    modifies po, po.tmpspace
    ensures po.Valid() && po.Bits() == old(po.Bits()) + OctetBits(src)[..count]
  {
    hide OctetBits, BitsOf, Writer.Valid, Writer.Bits;
    var nbits, p := count, 0;
    ghost var was, all := po.Bits(), OctetBits(src);
    while nbits != 0
      invariant po.Valid() && count == 8 * p + nbits && po.Bits() == was + all[..8 * p]
      decreases nbits
    {
      if nbits >= 24 {
        var value := ChunkValue(src, p, 24);
        var r := po.PutFewBits(value, 24);
        AppendSlice(was, all, 8 * p, 8 * p + 24);
        p := p + 3;
        nbits := nbits - 24;
      } else {
        var value := ChunkValue(src, p, nbits);
        var r := po.PutFewBits(value, nbits);
        AppendSlice(was, all, 8 * p, 8 * p + nbits);
        return;
      }
    }
  }

  /** The first `n` bits of `m` octets. */
  lemma TakenBits(src: seq<Octet>, p: nat, m: nat, n: nat)
    requires p + m <= |src| && n <= 8 * m
    ensures BitsOf(Shr(WordOf(src[p..p + m]), 8 * m - n), n) == OctetBits(src)[8 * p..8 * p + n]
    ensures n == 8 * m ==> BitsOf(WordOf(src[p..p + m]), n) == OctetBits(src)[8 * p..8 * p + n]
  {
    hide OctetBits, BitsOf, Shr, WordOf;
    var v := WordOf(src[p..p + m]);
    WordBits(src[p..p + m]);
    OctetBitsSlice(src, p, p + m);
    BitsSplit(v, n, 8 * m - n);
    var all := OctetBits(src);
    assert all[8 * p..8 * (p + m)][..n] == all[8 * p..8 * p + n];
  }
}
