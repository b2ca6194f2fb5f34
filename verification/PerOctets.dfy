/**
  Whole PER values, from the writer to the reader: any list of bit fields, length determinants and
  the fragmented encodings of unconstrained octet strings and open types
  (libasn1c/src/per_support.c, libasn1c/src/OCTET_STRING.c, libasn1c/src/per_opentype.c).
 */
module PerOctets {
  import opened Gf2
  import opened Slices
  import opened Powers
  import opened PerBits
  import opened PerStream
  import opened PerReader

  // ---- lists of bit fields ----

  datatype Field = Field(value: nat, width: nat)

  function FieldBits(fields: seq<Field>): seq<Bit> {
    if fields == [] then [] else BitsOf(fields[0].value, fields[0].width) + FieldBits(fields[1..])
  }

  predicate Narrow(fields: seq<Field>) { forall i :: 0 <= i < |fields| ==> 1 <= fields[i].width <= 31 }

  lemma FieldStep(fields: seq<Field>, i: nat)
    requires i < |fields|
    ensures FieldBits(fields[i..]) == BitsOf(fields[i].value, fields[i].width) + FieldBits(fields[i + 1..])
  {
    hide BitsOf;
    assert fields[i..][1..] == fields[i + 1..];
  }

  method WriteFields(fields: seq<Field>) returns (octets: seq<Octet>, encoded: nat)
    requires Narrow(fields)
    ensures encoded == |FieldBits(fields)| && encoded <= 8 * |octets| < encoded + 8
    ensures OctetBits(octets) == FieldBits(fields) + Zeros(8 * |octets| - encoded)
  {
    hide BitsOf, OctetBits, FieldBits, Writer.Valid, Writer.Bits;
    var po := new Writer();
    assert fields[0..] == fields;
    NoFields();
    for i := 0 to |fields|
      invariant po.Valid() && fresh(po) && fresh(po.tmpspace) && po.Bits() + FieldBits(fields[i..]) == FieldBits(fields)
    {
      FieldStep(fields, i);
      Associate(po.Bits(), BitsOf(fields[i].value, fields[i].width), FieldBits(fields[i + 1..]));
      var ret := po.PutFewBits(fields[i].value, fields[i].width);
    }
    assert fields[|fields|..] == [];
    encoded := po.Finish();
    octets := po.out;
  }

  lemma NoFields()
    ensures FieldBits([]) == []
  {
  }

  method ReadFields(octets: seq<Octet>, fields: seq<Field>) returns (values: seq<int>, moved: nat)
    requires Narrow(fields) && FieldBits(fields) <= OctetBits(octets)
    ensures |values| == |fields| && forall i :: 0 <= i < |fields| ==> values[i] == Low(fields[i].value, fields[i].width)
    ensures moved == |FieldBits(fields)|
  {
    hide BitsOf, OctetBits, FieldBits, Low, ValueOf;
    var pd := new Reader(octets, 0, 8 * |octets|, 0);
    ghost var n := |FieldBits(fields)|;
    ghost var rest := OctetBits(octets)[n..];
    assert fields[0..] == fields;
    NoFields();
    values := [];
    for i := 0 to |fields|
      invariant pd.Valid() && fresh(pd) && pd.Rest() == FieldBits(fields[i..]) + rest
      invariant pd.moved + |FieldBits(fields[i..])| == n
      invariant |values| == i && forall j :: 0 <= j < i ==> values[j] == Low(fields[j].value, fields[j].width)
    {
      FieldStep(fields, i);
      ghost var b, c := BitsOf(fields[i].value, fields[i].width), FieldBits(fields[i + 1..]);
      assert (b + c + rest)[..|b|] == b && (b + c + rest)[|b|..] == c + rest;
      ValueOfBits(fields[i].value, fields[i].width);
      var v := pd.GetFewBits(fields[i].width);
      values := values + [v];
    }
    assert fields[|fields|..] == [];
    moved := pd.moved;
  }

  /** Whatever is written with widths from 1 to 31 is read back modulo 2^width, and the reader
      moves over exactly the bits that the writer counts. */
  method RoundTrip(fields: seq<Field>) returns (values: seq<int>, encoded: nat, moved: nat)
    requires Narrow(fields)
    ensures |values| == |fields| && moved == encoded
    ensures forall i :: 0 <= i < |fields| ==> values[i] == fields[i].value % Pow2(fields[i].width)
  {
    hide *;
    var octets;
    octets, encoded := WriteFields(fields);
    values, moved := ReadFields(octets, fields);
    forall i | 0 <= i < |fields| ensures values[i] == fields[i].value % Pow2(fields[i].width) {
      ShiftsAre(fields[i].value, fields[i].width);
    }
  }

  // ---- length determinants ----

  const FRAGMENT := 16384

  /** How many units the next fragment of `n` units carries. */
  function MaySave(n: nat): nat {
    if n < FRAGMENT then n else if n / FRAGMENT > 4 then 4 * FRAGMENT else n / FRAGMENT * FRAGMENT
  }

  /** The determinant of section 10.9.3 of X.691. */
  function LengthBits(n: nat): seq<Bit> {
    if n <= 127 then BitsOf(n, 8)
    else if n < FRAGMENT then BitsOf(0x8000 + n, 16)
    else BitsOf(0xC0 + (if n / FRAGMENT > 4 then 4 else n / FRAGMENT), 8)
  }

  /** Its octets: one up to 127, two below 16384, else the number of blocks of 16384, at most four. */
  function Determinant(n: nat): seq<Octet> {
    if n <= 127 then [n]
    else if n < 16384 then [0x80 + n / 256, n % 256]
    else if n < 65536 then [0xC0 + n / 16384] else [0xC4]
  }

  lemma LengthBitsAre(n: nat)
    ensures LengthBits(n) == OctetBits(Determinant(n))
    ensures |LengthBits(n)| == if 127 < n < 16384 then 16 else 8
    ensures MaySave(n) == if n < 16384 then n else if n < 65536 then n / 16384 * 16384 else 65536
  {
    hide BitsOf, OctetBits;
    if 127 < n < 16384 {
      var o := Determinant(n);
      TwoOctets(0x8000 + n);
      assert o == [o[0]] + [o[1]];
      OctetBitsConcat([o[0]], [o[1]]);
      OneOctet(o[0]);
      OneOctet(o[1]);
    } else {
      OneOctet(Determinant(n)[0]);
    }
  }

  /** `uper_put_length` */
  method PutLength(po: Writer, length: nat) returns (maySave: nat)
    requires po.Valid()
    modifies po, po.tmpspace
    ensures po.Valid() && po.Bits() == old(po.Bits()) + LengthBits(length) && maySave == MaySave(length)
  {
    hide BitsOf, OctetBits, Writer.Valid, Writer.Bits;
    var r;
    if length <= 127 {
      r := po.PutFewBits(length, 8);
      return length;
    } else if length < FRAGMENT {
      r := po.PutFewBits(0x8000 + length, 16);
      return length;
    }
    var m := length / FRAGMENT;
    if m > 4 {
      m := 4;
    }
    r := po.PutFewBits(0xC0 + m, 8);
    return m * FRAGMENT;
  }

  datatype Length = NoLength | Length(n: nat, repeat: bool, used: nat)

  /** What a determinant at the head of `bits` says. */
  function ParseLength(bits: seq<Bit>): (r: Length)
    ensures r.Length? ==> 8 <= r.used <= |bits|
  {
    if |bits| < 8 then NoLength
    else
      var v := ValueOf(bits[..8]);
      if v < 128 then Length(v, false, 8)
      else if v < 192 then
        if |bits| < 16 then NoLength else Length(256 * (v - 128) + ValueOf(bits[8..16]), false, 16)
      else if 193 <= v <= 196 then Length(FRAGMENT * (v - 192), true, 8)
      else NoLength
  }

  /** `uper_get_length`; `ebits` is negative where there is no effective bound. */
  method GetLength(pd: Reader, ebits: int) returns (length: int, repeat: bool)
    requires pd.Valid()
    modifies pd
    ensures pd.Valid()
    ensures ebits < 0 ==> (length < 0 <==> ParseLength(old(pd.Rest())).NoLength?)
    ensures ebits < 0 && 0 <= length ==>
              && old(pd.moved) <= pd.moved
              && ParseLength(old(pd.Rest())) == Length(length, repeat, pd.moved - old(pd.moved))
              && pd.Rest() == old(pd.Rest())[pd.moved - old(pd.moved)..]
    ensures 0 <= ebits ==> !repeat && (length < 0 <==> 31 < ebits || old(|pd.Rest()|) < ebits)
    ensures 0 <= ebits && 0 <= length ==>
              && length == ValueOf(old(pd.Rest())[..ebits])
              && pd.Rest() == old(pd.Rest())[ebits..] && pd.moved == old(pd.moved) + ebits
  {
    hide OctetBits, ValueOf;
    repeat := false;
    if ebits >= 0 {
      length := pd.GetFewBits(ebits);
      return;
    }
    ghost var was := pd.Rest();
    var value := pd.GetFewBits(8);
    if value < 0 {
      return -1, false;
    }
    EightBits(was[..8]);
    if value < 128 {
      return value, false;
    }
    if value < 192 {
      var low := pd.GetFewBits(8);
      if low < 0 {
        return -1, false;
      }
      assert was[8..][..8] == was[8..16] && was[8..][8..] == was[16..];
      return 256 * (value - 128) + low, false;
    }
    value := value - 192;
    if value < 1 || value > 4 {
      return -1, false;
    }
    return FRAGMENT * value, true;
  }

  lemma EightBits(bits: seq<Bit>)
    requires |bits| == 8
    ensures ValueOf(bits) < 256
  {
    hide ValueOf, Fits;
    ValueFits(bits);
    OctetFits(ValueOf(bits));
  }

  lemma OctetValue(v: nat)
    requires v < 256
    ensures ValueOf(BitsOf(v, 8)) == v
  {
    hide ValueOf, BitsOf, Low;
    ValueOfBits(v, 8);
    OctetFits(v);
  }

  lemma TwoOctets(v: nat)
    requires v < 65536
    ensures BitsOf(v, 16) == BitsOf(v / 256, 8) + BitsOf(v % 256, 8)
  {
    hide BitsOf, Shr, Low;
    BitsSplit(v, 8, 8);
    ByteShifts(v);
    BitsLow(v, 8);
  }

  /** Every determinant is read as it was written. */
  lemma LengthRoundTrip(n: nat, tail: seq<Bit>)
    ensures ParseLength(LengthBits(n) + tail) == Length(MaySave(n), n >= FRAGMENT, |LengthBits(n)|)
  {
    hide BitsOf, ValueOf;
    var bits := LengthBits(n) + tail;
    if n <= 127 {
      OctetValue(n);
      assert bits[..8] == BitsOf(n, 8);
    } else if n < FRAGMENT {
      var v := 0x8000 + n;
      TwoOctets(v);
      OctetValue(v / 256);
      OctetValue(v % 256);
      assert bits[..8] == BitsOf(v / 256, 8) && bits[8..16] == BitsOf(v % 256, 8);
    } else {
      var m := if n / FRAGMENT > 4 then 4 else n / FRAGMENT;
      OctetValue(0xC0 + m);
      assert bits[..8] == BitsOf(0xC0 + m, 8);
    }
  }

  /** The octets that stand for a length, shortest or not, and whether more follows. */
  predicate Determines(o: seq<Octet>, n: nat, repeat: bool) {
    && 1 <= |o| <= 2
    && var a: int := o[0];
       if |o| == 2 then 0x80 <= a < 0xC0 && n == 256 * (a - 0x80) + o[1] && !repeat
       else if repeat then 0xC1 <= a <= 0xC4 && n == 16384 * (a - 0xC0)
       else a < 0x80 && n == a
  }

  lemma DeterminantParsed(o: seq<Octet>, n: nat, repeat: bool, tail: seq<Bit>)
    requires Determines(o, n, repeat)
    ensures ParseLength(OctetBits(o) + tail) == Length(n, repeat, 8 * |o|)
  {
    hide OctetBits, BitsOf, ValueOf;
    var bits := OctetBits(o) + tail;
    assert o[..1] == [o[0]];
    OctetBitsTake(o, 1);
    OneOctet(o[0]);
    OctetValue(o[0]);
    assert bits[..8] == OctetBits(o)[..8];
    if |o| == 2 {
      assert o[1..] == [o[1]];
      OneOctet(o[1]);
      OctetValue(o[1]);
      assert bits[8..16] == OctetBits(o)[8..];
    }
  }

  /** The converse: whatever is parsed are such octets. */
  lemma ParsedDeterminant(bits: seq<Bit>) returns (o: seq<Octet>)
    requires ParseLength(bits).Length?
    ensures var r := ParseLength(bits);
            Determines(o, r.n, r.repeat) && r.used == 8 * |o| && bits[..r.used] == OctetBits(o)
  {
    hide OctetBits, BitsOf, ValueOf;
    var v := ValueOf(bits[..8]);
    EightBits(bits[..8]);
    BitsOfValue(bits[..8]);
    OneOctet(v);
    if 128 <= v < 192 {
      var w := ValueOf(bits[8..16]);
      EightBits(bits[8..16]);
      BitsOfValue(bits[8..16]);
      OneOctet(w);
      o := [v, w];
      assert o == [v] + [w];
      OctetBitsConcat([v], [w]);
      assert bits[..16] == bits[..8] + bits[8..16];
    } else {
      o := [v];
    }
  }

  // ---- fragments ----

  lemma AppendOctet(init: seq<Octet>, x: Octet, bits: seq<Bit>)
    requires |bits| >= 8 && OctetBits(init) == bits[..|bits| - 8] && BitsOf(x, 8) == bits[|bits| - 8..]
    ensures OctetBits(init + [x]) == bits
  {
    hide OctetBits, BitsOf;
    OctetBitsConcat(init, [x]);
    OneOctet(x);
  }

  /** The octets that a bit string of `n` octets holds. */
  function OctetsOf(bits: seq<Bit>, n: nat): (s: seq<Octet>)
    requires |bits| == 8 * n
  {
    if n == 0 then []
    else
      var k := 8 * (n - 1);
      EightBits(bits[k..]);
      OctetsOf(bits[..k], n - 1) + [ValueOf(bits[k..])]
  }

  lemma {:induction false} OctetsOfKeepsBits(bits: seq<Bit>, n: nat)
    requires |bits| == 8 * n
    ensures OctetBits(OctetsOf(bits, n)) == bits
  {
    hide BitsOf, ValueOf, OctetBits;
    if n == 0 {
      NoOctets();
    } else {
      var k := 8 * (n - 1);
      EightBits(bits[k..]);
      BitsOfValue(bits[k..]);
      OctetsOfKeepsBits(bits[..k], n - 1);
      AppendOctet(OctetsOf(bits[..k], n - 1), ValueOf(bits[k..]), bits);
    }
  }

  lemma OctetsOfBits(s: seq<Octet>)
    ensures OctetsOf(OctetBits(s), |s|) == s
  {
    hide OctetBits, OctetsOf;
    OctetsOfKeepsBits(OctetBits(s), |s|);
    OctetBitsInjective(OctetsOf(OctetBits(s), |s|), s);
  }

  lemma MaySaveSome(n: nat)
    requires 0 < n
    ensures 0 < MaySave(n) <= n && (n < FRAGMENT ==> MaySave(n) == n)
    ensures n >= FRAGMENT ==> (n - MaySave(n)) % FRAGMENT == n % FRAGMENT && (n % FRAGMENT != 0 ==> MaySave(n) < n)
  {
  }

  /** What the fragment loops write. */
  function Fragments(x: seq<Octet>): (bits: seq<Bit>) {
    if x == [] then []
    else
      MaySaveSome(|x|);
      var m := MaySave(|x|);
      LengthBits(|x|) + OctetBits(x[..m]) + Fragments(x[m..])
  }

  /** The encoding of an unconstrained octet string. */
  function StringBits(x: seq<Octet>): (bits: seq<Bit>) { if x == [] then LengthBits(0) else Fragments(x) }

  datatype Parsed = Starved | Got(octets: seq<Octet>, rest: seq<Bit>)

  function Prepend(s: seq<Octet>, p: Parsed): Parsed {
    match p
    case Starved => Starved
    case Got(more, rest) => Got(s + more, rest)
  }

  lemma PrependTwice(s: seq<Octet>, t: seq<Octet>, p: Parsed)
    ensures Prepend(s, Prepend(t, p)) == Prepend(s + t, p)
  {
    if p.Got? {
      Associate(s, t, p.octets);
    }
  }

  /** What the fragment loops read. */
  function ParseString(bits: seq<Bit>): (r: Parsed)
    decreases |bits|
  {
    var l := ParseLength(bits);
    if l.NoLength? || |bits| < l.used + 8 * l.n then Starved
    else
      var octets, rest := OctetsOf(bits[l.used..l.used + 8 * l.n], l.n), bits[l.used + 8 * l.n..];
      if l.repeat then Prepend(octets, ParseString(rest)) else Got(octets, rest)
  }

  lemma MiddlePart(l: seq<Bit>, d: seq<Bit>, rest: seq<Bit>)
    ensures (l + (d + rest))[|l|..|l| + |d|] == d && (l + (d + rest))[|l| + |d|..] == rest
  {
  }

  lemma Reassociate(a: seq<Bit>, b: seq<Bit>, c: seq<Bit>, d: seq<Bit>)
    ensures a + b + c + d == a + (b + (c + d))
  {
  }

  /** The first fragment of a string, read back. */
  lemma FirstFragment(x: seq<Octet>, tail: seq<Bit>)
    requires x != []
    ensures 0 < MaySave(|x|) <= |x|
    ensures var m := MaySave(|x|);
            ParseString(Fragments(x) + tail) ==
            if |x| < FRAGMENT then Got(x, tail) else Prepend(x[..m], ParseString(Fragments(x[m..]) + tail))
  {
    hide OctetBits, OctetsOf, LengthBits, ParseLength, MaySave, ParseString, Fragments;
    MaySaveSome(|x|);
    var m, l := MaySave(|x|), LengthBits(|x|);
    var d, rest := OctetBits(x[..m]), Fragments(x[m..]) + tail;
    var bits := Fragments(x) + tail;
    FragmentsUnfold(x);
    Reassociate(l, d, Fragments(x[m..]), tail);
    LengthRoundTrip(|x|, d + rest);
    MiddlePart(l, d, rest);
    OctetsOfBits(x[..m]);
    ParseStep(bits, m, |x| >= FRAGMENT, |l|);
    if |x| < FRAGMENT {
      Whole(x);
      assert x[m..] == [];
      NoFragments(tail);
    }
  }

  lemma FragmentsUnfold(x: seq<Octet>)
    requires x != []
    ensures 0 < MaySave(|x|) <= |x|
    ensures var m := MaySave(|x|); Fragments(x) == LengthBits(|x|) + OctetBits(x[..m]) + Fragments(x[m..])
  {
    hide OctetBits, LengthBits, MaySave;
    MaySaveSome(|x|);
  }

  /** Decoding inverts encoding, unless the string fills its fragments exactly: then the decoder
      goes on and takes what follows for a further fragment. */
  lemma {:induction false} FragmentsRoundTrip(x: seq<Octet>, tail: seq<Bit>)
    requires x != []
    ensures |x| % FRAGMENT != 0 ==> ParseString(Fragments(x) + tail) == Got(x, tail)
    ensures |x| % FRAGMENT == 0 ==> ParseString(Fragments(x) + tail) == Prepend(x, ParseString(tail))
    decreases |x|
  {
    hide ParseString, MaySave, Fragments;
    FirstFragment(x, tail);
    MaySaveSome(|x|);
    var m := MaySave(|x|);
    if |x| >= FRAGMENT {
      assert x == x[..m] + x[m..];
      if x[m..] == [] {
        NoFragments(tail);
        assert x[..m] == x;
      } else {
        FragmentsRoundTrip(x[m..], tail);
        PrependTwice(x[..m], x[m..], ParseString(tail));
      }
    }
  }

  lemma NoFragments(tail: seq<Bit>)
    ensures Fragments([]) + tail == tail
  {
  }

  /** An octet string on its own survives exactly when its length is 0 or not a multiple of 16384. */
  lemma StringSurvivesIff(x: seq<Octet>)
    ensures ParseString(StringBits(x)) == Got(x, []) <==> |x| == 0 || |x| % FRAGMENT != 0
    ensures |x| == 0 || |x| % FRAGMENT != 0 || ParseString(StringBits(x)) == Starved
  {
    hide Fragments, LengthBits, OctetsOf;
    if x == [] {
      EmptyString([]);
      assert LengthBits(0) + [] == LengthBits(0);
    } else {
      FragmentsRoundTrip(x, []);
      assert Fragments(x) + [] == Fragments(x);
      assert ParseString([]) == Starved;
    }
  }

  lemma EmptyString(tail: seq<Bit>)
    ensures ParseString(LengthBits(0) + tail) == Got([], tail)
  {
    hide OctetBits, OctetsOf, LengthBits, ParseLength;
    LengthRoundTrip(0, tail);
    var bits, n := LengthBits(0) + tail, |LengthBits(0)|;
    assert bits[n..n] == [] && bits[n..] == tail;
    OctetsOfBits([]);
    NoOctets();
  }

  // ---- the loops ----

  /** The fragment loop of `OCTET_STRING_encode_uper` and `uper_open_type_put`. */
  method PutFragments(po: Writer, x: seq<Octet>)
    requires po.Valid()
    modifies po, po.tmpspace
    ensures po.Valid() && po.Bits() == old(po.Bits()) + Fragments(x)
  {
    hide OctetBits, LengthBits, MaySave, Writer.Valid, Writer.Bits;
    var buf := x;
    ghost var was := po.Bits();
    while buf != []
      invariant po.Valid() && po.Bits() + Fragments(buf) == was + Fragments(x)
      decreases |buf|
    {
      MaySaveSome(|buf|);
      ghost var before := po.Bits();
      var maySave := PutLength(po, |buf|);
      PutManyBits(po, buf[..maySave], 8 * maySave);
      assert OctetBits(buf[..maySave])[..8 * maySave] == OctetBits(buf[..maySave]);
      FragmentStep(before, LengthBits(|buf|), OctetBits(buf[..maySave]), Fragments(buf[maySave..]));
      buf := buf[maySave..];
    }
    assert po.Bits() + [] == po.Bits();
  }

  lemma FragmentStep(a: seq<Bit>, b: seq<Bit>, c: seq<Bit>, d: seq<Bit>)
    ensures a + (b + c + d) == a + b + c + d
  {
  }

  /** `OCTET_STRING_encode_uper` without constraints. */
  method EncodeString(po: Writer, x: seq<Octet>)
    requires po.Valid()
    modifies po, po.tmpspace
    ensures po.Valid() && po.Bits() == old(po.Bits()) + StringBits(x)
  {
    hide Writer.Valid, Writer.Bits, Fragments, LengthBits;
    if x == [] {
      var r := PutLength(po, 0);
      return;
    }
    PutFragments(po, x);
  }

  /** The do-while loop of `OCTET_STRING_decode_uper` and `uper_open_type_get_simple`. */
  method DecodeString(pd: Reader) returns (ok: bool, st: seq<Octet>)
    requires pd.Valid()
    modifies pd
    ensures pd.Valid() && (ok <==> ParseString(old(pd.Rest())).Got?)
    ensures ok ==> ParseString(old(pd.Rest())) == Got(st, pd.Rest())
  {
    hide OctetBits, OctetsOf, ParseLength, ParseString;
    st := [];
    ghost var all := ParseString(pd.Rest());
    var repeat := true;
    while repeat
      invariant pd.Valid()
      invariant repeat ==> all == Prepend(st, ParseString(pd.Rest()))
      invariant !repeat ==> all == Got(st, pd.Rest())
      decreases repeat, |pd.Rest()|
    {
      ghost var bits, before := pd.Rest(), pd.moved;
      var rawLen;
      rawLen, repeat := GetLength(pd, -1);
      if rawLen < 0 {
        NoLengthStarves(bits);
        return false, [];
      }
      ghost var used := pd.moved - before;
      var fit, octets := GetManyBits(pd, false, 8 * rawLen);
      ParseStep(bits, rawLen, repeat, used);
      if !fit {
        return false, [];
      }
      assert bits[used..][..8 * rawLen] == bits[used..used + 8 * rawLen];
      assert bits[used..][8 * rawLen..] == bits[used + 8 * rawLen..];
      assert OctetBits(octets) == bits[used..used + 8 * rawLen];
      OctetsOfBits(octets);
      if repeat {
        PrependTwice(st, octets, ParseString(pd.Rest()));
      }
      st := st + octets;
    }
    ok := true;
  }

  lemma NoLengthStarves(bits: seq<Bit>)
    requires ParseLength(bits).NoLength?
    ensures ParseString(bits) == Starved
  {
  }

  lemma ParseStep(bits: seq<Bit>, n: nat, repeat: bool, used: nat)
    requires ParseLength(bits) == Length(n, repeat, used)
    ensures used <= |bits|
    ensures |bits| < used + 8 * n ==> ParseString(bits) == Starved
    ensures used + 8 * n <= |bits| ==>
              var octets, rest := OctetsOf(bits[used..used + 8 * n], n), bits[used + 8 * n..];
              ParseString(bits) == if repeat then Prepend(octets, ParseString(rest)) else Got(octets, rest)
  {
    hide OctetBits, OctetsOf;
  }

  lemma LengthAligned(n: nat)
    ensures |LengthBits(n)| == 8 || |LengthBits(n)| == 16
  {
  }

  lemma {:induction false} FragmentsAligned(x: seq<Octet>)
    ensures |Fragments(x)| % 8 == 0
    decreases |x|
  {
    hide MaySave, OctetBits, LengthBits;
    if x != [] {
      var m := MaySave(|x|);
      MaySaveSome(|x|);
      FragmentsAligned(x[m..]);
      LengthAligned(|x|);
      assert |Fragments(x)| == |LengthBits(|x|)| + 8 * m + |Fragments(x[m..])|;
    }
  }

  /** Encoder, final flush, reader and decoder together. */
  method StringLoopback(x: seq<Octet>) returns (ok: bool, st: seq<Octet>)
    ensures ok <==> |x| == 0 || |x| % FRAGMENT != 0
    ensures ok ==> st == x
  {
    hide OctetBits, Fragments, ParseString, Writer.Valid, Writer.Bits;
    var po := new Writer();
    EncodeString(po, x);
    FragmentsAligned(x);
    var encoded := po.Finish();
    assert StringBits(x) + Zeros(0) == StringBits(x);
    var pd := new Reader(po.out, 0, 8 * |po.out|, 0);
    assert pd.Rest() == StringBits(x);
    ok, st := DecodeString(pd);
    StringSurvivesIff(x);
  }
}
