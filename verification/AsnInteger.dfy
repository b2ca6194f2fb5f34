/**
  INTEGER contents octets (libasn1c/src/INTEGER.c): canonical form, and conversion from and to a
  64-bit `long`.
 */
module AsnInteger {
  import opened PerBits
  import opened Powers

  const SIZEOF_LONG := 8

  /** The two's complement value; no octets stand for 0. */
  function Value(s: seq<Octet>): int {
    if s == [] then 0
    else if |s| == 1 then (if s[0] >= 128 then s[0] - 256 else s[0])
    else 256 * Value(s[..|s| - 1]) + s[|s| - 1]
  }

  /** As a number without sign, less 2^(8 n) if the first bit is set. */
  lemma {:induction false} ValueIs(s: seq<Octet>)
    ensures Value(s) == WordOf(s) - (if s != [] && s[0] >= 128 then Pow2(8 * |s|) else 0)
  {
    if s != [] {
      var k := |s| - 1;
      OctetPower(8 * k);
      if k == 0 {
        assert WordOf(s) == 256 * WordOf(s[..0]) + s[0];
        assert Pow2(0) == 1;
      } else {
        ValueIs(s[..k]);
      }
    }
  }

  lemma OctetPower(n: nat)
    ensures Pow2(n + 8) == 256 * Pow2(n)
  {
    assert Pow2(n + 2) == 4 * Pow2(n);
    assert Pow2(n + 4) == 16 * Pow2(n) by { assert Pow2(n + 3) == 2 * Pow2(n + 2); }
    assert Pow2(n + 6) == 64 * Pow2(n) by { assert Pow2(n + 5) == 2 * Pow2(n + 4); }
    assert Pow2(n + 8) == 2 * Pow2(n + 7);
  }

  /** A first octet that only repeats the sign, section 8.3.2 of X.690. */
  predicate Superfluous(a: Octet, b: Octet) { (a == 0 && b < 128) || (a == 255 && b >= 128) }

  predicate IsMinimal(s: seq<Octet>) { |s| <= 1 || !Superfluous(s[0], s[1]) }

  /** The contents without superfluous octets. */
  function Canonical(s: seq<Octet>): (r: seq<Octet>)
    ensures IsMinimal(r)
  {
    if |s| >= 2 && Superfluous(s[0], s[1]) then Canonical(s[1..]) else s
  }

  lemma {:induction false} DropFirst(s: seq<Octet>)
    requires |s| >= 2 && Superfluous(s[0], s[1])
    ensures Value(s[1..]) == Value(s)
  {
    var k := |s| - 1;
    if k == 1 {
      assert s[..1] == [s[0]];
    } else {
      DropFirst(s[..k]);
      assert s[1..][..k - 1] == s[..k][1..];
    }
  }

  /** Canonicalisation keeps the value. */
  lemma {:induction false} CanonicalValue(s: seq<Octet>)
    ensures Value(Canonical(s)) == Value(s)
  {
    if |s| >= 2 && Superfluous(s[0], s[1]) {
      DropFirst(s);
      CanonicalValue(s[1..]);
    }
  }

  // ---- ranges ----

  /** Half the number of values of `n` octets. */
  function Half(n: nat): (h: int)
    requires 1 <= n
    ensures h >= 128
  {
    if n == 1 then 128 else 256 * Half(n - 1)
  }

  lemma {:induction false} HalfIs(n: nat)
    requires 1 <= n
    ensures 2 * Half(n) == Pow2(8 * n)
  {
    hide Pow2;
    if n == 1 {
      OctetPowers();
      OctetPower(0);
    } else {
      HalfIs(n - 1);
      OctetPower(8 * (n - 1));
    }
  }

  predicate InRange(v: int, n: nat)
    requires 1 <= n
  {
    -Half(n) <= v < Half(n)
  }

  lemma {:induction false} ValueInRange(s: seq<Octet>)
    requires s != []
    ensures InRange(Value(s), |s|)
  {
    if |s| > 1 {
      ValueInRange(s[..|s| - 1]);
    }
  }

  /** A minimal encoding has no octet to spare. */
  lemma {:induction false} MinimalNeedsAll(s: seq<Octet>)
    requires |s| >= 2 && IsMinimal(s)
    ensures !InRange(Value(s), |s| - 1)
  {
    var k := |s| - 1;
    if k == 1 {
      assert s[..1] == [s[0]];
    } else {
      MinimalNeedsAll(s[..k]);
    }
  }

  lemma {:induction false} SameLengthInjective(s: seq<Octet>, t: seq<Octet>)
    requires |s| == |t| && Value(s) == Value(t)
    ensures s == t
  {
    if |s| > 1 {
      var k := |s| - 1;
      assert s[k] == Value(s) % 256 && t[k] == Value(t) % 256;
      SameLengthInjective(s[..k], t[..k]);
      assert s == s[..k] + [s[k]] && t == t[..k] + [t[k]];
    }
  }

  lemma {:induction false} RangesGrow(v: int, m: nat, n: nat)
    requires 1 <= m <= n && InRange(v, m)
    ensures InRange(v, n)
    decreases n
  {
    if m < n {
      RangesGrow(v, m, n - 1);
    }
  }

  /** Every value has one minimal encoding only. */
  lemma MinimalUnique(s: seq<Octet>, t: seq<Octet>)
    requires s != [] && t != [] && IsMinimal(s) && IsMinimal(t) && Value(s) == Value(t)
    ensures s == t
  {
    hide Value, Half;
    if |s| > |t| {
      ValueInRange(t);
      RangesGrow(Value(t), |t|, |s| - 1);
      MinimalNeedsAll(s);
    } else if |t| > |s| {
      ValueInRange(s);
      RangesGrow(Value(s), |s|, |t| - 1);
      MinimalNeedsAll(t);
    } else {
      SameLengthInjective(s, t);
    }
  }

  // ---- INTEGER_encode_der ----

  /** `INTEGER_t` */
  class Integer {
    var buf: array<Octet>
    var size: nat

    ghost predicate Valid()
      reads this
    {
      size <= buf.Length
    }

    constructor (buf: array<Octet>, size: nat)
      requires size <= buf.Length
      ensures Valid() && this.buf == buf && this.size == size
    {
      this.buf, this.size := buf, size;
    }

    /** The canonicalising part of `INTEGER_encode_der`, in place. */
    method Canonicalize()
      requires Valid()
      modifies this`size, buf
      ensures Valid() && buf[..size] == Canonical(old(buf[..size]))
    {
      ghost var was := buf[..size];
      var b := 0;
      while b < size - 1 && Superfluous(buf[b], buf[b + 1])
        invariant 0 <= b && (b == 0 || b <= size - 1) && Canonical(was) == Canonical(was[b..])
      {
        assert was[b..][1..] == was[b + 1..];
        b := b + 1;
      }
      assert Canonical(was[b..]) == was[b..];
      if b != 0 {
        var shift := b;
        size := size - shift;
        for nb := 0 to size
          invariant forall i :: 0 <= i < nb ==> buf[i] == was[shift + i]
          invariant forall i :: nb <= i < |was| ==> buf[i] == was[i]
          modifies buf
        {
          buf[nb] := buf[shift + nb];
        }
      }
    }
  }

  // ---- long ----

  /** The first octet that is not superfluous. */
  method SkipLeading(s: seq<Octet>) returns (b: nat)
    ensures b <= |s| && s[b..] == Canonical(s)
  {
    b := 0;
    while b + 1 < |s| && Superfluous(s[b], s[b + 1])
      invariant b <= |s| && Canonical(s) == Canonical(s[b..])
    {
      assert s[b..][1..] == s[b + 1..];
      b := b + 1;
    }
  }

  predicate FitsLong(v: int) { -0x8000_0000_0000_0000 <= v < 0x8000_0000_0000_0000 }

  lemma LongRange(v: int)
    ensures FitsLong(v) <==> InRange(v, SIZEOF_LONG)
  {
    assert Half(4) == 0x8000_0000 by { assert Half(2) == 0x8000; }
    assert Half(6) == 0x8000_0000_0000;
    assert Half(8) == 0x8000_0000_0000_0000;
  }

  /** `asn_INTEGER2long`: succeeds exactly when the value fits, and then gives it. */
  method Integer2Long(s: seq<Octet>) returns (ok: bool, l: int)
    ensures ok <==> FitsLong(Value(s))
    ensures ok ==> l == Value(s)
  {
    hide Value, Half, Canonical;
    var b := 0;
    CanonicalValue(s);
    LongRange(Value(s));
    if |s| > SIZEOF_LONG {
      b := SkipLeading(s);
      if |s| - b > SIZEOF_LONG {
        assert !InRange(Value(s), SIZEOF_LONG) by {
          MinimalNeedsAll(Canonical(s));
          if InRange(Value(s), SIZEOF_LONG) {
            RangesGrow(Value(s), SIZEOF_LONG, |s| - b - 1);
          }
        }
        return false, 0;
      }
    }
    ghost var t := s[b..];
    assert Value(t) == Value(s);
    if b == |s| {
      NoOctetsValue();
      return true, 0;
    }
    ValueInRange(t);
    RangesGrow(Value(t), |t|, SIZEOF_LONG);
    l := if s[b] >= 128 then -1 else 0;
    ghost var done := 0;
    while b < |s|
      invariant b <= |s| && done <= |t| && b + |t| == |s| + done
      invariant done == 0 ==> l == if t[0] >= 128 then -1 else 0
      invariant done > 0 ==> l == Value(t[..done])
    {
      ValueStep(t, done);
      l := 256 * l + s[b];
      b := b + 1;
      done := done + 1;
    }
    assert t[..done] == t;
    ok := true;
  }

  lemma NoOctetsValue()
    ensures Value([]) == 0
  {
  }

  lemma ValueStep(t: seq<Octet>, i: nat)
    requires i < |t|
    ensures Value(t[..i + 1]) == 256 * (if i == 0 then (if t[0] >= 128 then -1 else 0) else Value(t[..i])) + t[i]
  {
    assert t[..i + 1][..i] == t[..i];
  }

  /** The octets of a value in memory, the most significant first. */
  function Fixed(v: int, n: nat): (s: seq<Octet>)
    requires 1 <= n
    ensures |s| == n
    decreases n
  {
    if n == 1 then [v % 256] else Fixed(v / 256, n - 1) + [v % 256]
  }

  lemma {:induction false} FixedValue(v: int, n: nat)
    requires 1 <= n && InRange(v, n)
    ensures Value(Fixed(v, n)) == v
    decreases n
  {
    if n > 1 {
      FixedValue(v / 256, n - 1);
      assert Fixed(v, n)[..n - 1] == Fixed(v / 256, n - 1);
    }
  }

  /** `asn_long2INTEGER`: the one minimal encoding of the value. */
  method Long2Integer(value: int) returns (buf: seq<Octet>)
    requires FitsLong(value)
    ensures buf != [] && IsMinimal(buf) && Value(buf) == value
  {
    hide Value, Half, Canonical, Fixed;
    LongRange(value);
    FixedValue(value, SIZEOF_LONG);
    var octets := Fixed(value, SIZEOF_LONG);
    var p := SkipLeading(octets);
    CanonicalValue(octets);
    CanonicalNonempty(octets);
    buf := [];
    for i := p to |octets|
      invariant buf == octets[p..i]
    {
      buf := buf + [octets[i]];
    }
    assert octets[p..|octets|] == octets[p..];
  }

  lemma {:induction false} CanonicalNonempty(s: seq<Octet>)
    requires s != []
    ensures Canonical(s) != []
  {
    if |s| >= 2 && Superfluous(s[0], s[1]) {
      CanonicalNonempty(s[1..]);
    }
  }

  /** There and back. */
  method LongLoopback(value: int) returns (ok: bool, l: int)
    requires FitsLong(value)
    ensures ok && l == value
  {
    var buf := Long2Integer(value);
    ok, l := Integer2Long(buf);
  }

  /** Back and there: contents that fit come back in canonical form. */
  method ContentsLoopback(s: seq<Octet>) returns (ok: bool, buf: seq<Octet>)
    requires s != []
    ensures ok <==> FitsLong(Value(s))
    ensures ok ==> buf == Canonical(s)
  {
    hide Value, Canonical;
    buf := [];
    var l;
    ok, l := Integer2Long(s);
    if ok {
      buf := Long2Integer(l);
      CanonicalValue(s);
      CanonicalNonempty(s);
      MinimalUnique(buf, Canonical(s));
    }
  }
}
