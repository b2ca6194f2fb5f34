/**
  The block codes of gsm-parser/crc.c (`parity_encode`, `parity_check`): division of bit strings
  by a generator over GF(2), for any data size, parity size and generator.
 */
module Crc {
  import opened Gf2
  import opened Slices

  // ---- long division ----

  /** `q[i] ^= poly[i]` for the first `k` coefficients. */
  function XorAt(buf: seq<Bit>, q: nat, poly: seq<Bit>, k: nat): (r: seq<Bit>)
    requires k <= |poly| && q + k <= |buf|
    ensures |r| == |buf|
  {
    seq(|buf|, i requires 0 <= i < |buf| => if q <= i < q + k then Xor(buf[i], poly[i - q]) else buf[i])
  }

  /** One round of the outer loop: cancel the bit at position `q`. */
  function Step(buf: seq<Bit>, q: nat, poly: seq<Bit>): (r: seq<Bit>)
    requires q + |poly| <= |buf| && 0 < |poly|
    ensures |r| == |buf|
  {
    if buf[q] == 1 then XorAt(buf, q, poly, |poly|) else buf
  }

  /** The buffer after `d` rounds. */
  function Reduced(buf: seq<Bit>, poly: seq<Bit>, d: nat): (r: seq<Bit>)
    requires 0 < |poly| && d + |poly| <= |buf| + 1
    ensures |r| == |buf|
  {
    if d == 0 then buf else Step(Reduced(buf, poly, d - 1), d - 1, poly)
  }

  /** What is left of a word of `d` data bits and |poly| - 1 parity bits. */
  function Remainder(word: seq<Bit>, poly: seq<Bit>): (r: seq<Bit>)
    requires 0 < |poly| <= |word| + 1
    ensures |r| == |poly| - 1
  {
    var d := |word| + 1 - |poly|;
    Reduced(word, poly, d)[d..]
  }

  /** What `parity_encode` appends: the inverted remainder of the data followed by zeros. */
  function Parity(data: seq<Bit>, poly: seq<Bit>): (p: seq<Bit>)
    requires 0 < |poly|
    ensures |p| == |poly| - 1
  {
    var r := Remainder(data + Zeros(|poly| - 1), poly);
    seq(|r|, i requires 0 <= i < |r| => 1 - r[i])
  }

  /** The inner loop of both functions. */
  method Cancel(buf: array<Bit>, q: nat, poly: seq<Bit>)
    requires 0 < |poly| && q + |poly| <= buf.Length && buf[q] == 1
    modifies buf
    ensures buf[..] == Step(old(buf[..]), q, poly)
  {
    ghost var was := buf[..];
    for i := 0 to |poly|
      invariant buf[..] == XorAt(was, q, poly, i)
    {
      assert buf[q + i] == buf[..][q + i] == was[q + i];
      buf[q + i] := Xor(buf[q + i], poly[i]);
    }
  }

  /** The outer loop of both functions. */
  method Divide(buf: array<Bit>, dsize: nat, poly: seq<Bit>)
    requires 0 < |poly| && buf.Length + 1 == dsize + |poly|
    modifies buf
    ensures buf[..] == Reduced(old(buf[..]), poly, dsize)
  {
    for q := 0 to dsize
      invariant buf[..] == Reduced(old(buf[..]), poly, q)
    {
      if buf[q] == 1 {
        Cancel(buf, q, poly);
      }
    }
  }

  method ParityEncode(data: seq<Bit>, poly: seq<Bit>) returns (parity: seq<Bit>)
    requires 0 < |poly|
    ensures parity == Parity(data, poly)
  {
    var dsize, psize := |data|, |poly| - 1;
    var buf := new Bit[dsize + psize](i => if 0 <= i < dsize then data[i] else 0);
    assert buf[..] == data + Zeros(psize);
    Divide(buf, dsize, poly);
    parity := [];
    for i := 0 to psize
      invariant |parity| == i && forall j :: 0 <= j < i ==> parity[j] == 1 - buf[dsize + j]
    {
      parity := parity + [1 - buf[dsize + i]];
    }
  }

  /** True when the C function returns 0. */
  method ParityCheck(word: seq<Bit>, dsize: nat, poly: seq<Bit>, remainder: seq<Bit>) returns (ok: bool)
    requires 0 < |poly| && |word| + 1 == dsize + |poly| && |remainder| + 1 == |poly|
    ensures ok <==> Remainder(word, poly) == remainder
  {
    var buf := new Bit[|word|](i requires 0 <= i < |word| => word[i]);
    assert buf[..] == word;
    Divide(buf, dsize, poly);
    ok := buf[dsize..] == remainder;
    assert buf[dsize..] == buf[..][dsize..];
  }

  // ---- linearity ----

  /** What a round adds to position `i`. */
  function Added(top: Bit, q: nat, poly: seq<Bit>, i: nat): Bit {
    if top == 1 && q <= i < q + |poly| then poly[i - q] else 0
  }

  lemma StepAt(buf: seq<Bit>, q: nat, poly: seq<Bit>, i: nat)
    requires 0 < |poly| && q + |poly| <= |buf| && i < |buf|
    ensures Step(buf, q, poly)[i] == Xor(buf[i], Added(buf[q], q, poly, i))
  {
    if buf[q] == 1 {
      XorAtIndex(buf, q, poly, |poly|, i);
    }
    hide XorAt;
    assert Xor(buf[i], 0) == buf[i];
  }

  lemma XorAtIndex(buf: seq<Bit>, q: nat, poly: seq<Bit>, k: nat, i: nat)
    requires k <= |poly| && q + k <= |buf| && i < |buf|
    ensures XorAt(buf, q, poly, k)[i] == if q <= i < q + k then Xor(buf[i], poly[i - q]) else buf[i]
  {
    hide Xor;
  }

  lemma StepLinear(a: seq<Bit>, b: seq<Bit>, q: nat, poly: seq<Bit>)
    requires |a| == |b| && 0 < |poly| && q + |poly| <= |a|
    ensures Step(Sum(a, b), q, poly) == Sum(Step(a, q, poly), Step(b, q, poly))
  {
    hide Step;
    forall i | 0 <= i < |a|
      ensures Step(Sum(a, b), q, poly)[i] == Sum(Step(a, q, poly), Step(b, q, poly))[i]
    {
      StepAt(Sum(a, b), q, poly, i);
      StepAt(a, q, poly, i);
      StepAt(b, q, poly, i);
    }
  }

  lemma {:induction false} ReducedLinear(a: seq<Bit>, b: seq<Bit>, poly: seq<Bit>, d: nat)
    requires |a| == |b| && 0 < |poly| && d + |poly| <= |a| + 1
    ensures Reduced(Sum(a, b), poly, d) == Sum(Reduced(a, poly, d), Reduced(b, poly, d))
  {
    if d > 0 {
      ReducedLinear(a, b, poly, d - 1);
      StepLinear(Reduced(a, poly, d - 1), Reduced(b, poly, d - 1), d - 1, poly);
    }
  }

  lemma RemainderLinear(a: seq<Bit>, b: seq<Bit>, poly: seq<Bit>)
    requires |a| == |b| && 0 < |poly| <= |a| + 1
    ensures Remainder(Sum(a, b), poly) == Sum(Remainder(a, poly), Remainder(b, poly))
  {
    hide Reduced, Xor;
    ReducedLinear(a, b, poly, |a| + 1 - |poly|);
  }

  /** Rounds at zero bits change nothing. */
  lemma {:induction false} ReducedIdle(buf: seq<Bit>, poly: seq<Bit>, d: nat)
    requires 0 < |poly| && d + |poly| <= |buf| + 1 && forall i :: 0 <= i < d ==> buf[i] == 0
    ensures Reduced(buf, poly, d) == buf
  {
    if d > 0 {
      ReducedIdle(buf, poly, d - 1);
    }
  }

  // ---- acceptance ----

  /** A word is accepted exactly when its parity bits are the ones the encoder appends. */
  lemma AcceptedIffEncoded(data: seq<Bit>, parity: seq<Bit>, poly: seq<Bit>)
    requires 0 < |poly| && |parity| + 1 == |poly|
    ensures Remainder(data + parity, poly) == Ones(|parity|) <==> parity == Parity(data, poly)
  {
    hide Reduced, Remainder, Sum;
    var n := |parity|;
    var a, b := data + Zeros(n), Zeros(|data|) + parity;
    SplitSum(data, parity);
    RemainderLinear(a, b, poly);
    IdleRemainder(|data|, parity, poly);
    InvertedIs(Remainder(a, poly), parity);
  }

  lemma SplitSum(data: seq<Bit>, parity: seq<Bit>)
    ensures data + parity == Sum(data + Zeros(|parity|), Zeros(|data|) + parity)
  {
  }

  /** A word without data bits is its own remainder. */
  lemma IdleRemainder(d: nat, parity: seq<Bit>, poly: seq<Bit>)
    requires 0 < |poly| && |parity| + 1 == |poly|
    ensures Remainder(Zeros(d) + parity, poly) == parity
  {
    hide Reduced;
    ReducedIdle(Zeros(d) + parity, poly, d);
  }

  /** Only the inverse of `r` adds up to ones with it. */
  lemma InvertedIs(r: seq<Bit>, parity: seq<Bit>)
    requires |r| == |parity|
    ensures Sum(r, parity) == Ones(|r|) <==> parity == seq(|r|, i requires 0 <= i < |r| => 1 - r[i])
  {
    var n, p := |r|, seq(|r|, i requires 0 <= i < |r| => 1 - r[i]);
    if Sum(r, parity) == Ones(n) {
      forall i | 0 <= i < n ensures parity[i] == p[i] {
        assert Sum(r, parity)[i] == Ones(n)[i];
      }
    }
  }

  // ---- division is division ----

  /** The product of the quotient bits `c` and the generator, in a word of n bits. */
  function Product(c: seq<Bit>, poly: seq<Bit>, n: nat): (r: seq<Bit>)
    requires |c| + |poly| <= n + 1 && 0 < |poly|
    ensures |r| == n
  {
    if c == [] then Zeros(n)
    else
      var k := |c| - 1;
      var p := Product(c[..k], poly, n);
      if c[k] == 1 then XorAt(p, k, poly, |poly|) else p
  }

  /** The quotient that the rounds produce. */
  function Quotient(word: seq<Bit>, poly: seq<Bit>, d: nat): (c: seq<Bit>)
    requires 0 < |poly| && d + |poly| <= |word| + 1
    ensures |c| == d
  {
    if d == 0 then [] else Quotient(word, poly, d - 1) + [Reduced(word, poly, d - 1)[d - 1]]
  }

  lemma XorAtSum(a: seq<Bit>, b: seq<Bit>, q: nat, poly: seq<Bit>)
    requires |a| == |b| && q + |poly| <= |a|
    ensures XorAt(Sum(a, b), q, poly, |poly|) == Sum(a, XorAt(b, q, poly, |poly|))
  {
  }

  /** Word = quotient * generator + what is left. */
  lemma {:induction false} DivisionIdentity(word: seq<Bit>, poly: seq<Bit>, d: nat)
    requires 0 < |poly| && d + |poly| <= |word| + 1
    ensures Reduced(word, poly, d) == Sum(word, Product(Quotient(word, poly, d), poly, |word|))
  {
    hide XorAt, Sum, Product;
    var n := |word|;
    if d == 0 {
      NoQuotient(word, poly);
    } else {
      DivisionIdentity(word, poly, d - 1);
      var c, top := Quotient(word, poly, d - 1), Reduced(word, poly, d - 1)[d - 1];
      XorAtSum(word, Product(c, poly, n), d - 1, poly);
      ProductSnoc(c, top, poly, n);
    }
  }

  lemma NoQuotient(word: seq<Bit>, poly: seq<Bit>)
    requires 0 < |poly| <= |word| + 1
    ensures Product([], poly, |word|) == Zeros(|word|) && Sum(word, Zeros(|word|)) == word
  {
  }

  lemma ProductSnoc(c: seq<Bit>, top: Bit, poly: seq<Bit>, n: nat)
    requires |c| + 1 + |poly| <= n + 1 && 0 < |poly|
    ensures Product(c + [top], poly, n)
         == if top == 1 then XorAt(Product(c, poly, n), |c|, poly, |poly|) else Product(c, poly, n)
  {
    hide XorAt;
    Snoc(c, top);
  }

  /** Zero coefficients add nothing. */
  lemma {:induction false} ProductZeros(c: seq<Bit>, k: nat, poly: seq<Bit>, n: nat)
    requires |c| + k + |poly| <= n + 1 && 0 < |poly|
    ensures Product(c + Zeros(k), poly, n) == Product(c, poly, n)
  {
    hide XorAt;
    if k == 0 {
      assert c + Zeros(0) == c;
    } else {
      ProductZeros(c, k - 1, poly, n);
      assert c + Zeros(k) == c + Zeros(k - 1) + [0];
      ProductSnoc(c + Zeros(k - 1), 0, poly, n);
    }
  }

  /** The pairs of coefficients that meet at position `i` of a product. */
  function Meeting(c: seq<Bit>, poly: seq<Bit>, i: nat): set<nat> {
    set j: nat | 0 <= j < |c| && j <= i < j + |poly| && c[j] == 1 && poly[i - j] == 1
  }

  /** The product is the product of polynomials over GF(2). */
  lemma {:induction false} ProductAt(c: seq<Bit>, poly: seq<Bit>, n: nat, i: nat)
    requires |c| + |poly| <= n + 1 && 0 < |poly| && i < n
    ensures Product(c, poly, n)[i] == |Meeting(c, poly, i)| % 2
  {
    hide XorAt;
    if c == [] {
      assert Meeting(c, poly, i) == {};
    } else {
      var k := |c| - 1;
      ProductAt(c[..k], poly, n, i);
      var init: set<nat> := Meeting(c[..k], poly, i);
      var now: set<nat> := Meeting(c, poly, i);
      XorAtIndex(Product(c[..k], poly, n), k, poly, |poly|, i);
      assert now == if k <= i < k + |poly| && c[k] == 1 && poly[i - k] == 1 then init + {k} else init;
    }
  }

  /** The data positions are all cancelled, because the first coefficient is 1. */
  lemma {:induction false} ReducedHead(word: seq<Bit>, poly: seq<Bit>, d: nat)
    requires 0 < |poly| && d + |poly| <= |word| + 1 && poly[0] == 1
    ensures forall i :: 0 <= i < d ==> Reduced(word, poly, d)[i] == 0
  {
    if d > 0 {
      ReducedHead(word, poly, d - 1);
    }
  }

  /** A product determines its quotient already by its data positions. */
  lemma {:induction false} ProductInjective(b: seq<Bit>, c: seq<Bit>, poly: seq<Bit>, n: nat)
    requires |b| == |c| && |c| + |poly| <= n + 1 && 0 < |poly| && poly[0] == 1
    requires forall i :: 0 <= i < |c| ==> Product(b, poly, n)[i] == Product(c, poly, n)[i]
    ensures b == c
  {
    if c != [] {
      var k := |c| - 1;
      var p, q := Product(b[..k], poly, n), Product(c[..k], poly, n);
      assert forall i :: 0 <= i < k ==> p[i] == Product(b, poly, n)[i] && q[i] == Product(c, poly, n)[i];
      ProductInjective(b[..k], c[..k], poly, n);
      assert Product(b, poly, n)[k] == Product(c, poly, n)[k];
      assert b == b[..k] + [b[k]] && c == c[..k] + [c[k]];
    }
  }

  /** The remainder vanishes exactly on the multiples of the generator. */
  lemma RemainderZeroIffMultiple(word: seq<Bit>, poly: seq<Bit>)
    requires 0 < |poly| <= |word| + 1 && poly[0] == 1
    ensures var d := |word| + 1 - |poly|;
            Remainder(word, poly) == Zeros(|poly| - 1) <==>
            exists c: seq<Bit> :: |c| == d && word == Product(c, poly, |word|)
  {
    hide Product, Reduced;
    var d, n := |word| + 1 - |poly|, |word|;
    var q := Quotient(word, poly, d);
    var p, r := Product(q, poly, n), Reduced(word, poly, d);
    DivisionIdentity(word, poly, d);
    ReducedHead(word, poly, d);
    assert r == Sum(word, p);
    if Remainder(word, poly) == Zeros(|poly| - 1) {
      forall i | 0 <= i < n ensures word[i] == p[i] {
        assert r[i] == 0 by {
          if d <= i {
            assert r[i] == Remainder(word, poly)[i - d] == Zeros(|poly| - 1)[i - d];
          }
        }
        assert r[i] == Xor(word[i], p[i]);
      }
      assert word == p;
    }
    forall c: seq<Bit> | |c| == d && word == Product(c, poly, n) ensures Remainder(word, poly) == Zeros(|poly| - 1) {
      forall i | 0 <= i < d ensures p[i] == word[i] {
        assert r[i] == Xor(word[i], p[i]);
      }
      ProductInjective(q, c, poly, n);
      assert forall i :: 0 <= i < n ==> r[i] == 0;
    }
  }

  /** The parity bits are the ones whose complement makes the word a multiple of the generator. */
  lemma ParityIff(data: seq<Bit>, parity: seq<Bit>, poly: seq<Bit>)
    requires 0 < |poly| && |parity| + 1 == |poly| && poly[0] == 1
    ensures var word := data + seq(|parity|, i requires 0 <= i < |parity| => 1 - parity[i]);
            parity == Parity(data, poly)
            <==> exists c: seq<Bit> :: |c| == |data| && word == Product(c, poly, |word|)
  {
    hide Remainder, Parity, Product, Sum;
    var word := data + seq(|parity|, i requires 0 <= i < |parity| => 1 - parity[i]);
    var n, ones := |parity|, Zeros(|data|) + Ones(|parity|);
    ComplementSum(data, parity);
    RemainderLinear(data + parity, ones, poly);
    IdleRemainder(|data|, Ones(n), poly);
    AcceptedIffEncoded(data, parity, poly);
    OnesCancel(Remainder(data + parity, poly));
    RemainderZeroIffMultiple(word, poly);
  }

  lemma ComplementSum(data: seq<Bit>, parity: seq<Bit>)
    ensures data + seq(|parity|, i requires 0 <= i < |parity| => 1 - parity[i])
         == Sum(data + parity, Zeros(|data|) + Ones(|parity|))
  {
  }

  lemma OnesCancel(r: seq<Bit>)
    ensures Sum(r, Ones(|r|)) == Zeros(|r|) <==> r == Ones(|r|)
  {
    if Sum(r, Ones(|r|)) == Zeros(|r|) {
      forall i | 0 <= i < |r| ensures r[i] == Ones(|r|)[i] {
        assert Sum(r, Ones(|r|))[i] == Zeros(|r|)[i];
      }
    }
  }

  // ---- error bursts ----

  /** The words differ, and only at positions from `i` up to but not including `i + len`. */
  predicate DifferWithin(a: seq<Bit>, b: seq<Bit>, i: nat, len: nat)
    requires |a| == |b|
  {
    && a != b
    && forall k :: 0 <= k < |a| && !(i <= k < i + len) ==> a[k] == b[k]
  }

  /** After a first error at `i` the highest bit that is set moves up with every cancellation. */
  lemma {:induction false} HighestSet(e: seq<Bit>, poly: seq<Bit>, i: nat, d: nat) returns (h: nat)
    requires 1 < |poly| && d + |poly| <= |e| + 1 && poly[0] == 1 && poly[|poly| - 1] == 1
    requires i < d && e[i] == 1 && (forall k :: 0 <= k < i ==> e[k] == 0)
    requires forall k :: i + |poly| - 1 <= k < |e| ==> e[k] == 0
    ensures d <= h < d + |poly| - 1 && Reduced(e, poly, d)[h] == 1
    ensures forall k :: h < k < |e| ==> Reduced(e, poly, d)[k] == 0
  {
    var psize := |poly| - 1;
    if i == d - 1 {
      ReducedIdle(e, poly, d - 1);
      h := d - 1 + psize;
    } else {
      h := HighestSet(e, poly, i, d - 1);
      var buf := Reduced(e, poly, d - 1);
      if buf[d - 1] == 1 {
        h := d - 1 + psize;
      }
    }
  }

  lemma FirstError(a: seq<Bit>, b: seq<Bit>) returns (i: nat)
    requires |a| == |b| && a != b
    ensures i < |a| && a[i] != b[i] && forall k :: 0 <= k < i ==> a[k] == b[k]
  {
    var j :| 0 <= j < |a| && a[j] != b[j];
    i := 0;
    while a[i] == b[i]
      invariant i <= j && forall k :: 0 <= k < i ==> a[k] == b[k]
      decreases j - i
    {
      i := i + 1;
    }
  }

  /** Two words that differ only within psize consecutive bits never leave the same remainder;
      so if one of them is accepted, the other is rejected. */
  lemma BurstDetected(a: seq<Bit>, b: seq<Bit>, poly: seq<Bit>, w: nat, len: nat)
    requires |a| == |b| && 0 < |poly| <= |a| + 1 && poly[0] == 1 && poly[|poly| - 1] == 1
    requires DifferWithin(a, b, w, len) && len < |poly|
    ensures Remainder(a, poly) != Remainder(b, poly)
  {
    var d := |a| + 1 - |poly|;
    var e := Sum(a, b);
    var i := FirstError(a, b);
    assert e[i] == 1 && w <= i < w + len;
    RemainderLinear(a, b, poly);
    var t;
    if i < d {
      var h := HighestSet(e, poly, i, d);
      t := h - d;
    } else {
      ReducedIdle(e, poly, d);
      t := i - d;
    }
    assert Remainder(e, poly)[t] == 1;
    assert Remainder(a, poly)[t] != Remainder(b, poly)[t];
  }
}
