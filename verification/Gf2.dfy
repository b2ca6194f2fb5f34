/** Bits and bit strings over GF(2). */
module Gf2 {

  type Bit = b: nat | b < 2

  function Xor(a: Bit, b: Bit): Bit { if a == b then 0 else 1 }

  function Zeros(n: nat): seq<Bit> { seq(n, _ => 0) }

  function Ones(n: nat): seq<Bit> { seq(n, _ => 1) }

  function Sum(a: seq<Bit>, b: seq<Bit>): (r: seq<Bit>)
    requires |a| == |b|
    ensures |r| == |a|
  {
    seq(|a|, i requires 0 <= i < |a| => Xor(a[i], b[i]))
  }
}
