/** The SACCH block interleaver (gsm-parser/gsm_interleave.c). */
module Interleave {

  const SIZE := 456

  /** Burst and position of coded bit `k`. */
  function SacchMap(k: nat): (p: nat)
    requires k < SIZE
    ensures p < SIZE
  {
    (k % 4) * 114 + (2 * ((49 * k) % 57) + (k % 8) / 4)
  }

  /** Which coded bit is at position `p`: the Chinese remainder theorem for 8 and 57. */
  function SacchUnmap(p: nat): (k: nat)
    requires p < SIZE
    ensures k < SIZE
  {
    (57 * (p / 114 + 4 * (p % 114 % 2)) + 400 * ((7 * (p % 114 / 2)) % 57)) % SIZE
  }

  lemma Mod57(x: int, k: nat)
    ensures (57 * x + k) % 57 == k % 57
  {
    assert 57 * x + k == 57 * (x + k / 57) + k % 57;
  }

  /** 7 is the inverse of 49 modulo 57. */
  lemma Times49(k: nat)
    ensures (7 * ((49 * k) % 57)) % 57 == k % 57
  {
    var t, m := 49 * k / 57, 49 * k % 57;
    assert 49 * k == 57 * t + m;
    assert 7 * m == 57 * (6 * k - 7 * t) + k;
    Mod57(6 * k - 7 * t, k);
  }

  lemma ModUnique(x: int, k: nat)
    requires k < SIZE
    ensures (SIZE * x + k) % SIZE == k
  {
  }

  lemma ChineseRemainder(k: nat)
    requires k < SIZE
    ensures (57 * (k % 8) + 400 * (k % 57)) % SIZE == k
  {
    var a, b, r, s := k / 8, k / 57, k % 8, k % 57;
    assert k == 8 * a + r && k == 57 * b + s;
    assert 57 * r + 400 * s == SIZE * (k - a - 50 * b) + k;
    ModUnique(k - a - 50 * b, k);
  }

  lemma Unpack(b: nat, m: nat, h: nat)
    requires b < 4 && m < 57 && h < 2
    ensures var p := b * 114 + (2 * m + h); p / 114 == b && p % 114 == 2 * m + h && p % 114 / 2 == m && p % 114 % 2 == h
  {
    var p := b * 114 + (2 * m + h);
    assert p / 114 == b;
    assert p % 114 == 2 * m + h;
  }

  lemma Mod8(k: nat)
    ensures k % 4 + 4 * (k % 8 / 4) == k % 8
  {
  }

  /** The map is a permutation of the 456 positions, and this is its inverse. */
  lemma UnmapMap(k: nat)
    requires k < SIZE
    ensures SacchUnmap(SacchMap(k)) == k
  {
    var b, m, h := k % 4, (49 * k) % 57, k % 8 / 4;
    Unpack(b, m, h);
    calc {
      SacchUnmap(SacchMap(k));
      SacchUnmap(b * 114 + (2 * m + h));
      (57 * (b + 4 * h) + 400 * ((7 * m) % 57)) % SIZE;
      { Mod8(k); }
      (57 * (k % 8) + 400 * ((7 * m) % 57)) % SIZE;
      { Times49(k); }
      (57 * (k % 8) + 400 * (k % 57)) % SIZE;
      { ChineseRemainder(k); }
      k;
    }
  }

  /** Burst k mod 4, place 2 (49 k mod 57) + (k mod 8) div 4, section 4.1.4 of 3GPP TS 45.003. */
  lemma BurstAndPlace(k: nat)
    requires k < 456
    ensures SacchMap(k) / 114 == k % 4
    ensures SacchMap(k) % 114 == 2 * (49 * k % 57) + k % 8 / 4
  {
    Unpack(k % 4, 49 * k % 57, k % 8 / 4);
  }

  lemma MapInjective(k: nat, l: nat)
    requires k < SIZE && l < SIZE && SacchMap(k) == SacchMap(l)
    ensures k == l
  {
    UnmapMap(k);
    UnmapMap(l);
  }

  /** `_sacch_map` once `gsm_interleave_init` has run. */
  predicate MapReady(sacchMap: seq<nat>) {
    |sacchMap| == SIZE && forall k :: 0 <= k < SIZE ==> sacchMap[k] == SacchMap(k)
  }

  method InitMap() returns (sacchMap: seq<nat>)
    ensures MapReady(sacchMap)
  {
    sacchMap := [];
    for k := 0 to SIZE
      invariant |sacchMap| == k && forall i :: 0 <= i < k ==> sacchMap[i] == SacchMap(i)
    {
      var b := k % 4;
      var j := 2 * ((49 * k) % 57) + ((k % 8) / 4);
      sacchMap := sacchMap + [b * 114 + j];
    }
  }

  method InterSacch<T(0)>(sacchMap: seq<nat>, src: seq<T>) returns (dst: seq<T>)
    requires MapReady(sacchMap) && |src| == SIZE
    ensures |dst| == SIZE && forall k :: 0 <= k < SIZE ==> dst[SacchMap(k)] == src[k]
  {
    hide SacchMap;
    var out := new T[SIZE];
    for k := 0 to SIZE
      invariant forall i :: 0 <= i < k ==> out[SacchMap(i)] == src[i]
    {
      forall i | 0 <= i < k ensures SacchMap(i) != SacchMap(k) {
        if SacchMap(i) == SacchMap(k) {
          MapInjective(i, k);
        }
      }
      out[sacchMap[k]] := src[k];
    }
    dst := out[..];
  }

  method DeinterSacch<T>(sacchMap: seq<nat>, src: seq<T>) returns (dst: seq<T>)
    requires MapReady(sacchMap) && |src| == SIZE
    ensures |dst| == SIZE && forall k :: 0 <= k < SIZE ==> dst[k] == src[SacchMap(k)]
  {
    hide SacchMap;
    dst := [];
    for k := 0 to SIZE
      invariant |dst| == k && forall i :: 0 <= i < k ==> dst[i] == src[SacchMap(i)]
    {
      dst := dst + [src[sacchMap[k]]];
    }
  }
}
