/**
  UTF-8 in the six octet form of section 2 of RFC 2279: the decoder `UTF8String__process`
  (libasn1c/src/UTF8String.c) and the encoder in `UniversalString__dump`
  (libasn1c/src/UniversalString.c).
 */
module Utf8 {
  import opened PerBits
  import opened Wrappers

  const LIMIT := 0x8000_0000

  // ---- one character ----

  /** How many octets the encoder uses. */
  function Width(wc: nat): (w: nat)
    ensures 1 <= w <= 6
  {
    if wc < 0x80 then 1 else if wc < 0x800 then 2 else if wc < 0x10000 then 3
    else if wc < 0x200000 then 4 else if wc < 0x4000000 then 5 else 6
  }

  /** Marker bits of the first octet of a sequence of `w` octets. */
  function Lead(w: nat): nat
    requires 1 <= w <= 6
  {
    match w case 1 => 0 case 2 => 0xc0 case 3 => 0xe0 case 4 => 0xf0 case 5 => 0xf8 case _ => 0xfc
  }

  /** How many values the first octet can add to its marker. */
  function Room(w: nat): nat
    requires 1 <= w <= 6
  {
    match w case 1 => 128 case 2 => 32 case 3 => 16 case 4 => 8 case 5 => 4 case _ => 2
  }

  /** `UTF8String_mv` */
  function LeastValue(w: nat): nat
    requires 1 <= w <= 6
  {
    match w case 1 => 0 case 2 => 0x80 case 3 => 0x800 case 4 => 0x10000 case 5 => 0x200000 case _ => 0x4000000
  }

  /** `wc >> 6 * k` */
  function Shift6(wc: nat, k: nat): nat
    decreases k
  {
    if k == 0 then wc else Shift6(wc / 64, k - 1)
  }

  lemma Shifts(v: nat)
    ensures Shift6(v, 1) == v / 64 && Shift6(v, 2) == v / 4096 && Shift6(v, 3) == v / 262144
    ensures Shift6(v, 4) == v / 16777216 && Shift6(v, 5) == v / 1073741824
  {
    var a := v / 64;
    var b := a / 64;
    var c := b / 64;
    var d := c / 64;
    assert b == v / 4096 && c == v / 262144;
    assert d == v / 16777216 && d / 64 == v / 1073741824;
    assert Shift6(v, 2) == Shift6(a, 1) == b;
    assert Shift6(v, 3) == Shift6(b, 1) == c;
    assert Shift6(v, 4) == Shift6(c, 1) == d;
    assert Shift6(v, 5) == Shift6(d, 1) == d / 64;
  }

  /** The width is the one whose range holds the value. */
  lemma WidthIs(v: nat, w: nat)
    requires 1 <= w <= 6
    ensures LeastValue(w) <= v && Shift6(v, w - 1) < Room(w) <==> Width(v) == w && v < LIMIT
  {
    hide Shift6;
    Shifts(v);
    assert Shift6(v, 0) == v by { ShiftNone(v); }
  }

  lemma ShiftNone(v: nat)
    ensures Shift6(v, 0) == v
  {
  }

  /** The last `k` octets. */
  function Tail(v: nat, k: nat): (s: seq<Octet>)
    ensures |s| == k
    decreases k
  {
    if k == 0 then [] else Tail(v / 64, k - 1) + [0x80 + v % 64]
  }

  lemma TopFits(wc: nat)
    requires wc < 2 * LIMIT
    ensures var w := Width(wc); (if w == 6 then Shift6(wc, 5) % 2 else Shift6(wc, w - 1)) < Room(w)
  {
    hide Shift6;
    if wc < LIMIT {
      WidthIs(wc, Width(wc));
    }
  }

  /** What the encoder writes for a character; only one bit of the top five goes into six octets. */
  function Chunk(wc: nat): (s: seq<Octet>)
    requires wc < 2 * LIMIT
    ensures 1 <= |s| <= 6
  {
    TopFits(wc);
    var w := Width(wc);
    [Lead(w) + (if w == 6 then Shift6(wc, 5) % 2 else Shift6(wc, w - 1))] + Tail(wc, w - 1)
  }

  // ---- decoding one character ----

  /** The two tables of length expectations; 0 for an illegal start. */
  function Want(ch: Octet): (w: nat)
    ensures w <= 6
  {
    if ch < 0x80 then 1 else if ch < 0xc0 then 0 else if ch < 0xe0 then 2 else if ch < 0xf0 then 3
    else if ch < 0xf8 then 4 else if ch < 0xfc then 5 else if ch < 0xfe then 6 else 0
  }

  /** The first octets are exactly the marked ones. */
  lemma WantIs(ch: Octet, w: nat)
    requires 1 <= w <= 6
    ensures Want(ch) == w <==> Lead(w) <= ch < Lead(w) + Room(w)
  {
  }

  /** `ch & (0xff >> want)` */
  function FirstBits(ch: Octet, w: nat): nat
    requires 1 <= w <= 6
  {
    match w case 1 => ch % 128 case 2 => ch % 64 case 3 => ch % 32 case 4 => ch % 16 case 5 => ch % 8 case _ => ch % 4
  }

  lemma FirstBitsAre(ch: Octet)
    requires Want(ch) != 0
    ensures FirstBits(ch, Want(ch)) == ch - Lead(Want(ch))
  {
  }

  /** The value after `n` continuation octets from `s[i]` on; nothing if one of them is none. */
  function Continued(s: seq<Octet>, i: nat, n: nat, v: nat): Option<nat>
    requires i + n <= |s|
  {
    if n == 0 then Some(v)
    else
      match Continued(s, i, n - 1, v)
      case None => None
      case Some(x) => if 0x80 <= s[i + n - 1] <= 0xbf then Some(64 * x + s[i + n - 1] % 64) else None
  }

  lemma TailLast(s: seq<Octet>, i: nat, k: nat, v: nat)
    requires 0 < k && i + k <= |s|
    ensures s[i..i + k] == Tail(v, k) <==> s[i..i + k - 1] == Tail(v / 64, k - 1) && s[i + k - 1] == 0x80 + v % 64
  {
    var t, x := Tail(v / 64, k - 1), 0x80 + v % 64;
    assert Tail(v, k) == t + [x];
    assert s[i..i + k] == s[i..i + k - 1] + [s[i + k - 1]];
    if s[i..i + k] == t + [x] {
      assert (t + [x])[..k - 1] == t && s[i..i + k][..k - 1] == s[i..i + k - 1];
      assert (t + [x])[k - 1] == x && s[i..i + k][k - 1] == s[i + k - 1];
    }
  }

  /** Reading the tail of `v` gives `v`, and nothing else gives `v`. */
  lemma {:induction false} ContinuedTail(s: seq<Octet>, i: nat, k: nat, a: nat, v: nat)
    requires i + k <= |s|
    ensures Continued(s, i, k, a) == Some(v) <==> s[i..i + k] == Tail(v, k) && Shift6(v, k) == a
    decreases k
  {
    if k > 0 {
      hide Tail;
      ContinuedTail(s, i, k - 1, a, v / 64);
      TailLast(s, i, k, v);
    }
  }

  const U8E_TRUNC := -1
  const U8E_ILLSTART := -2
  const U8E_NOTCONT := -3
  const U8E_NOTMIN := -4

  datatype Result<T> = Ok(value: T) | Error(code: int)

  /** The first character of a string that is not empty. */
  function First(s: seq<Octet>): (r: Result<nat>)
    requires s != []
  {
    var w := Want(s[0]);
    if w == 0 then Error(U8E_ILLSTART)
    else if w > |s| then Error(U8E_TRUNC)
    else
      match Continued(s, 1, w - 1, FirstBits(s[0], w))
      case None => Error(U8E_NOTCONT)
      case Some(v) => if v < LeastValue(w) then Error(U8E_NOTMIN) else Ok(v)
  }

  /** A string starts with the encoding of `v` exactly when its first character is read as `v`. */
  lemma FirstIs(s: seq<Octet>, v: nat)
    requires s != []
    ensures First(s) == Ok(v) <==> v < LIMIT && Chunk(v) <= s
    ensures First(s) == Ok(v) ==> Want(s[0]) == |Chunk(v)|
  {
    hide Shift6, Tail, Continued, Lead, Room, LeastValue, Want, FirstBits;
    var w := Want(s[0]);
    if First(s) == Ok(v) {
      FirstBitsAre(s[0]);
      WantIs(s[0], w);
      ContinuedTail(s, 1, w - 1, FirstBits(s[0], w), v);
      WidthIs(v, w);
      TopBit(v);
      assert s[..w] == [s[0]] + s[1..w];
    }
    if v < LIMIT && Chunk(v) <= s {
      var u := Width(v);
      WidthIs(v, u);
      TopBit(v);
      assert s[0] == Chunk(v)[0];
      WantIs(s[0], u);
      FirstBitsAre(s[0]);
      assert s[1..u] == Chunk(v)[1..] == Tail(v, u - 1);
      ContinuedTail(s, 1, u - 1, FirstBits(s[0], u), v);
    }
  }

  lemma {:induction false} ContinuedIff(s: seq<Octet>, i: nat, n: nat, v: nat)
    requires i + n <= |s|
    ensures Continued(s, i, n, v).Some? <==> forall j :: i <= j < i + n ==> 0x80 <= s[j] <= 0xbf
  {
    if n > 0 {
      ContinuedIff(s, i, n - 1, v);
    }
  }

  /** Which error is found: a first octet that starts nothing, too few octets, one among them that
      does not continue, or else a value that fewer octets could hold. */
  lemma FirstFails(s: seq<Octet>)
    requires s != []
    ensures First(s) == Error(-2) <==> 0x80 <= s[0] < 0xc0 || 0xfe <= s[0]
    ensures First(s) == Error(-1) <==> First(s) != Error(-2) && |s| < Want(s[0])
    ensures First(s) == Error(-3) <==> First(s) != Error(-2) && Want(s[0]) <= |s|
                                       && exists j :: 1 <= j < Want(s[0]) && !(0x80 <= s[j] <= 0xbf)
    ensures First(s).Error? ==> -4 <= First(s).code <= -1
  {
    var w := Want(s[0]);
    if 0 < w <= |s| {
      ContinuedIff(s, 1, w - 1, FirstBits(s[0], w));
    }
  }

  lemma TopBit(v: nat)
    requires v < LIMIT
    ensures Width(v) == 6 ==> Shift6(v, 5) < 2
  {
    WidthIs(v, 6);
  }

  // ---- strings ----

  function Encoded(wcs: seq<nat>): (s: seq<Octet>)
    requires forall i :: 0 <= i < |wcs| ==> wcs[i] < 2 * LIMIT
  {
    if wcs == [] then [] else Chunk(wcs[0]) + Encoded(wcs[1..])
  }

  function Process(s: seq<Octet>): (r: Result<seq<nat>>)
    decreases |s|
  {
    if s == [] then Ok([])
    else
      match First(s)
      case Error(c) => Error(c)
      case Ok(v) =>
        match Process(s[Want(s[0])..])
        case Error(c) => Error(c)
        case Ok(vs) => Ok([v] + vs)
  }

  predicate InRange(vs: seq<nat>) { forall i :: 0 <= i < |vs| ==> vs[i] < LIMIT }

  /** Decoding and encoding are mutually inverse: the decoder accepts exactly the strings that the
      encoder produces, with exactly their characters. */
  lemma {:induction false} ProcessIs(s: seq<Octet>, vs: seq<nat>)
    ensures Process(s) == Ok(vs) <==> InRange(vs) && s == Encoded(vs)
    decreases |vs|
  {
    hide First, Chunk, Want;
    if vs == [] {
    } else if s != [] {
      FirstIs(s, vs[0]);
      var n := Want(s[0]);
      if Process(s) == Ok(vs) {
        assert First(s) == Ok(vs[0]);
        ProcessIs(s[n..], vs[1..]);
        assert vs == [vs[0]] + vs[1..];
        assert s == Chunk(vs[0]) + s[n..];
      }
      if InRange(vs) && s == Encoded(vs) {
        assert Chunk(vs[0]) <= s;
        assert s[n..] == Encoded(vs[1..]);
        ProcessIs(s[n..], vs[1..]);
        assert vs == [vs[0]] + vs[1..];
      }
    } else if InRange(vs) {
      assert Encoded(vs) != [];
    }
  }

  /** Above 2^31 the encoder drops the top bit, so exactly the characters below survive. */
  lemma SurvivesIff(wcs: seq<nat>)
    requires forall i :: 0 <= i < |wcs| ==> wcs[i] < 2 * LIMIT
    ensures Process(Encoded(wcs)) == Ok(wcs) <==> InRange(wcs)
  {
    ProcessIs(Encoded(wcs), wcs);
  }

  // ---- UTF8String__process ----

  function Prefixed(vs: seq<nat>, r: Result<seq<nat>>): Result<seq<nat>> {
    match r case Error(c) => Error(c) case Ok(more) => Ok(vs + more)
  }

  lemma ProcessStep(done: seq<nat>, s: seq<Octet>)
    requires s != []
    ensures match First(s)
            case Error(c) => Prefixed(done, Process(s)) == Error(c)
            case Ok(v) =>
              && 0 < Want(s[0]) <= |s|
              && Prefixed(done, Process(s)) == Prefixed(done + [v], Process(s[Want(s[0])..]))
  {
    hide Continued;
    match First(s) {
      case Error(c) =>
      case Ok(v) =>
        match Process(s[Want(s[0])..]) {
          case Error(c) =>
          case Ok(vs) =>
            assert done + ([v] + vs) == done + [v] + vs;
        }
    }
  }

  /** One round of the outer loop. */
  method ReadChar(buf: seq<Octet>) returns (value: int, want: nat)
    requires buf != []
    ensures match First(buf) case Error(c) => value == c < 0 case Ok(v) => value == v && want == Want(buf[0])
  {
    var ch := buf[0];
    want := Want(ch);
    if want == 0 {
      return U8E_ILLSTART, 0;
    }
    if want > |buf| {
      return U8E_TRUNC, 0;
    }
    var v := FirstBits(ch, want);
    var p := 1;
    while p < want
      invariant 1 <= p <= want
      invariant Continued(buf, 1, p - 1, FirstBits(ch, want)) == Some(v)
    {
      if buf[p] < 0x80 || buf[p] > 0xbf {
        NotContinued(buf, 1, p, want - 1, FirstBits(ch, want));
        return U8E_NOTCONT, 0;
      }
      v := 64 * v + buf[p] % 64;
      p := p + 1;
    }
    if v < LeastValue(want) {
      return U8E_NOTMIN, 0;
    }
    value := v;
  }

  lemma {:induction false} NotContinued(s: seq<Octet>, i: nat, m: nat, n: nat, v: nat)
    requires m <= n && i + n <= |s| && Continued(s, i, m, v) == None
    ensures Continued(s, i, n, v) == None
    decreases n
  {
    if m < n {
      NotContinued(s, i, m, n - 1, v);
    }
  }

  /** `UTF8String__process`: the number of characters or an error; the first `dstlen` characters
      are stored, with a terminator if there is room. */
  method ProcessUtf8(s: seq<Octet>, dstlen: nat) returns (ret: int, dst: seq<nat>)
    ensures match Process(s)
            case Error(c) => ret == c
            case Ok(vs) => ret == |vs| && dst == if |vs| < dstlen then vs + [0] else vs[..dstlen]
  {
    hide First, Want, Process;
    var buf, length := s, 0;
    ghost var done: seq<nat> := [];
    dst := [];
    NoPrefix(Process(s));
    while buf != []
      invariant Process(s) == Prefixed(done, Process(buf)) && length == |done|
      invariant dst == if length <= dstlen then done else done[..dstlen]
      decreases |buf|
    {
      ProcessStep(done, buf);
      var value, want := ReadChar(buf);
      if value < 0 {
        return value, dst;
      }
      if |dst| < dstlen {
        dst := dst + [value];
      }
      done := done + [value];
      length := length + 1;
      buf := buf[want..];
    }
    EmptyProcess();
    assert done + [] == done;
    if |dst| < dstlen {
      dst := dst + [0];
    }
    ret := length;
  }

  lemma NoPrefix(r: Result<seq<nat>>)
    ensures Prefixed([], r) == r
  {
    if r.Ok? {
      assert [] + r.value == r.value;
    }
  }

  lemma EmptyProcess()
    ensures Process([]) == Ok([])
  {
  }

  // ---- UniversalString__dump ----

  function Word(a: nat, b: nat, c: nat, d: nat): nat { 0x100_0000 * a + 0x1_0000 * b + 0x100 * c + d }

  /** Most significant octet first. */
  lemma WordIs(a: Octet, b: Octet, c: Octet, d: Octet)
    ensures Word(a, b, c, d) == WordOf([a, b, c, d])
  {
    assert WordOf([a]) == a by { assert WordOf([a][..0]) == 0; }
    assert WordOf([a, b]) == 256 * a + b by { assert [a, b][..1] == [a]; }
    assert WordOf([a, b, c]) == 256 * WordOf([a, b]) + c by { assert [a, b, c][..2] == [a, b]; }
    assert WordOf([a, b, c, d]) == 256 * WordOf([a, b, c]) + d by { assert [a, b, c, d][..3] == [a, b, c]; }
  }

  /** The characters of a UniversalString; up to three octets at the end are ignored. */
  function Words(st: seq<Octet>): (r: seq<nat>)
    ensures forall i :: 0 <= i < |r| ==> r[i] < 2 * LIMIT
  {
    if |st| < 4 then [] else [Word(st[0], st[1], st[2], st[3])] + Words(st[4..])
  }

  /** The six branches of the encoder. */
  method WriteChar(wc: nat) returns (s: seq<Octet>)
    requires wc < 2 * LIMIT
    ensures s == Chunk(wc)
  {
    hide Shift6, Tail;
    Shifts(wc);
    ShiftNone(wc);
    TailTo2(wc);
    Tail3(wc);
    Tail4(wc);
    Tail5(wc);
    TopFits(wc);
    if wc < 0x80 {
      s := [wc];
    } else if wc < 0x800 {
      s := [0xc0 + wc / 64, 0x80 + wc % 64];
    } else if wc < 0x10000 {
      s := [0xe0 + wc / 4096, 0x80 + wc / 64 % 64, 0x80 + wc % 64];
    } else if wc < 0x200000 {
      s := [0xf0 + wc / 262144, 0x80 + wc / 4096 % 64, 0x80 + wc / 64 % 64, 0x80 + wc % 64];
    } else if wc < 0x4000000 {
      s := [0xf8 + wc / 16777216, 0x80 + wc / 262144 % 64, 0x80 + wc / 4096 % 64, 0x80 + wc / 64 % 64, 0x80 + wc % 64];
    } else {
      s := [0xfc + wc / 1073741824 % 2, 0x80 + wc / 16777216 % 64, 0x80 + wc / 262144 % 64, 0x80 + wc / 4096 % 64,
            0x80 + wc / 64 % 64, 0x80 + wc % 64];
    }
  }

  lemma TailTo2(v: nat)
    ensures Tail(v, 0) == [] && Tail(v, 1) == [0x80 + v % 64] && Tail(v, 2) == [0x80 + v / 64 % 64, 0x80 + v % 64]
  {
    assert Tail(v / 64, 0) == [];
    assert Tail(v / 64, 1) == [0x80 + v / 64 % 64];
  }

  lemma Tail3(v: nat)
    ensures Tail(v, 3) == [0x80 + v / 4096 % 64, 0x80 + v / 64 % 64, 0x80 + v % 64]
  {
    TailTo2(v / 64);
    assert v / 64 / 64 == v / 4096;
  }

  lemma Tail4(v: nat)
    ensures Tail(v, 4) == [0x80 + v / 262144 % 64, 0x80 + v / 4096 % 64, 0x80 + v / 64 % 64, 0x80 + v % 64]
  {
    Tail3(v / 64);
    assert v / 64 / 64 == v / 4096 && v / 64 / 4096 == v / 262144;
  }

  lemma Tail5(v: nat)
    ensures Tail(v, 5) == [0x80 + v / 16777216 % 64, 0x80 + v / 262144 % 64, 0x80 + v / 4096 % 64,
                           0x80 + v / 64 % 64, 0x80 + v % 64]
  {
    Tail4(v / 64);
    assert v / 64 / 64 == v / 4096 && v / 64 / 4096 == v / 262144 && v / 64 / 262144 == v / 16777216;
  }

  const SCRATCH := 128

  /** `UniversalString__dump`: `out` is everything the callback gets, in chunks of at most the
      scratch buffer's size. */
  method Dump(st: seq<Octet>) returns (out: seq<Octet>, wrote: nat)
    ensures out == Encoded(Words(st)) && wrote == |out|
  {
    hide Chunk, Encoded, Words;
    var scratch: seq<Octet>, ch := [], st;
    out, wrote := [], 0;
    while |ch| > 3
      invariant |scratch| <= SCRATCH && wrote == |out|
      invariant Encoded(Words(st)) == out + scratch + Encoded(Words(ch))
      decreases |ch|
    {
      var wc := Word(ch[0], ch[1], ch[2], ch[3]);
      WordStep(ch);
      if SCRATCH - |scratch| < 6 {
        wrote := wrote + |scratch|;
        out := out + scratch;
        scratch := [];
      }
      var chunk := WriteChar(wc);
      ghost var before, rest := out + scratch, Encoded(Words(ch[4..]));
      assert before + (chunk + rest) == out + (scratch + chunk) + rest;
      scratch := scratch + chunk;
      ch := ch[4..];
    }
    NoWords(ch);
    wrote := wrote + |scratch|;
    out := out + scratch;
  }

  lemma WordStep(ch: seq<Octet>)
    requires 4 <= |ch|
    ensures var wc := Word(ch[0], ch[1], ch[2], ch[3]);
            wc < 2 * LIMIT && Encoded(Words(ch)) == Chunk(wc) + Encoded(Words(ch[4..]))
  {
    hide Chunk;
    assert Words(ch)[1..] == Words(ch[4..]);
  }

  lemma NoWords(ch: seq<Octet>)
    requires |ch| < 4
    ensures Encoded(Words(ch)) == []
  {
  }
}
