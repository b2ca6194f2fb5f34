/**
  Chains of TL headers: written by `der_write_tags` (libasn1c/src/der_encoder.c) and checked by
  `ber_check_tags` (libasn1c/src/ber_decoder.c, without a restart context).
 */
module DerTags {
  import opened PerBits
  import opened BerTlv

  // ---- minimal octets of a number ----

  /** `v >> 8 * k` */
  function Shift8(v: nat, k: nat): nat
    decreases k
  {
    if k == 0 then v else Shift8(v / 256, k - 1)
  }

  /** `v >> 7 * k` */
  function Shift7(v: nat, k: nat): nat
    decreases k
  {
    if k == 0 then v else Shift7(v / 128, k - 1)
  }

  lemma {:induction false} Shift8Step(v: nat, k: nat)
    ensures Shift8(v, k + 1) == Shift8(v, k) / 256
    decreases k
  {
    if k > 0 {
      Shift8Step(v / 256, k - 1);
    }
  }

  lemma {:induction false} Shift7Step(v: nat, k: nat)
    ensures Shift7(v, k + 1) == Shift7(v, k) / 128
    decreases k
  {
    if k > 0 {
      Shift7Step(v / 128, k - 1);
    }
  }

  /** The octets of a number without leading zeros. */
  function Big(v: nat): (s: seq<Octet>) { if v == 0 then [] else Big(v / 256) + [v % 256] }

  lemma {:induction false} BigWord(v: nat)
    ensures WordOf(Big(v)) == v
  {
    if v != 0 {
      BigWord(v / 256);
    }
  }

  lemma {:induction false} BigSize(v: nat, k: nat)
    ensures |Big(v)| <= k <==> Shift8(v, k) == 0
    decreases k
  {
    if k > 0 && v > 0 {
      BigSize(v / 256, k - 1);
    } else if v == 0 {
      ZeroShift8(k);
    }
  }

  lemma {:induction false} ZeroShift8(k: nat)
    ensures Shift8(0, k) == 0
  {
    if k > 0 {
      ZeroShift8(k - 1);
    }
  }

  lemma {:induction false} ZeroShift7(k: nat)
    ensures Shift7(0, k) == 0
  {
    if k > 0 {
      ZeroShift7(k - 1);
    }
  }

  lemma {:induction false} MarkedSize(v: nat, k: nat)
    ensures |Marked(v)| <= k <==> Shift7(v, k) == 0
    decreases k
  {
    if k > 0 && v > 0 {
      MarkedSize(v / 128, k - 1);
    } else if v == 0 {
      ZeroShift7(k);
    }
  }

  lemma EightOctets(v: nat)
    requires v < LENGTH_LIMIT
    ensures Shift8(v, 8) == 0
  {
    var a := v / 256;
    var b := a / 256;
    var c := b / 256;
    var d := c / 256;
    assert Shift8(v, 8) == Shift8(d, 4);
    assert d < 0x8000_0000;
    assert Shift8(d, 4) == d / 256 / 256 / 256 / 256;
  }

  lemma FiveGroups(v: nat)
    requires v < 0x4000_0000
    ensures Shift7(v, 5) == 0
  {
    var a := v / 128;
    var b := a / 128;
    assert Shift7(v, 5) == Shift7(b, 3);
    assert Shift7(b, 3) == b / 128 / 128 / 128;
  }

  // ---- serialization ----

  /** Length octets as DER wants them, section 8.1.3 of X.690. */
  function Minimal(len: nat): LengthForm { if len <= 127 then Short(len) else Long(Big(len)) }

  /** The value of a length type. */
  predicate Encodable(len: nat) { len < LENGTH_LIMIT }

  /** A length that `ber_fetch_length` takes. */
  predicate Fetchable(len: nat) { len + 1024 < LENGTH_LIMIT }

  lemma MinimalOk(len: nat)
    requires Encodable(len)
    ensures FormShaped(Minimal(len)) && FormValue(Minimal(len)) == len && (FormOk(Minimal(len)) <==> Fetchable(len))
    ensures |FormOctets(Minimal(len))| <= 9
  {
    hide Big, WordOf;
    BigWord(len);
    EightOctets(len);
    BigSize(len, 8);
    if len > 127 {
      BigSize(len, 0);
    }
  }

  function LengthOctets(len: nat): (s: seq<Octet>)
    requires Encodable(len)
    ensures 1 <= |s| <= 9
  {
    MinimalOk(len);
    FormOctets(Minimal(len))
  }

  lemma {:induction false} WordShift(s: seq<Octet>)
    ensures Shift8(WordOf(s), |s|) == 0
  {
    if s != [] {
      WordShift(s[..|s| - 1]);
      assert WordOf(s) / 256 == WordOf(s[..|s| - 1]);
    }
  }

  /** No legal form of a length is shorter than what is written. */
  lemma MinimalShortest(len: nat, f: LengthForm)
    requires Encodable(len) && FormShaped(f) && FormValue(f) == len
    ensures |LengthOctets(len)| <= |FormOctets(f)|
  {
    if len > 127 {
      WordShift(f.octets);
      BigSize(len, |f.octets|);
    }
  }

  /** `der_tlv_length_serialize`: the octets stored in a buffer of `size`, and the octets needed. */
  method SerializeLength(len: nat, size: nat) returns (buf: seq<Octet>, ret: nat)
    requires Encodable(len)
    ensures ret == |LengthOctets(len)| && buf == if ret <= size then LengthOctets(len) else []
  {
    hide Big, Shift8, WordOf;
    if len <= 127 {
      buf := if size != 0 then [len] else [];
      return buf, 1;
    }
    EightOctets(len);
    BigSize(len, 8);
    BigSize(len, 0);
    ShiftedBig(len, 0);
    var requiredSize := 1;
    while requiredSize < 8 && Shift8(len, requiredSize) != 0
      invariant 1 <= requiredSize <= 8 && requiredSize <= |Big(len)|
    {
      BigSize(len, requiredSize);
      requiredSize := requiredSize + 1;
    }
    BigSize(len, requiredSize);
    assert requiredSize == |Big(len)|;
    if size <= requiredSize {
      return [], requiredSize + 1;
    }
    buf := [0x80 + requiredSize];
    ShiftedBig(len, requiredSize);
    for i := requiredSize downto 0
      invariant buf == [0x80 + requiredSize] + Big(Shift8(len, i))
    {
      BigStep(len, i);
      buf := buf + [Shift8(len, i) % 256];
    }
    assert Shift8(len, 0) == len by { ShiftedBig(len, 0); }
    ret := requiredSize + 1;
  }

  lemma ShiftedBig(v: nat, k: nat)
    ensures Shift8(v, 0) == v
    ensures |Big(v)| <= k ==> Big(Shift8(v, k)) == []
  {
    BigSize(v, k);
  }

  lemma BigStep(v: nat, i: nat)
    requires i < |Big(v)|
    ensures Big(Shift8(v, i)) == Big(Shift8(v, i + 1)) + [Shift8(v, i) % 256]
  {
    hide Shift8;
    Shift8Step(v, i);
    BigSize(v, i);
  }

  /** `ber_tlv_tag_serialize`: a buffer that is too small for all gets the first octet at most. */
  method SerializeTag(tag: Tag, size: nat) returns (buf: seq<Octet>, ret: nat)
    ensures ret == |TagOctets(tag, false)| <= 6
    ensures buf == if ret <= size then TagOctets(tag, false) else if size == 0 then [] else TagOctets(tag, false)[..1]
  {
    hide Marked, Shift7;
    var tclass, tval := TagClass(tag), TagNumber(tag);
    if tval <= 30 {
      buf := if size != 0 then [64 * tclass + tval] else [];
      return buf, 1;
    }
    buf := if size != 0 then [64 * tclass + 31] else [];
    GroupsAre(tval);
    FiveGroups(tval);
    MarkedSize(tval, 5);
    MarkedSize(tval, 0);
    var requiredSize := 1;
    while 7 * requiredSize < 32 && Shift7(tval, requiredSize) != 0
      invariant 1 <= requiredSize <= 5 && requiredSize <= |Marked(tval)|
    {
      MarkedSize(tval, requiredSize);
      requiredSize := requiredSize + 1;
    }
    MarkedSize(tval, requiredSize);
    assert requiredSize == |Marked(tval)| == |Groups(tval)|;
    ret := requiredSize + 1;
    if size < requiredSize + 1 {
      return;
    }
    ghost var lead := buf;
    ShiftedMarked(tval, requiredSize);
    for i := requiredSize downto 1
      invariant buf == lead + Marked(Shift7(tval, i))
    {
      MarkedStep(tval, i);
      buf := buf + [128 + Shift7(tval, i) % 128];
    }
    assert Shift7(tval, 1) == tval / 128 by { ShiftedMarked(tval, 0); Shift7Step(tval, 0); }
    buf := buf + [tval % 128];
  }

  lemma GroupsAre(v: nat)
    requires v > 0
    ensures Groups(v) == Marked(v / 128) + [v % 128] && |Groups(v)| == |Marked(v)|
  {
  }

  lemma ShiftedMarked(v: nat, k: nat)
    ensures Shift7(v, 0) == v
    ensures |Marked(v)| <= k ==> Marked(Shift7(v, k)) == []
  {
    MarkedSize(v, k);
  }

  lemma MarkedStep(v: nat, i: nat)
    requires i < |Marked(v)|
    ensures Marked(Shift7(v, i)) == Marked(Shift7(v, i + 1)) + [128 + Shift7(v, i) % 128]
  {
    hide Shift7;
    Shift7Step(v, i);
    MarkedSize(v, i);
  }

  // ---- headers ----

  function TL(tag: Tag, len: nat, constructed: bool): (s: seq<Octet>)
    requires Encodable(len)
  {
    TagOctets(tag, constructed) + LengthOctets(len)
  }

  lemma FormBit(tag: Tag)
    ensures var o := TagOctets(tag, false);
            o[0] + 32 < 256 && TagOctets(tag, true) == [o[0] + 32] + o[1..]
  {
  }

  /** `der_write_TL`; nothing is emitted in the estimating pass. */
  method WriteTL(tag: Tag, len: nat, emit: bool, constructed: bool) returns (out: seq<Octet>, ret: nat)
    requires Encodable(len)
    ensures ret == |TL(tag, len, constructed)| && out == if emit then TL(tag, len, constructed) else []
  {
    hide TagOctets, LengthOctets;
    FormBit(tag);
    var bufSize := if emit then 32 else 0;
    var buf, size := SerializeTag(tag, bufSize);
    var lenBuf, tmp := SerializeLength(len, if bufSize != 0 then bufSize - size else 0);
    ret := size + tmp;
    out := [];
    if emit {
      out := buf + lenBuf;
      if constructed {
        out := [out[0] + 32] + out[1..];
      }
    }
  }

  /** The header for contents of `n` octets. */
  function Header(tags: seq<Tag>, n: nat, lastForm: bool): (s: seq<Octet>)
    requires HeaderOk(tags, n)
    decreases |tags|, 0
  {
    if tags == [] then []
    else
      var inner := Header(tags[1..], n, lastForm);
      assert |inner| == HeaderSize(tags[1..], n) by { HeaderHasSize(tags[1..], n, lastForm); }
      TL(tags[0], |inner| + n, lastForm || |tags| > 1) + inner
  }

  function HeaderSize(tags: seq<Tag>, n: nat): nat {
    if tags == [] then 0
    else
      var inner := HeaderSize(tags[1..], n);
      inner + |TagOctets(tags[0], false)| + (if Encodable(inner + n) then |LengthOctets(inner + n)| else 0)
  }

  predicate HeaderOk(tags: seq<Tag>, n: nat) { Encodable(HeaderSize(tags, n) + n) }

  lemma {:induction false} HeaderHasSize(tags: seq<Tag>, n: nat, lastForm: bool)
    requires HeaderOk(tags, n)
    ensures |Header(tags, n, lastForm)| == HeaderSize(tags, n)
    decreases |tags|, 1
  {
    if tags != [] {
      HeaderHasSize(tags[1..], n, lastForm);
      FormBit(tags[0]);
    }
  }

  lemma {:induction false} GroupShift(s: seq<Octet>)
    ensures Shift7(GroupValue(s), |s|) == 0
  {
    if s != [] {
      GroupShift(s[..|s| - 1]);
      assert GroupValue(s) / 128 == GroupValue(s[..|s| - 1]);
    }
  }

  /** No legal identifier of a tag is shorter than what is written. */
  lemma IdentifierShortest(t: Tag, constructed: bool, id: seq<Octet>)
    requires IdOk(id) && IdTag(id) == t
    ensures |TagOctets(t, constructed)| <= |id|
  {
    hide Marked, Groups, GroupValue;
    var v: nat := TagNumber(t);
    if v > 30 {
      assert v == GroupValue(id[1..]);
      GroupShift(id[1..]);
      MarkedSize(v, |id| - 1);
      GroupsAre(v);
    }
  }

  // ---- der_write_tags ----

  /** No tag, or an IMPLICIT (-1) or EXPLICIT (1) one in front of the type's own tags. */
  datatype TagMode = NoTag | Implicit | Explicit

  /** The tags that go into the header. */
  function TagsToWrite(own: seq<Tag>, mode: TagMode, tag: Tag): (r: seq<Tag>) {
    match mode
    case NoTag => own
    case Implicit => if own == [] then [tag] else [tag] + own[1..]
    case Explicit => [tag] + own
  }

  /** The given tag stands in front of the type's own ones, in implicit mode in place of the first. */
  lemma TagsAre(own: seq<Tag>, mode: TagMode, tag: Tag)
    ensures var r := TagsToWrite(own, mode, tag);
            if mode == NoTag then r == own
            else
              && r != [] && r[0] == tag
              && |r| == |own| + (if mode == Implicit && own != [] then 0 else 1)
              && forall i :: 1 <= i < |r| ==> r[i] == own[i + |own| - |r|]
  {
  }

  /** The copying part of `der_write_tags`. */
  method CollectTags(own: seq<Tag>, mode: TagMode, tag: Tag) returns (tags: seq<Tag>)
    ensures tags == TagsToWrite(own, mode, tag)
  {
    if mode == NoTag {
      return own;
    }
    var replaced := if mode == Implicit && own != [] then 1 else 0;
    var tagsCount := |own| + 1 - replaced;
    tags := [tag];
    var stagOffset := -1 + replaced;
    for i := 1 to tagsCount
      invariant tags == [tag] + own[replaced..i + stagOffset]
    {
      tags := tags + [own[i + stagOffset]];
    }
    assert own[replaced..|own|] == own[replaced..];
  }

  /** The size of an inner header never exceeds that of the whole. */
  lemma {:induction false} InnerOk(tags: seq<Tag>, i: nat, n: nat)
    requires HeaderOk(tags, n) && i <= |tags|
    ensures HeaderOk(tags[i..], n) && HeaderSize(tags[i..], n) <= HeaderSize(tags, n)
  {
    hide TagOctets, LengthOctets;
    if i == 0 {
      assert tags[0..] == tags;
    } else {
      InnerOk(tags, i - 1, n);
      assert tags[i - 1..][1..] == tags[i..];
    }
  }

  lemma HeaderStep(tags: seq<Tag>, i: nat, n: nat, lastForm: bool)
    requires HeaderOk(tags, n) && i < |tags|
    ensures HeaderOk(tags[i..], n) && HeaderOk(tags[i + 1..], n) && Encodable(|Header(tags[i + 1..], n, lastForm)| + n)
    ensures var inner := Header(tags[i + 1..], n, lastForm);
            Header(tags[i..], n, lastForm) == TL(tags[i], |inner| + n, lastForm || i < |tags| - 1) + inner
  {
    hide TagOctets, LengthOctets, HeaderSize, TL;
    InnerOk(tags, i, n);
    InnerOk(tags, i + 1, n);
    HeaderHasSize(tags[i + 1..], n, lastForm);
    assert tags[i..][1..] == tags[i + 1..];
  }

  /** The right to left pass: the length field of every tag. */
  method ComputeLengths(tags: seq<Tag>, structLength: nat) returns (lens: array<nat>, overall: nat)
    requires HeaderOk(tags, structLength)
    ensures fresh(lens) && lens.Length == |tags| && overall == structLength + |Header(tags, structLength, false)|
    ensures forall i :: 0 <= i < |tags| ==> lens[i] == LengthAt(tags, structLength, i)
  {
    hide Header, HeaderOk, TL;
    lens := new nat[|tags|];
    overall := structLength;
    assert tags[|tags|..] == [];
    InnerOk(tags, |tags|, structLength);
    NoHeader(structLength);
    for i := |tags| downto 0
      invariant HeaderOk(tags[i..], structLength) && overall == structLength + |Header(tags[i..], structLength, false)|
      invariant forall j :: i <= j < |tags| ==> lens[j] == LengthAt(tags, structLength, j)
    {
      HeaderStep(tags, i, structLength, false);
      var out, ret := WriteTL(tags[i], overall, false, false);
      SameSize(tags[i], overall, i < |tags| - 1);
      lens[i] := ret;
      overall := overall + lens[i];
      lens[i] := overall - lens[i];
    }
    assert tags[0..] == tags;
  }

  lemma NoHeader(n: nat)
    ensures HeaderOk([], n) ==> Header([], n, false) == []
    ensures HeaderOk([], n) <==> Encodable(n)
  {
  }

  lemma SameSize(tag: Tag, len: nat, constructed: bool)
    requires Encodable(len)
    ensures |TL(tag, len, constructed)| == |TL(tag, len, false)|
  {
    FormBit(tag);
  }

  function LengthAt(tags: seq<Tag>, n: nat, i: nat): nat
    requires HeaderOk(tags, n) && i < |tags|
  {
    InnerOk(tags, i + 1, n);
    n + |Header(tags[i + 1..], n, false)|
  }

  lemma FormIrrelevant(tags: seq<Tag>, n: nat, lastForm: bool)
    requires HeaderOk(tags, n)
    ensures |Header(tags, n, lastForm)| == |Header(tags, n, false)|
  {
    HeaderHasSize(tags, n, lastForm);
    HeaderHasSize(tags, n, false);
  }

  lemma LengthIs(tags: seq<Tag>, i: nat, n: nat, lastForm: bool)
    requires HeaderOk(tags, n) && i < |tags| && HeaderOk(tags[i + 1..], n)
    ensures LengthAt(tags, n, i) == |Header(tags[i + 1..], n, lastForm)| + n
  {
    hide Header, HeaderOk, HeaderSize;
    InnerOk(tags, i + 1, n);
    FormIrrelevant(tags[i + 1..], n, lastForm);
  }

  lemma Join(a: seq<Octet>, b: seq<Octet>, c: seq<Octet>)
    ensures a + (b + c) == a + b + c
  {
  }

  /** `der_write_tags`: the estimating pass returns exactly the number of octets that the real one
      emits. */
  method WriteTags(own: seq<Tag>, structLength: nat, mode: TagMode, lastForm: bool, tag: Tag, emit: bool)
    returns (out: seq<Octet>, ret: nat)
    requires HeaderOk(TagsToWrite(own, mode, tag), structLength)
    ensures ret == |Header(TagsToWrite(own, mode, tag), structLength, lastForm)|
    ensures out == if emit then Header(TagsToWrite(own, mode, tag), structLength, lastForm) else []
  {
    hide Header, HeaderOk, HeaderSize, TL, TagsToWrite, Encodable, LengthAt;
    var tags := CollectTags(own, mode, tag);
    out := [];
    FormIrrelevant(tags, structLength, lastForm);
    if tags == [] {
      NoHeader(structLength);
      return [], 0;
    }
    var lens, overall := ComputeLengths(tags, structLength);
    ret := overall - structLength;
    if !emit {
      return;
    }
    assert tags[0..] == tags;
    InnerOk(tags, |tags|, structLength);
    for i := 0 to |tags|
      invariant HeaderOk(tags[i..], structLength)
      invariant Header(tags, structLength, lastForm) == out + Header(tags[i..], structLength, lastForm)
      invariant forall j :: 0 <= j < |tags| ==> lens[j] == LengthAt(tags, structLength, j)
    {
      HeaderStep(tags, i, structLength, lastForm);
      LengthIs(tags, i, structLength, lastForm);
      var tl, len := WriteTL(tags[i], lens[i], true, lastForm || i < |tags| - 1);
      Join(out, tl, Header(tags[i + 1..], structLength, lastForm));
      out := out + tl;
    }
    assert tags[|tags|..] == [];
    assert Header([], structLength, lastForm) == [] by { NoHeaderForm(structLength, lastForm); }
  }

  lemma NoHeaderForm(n: nat, lastForm: bool)
    requires HeaderOk([], n)
    ensures Header([], n, lastForm) == []
  {
  }

  // ---- ber_check_tags ----

  datatype Check = Fail | More | Done(consumed: nat, lastLength: int)

  /** The variables of the loop: step, the octets in reach, the inferred limit (-1: none yet),
      indefinite lengths seen, octets consumed and the last length. */
  datatype Loop = Loop(step: nat, s: seq<Octet>, limit: int, open: nat, consumed: nat, len: int)

  /** Index into the type's own tags. */
  function TagNo(mode: TagMode, step: nat): int { if mode == Explicit then step - 1 else step }

  function Crop(s: seq<Octet>, limit: int): seq<Octet> { if 0 <= limit < |s| then s[..limit] else s }

  datatype Round = Stop(check: Check) | Next(loop: Loop)

  /** One round of the loop; `lastForm` is 0, 1 or -1 for any. */
  function OneRound(own: seq<Tag>, mode: TagMode, lastForm: int, l: Loop): (r: Round)
    requires TagNo(mode, l.step) < |own|
    ensures r.Next? ==> r.loop.step == l.step + 1
  {
    FetchTagBounds(l.s);
    var t := FetchTag(l.s);
    if t.ret <= 0 then Stop(if t.ret == 0 then More else Fail)
    else
      var constr := Constructed(l.s[0]);
      var tagno := TagNo(mode, l.step);
      if !(mode != NoTag && l.step == 0) && 0 <= tagno && t.value != own[tagno] then Stop(Fail)
      else if tagno < |own| - 1 && !constr then Stop(Fail)
      else if tagno >= |own| - 1 && lastForm != (if constr then 1 else 0) && lastForm != -1 then Stop(Fail)
      else
        FetchLengthBounds(constr, l.s[t.ret..]);
        var len := FetchLength(constr, l.s[t.ret..]);
        var tl := t.ret + len.ret;
        if len.ret <= 0 then Stop(if len.ret == 0 then More else Fail)
        else if len.value == INDEFINITE then
          if l.limit != -1 then Stop(Fail)
          else Next(Loop(l.step + 1, l.s[tl..], -1, l.open + 1, l.consumed + tl, len.value))
        else if l.open != 0 then Stop(Fail)
        else if l.limit == -1 && len.value + tl >= LENGTH_LIMIT then Stop(Fail)
        else if l.limit != -1 && l.limit != len.value + tl then Stop(Fail)
        else Next(Loop(l.step + 1, Crop(l.s[tl..], len.value), len.value, 0, l.consumed + tl, len.value))
  }

  function CheckFrom(own: seq<Tag>, mode: TagMode, lastForm: int, l: Loop): (r: Check)
    decreases |own| - TagNo(mode, l.step)
  {
    if TagNo(mode, l.step) >= |own| then Done(l.consumed, if l.open != 0 then 0 - l.open else l.len)
    else
      match OneRound(own, mode, lastForm, l)
      case Stop(check) => check
      case Next(next) => CheckFrom(own, mode, lastForm, next)
  }

  /** The untagged ANY type takes any TL. */
  function CheckAny(s: seq<Octet>): (r: Check) {
    FetchTagBounds(s);
    var t := FetchTag(s);
    if t.ret <= 0 then (if t.ret == 0 then More else Fail)
    else
      FetchLengthBounds(Constructed(s[0]), s[t.ret..]);
      var len := FetchLength(Constructed(s[0]), s[t.ret..]);
      if len.ret <= 0 then (if len.ret == 0 then More else Fail) else Done(t.ret + len.ret, len.value)
  }

  /** What the assertion in `ber_check_tags` demands, apart from the ANY case. */
  predicate Checkable(own: seq<Tag>, mode: TagMode) { own != [] || mode == Explicit }

  function CheckTags(own: seq<Tag>, mode: TagMode, lastForm: int, s: seq<Octet>): (r: Check)
    requires Checkable(own, mode) || mode == NoTag
  {
    if mode == NoTag && own == [] then CheckAny(s) else CheckFrom(own, mode, lastForm, Loop(0, s, -1, 0, 0, 0))
  }

  /** `ber_check_tags` */
  method BerCheckTags(own: seq<Tag>, mode: TagMode, lastForm: int, s: seq<Octet>) returns (r: Check)
    requires Checkable(own, mode) || mode == NoTag
    ensures r == CheckTags(own, mode, lastForm, s)
  {
    hide FetchTag, FetchLength, Constructed;
    if mode == NoTag && own == [] {
      r := BerCheckAny(s);
      return;
    }
    var l := Loop(0, s, -1, 0, 0, 0);
    while TagNo(mode, l.step) < |own|
      invariant CheckTags(own, mode, lastForm, s) == CheckFrom(own, mode, lastForm, l)
      decreases |own| - TagNo(mode, l.step)
    {
      var round := BerCheckRound(own, mode, lastForm, l);
      if round.Stop? {
        return round.check;
      }
      l := round.loop;
    }
    r := Done(l.consumed, if l.open != 0 then 0 - l.open else l.len);
  }

  method BerCheckAny(s: seq<Octet>) returns (r: Check)
    ensures r == CheckAny(s)
  {
    hide FetchTag, FetchLength, Constructed;
    FetchTagBounds(s);
    var tagLen, tag := BerFetchTag(s);
    if tagLen <= 0 {
      return if tagLen == 0 then More else Fail;
    }
    var constr := Constructed(s[0]);
    FetchLengthBounds(constr, s[tagLen..]);
    var lenLen, len := BerFetchLength(constr, s[tagLen..]);
    if lenLen <= 0 {
      return if lenLen == 0 then More else Fail;
    }
    r := Done(tagLen + lenLen, len);
  }

  /** The body of the loop. */
  method BerCheckRound(own: seq<Tag>, mode: TagMode, lastForm: int, l: Loop) returns (r: Round)
    requires TagNo(mode, l.step) < |own|
    ensures r == OneRound(own, mode, lastForm, l)
  {
    hide FetchTag, FetchLength, Constructed;
    var ptr, size := l.s, |l.s|;
    FetchTagBounds(ptr);
    var tagLen, tlvTag := BerFetchTag(ptr);
    if tagLen <= 0 {
      return Stop(if tagLen == 0 then More else Fail);
    }
    var constr := Constructed(ptr[0]);
    var tagno := TagNo(mode, l.step);
    if mode != NoTag && l.step == 0 {
      // the outermost tag may be anything
    } else if 0 <= tagno && tlvTag != own[tagno] {
      return Stop(Fail);
    }
    if tagno < |own| - 1 {
      if !constr {
        return Stop(Fail);
      }
    } else if lastForm != (if constr then 1 else 0) && lastForm != -1 {
      return Stop(Fail);
    }
    FetchLengthBounds(constr, ptr[tagLen..]);
    var lenLen, tlvLen := BerFetchLength(constr, ptr[tagLen..]);
    if lenLen <= 0 {
      return Stop(if lenLen == 0 then More else Fail);
    }
    var limitLen := l.limit;
    var advance := tagLen + lenLen;
    if tlvLen == INDEFINITE {
      if limitLen != -1 {
        return Stop(Fail);
      }
      return Next(Loop(l.step + 1, ptr[advance..], -1, l.open + 1, l.consumed + advance, tlvLen));
    } else if l.open != 0 {
      return Stop(Fail);
    }
    if limitLen == -1 {
      limitLen := tlvLen + advance;
      if limitLen >= LENGTH_LIMIT {
        // the sum has wrapped around
        return Stop(Fail);
      }
    } else if limitLen != tlvLen + advance {
      return Stop(Fail);
    }
    ptr := ptr[advance..];
    limitLen := limitLen - advance;
    if |ptr| > limitLen {
      ptr := ptr[..limitLen];
    }
    return Next(Loop(l.step + 1, ptr, limitLen, 0, l.consumed + advance, tlvLen));
  }

  // ---- writer and checker ----

  lemma TLFetched(tag: Tag, len: nat, constructed: bool, tail: seq<Octet>)
    requires Encodable(len)
    ensures var s, o := TL(tag, len, constructed) + tail, TagOctets(tag, constructed);
            && FetchTag(s) == Fetched(|o|, tag) && Constructed(s[0]) == constructed && |o| <= |s|
            && FetchLength(constructed, s[|o|..])
               == if Fetchable(len) then Fetched(|LengthOctets(len)|, len) else Fetched(-1, 0)
  {
    hide TagOctets, FetchTag, FetchLength, Constructed, FormOctets;
    var o := TagOctets(tag, constructed);
    var s := TL(tag, len, constructed) + tail;
    assert s == o + (LengthOctets(len) + tail);
    FetchTagOctets(tag, constructed, LengthOctets(len) + tail);
    LeadOctet(tag, constructed);
    assert s[0] == o[0];
    assert s[|o|..] == LengthOctets(len) + tail;
    MinimalOk(len);
    FetchLengthForm(constructed, Minimal(len), tail);
  }

  /** The outermost length, which is the largest, can be fetched. */
  predicate ChainFetchable(tags: seq<Tag>, n: nat) { tags == [] || Fetchable(HeaderSize(tags[1..], n) + n) }

  lemma InnerFetchable(tags: seq<Tag>, k: nat, n: nat, form: bool)
    requires HeaderOk(tags, n) && ChainFetchable(tags, n) && k < |tags| && HeaderOk(tags[k + 1..], n)
    ensures Fetchable(|Header(tags[k + 1..], n, form)| + n)
  {
    hide TagOctets, LengthOctets, HeaderSize, Header;
    InnerOk(tags, 1, n);
    InnerOk(tags[1..], k, n);
    assert tags[1..][k..] == tags[k + 1..];
    HeaderHasSize(tags[k + 1..], n, form);
  }

  /** Where the loop stands after `k` headers of a chain: what follows is in reach. */
  predicate OnChain(tags: seq<Tag>, n: nat, lastForm: bool, k: nat, l: Loop) {
    && HeaderOk(tags, n) && ChainFetchable(tags, n)
    && k <= |tags| && HeaderOk(tags[k..], n) && l.step == k && l.open == 0
    && Header(tags[k..], n, lastForm) <= l.s
    && (k == 0 ==> l.limit == -1) && (k > 0 ==> l.limit == |Header(tags[k..], n, lastForm)| + n && l.len == l.limit)
  }

  lemma {:induction false} ChainAccepted(own: seq<Tag>, mode: TagMode, tag: Tag, n: nat, form: bool, checkForm: int,
                                           k: nat, l: Loop)
    requires Checkable(own, mode) && (checkForm == -1 || checkForm == if form then 1 else 0)
    requires OnChain(TagsToWrite(own, mode, tag), n, form, k, l)
    ensures CheckFrom(own, mode, checkForm, l)
            == Done(l.consumed + |Header(TagsToWrite(own, mode, tag)[k..], n, form)|, n)
    decreases |own| + 1 - k
  {
    hide TL, TagOctets, LengthOctets, FetchTag, FetchLength, HeaderSize, Constructed, Header, HeaderOk;
    var tags := TagsToWrite(own, mode, tag);
    if k == |tags| {
      assert tags[k..] == [];
      NoHeaderForm(n, form);
      assert TagNo(mode, k) == |own|;
    } else {
      var next := ChainRound(own, mode, tag, n, form, checkForm, k, l);
      ChainAccepted(own, mode, tag, n, form, checkForm, k + 1, next);
    }
  }

  /** One round over a well-formed chain. */
  lemma ChainRound(own: seq<Tag>, mode: TagMode, tag: Tag, n: nat, form: bool, checkForm: int, k: nat, l: Loop)
    returns (next: Loop)
    requires Checkable(own, mode) && (checkForm == -1 || checkForm == if form then 1 else 0)
    requires OnChain(TagsToWrite(own, mode, tag), n, form, k, l) && k < |TagsToWrite(own, mode, tag)|
    ensures TagNo(mode, l.step) < |own| && OneRound(own, mode, checkForm, l) == Next(next)
    ensures OnChain(TagsToWrite(own, mode, tag), n, form, k + 1, next)
    ensures next.consumed + |Header(TagsToWrite(own, mode, tag)[k + 1..], n, form)|
         == l.consumed + |Header(TagsToWrite(own, mode, tag)[k..], n, form)|
  {
    hide TL, TagOctets, LengthOctets, FetchTag, FetchLength, HeaderSize, Constructed, Header, HeaderOk;
    var tags := TagsToWrite(own, mode, tag);
    HeaderStep(tags, k, n, form);
    var inner, whole := Header(tags[k + 1..], n, form), Header(tags[k..], n, form);
    var constr, len := form || k < |tags| - 1, |inner| + n;
    var tl := TL(tags[k], len, constr);
    var rest := l.s[|tl|..];
    assert whole == tl + inner;
    assert l.s == tl + rest && inner <= rest by { PrefixOfPrefix(tl, inner, l.s); }
    InnerFetchable(tags, k, n, form);
    TLFetched(tags[k], len, constr, rest);
    TLParts(tags[k], len, constr);
    WholeFits(tags[k..], n, form);
    next := Loop(k + 1, Crop(rest, len), len, 0, l.consumed + |tl|, len);
    assert inner <= Crop(rest, len);
  }

  lemma WholeFits(tags: seq<Tag>, n: nat, form: bool)
    requires HeaderOk(tags, n)
    ensures |Header(tags, n, form)| + n < LENGTH_LIMIT
  {
    HeaderHasSize(tags, n, form);
  }

  lemma PrefixOfPrefix(a: seq<Octet>, b: seq<Octet>, s: seq<Octet>)
    requires a + b <= s
    ensures |a| <= |s| && s == a + s[|a|..] && b <= s[|a|..]
  {
    assert s[..|a| + |b|] == a + b;
  }

  lemma TLParts(tag: Tag, len: nat, constructed: bool)
    requires Encodable(len)
    ensures |TL(tag, len, constructed)| == |TagOctets(tag, constructed)| + |LengthOctets(len)|
    ensures 0 < |TagOctets(tag, constructed)| && 0 < |LengthOctets(len)|
  {
  }

  /** Every header that the writer produces is accepted, whatever octets follow: exactly its
      octets are consumed and the length of the contents comes back.  There are two exceptions: the
      empty header of an untagged type without tags, where the checker expects some TL, and an
      outermost length within 1024 of the limit. */
  lemma HeaderAccepted(own: seq<Tag>, mode: TagMode, tag: Tag, n: nat, form: bool, checkForm: int, tail: seq<Octet>)
    requires Checkable(own, mode) || mode == NoTag
    requires (checkForm == -1 || checkForm == if form then 1 else 0) && HeaderOk(TagsToWrite(own, mode, tag), n)
    ensures var h := Header(TagsToWrite(own, mode, tag), n, form);
            CheckTags(own, mode, checkForm, h + tail) == Done(|h|, n)
            <==> Checkable(own, mode) && ChainFetchable(TagsToWrite(own, mode, tag), n)
  {
    hide HeaderOk, CheckFrom, FetchTag, FetchLength, TL;
    var tags := TagsToWrite(own, mode, tag);
    if Checkable(own, mode) && !ChainFetchable(tags, n) {
      hide Header;
      HugeRefused(own, mode, tag, n, form, checkForm, tail);
    } else if Checkable(own, mode) {
      hide Header;
      assert tags[0..] == tags;
      var l := Loop(0, Header(tags, n, form) + tail, -1, 0, 0, 0);
      assert OnChain(tags, n, form, 0, l);
      ChainAccepted(own, mode, tag, n, form, checkForm, 0, l);
    }
  }

  lemma HugeRefused(own: seq<Tag>, mode: TagMode, tag: Tag, n: nat, form: bool, checkForm: int, tail: seq<Octet>)
    requires Checkable(own, mode) && HeaderOk(TagsToWrite(own, mode, tag), n)
    requires !ChainFetchable(TagsToWrite(own, mode, tag), n)
    ensures var h := Header(TagsToWrite(own, mode, tag), n, form);
            CheckTags(own, mode, checkForm, h + tail) == Fail
  {
    hide TL, TagOctets, LengthOctets, FetchTag, FetchLength, HeaderSize, Constructed, Header, HeaderOk;
    var tags := TagsToWrite(own, mode, tag);
    assert tags[0..] == tags;
    HeaderStep(tags, 0, n, form);
    HeaderHasSize(tags[1..], n, form);
    var inner := Header(tags[1..], n, form);
    var constr, len := form || 0 < |tags| - 1, |inner| + n;
    var tl := TL(tags[0], len, constr);
    var s := Header(tags, n, form) + tail;
    assert s == tl + (inner + tail);
    TLFetched(tags[0], len, constr, inner + tail);
    TLParts(tags[0], len, constr);
    var l := Loop(0, s, -1, 0, 0, 0);
    assert TagNo(mode, 0) < |own|;
    assert OneRound(own, mode, checkForm, l) == Stop(Fail);
  }
}
