/**
  BER tags, lengths and the skipping of whole TLVs (libasn1c/src/ber_tlv_tag.c,
  libasn1c/src/ber_tlv_length.c), for 32-bit tags and 64-bit lengths.
  As in the C code a result is -1 for a malformed input, 0 if octets are missing, and else the
  number of octets.
 */
module BerTlv {
  import opened PerBits
  import opened Slices

  const LENGTH_LIMIT := 0x8000_0000_0000_0000

  /** `ret` is the return value, `value` what is stored through the pointer. */
  datatype Fetched = Fetched(ret: int, value: int)

  const INDEFINITE := -1

  // ---- lengths ----

  /** The loop of `ber_fetch_length`: `oct` octets are still to come, from `s[i]` on. */
  function FetchLong(s: seq<Octet>, i: nat, oct: nat, len: nat): (r: Fetched)
    requires i <= |s|
    decreases oct
  {
    if oct == 0 then
      if len + 1024 >= LENGTH_LIMIT then Fetched(-1, 0) else Fetched(i, len)
    else if i == |s| then Fetched(0, 0)
    else
      var l := 256 * len + s[i];
      if l >= LENGTH_LIMIT || (l / 0x100_0000_0000_0000 != 0 && oct > 1) then Fetched(-1, 0)
      else FetchLong(s, i + 1, oct - 1, l)
  }

  function FetchLength(constructed: bool, s: seq<Octet>): (r: Fetched) {
    if s == [] then Fetched(0, 0)
    else if s[0] < 128 then Fetched(1, s[0])
    else if constructed && s[0] == 0x80 then Fetched(1, INDEFINITE)
    else if s[0] == 0xff then Fetched(-1, 0)
    else FetchLong(s, 1, s[0] - 128, 0)
  }

  lemma {:induction false} FetchLongBounds(s: seq<Octet>, i: nat, oct: nat, len: nat)
    requires i <= |s|
    ensures var r := FetchLong(s, i, oct, len);
            -1 <= r.ret <= |s| && (r.ret > 0 ==> r.ret == i + oct && 0 <= r.value < LENGTH_LIMIT - 1024)
    decreases oct
  {
    if oct > 0 && i < |s| {
      FetchLongBounds(s, i + 1, oct - 1, 256 * len + s[i]);
    }
  }

  lemma FetchLengthBounds(constructed: bool, s: seq<Octet>)
    ensures var r := FetchLength(constructed, s);
            -1 <= r.ret <= |s| && (r.ret > 0 ==> INDEFINITE <= r.value < LENGTH_LIMIT - 1024)
  {
    if s != [] && 128 <= s[0] {
      FetchLongBounds(s, 1, s[0] - 128, 0);
    }
  }

  /** `ber_fetch_length` */
  method BerFetchLength(constructed: bool, s: seq<Octet>) returns (ret: int, lenR: int)
    ensures Fetched(ret, lenR) == FetchLength(constructed, s)
  {
    lenR := 0;
    if s == [] {
      return 0, 0;
    }
    var oct: nat := s[0];
    if oct < 128 {
      return 1, oct;
    }
    if constructed && oct == 0x80 {
      return 1, INDEFINITE;
    }
    if oct == 0xff {
      return -1, 0;
    }
    oct := oct - 128;
    var len, skipped: nat := 0, 1;
    while oct != 0 && skipped < |s|
      invariant 0 <= oct && 1 <= skipped <= |s| && 0 <= len
      invariant FetchLength(constructed, s) == FetchLong(s, skipped, oct, len)
      decreases oct
    {
      len := 256 * len + s[skipped];
      skipped := skipped + 1;
      if len >= LENGTH_LIMIT || (len / 0x100_0000_0000_0000 != 0 && oct > 1) {
        return -1, 0;
      }
      oct := oct - 1;
    }
    if oct == 0 {
      if len + 1024 >= LENGTH_LIMIT {
        return -1, 0;
      }
      return skipped, len;
    }
    return 0, 0;
  }

  lemma {:induction false} WordOfAppend(a: seq<Octet>, b: seq<Octet>)
    ensures WordOf(a + b) >= WordOf(a)
    ensures b != [] ==> WordOf(a + b) >= 256 * WordOf(a)
  {
    if b == [] {
      assert a + b == a;
    } else {
      var k := |b| - 1;
      WordOfAppend(a, b[..k]);
      assert (a + b)[..|a + b| - 1] == a + b[..k];
    }
  }

  /** Any octets, minimal or not, are read as the number they stand for. */
  lemma {:induction false} FetchLongValue(s: seq<Octet>, i: nat, done: seq<Octet>, octets: seq<Octet>)
    requires i + |octets| <= |s| && s[i..i + |octets|] == octets
    ensures FetchLong(s, i, |octets|, WordOf(done))
         == if WordOf(done + octets) + 1024 < LENGTH_LIMIT then Fetched(i + |octets|, WordOf(done + octets))
            else Fetched(-1, 0)
    decreases |octets|
  {
    if octets == [] {
      assert done + octets == done;
    } else {
      var next := done + [octets[0]];
      assert next[..|next| - 1] == done;
      assert next + octets[1..] == done + octets;
      WordOfAppend(next, octets[1..]);
      assert s[i + 1..i + |octets|] == octets[1..];
      assert s[i] == octets[0];
      FetchLongValue(s, i + 1, next, octets[1..]);
    }
  }

  /** A length field: short, or long with any octets that give the value. */
  datatype LengthForm = Short(len: nat) | Long(octets: seq<Octet>)

  predicate FormShaped(f: LengthForm) {
    match f
    case Short(len) => len <= 127
    case Long(octets) => |octets| <= 126
  }

  /** A form that the decoder takes: it keeps 1024 clear of 2^63. */
  predicate FormOk(f: LengthForm) { FormShaped(f) && FormValue(f) < 0x7fff_ffff_ffff_fc00 }

  function FormValue(f: LengthForm): nat {
    match f
    case Short(len) => len
    case Long(octets) => WordOf(octets)
  }

  function FormOctets(f: LengthForm): (s: seq<Octet>)
    requires FormShaped(f)
    ensures s != []
  {
    match f
    case Short(len) => [len]
    case Long(octets) => [0x80 + |octets|] + octets
  }

  lemma FetchLengthForm(constructed: bool, f: LengthForm, tail: seq<Octet>)
    requires FormShaped(f) && !(constructed && f == Long([]))
    ensures FetchLength(constructed, FormOctets(f) + tail)
         == if FormOk(f) then Fetched(|FormOctets(f)|, FormValue(f)) else Fetched(-1, 0)
  {
    hide WordOf, FetchLong;
    if f.Long? {
      var s := FormOctets(f) + tail;
      assert s[0] == 0x80 + |f.octets| && s[1..1 + |f.octets|] == f.octets;
      Nothing(f.octets);
      NoWord();
      FetchLongValue(s, 1, [], f.octets);
    }
  }

  lemma NoWord()
    ensures WordOf([]) == 0
  {
  }

  /** The converse for the octets of a long form. */
  lemma {:induction false} FetchLongIs(s: seq<Octet>, i: nat, oct: nat, done: seq<Octet>)
    requires i <= |s| && FetchLong(s, i, oct, WordOf(done)).ret > 0
    ensures var r := FetchLong(s, i, oct, WordOf(done));
            i + oct <= |s| && r == Fetched(i + oct, WordOf(done + s[i..i + oct])) && r.value + 1024 < LENGTH_LIMIT
    decreases oct
  {
    hide WordOf;
    if oct == 0 {
      assert done + s[i..i] == done;
    } else {
      WordNext(done, s[i]);
      FetchLongIs(s, i + 1, oct - 1, done + [s[i]]);
      Shifted(s, i, oct, done);
    }
  }

  lemma WordNext(done: seq<Octet>, x: Octet)
    ensures WordOf(done + [x]) == 256 * WordOf(done) + x
  {
    Snoc(done, x);
  }

  lemma Shifted(s: seq<Octet>, i: nat, n: nat, done: seq<Octet>)
    requires 0 < n && i + n <= |s|
    ensures done + [s[i]] + s[i + 1..i + n] == done + s[i..i + n]
  {
  }

  /** Every definite length that is fetched is a form of it. */
  lemma FetchedForm(constructed: bool, s: seq<Octet>) returns (f: LengthForm)
    requires FetchLength(constructed, s).ret > 0 && FetchLength(constructed, s).value >= 0
    ensures FormOk(f) && !(constructed && f == Long([]))
    ensures var r := FetchLength(constructed, s);
            r.ret <= |s| && s[..r.ret] == FormOctets(f) && r.value == FormValue(f)
  {
    hide WordOf, FetchLong;
    if s[0] < 128 {
      f := Short(s[0]);
    } else {
      f := FetchedLong(s, s[0] - 128);
    }
  }

  lemma FetchedLong(s: seq<Octet>, oct: nat) returns (f: LengthForm)
    requires s != [] && oct <= 126 && s[0] == 0x80 + oct && FetchLong(s, 1, oct, 0).ret > 0
    ensures FormOk(f) && f.Long? && |f.octets| == oct
    ensures var r := FetchLong(s, 1, oct, 0);
            0 <= r.ret <= |s| && s[..r.ret] == FormOctets(f) && r.value == FormValue(f)
  {
    hide WordOf, FetchLong;
    NoWord();
    FetchLongIs(s, 1, oct, []);
    f := Long(s[1..1 + oct]);
    Nothing(f.octets);
    HeadOf(s, 1 + oct);
  }

  lemma HeadOf(s: seq<Octet>, k: nat)
    requires 0 < k <= |s|
    ensures s[..k] == [s[0]] + s[1..k] && |s[1..k]| == k - 1
  {
  }

  // ---- tags ----

  /** The loop of `ber_fetch_tag`. */
  function FetchTagRest(s: seq<Octet>, i: nat, val: nat, tclass: nat): (r: Fetched)
    decreases |s| - i
  {
    if i >= |s| then Fetched(0, 0)
    else if s[i] >= 128 then
      var v := 128 * val + (s[i] - 128);
      if v >= 0x80_0000 then Fetched(-1, 0) else FetchTagRest(s, i + 1, v, tclass)
    else Fetched(i + 1, 4 * (128 * val + s[i]) + tclass)
  }

  function FetchTag(s: seq<Octet>): (r: Fetched) {
    if s == [] then Fetched(0, 0)
    else if s[0] % 32 != 31 then Fetched(1, 4 * (s[0] % 32) + s[0] / 64)
    else FetchTagRest(s, 1, 0, s[0] / 64)
  }

  lemma {:induction false} FetchTagRestBounds(s: seq<Octet>, i: nat, val: nat, tclass: nat)
    ensures -1 <= FetchTagRest(s, i, val, tclass).ret <= |s|
    decreases |s| - i
  {
    if i < |s| && s[i] >= 128 {
      FetchTagRestBounds(s, i + 1, 128 * val + (s[i] - 128), tclass);
    }
  }

  lemma FetchTagBounds(s: seq<Octet>)
    ensures -1 <= FetchTag(s).ret <= |s|
  {
    if s != [] {
      FetchTagRestBounds(s, 1, 0, s[0] / 64);
    }
  }

  /** `ber_fetch_tag` */
  method BerFetchTag(s: seq<Octet>) returns (ret: int, tagR: int)
    ensures Fetched(ret, tagR) == FetchTag(s)
  {
    if s == [] {
      return 0, 0;
    }
    var val: nat := s[0];
    var tclass := val / 64;
    val := val % 32;
    if val != 31 {
      return 1, 4 * val + tclass;
    }
    val := 0;
    var skipped := 2;
    while skipped <= |s|
      invariant 2 <= skipped && FetchTag(s) == FetchTagRest(s, skipped - 1, val, tclass)
      decreases |s| + 1 - skipped
    {
      var oct: nat := s[skipped - 1];
      if oct >= 128 {
        val := 128 * val + (oct - 128);
        if val >= 0x80_0000 {
          return -1, 0;
        }
      } else {
        val := 128 * val + oct;
        return skipped, 4 * val + tclass;
      }
      skipped := skipped + 1;
    }
    return 0, 0;
  }

  /** `ber_tlv_tag_t`: the class in the two lowest bits, the number above. */
  type Tag = t: nat | t < 0x1_0000_0000

  function TagClass(t: Tag): nat { t % 4 }

  function TagNumber(t: Tag): nat { t / 4 }

  /** A number in groups of seven bits, all but the last marked. */
  function Groups(v: nat): (s: seq<Octet>)
    ensures s != []
  {
    if v < 128 then [v] else Marked(v / 128) + [v % 128]
  }

  function Marked(v: nat): (s: seq<Octet>) {
    if v == 0 then [] else Marked(v / 128) + [128 + v % 128]
  }

  /** Identifier octets, section 8.1.2 of X.690. */
  function TagOctets(t: Tag, constructed: bool): (s: seq<Octet>)
    ensures s != []
  {
    var lead := 64 * TagClass(t) + (if constructed then 32 else 0);
    if TagNumber(t) <= 30 then [lead + TagNumber(t)] else [lead + 31] + Groups(TagNumber(t))
  }

  /** `BER_TLV_CONSTRUCTED` */
  predicate Constructed(first: Octet) { first / 32 % 2 == 1 }

  lemma LeadOctet(t: Tag, constructed: bool)
    ensures Constructed(TagOctets(t, constructed)[0]) == constructed
    ensures TagOctets(t, constructed)[0] / 64 == TagClass(t)
    ensures TagOctets(t, constructed)[0] % 32 == if TagNumber(t) <= 30 then TagNumber(t) else 31
  {
  }

  /** The number in groups of seven bits, with or without their marks. */
  function GroupValue(s: seq<Octet>): nat {
    if s == [] then 0 else 128 * GroupValue(s[..|s| - 1]) + s[|s| - 1] % 128
  }

  /** Identifier octets that the decoder takes: one octet, or a marked group each, the last one not
      marked; leading zero groups and small numbers in the long form included. */
  predicate IdOk(id: seq<Octet>) {
    && id != []
    && if id[0] % 32 != 31 then |id| == 1
       else
         && 2 <= |id| && id[|id| - 1] < 128
         && (forall i :: 1 <= i < |id| - 1 ==> 128 <= id[i])
         && GroupValue(id[1..|id| - 1]) < 0x80_0000
  }

  lemma IdSome(id: seq<Octet>)
    requires IdOk(id)
    ensures id != []
  {
  }

  /** The tag that they stand for. */
  function IdTag(id: seq<Octet>): nat
    requires id != []
  {
    4 * (if id[0] % 32 != 31 then id[0] % 32 else GroupValue(id[1..])) + id[0] / 64
  }

  lemma {:induction false} GroupsGrow(a: seq<Octet>, b: seq<Octet>)
    ensures GroupValue(a) <= GroupValue(a + b)
  {
    if b == [] {
      Nothing(a);
    } else {
      LastOf(b);
      assert a + b == (a + b[..|b| - 1]) + [b[|b| - 1]];
      Snoc(a + b[..|b| - 1], b[|b| - 1]);
      GroupsGrow(a, b[..|b| - 1]);
    }
  }

  lemma GroupsNext(s: seq<Octet>, i: nat, j: nat)
    requires i <= j < |s|
    ensures GroupValue(s[i..j + 1]) == 128 * GroupValue(s[i..j]) + s[j] % 128
  {
    assert s[i..j + 1][..j - i] == s[i..j];
  }

  /** From `s[i]` on, with the groups from 1 to `i` read. */
  lemma {:induction false} FetchGroups(s: seq<Octet>, i: nat, k: nat, tclass: nat)
    requires 1 <= i < k <= |s| && s[k - 1] < 128 && GroupValue(s[1..k - 1]) < 0x80_0000
    requires forall j :: 1 <= j < k - 1 ==> 128 <= s[j]
    ensures FetchTagRest(s, i, GroupValue(s[1..i]), tclass) == Fetched(k, 4 * GroupValue(s[1..k]) + tclass)
    decreases k - i
  {
    hide GroupValue;
    GroupsNext(s, 1, i);
    if i < k - 1 {
      GroupsPrefix(s, i + 1, k - 1);
      FetchGroups(s, i + 1, k, tclass);
    }
  }

  lemma GroupsPrefix(s: seq<Octet>, i: nat, j: nat)
    requires 1 <= i <= j <= |s|
    ensures GroupValue(s[1..i]) <= GroupValue(s[1..j])
  {
    hide GroupValue;
    GroupsGrow(s[1..i], s[i..j]);
    assert s[1..i] + s[i..j] == s[1..j];
  }

  /** Every legal identifier is fetched, whatever follows. */
  lemma FetchIdentifier(id: seq<Octet>, tail: seq<Octet>)
    requires IdOk(id)
    ensures FetchTag(id + tail) == Fetched(|id|, IdTag(id))
  {
    hide GroupValue;
    var s := id + tail;
    if id[0] % 32 == 31 {
      var k := |id|;
      assert s[1..k - 1] == id[1..k - 1] && s[1..k] == id[1..] && s[1..1] == [];
      assert GroupValue([]) == 0 by { NoGroups(); }
      FetchGroups(s, 1, k, s[0] / 64);
    }
  }

  lemma NoGroups()
    ensures GroupValue([]) == 0
  {
  }

  lemma {:induction false} GroupsFetched(s: seq<Octet>, i: nat, tclass: nat)
    requires 1 <= i && (i <= |s| ==> GroupValue(s[1..i]) < 0x80_0000 && forall j :: 1 <= j < i ==> 128 <= s[j])
    requires i <= |s| && FetchTagRest(s, i, GroupValue(s[1..i]), tclass).ret > 0
    ensures var r := FetchTagRest(s, i, GroupValue(s[1..i]), tclass);
            var k := r.ret;
            && i < k <= |s| && s[k - 1] < 128 && GroupValue(s[1..k - 1]) < 0x80_0000
            && (forall j :: 1 <= j < k - 1 ==> 128 <= s[j]) && r.value == 4 * GroupValue(s[1..k]) + tclass
    decreases |s| - i
  {
    hide GroupValue;
    GroupsNext(s, 1, i);
    if s[i] >= 128 {
      GroupsFetched(s, i + 1, tclass);
    }
  }

  /** The converse: what is fetched is a legal identifier. */
  lemma IdentifierFetched(s: seq<Octet>)
    requires FetchTag(s).ret > 0
    ensures var r := FetchTag(s);
            r.ret <= |s| && IdOk(s[..r.ret]) && r.value == IdTag(s[..r.ret])
  {
    hide GroupValue;
    if s[0] % 32 == 31 {
      assert s[1..1] == [];
      assert GroupValue([]) == 0 by { NoGroups(); }
      GroupsFetched(s, 1, s[0] / 64);
      var k := FetchTag(s).ret;
      assert s[..k][1..k - 1] == s[1..k - 1] && s[..k][1..] == s[1..k];
    }
  }

  lemma MarkedLast(v: nat)
    requires v != 0
    ensures Marked(v) == Marked(v / 128) + [128 + v % 128]
  {
  }

  lemma NoMarked()
    ensures Marked(0) == []
  {
  }

  lemma {:induction false} MarkedValue(v: nat)
    ensures GroupValue(Marked(v)) == v
    decreases v
  {
    hide GroupValue, Marked;
    if v == 0 {
      NoMarked();
      NoGroups();
    } else {
      MarkedValue(v / 128);
      MarkedLast(v);
      LastGroup(Marked(v / 128), 128 + v % 128);
    }
  }

  lemma {:induction false} MarkedHigh(v: nat, i: nat)
    requires i < |Marked(v)|
    ensures 128 <= Marked(v)[i]
    decreases v
  {
    hide Marked;
    if v == 0 {
      NoMarked();
    } else {
      MarkedLast(v);
      if i < |Marked(v / 128)| {
        MarkedHigh(v / 128, i);
      }
    }
  }

  lemma LongIdentifier(lead: Octet, m: seq<Octet>, x: Octet)
    requires lead % 32 == 31 && x < 128 && GroupValue(m) < 0x80_0000 && forall i :: 0 <= i < |m| ==> 128 <= m[i]
    ensures IdOk([lead] + (m + [x])) && IdTag([lead] + (m + [x])) == 4 * (128 * GroupValue(m) + x) + lead / 64
  {
    hide GroupValue;
    var o := [lead] + (m + [x]);
    assert o[1..] == m + [x] && o[1..|o| - 1] == m;
    LastGroup(m, x);
    forall i | 1 <= i < |o| - 1 ensures 128 <= o[i] {
      assert o[i] == m[i - 1];
    }
  }

  lemma LastGroup(m: seq<Octet>, x: Octet)
    ensures GroupValue(m + [x]) == 128 * GroupValue(m) + x % 128
  {
    Snoc(m, x);
  }

  lemma LeadParts(tclass: nat, constructed: bool, v: nat)
    requires tclass < 4 && v < 32
    ensures var lead := 64 * tclass + (if constructed then 32 else 0) + v;
            lead < 256 && lead % 32 == v && lead / 64 == tclass
  {
  }

  lemma NumberParts(v: nat)
    requires v < 0x4000_0000
    ensures 128 * (v / 128) + v % 128 == v && v / 128 < 0x80_0000
  {
  }

  lemma LongWritten(t: nat, lead: Octet, w: nat, x: Octet, o: seq<Octet>)
    requires lead % 32 == 31 && w < 0x80_0000 && x < 128 && o == [lead] + (Marked(w) + [x])
    requires t == 4 * (128 * w + x) + lead / 64
    ensures IdOk(o) && IdTag(o) == t
  {
    hide Marked, GroupValue, IdOk, IdTag;
    MarkedValue(w);
    forall i | 0 <= i < |Marked(w)| ensures 128 <= Marked(w)[i] {
      MarkedHigh(w, i);
    }
    LongIdentifier(lead, Marked(w), x);
  }

  lemma ShortWritten(t: nat, lead: Octet)
    requires lead % 32 != 31 && t == 4 * (lead % 32) + lead / 64
    ensures IdOk([lead]) && IdTag([lead]) == t
  {
    hide GroupValue;
  }

  lemma OctetsAre(t: Tag, constructed: bool)
    ensures var base := 64 * TagClass(t) + (if constructed then 32 else 0);
            TagOctets(t, constructed)
            == if TagNumber(t) <= 30 then [base + TagNumber(t)] else [base + 31] + Groups(TagNumber(t))
  {
  }

  lemma TagParts(t: Tag)
    ensures t == 4 * TagNumber(t) + TagClass(t) && TagNumber(t) < 0x4000_0000 && TagClass(t) < 4
  {
  }

  /** What the writer produces is legal and stands for the tag. */
  lemma WrittenIdentifier(t: Tag, constructed: bool)
    ensures IdOk(TagOctets(t, constructed)) && IdTag(TagOctets(t, constructed)) == t
  {
    hide IdOk, IdTag, TagOctets, Marked, GroupValue, Groups, TagNumber, TagClass;
    var v, base := TagNumber(t), 64 * TagClass(t) + (if constructed then 32 else 0);
    TagParts(t);
    OctetsAre(t, constructed);
    LeadParts(TagClass(t), constructed, if v <= 30 then v else 31);
    if v <= 30 {
      ShortWritten(t, base + v);
    } else {
      GroupsSplit(v);
      NumberParts(v);
      LongWritten(t, base + 31, v / 128, v % 128, TagOctets(t, constructed));
    }
  }

  lemma GroupsSplit(v: nat)
    ensures Groups(v) == Marked(v / 128) + [v % 128]
  {
  }

  /** Every identifier is read as it was written. */
  lemma FetchTagOctets(t: Tag, constructed: bool, tail: seq<Octet>)
    ensures FetchTag(TagOctets(t, constructed) + tail) == Fetched(|TagOctets(t, constructed)|, t)
  {
    hide TagOctets, FetchTag, IdOk, IdTag;
    WrittenIdentifier(t, constructed);
    FetchIdentifier(TagOctets(t, constructed), tail);
  }

  // ---- skipping ----

  /** `ber_skip_length`: how many octets length and contents of a TLV take. */
  function SkipLength(constructed: bool, s: seq<Octet>): (r: int)
    ensures -1 <= r <= |s|
    decreases |s|, 0
  {
    FetchLengthBounds(constructed, s);
    var l := FetchLength(constructed, s);
    if l.ret <= 0 then l.ret
    else if l.value >= 0 then (if l.ret + l.value > |s| then 0 else l.ret + l.value)
    else
      var n := SkipContents(s[l.ret..]);
      if n <= 0 then n else l.ret + n
  }

  /** Its loop: the TLVs of an indefinite length, up to and including the end marker. */
  function SkipContents(s: seq<Octet>): (r: int)
    ensures -1 <= r <= |s|
    decreases |s|
  {
    FetchTagBounds(s);
    var tl := FetchTag(s).ret;
    if tl <= 0 then tl
    else
      var ll := SkipLength(Constructed(s[0]), s[tl..]);
      if ll <= 0 then ll
      else if s[0] == 0 && s[1] == 0 then tl + ll
      else
        var n := SkipContents(s[tl + ll..]);
        if n <= 0 then n else tl + ll + n
  }

  lemma ContentsStep(s: seq<Octet>, tl: int)
    requires tl == FetchTag(s).ret
    ensures tl <= 0 ==> SkipContents(s) == tl
    ensures 0 < tl ==> s != [] && tl <= |s|
    ensures 0 < tl ==>
              var ll := SkipLength(Constructed(s[0]), s[tl..]);
              && (ll <= 0 ==> SkipContents(s) == ll)
              && (0 < ll ==> 2 <= |s| && tl + ll <= |s| && SkipContents(s) == AfterElement(s, tl + ll))
  {
    hide FetchTag, SkipLength, SkipContents, Constructed, AfterElement;
    FetchTagBounds(s);
    if 0 < tl {
      assert s != [];
      var ll := SkipLength(Constructed(s[0]), s[tl..]);
      ContentsUnfold(s, tl, ll);
    } else {
      ContentsStop(s, tl);
    }
  }

  /** What is left to skip behind the first TLV, which takes `k` octets. */
  function AfterElement(s: seq<Octet>, k: nat): (r: int)
    requires 2 <= |s| && k <= |s|
  {
    if s[0] == 0 && s[1] == 0 then k else Beyond(k, SkipContents(s[k..]))
  }

  lemma ContentsStop(s: seq<Octet>, tl: int)
    requires tl == FetchTag(s).ret && tl <= 0
    ensures SkipContents(s) == tl
  {
    hide FetchTag, SkipLength, Constructed;
  }

  lemma ContentsUnfold(s: seq<Octet>, tl: int, ll: int)
    requires tl == FetchTag(s).ret && 0 < tl <= |s| && ll == SkipLength(Constructed(s[0]), s[tl..])
    ensures ll <= 0 ==> SkipContents(s) == ll
    ensures 0 < ll ==> 2 <= |s| && tl + ll <= |s| && SkipContents(s) == AfterElement(s, tl + ll)
  {
    hide FetchTag, SkipLength, Constructed;
  }

  /** `n` octets further, unless that failed. */
  function Beyond(k: int, n: int): int { if n <= 0 then n else k + n }

  /** `ber_skip_length`, recursive with a loop; it ends on every input. */
  method BerSkipLength(constructed: bool, s: seq<Octet>) returns (ret: int)
    ensures ret == SkipLength(constructed, s)
    decreases |s|
  {
    hide FetchLength, FetchTag, Constructed, SkipContents;
    var ll, vlen := BerFetchLength(constructed, s);
    FetchLengthBounds(constructed, s);
    if ll <= 0 {
      return ll;
    }
    if vlen >= 0 {
      var skip := ll + vlen;
      return if skip > |s| then 0 else skip;
    }
    var skip, ptr := ll, s[ll..];
    while true
      invariant 0 < skip && skip + |ptr| == |s|
      invariant SkipLength(constructed, s) == Beyond(skip, SkipContents(ptr))
      decreases |ptr|
    {
      var tl, tag := BerFetchTag(ptr);
      ContentsStep(ptr, tl);
      if tl <= 0 {
        return tl;
      }
      var inner := BerSkipLength(Constructed(ptr[0]), ptr[tl..]);
      if inner <= 0 {
        return inner;
      }
      skip := skip + tl + inner;
      if ptr[0] == 0 && ptr[1] == 0 {
        return skip;
      }
      ptr := ptr[tl + inner..];
    }
  }

  // ---- trees of TLVs ----

  /** A TLV of definite length, or one of indefinite length around further TLVs. */
  datatype Tlv =
    | Definite(id: seq<Octet>, form: LengthForm, contents: seq<Octet>)
    | Indefinite(id: seq<Octet>, children: seq<Tlv>)

  /** No end marker among the children, and every length field tells the truth.  A primitive TLV
      may have the length octet 80, for 0; in a constructed one that means the indefinite form. */
  predicate TlvOk(t: Tlv) {
    && IdOk(t.id)
    && match t
       case Definite(id, form, contents) =>
         FormOk(form) && FormValue(form) == |contents| && !(Constructed(id[0]) && form == Long([]))
       case Indefinite(id, children) =>
         Constructed(id[0]) && forall c :: c in children ==> TlvOk(c) && !EndMarker(c)
  }

  predicate EndMarker(t: Tlv) { t.Definite? && t.id == [0] && t.form == Short(0) }

  /** Length and contents octets. */
  function AfterTag(t: Tlv): (s: seq<Octet>)
    requires TlvOk(t)
    decreases t, 0
  {
    match t
    case Definite(_, form, contents) => FormOctets(form) + contents
    case Indefinite(_, children) => [0x80] + EncodeAll(children) + [0, 0]
  }

  function Encode(t: Tlv): (s: seq<Octet>)
    requires TlvOk(t)
    decreases t, 1
  {
    t.id + AfterTag(t)
  }

  function EncodeAll(ts: seq<Tlv>): (s: seq<Octet>)
    requires forall t :: t in ts ==> TlvOk(t)
    decreases ts
  {
    if ts == [] then [] else Encode(ts[0]) + EncodeAll(ts[1..])
  }

  lemma SkipEnd(tail: seq<Octet>)
    ensures SkipContents([0, 0] + tail) == 2
  {
    var s := [0, 0] + tail;
    assert FetchTag(s) == Fetched(1, 0);
    var r := s[1..];
    assert r[0] == 0;
    assert FetchLength(Constructed(s[0]), r) == Fetched(1, 0);
    assert SkipLength(Constructed(s[0]), r) == 1;
  }

  /** Only an end marker starts with two zero octets. */
  lemma FirstOctets(t: Tlv)
    requires TlvOk(t) && !EndMarker(t)
    ensures var s := Encode(t); 2 <= |s| && !(s[0] == 0 && s[1] == 0)
  {
    hide Constructed;
    var s := Encode(t);
    assert s[0] == t.id[0] && 0 < |AfterTag(t)|;
    if t.id[0] == 0 {
      assert |t.id| == 1 && s[1] == AfterTag(t)[0];
    }
  }

  /** For every finite tree and any octets behind it, exactly its octets after the tag are
      skipped. */
  lemma {:induction false} SkipTree(t: Tlv, tail: seq<Octet>)
    requires TlvOk(t)
    ensures SkipLength(Constructed(t.id[0]), AfterTag(t) + tail) == |AfterTag(t)|
    decreases t, 0
  {
    hide FetchLength, SkipContents, IdOk, Constructed;
    IdSome(t.id);
    match t {
      case Definite(id, form, contents) =>
        assert AfterTag(t) + tail == FormOctets(form) + (contents + tail);
        FetchLengthForm(Constructed(id[0]), form, contents + tail);
      case Indefinite(_, children) =>
        var s, rest := AfterTag(t) + tail, [0, 0] + tail;
        assert s[1..] == EncodeAll(children) + rest;
        assert FetchLength(true, s) == Fetched(1, INDEFINITE) by { IndefiniteForm(s); }
        SkipTrees(children, tail);
    }
  }

  lemma IndefiniteForm(s: seq<Octet>)
    requires s != [] && s[0] == 0x80
    ensures FetchLength(true, s) == Fetched(1, INDEFINITE)
  {
  }

  lemma {:induction false} SkipTrees(ts: seq<Tlv>, tail: seq<Octet>)
    requires forall t :: t in ts ==> TlvOk(t) && !EndMarker(t)
    ensures SkipContents(EncodeAll(ts) + ([0, 0] + tail)) == |EncodeAll(ts)| + 2
    decreases ts
  {
    hide FetchTag, SkipLength, SkipContents, TlvOk, AfterTag, Encode;
    var rest := [0, 0] + tail;
    if ts == [] {
      assert EncodeAll(ts) + rest == rest;
      SkipEnd(tail);
    } else {
      var t, more := ts[0], EncodeAll(ts[1..]) + rest;
      SkipOne(t, more);
      SkipTrees(ts[1..], tail);
      assert EncodeAll(ts) + rest == Encode(t) + more;
    }
  }

  /** One round of the loop. */
  lemma {:induction false} SkipOne(t: Tlv, more: seq<Octet>)
    requires TlvOk(t) && !EndMarker(t)
    ensures SkipContents(Encode(t) + more) == Beyond(|Encode(t)|, SkipContents(more))
    decreases t, 1
  {
    hide FetchTag, SkipLength, SkipContents, AfterTag, Constructed, IdOk;
    var a := AfterTag(t);
    var s := Encode(t) + more;
    assert s == t.id + (a + more);
    FetchIdentifier(t.id, a + more);
    FirstOctets(t);
    NotEmpty(t);
    assert s[0] == t.id[0] && s[1] == Encode(t)[1];
    assert s[|t.id|..] == a + more && s[|t.id| + |a|..] == more;
    SkipTree(t, more);
    ContentsStep(s, |t.id|);
  }

  lemma NotEmpty(t: Tlv)
    requires TlvOk(t)
    ensures 0 < |t.id| && 0 < |AfterTag(t)|
  {
  }

  // ---- only trees are skipped ----

  /** The converse: what is skipped are the octets of a tree with that identifier. */
  lemma {:induction false} SkippedTree(id: seq<Octet>, s: seq<Octet>) returns (t: Tlv)
    requires IdOk(id) && SkipLength(Constructed(id[0]), s) > 0
    ensures TlvOk(t) && t.id == id && AfterTag(t) == s[..SkipLength(Constructed(id[0]), s)]
    decreases |s|, 0
  {
    hide FetchLength, SkipContents, IdOk, Constructed;
    IdSome(id);
    var l, k := FetchLength(Constructed(id[0]), s), SkipLength(Constructed(id[0]), s);
    FetchLengthBounds(Constructed(id[0]), s);
    if l.value >= 0 {
      var f := FetchedForm(Constructed(id[0]), s);
      t := Definite(id, f, s[l.ret..k]);
      assert s[..k] == s[..l.ret] + s[l.ret..k];
    } else {
      IndefiniteOctet(Constructed(id[0]), s);
      var ts := SkippedTrees(s[1..]);
      t := Indefinite(id, ts);
      assert s[..k] == [0x80] + s[1..][..k - 1];
    }
  }

  lemma IndefiniteOctet(constructed: bool, s: seq<Octet>)
    requires FetchLength(constructed, s).ret > 0 && FetchLength(constructed, s).value < 0
    ensures constructed && s != [] && s[0] == 0x80 && FetchLength(constructed, s) == Fetched(1, INDEFINITE)
  {
    if s != [] && 128 <= s[0] {
      FetchLongBounds(s, 1, s[0] - 128, 0);
    }
  }

  lemma {:induction false} SkippedTrees(s: seq<Octet>) returns (ts: seq<Tlv>)
    requires SkipContents(s) > 0
    ensures forall t :: t in ts ==> TlvOk(t) && !EndMarker(t)
    ensures EncodeAll(ts) + [0, 0] == s[..SkipContents(s)]
    decreases |s|, 1
  {
    hide FetchTag, SkipLength, SkipContents, AfterTag, TlvOk, Constructed, IdOk, Encode;
    var tl := FetchTag(s).ret;
    ContentsStep(s, tl);
    IdentifierFetched(s);
    var ll := SkipLength(Constructed(s[0]), s[tl..]);
    var k := tl + ll;
    if s[0] == 0 && s[1] == 0 {
      EndSkipped(s);
      ts := [];
    } else {
      var t := SkippedTree(s[..tl], s[tl..]);
      JoinTree(t, s, tl, ll);
      var more := SkippedTrees(s[k..]);
      ts := [t] + more;
      assert s[..SkipContents(s)] == s[..k] + s[k..][..SkipContents(s) - k];
      Regrouped(Encode(t), EncodeAll(more), [0, 0]);
    }
  }

  lemma Regrouped(a: seq<Octet>, b: seq<Octet>, c: seq<Octet>)
    ensures a + b + c == a + (b + c)
  {
  }

  lemma EndSkipped(s: seq<Octet>)
    requires 2 <= |s| && s[0] == 0 && s[1] == 0
    ensures SkipContents(s) == 2 && s[..2] == [0, 0]
  {
    SkipEnd(s[2..]);
    assert s == [0, 0] + s[2..];
  }

  lemma JoinTree(t: Tlv, s: seq<Octet>, tl: nat, ll: nat)
    requires TlvOk(t) && tl + ll <= |s| && 2 <= |s| && t.id == s[..tl] && AfterTag(t) == s[tl..][..ll]
    requires !(s[0] == 0 && s[1] == 0)
    ensures Encode(t) == s[..tl + ll] && !EndMarker(t)
  {
    hide IdOk, Constructed;
    assert s[..tl + ll] == s[..tl] + s[tl..][..ll];
  }

  /** `ber_skip_length` skips `k` octets exactly if they are the length and contents octets of a
      tree. */
  lemma SkipIff(id: seq<Octet>, s: seq<Octet>, k: nat)
    requires IdOk(id) && 0 < k <= |s|
    ensures SkipLength(Constructed(id[0]), s) == k
            <==> exists t :: TlvOk(t) && t.id == id && AfterTag(t) == s[..k]
  {
    hide SkipLength, TlvOk, AfterTag, Constructed, IdOk;
    IdSome(id);
    if SkipLength(Constructed(id[0]), s) == k {
      var t := SkippedTree(id, s);
    }
    forall t | TlvOk(t) && t.id == id && AfterTag(t) == s[..k] ensures SkipLength(Constructed(id[0]), s) == k {
      SkipTree(t, s[k..]);
      assert s[..k] + s[k..] == s;
    }
  }

  // ---- more octets ----

  /** Octets that follow never change an answer; only a shortage is open. */
  lemma {:induction false} FetchLongStable(s: seq<Octet>, t: seq<Octet>, i: nat, oct: nat, len: nat)
    requires i <= |s| && FetchLong(s, i, oct, len).ret != 0
    ensures FetchLong(s + t, i, oct, len) == FetchLong(s, i, oct, len)
    decreases oct
  {
    if oct > 0 && i < |s| {
      assert (s + t)[i] == s[i];
      var l := 256 * len + s[i];
      if !(l >= LENGTH_LIMIT || (l / 0x100_0000_0000_0000 != 0 && oct > 1)) {
        FetchLongStable(s, t, i + 1, oct - 1, l);
      }
    }
  }

  lemma FetchLengthStable(constructed: bool, s: seq<Octet>, t: seq<Octet>)
    requires FetchLength(constructed, s).ret != 0
    ensures FetchLength(constructed, s + t) == FetchLength(constructed, s)
  {
    hide FetchLong;
    assert s != [] && (s + t)[0] == s[0];
    if 128 <= s[0] && !(constructed && s[0] == 0x80) && s[0] != 0xff {
      FetchLongStable(s, t, 1, s[0] - 128, 0);
    }
  }

  lemma {:induction false} FetchTagRestStable(s: seq<Octet>, t: seq<Octet>, i: nat, val: nat, tclass: nat)
    requires FetchTagRest(s, i, val, tclass).ret != 0
    ensures FetchTagRest(s + t, i, val, tclass) == FetchTagRest(s, i, val, tclass)
    decreases |s| - i
  {
    if i < |s| {
      assert (s + t)[i] == s[i];
      if s[i] >= 128 && 128 * val + (s[i] - 128) < 0x80_0000 {
        FetchTagRestStable(s, t, i + 1, 128 * val + (s[i] - 128), tclass);
      }
    }
  }

  lemma FetchTagStable(s: seq<Octet>, t: seq<Octet>)
    requires FetchTag(s).ret != 0
    ensures FetchTag(s + t) == FetchTag(s)
  {
    hide FetchTagRest;
    assert s != [] && (s + t)[0] == s[0];
    if s[0] % 32 == 31 {
      FetchTagRestStable(s, t, 1, 0, s[0] / 64);
    }
  }

  /** So it is with skipping. */
  lemma {:induction false} SkipStable(constructed: bool, s: seq<Octet>, t: seq<Octet>)
    requires SkipLength(constructed, s) != 0
    ensures SkipLength(constructed, s + t) == SkipLength(constructed, s)
    decreases |s|, 0
  {
    hide FetchLength, SkipContents;
    FetchLengthBounds(constructed, s);
    FetchLengthStable(constructed, s, t);
    var l := FetchLength(constructed, s);
    if l.ret > 0 && l.value < 0 {
      assert (s + t)[l.ret..] == s[l.ret..] + t;
      ContentsStable(s[l.ret..], t);
    }
  }

  lemma {:induction false} ContentsStable(s: seq<Octet>, t: seq<Octet>)
    requires SkipContents(s) != 0
    ensures SkipContents(s + t) == SkipContents(s)
    decreases |s|, 1
  {
    hide FetchTag, SkipLength, SkipContents, Constructed;
    var tl := FetchTag(s).ret;
    ContentsStep(s, tl);
    FetchTagStable(s, t);
    ContentsStep(s + t, tl);
    if 0 < tl {
      var ll := SkipLength(Constructed(s[0]), s[tl..]);
      assert (s + t)[0] == s[0] && (s + t)[tl..] == s[tl..] + t;
      SkipStable(Constructed(s[0]), s[tl..], t);
      if 0 < ll {
        assert (s + t)[1] == s[1] && (s + t)[tl + ll..] == s[tl + ll..] + t;
        if !(s[0] == 0 && s[1] == 0) {
          ContentsStable(s[tl + ll..], t);
        }
      }
    }
  }
}
