/**
  What `ber_check_tags` (libasn1c/src/ber_decoder.c) accepts: exactly the chains of nested headers
  with the type's tags and consistent lengths, however their identifiers and lengths are written.
 */
module DerChains {
  import opened PerBits
  import opened BerTlv
  import opened DerTags

  /** One header: identifier octets and a definite length. */
  datatype Head = Head(id: seq<Octet>, form: LengthForm)

  predicate HeadOk(h: Head) {
    IdOk(h.id) && FormOk(h.form) && !(Constructed(h.id[0]) && h.form == Long([]))
  }

  function HeadOctets(h: Head): (s: seq<Octet>)
    requires HeadOk(h)
    ensures s != []
  {
    h.id + FormOctets(h.form)
  }

  predicate AllOk(hs: seq<Head>) { forall i :: 0 <= i < |hs| ==> HeadOk(hs[i]) }

  function ChainOctets(hs: seq<Head>): (s: seq<Octet>)
    requires AllOk(hs)
  {
    if hs == [] then [] else HeadOctets(hs[0]) + ChainOctets(hs[1..])
  }

  /** The header is what step `step` expects: its tag, unless it is the one given from outside, and
      its form. */
  predicate Expected(own: seq<Tag>, mode: TagMode, lastForm: int, step: nat, id: seq<Octet>)
    requires IdOk(id) && TagNo(mode, step) < |own|
  {
    var tagno := TagNo(mode, step);
    && ((mode != NoTag && step == 0) || tagno < 0 || IdTag(id) == own[tagno])
    && if tagno < |own| - 1 then Constructed(id[0])
       else lastForm == -1 || lastForm == if Constructed(id[0]) then 1 else 0
  }

  /** A chain from step `step` on around contents of `n` octets: every length counts exactly what
      follows, and nothing is missing. */
  predicate ChainOk(own: seq<Tag>, mode: TagMode, lastForm: int, step: nat, hs: seq<Head>, n: nat)
    decreases |hs|
  {
    && AllOk(hs)
    && if hs == [] then TagNo(mode, step) >= |own|
       else
         && TagNo(mode, step) < |own| && Expected(own, mode, lastForm, step, hs[0].id)
         && FormValue(hs[0].form) == |ChainOctets(hs[1..])| + n
         && ChainOk(own, mode, lastForm, step + 1, hs[1..], n)
  }

  // ---- one round ----

  /** A round over a well-formed header. */
  lemma RoundOverHead(own: seq<Tag>, mode: TagMode, lastForm: int, l: Loop, h: Head, rest: seq<Octet>)
    requires TagNo(mode, l.step) < |own| && HeadOk(h) && Expected(own, mode, lastForm, l.step, h.id)
    requires l.s == HeadOctets(h) + rest && l.open == 0
    requires var whole := FormValue(h.form) + |HeadOctets(h)|;
             if l.limit == -1 then whole < LENGTH_LIMIT else l.limit == whole
    ensures var len := FormValue(h.form);
            OneRound(own, mode, lastForm, l)
            == Next(Loop(l.step + 1, Crop(rest, len), len, 0, l.consumed + |HeadOctets(h)|, len))
  {
    hide FetchTag, FetchLength, Constructed, IdOk, IdTag, FormOctets, FormOk, FormValue, WordOf;
    IdSome(h.id);
    HeadFetched(h, rest);
    assert l.s[|HeadOctets(h)|..] == rest;
  }

  lemma HeadFetched(h: Head, rest: seq<Octet>)
    requires HeadOk(h)
    ensures var s := HeadOctets(h) + rest;
            && s[0] == h.id[0] && 0 < |h.id| <= |s| && FetchTag(s) == Fetched(|h.id|, IdTag(h.id))
            && FetchLength(Constructed(s[0]), s[|h.id|..]) == Fetched(|FormOctets(h.form)|, FormValue(h.form))
  {
    hide FetchTag, FetchLength, Constructed, IdOk, IdTag, FormOctets, FormOk, FormValue;
    FormInRange(h.form);
    var s, f := HeadOctets(h) + rest, FormOctets(h.form);
    assert s == h.id + (f + rest);
    FetchIdentifier(h.id, f + rest);
    IdSome(h.id);
    assert s[|h.id|..] == f + rest;
    FetchLengthForm(Constructed(h.id[0]), h.form, rest);
  }

  lemma FormInRange(f: LengthForm)
    requires FormOk(f)
    ensures FormShaped(f) && FormValue(f) < LENGTH_LIMIT
  {
  }

  /** The converse: a definite round has passed an expected header. */
  lemma HeadPassed(own: seq<Tag>, mode: TagMode, lastForm: int, l: Loop) returns (h: Head)
    requires TagNo(mode, l.step) < |own| && OneRound(own, mode, lastForm, l).Next?
    requires OneRound(own, mode, lastForm, l).loop.open == 0 && l.open == 0
    ensures HeadOk(h) && Expected(own, mode, lastForm, l.step, h.id) && HeadOctets(h) <= l.s
    ensures var len, tl := FormValue(h.form), |HeadOctets(h)|;
            && OneRound(own, mode, lastForm, l)
               == Next(Loop(l.step + 1, Crop(l.s[tl..], len), len, 0, l.consumed + tl, len))
            && if l.limit == -1 then len + tl < LENGTH_LIMIT else l.limit == len + tl
  {
    hide FetchTag, FetchLength, Constructed, IdOk, IdTag, FormOctets, FormOk, FormValue, WordOf;
    IdentifierFetched(l.s);
    var t := FetchTag(l.s).ret;
    IdSome(l.s[..t]);
    FetchLengthBounds(Constructed(l.s[0]), l.s[t..]);
    assert l.s[..t][0] == l.s[0];
    var f := FetchedForm(Constructed(l.s[0]), l.s[t..]);
    h := Head(l.s[..t], f);
    FormInRange(f);
    assert HeadOctets(h) == l.s[..t + |FormOctets(f)|];
  }

  lemma NeverDone(own: seq<Tag>, mode: TagMode, lastForm: int, l: Loop)
    requires TagNo(mode, l.step) < |own|
    ensures OneRound(own, mode, lastForm, l).Stop? ==> !OneRound(own, mode, lastForm, l).check.Done?
  {
    hide FetchTag, FetchLength, Constructed;
  }

  /** Once an indefinite length has been seen, the loop does not end with a definite one. */
  lemma {:induction false} OpenStays(own: seq<Tag>, mode: TagMode, lastForm: int, l: Loop)
    requires 0 < l.open && CheckFrom(own, mode, lastForm, l).Done?
    ensures CheckFrom(own, mode, lastForm, l).lastLength < 0
    decreases |own| - TagNo(mode, l.step)
  {
    hide FetchTag, FetchLength, Constructed;
    if TagNo(mode, l.step) < |own| {
      OpenStays(own, mode, lastForm, OneRound(own, mode, lastForm, l).loop);
    }
  }

  // ---- all rounds ----

  /** A chain in front of anything is accepted from where its first header stands. */
  lemma {:induction false} ChainPasses(own: seq<Tag>, mode: TagMode, lastForm: int, l: Loop, hs: seq<Head>, n: nat)
    requires ChainOk(own, mode, lastForm, l.step, hs, n) && ChainOctets(hs) <= l.s && l.open == 0
    requires if hs == [] then l.len == n
             else if l.limit == -1 then |ChainOctets(hs)| + n < LENGTH_LIMIT
             else l.limit == |ChainOctets(hs)| + n
    ensures CheckFrom(own, mode, lastForm, l) == Done(l.consumed + |ChainOctets(hs)|, n)
    decreases |hs|
  {
    hide OneRound, HeadOctets, HeadOk, Expected, FormValue;
    if hs != [] {
      var h, inner := hs[0], ChainOctets(hs[1..]);
      var rest := l.s[|HeadOctets(h)|..];
      PrefixOfPrefix(HeadOctets(h), inner, l.s);
      RoundOverHead(own, mode, lastForm, l, h, rest);
      var len := FormValue(h.form);
      CroppedPrefix(inner, rest, len);
      ChainPasses(own, mode, lastForm, Loop(l.step + 1, Crop(rest, len), len, 0, l.consumed + |HeadOctets(h)|, len),
                  hs[1..], n);
    }
  }

  lemma CroppedPrefix(a: seq<Octet>, s: seq<Octet>, limit: int)
    requires a <= s && |a| <= limit
    ensures a <= Crop(s, limit)
  {
  }

  /** The converse: what the loop consumes up to a definite length is a chain. */
  lemma {:induction false} ChainPassed(own: seq<Tag>, mode: TagMode, lastForm: int, l: Loop) returns (hs: seq<Head>)
    requires l.open == 0 && CheckFrom(own, mode, lastForm, l).Done?
    requires CheckFrom(own, mode, lastForm, l).lastLength >= 0
    ensures var n := CheckFrom(own, mode, lastForm, l).lastLength;
            && ChainOk(own, mode, lastForm, l.step, hs, n) && ChainOctets(hs) <= l.s
            && CheckFrom(own, mode, lastForm, l).consumed == l.consumed + |ChainOctets(hs)|
            && if hs == [] then n == l.len
               else if l.limit == -1 then |ChainOctets(hs)| + n < LENGTH_LIMIT
               else l.limit == |ChainOctets(hs)| + n
    decreases |own| - TagNo(mode, l.step)
  {
    hide OneRound, HeadOctets, HeadOk, Expected, FormValue;
    hs := [];
    if TagNo(mode, l.step) < |own| {
      NeverDone(own, mode, lastForm, l);
      var next := OneRound(own, mode, lastForm, l).loop;
      if next.open > 0 {
        OpenStays(own, mode, lastForm, next);
        assert false;
      } else {
        var h := HeadPassed(own, mode, lastForm, l);
        var rest := ChainPassed(own, mode, lastForm, next);
        hs := [h] + rest;
        assert hs[1..] == rest;
        JoinedPrefix(HeadOctets(h), ChainOctets(rest), l.s, FormValue(h.form));
      }
    }
  }

  lemma JoinedPrefix(a: seq<Octet>, b: seq<Octet>, s: seq<Octet>, limit: int)
    requires a <= s && b <= Crop(s[|a|..], limit)
    ensures a + b <= s
  {
  }

  /** `ber_check_tags` consumes `k` octets and finds contents of `n` exactly if those octets are a
      chain of the type's headers around contents of that length, and the whole does not exceed
      the range of lengths. */
  lemma CheckIff(own: seq<Tag>, mode: TagMode, lastForm: int, s: seq<Octet>, k: nat, n: nat)
    requires Checkable(own, mode) && k <= |s|
    ensures CheckTags(own, mode, lastForm, s) == Done(k, n)
            <==> k + n < LENGTH_LIMIT
                 && exists hs :: ChainOk(own, mode, lastForm, 0, hs, n) && ChainOctets(hs) == s[..k]
  {
    hide CheckFrom, ChainOctets, FormValue, Expected, HeadOk;
    var l := Loop(0, s, -1, 0, 0, 0);
    if CheckTags(own, mode, lastForm, s) == Done(k, n) {
      var hs := ChainPassed(own, mode, lastForm, l);
      assert hs != [];
      assert ChainOctets(hs) == s[..k];
    }
    forall hs | ChainOk(own, mode, lastForm, 0, hs, n) && ChainOctets(hs) == s[..k] && k + n < LENGTH_LIMIT
      ensures CheckTags(own, mode, lastForm, s) == Done(k, n)
    {
      assert hs != [];
      ChainPasses(own, mode, lastForm, l, hs, n);
    }
  }

  // ---- indefinite lengths ----

  /** Identifiers of headers that all have the indefinite length 80. */
  predicate OpenChain(own: seq<Tag>, mode: TagMode, lastForm: int, step: nat, ids: seq<seq<Octet>>)
    decreases |ids|
  {
    if ids == [] then TagNo(mode, step) >= |own|
    else
      && IdOk(ids[0]) && Constructed(ids[0][0]) && TagNo(mode, step) < |own|
      && Expected(own, mode, lastForm, step, ids[0]) && OpenChain(own, mode, lastForm, step + 1, ids[1..])
  }

  function OpenOctets(ids: seq<seq<Octet>>): seq<Octet> {
    if ids == [] then [] else ids[0] + [0x80] + OpenOctets(ids[1..])
  }

  lemma RoundOverOpen(own: seq<Tag>, mode: TagMode, lastForm: int, l: Loop, id: seq<Octet>, rest: seq<Octet>)
    requires TagNo(mode, l.step) < |own| && IdOk(id) && Constructed(id[0])
    requires Expected(own, mode, lastForm, l.step, id) && l.s == id + [0x80] + rest && l.limit == -1
    ensures OneRound(own, mode, lastForm, l)
         == Next(Loop(l.step + 1, rest, -1, l.open + 1, l.consumed + |id| + 1, INDEFINITE))
  {
    hide FetchTag, FetchLength, Constructed, IdOk, IdTag;
    IdSome(id);
    assert l.s == id + ([0x80] + rest);
    FetchIdentifier(id, [0x80] + rest);
    assert l.s[0] == id[0] && l.s[|id|..] == [0x80] + rest && l.s[|id| + 1..] == rest;
    IndefiniteForm([0x80] + rest);
  }

  lemma OpenPassedHead(own: seq<Tag>, mode: TagMode, lastForm: int, l: Loop) returns (id: seq<Octet>)
    requires TagNo(mode, l.step) < |own| && OneRound(own, mode, lastForm, l).Next?
    requires OneRound(own, mode, lastForm, l).loop.open > 0
    ensures IdOk(id) && Constructed(id[0]) && Expected(own, mode, lastForm, l.step, id)
    ensures id + [0x80] <= l.s && l.limit == -1
    ensures OneRound(own, mode, lastForm, l)
         == Next(Loop(l.step + 1, l.s[|id| + 1..], -1, l.open + 1, l.consumed + |id| + 1, INDEFINITE))
  {
    hide FetchTag, FetchLength, Constructed, IdOk, IdTag;
    IdentifierFetched(l.s);
    var t := FetchTag(l.s).ret;
    id := l.s[..t];
    IdSome(id);
    assert id[0] == l.s[0];
    FetchLengthBounds(Constructed(l.s[0]), l.s[t..]);
    IndefiniteOctet(Constructed(l.s[0]), l.s[t..]);
    assert l.s[..t + 1] == id + [0x80];
  }

  lemma {:induction false} OpenPasses(own: seq<Tag>, mode: TagMode, lastForm: int, l: Loop, ids: seq<seq<Octet>>)
    requires OpenChain(own, mode, lastForm, l.step, ids) && OpenOctets(ids) <= l.s && l.limit == -1
    requires 0 < l.open + |ids|
    ensures CheckFrom(own, mode, lastForm, l) == Done(l.consumed + |OpenOctets(ids)|, 0 - (l.open + |ids|))
    decreases |ids|
  {
    hide OneRound, Expected, IdOk, Constructed;
    if ids != [] {
      var head, inner := ids[0] + [0x80], OpenOctets(ids[1..]);
      var rest := l.s[|head|..];
      PrefixOfPrefix(head, inner, l.s);
      RoundOverOpen(own, mode, lastForm, l, ids[0], rest);
      OpenPasses(own, mode, lastForm,
                 Loop(l.step + 1, rest, -1, l.open + 1, l.consumed + |ids[0]| + 1, INDEFINITE), ids[1..]);
    }
  }

  /** Once a definite length has been seen, the loop does not end with an indefinite one. */
  lemma {:induction false} ClosedStays(own: seq<Tag>, mode: TagMode, lastForm: int, l: Loop)
    requires l.open == 0 && 0 <= l.limit && 0 <= l.len && CheckFrom(own, mode, lastForm, l).Done?
    ensures CheckFrom(own, mode, lastForm, l).lastLength >= 0
    decreases |own| - TagNo(mode, l.step)
  {
    hide FetchTag, FetchLength, Constructed, HeadOk, Expected;
    if TagNo(mode, l.step) < |own| {
      var h := HeadPassed(own, mode, lastForm, l);
      ClosedStays(own, mode, lastForm, OneRound(own, mode, lastForm, l).loop);
    }
  }

  lemma {:induction false} OpenPassed(own: seq<Tag>, mode: TagMode, lastForm: int, l: Loop)
    returns (ids: seq<seq<Octet>>)
    requires l.limit == -1 && CheckFrom(own, mode, lastForm, l).Done?
    requires CheckFrom(own, mode, lastForm, l).lastLength < 0 && (0 < l.open || TagNo(mode, l.step) < |own|)
    ensures OpenChain(own, mode, lastForm, l.step, ids) && OpenOctets(ids) <= l.s
    ensures CheckFrom(own, mode, lastForm, l) == Done(l.consumed + |OpenOctets(ids)|, 0 - (l.open + |ids|))
    decreases |own| - TagNo(mode, l.step)
  {
    hide OneRound, Expected, IdOk, Constructed;
    ids := [];
    if TagNo(mode, l.step) < |own| {
      NeverDone(own, mode, lastForm, l);
      var next := OneRound(own, mode, lastForm, l).loop;
      if next.open == 0 {
        var h := HeadPassedAny(own, mode, lastForm, l);
        ClosedStays(own, mode, lastForm, next);
        assert false;
      } else {
        var id := OpenPassedHead(own, mode, lastForm, l);
        var rest := OpenPassed(own, mode, lastForm, next);
        ids := [id] + rest;
        assert ids[1..] == rest;
        Joined(id + [0x80], OpenOctets(rest), l.s);
      }
    }
  }

  lemma Joined(a: seq<Octet>, b: seq<Octet>, s: seq<Octet>)
    requires a <= s && b <= s[|a|..]
    ensures a + b <= s
  {
  }

  /** A definite round is one from the start or behind definite ones. */
  lemma HeadPassedAny(own: seq<Tag>, mode: TagMode, lastForm: int, l: Loop) returns (h: Head)
    requires TagNo(mode, l.step) < |own| && OneRound(own, mode, lastForm, l).Next?
    requires OneRound(own, mode, lastForm, l).loop.open == 0
    ensures var next := OneRound(own, mode, lastForm, l).loop; 0 <= next.limit && 0 <= next.len
  {
    assert l.open == 0 by {
      hide FetchTag, FetchLength, Constructed;
    }
    h := HeadPassed(own, mode, lastForm, l);
  }

  /** `ber_check_tags` consumes `k` octets and finds `m` lengths to be terminated exactly if those
      octets are a chain of `m` indefinite headers with the type's tags. */
  lemma CheckOpenIff(own: seq<Tag>, mode: TagMode, lastForm: int, s: seq<Octet>, k: nat, m: nat)
    requires Checkable(own, mode) && k <= |s| && 0 < m
    ensures CheckTags(own, mode, lastForm, s) == Done(k, 0 - m)
            <==> exists ids :: OpenChain(own, mode, lastForm, 0, ids) && |ids| == m && OpenOctets(ids) == s[..k]
  {
    hide CheckFrom, OpenOctets, Expected, IdOk;
    var l := Loop(0, s, -1, 0, 0, 0);
    if CheckTags(own, mode, lastForm, s) == Done(k, 0 - m) {
      var ids := OpenPassed(own, mode, lastForm, l);
      assert OpenOctets(ids) == s[..k];
    }
    forall ids | OpenChain(own, mode, lastForm, 0, ids) && |ids| == m && OpenOctets(ids) == s[..k]
      ensures CheckTags(own, mode, lastForm, s) == Done(k, 0 - m)
    {
      OpenPasses(own, mode, lastForm, l, ids);
    }
  }
}
