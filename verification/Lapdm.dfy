/**
  Reassembly of LAPDm frames on one `lapdm_buf` (`handle_lapdm` in gsm-parser/l3_handler.c).
 */
module Lapdm {
  import opened Powers
  import opened PerBits
  import opened Wrappers

  const BUFFER_SIZE := 640

  /** What is left of a frame once its header has been decoded. */
  datatype Frame =
    | I(ns: nat, nr: nat, more: bool, payload: seq<Octet>)
    | S
    | U(sabm: bool, more: bool, payload: seq<Octet>)

  /** The frame header; `None` for the frames that are discarded.  The Boolean is the SAPI's
      buffer. */
  function Decode(msg: seq<Octet>): (r: Option<(bool, Frame)>)
    requires 3 <= |msg|
  {
    var lpdType, sapi, ea := msg[0] / 32 % 4, msg[0] / 4 % 8, msg[0] % 2;
    var dataLen, more, fo := msg[2] / 4, msg[2] / 2 % 2 == 1, msg[2] % 2;
    if lpdType != 0 || ea == 0 || fo == 0 || dataLen + 3 > |msg| || (sapi != 0 && sapi != 3) then None
    else
      var payload := msg[3..3 + dataLen];
      Some((sapi != 0,
            match msg[1] % 4
            case 1 => S
            case 3 => U(msg[1] / 32 == 1 && msg[1] / 4 % 4 == 3, more, payload)
            case _ => I(msg[1] / 2 % 8, msg[1] / 32, more, payload)))
  }

  // ---- the header as it is written, 3GPP TS 44.006 ----

  /** Address field: spare bit, link protocol discriminator, SAPI, C/R and EA. */
  datatype Address = Address(spare: nat, lpd: nat, sapi: nat, cr: nat, ea: nat)

  /** Control field of the three formats: the P/F bit, and two or five bits that tell the commands
      of S and U frames apart. */
  datatype Control =
    | CI(nr: nat, pf: nat, ns: nat)
    | CS(nr: nat, pf: nat, kind: nat)
    | CU(high: nat, pf: nat, low: nat)

  /** Length field: length, M and the final octet bit. */
  datatype Size = Size(len: nat, more: bool, last: nat)

  predicate AddressOk(a: Address) { a.spare < 2 && a.lpd < 4 && a.sapi < 8 && a.cr < 2 && a.ea < 2 }

  predicate ControlOk(c: Control) {
    match c
    case CI(nr, pf, ns) => nr < 8 && pf < 2 && ns < 8
    case CS(nr, pf, kind) => nr < 8 && pf < 2 && kind < 4
    case CU(high, pf, low) => high < 8 && pf < 2 && low < 4
  }

  predicate SizeOk(l: Size) { l.len < 64 && l.last < 2 }

  function AddressOctet(a: Address): Octet
    requires AddressOk(a)
  {
    128 * a.spare + 32 * a.lpd + 4 * a.sapi + 2 * a.cr + a.ea
  }

  function ControlOctet(c: Control): Octet
    requires ControlOk(c)
  {
    match c
    case CI(nr, pf, ns) => 32 * nr + 16 * pf + 2 * ns
    case CS(nr, pf, kind) => 32 * nr + 16 * pf + 4 * kind + 1
    case CU(high, pf, low) => 32 * high + 16 * pf + 4 * low + 3
  }

  function SizeOctet(l: Size): Octet
    requires SizeOk(l)
  {
    4 * l.len + (if l.more then 2 else 0) + l.last
  }

  /** A frame: payload and filler behind the header. */
  function Compose(a: Address, c: Control, l: Size, rest: seq<Octet>): (msg: seq<Octet>)
    requires AddressOk(a) && ControlOk(c) && SizeOk(l)
  {
    [AddressOctet(a), ControlOctet(c), SizeOctet(l)] + rest
  }

  /** It is not for this protocol, has a longer header or less payload than announced, or another
      SAPI. */
  predicate Discarded(a: Address, l: Size, rest: seq<Octet>) {
    a.lpd != 0 || a.ea != 1 || l.last != 1 || |rest| < l.len || (a.sapi != 0 && a.sapi != 3)
  }

  /** What the frame means; SABM is the U frame 001 11. */
  function Meaning(c: Control, l: Size, rest: seq<Octet>): Frame
    requires l.len <= |rest|
  {
    match c
    case CI(nr, pf, ns) => I(ns, nr, l.more, rest[..l.len])
    case CS(nr, pf, kind) => S
    case CU(high, pf, low) => U(high == 1 && low == 3, l.more, rest[..l.len])
  }

  lemma AddressRead(a: Address)
    requires AddressOk(a)
    ensures var o := AddressOctet(a); o / 32 % 4 == a.lpd && o / 4 % 8 == a.sapi && o % 2 == a.ea
  {
    var o: nat := AddressOctet(a);
    QuotientIs(o, 2, 64 * a.spare + 16 * a.lpd + 2 * a.sapi + a.cr, a.ea);
    QuotientIs(o, 4, 32 * a.spare + 8 * a.lpd + a.sapi, 2 * a.cr + a.ea);
    QuotientIs(32 * a.spare + 8 * a.lpd + a.sapi, 8, 4 * a.spare + a.lpd, a.sapi);
    QuotientIs(o, 32, 4 * a.spare + a.lpd, 4 * a.sapi + 2 * a.cr + a.ea);
    QuotientIs(4 * a.spare + a.lpd, 4, a.spare, a.lpd);
  }

  lemma ControlRead(c: Control)
    requires ControlOk(c)
    ensures var o := ControlOctet(c);
            match c
            case CI(nr, pf, ns) => o % 4 != 1 && o % 4 != 3 && o / 2 % 8 == ns && o / 32 == nr
            case CS(nr, pf, kind) => o % 4 == 1
            case CU(high, pf, low) => o % 4 == 3 && o / 32 == high && o / 4 % 4 == low
  {
    var o: nat := ControlOctet(c);
    match c
    case CI(nr, pf, ns) =>
      QuotientIs(o, 4, 8 * nr + 4 * pf + ns / 2, 2 * (ns % 2));
      QuotientIs(o, 2, 16 * nr + 8 * pf + ns, 0);
      QuotientIs(16 * nr + 8 * pf + ns, 8, 2 * nr + pf, ns);
      QuotientIs(o, 32, nr, 16 * pf + 2 * ns);
    case CS(nr, pf, kind) =>
      QuotientIs(o, 4, 8 * nr + 4 * pf + kind, 1);
    case CU(high, pf, low) =>
      QuotientIs(o, 4, 8 * high + 4 * pf + low, 3);
      QuotientIs(8 * high + 4 * pf + low, 4, 2 * high + pf, low);
      QuotientIs(o, 32, high, 16 * pf + 4 * low + 3);
  }

  lemma SizeRead(l: Size)
    requires SizeOk(l)
    ensures var o := SizeOctet(l); o / 4 == l.len && (o / 2 % 2 == 1 <==> l.more) && o % 2 == l.last
  {
    var o: nat, m := SizeOctet(l), if l.more then 1 else 0;
    QuotientIs(o, 2, 2 * l.len + m, l.last);
    QuotientIs(2 * l.len + m, 2, l.len, m);
    QuotientIs(o, 4, l.len, 2 * m + l.last);
  }

  /** Every frame is read as it was written. */
  lemma DecodeComposed(a: Address, c: Control, l: Size, rest: seq<Octet>)
    requires AddressOk(a) && ControlOk(c) && SizeOk(l)
    ensures Decode(Compose(a, c, l, rest))
         == if Discarded(a, l, rest) then None else Some((a.sapi == 3, Meaning(c, l, rest)))
  {
    hide AddressOctet, ControlOctet, SizeOctet;
    AddressRead(a);
    ControlRead(c);
    SizeRead(l);
    var msg := Compose(a, c, l, rest);
    assert msg[3..] == rest;
    if l.len <= |rest| {
      assert msg[3..3 + l.len] == rest[..l.len];
    }
  }

  lemma Digits(x: nat)
    requires x < 256
    ensures x == 2 * (x / 2) + x % 2 && x / 2 == 2 * (x / 4) + x / 2 % 2
    ensures x / 4 == 8 * (x / 32) + x / 4 % 8 && x / 4 == 4 * (x / 16) + x / 4 % 4 && x / 2 == 8 * (x / 16) + x / 2 % 8
    ensures x / 16 == 2 * (x / 32) + x / 16 % 2 && x / 32 == 4 * (x / 128) + x / 32 % 4
    ensures x / 128 < 2 && x / 32 < 8 && x / 4 < 64
  {
    var h1, b0 := x / 2, x % 2;
    var h2, b1 := h1 / 2, h1 % 2;
    var h3, b2 := h2 / 2, h2 % 2;
    var h4, b3 := h3 / 2, h3 % 2;
    var h5, b4 := h4 / 2, h4 % 2;
    var h6, b5 := h5 / 2, h5 % 2;
    var h7, b6 := h6 / 2, h6 % 2;
    QuotientIs(x, 4, h2, 2 * b1 + b0);
    QuotientIs(x, 16, h4, 8 * b3 + 4 * b2 + 2 * b1 + b0);
    QuotientIs(x, 32, h5, 16 * b4 + 8 * b3 + 4 * b2 + 2 * b1 + b0);
    QuotientIs(x, 128, h7, 64 * b6 + 32 * b5 + 16 * b4 + 8 * b3 + 4 * b2 + 2 * b1 + b0);
    QuotientIs(h2, 8, h5, 4 * b4 + 2 * b3 + b2);
    QuotientIs(h2, 4, h4, 2 * b3 + b2);
    QuotientIs(h1, 8, h4, 4 * b3 + 2 * b2 + b1);
    QuotientIs(h5, 4, h7, 2 * b6 + b5);
  }

  /** Three octets or more are always such a frame. */
  lemma EveryMessageComposed(msg: seq<Octet>) returns (a: Address, c: Control, l: Size, rest: seq<Octet>)
    requires 3 <= |msg|
    ensures AddressOk(a) && ControlOk(c) && SizeOk(l) && msg == Compose(a, c, l, rest)
  {
    rest := msg[3..];
    a := AddressFrom(msg[0]);
    c := ControlFrom(msg[1]);
    l := SizeFrom(msg[2]);
    assert msg == [msg[0], msg[1], msg[2]] + rest;
  }

  lemma AddressFrom(x: Octet) returns (a: Address)
    ensures AddressOk(a) && AddressOctet(a) == x
  {
    var v: nat := x;
    Digits(v);
    a := Address(v / 128, v / 32 % 4, v / 4 % 8, v / 2 % 2, v % 2);
  }

  lemma ControlFrom(x: Octet) returns (c: Control)
    ensures ControlOk(c) && ControlOctet(c) == x
  {
    var v: nat := x;
    Digits(v);
    Remainders(v);
    c := if v % 4 == 1 then CS(v / 32, v / 16 % 2, v / 4 % 4)
         else if v % 4 == 3 then CU(v / 32, v / 16 % 2, v / 4 % 4)
         else CI(v / 32, v / 16 % 2, v / 2 % 8);
  }

  lemma Remainders(x: nat)
    ensures x == 4 * (x / 4) + x % 4 && (x % 4 != 1 && x % 4 != 3 ==> x % 2 == 0)
  {
    if x % 4 == 0 {
      QuotientIs(x, 2, 2 * (x / 4), 0);
    } else if x % 4 == 2 {
      QuotientIs(x, 2, 2 * (x / 4) + 1, 0);
    }
  }

  lemma SizeFrom(x: Octet) returns (l: Size)
    ensures SizeOk(l) && SizeOctet(l) == x
  {
    var v: nat := x;
    Digits(v);
    l := Size(v / 4, v / 2 % 2 == 1, v % 2);
  }

  /** The fields of `struct lapdm_buf`; `data` are the first `len` octets. */
  datatype State = State(data: seq<Octet>, nr: nat, ns: nat, outOfSeq: nat, lastOutOfSeq: int)

  /** What a frame does: the new state and the message handed to layer 3, if any. */
  datatype Effect = Effect(state: State, delivered: Option<seq<Octet>>)

  /** C's remainder: it has the sign of the dividend. */
  function CRemainder(a: int, b: nat): int
    requires 0 < b
  {
    if a >= 0 then a % b else -((-a) % b)
  }

  predicate InSequence(st: State, f: Frame)
    requires f.I?
  {
    st.data == [] || (f.ns == (st.ns + 1) % 8 && st.outOfSeq < 3)
  }

  /** Is this out-of-sequence frame counted? */
  predicate Counted(st: State, f: Frame)
    requires f.I?
  {
    st.lastOutOfSeq != f.ns && CRemainder(st.ns - f.ns, 8) < 2
  }

  /** The 16-bit counter after an out-of-sequence frame. */
  function NextCount(st: State, f: Frame): nat
    requires f.I?
  {
    if Counted(st, f) then (st.outOfSeq + 1) % 65536 else st.outOfSeq
  }

  /** "append payload to buffer" and what follows. */
  function Append(st: State, payload: seq<Octet>, more: bool): Effect {
    if payload == [] then Effect(st, None)
    else if more then Effect(st.(data := st.data + payload), None)
    else Effect(st.(data := []), Some(st.data + payload))
  }

  function Step(st: State, f: Frame): Effect {
    match f
    case I(ns, nr, more, payload) =>
      if InSequence(st, f) then
        Append(st.(outOfSeq := 0, lastOutOfSeq := 100, nr := nr, ns := ns), payload, more)
      else
        var count := NextCount(st, f);
        var late := st.(outOfSeq := count, lastOutOfSeq := ns);
        Effect(if !more && count >= 3 then late.(data := [], outOfSeq := 0, ns := ns) else late, None)
    case S => Effect(st, None)
    case U(sabm, more, payload) =>
      Append(if sabm then st.(data := [], outOfSeq := 0, ns := 0) else st, payload, more)
  }

  /** The buffer can take what the frame adds to it. */
  predicate HasRoom(st: State, f: Frame) {
    match f
    case I(_, _, _, payload) => InSequence(st, f) ==> |st.data| + |payload| <= BUFFER_SIZE
    case S => true
    case U(sabm, _, payload) => (if sabm then 0 else |st.data|) + |payload| <= BUFFER_SIZE
  }

  // ---- the buffer in memory ----

  class Buffer {
    var len: nat
    const data: array<Octet>
    var nr: nat
    var ns: nat
    var outOfSeq: nat
    var lastOutOfSeq: int

    ghost predicate Valid()
      reads this, data
    {
      data.Length == BUFFER_SIZE && len <= BUFFER_SIZE && outOfSeq < 65536
    }

    ghost function Abstract(): State
      requires Valid()
      reads this, data
    {
      State(data[..len], nr, ns, outOfSeq, lastOutOfSeq)
    }

    constructor ()
      ensures Valid() && Abstract() == State([], 0, 0, 0, 0) && fresh(data)
    {
      data := new Octet[BUFFER_SIZE](_ => 0);
      len, nr, ns, outOfSeq, lastOutOfSeq := 0, 0, 0, 0, 0;
    }

    /** The payload goes behind what is there; the caller sees to it that it fits. */
    method AppendPayload(payload: seq<Octet>, more: bool) returns (delivered: Option<seq<Octet>>)
      requires Valid() && len + |payload| <= BUFFER_SIZE
      modifies this`len, data
      ensures Valid() && Effect(Abstract(), delivered) == Append(old(Abstract()), payload, more)
    {
      if payload == [] {
        return None;
      }
      ghost var was := data[..len];
      for i := 0 to |payload|
        invariant data[..len] == was && data[len..len + i] == payload[..i]
        modifies data
      {
        data[len + i] := payload[i];
      }
      assert payload[..|payload|] == payload;
      assert data[..len + |payload|] == was + payload;
      len := len + |payload|;
      if more {
        return None;
      }
      delivered := Some(data[..len]);
      len := 0;
    }

    /** `handle_lapdm` from the frame type on. */
    method Handle(f: Frame) returns (delivered: Option<seq<Octet>>)
      requires Valid() && HasRoom(Abstract(), f)
      modifies this, data
      ensures Valid() && Effect(Abstract(), delivered) == Step(old(Abstract()), f)
    {
      delivered := None;
      match f {
        case I(rcvNs, rcvNr, more, payload) =>
          if len != 0 && (rcvNs != (ns + 1) % 8 || outOfSeq >= 3) {
            if lastOutOfSeq != rcvNs && CRemainder(ns - rcvNs, 8) < 2 {
              outOfSeq := (outOfSeq + 1) % 65536;
            }
            lastOutOfSeq := rcvNs;
            if !more && outOfSeq >= 3 {
              outOfSeq := 0;
              len := 0;
              ns := rcvNs;
            }
            return;
          }
          outOfSeq := 0;
          lastOutOfSeq := 100;
          nr := rcvNr;
          ns := rcvNs;
          delivered := AppendPayload(payload, more);
        case S =>
        case U(sabm, more, payload) =>
          if sabm {
            outOfSeq := 0;
            len := 0;
            ns := 0;
          }
          delivered := AppendPayload(payload, more);
      }
    }
  }

  /** `handle_lapdm`: the buffers for SAPI 0 and SAPI 3 do not disturb each other within one call.
      The callers pass the buffer array from the link direction on, so that SAPI 3 of the downlink
      and SAPI 0 of the uplink are one buffer, whose run is that of both. */
  method HandleLapdm(mb0: Buffer, mb3: Buffer, msg: seq<Octet>) returns (delivered: Option<seq<Octet>>)
    requires 3 <= |msg| && mb0.Valid() && mb3.Valid() && {mb0, mb0.data} !! {mb3, mb3.data}
    requires match Decode(msg)
             case None => true
             case Some((three, f)) => HasRoom((if three then mb3 else mb0).Abstract(), f)
    modifies mb0, mb0.data, mb3, mb3.data
    ensures mb0.Valid() && mb3.Valid()
    ensures match Decode(msg)
            case None =>
              delivered == None && mb0.Abstract() == old(mb0.Abstract()) && mb3.Abstract() == old(mb3.Abstract())
            case Some((three, f)) =>
              var mb, other := if three then mb3 else mb0, if three then mb0 else mb3;
              && Effect(mb.Abstract(), delivered) == Step(old(mb.Abstract()), f)
              && other.Abstract() == old(other.Abstract())
    ensures forall a, c, l, rest :: AddressOk(a) && ControlOk(c) && SizeOk(l) && msg == Compose(a, c, l, rest) ==>
              if Discarded(a, l, rest)
              then delivered == None && mb0.Abstract() == old(mb0.Abstract()) && mb3.Abstract() == old(mb3.Abstract())
              else
                var mb, other := if a.sapi == 3 then mb3 else mb0, if a.sapi == 3 then mb0 else mb3;
                && Effect(mb.Abstract(), delivered) == Step(old(mb.Abstract()), Meaning(c, l, rest))
                && other.Abstract() == old(other.Abstract())
  {
    hide Step, HasRoom, Compose, AddressOk, ControlOk, SizeOk, Meaning;
    delivered := None;
    forall a, c, l, rest | AddressOk(a) && ControlOk(c) && SizeOk(l) && msg == Compose(a, c, l, rest)
      ensures Decode(msg) == if Discarded(a, l, rest) then None else Some((a.sapi == 3, Meaning(c, l, rest)))
    {
      DecodeComposed(a, c, l, rest);
    }
    var sapi, frameType, dataLen := msg[0] / 4 % 8, msg[1] % 4, msg[2] / 4;
    if msg[0] / 32 % 4 != 0 {
      return;
    }
    if msg[0] % 2 == 0 || msg[2] % 2 == 0 || dataLen + 3 > |msg| {
      return;
    }
    if sapi != 0 && sapi != 3 {
      return;
    }
    var more, payload := msg[2] / 2 % 2 == 1, msg[3..3 + dataLen];
    var f := if frameType == 1 then S
             else if frameType == 3 then U(msg[1] / 32 == 1 && msg[1] / 4 % 4 == 3, more, payload)
             else I(msg[1] / 2 % 8, msg[1] / 32, more, payload);
    if sapi != 0 {
      delivered := mb3.Handle(f);
    } else {
      delivered := mb0.Handle(f);
    }
  }

  // ---- runs ----

  function StateAt(st: State, fs: seq<Frame>, i: nat): State
    requires i <= |fs|
  {
    if i == 0 then st else Step(StateAt(st, fs, i - 1), fs[i - 1]).state
  }

  function DeliveredAt(st: State, fs: seq<Frame>, i: nat): Option<seq<Octet>>
    requires i < |fs|
  {
    Step(StateAt(st, fs, i), fs[i]).delivered
  }

  predicate Accepted(st: State, f: Frame) { f.I? ==> InSequence(st, f) }

  function Payload(f: Frame): seq<Octet> { if f.S? then [] else f.payload }

  /** The payloads accepted from frame `j` on, up to but not including frame `i`. */
  function Gathered(st: State, fs: seq<Frame>, j: nat, i: nat): seq<Octet>
    requires j <= i <= |fs|
    decreases i
  {
    if i == j then []
    else Gathered(st, fs, j, i - 1) + (if Accepted(StateAt(st, fs, i - 1), fs[i - 1]) then Payload(fs[i - 1]) else [])
  }

  predicate IsSabm(f: Frame) { f.U? && f.sabm }

  /** Where the contents of the buffer before frame `i` begin: the last frame that found it empty
      or emptied it on arrival. */
  function Origin(st: State, fs: seq<Frame>, i: nat): (o: nat)
    requires i <= |fs| && st.data == []
    ensures o <= i
  {
    if StateAt(st, fs, i).data == [] then i
    else if IsSabm(fs[i - 1]) then i - 1
    else Origin(st, fs, i - 1)
  }

  /** The buffer holds exactly what was accepted since its origin. */
  lemma {:induction false} BufferIsGathered(st: State, fs: seq<Frame>, i: nat)
    requires i <= |fs| && st.data == []
    ensures StateAt(st, fs, i).data == Gathered(st, fs, Origin(st, fs, i), i)
  {
    hide InSequence, NextCount;
    if StateAt(st, fs, i).data != [] {
      BufferIsGathered(st, fs, i - 1);
    }
  }

  /** Where the message that frame `i` completes begins. */
  function MessageOrigin(st: State, fs: seq<Frame>, i: nat): (o: nat)
    requires i < |fs| && st.data == []
    ensures o <= i
  {
    if IsSabm(fs[i]) then i else Origin(st, fs, i)
  }

  /** Every delivered message is the concatenation of the payloads accepted since the buffer was
      last empty. */
  lemma DeliveredIsGathered(st: State, fs: seq<Frame>, i: nat)
    requires i < |fs| && st.data == [] && DeliveredAt(st, fs, i).Some?
    ensures DeliveredAt(st, fs, i).value == Gathered(st, fs, MessageOrigin(st, fs, i), i + 1)
  {
    hide InSequence, NextCount;
    BufferIsGathered(st, fs, i);
  }

  // ---- what single frames and whole messages do ----

  /** An I frame that is not the next in a partial message, or comes after three of that kind: it
      is counted if it is not a repetition and at most one behind the last accepted one. */
  lemma LateIs(st: State, f: Frame)
    requires f.I? && st.data != [] && (f.ns != (st.ns + 1) % 8 || 3 <= st.outOfSeq)
    requires f.ns < 8 && st.ns < 8 && st.outOfSeq < 65536
    ensures var counted := f.ns != st.lastOutOfSeq && st.ns <= f.ns + 1;
            var n := if !counted then st.outOfSeq else if st.outOfSeq == 65535 then 0 else st.outOfSeq + 1;
            Step(st, f) == Effect(if !f.more && 3 <= n then State([], st.nr, f.ns, 0, f.ns)
                                  else State(st.data, st.nr, st.ns, n, f.ns), None)
  {
  }

  /** An I frame that is the next in a partial message, or finds none: its payload is added, and
      the late frames so far are forgotten.  Without M it ends the message, unless it is empty. */
  lemma AcceptedIs(st: State, f: Frame)
    requires f.I? && (st.data == [] || (f.ns == (st.ns + 1) % 8 && st.outOfSeq < 3))
    ensures f.payload == [] ==> Step(st, f) == Effect(State(st.data, f.nr, f.ns, 0, 100), None)
    ensures f.payload != [] ==>
              var data := st.data + f.payload;
              Step(st, f) == if f.more then Effect(State(data, f.nr, f.ns, 0, 100), None)
                             else Effect(State([], f.nr, f.ns, 0, 100), Some(data))
  {
  }

  /** S frames do nothing; SABM starts anew; another U frame adds its payload. */
  lemma OtherFrames(st: State, p: seq<Octet>)
    requires p != []
    ensures Step(st, S) == Effect(st, None)
    ensures Step(st, U(true, false, p)) == Effect(State([], st.nr, 0, 0, st.lastOutOfSeq), Some(p))
    ensures Step(st, U(true, true, p)) == Effect(State(p, st.nr, 0, 0, st.lastOutOfSeq), None)
    ensures Step(st, U(false, false, p)) == Effect(st.(data := []), Some(st.data + p))
    ensures Step(st, U(false, true, p)) == Effect(st.(data := st.data + p), None)
  {
    assert [] + p == p;
  }

  /** A message in pieces: consecutive N(S), M set in all but the last. */
  predicate IsSegmented(fs: seq<Frame>, pieces: seq<seq<Octet>>, first: nat) {
    && |fs| == |pieces|
    && forall i :: 0 <= i < |fs| ==>
         && pieces[i] != [] && fs[i].I? && fs[i].ns == (first + i) % 8
         && fs[i].payload == pieces[i] && (fs[i].more <==> i < |fs| - 1)
  }

  function Joined(pieces: seq<seq<Octet>>): seq<Octet> {
    if pieces == [] then [] else Joined(pieces[..|pieces| - 1]) + pieces[|pieces| - 1]
  }

  lemma {:induction false} PiecesGather(st: State, fs: seq<Frame>, pieces: seq<seq<Octet>>, first: nat, i: nat)
    requires IsSegmented(fs, pieces, first) && st.data == [] && i < |fs|
    ensures var now := StateAt(st, fs, i);
            && now.data == Joined(pieces[..i])
            && (0 < i ==> now.data != [] && now.outOfSeq == 0 && now.ns == (first + i - 1) % 8)
            && (forall j :: 0 <= j < i ==> DeliveredAt(st, fs, j) == None)
  {
    if i > 0 {
      hide Step;
      PiecesGather(st, fs, pieces, first, i - 1);
      PieceStep(StateAt(st, fs, i - 1), fs[i - 1], first + i - 1);
      assert pieces[..i][..i - 1] == pieces[..i - 1];
    }
  }

  lemma PieceStep(st: State, f: Frame, k: nat)
    requires f.I? && f.payload != [] && f.ns == k % 8
    requires st.data == [] || (0 < k && st.outOfSeq == 0 && st.ns == (k - 1) % 8)
    ensures var e := Step(st, f);
            && e.state.outOfSeq == 0 && e.state.ns == k % 8
            && if f.more then e.delivered == None && e.state.data == st.data + f.payload
               else e.delivered == Some(st.data + f.payload) && e.state.data == []
  {
  }

  /** From an empty buffer, a message sent in any number of pieces is delivered once and whole,
      with its last piece. */
  lemma SegmentedDelivered(st: State, fs: seq<Frame>, pieces: seq<seq<Octet>>, first: nat)
    requires IsSegmented(fs, pieces, first) && st.data == [] && fs != []
    ensures var last := |fs| - 1;
            && DeliveredAt(st, fs, last) == Some(Joined(pieces)) && StateAt(st, fs, |fs|).data == []
            && forall j :: 0 <= j < last ==> DeliveredAt(st, fs, j) == None
  {
    hide Step;
    var last := |fs| - 1;
    PiecesGather(st, fs, pieces, first, last);
    PieceStep(StateAt(st, fs, last), fs[last], first + last);
  }

  // ---- room ----

  /** Frame `i` finds room exactly if it adds nothing or what has been gathered with it fits. */
  lemma RoomIff(st: State, fs: seq<Frame>, i: nat)
    requires i < |fs| && st.data == []
    ensures HasRoom(StateAt(st, fs, i), fs[i])
            <==> fs[i].S? || !Accepted(StateAt(st, fs, i), fs[i])
                 || |Gathered(st, fs, MessageOrigin(st, fs, i), i + 1)| <= BUFFER_SIZE
  {
    hide InSequence, Step;
    BufferIsGathered(st, fs, i);
    if IsSabm(fs[i]) {
      assert Gathered(st, fs, i, i) == [];
    }
  }

  /** Consecutive fragments of equal size, none of them the last. */
  predicate IsFragmentRun(fs: seq<Frame>, payload: seq<Octet>) {
    forall j :: 0 <= j < |fs| ==> fs[j] == I(j % 8, 0, true, payload)
  }

  lemma {:induction false} FragmentRunFills(fs: seq<Frame>, payload: seq<Octet>, k: nat)
    requires IsFragmentRun(fs, payload) && payload != [] && k <= |fs|
    ensures var st := StateAt(FRESH, fs, k);
            |st.data| == k * |payload| && st.outOfSeq == 0 && (st.data == [] || k % 8 == (st.ns + 1) % 8)
  {
    hide Step;
    Times(k, |payload|);
    if k > 0 {
      FragmentRunFills(fs, payload, k - 1);
      Times(k - 1, |payload|);
      assert fs[k - 1] == I((k - 1) % 8, 0, true, payload);
      FragmentAppends(StateAt(FRESH, fs, k - 1), (k - 1) % 8, payload);
      NextModulo(k - 1);
    }
  }

  lemma NextModulo(k: nat)
    ensures (k + 1) % 8 == (k % 8 + 1) % 8
  {
  }

  lemma Times(k: nat, n: nat)
    ensures (k + 1) * n == k * n + n && 0 * n == 0
  {
  }

  lemma FragmentAppends(st: State, ns: nat, payload: seq<Octet>)
    requires payload != [] && st.outOfSeq == 0 && (st.data == [] || ns == (st.ns + 1) % 8)
    ensures Step(st, I(ns, 0, true, payload)).state
         == st.(data := st.data + payload, nr := 0, ns := ns, lastOutOfSeq := 100)
  {
  }

  /** Nothing ends such a run in the code: fragment `k` overruns the buffer exactly if the message
      so far is too long.  With the 20 octets that a frame of 23 can hold it is number 32, with 63
      octets, the most that a header can announce, number 10, both counted from 0. */
  lemma Overruns(fs: seq<Frame>, payload: seq<Octet>, k: nat)
    requires IsFragmentRun(fs, payload) && payload != [] && k < |fs|
    ensures HasRoom(StateAt(FRESH, fs, k), fs[k]) <==> (k + 1) * |payload| <= BUFFER_SIZE
    ensures |payload| == 20 ==> (HasRoom(StateAt(FRESH, fs, k), fs[k]) <==> k < 32)
    ensures |payload| == 63 ==> (HasRoom(StateAt(FRESH, fs, k), fs[k]) <==> k < 10)
  {
    hide StateAt, HasRoom;
    FragmentRunFills(fs, payload, k);
    Times(k, |payload|);
    assert fs[k] == I(k % 8, 0, true, payload);
    FragmentRoom(StateAt(FRESH, fs, k), k % 8, payload);
  }

  lemma FragmentRoom(st: State, ns: nat, payload: seq<Octet>)
    requires st.outOfSeq == 0 && (st.data == [] || ns == (st.ns + 1) % 8)
    ensures HasRoom(st, I(ns, 0, true, payload)) <==> |st.data| + |payload| <= BUFFER_SIZE
  {
  }

  // ---- sequence numbers ----

  /** The number a frame contributes to a message: SABM restarts the count at 0. */
  function Number(f: Frame): seq<nat> { if f.I? then [f.ns] else if IsSabm(f) then [0] else [] }

  /** Sequence numbers of the frames accepted from `j` on, empty ones included. */
  function Numbers(st: State, fs: seq<Frame>, j: nat, i: nat): seq<nat>
    requires j <= i <= |fs|
    decreases i
  {
    if i == j then []
    else Numbers(st, fs, j, i - 1) + (if Accepted(StateAt(st, fs, i - 1), fs[i - 1]) then Number(fs[i - 1]) else [])
  }

  predicate Consecutive(ns: seq<nat>) {
    forall p :: 0 <= p < |ns| - 1 ==> ns[p + 1] == (ns[p] + 1) % 8
  }

  predicate OnlyNumbered(fs: seq<Frame>) { forall k :: 0 <= k < |fs| ==> fs[k].U? ==> fs[k].sabm }

  /** One more frame: what it adds to the numbers of a partial message fits. */
  lemma NumberFits(st: State, f: Frame, ns: seq<nat>)
    requires (f.U? ==> f.sabm) && !IsSabm(f) && Consecutive(ns)
    requires if st.data == [] then ns == [] else ns != [] && ns[|ns| - 1] == st.ns
    ensures var all := ns + (if Accepted(st, f) then Number(f) else []);
            && Consecutive(all)
            && (Step(st, f).state.data != [] ==> all != [] && all[|all| - 1] == Step(st, f).state.ns)
  {
    hide NextCount;
  }

  lemma SabmNumber(st: State, f: Frame)
    requires IsSabm(f)
    ensures Accepted(st, f) && Number(f) == [0] && Step(st, f).state.ns == 0
  {
  }

  /** The accepted frames behind the current contents are numbered consecutively, and the last of
      them is the one the buffer remembers. */
  lemma {:induction false} BufferConsecutive(st: State, fs: seq<Frame>, i: nat)
    requires i <= |fs| && st.data == [] && OnlyNumbered(fs)
    ensures var ns := Numbers(st, fs, Origin(st, fs, i), i);
            && Consecutive(ns)
            && (StateAt(st, fs, i).data != [] ==> ns != [] && ns[|ns| - 1] == StateAt(st, fs, i).ns)
  {
    hide Step, Accepted, Number, IsSabm;
    if StateAt(st, fs, i).data != [] {
      if IsSabm(fs[i - 1]) {
        SabmNumber(StateAt(st, fs, i - 1), fs[i - 1]);
        assert Numbers(st, fs, i - 1, i - 1) == [];
      } else {
        BufferConsecutive(st, fs, i - 1);
        NumberFits(StateAt(st, fs, i - 1), fs[i - 1], Numbers(st, fs, Origin(st, fs, i - 1), i - 1));
      }
    }
  }

  /** Every delivered message is made of frames with consecutive N(S) modulo 8. */
  lemma DeliveredConsecutive(st: State, fs: seq<Frame>, i: nat)
    requires i < |fs| && st.data == [] && OnlyNumbered(fs) && DeliveredAt(st, fs, i).Some?
    ensures Consecutive(Numbers(st, fs, MessageOrigin(st, fs, i), i + 1))
  {
    hide Step, Accepted, Number, IsSabm;
    if IsSabm(fs[i]) {
      SabmNumber(StateAt(st, fs, i), fs[i]);
      assert Numbers(st, fs, i, i) == [];
    } else {
      BufferConsecutive(st, fs, i);
      NumberFits(StateAt(st, fs, i), fs[i], Numbers(st, fs, Origin(st, fs, i), i));
    }
  }

  // ---- giving a partial message up ----

  /** A partial message that has seen three counted out-of-sequence frames. */
  predicate GivenUp(st: State) { st.data != [] && st.outOfSeq >= 3 }

  /** The two kinds of frame that bring a given-up message back: an unnumbered frame with payload,
      and the one that wraps the counter. */
  predicate Revives(st: State, f: Frame) {
    || (f.U? && !f.sabm && f.payload != [])
    || (f.I? && st.outOfSeq == 65535 && Counted(st, f))
  }

  /** From a given-up message exactly the other frames lead on to it or to its loss, without
      delivering any of it. */
  lemma GivenUpStays(st: State, f: Frame)
    requires GivenUp(st) && st.outOfSeq < 65536
    ensures var e := Step(st, f);
            !Revives(st, f) <==>
            && ((GivenUp(e.state) && e.state.data == st.data) || e.state.data == []
                || (IsSabm(f) && e.state.data == f.payload))
            && (e.delivered.Some? ==> IsSabm(f) && e.delivered.value == f.payload)
            && e.state.outOfSeq < 65536
  {
  }

  lemma {:induction false} CountBounded(st: State, fs: seq<Frame>, i: nat)
    requires i <= |fs| && st.outOfSeq < 65536
    ensures StateAt(st, fs, i).outOfSeq < 65536
  {
    if i > 0 {
      CountBounded(st, fs, i - 1);
    }
  }

  /** No frame from `k` up to `i` revives a given-up message. */
  ghost predicate Quiet(st: State, fs: seq<Frame>, k: nat, i: nat)
    requires i <= |fs|
  {
    forall j :: k <= j < i && GivenUp(StateAt(st, fs, j)) ==> !Revives(StateAt(st, fs, j), fs[j])
  }

  /** After a message has been given up, the buffer keeps it undelivered or holds later frames
      only. */
  lemma {:induction false} GivenUpOrLater(st: State, fs: seq<Frame>, k: nat, i: nat)
    requires k <= i <= |fs| && st.data == [] && st.outOfSeq < 65536 && GivenUp(StateAt(st, fs, k))
            && Quiet(st, fs, k, i)
    ensures GivenUp(StateAt(st, fs, i)) || k <= Origin(st, fs, i)
    decreases i
  {
    hide Step, Revives;
    if k < i {
      GivenUpOrLater(st, fs, k, i - 1);
      CountBounded(st, fs, i - 1);
      if GivenUp(StateAt(st, fs, i - 1)) {
        GivenUpStays(StateAt(st, fs, i - 1), fs[i - 1]);
      }
    }
  }

  /** Once the counter has reached 3, no octet of that partial message is ever delivered: every
      later message consists of later frames. */
  lemma NeverDelivered(st: State, fs: seq<Frame>, k: nat, i: nat)
    requires k <= i < |fs| && st.data == [] && st.outOfSeq < 65536
    requires GivenUp(StateAt(st, fs, k)) && Quiet(st, fs, k, i + 1) && DeliveredAt(st, fs, i).Some?
    ensures k <= MessageOrigin(st, fs, i)
  {
    hide Step, Revives;
    GivenUpOrLater(st, fs, k, i);
    CountBounded(st, fs, i);
    if GivenUp(StateAt(st, fs, i)) {
      GivenUpStays(StateAt(st, fs, i), fs[i]);
    }
  }

  /** The last fragment that completes a message that `f` has just revived. */
  function Completion(st: State, f: Frame): Frame {
    if f.I? then I((st.ns + 1) % 8, 0, false, [0]) else U(false, false, [0])
  }

  /** The frames that deliver what `f` has just revived: `f` alone if it ends the message. */
  function Revival(st: State, f: Frame): (fs: seq<Frame>)
    ensures 1 <= |fs| <= 2 && fs[0] == f
  {
    if f.U? && !f.more then [f] else [f, Completion(st, f)]
  }

  /** The converse: a frame that revives a given-up message lets it be delivered, at the latest by
      the next frame: the next fragment in sequence after a wrap, else an unnumbered frame. */
  lemma RevivedDelivers(st: State, f: Frame)
    requires GivenUp(st) && Revives(st, f)
    ensures var fs := Revival(st, f);
            var d := DeliveredAt(st, fs, |fs| - 1);
            && d.Some? && st.data < d.value
            && (|fs| == 2 && |Step(st, f).state.data| < BUFFER_SIZE ==> HasRoom(StateAt(st, fs, 1), fs[1]))
  {
    var fs := Revival(st, f);
    assert StateAt(st, fs, 0) == st;
    assert |fs| == 2 ==> StateAt(st, fs, 1) == Step(st, f).state;
  }

  /** In a run of I, S and SABM frames only a wrap of the counter could revive a message. */
  lemma OnlyWrapRevives(st: State, f: Frame)
    requires f.U? ==> f.sabm
    ensures Revives(st, f) ==> f.I? && st.outOfSeq == 65535
  {
  }

  const FRESH := State([], 0, 0, 0, 0)

  /** A first fragment, 65536 late frames and the second fragment. */
  function WrapFrame(j: nat): Frame {
    if j == 0 then I(0, 0, true, [1])
    else if j == 65537 then I(1, 0, false, [2])
    else I(if j % 2 == 0 then 2 else 3, 0, true, [])
  }

  predicate IsWrapRun(fs: seq<Frame>) { |fs| == 65538 && forall j :: 0 <= j < |fs| ==> fs[j] == WrapFrame(j) }

  /** A late frame of that run is counted. */
  lemma LateStep(st: State, j: nat)
    requires 0 < j <= 65536 && st.data == [1] && st.ns == 0 && st.outOfSeq < 65536
    requires st.lastOutOfSeq != if j % 2 == 0 then 2 else 3
    ensures Step(st, WrapFrame(j)).state
         == st.(outOfSeq := (st.outOfSeq + 1) % 65536, lastOutOfSeq := if j % 2 == 0 then 2 else 3)
  {
  }

  lemma {:induction false} WrapCount(fs: seq<Frame>, k: nat)
    requires IsWrapRun(fs) && k <= 65536
    ensures var st := StateAt(FRESH, fs, k + 1);
            && st.data == [1] && st.ns == 0 && st.outOfSeq == k % 65536
            && st.lastOutOfSeq == if k == 0 then 100 else if k % 2 == 0 then 2 else 3
    decreases k
  {
    if k == 0 {
      assert StateAt(FRESH, fs, 0) == FRESH;
      assert fs[0] == WrapFrame(0);
    } else {
      hide Step;
      WrapCount(fs, k - 1);
      LateStep(StateAt(FRESH, fs, k), k);
      assert fs[k] == WrapFrame(k);
    }
  }

  /** The wrap happens: a message that had been given up is delivered after 65536 late frames. */
  lemma WrapDelivers() returns (fs: seq<Frame>)
    ensures |fs| == 65538 && (forall j :: 0 <= j < |fs| ==> fs[j].I?)
    ensures GivenUp(StateAt(FRESH, fs, 4)) && DeliveredAt(FRESH, fs, 65537) == Some([1, 2])
  {
    hide StateAt;
    var n := 65538;
    fs := seq(n, j requires 0 <= j => WrapFrame(j));
    WrapCount(fs, 3);
    WrapCount(fs, 65536);
    assert fs[65537] == WrapFrame(65537);
    LastStep(StateAt(FRESH, fs, 65537));
  }

  lemma LastStep(st: State)
    requires st.data == [1] && st.ns == 0 && st.outOfSeq == 0
    ensures Step(st, WrapFrame(65537)).delivered == Some([1, 2])
  {
    assert [1] + [2] == [1, 2];
  }
}
