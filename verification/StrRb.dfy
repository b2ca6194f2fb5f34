/** The lossy string ring buffer of libosmocore/src/strrb.c. */
module StrRb {
  import opened Wrappers

  const RB_MAX_MESSAGE_SIZE := 240

  /** A message is cut to fit its slot. */
  function Truncated(s: string): string {
    if |s| >= RB_MAX_MESSAGE_SIZE then s[..RB_MAX_MESSAGE_SIZE - 1] else s
  }

  /** At most 239 characters, the first ones. */
  lemma TruncatedIs(s: string)
    ensures Truncated(s) <= s && |Truncated(s)| == if |s| < 240 then |s| else 239
  {
  }

  /** The last `n` elements. */
  function Newest<T>(s: seq<T>, n: nat): seq<T> { if |s| <= n then s else s[|s| - n..] }

  /** Slot `i` places after `start`. */
  function Slot(start: nat, i: nat, size: nat): (r: nat)
    requires start < size && i < size
    ensures r < size
  {
    if start + i < size then start + i else start + i - size
  }

  /** `n` slots from `start` on. */
  function Read(slots: seq<string>, start: nat, n: nat): (r: seq<string>)
    requires start < |slots| && n <= |slots|
    ensures |r| == n
  {
    seq(n, i requires 0 <= i < n => slots[Slot(start, i, |slots|)])
  }

  /** Writing the slot behind the last message appends. */
  lemma ReadWritten(slots: seq<string>, start: nat, n: nat, msg: string)
    requires start < |slots| && n < |slots|
    ensures Read(slots[Slot(start, n, |slots|) := msg], start, n + 1) == Read(slots, start, n) + [msg]
  {
    var now := slots[Slot(start, n, |slots|) := msg];
    forall i | 0 <= i < n ensures Read(now, start, n + 1)[i] == Read(slots, start, n)[i] {
      assert Slot(start, i, |slots|) != Slot(start, n, |slots|);
    }
  }

  /** Advancing the start drops the oldest message. */
  lemma ReadDropped(slots: seq<string>, start: nat, n: nat)
    requires start < |slots| && n < |slots|
    ensures var next := if start + 1 == |slots| then 0 else start + 1;
            Read(slots, next, n) == Read(slots, start, n + 1)[1..]
  {
    var next := if start + 1 == |slots| then 0 else start + 1;
    forall i | 0 <= i < n ensures Read(slots, next, n)[i] == Read(slots, start, n + 1)[1..][i] {
      assert Slot(next, i, |slots|) == Slot(start, i + 1, |slots|);
    }
  }

  /** `e += 1; e %= size` */
  function Advance(e: nat, size: nat): (r: nat)
    requires e < size
    ensures r == if e + 1 == size then 0 else e + 1
  {
    (e + 1) % size
  }

  /** What an add makes of the messages, with room left and without. */
  lemma Added(slots: seq<string>, start: nat, n: nat, msg: string)
    requires start < |slots| && n < |slots|
    ensures var now, size := slots[Slot(start, n, |slots|) := msg], |slots|;
            Newest(Read(slots, start, n) + [msg], size - 1) ==
            if n + 1 < size then Read(now, start, n + 1) else Read(now, Advance(start, size), n)
  {
    hide Read, Slot;
    ReadWritten(slots, start, n, msg);
    ReadDropped(slots[Slot(start, n, |slots|) := msg], start, n);
  }

  class RingBuffer {
    var start: nat
    var end: nat
    const size: nat
    const buffer: array<string>

    ghost predicate Valid()
      reads this
    {
      0 < size < 65536 && buffer.Length == size && start < size && end < size
    }

    /** The messages, oldest first. */
    ghost function Contents(): (c: seq<string>)
      requires Valid()
      reads this, buffer
      ensures |c| < size
    {
      Read(buffer[..], start, Count())
    }

    ghost function Count(): (n: nat)
      requires Valid()
      reads this
      ensures n < size
    {
      if end < start then end + (size - start) else end - start
    }

    /** `osmo_strrb_create` */
    constructor (size: nat)
      requires 0 < size < 65536
      ensures Valid() && Contents() == [] && this.size == size && fresh(buffer) && start == 0 && end == 0
    {
      this.size := size;
      buffer := new string[size](_ => "");
      start, end := 0, 0;
    }

    method IsEmpty() returns (r: bool)
      requires Valid()
      ensures r <==> Contents() == []
    {
      r := end == start;
    }

    /** `osmo_strrb_elements` */
    method Elements() returns (n: nat)
      requires Valid()
      ensures n == |Contents()|
    {
      if end < start {
        return end + (size - start);
      }
      return end - start;
    }

    /** `_osmo_strrb_is_bufindex_valid` */
    predicate BufIndexValid(bufi: nat)
      requires Valid()
      reads this
    {
      if end == start then false
      else if bufi >= size then false
      else if start < end then start <= bufi < end
      else bufi < end || bufi >= start
    }

    /** The indexes for which the wrap-around of `osmo_strrb_get_nth` goes astray. */
    predicate Astray(index: nat)
      requires Valid()
      reads this
    {
      start > end && (size <= index < 2 * size - start || 0x1_0000_0000 <= index + start < 0x1_0000_0000 + end)
    }

    /** `osmo_strrb_get_nth`: the message of that index or nothing, exactly for the indexes that do
        not go astray; all indexes below the size are among them. */
    method GetNth(index: nat) returns (r: Option<string>)
      requires Valid() && index < 0x1_0000_0000
      ensures index < size ==> !Astray(index)
      ensures !Astray(index) ==> r == if index < |Contents()| then Some(Contents()[index]) else None
      ensures Astray(index) ==> r.Some? && |Contents()| <= index
    {
      var offset := (index + start) % 0x1_0000_0000;
      if offset >= size && start > end {
        offset := offset - size;
      }
      if BufIndexValid(offset) {
        return Some(buffer[offset]);
      }
      return None;
    }

    /** `osmo_strrb_add`: true as a warning that the message was cut. */
    method Add(data: string) returns (cut: bool)
      requires Valid()
      modifies this, buffer
      ensures Valid() && (cut <==> Truncated(data) != data) && (cut <==> 240 <= |data|)
      ensures Contents() == Newest(old(Contents()) + [Truncated(data)], size - 1)
      ensures end == Advance(old(end), size)
      ensures start == if end == old(start) then Advance(old(start), size) else old(start)
    {
      var len := |data|;
      cut := false;
      if len >= RB_MAX_MESSAGE_SIZE {
        len := RB_MAX_MESSAGE_SIZE - 1;
        cut := true;
      }
      ghost var n, s0, slots := Count(), start, buffer[..];
      assert data[..len] == Truncated(data);
      buffer[end] := data[..len];
      hide Read, Slot, Truncated, Newest, Advance;
      assert end == Slot(s0, n, size) by { EndSlot(); }
      assert buffer[..] == slots[Slot(s0, n, size) := Truncated(data)];
      Added(slots, s0, n, Truncated(data));
      end := Advance(end, size);
      if end == start {
        start := Advance(start, size);
      }
    }

    lemma EndSlot()
      requires Valid()
      ensures end == Slot(start, Count(), size)
    {
    }
  }

  /** After any series of adds, exactly the newest size - 1 messages are there, in order. */
  method AddAll(rb: RingBuffer, msgs: seq<string>)
    requires rb.Valid() && rb.Contents() == []
    modifies rb, rb.buffer
    ensures 0 < rb.size && rb.Valid() && rb.Contents()
            == Newest(seq(|msgs|, i requires 0 <= i < |msgs| => Truncated(msgs[i])), rb.size - 1)
  {
    hide Newest, Truncated, RingBuffer.Contents, RingBuffer.Valid;
    ghost var cut: seq<string> := seq(|msgs|, i requires 0 <= i < |msgs| => Truncated(msgs[i]));
    NewestNone<string>(rb.size - 1);
    for i := 0 to |msgs|
      invariant rb.Valid() && rb.Contents() == Newest(cut[..i], rb.size - 1)
    {
      assert cut[..i + 1] == cut[..i] + [Truncated(msgs[i])];
      NewestTwice(cut[..i], Truncated(msgs[i]), rb.size - 1);
      var r := rb.Add(msgs[i]);
    }
    assert cut[..|msgs|] == cut;
  }

  lemma NewestNone<T>(n: nat)
    ensures Newest<T>([], n) == []
  {
  }

  lemma NewestTwice<T>(s: seq<T>, x: T, n: nat)
    ensures Newest(Newest(s, n) + [x], n) == Newest(s + [x], n)
  {
  }

  /** Three adds to a buffer of three slots: the first index past the buffer yields a message. */
  method StrayIndex() returns (rb: RingBuffer, r: Option<string>)
    ensures fresh(rb) && rb.Valid() && rb.size == 3 && |rb.Contents()| == 2 && rb.Astray(3)
    ensures r.Some?
  {
    hide RingBuffer.Contents, Truncated;
    rb := new RingBuffer(3);
    var a := rb.Add("a");
    a := rb.Add("b");
    a := rb.Add("c");
    var n := rb.Elements();
    r := rb.GetNth(3);
  }
}
