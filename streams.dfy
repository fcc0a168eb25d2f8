/**
 * The coded streams `recv_message` and `send_message` work through: an input
 * stream with a cursor, a pushed read limit and the "legitimate message end"
 * flag, and an output stream that only appends.
 */
module Streams {
  import opened Bytes
  import Varint
  import Messages

  /** `acc + mult * v` and `k + n` folded into a decoded varint (value, length), if any. */
  function Shift(r: Option<(nat, nat)>, acc: nat, mult: nat, k: nat): Option<(nat, nat)>
  {
    match r
    case None => None
    case Some((v, n)) => Some((acc + mult * v, k + n))
  }

  lemma Regroup(acc: nat, mult: nat, b: nat, v: nat)
    ensures acc + mult * (b + 0x80 * v) == acc + mult * b + (mult * 0x80) * v
  {
    assert mult * (b + 0x80 * v) == mult * b + mult * (0x80 * v);
    assert mult * (0x80 * v) == (mult * 0x80) * v;
  }

  lemma ProductIsNat(a: nat, b: nat)
    ensures a * b >= 0
  {
  }

  lemma ShiftStep(s: seq<byte>, acc: nat, mult: nat, k: nat)
    requires |s| > 0 && s[0] >= 0x80
    ensures Shift(Varint.Decode(s), acc, mult, k)
         == Shift(Varint.Decode(s[1..]), acc + mult * (s[0] - 0x80), mult * 0x80, k + 1)
  {
    var t := Varint.Decode(s[1..]);
    if t.Some? {
      var (v, n) := t.value;
      assert Varint.Decode(s) == Some((s[0] - 0x80 + 0x80 * v, n + 1));
      Regroup(acc, mult, s[0] - 0x80, v);
    }
  }

  /** A `CodedInputStream` over the bytes of one read. */
  class InputStream {
    const data: seq<byte>
    var pos: nat
    /** The pushed limit as an absolute position; None: no limit. */
    var limit: Option<nat>
    var legitimateEnd: bool

    ghost predicate Valid()
      reads this
    {
      pos <= |data| && (limit.Some? ==> pos <= limit.value)
    }

    /** Where reading must stop: the end of the data or the limit, whichever comes first. */
    function End(): (r: nat)
      reads this
      ensures r <= |data|
      ensures limit.Some? ==> r <= limit.value
      ensures Valid() ==> pos <= r
    {
      if limit.Some? && limit.value < |data| then limit.value else |data|
    }

    constructor (bytes: seq<byte>)
      ensures Valid()
      ensures data == bytes && pos == 0 && limit == None && !legitimateEnd
    {
      data := bytes;
      pos := 0;
      limit := None;
      legitimateEnd := false;
    }

    /** `ReadVarint32`: a varint before `End()`, cut to 32 bits; fails if `End()` comes first. */
    method ReadVarint32() returns (ok: bool, value: uint32)
      requires Valid()
      modifies this
      ensures Valid() && limit == old(limit) && legitimateEnd == old(legitimateEnd)
      ensures ok == Varint.Read32(data[old(pos)..End()]).Some?
      ensures ok ==> (value, pos - old(pos)) == Varint.Read32(data[old(pos)..End()]).value
      ensures !ok ==> pos == End()
    {
      var end := End();
      var p := pos;
      var acc: nat := 0;
      var mult: nat := 1;
      while p < end && data[p] >= 0x80
        invariant unchanged(this)
        invariant pos <= p <= end
        invariant Varint.Decode(data[pos..end]) == Shift(Varint.Decode(data[p..end]), acc, mult, p - pos)
      {
        ShiftStep(data[p..end], acc, mult, p - pos);
        assert data[p..end][1..] == data[p + 1..end];
        var digit: nat := data[p] - 0x80;
        ProductIsNat(mult, digit);
        acc := acc + mult * digit;
        mult := mult * 0x80;
        p := p + 1;
      }
      if p == end {
        assert data[p..end] == [];
        ok, value := false, 0;
        pos := end;
      } else {
        assert Varint.Decode(data[p..end]) == Some((data[p], 1));
        ProductIsNat(mult, data[p]);
        acc := acc + mult * data[p];
        ok, value := true, acc % UINT32_MODULUS;
        pos := p + 1;
      }
    }

    /**
     * `PushLimit(size)`: reading stops `size` bytes past the cursor, or at
     * the limit already in force if that comes sooner; returns the previous limit.
     */
    method PushLimit(size: nat) returns (previous: Option<nat>)
      requires Valid()
      modifies this
      ensures Valid() && pos == old(pos) && legitimateEnd == old(legitimateEnd)
      ensures previous == old(limit)
      ensures limit == if old(limit).Some? && old(limit).value < pos + size then old(limit) else Some(pos + size)
    {
      previous := limit;
      if !(limit.Some? && limit.value < pos + size) {
        limit := Some(pos + size);
      }
    }

    /** `PopLimit`: restores the previous limit and clears the message-end flag. */
    method PopLimit(previous: Option<nat>)
      requires Valid()
      requires previous.Some? ==> pos <= previous.value
      modifies this
      ensures Valid() && pos == old(pos)
      ensures limit == previous && !legitimateEnd
    {
      limit := previous;
      legitimateEnd := false;
    }

    /** `ConsumedEntireMessage`: the last message read ended at its limit, not at a zero tag. */
    function ConsumedEntireMessage(): bool
      reads this
    {
      legitimateEnd
    }

    /**
     * `MergeFromCodedStream` of an Envelope: reads fields up to `End()` into
     * `base`. Fails when the data ends before the pushed limit (a truncated
     * body) or when the region is malformed; otherwise advances the cursor
     * past what it read and records whether the read ended cleanly.
     */
    method MergeEnvelope(base: Messages.Envelope) returns (ok: bool, merged: Messages.Envelope)
      requires Valid()
      modifies this
      ensures Valid() && limit == old(limit)
      ensures ok == (!(limit.Some? && limit.value > |data|) && Messages.MergeFrom(base, data[old(pos)..End()]).Some?)
      ensures ok ==> var (e, clean, c) := Messages.MergeFrom(base, data[old(pos)..End()]).value;
                     merged == e && legitimateEnd == clean && pos == old(pos) + c
    {
      if limit.Some? && limit.value > |data| {
        ok, merged := false, base;
        pos := |data|;
        return;
      }
      var end := End();
      var r := Messages.MergeFrom(base, data[pos..end]);
      if r.None? {
        ok, merged := false, base;
        pos := end;
      } else {
        var (e, clean, c) := r.value;
        ok, merged := true, e;
        legitimateEnd := clean;
        pos := pos + c;
      }
    }
  }

  /** A `CodedOutputStream` over the socket: bytes written are appended in order. */
  class OutputStream {
    var written: seq<byte>

    constructor ()
      ensures written == []
    {
      written := [];
    }

    /** `WriteVarint32`: seven bits at a time, low group first. */
    method WriteVarint32(value: uint32)
      modifies this
      ensures written == old(written) + Varint.Encode(value)
    {
      var n: nat := value;
      while n >= 0x80
        invariant written + Varint.Encode(n) == old(written) + Varint.Encode(value)
      {
        assert Varint.Encode(n) == [n % 0x80 + 0x80] + Varint.Encode(n / 0x80);
        written := written + [n % 0x80 + 0x80];
        n := n / 0x80;
      }
      written := written + [n];
    }

    method WriteRaw(bytes: seq<byte>)
      modifies this
      ensures written == old(written) + bytes
    {
      written := written + bytes;
    }
  }
}
