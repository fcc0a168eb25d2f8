/**
 * Length-delimited framing (`recv_message` and `send_message`): a frame is
 * the varint length of an Envelope's body followed by exactly that many
 * body bytes.
 */
module Framing {
  import opened Bytes
  import Varint
  import WireFormat
  import opened Messages
  import opened Streams

  /** An Envelope `send_message` can write: its `ByteSize()` fits a C `int`. */
  predicate Sendable(e: Envelope)
  {
    WellFormed(e) && ByteSize(e) <= INT32_MAX
  }

  /** A body preceded by its length as a varint. */
  function Frame(body: seq<byte>): seq<byte>
  {
    Varint.Encode(|body|) + body
  }

  /** The frame of `e`: the exact length of its body as a varint, then the body. */
  function Encode(e: Envelope): seq<byte>
  {
    Frame(SerializeEnvelope(e))
  }

  /**
   * What `recv_message` yields from a fresh stream over `s`, merging into
   * `base`: None when the length prefix is truncated, when fewer body bytes
   * than it announces follow, when the body is malformed, or when its read
   * stops at a zero tag before the end of the body.
   */
  function Decode(base: Envelope, s: seq<byte>): Option<Envelope>
  {
    var prefix := Varint.Read32(s);
    if prefix.None? then None
    else
      var (size, p) := prefix.value;
      if p + size > |s| then None
      else
        DecodeBody(MergeFrom(base, s[p..p + size]))
  }

  /** The Envelope of a merge that read its whole region, if it did. */
  function DecodeBody(m: Option<(Envelope, bool, nat)>): Option<Envelope>
  {
    if m.Some? && m.value.1 then Some(m.value.0) else None
  }

  /**
   * `recv_message`: opens a coded stream over the bytes of one read, reads
   * the length, pushes it as a limit, merges the body into `message` and
   * checks that the whole limited region was consumed.
   */
  method RecvMessage(bytes: seq<byte>, message: Envelope) returns (ok: bool, received: Envelope)
    ensures ok == Decode(message, bytes).Some?
    ensures ok ==> received == Decode(message, bytes).value
  {
    var input := new InputStream(bytes);
    assert bytes[0..input.End()] == bytes;
    var readOk, size := input.ReadVarint32();
    if !readOk {
      return false, message;
    }
    ghost var p := input.pos;
    assert Varint.Read32(bytes) == Some((size, p));
    var limit := input.PushLimit(size);
    assert input.limit == Some(p + size);
    var merged;
    ok, merged := input.MergeEnvelope(message);
    if !ok {
      if p + size <= |bytes| {
        DecodeRegion(message, bytes, size, p);
      }
      return false, message;
    }
    assert input.End() == p + size;
    DecodeRegion(message, bytes, size, p);
    if !input.ConsumedEntireMessage() {
      return false, message;
    }
    input.PopLimit(limit);
    return true, merged;
  }

  /** `Decode` once the length prefix has been read and the announced body is present. */
  lemma DecodeRegion(base: Envelope, s: seq<byte>, size: nat, p: nat)
    requires Varint.Read32(s) == Some((size, p)) && p + size <= |s|
    ensures Decode(base, s) == DecodeBody(MergeFrom(base, s[p..p + size]))
  {
  }

  /** `send_message`: writes `ByteSize()` as a varint, then the serialised body. */
  method SendMessage(envelope: Envelope, output: OutputStream)
    requires Sendable(envelope)
    modifies output
    ensures output.written == old(output.written) + Encode(envelope)
  {
    var size := ByteSize(envelope);
    ByteSizeIsLength(envelope);
    output.WriteVarint32(size);
    output.WriteRaw(SerializeEnvelope(envelope));
  }

  /** A frame whose length fits a varint32 is decided by its body alone. */
  lemma DecodeFrame(base: Envelope, body: seq<byte>, rest: seq<byte>)
    requires |body| < UINT32_MODULUS
    ensures Decode(base, Frame(body) + rest) == DecodeBody(MergeFrom(base, body))
  {
    var s := Frame(body) + rest;
    var p := |Varint.Encode(|body|)|;
    assert s == Varint.Encode(|body|) + (body + rest);
    Varint.Read32Encode(|body|, body + rest);
    assert s[p..p + |body|] == body;
  }

  /** Framing round trip: a frame decodes to the Envelope it was made from, whatever bytes follow it. */
  lemma RoundTrip(e: Envelope, rest: seq<byte>)
    requires Sendable(e)
    ensures Decode(DefaultEnvelope, Encode(e) + rest) == Some(e)
  {
    ByteSizeIsLength(e);
    DecodeFrame(DefaultEnvelope, SerializeEnvelope(e), rest);
    EnvelopeRoundTrip(e);
  }

  /** A frame is self-delimiting: bytes after it in the same read do not change the result. */
  lemma TrailingBytesIgnored(base: Envelope, s: seq<byte>, rest: seq<byte>)
    requires Decode(base, s).Some?
    ensures Decode(base, s + rest) == Decode(base, s)
  {
    Varint.DecodeExtends(s, rest);
    assert Varint.Read32(s + rest) == Varint.Read32(s);
    var (size, p) := Varint.Read32(s).value;
    var body := s[p..p + size];
    assert (s + rest)[p..p + size] == body;
  }

  /** A stream that ends while the length prefix still has its continuation bit set yields nothing. */
  lemma TruncatedPrefixRejected(base: Envelope, s: seq<byte>)
    requires forall i :: 0 <= i < |s| ==> s[i] >= 0x80
    ensures Decode(base, s) == None
  {
    Varint.DecodeTruncated(s);
  }

  /** Every strict prefix of a frame is rejected: a truncated frame is never accepted. */
  lemma TruncatedFrameRejected(e: Envelope, k: nat)
    requires Sendable(e) && k < |Encode(e)|
    ensures Decode(DefaultEnvelope, Encode(e)[..k]) == None
  {
    var body := SerializeEnvelope(e);
    var prefix := Varint.Encode(|body|);
    var s := Encode(e)[..k];
    if k < |prefix| {
      Varint.EncodeShape(|body|);
      assert forall i :: 0 <= i < |s| ==> s[i] == prefix[i];
      TruncatedPrefixRejected(DefaultEnvelope, s);
    } else {
      ByteSizeIsLength(e);
      assert s == prefix + body[..k - |prefix|];
      Varint.Read32Encode(|body|, body[..k - |prefix|]);
    }
  }

  /** A frame whose body does not parse is rejected, whatever follows it. */
  lemma MalformedBodyRejected(base: Envelope, body: seq<byte>, rest: seq<byte>)
    requires |body| < UINT32_MODULUS
    requires MergeFrom(base, body).None?
    ensures Decode(base, Frame(body) + rest) == None
  {
    DecodeFrame(base, body, rest);
  }

  /**
   * A body that stops at a zero tag before its announced length is rejected,
   * even though every field before the zero byte is well formed.
   */
  lemma UnconsumedBodyRejected(base: Envelope, e: Envelope, junk: seq<byte>)
    requires WellFormed(e)
    requires |SerializeEnvelope(e)| + 1 + |junk| < UINT32_MODULUS
    ensures Decode(base, Frame(SerializeEnvelope(e) + ([0] + junk))) == None
  {
    var body := SerializeEnvelope(e) + ([0] + junk);
    DecodeFrame(base, body, []);
    assert Frame(body) + [] == Frame(body);
    EnvelopeFieldsWellFormed(e);
    WireFormat.ParseStopsAtZeroTag(EnvelopeFields(e), junk);
  }
}
