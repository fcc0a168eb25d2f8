/**
 * The two messages the agent handles, `stf::Envelope` and
 * `stf::GetDisplayResponse`, with their serialisation in the wire format.
 * Envelope fields keep proto2 presence: a field that was never set is not
 * written, so the default Envelope serialises to no bytes at all.
 */
module Messages {
  import opened Bytes
  import Varint
  import opened WireFormat

  /** Field numbers of the Envelope. */
  const ENVELOPE_ID: nat := 1
  const ENVELOPE_TYPE: nat := 2
  const ENVELOPE_MESSAGE: nat := 3

  /** The MessageType value of a display description query. */
  const GET_DISPLAY: uint32 := 19

  datatype Envelope = Envelope(id: Option<uint32>, msgType: Option<uint32>, message: Option<seq<byte>>)

  /** A freshly constructed Envelope: no field set. */
  const DefaultEnvelope: Envelope := Envelope(None, None, None)

  /** The accessor `id()`: the field's value, or 0 when it was never set. */
  function IdOf(e: Envelope): uint32
  {
    if e.id.Some? then e.id.value else 0
  }

  /** An Envelope the wire format can carry: its payload length fits a varint32. */
  predicate WellFormed(e: Envelope)
  {
    e.message.Some? ==> |e.message.value| < UINT32_MODULUS
  }

  /** The fields an Envelope writes, in field-number order. */
  function EnvelopeFields(e: Envelope): seq<Field>
  {
    (if e.id.Some? then [VarintField(ENVELOPE_ID, e.id.value)] else []) +
    (if e.msgType.Some? then [VarintField(ENVELOPE_TYPE, e.msgType.value)] else []) +
    (if e.message.Some? then [BytesField(ENVELOPE_MESSAGE, e.message.value)] else [])
  }

  /** Merging one field read from the wire; fields of other numbers or wire types are skipped. */
  function ApplyEnvelopeField(e: Envelope, f: Field): Envelope
  {
    match f
    case VarintField(n, v) =>
      if n == ENVELOPE_ID then e.(id := Some(v))
      else if n == ENVELOPE_TYPE then e.(msgType := Some(v))
      else e
    case BytesField(n, d) =>
      if n == ENVELOPE_MESSAGE then e.(message := Some(d)) else e
  }

  /** Merging fields in wire order: a later occurrence of a field replaces an earlier one. */
  function MergeEnvelopeFields(e: Envelope, fs: seq<Field>): Envelope
    decreases |fs|
  {
    if fs == [] then e else MergeEnvelopeFields(ApplyEnvelopeField(e, fs[0]), fs[1..])
  }

  /** `SerializeWithCachedSizes`: the bytes of the Envelope's body. */
  function SerializeEnvelope(e: Envelope): seq<byte>
  {
    Serialize(EnvelopeFields(e))
  }

  /** `ByteSize()`: each present field's tag byte, varint and payload, counted without serialising. */
  function ByteSize(e: Envelope): nat
    requires WellFormed(e)
  {
    (if e.id.Some? then 1 + Varint.Size32(e.id.value) else 0) +
    (if e.msgType.Some? then 1 + Varint.Size32(e.msgType.value) else 0) +
    (if e.message.Some? then 1 + Varint.Size32(|e.message.value|) + |e.message.value| else 0)
  }

  /**
   * `MergeFromCodedStream` over a region: the fields read merged into `base`,
   * whether the region ended cleanly, and the bytes consumed; None when the
   * region is malformed.
   */
  function MergeFrom(base: Envelope, region: seq<byte>): (r: Option<(Envelope, bool, nat)>)
    ensures r.Some? ==> r.value.2 <= |region|
    ensures r.Some? && r.value.1 ==> r.value.2 == |region|
  {
    match Parse(region)
    case Malformed => None
    case Parsed(fs, clean, c) => Some((MergeEnvelopeFields(base, fs), clean, c))
  }

  lemma {:induction false} MergeEnvelopeAppend(e: Envelope, a: seq<Field>, b: seq<Field>)
    ensures MergeEnvelopeFields(e, a + b) == MergeEnvelopeFields(MergeEnvelopeFields(e, a), b)
    decreases |a|
  {
    if a == [] {
      assert a + b == b;
    } else {
      assert (a + b)[1..] == a[1..] + b;
      MergeEnvelopeAppend(ApplyEnvelopeField(e, a[0]), a[1..], b);
    }
  }

  lemma MergeEnvelopeOne(e: Envelope, f: Field)
    ensures MergeEnvelopeFields(e, [f]) == ApplyEnvelopeField(e, f)
  {
    assert [f][1..] == [];
  }

  /** Reading back the fields of an Envelope into a default one reproduces it. */
  lemma MergeEnvelopeFieldsInverse(e: Envelope)
    ensures MergeEnvelopeFields(DefaultEnvelope, EnvelopeFields(e)) == e
  {
    var a := if e.id.Some? then [VarintField(ENVELOPE_ID, e.id.value)] else [];
    var b := if e.msgType.Some? then [VarintField(ENVELOPE_TYPE, e.msgType.value)] else [];
    var c := if e.message.Some? then [BytesField(ENVELOPE_MESSAGE, e.message.value)] else [];
    MergeEnvelopeAppend(DefaultEnvelope, a + b, c);
    MergeEnvelopeAppend(DefaultEnvelope, a, b);
    var e1 := MergeEnvelopeFields(DefaultEnvelope, a);
    if e.id.Some? { MergeEnvelopeOne(DefaultEnvelope, a[0]); }
    assert e1 == Envelope(e.id, None, None);
    var e2 := MergeEnvelopeFields(e1, b);
    if e.msgType.Some? { MergeEnvelopeOne(e1, b[0]); }
    assert e2 == Envelope(e.id, e.msgType, None);
    if e.message.Some? { MergeEnvelopeOne(e2, c[0]); }
  }

  lemma EnvelopeFieldsWellFormed(e: Envelope)
    requires WellFormed(e)
    ensures AllWellFormed(EnvelopeFields(e))
  {
  }

  /** A field numbered below 16 takes one tag byte, then its varint or its length and data. */
  lemma SmallFieldLength(f: Field)
    requires 1 <= f.number < 16 && (f.BytesField? ==> |f.data| < UINT32_MODULUS)
    ensures f.VarintField? ==> |Serialize([f])| == 1 + Varint.Size32(f.value)
    ensures f.BytesField? ==> |Serialize([f])| == 1 + Varint.Size32(|f.data|) + |f.data|
  {
    SerializeOne(f);
    Varint.Size32IsLength(Tag(f));
    if f.VarintField? {
      Varint.Size32IsLength(f.value);
    } else {
      Varint.Size32IsLength(|f.data|);
    }
  }

  /** The computed size is the length of the serialisation. */
  lemma ByteSizeIsLength(e: Envelope)
    requires WellFormed(e)
    ensures ByteSize(e) == |SerializeEnvelope(e)|
  {
    var a := if e.id.Some? then [VarintField(ENVELOPE_ID, e.id.value)] else [];
    var b := if e.msgType.Some? then [VarintField(ENVELOPE_TYPE, e.msgType.value)] else [];
    var c := if e.message.Some? then [BytesField(ENVELOPE_MESSAGE, e.message.value)] else [];
    SerializeAppend(a + b, c);
    SerializeAppend(a, b);
    if e.id.Some? { SmallFieldLength(a[0]); }
    if e.msgType.Some? { SmallFieldLength(b[0]); }
    if e.message.Some? { SmallFieldLength(c[0]); }
  }

  /** An unset Envelope has nothing to write. */
  lemma DefaultEnvelopeEmpty()
    ensures SerializeEnvelope(DefaultEnvelope) == []
    ensures ByteSize(DefaultEnvelope) == 0
  {
    assert EnvelopeFields(DefaultEnvelope) == [];
  }

  /** Round trip of the body: merging a serialised Envelope into a default one gives it back, consuming all of it. */
  lemma EnvelopeRoundTrip(e: Envelope)
    requires WellFormed(e)
    ensures MergeFrom(DefaultEnvelope, SerializeEnvelope(e)) == Some((e, true, |SerializeEnvelope(e)|))
  {
    EnvelopeFieldsWellFormed(e);
    ParseSerialize(EnvelopeFields(e));
    MergeEnvelopeFieldsInverse(e);
  }

  // ---------------------------------------------------------------------
  // GetDisplayResponse

  datatype DisplayResponse = DisplayResponse(
    success: bool, width: uint32, height: uint32, secure: bool,
    xdpi: uint32, ydpi: uint32, fps: uint32, rotation: uint32, density: uint32)

  const DefaultDisplay: DisplayResponse := DisplayResponse(false, 0, 0, false, 0, 0, 0, 0, 0)

  /** A bool travels as the varint 1 or 0. */
  function BoolValue(b: bool): uint32
  {
    if b then 1 else 0
  }

  /** The fields of a display response in which every field is set, numbered 1 to 9 in declaration order. */
  function DisplayFields(d: DisplayResponse): seq<Field>
  {
    [VarintField(1, BoolValue(d.success)), VarintField(2, d.width), VarintField(3, d.height),
     VarintField(4, BoolValue(d.secure)), VarintField(5, d.xdpi), VarintField(6, d.ydpi),
     VarintField(7, d.fps), VarintField(8, d.rotation), VarintField(9, d.density)]
  }

  /** Merging one field; a nonzero varint reads as true. */
  function ApplyDisplayField(d: DisplayResponse, f: Field): DisplayResponse
  {
    if !f.VarintField? then d
    else
      var v := f.value;
      match f.number
      case 1 => d.(success := v != 0)
      case 2 => d.(width := v)
      case 3 => d.(height := v)
      case 4 => d.(secure := v != 0)
      case 5 => d.(xdpi := v)
      case 6 => d.(ydpi := v)
      case 7 => d.(fps := v)
      case 8 => d.(rotation := v)
      case 9 => d.(density := v)
      case _ => d
  }

  function MergeDisplayFields(d: DisplayResponse, fs: seq<Field>): DisplayResponse
    decreases |fs|
  {
    if fs == [] then d else MergeDisplayFields(ApplyDisplayField(d, fs[0]), fs[1..])
  }

  /** `SerializeToString` of a display response. */
  function SerializeDisplay(d: DisplayResponse): seq<byte>
  {
    Serialize(DisplayFields(d))
  }

  /** `ParseFromString`: the whole string must be read, cleanly. */
  function ParseDisplay(s: seq<byte>): Option<DisplayResponse>
  {
    match Parse(s)
    case Parsed(fs, true, _) => Some(MergeDisplayFields(DefaultDisplay, fs))
    case _ => None
  }

  lemma MergeDisplayCons(d: DisplayResponse, f: Field, fs: seq<Field>)
    ensures MergeDisplayFields(d, [f] + fs) == MergeDisplayFields(ApplyDisplayField(d, f), fs)
  {
    assert ([f] + fs)[1..] == fs;
  }

  /** `d` with only its first `k` fields set, the rest at their defaults. */
  function DisplayPrefix(d: DisplayResponse, k: nat): DisplayResponse
  {
    DisplayResponse(
      if k >= 1 then d.success else false, if k >= 2 then d.width else 0,
      if k >= 3 then d.height else 0, if k >= 4 then d.secure else false,
      if k >= 5 then d.xdpi else 0, if k >= 6 then d.ydpi else 0,
      if k >= 7 then d.fps else 0, if k >= 8 then d.rotation else 0,
      if k >= 9 then d.density else 0)
  }

  /** Merging field `k` of `d` sets one more field. */
  lemma DisplayPrefixStep(d: DisplayResponse, k: nat)
    requires k < 9
    ensures ApplyDisplayField(DisplayPrefix(d, k), DisplayFields(d)[k]) == DisplayPrefix(d, k + 1)
  {
  }

  /** Merging the fields of `d` from `k` on completes `d`. */
  lemma {:induction false} MergeDisplaySuffix(d: DisplayResponse, k: nat)
    requires k <= 9
    ensures MergeDisplayFields(DisplayPrefix(d, k), DisplayFields(d)[k..]) == d
    decreases 9 - k
  {
    var fs := DisplayFields(d);
    if k == 9 {
      assert fs[9..] == [];
    } else {
      assert fs[k..] == [fs[k]] + fs[k + 1..];
      MergeDisplayCons(DisplayPrefix(d, k), fs[k], fs[k + 1..]);
      DisplayPrefixStep(d, k);
      MergeDisplaySuffix(d, k + 1);
    }
  }

  /** Merging the fields of a display response into the default rebuilds it. */
  lemma MergeDisplayFieldsInverse(d: DisplayResponse)
    ensures MergeDisplayFields(DefaultDisplay, DisplayFields(d)) == d
  {
    MergeDisplaySuffix(d, 0);
    assert DisplayFields(d)[0..] == DisplayFields(d);
  }

  /** Varint fields numbered below 16 take at most six bytes each: one tag byte and a varint32. */
  lemma {:induction false} SmallVarintFieldsLength(fs: seq<Field>)
    requires forall i :: 0 <= i < |fs| ==> fs[i].VarintField? && fs[i].number < 16
    ensures |Serialize(fs)| <= 6 * |fs|
  {
    if fs != [] {
      var f := fs[0];
      assert Tag(f) < 0x80;
      Varint.Size32IsLength(f.value);
      SmallVarintFieldsLength(fs[1..]);
    }
  }

  /** A serialised display response is at most 54 bytes long. */
  lemma DisplaySizeBound(d: DisplayResponse)
    ensures |SerializeDisplay(d)| <= 54
  {
    SmallVarintFieldsLength(DisplayFields(d));
  }

  /** Round trip of the display body: what is serialised parses back to the same record. */
  lemma DisplayRoundTrip(d: DisplayResponse)
    ensures ParseDisplay(SerializeDisplay(d)) == Some(d)
  {
    assert AllWellFormed(DisplayFields(d));
    ParseSerialize(DisplayFields(d));
    MergeDisplayFieldsInverse(d);
  }
}
