/**
 * Field-level Protocol Buffers wire format, as far as the Envelope and the
 * display response need it: a message is a sequence of fields, each a varint
 * tag (field number times 8 plus the wire type) followed by a varint value
 * (wire type 0) or by a varint length and that many bytes (wire type 2).
 * This stands in for the generated serialisation code of the agent's schema.
 */
module WireFormat {
  import opened Bytes
  import Varint

  const WIRETYPE_VARINT: nat := 0
  const WIRETYPE_LENGTH_DELIMITED: nat := 2
  const MAX_FIELD_NUMBER: nat := 0x1FFF_FFFF

  datatype Field =
    | VarintField(number: nat, value: uint32)
    | BytesField(number: nat, data: seq<byte>)

  function Tag(f: Field): nat
  {
    f.number * 8 + (if f.VarintField? then WIRETYPE_VARINT else WIRETYPE_LENGTH_DELIMITED)
  }

  /** A field a message can write: a legal field number and a length that fits a varint32. */
  predicate WellFormed(f: Field)
  {
    1 <= f.number <= MAX_FIELD_NUMBER && (f.BytesField? ==> |f.data| < UINT32_MODULUS)
  }

  predicate AllWellFormed(fs: seq<Field>)
  {
    forall i :: 0 <= i < |fs| ==> WellFormed(fs[i])
  }

  function SerializeField(f: Field): seq<byte>
  {
    Varint.Encode(Tag(f)) +
      match f
      case VarintField(_, v) => Varint.Encode(v)
      case BytesField(_, d) => Varint.Encode(|d|) + d
  }

  function Serialize(fs: seq<Field>): seq<byte>
  {
    if fs == [] then [] else SerializeField(fs[0]) + Serialize(fs[1..])
  }

  /**
   * The outcome of reading fields up to the end of a region: the fields in
   * order, whether the read ended at the region's end (the library's
   * "legitimate message end") rather than at a zero tag, and how many bytes
   * were consumed; or Malformed.
   */
  datatype ParseResult = Parsed(fields: seq<Field>, cleanEnd: bool, consumed: nat) | Malformed

  /** `fs` read first, occupying `k` bytes, then whatever `r` read. */
  function Extend(fs: seq<Field>, k: nat, r: ParseResult): ParseResult
  {
    match r
    case Malformed => Malformed
    case Parsed(gs, clean, c) => Parsed(fs + gs, clean, k + c)
  }

  /** What one read at the front of a region finds. */
  datatype FieldRead = Read(field: Field, length: nat) | ZeroTag(length: nat) | Bad

  /**
   * Reads one field at the front of `s`: a varint tag, then a varint value
   * (wire type 0) or a varint length and that many bytes (wire type 2). A
   * zero tag is reported as such; a truncated varint, a length running past
   * `s` or any other wire type is Bad.
   */
  function ReadField(s: seq<byte>): (r: FieldRead)
    ensures r.Read? ==> 1 <= r.length <= |s|
    ensures r.ZeroTag? ==> 1 <= r.length <= |s|
  {
    match Varint.Read32(s)
    case None => Bad
    case Some((tag, n)) =>
      if tag == 0 then ZeroTag(n)
      else if tag % 8 == WIRETYPE_VARINT then
        match Varint.Read32(s[n..])
        case None => Bad
        case Some((v, m)) => Read(VarintField(tag / 8, v), n + m)
      else if tag % 8 == WIRETYPE_LENGTH_DELIMITED then
        match Varint.Read32(s[n..])
        case None => Bad
        case Some((len, m)) =>
          if n + m + len > |s| then Bad
          else Read(BytesField(tag / 8, s[n + m..n + m + len]), n + m + len)
      else Bad
  }

  /**
   * Reads fields until the region is exhausted (a clean end). A zero tag
   * ends the message early; a Bad read makes the region malformed.
   */
  function Parse(s: seq<byte>): (r: ParseResult)
    ensures r.Parsed? ==> r.consumed <= |s|
    ensures r.Parsed? && r.cleanEnd ==> r.consumed == |s|
    decreases |s|
  {
    if |s| == 0 then Parsed([], true, 0)
    else match ReadField(s)
      case Bad => Malformed
      case ZeroTag(n) => Parsed([], false, n)
      case Read(f, n) => Extend([f], n, Parse(s[n..]))
  }

  lemma {:induction false} SerializeAppend(a: seq<Field>, b: seq<Field>)
    ensures Serialize(a + b) == Serialize(a) + Serialize(b)
  {
    if a != [] {
      var head := SerializeField(a[0]);
      assert (a + b)[0] == a[0] && (a + b)[1..] == a[1..] + b;
      assert Serialize(a + b) == head + Serialize(a[1..] + b);
      SerializeAppend(a[1..], b);
      var x, y := Serialize(a[1..]), Serialize(b);
      assert head + (x + y) == (head + x) + y;
    } else {
      assert a + b == b;
    }
  }

  lemma TagOf(f: Field)
    requires WellFormed(f)
    ensures Tag(f) != 0 && Tag(f) < UINT32_MODULUS && Tag(f) / 8 == f.number
    ensures Tag(f) % 8 == if f.VarintField? then WIRETYPE_VARINT else WIRETYPE_LENGTH_DELIMITED
  {
  }

  lemma ReadSerializedVarint(f: Field, rest: seq<byte>)
    requires WellFormed(f) && f.VarintField?
    ensures ReadField(SerializeField(f) + rest) == Read(f, |SerializeField(f)|)
  {
    TagOf(f);
    var e := Varint.Encode(Tag(f));
    var body := Varint.Encode(f.value) + rest;
    var s := e + body;
    assert SerializeField(f) + rest == s;
    Varint.Read32Encode(Tag(f), body);
    assert s[|e|..] == body;
    Varint.Read32Encode(f.value, rest);
  }

  lemma ReadSerializedBytes(f: Field, rest: seq<byte>)
    requires WellFormed(f) && f.BytesField?
    ensures ReadField(SerializeField(f) + rest) == Read(f, |SerializeField(f)|)
  {
    TagOf(f);
    var e := Varint.Encode(Tag(f));
    var d := f.data;
    var l := Varint.Encode(|d|);
    var body := l + (d + rest);
    var s := e + body;
    assert SerializeField(f) + rest == s;
    Varint.Read32Encode(Tag(f), body);
    assert s[|e|..] == body;
    Varint.Read32Encode(|d|, d + rest);
    assert s[|e| + |l|..|e| + |l| + |d|] == d;
  }

  lemma SerializeOne(f: Field)
    ensures Serialize([f]) == SerializeField(f)
  {
    assert Serialize([f]) == SerializeField(f) + Serialize([]);
  }

  /** One well-formed field is read back exactly, whatever follows it. */
  lemma ReadSerializedField(f: Field, rest: seq<byte>)
    requires WellFormed(f)
    ensures ReadField(SerializeField(f) + rest) == Read(f, |SerializeField(f)|)
  {
    if f.VarintField? {
      ReadSerializedVarint(f, rest);
    } else {
      ReadSerializedBytes(f, rest);
    }
  }

  lemma ExtendTwice(f: Field, k: nat, fs: seq<Field>, j: nat, r: ParseResult)
    ensures Extend([f], k, Extend(fs, j, r)) == Extend([f] + fs, k + j, r)
  {
    if r.Parsed? {
      assert [f] + (fs + r.fields) == ([f] + fs) + r.fields;
    }
  }

  lemma ExtendNothing(r: ParseResult)
    ensures Extend([], 0, r) == r
  {
    if r.Parsed? {
      assert [] + r.fields == r.fields;
    }
  }

  /** Serialised well-formed fields are read back in order, whatever follows them. */
  lemma {:induction false} ParseSerialized(fs: seq<Field>, tail: seq<byte>)
    requires AllWellFormed(fs)
    ensures Parse(Serialize(fs) + tail) == Extend(fs, |Serialize(fs)|, Parse(tail))
  {
    if fs == [] {
      assert Serialize(fs) + tail == tail;
      ExtendNothing(Parse(tail));
    } else {
      var f := fs[0];
      var head := SerializeField(f);
      var rest := Serialize(fs[1..]) + tail;
      var s := head + rest;
      assert Serialize(fs) + tail == s;
      ReadSerializedField(f, rest);
      assert s[|head|..] == rest;
      assert Parse(s) == Extend([f], |head|, Parse(rest));
      ParseSerialized(fs[1..], tail);
      ExtendTwice(f, |head|, fs[1..], |Serialize(fs[1..])|, Parse(tail));
      assert [f] + fs[1..] == fs;
    }
  }

  /** Round trip: a serialised message is read back completely and cleanly. */
  lemma ParseSerialize(fs: seq<Field>)
    requires AllWellFormed(fs)
    ensures Parse(Serialize(fs)) == Parsed(fs, true, |Serialize(fs)|)
  {
    ParseSerialized(fs, []);
    assert Serialize(fs) + [] == Serialize(fs);
    assert fs + [] == fs;
  }

  /**
   * A zero byte after the last field ends the read early: the bytes after it
   * are left unconsumed and the end is not clean.
   */
  lemma ParseStopsAtZeroTag(fs: seq<Field>, junk: seq<byte>)
    requires AllWellFormed(fs)
    ensures Parse(Serialize(fs) + ([0] + junk)) == Parsed(fs, false, |Serialize(fs)| + 1)
  {
    ParseSerialized(fs, [0] + junk);
    ZeroTagStops(junk);
    assert fs + [] == fs;
  }

  /** A zero byte where a tag is expected ends the read, not cleanly. */
  lemma ZeroTagStops(junk: seq<byte>)
    ensures Parse([0] + junk) == Parsed([], false, 1)
  {
    var s := [0] + junk;
    assert s[0] == 0;
    assert Varint.Decode(s) == Some((0, 1));
    assert ReadField(s) == ZeroTag(1);
  }
}
