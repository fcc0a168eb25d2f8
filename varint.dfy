/**
 * Base 128 varints, as in the "Base 128 Varints" section of the Protocol
 * Buffers encoding specification: seven bits of magnitude per byte, least
 * significant group first, and the high bit (0x80) set on every byte except
 * the last.
 */
module Varint {
  import opened Bytes

  /** The varint that `WriteVarint32` writes for `n`. */
  function Encode(n: nat): (r: seq<byte>)
    ensures |r| >= 1
    decreases n
  {
    if n < 0x80 then [n] else [n % 0x80 + 0x80] + Encode(n / 0x80)
  }

  /**
   * Reads one varint at the front of `s`: its value and the number of bytes
   * it occupies, or None when `s` ends while the continuation bit is still set.
   */
  function Decode(s: seq<byte>): (r: Option<(nat, nat)>)
    ensures r.Some? ==> 1 <= r.value.1 <= |s|
    decreases |s|
  {
    if |s| == 0 then None
    else if s[0] < 0x80 then Some((s[0], 1))
    else match Decode(s[1..])
      case None => None
      case Some((v, n)) => Some((s[0] - 0x80 + 0x80 * v, n + 1))
  }

  /** `ReadVarint32`: a varint whose value is cut to its low 32 bits. */
  function Read32(s: seq<byte>): (r: Option<(uint32, nat)>)
    ensures r.Some? <==> Decode(s).Some?
    ensures r.Some? ==> r.value.1 == Decode(s).value.1 && 1 <= r.value.1 <= |s|
    ensures r.Some? ==> r.value.0 == Decode(s).value.0 % UINT32_MODULUS
  {
    match Decode(s)
    case None => None
    case Some((v, n)) => Some((v % UINT32_MODULUS, n))
  }

  /** `VarintSize32`: the length of the varint of `n`, found by comparisons. */
  function Size32(n: uint32): nat
  {
    if n < 0x80 then 1
    else if n < 0x4000 then 2
    else if n < 0x20_0000 then 3
    else if n < 0x1000_0000 then 4
    else 5
  }

  /** 128 to the power k. */
  function Pow128(k: nat): (r: nat)
    ensures r >= 1
  {
    if k == 0 then 1 else 0x80 * Pow128(k - 1)
  }

  /** Every byte of a varint but the last carries the continuation bit. */
  lemma {:induction false} EncodeShape(n: nat)
    ensures Encode(n)[|Encode(n)| - 1] < 0x80
    ensures forall i :: 0 <= i < |Encode(n)| - 1 ==> Encode(n)[i] >= 0x80
  {
    if n >= 0x80 {
      EncodeShape(n / 0x80);
      assert Encode(n) == [n % 0x80 + 0x80] + Encode(n / 0x80);
    }
  }

  /** Decoding inverts encoding, whatever follows the varint. */
  lemma {:induction false} DecodeEncode(n: nat, rest: seq<byte>)
    ensures Decode(Encode(n) + rest) == Some((n, |Encode(n)|))
  {
    if n >= 0x80 {
      var s := Encode(n) + rest;
      assert s[1..] == Encode(n / 0x80) + rest;
      DecodeEncode(n / 0x80, rest);
    }
  }

  /** `ReadVarint32` returns what `WriteVarint32` wrote. */
  lemma Read32Encode(n: uint32, rest: seq<byte>)
    ensures Read32(Encode(n) + rest) == Some((n, |Encode(n)|))
  {
    DecodeEncode(n, rest);
  }

  /** A stream that ends while the continuation bit is set holds no varint. */
  lemma {:induction false} DecodeTruncated(s: seq<byte>)
    requires forall i :: 0 <= i < |s| ==> s[i] >= 0x80
    ensures Decode(s) == None
  {
    if |s| > 0 {
      DecodeTruncated(s[1..]);
    }
  }

  /** A varint is self-delimiting: bytes after it do not change what is read. */
  lemma {:induction false} DecodeExtends(s: seq<byte>, rest: seq<byte>)
    requires Decode(s).Some?
    ensures Decode(s + rest) == Decode(s)
  {
    if s[0] >= 0x80 {
      assert (s + rest)[1..] == s[1..] + rest;
      DecodeExtends(s[1..], rest);
    }
  }

  lemma {:induction false} LengthBelow(n: nat, k: nat)
    requires 1 <= k && n < Pow128(k)
    ensures |Encode(n)| <= k
  {
    if n >= 0x80 {
      assert k >= 2;
      assert n / 0x80 < Pow128(k - 1);
      LengthBelow(n / 0x80, k - 1);
    }
  }

  lemma {:induction false} LengthAtLeast(n: nat, k: nat)
    requires 1 <= k && Pow128(k - 1) <= n
    ensures |Encode(n)| >= k
  {
    if k >= 2 {
      assert n / 0x80 >= Pow128(k - 2);
      LengthAtLeast(n / 0x80, k - 1);
    }
  }

  /** The comparison-based size agrees with the length of the encoding. */
  lemma Size32IsLength(n: uint32)
    ensures |Encode(n)| == Size32(n)
    ensures Size32(n) <= 5
  {
    assert Pow128(1) == 0x80 && Pow128(2) == 0x4000 && Pow128(3) == 0x20_0000;
    assert Pow128(4) == 0x1000_0000 && Pow128(5) == 0x8_0000_0000;
    if n < 0x80 {
      LengthBelow(n, 1);
    } else if n < 0x4000 {
      LengthBelow(n, 2); LengthAtLeast(n, 2);
    } else if n < 0x20_0000 {
      LengthBelow(n, 3); LengthAtLeast(n, 3);
    } else if n < 0x1000_0000 {
      LengthBelow(n, 4); LengthAtLeast(n, 4);
    } else {
      LengthBelow(n, 5); LengthAtLeast(n, 5);
    }
  }
}
