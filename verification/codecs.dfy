/**
 The five text encodings a source file may use, as Python's codecs of the same
 names: "utf-8", "utf-16-le", "utf-16-be", "utf-32-le", "utf-32-be". None of
 them consumes a byte-order mark; each decoder is strict.

 UTF-16 and UTF-32 are modelled in two layers: bytes to fixed-width code units
 (little- or big-endian), then code units to scalar values (surrogate pairs for
 UTF-16, one unit per scalar for UTF-32).
 */
module Codecs {
  import opened Wrappers
  import opened Utf8

  datatype Encoding = UTF8 | UTF16LE | UTF16BE | UTF32LE | UTF32BE

  /** The codec name `read_source_utf8` and `encode_output` pass to `bytes.decode` and `str.encode`. */
  function Name(e: Encoding): string {
    match e
    case UTF8 => "utf-8"
    case UTF16LE => "utf-16-le"
    case UTF16BE => "utf-16-be"
    case UTF32LE => "utf-32-le"
    case UTF32BE => "utf-32-be"
  }

  function Width(e: Encoding): nat {
    match e
    case UTF8 => 1
    case UTF16LE => 2
    case UTF16BE => 2
    case UTF32LE => 4
    case UTF32BE => 4
  }

  predicate IsBigEndian(e: Encoding) {
    e == UTF16BE || e == UTF32BE
  }

  // ---------------------------------------------------------------------------
  // Bytes <-> fixed-width code units
  // ---------------------------------------------------------------------------

  function Pow256(w: nat): nat {
    if w == 0 then 1 else 256 * Pow256(w - 1)
  }

  function Reverse<T>(s: seq<T>): (r: seq<T>)
    ensures |r| == |s|
    ensures forall i :: 0 <= i < |s| ==> r[i] == s[|s| - 1 - i]
  {
    if |s| == 0 then [] else Reverse(s[1..]) + [s[0]]
  }

  /** The `w` bytes of unit `u`, least significant first. */
  function LittleEndianBytes(u: nat, w: nat): (r: seq<byte>)
    ensures |r| == w
  {
    if w == 0 then [] else [u % 256] + LittleEndianBytes(u / 256, w - 1)
  }

  /** The unit whose least significant byte comes first in `bs`. */
  function LittleEndianValue(bs: seq<byte>): (u: nat)
    ensures u < Pow256(|bs|)
  {
    if |bs| == 0 then 0 else bs[0] + 256 * LittleEndianValue(bs[1..])
  }

  function UnitBytes(u: nat, w: nat, bigEndian: bool): (r: seq<byte>)
    ensures |r| == w
  {
    if bigEndian then Reverse(LittleEndianBytes(u, w)) else LittleEndianBytes(u, w)
  }

  function UnitValue(bs: seq<byte>, bigEndian: bool): (u: nat)
    ensures u < Pow256(|bs|)
  {
    if bigEndian then LittleEndianValue(Reverse(bs)) else LittleEndianValue(bs)
  }

  /** Cuts `b` into `w`-byte units; None when a partial unit is left over
      (Python: "truncated data"). */
  function BytesToUnits(b: seq<byte>, w: nat, bigEndian: bool): (r: Option<seq<nat>>)
    requires w > 0
    ensures r.Some? ==> forall i :: 0 <= i < |r.value| ==> r.value[i] < Pow256(w)
    decreases |b|
  {
    if |b| == 0 then Some([])
    else if |b| < w then None
    else match BytesToUnits(b[w..], w, bigEndian)
      case None => None
      case Some(rest) => Some([UnitValue(b[..w], bigEndian)] + rest)
  }

  function UnitsToBytes(us: seq<nat>, w: nat, bigEndian: bool): seq<byte> {
    if |us| == 0 then [] else UnitBytes(us[0], w, bigEndian) + UnitsToBytes(us[1..], w, bigEndian)
  }

  lemma {:induction false} ReverseReverse<T>(s: seq<T>)
    ensures Reverse(Reverse(s)) == s
  {
    var r := Reverse(Reverse(s));
    assert |r| == |s|;
    assert forall i :: 0 <= i < |s| ==> r[i] == s[i];
  }

  lemma {:induction false} LittleEndianRoundTrip(u: nat, w: nat)
    requires u < Pow256(w)
    ensures LittleEndianValue(LittleEndianBytes(u, w)) == u
  {
    if w > 0 {
      LittleEndianRoundTrip(u / 256, w - 1);
      assert LittleEndianBytes(u, w)[1..] == LittleEndianBytes(u / 256, w - 1);
    }
  }

  lemma {:induction false} LittleEndianBytesOfValue(bs: seq<byte>)
    ensures LittleEndianBytes(LittleEndianValue(bs), |bs|) == bs
  {
    if |bs| > 0 {
      var u := LittleEndianValue(bs);
      assert u % 256 == bs[0] && u / 256 == LittleEndianValue(bs[1..]);
      LittleEndianBytesOfValue(bs[1..]);
    }
  }

  /** A unit written out as bytes reads back as the same unit, in either byte order. */
  lemma UnitRoundTrip(u: nat, w: nat, bigEndian: bool)
    requires u < Pow256(w)
    ensures UnitValue(UnitBytes(u, w, bigEndian), bigEndian) == u
  {
    LittleEndianRoundTrip(u, w);
    if bigEndian {
      ReverseReverse(LittleEndianBytes(u, w));
    }
  }

  /** Bytes read as a unit are written back as the same bytes, in either byte order. */
  lemma UnitBytesOfValue(bs: seq<byte>, bigEndian: bool)
    ensures UnitBytes(UnitValue(bs, bigEndian), |bs|, bigEndian) == bs
  {
    if bigEndian {
      LittleEndianBytesOfValue(Reverse(bs));
      ReverseReverse(bs);
    } else {
      LittleEndianBytesOfValue(bs);
    }
  }

  lemma {:induction false} UnitsRoundTrip(us: seq<nat>, w: nat, bigEndian: bool)
    requires w > 0
    requires forall i :: 0 <= i < |us| ==> us[i] < Pow256(w)
    ensures BytesToUnits(UnitsToBytes(us, w, bigEndian), w, bigEndian) == Some(us)
  {
    if |us| > 0 {
      var b := UnitsToBytes(us, w, bigEndian);
      assert b == UnitBytes(us[0], w, bigEndian) + UnitsToBytes(us[1..], w, bigEndian);
      assert b[..w] == UnitBytes(us[0], w, bigEndian);
      assert b[w..] == UnitsToBytes(us[1..], w, bigEndian);
      UnitRoundTrip(us[0], w, bigEndian);
      UnitsRoundTrip(us[1..], w, bigEndian);
      assert [us[0]] + us[1..] == us;
    }
  }

  lemma {:induction false} BytesRoundTrip(b: seq<byte>, w: nat, bigEndian: bool)
    requires w > 0 && BytesToUnits(b, w, bigEndian).Some?
    ensures UnitsToBytes(BytesToUnits(b, w, bigEndian).value, w, bigEndian) == b
    decreases |b|
  {
    if |b| > 0 {
      UnitBytesOfValue(b[..w], bigEndian);
      BytesRoundTrip(b[w..], w, bigEndian);
      assert b == b[..w] + b[w..];
    }
  }

  // ---------------------------------------------------------------------------
  // UTF-32 code units <-> scalar values
  // ---------------------------------------------------------------------------

  /** Each unit must be a scalar value; Python rejects surrogates and values
      from 0x110000 up. */
  function DecodeUnits32(us: seq<nat>): (r: Option<string>)
    ensures r.Some? ==> |r.value| == |us|
  {
    if |us| == 0 then Some([])
    else if !IsScalar(us[0]) then None
    else match DecodeUnits32(us[1..])
      case None => None
      case Some(rest) => Some([us[0] as char] + rest)
  }

  function EncodeUnits32(s: string): (us: seq<nat>)
    ensures |us| == |s|
  {
    if |s| == 0 then [] else [s[0] as int] + EncodeUnits32(s[1..])
  }

  // ---------------------------------------------------------------------------
  // UTF-16 code units <-> scalar values
  // ---------------------------------------------------------------------------

  predicate IsHighSurrogate(u: nat) { 0xD800 <= u < 0xDC00 }

  predicate IsLowSurrogate(u: nat) { 0xDC00 <= u < 0xE000 }

  /** A high surrogate must be followed by a low one; a lone surrogate of
      either kind, or a high one at the end, is a decoding error. */
  function DecodeUnits16(us: seq<nat>): Option<string>
    decreases |us|
  {
    if |us| == 0 then Some([])
    else if IsScalar(us[0]) then
      match DecodeUnits16(us[1..])
      case None => None
      case Some(rest) => Some([us[0] as char] + rest)
    else if IsHighSurrogate(us[0]) && |us| >= 2 && IsLowSurrogate(us[1]) then
      var cp := 0x1_0000 + (us[0] - 0xD800) * 0x400 + (us[1] - 0xDC00);
      match DecodeUnits16(us[2..])
      case None => None
      case Some(rest) => Some([cp as char] + rest)
    else None
  }

  function EncodeChar16(c: char): (us: seq<nat>)
    ensures |us| == 1 || |us| == 2
  {
    var n := c as int;
    if n < 0x1_0000 then [n]
    else [0xD800 + (n - 0x1_0000) / 0x400, 0xDC00 + (n - 0x1_0000) % 0x400]
  }

  function EncodeUnits16(s: string): seq<nat> {
    if |s| == 0 then [] else EncodeChar16(s[0]) + EncodeUnits16(s[1..])
  }

  // ---------------------------------------------------------------------------
  // The codecs
  // ---------------------------------------------------------------------------

  /** `bytes.decode(Name(e))`: None where Python raises UnicodeDecodeError. */
  function Decode(e: Encoding, b: seq<byte>): Option<string> {
    match e
    case UTF8 => Utf8.Decode(b)
    case UTF16LE | UTF16BE =>
      var us := BytesToUnits(b, 2, IsBigEndian(e));
      if us.None? then None else DecodeUnits16(us.value)
    case UTF32LE | UTF32BE =>
      var us := BytesToUnits(b, 4, IsBigEndian(e));
      if us.None? then None else DecodeUnits32(us.value)
  }

  /** `str.encode(Name(e))`; total on scalar-value strings. */
  function Encode(e: Encoding, s: string): seq<byte> {
    match e
    case UTF8 => Utf8.Encode(s)
    case UTF16LE | UTF16BE => UnitsToBytes(EncodeUnits16(s), 2, IsBigEndian(e))
    case UTF32LE | UTF32BE => UnitsToBytes(EncodeUnits32(s), 4, IsBigEndian(e))
  }

  // ---------------------------------------------------------------------------
  // Round trips
  // ---------------------------------------------------------------------------

  lemma {:induction false} Units32RoundTrip(s: string)
    ensures DecodeUnits32(EncodeUnits32(s)) == Some(s)
    ensures forall i :: 0 <= i < |s| ==> EncodeUnits32(s)[i] < Pow256(4)
  {
    if |s| > 0 {
      Units32RoundTrip(s[1..]);
      assert EncodeUnits32(s)[1..] == EncodeUnits32(s[1..]);
      assert [s[0]] + s[1..] == s;
    }
  }

  lemma {:induction false} Scalars32RoundTrip(us: seq<nat>)
    requires DecodeUnits32(us).Some?
    ensures EncodeUnits32(DecodeUnits32(us).value) == us
  {
    if |us| > 0 {
      Scalars32RoundTrip(us[1..]);
      var t := DecodeUnits32(us).value;
      assert t[1..] == DecodeUnits32(us[1..]).value;
    }
  }

  /** A surrogate pair decodes to the character it was encoded from. */
  lemma SurrogatePair(c: char)
    requires c as int >= 0x1_0000
    ensures IsHighSurrogate(EncodeChar16(c)[0]) && IsLowSurrogate(EncodeChar16(c)[1])
    ensures 0x1_0000 + (EncodeChar16(c)[0] - 0xD800) * 0x400 + (EncodeChar16(c)[1] - 0xDC00) == c as int
  {
    var m := c as int - 0x1_0000;
    assert m == m / 0x400 * 0x400 + m % 0x400;
  }

  lemma {:induction false} Units16RoundTrip(s: string)
    ensures DecodeUnits16(EncodeUnits16(s)) == Some(s)
    ensures forall i :: 0 <= i < |EncodeUnits16(s)| ==> EncodeUnits16(s)[i] < Pow256(2)
  {
    if |s| > 0 {
      var e := EncodeChar16(s[0]);
      var us := EncodeUnits16(s);
      Units16RoundTrip(s[1..]);
      assert us[|e|..] == EncodeUnits16(s[1..]);
      if |e| == 2 {
        SurrogatePair(s[0]);
      }
      assert [s[0]] + s[1..] == s;
      assert forall i :: |e| <= i < |us| ==> us[i] == EncodeUnits16(s[1..])[i - |e|];
    }
  }

  lemma {:induction false} Scalars16RoundTrip(us: seq<nat>)
    requires forall i :: 0 <= i < |us| ==> us[i] < Pow256(2)
    requires DecodeUnits16(us).Some?
    ensures EncodeUnits16(DecodeUnits16(us).value) == us
    decreases |us|
  {
    if |us| > 0 {
      var t := DecodeUnits16(us).value;
      if IsScalar(us[0]) {
        Scalars16RoundTrip(us[1..]);
        assert t[1..] == DecodeUnits16(us[1..]).value;
        assert us == [us[0]] + us[1..];
      } else {
        Scalars16RoundTrip(us[2..]);
        assert t[1..] == DecodeUnits16(us[2..]).value;
        var m := t[0] as int - 0x1_0000;
        assert m == (us[0] - 0xD800) * 0x400 + (us[1] - 0xDC00);
        assert m / 0x400 == us[0] - 0xD800 && m % 0x400 == us[1] - 0xDC00;
        assert us == [us[0], us[1]] + us[2..];
      }
    }
  }

  /** Decoding what a codec encoded gives the text back, for all five encodings. */
  lemma DecodeEncode(e: Encoding, s: string)
    ensures Decode(e, Encode(e, s)) == Some(s)
  {
    match e
    case UTF8 => Utf8.DecodeEncode(s);
    case UTF16LE | UTF16BE =>
      Units16RoundTrip(s);
      UnitsRoundTrip(EncodeUnits16(s), 2, IsBigEndian(e));
    case UTF32LE | UTF32BE =>
      Units32RoundTrip(s);
      UnitsRoundTrip(EncodeUnits32(s), 4, IsBigEndian(e));
  }

  /** Every codec is strict: bytes it accepts are re-encoded to exactly those bytes. */
  lemma EncodeDecode(e: Encoding, b: seq<byte>)
    requires Decode(e, b).Some?
    ensures Encode(e, Decode(e, b).value) == b
  {
    match e
    case UTF8 => Utf8.EncodeDecode(b);
    case UTF16LE | UTF16BE =>
      var us := BytesToUnits(b, 2, IsBigEndian(e)).value;
      Scalars16RoundTrip(us);
      BytesRoundTrip(b, 2, IsBigEndian(e));
    case UTF32LE | UTF32BE =>
      var us := BytesToUnits(b, 4, IsBigEndian(e)).value;
      Scalars32RoundTrip(us);
      BytesRoundTrip(b, 4, IsBigEndian(e));
  }
}
