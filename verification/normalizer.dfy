/**
 Encoding detection and the canonical UTF-8 working buffer
 (autosg/annotating.py, `FileEncoding` to `encode_output`).
 */
module Normalizer {
  import opened Wrappers
  import opened Utf8
  import opened Codecs

  /** The detected encoding of a file and the byte-order mark to write back
      (empty when the file had none). */
  datatype FileEncoding = FileEncoding(encoding: Encoding, bom: seq<byte>)

  /** Why a file cannot be brought into the working buffer, or back out of it. */
  datatype CodecError =
    | Unsupported              // no mark and not valid UTF-8: `read_source_utf8` returns None
    | DecodeFailed(e: Encoding) // UnicodeDecodeError raised while transcoding

  /** The marks in the order they are tried. UTF-32-LE comes before UTF-16-LE
      because the UTF-16-LE mark is a prefix of the UTF-32-LE one. */
  const BomTable: seq<(seq<byte>, Encoding)> := [
    ([0xFF, 0xFE, 0x00, 0x00], UTF32LE),
    ([0x00, 0x00, 0xFE, 0xFF], UTF32BE),
    ([0xFF, 0xFE], UTF16LE),
    ([0xFE, 0xFF], UTF16BE),
    ([0xEF, 0xBB, 0xBF], UTF8)
  ]

  /** `s.startswith(p)`. */
  predicate StartsWith(s: seq<byte>, p: seq<byte>) {
    |p| <= |s| && s[..|p|] == p
  }

  /** Entry `k` is the first one of the table whose mark starts `raw`. */
  predicate FirstMatch(raw: seq<byte>, k: int) {
    && 0 <= k < |BomTable|
    && StartsWith(raw, BomTable[k].0)
    && forall j :: 0 <= j < k ==> !StartsWith(raw, BomTable[j].0)
  }

  predicate NoMark(raw: seq<byte>) {
    forall j :: 0 <= j < |BomTable| ==> !StartsWith(raw, BomTable[j].0)
  }

  /** The loop over the table, from entry `i` on. */
  function MatchFrom(raw: seq<byte>, i: nat): (r: Option<nat>)
    requires i <= |BomTable|
    requires forall j :: 0 <= j < i ==> !StartsWith(raw, BomTable[j].0)
    ensures r.Some? ==> FirstMatch(raw, r.value)
    ensures r.None? ==> NoMark(raw)
    decreases |BomTable| - i
  {
    if i == |BomTable| then None
    else if StartsWith(raw, BomTable[i].0) then Some(i)
    else MatchFrom(raw, i + 1)
  }

  /** `detect_encoding`: the first table entry whose mark starts the input;
      with no mark, UTF-8 without a mark when the input is valid UTF-8, else None. */
  function DetectEncoding(raw: seq<byte>): (r: Option<FileEncoding>)
    ensures forall k :: FirstMatch(raw, k) ==> r == Some(FileEncoding(BomTable[k].1, BomTable[k].0))
    ensures NoMark(raw) ==> r == (if Utf8.IsValid(raw) then Some(FileEncoding(UTF8, [])) else None)
    ensures r.Some? ==> StartsWith(raw, r.value.bom)
  {
    match MatchFrom(raw, 0)
    case Some(k) =>
      assert forall k' :: FirstMatch(raw, k') ==> k' == k;
      Some(FileEncoding(BomTable[k].1, BomTable[k].0))
    case None =>
      assert forall k :: !FirstMatch(raw, k);
      if Utf8.IsValid(raw) then Some(FileEncoding(UTF8, [])) else None
  }

  /** `read_source_utf8` after the file read: strips the mark and transcodes
      the rest to UTF-8. A UTF-8 payload is passed through unchecked. */
  function ReadSourceUtf8(raw: seq<byte>): (r: Result<(seq<byte>, FileEncoding), CodecError>)
    ensures r.Ok? ==> DetectEncoding(raw) == Some(r.value.1)
    ensures r.Ok? && r.value.1.encoding == UTF8 ==> r.value.0 == raw[|r.value.1.bom|..]
    ensures r.Ok? && r.value.1.encoding != UTF8 ==> Utf8.IsValid(r.value.0)
    ensures r.Ok? && r.value.1.encoding != UTF8 ==>
      Utf8.Decode(r.value.0) == Codecs.Decode(r.value.1.encoding, raw[|r.value.1.bom|..])
    ensures r == Err(Unsupported) <==> DetectEncoding(raw).None?
    ensures r.Err? && r.error.DecodeFailed? <==>
      && DetectEncoding(raw).Some?
      && DetectEncoding(raw).value.encoding != UTF8
      && Codecs.Decode(DetectEncoding(raw).value.encoding, raw[|DetectEncoding(raw).value.bom|..]).None?
  {
    match DetectEncoding(raw)
    case None => Err(Unsupported)
    case Some(enc) =>
      var payload := raw[|enc.bom|..];
      if enc.encoding == UTF8 then Ok((payload, enc))
      else match Codecs.Decode(enc.encoding, payload)
        case None => Err(DecodeFailed(enc.encoding))
        case Some(text) =>
          Utf8.DecodeEncode(text);
          Utf8.EncodeIsValid(text);
          Ok((Utf8.Encode(text), enc))
  }

  /** `encode_output`: transcodes the working buffer back and puts the mark in front. */
  function EncodeOutput(utf8: seq<byte>, enc: FileEncoding): (r: Result<seq<byte>, CodecError>)
    ensures r.Ok? ==> StartsWith(r.value, enc.bom)
    ensures enc.encoding == UTF8 ==> r == Ok(enc.bom + utf8)
    ensures r.Err? <==> enc.encoding != UTF8 && !Utf8.IsValid(utf8)
    ensures r.Ok? && enc.encoding != UTF8 ==>
      |enc.bom| <= |r.value| && Codecs.Decode(enc.encoding, r.value[|enc.bom|..]) == Utf8.Decode(utf8)
  {
    if enc.encoding == UTF8 then Ok(enc.bom + utf8)
    else match Utf8.Decode(utf8)
      case None => Err(DecodeFailed(UTF8))
      case Some(text) =>
        var body := Codecs.Encode(enc.encoding, text);
        Codecs.DecodeEncode(enc.encoding, text);
        assert (enc.bom + body)[|enc.bom|..] == body;
        Ok(enc.bom + body)
  }

  // ---------------------------------------------------------------------------
  // Properties
  // ---------------------------------------------------------------------------

  /** Input starting FF FE 00 00 is UTF-32-LE, never UTF-16-LE. */
  lemma Utf32LeWinsOverUtf16Le(raw: seq<byte>)
    requires StartsWith(raw, [0xFF, 0xFE, 0x00, 0x00])
    ensures DetectEncoding(raw) == Some(FileEncoding(UTF32LE, [0xFF, 0xFE, 0x00, 0x00]))
  {
    assert FirstMatch(raw, 0);
  }

  /** FF FE not followed by 00 00 is UTF-16-LE. */
  lemma Utf16LeMark(raw: seq<byte>)
    requires StartsWith(raw, [0xFF, 0xFE]) && !StartsWith(raw, [0xFF, 0xFE, 0x00, 0x00])
    ensures DetectEncoding(raw) == Some(FileEncoding(UTF16LE, [0xFF, 0xFE]))
  {
    assert raw[..2] == [0xFF, 0xFE];
    assert !StartsWith(raw, [0x00, 0x00, 0xFE, 0xFF]) by {
      if |raw| >= 4 { assert raw[..4][0] == raw[0]; }
    }
    assert FirstMatch(raw, 2);
  }

  /** A UTF-8 mark is accepted whatever follows it, valid UTF-8 or not. */
  lemma Utf8MarkNotValidated(raw: seq<byte>)
    requires StartsWith(raw, [0xEF, 0xBB, 0xBF])
    ensures DetectEncoding(raw) == Some(FileEncoding(UTF8, [0xEF, 0xBB, 0xBF]))
    ensures ReadSourceUtf8(raw) == Ok((raw[3..], FileEncoding(UTF8, [0xEF, 0xBB, 0xBF])))
  {
    assert raw[..3] == [0xEF, 0xBB, 0xBF];
    assert raw[0] == 0xEF;
    assert FirstMatch(raw, 4);
  }

  /** The detected mark is a table mark, and it determines the encoding. */
  lemma MarkDeterminesEncoding(raw: seq<byte>)
    requires DetectEncoding(raw).Some?
    ensures var enc := DetectEncoding(raw).value;
      || enc == FileEncoding(UTF8, [])
      || exists k :: 0 <= k < |BomTable| && BomTable[k] == (enc.bom, enc.encoding)
  {
    match MatchFrom(raw, 0)
    case Some(k) =>
    case None =>
  }

  /** Round trip: every file the normaliser accepts is written back byte for byte,
      for all five encodings, with or without a mark. */
  lemma {:induction false} RoundTrip(raw: seq<byte>)
    requires ReadSourceUtf8(raw).Ok?
    ensures EncodeOutput(ReadSourceUtf8(raw).value.0, ReadSourceUtf8(raw).value.1) == Ok(raw)
  {
    var enc := DetectEncoding(raw).value;
    var payload := raw[|enc.bom|..];
    assert raw == enc.bom + payload;
    if enc.encoding != UTF8 {
      var text := Codecs.Decode(enc.encoding, payload).value;
      Utf8.DecodeEncode(text);
      Codecs.EncodeDecode(enc.encoding, payload);
    }
  }

  /** The mark order has a price: a UTF-16-LE file whose first character is U+0000
      carries FF FE 00 00 and is read as UTF-32-LE. Here the payload is not a
      whole number of 4-byte units, so decoding fails. */
  lemma Utf16LeLeadingNulMisread()
    ensures EncodeOutput([0x00, 0x41], FileEncoding(UTF16LE, [0xFF, 0xFE]))
         == Ok([0xFF, 0xFE, 0x00, 0x00, 0x41, 0x00])
    ensures ReadSourceUtf8([0xFF, 0xFE, 0x00, 0x00, 0x41, 0x00]) == Err(DecodeFailed(UTF32LE))
  {
    var raw: seq<byte> := [0xFF, 0xFE, 0x00, 0x00, 0x41, 0x00];
    var two: seq<byte> := [0x00, 0x41];
    var one: seq<byte> := [0x41];
    assert Step(two) == Char(1, 0) && two[1..] == one;
    assert Step(one) == Char(1, 0x41) && one[1..] == [];
    assert Utf8.Decode(one[1..]) == Some([]);
    assert (0x41 as char) == 'A' && (0 as char) == '\0';
    assert Utf8.Decode(one) == Some([0x41 as char] + []);
    assert [0x41 as char] + [] == ['A'];
    assert Utf8.Decode(two) == Some([0 as char] + ['A']);
    assert [0 as char] + ['A'] == ['\0', 'A'];
    var text := ['\0', 'A'];
    assert EncodeUnits16(text[1..][1..]) == [];
    assert EncodeUnits16(text[1..]) == [0x41];
    assert EncodeUnits16(text) == [0, 0x41];
    assert LittleEndianBytes(0, 2) == [0, 0];
    assert LittleEndianBytes(0x41, 2) == [0x41, 0];
    assert UnitsToBytes([0, 0x41], 2, false) == [0, 0] + UnitsToBytes([0x41], 2, false);
    assert UnitsToBytes([0x41], 2, false) == [0x41, 0] + UnitsToBytes([], 2, false);
    assert Codecs.Encode(UTF16LE, text) == [0x00, 0x00, 0x41, 0x00];
    var mark: seq<byte> := [0xFF, 0xFE];
    assert EncodeOutput(two, FileEncoding(UTF16LE, mark)) == Ok(mark + [0x00, 0x00, 0x41, 0x00]);
    assert mark + [0x00, 0x00, 0x41, 0x00] == raw;
    Utf32LeWinsOverUtf16Le(raw);
    assert raw[4..] == [0x41, 0x00];
    assert BytesToUnits([0x41, 0x00], 4, false) == None;
  }

  /** The same mark order can also misread silently: the UTF-16-LE text
      U+0000 'A' LF is written FF FE 00 00 41 00 0A 00, whose 4-byte payload is
      the valid UTF-32-LE scalar U+A0041, so the file is read without error as
      that one character. */
  lemma Utf16LeLeadingNulSilentMisread()
    ensures ReadSourceUtf8([0xFF, 0xFE, 0x00, 0x00, 0x41, 0x00, 0x0A, 0x00])
         == Ok((Utf8.Encode(['\U{A0041}']), FileEncoding(UTF32LE, [0xFF, 0xFE, 0x00, 0x00])))
  {
    var raw: seq<byte> := [0xFF, 0xFE, 0x00, 0x00, 0x41, 0x00, 0x0A, 0x00];
    var payload: seq<byte> := [0x41, 0x00, 0x0A, 0x00];
    Utf32LeWinsOverUtf16Le(raw);
    assert raw[4..] == payload;
    assert LittleEndianValue(payload) == 0xA0041 by {
      assert payload[1..] == [0x00, 0x0A, 0x00] && payload[1..][1..] == [0x0A, 0x00];
      assert LittleEndianValue([0x0A, 0x00]) == 0x0A;
    }
    assert payload[..4] == payload && payload[4..] == [];
    assert BytesToUnits(payload[4..], 4, false) == Some([]);
    assert UnitValue(payload[..4], false) == 0xA0041;
    assert BytesToUnits(payload, 4, false) == Some([0xA0041] + []);
    var us: seq<nat> := [0xA0041];
    assert us[1..] == [] && DecodeUnits32(us[1..]) == Some([]);
    assert IsScalar(us[0]);
    assert DecodeUnits32(us) == Some([0xA0041 as char] + []);
    assert [0xA0041 as char] + [] == [0xA0041 as char];
    assert (0xA0041 as char) == '\U{A0041}';
  }

  /** The file of `Utf16LeLeadingNulSilentMisread` is what writing U+0000 'A' LF
      back as UTF-16-LE produces. */
  lemma Utf16LeNulTextBytes()
    ensures EncodeOutput([0x00, 0x41, 0x0A], FileEncoding(UTF16LE, [0xFF, 0xFE]))
         == Ok([0xFF, 0xFE, 0x00, 0x00, 0x41, 0x00, 0x0A, 0x00])
  {
    var text := [0 as char, 0x41 as char, 0x0A as char];
    NulTextUtf8(text);
    NulTextUtf16Le(text);
    var mark: seq<byte> := [0xFF, 0xFE];
    assert mark + [0x00, 0x00, 0x41, 0x00, 0x0A, 0x00] == [0xFF, 0xFE, 0x00, 0x00, 0x41, 0x00, 0x0A, 0x00];
  }

  lemma NulTextUtf8(text: string)
    requires text == [0 as char, 0x41 as char, 0x0A as char]
    ensures Utf8.Decode([0x00, 0x41, 0x0A]) == Some(text)
  {
    var b: seq<byte> := [0x00, 0x41, 0x0A];
    var b1: seq<byte> := [0x41, 0x0A];
    var b2: seq<byte> := [0x0A];
    assert Step(b2) == Char(1, 0x0A) && b2[1..] == [];
    assert Utf8.Decode(b2[1..]) == Some([]);
    assert Utf8.Decode(b2) == Some([0x0A as char] + []);
    assert [0x0A as char] + [] == [0x0A as char];
    assert Step(b1) == Char(1, 0x41) && b1[1..] == b2;
    assert Utf8.Decode(b1) == Some([0x41 as char] + [0x0A as char]);
    assert [0x41 as char] + [0x0A as char] == [0x41 as char, 0x0A as char];
    assert Step(b) == Char(1, 0) && b[1..] == b1;
    assert Utf8.Decode(b) == Some([0 as char] + [0x41 as char, 0x0A as char]);
    assert [0 as char] + [0x41 as char, 0x0A as char] == text;
  }

  lemma NulTextUtf16Le(text: string)
    requires text == [0 as char, 0x41 as char, 0x0A as char]
    ensures Codecs.Encode(UTF16LE, text) == [0x00, 0x00, 0x41, 0x00, 0x0A, 0x00]
  {
    assert text[1..] == [0x41 as char, 0x0A as char] && text[1..][1..] == [0x0A as char];
    assert EncodeUnits16(text[1..][1..][1..]) == [];
    assert EncodeUnits16(text[1..][1..]) == [0x0A];
    assert EncodeUnits16(text[1..]) == [0x41, 0x0A];
    assert EncodeUnits16(text) == [0, 0x41, 0x0A];
    assert LittleEndianBytes(0, 2) == [0, 0];
    assert LittleEndianBytes(0x41, 2) == [0x41, 0];
    assert LittleEndianBytes(0x0A, 2) == [0x0A, 0];
    assert UnitsToBytes([0x0A], 2, false) == [0x0A, 0] + UnitsToBytes([], 2, false);
    assert UnitsToBytes([0x41, 0x0A], 2, false) == [0x41, 0] + UnitsToBytes([0x0A], 2, false);
    assert UnitsToBytes([0, 0x41, 0x0A], 2, false) == [0, 0] + UnitsToBytes([0x41, 0x0A], 2, false);
  }
}
