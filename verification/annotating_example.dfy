/**
 A worked example of identifier annotation: the one-line source
 `foo = foo + 1` with both occurrences of `foo` reported by the parser.
 */
module AnnotatingExample {
  import opened Wrappers
  import opened Utf8
  import opened Lines
  import opened Parsing
  import opened Annotating

  const ExampleSource: seq<byte> :=
    [0x66, 0x6F, 0x6F, 0x20, 0x3D, 0x20, 0x66, 0x6F, 0x6F, 0x20, 0x2B, 0x20, 0x31]
  const ExampleMarker0: seq<byte> := [0xC2, 0xAB, 0x30, 0x7C, 0x66, 0x6F, 0x6F, 0xC2, 0xBB]
  const ExampleMarker1: seq<byte> := [0xC2, 0xAB, 0x31, 0x7C, 0x66, 0x6F, 0x6F, 0xC2, 0xBB]

  /** The two markers of the example. */
  lemma ExampleMarkers(e0: Entry, e1: Entry)
    requires e0 == Entry(0, 0, "foo", 0) && e1 == Entry(0, 6, "foo", 1)
    ensures TextLen(e0) == 3 && TextLen(e1) == 3
    ensures Replacement(e0) == ExampleMarker0 && Replacement(e1) == ExampleMarker1
  {
    FooText();
    MarkerStrings();
    MarkerTexts();
  }

  lemma FooText()
    ensures Utf8.Encode("foo") == [0x66, 0x6F, 0x6F]
  {
  }

  lemma MarkerStrings()
    ensures FormatIdentifier(0, "foo") == "\U{00AB}0|foo\U{00BB}"
    ensures FormatIdentifier(1, "foo") == "\U{00AB}1|foo\U{00BB}"
  {
    assert Decimal(0) == "0" && Decimal(1) == "1";
  }

  /** The row of the example, spliced by the reference. */
  lemma {:induction false} ExampleRow(src: seq<byte>, es: seq<Entry>)
    requires |src| == 13 && src[3..6] == [0x20, 0x3D, 0x20] && src[9..] == [0x20, 0x2B, 0x20, 0x31]
    requires |es| == 2 && es[0].col == 0 && es[1].col == 6 && TextLen(es[0]) == 3 && TextLen(es[1]) == 3
    requires Replacement(es[0]) == ExampleMarker0 && Replacement(es[1]) == ExampleMarker1
    ensures Fits(src, es, 0)
    ensures Ref(src, es, 0) == ExampleMarker0 + [0x20, 0x3D, 0x20] + ExampleMarker1 + [0x20, 0x2B, 0x20, 0x31]
  {
    var e1 := es[1];
    assert es[1..] == [e1] && [e1][1..] == [];
    assert Fits(src, [e1], 3);
    var tail := Ref(src, [e1], 3);
    assert Ref(src, [e1][1..], 9) == src[9..];
    assert tail == src[3..6] + ExampleMarker1 + src[9..];
    assert Ref(src, es, 0) == src[0..0] + ExampleMarker0 + tail;
    assert src[0..0] == [];
  }

  /** The example at the level of `annotate_source`'s loop, once the identifiers are numbered. */
  lemma {:induction false} ExampleLoop(src: seq<byte>, es: seq<Entry>)
    requires |src| == 13
    requires src[3..6] == [0x20, 0x3D, 0x20] && src[9..] == [0x20, 0x2B, 0x20, 0x31]
    requires |es| == 2 && es[0].row == 0 && es[1].row == 0
    requires es[0].col == 0 && es[1].col == 6 && TextLen(es[0]) == 3 && TextLen(es[1]) == 3
    requires Replacement(es[0]) == ExampleMarker0 && Replacement(es[1]) == ExampleMarker1
    ensures AnnotateRow(src, es, 0)
         == ExampleMarker0 + [0x20, 0x3D, 0x20] + ExampleMarker1 + [0x20, 0x2B, 0x20, 0x31]
  {
    GroupOneRow(es);
    ExampleRow(src, es);
    AnnotateRowMatchesReference(src, es, 0);
  }

  /** The example: both occurrences of `foo` in a one-line source
      shaped like `foo = foo + 1`, numbered from 0, give `«0|foo» = «1|foo» + 1`
      and next id 2 (`ExampleSourceText` and `ExampleOutputText` show the literal texts have these bytes). */
  lemma {:induction false} AnnotateExample(src: seq<byte>, occs: seq<Occurrence>)
    requires |src| == 13 && NoBreak(src)
    requires src[3..6] == [0x20, 0x3D, 0x20] && src[9..] == [0x20, 0x2B, 0x20, 0x31]
    requires occs == [Occurrence(1, 1, "foo"), Occurrence(1, 7, "foo")]
    ensures AnnotateOccurrences(src, occs, 0)
         == Ok((ExampleMarker0 + [0x20, 0x3D, 0x20] + ExampleMarker1 + [0x20, 0x2B, 0x20, 0x31], 2))
  {
    var e0, e1 := Entry(0, 0, "foo", 0), Entry(0, 6, "foo", 1);
    assert Number(occs, 0) == [e0, e1];
    ExampleMarkers(e0, e1);
    AnnotateSingleLine(src, occs, 0);
    ExampleLoop(src, [e0, e1]);
  }

  /** The source text of the example, as UTF-8. */
  lemma ExampleSourceText(t: string)
    requires t == "foo = foo + 1"
    ensures Utf8.Encode(t) == ExampleSource
  {
    EncodeAscii(t);
  }

  /** The two markers as text. */
  lemma MarkerTexts()
    ensures Encode("\U{00AB}0|foo\U{00BB}") == ExampleMarker0
    ensures Encode("\U{00AB}1|foo\U{00BB}") == ExampleMarker1
  {
    MarkerText("\U{00AB}0|foo\U{00BB}", '0');
    MarkerText("\U{00AB}1|foo\U{00BB}", '1');
  }

  /** A one-digit marker around `foo`: the guillemets take two bytes each, the rest one. */
  lemma MarkerText(m: string, d: char)
    requires '0' <= d <= '9'
    requires m == "\U{00AB}" + [d] + "|foo" + "\U{00BB}"
    ensures Encode(m) == [0xC2, 0xAB, d as int, 0x7C, 0x66, 0x6F, 0x6F, 0xC2, 0xBB]
  {
    var mid := [d] + "|foo";
    assert m == "\U{00AB}" + mid + "\U{00BB}";
    EncodeAppend("\U{00AB}" + mid, "\U{00BB}");
    EncodeAppend("\U{00AB}", mid);
    EncodeAscii(mid);
    assert Encode(mid) == [d as int, 0x7C, 0x66, 0x6F, 0x6F];
    assert Encode("\U{00AB}") == [0xC2, 0xAB];
    assert Encode("\U{00BB}") == [0xC2, 0xBB];
  }

  /** The annotated text of the example, as UTF-8. */
  lemma ExampleOutputText(m0: string, m1: string)
    requires m0 == "\U{00AB}0|foo\U{00BB}" && m1 == "\U{00AB}1|foo\U{00BB}"
    ensures Utf8.Encode(m0 + " = " + m1 + " + 1")
         == ExampleMarker0 + [0x20, 0x3D, 0x20] + ExampleMarker1 + [0x20, 0x2B, 0x20, 0x31]
  {
    MarkerTexts();
    EncodeAppend(m0 + " = " + m1, " + 1");
    EncodeAppend(m0 + " = ", m1);
    EncodeAppend(m0, " = ");
    assert Encode(" = ") == [0x20, 0x3D, 0x20];
    assert Encode(" + 1") == [0x20, 0x2B, 0x20, 0x31];
  }
}
