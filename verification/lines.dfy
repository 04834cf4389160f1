/**
 `bytes.splitlines(keepends=True)` and `b"".join`, which the annotator uses to
 cut the working buffer into rows and glue it back (autosg/annotating.py).
 For bytes the line boundaries are "\n", "\r\n" and a lone "\r".
 */
module Lines {
  import opened Utf8

  const LF: byte := 0x0A
  const CR: byte := 0x0D

  predicate IsBreak(b: byte) {
    b == LF || b == CR
  }

  predicate NoBreak(s: seq<byte>) {
    forall i :: 0 <= i < |s| ==> !IsBreak(s[i])
  }

  /** Index of the first line-break byte at or after `i`, or `|s|` when there is none. */
  function FirstBreak(s: seq<byte>, i: nat): (k: nat)
    requires i <= |s|
    ensures i <= k <= |s|
    ensures k < |s| ==> IsBreak(s[k])
    ensures NoBreak(s[i..k])
    decreases |s| - i
  {
    if i == |s| then i
    else if IsBreak(s[i]) then i
    else
      var k := FirstBreak(s, i + 1);
      assert s[i..k] == [s[i]] + s[i + 1..k];
      k
  }

  /** Length of the first line of `s`, terminator included. */
  function FirstLineLength(s: seq<byte>): (n: nat)
    requires |s| > 0
    ensures 0 < n <= |s|
  {
    var k := FirstBreak(s, 0);
    if k == |s| then k
    else if s[k] == CR && k + 1 < |s| && s[k + 1] == LF then k + 2
    else k + 1
  }

  /** `s.splitlines(keepends=True)`. */
  function SplitLines(s: seq<byte>): (r: seq<seq<byte>>)
    ensures forall i :: 0 <= i < |r| ==> |r[i]| > 0
    decreases |s|
  {
    if |s| == 0 then []
    else
      var n := FirstLineLength(s);
      [s[..n]] + SplitLines(s[n..])
  }

  /** `b"".join(lines)`. */
  function Join(lines: seq<seq<byte>>): seq<byte> {
    if |lines| == 0 then [] else lines[0] + Join(lines[1..])
  }

  /** The text of a line without its terminator. */
  function Body(l: seq<byte>): seq<byte> {
    if |l| >= 2 && l[|l| - 2] == CR && l[|l| - 1] == LF then l[..|l| - 2]
    else if |l| >= 1 && IsBreak(l[|l| - 1]) then l[..|l| - 1]
    else l
  }

  /** A line as splitlines cuts it: non-empty, no break inside its body, and
      ended by a terminator unless it is the last one. */
  predicate IsLine(l: seq<byte>, last: bool) {
    && |l| > 0
    && NoBreak(Body(l))
    && (!last ==> IsBreak(l[|l| - 1]))
  }

  // ---------------------------------------------------------------------------
  // Properties
  // ---------------------------------------------------------------------------

  /** Joining the pieces gives back the input. */
  lemma {:induction false} JoinSplitLines(s: seq<byte>)
    ensures Join(SplitLines(s)) == s
    decreases |s|
  {
    if |s| > 0 {
      var n := FirstLineLength(s);
      JoinSplitLines(s[n..]);
      assert SplitLines(s)[1..] == SplitLines(s[n..]);
      assert s == s[..n] + s[n..];
    }
  }

  /** The first piece is a line in the sense of `IsLine`. */
  lemma FirstLineIsLine(s: seq<byte>)
    requires |s| > 0
    ensures IsLine(s[..FirstLineLength(s)], FirstLineLength(s) == |s|)
  {
    var k := FirstBreak(s, 0);
    var n := FirstLineLength(s);
    var l := s[..n];
    if k == |s| {
      assert l == s[0..k];
    } else if s[k] == CR && k + 1 < |s| && s[k + 1] == LF {
      assert Body(l) == s[0..k];
    } else {
      assert Body(l) == s[0..k];
    }
  }

  /** Every piece is a line; only the last may lack a terminator; and a piece
      ending in a lone CR is never followed by one starting with LF (that pair
      is one CRLF terminator). */
  lemma {:induction false} SplitLinesShape(s: seq<byte>)
    ensures forall i :: 0 <= i < |SplitLines(s)| ==> IsLine(SplitLines(s)[i], i == |SplitLines(s)| - 1)
    ensures forall i :: 0 <= i < |SplitLines(s)| - 1 && SplitLines(s)[i][|SplitLines(s)[i]| - 1] == CR
              ==> SplitLines(s)[i + 1][0] != LF
    decreases |s|
  {
    if |s| > 0 {
      var n := FirstLineLength(s);
      var r := SplitLines(s);
      var rest := SplitLines(s[n..]);
      assert r == [s[..n]] + rest;
      SplitLinesShape(s[n..]);
      FirstLineIsLine(s);
      assert n == |s| <==> |rest| == 0;
      if |rest| > 0 {
        assert rest[0] == s[n..][..FirstLineLength(s[n..])];
        assert rest[0][0] == s[n];
      }
      forall i | 0 <= i < |r|
        ensures IsLine(r[i], i == |r| - 1)
      {
        if i > 0 { assert r[i] == rest[i - 1]; }
      }
    }
  }

  /** A non-empty text without line breaks is one line. */
  lemma SingleLine(s: seq<byte>)
    requires |s| > 0 && NoBreak(s)
    ensures SplitLines(s) == [s]
  {
    assert FirstBreak(s, 0) == |s|;
    assert s[..|s|] == s && s[|s|..] == [];
  }
}
