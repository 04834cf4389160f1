/**
 Identifier annotation (autosg/annotating.py, `_format_identifier` and
 `annotate_source`): every identifier the parser reports is replaced, in the
 UTF-8 working buffer, by a marker «id|text» carrying a fresh numeric id.
 */
module Annotating {
  import opened Wrappers
  import opened Utf8
  import opened Lines
  import opened Parsing

  // ---------------------------------------------------------------------------
  // Markers
  // ---------------------------------------------------------------------------

  const Open: char := '\U{00AB}'  // «
  const Close: char := '\U{00BB}' // »
  const Bar: char := '|'

  predicate IsDigit(c: char) {
    '0' <= c <= '9'
  }

  predicate AllDigits(s: string) {
    forall i :: 0 <= i < |s| ==> IsDigit(s[i])
  }

  function DigitChar(d: nat): (c: char)
    requires d < 10
    ensures IsDigit(c) && c as int - '0' as int == d
  {
    ('0' as int + d) as char
  }

  /** The decimal digits of a natural number, most significant first, no leading zeros. */
  function Digits(n: nat): (s: string)
    ensures |s| > 0 && AllDigits(s)
    ensures |s| > 1 ==> s[0] != '0'
  {
    if n < 10 then [DigitChar(n)] else Digits(n / 10) + [DigitChar(n % 10)]
  }

  /** `str(n)` for a Python int. */
  function Decimal(n: int): (s: string)
    ensures |s| > 0 && forall i :: 0 <= i < |s| ==> IsDigit(s[i]) || (i == 0 && s[i] == '-')
  {
    if n < 0 then "-" + Digits(-n) else Digits(n)
  }

  /** The value of a string of decimal digits. */
  function DigitsValue(s: string): nat
    requires AllDigits(s)
  {
    if |s| == 0 then 0 else DigitsValue(s[..|s| - 1]) * 10 + (s[|s| - 1] as int - '0' as int)
  }

  /** `int(s)` restricted to what `str` produces: an optional minus sign and digits. */
  function ParseDecimal(s: string): Option<int> {
    if |s| > 1 && s[0] == '-' && AllDigits(s[1..]) then Some(0 - DigitsValue(s[1..]))
    else if |s| > 0 && AllDigits(s) then Some(DigitsValue(s))
    else None
  }

  /** `_format_identifier(ident_id, text)`: «id|text». */
  function FormatIdentifier(id: int, text: string): (s: string)
    ensures |s| == |Decimal(id)| + |text| + 3
    ensures s[0] == Open && s[|s| - 1] == Close && s[|Decimal(id)| + 1] == Bar
  {
    [Open] + Decimal(id) + [Bar] + text + [Close]
  }

  /** Index of the first `c` in `s` at or after `i`, or `|s|`. */
  function IndexOf(s: string, c: char, i: nat): (k: nat)
    requires i <= |s|
    ensures i <= k <= |s| && (k < |s| ==> s[k] == c)
    ensures forall j :: i <= j < k ==> s[j] != c
    decreases |s| - i
  {
    if i == |s| || s[i] == c then i else IndexOf(s, c, i + 1)
  }

  /** Reads a marker back: the id up to the first bar, the text up to the closing mark. */
  function ParseMarker(s: string): Option<(int, string)> {
    if |s| < 2 || s[0] != Open || s[|s| - 1] != Close then None
    else
      var bar := IndexOf(s, Bar, 1);
      if bar >= |s| - 1 then None
      else match ParseDecimal(s[1..bar])
        case None => None
        case Some(id) => Some((id, s[bar + 1..|s| - 1]))
  }

  lemma {:induction false} DigitsRoundTrip(n: nat)
    ensures DigitsValue(Digits(n)) == n
  {
    if n >= 10 {
      var s := Digits(n);
      assert s[..|s| - 1] == Digits(n / 10);
      DigitsRoundTrip(n / 10);
    }
  }

  /** `int(str(n)) == n`. */
  lemma DecimalRoundTrip(n: int)
    ensures ParseDecimal(Decimal(n)) == Some(n)
  {
    if n < 0 {
      DigitsRoundTrip(-n);
      assert Decimal(n)[1..] == Digits(-n);
    } else {
      DigitsRoundTrip(n);
    }
  }

  /** A marker can be read back: the id and the text it was made from, whatever the text holds. */
  lemma ParseFormatIdentifier(id: int, text: string)
    ensures ParseMarker(FormatIdentifier(id, text)) == Some((id, text))
  {
    var s := FormatIdentifier(id, text);
    var d := Decimal(id);
    assert s[1..|d| + 1] == d;
    assert forall j :: 1 <= j < |d| + 1 ==> s[j] == d[j - 1];
    assert IndexOf(s, Bar, 1) == |d| + 1;
    DecimalRoundTrip(id);
    assert s[|d| + 2..|s| - 1] == text;
  }

  /** Different ids give different markers. */
  lemma MarkersDistinct(id1: int, id2: int, t1: string, t2: string)
    requires id1 != id2
    ensures FormatIdentifier(id1, t1) != FormatIdentifier(id2, t2)
  {
    ParseFormatIdentifier(id1, t1);
    ParseFormatIdentifier(id2, t2);
  }

  // ---------------------------------------------------------------------------
  // Entries and the stable descending sort
  // ---------------------------------------------------------------------------

  /** One `by_row` entry: 0-based row and byte column, the text, and its global id. */
  datatype Entry = Entry(row: nat, col: nat, text: string, id: int)

  predicate Positive(occs: seq<Occurrence>) {
    forall i :: 0 <= i < |occs| ==> occs[i].row >= 1 && occs[i].col >= 1
  }

  /** The numbering loop: the k-th identifier gets id `start + k`. */
  function Number(occs: seq<Occurrence>, start: int): (es: seq<Entry>)
    requires Positive(occs)
    ensures |es| == |occs|
    ensures forall k :: 0 <= k < |es| ==>
      es[k] == Entry(occs[k].row - 1, occs[k].col - 1, occs[k].text, start + k)
  {
    if |occs| == 0 then []
    else [Entry(occs[0].row - 1, occs[0].col - 1, occs[0].text, start)] + Number(occs[1..], start + 1)
  }

  /** Inserts `e` before the first element whose column is not greater than its own. */
  function Insert(e: Entry, s: seq<Entry>): (r: seq<Entry>)
    ensures multiset(r) == multiset(s) + multiset{e}
  {
    if |s| == 0 || e.col >= s[0].col then [e] + s
    else
      assert s == [s[0]] + s[1..];
      [s[0]] + Insert(e, s[1..])
  }

  /** `sorted(entries, key=lambda e: e[0], reverse=True)`. */
  function SortDesc(es: seq<Entry>): (r: seq<Entry>)
    ensures multiset(r) == multiset(es)
  {
    if |es| == 0 then []
    else
      assert es == [es[0]] + es[1..];
      Insert(es[0], SortDesc(es[1..]))
  }

  predicate Descending(s: seq<Entry>) {
    forall i, j :: 0 <= i < j < |s| ==> s[i].col >= s[j].col
  }

  /** Columns strictly increase. */
  predicate Ascending(s: seq<Entry>) {
    forall i, j :: 0 <= i < j < |s| ==> s[i].col < s[j].col
  }

  /** The entries of `s` at column `c`, in order. */
  function AtCol(s: seq<Entry>, c: nat): seq<Entry> {
    if |s| == 0 then [] else (if s[0].col == c then [s[0]] else []) + AtCol(s[1..], c)
  }

  /** Inserting keeps every column at or below a bound that all elements respect. */
  lemma {:induction false} InsertBounded(e: Entry, s: seq<Entry>, b: nat)
    requires e.col <= b && forall i :: 0 <= i < |s| ==> s[i].col <= b
    ensures forall i :: 0 <= i < |Insert(e, s)| ==> Insert(e, s)[i].col <= b
  {
    if |s| > 0 && e.col < s[0].col {
      InsertBounded(e, s[1..], b);
      var r := Insert(e, s[1..]);
      assert Insert(e, s) == [s[0]] + r;
    }
  }

  lemma {:induction false} InsertDescending(e: Entry, s: seq<Entry>)
    requires Descending(s)
    ensures Descending(Insert(e, s))
  {
    if |s| > 0 && e.col < s[0].col {
      InsertDescending(e, s[1..]);
      InsertBounded(e, s[1..], s[0].col);
      var r := Insert(e, s[1..]);
      assert Insert(e, s) == [s[0]] + r;
    }
  }

  /** The result is in descending column order and a permutation of the input. */
  lemma {:induction false} SortDescSorted(es: seq<Entry>)
    ensures Descending(SortDesc(es)) && multiset(SortDesc(es)) == multiset(es)
  {
    if |es| > 0 {
      SortDescSorted(es[1..]);
      InsertDescending(es[0], SortDesc(es[1..]));
    }
  }

  lemma {:induction false} InsertAtCol(e: Entry, s: seq<Entry>, c: nat)
    requires Descending(s)
    ensures AtCol(Insert(e, s), c) == if e.col == c then [e] + AtCol(s, c) else AtCol(s, c)
  {
    if |s| == 0 || e.col >= s[0].col {
      assert ([e] + s)[1..] == s;
      if e.col == c && |s| > 0 && e.col > s[0].col {
        assert AtCol(s, c) == [] by { AtColEmpty(s, c); }
      }
    } else {
      assert Descending(s[1..]);
      InsertAtCol(e, s[1..], c);
      assert ([s[0]] + Insert(e, s[1..]))[1..] == Insert(e, s[1..]);
    }
  }

  /** No element of a descending sequence whose head is below `c` sits at column `c`. */
  lemma {:induction false} AtColEmpty(s: seq<Entry>, c: nat)
    requires Descending(s) && |s| > 0 && s[0].col < c
    ensures AtCol(s, c) == []
  {
    if |s| > 1 {
      AtColEmpty(s[1..], c);
    }
  }

  /** Stable: entries at the same column keep their original relative order. */
  lemma {:induction false} SortDescStable(es: seq<Entry>, c: nat)
    ensures AtCol(SortDesc(es), c) == AtCol(es, c)
  {
    if |es| > 0 {
      SortDescStable(es[1..], c);
      SortDescSorted(es[1..]);
      InsertAtCol(es[0], SortDesc(es[1..]), c);
    }
  }

  function Rev(s: seq<Entry>): (r: seq<Entry>)
    ensures |r| == |s|
  {
    if |s| == 0 then [] else Rev(s[1..]) + [s[0]]
  }

  lemma {:induction false} InsertLast(e: Entry, s: seq<Entry>)
    requires forall i :: 0 <= i < |s| ==> e.col < s[i].col
    ensures Insert(e, s) == s + [e]
  {
    if |s| > 0 {
      InsertLast(e, s[1..]);
      assert [s[0]] + (s[1..] + [e]) == s + [e];
    }
  }

  /** Entries already in ascending column order come out reversed. */
  lemma {:induction false} SortDescOfAscending(es: seq<Entry>)
    requires Ascending(es)
    ensures SortDesc(es) == Rev(es)
  {
    if |es| > 0 {
      SortDescOfAscending(es[1..]);
      var r := Rev(es[1..]);
      assert multiset(r) == multiset(es[1..]) by { SortDescSorted(es[1..]); }
      forall i | 0 <= i < |r|
        ensures es[0].col < r[i].col
      {
        assert r[i] in multiset(es[1..]);
        var j :| 0 <= j < |es[1..]| && es[1..][j] == r[i];
        assert es[j + 1] == r[i];
      }
      InsertLast(es[0], r);
    }
  }

  // ---------------------------------------------------------------------------
  // Splicing markers into a line
  // ---------------------------------------------------------------------------

  function Min(a: nat, b: nat): nat {
    if a <= b then a else b
  }

  /** The bytes of the identifier text and of its marker. */
  function TextLen(e: Entry): nat {
    |Utf8.Encode(e.text)|
  }

  function Replacement(e: Entry): seq<byte> {
    Utf8.Encode(FormatIdentifier(e.id, e.text))
  }

  /** `line[:byte_col] + replacement + line[byte_col + len(text_bytes):]`, with
      Python's clamping of slice bounds past the end. */
  function Splice(line: seq<byte>, e: Entry): seq<byte> {
    line[..Min(e.col, |line|)] + Replacement(e) + line[Min(e.col + TextLen(e), |line|)..]
  }

  /** The inner loop: splices the entries one after the other, in the order given. */
  function SpliceAll(line: seq<byte>, es: seq<Entry>): seq<byte>
    decreases |es|
  {
    if |es| == 0 then line else SpliceAll(Splice(line, es[0]), es[1..])
  }

  /** The entries sit left to right from `from` on, do not overlap, and end inside the line. */
  predicate Fits(line: seq<byte>, es: seq<Entry>, from: nat)
    decreases |es|
  {
    from <= |line| &&
    (|es| > 0 ==>
      && from <= es[0].col
      && es[0].col + TextLen(es[0]) <= |line|
      && Fits(line, es[1..], es[0].col + TextLen(es[0])))
  }

  /** Reference: the line read left to right from `from`, each identifier's bytes
      replaced by its marker and every other byte copied. */
  function Ref(line: seq<byte>, es: seq<Entry>, from: nat): seq<byte>
    requires Fits(line, es, from)
    decreases |es|
  {
    if |es| == 0 then line[from..]
    else line[from..es[0].col] + Replacement(es[0]) + Ref(line, es[1..], es[0].col + TextLen(es[0]))
  }

  lemma {:induction false} SpliceAllAppend(line: seq<byte>, a: seq<Entry>, b: seq<Entry>)
    ensures SpliceAll(line, a + b) == SpliceAll(SpliceAll(line, a), b)
    decreases |a|
  {
    if |a| == 0 {
      assert a + b == b;
    } else {
      assert (a + b)[1..] == a[1..] + b;
      SpliceAllAppend(Splice(line, a[0]), a[1..], b);
    }
  }

  lemma SpliceOne(x: seq<byte>, y: seq<byte>, e: Entry)
    requires e.col + TextLen(e) == |x|
    ensures SpliceAll(x + y, [e]) == x[..e.col] + Replacement(e) + y
  {
    var xy := x + y;
    assert Min(e.col, |xy|) == e.col && Min(e.col + TextLen(e), |xy|) == |x|;
    assert xy[..e.col] == x[..e.col];
    assert xy[|x|..] == y;
    assert SpliceAll(Splice(xy, e), []) == Splice(xy, e);
  }

  lemma Reassemble(line: seq<byte>, from: nat, c: nat, next: nat, m: seq<byte>, y: seq<byte>)
    requires from <= c <= next <= |line|
    ensures line[..next][..c] + m + y == line[..from] + (line[from..c] + m + y)
  {
    assert line[..next][..c] == line[..from] + line[from..c];
  }

  /** Splicing right to left leaves every earlier offset valid: the result is the
      left-to-right reference. */
  lemma {:induction false} SpliceRightToLeft(line: seq<byte>, es: seq<Entry>, from: nat)
    requires Fits(line, es, from)
    ensures SpliceAll(line, Rev(es)) == line[..from] + Ref(line, es, from)
    decreases |es|
  {
    if |es| == 0 {
      assert line == line[..from] + line[from..];
    } else {
      var e := es[0];
      var next := e.col + TextLen(e);
      SpliceRightToLeft(line, es[1..], next);
      SpliceAllAppend(line, Rev(es[1..]), [e]);
      var x := line[..next];
      var y := Ref(line, es[1..], next);
      assert Rev(es) == Rev(es[1..]) + [e];
      assert SpliceAll(line, Rev(es[1..])) == x + y;
      SpliceOne(x, y, e);
      assert Ref(line, es, from) == line[from..e.col] + Replacement(e) + y;
      Reassemble(line, from, e.col, next, Replacement(e), y);
    }
  }

  /** A row of well-placed identifiers (ascending, non-overlapping, inside the line)
      is annotated exactly as the reference says. */
  lemma RowMatchesReference(line: seq<byte>, es: seq<Entry>)
    requires Ascending(es) && Fits(line, es, 0)
    ensures SpliceAll(line, SortDesc(es)) == Ref(line, es, 0)
  {
    SortDescOfAscending(es);
    SpliceRightToLeft(line, es, 0);
  }

  // ---------------------------------------------------------------------------
  // Rows
  // ---------------------------------------------------------------------------

  predicate Distinct(ks: seq<nat>) {
    forall i, j :: 0 <= i < j < |ks| ==> ks[i] != ks[j]
  }

  /** The keys of `by_row`: the rows that have identifiers, in order of first appearance. */
  function Keys(es: seq<Entry>): (ks: seq<nat>)
    ensures Distinct(ks)
    ensures forall r :: r in ks <==> exists i :: 0 <= i < |es| && es[i].row == r
  {
    if |es| == 0 then []
    else
      var ks := Keys(es[..|es| - 1]);
      var last := es[|es| - 1];
      assert forall i :: 0 <= i < |es| - 1 ==> es[..|es| - 1][i] == es[i];
      if last.row in ks then ks else ks + [last.row]
  }

  /** `by_row[r]`: the entries of row `r`, in order. */
  function Group(es: seq<Entry>, r: nat): (g: seq<Entry>)
    ensures forall x :: x in g <==> x in es && x.row == r
  {
    if |es| == 0 then []
    else (if es[0].row == r then [es[0]] else []) + Group(es[1..], r)
  }

  /** The annotated form of one row. */
  function AnnotateRow(line: seq<byte>, es: seq<Entry>, r: nat): seq<byte> {
    SpliceAll(line, SortDesc(Group(es, r)))
  }

  /** A row whose identifiers are ascending and fit the line is annotated as the
      reference says: markers in place of the identifiers, all else copied. */
  lemma AnnotateRowMatchesReference(line: seq<byte>, es: seq<Entry>, r: nat)
    requires Ascending(Group(es, r)) && Fits(line, Group(es, r), 0)
    ensures AnnotateRow(line, es, r) == Ref(line, Group(es, r), 0)
  {
    RowMatchesReference(line, Group(es, r));
  }

  /** Why annotation fails. */
  datatype AnnotateError =
    | ParseFailed(cause: ParseError) // `parse_identifiers` raised
    | NoSuchLine(row: nat)           // `lines[row_idx]` raised IndexError

  /** The outer loop over `by_row`, in key order. */
  function Process(lines: seq<seq<byte>>, ks: seq<nat>, es: seq<Entry>): (r: Result<seq<seq<byte>>, AnnotateError>)
    requires Distinct(ks)
    ensures r.Ok? <==> forall k :: k in ks ==> k < |lines|
    ensures r.Err? ==> r.error.NoSuchLine? && r.error.row in ks && r.error.row >= |lines|
    ensures r.Ok? ==> |r.value| == |lines| && forall i :: 0 <= i < |lines| ==>
      r.value[i] == if i in ks then AnnotateRow(lines[i], es, i) else lines[i]
    decreases |ks|
  {
    if |ks| == 0 then Ok(lines)
    else if ks[0] >= |lines| then
      assert ks[0] in ks;
      Err(NoSuchLine(ks[0]))
    else
      var k := ks[0];
      assert forall j :: j in ks <==> j == k || j in ks[1..];
      assert k !in ks[1..];
      Process(lines[k := AnnotateRow(lines[k], es, k)], ks[1..], es)
  }

  /** The body of `annotate_source` once the identifiers are known: split the
      buffer into lines, number the identifiers from `start` and group them by
      row, splice each row right to left, join the lines. */
  function AnnotateOccurrences(src: seq<byte>, occs: seq<Occurrence>, start: int)
    : (r: Result<(seq<byte>, int), AnnotateError>)
    requires Positive(occs)
    ensures r.Ok? ==> r.value.1 == start + |occs|
    ensures r.Ok? <==> forall i :: 0 <= i < |occs| ==> occs[i].row <= |SplitLines(src)|
  {
    var es := Number(occs, start);
    var lines := SplitLines(src);
    KeysInRange(occs, start, |lines|);
    match Process(lines, Keys(es), es)
    case Err(e) => Err(e)
    case Ok(ls) => Ok((Join(ls), start + |occs|))
  }

  lemma KeysInRange(occs: seq<Occurrence>, start: int, n: nat)
    requires Positive(occs)
    ensures (forall k :: k in Keys(Number(occs, start)) ==> k < n)
        <==> (forall i :: 0 <= i < |occs| ==> occs[i].row <= n)
  {
    var es := Number(occs, start);
    if forall k :: k in Keys(es) ==> k < n {
      forall i | 0 <= i < |occs|
        ensures occs[i].row <= n
      {
        assert es[i].row in Keys(es);
      }
    }
    if forall i :: 0 <= i < |occs| ==> occs[i].row <= n {
      forall k | k in Keys(es)
        ensures k < n
      {
        var i :| 0 <= i < |es| && es[i].row == k;
        assert occs[i].row <= n;
      }
    }
  }

  /** `annotate_source(utf8_bytes, language, start_id)`, with the grammars as a parameter. */
  function AnnotateSource(src: seq<byte>, language: string, start: int, grammars: map<string, Parser>)
    : (r: Result<(seq<byte>, int), AnnotateError>)
    ensures r.Err? && r.error.ParseFailed? <==> ParseIdentifiers(src, language, grammars).Err?
    ensures r.Ok? ==> r.value.1 == start + |ParseIdentifiers(src, language, grammars).value|
    ensures r.Err? && r.error.NoSuchLine? <==>
      && ParseIdentifiers(src, language, grammars).Ok?
      && exists i :: 0 <= i < |ParseIdentifiers(src, language, grammars).value|
                 && ParseIdentifiers(src, language, grammars).value[i].row > |SplitLines(src)|
  {
    match ParseIdentifiers(src, language, grammars)
    case Err(e) => Err(ParseFailed(e))
    case Ok(occs) =>
      ParseIdentifiersSound(src, language, grammars);
      AnnotateOccurrences(src, occs, start)
  }

  // ---------------------------------------------------------------------------
  // Properties
  // ---------------------------------------------------------------------------

  /** Reference: each line annotated on its own if it has identifiers, copied if not. */
  function Rowwise(lines: seq<seq<byte>>, es: seq<Entry>): seq<seq<byte>> {
    seq(|lines|, i requires 0 <= i < |lines| =>
      if exists k :: 0 <= k < |es| && es[k].row == i then AnnotateRow(lines[i], es, i) else lines[i])
  }

  /** The buffer that comes out is the rows of the input, each annotated on its
      own; rows without identifiers come through byte for byte. */
  lemma AnnotateIsRowwise(src: seq<byte>, occs: seq<Occurrence>, start: int)
    requires Positive(occs)
    requires forall i :: 0 <= i < |occs| ==> occs[i].row <= |SplitLines(src)|
    ensures AnnotateOccurrences(src, occs, start).Ok?
    ensures AnnotateOccurrences(src, occs, start).value.0
         == Join(Rowwise(SplitLines(src), Number(occs, start)))
  {
    var es := Number(occs, start);
    var lines := SplitLines(src);
    ProcessIsRowwise(lines, es);
  }

  /** The loop over the keyed rows gives the row-by-row reference. */
  lemma ProcessIsRowwise(lines: seq<seq<byte>>, es: seq<Entry>)
    requires Process(lines, Keys(es), es).Ok?
    ensures Process(lines, Keys(es), es).value == Rowwise(lines, es)
  {
    var ks := Keys(es);
    var ls, ref := Process(lines, ks, es).value, Rowwise(lines, es);
    forall i | 0 <= i < |lines|
      ensures ls[i] == ref[i]
    {
      if exists k :: 0 <= k < |es| && es[k].row == i {
        assert i in ks;
      } else {
        assert i !in ks;
      }
    }
  }

  /** End to end: once the parser has found the identifiers and every one lies
      on a line of the source, `annotate_source` returns the rows annotated one
      by one, and the next id is `start` plus the number of identifiers. */
  lemma AnnotateSourceIsRowwise(src: seq<byte>, language: string, start: int, grammars: map<string, Parser>)
    requires ParseIdentifiers(src, language, grammars).Ok?
    requires var occs := ParseIdentifiers(src, language, grammars).value;
      forall i :: 0 <= i < |occs| ==> occs[i].row <= |SplitLines(src)|
    ensures Positive(ParseIdentifiers(src, language, grammars).value)
    ensures var occs := ParseIdentifiers(src, language, grammars).value;
      AnnotateSource(src, language, start, grammars)
      == Ok((Join(Rowwise(SplitLines(src), Number(occs, start))), start + |occs|))
  {
    var occs := ParseIdentifiers(src, language, grammars).value;
    ParseIdentifiersSound(src, language, grammars);
    AnnotateIsRowwise(src, occs, start);
  }

  /** With no identifiers the buffer comes back unchanged and no id is used. */
  lemma AnnotateNothing(src: seq<byte>, start: int)
    ensures AnnotateOccurrences(src, [], start) == Ok((src, start))
  {
    var lines := SplitLines(src);
    assert Process(lines, [], []) == Ok(lines);
    JoinSplitLines(src);
  }

  /** The running ids: identifier k (in parser order) is numbered `start + k`, so
      the ids handed out are exactly `start .. start + N - 1`. */
  lemma IdsAreConsecutive(occs: seq<Occurrence>, start: int, k: nat)
    requires Positive(occs) && k < |occs|
    ensures Number(occs, start)[k].id == start + k
    ensures Number(occs, start)[k].text == occs[k].text
  {
  }

  lemma ProcessOneRow(line: seq<byte>, es: seq<Entry>)
    ensures Process([line], [0], es) == Ok([AnnotateRow(line, es, 0)])
  {
    var r := Process([line], [0], es);
    assert 0 in [0];
    assert r.Ok? && |r.value| == 1;
    assert r.value[0] == AnnotateRow(line, es, 0);
    assert r.value == [r.value[0]];
  }

  lemma {:induction false} KeysOneRow(es: seq<Entry>)
    requires |es| > 0 && forall i :: 0 <= i < |es| ==> es[i].row == 0
    ensures Keys(es) == [0]
  {
    if |es| > 1 {
      KeysOneRow(es[..|es| - 1]);
    }
  }

  lemma {:induction false} GroupOneRow(es: seq<Entry>)
    requires forall i :: 0 <= i < |es| ==> es[i].row == 0
    ensures Group(es, 0) == es
  {
    if |es| > 0 {
      GroupOneRow(es[1..]);
      assert es == [es[0]] + es[1..];
    }
  }

  /** A source without line breaks is one row: all its identifiers are spliced into it. */
  lemma {:induction false} AnnotateSingleLine(src: seq<byte>, occs: seq<Occurrence>, start: int)
    requires |src| > 0 && NoBreak(src)
    requires |occs| > 0 && forall i :: 0 <= i < |occs| ==> occs[i].row == 1 && occs[i].col >= 1
    ensures AnnotateOccurrences(src, occs, start)
         == Ok((AnnotateRow(src, Number(occs, start), 0), start + |occs|))
  {
    var es := Number(occs, start);
    SingleLine(src);
    KeysOneRow(es);
    ProcessOneRow(src, es);
    var row := AnnotateRow(src, es, 0);
    assert Process(SplitLines(src), Keys(es), es) == Ok([row]);
    assert Join([row]) == row + Join([]);
    assert Join([row]) == row;
  }
}
