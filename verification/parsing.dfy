/**
 Language detection and identifier extraction (autosg/parsing.py).

 The grammar engine is not part of this model: a parser is a function from
 source bytes to a syntax tree, and the grammars available are a map from
 language tag to parser, standing in for `get_parser`.
 */
module Parsing {
  import opened Wrappers
  import opened Utf8

  // ---------------------------------------------------------------------------
  // Language detection
  // ---------------------------------------------------------------------------

  /** Exact file names that decide the language on their own. */
  const FilenameToLanguage: map<string, string> := map[
    "Dockerfile" := "dockerfile",
    "GNUmakefile" := "make",
    "Makefile" := "make",
    "go.mod" := "gomod",
    "makefile" := "make"
  ]

  /** File suffixes, compared case-sensitively. */
  const ExtensionToLanguage: map<string, string> := map[
    ".bash" := "bash",
    ".sh" := "bash",
    ".zsh" := "bash",
    ".c" := "c",
    ".h" := "c",
    ".cs" := "c_sharp",
    ".cl" := "commonlisp",
    ".lisp" := "commonlisp",
    ".lsp" := "commonlisp",
    ".cc" := "cpp",
    ".cpp" := "cpp",
    ".cxx" := "cpp",
    ".hh" := "cpp",
    ".hpp" := "cpp",
    ".hxx" := "cpp",
    ".css" := "css",
    ".dot" := "dot",
    ".gv" := "dot",
    ".el" := "elisp",
    ".ex" := "elixir",
    ".exs" := "elixir",
    ".elm" := "elm",
    ".erl" := "erlang",
    ".hrl" := "erlang",
    ".f" := "fortran",
    ".f03" := "fortran",
    ".f08" := "fortran",
    ".f90" := "fortran",
    ".f95" := "fortran",
    ".for" := "fortran",
    ".fpp" := "fortran",
    ".go" := "go",
    ".hack" := "hack",
    ".hs" := "haskell",
    ".lhs" := "haskell",
    ".hcl" := "hcl",
    ".tf" := "hcl",
    ".tfvars" := "hcl",
    ".htm" := "html",
    ".html" := "html",
    ".java" := "java",
    ".cjs" := "javascript",
    ".js" := "javascript",
    ".mjs" := "javascript",
    ".json" := "json",
    ".jl" := "julia",
    ".kt" := "kotlin",
    ".kts" := "kotlin",
    ".lua" := "lua",
    ".markdown" := "markdown",
    ".md" := "markdown",
    ".m" := "objc",
    ".ml" := "ocaml",
    ".mli" := "ocaml",
    ".pl" := "perl",
    ".pm" := "perl",
    ".php" := "php",
    ".py" := "python",
    ".pyi" := "python",
    ".ql" := "ql",
    ".qll" := "ql",
    ".R" := "r",
    ".r" := "r",
    ".rst" := "rst",
    ".rb" := "ruby",
    ".rs" := "rust",
    ".sc" := "scala",
    ".scala" := "scala",
    ".sql" := "sql",
    ".toml" := "toml",
    ".tsx" := "tsx",
    ".ts" := "typescript",
    ".yaml" := "yaml",
    ".yml" := "yaml"
  ]

  /** `Path.suffix` of a final path component: from the last dot on, unless
      that dot is the first or the last character of the name. */
  function Suffix(name: string): (r: string)
    ensures r == "" || (|r| >= 2 && r[0] == '.' && |r| < |name| && r == name[|name| - |r|..])
    ensures r != "" ==> forall i :: 1 <= i < |r| ==> r[i] != '.'
  {
    var i := LastDot(name, |name|);
    if 0 < i < |name| - 1 then name[i..] else ""
  }

  /** `name.rfind('.')` restricted to `name[..end]`: -1 when there is no dot. */
  function LastDot(name: string, end: nat): (i: int)
    requires end <= |name|
    ensures -1 <= i < end
    ensures i >= 0 ==> name[i] == '.'
    ensures forall j :: i < j < end ==> name[j] != '.'
  {
    if end == 0 then -1
    else if name[end - 1] == '.' then end - 1
    else LastDot(name, end - 1)
  }

  /** `detect_language(path)` for a path whose final component is `name`:
      `FILENAME_TO_LANGUAGE.get(name) or EXTENSION_TO_LANGUAGE.get(suffix)`. */
  function DetectLanguage(name: string): Option<string> {
    var byName := if name in FilenameToLanguage then Some(FilenameToLanguage[name]) else None;
    if byName.Some? && byName.value != "" then byName
    else if Suffix(name) in ExtensionToLanguage then Some(ExtensionToLanguage[Suffix(name)])
    else None
  }

  // ---------------------------------------------------------------------------
  // Identifier node kinds
  // ---------------------------------------------------------------------------

  const DefaultIdent: set<string> := {"identifier"}

  /** Node kinds that count as identifiers, per language. */
  const LanguageIdentifierTypes: map<string, set<string>> := map[
    "bash" := {"variable_name"},
    "c" := {"identifier", "field_identifier", "type_identifier"},
    "c_sharp" := DefaultIdent,
    "commonlisp" := {"sym_lit"},
    "cpp" := {"identifier", "field_identifier", "namespace_identifier", "type_identifier"},
    "dot" := DefaultIdent,
    "elisp" := {"symbol"},
    "elixir" := DefaultIdent,
    "elm" := {"lower_case_identifier", "upper_case_identifier"},
    "erlang" := {"atom", "var"},
    "fortran" := DefaultIdent,
    "go" := {"identifier", "field_identifier", "package_identifier", "type_identifier"},
    "hack" := DefaultIdent,
    "haskell" := {"variable", "type"},
    "hcl" := DefaultIdent,
    "java" := {"identifier", "type_identifier"},
    "javascript" := {"identifier", "property_identifier"},
    "jsdoc" := DefaultIdent,
    "julia" := DefaultIdent,
    "kotlin" := {"simple_identifier", "type_identifier"},
    "lua" := DefaultIdent,
    "objc" := DefaultIdent,
    "ocaml" := {"value_name", "value_pattern", "module_name", "type_constructor"},
    "perl" := DefaultIdent,
    "php" := {"name"},
    "python" := DefaultIdent,
    "ql" := {"simpleId", "predicateName", "className"},
    "r" := DefaultIdent,
    "ruby" := DefaultIdent,
    "rust" := {"identifier", "field_identifier", "type_identifier"},
    "scala" := {"identifier", "type_identifier", "operator_identifier"},
    "sql" := DefaultIdent,
    "sqlite" := DefaultIdent,
    "tsx" := {"identifier", "property_identifier", "type_identifier"},
    "typescript" := {"identifier", "property_identifier", "type_identifier"}
  ]

  /** `LANGUAGE_IDENTIFIER_TYPES.get(language, _DEFAULT_IDENT)`. */
  function IdentKinds(language: string): (r: set<string>)
    ensures r != {}
    ensures language !in LanguageIdentifierTypes ==> r == {"identifier"}
  {
    if language in LanguageIdentifierTypes then LanguageIdentifierTypes[language] else DefaultIdent
  }

  // ---------------------------------------------------------------------------
  // Syntax trees and identifier collection
  // ---------------------------------------------------------------------------

  /** A position in the source: zero-based row and zero-based byte column. */
  datatype Point = Point(row: nat, column: nat)

  /** Document order on positions. */
  predicate Le(p: Point, q: Point) {
    p.row < q.row || (p.row == q.row && p.column <= q.column)
  }

  /** A syntax-tree node: its kind, its children, where it starts and ends,
      and the source bytes it spans. */
  datatype Node = Node(kind: string, children: seq<Node>, start: Point, end: Point, text: seq<byte>)

  /** A parser for one language, standing in for the grammar engine. */
  type Parser = seq<byte> -> Node

  /** A leaf whose kind is one of `kinds`: what the collector yields. */
  predicate IsIdentLeaf(n: Node, kinds: set<string>) {
    |n.children| == 0 && n.kind in kinds
  }

  /** `collect_identifiers`: the identifier leaves of the tree, node first, then
      each child's subtree from left to right. */
  function Collect(n: Node, kinds: set<string>): seq<Node>
    decreases n, 1
  {
    (if IsIdentLeaf(n, kinds) then [n] else []) + CollectAll(n.children, kinds)
  }

  function CollectAll(ns: seq<Node>, kinds: set<string>): seq<Node>
    decreases ns, 0
  {
    if |ns| == 0 then [] else Collect(ns[0], kinds) + CollectAll(ns[1..], kinds)
  }

  /** Reference enumeration: every node of the tree in pre-order. */
  function Subtrees(n: Node): seq<Node>
    decreases n, 1
  {
    [n] + SubtreesAll(n.children)
  }

  function SubtreesAll(ns: seq<Node>): seq<Node>
    decreases ns, 0
  {
    if |ns| == 0 then [] else Subtrees(ns[0]) + SubtreesAll(ns[1..])
  }

  /** The elements of `s` that satisfy the identifier-leaf test, in order. */
  function Filter(s: seq<Node>, kinds: set<string>): (r: seq<Node>)
    ensures forall x :: x in r ==> x in s && IsIdentLeaf(x, kinds)
    ensures forall x :: x in s && IsIdentLeaf(x, kinds) ==> x in r
  {
    if |s| == 0 then []
    else (if IsIdentLeaf(s[0], kinds) then [s[0]] else []) + Filter(s[1..], kinds)
  }

  lemma {:induction false} FilterAppend(a: seq<Node>, b: seq<Node>, kinds: set<string>)
    ensures Filter(a + b, kinds) == Filter(a, kinds) + Filter(b, kinds)
  {
    if |a| == 0 {
      assert a + b == b;
    } else {
      assert (a + b)[1..] == a[1..] + b;
      FilterAppend(a[1..], b, kinds);
    }
  }

  /** The collector yields exactly the identifier leaves of a pre-order walk of
      the whole tree, in that order. */
  lemma {:induction false} CollectIsFilteredWalk(n: Node, kinds: set<string>)
    ensures Collect(n, kinds) == Filter(Subtrees(n), kinds)
    decreases n, 1
  {
    CollectAllIsFilteredWalk(n.children, kinds);
    FilterAppend([n], SubtreesAll(n.children), kinds);
    assert [n][1..] == [];
  }

  lemma {:induction false} CollectAllIsFilteredWalk(ns: seq<Node>, kinds: set<string>)
    ensures CollectAll(ns, kinds) == Filter(SubtreesAll(ns), kinds)
    decreases ns, 0
  {
    if |ns| > 0 {
      CollectIsFilteredWalk(ns[0], kinds);
      CollectAllIsFilteredWalk(ns[1..], kinds);
      FilterAppend(Subtrees(ns[0]), SubtreesAll(ns[1..]), kinds);
    }
  }

  /** Sound and complete: a node is collected iff it is an identifier leaf of the tree. */
  lemma CollectExactly(n: Node, kinds: set<string>, x: Node)
    ensures x in Collect(n, kinds) <==> x in Subtrees(n) && IsIdentLeaf(x, kinds)
  {
    CollectIsFilteredWalk(n, kinds);
  }

  // Document order of the collected identifiers

  /** Positions are consistent: every node starts before it ends, children lie
      inside their parent, and siblings do not overlap and come left to right. */
  predicate WellPlaced(n: Node)
    decreases n, 1
  {
    && Le(n.start, n.end)
    && (|n.children| > 0 ==> Le(n.start, n.children[0].start) && Le(n.children[|n.children| - 1].end, n.end))
    && SiblingsPlaced(n.children)
  }

  predicate SiblingsPlaced(ns: seq<Node>)
    decreases ns, 0
  {
    |ns| > 0 ==>
      && WellPlaced(ns[0])
      && (|ns| > 1 ==> Le(ns[0].end, ns[1].start))
      && SiblingsPlaced(ns[1..])
  }

  /** The nodes come in document order of their start positions. */
  predicate InOrder(s: seq<Node>) {
    forall i, j :: 0 <= i < j < |s| ==> Le(s[i].start, s[j].start)
  }

  /** Every node of `s` starts within [lo, hi]. */
  predicate Within(s: seq<Node>, lo: Point, hi: Point) {
    forall i :: 0 <= i < |s| ==> Le(lo, s[i].start) && Le(s[i].start, hi)
  }

  lemma LeTrans(p: Point, q: Point, r: Point)
    requires Le(p, q) && Le(q, r)
    ensures Le(p, r)
  {
  }

  lemma InOrderAppend(a: seq<Node>, b: seq<Node>, lo: Point, mid: Point, hi: Point)
    requires InOrder(a) && InOrder(b) && Within(a, lo, mid) && Within(b, mid, hi)
    requires Le(lo, mid) && Le(mid, hi)
    ensures InOrder(a + b) && Within(a + b, lo, hi)
  {
    forall i, j | 0 <= i < j < |a + b|
      ensures Le((a + b)[i].start, (a + b)[j].start)
    {
      if i < |a| && j >= |a| {
        LeTrans(a[i].start, mid, b[j - |a|].start);
      }
    }
    forall i | 0 <= i < |a + b|
      ensures Le(lo, (a + b)[i].start) && Le((a + b)[i].start, hi)
    {
      if i < |a| {
        LeTrans(a[i].start, mid, hi);
      } else {
        LeTrans(lo, mid, b[i - |a|].start);
      }
    }
  }

  /** In a well-placed tree the identifiers are collected in document order,
      each inside the span of the tree. */
  lemma {:induction false} CollectInOrder(n: Node, kinds: set<string>)
    requires WellPlaced(n)
    ensures InOrder(Collect(n, kinds)) && Within(Collect(n, kinds), n.start, n.end)
    decreases n, 1
  {
    var head: seq<Node> := if IsIdentLeaf(n, kinds) then [n] else [];
    var rest := CollectAll(n.children, kinds);
    if |n.children| == 0 {
      assert rest == [];
      assert Collect(n, kinds) == head;
    } else {
      CollectAllInOrder(n.children, kinds);
      InOrderAppend(head, rest, n.start, n.start, n.end);
      assert Within(rest, n.start, n.end) by {
        forall i | 0 <= i < |rest|
          ensures Le(n.start, rest[i].start) && Le(rest[i].start, n.end)
        {
          LeTrans(n.start, n.children[0].start, rest[i].start);
          LeTrans(rest[i].start, n.children[|n.children| - 1].end, n.end);
        }
      }
    }
  }

  lemma {:induction false} CollectAllInOrder(ns: seq<Node>, kinds: set<string>)
    requires |ns| > 0 && SiblingsPlaced(ns)
    ensures InOrder(CollectAll(ns, kinds))
    ensures Within(CollectAll(ns, kinds), ns[0].start, ns[|ns| - 1].end)
    ensures Le(ns[0].start, ns[|ns| - 1].end)
    decreases ns, 0
  {
    var first := Collect(ns[0], kinds);
    CollectInOrder(ns[0], kinds);
    if |ns| == 1 {
      assert ns[1..] == [];
      assert CollectAll(ns, kinds) == first + [];
      assert first + [] == first;
    } else {
      var rest := CollectAll(ns[1..], kinds);
      CollectAllInOrder(ns[1..], kinds);
      assert Within(first, ns[0].start, ns[1].start) by {
        forall i | 0 <= i < |first|
          ensures Le(first[i].start, ns[1].start)
        {
          LeTrans(first[i].start, ns[0].end, ns[1].start);
        }
      }
      assert Le(ns[0].start, ns[1].start) by {
        LeTrans(ns[0].start, ns[0].end, ns[1].start);
      }
      LeTrans(ns[0].start, ns[1].start, ns[|ns| - 1].end);
      InOrderAppend(first, rest, ns[0].start, ns[1].start, ns[|ns| - 1].end);
    }
  }

  // ---------------------------------------------------------------------------
  // parse_identifiers and byte_col_to_char_col
  // ---------------------------------------------------------------------------

  /** One identifier occurrence: 1-based row, 1-based byte column, and its text. */
  datatype Occurrence = Occurrence(row: int, col: int, text: string)

  datatype ParseError =
    | NoGrammar(language: string) // `get_parser` has no grammar for the tag
    | TextNotUtf8(at: Point)      // `node.text.decode()` raised UnicodeDecodeError

  /** The occurrence recorded for one collected node. */
  predicate Records(o: Occurrence, n: Node) {
    && o.row == n.start.row + 1
    && o.col == n.start.column + 1
    && Utf8.Decode(n.text) == Some(o.text)
  }

  /** Every node's text is UTF-8. */
  predicate AllUtf8(ns: seq<Node>) {
    forall i :: 0 <= i < |ns| ==> Utf8.IsValid(ns[i].text)
  }

  /** Node `i` is the first whose text is not UTF-8. */
  predicate FirstInvalid(ns: seq<Node>, i: int) {
    && 0 <= i < |ns|
    && !Utf8.IsValid(ns[i].text)
    && forall j :: 0 <= j < i ==> Utf8.IsValid(ns[j].text)
  }

  /** Both predicates split at the first node. */
  lemma Utf8AtHead(ns: seq<Node>)
    requires |ns| > 0
    ensures AllUtf8(ns) <==> Utf8.IsValid(ns[0].text) && AllUtf8(ns[1..])
    ensures Utf8.IsValid(ns[0].text) ==>
      forall i :: FirstInvalid(ns[1..], i) ==> FirstInvalid(ns, i + 1)
  {
    assert forall i :: 1 <= i < |ns| ==> ns[i] == ns[1..][i - 1];
  }

  /** The loop of `parse_identifiers` over the collected nodes. The first node
      whose text is not UTF-8 stops it. */
  function Occurrences(ns: seq<Node>): (r: Result<seq<Occurrence>, ParseError>)
    ensures r.Ok? <==> AllUtf8(ns)
    ensures r.Ok? ==> |r.value| == |ns| && forall i :: 0 <= i < |ns| ==> Records(r.value[i], ns[i])
    ensures r.Err? ==> exists i :: FirstInvalid(ns, i) && r.error == TextNotUtf8(ns[i].start)
  {
    if |ns| == 0 then Ok([])
    else
      Utf8AtHead(ns);
      match Utf8.Decode(ns[0].text)
      case None =>
        assert FirstInvalid(ns, 0);
        Err(TextNotUtf8(ns[0].start))
      case Some(t) =>
        match Occurrences(ns[1..])
        case Err(e) =>
          var i :| FirstInvalid(ns[1..], i) && e == TextNotUtf8(ns[1..][i].start);
          assert FirstInvalid(ns, i + 1) && ns[1..][i] == ns[i + 1];
          Err(e)
        case Ok(os) =>
          var r := [Occurrence(ns[0].start.row + 1, ns[0].start.column + 1, t)] + os;
          assert forall i :: 1 <= i < |ns| ==> ns[i] == ns[1..][i - 1] && r[i] == os[i - 1];
          Ok(r)
  }

  /** `parse_identifiers(source_utf8, language)`, with the available grammars as a parameter. */
  function ParseIdentifiers(src: seq<byte>, language: string, grammars: map<string, Parser>)
    : (r: Result<seq<Occurrence>, ParseError>)
    ensures r == Err(NoGrammar(language)) <==> language !in grammars
    ensures r.Ok? <==> language in grammars && AllUtf8(Collect(grammars[language](src), IdentKinds(language)))
    ensures r.Err? && r.error.TextNotUtf8? ==>
      && language in grammars
      && var found := Collect(grammars[language](src), IdentKinds(language));
         exists i :: FirstInvalid(found, i) && r.error == TextNotUtf8(found[i].start)
    ensures r.Ok? ==>
      var found := Collect(grammars[language](src), IdentKinds(language));
      |r.value| == |found| && forall i :: 0 <= i < |found| ==> Records(r.value[i], found[i])
  {
    if language !in grammars then Err(NoGrammar(language))
    else Occurrences(Collect(grammars[language](src), IdentKinds(language)))
  }

  /** Every occurrence reported is 1-based, and it comes from an identifier leaf
      of the parsed tree; on a well-placed tree they come in document order. */
  lemma ParseIdentifiersSound(src: seq<byte>, language: string, grammars: map<string, Parser>)
    requires ParseIdentifiers(src, language, grammars).Ok?
    ensures var os := ParseIdentifiers(src, language, grammars).value;
      var root := grammars[language](src);
      && (forall i :: 0 <= i < |os| ==> os[i].row >= 1 && os[i].col >= 1)
      && (forall i :: 0 <= i < |os| ==>
            exists x :: x in Subtrees(root) && IsIdentLeaf(x, IdentKinds(language)) && Records(os[i], x))
      && (WellPlaced(root) ==> forall i, j :: 0 <= i < j < |os| ==>
            os[i].row < os[j].row || (os[i].row == os[j].row && os[i].col <= os[j].col))
  {
    var os := ParseIdentifiers(src, language, grammars).value;
    var root := grammars[language](src);
    var kinds := IdentKinds(language);
    var found := Collect(root, kinds);
    forall i | 0 <= i < |os|
      ensures exists x :: x in Subtrees(root) && IsIdentLeaf(x, kinds) && Records(os[i], x)
    {
      CollectExactly(root, kinds, found[i]);
    }
    if WellPlaced(root) {
      CollectInOrder(root, kinds);
    }
  }

  /** `line[:j]` with Python's slice rules: a negative bound counts from the end,
      and both kinds are clamped to the line. */
  function PyPrefix(line: seq<byte>, j: int): (r: seq<byte>)
    ensures |r| <= |line| && r == line[..|r|]
    ensures j >= 0 ==> |r| == if j <= |line| then j else |line|
    ensures j < 0 ==> |r| == if -j <= |line| then |line| + j else 0
  {
    if j >= 0 then (if j <= |line| then line[..j] else line)
    else if -j <= |line| then line[..|line| + j]
    else []
  }

  /** `byte_col_to_char_col`: the 1-based character column of a 1-based byte
      column, decoding the bytes before it leniently. */
  function ByteColToCharCol(line: seq<byte>, byteCol: int): (r: int)
    ensures r >= 1
  {
    |Utf8.DecodeReplace(PyPrefix(line, byteCol - 1))| + 1
  }

  /** The character column never exceeds the byte column on the line; column 1 is column 1. */
  lemma ByteColToCharColBounds(line: seq<byte>, byteCol: int)
    requires 1 <= byteCol
    ensures ByteColToCharCol(line, byteCol) <= byteCol
    ensures byteCol == 1 ==> ByteColToCharCol(line, byteCol) == 1
    ensures 1 < byteCol <= |line| + 1 ==> ByteColToCharCol(line, byteCol) > 1
  {
    Utf8.DecodeReplaceLength(PyPrefix(line, byteCol - 1));
  }

  /** On an ASCII line byte and character columns coincide. */
  lemma ByteColToCharColAscii(line: seq<byte>, byteCol: int)
    requires Utf8.IsAscii(line) && 1 <= byteCol <= |line| + 1
    ensures ByteColToCharCol(line, byteCol) == byteCol
  {
    var p := PyPrefix(line, byteCol - 1);
    assert Utf8.IsAscii(p);
    Utf8.DecodeAscii(p);
    Utf8.DecodeReplaceOfValid(p);
  }

  /** Round trip with the encoder: on a UTF-8 line, the byte column where the
      k-th character (0-based) starts converts back to character column k + 1. */
  lemma ByteColToCharColOfEncoded(text: string, k: nat)
    requires k <= |text|
    ensures ByteColToCharCol(Utf8.Encode(text), |Utf8.Encode(text[..k])| + 1) == k + 1
  {
    var before := Utf8.Encode(text[..k]);
    assert text == text[..k] + text[k..];
    Utf8.EncodeAppend(text[..k], text[k..]);
    assert PyPrefix(Utf8.Encode(text), |before|) == before;
    Utf8.DecodeEncode(text[..k]);
    Utf8.DecodeReplaceOfValid(before);
  }

  // ---------------------------------------------------------------------------
  // Language detection properties
  // ---------------------------------------------------------------------------

  /** `detect_language` returns None exactly when neither table knows the path,
      and an exact file name takes precedence over its suffix. */
  lemma DetectLanguageTables(name: string)
    ensures name in FilenameToLanguage ==> DetectLanguage(name) == Some(FilenameToLanguage[name])
    ensures name !in FilenameToLanguage && Suffix(name) in ExtensionToLanguage
            ==> DetectLanguage(name) == Some(ExtensionToLanguage[Suffix(name)])
    ensures DetectLanguage(name).None? <==> name !in FilenameToLanguage && Suffix(name) !in ExtensionToLanguage
  {
    assert forall k :: k in FilenameToLanguage ==> FilenameToLanguage[k] != "";
  }

  /** `Suffix` is the pathlib rule: empty exactly when the name has no dot
      strictly inside it or ends with a dot. */
  lemma SuffixEmpty(name: string)
    ensures Suffix(name) == "" <==>
      (|name| > 0 && name[|name| - 1] == '.') || forall i :: 0 < i < |name| - 1 ==> name[i] != '.'
  {
  }

  /** A file name without a suffix is found through the file-name table. */
  lemma DetectLanguageMakefile()
    ensures DetectLanguage("Makefile") == Some("make")
  {
  }

  /** Both spellings of the R suffix are listed, so both are R. */
  lemma DetectLanguageR()
    ensures DetectLanguage("main.R") == Some("r") && DetectLanguage("main.r") == Some("r")
  {
    assert Suffix("main.R") == ".R" by { assert LastDot("main.R", 6) == 4; }
    assert Suffix("main.r") == ".r" by { assert LastDot("main.r", 6) == 4; }
  }

  lemma DetectLanguagePython()
    ensures DetectLanguage("main.py") == Some("python")
  {
    assert Suffix("main.py") == ".py" by { assert LastDot("main.py", 7) == 4; }
  }

  /** A leading dot does not start a suffix; only the last dot counts. */
  lemma SuffixExamples()
    ensures Suffix(".bashrc") == "" && Suffix("archive.tar.gz") == ".gz"
  {
    assert LastDot(".bashrc", 7) == 0;
    assert LastDot("archive.tar.gz", 14) == 11;
  }
}
