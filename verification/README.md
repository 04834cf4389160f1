# autosg identifier annotation and resolution, modelled in Dafny

autosg tags every identifier of a source file with a numeric id and asks a
language model which identifiers define which. This project models the three
parts of that pipeline that hold its logic:

- **the encoding normaliser** (`autosg/annotating.py`). It detects a file's
  encoding from its byte-order mark, falling back to strict UTF-8. It turns the
  file into a UTF-8 working buffer and writes that buffer back in the original
  encoding, mark included. Modules `Normalizer`, `Codecs`, `Utf8`.
- **the identifier extractor and splicer** (`autosg/parsing.py`,
  `autosg/annotating.py`). It covers:
  - language detection from a file name;
  - the per-language identifier node kinds;
  - the pre-order collection of identifier leaves;
  - the conversion of tree positions to 1-based rows and byte columns;
  - the byte-to-character column conversion;
  - the annotation itself. Identifiers are numbered in extraction order and
    grouped by row. Each row is spliced right to left, so that every
    identifier's bytes are replaced by `«id|text»`.

  Modules `Parsing`, `Lines`, `Annotating`, `AnnotatingExample`.
- **the resolution client** (`autosg/llmresolver.py`). It covers:
  - the response cache keyed by (source hash, model, prompt version);
  - the extraction of a JSON object from the model's reply: a code fence first,
    then the brace span;
  - the control flow of `resolve`.

  Module `Resolver`.

Bytes are integers 0..255 (`Utf8.byte`) and text is `string`. Every operation
is a pure function, and every Python exception is the `Err` branch of a
`Result`. The UTF-8 decoder follows CPython's codec. It reads either a
well-formed sequence or the maximal ill-formed subpart (Unicode Standard,
section 3.9), so the `errors="replace"` decoding used for columns is exact. The
UTF-16 and UTF-32 codecs are defined in full and proved to be mutual inverses.
The grammar engine, SHA-256, the model call and `json.loads` are passed in as
functions.

Two behaviours of the code are worth knowing, and the model keeps both:

- **Out-of-range columns.** `annotate_source` does no bounds check on an
  identifier's columns: it slices, and Python clamps slice bounds.
  `Annotating.Splice` clamps the same way. `Annotating.SpliceRightToLeft` states
  the correctness of splicing under the condition that the spans fit
  (`Annotating.Fits`). The only failure is a row beyond the last line, where
  `lines[row_idx]` raises `IndexError`; that is `Annotating.NoSuchLine`.
- **Priority of the byte-order marks.** Because UTF-32-LE is tried before
  UTF-16-LE, a UTF-16-LE file whose first character is U+0000 is taken for
  UTF-32-LE. It then fails to decode, or it is silently misread when the payload
  happens to be valid UTF-32-LE. `Normalizer.Utf16LeLeadingNulMisread` exhibits
  the failure. `Normalizer.Utf16LeLeadingNulSilentMisread` exhibits the misread:
  the text U+0000 'A' LF, written as FF FE 00 00 41 00 0A 00
  (`Normalizer.Utf16LeNulTextBytes`), is read back without error as the single
  character U+A0041. It follows from the order of `_BOM_TABLE`, which the code relies on
  to tell the two little-endian marks apart.

## Model

| member | source | states |
|---|---|---|
| Utf8.DecodeEncode | autosg/annotating.py:65 | Decoding the UTF-8 encoding of a text gives the text back, so `text.encode("utf-8")` loses nothing |
| Utf8.Decode | autosg/annotating.py:45 | Strict `bytes.decode("utf-8")`, None where CPython raises. It is the inverse of `Utf8.Encode` (`Utf8.DecodeEncode`, `Utf8.EncodeDecode`) |
| Utf8.Encode | autosg/annotating.py:65 | `str.encode("utf-8")`. Its output always decodes (`Utf8.EncodeIsValid`) and decodes back to the text (`Utf8.DecodeEncode`) |
| Utf8.DecodeReplace | autosg/parsing.py:232 | `decode("utf-8", errors="replace")`, one U+FFFD per maximal ill-formed subpart. It agrees with the strict decoder on valid input (`Utf8.DecodeReplaceOfValid`) and yields at most one character per byte (`Utf8.DecodeReplaceLength`) |
| Utf8.EncodeDecode | autosg/annotating.py:72 | Strict UTF-8 decoding loses nothing: re-encoding what was decoded gives the original bytes |
| Utf8.EncodeIsValid | autosg/annotating.py:65 | Every encoded text is valid UTF-8 |
| Utf8.DecodeReplaceOfValid | autosg/parsing.py:232 | On valid UTF-8 the `errors="replace"` decoder agrees with the strict one and inserts no U+FFFD |
| Utf8.DecodeReplaceLength | autosg/parsing.py:232 | The replacing decoder yields at most one character per byte, and at least one character for non-empty input |
| Codecs.DecodeEncode | autosg/annotating.py:72 | For all five encodings, decoding the encoding of a text gives the text back |
| Codecs.EncodeDecode | autosg/annotating.py:64 | All five decoders are strict: bytes they accept re-encode to exactly those bytes |
| Codecs.Decode | autosg/annotating.py:64 | `payload.decode(encoding)` for the five encodings, None where CPython raises. Every decoder inverts its encoder (`Codecs.DecodeEncode`, `Codecs.EncodeDecode`) |
| Codecs.Encode | autosg/annotating.py:72 | `text.encode(encoding)` for the five encodings, inverted by `Codecs.Decode` |
| Normalizer.DetectEncoding | autosg/annotating.py:34-48 | The first table entry whose mark starts the input decides the encoding. With no mark the result is UTF-8 without a mark when the input is valid UTF-8, and None otherwise. The returned mark is always a prefix of the input |
| Normalizer.ReadSourceUtf8 | autosg/annotating.py:51-65 | Fails as unsupported exactly when detection finds nothing. Fails to decode exactly when a UTF-16/32 payload (the bytes after the mark) does not decode. On success the encoding is the detected one and the mark is stripped: a UTF-8 payload is passed through unchecked, and any other payload is transcoded to valid UTF-8 that decodes to the same text |
| Normalizer.EncodeOutput | autosg/annotating.py:68-72 | The output starts with the mark. For UTF-8 it is the mark followed by the buffer verbatim. It fails exactly when a non-UTF-8 target meets a buffer that is not valid UTF-8. For a non-UTF-8 target, the bytes after the mark decode in that encoding to the buffer's UTF-8 text |
| Normalizer.Utf32LeWinsOverUtf16Le | autosg/annotating.py:24-31 | Input starting FF FE 00 00 is UTF-32-LE, never UTF-16-LE |
| Normalizer.Utf16LeMark | autosg/annotating.py:40-42 | FF FE not followed by 00 00 is UTF-16-LE with that mark |
| Normalizer.Utf8MarkNotValidated | autosg/annotating.py:61-63 | After an EF BB BF mark the rest of the input is the buffer, whether or not it is valid UTF-8 |
| Normalizer.MarkDeterminesEncoding | autosg/annotating.py:40-46 | A detected (mark, encoding) pair is a row of the table, or UTF-8 without a mark |
| Normalizer.RoundTrip | autosg/annotating.py:51-72 | Every file the normaliser accepts is written back byte for byte, in all five encodings, with or without a mark |
| Normalizer.Utf16LeLeadingNulMisread | autosg/annotating.py:25-28 | The UTF-16-LE file FF FE 00 00 41 00 (text "\0A") is read as UTF-32-LE and fails to decode |
| Normalizer.Utf16LeLeadingNulSilentMisread | autosg/annotating.py:25-28 | The UTF-16-LE file FF FE 00 00 41 00 0A 00 (text U+0000 'A' LF) is read without error as UTF-32-LE, giving the one character U+A0041 |
| Normalizer.Utf16LeNulTextBytes | autosg/annotating.py:68-72 | Writing the text U+0000 'A' LF as UTF-16-LE with its mark gives exactly the bytes FF FE 00 00 41 00 0A 00 |
| Lines.SplitLines | autosg/annotating.py:97 | `splitlines(keepends=True)` never yields an empty piece |
| Lines.JoinSplitLines | autosg/annotating.py:115 | Joining the pieces of `splitlines(keepends=True)` gives back the input |
| Lines.Join | autosg/annotating.py:115 | `b"".join(lines)`; it undoes `Lines.SplitLines` (`Lines.JoinSplitLines`) |
| Lines.SplitLinesShape | autosg/annotating.py:97 | Every piece is one line with no break inside its body. Only the last piece may lack a terminator. A piece ending in a lone CR is never followed by one starting with LF |
| Lines.SingleLine | autosg/annotating.py:97 | A non-empty text without line breaks is a single row |
| Parsing.Suffix | autosg/parsing.py:148 | `path.suffix` is empty, or the name's final dotted component. That component has at least two characters, is not the whole name and contains no other dot |
| Parsing.SuffixEmpty | autosg/parsing.py:148 | The suffix is empty exactly when the name ends in a dot or has no dot after its first character |
| Parsing.DetectLanguageTables | autosg/parsing.py:146-148 | An exact file name wins. Otherwise the suffix decides. None exactly when neither table has an entry |
| Parsing.DetectLanguage | autosg/parsing.py:146-148 | `detect_language`: the file-name table, else the suffix table, else None. `Parsing.DetectLanguageTables` states this for every name |
| Parsing.DetectLanguageMakefile | autosg/parsing.py:20-26 | `Makefile` is `make` |
| Parsing.DetectLanguageR | autosg/parsing.py:121-122 | `.R` and `.r` are separate entries, both `r` |
| Parsing.DetectLanguagePython | autosg/parsing.py:115 | `main.py` is `python` |
| Parsing.SuffixExamples | autosg/parsing.py:148 | A leading dot is not a suffix (`.bashrc`), and only the last component counts (`archive.tar.gz`) |
| Parsing.IdentKinds | autosg/parsing.py:155-193 | Every language has at least one identifier kind, and a language missing from the table uses `{"identifier"}` |
| Parsing.CollectIsFilteredWalk | autosg/parsing.py:201-206 | The collector yields exactly the pre-order walk of the tree, filtered to leaves of an identifier kind |
| Parsing.Collect | autosg/parsing.py:201-206 | `collect_identifiers` on one node. `Parsing.CollectIsFilteredWalk` and `Parsing.CollectExactly` state what it yields |
| Parsing.CollectAll | autosg/parsing.py:205-206 | The loop over a node's children, left to right. `Parsing.CollectAllIsFilteredWalk` states what it yields |
| Parsing.CollectAllIsFilteredWalk | autosg/parsing.py:205-206 | The same holds for a list of sibling subtrees, taken left to right |
| Parsing.CollectExactly | autosg/parsing.py:203-204 | A node is collected exactly when it is in the tree, has no children and has an identifier kind |
| Parsing.CollectInOrder | autosg/parsing.py:201-206 | In a tree whose children lie inside their parent and follow each other, the collected nodes come in document order, all within the root's span |
| Parsing.CollectAllInOrder | autosg/parsing.py:205-206 | Nodes collected from ordered siblings are in document order, within the siblings' overall span |
| Parsing.Occurrences | autosg/parsing.py:222-226 | Succeeds exactly when every node's text is valid UTF-8. The k-th record then has row = start row + 1, column = start column + 1, and the node's decoded text. A failure names the start of the first node whose text is not UTF-8 |
| Parsing.ParseIdentifiers | autosg/parsing.py:209-227 | Fails with no grammar exactly when the language has none. Succeeds exactly when there is a grammar and every collected node's text is UTF-8, and then returns one record per collected node, in collection order. Otherwise the failure names the start of the first collected node whose text is not UTF-8 |
| Parsing.ParseIdentifiersSound | autosg/parsing.py:221-227 | Rows and columns are at least 1. Each record comes from an identifier leaf of the tree. For a well-placed tree the records are in (row, column) order |
| Parsing.PyPrefix | autosg/parsing.py:232 | `line[:j]` with Python's clamping, negative `j` counting from the end |
| Parsing.ByteColToCharCol | autosg/parsing.py:230-232 | The character column is at least 1 |
| Parsing.ByteColToCharColBounds | autosg/parsing.py:230-232 | Column 1 maps to 1. A column never grows. A byte column inside the line maps past 1 |
| Parsing.ByteColToCharColAscii | autosg/parsing.py:230-232 | On an ASCII line every byte column from 1 to its length + 1 maps to itself |
| Parsing.ByteColToCharColOfEncoded | autosg/parsing.py:230-232 | On an encoded text, the byte column of the k-th character's first byte maps to character column k + 1 |
| Annotating.Digits | autosg/annotating.py:82 | The decimal form of a natural number is non-empty, all digits and has no leading zero |
| Annotating.DecimalRoundTrip | autosg/annotating.py:82 | Reading back the decimal form of any integer gives the integer |
| Annotating.Decimal | autosg/annotating.py:82 | `str(n)`: non-empty, digits with an optional leading minus sign; read back by `Annotating.DecimalRoundTrip` |
| Annotating.FormatIdentifier | autosg/annotating.py:80-82 | The marker opens with « and closes with ». The bar follows the decimal id. The length is that of the id, plus the text, plus 3 |
| Annotating.ParseFormatIdentifier | autosg/annotating.py:80-82 | Id and text can be read back from the marker |
| Annotating.MarkersDistinct | autosg/annotating.py:80-82 | Different ids never give the same marker |
| Annotating.IdsAreConsecutive | autosg/annotating.py:100-104 | The k-th identifier in extraction order gets id start + k and keeps its text |
| Annotating.Number | autosg/annotating.py:100-104 | The numbering loop: one entry per identifier, in order, with 0-based row and column, the same text, and id start + k |
| Annotating.SortDesc | autosg/annotating.py:109 | Sorting a row's entries keeps exactly those entries |
| Annotating.SortDescSorted | autosg/annotating.py:109 | The sort orders by descending column |
| Annotating.SortDescStable | autosg/annotating.py:109 | The sort is stable: entries with equal columns keep their order, as Python's sort does with `reverse=True` |
| Annotating.SortDescOfAscending | autosg/annotating.py:109 | Entries with strictly ascending columns come out reversed |
| Annotating.SpliceAllAppend | autosg/annotating.py:109-112 | Splicing a concatenation of entry lists is splicing one list, then the other |
| Annotating.Splice | autosg/annotating.py:110-112 | One replacement with Python slice clamping. `Annotating.SpliceRightToLeft` states what a sequence of them produces |
| Annotating.SpliceAll | autosg/annotating.py:109-112 | The inner loop over one row's sorted entries. `Annotating.SpliceAllAppend` and `Annotating.SpliceRightToLeft` state its effect |
| Annotating.AnnotateRow | autosg/annotating.py:108-113 | One row: its entries sorted by descending column, then spliced. `Annotating.AnnotateRowMatchesReference` states the result |
| Annotating.SpliceRightToLeft | autosg/annotating.py:107-113 | Splicing fitting, ascending spans right to left gives the reference result: each marker in the original position of its identifier, every other byte copied |
| Annotating.RowMatchesReference | autosg/annotating.py:109-112 | Sorting fitting entries by descending column and splicing them gives the reference result |
| Annotating.AnnotateRowMatchesReference | autosg/annotating.py:107-113 | A row's identifiers, grouped and spliced, give the reference result for that row |
| Annotating.Keys | autosg/annotating.py:100-107 | The rows processed are distinct, and they are exactly the rows that have an identifier |
| Annotating.Group | autosg/annotating.py:103 | A row's group holds exactly the identifiers on that row |
| Annotating.Process | autosg/annotating.py:107-113 | Succeeds exactly when every processed row exists. A failure names a missing row. On success each processed row is annotated and every other row is copied |
| Annotating.AnnotateOccurrences | autosg/annotating.py:96-115 | The next id is start + the number of identifiers. It succeeds exactly when every identifier's row is a line of the source |
| Annotating.AnnotateSource | autosg/annotating.py:85-115 | Fails with a parse error exactly when extraction fails, and with a missing line exactly when an extracted identifier lies on a row past the last line. Otherwise the next id is start + the number of identifiers extracted |
| Annotating.AnnotateSourceIsRowwise | autosg/annotating.py:85-115 | When extraction succeeds and every identifier lies on a line, `annotate_source` returns the rows annotated one by one and the next id start + the number of identifiers |
| Annotating.AnnotateIsRowwise | autosg/annotating.py:97-115 | When every identifier lies on a line of the source, annotation succeeds and the output is the source's rows, each annotated on its own. Rows without identifiers are copied byte for byte |
| Annotating.ProcessIsRowwise | autosg/annotating.py:107-114 | The loop over the rows that hold identifiers gives, row by row, the annotated row when some identifier is on it and the original row otherwise |
| Annotating.AnnotateNothing | autosg/annotating.py:97-115 | With no identifiers the output is the input and the next id is the start id |
| Annotating.AnnotateSingleLine | autosg/annotating.py:97-115 | A one-line source is its one row, annotated |
| AnnotatingExample.ExampleMarkers | autosg/annotating.py:110-111 | The two `foo` entries, ids 0 and 1, each span three bytes and are replaced by the UTF-8 of their markers |
| AnnotatingExample.AnnotateExample | autosg/annotating.py:96-115 | `foo = foo + 1` with both `foo` found becomes the two markers with ` = ` between them and ` + 1` after, next id 2 |
| AnnotatingExample.ExampleSourceText | autosg/annotating.py:96 | The example's source bytes are the UTF-8 of `foo = foo + 1` |
| AnnotatingExample.ExampleOutputText | autosg/annotating.py:115 | The example's output bytes are the UTF-8 of the annotated text, markers for ids 0 and 1 in place of `foo` |
| Resolver.CacheGet | autosg/llmresolver.py:104-115 | A lookup hits only the entry under the current prompt version, returning its value. A missing entry and a stored `null` both read as a miss |
| Resolver.CachePut | autosg/llmresolver.py:118-131 | INSERT OR REPLACE: the key now maps to the response, and every other key is unchanged |
| Resolver.PutThenGet | autosg/llmresolver.py:104-131 | A put followed by a get of the same key reads the value back, `null` aside. Gets of other keys are unaffected |
| Resolver.OtherVersionsInvisible | autosg/llmresolver.py:108-112 | Entries under any other prompt version never answer a lookup |
| Resolver.WsEnd | autosg/llmresolver.py:151 | The greedy `\s*` stops at the first character that is not whitespace |
| Resolver.FirstClose | autosg/llmresolver.py:151 | The lazy `(.*?)` ends at the first closing line, `\n\s*` followed by three backticks, and at no earlier one |
| Resolver.AfterOpen | autosg/llmresolver.py:151 | Backtracking `\s*\n` finds a newline in the whitespace run after which the rest of the pattern matches, whenever one exists, and it finds the last such newline |
| Resolver.MatchAt | autosg/llmresolver.py:150-152 | At a given start the pattern matches, with the `json` tag tried first, exactly when the reference definition of a match allows one. The group starts as late as any match at that start allows (greedy `\s*`) and contains no closing line (lazy group) |
| Resolver.SearchFrom | autosg/llmresolver.py:150-152 | `re.search` returns the leftmost start at which the pattern matches, with the latest group start and the shortest group there |
| Resolver.FenceSearch | autosg/llmresolver.py:150-152 | A fence is found exactly when the pattern matches somewhere. The match is the leftmost one. Its group starts as late as a match there allows and contains no closing line, so the group is determined |
| Resolver.BraceSearch | autosg/llmresolver.py:156 | `\{.*\}` matches exactly when some `{` precedes some `}`. It takes the leftmost start and, from there, the longest span |
| Resolver.ExtractJson | autosg/llmresolver.py:144-159 | "No JSON object found" exactly when neither pattern matches. A parsed value is what `json.loads` gives for a fenced group or a brace span |
| Resolver.BraceFallback | autosg/llmresolver.py:155-159 | With no fence match, no brace pair gives the "no JSON" error; otherwise exactly the span from the first `{` to the last `}` goes to `json.loads`, and its result or error is the outcome |
| Resolver.FenceWins | autosg/llmresolver.py:153-154 | When the fence matches, its group alone decides: a group that is not JSON is an error even if a brace span would parse |
| Resolver.FencedGroup | autosg/llmresolver.py:150-154 | In a reply that is a JSON object fenced as `json`, the group is exactly the object |
| Resolver.BareBraces | autosg/llmresolver.py:156-158 | A bare object has no fence, and the brace scan takes all of it |
| Resolver.FencedAndBareAgree | autosg/llmresolver.py:144-159 | A JSON object gives the same result fenced or bare: `json.loads` of the object's own text |
| Resolver.BuildPrompt | autosg/llmresolver.py:139-141 | The prompt ends with the annotated source in a closing code fence |
| Resolver.SourceHash | autosg/llmresolver.py:99-101 | The digest of the text's UTF-8 bytes. `Resolver.HashInputDeterminesSource` states those bytes determine the text |
| Resolver.HashInputDeterminesSource | autosg/llmresolver.py:99-101 | Two different sources are never hashed from the same bytes |
| Resolver.PromptDeterminesSource | autosg/llmresolver.py:139-141 | Different sources never give the same prompt for the same language |
| Resolver.Resolve | autosg/llmresolver.py:167-211 | At most one model call. No call exactly on a cache hit with the cache on, and the hit returns the stored value. On a miss the reply decides: an authentication failure is the missing-key error, any other call failure propagates, a reply without content is the empty-response error, and a reply with content gives the extracted JSON or the extraction error. With the cache off, or on any failure, the cache is unchanged. A success with the cache on stores the result under the key |
| Resolver.SecondCallIsHit | autosg/llmresolver.py:182-209 | After a successful call with the cache on, the same call is answered from the cache with no model call, unless the result was `null` |
| Resolver.CachedNullIsMiss | autosg/llmresolver.py:184-185 | A stored `null` is a miss: the model is asked again |
| Resolver.CacheOffIgnoresCache | autosg/llmresolver.py:182-209 | With the cache off the result does not depend on the cache, one call is made, and the cache is left as it was |
| Resolver.AuthFailureIsDistinct | autosg/llmresolver.py:190-200 | An authentication failure on a miss becomes its own error and writes nothing |
| Resolver.FailureNotCached | autosg/llmresolver.py:201-209 | A failed call leaves the cache unchanged, so the next identical call asks the model again |
| Resolver.OnlyOwnKeyMatters | autosg/llmresolver.py:179-187 | Only the entry under the request's own key can change the result |

## Left out

- **File reading.** `read_source_utf8` reads the file with `Path.read_bytes`.
  `Normalizer.ReadSourceUtf8` starts from those bytes.
- **The grammar engine.**
  - `get_parser` is a map from language tag to parser. A missing language is
    `Parsing.NoGrammar`, where `parse_identifiers` raises from `get_parser`.
  - `Parser.parse` is a total function from bytes to a `Parsing.Node`. Nothing
    ties a node's reported text or position to the source bytes, because the
    engine is not modelled.
- **Row numbering by the engine.** The engine counts rows at `\n`, while
  `bytes.splitlines` also breaks at a lone `\r`. For sources containing a lone
  CR the two disagree. The model takes the engine's rows as given and splices
  into the `splitlines` rows, as `annotate_source` does.
- Annotating.AnnotateOccurrences: requires rows and columns of at least 1. That
  is what `parse_identifiers` always produces (`Parsing.ParseIdentifiersSound`).
  With a row of 0 `annotate_source` would splice into the last line through Python's
  negative indexing; the model does not cover that case.
- Parsing.Suffix: follows the long-standing `pathlib` rule, under which a name
  ending in a dot has no suffix. Newer Python releases may treat that one
  corner differently.
- Parsing.DetectLanguageR: shows the two separate entries. That an upper-case
  suffix such as `.PY` has no entry is not stated as a lemma.
- AnnotatingExample.AnnotateExample: takes the example source through its byte
  shape (length, the bytes between the identifiers, one line) and the two
  occurrences the parser reports. `AnnotatingExample.ExampleSourceText` and
  `AnnotatingExample.ExampleOutputText` connect those bytes to the literal texts.
- **The cache store.** SQLite, the cache directory, and opening and closing the
  connection are not modelled. The table stores `json.dumps(response)` and
  `_cache_get` applies `json.loads`. The model stores the value itself, so it
  assumes that `json.loads(json.dumps(v)) == v`.
- **External calls.** SHA-256, `completion` and `json.loads` are fields of
  `Resolver.Env`. The model call is a function of (model, prompt), so two
  identical calls get the same reply; temperature 0 is fixed. Other exceptions
  of the model call become `Resolver.CompletionFailed`. `load_dotenv` and
  `DEFAULT_MODEL` are left out.
- **The prompt wording.** `PROMPT_TEMPLATE`'s instructions are free text with
  no behaviour. They are the `instructions` field of `Resolver.Env`.
  `Resolver.BuildPrompt` models only where the language and the source go.
- **The reply's shape.** `resolve` returns whatever `json.loads` produced.
  Neither `resolve` nor the model checks for the `definitions`, `external`
  and `errors` fields.
- **Lone surrogates.** A Dafny `string` holds only Unicode scalar values. A
  Python `str` may hold lone surrogates, which would make
  `.encode("utf-8")` raise; no text in the modelled paths can contain one.
- **The command line.** `autosg/__main__.py` and the `examples/` inputs are not
  part of this model.
