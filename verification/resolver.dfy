/**
 The resolution client (autosg/llmresolver.py): the content-addressed,
 version-aware response cache, the extraction of a JSON object from the
 model's reply, and the control flow of `resolve`. SHA-256, the model call
 and `json.loads` are oracles handed in by the caller; the SQLite table is a
 map from cache key to the stored JSON value.
 */
module Resolver {
  import opened Wrappers
  import opened Utf8

  // ---------------------------------------------------------------------------
  // Cache
  // ---------------------------------------------------------------------------

  /** Bumped by hand whenever the prompt changes, so that older answers are not reused. */
  const PromptVersion: int := 2

  /** A JSON value as `json.loads` returns it. */
  datatype Json =
    | JNull
    | JBool(b: bool)
    | JNumber(repr: string)
    | JString(s: string)
    | JArray(items: seq<Json>)
    | JObject(members: seq<(string, Json)>)

  /** The primary key of the cache table. */
  datatype Key = Key(sourceHash: string, model: string, version: int)

  /** The cache table: one stored response per key. */
  type Cache = map<Key, Json>

  /** `_cache_get`: the response stored under the current prompt version, or
      None on a miss. A stored JSON `null` reads back as None, which `resolve`
      cannot tell from a miss. */
  function CacheGet(cache: Cache, sourceHash: string, model: string): (r: Option<Json>)
    ensures r.Some? ==> Key(sourceHash, model, PromptVersion) in cache
                        && cache[Key(sourceHash, model, PromptVersion)] == r.value
    ensures r.None? <==> Key(sourceHash, model, PromptVersion) !in cache
                         || cache[Key(sourceHash, model, PromptVersion)] == JNull
  {
    var k := Key(sourceHash, model, PromptVersion);
    if k in cache && cache[k] != JNull then Some(cache[k]) else None
  }

  /** `_cache_put`: INSERT OR REPLACE under the current prompt version. */
  function CachePut(cache: Cache, sourceHash: string, model: string, response: Json): (r: Cache)
    ensures Key(sourceHash, model, PromptVersion) in r
    ensures r[Key(sourceHash, model, PromptVersion)] == response
    ensures forall k :: k != Key(sourceHash, model, PromptVersion) ==> (k in r <==> k in cache)
    ensures forall k :: k in cache && k != Key(sourceHash, model, PromptVersion) ==> r[k] == cache[k]
  {
    cache[Key(sourceHash, model, PromptVersion) := response]
  }

  /** A put followed by a get of the same key reads the stored value back
      (unless it is `null`), and a get of any other key is unaffected. */
  lemma PutThenGet(cache: Cache, h: string, m: string, v: Json, h': string, m': string)
    ensures CacheGet(CachePut(cache, h, m, v), h', m')
         == if h' == h && m' == m then (if v == JNull then None else Some(v))
            else CacheGet(cache, h', m')
  {
  }

  /** Entries written under another prompt version never answer a lookup. */
  lemma OtherVersionsInvisible(cache: Cache, k: Key, v: Json, h: string, m: string)
    requires k.version != PromptVersion
    ensures CacheGet(cache[k := v], h, m) == CacheGet(cache, h, m)
  {
  }

  // ---------------------------------------------------------------------------
  // The fence pattern  ```(?:json)?\s*\n(.*?)\n\s*```  searched with DOTALL
  // ---------------------------------------------------------------------------

  /** `\s` in a `str` pattern: the characters for which `str.isspace()` holds. */
  predicate IsSpace(c: char) {
    || ('\t' <= c <= '\r')
    || ('\U{001C}' <= c <= '\U{001F}')
    || c == ' ' || c == '\U{0085}' || c == '\U{00A0}' || c == '\U{1680}'
    || ('\U{2000}' <= c <= '\U{200A}')
    || c == '\U{2028}' || c == '\U{2029}' || c == '\U{202F}' || c == '\U{205F}' || c == '\U{3000}'
  }

  predicate AllSpace(t: string, lo: int, hi: int) {
    0 <= lo <= hi <= |t| && forall k :: lo <= k < hi ==> IsSpace(t[k])
  }

  /** Three backticks start at `i`. */
  predicate FenceAt(t: string, i: int) {
    0 <= i && i + 3 <= |t| && t[i] == '`' && t[i + 1] == '`' && t[i + 2] == '`'
  }

  /** The optional `json` tag follows the fence opened at `a`. */
  predicate JsonTag(t: string, a: int) {
    0 <= a && a + 7 <= |t| && t[a + 3..a + 7] == "json"
  }

  /** `\s*\n` spans t[p..s]: whitespace ending in a newline, so the group starts at `s`. */
  predicate Lead(t: string, p: int, s: int) {
    0 <= p < s <= |t| && AllSpace(t, p, s - 1) && t[s - 1] == '\n'
  }

  /** The end of the run of whitespace that starts at `p`. */
  function WsEnd(t: string, p: nat): (q: nat)
    requires p <= |t|
    ensures p <= q <= |t| && AllSpace(t, p, q)
    ensures q < |t| ==> !IsSpace(t[q])
    decreases |t| - p
  {
    if p == |t| || !IsSpace(t[p]) then p else WsEnd(t, p + 1)
  }

  /** `\n\s*```` matches at `e`: a newline, whitespace, then a closing fence.
      Since a backtick is not whitespace, the greedy `\s*` never has to give
      anything back, so the whitespace run can be skipped in one go. */
  predicate CloseAt(t: string, e: int) {
    0 <= e < |t| && t[e] == '\n' && FenceAt(t, WsEnd(t, e + 1))
  }

  /** Reference: the whole pattern matches at `a` with its group spanning t[s..e]. */
  predicate FenceMatch(t: string, a: int, s: int, e: int) {
    && FenceAt(t, a)
    && (Lead(t, a + 3, s) || (JsonTag(t, a) && Lead(t, a + 7, s)))
    && s <= e
    && CloseAt(t, e)
  }

  /** A fence match: where it starts and the bounds of its group. */
  datatype FenceHit = FenceHit(start: nat, lo: nat, hi: nat)

  /** The lazy `(.*?)`: the first closing line at or after `e`. */
  function FirstClose(t: string, e: nat): (r: Option<nat>)
    requires e <= |t|
    ensures r.Some? ==> e <= r.value && CloseAt(t, r.value)
    ensures r.Some? ==> forall x :: e <= x < r.value ==> !CloseAt(t, x)
    ensures r.None? ==> forall x :: e <= x ==> !CloseAt(t, x)
    decreases |t| - e
  {
    if e == |t| then None
    else if CloseAt(t, e) then Some(e)
    else FirstClose(t, e + 1)
  }

  /** The greedy `\s*\n` after the opener ending at `p`: the whitespace run is
      given back one character at a time, from `p + k` down to `p`, until a
      newline is found from which the rest of the pattern matches. */
  function AfterOpen(t: string, p: nat, k: nat): (r: Option<(nat, nat)>)
    requires AllSpace(t, p, p + k)
    ensures r.Some? ==> Lead(t, p, r.value.0) && r.value.0 <= r.value.1 && CloseAt(t, r.value.1)
    ensures r.Some? ==> forall x :: r.value.0 <= x < r.value.1 ==> !CloseAt(t, x)
    ensures r.Some? ==> forall s, e :: r.value.0 < s <= p + k + 1 && Lead(t, p, s) && s <= e ==> !CloseAt(t, e)
    ensures r.None? ==> forall s, e :: p < s <= p + k + 1 && Lead(t, p, s) && s <= e ==> !CloseAt(t, e)
    decreases k
  {
    var here := if p + k < |t| && t[p + k] == '\n' then FirstClose(t, p + k + 1) else None;
    if here.Some? then Some((p + k + 1, here.value))
    else if k == 0 then None
    else AfterOpen(t, p, k - 1)
  }

  /** Whitespace is never cut short before the end of its run. */
  lemma WsEndMax(t: string, p: nat, n: int)
    requires p <= |t| && AllSpace(t, p, n)
    ensures n <= WsEnd(t, p)
  {
  }

  /** A lead after `p` ends at most one past the whitespace run from `p`. */
  lemma LeadBound(t: string, p: nat)
    requires p <= |t|
    ensures forall s :: Lead(t, p, s) ==> s <= WsEnd(t, p) + 1
  {
    forall s | Lead(t, p, s)
      ensures s <= WsEnd(t, p) + 1
    {
      WsEndMax(t, p, s - 1);
    }
  }

  /** After a `json` tag the untagged opener cannot match: `j` is not whitespace. */
  lemma TagBlocksPlainLead(t: string, a: nat, p: nat)
    requires JsonTag(t, a) && p == a + 3
    ensures forall s :: !Lead(t, p, s)
  {
    assert t[p] == 'j';
  }

  /** Matching at `a`: with the `json` tag first, then without it. A tag makes
      the untagged opener impossible (`j` is not whitespace), so either way the
      group starts as late as any match at `a` allows. */
  function MatchAt(t: string, a: nat): (r: Option<FenceHit>)
    ensures r.Some? ==> r.value.start == a && FenceMatch(t, a, r.value.lo, r.value.hi)
    ensures r.Some? ==> forall x :: r.value.lo <= x < r.value.hi ==> !CloseAt(t, x)
    ensures r.Some? ==> forall s, e :: FenceMatch(t, a, s, e) ==> s <= r.value.lo
    ensures r.None? ==> forall s, e :: !FenceMatch(t, a, s, e)
  {
    if !FenceAt(t, a) then None
    else
      var p3, p7 := a + 3, a + 7;
      var tagged := if JsonTag(t, a) then AfterOpen(t, p7, WsEnd(t, p7) - p7) else None;
      var plain := AfterOpen(t, p3, WsEnd(t, p3) - p3);
      LeadBound(t, p3);
      assert JsonTag(t, a) ==>
        (forall s :: Lead(t, p7, s) ==> s <= WsEnd(t, p7) + 1) && (forall s :: !Lead(t, p3, s)) by {
        if JsonTag(t, a) {
          LeadBound(t, p7);
          TagBlocksPlainLead(t, a, p3);
        }
      }
      if tagged.Some? then Some(FenceHit(a, tagged.value.0, tagged.value.1))
      else if plain.Some? then Some(FenceHit(a, plain.value.0, plain.value.1))
      else None
  }

  /** `re.search`: the leftmost start at or after `i` where the pattern matches. */
  function SearchFrom(t: string, i: nat): (r: Option<FenceHit>)
    ensures r.Some? ==> i <= r.value.start && FenceMatch(t, r.value.start, r.value.lo, r.value.hi)
    ensures r.Some? ==> forall a, s, e :: i <= a < r.value.start ==> !FenceMatch(t, a, s, e)
    ensures r.Some? ==> forall x :: r.value.lo <= x < r.value.hi ==> !CloseAt(t, x)
    ensures r.Some? ==> forall s, e :: FenceMatch(t, r.value.start, s, e) ==> s <= r.value.lo
    ensures r.None? ==> forall a, s, e :: i <= a ==> !FenceMatch(t, a, s, e)
    decreases |t| - i
  {
    if i >= |t| then None
    else match MatchAt(t, i)
      case Some(h) => Some(h)
      case None => SearchFrom(t, i + 1)
  }

  /** The fenced block of a reply: the leftmost match; within it the group
      starts after the last newline of the opening whitespace from which a
      closing line still follows (the greedy `\s*`), and it is the shortest
      such group, which never contains a closing line of its own. */
  function FenceSearch(t: string): (r: Option<FenceHit>)
    ensures r.Some? ==> FenceMatch(t, r.value.start, r.value.lo, r.value.hi)
    ensures r.Some? ==> forall a, s, e :: a < r.value.start ==> !FenceMatch(t, a, s, e)
    ensures r.Some? ==> forall x :: r.value.lo <= x < r.value.hi ==> !CloseAt(t, x)
    ensures r.Some? ==> forall s, e :: FenceMatch(t, r.value.start, s, e) ==> s <= r.value.lo
    ensures r.None? <==> forall a, s, e :: !FenceMatch(t, a, s, e)
  {
    var r := SearchFrom(t, 0);
    assert r.Some? ==> FenceMatch(t, r.value.start, r.value.lo, r.value.hi);
    r
  }

  // ---------------------------------------------------------------------------
  // The brace fallback  \{.*\}  searched with DOTALL
  // ---------------------------------------------------------------------------

  /** Reference: `\{.*\}` matches t[a..b]. */
  predicate BraceMatch(t: string, a: int, b: int) {
    0 <= a && a + 2 <= b <= |t| && t[a] == '{' && t[b - 1] == '}'
  }

  /** Index of the first `c` at or after `i`, or `|t|`. */
  function FirstIndex(t: string, c: char, i: nat): (r: nat)
    requires i <= |t|
    ensures i <= r <= |t|
    ensures r < |t| ==> t[r] == c
    ensures forall k :: i <= k < r ==> t[k] != c
    decreases |t| - i
  {
    if i == |t| || t[i] == c then i else FirstIndex(t, c, i + 1)
  }

  /** Number of characters before the last `c` ends among the first `n`, or 0. */
  function LastEnd(t: string, c: char, n: nat): (r: nat)
    requires n <= |t|
    ensures r <= n
    ensures r > 0 ==> t[r - 1] == c
    ensures forall k :: r <= k < n ==> t[k] != c
  {
    if n == 0 then 0 else if t[n - 1] == c then n else LastEnd(t, c, n - 1)
  }

  /** `re.search(r"\{.*\}", t, re.DOTALL)`: the leftmost `{`, and from it the
      longest span, which ends at the last `}`. */
  function BraceSearch(t: string): (r: Option<(nat, nat)>)
    ensures r.Some? ==> BraceMatch(t, r.value.0, r.value.1)
    ensures r.Some? ==> forall a, b :: BraceMatch(t, a, b) ==> r.value.0 < a || (r.value.0 == a && b <= r.value.1)
    ensures r.None? <==> forall a, b :: !BraceMatch(t, a, b)
  {
    var lo := FirstIndex(t, '{', 0);
    var hi := LastEnd(t, '}', |t|);
    assert forall a, b :: BraceMatch(t, a, b) ==> lo <= a && b <= hi by {
      forall a, b | BraceMatch(t, a, b) ensures lo <= a && b <= hi {
        assert t[a] == '{' && t[b - 1] == '}';
      }
    }
    if lo < |t| && lo + 2 <= hi then assert BraceMatch(t, lo, hi); Some((lo, hi)) else None
  }

  // ---------------------------------------------------------------------------
  // _extract_json
  // ---------------------------------------------------------------------------

  /** Why no JSON object could be taken from a reply. */
  datatype ExtractError =
    | InvalidJson(fragment: string) // json.loads raised on the chosen fragment
    | NoJsonFound                   // neither pattern matched: the explicit ValueError

  /** `_extract_json`: the fenced block when the fence pattern matches (and
      then no fallback, even if that block is not JSON), else the brace span. */
  function ExtractJson(text: string, loads: string -> Option<Json>): (r: Result<Json, ExtractError>)
    ensures r == Err(NoJsonFound)
        <==> (forall a, s, e :: !FenceMatch(text, a, s, e)) && (forall a, b :: !BraceMatch(text, a, b))
    ensures r.Ok? ==> (exists a, s, e :: FenceMatch(text, a, s, e) && loads(text[s..e]) == Some(r.value))
                      || (exists a, b :: BraceMatch(text, a, b) && loads(text[a..b]) == Some(r.value))
  {
    match FenceSearch(text)
    case Some(h) =>
      (match loads(text[h.lo..h.hi])
       case Some(v) => Ok(v)
       case None => Err(InvalidJson(text[h.lo..h.hi])))
    case None =>
      match BraceSearch(text)
      case None => Err(NoJsonFound)
      case Some((a, b)) =>
        match loads(text[a..b])
        case Some(v) => Ok(v)
        case None => Err(InvalidJson(text[a..b]))
  }

  /** A fence match decides the outcome: a fenced block that is not JSON is an
      error even when a brace span elsewhere in the reply would parse. */
  lemma FenceWins(text: string, loads: string -> Option<Json>, a: int, s: int, e: int)
    requires FenceMatch(text, a, s, e)
    ensures FenceSearch(text).Some?
    ensures var h := FenceSearch(text).value;
      ExtractJson(text, loads) == if loads(text[h.lo..h.hi]).Some? then Ok(loads(text[h.lo..h.hi]).value)
                                  else Err(InvalidJson(text[h.lo..h.hi]))
  {
  }

  /** Without a fence match the brace search decides: no brace pair is the
      explicit "no JSON" error, and otherwise exactly the span from the first
      `{` to the last `}` is handed to `json.loads`. */
  lemma BraceFallback(text: string, loads: string -> Option<Json>)
    requires forall a, s, e :: !FenceMatch(text, a, s, e)
    ensures BraceSearch(text).None? ==> ExtractJson(text, loads) == Err(NoJsonFound)
    ensures BraceSearch(text).Some? ==>
      var (lo, hi) := BraceSearch(text).value;
      && (forall k :: 0 <= k < lo ==> text[k] != '{')
      && (forall k :: hi <= k < |text| ==> text[k] != '}')
      && ExtractJson(text, loads) == if loads(text[lo..hi]).Some? then Ok(loads(text[lo..hi]).value)
                                     else Err(InvalidJson(text[lo..hi]))
  {
    if BraceSearch(text).Some? {
      var (lo, hi) := BraceSearch(text).value;
      assert forall k :: 0 <= k < lo ==> !BraceMatch(text, k, hi);
      assert forall k :: hi <= k < |text| && text[k] == '}' ==> BraceMatch(text, lo, k + 1);
    }
  }

  /** A JSON object's text as the model might write it: braces outside, no backtick inside. */
  predicate BareObject(obj: string) {
    && |obj| >= 2 && obj[0] == '{' && obj[|obj| - 1] == '}'
    && forall i :: 0 <= i < |obj| ==> obj[i] != '`'
  }

  /** The reply ```json\n{obj}\n```. */
  function Fenced(obj: string): (t: string)
    ensures |t| == |obj| + 12
    ensures t[..8] == "```json\n" && t[8..8 + |obj|] == obj && t[8 + |obj|..] == "\n```"
  {
    var t := "```json\n" + obj + "\n```";
    assert t[..8] == "```json\n";
    t
  }

  /** The characters of a fenced object that the pattern looks at. */
  lemma FencedShape(obj: string)
    requires BareObject(obj)
    ensures var t, n := Fenced(obj), |obj|;
      && t[3] == 'j' && t[7] == '\n' && !IsSpace(t[8]) && !IsSpace(t[7 + n])
      && (forall i :: 8 <= i < 8 + n ==> t[i] != '`')
      && CloseAt(t, 8 + n)
      && FenceMatch(t, 0, 8, 8 + n)
  {
    var t, n := Fenced(obj), |obj|;
    assert forall i :: 8 <= i < 8 + n ==> t[i] == obj[i - 8] by {
      forall i | 8 <= i < 8 + n ensures t[i] == obj[i - 8] { assert t[8..8 + n][i - 8] == t[i]; }
    }
    assert t[0] == '`' && t[1] == '`' && t[2] == '`' && t[3] == 'j' && t[7] == '\n' by {
      assert t[..8][0] == t[0] && t[..8][1] == t[1] && t[..8][2] == t[2];
      assert t[..8][3] == t[3] && t[..8][7] == t[7];
    }
    assert t[8 + n] == '\n' && t[9 + n] == '`' && t[10 + n] == '`' && t[11 + n] == '`' by {
      var tail := t[8 + n..];
      assert tail[0] == t[8 + n] && tail[1] == t[9 + n] && tail[2] == t[10 + n] && tail[3] == t[11 + n];
    }
    assert JsonTag(t, 0) by { assert t[3..7] == t[..8][3..7] == "json"; }
    assert CloseAt(t, 8 + n) by { assert WsEnd(t, 9 + n) == 9 + n; }
    assert Lead(t, 7, 8);
    assert !IsSpace(t[8]) && t[7 + n] == obj[n - 1] == '}';
    forall i | 8 <= i < 8 + n ensures t[i] != '`' { assert obj[i - 8] != '`'; }
  }

  /** In a fenced object the fence matches at 0 and its group is exactly the object. */
  lemma FencedGroup(obj: string)
    requires BareObject(obj)
    ensures FenceSearch(Fenced(obj)) == Some(FenceHit(0, 8, 8 + |obj|))
  {
    FencedShape(obj);
    TaggedFenceAtStart(Fenced(obj), |obj|);
  }

  /** A reply that opens with ```json, whose body has no backtick and is
      trimmed, and that closes right after the body: the search finds the
      fence at 0 with the body as its group. */
  lemma TaggedFenceAtStart(t: string, n: nat)
    requires |t| == n + 12 && n >= 1
    requires t[3] == 'j' && t[7] == '\n' && !IsSpace(t[8]) && !IsSpace(t[7 + n])
    requires forall i :: 8 <= i < 8 + n ==> t[i] != '`'
    requires CloseAt(t, 8 + n) && FenceMatch(t, 0, 8, 8 + n)
    ensures FenceSearch(t) == Some(FenceHit(0, 8, 8 + n))
  {
    var r := FenceSearch(t);
    assert r.Some?;
    var h := r.value;
    assert h.start == 0;
    GroupBounds(t, n, h);
  }

  /** The group of a ```json fence whose body has no backtick and is trimmed:
      it starts after the first newline and ends before the last one. */
  lemma GroupBounds(t: string, n: nat, h: FenceHit)
    requires |t| == n + 12 && n >= 1
    requires t[3] == 'j' && t[7] == '\n' && !IsSpace(t[8]) && !IsSpace(t[7 + n])
    requires forall i :: 8 <= i < 8 + n ==> t[i] != '`'
    requires CloseAt(t, 8 + n)
    requires h.start == 0 && FenceMatch(t, 0, h.lo, h.hi)
    requires forall x :: h.lo <= x < h.hi ==> !CloseAt(t, x)
    ensures h == FenceHit(0, 8, 8 + n)
  {
    TaggedGroupStart(t, h.lo);
    GroupEnd(t, 8, 8 + n, h.hi);
  }

  /** After ```json and one newline, a group starting with a non-space
      character starts right after that newline. */
  lemma TaggedGroupStart(t: string, s: int)
    requires |t| > 8 && t[3] == 'j' && t[7] == '\n' && !IsSpace(t[8])
    requires Lead(t, 3, s) || Lead(t, 7, s)
    ensures s == 8
  {
  }

  /** The lazy group ends at the first closing line: when the text between
      `lo` and `e` has no backtick and ends in a non-space character, no
      closing line starts before `e`. */
  lemma GroupEnd(t: string, lo: int, e: int, hi: int)
    requires 0 <= lo < e < |t|
    requires forall i :: lo <= i < e ==> t[i] != '`'
    requires !IsSpace(t[e - 1]) && IsSpace(t[e])
    requires lo <= hi <= e && CloseAt(t, hi)
    ensures hi == e
  {
  }

  /** A bare object has no fence, and the brace scan spans all of it. */
  lemma BareBraces(obj: string)
    requires BareObject(obj)
    ensures FenceSearch(obj).None?
    ensures BraceSearch(obj) == Some((0, |obj|))
  {
    forall a, s, e ensures !FenceMatch(obj, a, s, e) {
      if 0 <= a < |obj| { assert obj[a] != '`'; }
    }
    assert BraceMatch(obj, 0, |obj|);
  }

  /** A reply made of one JSON object, fenced as ```json … ``` or bare, yields
      the same result: the fence is taken in the first case and the brace scan
      in the second, and both hand `json.loads` the object's text. */
  lemma FencedAndBareAgree(obj: string, loads: string -> Option<Json>)
    requires BareObject(obj)
    ensures ExtractJson(Fenced(obj), loads) == ExtractJson(obj, loads)
    ensures ExtractJson(obj, loads)
         == if loads(obj).Some? then Ok(loads(obj).value) else Err(InvalidJson(obj))
  {
    FencedGroup(obj);
    BareBraces(obj);
    assert obj[0..|obj|] == obj;
  }

  // ---------------------------------------------------------------------------
  // resolve
  // ---------------------------------------------------------------------------

  /** What the model call gives back: the reply's content (None when the
      provider returned none), an authentication failure, or any other failure. */
  datatype Reply = Answer(content: Option<string>) | AuthFailure | CallFailure

  /** The collaborators `resolve` cannot do without: SHA-256 as a hex digest,
      the model call (at temperature 0), `json.loads`, and the prompt's fixed
      instruction text between the language name and the fenced source. */
  datatype Env = Env(
    sha256: seq<byte> -> string,
    complete: (string, string) -> Reply,
    loads: string -> Option<Json>,
    instructions: string)

  /** Why `resolve` gave no result. */
  datatype ResolveError =
    | MissingApiKey           // the RuntimeError raised on an authentication failure
    | CompletionFailed        // any other exception of the model call, propagated
    | EmptyResponse           // the ValueError for a reply without content
    | Unparsable(e: ExtractError)

  /** The result, the cache afterwards, and how many model calls were made. */
  datatype Outcome = Outcome(result: Result<Json, ResolveError>, cache: Cache, calls: nat)

  /** `_source_hash`: the digest of the text's UTF-8 encoding. */
  function SourceHash(env: Env, annotated: string): string {
    env.sha256(Utf8.Encode(annotated))
  }

  /** The digest is taken of bytes that determine the text: two different
      sources are never hashed from the same input, so only a collision of
      the digest itself could make them share a cache entry. */
  lemma HashInputDeterminesSource(a: string, b: string)
    requires Utf8.Encode(a) == Utf8.Encode(b)
    ensures a == b
  {
    Utf8.DecodeEncode(a);
    Utf8.DecodeEncode(b);
  }

  /** `build_prompt`: the template with the language and the annotated source
      filled in; the source closes the prompt in a block fenced for the language. */
  function BuildPrompt(instructions: string, annotated: string, language: string): (r: string)
    ensures |r| >= |annotated| + 4
    ensures r[|r| - |annotated| - 4..] == annotated + "\n```"
  {
    var r := "Below is " + language + instructions + "```" + language + "\n" + annotated + "\n```";
    assert r == ("Below is " + language + instructions + "```" + language + "\n") + (annotated + "\n```");
    r
  }

  /** Two different sources never share a prompt. */
  lemma PromptDeterminesSource(instructions: string, a: string, b: string, language: string)
    requires BuildPrompt(instructions, a, language) == BuildPrompt(instructions, b, language)
    ensures a == b
  {
    var p := BuildPrompt(instructions, a, language);
    assert |a| == |b|;
    assert a + "\n```" == b + "\n```";
    assert a == (a + "\n```")[..|a|];
  }

  /** `resolve`. */
  function Resolve(env: Env, cache: Cache, annotated: string, language: string, model: string,
                   useCache: bool): (o: Outcome)
    ensures o.calls <= 1
    ensures o.calls == 0 <==> useCache && CacheGet(cache, SourceHash(env, annotated), model).Some?
    ensures o.calls == 0 ==> o.result == Ok(CacheGet(cache, SourceHash(env, annotated), model).value)
    ensures !useCache || o.result.Err? ==> o.cache == cache
    ensures useCache && o.result.Ok? ==> o.cache == cache[Key(SourceHash(env, annotated), model, PromptVersion) := o.result.value]
    ensures o.calls == 1 ==>
      var reply := env.complete(model, BuildPrompt(env.instructions, annotated, language));
      && (reply == AuthFailure ==> o.result == Err(MissingApiKey))
      && (reply == CallFailure ==> o.result == Err(CompletionFailed))
      && (reply == Answer(None) ==> o.result == Err(EmptyResponse))
      && (reply.Answer? && reply.content.Some? ==>
            var parsed := ExtractJson(reply.content.value, env.loads);
            o.result == if parsed.Ok? then Ok(parsed.value) else Err(Unparsable(parsed.error)))
  {
    var hash := SourceHash(env, annotated);
    var cached := if useCache then CacheGet(cache, hash, model) else None;
    if cached.Some? then
      assert cache[Key(hash, model, PromptVersion) := cached.value] == cache;
      Outcome(Ok(cached.value), cache, 0)
    else
      match env.complete(model, BuildPrompt(env.instructions, annotated, language))
      case AuthFailure => Outcome(Err(MissingApiKey), cache, 1)
      case CallFailure => Outcome(Err(CompletionFailed), cache, 1)
      case Answer(None) => Outcome(Err(EmptyResponse), cache, 1)
      case Answer(Some(text)) =>
        match ExtractJson(text, env.loads)
        case Err(e) => Outcome(Err(Unparsable(e)), cache, 1)
        case Ok(v) => Outcome(Ok(v), if useCache then CachePut(cache, hash, model, v) else cache, 1)
  }

  // ---------------------------------------------------------------------------
  // Properties of resolve
  // ---------------------------------------------------------------------------

  /** Asking twice costs at most one model call: after a successful call with
      the cache on, the same request is answered from the cache with the same
      result, unless that result is JSON `null`, which the cache cannot hold. */
  lemma SecondCallIsHit(env: Env, cache: Cache, annotated: string, language: string, model: string)
    requires Resolve(env, cache, annotated, language, model, true).result.Ok?
    requires Resolve(env, cache, annotated, language, model, true).result.value != JNull
    ensures var first := Resolve(env, cache, annotated, language, model, true);
      Resolve(env, first.cache, annotated, language, model, true) == Outcome(first.result, first.cache, 0)
  {
  }

  /** A cached `null` is a miss every time: the model is called again. */
  lemma CachedNullIsMiss(env: Env, cache: Cache, annotated: string, language: string, model: string)
    requires Key(SourceHash(env, annotated), model, PromptVersion) in cache
    requires cache[Key(SourceHash(env, annotated), model, PromptVersion)] == JNull
    ensures Resolve(env, cache, annotated, language, model, true).calls == 1
  {
  }

  /** With the cache off, the cache is neither read nor written: the outcome
      does not depend on it and leaves it as it was. */
  lemma CacheOffIgnoresCache(env: Env, c1: Cache, c2: Cache, annotated: string, language: string, model: string)
    ensures Resolve(env, c1, annotated, language, model, false).result
         == Resolve(env, c2, annotated, language, model, false).result
    ensures Resolve(env, c1, annotated, language, model, false).calls == 1
    ensures Resolve(env, c1, annotated, language, model, false).cache == c1
  {
  }

  /** An authentication failure on a miss surfaces as its own error and writes nothing. */
  lemma AuthFailureIsDistinct(env: Env, cache: Cache, annotated: string, language: string, model: string,
                              useCache: bool)
    requires !useCache || CacheGet(cache, SourceHash(env, annotated), model).None?
    requires env.complete(model, BuildPrompt(env.instructions, annotated, language)) == AuthFailure
    ensures Resolve(env, cache, annotated, language, model, useCache) == Outcome(Err(MissingApiKey), cache, 1)
  {
  }

  /** A reply that cannot be parsed is never cached: the next call asks the model again. */
  lemma FailureNotCached(env: Env, cache: Cache, annotated: string, language: string, model: string)
    requires Resolve(env, cache, annotated, language, model, true).result.Err?
    ensures var first := Resolve(env, cache, annotated, language, model, true);
      first.cache == cache && Resolve(env, first.cache, annotated, language, model, true).calls == 1
  {
  }

  /** Entries of other prompt versions and other keys never change what `resolve` does. */
  lemma OnlyOwnKeyMatters(env: Env, c1: Cache, c2: Cache, annotated: string, language: string, model: string)
    requires var k := Key(SourceHash(env, annotated), model, PromptVersion);
      (k in c1 <==> k in c2) && (k in c1 ==> c1[k] == c2[k])
    ensures Resolve(env, c1, annotated, language, model, true).result
         == Resolve(env, c2, annotated, language, model, true).result
  {
  }
}
