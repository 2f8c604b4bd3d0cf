/** Splitting a references section into single references, cleaning the
    first author's name, the regular-expression fallbacks for title, author
    and year, and the cleaning applied to what the language model returns.
    The language model itself is an input: for each reference text it gives
    the decoded JSON object, or nothing when the call or the decoding failed. */
module ReferenceParser {
  import opened Common

  // =====================================================================
  // Scanning helpers
  // =====================================================================

  /** The first index at or after `i` whose character satisfies `p` (`|s|` if none). */
  function IndexFrom(s: string, i: nat, p: char -> bool): (k: nat)
    requires i <= |s|
    ensures i <= k <= |s|
    ensures forall j :: i <= j < k ==> !p(s[j])
    ensures k < |s| ==> p(s[k])
    decreases |s| - i
  {
    if i == |s| || p(s[i]) then i else IndexFrom(s, i + 1, p)
  }

  function DigitsEnd(s: string, i: nat): nat
    requires i <= |s|
  {
    IndexFrom(s, i, (c: char) => !IsDigit(c))
  }

  // =====================================================================
  // _split_references
  // =====================================================================

  /** The separators tried, in order: `\n\d+\.\s+`, `\n\[\d+\]\s*`,
      `\n\(\d+\)\s*`, `\n\d+\)\s+`, and the blank-line fallback `\n\n`. */
  datatype Pattern = DotNumber | BracketNumber | ParenNumber | CloseNumber | BlankLine

  /** A newline, an optional opening bracket, one or more digits, the closing
      mark, then the run of whitespace that follows (at least one character
      of it when `needSpace`). Each quantifier is greedy and nothing after it
      constrains it, so the match is unique; the result is where it ends. */
  function NumberedAt(s: string, i: nat, open: Option<char>, close: char, needSpace: bool): (r: Option<nat>)
    requires i <= |s|
    ensures r.Some? ==> i < r.value <= |s|
  {
    if !(i < |s| && s[i] == '\n') then None
    else
      var a := if open.Some? then i + 2 else i + 1;
      if open.Some? && !(i + 1 < |s| && s[i + 1] == open.value) then None
      else
        var d := DigitsEnd(s, a);
        if d == a || d == |s| || s[d] != close then None
        else
          var e := SkipSpaces(s, d + 1);
          if needSpace && e == d + 1 then None else Some(e)
  }

  /** Where a match of `p` that starts at `i` ends, if one does. */
  function MatchAt(p: Pattern, s: string, i: nat): (r: Option<nat>)
    requires i <= |s|
    ensures r.Some? ==> i < r.value <= |s|
  {
    match p
    case DotNumber => NumberedAt(s, i, None, '.', true)
    case BracketNumber => NumberedAt(s, i, Some('['), ']', false)
    case ParenNumber => NumberedAt(s, i, Some('('), ')', false)
    case CloseNumber => NumberedAt(s, i, None, ')', true)
    case BlankLine => if OccursAt("\n\n", s, i) then Some(i + 2) else None
  }

  /** `re.search(p, s[i:])`: the leftmost position where `p` matches. */
  function FirstMatch(p: Pattern, s: string, i: nat): (r: Option<nat>)
    requires i <= |s|
    ensures r.Some? ==> i <= r.value < |s| && MatchAt(p, s, r.value).Some?
    ensures r.Some? ==> forall j :: i <= j < r.value ==> MatchAt(p, s, j).None?
    ensures r.None? ==> forall j :: i <= j <= |s| ==> MatchAt(p, s, j).None?
    decreases |s| - i
  {
    if i == |s| then None
    else if MatchAt(p, s, i).Some? then Some(i)
    else FirstMatch(p, s, i + 1)
  }

  /** `re.split(p, s)` (and `s.split('\n\n')`): the pieces between the
      leftmost non-overlapping matches, scanning from `i` in the current
      piece that begins at `start`. */
  function SplitFrom(p: Pattern, s: string, start: nat, i: nat): seq<string>
    requires start <= i <= |s|
    decreases |s| - i
  {
    if i == |s| then [s[start..]]
    else
      match MatchAt(p, s, i)
      case Some(k) => [s[start..i]] + SplitFrom(p, s, k, k)
      case None => SplitFrom(p, s, start, i + 1)
  }

  /** The separators that split removes, in order. */
  function SeparatorsFrom(p: Pattern, s: string, i: nat): seq<string>
    requires i <= |s|
    decreases |s| - i
  {
    if i == |s| then []
    else
      match MatchAt(p, s, i)
      case Some(k) => [s[i..k]] + SeparatorsFrom(p, s, k)
      case None => SeparatorsFrom(p, s, i + 1)
  }

  function SplitOn(p: Pattern, s: string): seq<string> {
    SplitFrom(p, s, 0, 0)
  }

  /** Pieces and separators, alternating: the inverse of splitting. */
  function Weave(pieces: seq<string>, seps: seq<string>): string
    requires |pieces| == |seps| + 1
    decreases |seps|
  {
    if seps == [] then pieces[0] else pieces[0] + seps[0] + Weave(pieces[1..], seps[1..])
  }

  /** Splitting loses nothing but the separators: weaving them back in gives
      the text again, so the pieces are in input order. */
  lemma {:induction false} SplitWeave(p: Pattern, s: string, start: nat, i: nat)
    requires start <= i <= |s|
    ensures |SplitFrom(p, s, start, i)| == |SeparatorsFrom(p, s, i)| + 1
    ensures Weave(SplitFrom(p, s, start, i), SeparatorsFrom(p, s, i)) == s[start..]
    decreases |s| - i
  {
    if i < |s| {
      var m := MatchAt(p, s, i);
      if m.Some? {
        var k := m.value;
        SplitWeave(p, s, k, k);
        WeaveCut(s, start, i, k, SplitFrom(p, s, k, k), SeparatorsFrom(p, s, k));
      } else {
        SplitWeave(p, s, start, i + 1);
      }
    }
  }

  lemma WeaveCut(s: string, start: nat, i: nat, k: nat, rest: seq<string>, restSeps: seq<string>)
    requires start <= i <= k <= |s| && |rest| == |restSeps| + 1
    requires Weave(rest, restSeps) == s[k..]
    ensures Weave([s[start..i]] + rest, [s[i..k]] + restSeps) == s[start..]
  {
    var pieces := [s[start..i]] + rest;
    var seps := [s[i..k]] + restSeps;
    assert pieces[1..] == rest && seps[1..] == restSeps;
    assert Weave(pieces, seps) == s[start..i] + s[i..k] + s[k..];
    SlicesJoin(s, start, i, k);
    AppendAssoc(s[start..i], s[i..k], s[k..]);
  }

  lemma SlicesJoin<T>(s: seq<T>, a: nat, b: nat, c: nat)
    requires a <= b <= c <= |s|
    ensures s[a..b] + s[b..c] + s[c..] == s[a..]
  {
  }

  lemma SplitRoundTrip(p: Pattern, s: string)
    ensures |SplitOn(p, s)| == |SeparatorsFrom(p, s, 0)| + 1
    ensures Weave(SplitOn(p, s), SeparatorsFrom(p, s, 0)) == s
  {
    SplitWeave(p, s, 0, 0);
  }

  /** There is more than one piece exactly when the pattern occurs. */
  lemma {:induction false} SplitsIffOccurs(p: Pattern, s: string, start: nat, i: nat)
    requires start <= i <= |s|
    ensures |SplitFrom(p, s, start, i)| > 1 <==> FirstMatch(p, s, i).Some?
    decreases |s| - i
  {
    SplitWeave(p, s, start, i);
    if i < |s| {
      match MatchAt(p, s, i)
      case Some(k) =>
        SplitWeave(p, s, k, k);
      case None =>
        SplitsIffOccurs(p, s, start, i + 1);
    }
  }

  /** `[ref.strip() for ref in refs if ref.strip()]` */
  function CleanPieces(refs: seq<string>): (r: seq<string>)
    ensures |r| <= |refs|
    ensures forall k :: 0 <= k < |r| ==> r[k] != [] && Stripped(r[k])
  {
    if refs == [] then []
    else (if Strip(refs[0]) != [] then [Strip(refs[0])] else []) + CleanPieces(refs[1..])
  }

  function StripAll(refs: seq<string>): seq<string> {
    seq(|refs|, k requires 0 <= k < |refs| => Strip(refs[k]))
  }

  /** The cleaning is the comprehension it is written as: strip every piece,
      then keep the non-empty results in order. */
  lemma {:induction false} CleanPiecesIsFilterMap(refs: seq<string>)
    ensures CleanPieces(refs) == Filter(StripAll(refs), (x: string) => x != [])
  {
    if refs != [] {
      CleanPiecesIsFilterMap(refs[1..]);
      assert StripAll(refs)[0] == Strip(refs[0]);
      assert StripAll(refs)[1..] == StripAll(refs[1..]);
    }
  }

  function SplitWith(p: Pattern, text: string): seq<string> {
    CleanPieces(SplitOn(p, text))
  }

  function Numberings(): seq<Pattern> {
    [DotNumber, BracketNumber, ParenNumber, CloseNumber]
  }

  /** Whether the `n`-th numbering pattern is the one used: it occurs and
      leaves more than one non-empty piece. */
  predicate Wins(n: nat, text: string)
    requires n < |Numberings()|
  {
    FirstMatch(Numberings()[n], text, 0).Some? && |SplitWith(Numberings()[n], text)| > 1
  }

  /** The patterns from the `n`-th on, then the blank-line fallback. */
  function SplitFromPattern(text: string, n: nat): seq<string>
    requires n <= |Numberings()|
    decreases |Numberings()| - n
  {
    if n == |Numberings()| then SplitWith(BlankLine, text)
    else if Wins(n, text) then SplitWith(Numberings()[n], text)
    else SplitFromPattern(text, n + 1)
  }

  function SplitSpec(text: string): seq<string> {
    SplitFromPattern(text, 0)
  }

  /** Every reference returned is stripped and non-empty, and there are
      never more of them than there are pieces of the split used. */
  lemma {:induction false} SplitPiecesClean(text: string, n: nat)
    requires n <= |Numberings()|
    ensures forall k :: 0 <= k < |SplitFromPattern(text, n)| ==>
      SplitFromPattern(text, n)[k] != [] && Stripped(SplitFromPattern(text, n)[k])
    decreases |Numberings()| - n
  {
    if n < |Numberings()| && !Wins(n, text) {
      SplitPiecesClean(text, n + 1);
    }
  }

  /** The `re.search` guard adds nothing: a split into two or more
      non-empty pieces is only possible when the pattern occurs. */
  lemma WinsWithoutSearch(n: nat, text: string)
    requires n < |Numberings()|
    ensures Wins(n, text) <==> |SplitWith(Numberings()[n], text)| > 1
  {
    SplitsIffOccurs(Numberings()[n], text, 0, 0);
  }

  lemma {:induction false} FirstWinnerFrom(text: string, n: nat, m: nat)
    requires n <= m < |Numberings()| && Wins(m, text)
    requires forall j :: n <= j < m ==> !Wins(j, text)
    ensures SplitFromPattern(text, n) == SplitWith(Numberings()[m], text)
    decreases m - n
  {
    if n < m {
      FirstWinnerFrom(text, n + 1, m);
    }
  }

  /** The first numbering pattern that wins decides the split. */
  lemma FirstWinnerUsed(text: string, m: nat)
    requires m < |Numberings()| && Wins(m, text)
    requires forall j :: 0 <= j < m ==> !Wins(j, text)
    ensures SplitSpec(text) == SplitWith(Numberings()[m], text)
  {
    FirstWinnerFrom(text, 0, m);
  }

  lemma {:induction false} NoWinnerFrom(text: string, n: nat)
    requires n <= |Numberings()|
    requires forall j :: n <= j < |Numberings()| ==> !Wins(j, text)
    ensures SplitFromPattern(text, n) == SplitWith(BlankLine, text)
    decreases |Numberings()| - n
  {
    if n < |Numberings()| {
      NoWinnerFrom(text, n + 1);
    }
  }

  /** The blank-line split is used when no numbering pattern wins. */
  lemma NoWinnerFallback(text: string)
    requires forall j :: 0 <= j < |Numberings()| ==> !Wins(j, text)
    ensures SplitSpec(text) == SplitWith(BlankLine, text)
  {
    NoWinnerFrom(text, 0);
  }

  /** `_split_references`: try the numbering patterns in order, returning
      the first split into more than one piece; else the blank-line split. */
  method SplitReferences(text: string) returns (refs: seq<string>)
    ensures refs == SplitSpec(text)
  {
    var patterns := Numberings();
    var n := 0;
    while n < |patterns|
      invariant 0 <= n <= |patterns|
      invariant SplitSpec(text) == SplitFromPattern(text, n)
    {
      var pattern := patterns[n];
      if FirstMatch(pattern, text, 0).Some? {
        refs := CleanPieces(SplitOn(pattern, text));
        if |refs| > 1 {
          return;
        }
      }
      n := n + 1;
    }
    refs := CleanPieces(SplitOn(BlankLine, text));
  }

  // =====================================================================
  // _clean_author_name
  // =====================================================================

  predicate NameChar(c: char) {
    IsWordChar(c) || c == '-'
  }

  /** `_clean_author_name`: `"Unknown"` for an empty name or one that
      cleans to nothing; otherwise the stripped name with each whitespace
      run replaced by one dash (its words joined by dashes, by `WordsJoin`)
      and every character but word characters and dashes dropped. */
  function CleanAuthorName(name: string): (r: string)
    ensures r != []
    ensures forall k :: 0 <= k < |r| ==> NameChar(r[k])
    ensures var cleaned := Filter(Join("-", Words(name)), NameChar);
      r == if name == [] || cleaned == [] then "Unknown" else cleaned
    ensures var cleaned := Filter(Join("-", Words(name)), NameChar);
      r == "Unknown" <==> name == [] || cleaned == [] || cleaned == "Unknown"
  {
    WordsJoin(name, "-");
    if name == [] then "Unknown"
    else
      var cleaned := Filter(SubSpaces(Strip(name), "-"), NameChar);
      if cleaned == [] then "Unknown" else cleaned
  }

  /** Cleaning a cleaned name changes nothing. */
  lemma CleanAuthorNameIdempotent(name: string)
    ensures CleanAuthorName(CleanAuthorName(name)) == CleanAuthorName(name)
  {
    var r := CleanAuthorName(name);
    assert NoSpace(r) by {
      forall k | 0 <= k < |r| ensures !IsSpace(r[k]) {
        assert NameChar(r[k]);
      }
    }
    WordsOfWord(r);
    FilterKeepsAll(r, NameChar);
  }

  // =====================================================================
  // The fallbacks
  // =====================================================================

  datatype Span = Span(start: nat, end: nat)

  /** `"([^"]+)"` starting at `i`: the span of the quoted content. */
  function QuotedAt(s: string, i: nat): (r: Option<Span>)
    requires i <= |s|
    ensures r.Some? ==>
      r.value.start == i + 1 && i + 1 < r.value.end < |s| &&
      s[i] == '"' && s[r.value.end] == '"' && '"' !in s[r.value.start..r.value.end]
  {
    if i < |s| && s[i] == '"' then
      var j := IndexFrom(s, i + 1, (c: char) => c == '"');
      if i + 1 < j < |s| then Some(Span(i + 1, j)) else None
    else None
  }

  /** `re.search(r'"([^"]+)"', s[i:])` */
  function FirstQuoted(s: string, i: nat): (r: Option<Span>)
    requires i <= |s|
    ensures r.Some? ==> i < r.value.start < |s| && QuotedAt(s, r.value.start - 1) == r
    ensures r.Some? ==> forall j :: i <= j < r.value.start - 1 ==> QuotedAt(s, j).None?
    ensures r.None? ==> forall j :: i <= j <= |s| ==> QuotedAt(s, j).None?
    decreases |s| - i
  {
    if i == |s| then None
    else if QuotedAt(s, i).Some? then QuotedAt(s, i)
    else FirstQuoted(s, i + 1)
  }

  /** `[A-Z][^.]*\.[^A-Z]*([A-Z][^.]*\.)` starting at `i`: the span of the
      group. Each class excludes what must follow it, so the first full
      stop, the first capital after it and the full stop after that are
      the only choice. */
  function SentenceAt(s: string, i: nat): (r: Option<Span>)
    requires i <= |s|
    ensures r.Some? ==>
      i < r.value.start < r.value.end <= |s| && IsUpper(s[i]) &&
      IsUpper(s[r.value.start]) && s[r.value.end - 1] == '.' &&
      '.' !in s[r.value.start..r.value.end - 1]
  {
    if i < |s| && IsUpper(s[i]) then
      var d := IndexFrom(s, i + 1, (c: char) => c == '.');
      if d == |s| then None
      else
        var m := IndexFrom(s, d + 1, IsUpper);
        if m == |s| then None
        else
          var q := IndexFrom(s, m + 1, (c: char) => c == '.');
          if q == |s| then None else Some(Span(m, q + 1))
    else None
  }

  /** `re.search` of the sentence pattern: the first position it matches. */
  function FirstSentence(s: string, i: nat): (r: Option<(nat, Span)>)
    requires i <= |s|
    ensures r.Some? ==> i <= r.value.0 < |s| && SentenceAt(s, r.value.0) == Some(r.value.1)
    ensures r.Some? ==> forall j :: i <= j < r.value.0 ==> SentenceAt(s, j).None?
    ensures r.None? ==> forall j :: i <= j <= |s| ==> SentenceAt(s, j).None?
    decreases |s| - i
  {
    if i == |s| then None
    else if SentenceAt(s, i).Some? then Some((i, SentenceAt(s, i).value))
    else FirstSentence(s, i + 1)
  }

  /** `s.rstrip(chars)` */
  function RStrip(s: string, chars: set<char>): (r: string)
    ensures |r| <= |s| && r == s[..|r|]
    ensures r == [] || r[|r| - 1] !in chars
    ensures forall k :: |r| <= k < |s| ==> s[k] in chars
    decreases |s|
  {
    if s != [] && s[|s| - 1] in chars then RStrip(s[..|s| - 1], chars) else s
  }

  /** `_extract_title_fallback`: the first quoted content, else the group of
      the sentence pattern, each stripped; else the first ten words joined
      by spaces without trailing `.`, `,` or `;`. */
  function TitleFallback(text: string): string
  {
    var quoted := FirstQuoted(text, 0);
    if quoted.Some? then Strip(text[quoted.value.start..quoted.value.end])
    else
      var sentence := FirstSentence(text, 0);
      if sentence.Some? then Strip(text[sentence.value.1.start..sentence.value.1.end])
      else RStrip(Join(" ", Take(Words(text), 10)), {'.', ',', ';'})
  }

  /** A quoted title wins: the result is the first quoted content, stripped,
      and contains no quote mark. */
  lemma TitleFallbackQuoted(text: string)
    requires FirstQuoted(text, 0).Some?
    ensures var span := FirstQuoted(text, 0).value;
      TitleFallback(text) == Strip(text[span.start..span.end]) && '"' !in TitleFallback(text)
  {
    var span := FirstQuoted(text, 0).value;
    var content := text[span.start..span.end];
    assert TitleFallback(text) == Strip(content);
    NoQuoteInStrip(content);
  }

  lemma NoQuoteInStrip(content: string)
    requires '"' !in content
    ensures '"' !in Strip(content)
  {
    var r := Strip(content);
    var a, b :| 0 <= a <= b <= |content| && r == content[a..b];
    assert forall j :: 0 <= j < |r| ==> r[j] == content[a + j];
  }

  /** Without a match for either pattern: the space-join of the first ten
      words with only trailing `.`, `,` and `;` cut off, and none of them
      left at the end. */
  lemma TitleFallbackWords(text: string)
    requires FirstQuoted(text, 0).None? && FirstSentence(text, 0).None?
    ensures var r := TitleFallback(text);
      var joined := Join(" ", Take(Words(text), 10));
      |r| <= |joined| && r == joined[..|r|] && (r == [] || r[|r| - 1] !in {'.', ',', ';'}) &&
      forall k :: |r| <= k < |joined| ==> joined[k] in {'.', ',', ';'}
  {
  }

  /** `_extract_author_fallback`: the first word with everything but word
      characters and whitespace removed, then cleaned; `"Unknown"` with no
      words at all. Since a word holds no whitespace, the result is the
      word characters of the first word, or `"Unknown"` when it has none. */
  function AuthorFallback(text: string): (r: string)
    ensures r != []
    ensures Words(text) == [] ==> r == "Unknown"
    ensures Words(text) != [] ==>
      var w := Filter(Words(text)[0], IsWordChar);
      r == if w == [] then "Unknown" else w
    ensures forall k :: 0 <= k < |r| ==> NameChar(r[k])
  {
    var words := Words(text);
    if words == [] then "Unknown"
    else
      CleanWordToken(words[0]);
      CleanAuthorName(Filter(words[0], (c: char) => IsWordChar(c) || IsSpace(c)))
  }

  /** Cleaning a whitespace-free token keeps exactly its word characters. */
  lemma CleanWordToken(t: string)
    requires NoSpace(t)
    ensures var w := Filter(t, IsWordChar);
      CleanAuthorName(Filter(t, (c: char) => IsWordChar(c) || IsSpace(c))) ==
        if w == [] then "Unknown" else w
  {
    FilterNoSpace(t);
    var w := Filter(t, IsWordChar);
    if w != [] {
      assert NoSpace(w);
      WordsOfWord(w);
      FilterKeepsAll(w, NameChar);
    }
  }

  /** On a whitespace-free token, keeping word characters and whitespace is
      keeping word characters. */
  lemma {:induction false} FilterNoSpace(t: string)
    requires NoSpace(t)
    ensures Filter(t, (c: char) => IsWordChar(c) || IsSpace(c)) == Filter(t, IsWordChar)
  {
    if t != [] { FilterNoSpace(t[1..]); }
  }

  /** `\b(19\d{2}|20\d{2})\b` at `i` (a digit is a word character, so each
      `\b` means the neighbour is not one). */
  predicate YearAt(s: string, i: nat) {
    i + 4 <= |s| &&
    (i == 0 || !IsWordChar(s[i - 1])) &&
    ((s[i] == '1' && s[i + 1] == '9') || (s[i] == '2' && s[i + 1] == '0')) &&
    IsDigit(s[i + 2]) && IsDigit(s[i + 3]) &&
    (i + 4 == |s| || !IsWordChar(s[i + 4]))
  }

  function FirstYear(s: string, i: nat): (r: Option<nat>)
    requires i <= |s|
    ensures r.Some? ==> i <= r.value && YearAt(s, r.value)
    ensures r.Some? ==> forall j :: i <= j < r.value ==> !YearAt(s, j)
    ensures r.None? ==> forall j :: i <= j <= |s| ==> !YearAt(s, j)
    decreases |s| - i
  {
    if i + 4 > |s| then None
    else if YearAt(s, i) then Some(i)
    else FirstYear(s, i + 1)
  }

  /** `_extract_year_fallback`: the first word-bounded `19xx` or `20xx`. */
  function YearFallback(text: string): (r: Option<string>)
    ensures r.None? ==> forall j :: 0 <= j <= |text| ==> !YearAt(text, j)
    ensures r.Some? ==>
      |r.value| == 4 && (r.value[..2] == "19" || r.value[..2] == "20") &&
      forall m :: 0 <= m < 4 ==> IsDigit(r.value[m])
    ensures r.Some? ==> exists j :: 0 <= j <= |text| - 4 && YearAt(text, j) &&
                                    OccursAt(r.value, text, j) && forall i :: 0 <= i < j ==> !YearAt(text, i)
  {
    var k := FirstYear(text, 0);
    if k.None? then None
    else
      var y := text[k.value..k.value + 4];
      assert OccursAt(y, text, k.value);
      assert y[..2] == [text[k.value], text[k.value + 1]];
      Some(y)
  }

  // =====================================================================
  // _parse_single_reference (after the model call) and parse_references
  // =====================================================================

  /** A value of the decoded JSON object: `null`, a string, or anything else
      (a number, boolean, list or object), of which only the truth value
      matters here. */
  datatype Json = JNull | JStr(s: string) | JOther(truthy: bool)

  /** The fields of one parsed reference. */
  datatype RefData = RefData(
    title: Option<string>,
    firstAuthor: string,
    journal: Option<string>,
    year: Option<string>)

  datatype ParsedRef = ParsedRef(data: RefData, originalText: string)

  function Get(d: map<string, Json>, key: string): Option<Json> {
    if key in d then Some(d[key]) else None
  }

  /** `d.get(key, '').strip() if d.get(key) else None`; the outer `None`
      is the exception `.strip()` raises on a truthy value that is not a
      string. */
  function CleanField(v: Option<Json>): (r: Option<Option<string>>)
    ensures r.Some? && r.value.Some? ==> Stripped(r.value.value)
  {
    match v
    case None => Some(None)
    case Some(JNull) => Some(None)
    case Some(JStr(s)) => if s == [] then Some(None) else Some(Some(Strip(s)))
    case Some(JOther(truthy)) => if truthy then None else Some(None)
  }

  /** `_clean_author_name(d.get('first_author', ''))`; `None` when it raises. */
  function CleanAuthorField(v: Option<Json>): Option<string>
  {
    match v
    case None => Some(CleanAuthorName(""))
    case Some(JNull) => Some("Unknown")
    case Some(JStr(s)) => Some(CleanAuthorName(s))
    case Some(JOther(truthy)) => if truthy then None else Some("Unknown")
  }

  /** The dictionary returned when anything in the model path fails. */
  function Fallback(text: string): RefData {
    RefData(Some(TitleFallback(text)), AuthorFallback(text), None, YearFallback(text))
  }

  /** `_parse_single_reference`, given what the model returned for `text`. */
  function ParseSingleReference(text: string, extracted: Option<map<string, Json>>): RefData
  {
    if extracted.None? then Fallback(text)
    else
      var d := extracted.value;
      var title := CleanField(Get(d, "title"));
      var author := CleanAuthorField(Get(d, "first_author"));
      var journal := CleanField(Get(d, "journal"));
      var year := CleanField(Get(d, "year"));
      if title.None? || author.None? || journal.None? || year.None? then Fallback(text)
      else RefData(title.value, author.value, journal.value, year.value)
  }

  /** A truthy value that is not a string, on which `.strip()` raises. */
  predicate RaisesOnStrip(v: Option<Json>) {
    v.Some? && v.value.JOther? && v.value.truthy
  }

  /** Whatever the model returns, the first author is a non-empty run of
      word characters and dashes; a failed call, or an answer with a field
      on which `.strip()` raises, gives the regular-expression fallbacks
      with no journal, and a usable answer gives stripped fields. */
  lemma ParsedReferenceShape(text: string, extracted: Option<map<string, Json>>)
    ensures var r := ParseSingleReference(text, extracted);
      r.firstAuthor != [] && (forall k :: 0 <= k < |r.firstAuthor| ==> NameChar(r.firstAuthor[k])) &&
      (extracted.None? ==> r == Fallback(text) && r.journal.None?) &&
      (extracted.Some? &&
       (RaisesOnStrip(Get(extracted.value, "title")) || RaisesOnStrip(Get(extracted.value, "first_author")) ||
        RaisesOnStrip(Get(extracted.value, "journal")) || RaisesOnStrip(Get(extracted.value, "year"))) ==>
         r == Fallback(text) && r.journal.None?) &&
      (r != Fallback(text) ==>
         (r.title.Some? ==> Stripped(r.title.value)) &&
         (r.journal.Some? ==> Stripped(r.journal.value)) &&
         (r.year.Some? ==> Stripped(r.year.value)))
  {
    if extracted.Some? {
      var d := extracted.value;
      if RaisesOnStrip(Get(d, "title")) || RaisesOnStrip(Get(d, "first_author")) ||
         RaisesOnStrip(Get(d, "journal")) || RaisesOnStrip(Get(d, "year")) {
        RaisingFieldFallsBack(text, d);
      }
    }
  }

  /** A field on which `.strip()` raises sends the parse to the fallback. */
  lemma RaisingFieldFallsBack(text: string, d: map<string, Json>)
    requires RaisesOnStrip(Get(d, "title")) || RaisesOnStrip(Get(d, "first_author")) ||
             RaisesOnStrip(Get(d, "journal")) || RaisesOnStrip(Get(d, "year"))
    ensures ParseSingleReference(text, Some(d)) == Fallback(text)
  {
  }

  /** The parse of a single reference text, with the model's answer for it. */
  function ParserOf(model: string -> Option<map<string, Json>>): string -> RefData {
    (text: string) => ParseSingleReference(text, model(text))
  }

  /** The non-blank reference texts, stripped, each paired with its parse. */
  function ParsedTexts(refs: seq<string>, parse: string -> RefData): seq<ParsedRef>
  {
    if refs == [] then []
    else ParsedTexts(refs[..|refs| - 1], parse) + ParsedOne(refs[|refs| - 1], parse)
  }

  function ParsedOne(refText: string, parse: string -> RefData): seq<ParsedRef> {
    if Strip(refText) != [] then [ParsedRef(parse(Strip(refText)), Strip(refText))] else []
  }

  /** When every text is already stripped and non-blank, each one yields
      exactly one parsed reference, at its own index. */
  lemma {:induction false} ParsedTextsOfClean(refs: seq<string>, parse: string -> RefData)
    requires forall k :: 0 <= k < |refs| ==> refs[k] != [] && Stripped(refs[k])
    ensures |ParsedTexts(refs, parse)| == |refs|
    ensures forall k :: 0 <= k < |refs| ==> ParsedTexts(refs, parse)[k] == ParsedRef(parse(refs[k]), refs[k])
  {
    if refs != [] {
      var init := refs[..|refs| - 1];
      var last := refs[|refs| - 1];
      ParsedTextsOfClean(init, parse);
      StripOfStripped(last);
      var before := ParsedTexts(init, parse);
      var all := ParsedTexts(refs, parse);
      assert all == before + [ParsedRef(parse(last), last)];
      forall k | 0 <= k < |refs|
        ensures all[k] == ParsedRef(parse(refs[k]), refs[k])
      {
        if k < |init| {
          assert all[k] == before[k] && init[k] == refs[k];
        }
      }
    }
  }

  /** The loop of `parse_references`. */
  method ParseEach(refs: seq<string>, parse: string -> RefData) returns (parsedRefs: seq<ParsedRef>)
    ensures parsedRefs == ParsedTexts(refs, parse)
  {
    parsedRefs := [];
    for i := 0 to |refs|
      invariant parsedRefs == ParsedTexts(refs[..i], parse)
    {
      var refText := refs[i];
      if Strip(refText) != [] {
        var stripped := Strip(refText);
        parsedRefs := parsedRefs + [ParsedRef(parse(stripped), stripped)];
      }
      assert refs[..i + 1][..i] == refs[..i];
    }
    assert refs[..|refs|] == refs;
  }

  /** `parse_references`: one parsed reference per piece of the split, in
      order, each carrying its piece as `original_text`. */
  method ParseReferences(referencesText: string, model: string -> Option<map<string, Json>>)
    returns (parsedRefs: seq<ParsedRef>)
    ensures var pieces := SplitSpec(referencesText);
      |parsedRefs| == |pieces| &&
      forall k :: 0 <= k < |pieces| ==>
        parsedRefs[k] == ParsedRef(ParseSingleReference(pieces[k], model(pieces[k])), pieces[k])
  {
    var individualRefs := SplitReferences(referencesText);
    parsedRefs := ParseEach(individualRefs, ParserOf(model));
    SplitPiecesClean(referencesText, 0);
    ParsedTextsOfClean(individualRefs, ParserOf(model));
  }
}
