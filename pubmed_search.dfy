/** The article resolver (`backend/pubmed_search.py`): turns a noisy title,
    optionally with an author, into an ordered list of PubMed queries, tries
    them in order through the rate limiter, and accepts the first fetched
    record whose title overlaps the original title well enough. */
module PubMedSearch {
  import opened Common
  import opened XmlTree
  import opened RateLimit

  // =====================================================================
  // Significant words
  // =====================================================================

  /** The 38 stop words of `_extract_significant_words`. */
  const SignificantStopWords: set<string> := {
    "the", "a", "an", "and", "or", "but", "in", "on", "at", "to", "for",
    "of", "with", "by", "is", "are", "was", "were", "be", "been", "have",
    "has", "had", "do", "does", "did", "will", "would", "could", "should",
    "may", "might", "must", "can", "this", "that", "these", "those"
  }

  predicate Significant(w: string) {
    w !in SignificantStopWords
  }

  /** At most this many significant words are kept. */
  const MaxSignificantWords: nat := 8

  predicate AllLetters(w: string) {
    forall k :: 0 <= k < |w| ==> IsAsciiLetter(w[k])
  }

  /** The index just past the run of ASCII letters that starts at `i`. */
  function LetterRunEnd(s: string, i: nat): (k: nat)
    requires i <= |s|
    ensures i <= k <= |s|
    ensures forall m :: i <= m < k ==> IsAsciiLetter(s[m])
    ensures k < |s| ==> !IsAsciiLetter(s[k])
    decreases |s| - i
  {
    if i < |s| && IsAsciiLetter(s[i]) then LetterRunEnd(s, i + 1) else i
  }

  /** `s[a..b]` is a run of at least 3 ASCII letters with a word boundary
      (`\b`) on each side. */
  predicate BoundedRunAt(s: string, a: nat, b: nat) {
    a + 3 <= b <= |s| &&
    AllLetters(s[a..b]) &&
    (a == 0 || !IsWordChar(s[a - 1])) &&
    (b == |s| || !IsWordChar(s[b]))
  }

  /** `w` occurs in `s` as a bounded run of at least 3 letters. */
  ghost predicate IsBoundedRunOf(w: string, s: string) {
    exists a: nat :: BoundedRunAt(s, a, a + |w|) && OccursAt(w, s, a)
  }

  /** `re.findall(r'\b[a-zA-Z]{3,}\b', s[i:])` for an `i` that is not inside
      a letter run: every maximal letter run of length 3 or more that has
      no word character on either side, left to right. */
  function BoundedRuns(s: string, i: nat): seq<string>
    requires i <= |s|
    requires i == 0 || i == |s| || !IsAsciiLetter(s[i - 1]) || !IsAsciiLetter(s[i])
    decreases |s| - i
  {
    if i == |s| then []
    else if !IsAsciiLetter(s[i]) then BoundedRuns(s, i + 1)
    else
      var j := LetterRunEnd(s, i);
      var keep := j - i >= 3 && (i == 0 || !IsWordChar(s[i - 1])) && (j == |s| || !IsWordChar(s[j]));
      (if keep then [s[i..j]] else []) + BoundedRuns(s, j)
  }

  /** `_extract_significant_words`: the bounded letter runs of the
      lower-cased title that are not stop words, the first 8 of them in
      title order (`BoundedRunsComplete` gives the order of the runs). */
  function ExtractSignificantWords(title: string): (r: seq<string>)
    ensures var significant := Filter(BoundedRuns(Lower(title), 0), Significant);
      |r| == (if |significant| < MaxSignificantWords then |significant| else MaxSignificantWords) &&
      r == significant[..|r|]
    ensures |r| <= MaxSignificantWords
    ensures forall k :: 0 <= k < |r| ==>
      |r[k]| >= 3 && r[k] !in SignificantStopWords &&
      (forall m :: 0 <= m < |r[k]| ==> IsLower(r[k][m]))
    ensures forall k :: 0 <= k < |r| ==> IsBoundedRunOf(r[k], Lower(title))
  {
    var low := Lower(title);
    var runs := BoundedRuns(low, 0);
    var significant := Filter(runs, Significant);
    var r := Take(significant, MaxSignificantWords);
    forall k | 0 <= k < |r|
      ensures |r[k]| >= 3 && r[k] !in SignificantStopWords
      ensures forall m :: 0 <= m < |r[k]| ==> IsLower(r[k][m])
      ensures IsBoundedRunOf(r[k], low)
    {
      assert r[k] in significant;
      BoundedRunsSound(low, 0, r[k]);
      var a: nat :| BoundedRunAt(low, a, a + |r[k]|) && OccursAt(r[k], low, a);
      forall m | 0 <= m < |r[k]| ensures IsLower(r[k][m]) {
        assert r[k][m] == low[a..a + |r[k]|][m] == low[a + m];
        assert IsAsciiLetter(low[a..a + |r[k]|][m]);
        assert low[a + m] == LowerChar(title[a + m]);
      }
    }
    r
  }

  /** Every word found is a bounded letter run at some position of `s`. */
  lemma {:induction false} BoundedRunsSound(s: string, i: nat, w: string)
    requires i <= |s|
    requires i == 0 || i == |s| || !IsAsciiLetter(s[i - 1]) || !IsAsciiLetter(s[i])
    requires w in BoundedRuns(s, i)
    ensures |w| >= 3
    ensures IsBoundedRunOf(w, s)
    decreases |s| - i
  {
    if i == |s| {
    } else if !IsAsciiLetter(s[i]) {
      BoundedRunsSound(s, i + 1, w);
    } else {
      var j := LetterRunEnd(s, i);
      var keep := j - i >= 3 && (i == 0 || !IsWordChar(s[i - 1])) && (j == |s| || !IsWordChar(s[j]));
      if keep && w == s[i..j] {
        assert BoundedRunAt(s, i, i + |w|) && OccursAt(w, s, i);
      } else {
        assert w in BoundedRuns(s, j);
        BoundedRunsSound(s, j, w);
      }
    }
  }

  /** Letters up to `b` and none at `b`: the letter run ends at `b`. */
  lemma {:induction false} LetterRunEndAt(s: string, i: nat, b: nat)
    requires i <= b <= |s|
    requires forall m :: i <= m < b ==> IsAsciiLetter(s[m])
    requires b == |s| || !IsAsciiLetter(s[b])
    ensures LetterRunEnd(s, i) == b
    decreases b - i
  {
    if i < b {
      LetterRunEndAt(s, i + 1, b);
    }
  }

  /** A bounded run ends where its letters end. */
  lemma BoundedRunEnd(s: string, a: nat, b: nat)
    requires BoundedRunAt(s, a, b)
    ensures b == LetterRunEnd(s, a)
  {
    forall m | a <= m < b
      ensures IsAsciiLetter(s[m])
    {
      assert s[a..b][m - a] == s[m];
    }
    LetterRunEndAt(s, a, b);
  }

  /** A bounded run of at least 3 letters starts at `a`. */
  predicate RunStart(s: string, a: nat) {
    a < |s| && BoundedRunAt(s, a, LetterRunEnd(s, a))
  }

  /** The number of bounded runs that start before `n`. */
  function RunStarts(s: string, n: nat): nat
    requires n <= |s|
  {
    if n == 0 then 0 else RunStarts(s, n - 1) + (if RunStart(s, n - 1) then 1 else 0)
  }

  /** No run starts strictly inside a run of letters. */
  lemma {:induction false} NoStartInside(s: string, i: nat, n: nat)
    requires i <= |s| && i < n <= LetterRunEnd(s, i)
    ensures RunStarts(s, n) == RunStarts(s, i + 1)
    decreases n
  {
    if n > i + 1 {
      NoStartInside(s, i, n - 1);
      assert IsWordChar(s[n - 2]);
    }
  }

  /** `BoundedRuns(s, i)` has one word per run that starts at or after `i`. */
  lemma {:induction false} BoundedRunsLength(s: string, i: nat)
    requires i <= |s|
    requires i == 0 || i == |s| || !IsAsciiLetter(s[i - 1]) || !IsAsciiLetter(s[i])
    ensures |BoundedRuns(s, i)| == RunStarts(s, |s|) - RunStarts(s, i)
    decreases |s| - i
  {
    if i == |s| {
    } else if !IsAsciiLetter(s[i]) {
      BoundedRunsLength(s, i + 1);
    } else {
      var j := LetterRunEnd(s, i);
      BoundedRunsLength(s, j);
      NoStartInside(s, i, j);
    }
  }

  /** A run that starts at `i` is the first word of `BoundedRuns(s, i)`. */
  lemma BoundedRunsHead(s: string, i: nat, b: nat)
    requires BoundedRunAt(s, i, b)
    ensures BoundedRuns(s, i) != [] && BoundedRuns(s, i)[0] == s[i..b]
  {
    BoundedRunEnd(s, i, b);
    assert IsAsciiLetter(s[i..b][0]);
  }

  /** The run at `a` is the word of `BoundedRuns(s, i)` whose index is the
      number of runs that start between `i` and `a`. */
  lemma {:induction false} BoundedRunsIndexed(s: string, i: nat, a: nat, b: nat)
    requires i <= a && BoundedRunAt(s, a, b)
    requires i == 0 || i == |s| || !IsAsciiLetter(s[i - 1]) || !IsAsciiLetter(s[i])
    ensures RunStarts(s, i) <= RunStarts(s, a)
    ensures RunStarts(s, a) - RunStarts(s, i) < |BoundedRuns(s, i)|
    ensures BoundedRuns(s, i)[RunStarts(s, a) - RunStarts(s, i)] == s[a..b]
    decreases |s| - i
  {
    if a == i {
      BoundedRunsHead(s, i, b);
    } else if !IsAsciiLetter(s[i]) {
      BoundedRunsIndexed(s, i + 1, a, b);
      assert !RunStart(s, i);
    } else {
      var j := LetterRunEnd(s, i);
      var head := if RunStart(s, i) then [s[i..j]] else [];
      var rest := BoundedRuns(s, j);
      BoundedRunsSkip(s, i);
      NoStartInside(s, i, j);
      assert RunStarts(s, j) == RunStarts(s, i) + |head|;
      RunAfterRun(s, i, a, b);
      BoundedRunsIndexed(s, j, a, b);
      var k := RunStarts(s, a) - RunStarts(s, j);
      assert (head + rest)[|head| + k] == rest[k];
    }
  }

  /** A bounded run that starts after `i` starts at or after the end of
      the letter run at `i`. */
  lemma RunAfterRun(s: string, i: nat, a: nat, b: nat)
    requires i < a && BoundedRunAt(s, a, b)
    ensures LetterRunEnd(s, i) <= a
  {
  }

  /** Past a letter run, `BoundedRuns` goes on from the run's end, and the
      run is kept exactly when it is a bounded run. */
  lemma BoundedRunsSkip(s: string, i: nat)
    requires i < |s| && IsAsciiLetter(s[i])
    requires i == 0 || !IsAsciiLetter(s[i - 1])
    ensures var j := LetterRunEnd(s, i);
      BoundedRuns(s, i) == (if RunStart(s, i) then [s[i..j]] else []) + BoundedRuns(s, j)
  {
  }

  /** `re.findall` is complete and ordered: it finds one word per bounded
      run, and the run with `k` runs before it is the `k`-th word. */
  lemma BoundedRunsComplete(s: string)
    ensures |BoundedRuns(s, 0)| == RunStarts(s, |s|)
    ensures forall a: nat, b: nat :: BoundedRunAt(s, a, b) ==>
      RunStarts(s, a) < |BoundedRuns(s, 0)| && BoundedRuns(s, 0)[RunStarts(s, a)] == s[a..b]
  {
    BoundedRunsLength(s, 0);
    forall a: nat, b: nat | BoundedRunAt(s, a, b)
      ensures RunStarts(s, a) < |BoundedRuns(s, 0)| && BoundedRuns(s, 0)[RunStarts(s, a)] == s[a..b]
    {
      BoundedRunsIndexed(s, 0, a, b);
    }
  }

  /** Room the words take in the text they came from: each word and the one
      separator after it. */
  function Footprint(ws: seq<string>): nat {
    if ws == [] then 0 else |ws[0]| + 1 + Footprint(ws[1..])
  }

  lemma FootprintCons(w: string, rest: seq<string>)
    ensures Footprint([w] + rest) == |w| + 1 + Footprint(rest)
  {
    assert ([w] + rest)[1..] == rest;
  }

  /** Distinct runs are separated by at least one character, so the words
      found in `s[i..]` take no more room than that suffix plus one. */
  lemma {:induction false} BoundedRunsFootprint(s: string, i: nat)
    requires i <= |s|
    requires i == 0 || i == |s| || !IsAsciiLetter(s[i - 1]) || !IsAsciiLetter(s[i])
    ensures Footprint(BoundedRuns(s, i)) <= |s| - i + 1
    decreases |s| - i
  {
    if i == |s| {
    } else if !IsAsciiLetter(s[i]) {
      BoundedRunsFootprint(s, i + 1);
    } else {
      var j := LetterRunEnd(s, i);
      var rest := BoundedRuns(s, j);
      if j < |s| {
        assert rest == BoundedRuns(s, j + 1);
        BoundedRunsFootprint(s, j + 1);
      } else {
        assert rest == [];
      }
      assert Footprint(rest) <= |s| - j;
      var keep := j - i >= 3 && (i == 0 || !IsWordChar(s[i - 1])) && (j == |s| || !IsWordChar(s[j]));
      if keep {
        FootprintCons(s[i..j], rest);
        assert BoundedRuns(s, i) == [s[i..j]] + rest;
      } else {
        assert BoundedRuns(s, i) == rest;
      }
    }
  }

  lemma {:induction false} FilterFootprint(ws: seq<string>, p: string -> bool)
    ensures Footprint(Filter(ws, p)) <= Footprint(ws)
  {
    if ws != [] {
      FilterFootprint(ws[1..], p);
      var rest := Filter(ws[1..], p);
      if p(ws[0]) {
        assert Filter(ws, p) == [ws[0]] + rest;
        assert ([ws[0]] + rest)[1..] == rest;
        assert Footprint([ws[0]] + rest) == |ws[0]| + 1 + Footprint(rest);
      } else {
        assert Filter(ws, p) == rest;
      }
    }
  }

  lemma {:induction false} PrefixFootprint(ws: seq<string>, n: nat)
    requires n <= |ws|
    ensures Footprint(ws[..n]) <= Footprint(ws)
  {
    if n > 0 {
      assert ws[..n][1..] == ws[1..][..n - 1];
      PrefixFootprint(ws[1..], n - 1);
    }
  }

  lemma {:induction false} LongWordsFootprint(ws: seq<string>)
    requires forall k :: 0 <= k < |ws| ==> |ws[k]| >= 3
    ensures Footprint(ws) >= 4 * |ws|
  {
    if ws != [] {
      LongWordsFootprint(ws[1..]);
    }
  }

  /** Three significant words need at least 3 * 3 letters and two
      separators, so a title that has them is longer than 10 characters. */
  lemma ThreeWordsAreLong(title: string)
    requires |ExtractSignificantWords(title)| >= 3
    ensures |title| > 10
  {
    var low := Lower(title);
    var runs := BoundedRuns(low, 0);
    var significant := Filter(runs, Significant);
    var r := ExtractSignificantWords(title);
    BoundedRunsFootprint(low, 0);
    FilterFootprint(runs, Significant);
    PrefixFootprint(significant, |r|);
    LongWordsFootprint(r);
  }

  // =====================================================================
  // Search strategies
  // =====================================================================

  /** `title.replace('"', '').replace(':', '').strip()` */
  function CleanTitle(title: string): string
  {
    Strip(RemoveChar(RemoveChar(title, '"'), ':'))
  }

  /** A cleaned title holds no quote and no colon, and has no surrounding whitespace. */
  lemma CleanTitleShape(title: string)
    ensures var r := CleanTitle(title);
      '"' !in r && ':' !in r && Stripped(r)
  {
    var once := RemoveChar(title, '"');
    var twice := RemoveChar(once, ':');
    StripKeeps(twice, '"');
    StripKeeps(twice, ':');
  }

  /** `' AND '.join(f'{word}[Title/Abstract]' for word in significant_words)` */
  function WordQuery(words: seq<string>): string
  {
    Join(" AND ", seq(|words|, k requires 0 <= k < |words| => words[k] + "[Title/Abstract]"))
  }

  /** The strategies of `_build_all_search_strategies` for a cleaned title,
      most precise first: exact phrase (titles over 10 characters), bare
      title, all significant words (at least 3), the first five of them (at
      least 2), and the cleaned title as free text. */
  function TitleStrategies(clean: string): seq<string>
  {
    var sig := ExtractSignificantWords(clean);
    (if |clean| > 10 then ["\"" + clean + "\"[Title]"] else [])
    + [clean + "[Title]"]
    + (if |sig| >= 3 then [WordQuery(sig)] else [])
    + (if |sig| >= 2 then [Join(" AND ", Take(sig, 5))] else [])
    + [clean]
  }

  /** `f'({query}) AND "{author}"[Author]'` for every query, in order. */
  function WithAuthor(plain: seq<string>, author: string): seq<string>
  {
    seq(|plain|, k requires 0 <= k < |plain| => "(" + plain[k] + ") AND \"" + author + "\"[Author]")
  }

  /** `authors.replace(',', '').strip()` */
  function CleanAuthor(authors: string): string
  {
    Strip(RemoveChar(authors, ','))
  }

  /** The full strategy list: with a non-empty author, every strategy
      conjoined with the author first, then the plain list. */
  function SearchStrategies(title: string, authors: Option<string>): seq<string>
  {
    var plain := TitleStrategies(CleanTitle(title));
    if authors.Some? && authors.value != "" then WithAuthor(plain, CleanAuthor(authors.value)) + plain
    else plain
  }

  /** Without an author: two to five strategies, the last one the cleaned
      title itself; the exact-phrase search leads exactly when the cleaned
      title is longer than 10 characters, the bare title search otherwise. */
  lemma PlainStrategiesShape(title: string)
    ensures var clean := CleanTitle(title);
      var p := SearchStrategies(title, None);
      2 <= |p| <= 5 && p[|p| - 1] == clean &&
      (|clean| > 10 ==> p[0] == "\"" + clean + "\"[Title]" && p[1] == clean + "[Title]") &&
      (|clean| <= 10 ==> p[0] == clean + "[Title]")
  {
    TitleStrategiesShape(CleanTitle(title));
  }

  lemma TitleStrategiesShape(clean: string)
    ensures var p := TitleStrategies(clean);
      2 <= |p| <= 5 && p[|p| - 1] == clean &&
      (|clean| > 10 ==> p[0] == "\"" + clean + "\"[Title]" && p[1] == clean + "[Title]") &&
      (|clean| <= 10 ==> p[0] == clean + "[Title]")
  {
    var sig := ExtractSignificantWords(clean);
    ListShape(if |clean| > 10 then ["\"" + clean + "\"[Title]"] else [], clean + "[Title]",
              if |sig| >= 3 then [WordQuery(sig)] else [],
              if |sig| >= 2 then [Join(" AND ", Take(sig, 5))] else [], clean);
  }

  /** The shape of a list built as the strategy list is. */
  lemma ListShape<T>(a: seq<T>, x: T, c: seq<T>, d: seq<T>, y: T)
    requires |a| <= 1 && |c| <= 1 && |d| <= 1
    ensures var p := a + [x] + c + d + [y];
      2 <= |p| <= 5 && p[|p| - 1] == y &&
      (|a| == 1 ==> p[0] == a[0] && p[1] == x) && (|a| == 0 ==> p[0] == x)
  {
  }

  /** Exactly five strategies without an author iff the cleaned title has at
      least three significant words (such a title is always long enough
      for the exact-phrase search). */
  lemma FiveStrategies(title: string)
    ensures |SearchStrategies(title, None)| == 5 <==> |ExtractSignificantWords(CleanTitle(title))| >= 3
  {
    if |ExtractSignificantWords(CleanTitle(title))| >= 3 {
      ThreeWordsAreLong(CleanTitle(title));
    }
  }

  /** With a non-empty author the list is twice as long: the
      author-conjoined strategies first, in the same order, then the plain
      ones. */
  lemma AuthorStrategies(title: string, authors: string)
    requires authors != ""
    ensures var plain := SearchStrategies(title, None);
      var all := SearchStrategies(title, Some(authors));
      |all| == 2 * |plain| &&
      all[|plain|..] == plain &&
      forall k :: 0 <= k < |plain| ==>
        all[k] == "(" + plain[k] + ") AND \"" + CleanAuthor(authors) + "\"[Author]"
  {
  }

  // =====================================================================
  // Match scoring
  // =====================================================================

  /** The 18 stop words of `_is_good_match`. */
  const MatchStopWords: set<string> := {
    "the", "a", "an", "and", "or", "but", "in", "on", "at", "to", "for",
    "of", "with", "by", "is", "are", "was", "were"
  }

  /** The set of lower-cased whitespace tokens of `s`, minus the stop words. */
  function MatchWords(s: string): set<string>
  {
    (set w | w in Words(Lower(s))) - MatchStopWords
  }

  /** `_is_good_match` with the 0.5 threshold: at least half of the query's
      words occur in the found title (`overlap / |S| >= 0.5`). */
  function IsGoodMatch(searchTitle: string, foundTitle: string): bool
  {
    if searchTitle == [] || foundTitle == [] then false
    else
      var s := MatchWords(searchTitle);
      var f := MatchWords(foundTitle);
      s != {} && 2 * |s * f| >= |s|
  }

  lemma {:induction false} SubsetCard<T>(a: set<T>, b: set<T>)
    requires a <= b
    ensures |a| <= |b|
    decreases |a|
  {
    if a != {} {
      var x :| x in a;
      SubsetCard(a - {x}, b - {x});
    }
  }

  /** A found title whose words include every word of the query always
      passes, however many other words it has. */
  lemma ContainedQueryMatches(searchTitle: string, foundTitle: string)
    requires searchTitle != []
    requires MatchWords(searchTitle) != {}
    requires MatchWords(searchTitle) <= MatchWords(foundTitle)
    ensures IsGoodMatch(searchTitle, foundTitle)
  {
    var s := MatchWords(searchTitle);
    assert s * MatchWords(foundTitle) == s;
    var w :| w in s;
    assert w in Words(Lower(foundTitle));
    assert foundTitle != [];
  }

  /** More words in the found title never turn an accepted match down. */
  lemma MatchMonotone(searchTitle: string, found: string, found': string)
    requires IsGoodMatch(searchTitle, found)
    requires found' != []
    requires MatchWords(found) <= MatchWords(found')
    ensures IsGoodMatch(searchTitle, found')
  {
    var s := MatchWords(searchTitle);
    SubsetCard(s * MatchWords(found), s * MatchWords(found'));
  }

  /** An accepted match shares at least one non-stop word with the query. */
  lemma MatchSharesAWord(searchTitle: string, foundTitle: string)
    requires IsGoodMatch(searchTitle, foundTitle)
    ensures MatchWords(searchTitle) * MatchWords(foundTitle) != {}
  {
  }

  // =====================================================================
  // Reading an article record (`_parse_article_xml`)
  // =====================================================================

  /** How an f-string renders a value that is a string or `None`. */
  function PyStr(t: Option<string>): string {
    if t.Some? then t.value else "None"
  }

  predicate FourDigitsAt(s: string, k: nat) {
    k + 4 <= |s| && IsDigit(s[k]) && IsDigit(s[k + 1]) && IsDigit(s[k + 2]) && IsDigit(s[k + 3])
  }

  /** `re.search(r'\d{4}', s[i:])`: where the first run of four digits starts. */
  function FirstFourDigits(s: string, i: nat): (r: Option<nat>)
    requires i <= |s|
    ensures r.Some? ==> i <= r.value && FourDigitsAt(s, r.value)
    ensures r.Some? ==> forall k :: i <= k < r.value ==> !FourDigitsAt(s, k)
    ensures r.None? ==> forall k :: i <= k <= |s| ==> !FourDigitsAt(s, k)
    decreases |s| - i
  {
    if i + 4 > |s| then None
    else if FourDigitsAt(s, i) then Some(i)
    else FirstFourDigits(s, i + 1)
  }

  predicate HasLastName(author: Element) {
    FindChild(author, "LastName").Some?
  }

  /** One `Author` element with a `LastName`: `"ForeName LastName"`, or the
      last name alone (which may be no text at all) without a `ForeName`. */
  function AuthorName(author: Element): Option<string>
    requires HasLastName(author)
  {
    var lastName := FindChild(author, "LastName").value.text;
    var foreName := FindChild(author, "ForeName");
    if foreName.Some? then Some(PyStr(foreName.value.text) + " " + PyStr(lastName)) else lastName
  }

  /** The authors that have a `LastName`, in order. */
  function WithLastName(authors: seq<Element>): (r: seq<Element>)
    ensures forall k :: 0 <= k < |r| ==> HasLastName(r[k])
  {
    if authors == [] then []
    else (if HasLastName(authors[0]) then [authors[0]] else []) + WithLastName(authors[1..])
  }

  /** The author loop: authors without a `LastName` are skipped, the others
      named in order. */
  function AuthorNames(authors: seq<Element>): (r: seq<Option<string>>)
    ensures |r| == |WithLastName(authors)|
  {
    if authors == [] then []
    else if HasLastName(authors[0]) then [AuthorName(authors[0])] + AuthorNames(authors[1..])
    else AuthorNames(authors[1..])
  }

  /** The `k`-th name read is that of the `k`-th author with a `LastName`. */
  lemma {:induction false} AuthorNamesAt(authors: seq<Element>, k: nat)
    requires k < |AuthorNames(authors)|
    ensures AuthorNames(authors)[k] == AuthorName(WithLastName(authors)[k])
  {
    if HasLastName(authors[0]) {
      if k > 0 {
        AuthorNamesAt(authors[1..], k - 1);
      }
    } else {
      AuthorNamesAt(authors[1..], k);
    }
  }

  /** The fields read from a `PubmedArticle` element. When a `MedlineDate`
      without text stops the parse (`re.search` on `None` raises and the
      handler returns what was read so far), `complete` is false and the
      year, doi and abstract keys are missing (their fields hold `None`). */
  datatype Details = Details(
    title: Option<string>,
    authors: seq<Option<string>>,
    journal: Option<string>,
    year: Option<string>,
    doi: Option<string>,
    abstractText: Option<string>,
    complete: bool)

  predicate IsDoiLocation(e: Element) {
    e.tag == "ELocationID" && "EIdType" in e.attrib && e.attrib["EIdType"] == "doi"
  }

  /** The year read from `PubDate`: the `Year` text, else the first four
      digits of the `MedlineDate` text, else `''`. `None` for the outer
      option when the `MedlineDate` has no text (the parse stops there). */
  function PubYear(article: Element): Option<Option<string>>
  {
    var yearElem := FindDeepPath(article, "PubDate", "Year");
    if yearElem.Some? then Some(yearElem.value.text)
    else
      var medline := FindDeepPath(article, "PubDate", "MedlineDate");
      if medline.None? then Some(Some(""))
      else if medline.value.text.None? then None
      else
        var date := medline.value.text.value;
        var k := FirstFourDigits(date, 0);
        if k.Some? then Some(Some(date[k.value..k.value + 4])) else Some(Some(""))
  }

  /** `_parse_article_xml` */
  function ParseArticle(article: Element): Details
  {
    var title := TextOr(FindDeep(article, "ArticleTitle"), Some(""));
    var authors := AuthorNames(FindAllDeep(article, "Author"));
    var journalElem :=
      if FindDeepPath(article, "Journal", "Title").Some? then FindDeepPath(article, "Journal", "Title")
      else FindDeepPath(article, "Journal", "ISOAbbreviation");
    var journal := TextOr(journalElem, Some(""));
    var year := PubYear(article);
    if year.None? then Details(title, authors, journal, None, None, None, false)
    else
      var doi := TextOr(First(Filter(Descendants(article), IsDoiLocation)), Some(""));
      var abstractText := TextOr(FindDeepPath(article, "Abstract", "AbstractText"), Some(""));
      Details(title, authors, journal, year.value, doi, abstractText, true)
  }

  /** The fallbacks of `_parse_article_xml`: a missing title reads as `''`,
      the journal title falls back to its ISO abbreviation and then to `''`,
      authors without a last name are skipped, and the year, doi and
      abstract are read only when the publication date can be read. */
  lemma ParseArticleFields(article: Element)
    ensures var r := ParseArticle(article);
      var articleTitle := FindDeep(article, "ArticleTitle");
      var journalTitle := FindDeepPath(article, "Journal", "Title");
      (articleTitle.None? ==> r.title == Some("")) &&
      (articleTitle.Some? ==> r.title == articleTitle.value.text) &&
      |r.authors| == |WithLastName(FindAllDeep(article, "Author"))| &&
      (journalTitle.Some? ==> r.journal == journalTitle.value.text) &&
      (journalTitle.None? ==> r.journal == TextOr(FindDeepPath(article, "Journal", "ISOAbbreviation"), Some(""))) &&
      (r.complete <==> PubYear(article).Some?) &&
      (r.complete ==> r.year == PubYear(article).value) &&
      (!r.complete ==> r.year.None? && r.doi.None? && r.abstractText.None?)
  {
  }

  /** Without a `Year`: no `MedlineDate` gives `''`; otherwise the year is
      the leftmost run of four digits in the date's text, and `''` exactly
      when the date has no such run. */
  lemma PubYearFromMedlineDate(article: Element)
    requires FindDeepPath(article, "PubDate", "Year").None?
    requires PubYear(article).Some?
    ensures var y := PubYear(article).value;
      var medline := FindDeepPath(article, "PubDate", "MedlineDate");
      y.Some? &&
      (medline.None? ==> y.value == "") &&
      (medline.Some? ==>
         var date := medline.value.text.value;
         (y.value == "" <==> forall k :: 0 <= k <= |date| ==> !FourDigitsAt(date, k)) &&
         (y.value != "" ==>
            |y.value| == 4 && (forall k :: 0 <= k < 4 ==> IsDigit(y.value[k])) &&
            exists j :: 0 <= j <= |date| - 4 && OccursAt(y.value, date, j) &&
                        forall i :: 0 <= i < j ==> !FourDigitsAt(date, i)))
  {
    var medline := FindDeepPath(article, "PubDate", "MedlineDate");
    if medline.Some? {
      var date := medline.value.text.value;
      var k := FirstFourDigits(date, 0);
      if k.Some? {
        assert OccursAt(date[k.value..k.value + 4], date, k.value);
      }
    }
  }

  // =====================================================================
  // The resolver
  // =====================================================================

  /** The outbound traffic of the searcher, in order. */
  datatype Event = Grant | SearchCall(query: string) | FetchCall(pmid: string)

  /** `_search_pubmed`: errors it catches give `[]`. */
  function SearchResult(reply: Reply<seq<string>>): Outcome<seq<string>>
  {
    match reply
    case Answer(ids) => Done(ids)
    case RequestFailed => Done([])
    case MalformedXml => Done([])
    case Raised => Escaped
  }

  /** `_get_article_details`: the first `PubmedArticle` of the efetch
      document, parsed; errors it catches give `None`. */
  function DetailsResult(reply: Reply<Element>): Outcome<Option<Details>>
  {
    match reply
    case Answer(root) =>
      var article := FindDeep(root, "PubmedArticle");
      Done(if article.Some? then Some(ParseArticle(article.value)) else None)
    case RequestFailed => Done(None)
    case MalformedXml => Done(None)
    case Raised => Escaped
  }

  /** `_get_article_details` as a function of the PMID, for a given efetch service. */
  function DetailsOf(fetch: string -> Reply<Element>): string -> Outcome<Option<Details>>
  {
    (pmid: string) => DetailsResult(fetch(pmid))
  }

  /** The dictionary `search_article` returns. */
  datatype Article = Article(
    pmid: string,
    title: string,
    authors: seq<Option<string>>,
    journal: Option<string>,
    year: Option<string>,
    doi: Option<string>,
    abstractText: Option<string>)

  /** The returned dictionary, with `.get(key, '')` defaults. */
  function ArticleOf(pmid: string, title: string, d: Details): Article
  {
    Article(pmid, title, d.authors, d.journal,
            if d.complete then d.year else Some(""),
            if d.complete then d.doi else Some(""),
            if d.complete then d.abstractText else Some(""))
  }

  /** How one strategy ends: a match to return, on to the next strategy, or
      an escaping exception that ends the search with `None`. */
  datatype Verdict = Accept(article: Article) | Next | Abort

  datatype Step = Step(verdict: Verdict, events: seq<Event>)

  /** One pass of the strategy loop of `search_article`. */
  function Attempt(
    title: string, query: string,
    search: string -> Reply<seq<string>>, inspect: string -> Outcome<Option<Details>>): Step
  {
    var ev := [Grant, SearchCall(query)];
    match SearchResult(search(query))
    case Escaped => Step(Abort, ev)
    case Done(ids) =>
      if ids == [] then Step(Next, ev)
      else
        var ev2 := ev + [Grant, FetchCall(ids[0])];
        match inspect((ids[0]))
        case Escaped => Step(Abort, ev2)
        case Done(d) =>
          if d.Some? && d.value.title.Some? && IsGoodMatch(title, d.value.title.value) then
            Step(Accept(ArticleOf(ids[0], d.value.title.value, d.value)), ev2)
          else Step(Next, ev2)
  }

  /** A strategy accepts only the first hit of its own search, and only when
      the title of that record, as fetched, is a good match for the title
      searched for. */
  lemma AttemptAccepts(
    title: string, query: string,
    search: string -> Reply<seq<string>>, inspect: string -> Outcome<Option<Details>>)
    requires Attempt(title, query, search, inspect).verdict.Accept?
    ensures var a := Attempt(title, query, search, inspect).verdict.article;
      IsGoodMatch(title, a.title) &&
      search(query).Answer? && search(query).value != [] && search(query).value[0] == a.pmid &&
      inspect((a.pmid)).Done? &&
      inspect((a.pmid)).value.Some? &&
      inspect((a.pmid)).value.value.title == Some(a.title)
  {
  }

  datatype Resolution = Resolution(found: Option<Article>, events: seq<Event>)

  /** The strategy loop over what each strategy does when tried: stop at the
      first accepted match or escaping exception, else go on until the
      strategies run out. */
  function Run(steps: seq<Step>): Resolution
  {
    if steps == [] then Resolution(None, [])
    else
      match steps[0].verdict
      case Accept(a) => Resolution(Some(a), steps[0].events)
      case Abort => Resolution(None, steps[0].events)
      case Next =>
        var rest := Run(steps[1..]);
        Resolution(rest.found, steps[0].events + rest.events)
  }

  /** What each strategy does when tried. */
  function Steps(
    title: string, queries: seq<string>,
    search: string -> Reply<seq<string>>, inspect: string -> Outcome<Option<Details>>): seq<Step>
  {
    seq(|queries|, k requires 0 <= k < |queries| => Attempt(title, queries[k], search, inspect))
  }

  /** `search_article` past its empty-title check, over the given strategies. */
  function Resolve(
    title: string, queries: seq<string>,
    search: string -> Reply<seq<string>>, inspect: string -> Outcome<Option<Details>>): Resolution
  {
    Run(Steps(title, queries, search, inspect))
  }

  /** The traffic of the given steps, one after another. */
  function AllEvents(steps: seq<Step>): seq<Event>
  {
    if steps == [] then [] else steps[0].events + AllEvents(steps[1..])
  }

  /** The index of the first step that does not move on (the length when all do). */
  function Decider(steps: seq<Step>): (d: nat)
    ensures d <= |steps|
    ensures forall j :: 0 <= j < d ==> steps[j].verdict.Next?
    ensures d < |steps| ==> !steps[d].verdict.Next?
  {
    if steps == [] || !steps[0].verdict.Next? then 0 else 1 + Decider(steps[1..])
  }

  /** The loop is decided by its first step that does not move on: its match
      (or `None` for an exception) is the result, and the traffic is that of
      the steps up to it; with no such step, `None` after all the traffic. */
  lemma {:induction false} RunDecidedByFirst(steps: seq<Step>)
    ensures var d := Decider(steps);
      var r := Run(steps);
      (d < |steps| ==>
         r.found == (if steps[d].verdict.Accept? then Some(steps[d].verdict.article) else None) &&
         r.events == AllEvents(steps[..d + 1])) &&
      (d == |steps| ==> r.found == None && r.events == AllEvents(steps))
  {
    if steps != [] {
      var d := Decider(steps);
      if steps[0].verdict.Next? {
        var tail := steps[1..];
        RunDecidedByFirst(tail);
        assert d == Decider(tail) + 1;
        if d < |steps| {
          assert steps[..d + 1][0] == steps[0] && steps[..d + 1][1..] == tail[..d];
          assert steps[d] == tail[d - 1];
        }
      } else {
        assert steps[..1][0] == steps[0] && steps[..1][1..] == [];
        assert AllEvents(steps[..1]) == steps[0].events + AllEvents([]);
      }
    }
  }

  /** A loop that found a match stopped at its deciding step, which accepted. */
  lemma RunFound(steps: seq<Step>) returns (d: nat)
    requires Run(steps).found.Some?
    ensures d == Decider(steps) && d < |steps|
    ensures steps[d].verdict == Accept(Run(steps).found.value)
    ensures Run(steps).events == AllEvents(steps[..d + 1])
  {
    RunDecidedByFirst(steps);
    d := Decider(steps);
  }

  lemma {:induction false} AllEventsSnoc(steps: seq<Step>, last: Step)
    ensures AllEvents(steps + [last]) == AllEvents(steps) + last.events
  {
    if steps == [] {
      assert [last][1..] == [];
      assert AllEvents([last]) == last.events + AllEvents([]);
    } else {
      assert (steps + [last])[0] == steps[0] && (steps + [last])[1..] == steps[1..] + [last];
      AllEventsSnoc(steps[1..], last);
    }
  }

  /** The queries sent, in order. */
  function Searched(events: seq<Event>): seq<string>
  {
    if events == [] then []
    else (if events[0].SearchCall? then [events[0].query] else []) + Searched(events[1..])
  }

  function GrantCount(events: seq<Event>): nat
  {
    if events == [] then 0 else (if events[0].Grant? then 1 else 0) + GrantCount(events[1..])
  }

  lemma {:induction false} SearchedConcat(a: seq<Event>, b: seq<Event>)
    ensures Searched(a + b) == Searched(a) + Searched(b)
    ensures GrantCount(a + b) == GrantCount(a) + GrantCount(b)
  {
    if a == [] {
      assert a + b == b;
    } else {
      assert (a + b)[0] == a[0] && (a + b)[1..] == a[1..] + b;
      SearchedConcat(a[1..], b);
    }
  }

  /** One request and its grant. */
  lemma RequestTraffic(request: Event)
    requires !request.Grant?
    ensures GrantCount([Grant, request]) == 1
    ensures Searched([Grant, request]) == if request.SearchCall? then [request.query] else []
    ensures Alternating([Grant, request])
  {
    var pair := [Grant, request];
    assert pair[1..] == [request] && [request][1..] == [];
    assert [request][0] == request;
    assert GrantCount([request]) == 0 + GrantCount([]);
    assert Searched([request]) == (if request.SearchCall? then [request.query] else []) + Searched([]);
    assert GrantCount(pair) == 1 + GrantCount([request]);
    assert Searched(pair) == Searched([request]);
  }

  /** One strategy sends exactly its own query, every request behind a grant. */
  lemma AttemptTraffic(
    title: string, query: string,
    search: string -> Reply<seq<string>>, inspect: string -> Outcome<Option<Details>>)
    ensures var e := Attempt(title, query, search, inspect).events;
      Searched(e) == [query] && Alternating(e) && GrantCount(e) == |e| / 2
  {
    var e := Attempt(title, query, search, inspect).events;
    var first := [Grant, SearchCall(query)];
    RequestTraffic(SearchCall(query));
    assert e == first ||
      (search(query).Answer? && search(query).value != [] &&
       e == first + [Grant, FetchCall(search(query).value[0])]);
    if e != first {
      var second := [Grant, FetchCall(search(query).value[0])];
      RequestTraffic(second[1]);
      assert e == first + second;
      SearchedConcat(first, second);
      AlternatingConcat(first, second);
    }
  }

  /** Every request is immediately preceded by its own grant of the rate
      limiter: grants sit at the even positions and requests at the odd ones. */
  predicate Alternating(events: seq<Event>) {
    |events| % 2 == 0 && forall m :: 0 <= m < |events| ==> (events[m].Grant? <==> m % 2 == 0)
  }

  lemma AlternatingConcat(a: seq<Event>, b: seq<Event>)
    requires Alternating(a) && Alternating(b)
    ensures Alternating(a + b)
  {
    forall m | |a| <= m < |a| + |b|
      ensures ((a + b)[m].Grant? <==> m % 2 == 0)
    {
      assert (a + b)[m] == b[m - |a|];
      EvenShift(m, |a|);
    }
  }

  lemma EvenShift(m: int, k: int)
    requires k % 2 == 0
    ensures (m - k) % 2 == m % 2
  {
  }

  /** The first `n` strategies, tried one after another, send exactly the
      first `n` queries, each request behind its own grant. */
  lemma PrefixTraffic(
    title: string, queries: seq<string>,
    search: string -> Reply<seq<string>>, inspect: string -> Outcome<Option<Details>>, n: nat)
    requires n <= |queries|
    ensures var e := AllEvents(Steps(title, queries, search, inspect)[..n]);
      Searched(e) == queries[..n] && Alternating(e)
  {
    var steps := Steps(title, queries, search, inspect);
    forall k | 0 <= k < n
      ensures Searched(steps[k].events) == [queries[k]] && Alternating(steps[k].events)
    {
      AttemptTraffic(title, queries[k], search, inspect);
    }
    EventsTraffic(steps, queries, n);
  }

  /** Steps that each send their own query, behind grants, send the queries
      in order when run one after another. */
  lemma {:induction false} EventsTraffic(steps: seq<Step>, queries: seq<string>, n: nat)
    requires n <= |steps| && n <= |queries|
    requires forall k :: 0 <= k < n ==> Searched(steps[k].events) == [queries[k]] && Alternating(steps[k].events)
    ensures Searched(AllEvents(steps[..n])) == queries[..n] && Alternating(AllEvents(steps[..n]))
  {
    if n == 0 {
      assert steps[..0] == [];
      assert Alternating([]);
    } else {
      EventsTraffic(steps, queries, n - 1);
      assert steps[..n] == steps[..n - 1] + [steps[n - 1]];
      AllEventsSnoc(steps[..n - 1], steps[n - 1]);
      SearchedConcat(AllEvents(steps[..n - 1]), steps[n - 1].events);
      AlternatingConcat(AllEvents(steps[..n - 1]), steps[n - 1].events);
      assert queries[..n] == queries[..n - 1] + [queries[n - 1]];
    }
  }

  /** Every request the strategy loop sends is immediately preceded by its
      own grant of the rate limiter. */
  lemma ResolveAlternates(
    title: string, queries: seq<string>,
    search: string -> Reply<seq<string>>, inspect: string -> Outcome<Option<Details>>)
    ensures Alternating(Resolve(title, queries, search, inspect).events)
  {
    var steps := Steps(title, queries, search, inspect);
    RunDecidedByFirst(steps);
    var d := Decider(steps);
    if d < |steps| {
      PrefixTraffic(title, queries, search, inspect, d + 1);
    } else {
      PrefixTraffic(title, queries, search, inspect, |queries|);
      assert steps[..|queries|] == steps;
    }
  }

  /** Short circuit: a match comes from the first strategy that does not
      move on; it is accepted against the original title, and no later
      strategy is searched. */
  lemma ResolveShortCircuits(
    title: string, queries: seq<string>,
    search: string -> Reply<seq<string>>, inspect: string -> Outcome<Option<Details>>)
    requires Resolve(title, queries, search, inspect).found.Some?
    ensures var r := Resolve(title, queries, search, inspect);
      exists k :: 0 <= k < |queries| &&
        Attempt(title, queries[k], search, inspect).verdict == Accept(r.found.value) &&
        (forall j :: 0 <= j < k ==> Attempt(title, queries[j], search, inspect).verdict.Next?) &&
        Searched(r.events) == queries[..k + 1]
  {
    var steps := Steps(title, queries, search, inspect);
    var d := RunFound(steps);
    PrefixTraffic(title, queries, search, inspect, d + 1);
    forall j | 0 <= j < d
      ensures Attempt(title, queries[j], search, inspect).verdict.Next?
    {
      assert steps[j] == Attempt(title, queries[j], search, inspect);
    }
    assert Attempt(title, queries[d], search, inspect) == steps[d];
  }

  /** No match: every strategy was searched, unless an escaping exception
      ended the search early. Empty results, missing records and poor
      matches only move on to the next strategy. */
  lemma ResolveExhausts(
    title: string, queries: seq<string>,
    search: string -> Reply<seq<string>>, inspect: string -> Outcome<Option<Details>>)
    requires Resolve(title, queries, search, inspect).found.None?
    requires forall k :: 0 <= k < |queries| ==> !Attempt(title, queries[k], search, inspect).verdict.Abort?
    ensures Searched(Resolve(title, queries, search, inspect).events) == queries
  {
    var steps := Steps(title, queries, search, inspect);
    RunDecidedByFirst(steps);
    PrefixTraffic(title, queries, search, inspect, |queries|);
    assert steps[..|queries|] == steps;
  }

  lemma RunUnfold(steps: seq<Step>)
    requires steps != []
    ensures Run(steps) ==
      match steps[0].verdict
      case Accept(a) => Resolution(Some(a), steps[0].events)
      case Abort => Resolution(None, steps[0].events)
      case Next => Resolution(Run(steps[1..]).found, steps[0].events + Run(steps[1..]).events)
  {
  }

  /** The searcher: its rate limiter and, as a ghost, the traffic it sent. */
  class Searcher {
    const limiter: RateLimiter
    ghost var trace: seq<Event>

    /** Each grant event in the trace is one grant of the limiter. */
    ghost predicate Valid()
      reads this, limiter
    {
      limiter.Valid() && GrantCount(trace) == |limiter.grants|
    }

    constructor ()
      ensures Valid() && fresh(limiter) && trace == []
      ensures limiter.lastRequestTime == 0
    {
      limiter := new RateLimiter();
      trace := [];
    }

    /** `_search_pubmed`: rate-limit, then one esearch request. */
    method SearchPubMed(query: string, search: string -> Reply<seq<string>>, clock: Clock)
      returns (r: Outcome<seq<string>>)
      requires Valid()
      modifies this, limiter, clock
      ensures Valid()
      ensures trace == old(trace) + [Grant, SearchCall(query)]
      ensures limiter.lastRequestTime >= old(limiter.lastRequestTime) + Delay
      ensures r == SearchResult(search(query))
    {
      limiter.Acquire(clock);
      RequestTraffic(SearchCall(query));
      SearchedConcat(trace, [Grant, SearchCall(query)]);
      trace := trace + [Grant, SearchCall(query)];
      r := SearchResult(search(query));
    }

    /** `_get_article_details`: rate-limit, then one efetch request. */
    method GetArticleDetails(pmid: string, fetch: string -> Reply<Element>, clock: Clock)
      returns (r: Outcome<Option<Details>>)
      requires Valid()
      modifies this, limiter, clock
      ensures Valid()
      ensures trace == old(trace) + [Grant, FetchCall(pmid)]
      ensures limiter.lastRequestTime >= old(limiter.lastRequestTime) + Delay
      ensures r == DetailsResult(fetch(pmid))
    {
      limiter.Acquire(clock);
      RequestTraffic(FetchCall(pmid));
      SearchedConcat(trace, [Grant, FetchCall(pmid)]);
      trace := trace + [Grant, FetchCall(pmid)];
      r := DetailsResult(fetch(pmid));
    }

    /** The title strategies of `_build_all_search_strategies`, appended one
        at a time to the list for the cleaned title. */
    method BuildTitleStrategies(titleClean: string) returns (strategies: seq<string>)
      ensures strategies == TitleStrategies(titleClean)
    {
      strategies := [];
      if |titleClean| > 10 {
        strategies := strategies + ["\"" + titleClean + "\"[Title]"];
      }
      strategies := strategies + [titleClean + "[Title]"];
      var significantWords := ExtractSignificantWords(titleClean);
      if |significantWords| >= 3 {
        strategies := strategies + [WordQuery(significantWords)];
      }
      if |significantWords| >= 2 {
        var keyWords := Take(significantWords, 5);
        strategies := strategies + [Join(" AND ", keyWords)];
      }
      strategies := strategies + [titleClean];
    }

    /** `_build_all_search_strategies`: the title strategies, and with a
        non-empty author the author-conjoined copies in front of them. */
    method BuildAllSearchStrategies(title: string, authors: Option<string>) returns (strategies: seq<string>)
      ensures strategies == SearchStrategies(title, authors)
    {
      var titleClean := CleanTitle(title);
      strategies := BuildTitleStrategies(titleClean);
      if authors.Some? && authors.value != "" {
        var authorClean := CleanAuthor(authors.value);
        strategies := WithAuthor(strategies, authorClean) + strategies;
      }
    }

    /** One pass of the strategy loop of `search_article`. */
    method TryStrategy(
      title: string, query: string,
      search: string -> Reply<seq<string>>, fetch: string -> Reply<Element>, clock: Clock)
      returns (v: Verdict)
      requires Valid()
      modifies this, limiter, clock
      ensures Valid()
      ensures v == Attempt(title, query, search, DetailsOf(fetch)).verdict
      ensures trace == old(trace) + Attempt(title, query, search, DetailsOf(fetch)).events
    {
      var searchResults := SearchPubMed(query, search, clock);
      if searchResults.Escaped? {
        return Abort;
      }
      if searchResults.value == [] {
        return Next;
      }
      var pmid := searchResults.value[0];
      var articleDetails := GetArticleDetails(pmid, fetch, clock);
      if articleDetails.Escaped? {
        return Abort;
      }
      var d := articleDetails.value;
      if d.Some? && d.value.title.Some? && IsGoodMatch(title, d.value.title.value) {
        return Accept(ArticleOf(pmid, d.value.title.value, d.value));
      }
      return Next;
    }

    /** `search_article`: `None` for an empty title; otherwise the strategy
        loop over the strategies built for the title and authors. */
    method SearchArticle(
      title: string, authors: Option<string>,
      search: string -> Reply<seq<string>>, fetch: string -> Reply<Element>, clock: Clock)
      returns (r: Option<Article>)
      requires Valid()
      modifies this, limiter, clock
      ensures Valid()
      ensures title == [] ==> r == None && trace == old(trace)
      ensures title != [] ==>
        var res := Resolve(title, SearchStrategies(title, authors), search, DetailsOf(fetch));
        r == res.found && trace == old(trace) + res.events
    {
      if title == [] {
        return None;
      }
      var searchStrategies := BuildAllSearchStrategies(title, authors);
      r := RunStrategies(title, searchStrategies, search, fetch, clock);
    }

    /** The strategy loop of `search_article` (its `try` block): the result
        and the traffic are those of `Resolve`. */
    method RunStrategies(
      title: string, searchStrategies: seq<string>,
      search: string -> Reply<seq<string>>, fetch: string -> Reply<Element>, clock: Clock)
      returns (r: Option<Article>)
      requires Valid()
      modifies this, limiter, clock
      ensures Valid()
      ensures var res := Resolve(title, searchStrategies, search, DetailsOf(fetch));
        r == res.found && trace == old(trace) + res.events
    {
      ghost var trace0 := trace;
      ghost var steps := Steps(title, searchStrategies, search, DetailsOf(fetch));
      ghost var sent: seq<Event> := [];
      assert steps[0..] == steps;
      var i := 0;
      while i < |searchStrategies|
        invariant 0 <= i <= |searchStrategies|
        invariant Valid()
        invariant trace == trace0 + sent
        invariant var rest := Run(steps[i..]);
          Run(steps) == Resolution(rest.found, sent + rest.events)
      {
        var query := searchStrategies[i];
        ghost var step := steps[i];
        assert step == Attempt(title, query, search, DetailsOf(fetch));
        assert steps[i..][0] == step && steps[i..][1..] == steps[i + 1..];
        ghost var after := Run(steps[i + 1..]);
        RunUnfold(steps[i..]);
        ghost var before := trace;
        var verdict := TryStrategy(title, query, search, fetch, clock);
        assert trace == before + step.events;
        AppendAssoc(trace0, sent, step.events);
        if verdict.Accept? {
          return Some(verdict.article);
        }
        if verdict.Abort? {
          return None;
        }
        AppendAssoc(sent, step.events, after.events);
        sent := sent + step.events;
        i := i + 1;
      }
      assert steps[i..] == [];
      return None;
    }
  }
}
