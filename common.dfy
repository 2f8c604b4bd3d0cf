/** The Python builtins the core relies on, restricted to ASCII:
    `str.strip`, `str.lower`, `str.upper`, `str.split()`, `sep.join`,
    character filtering and substring tests; and the shapes of what a
    remote call can give back. */
module Common {

  datatype Option<+T> = None | Some(value: T)

  /** What a remote E-utilities call gives: an answer, a request error
      (`requests.RequestException`), unparsable XML (`ET.ParseError`), or
      any other exception. */
  datatype Reply<T> = Answer(value: T) | RequestFailed | MalformedXml | Raised

  /** A Python call that returns a value or lets an exception escape. */
  datatype Outcome<T> = Done(value: T) | Escaped

  // ---------------------------------------------------------------------
  // Character classes (Python's classes restricted to the ASCII range)
  // ---------------------------------------------------------------------

  /** `str.isspace` on ASCII: space, \t \n \v \f \r and the separators \x1c-\x1f. */
  predicate IsSpace(c: char) {
    c == ' ' || (9 <= c as int <= 13) || (28 <= c as int <= 31)
  }

  predicate IsDigit(c: char) { '0' <= c <= '9' }
  predicate IsUpper(c: char) { 'A' <= c <= 'Z' }
  predicate IsLower(c: char) { 'a' <= c <= 'z' }
  predicate IsAsciiLetter(c: char) { IsUpper(c) || IsLower(c) }

  /** The regular-expression class `\w` on ASCII. */
  predicate IsWordChar(c: char) { IsAsciiLetter(c) || IsDigit(c) || c == '_' }

  function LowerChar(c: char): char {
    if IsUpper(c) then (c as int + 32) as char else c
  }

  function UpperChar(c: char): char {
    if IsLower(c) then (c as int - 32) as char else c
  }

  /** `s.lower()` */
  function Lower(s: string): (r: string)
    ensures |r| == |s|
    ensures forall i :: 0 <= i < |s| ==> r[i] == LowerChar(s[i])
  {
    seq(|s|, i requires 0 <= i < |s| => LowerChar(s[i]))
  }

  /** `s.upper()` */
  function Upper(s: string): (r: string)
    ensures |r| == |s|
    ensures forall i :: 0 <= i < |s| ==> r[i] == UpperChar(s[i])
  {
    seq(|s|, i requires 0 <= i < |s| => UpperChar(s[i]))
  }

  // ---------------------------------------------------------------------
  // strip
  // ---------------------------------------------------------------------

  predicate AllSpace(s: string) {
    forall i :: 0 <= i < |s| ==> IsSpace(s[i])
  }

  /** No whitespace at either end. */
  predicate Stripped(s: string) {
    s == [] || (!IsSpace(s[0]) && !IsSpace(s[|s| - 1]))
  }

  /** The index of the first non-space character at or after `i`. */
  function SkipSpaces(s: string, i: nat): (k: nat)
    requires i <= |s|
    ensures i <= k <= |s|
    ensures forall j :: i <= j < k ==> IsSpace(s[j])
    ensures k < |s| ==> !IsSpace(s[k])
    decreases |s| - i
  {
    if i < |s| && IsSpace(s[i]) then SkipSpaces(s, i + 1) else i
  }

  /** The index just past the last non-space character before `j`, not below `lo`. */
  function BackSpaces(s: string, lo: nat, j: nat): (k: nat)
    requires lo <= j <= |s|
    ensures lo <= k <= j
    ensures forall m :: k <= m < j ==> IsSpace(s[m])
    ensures k > lo ==> !IsSpace(s[k - 1])
    decreases j
  {
    if j > lo && IsSpace(s[j - 1]) then BackSpaces(s, lo, j - 1) else j
  }

  /** `s.strip()`: the slice of `s` between its leading and its trailing whitespace. */
  function Strip(s: string): (r: string)
    ensures Stripped(r)
    ensures |r| <= |s|
    ensures exists a, b :: 0 <= a <= b <= |s| && r == s[a..b] && AllSpace(s[..a]) && AllSpace(s[b..])
    ensures r == [] <==> AllSpace(s)
  {
    var a := SkipSpaces(s, 0);
    var b := BackSpaces(s, a, |s|);
    assert AllSpace(s[..a]) && AllSpace(s[b..]);
    assert s[a..b] == [] ==> a == |s|;
    s[a..b]
  }

  lemma {:induction false} StripOfStripped(s: string)
    requires Stripped(s)
    ensures Strip(s) == s
  {
    if s != [] {
      assert SkipSpaces(s, 0) == 0;
      assert BackSpaces(s, 0, |s|) == |s|;
    }
  }

  /** `strip` is idempotent. */
  lemma StripIdempotent(s: string)
    ensures Strip(Strip(s)) == Strip(s)
  {
    StripOfStripped(Strip(s));
  }

  // ---------------------------------------------------------------------
  // split and join
  // ---------------------------------------------------------------------

  /** The index of the first whitespace character at or after `i`. */
  function SkipNonSpaces(s: string, i: nat): (k: nat)
    requires i <= |s|
    ensures i <= k <= |s|
    ensures forall j :: i <= j < k ==> !IsSpace(s[j])
    ensures k < |s| ==> IsSpace(s[k])
    decreases |s| - i
  {
    if i < |s| && !IsSpace(s[i]) then SkipNonSpaces(s, i + 1) else i
  }

  predicate NoSpace(w: string) {
    forall i :: 0 <= i < |w| ==> !IsSpace(w[i])
  }

  /** `s.split()`: the maximal runs of non-whitespace characters, in order
      (`WordsJoin` below relates them to `SubSpaces`). */
  function Words(s: string): (r: seq<string>)
    ensures forall k :: 0 <= k < |r| ==> r[k] != [] && NoSpace(r[k])
    ensures r == [] <==> AllSpace(s)
    decreases |s|
  {
    if s == [] then []
    else if IsSpace(s[0]) then
      assert AllSpace(s) <==> AllSpace(s[1..]) by {
        assert forall j :: 1 <= j < |s| ==> s[j] == s[1..][j - 1];
      }
      Words(s[1..])
    else
      var j := SkipNonSpaces(s, 0);
      [s[..j]] + Words(s[j..])
  }

  /** `re.sub(r'\s+', sep, s)`: every maximal whitespace run becomes `sep`. */
  function SubSpaces(s: string, sep: string): (r: string)
    ensures NoSpace(sep) ==> NoSpace(r)
    decreases |s|
  {
    if s == [] then []
    else if IsSpace(s[0]) then
      var k := SkipSpaces(s, 0);
      sep + SubSpaces(s[k..], sep)
    else [s[0]] + SubSpaces(s[1..], sep)
  }

  /** A text without whitespace is left as it is. */
  lemma {:induction false} SubSpacesOfNoSpace(s: string, sep: string)
    requires NoSpace(s)
    ensures SubSpaces(s, sep) == s
  {
    if s != [] {
      assert !IsSpace(s[0]);
      SubSpacesOfNoSpace(s[1..], sep);
      assert s == [s[0]] + s[1..];
    }
  }

  /** A word in front is copied as it is. */
  lemma {:induction false} SubSpacesWord(w: string, u: string, sep: string)
    requires NoSpace(w)
    ensures SubSpaces(w + u, sep) == w + SubSpaces(u, sep)
  {
    if w != [] {
      assert (w + u)[0] == w[0] && (w + u)[1..] == w[1..] + u;
      SubSpacesWord(w[1..], u, sep);
      assert w == [w[0]] + w[1..];
    } else {
      assert w + u == u;
    }
  }

  /** Leading whitespace yields no word. */
  lemma {:induction false} WordsLeading(p: string, v: string)
    requires AllSpace(p)
    ensures Words(p + v) == Words(v)
  {
    if p != [] {
      assert (p + v)[0] == p[0] && (p + v)[1..] == p[1..] + v;
      WordsLeading(p[1..], v);
    } else {
      assert p + v == v;
    }
  }

  /** The end of a word does not move when whitespace is appended. */
  lemma {:induction false} SkipNonSpacesAppend(u: string, q: string, i: nat)
    requires i <= |u| && AllSpace(q)
    ensures SkipNonSpaces(u + q, i) == SkipNonSpaces(u, i)
    decreases |u| - i
  {
    if i < |u| {
      assert (u + q)[i] == u[i];
      if !IsSpace(u[i]) {
        SkipNonSpacesAppend(u, q, i + 1);
      }
    } else if q != [] {
      assert (u + q)[i] == q[0];
    }
  }

  /** Trailing whitespace yields no word. */
  lemma {:induction false} WordsTrailing(u: string, q: string)
    requires AllSpace(q)
    ensures Words(u + q) == Words(u)
    decreases |u|
  {
    var x := u + q;
    if u == [] {
      assert x == q;
    } else if IsSpace(u[0]) {
      assert x[0] == u[0] && x[1..] == u[1..] + q;
      WordsTrailing(u[1..], q);
    } else {
      assert x[0] == u[0];
      var j := SkipNonSpaces(u, 0);
      SkipNonSpacesAppend(u, q, 0);
      assert x[..j] == u[..j];
      assert x[j..] == u[j..] + q;
      WordsTrailing(u[j..], q);
    }
  }

  /** A non-empty whitespace-free text is one word. */
  lemma WordsOfWord(w: string)
    requires w != [] && NoSpace(w)
    ensures Words(w) == [w]
  {
    var j := SkipNonSpaces(w, 0);
    assert w[j..] == [];
    assert w[..j] == w;
  }

  /** Stripping changes no word. */
  lemma WordsOfStrip(s: string)
    ensures Words(Strip(s)) == Words(s)
  {
    var a, b :| 0 <= a <= b <= |s| && Strip(s) == s[a..b] && AllSpace(s[..a]) && AllSpace(s[b..]);
    var p, m, q := s[..a], s[a..b], s[b..];
    assert s == p + (m + q);
    WordsLeading(p, m + q);
    WordsTrailing(m, q);
  }

  /** On a stripped text, joining the words with `sep` replaces each
      whitespace run by `sep`. */
  lemma {:induction false} WordsJoinStripped(t: string, sep: string)
    requires Stripped(t)
    ensures Join(sep, Words(t)) == SubSpaces(t, sep)
    decreases |t|
  {
    if t != [] {
      var j := SkipNonSpaces(t, 0);
      var w, rest := t[..j], t[j..];
      assert t == w + rest;
      SubSpacesWord(w, rest, sep);
      assert Words(t) == [w] + Words(rest);
      if rest != [] {
        assert rest[|rest| - 1] == t[|t| - 1];
        var rest' := WordsGap(rest, sep);
        WordsJoinStripped(rest', sep);
        assert ([w] + Words(rest'))[1..] == Words(rest');
      }
    }
  }

  /** The whitespace between two words of a stripped text gives no word
      and becomes one `sep`. */
  lemma WordsGap(rest: string, sep: string) returns (rest': string)
    requires rest != [] && IsSpace(rest[0]) && !IsSpace(rest[|rest| - 1])
    ensures |rest'| < |rest| && rest' != [] && Stripped(rest')
    ensures Words(rest) == Words(rest') && Words(rest') != []
    ensures SubSpaces(rest, sep) == sep + SubSpaces(rest', sep)
  {
    var k := SkipSpaces(rest, 0);
    rest' := rest[k..];
    assert rest == rest[..k] + rest';
    WordsLeading(rest[..k], rest');
    assert !IsSpace(rest'[0]);
  }

  /** The words of a text, joined by `sep`, are the stripped text with
      every whitespace run replaced by `sep`: the words are its maximal
      runs of non-whitespace characters, in order. */
  lemma WordsJoin(s: string, sep: string)
    ensures Join(sep, Words(s)) == SubSpaces(Strip(s), sep)
  {
    WordsOfStrip(s);
    WordsJoinStripped(Strip(s), sep);
  }

  /** `sep.join(parts)` */
  function Join(sep: string, parts: seq<string>): string
  {
    if |parts| == 0 then []
    else if |parts| == 1 then parts[0]
    else parts[0] + sep + Join(sep, parts[1..])
  }

  // ---------------------------------------------------------------------
  // Filtering, substring
  // ---------------------------------------------------------------------

  /** The elements of `s` that satisfy `p`, in order. */
  function Filter<T>(s: seq<T>, p: T -> bool): (r: seq<T>)
    ensures |r| <= |s|
    ensures forall k :: 0 <= k < |r| ==> p(r[k]) && r[k] in s
    ensures forall x :: x in s && p(x) ==> x in r
  {
    if s == [] then [] else (if p(s[0]) then [s[0]] else []) + Filter(s[1..], p)
  }

  /** Filtering one more element at the end. */
  lemma {:induction false} FilterSnoc<T>(s: seq<T>, x: T, p: T -> bool)
    ensures Filter(s + [x], p) == Filter(s, p) + (if p(x) then [x] else [])
  {
    if s != [] {
      FilterSnoc(s[1..], x, p);
      assert (s + [x])[1..] == s[1..] + [x];
    }
  }

  /** Filtering by a predicate every element satisfies changes nothing. */
  lemma {:induction false} FilterKeepsAll<T>(s: seq<T>, p: T -> bool)
    requires forall k :: 0 <= k < |s| ==> p(s[k])
    ensures Filter(s, p) == s
  {
    if s != [] {
      FilterKeepsAll(s[1..], p);
      assert s == [s[0]] + s[1..];
    }
  }

  /** Nothing is dropped exactly when every element passes. */
  lemma {:induction false} FilterKeepsAllIff<T>(s: seq<T>, p: T -> bool)
    ensures |Filter(s, p)| == |s| <==> forall k :: 0 <= k < |s| ==> p(s[k])
  {
    if s != [] {
      FilterKeepsAllIff(s[1..], p);
      assert forall k :: 1 <= k < |s| ==> s[k] == s[1..][k - 1];
      if forall k :: 0 <= k < |s[1..]| ==> p(s[1..][k]) {
        assert forall k :: 1 <= k < |s| ==> p(s[k]);
      }
    }
  }

  /** Dropping every `c` shortens the text by the number of `c`s in it. */
  lemma {:induction false} FilterDropsCount(s: string, c: char)
    ensures |Filter(s, (x: char) => x != c)| == |s| - multiset(s)[c]
  {
    if s != [] {
      FilterDropsCount(s[1..], c);
      assert s == [s[0]] + s[1..];
      assert multiset(s) == multiset([s[0]]) + multiset(s[1..]);
    }
  }

  /** `s.replace(c, '')` */
  function RemoveChar(s: string, c: char): (r: string)
    ensures c !in r
    ensures forall x :: x in s && x != c ==> x in r
    ensures forall x :: x in r ==> x in s
    ensures |r| == |s| - multiset(s)[c]
  {
    FilterDropsCount(s, c);
    Filter(s, (x: char) => x != c)
  }

  /** The first `n` elements, or all of them when there are fewer (`s[:n]`). */
  function Take<T>(s: seq<T>, n: nat): (r: seq<T>)
    ensures |r| == if |s| < n then |s| else n
    ensures r == s[..|r|]
  {
    if |s| <= n then s else s[..n]
  }

  predicate OccursAt(needle: string, hay: string, i: nat) {
    i + |needle| <= |hay| && hay[i..i + |needle|] == needle
  }

  /** `needle in hay` for strings. */
  predicate Contains(hay: string, needle: string) {
    exists i :: 0 <= i <= |hay| - |needle| && OccursAt(needle, hay, i)
  }

  lemma ContainsLeft(a: string, b: string, w: string)
    requires Contains(a, w)
    ensures Contains(a + b, w)
  {
    var i :| 0 <= i <= |a| - |w| && OccursAt(w, a, i);
    assert (a + b)[i..i + |w|] == a[i..i + |w|];
    assert OccursAt(w, a + b, i);
  }

  lemma ContainsRight(a: string, b: string, w: string)
    requires Contains(b, w)
    ensures Contains(a + b, w)
  {
    var i :| 0 <= i <= |b| - |w| && OccursAt(w, b, i);
    assert (a + b)[|a| + i..|a| + i + |w|] == b[i..i + |w|];
    assert OccursAt(w, a + b, |a| + i);
  }

  lemma ContainsSelf(w: string)
    ensures Contains(w, w)
  {
    assert OccursAt(w, w, 0);
  }

  /** Every part survives the join. */
  lemma {:induction false} JoinContains(sep: string, parts: seq<string>, w: string)
    requires w in parts
    ensures Contains(Join(sep, parts), w)
  {
    if |parts| == 1 {
      ContainsSelf(w);
    } else if parts[0] == w {
      ContainsSelf(w);
      ContainsLeft(w, sep + Join(sep, parts[1..]), w);
      assert w + (sep + Join(sep, parts[1..])) == Join(sep, parts);
    } else {
      JoinContains(sep, parts[1..], w);
      ContainsRight(parts[0] + sep, Join(sep, parts[1..]), w);
    }
  }

  /** Stripping adds no character. */
  lemma StripKeeps(s: string, c: char)
    requires c !in s
    ensures c !in Strip(s)
  {
    var a := SkipSpaces(s, 0);
    var b := BackSpaces(s, a, |s|);
    assert Strip(s) == s[a..b];
  }

  /** Stripping keeps every stripped, non-empty substring. */
  lemma StripContains(s: string, w: string)
    requires Contains(s, w) && w != [] && Stripped(w)
    ensures Contains(Strip(s), w)
  {
    var i :| 0 <= i <= |s| - |w| && OccursAt(w, s, i);
    var a := SkipSpaces(s, 0);
    var b := BackSpaces(s, a, |s|);
    assert Strip(s) == s[a..b];
    assert w[0] == s[i] && w[|w| - 1] == s[i + |w| - 1];
    assert a <= i && i + |w| <= b;
    OccursInSlice(s, a, b, i, w);
  }

  lemma OccursInSlice(s: string, a: nat, b: nat, i: nat, w: string)
    requires a <= i && i + |w| <= b <= |s| && OccursAt(w, s, i)
    ensures OccursAt(w, s[a..b], i - a)
  {
    var r := s[a..b];
    forall k | 0 <= k < |w|
      ensures r[i - a..i - a + |w|][k] == w[k]
    {
      assert w[k] == s[i..i + |w|][k] == s[i + k];
    }
    assert r[i - a..i - a + |w|] == w;
  }

  // ---------------------------------------------------------------------
  // Mapping with concatenation
  // ---------------------------------------------------------------------

  /** Concatenation regroups freely; stated once so that callers need not
      compare the elements of the sequences involved. */
  lemma AppendAssoc<T>(a: seq<T>, b: seq<T>, c: seq<T>)
    ensures (a + b) + c == a + (b + c)
  {
  }

  /** The results of `f` on each element, concatenated in order. */
  function FlatMap<T, U>(xs: seq<T>, f: T -> seq<U>): seq<U> {
    if xs == [] then [] else FlatMap(xs[..|xs| - 1], f) + f(xs[|xs| - 1])
  }

  lemma {:induction false} FlatMapConcat<T, U>(a: seq<T>, b: seq<T>, f: T -> seq<U>)
    ensures FlatMap(a + b, f) == FlatMap(a, f) + FlatMap(b, f)
    decreases |b|
  {
    if b != [] {
      FlatMapConcat(a, b[..|b| - 1], f);
      assert (a + b)[..|a + b| - 1] == a + b[..|b| - 1];
    } else {
      assert a + b == a;
    }
  }

  /** Everything `FlatMap` yields comes from some element. */
  lemma {:induction false} FlatMapMember<T, U>(xs: seq<T>, f: T -> seq<U>, y: U)
    requires y in FlatMap(xs, f)
    ensures exists k :: 0 <= k < |xs| && y in f(xs[k])
  {
    var init := xs[..|xs| - 1];
    if y in FlatMap(init, f) {
      FlatMapMember(init, f, y);
      var k :| 0 <= k < |init| && y in f(init[k]);
      assert init[k] == xs[k];
    } else {
      assert y in f(xs[|xs| - 1]);
    }
  }

  /** All-or-nothing `FlatMap`: `None` as soon as one element gives `None`. */
  function Collect<T, U>(xs: seq<T>, f: T -> Option<seq<U>>): Option<seq<U>> {
    if xs == [] then Some([])
    else
      var init := Collect(xs[..|xs| - 1], f);
      var last := f(xs[|xs| - 1]);
      if init.None? || last.None? then None else Some(init.value + last.value)
  }

  /** `Collect` fails exactly when some element fails. */
  lemma {:induction false} CollectFails<T, U>(xs: seq<T>, f: T -> Option<seq<U>>)
    ensures Collect(xs, f).None? <==> exists k :: 0 <= k < |xs| && f(xs[k]).None?
  {
    if xs != [] {
      var init := xs[..|xs| - 1];
      CollectFails(init, f);
      if exists k :: 0 <= k < |xs| && f(xs[k]).None? {
        var k :| 0 <= k < |xs| && f(xs[k]).None?;
        if k < |init| {
          assert init[k] == xs[k];
        }
      }
      if exists k :: 0 <= k < |init| && f(init[k]).None? {
        var k :| 0 <= k < |init| && f(init[k]).None?;
        assert init[k] == xs[k];
      }
    }
  }

  lemma {:induction false} CollectPrefix<T, U>(xs: seq<T>, i: nat, f: T -> Option<seq<U>>)
    requires i <= |xs| && Collect(xs[..i], f).None?
    ensures Collect(xs, f).None?
    decreases |xs| - i
  {
    if i < |xs| {
      var init := xs[..|xs| - 1];
      assert init[..i] == xs[..i];
      CollectPrefix(init, i, f);
    } else {
      assert xs[..i] == xs;
    }
  }

  /** When nothing comes before element `i` and `i` yields something, the
      first result is the first result of element `i`. */
  lemma FlatMapFirst<T, U>(xs: seq<T>, f: T -> seq<U>, i: nat)
    requires i < |xs| && FlatMap(xs[..i], f) == [] && f(xs[i]) != []
    ensures FlatMap(xs, f) != [] && FlatMap(xs, f)[0] == f(xs[i])[0]
  {
    FlatMapUpTo(xs, f, i);
    FlatMapConcat(xs[..i + 1], xs[i + 1..], f);
    assert xs[..i + 1] + xs[i + 1..] == xs;
  }

  lemma FlatMapUpTo<T, U>(xs: seq<T>, f: T -> seq<U>, i: nat)
    requires i < |xs| && FlatMap(xs[..i], f) == []
    ensures FlatMap(xs[..i + 1], f) == f(xs[i])
  {
    var pre := xs[..i + 1];
    assert pre[..i] == xs[..i] && pre[i] == xs[i];
    assert FlatMap(pre, f) == [] + f(xs[i]);
  }

  /** Nothing element `k` yields is lost. */
  lemma FlatMapHas<T, U>(xs: seq<T>, f: T -> seq<U>, k: nat, y: U)
    requires k < |xs| && y in f(xs[k])
    ensures y in FlatMap(xs, f)
  {
    FlatMapConcat(xs[..k + 1], xs[k + 1..], f);
    assert xs[..k + 1] + xs[k + 1..] == xs;
    assert xs[..k + 1][..k] == xs[..k];
  }
}
