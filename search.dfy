/** The page search of the navigation bar (search.js): the trimmed query,
    the split of the page text into sentences, the case-insensitive filter
    that keeps the first ten matching sentences, the highlighting of the
    query inside each of them and the HTML of the results box. */
module Search {

  import opened Common
  import opened Text
  import opened Seqs

  // ---------------------------------------------------------------------------
  // escapeRegExp
  // ---------------------------------------------------------------------------

  /** The characters `[.*+?^${}()|[\]\\]` matches. */
  predicate IsRegexSpecial(c: char) {
    c in ".*+?^${}()|[]\\"
  }

  /** `str.replace(/[.*+?^${}()|[\]\\]/g, "\\$&")`: a backslash before each
      special character, every other character unchanged. */
  function EscapeRegExp(s: string): (r: string)
    ensures |r| >= |s|
    ensures s != [] ==> r != [] && (r[0] == '\\' || !IsRegexSpecial(r[0]))
  {
    if s == [] then []
    else (if IsRegexSpecial(s[0]) then ['\\', s[0]] else [s[0]]) + EscapeRegExp(s[1..])
  }

  /** Reading an escaped pattern back: a backslash stands for the character
      after it. */
  function Unescape(r: string): string
    decreases |r|
  {
    if r == [] then []
    else if r[0] == '\\' && |r| >= 2 then [r[1]] + Unescape(r[2..])
    else [r[0]] + Unescape(r[1..])
  }

  /** Escaping loses nothing: the escaped text reads back as the query. */
  lemma {:induction false} EscapeRoundTrip(s: string)
    ensures Unescape(EscapeRegExp(s)) == s
  {
    if s != [] {
      EscapeRoundTrip(s[1..]);
      var r := EscapeRegExp(s);
      if IsRegexSpecial(s[0]) {
        assert r == ['\\', s[0]] + EscapeRegExp(s[1..]);
        assert r[2..] == EscapeRegExp(s[1..]);
      } else {
        assert r == [s[0]] + EscapeRegExp(s[1..]);
        assert r[1..] == EscapeRegExp(s[1..]);
      }
    }
  }

  /** In the escaped text every special character other than the
      backslash comes right after a backslash. */
  predicate EscapedSpecials(r: string) {
    forall i :: 0 <= i < |r| && IsRegexSpecial(r[i]) && r[i] != '\\' ==> i > 0 && r[i - 1] == '\\'
  }

  lemma {:induction false} EscapedHasNoBareSpecial(s: string)
    ensures EscapedSpecials(EscapeRegExp(s))
  {
    if s != [] {
      EscapedHasNoBareSpecial(s[1..]);
      var head := if IsRegexSpecial(s[0]) then ['\\', s[0]] else [s[0]];
      var tail := EscapeRegExp(s[1..]);
      var r := head + tail;
      assert EscapeRegExp(s) == r;
      forall i | 0 <= i < |r| && IsRegexSpecial(r[i]) && r[i] != '\\'
        ensures i > 0 && r[i - 1] == '\\'
      {
        if i >= |head| {
          var k := i - |head|;
          assert r[i] == tail[k];
          if k == 0 {
            assert false;
          }
          assert r[i - 1] == tail[k - 1];
        }
      }
    }
  }

  // ---------------------------------------------------------------------------
  // Sentences
  // ---------------------------------------------------------------------------

  predicate IsTerminator(c: char) {
    c == '.' || c == '!' || c == '?'
  }

  /** The end of the run of white space that starts at `i`. */
  function RunEnd(s: string, i: nat): (j: nat)
    requires i <= |s|
    ensures i <= j <= |s|
    ensures forall k :: i <= k < j ==> IsSpace(s[k])
    ensures j < |s| ==> !IsSpace(s[j])
    decreases |s| - i
  {
    if i < |s| && IsSpace(s[i]) then RunEnd(s, i + 1) else i
  }

  /** A split point at `i`: white space right after a terminator. */
  predicate SplitsAt(s: string, i: nat) {
    0 < i < |s| && IsTerminator(s[i - 1]) && IsSpace(s[i])
  }

  /** `split(/(?<=[.!?])\s+/)` on `s`: the piece being read starts at
      `start`, and the search for a separator has reached `i`. */
  function SplitFrom(s: string, start: nat, i: nat): (pieces: seq<string>)
    requires start <= i <= |s|
    ensures |pieces| >= 1
    decreases |s| - i
  {
    if i == |s| then [s[start..]]
    else if SplitsAt(s, i) then
      var j := RunEnd(s, i);
      [s[start..i]] + SplitFrom(s, j, j)
    else SplitFrom(s, start, i + 1)
  }

  function Sentences(text: string): (pieces: seq<string>)
    ensures |pieces| >= 1
  {
    SplitFrom(text, 0, 0)
  }

  /** No white space after a terminator inside `p`. */
  predicate NoSplitInside(p: string) {
    forall k :: 0 < k < |p| ==> !(IsTerminator(p[k - 1]) && IsSpace(p[k]))
  }

  /** `p` ends with a terminator. */
  predicate EndsSentence(p: string) {
    p != [] && IsTerminator(p[|p| - 1])
  }

  /** Sentences as the split leaves them: none holds white space after a
      terminator, and each but the last ends with a terminator. */
  predicate WellSplit(pieces: seq<string>) {
    && (forall n :: 0 <= n < |pieces| ==> NoSplitInside(pieces[n]))
    && (forall n :: 0 <= n < |pieces| - 1 ==> EndsSentence(pieces[n]))
  }

  /** A piece read from `start` to `i` has no split point inside. */
  lemma {:induction false} PieceHasNoSplit(s: string, start: nat, i: nat)
    requires start <= i <= |s|
    requires forall k :: start < k < i ==> !SplitsAt(s, k)
    requires i < |s| ==> start < i
    ensures NoSplitInside(s[start..i])
  {
    var p := s[start..i];
    forall k | 0 < k < |p|
      ensures !(IsTerminator(p[k - 1]) && IsSpace(p[k]))
    {
      assert p[k - 1] == s[start + k - 1] && p[k] == s[start + k];
      assert !SplitsAt(s, start + k);
    }
  }

  /** No sentence holds a split point; every sentence but the last ends
      with a terminator. */
  lemma {:induction false} SplitPieces(s: string, start: nat, i: nat)
    requires start <= i <= |s|
    requires forall k :: start < k < i ==> !SplitsAt(s, k)
    requires start > 0 ==> IsSpace(s[start - 1])
    ensures WellSplit(SplitFrom(s, start, i))
    decreases |s| - i
  {
    var pieces := SplitFrom(s, start, i);
    if i == |s| {
      PieceHasNoSplit(s, start, i);
      assert s[start..] == s[start..i];
    } else if SplitsAt(s, i) {
      var j := RunEnd(s, i);
      var p := s[start..i];
      SplitPieces(s, j, j);
      var rest := SplitFrom(s, j, j);
      assert pieces == [p] + rest;
      PieceHasNoSplit(s, start, i);
      assert p[|p| - 1] == s[i - 1];
      assert EndsSentence(p);
      forall n | 0 <= n < |pieces|
        ensures NoSplitInside(pieces[n])
        ensures n < |pieces| - 1 ==> EndsSentence(pieces[n])
      {
        if n > 0 {
          assert pieces[n] == rest[n - 1];
        }
      }
    } else {
      assert pieces == SplitFrom(s, start, i + 1);
      SplitPieces(s, start, i + 1);
    }
  }

  /** The non-space text of the sentences, one after another, is the
      non-space text of the page: splitting drops only white space. */
  predicate NotSpace(c: char) {
    !IsSpace(c)
  }

  lemma {:induction false} SplitDropsOnlySpace(s: string, start: nat, i: nat)
    requires start <= i <= |s|
    ensures Filter(Flatten(SplitFrom(s, start, i)), NotSpace) == Filter(s[start..], NotSpace)
    decreases |s| - i
  {
    if i == |s| {
      FlattenCons([s[start..]], s[start..], []);
      assert s[start..] + [] == s[start..];
    } else if SplitsAt(s, i) {
      var j := RunEnd(s, i);
      SplitDropsOnlySpace(s, j, j);
      var rest := SplitFrom(s, j, j);
      FlattenCons([s[start..i]] + rest, s[start..i], rest);
      FilterAppend(s[start..i], Flatten(rest), NotSpace);
      DropSpaceRun(s, start, i, j);
    } else {
      SplitDropsOnlySpace(s, start, i + 1);
    }
  }

  /** Dropping a run of white space between two parts of `s` keeps all of
      its non-space text. */
  lemma {:induction false} DropSpaceRun(s: string, start: nat, i: nat, j: nat)
    requires start <= i <= j <= |s|
    requires forall k :: i <= k < j ==> IsSpace(s[k])
    ensures Filter(s[start..], NotSpace) == Filter(s[start..i], NotSpace) + Filter(s[j..], NotSpace)
  {
    assert s[start..] == s[start..i] + s[i..j] + s[j..];
    assert forall k :: 0 <= k < j - i ==> s[i..j][k] == s[i + k];
    FilterDropMiddle(s[start..i], s[i..j], s[j..], NotSpace);
  }

  /** The sentences of a page: none holds white space after a terminator,
      each but the last ends with one, and together they keep all of the
      page's non-space text in order. */
  lemma {:induction false} SentencesOfPage(text: string)
    ensures WellSplit(Sentences(text))
    ensures Filter(Flatten(Sentences(text)), NotSpace) == Filter(text, NotSpace)
  {
    SplitPieces(text, 0, 0);
    SplitDropsOnlySpace(text, 0, 0);
    assert text[0..] == text;
  }

  // ---------------------------------------------------------------------------
  // Matching sentences
  // ---------------------------------------------------------------------------

  /** `s => s.toLowerCase().includes(qLower)`. */
  function HasQuery(qLower: string): string -> bool {
    s => Contains(Lower(s), qLower)
  }

  /** `sentences.filter(s => s.toLowerCase().includes(qLower))`. */
  function Matching(sentences: seq<string>, qLower: string): seq<string> {
    Filter(sentences, HasQuery(qLower))
  }

  /** `.slice(0, 10)` of the matching sentences: the first ten of them, or
      all of them when there are fewer. */
  function Matches(sentences: seq<string>, qLower: string): (ms: seq<string>)
    ensures |ms| <= 10 && |ms| <= |Matching(sentences, qLower)| && ms == Matching(sentences, qLower)[..|ms|]
    ensures |ms| < 10 ==> ms == Matching(sentences, qLower)
  {
    var all := Matching(sentences, qLower);
    if |all| <= 10 then all else all[..10]
  }

  /** Each match is a sentence of the page that contains the query. */
  lemma {:induction false} MatchesContainQuery(sentences: seq<string>, qLower: string, m: string)
    requires m in Matches(sentences, qLower)
    ensures m in sentences && Contains(Lower(m), qLower)
  {
    var all := Matching(sentences, qLower);
    var ms := Matches(sentences, qLower);
    assert m in all;
  }

  /** There is no match exactly when no sentence contains the query. */
  lemma {:induction false} NoMatches(sentences: seq<string>, qLower: string)
    ensures Matches(sentences, qLower) == [] <==> forall s :: s in sentences ==> !Contains(Lower(s), qLower)
  {
    var all := Matching(sentences, qLower);
    FilterEmpty(sentences, HasQuery(qLower));
    assert Matches(sentences, qLower) == [] <==> all == [];
  }

  // ---------------------------------------------------------------------------
  // Highlighting
  // ---------------------------------------------------------------------------

  /** The pattern `new RegExp(escapeRegExp(query), "gi")` matches at the
      front of `s`: the query, letter case aside. */
  predicate MatchesAtFront(s: string, q: string) {
    |q| <= |s| && SameLetters(s[..|q|], q)
  }

  /** Two strings of one length that differ at most in letter case. */
  predicate SameLetters(a: string, b: string)
    requires |a| == |b|
  {
    a == [] || (LowerChar(a[0]) == LowerChar(b[0]) && SameLetters(a[1..], b[1..]))
  }

  lemma {:induction false} SameLettersLower(a: string, b: string)
    requires |a| == |b|
    ensures SameLetters(a, b) <==> Lower(a) == Lower(b)
  {
    if a != [] {
      SameLettersLower(a[1..], b[1..]);
      LowerTail(a);
      LowerTail(b);
      if Lower(a) == Lower(b) {
        assert Lower(a)[0] == Lower(b)[0];
      }
      if SameLetters(a, b) {
        assert Lower(a) == [Lower(a)[0]] + Lower(a)[1..];
        assert Lower(b) == [Lower(b)[0]] + Lower(b)[1..];
      }
    }
  }

  /** The match is the query found at the front of the lower-cased text. */
  lemma {:induction false} MatchesAtFrontLower(s: string, q: string)
    ensures MatchesAtFront(s, q) <==> StartsWith(Lower(s), Lower(q))
  {
    if |q| <= |s| {
      SameLettersLower(s[..|q|], q);
      assert Lower(s)[..|q|] == Lower(s[..|q|]);
    }
  }

  /** `(m) => `<mark>${m}</mark>``. */
  function Mark(m: string): string {
    "<mark>" + m + "</mark>"
  }

  /** `s.replace(rx, m => `<mark>${m}</mark>`)` with a global pattern: every
      match, leftmost first and never overlapping, wrapped in `mark` with
      its own letter case. */
  function Highlight(s: string, q: string): (r: string)
    requires q != []
    ensures |r| >= |s|
    decreases |s|
  {
    if s == [] then []
    else if MatchesAtFront(s, q) then Mark(s[..|q|]) + Highlight(s[|q|..], q)
    else [s[0]] + Highlight(s[1..], q)
  }

  lemma {:induction false} LowerTail(s: string)
    requires s != []
    ensures Lower(s)[1..] == Lower(s[1..])
  {
  }

  /** A sentence comes back unchanged exactly when it does not contain the
      query, letter case aside. */
  lemma {:induction false} HighlightUnchanged(s: string, q: string)
    requires q != []
    ensures Highlight(s, q) == s <==> !Contains(Lower(s), Lower(q))
    decreases |s|
  {
    if s != [] {
      MatchesAtFrontLower(s, q);
      if MatchesAtFront(s, q) {
        assert |Highlight(s, q)| >= 13 + |s|;
      } else {
        HighlightUnchanged(s[1..], q);
        LowerTail(s);
        assert Highlight(s, q) == [s[0]] + Highlight(s[1..], q);
        assert Highlight(s, q) == s <==> Highlight(s[1..], q) == s[1..];
      }
    }
  }

  /** The first match, at `j`, is the first thing marked: the text before it
      is left as it is and the match keeps its own letter case. */
  lemma {:induction false} HighlightFirst(s: string, q: string, j: nat)
    requires q != [] && j <= |s|
    requires MatchesAtFront(s[j..], q)
    requires forall i :: 0 <= i < j ==> !MatchesAtFront(s[i..], q)
    ensures Highlight(s, q) == s[..j] + Mark(s[j..j + |q|]) + Highlight(s[j + |q|..], q)
  {
    NoMatchBeforeAll(s, q, j);
    HighlightMatchFits(s[j..], q);
    HighlightFrom(s, q, j, s[j + |q|..]);
  }

  /** No match starts before `j`, one position at a time. */
  predicate NoMatchBefore(s: string, q: string, j: nat)
    requires j <= |s|
    decreases j
  {
    j == 0 || (!MatchesAtFront(s, q) && NoMatchBefore(s[1..], q, j - 1))
  }

  lemma {:induction false} NoMatchBeforeAll(s: string, q: string, j: nat)
    requires j <= |s|
    requires forall i :: 0 <= i < j ==> !MatchesAtFront(s[i..], q)
    ensures NoMatchBefore(s, q, j)
    decreases j
  {
    if j > 0 {
      assert s[0..] == s;
      forall i | 0 <= i < j - 1
        ensures !MatchesAtFront(s[1..][i..], q)
      {
        assert s[1..][i..] == s[i + 1..];
      }
      NoMatchBeforeAll(s[1..], q, j - 1);
    }
  }

  /** HighlightFirst by induction on the position of the first match, with
      the text after the match, `rest`, held fixed. */
  lemma {:induction false} HighlightFrom(s: string, q: string, j: nat, rest: string)
    requires q != [] && j + |q| <= |s|
    requires MatchesAtFront(s[j..], q) && NoMatchBefore(s, q, j)
    requires rest == s[j + |q|..]
    ensures Highlight(s, q) == s[..j] + Mark(s[j..j + |q|]) + Highlight(rest, q)
    decreases j
  {
    if j == 0 {
      assert s[0..] == s;
      HighlightAtFront(s, q);
      JoinAtFront(s, |q|, Highlight(s, q), Highlight(rest, q));
    } else {
      assert s[1..][j - 1..] == s[j..];
      assert s[1..][j - 1 + |q|..] == rest;
      HighlightFrom(s[1..], q, j - 1, rest);
      HighlightStep(s, q);
      JoinFirst(s, j, |q|, Highlight(s, q), Highlight(s[1..], q), Highlight(rest, q));
    }
  }

  /** A match at the front leaves room for the whole query. */
  lemma {:induction false} HighlightMatchFits(s: string, q: string)
    requires MatchesAtFront(s, q)
    ensures |q| <= |s|
  {
  }

  /** The inductive step of HighlightFirst: the character in front is kept. */
  lemma {:induction false} JoinFirst(s: string, j: nat, n: nat, hs: string, ht: string, tail: string)
    requires 0 < j && j + n <= |s|
    requires hs == [s[0]] + ht
    requires ht == s[1..][..j - 1] + Mark(s[1..][j - 1..j - 1 + n]) + tail
    ensures hs == s[..j] + Mark(s[j..j + n]) + tail
  {
    ShiftSlices(s, j, n);
    ConsAssoc(s[0], s[1..j], Mark(s[j..j + n]), tail);
  }

  /** Highlight unfolded once where the query matches at the front. */
  lemma {:induction false} HighlightAtFront(s: string, q: string)
    requires q != [] && MatchesAtFront(s, q)
    ensures |q| <= |s|
    ensures Highlight(s, q) == Mark(s[..|q|]) + Highlight(s[|q|..], q)
  {
  }

  lemma {:induction false} JoinAtFront(s: string, n: nat, hs: string, tail: string)
    requires n <= |s|
    requires hs == Mark(s[..n]) + tail
    ensures hs == s[..0] + Mark(s[0..0 + n]) + tail
  {
    assert s[..0] == [] && s[0..0 + n] == s[..n];
  }

  /** Highlight unfolded once where nothing matches at the front. */
  lemma {:induction false} HighlightStep(s: string, q: string)
    requires q != [] && s != [] && !MatchesAtFront(s, q)
    ensures Highlight(s, q) == [s[0]] + Highlight(s[1..], q)
  {
  }

  lemma {:induction false} ConsAssoc<T>(x: T, a: seq<T>, b: seq<T>, c: seq<T>)
    ensures [x] + (a + b + c) == [x] + a + b + c
  {
  }

  lemma {:induction false} ShiftSlices(s: string, j: nat, n: nat)
    requires 0 < j && j + n <= |s|
    ensures s[1..][..j - 1] == s[1..j] && [s[0]] + s[1..j] == s[..j]
    ensures s[1..][j - 1..j - 1 + n] == s[j..j + n]
    ensures s[1..][j - 1 + n..] == s[j + n..]
  {
  }

  // ---------------------------------------------------------------------------
  // The results box
  // ---------------------------------------------------------------------------

  const EmptyQueryHtml := "<p>Please enter a search term.</p>"
  const NoResultsHtml := "<p>No results found.</p>"

  const HeaderOpen := "<p><strong>Results ("
  const HeaderClose := ")</strong></p>"

  function Header(n: nat): string {
    HeaderOpen + NatToString(n) + HeaderClose
  }

  /** The bullet as the script's text holds it: the UTF-8 bytes of U+2022
      read as Windows-1252. */
  const Bullet := "\U{00E2}\U{20AC}\U{00A2}"

  const LineStart := "<p style=\"margin: 0.25rem 0;\">" + Bullet + " "

  function Line(m: string, q: string): string
    requires q != []
  {
    LineStart + Highlight(m, q) + "</p>"
  }

  function Lines(ms: seq<string>, q: string): (ls: seq<string>)
    requires q != []
    ensures |ls| == |ms|
  {
    seq(|ms|, i requires 0 <= i < |ms| => Line(ms[i], q))
  }

  lemma {:induction false} LinesSnoc(ms: seq<string>, i: nat, q: string)
    requires q != [] && i < |ms|
    ensures Lines(ms[..i + 1], q) == Lines(ms[..i], q) + [Line(ms[i], q)]
  {
    assert ms[..i + 1][i] == ms[i];
  }

  /** The HTML put in the box for a non-empty list of matches. */
  function ResultsHtml(ms: seq<string>, q: string): string
    requires q != []
  {
    Header(|ms|) + Flatten(Lines(ms, q))
  }

  /** The header then the `forEach` that appends one line per match. */
  method BuildResultsHtml(ms: seq<string>, q: string) returns (html: string)
    requires q != []
    ensures html == ResultsHtml(ms, q)
  {
    html := Header(|ms|);
    html := AppendLines(html, ms, q);
  }

  /** `matches.forEach(s => { html += ... })` on an html text that already
      holds `start`. */
  method AppendLines(start: string, ms: seq<string>, q: string) returns (html: string)
    requires q != []
    ensures html == start + Flatten(Lines(ms, q))
  {
    html := start;
    var i := 0;
    while i < |ms|
      invariant 0 <= i <= |ms|
      invariant html == start + Flatten(Lines(ms[..i], q))
    {
      var line := Line(ms[i], q);
      LinesSnoc(ms, i, q);
      FlattenSnoc(Lines(ms[..i], q), line);
      AppendAssoc(start, Flatten(Lines(ms[..i], q)), line);
      html := html + line;
      i := i + 1;
    }
    assert ms[..i] == ms;
  }

  /** The submit handler: the HTML of the results box for the typed query
      and the page text. */
  function SearchHtml(input: string, pageText: string): string {
    var query := Trim(input);
    if query == [] then EmptyQueryHtml
    else
      var ms := Matches(Sentences(pageText), Lower(query));
      if ms == [] then NoResultsHtml
      else ResultsHtml(ms, query)
  }

  /** Which of the three outcomes the page shows: the prompt for an empty
      query, "No results" when no sentence contains the query, otherwise the
      header that counts the matches and one line per match, in order. */
  lemma {:induction false} SearchOutcome(input: string, pageText: string)
    ensures Trim(input) == [] ==> SearchHtml(input, pageText) == EmptyQueryHtml
    ensures var q := Trim(input);
      var ms := Matches(Sentences(pageText), Lower(q));
      q != [] ==>
        && (ms == [] <==> forall s :: s in Sentences(pageText) ==> !Contains(Lower(s), Lower(q)))
        && (ms == [] ==> SearchHtml(input, pageText) == NoResultsHtml)
        && (ms != [] ==> SearchHtml(input, pageText) == Header(|ms|) + Flatten(Lines(ms, q)))
  {
    var q := Trim(input);
    var ms := Matches(Sentences(pageText), Lower(q));
    NoMatches(Sentences(pageText), Lower(q));
    SearchHtmlCases(input, pageText, q, ms);
  }

  /** SearchHtml by its three cases, with the query and the matches named. */
  lemma SearchHtmlCases(input: string, pageText: string, q: string, ms: seq<string>)
    requires q == Trim(input) && ms == Matches(Sentences(pageText), Lower(q))
    ensures q == [] ==> SearchHtml(input, pageText) == EmptyQueryHtml
    ensures q != [] && ms == [] ==> SearchHtml(input, pageText) == NoResultsHtml
    ensures q != [] && ms != [] ==> SearchHtml(input, pageText) == Header(|ms|) + Flatten(Lines(ms, q))
  {
  }

  /** The prompt to enter a term is shown for an empty query only: the other
      two outcomes differ from it. */
  lemma {:induction false} PromptOnlyForEmpty(input: string, pageText: string)
    ensures SearchHtml(input, pageText) == EmptyQueryHtml <==> Trim(input) == []
  {
    var q := Trim(input);
    SearchOutcome(input, pageText);
    if q != [] {
      var ms := Matches(Sentences(pageText), Lower(q));
      NoResultsIsNotPrompt();
      ResultsAreNotPrompt(|ms|, Flatten(Lines(ms, q)));
    }
  }

  lemma {:induction false} NoResultsIsNotPrompt()
    ensures NoResultsHtml != EmptyQueryHtml
  {
    assert NoResultsHtml[3] == 'N' && EmptyQueryHtml[3] == 'P';
  }

  lemma {:induction false} ResultsAreNotPrompt(n: nat, lines: string)
    ensures Header(n) + lines != EmptyQueryHtml
  {
    assert (Header(n) + lines)[3] == HeaderOpen[3] == '<';
    assert EmptyQueryHtml[3] == 'P';
  }

  /** The header's count reads back as the number of result lines. */
  lemma {:induction false} HeaderCount(ms: seq<string>, q: string)
    requires q != []
    ensures var h := ResultsHtml(ms, q);
      var n := |HeaderOpen|;
      h[..n] == HeaderOpen && DigitsValue(DigitPrefix(h[n..])) == |Lines(ms, q)|
  {
    var post := HeaderClose + Flatten(Lines(ms, q));
    assert post[0] == ')';
    assert ResultsHtml(ms, q) == HeaderOpen + NatToString(|ms|) + post;
    NumberAfter(HeaderOpen, |ms|, post);
  }

  /** A number written between a text and a non-digit reads back. */
  lemma {:induction false} NumberAfter(pre: string, n: nat, post: string)
    requires post != [] && !IsDigit(post[0])
    ensures var h := pre + NatToString(n) + post;
      h[..|pre|] == pre && DigitsValue(DigitPrefix(h[|pre|..])) == n
  {
    var d := NatToString(n);
    var h := pre + d + post;
    assert h[|pre|..] == d + post;
    assert (d + post)[..|d|] == d;
    DigitPrefixOf(d + post, |d|);
    NatToStringRoundTrip(n);
  }
}
