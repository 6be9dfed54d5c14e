/**
 * Cleaning the body of an article (the steps of `create_corpus` after the
 * header fields are read): the URL sentence, the stop-word labels, the
 * captions and the copyright line are deleted, and the header is cut off.
 * Each regular expression is written out as the length of the match it
 * finds at the start of a text.
 */
module Cleaning {
  import opened Wrappers
  import opened Text

  // ---------------------------------------------------------------------------
  // `re.sub(pattern, "", s)` for a pattern that never matches the empty text
  // ---------------------------------------------------------------------------

  /**
   * Deleting, left to right, every match of a pattern: `m(t)` is the length
   * of the match at the start of `t`, or 0 when there is none. After a match
   * the scan resumes where it ended; otherwise it moves one character on.
   */
  function SubAll(s: string, m: string -> nat): (r: string)
    ensures IsSubsequence(r, s)
    ensures (forall i :: 0 <= i < |s| ==> m(s[i..]) == 0) ==> r == s
    decreases |s|
  {
    if |s| == 0 then ""
    else
      var k := m(s);
      assert s[0..] == s;
      if 0 < k <= |s| then
        var rest := SubAll(s[k..], m);
        SubsequenceOfSuffix(rest, s[k..], s[..k]);
        assert s[..k] + s[k..] == s;
        rest
      else
        var rest := SubAll(s[1..], m);
        SubsequenceCons(s[0], rest, s[1..]);
        assert [s[0]] + s[1..] == s;
        NoMatchInTail(s, m);
        [s[0]] + rest
  }

  lemma NoMatchInTail(s: string, m: string -> nat)
    requires |s| > 0
    ensures (forall i :: 0 <= i < |s| ==> m(s[i..]) == 0) ==> forall i :: 0 <= i < |s| - 1 ==> m(s[1..][i..]) == 0
  {
    forall i | 0 <= i < |s| - 1
      ensures s[1..][i..] == s[i + 1..]
    {
    }
  }

  /** Deleting matches and then stripping only deletes */
  lemma SubAllStripDeletes(s: string, m: string -> nat)
    ensures IsSubsequence(Strip(SubAll(s, m)), s)
  {
    StripSubsequence(SubAll(s, m));
    SubsequenceTransitive(Strip(SubAll(s, m)), SubAll(s, m), s);
  }

  /** The number of characters before the first newline of `s` */
  function LineEnd(s: string): (n: nat)
    ensures n <= |s|
    ensures forall i :: 0 <= i < n ==> s[i] != '\n'
    ensures n == |s| || s[n] == '\n'
  {
    if |s| > 0 && s[0] != '\n' then 1 + LineEnd(s[1..]) else 0
  }

  // ---------------------------------------------------------------------------
  // The URL sentence
  // ---------------------------------------------------------------------------

  const ReadMore: string := "Läs hela artikeln på "
  const WebArticle: string := "Se webartikeln på "

  /** `(?:Läs hela artikeln på|Se webartikeln på) `: the length of the phrase and its space at the start of `s`, or 0 */
  function UrlPhrase(s: string): (n: nat)
    ensures n == 0 || (n == |ReadMore| && StartsWith(s, ReadMore)) || (n == |WebArticle| && StartsWith(s, WebArticle))
    ensures n == 0 <==> !StartsWith(s, ReadMore) && !StartsWith(s, WebArticle)
    ensures n > 0 ==> |s| > 0 && (s[0] == 'L' || s[0] == 'S')
  {
    if StartsWith(s, ReadMore) then
      assert s[0] == s[..|ReadMore|][0];
      |ReadMore|
    else if StartsWith(s, WebArticle) then
      assert s[0] == s[..|WebArticle|][0];
      |WebArticle|
    else 0
  }

  /** The pattern `(?:Läs hela artikeln på|Se webartikeln på) .*`: the phrase and the rest of its line */
  function UrlMatch(s: string): (n: nat)
    ensures n <= |s|
    ensures n == 0 <==> UrlPhrase(s) == 0
    ensures n > 0 ==> n == |s| || s[n] == '\n'
  {
    var p := UrlPhrase(s);
    if p == 0 then 0 else p + LineEnd(s[p..])
  }

  /** No phrase followed by a space starts anywhere in `s` */
  predicate PhraseFree(s: string) {
    forall i :: 0 <= i < |s| ==> UrlPhrase(s[i..]) == 0
  }

  /**
   * `extract_url(article)`: the rest of the line after the first phrase, or
   * nothing when no phrase followed by a space occurs.
   */
  function ExtractUrl(s: string): (r: Option<string>)
    ensures r.None? <==> PhraseFree(s)
    ensures r.Some? ==> forall i :: 0 <= i < |r.value| ==> r.value[i] != '\n'
    decreases |s|
  {
    if |s| == 0 then None
    else
      var p := UrlPhrase(s);
      assert s[0..] == s;
      if p > 0 then
        Some(s[p..][..LineEnd(s[p..])])
      else
        var r := ExtractUrl(s[1..]);
        assert forall i :: 1 <= i < |s| ==> s[i..] == s[1..][i - 1..];
        r
  }

  /** `re.sub(url_pattern, "", article).strip()` */
  function RemoveUrl(s: string): string {
    Strip(SubAll(s, UrlMatch))
  }

  /** Without a match at the start, the first character is kept */
  lemma SubAllCons(t: string, m: string -> nat)
    requires |t| > 0 && !(0 < m(t) <= |t|)
    ensures SubAll(t, m) == [t[0]] + SubAll(t[1..], m)
  {
  }

  /** A match at the start is deleted */
  lemma SubAllSkip(t: string, m: string -> nat)
    requires |t| > 0 && 0 < m(t) <= |t|
    ensures SubAll(t, m) == SubAll(t[m(t)..], m)
  {
  }

  /**
   * A pattern whose matches run to the end of a line: a match never starts
   * at a newline and stops at a newline or at the end of the text.
   */
  ghost predicate RunsToLineEnd(m: string -> nat) {
    forall u :: 0 < m(u) ==> m(u) <= |u| && (m(u) == |u| || u[m(u)] == '\n') && (|u| > 0 ==> u[0] != '\n')
  }

  lemma UrlMatchRunsToLineEnd()
    ensures RunsToLineEnd(UrlMatch)
  {
  }

  /** What is left after a deleted whole-line match starts with a newline, so a newline-free start was not matched */
  lemma NoMatchUnderPrefix(t: string, x: string, m: string -> nat)
    requires RunsToLineEnd(m)
    requires StartsWith(SubAll(t, m), x) && |x| > 0 && x[0] != '\n'
    ensures !(0 < m(t))
  {
    if 0 < m(t) {
      MatchLeavesLineBreak(t, m);
      assert false;
    }
  }

  /** After a deleted whole-line match, what is left is empty or starts with a newline */
  lemma MatchLeavesLineBreak(t: string, m: string -> nat)
    requires RunsToLineEnd(m) && 0 < m(t)
    ensures SubAll(t, m) == "" || SubAll(t, m)[0] == '\n'
  {
    var k := m(t);
    assert k == |t| || t[k] == '\n';
    SubAllSkip(t, m);
    var u := t[k..];
    if |u| > 0 {
      assert u[0] == '\n';
      assert !(0 < m(u));
      SubAllCons(u, m);
    }
  }

  /** Deleting whole-line matches leaves a newline-free start only where the input had it */
  lemma {:induction false} PrefixKept(t: string, x: string, m: string -> nat)
    requires RunsToLineEnd(m)
    requires StartsWith(SubAll(t, m), x)
    requires forall i :: 0 <= i < |x| ==> x[i] != '\n'
    ensures StartsWith(t, x)
    decreases |t|
  {
    if |x| > 0 {
      NoMatchUnderPrefix(t, x, m);
      SubAllCons(t, m);
      PrefixOfCons(t[0], SubAll(t[1..], m), x);
      PrefixKept(t[1..], x[1..], m);
      PrefixFromTail(t, x);
    }
  }

  lemma PrefixOfCons(c: char, rest: string, x: string)
    requires |x| > 0 && StartsWith([c] + rest, x)
    ensures c == x[0] && StartsWith(rest, x[1..])
  {
    assert ([c] + rest)[1..][..|x| - 1] == rest[..|x| - 1];
  }

  lemma PrefixFromTail(t: string, x: string)
    requires |t| > 0 && |x| > 0 && t[0] == x[0] && StartsWith(t[1..], x[1..])
    ensures StartsWith(t, x)
  {
    assert t[..|x|] == [t[0]] + t[1..][..|x| - 1];
    assert x == [x[0]] + x[1..];
  }

  lemma PhrasesLackNewline()
    ensures forall i :: 0 <= i < |ReadMore| ==> ReadMore[i] != '\n'
    ensures forall i :: 0 <= i < |WebArticle| ==> WebArticle[i] != '\n'
  {
  }

  /** No phrase followed by a space is left after the deletion */
  lemma {:induction false} NoUrlPhraseAfterSubAll(t: string)
    ensures PhraseFree(SubAll(t, UrlMatch))
    decreases |t|
  {
    var r := SubAll(t, UrlMatch);
    if |t| > 0 {
      var k := UrlMatch(t);
      if 0 < k <= |t| {
        SubAllSkip(t, UrlMatch);
        NoUrlPhraseAfterSubAll(t[k..]);
      } else {
        var rest := SubAll(t[1..], UrlMatch);
        SubAllCons(t, UrlMatch);
        assert r == [t[0]] + rest;
        NoUrlPhraseAfterSubAll(t[1..]);
        forall j | 0 <= j < |r|
          ensures UrlPhrase(r[j..]) == 0
        {
          if j == 0 {
            PhrasesLackNewline();
            if StartsWith(r, ReadMore) {
              UrlMatchRunsToLineEnd();
              PrefixKept(t, ReadMore, UrlMatch);
            }
            if StartsWith(r, WebArticle) {
              UrlMatchRunsToLineEnd();
              PrefixKept(t, WebArticle, UrlMatch);
            }
          } else {
            assert r[j..] == rest[j - 1..];
          }
        }
      }
    }
  }

  /** A text that starts with `p` inside a piece of `s` starts with `p` in `s` too */
  lemma StartsWithInSlice(s: string, a: nat, b: nat, j: nat, p: string)
    requires a <= b <= |s| && j <= b - a
    requires StartsWith(s[a..b][j..], p)
    ensures StartsWith(s[a + j..], p)
  {
    assert s[a..b][j..][..|p|] == s[a + j..][..|p|];
  }

  /** A phrase inside a piece of `s` is a phrase in `s` */
  lemma PhraseInSlice(s: string, a: nat, b: nat, j: nat)
    requires a <= b <= |s| && j <= b - a
    requires UrlPhrase(s[a..b][j..]) > 0
    ensures UrlPhrase(s[a + j..]) > 0
  {
    if StartsWith(s[a..b][j..], ReadMore) {
      StartsWithInSlice(s, a, b, j, ReadMore);
    } else {
      StartsWithInSlice(s, a, b, j, WebArticle);
    }
  }

  /** A piece of a text without phrases has none */
  lemma NoPhraseInPiece(d: string, a: nat, b: nat)
    requires a <= b <= |d|
    requires PhraseFree(d)
    ensures PhraseFree(d[a..b])
  {
    forall j | 0 <= j < b - a
      ensures UrlPhrase(d[a..b][j..]) == 0
    {
      if UrlPhrase(d[a..b][j..]) > 0 {
        PhraseInSlice(d, a, b, j);
        assert false;
      }
    }
  }

  lemma PhraseFreePiece(d: string, r: string, a: nat)
    requires a + |r| <= |d| && r == d[a..a + |r|]
    requires PhraseFree(d)
    ensures PhraseFree(r)
  {
    NoPhraseInPiece(d, a, a + |r|);
  }

  /** Stripping a text without phrases leaves none */
  lemma StripKeepsNoPhrase(d: string)
    requires PhraseFree(d)
    ensures PhraseFree(Strip(d))
  {
    StripSlice(d);
    PhraseFreePiece(d, Strip(d), StripStart(d));
  }

  /** After URL removal no phrase followed by a space remains */
  lemma NoUrlPhraseRemains(s: string)
    ensures PhraseFree(RemoveUrl(s))
  {
    NoUrlPhraseAfterSubAll(s);
    StripKeepsNoPhrase(SubAll(s, UrlMatch));
  }

  /** URL removal only deletes */
  lemma RemoveUrlDeletes(s: string)
    ensures IsSubsequence(RemoveUrl(s), s)
  {
    SubAllStripDeletes(s, UrlMatch);
  }

  /** Without a URL, removal only strips; with one, it deletes text */
  lemma UrlAbsentIffNothingRemoved(s: string)
    ensures ExtractUrl(s).None? ==> SubAll(s, UrlMatch) == s && RemoveUrl(s) == Strip(s)
    ensures ExtractUrl(s).Some? ==> |SubAll(s, UrlMatch)| < |s|
  {
    if ExtractUrl(s).Some? {
      SubAllShrinks(s, UrlMatch);
    }
  }

  /** A match anywhere makes the deletion shorter than the input */
  lemma {:induction false} SubAllShrinks(s: string, m: string -> nat)
    requires exists i :: 0 <= i < |s| && 0 < m(s[i..]) <= |s| - i
    ensures |SubAll(s, m)| < |s|
    decreases |s|
  {
    var k := m(s);
    if 0 < k <= |s| {
      SubsequenceLength(SubAll(s[k..], m), s[k..]);
    } else {
      var i :| 0 <= i < |s| && 0 < m(s[i..]) <= |s| - i;
      assert i > 0;
      assert s[1..][i - 1..] == s[i..];
      SubAllShrinks(s[1..], m);
    }
  }

  /** The line end of a newline-free text followed by a newline or nothing */
  lemma LineEndOf(url: string, rest: string)
    requires forall i :: 0 <= i < |url| ==> url[i] != '\n'
    requires |rest| == 0 || rest[0] == '\n'
    ensures LineEnd(url + rest) == |url|
  {
    var s := url + rest;
    assert forall i :: 0 <= i < |url| ==> s[i] != '\n';
    assert |url| == |s| || s[|url|] == '\n';
  }

  /** A text that opens with a phrase matches it */
  lemma PhraseAtStart(phrase: string, t: string)
    requires phrase == ReadMore || phrase == WebArticle
    ensures UrlPhrase(phrase + t) == |phrase|
  {
    var s := phrase + t;
    assert s[..|phrase|] == phrase;
    if phrase == WebArticle {
      assert s[0] == 'S';
      assert !StartsWith(s, ReadMore);
    }
  }

  /** Without a phrase at the start, the search moves one character on */
  lemma ExtractUrlSkip(s: string)
    requires |s| > 0 && UrlPhrase(s) == 0
    ensures ExtractUrl(s) == ExtractUrl(s[1..])
  {
  }

  /** The URL right after a phrase */
  lemma ExtractUrlAtPhrase(phrase: string, url: string, rest: string)
    requires phrase == ReadMore || phrase == WebArticle
    requires forall i :: 0 <= i < |url| ==> url[i] != '\n'
    requires |rest| == 0 || rest[0] == '\n'
    ensures ExtractUrl(phrase + (url + rest)) == Some(url)
  {
    var t := url + rest;
    var s := phrase + t;
    PhraseAtStart(phrase, t);
    ExtractUrlAt(s, |phrase|);
    assert s[|phrase|..] == t;
    LineEndOf(url, rest);
    assert t[..|url|] == url;
  }

  /** A phrase at the start gives the rest of its line */
  lemma ExtractUrlAt(s: string, p: nat)
    requires UrlPhrase(s) == p > 0
    ensures p <= |s| && ExtractUrl(s) == Some(s[p..][..LineEnd(s[p..])])
  {
    assert s[0..] == s;
  }

  /** With no phrase before position `k`, the search finds what it finds from `k` on */
  lemma {:induction false} ExtractUrlFrom(s: string, k: nat)
    requires k <= |s|
    requires forall i :: 0 <= i < k ==> UrlPhrase(s[i..]) == 0
    ensures ExtractUrl(s) == ExtractUrl(s[k..])
    decreases k
  {
    if k > 0 {
      assert s[0..] == s;
      ExtractUrlSkip(s);
      forall i | 0 <= i < k - 1
        ensures UrlPhrase(s[1..][i..]) == 0
      {
        assert s[1..][i..] == s[i + 1..];
      }
      ExtractUrlFrom(s[1..], k - 1);
      assert s[1..][k - 1..] == s[k..];
    }
  }

  /** The URL after a phrase that nothing before it matches */
  lemma ExtractUrlFirstPhrase(pre: string, phrase: string, url: string, rest: string)
    requires phrase == ReadMore || phrase == WebArticle
    requires forall i :: 0 <= i < |pre| ==> UrlPhrase((pre + phrase + url + rest)[i..]) == 0
    requires forall i :: 0 <= i < |url| ==> url[i] != '\n'
    requires |rest| == 0 || rest[0] == '\n'
    ensures ExtractUrl(pre + phrase + url + rest) == Some(url)
  {
    ExtractUrlFrom(pre + phrase + url + rest, |pre|);
    SuffixAfter(pre, phrase, url, rest);
    ExtractUrlAtPhrase(phrase, url, rest);
  }

  lemma SuffixAfter(pre: string, phrase: string, url: string, rest: string)
    ensures (pre + phrase + url + rest)[|pre|..] == phrase + (url + rest)
  {
  }

  // ---------------------------------------------------------------------------
  // Stop-word labels
  // ---------------------------------------------------------------------------

  /** The stop words `main` passes by default */
  const DefaultStopWords: string := "Bildtext|Image-text|Pressbild|Snabbversion"

  /** The length of `label:` for the first label (in list order) followed by a colon at the start of `s`, or 0 */
  function LabelMatch(s: string, labels: seq<string>): (n: nat)
    ensures n == 0 <==> forall i :: 0 <= i < |labels| ==> !StartsWith(s, labels[i] + ":")
    ensures n > 0 ==> n <= |s| && s[n - 1] == ':'
    ensures n > 0 ==> exists i :: FirstLabel(s, labels, i) && n == |labels[i]| + 1
  {
    if |labels| == 0 then 0
    else if StartsWith(s, labels[0] + ":") then
      assert s[|labels[0]|] == (labels[0] + ":")[|labels[0]|];
      assert FirstLabel(s, labels, 0);
      |labels[0]| + 1
    else
      var n := LabelMatch(s, labels[1..]);
      assert forall i :: 1 <= i < |labels| ==> labels[i] == labels[1..][i - 1];
      assert n > 0 ==> exists i :: FirstLabel(s, labels, i) && n == |labels[i]| + 1 by {
        if n > 0 {
          var i :| FirstLabel(s, labels[1..], i) && n == |labels[1..][i]| + 1;
          assert FirstLabel(s, labels, i + 1);
        }
      }
      n
  }

  /** Label `i` is the first of `labels` that `s` starts with, followed by a colon */
  predicate FirstLabel(s: string, labels: seq<string>, i: int) {
    && 0 <= i < |labels|
    && StartsWith(s, labels[i] + ":")
    && forall j :: 0 <= j < i ==> !StartsWith(s, labels[j] + ":")
  }

  /** The pattern `(label|label|…):\s?`: a label, its colon and at most one whitespace character */
  function StopWordMatch(s: string, labels: seq<string>): (n: nat)
    ensures n <= |s|
    ensures n == 0 <==> LabelMatch(s, labels) == 0
    ensures n > 0 ==>
      var k := LabelMatch(s, labels);
      || (n == k + 1 && IsSpace(s[k]))
      || (n == k && (k == |s| || !IsSpace(s[k])))
  {
    var k := LabelMatch(s, labels);
    if k == 0 then 0
    else if k < |s| && IsSpace(s[k]) then k + 1
    else k
  }

  /** The labels of a `|`-separated stop-word string, each tried literally */
  function Labels(stopWords: string): seq<string> {
    Split(stopWords, "|")
  }

  /**
   * `remove_stop_words_from_article(article, stop_words)`: an empty
   * stop-word string changes nothing; otherwise every label with its colon
   * and one following whitespace character is deleted and the result is
   * stripped.
   */
  function RemoveStopWords(s: string, stopWords: string): string {
    if stopWords == "" then s
    else Strip(SubAll(s, t => StopWordMatch(t, Labels(stopWords))))
  }

  /** Stop-word removal only deletes */
  lemma RemoveStopWordsDeletes(s: string, stopWords: string)
    ensures IsSubsequence(RemoveStopWords(s, stopWords), s)
  {
    if stopWords == "" {
      SubsequenceReflexive(s);
    } else {
      SubAllStripDeletes(s, t => StopWordMatch(t, Labels(stopWords)));
    }
  }

  /** Without any `label:` in the text, stop-word removal only strips */
  lemma RemoveStopWordsAbsent(s: string, stopWords: string)
    requires stopWords != ""
    requires forall i, l :: 0 <= i < |s| && 0 <= l < |Labels(stopWords)| ==> !StartsWith(s[i..], Labels(stopWords)[l] + ":")
    ensures RemoveStopWords(s, stopWords) == Strip(s)
  {
    var m := t => StopWordMatch(t, Labels(stopWords));
    forall i | 0 <= i < |s|
      ensures m(s[i..]) == 0
    {
    }
  }

  /** A label and its colon are deleted with one following space */
  lemma StopWordExample(name: string, rest: string, labels: seq<string>)
    requires |labels| > 0 && labels[0] == name
    requires |rest| > 0 && IsSpace(rest[0])
    ensures StopWordMatch(name + ":" + rest, labels) == |name| + 2
  {
    var s := name + ":" + rest;
    assert s[..|name| + 1] == name + ":";
    assert s[|name| + 1] == rest[0];
  }

  // ---------------------------------------------------------------------------
  // Captions
  // ---------------------------------------------------------------------------

  const CaptionStart: string := "Bild: "

  predicate IsAsciiUpper(c: char) { 'A' <= c <= 'Z' }
  predicate IsAsciiLower(c: char) { 'a' <= c <= 'z' }

  /** The number of ASCII lower-case letters `s` starts with */
  function LowerRun(s: string): (n: nat)
    ensures n <= |s|
    ensures forall i :: 0 <= i < n ==> IsAsciiLower(s[i])
    ensures n == |s| || !IsAsciiLower(s[n])
  {
    if |s| > 0 && IsAsciiLower(s[0]) then 1 + LowerRun(s[1..]) else 0
  }

  /**
   * Between `a` and `b`, `s` holds only ASCII letters and spaces; a space is
   * followed by an upper-case letter, and an upper-case letter is preceded by
   * a space (unless it is at `a`) and followed by a lower-case letter.
   */
  predicate NameLetters(s: string, a: nat, b: nat)
    requires a <= b <= |s|
  {
    forall i :: a <= i < b ==> NameLetterAt(s, a, b, i)
  }

  /** The condition `NameLetters` puts on position `i` */
  predicate NameLetterAt(s: string, a: nat, b: nat, i: nat)
    requires a <= i < b <= |s|
  {
    && (IsAsciiUpper(s[i]) || IsAsciiLower(s[i]) || s[i] == ' ')
    && (s[i] == ' ' ==> i + 1 < b && IsAsciiUpper(s[i + 1]))
    && (IsAsciiUpper(s[i]) ==> (i == a || s[i - 1] == ' ') && i + 1 < b && IsAsciiLower(s[i + 1]))
  }

  /** A further ` [A-Z][a-z]` starts at `n`, so a name ending there would go on */
  predicate NameGoesOn(s: string, n: nat) {
    n + 2 < |s| && s[n] == ' ' && IsAsciiUpper(s[n + 1]) && IsAsciiLower(s[n + 2])
  }

  /** A whole text of the form `[A-Z][a-z]+(?: [A-Z][a-z]+)*`: capitalised words, one space apart */
  predicate IsName(t: string) {
    |t| >= 2 && IsAsciiUpper(t[0]) && IsAsciiLower(t[|t| - 1]) && NameLetters(t, 0, |t|)
  }

  /** `[A-Z][a-z]+` at the start of `s`: its length, or 0 */
  function CapWord(s: string): (n: nat)
    ensures n <= |s|
    ensures n == 0 || n >= 2
  {
    if |s| >= 2 && IsAsciiUpper(s[0]) && IsAsciiLower(s[1]) then 1 + LowerRun(s[1..]) else 0
  }

  /** A capitalised word found at `a`: an upper-case letter, then the longest run of lower-case ones */
  lemma CapWordAt(s: string, a: nat)
    requires a <= |s| && CapWord(s[a..]) > 0
    ensures a + CapWord(s[a..]) <= |s|
    ensures IsAsciiUpper(s[a]) && IsAsciiLower(s[a + CapWord(s[a..]) - 1])
    ensures a + CapWord(s[a..]) == |s| || !IsAsciiLower(s[a + CapWord(s[a..])])
    ensures NameLetters(s, a, a + CapWord(s[a..]))
  {
    var t := s[a..];
    var k := LowerRun(t[1..]);
    var c := a + 1 + k;
    assert t[1..][0] == t[1];
    forall i | a <= i < c
      ensures NameLetterAt(s, a, c, i)
    {
      assert s[i] == t[i - a];
      if i > a {
        assert t[i - a] == t[1..][i - a - 1];
      }
      if i + 1 < c {
        assert s[i + 1] == t[1..][i - a];
      }
    }
    assert s[c - 1] == t[1..][k - 1];
    if c < |s| {
      assert s[c] == t[1..][k];
    }
  }

  /** Letters and spaces from `a` to `b` and from `b` to `c`, with a space at `b`, run on from `a` to `c` */
  lemma NameLettersJoin(s: string, a: nat, b: nat, c: nat)
    requires a <= b <= c <= |s|
    requires NameLetters(s, a, b) && NameLetters(s, b, c)
    requires b < c ==> s[b] == ' '
    ensures NameLetters(s, a, c)
  {
    forall i | a <= i < c
      ensures NameLetterAt(s, a, c, i)
    {
      if i < b {
        assert NameLetterAt(s, a, b, i);
      } else {
        assert NameLetterAt(s, b, c, i);
      }
    }
  }

  /** A space followed by a run of letters and spaces that starts with a capital */
  lemma NameLettersSpace(s: string, a: nat, b: nat)
    requires a + 1 < b <= |s|
    requires s[a] == ' ' && IsAsciiUpper(s[a + 1]) && NameLetters(s, a + 1, b)
    ensures NameLetters(s, a, b)
  {
    forall i | a <= i < b
      ensures NameLetterAt(s, a, b, i)
    {
      if i > a {
        assert NameLetterAt(s, a + 1, b, i);
      }
    }
  }

  /** Letters and spaces of a prefix, stated on the prefix itself */
  lemma NameLettersPrefix(s: string, n: nat)
    requires n <= |s| && NameLetters(s, 0, n)
    ensures NameLetters(s[..n], 0, n)
  {
    forall i | 0 <= i < n
      ensures NameLetterAt(s[..n], 0, n, i)
    {
      assert NameLetterAt(s, 0, n, i);
      assert s[..n][i] == s[i];
      if i + 1 < n {
        assert s[..n][i + 1] == s[i + 1];
      }
      if i > 0 {
        assert s[..n][i - 1] == s[i - 1];
      }
    }
  }

  /** Letters and spaces of a suffix, stated on the whole text */
  lemma NameLettersShift(s: string, w: nat, m: nat)
    requires w + m <= |s|
    requires NameLetters(s[w..], 0, m)
    ensures NameLetters(s, w, w + m)
  {
    var c := w + m;
    forall i | w <= i < c
      ensures NameLetterAt(s, w, c, i)
    {
      assert NameLetterAt(s[w..], 0, m, i - w);
      assert s[i] == s[w..][i - w];
      if i + 1 < c {
        assert s[i + 1] == s[w..][i + 1 - w];
      }
      if i > w {
        assert s[i - 1] == s[w..][i - 1 - w];
      }
    }
  }

  /** `(?: [A-Z][a-z]+)*`, taken greedily: the length of the further names */
  function MoreWords(s: string): (n: nat)
    ensures n <= |s|
    decreases |s|
  {
    if |s| >= 1 && s[0] == ' ' && CapWord(s[1..]) > 0 then
      var w := 1 + CapWord(s[1..]);
      w + MoreWords(s[w..])
    else 0
  }

  /**
   * What `MoreWords` takes starts with a space and ends in a lower-case
   * letter that no further lower-case letter follows.
   */
  lemma {:induction false} MoreWordsEnds(s: string)
    ensures MoreWords(s) > 0 ==> s[0] == ' ' && IsAsciiLower(s[MoreWords(s) - 1])
    ensures MoreWords(s) > 0 ==> MoreWords(s) == |s| || !IsAsciiLower(s[MoreWords(s)])
    decreases |s|
  {
    if |s| >= 1 && s[0] == ' ' && CapWord(s[1..]) > 0 {
      var w := 1 + CapWord(s[1..]);
      var rest := MoreWords(s[w..]);
      assert MoreWords(s) == w + rest;
      MoreWordsEnds(s[w..]);
      CapWordAt(s, 1);
      if rest > 0 {
        assert s[w + rest - 1] == s[w..][rest - 1];
      }
      if w + rest < |s| {
        assert s[w + rest] == s[w..][rest];
      }
      assert IsAsciiLower(s[w + rest - 1]);
    } else {
      assert MoreWords(s) == 0;
    }
  }

  /** What `MoreWords` takes is spaces each followed by a capitalised word */
  lemma {:induction false} MoreWordsLetters(s: string)
    ensures NameLetters(s, 0, MoreWords(s))
    decreases |s|
  {
    if |s| >= 1 && s[0] == ' ' && CapWord(s[1..]) > 0 {
      var w := 1 + CapWord(s[1..]);
      var rest := MoreWords(s[w..]);
      assert MoreWords(s) == w + rest;
      MoreWordsLetters(s[w..]);
      MoreWordsEnds(s[w..]);
      WordThenLetters(s, w, rest);
      LettersUpTo(s, w + rest, MoreWords(s));
    } else {
      assert MoreWords(s) == 0;
      LettersUpTo(s, 0, MoreWords(s));
    }
  }

  /** Letters and spaces up to an end, restated for an equal end */
  lemma LettersUpTo(s: string, n: nat, m: nat)
    requires n == m <= |s|
    requires n == 0 || NameLetters(s, 0, n)
    ensures NameLetters(s, 0, m)
  {
  }

  /** A space and a capitalised word, then letters and spaces that start with a space: letters and spaces throughout */
  lemma WordThenLetters(s: string, w: nat, rest: nat)
    requires |s| >= 1 && s[0] == ' ' && CapWord(s[1..]) > 0 && w == 1 + CapWord(s[1..])
    requires rest <= |s| - w
    requires NameLetters(s[w..], 0, rest)
    requires rest > 0 ==> s[w..][0] == ' '
    ensures NameLetters(s, 0, w + rest)
  {
    CapWordAt(s, 1);
    NameLettersSpace(s, 0, w);
    NameLettersShift(s, w, rest);
    if rest > 0 {
      assert s[w] == s[w..][0];
    }
    NameLettersJoin(s, 0, w, w + rest);
  }

  /** `MoreWords` is greedy: no further ` [A-Z][a-z]` follows what it takes */
  lemma {:induction false} MoreWordsStops(s: string)
    ensures !NameGoesOn(s, MoreWords(s))
    decreases |s|
  {
    if |s| >= 1 && s[0] == ' ' && CapWord(s[1..]) > 0 {
      var w := 1 + CapWord(s[1..]);
      var rest := MoreWords(s[w..]);
      assert MoreWords(s) == w + rest;
      MoreWordsStops(s[w..]);
      if w + rest + 2 < |s| {
        assert s[w + rest] == s[w..][rest];
        assert s[w + rest + 1] == s[w..][rest + 1];
        assert s[w + rest + 2] == s[w..][rest + 2];
      }
    } else {
      assert MoreWords(s) == 0;
      if 2 < |s| {
        assert s[1..][0] == s[1] && s[1..][1] == s[2];
      }
    }
  }

  /** `[A-Z][a-z]+(?: [A-Z][a-z]+)*` at the start of `s`, taken greedily: the length of the name, or 0 */
  function NameMatch(s: string): (n: nat)
    ensures n <= |s|
    ensures n == 0 <==> CapWord(s) == 0
  {
    var w := CapWord(s);
    if w == 0 then 0 else w + MoreWords(s[w..])
  }

  /** A name matched at the start of `s` is capitalised words one space apart */
  lemma NameMatchShape(s: string)
    ensures NameMatch(s) > 0 ==> IsName(s[..NameMatch(s)])
  {
    var w := CapWord(s);
    if w > 0 {
      var rest := MoreWords(s[w..]);
      var n := w + rest;
      assert NameMatch(s) == n;
      MoreWordsLetters(s[w..]);
      MoreWordsEnds(s[w..]);
      NameFromParts(s, w, rest);
    }
  }

  /** A capitalised word, then letters and spaces that start with a space and end in a lower-case letter, make a name */
  lemma NameFromParts(s: string, w: nat, rest: nat)
    requires CapWord(s) == w > 0
    requires rest <= |s| - w
    requires NameLetters(s[w..], 0, rest)
    requires rest > 0 ==> s[w..][0] == ' ' && IsAsciiLower(s[w..][rest - 1])
    ensures IsName(s[..w + rest])
  {
    var n := w + rest;
    assert s[0..] == s;
    CapWordAt(s, 0);
    NameLettersShift(s, w, rest);
    if rest > 0 {
      assert s[w] == s[w..][0];
      assert s[n - 1] == s[w..][rest - 1];
    }
    NameLettersJoin(s, 0, w, n);
    NameLettersPrefix(s, n);
    assert s[..n][n - 1] == s[n - 1] && s[..n][0] == s[0];
  }

  /**
   * A name matched at the start of `s` is the longest one there: neither a
   * lower-case letter nor a further ` [A-Z][a-z]` follows it.
   */
  lemma NameMatchLongest(s: string)
    ensures NameMatch(s) > 0 ==> NameMatch(s) == |s| || !IsAsciiLower(s[NameMatch(s)])
    ensures NameMatch(s) > 0 ==> !NameGoesOn(s, NameMatch(s))
  {
    var w := CapWord(s);
    if w > 0 {
      var rest := MoreWords(s[w..]);
      var n := w + rest;
      assert NameMatch(s) == n;
      assert s[0..] == s;
      CapWordAt(s, 0);
      MoreWordsEnds(s[w..]);
      MoreWordsStops(s[w..]);
      if n + 2 < |s| {
        assert s[n] == s[w..][rest];
        assert s[n + 1] == s[w..][rest + 1];
        assert s[n + 2] == s[w..][rest + 2];
      } else if n < |s| {
        assert s[n] == s[w..][rest];
      }
    }
  }

  /**
   * The pattern `Bild: ([A-Z][a-z]+(?: [A-Z][a-z]+)*)(/TT)?\s?` at the start
   * of `s`: its length, or 0. A match is `Bild: `, the longest name that
   * follows, then `/TT` when it comes next, then one whitespace character
   * when one comes next.
   */
  function CaptionMatch(s: string): (n: nat)
    ensures n <= |s|
    ensures n > 0 ==> StartsWith(s, CaptionStart) && n > |CaptionStart|
    ensures StartsWith(s, CaptionStart) && CapWord(s[|CaptionStart|..]) > 0 ==> n > 0
    ensures n > 0 ==>
      var e := |CaptionStart| + NameMatch(s[|CaptionStart|..]);
      && |CaptionStart| < e <= n
      && (StartsWith(s[e..], "/TT") ==> n == e + 3 || (n == e + 4 && IsSpace(s[e + 3])))
      && (!StartsWith(s[e..], "/TT") ==> n == e || (n == e + 1 && IsSpace(s[e])))
      && ((n == e || n == e + 3) ==> n == |s| || !IsSpace(s[n]))
  {
    if !StartsWith(s, CaptionStart) then 0
    else
      var k := NameMatch(s[|CaptionStart|..]);
      if k == 0 then 0
      else
        var e := |CaptionStart| + k;
        var e2 := if StartsWith(s[e..], "/TT") then e + 3 else e;
        if e2 < |s| && IsSpace(s[e2]) then e2 + 1 else e2
  }

  /** `remove_captions_from_article(article)` */
  function RemoveCaptions(s: string): string {
    Strip(SubAll(s, CaptionMatch))
  }

  /** Caption removal only deletes */
  lemma RemoveCaptionsDeletes(s: string)
    ensures IsSubsequence(RemoveCaptions(s), s)
  {
    SubAllStripDeletes(s, CaptionMatch);
  }

  /** Without `Bild: ` in the text, caption removal only strips */
  lemma RemoveCaptionsAbsent(s: string)
    requires forall i :: 0 <= i < |s| ==> !StartsWith(s[i..], CaptionStart)
    ensures RemoveCaptions(s) == Strip(s)
  {
  }

  /** A run of lower-case letters ended by anything else */
  lemma {:induction false} LowerRunOf(w: string, rest: string)
    requires forall i :: 0 <= i < |w| ==> IsAsciiLower(w[i])
    requires |rest| == 0 || !IsAsciiLower(rest[0])
    ensures LowerRun(w + rest) == |w|
    decreases |w|
  {
    if |w| > 0 {
      assert (w + rest)[1..] == w[1..] + rest;
      LowerRunOf(w[1..], rest);
    } else {
      assert w + rest == rest;
    }
  }

  /** A capitalised word: an upper-case letter and a run of lower-case ones */
  lemma CapWordOf(c: char, w: string, rest: string)
    requires IsAsciiUpper(c) && |w| > 0
    requires forall i :: 0 <= i < |w| ==> IsAsciiLower(w[i])
    requires |rest| == 0 || !IsAsciiLower(rest[0])
    ensures CapWord([c] + w + rest) == 1 + |w|
  {
    var s := [c] + w + rest;
    assert s[1..] == w + rest;
    LowerRunOf(w, rest);
  }

  /** A caption with a two-word name and the news agency mark is deleted with the space after it */
  lemma CaptionExample(rest: string)
    ensures CaptionMatch("Bild: Anna Svensson/TT " + rest) == 23
  {
    var s := "Bild: Anna Svensson/TT " + rest;
    CaptionExampleLayout(rest);
    NameExample(rest);
    CaptionWithMark(s, 13);
  }

  lemma CaptionExampleLayout(rest: string)
    ensures var s := "Bild: Anna Svensson/TT " + rest;
      && StartsWith(s, CaptionStart)
      && s[|CaptionStart|..] == "Anna Svensson/TT " + rest
      && StartsWith(s[|CaptionStart| + 13..], "/TT")
      && |CaptionStart| + 16 < |s| && s[|CaptionStart| + 16] == ' '
  {
    var s := "Bild: Anna Svensson/TT " + rest;
    var name, mark := "Anna Svensson", "/TT";
    assert "Bild: Anna Svensson/TT " == CaptionStart + (name + mark + " ");
    assert s == CaptionStart + (name + mark + " ") + rest;
    PrefixParts(CaptionStart, name + mark + " ", rest);
    assert s == (CaptionStart + name) + mark + (" " + rest);
    PrefixParts(CaptionStart + name, mark, " " + rest);
  }

  /** A text made of a prefix, a middle and a rest starts with the prefix, and the middle follows it */
  lemma PrefixParts(p: string, q: string, rest: string)
    ensures StartsWith(p + q + rest, p)
    ensures (p + q + rest)[|p|..] == q + rest
  {
    assert (p + q + rest)[..|p|] == p;
  }

  /** A name followed by the news agency mark and a whitespace character */
  lemma CaptionWithMark(s: string, k: nat)
    requires StartsWith(s, CaptionStart) && 0 < k
    requires NameMatch(s[|CaptionStart|..]) == k
    requires StartsWith(s[|CaptionStart| + k..], "/TT")
    requires |CaptionStart| + k + 3 < |s| && IsSpace(s[|CaptionStart| + k + 3])
    ensures CaptionMatch(s) == |CaptionStart| + k + 4
  {
  }

  /** Two capitalised words stop at the slash of the news agency mark */
  lemma NameExample(rest: string)
    ensures NameMatch("Anna Svensson/TT " + rest) == 13
  {
    var t := "Anna Svensson/TT " + rest;
    var tail := " Svensson/TT " + rest;
    assert t == ['A'] + "nna" + tail;
    CapWordOf('A', "nna", tail);
    assert t[4..] == tail;
    MoreWordsExample(rest);
  }

  /** A second capitalised word, then the slash */
  lemma MoreWordsExample(rest: string)
    ensures MoreWords(" Svensson/TT " + rest) == 9
  {
    var after := "/TT " + rest;
    assert " Svensson/TT " == " " + "S" + "vensson" + "/TT ";
    assert " Svensson/TT " + rest == " " + "S" + "vensson" + after;
    MoreWordsStep('S', "vensson", after);
    assert after[0] == '/';
  }

  /** A space and a capitalised word extend the name by their length */
  lemma MoreWordsStep(c: char, w: string, after: string)
    requires IsAsciiUpper(c) && |w| > 0
    requires forall i :: 0 <= i < |w| ==> IsAsciiLower(w[i])
    requires |after| == 0 || !IsAsciiLower(after[0])
    ensures MoreWords(" " + [c] + w + after) == 2 + |w| + MoreWords(after)
  {
    var u := " " + [c] + w + after;
    assert u[1..] == [c] + w + after;
    CapWordOf(c, w, after);
    assert u[2 + |w|..] == after;
  }


  // ---------------------------------------------------------------------------
  // The copyright line
  // ---------------------------------------------------------------------------

  /** The index just past the last newline of `s`, or 0: where its last line starts */
  function LastLineStart(s: string): (n: nat)
    ensures n <= |s|
    ensures n > 0 ==> s[n - 1] == '\n'
    ensures forall i :: n <= i < |s| ==> s[i] != '\n'
  {
    match LastIndexOfChar(s, '\n')
    case None => 0
    case Some(k) => k + 1
  }

  /** The text without its final newline, if it has one */
  function DropFinalNewline(s: string): (r: string)
    ensures r == s || (s == r + "\n")
    ensures r == s <==> |s| == 0 || s[|s| - 1] != '\n'
  {
    if |s| > 0 && s[|s| - 1] == '\n' then s[..|s| - 1] else s
  }

  /**
   * `re.sub(r"©.*$", "", article)` without the final strip. Without
   * MULTILINE, `$` matches only at the end or before a final newline, and `.`
   * stops at newlines, so the match is the first `©` of the last line (a final
   * newline aside) to the end of that line.
   */
  function CutCopyright(s: string): string {
    var body := DropFinalNewline(s);
    CutLine(s, LastLineStart(body), |body|)
  }

  /** The text with the line piece `s[start..end]` cut at its first `©`, and the rest of that piece deleted */
  function CutLine(s: string, start: nat, end: nat): string
    requires start <= end <= |s|
  {
    match IndexOf(s[start..end], "©")
    case None => s
    case Some(q) => s[..start + q] + s[end..]
  }

  /** `remove_copyright_string(article)` */
  function RemoveCopyright(s: string): string {
    Strip(CutCopyright(s))
  }

  /** The last line of a text whose earlier lines end in newlines starts after them */
  lemma LastLineStartAfter(pre: string, last: string)
    requires |pre| == 0 || pre[|pre| - 1] == '\n'
    requires forall i :: 0 <= i < |last| ==> last[i] != '\n'
    ensures LastLineStart(pre + last) == |pre|
  {
    var body := pre + last;
    var n := LastLineStart(body);
    if |pre| > 0 {
      assert body[|pre| - 1] == pre[|pre| - 1];
    }
    assert forall i :: |pre| <= i < |body| ==> body[i] == last[i - |pre|];
  }

  /**
   * Every line but the last is left as it was; the last line is cut at its
   * first `©`, and a final newline stays. (A text ending in a newline is
   * split with that newline as `nl`.)
   */
  lemma CopyrightCutsLastLine(pre: string, last: string, nl: string)
    requires |pre| == 0 || pre[|pre| - 1] == '\n'
    requires forall i :: 0 <= i < |last| ==> last[i] != '\n'
    requires nl == "\n" || |last| > 0 || |pre| == 0
    requires nl == "" || nl == "\n"
    ensures CutCopyright(pre + last + nl) == pre + BeforeFirst(last, "©") + nl
  {
    DropFinalNewlineOf(pre, last, nl);
    LastLineStartAfter(pre, last);
    CutLineOfLast(pre, last, nl);
  }

  lemma CutLineOfLast(pre: string, last: string, nl: string)
    ensures CutLine(pre + last + nl, |pre|, |pre| + |last|) == pre + BeforeFirst(last, "©") + nl
  {
    var s := pre + last + nl;
    assert s[|pre|..|pre| + |last|] == last;
    match IndexOf(last, "©")
    case None =>
      assert s == pre + last + nl;
    case Some(q) =>
      assert s[..|pre| + q] == pre + last[..q];
      assert s[|pre| + |last|..] == nl;
  }

  /** The final newline dropped is `nl` */
  lemma DropFinalNewlineOf(pre: string, last: string, nl: string)
    requires forall i :: 0 <= i < |last| ==> last[i] != '\n'
    requires nl == "\n" || |last| > 0 || |pre| == 0
    requires nl == "" || nl == "\n"
    ensures DropFinalNewline(pre + last + nl) == pre + last
  {
    var s := pre + last + nl;
    var body := pre + last;
    if nl == "\n" {
      assert s[..|s| - 1] == body;
    } else if |last| > 0 {
      assert s[|s| - 1] == last[|last| - 1];
      assert s == body;
    } else {
      assert s == "";
    }
  }

  /** Without a `©` on the last line, copyright removal only strips */
  lemma RemoveCopyrightAbsent(pre: string, last: string, nl: string)
    requires |pre| == 0 || pre[|pre| - 1] == '\n'
    requires forall i :: 0 <= i < |last| ==> last[i] != '\n'
    requires nl == "\n" || |last| > 0 || |pre| == 0
    requires nl == "" || nl == "\n"
    requires !Contains(last, "©")
    ensures RemoveCopyright(pre + last + nl) == Strip(pre + last + nl)
  {
    CopyrightCutsLastLine(pre, last, nl);
  }

  /** Copyright removal only deletes */
  lemma RemoveCopyrightDeletes(s: string)
    ensures IsSubsequence(RemoveCopyright(s), s)
  {
    var c := CutCopyright(s);
    CutCopyrightDeletes(s);
    StripSubsequence(c);
    SubsequenceTransitive(Strip(c), c, s);
  }

  lemma CutCopyrightDeletes(s: string)
    ensures IsSubsequence(CutCopyright(s), s)
  {
    var end := |DropFinalNewline(s)|;
    var start := LastLineStart(DropFinalNewline(s));
    match IndexOf(s[start..end], "©")
    case None =>
      SubsequenceReflexive(s);
    case Some(q) =>
      CutDeletes(s, start + q, end);
  }

  /** Cutting out a piece only deletes */
  lemma CutDeletes(s: string, a: nat, b: nat)
    requires a <= b <= |s|
    ensures IsSubsequence(s[..a] + s[b..], s)
  {
    SubsequenceCut(s[..a], s[a..b], s[b..]);
    assert s[..a] + s[a..b] + s[b..] == s;
  }

  // ---------------------------------------------------------------------------
  // Cutting the header off
  // ---------------------------------------------------------------------------

  /** `article.find("\n\n")`: the first blank line's position, or -1 */
  function FindBlankLine(s: string): (r: int)
    ensures -1 <= r <= |s|
  {
    match IndexOf(s, "\n\n")
    case Some(k) => k
    case None => -1
  }

  /**
   * `article[article.find("\n\n"):].strip()`: the text from the first blank
   * line on, stripped. Without a blank line `find` gives -1 and only the last
   * character is kept.
   */
  function RemoveHeader(s: string): string {
    Strip(SliceFrom(s, FindBlankLine(s)))
  }

  /** With a blank line, the body is the stripped text after the first one */
  lemma RemoveHeaderAfterBlankLine(s: string, k: nat)
    requires OccursAt(s, "\n\n", k)
    requires forall j :: 0 <= j < k ==> !OccursAt(s, "\n\n", j)
    ensures RemoveHeader(s) == Strip(s[k + 2..])
  {
    IndexOfIsFirst(s, "\n\n", k);
    assert s[k..] == "\n\n" + s[k + 2..];
    StripSkipsLeadingSpace("\n\n", s[k + 2..]);
  }

  /** Without a blank line only the last character can survive */
  lemma RemoveHeaderWithoutBlankLine(s: string)
    requires !Contains(s, "\n\n")
    ensures |s| > 0 ==> RemoveHeader(s) == Strip(s[|s| - 1..])
    ensures |RemoveHeader(s)| <= 1
  {
    StripSlice(SliceFrom(s, FindBlankLine(s)));
  }

  /** A piece of the text lacks what the text lacks */
  lemma PieceLacks(s: string, r: string, b: nat, t: string)
    requires b + |r| <= |s| && r == s[b..b + |r|]
    requires !Contains(s, t)
    ensures !Contains(r, t)
  {
    NotContainsSlice(s, t, b, b + |r|);
  }

  lemma SliceOfSuffix(s: string, k: nat, a: nat, n: nat)
    requires k + a + n <= |s|
    ensures s[k..][a..a + n] == s[k + a..k + a + n]
  {
  }

  /** A stripped suffix lacks what the text lacks */
  lemma StripSuffixLacks(s: string, k: nat, t: string)
    requires k <= |s| && !Contains(s, t)
    ensures !Contains(Strip(s[k..]), t)
  {
    var sl := s[k..];
    StripSlice(sl);
    SliceOfSuffix(s, k, StripStart(sl), |Strip(sl)|);
    PieceLacks(s, Strip(sl), k + StripStart(sl), t);
  }

  /** A stripped suffix only deletes from the text */
  lemma StripSuffixDeletes(s: string, k: nat)
    requires k <= |s|
    ensures IsSubsequence(Strip(s[k..]), s)
  {
    StripSubsequence(s[k..]);
    SuffixPieceDeletes(s, k, Strip(s[k..]));
  }

  /** What deletes from a suffix of the text deletes from the text */
  lemma SuffixPieceDeletes(s: string, k: nat, r: string)
    requires k <= |s| && IsSubsequence(r, s[k..])
    ensures IsSubsequence(r, s)
  {
    var sl := s[k..];
    SubsequenceReflexive(sl);
    SubsequenceOfSuffix(sl, sl, s[..k]);
    assert s[..k] + sl == s;
    SubsequenceTransitive(r, sl, s);
  }

  /** The body is a piece of the text, so whatever the text lacks the body lacks */
  lemma RemoveHeaderKeepsAbsence(s: string, t: string)
    requires !Contains(s, t)
    ensures !Contains(RemoveHeader(s), t)
    ensures IsSubsequence(RemoveHeader(s), s)
  {
    var f := FindBlankLine(s);
    SliceFromIsSuffix(s, f);
    StripSuffixLacks(s, SliceStart(|s|, f), t);
    StripSuffixDeletes(s, SliceStart(|s|, f));
  }
}
