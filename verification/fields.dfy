/**
 * What the header of an article yields: the title check against the table
 * of contents (`check_title`), the media (`extract_media`) and the pages
 * (`extract_pages`).
 */
module Fields {
  import opened Wrappers
  import opened Text

  // ---------------------------------------------------------------------------
  // Title normalisation and the title check
  // ---------------------------------------------------------------------------

  /** The number of non-word characters `s` starts with */
  function LeadingNonWord(s: string): (n: nat)
    ensures n <= |s|
    ensures forall i :: 0 <= i < n ==> !IsWordChar(s[i])
    ensures n == |s| || IsWordChar(s[n])
  {
    if |s| > 0 && !IsWordChar(s[0]) then 1 + LeadingNonWord(s[1..]) else 0
  }

  /** `re.sub(r"\W+", rep, s)` for a one-character replacement: each run of non-word characters becomes `rep` */
  function SubNonWord(s: string, rep: char): (r: string)
    decreases |s|
  {
    if |s| == 0 then ""
    else if IsWordChar(s[0]) then [s[0]] + SubNonWord(s[1..], rep)
    else
      var n := LeadingNonWord(s);
      [rep] + SubNonWord(s[n..], rep)
  }

  /** Only word characters and single, never doubled, `rep` characters */
  predicate IsSquashed(s: string, rep: char) {
    && (forall i :: 0 <= i < |s| ==> IsWordChar(s[i]) || s[i] == rep)
    && (forall i :: 0 <= i < |s| - 1 ==> !(s[i] == rep && s[i + 1] == rep))
  }

  /** The replacement leaves a squashed text, and a run can only be followed by a word character */
  lemma {:induction false} SubNonWordSquashed(s: string, rep: char)
    requires !IsWordChar(rep)
    ensures IsSquashed(SubNonWord(s, rep), rep)
    ensures |SubNonWord(s, rep)| > 0 && SubNonWord(s, rep)[0] == rep ==> |s| > 0 && !IsWordChar(s[0])
    decreases |s|
  {
    if |s| > 0 {
      if IsWordChar(s[0]) {
        SubNonWordSquashed(s[1..], rep);
      } else {
        var n := LeadingNonWord(s);
        SubNonWordSquashed(s[n..], rep);
        assert n == |s| || IsWordChar(s[n..][0]);
      }
    }
  }

  /** On a squashed text the replacement changes nothing */
  lemma {:induction false} SubNonWordOfSquashed(s: string, rep: char)
    requires !IsWordChar(rep)
    requires IsSquashed(s, rep)
    ensures SubNonWord(s, rep) == s
    decreases |s|
  {
    if |s| > 0 {
      assert IsSquashed(s[1..], rep);
      SubNonWordOfSquashed(s[1..], rep);
      if !IsWordChar(s[0]) {
        assert LeadingNonWord(s) == 1;
        assert [s[0]] + s[1..] == s;
      }
    }
  }

  /** `re.sub(r"\W+", " ", s).lower().strip()`: the form `check_title` compares */
  function TitleKey(s: string): (r: string)
    ensures IsSquashed(r, ' ') && IsTrimmed(r)
    ensures forall i :: 0 <= i < |r| ==> Lower(r[i]) == r[i]
  {
    SubNonWordSquashed(s, ' ');
    LowerKeepsSquashed(SubNonWord(s, ' '));
    StrippedSquashed(LowerString(SubNonWord(s, ' ')));
    StripLowered(SubNonWord(s, ' '));
    Strip(LowerString(SubNonWord(s, ' ')))
  }

  /** Stripping keeps a lower-cased squashed text squashed */
  lemma StrippedSquashed(low: string)
    ensures IsSquashed(low, ' ') ==> IsSquashed(Strip(low), ' ')
  {
    if IsSquashed(low, ' ') {
      var a := StripStart(low);
      var r := Strip(low);
      StripSlice(low);
      SquashedSlice(low, ' ', a, a + |r|);
      assert r == low[a..a + |r|];
    }
  }

  /** Lower-casing keeps a text squashed */
  lemma LowerKeepsSquashed(sub: string)
    requires IsSquashed(sub, ' ')
    ensures IsSquashed(LowerString(sub), ' ')
  {
    var low := LowerString(sub);
    forall i | 0 <= i < |low| ensures IsWordChar(low[i]) || low[i] == ' ' {
      assert low[i] == Lower(sub[i]);
    }
  }

  /** A stripped lower-cased text is its own lower case */
  lemma StripLowered(sub: string)
    ensures forall i :: 0 <= i < |Strip(LowerString(sub))| ==> Lower(Strip(LowerString(sub))[i]) == Strip(LowerString(sub))[i]
  {
    var low := LowerString(sub);
    forall j | 0 <= j < |low|
      ensures Lower(low[j]) == low[j]
    {
      LowerIdempotent(sub[j]);
    }
    StripSlice(low);
    LoweredSlice(low, StripStart(low), StripStart(low) + |Strip(low)|);
  }

  /** A piece of a text that is its own lower case is its own lower case */
  lemma LoweredSlice(low: string, a: nat, b: nat)
    requires a <= b <= |low|
    requires forall j :: 0 <= j < |low| ==> Lower(low[j]) == low[j]
    ensures forall i :: 0 <= i < b - a ==> Lower(low[a..b][i]) == low[a..b][i]
  {
    forall i | 0 <= i < b - a
      ensures Lower(low[a..b][i]) == low[a..b][i]
    {
      assert low[a..b][i] == low[a + i];
    }
  }

  lemma SquashedSlice(s: string, rep: char, a: nat, b: nat)
    requires a <= b <= |s| && IsSquashed(s, rep)
    ensures IsSquashed(s[a..b], rep)
  {
    var t := s[a..b];
    assert forall i :: 0 <= i < |t| ==> t[i] == s[a + i];
  }

  /** The key is a normal form: normalising it again changes nothing */
  lemma TitleKeyIdempotent(s: string)
    ensures TitleKey(TitleKey(s)) == TitleKey(s)
  {
    var k := TitleKey(s);
    SubNonWordOfSquashed(k, ' ');
    assert LowerString(k) == k;
  }

  /** `article.split("\n", maxsplit=1)[0].strip()`: the article's first line, stripped */
  function FirstLine(article: string): string {
    Strip(BeforeFirst(article, "\n"))
  }

  /** The number of characters of the article's title the check compares */
  const TitlePrefix: nat := 25

  /**
   * `check_title`: the normalised table-of-contents title starts with the
   * first 25 characters of the normalised first line of the article.
   */
  predicate CheckTitle(tocTitle: string, article: string) {
    StartsWith(TitleKey(tocTitle), Take(TitleKey(FirstLine(article)), TitlePrefix))
  }

  /** A first line without word characters passes any title */
  lemma CheckTitleWithoutWords(tocTitle: string, article: string)
    requires forall i :: 0 <= i < |FirstLine(article)| ==> !IsWordChar(FirstLine(article)[i])
    ensures CheckTitle(tocTitle, article)
  {
    var line := FirstLine(article);
    var sub := SubNonWord(line, ' ');
    SubNonWordSquashed(line, ' ');
    if |line| > 0 {
      assert !IsWordChar(line[0]);
      assert LeadingNonWord(line) == |line|;
      assert line[|line|..] == "";
      assert SubNonWord(line[|line|..], ' ') == "";
      assert sub == " ";
      assert LowerString(sub) == " ";
      assert Strip(" ") == "";
    }
  }

  /** An article whose first line is the table-of-contents title passes */
  lemma CheckTitleOwnTitle(title: string, rest: string)
    requires IsTrimmed(title)
    requires forall i :: 0 <= i < |title| ==> title[i] != '\n'
    requires |rest| == 0 || rest[0] == '\n'
    ensures CheckTitle(title, title + rest)
  {
    var article := title + rest;
    var before := BeforeFirst(article, "\n");
    forall j | 0 <= j < |title|
      ensures !OccursAt(article, "\n", j)
    {
      OccursAtChar(article, '\n', j);
    }
    if |rest| > 0 {
      OccursAtChar(article, '\n', |title|);
      IndexOfIsFirst(article, "\n", |title|);
    } else {
      assert article == title;
      forall j ensures !OccursAt(article, "\n", j) {
        OccursAtChar(article, '\n', j);
      }
    }
    assert before == title;
    var k := TitleKey(title);
    assert Take(k, TitlePrefix) == k[..|Take(k, TitlePrefix)|];
  }

  /** Only the first 25 characters of the article's key take part */
  lemma CheckTitleUsesPrefix(tocTitle: string, a1: string, a2: string)
    requires Take(TitleKey(FirstLine(a1)), TitlePrefix) == Take(TitleKey(FirstLine(a2)), TitlePrefix)
    ensures CheckTitle(tocTitle, a1) <==> CheckTitle(tocTitle, a2)
  {
  }

  // ---------------------------------------------------------------------------
  // Media and pages
  // ---------------------------------------------------------------------------

  /** Where the article was published */
  datatype Media = Webb | Print

  /** The media column's text: `webb` or `print` */
  function MediaName(m: Media): string {
    match m
    case Webb => "webb"
    case Print => "print"
  }

  /**
   * `extract_media(headers)`: read from the last header line alone. A
   * `Publicerat` line names the web when it mentions `webb`, print otherwise.
   */
  function ExtractMedia(headers: seq<string>): (r: Option<Media>)
    requires |headers| >= 1
    ensures r.None? <==> !StartsWith(headers[|headers| - 1], "Publicerat")
    ensures r == Some(Webb) <==> StartsWith(headers[|headers| - 1], "Publicerat") && Contains(headers[|headers| - 1], "webb")
    ensures r == Some(Print) <==> StartsWith(headers[|headers| - 1], "Publicerat") && !Contains(headers[|headers| - 1], "webb")
  {
    var last := headers[|headers| - 1];
    if !StartsWith(last, "Publicerat") then None
    else if Contains(last, "webb") then Some(Webb)
    else Some(Print)
  }

  /** Two headers with the same last line have the same media */
  lemma MediaOfLastLine(h1: seq<string>, h2: seq<string>)
    requires |h1| >= 1 && |h2| >= 1 && h1[|h1| - 1] == h2[|h2| - 1]
    ensures ExtractMedia(h1) == ExtractMedia(h2)
  {
  }

  /** The media line of the first article of the test export names the web */
  lemma MediaWebExample()
    ensures ExtractMedia(["Title One", "Source One, 2020-12-04 05:26", "Publicerat på webb."]) == Some(Webb)
  {
    var h := ["Title One", "Source One, 2020-12-04 05:26", "Publicerat på webb."];
    var l1 := "Publicerat på webb.";
    assert h[|h| - 1] == l1;
    assert l1[..10] == "Publicerat";
    assert l1[14..18] == "webb";
    assert OccursAt(l1, "webb", 14);
    ContainsOccurrence(l1, "webb");
  }

  /** The media line of the second article of the test export names print */
  lemma MediaPrintExample()
    ensures ExtractMedia(["Title Two", "Source Two, 2020-12-04 04:32", "Publicerat i print."]) == Some(Print)
  {
    var h := ["Title Two", "Source Two, 2020-12-04 04:32", "Publicerat i print."];
    var l2 := "Publicerat i print.";
    assert h[|h| - 1] == l2;
    assert l2[..10] == "Publicerat";
    assert forall k :: 0 <= k < |l2| ==> l2[k] != 'w';
    forall j ensures !OccursAt(l2, "webb", j) {
      if 0 <= j && j + 4 <= |l2| {
        assert l2[j..j + 4][0] == l2[j];
      }
    }
    ContainsOccurrence(l2, "webb");
  }

  /** Why the pages cannot be read: the `Sida` line has no space */
  datatype PagesError = NoSpaceInSidaLine

  /**
   * `extract_pages(headers)`: with at least three header lines and a
   * second-to-last line starting with `Sida`, the text between the first and
   * the second space of that line; otherwise nothing. `split(" ")[1]` fails
   * when the line has no space.
   */
  function ExtractPages(headers: seq<string>): (r: Result<Option<string>, PagesError>)
    ensures r.Failure? <==> |headers| >= 3 && StartsWith(headers[|headers| - 2], "Sida") && !Contains(headers[|headers| - 2], " ")
    ensures r == Success(None) <==> !(|headers| >= 3 && StartsWith(headers[|headers| - 2], "Sida"))
    ensures r.Success? && r.value.Some? ==> !Contains(r.value.value, " ")
  {
    if |headers| >= 3 && StartsWith(headers[|headers| - 2], "Sida") then
      var line := headers[|headers| - 2];
      match IndexOf(line, " ")
      case None => Failure(NoSpaceInSidaLine)
      case Some(k) =>
        BeforeFirstLacks(line[k + 1..], " ");
        Success(Some(BeforeFirst(line[k + 1..], " ")))
    else Success(None)
  }

  /** The token is the second space-separated field of a `Sida` line built from its fields */
  lemma PagesToken(headers: seq<string>, word: string, token: string, rest: string)
    requires |headers| >= 3
    requires headers[|headers| - 2] == "Sida" + word + " " + token + rest
    requires forall i :: 0 <= i < |word| ==> word[i] != ' '
    requires forall i :: 0 <= i < |token| ==> token[i] != ' '
    requires |rest| == 0 || rest[0] == ' '
    ensures ExtractPages(headers) == Success(Some(token))
  {
    var line := headers[|headers| - 2];
    var k := 4 + |word|;
    assert line[..4] == "Sida";
    forall j | 0 <= j < k
      ensures !OccursAt(line, " ", j)
    {
      OccursAtChar(line, ' ', j);
      if j >= 4 {
        assert line[j] == word[j - 4];
      }
    }
    OccursAtChar(line, ' ', k);
    IndexOfIsFirst(line, " ", k);
    var after := line[k + 1..];
    assert after == token + rest;
    forall j | 0 <= j < |token|
      ensures !OccursAt(after, " ", j)
    {
      OccursAtChar(after, ' ', j);
    }
    if |rest| > 0 {
      OccursAtChar(after, ' ', |token|);
      IndexOfIsFirst(after, " ", |token|);
    } else {
      assert after == token;
      forall j ensures !OccursAt(after, " ", j) {
        OccursAtChar(after, ' ', j);
      }
    }
  }
}
