/**
 * The header of an article: the lines before its first blank line
 * (`extract_headers`), and the repair that drops the blank lines a header
 * may contain before its `Publicerat` line (`fix_header`).
 */
module Header {
  import opened Text

  const Newline: string := "\n"
  const BlankLine: string := "\n\n"

  /** `line.strip() == ''` */
  predicate IsBlank(line: string) {
    Strip(line) == ""
  }

  /** `line.strip().startswith('Publicerat')`: the line naming where the article was published */
  predicate IsPublicerat(line: string) {
    StartsWith(Strip(line), "Publicerat")
  }

  // ---------------------------------------------------------------------------
  // The header lines
  // ---------------------------------------------------------------------------

  /**
   * `article.split("\n\n", maxsplit=1)[0].strip()`: the text before the
   * first blank line, stripped. It is a trimmed piece of the article that
   * ends before the first blank line and holds none.
   */
  function HeaderText(article: string): (h: string)
    ensures IsTrimmed(h) && !Contains(h, BlankLine)
    ensures StripStart(BeforeFirst(article, BlankLine)) + |h| <= |BeforeFirst(article, BlankLine)|
    ensures h == article[StripStart(BeforeFirst(article, BlankLine))..StripStart(BeforeFirst(article, BlankLine)) + |h|]
  {
    StrippedPiece(article);
    Strip(BeforeFirst(article, BlankLine))
  }

  /** The stripped text before the first blank line is a slice of the article holding no blank line */
  lemma StrippedPiece(article: string)
    ensures var before := BeforeFirst(article, BlankLine);
      var a := StripStart(before);
      var h := Strip(before);
      && IsTrimmed(h) && !Contains(h, BlankLine)
      && a + |h| <= |before| <= |article|
      && h == article[a..a + |h|]
  {
    var before := BeforeFirst(article, BlankLine);
    var a := StripStart(before);
    var h := Strip(before);
    BeforeFirstLacks(article, BlankLine);
    StripSlice(before);
    NotContainsSlice(before, BlankLine, a, a + |h|);
    assert h == before[a..a + |h|];
    assert before == article[..|before|];
    SliceOfPrefix(article, |before|, a, a + |h|);
  }

  lemma SliceOfPrefix(s: string, n: nat, a: nat, b: nat)
    requires a <= b <= n <= |s|
    ensures s[..n][a..b] == s[a..b]
  {
  }

  /** The header text split into lines: at least one, none holding a newline */
  function HeaderLines(article: string): (r: seq<string>)
    ensures |r| >= 1
    ensures Join(r, Newline) == HeaderText(article)
    ensures forall i :: 0 <= i < |r| ==> !Contains(r[i], Newline)
  {
    Split(HeaderText(article), Newline)
  }

  /**
   * `extract_headers`: the header lines, and the `header` column, which is
   * those lines joined by newlines. The column is the header text itself,
   * and splitting it at its newlines gives the lines back.
   */
  function ExtractHeaders(article: string): (r: (seq<string>, string))
    ensures |r.0| >= 1 && forall i :: 0 <= i < |r.0| ==> !Contains(r.0[i], Newline)
    ensures r.1 == HeaderText(article)
    ensures Split(r.1, Newline) == r.0
  {
    var headers := HeaderLines(article);
    HeaderColumnLines(article);
    (headers, Join(headers, Newline))
  }

  /** The header column splits back into the header lines */
  lemma HeaderColumnLines(text: string)
    ensures Split(Join(HeaderLines(text), Newline), Newline) == HeaderLines(text)
  {
    var hs := HeaderLines(text);
    forall i, j | 0 <= i < |hs| && 0 <= j < |hs[i]|
      ensures hs[i][j] != '\n'
    {
      NoNewlineChar(hs[i]);
    }
    SplitJoinChar(hs, '\n');
  }

  // ---------------------------------------------------------------------------
  // Repairing the header
  // ---------------------------------------------------------------------------

  // The line-list functions take the two line tests as parameters, and their
  // properties hold whatever the tests are; `fix_header` passes `IsPublicerat`
  // and `IsBlank`.

  /** The loop of `fix_header`: a line is kept once a `Publicerat` line is reached, or when it is not blank */
  function KeepLines(lines: seq<string>, found: bool, isPublicerat: string -> bool, isBlank: string -> bool): seq<string>
    decreases |lines|
  {
    if |lines| == 0 then []
    else
      var f := found || isPublicerat(lines[0]);
      (if f || !isBlank(lines[0]) then [lines[0]] else []) + KeepLines(lines[1..], f, isPublicerat, isBlank)
  }

  /** The index of the first `Publicerat` line, or the number of lines */
  function FirstPublicerat(lines: seq<string>, isPublicerat: string -> bool): (p: nat)
    ensures p <= |lines|
    ensures forall j :: 0 <= j < p ==> !isPublicerat(lines[j])
    ensures p < |lines| ==> isPublicerat(lines[p])
  {
    if |lines| == 0 || isPublicerat(lines[0]) then 0 else 1 + FirstPublicerat(lines[1..], isPublicerat)
  }

  /** The lines that are not blank, in order */
  function DropBlank(lines: seq<string>, isBlank: string -> bool): (r: seq<string>)
    ensures forall i :: 0 <= i < |r| ==> !isBlank(r[i])
    ensures IsSubsequence(r, lines)
  {
    if |lines| == 0 then []
    else if isBlank(lines[0]) then
      SubsequenceOfSuffix(DropBlank(lines[1..], isBlank), lines[1..], [lines[0]]);
      assert [lines[0]] + lines[1..] == lines;
      DropBlank(lines[1..], isBlank)
    else
      SubsequenceCons(lines[0], DropBlank(lines[1..], isBlank), lines[1..]);
      assert [lines[0]] + lines[1..] == lines;
      [lines[0]] + DropBlank(lines[1..], isBlank)
  }

  /** The lines `fix_header` keeps, as a reference: the non-blank lines before the first `Publicerat` line, and every line from it on */
  function Kept(lines: seq<string>, isPublicerat: string -> bool, isBlank: string -> bool): seq<string> {
    var p := FirstPublicerat(lines, isPublicerat);
    DropBlank(lines[..p], isBlank) + lines[p..]
  }

  lemma {:induction false} KeepAllOnceFound(lines: seq<string>, isPublicerat: string -> bool, isBlank: string -> bool)
    ensures KeepLines(lines, true, isPublicerat, isBlank) == lines
  {
    if |lines| > 0 {
      KeepAllOnceFound(lines[1..], isPublicerat, isBlank);
      assert [lines[0]] + lines[1..] == lines;
    }
  }

  /** The loop keeps exactly the reference lines */
  lemma {:induction false} KeepLinesIsKept(lines: seq<string>, isPublicerat: string -> bool, isBlank: string -> bool)
    ensures KeepLines(lines, false, isPublicerat, isBlank) == Kept(lines, isPublicerat, isBlank)
  {
    if |lines| > 0 {
      var p := FirstPublicerat(lines, isPublicerat);
      if isPublicerat(lines[0]) {
        KeepAllOnceFound(lines[1..], isPublicerat, isBlank);
        assert [lines[0]] + lines[1..] == lines;
        assert lines[..p] == [];
      } else {
        KeepLinesIsKept(lines[1..], isPublicerat, isBlank);
        KeptCons(lines, isPublicerat, isBlank);
      }
    }
  }

  /** Past a line that is no `Publicerat` line, the reference keeps that line when it is not blank, then the rest's */
  lemma KeptCons(lines: seq<string>, isPublicerat: string -> bool, isBlank: string -> bool)
    requires |lines| > 0 && !isPublicerat(lines[0])
    ensures Kept(lines, isPublicerat, isBlank)
      == (if isBlank(lines[0]) then [] else [lines[0]]) + Kept(lines[1..], isPublicerat, isBlank)
  {
    var rest := lines[1..];
    var q := FirstPublicerat(rest, isPublicerat);
    var p := FirstPublicerat(lines, isPublicerat);
    assert p == 1 + q;
    var head := lines[..p];
    var first := if isBlank(lines[0]) then [] else [lines[0]];
    assert head[0] == lines[0];
    assert head[1..] == rest[..q];
    assert lines[p..] == rest[q..];
    DropBlankCons(head, isBlank);
    assert DropBlank(head, isBlank) == first + DropBlank(rest[..q], isBlank);
    assert Kept(lines, isPublicerat, isBlank) == DropBlank(head, isBlank) + rest[q..];
    assert Kept(rest, isPublicerat, isBlank) == DropBlank(rest[..q], isBlank) + rest[q..];
  }

  lemma DropBlankCons(lines: seq<string>, isBlank: string -> bool)
    requires |lines| > 0
    ensures DropBlank(lines, isBlank) == (if isBlank(lines[0]) then [] else [lines[0]]) + DropBlank(lines[1..], isBlank)
  {
  }

  /** The reference lines are the input lines with some blank lines left out, in order */
  lemma KeptIsSubsequence(lines: seq<string>, isPublicerat: string -> bool, isBlank: string -> bool)
    ensures IsSubsequence(Kept(lines, isPublicerat, isBlank), lines)
  {
    var p := FirstPublicerat(lines, isPublicerat);
    var pre := lines[..p];
    var post := lines[p..];
    assert IsSubsequence(DropBlank(pre, isBlank), pre);
    SubsequenceReflexive(post);
    SubsequenceConcat(DropBlank(pre, isBlank), pre, post, post);
    assert pre + post == lines;
  }

  lemma {:induction false} DropBlankMembers(lines: seq<string>, isBlank: string -> bool, x: string)
    requires x in DropBlank(lines, isBlank)
    ensures x in lines
    decreases |lines|
  {
    if |lines| > 0 && x != lines[0] {
      DropBlankMembers(lines[1..], isBlank, x);
    }
  }

  /** Every kept line is a line of the input */
  lemma KeptMembers(lines: seq<string>, isPublicerat: string -> bool, isBlank: string -> bool, x: string)
    requires x in Kept(lines, isPublicerat, isBlank)
    ensures x in lines
  {
    var p := FirstPublicerat(lines, isPublicerat);
    if x in DropBlank(lines[..p], isBlank) {
      DropBlankMembers(lines[..p], isBlank, x);
      var k :| 0 <= k < p && lines[..p][k] == x;
      assert lines[k] == x;
    } else {
      assert x in lines[p..];
    }
  }

  /** Lines none of which is blank or a `Publicerat` line, then a `Publicerat` line and the rest, are all kept */
  lemma {:induction false} KeepLinesOfKept(pre: seq<string>, post: seq<string>, isPublicerat: string -> bool, isBlank: string -> bool)
    requires forall i :: 0 <= i < |pre| ==> !isBlank(pre[i]) && !isPublicerat(pre[i])
    requires |post| == 0 || isPublicerat(post[0])
    ensures KeepLines(pre + post, false, isPublicerat, isBlank) == pre + post
    decreases |pre|
  {
    if |pre| > 0 {
      assert (pre + post)[1..] == pre[1..] + post;
      KeepLinesOfKept(pre[1..], post, isPublicerat, isBlank);
    } else {
      assert pre + post == post;
      if |post| > 0 {
        KeepAllOnceFound(post[1..], isPublicerat, isBlank);
        assert [post[0]] + post[1..] == post;
      }
    }
  }

  /** Keeping the kept lines again keeps them all */
  lemma KeptIdempotent(lines: seq<string>, isPublicerat: string -> bool, isBlank: string -> bool)
    ensures Kept(Kept(lines, isPublicerat, isBlank), isPublicerat, isBlank) == Kept(lines, isPublicerat, isBlank)
  {
    var p := FirstPublicerat(lines, isPublicerat);
    var pre := DropBlank(lines[..p], isBlank);
    var post := lines[p..];
    forall i | 0 <= i < |pre|
      ensures !isPublicerat(pre[i])
    {
      DropBlankMembers(lines[..p], isBlank, pre[i]);
    }
    KeepLinesOfKept(pre, post, isPublicerat, isBlank);
    KeepLinesIsKept(pre + post, isPublicerat, isBlank);
  }

  /** Without a `Publicerat` line, every blank line is dropped and nothing else is */
  lemma NoPubliceratDropsAllBlank(lines: seq<string>, isPublicerat: string -> bool, isBlank: string -> bool)
    requires forall i :: 0 <= i < |lines| ==> !isPublicerat(lines[i])
    ensures Kept(lines, isPublicerat, isBlank) == DropBlank(lines, isBlank)
    ensures forall i :: 0 <= i < |Kept(lines, isPublicerat, isBlank)| ==> !isBlank(Kept(lines, isPublicerat, isBlank)[i])
  {
    assert FirstPublicerat(lines, isPublicerat) == |lines|;
    assert lines[..|lines|] == lines;
  }

  /** Every line from the first `Publicerat` line on is kept verbatim, at the end */
  lemma KeptFromPubliceratOn(lines: seq<string>, isPublicerat: string -> bool, isBlank: string -> bool)
    ensures var p := FirstPublicerat(lines, isPublicerat);
      var kept := Kept(lines, isPublicerat, isBlank);
      |kept| >= |lines| - p && kept[|kept| - (|lines| - p)..] == lines[p..]
  {
  }

  // ---------------------------------------------------------------------------
  // `fix_header`
  // ---------------------------------------------------------------------------

  /** The repaired article and its header length */
  datatype Repaired = Repaired(text: string, headerLength: nat)

  /** The lines of `article` that `fix_header` keeps */
  function RepairLines(article: string): seq<string> {
    Kept(Split(article, Newline), IsPublicerat, IsBlank)
  }

  /**
   * `fix_header(article)`: drops the blank lines before the first
   * `Publicerat` line; the header length is the number of header lines of
   * the repaired text.
   */
  function FixHeader(article: string): (r: Repaired)
    ensures r.text == Join(RepairLines(article), Newline)
    ensures r.headerLength == |HeaderLines(r.text)| && r.headerLength >= 1
  {
    var lines := Split(article, Newline);
    KeepLinesIsKept(lines, IsPublicerat, IsBlank);
    var text := Join(KeepLines(lines, false, IsPublicerat, IsBlank), Newline);
    Repaired(text, |HeaderLines(text)|)
  }

  lemma NoNewlineChar(s: string)
    requires !Contains(s, Newline)
    ensures forall j :: 0 <= j < |s| ==> s[j] != '\n'
  {
    forall j | 0 <= j < |s|
      ensures s[j] != '\n'
    {
      OccursAtChar(s, '\n', j);
      assert !OccursAt(s, Newline, j);
    }
  }

  /** The lines of the article, none holding a newline */
  lemma SplitLinesLackNewline(article: string)
    ensures forall i, j :: 0 <= i < |Split(article, Newline)| && 0 <= j < |Split(article, Newline)[i]| ==>
      Split(article, Newline)[i][j] != '\n'
  {
    var lines := Split(article, Newline);
    forall i | 0 <= i < |lines|
      ensures forall j :: 0 <= j < |lines[i]| ==> lines[i][j] != '\n'
    {
      NoNewlineChar(lines[i]);
    }
  }

  /** When the kept lines are not all gone, splitting the repaired text gives them back */
  lemma RepairedLines(article: string)
    requires |RepairLines(article)| > 0
    ensures Split(FixHeader(article).text, Newline) == RepairLines(article)
  {
    var lines := Split(article, Newline);
    var kept := RepairLines(article);
    SplitLinesLackNewline(article);
    forall i, j | 0 <= i < |kept| && 0 <= j < |kept[i]|
      ensures kept[i][j] != '\n'
    {
      KeptMembers(lines, IsPublicerat, IsBlank, kept[i]);
      var k :| 0 <= k < |lines| && lines[k] == kept[i];
    }
    SplitJoinChar(kept, '\n');
  }

  /** An empty line is dropped: it is blank and no `Publicerat` line */
  lemma EmptyLineDropped()
    ensures RepairLines("") == []
  {
    var lines := Split("", Newline);
    assert lines == [""] by {
      OccurrencesNone("", Newline);
      assert Join(lines, Newline) == "";
    }
    assert !IsPublicerat("");
    assert IsBlank("");
    assert FirstPublicerat(lines, IsPublicerat) == 1;
    assert lines[..1] == [""];
    assert DropBlank([""], IsBlank) == [];
  }

  /** Repairing a repaired article changes nothing */
  lemma FixHeaderIdempotent(article: string)
    ensures FixHeader(FixHeader(article).text) == FixHeader(article)
  {
    var kept := RepairLines(article);
    var text := FixHeader(article).text;
    if |kept| == 0 {
      assert text == "";
      EmptyLineDropped();
    } else {
      RepairedLines(article);
      KeptIdempotent(Split(article, Newline), IsPublicerat, IsBlank);
      assert RepairLines(text) == kept;
    }
  }
}
