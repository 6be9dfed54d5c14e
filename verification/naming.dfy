/**
 * The names `main` gives each article: the document name built from the
 * source, title, date and media, the file name, and the id built from the
 * Roman volume numeral of the export file and the article's row.
 */
module Naming {
  import opened Wrappers
  import opened Text
  import opened Fields

  // ---------------------------------------------------------------------------
  // Slugs
  // ---------------------------------------------------------------------------

  /** Every character is a word character that `str.lower()` leaves alone */
  predicate IsSlug(s: string) {
    forall i :: 0 <= i < |s| ==> IsWordChar(s[i]) && Lower(s[i]) == s[i]
  }

  /** With a word character as the replacement, only word characters are left */
  lemma {:induction false} SubNonWordWordChars(s: string, rep: char)
    requires IsWordChar(rep)
    ensures forall i :: 0 <= i < |SubNonWord(s, rep)| ==> IsWordChar(SubNonWord(s, rep)[i])
    decreases |s|
  {
    if |s| > 0 {
      if IsWordChar(s[0]) {
        SubNonWordWordChars(s[1..], rep);
      } else {
        SubNonWordWordChars(s[LeadingNonWord(s)..], rep);
      }
    }
  }

  /** A text of word characters has no run to replace */
  lemma {:induction false} SubNonWordOfWords(s: string, rep: char)
    requires forall i :: 0 <= i < |s| ==> IsWordChar(s[i])
    ensures SubNonWord(s, rep) == s
    decreases |s|
  {
    if |s| > 0 {
      SubNonWordOfWords(s[1..], rep);
      assert [s[0]] + s[1..] == s;
    }
  }

  /** `re.sub(r"\W+", "_", s).lower()`: each run of non-word characters becomes one underscore */
  function Slugify(s: string): (r: string)
    ensures IsSlug(r)
  {
    var sub := SubNonWord(s, '_');
    SubNonWordWordChars(s, '_');
    var low := LowerString(sub);
    forall i | 0 <= i < |low|
      ensures Lower(low[i]) == low[i]
    {
      LowerIdempotent(sub[i]);
    }
    low
  }

  /** A slug is its own slug */
  lemma SlugifyOfSlug(s: string)
    requires IsSlug(s)
    ensures Slugify(s) == s
  {
    SubNonWordOfWords(s, '_');
    assert LowerString(s) == s;
  }

  /** A word character is never whitespace, so a slug is already stripped */
  lemma SlugIsTrimmed(s: string)
    requires IsSlug(s)
    ensures IsTrimmed(s)
  {
  }

  /** Deleting characters from a slug leaves a slug */
  lemma {:induction false} SlugSubsequence(a: string, b: string)
    requires IsSubsequence(a, b) && IsSlug(b)
    ensures IsSlug(a)
    decreases |b|
  {
    if |a| > 0 {
      if a[0] == b[0] && IsSubsequence(a[1..], b[1..]) {
        SlugSubsequence(a[1..], b[1..]);
        assert forall i :: 1 <= i < |a| ==> a[i] == a[1..][i - 1];
      } else {
        SlugSubsequence(a, b[1..]);
      }
    }
  }

  /** The source part of the document name: `.str.replace(r'\W+', '_').str.lower().str.strip()` */
  function SourceSlug(source: string): (r: string)
    ensures IsSlug(r)
    ensures r == Slugify(source)
  {
    SlugIsTrimmed(Slugify(source));
    Strip(Slugify(source))
  }

  /** Naming a source twice names it once */
  lemma SourceSlugIdempotent(source: string)
    ensures SourceSlug(SourceSlug(source)) == SourceSlug(source)
  {
    SlugifyOfSlug(SourceSlug(source));
  }

  /** The widest title part a document name holds */
  const TitleWidth: nat := 60

  /**
   * The title part of the document name: the slug, stripped of whitespace
   * and then of underscores, cut to 60 characters.
   */
  function TitleSlug(title: string): (r: string)
    ensures IsSlug(r) && |r| <= TitleWidth
    ensures |r| == 0 || r[0] != '_'
  {
    var slug := Slugify(title);
    SlugIsTrimmed(slug);
    var inner := StripChar(Strip(slug), '_');
    SlugSubsequence(inner, slug);
    var r := Take(inner, TitleWidth);
    SubsequenceOfSlice(inner, 0, |r|);
    assert inner[0..|r|] == r;
    SlugSubsequence(r, inner);
    r
  }

  /** A title that is already a short slug without edge underscores is its own title part */
  lemma TitleSlugOfSlug(title: string)
    requires IsSlug(title) && |title| <= TitleWidth
    requires |title| == 0 || (title[0] != '_' && title[|title| - 1] != '_')
    ensures TitleSlug(title) == title
  {
    SlugifyOfSlug(title);
    SlugIsTrimmed(title);
  }

  // ---------------------------------------------------------------------------
  // The date part
  // ---------------------------------------------------------------------------

  /** `s` with every `c` deleted */
  function Without(s: string, c: char): (r: string)
    ensures forall i :: 0 <= i < |r| ==> r[i] != c
    ensures IsSubsequence(r, s)
    decreases |s|
  {
    if |s| == 0 then ""
    else if s[0] == c then
      SubsequenceOfSuffix(Without(s[1..], c), s[1..], [s[0]]);
      assert [s[0]] + s[1..] == s;
      Without(s[1..], c)
    else
      SubsequenceCons(s[0], Without(s[1..], c), s[1..]);
      assert [s[0]] + s[1..] == s;
      [s[0]] + Without(s[1..], c)
  }

  lemma {:induction false} WithoutAbsent(s: string, c: char)
    requires forall i :: 0 <= i < |s| ==> s[i] != c
    ensures Without(s, c) == s
    decreases |s|
  {
    if |s| > 0 {
      WithoutAbsent(s[1..], c);
      assert [s[0]] + s[1..] == s;
    }
  }

  lemma {:induction false} WithoutConcat(a: string, b: string, c: char)
    ensures Without(a + b, c) == Without(a, c) + Without(b, c)
    decreases |a|
  {
    if |a| == 0 {
      assert a + b == b;
    } else {
      assert (a + b)[1..] == a[1..] + b;
      WithoutConcat(a[1..], b, c);
    }
  }

  /** Splitting at a first occurrence: the piece before it, then the pieces of the rest */
  lemma SplitAt(s: string, t: string, k: nat)
    requires |t| > 0 && OccursAt(s, t, k)
    requires forall j :: 0 <= j < k ==> !OccursAt(s, t, j)
    ensures Split(s, t) == [s[..k]] + Split(s[k + |t|..], t)
  {
    IndexOfIsFirst(s, t, k);
  }

  /** Joining with nothing between puts the first piece in front */
  lemma JoinEmptyCons(x: string, ps: seq<string>)
    requires |ps| >= 1
    ensures Join([x] + ps, "") == x + Join(ps, "")
  {
    var l := [x] + ps;
    assert l[0] == x && l[1..] == ps;
    assert Join(l, "") == x + "" + Join(ps, "");
    assert x + "" == x;
  }

  /** `s.replace(c, '')` for a single character deletes exactly the occurrences of `c` */
  lemma {:induction false} ReplaceCharIsWithout(s: string, c: char)
    ensures ReplaceAll(s, [c], "") == Without(s, c)
    decreases |s|
  {
    match IndexOf(s, [c])
    case None =>
      forall j | 0 <= j < |s|
        ensures s[j] != c
      {
        OccursAtChar(s, c, j);
      }
      WithoutAbsent(s, c);
    case Some(k) =>
      var pre := s[..k];
      var rest := s[k + 1..];
      forall j | 0 <= j < k
        ensures pre[j] != c
      {
        OccursAtChar(s, c, j);
      }
      SplitAt(s, [c], k);
      ReplaceCharIsWithout(rest, c);
      JoinEmptyCons(pre, Split(rest, [c]));
      WithoutAbsent(pre, c);
      OccursAtChar(s, c, k);
      CharThenRest(s, c, k);
      WithoutConcat(pre, [c] + rest, c);
  }

  lemma CharThenRest(s: string, c: char, k: nat)
    requires k < |s| && s[k] == c
    ensures s == s[..k] + ([c] + s[k + 1..])
    ensures Without([c] + s[k + 1..], c) == Without(s[k + 1..], c)
  {
    assert ([c] + s[k + 1..])[1..] == s[k + 1..];
  }

  /** The date part of the document name: `.str.replace(' ', '').str.replace(':', '').str.replace('-', '')` */
  function DateCompact(date: string): string {
    ReplaceAll(ReplaceAll(ReplaceAll(date, " ", ""), ":", ""), "-", "")
  }

  /** The date part is the date with its spaces, colons and dashes deleted, and nothing else */
  lemma DateCompactDeletes(date: string)
    ensures DateCompact(date) == Without(Without(Without(date, ' '), ':'), '-')
    ensures forall i :: 0 <= i < |DateCompact(date)| ==>
      DateCompact(date)[i] != ' ' && DateCompact(date)[i] != ':' && DateCompact(date)[i] != '-'
    ensures IsSubsequence(DateCompact(date), date)
    ensures (forall i :: 0 <= i < |date| ==> date[i] != ' ' && date[i] != ':' && date[i] != '-') ==>
      DateCompact(date) == date
  {
    var a := Without(date, ' ');
    var b := Without(a, ':');
    var r := Without(b, '-');
    ReplaceCharIsWithout(date, ' ');
    ReplaceCharIsWithout(a, ':');
    ReplaceCharIsWithout(b, '-');
    assert " " == [' '] && ":" == [':'] && "-" == ['-'];
    SubsequenceTransitive(r, b, a);
    SubsequenceTransitive(r, a, date);
    SubsequenceMembers(b, a);
    SubsequenceMembers(r, b);
    if forall i :: 0 <= i < |date| ==> date[i] != ' ' && date[i] != ':' && date[i] != '-' {
      WithoutAbsent(date, ' ');
      WithoutAbsent(date, ':');
      WithoutAbsent(date, '-');
    }
  }

  /** Every character left after deleting is a character of the original */
  lemma {:induction false} SubsequenceMembers(a: string, b: string)
    requires IsSubsequence(a, b)
    ensures forall i :: 0 <= i < |a| ==> a[i] in b
    decreases |b|
  {
    if |a| > 0 {
      if a[0] == b[0] && IsSubsequence(a[1..], b[1..]) {
        SubsequenceMembers(a[1..], b[1..]);
        assert forall i :: 1 <= i < |a| ==> a[i] == a[1..][i - 1];
      } else {
        SubsequenceMembers(a, b[1..]);
      }
    }
  }

  // ---------------------------------------------------------------------------
  // The document name and the file name
  // ---------------------------------------------------------------------------

  /** The media part: `df.media.fillna('')` */
  function MediaText(media: Option<Media>): string {
    match media
    case None => ""
    case Some(m) => MediaName(m)
  }

  /** `s.rsplit(c)[-1]`: the text after the last `c`, or all of `s` without one */
  function LastSegment(s: string, c: char): (r: string)
    ensures forall i :: 0 <= i < |r| ==> r[i] != c
    ensures |r| <= |s| && r == s[|s| - |r|..]
  {
    match LastIndexOfChar(s, c)
    case None => s
    case Some(k) => s[k + 1..]
  }

  /** The segment after a last separator is the text that follows it */
  lemma LastSegmentOf(pre: string, c: char, x: string)
    requires forall i :: 0 <= i < |x| ==> x[i] != c
    ensures LastSegment(pre + [c] + x, c) == x
  {
    var s := pre + [c] + x;
    assert s[|pre|] == c;
    assert forall j :: |pre| < j < |s| ==> s[j] == x[j - |pre| - 1];
    assert s[|pre| + 1..] == x;
  }

  /** `source + '_' + title + '_' + date + '_' + media`, each part as above */
  function DocumentName(source: string, title: string, date: string, media: Option<Media>): (r: string)
    ensures StartsWith(r, SourceSlug(source) + "_")
    ensures |r| > |MediaText(media)| && r[|r| - |MediaText(media)| - 1..] == "_" + MediaText(media)
  {
    Underscored(SourceSlug(source), TitleSlug(title), DateCompact(date), MediaText(media))
  }

  /** Four parts joined by underscores */
  function Underscored(a: string, b: string, c: string, d: string): (r: string)
    ensures StartsWith(r, a + "_")
    ensures |r| > |d| && r[|r| - |d| - 1..] == "_" + d
  {
    var head := a + "_";
    var tail := "_" + d;
    var r := head + (b + "_" + c) + tail;
    assert r[..|head|] == head;
    assert r[|r| - |tail|..] == tail;
    r
  }

  /** The media can be read back from a document name: it is the text after the last underscore */
  lemma MediaOfDocumentName(source: string, title: string, date: string, media: Option<Media>)
    ensures LastSegment(DocumentName(source, title, date, media), '_') == MediaText(media)
  {
    MediaTextLacksSeparator(media);
    LastPartOf(SourceSlug(source), TitleSlug(title), DateCompact(date), MediaText(media));
  }

  /** The last part, when it holds no underscore, is the last `_` segment */
  lemma LastPartOf(a: string, b: string, c: string, d: string)
    requires forall i :: 0 <= i < |d| ==> d[i] != '_'
    ensures LastSegment(Underscored(a, b, c, d), '_') == d
  {
    LastSegmentOfEnd(Underscored(a, b, c, d), '_', d);
  }

  /** No media name holds an underscore */
  lemma MediaTextLacksSeparator(media: Option<Media>)
    ensures forall i :: 0 <= i < |MediaText(media)| ==> MediaText(media)[i] != '_'
  {
  }

  /** A text ending in a separator and a piece without one has that piece as its last segment */
  lemma LastSegmentOfEnd(s: string, c: char, x: string)
    requires |s| > |x| && s[|s| - |x| - 1..] == [c] + x
    requires forall i :: 0 <= i < |x| ==> x[i] != c
    ensures LastSegment(s, c) == x
  {
    var pre := s[..|s| - |x| - 1];
    assert s == pre + [c] + x by {
      assert s == pre + s[|s| - |x| - 1..];
    }
    LastSegmentOf(pre, c, x);
  }

  /** The name of the text file an article is written to */
  function Filename(documentName: string): (r: string)
    ensures |r| == |documentName| + 4 && r[..|documentName|] == documentName && r[|documentName|..] == ".txt"
  {
    documentName + ".txt"
  }

  /** Two articles are written to the same file exactly when they have the same document name */
  lemma FilenameInjective(a: string, b: string)
    ensures Filename(a) == Filename(b) <==> a == b
  {
    if Filename(a) == Filename(b) {
      assert |a| == |b|;
      assert a == Filename(a)[..|a|];
    }
  }

  // ---------------------------------------------------------------------------
  // The id
  // ---------------------------------------------------------------------------

  /** The numeral of an export file: `name.rsplit('_')[-1].replace('.txt', '')` */
  function RomanSegment(inputFile: string): string {
    ReplaceAll(LastSegment(inputFile, '_'), ".txt", "")
  }

  /** A file named `..._<numeral>.txt` yields its numeral when the numeral holds no underscore or dot */
  lemma RomanSegmentOf(prefix: string, numeral: string)
    requires forall i :: 0 <= i < |numeral| ==> numeral[i] != '_' && numeral[i] != '.'
    ensures RomanSegment(prefix + "_" + numeral + ".txt") == numeral
  {
    var tail := numeral + ".txt";
    assert prefix + "_" + numeral + ".txt" == prefix + ['_'] + tail;
    LastSegmentOf(prefix, '_', tail);
    ReplaceTxtTail(numeral);
  }

  /** Deleting `.txt` from a numeral followed by `.txt` leaves the numeral */
  lemma ReplaceTxtTail(numeral: string)
    requires forall i :: 0 <= i < |numeral| ==> numeral[i] != '.'
    ensures ReplaceAll(numeral + ".txt", ".txt", "") == numeral
  {
    var tail := numeral + ".txt";
    forall j | 0 <= j < |numeral|
      ensures !OccursAt(tail, ".txt", j)
    {
      assert tail[j] == numeral[j];
    }
    assert tail[|numeral|..|numeral| + 4] == ".txt";
    SplitAt(tail, ".txt", |numeral|);
    assert tail[..|numeral|] == numeral;
    assert tail[|numeral| + 4..] == "";
    assert IndexOf("", ".txt") == None;
    assert Split("", ".txt") == [""];
    JoinEmptyCons(numeral, [""]);
  }

  /** The three-digit field of a number: `str(n).zfill(3)` */
  function Field(n: nat): (r: string)
    ensures |r| >= 3 && (n < 1000 ==> |r| == 3)
    ensures forall i :: 0 <= i < |r| ==> IsDigit(r[i])
    ensures ParseDecimal(r) == n
  {
    var digits := NatToString(n);
    var r := ZFill(digits, 3);
    assert r == r[..|r| - |digits|] + digits;
    ParseLeadingZeros(r[..|r| - |digits|], digits);
    ParseNatToString(n);
    r
  }

  /** `id`: the volume number and the row index, each as a zero-padded field */
  function Id(volume: nat, row: nat): (r: string)
    ensures forall i :: 0 <= i < |r| ==> IsDigit(r[i])
    ensures volume < 1000 && row < 1000 ==> |r| == 6
  {
    Field(volume) + Field(row)
  }

  /** With a volume below 1000, both numbers can be read back from the id, whatever the row */
  lemma IdDecodes(volume: nat, row: nat)
    requires volume < 1000
    ensures |Id(volume, row)| >= 6
    ensures ParseDecimal(Id(volume, row)[..3]) == volume
    ensures ParseDecimal(Id(volume, row)[3..]) == row
  {
    var id := Id(volume, row);
    assert id[..3] == Field(volume);
    assert id[3..] == Field(row);
  }

  /**
   * Different volume and row pairs get different ids as long as both volumes,
   * or both rows, stay below 1000: a collision needs a volume of 1000 or more
   * and a row of 1000 or more
   */
  lemma IdInjective(v1: nat, r1: nat, v2: nat, r2: nat)
    requires (v1 < 1000 && v2 < 1000) || (r1 < 1000 && r2 < 1000)
    requires Id(v1, r1) == Id(v2, r2)
    ensures v1 == v2 && r1 == r2
  {
    if v1 < 1000 && v2 < 1000 {
      IdDecodes(v1, r1);
      IdDecodes(v2, r2);
    } else {
      var id := Id(v1, r1);
      assert id[|id| - 3..] == Field(r1);
      assert id[|id| - 3..] == Field(r2);
      assert id[..|id| - 3] == Field(v1);
      assert id[..|id| - 3] == Field(v2);
    }
  }

  /** Within one volume, different rows get different ids, whatever the numbers */
  lemma IdInjectiveInVolume(volume: nat, r1: nat, r2: nat)
    requires Id(volume, r1) == Id(volume, r2)
    ensures r1 == r2
  {
    var f := Field(volume);
    assert Id(volume, r1)[|f|..] == Field(r1);
    assert Id(volume, r2)[|f|..] == Field(r2);
  }

  /** From row 1000 on, the fields run together and two articles can share an id */
  lemma IdCollidesPastThreeDigits()
    ensures Id(100, 1001) == Id(1001, 1)
  {
    assert NatToString(1) == "1";
    assert NatToString(10) == "10";
    assert NatToString(100) == "100";
    assert NatToString(1001) == "1001";
    assert Field(1) == "001";
    assert Field(100) == "100";
    assert Field(1001) == "1001";
  }
}
