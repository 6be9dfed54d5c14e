/**
 * Cutting the article part of an export file into articles (`get_articles`):
 * the lines from the table-of-contents stop line on are joined and split at
 * the separator row, and each piece is stripped.
 */
module Articles {
  import opened Text

  /** The row of 78 equals signs between two articles */
  const Separator: string := "=============================================================================="

  /**
   * The text read from 1-based line `offset` on: `readlines()[offset - 1:]`
   * joined. An offset of 0 slices from index -1, which is the last line.
   */
  function ArticleData(lines: seq<string>, offset: int): string {
    Concat(SliceFrom(lines, offset - 1))
  }

  /** The raw pieces between separators, cut left to right; joining them back gives the text */
  function Blocks(data: string): (b: seq<string>)
    ensures |b| == Occurrences(data, Separator) + 1
    ensures Join(b, Separator) == data
    ensures forall i :: 0 <= i < |b| ==> !Contains(b[i], Separator)
    ensures forall i :: 0 <= i < |b| - 1 ==> !Contains(b[i] + Separator[..|Separator| - 1], Separator)
  {
    Split(data, Separator)
  }

  /**
   * `get_articles(filename, offset)`: one article per separator-delimited
   * piece, stripped; none is empty-ended or holds a separator row.
   */
  function GetArticles(lines: seq<string>, offset: int): (articles: seq<string>)
    ensures var b := Blocks(ArticleData(lines, offset));
      |articles| == |b| && forall i :: 0 <= i < |b| ==> articles[i] == Strip(b[i])
    ensures |articles| == Occurrences(ArticleData(lines, offset), Separator) + 1
    ensures forall i :: 0 <= i < |articles| ==> IsTrimmed(articles[i]) && !Contains(articles[i], Separator)
  {
    var b := Blocks(ArticleData(lines, offset));
    seq(|b|, i requires 0 <= i < |b| => StripPiece(b[i]))
  }

  /** `str.strip()` of a piece without a separator row keeps it without one */
  function StripPiece(piece: string): (r: string)
    requires !Contains(piece, Separator)
    ensures r == Strip(piece)
    ensures IsTrimmed(r) && !Contains(r, Separator)
  {
    StripSlice(piece);
    NotContainsSlice(piece, Separator, StripStart(piece), StripStart(piece) + |Strip(piece)|);
    Strip(piece)
  }

  /** A text without a separator row is a single article */
  lemma NoSeparatorOneArticle(lines: seq<string>, offset: int)
    requires !Contains(ArticleData(lines, offset), Separator)
    ensures GetArticles(lines, offset) == [Strip(ArticleData(lines, offset))]
  {
    var data := ArticleData(lines, offset);
    var b := Blocks(data);
    ContainsOccurrence(data, Separator);
    OccurrencesNone(data, Separator);
    assert |b| == 1;
    assert Join(b, Separator) == b[0];
  }

  /** The text read starts at the offset line; offset 0 reads only the last line */
  lemma ArticleDataFromOffset(lines: seq<string>, offset: int)
    ensures 1 <= offset <= |lines| ==> ArticleData(lines, offset) == Concat(lines[offset - 1..])
    ensures offset == 0 && |lines| > 0 ==> ArticleData(lines, offset) == lines[|lines| - 1]
    ensures offset > |lines| ==> ArticleData(lines, offset) == ""
  {
    if offset == 0 && |lines| > 0 {
      var last := lines[|lines| - 1..];
      assert last[1..] == [];
      assert Concat(last) == lines[|lines| - 1] + Concat([]);
    }
  }
}
