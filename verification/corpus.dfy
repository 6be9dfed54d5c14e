/**
 * The corpus of one export file (`create_corpus`): every article is paired
 * with its table-of-contents entry by position, its header is repaired and
 * read, its body is cleaned, and the entry gains the article's columns.
 */
module Corpus {
  import opened Wrappers
  import opened Errors
  import opened Text
  import opened Toc
  import opened Header
  import opened Fields
  import opened Cleaning

  /** The cleaning switches of `create_corpus` */
  datatype Options = Options(stopWords: Option<string>, removeCaptions: bool, removeCopyright: bool)

  /** The columns an article adds to its table-of-contents entry, in the order they are appended */
  datatype ArticleFields = ArticleFields(
    fullText: string,
    headerLength: nat,
    header: string,
    media: Option<Media>,
    pages: Option<string>,
    url: Option<string>,
    articleText: string)

  /**
   * One row of the corpus table: a table-of-contents entry and the columns of
   * its article, or none when there were fewer articles than entries (the
   * table then holds missing values in those columns).
   */
  datatype Row = Row(entry: TocEntry, article: Option<ArticleFields>)

  /** The marker whose presence after cleaning stops the run */
  const Attribution: string := "Retriever"

  /**
   * The body after the URL sentence is removed and the optional steps have
   * run, before the header is cut off. A missing or empty stop-word string
   * skips that step.
   */
  function Clean(fixed: string, opts: Options): string {
    var a := RemoveUrl(fixed);
    var b := if opts.stopWords.Some? then RemoveStopWords(a, opts.stopWords.value) else a;
    var c := if opts.removeCaptions then RemoveCaptions(b) else b;
    if opts.removeCopyright then RemoveCopyright(c) else c
  }

  /** Every cleaning step only deletes, so the cleaned body is a deletion from the repaired article */
  lemma CleanDeletes(fixed: string, opts: Options)
    ensures IsSubsequence(Clean(fixed, opts), fixed)
  {
    var a := RemoveUrl(fixed);
    RemoveUrlDeletes(fixed);
    var b := if opts.stopWords.Some? then RemoveStopWords(a, opts.stopWords.value) else a;
    if opts.stopWords.Some? {
      RemoveStopWordsDeletes(a, opts.stopWords.value);
      SubsequenceTransitive(b, a, fixed);
    }
    var c := if opts.removeCaptions then RemoveCaptions(b) else b;
    if opts.removeCaptions {
      RemoveCaptionsDeletes(b);
      SubsequenceTransitive(c, b, fixed);
    }
    var d := if opts.removeCopyright then RemoveCopyright(c) else c;
    if opts.removeCopyright {
      RemoveCopyrightDeletes(c);
      SubsequenceTransitive(d, c, fixed);
    }
  }

  /**
   * The body of article `i` of the loop of `create_corpus`: the header
   * repaired, the title checked against the entry, the media, pages and URL
   * read, the body cleaned, the attribution check made, and the header cut.
   * A failed title check, a `Sida` line without a space and an attribution
   * left in the body stop the run.
   */
  function ProcessArticle(i: nat, entry: TocEntry, article: string, opts: Options): (r: Result<ArticleFields, RunError>)
    ensures r.Failure? ==> r.error in {TitleMismatch(i), MissingPageToken(i), ResidualAttribution(i)}
    ensures r == Failure(TitleMismatch(i)) <==> !CheckTitle(entry.title, FixHeader(article).text)
    ensures r == Failure(MissingPageToken(i)) <==>
      CheckTitle(entry.title, FixHeader(article).text) && ExtractPages(HeaderLines(FixHeader(article).text)).Failure?
    ensures r == Failure(ResidualAttribution(i)) <==>
      && CheckTitle(entry.title, FixHeader(article).text)
      && ExtractPages(HeaderLines(FixHeader(article).text)).Success?
      && Contains(Clean(FixHeader(article).text, opts), Attribution)
    ensures r.Success? <==>
      && CheckTitle(entry.title, FixHeader(article).text)
      && ExtractPages(HeaderLines(FixHeader(article).text)).Success?
      && !Contains(Clean(FixHeader(article).text, opts), Attribution)
    ensures r.Success? ==>
      && !Contains(r.value.articleText, Attribution)
      && IsSubsequence(r.value.articleText, FixHeader(article).text)
      && r.value.articleText == RemoveHeader(Clean(FixHeader(article).text, opts))
      && r.value.fullText == article
      && r.value.headerLength >= 1
      && Split(r.value.header, Newline) == HeaderLines(FixHeader(article).text)
      && |Split(r.value.header, Newline)| == r.value.headerLength
      && r.value.media == ExtractMedia(HeaderLines(FixHeader(article).text))
      && r.value.pages == ExtractPages(HeaderLines(FixHeader(article).text)).value
      && r.value.url == ExtractUrl(FixHeader(article).text)
      && (r.value.url.None? <==> PhraseFree(FixHeader(article).text))
  {
    var fixed := FixHeader(article);
    var (headers, header) := ExtractHeaders(fixed.text);
    if !CheckTitle(entry.title, fixed.text) then Failure(TitleMismatch(i))
    else
      var media := ExtractMedia(headers);
      match ExtractPages(headers)
      case Failure(_) => Failure(MissingPageToken(i))
      case Success(pages) =>
        var url := ExtractUrl(fixed.text);
        var cleaned := Clean(fixed.text, opts);
        if Contains(cleaned, Attribution) then Failure(ResidualAttribution(i))
        else
          var body := RemoveHeader(cleaned);
          RemoveHeaderKeepsAbsence(cleaned, Attribution);
          CleanDeletes(fixed.text, opts);
          SubsequenceTransitive(body, cleaned, fixed.text);
          Success(ArticleFields(article, fixed.headerLength, header, media, pages, url, body))
  }

  // ---------------------------------------------------------------------------
  // The loop over the articles
  // ---------------------------------------------------------------------------

  /** What the loop does with article `k` and its entry */
  type Step = (nat, TocEntry, string) -> Result<ArticleFields, RunError>

  /** The step `create_corpus` takes: `ProcessArticle` under the given switches */
  function ArticleStep(opts: Options): Step {
    (k: nat, entry: TocEntry, article: string) => ProcessArticle(k, entry, article, opts)
  }

  /** Article `k` has an entry and its step succeeds */
  predicate ProcessesAt(toc: seq<TocEntry>, articles: seq<string>, step: Step, k: nat)
    requires k < |articles|
  {
    k < |toc| && step(k, toc[k], articles[k]).Success?
  }

  /** The error the loop stops with at article `k`: an article with no entry, or its step's error */
  function ErrorAt(toc: seq<TocEntry>, articles: seq<string>, step: Step, k: nat): RunError
    requires k < |articles| && !ProcessesAt(toc, articles, step, k)
  {
    if k >= |toc| then MissingTocEntry(k)
    else step(k, toc[k], articles[k]).error
  }

  /** Article `k` is the first from `i` on that has no entry or fails */
  predicate FirstFailure(toc: seq<TocEntry>, articles: seq<string>, step: Step, i: nat, k: nat) {
    && i <= k < |articles|
    && !ProcessesAt(toc, articles, step, k)
    && (forall j :: i <= j < k ==> ProcessesAt(toc, articles, step, j))
  }

  /** Every article before `i` has an entry and its step gave the columns in `acc` */
  predicate Done(toc: seq<TocEntry>, articles: seq<string>, step: Step, i: nat, acc: seq<ArticleFields>) {
    && i <= |articles| && i <= |toc| && |acc| == i
    && forall k :: 0 <= k < i ==> step(k, toc[k], articles[k]) == Success(acc[k])
  }

  /**
   * The loop from article `i` on, with the columns of the articles before it
   * in `acc`: the columns of every article, or the error of the first article
   * that has no entry or fails.
   */
  function ProcessFrom(toc: seq<TocEntry>, articles: seq<string>, step: Step, i: nat, acc: seq<ArticleFields>)
    : (r: Result<seq<ArticleFields>, RunError>)
    requires Done(toc, articles, step, i, acc)
    ensures r.Success? <==> forall k :: i <= k < |articles| ==> ProcessesAt(toc, articles, step, k)
    ensures r.Success? ==> Done(toc, articles, step, |articles|, r.value)
    ensures r.Failure? ==> exists k :: FirstFailure(toc, articles, step, i, k) && r.error == ErrorAt(toc, articles, step, k)
    decreases |articles| - i
  {
    if i == |articles| then Success(acc)
    else if i >= |toc| then
      assert FirstFailure(toc, articles, step, i, i);
      Failure(MissingTocEntry(i))
    else
      match step(i, toc[i], articles[i])
      case Failure(e) =>
        assert FirstFailure(toc, articles, step, i, i);
        Failure(e)
      case Success(fields) =>
        assert ProcessesAt(toc, articles, step, i);
        var acc' := acc + [fields];
        assert forall k :: 0 <= k < i ==> acc'[k] == acc[k];
        match ProcessFrom(toc, articles, step, i + 1, acc')
        case Failure(e) =>
          var k :| FirstFailure(toc, articles, step, i + 1, k) && e == ErrorAt(toc, articles, step, k);
          assert FirstFailure(toc, articles, step, i, k);
          Failure(e)
        case Success(all) => Success(all)
  }

  /**
   * The table built by a loop of `step`: one row per table-of-contents
   * entry, in order, the first `|articles|` of them with their article's
   * columns. An article beyond the last entry stops the run, and so does a
   * table whose entries all lack articles, since it then has fewer columns
   * than it names.
   */
  function BuildCorpus(toc: seq<TocEntry>, articles: seq<string>, step: Step): (r: Result<seq<Row>, RunError>)
    ensures r.Success? <==>
      (forall k :: 0 <= k < |articles| ==> ProcessesAt(toc, articles, step, k)) && !(|toc| > 0 && |articles| == 0)
    ensures r.Success? ==> |r.value| == |toc| && |articles| <= |toc|
    ensures r.Success? ==> forall k :: 0 <= k < |toc| ==>
      r.value[k].entry == toc[k] && (r.value[k].article.Some? <==> k < |articles|)
    ensures r.Success? ==> forall k :: 0 <= k < |articles| ==>
      step(k, toc[k], articles[k]) == Success(r.value[k].article.value)
    ensures r.Failure? ==>
      || (r.error == ColumnCountMismatch && |toc| > 0 && |articles| == 0)
      || (exists k :: FirstFailure(toc, articles, step, 0, k) && r.error == ErrorAt(toc, articles, step, k))
    ensures |toc| > 0 && |articles| == 0 ==> r == Failure(ColumnCountMismatch)
  {
    if |toc| > 0 && |articles| == 0 then Failure(ColumnCountMismatch)
    else
      match ProcessFrom(toc, articles, step, 0, [])
      case Failure(e) => Failure(e)
      case Success(fields) =>
        assert |articles| > 0 ==> ProcessesAt(toc, articles, step, |articles| - 1);
        Success(Rows(toc, fields))
  }

  /** The table: every entry, padded with missing article columns once the articles run out */
  function Rows(toc: seq<TocEntry>, fields: seq<ArticleFields>): (rows: seq<Row>)
    requires |fields| <= |toc|
    ensures |rows| == |toc|
    ensures forall k :: 0 <= k < |toc| ==> rows[k].entry == toc[k]
    ensures forall k :: 0 <= k < |toc| ==> rows[k].article == if k < |fields| then Some(fields[k]) else None
  {
    seq(|toc|, k requires 0 <= k < |toc| => Row(toc[k], if k < |fields| then Some(fields[k]) else None))
  }

  /**
   * `create_corpus(toc, articles, stop_words, remove_captions,
   * remove_copyright)`: the loop of `ProcessArticle`. In a built corpus no
   * article body keeps the attribution, and every body is a deletion from
   * its repaired article.
   */
  function CreateCorpus(toc: seq<TocEntry>, articles: seq<string>, opts: Options): Result<seq<Row>, RunError> {
    BuildCorpus(toc, articles, ArticleStep(opts))
  }

  // ---------------------------------------------------------------------------
  // Properties of the corpus
  // ---------------------------------------------------------------------------

  /** In a built corpus no article body keeps the attribution, and every body is a deletion from its repaired article */
  lemma CorpusBodiesClean(toc: seq<TocEntry>, articles: seq<string>, opts: Options)
    requires CreateCorpus(toc, articles, opts).Success?
    ensures forall k :: 0 <= k < |articles| ==>
      && CreateCorpus(toc, articles, opts).value[k].article.Some?
      && !Contains(CreateCorpus(toc, articles, opts).value[k].article.value.articleText, Attribution)
      && IsSubsequence(CreateCorpus(toc, articles, opts).value[k].article.value.articleText, FixHeader(articles[k]).text)
  {
    var r := BuildCorpus(toc, articles, ArticleStep(opts));
    assert CreateCorpus(toc, articles, opts) == r;
    forall k | 0 <= k < |articles|
      ensures r.value[k].article.Some?
      ensures !Contains(r.value[k].article.value.articleText, Attribution)
      ensures IsSubsequence(r.value[k].article.value.articleText, FixHeader(articles[k]).text)
    {
      assert ArticleStep(opts)(k, toc[k], articles[k]) == Success(r.value[k].article.value);
      var p := ProcessArticle(k, toc[k], articles[k], opts);
      assert p == Success(r.value[k].article.value);
    }
  }

  /** More articles than entries always stops the run at the first article without one, unless another fails first */
  lemma MoreArticlesThanEntries(toc: seq<TocEntry>, articles: seq<string>, step: Step)
    requires |articles| > |toc|
    ensures BuildCorpus(toc, articles, step).Failure?
    ensures (forall k :: 0 <= k < |toc| ==> ProcessesAt(toc, articles, step, k)) ==>
      BuildCorpus(toc, articles, step) == Failure(MissingTocEntry(|toc|))
  {
    assert !ProcessesAt(toc, articles, step, |toc|);
    if forall k :: 0 <= k < |toc| ==> ProcessesAt(toc, articles, step, k) {
      var r := ProcessFrom(toc, articles, step, 0, []);
      var k :| FirstFailure(toc, articles, step, 0, k) && r.error == ErrorAt(toc, articles, step, k);
    }
  }
}
