/**
 * The run over a folder of export files (`main`): every `.txt` file is
 * scanned for its table of contents, cut into articles and turned into a
 * corpus table; each row is named and given an id; the tables are joined
 * into the document index; duplicates are found, compared and dropped.
 * Reading the folder and writing the outputs are left to the caller: the
 * files arrive as a list of names and texts, in the order the folder
 * listing gives them.
 */
module Pipeline {
  import opened Wrappers
  import opened Errors
  import opened Text
  import opened Lines
  import opened Toc
  import opened Articles
  import opened Fields
  import opened Corpus
  import opened Naming
  import opened Dedup

  /** The line that opens the table of contents */
  const TocMarker: string := "Innehållsförteckning:"

  /** The number of consecutive non-entry lines that ends the table of contents */
  const MaxNotMatched: int := 2

  /** The default cleaning of `main`: the four stop-word labels, captions and copyright removed */
  const DefaultOptions: Options := Options(Some("Bildtext|Image-text|Pressbild|Snabbversion"), true, true)

  /** An export file: its name in the folder and its decoded text */
  datatype InputFile = InputFile(name: string, text: string)

  /** A row of the document index: the corpus row and the columns `main` derives from it */
  datatype Document = Document(row: Row, documentName: string, filename: string, inputFile: string, id: string)

  /** The key duplicates are found by: document name, source, date and media */
  datatype DocKey = DocKey(documentName: string, source: string, date: string, media: Option<Media>)

  /** What a run produces: the index (a row's `document_id` is its position), the duplicated positions, the compared pairs and the positions kept */
  datatype Outcome = Outcome(index: seq<Document>, duplicates: seq<nat>, diffs: seq<(nat, nat)>, kept: seq<nat>)

  // ---------------------------------------------------------------------------
  // One export file
  // ---------------------------------------------------------------------------

  /** `filename.endswith(".txt")` */
  predicate IsTxt(name: string) {
    |name| >= 4 && name[|name| - 4..] == ".txt"
  }

  /** The corpus table of one file: `get_toc`, `get_articles` and `create_corpus` */
  function FileCorpus(f: InputFile, opts: Options): Result<seq<Row>, RunError> {
    var lines := ReadLines(f.text);
    var scan := GetToc(lines, TocMarker, MaxNotMatched);
    CreateCorpus(scan.entries, GetArticles(lines, scan.offset), opts)
  }

  /** Every export file that yields a table yields at least one row */
  lemma FileCorpusNotEmpty(f: InputFile, opts: Options)
    requires FileCorpus(f, opts).Success?
    ensures |FileCorpus(f, opts).value| >= 1
  {
    var lines := ReadLines(f.text);
    var scan := GetToc(lines, TocMarker, MaxNotMatched);
    var articles := GetArticles(lines, scan.offset);
    assert |articles| >= 1;
  }

  /** A file whose table of contents has no entry stops the run at its first article */
  lemma NoEntriesStopsRun(f: InputFile, opts: Options)
    requires GetToc(ReadLines(f.text), TocMarker, MaxNotMatched).entries == []
    ensures FileCorpus(f, opts) == Failure(MissingTocEntry(0))
  {
    var lines := ReadLines(f.text);
    var scan := GetToc(lines, TocMarker, MaxNotMatched);
    var articles := GetArticles(lines, scan.offset);
    MoreArticlesThanEntries(scan.entries, articles, ArticleStep(opts));
  }

  /** The media of a row; a row without an article has none */
  function RowMedia(row: Row): Option<Media> {
    if row.article.Some? then row.article.value.media else None
  }

  /** The article text of a row; a row without an article has none */
  function RowText(row: Row): Option<string> {
    if row.article.Some? then Some(row.article.value.articleText) else None
  }

  /** The `document_name` column of a row */
  function RowName(row: Row): string {
    DocumentName(row.entry.source, row.entry.title, row.entry.date, RowMedia(row))
  }

  /** The rows of one file named, with the file's volume number and each row's index in the id */
  function Documents(rows: seq<Row>, inputFile: string, volume: nat): (ds: seq<Document>)
    ensures |ds| == |rows|
    ensures forall k :: 0 <= k < |rows| ==> ds[k].row == rows[k] && ds[k].inputFile == inputFile
  {
    seq(|rows|, k requires 0 <= k < |rows| =>
      Document(rows[k], RowName(rows[k]), Filename(RowName(rows[k])), inputFile, Id(volume, k)))
  }

  /** Each derived column can be read back: the media from the name, the file name from the name, the volume and row from the id */
  lemma DocumentsReadBack(rows: seq<Row>, inputFile: string, volume: nat, k: nat)
    requires k < |rows| && volume < 1000
    ensures var d := Documents(rows, inputFile, volume)[k];
      && LastSegment(d.documentName, '_') == MediaText(RowMedia(rows[k]))
      && d.filename == d.documentName + ".txt"
      && |d.id| >= 6 && (|rows| <= 1000 ==> |d.id| == 6)
      && ParseDecimal(d.id[..3]) == volume && ParseDecimal(d.id[3..]) == k
  {
    var r := rows[k];
    MediaOfDocumentName(r.entry.source, r.entry.title, r.entry.date, RowMedia(r));
    IdDecodes(volume, k);
  }

  /** Within one file no two rows share an id, whatever the volume and the number of rows */
  lemma DocumentIdsDistinct(rows: seq<Row>, inputFile: string, volume: nat, j: nat, k: nat)
    requires j < k < |rows|
    ensures Documents(rows, inputFile, volume)[j].id != Documents(rows, inputFile, volume)[k].id
  {
    if Id(volume, j) == Id(volume, k) {
      IdInjectiveInVolume(volume, j, k);
    }
  }

  /**
   * The rows of one file named. The volume number is read from the file name
   * with `fromRoman` only when the table has rows, as the column operation
   * calls nothing on an empty table.
   */
  function NameRows(name: string, corpus: Result<seq<Row>, RunError>, fromRoman: string -> Option<nat>): (r: Result<seq<Document>, RunError>)
    ensures corpus.Failure? ==> r == Failure(corpus.error)
    ensures corpus.Success? ==>
      (r == Failure(InvalidRomanNumeral(name)) <==> |corpus.value| > 0 && fromRoman(RomanSegment(name)).None?)
    ensures corpus.Success? && |corpus.value| > 0 && r.Success? ==>
      && fromRoman(RomanSegment(name)).Some?
      && r.value == Documents(corpus.value, name, fromRoman(RomanSegment(name)).value)
    ensures corpus.Success? && |corpus.value| == 0 ==> r == Success([])
  {
    var rows :- corpus;
    if |rows| == 0 then Success([])
    else
      match fromRoman(RomanSegment(name))
      case None => Failure(InvalidRomanNumeral(name))
      case Some(volume) => Success(Documents(rows, name, volume))
  }

  /** The table of one export file */
  function FileTable(f: InputFile, opts: Options, fromRoman: string -> Option<nat>): Result<seq<Document>, RunError> {
    NameRows(f.name, FileCorpus(f, opts), fromRoman)
  }

  // ---------------------------------------------------------------------------
  // The folder
  // ---------------------------------------------------------------------------

  /** The positions of the `.txt` files in the listing, in increasing order */
  function TxtPositions(files: seq<InputFile>): (ps: seq<nat>)
    ensures Dedup.Increasing(ps)
    ensures forall a :: 0 <= a < |ps| ==> ps[a] < |files|
    ensures forall p: nat :: p in ps <==> p < |files| && IsTxt(files[p].name)
  {
    Select(|files|, IsTxtAt(files), 0)
  }

  /** Position `p` of the listing holds a `.txt` file */
  function IsTxtAt(files: seq<InputFile>): nat -> bool {
    (p: nat) => p < |files| && IsTxt(files[p].name)
  }

  /**
   * The `.txt` files, in listing order: the loop skips every other name.
   * The files read are those at the `.txt` positions, each once and in order.
   */
  function TxtFiles(files: seq<InputFile>): (r: seq<InputFile>)
    ensures |r| == |TxtPositions(files)|
    ensures forall a :: 0 <= a < |r| ==> r[a] == files[TxtPositions(files)[a]]
    ensures forall j :: 0 <= j < |r| ==> IsTxt(r[j].name) && r[j] in files
    ensures forall f :: f in files && IsTxt(f.name) ==> f in r
  {
    var r := TxtFrom(files, 0);
    var ps := TxtPositions(files);
    forall f | f in files && IsTxt(f.name)
      ensures f in r
    {
      var p :| 0 <= p < |files| && files[p] == f;
      assert p in ps;
      var a :| 0 <= a < |ps| && ps[a] == p;
      assert r[a] == f;
    }
    r
  }

  /** The loop from position `i` on: the files at the `.txt` positions from `i` */
  function TxtFrom(files: seq<InputFile>, i: nat): (r: seq<InputFile>)
    requires i <= |files|
    ensures var ps := Select(|files|, IsTxtAt(files), i);
      |r| == |ps| && forall a :: 0 <= a < |r| ==> r[a] == files[ps[a]]
    decreases |files| - i
  {
    if i == |files| then []
    else
      var rest := TxtFrom(files, i + 1);
      var r := (if IsTxt(files[i].name) then [files[i]] else []) + rest;
      TxtFromStep(files, i, rest, r);
      r
  }

  lemma TxtFromStep(files: seq<InputFile>, i: nat, rest: seq<InputFile>, r: seq<InputFile>)
    requires i < |files|
    requires var qs := Select(|files|, IsTxtAt(files), i + 1);
      |rest| == |qs| && forall a :: 0 <= a < |rest| ==> rest[a] == files[qs[a]]
    requires r == (if IsTxt(files[i].name) then [files[i]] else []) + rest
    ensures var ps := Select(|files|, IsTxtAt(files), i);
      |r| == |ps| && forall a :: 0 <= a < |r| ==> r[a] == files[ps[a]]
  {
    var keep := IsTxtAt(files);
    var qs := Select(|files|, keep, i + 1);
    var ps := Select(|files|, keep, i);
    if keep(i) {
      assert ps == [i] + qs;
      forall a | 0 <= a < |r|
        ensures r[a] == files[ps[a]]
      {
        if a > 0 {
          assert r[a] == rest[a - 1] && ps[a] == qs[a - 1];
        }
      }
    } else {
      assert ps == qs && r == rest;
    }
  }

  /** How the run turns one file into a table */
  type TableOf = InputFile -> Result<seq<Document>, RunError>

  /** The `j`th file is the first whose table fails */
  predicate FirstFailingFile(fs: seq<InputFile>, table: TableOf, j: nat) {
    j < |fs| && table(fs[j]).Failure? && forall i :: 0 <= i < j ==> table(fs[i]).Success?
  }

  /** The tables of the files in order, or the error of the first file that stops the run */
  function Tables(fs: seq<InputFile>, table: TableOf): (r: Result<seq<seq<Document>>, RunError>)
    ensures r.Success? <==> forall j :: 0 <= j < |fs| ==> table(fs[j]).Success?
    ensures r.Success? ==> |r.value| == |fs| && forall j :: 0 <= j < |fs| ==> r.value[j] == table(fs[j]).value
    ensures r.Failure? ==> exists j: nat :: FirstFailingFile(fs, table, j) && table(fs[j]) == Failure(r.error)
    decreases |fs|
  {
    if |fs| == 0 then Success([])
    else
      match table(fs[0])
      case Failure(e) =>
        assert FirstFailingFile(fs, table, 0);
        Failure(e)
      case Success(t) =>
        var rest := Tables(fs[1..], table);
        TablesShift(fs, table);
        match rest
        case Failure(e) =>
          var j: nat :| FirstFailingFile(fs[1..], table, j) && table(fs[1..][j]) == Failure(e);
          assert FirstFailingFile(fs, table, j + 1);
          Failure(e)
        case Success(ts) => Success([t] + ts)
  }

  lemma TablesShift(fs: seq<InputFile>, table: TableOf)
    requires |fs| > 0
    ensures forall j :: 0 <= j < |fs| - 1 ==> fs[1..][j] == fs[j + 1]
    ensures (forall j :: 0 <= j < |fs| ==> table(fs[j]).Success?) <==>
      table(fs[0]).Success? && forall j :: 0 <= j < |fs| - 1 ==> table(fs[1..][j]).Success?
  {
    if table(fs[0]).Success? && forall j :: 0 <= j < |fs| - 1 ==> table(fs[1..][j]).Success? {
      forall j | 0 < j < |fs|
        ensures table(fs[j]).Success?
      {
        assert fs[j] == fs[1..][j - 1];
      }
    }
  }

  /** The number of rows in the first `j` tables: where table `j` starts in the index */
  function Offset(ts: seq<seq<Document>>, j: nat): nat
    requires j <= |ts|
  {
    if j == 0 then 0 else |ts[0]| + Offset(ts[1..], j - 1)
  }

  /**
   * `pd.concat(tables, ignore_index=True)`: the rows of every table, in
   * order; `FlattenAt` places each row at its `document_id`.
   */
  function Flatten(ts: seq<seq<Document>>): (r: seq<Document>)
    ensures |r| == Offset(ts, |ts|)
    ensures forall d :: d in r ==> exists j :: 0 <= j < |ts| && d in ts[j]
  {
    if |ts| == 0 then []
    else
      var rest := Flatten(ts[1..]);
      assert forall d :: d in rest ==> exists j :: 0 <= j < |ts| && d in ts[j] by {
        forall d | d in rest
          ensures exists j :: 0 <= j < |ts| && d in ts[j]
        {
          var j :| 0 <= j < |ts[1..]| && d in ts[1..][j];
          assert ts[j + 1] == ts[1..][j];
        }
      }
      ts[0] + rest
  }

  /** Row `k` of table `j` is row `Offset(ts, j) + k` of the index */
  lemma {:induction false} FlattenAt(ts: seq<seq<Document>>, j: nat, k: nat)
    requires j < |ts| && k < |ts[j]|
    ensures Offset(ts, j) + k < |Flatten(ts)|
    ensures Flatten(ts)[Offset(ts, j) + k] == ts[j][k]
  {
    OffsetBelow(ts, j);
    if j > 0 {
      assert ts[1..][j - 1] == ts[j];
      FlattenAt(ts[1..], j - 1, k);
    }
  }

  /** The first `j` tables hold no more rows than the first `j + 1` */
  lemma {:induction false} OffsetBelow(ts: seq<seq<Document>>, j: nat)
    requires j < |ts|
    ensures Offset(ts, j) + |ts[j]| <= Offset(ts, |ts|)
  {
    if j > 0 {
      assert ts[1..][j - 1] == ts[j];
      OffsetBelow(ts[1..], j - 1);
    }
  }

  /** Joining two lists of tables joins their indexes */
  lemma {:induction false} FlattenConcat(a: seq<seq<Document>>, b: seq<seq<Document>>)
    ensures Flatten(a + b) == Flatten(a) + Flatten(b)
    decreases |a|
  {
    if |a| == 0 {
      assert a + b == b;
    } else {
      assert (a + b)[1..] == a[1..] + b;
      FlattenConcat(a[1..], b);
    }
  }

  /** The document index, or the error that stops the run; without a table there is nothing to join */
  function BuildIndex(files: seq<InputFile>, table: TableOf): (r: Result<seq<Document>, RunError>)
    ensures TxtFiles(files) == [] ==> r == Failure(NoInputTables)
    ensures TxtFiles(files) != [] ==> r.Success? == Tables(TxtFiles(files), table).Success?
    ensures r.Success? ==>
      && Tables(TxtFiles(files), table).Success?
      && r.value == Flatten(Tables(TxtFiles(files), table).value)
    ensures TxtFiles(files) != [] && r.Failure? ==>
      && Tables(TxtFiles(files), table).Failure?
      && r.error == Tables(TxtFiles(files), table).error
      && exists j: nat :: FirstFailingFile(TxtFiles(files), table, j) && table(TxtFiles(files)[j]) == Failure(r.error)
  {
    var tables :- Tables(TxtFiles(files), table);
    if |tables| == 0 then Failure(NoInputTables) else Success(Flatten(tables))
  }

  // ---------------------------------------------------------------------------
  // Duplicates
  // ---------------------------------------------------------------------------

  /** The duplicate key of each row of the index */
  function Keys(index: seq<Document>): (ks: seq<DocKey>)
    ensures |ks| == |index|
    ensures forall p :: 0 <= p < |index| ==>
      ks[p] == DocKey(index[p].documentName, index[p].row.entry.source, index[p].row.entry.date, RowMedia(index[p].row))
  {
    seq(|index|, p requires 0 <= p < |index| =>
      DocKey(index[p].documentName, index[p].row.entry.source, index[p].row.entry.date, RowMedia(index[p].row)))
  }

  /** The article text of each row */
  function Texts(index: seq<Document>): (ts: seq<Option<string>>)
    ensures |ts| == |index| && forall p :: 0 <= p < |index| ==> ts[p] == RowText(index[p].row)
  {
    seq(|index|, p requires 0 <= p < |index| => RowText(index[p].row))
  }

  /** Whether each row's group key is complete, i.e. it has media */
  function Grouped(index: seq<Document>): (gs: seq<bool>)
    ensures |gs| == |index| && forall p :: 0 <= p < |index| ==> gs[p] == RowMedia(index[p].row).Some?
  {
    seq(|index|, p requires 0 <= p < |index| => RowMedia(index[p].row).Some?)
  }

  /**
   * `log_diffs` on the duplicates: the positions of the compared rows in the
   * index. A pair is compared when both rows are duplicates of one key with
   * media, their key plus text occurs once among the duplicates, and no such
   * row lies between them. Run on the rows `duplicated` marks, this is the
   * comparison over the whole index.
   */
  function Diffs(index: seq<Document>, dups: seq<nat>): (r: seq<(nat, nat)>)
    requires forall a :: 0 <= a < |dups| ==> dups[a] < |index|
    requires Dedup.Increasing(dups)
    ensures forall a :: 0 <= a < |r| ==> r[a].0 < r[a].1 < |index| && r[a].0 in dups && r[a].1 in dups
    ensures forall a :: 0 <= a < |r| ==>
      Keys(index)[r[a].0] == Keys(index)[r[a].1] && RowMedia(index[r[a].1].row).Some?
    ensures dups == DuplicatedPositions(Keys(index)) ==>
      r == DiffPairs(Keys(index), Texts(index), Grouped(index))
  {
    var keys, texts, grouped := Keys(index), Texts(index), Grouped(index);
    var sk, st, sg := Pick(keys, dups), Pick(texts, dups), Pick(grouped, dups);
    var pairs := DiffPairs(sk, st, sg);
    var r := DiffsAmong(keys, texts, grouped, dups);
    forall a | 0 <= a < |r|
      ensures r[a].0 < r[a].1 < |index| && r[a].0 in dups && r[a].1 in dups
      ensures keys[r[a].0] == keys[r[a].1] && RowMedia(index[r[a].1].row).Some?
    {
      DiffPairAt(sk, st, sg, a);
      IncreasingOrder(dups, pairs[a].0, pairs[a].1);
    }
    assert dups == DuplicatedPositions(keys) ==> r == DiffPairs(keys, texts, grouped) by {
      if dups == DuplicatedPositions(keys) {
        DiffsAmongDuplicates(keys, texts, grouped);
      }
    }
    r
  }

  /**
   * The duplicates, the pairs compared, and the rows
   * `drop_duplicates(keep='last')` keeps, of an index. Two rows are compared
   * exactly when they share a key with media, neither has a twin with the
   * same key and text, and no such row of that key lies between them.
   */
  function Deduplicate(index: seq<Document>): (o: Outcome)
    ensures o.index == index
    ensures forall p: nat :: p in o.duplicates <==> HasTwin(Keys(index), p)
    ensures forall p: nat :: p in o.kept <==> IsLast(Keys(index), p)
    ensures forall a :: 0 <= a < |o.diffs| ==>
      && o.diffs[a].0 < o.diffs[a].1 < |index|
      && o.diffs[a].0 in o.duplicates && o.diffs[a].1 in o.duplicates
      && Keys(index)[o.diffs[a].0] == Keys(index)[o.diffs[a].1]
    ensures forall x: nat, y: nat :: (x, y) in o.diffs <==>
      Consecutive(Keys(index), (p: nat) => Compared(Keys(index), Texts(index), Grouped(index), p), x, y)
    ensures forall a, b :: 0 <= a < b < |o.diffs| ==> o.diffs[a].1 < o.diffs[b].1
  {
    var keys := Keys(index);
    var dups := DuplicatedPositions(keys);
    Outcome(index, dups, Diffs(index, dups), KeepLastPositions(keys))
  }

  /** After dropping, the index holds each key once, and every key of the index is still there */
  lemma KeptKeysOnceEach(index: seq<Document>)
    ensures var o := Deduplicate(index);
      && (forall a, b :: 0 <= a < b < |o.kept| ==> Keys(index)[o.kept[a]] != Keys(index)[o.kept[b]])
      && (forall p :: 0 <= p < |index| ==> exists q :: q in o.kept && Keys(index)[q] == Keys(index)[p])
  {
    var keys := Keys(index);
    KeepLastKeysDistinct(keys);
    forall p | 0 <= p < |index|
      ensures exists q :: q in KeepLastPositions(keys) && keys[q] == keys[p]
    {
      KeepLastKeepsEveryKey(keys, p);
    }
  }

  /** The whole run of `main` over a folder listing */
  function Run(files: seq<InputFile>, opts: Options, fromRoman: string -> Option<nat>): Result<Outcome, RunError> {
    var index :- BuildIndex(files, f => FileTable(f, opts, fromRoman));
    Success(Deduplicate(index))
  }

  /** A folder without `.txt` files stops the run: there is no table to join */
  lemma NoTxtFilesStopsRun(files: seq<InputFile>, opts: Options, fromRoman: string -> Option<nat>)
    requires forall j :: 0 <= j < |files| ==> !IsTxt(files[j].name)
    ensures Run(files, opts, fromRoman) == Failure(NoInputTables)
  {
    NoTxtFiles(files);
  }

  lemma NoTxtFiles(files: seq<InputFile>)
    requires forall j :: 0 <= j < |files| ==> !IsTxt(files[j].name)
    ensures TxtFiles(files) == []
  {
    var ps := TxtPositions(files);
    if |ps| > 0 {
      FirstIn(ps);
      assert false;
    }
  }

  /** The first position of a non-empty list is one of its positions */
  lemma FirstIn(ps: seq<nat>)
    requires |ps| > 0
    ensures ps[0] in ps
  {
  }
}
