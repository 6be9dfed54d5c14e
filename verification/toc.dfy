/**
 * The table-of-contents scan of an export file (`get_toc`): after the first
 * line containing the marker, lines of the form `> title, source, date` are
 * recorded until too many consecutive lines fail to start with `>`.
 */
module Toc {
  import opened Wrappers
  import opened Text
  import opened Lines

  datatype TocEntry = TocEntry(title: string, source: string, date: string, lineNumber: nat)

  /** What `get_toc` returns: the entries and the 1-based line the scan stopped at */
  datatype TocScan = TocScan(entries: seq<TocEntry>, offset: nat)

  /** The line without its terminating newline */
  function Content(l: string): (r: string)
    requires IsLine(l)
    ensures |r| <= |l| && r == l[..|r|]
    ensures forall i :: 0 <= i < |r| ==> r[i] != '\n'
    ensures |r| < |l| ==> |r| == |l| - 1 && l[|r|] == '\n'
  {
    if |l| > 0 && l[|l| - 1] == '\n' then l[..|l| - 1] else l
  }

  predicate HasTwoCommas(s: string) {
    exists i, j :: 0 <= i < j < |s| && s[i] == ',' && s[j] == ','
  }

  /** The positions of the last two commas of `s` */
  function LastTwoCommas(s: string): (r: Option<(nat, nat)>)
    ensures r.Some? ==> r.value.0 < r.value.1 < |s| && s[r.value.0] == ',' && s[r.value.1] == ','
    ensures r.Some? ==> forall j :: r.value.0 < j < |s| && j != r.value.1 ==> s[j] != ','
    ensures r.Some? <==> HasTwoCommas(s)
  {
    match LastIndexOfChar(s, ',')
    case None => None
    case Some(c2) =>
      match LastIndexOfChar(s[..c2], ',')
      case None =>
        None
      case Some(c1) =>
        assert s[c1] == s[..c2][c1];
        Some((c1, c2))
  }

  /**
   * `re.match(r">\s*(.*),\s*(.*),\s*(.*)", line)`. The groups are greedy, so
   * the title runs to the second-to-last comma of the line and the source to
   * the last one; each `\s*` drops the following group's leading whitespace,
   * and `.` stops at the newline.
   */
  function ParseTocLine(l: string): (r: Option<(string, string, string)>)
    requires IsLine(l)
  {
    var body := Content(l);
    if !StartsWith(body, ">") then None
    else match LastTwoCommas(body)
      case None => None
      case Some(c) =>
        assert body[0] == '>';
        Some(EntryFields(body, c.0, c.1))
  }

  /** Title, source and date around the commas at `c1` and `c2`, each left-stripped */
  function EntryFields(body: string, c1: nat, c2: nat): (string, string, string)
    requires 0 < c1 < c2 < |body|
  {
    (StripLeft(body[1..c1]), StripLeft(body[c1 + 1..c2]), StripLeft(body[c2 + 1..]))
  }

  /** A line matches exactly when it starts with `>` and has at least two commas */
  lemma ParseTocLineMatches(l: string)
    requires IsLine(l)
    ensures ParseTocLine(l).Some? <==> StartsWith(l, ">") && HasTwoCommas(Content(l))
  {
    var body := Content(l);
    assert StartsWith(l, ">") <==> StartsWith(body, ">");
  }

  /** Two commas with no comma after the first of them but the second are the last two */
  lemma LastTwoCommasAt(body: string, p1: nat, p2: nat)
    requires p1 < p2 < |body| && body[p1] == ',' && body[p2] == ','
    requires forall j :: p1 < j < |body| && j != p2 ==> body[j] != ','
    ensures LastTwoCommas(body) == Some((p1, p2))
  {
    assert HasTwoCommas(body);
  }

  /** Title, source and date are the pieces around the last two commas, left-stripped */
  lemma ParseTocLineSplitsAtLastTwoCommas(l: string, t: string, s: string, d: string)
    requires IsLine(l)
    requires Content(l) == ">" + t + "," + s + "," + d
    requires forall i :: 0 <= i < |s| ==> s[i] != ','
    requires forall i :: 0 <= i < |d| ==> d[i] != ','
    ensures ParseTocLine(l) == Some((StripLeft(t), StripLeft(s), StripLeft(d)))
  {
    EntryCommas(t, s, d);
    EntryStartsWithArrow(t, s, d);
    ParseTocLineAt(l, 1 + |t|, 1 + |t| + 1 + |s|);
    EntryFieldsOf(t, s, d);
  }

  lemma EntryStartsWithArrow(t: string, s: string, d: string)
    ensures StartsWith(">" + t + "," + s + "," + d, ">")
  {
    var body := ">" + t + "," + s + "," + d;
    assert body[..1] == [body[0]];
  }

  /** The fields around the commas after the title and the source are the three pieces, left-stripped */
  lemma EntryFieldsOf(t: string, s: string, d: string)
    ensures EntryFields(">" + t + "," + s + "," + d, 1 + |t|, 1 + |t| + 1 + |s|)
      == (StripLeft(t), StripLeft(s), StripLeft(d))
  {
    EntryLayout(t, s, d);
  }

  /** The fields of a line are read around the commas `LastTwoCommas` finds */
  lemma ParseTocLineAt(l: string, p1: nat, p2: nat)
    requires IsLine(l)
    requires StartsWith(Content(l), ">") && LastTwoCommas(Content(l)) == Some((p1, p2))
    ensures p1 < p2 < |Content(l)|
    ensures 0 < p1 && ParseTocLine(l) == Some(EntryFields(Content(l), p1, p2))
  {
    assert Content(l)[0] == '>';
  }

  /** Where the pieces of `> t, s, d` lie */
  lemma EntryLayout(t: string, s: string, d: string)
    ensures var body := ">" + t + "," + s + "," + d;
      var p1 := 1 + |t|;
      var p2 := p1 + 1 + |s|;
      && |body| == p2 + 1 + |d|
      && body[0] == '>' && body[p1] == ',' && body[p2] == ','
      && body[1..p1] == t && body[p1 + 1..p2] == s && body[p2 + 1..] == d
  {
  }

  /** The commas after the title are the last two when source and date have none */
  lemma EntryCommas(t: string, s: string, d: string)
    requires forall i :: 0 <= i < |s| ==> s[i] != ','
    requires forall i :: 0 <= i < |d| ==> d[i] != ','
    ensures LastTwoCommas(">" + t + "," + s + "," + d) == Some((1 + |t|, 1 + |t| + 1 + |s|))
  {
    var body := ">" + t + "," + s + "," + d;
    var p1 := 1 + |t|;
    var p2 := p1 + 1 + |s|;
    EntryLayout(t, s, d);
    forall j | p1 < j < |body| && j != p2
      ensures body[j] != ','
    {
      if j < p2 {
        assert body[j] == body[p1 + 1..p2][j - p1 - 1];
      } else {
        assert body[j] == body[p2 + 1..][j - p2 - 1];
      }
    }
    LastTwoCommasAt(body, p1, p2);
  }

  // ---------------------------------------------------------------------------
  // What the loop tests on each line
  // ---------------------------------------------------------------------------

  /**
   * The three tests the loop of `get_toc` makes on a line: `toc_name in line`,
   * `line.startswith(">")` and the match of the entry pattern.
   */
  datatype LineFacts = LineFacts(hasMarker: bool, startsWithArrow: bool, fields: Option<(string, string, string)>)

  function Facts(line: string, marker: string): (f: LineFacts)
    requires IsLine(line)
    ensures f.fields.Some? ==> f.startsWithArrow
  {
    ParseTocLineMatches(line);
    LineFacts(Contains(line, marker), StartsWith(line, ">"), ParseTocLine(line))
  }

  function AllFacts(lines: seq<string>, marker: string): (fs: seq<LineFacts>)
    requires AllLines(lines)
    ensures |fs| == |lines|
    ensures forall k :: 0 <= k < |lines| ==> fs[k] == Facts(lines[k], marker)
  {
    seq(|lines|, k requires 0 <= k < |lines| => Facts(lines[k], marker))
  }

  /** Only a line starting with `>` can match the entry pattern */
  predicate Consistent(fs: seq<LineFacts>) {
    forall k :: 0 <= k < |fs| ==> fs[k].fields.Some? ==> fs[k].startsWithArrow
  }

  // ---------------------------------------------------------------------------
  // What the scan computes, stated line by line
  // ---------------------------------------------------------------------------

  /** The index of the first line containing the marker, or the number of lines */
  function FirstMarker(fs: seq<LineFacts>): (r: nat)
    ensures r <= |fs|
    ensures forall j :: 0 <= j < r ==> !fs[j].hasMarker
    ensures r < |fs| ==> fs[r].hasMarker
  {
    if |fs| == 0 || fs[0].hasMarker then 0 else 1 + FirstMarker(fs[1..])
  }

  /** Line `k` (0-based) is the first line containing the marker or comes after it */
  predicate MarkerSeen(fs: seq<LineFacts>, k: int) {
    FirstMarker(fs) <= k
  }

  /** Line `k` is a table-of-contents line the scan records */
  predicate IsTocMatch(fs: seq<LineFacts>, k: nat)
    requires k < |fs|
  {
    MarkerSeen(fs, k) && fs[k].fields.Some?
  }

  /** Line `k` is a line after the marker that does not start with `>` */
  predicate IsPlain(fs: seq<LineFacts>, k: nat)
    requires k < |fs|
  {
    MarkerSeen(fs, k) && !fs[k].startsWithArrow
  }

  /** One past the last recorded line among the first `n`, or 0 when there is none */
  function LastReset(fs: seq<LineFacts>, n: nat): (r: nat)
    requires n <= |fs|
    ensures r <= n
  {
    if n == 0 then 0
    else if IsTocMatch(fs, n - 1) then n
    else LastReset(fs, n - 1)
  }

  /** The number of plain lines among lines `lo` .. `hi - 1` */
  function CountPlain(fs: seq<LineFacts>, lo: nat, hi: nat): nat
    requires hi <= |fs|
    decreases hi
  {
    if hi <= lo then 0
    else CountPlain(fs, lo, hi - 1) + (if IsPlain(fs, hi - 1) then 1 else 0)
  }

  /** The counter once the first `n` lines are read: plain lines since the last recorded one */
  function NotMatched(fs: seq<LineFacts>, n: nat): nat
    requires n <= |fs|
  {
    CountPlain(fs, LastReset(fs, n), n)
  }

  /** Reading 1-based line `n` takes the counter above the limit */
  predicate StopsAt(fs: seq<LineFacts>, maxNotMatched: int, n: int) {
    1 <= n <= |fs| && MarkerSeen(fs, n - 1) && NotMatched(fs, n) > maxNotMatched
  }

  /** The entry recorded from 0-based line `k`, numbered from 1 */
  function EntryOf(fields: (string, string, string), k: nat): TocEntry {
    TocEntry(fields.0, fields.1, fields.2, k + 1)
  }

  /** The entries recorded from the first `n` lines */
  function Recorded(fs: seq<LineFacts>, n: nat): seq<TocEntry>
    requires n <= |fs|
  {
    if n == 0 then []
    else if IsTocMatch(fs, n - 1) then Recorded(fs, n - 1) + [EntryOf(fs[n - 1].fields.value, n - 1)]
    else Recorded(fs, n - 1)
  }

  lemma {:induction false} NoPlainBeforeMarker(fs: seq<LineFacts>, lo: nat, hi: nat)
    requires hi <= |fs|
    requires hi <= FirstMarker(fs)
    ensures CountPlain(fs, lo, hi) == 0
    decreases hi
  {
    if hi > lo {
      NoPlainBeforeMarker(fs, lo, hi - 1);
    }
  }

  /**
   * How reading line `n` (0-based) changes the counter: lines before the
   * marker leave it at 0; after it, a line not starting with `>` increments
   * it (the marker line included), a recorded line resets it and any other
   * `>` line leaves it unchanged.
   */
  lemma CounterStep(fs: seq<LineFacts>, n: nat)
    requires Consistent(fs) && n < |fs|
    ensures !MarkerSeen(fs, n) ==> NotMatched(fs, n + 1) == 0 && NotMatched(fs, n) == 0
    ensures MarkerSeen(fs, n) && !fs[n].startsWithArrow ==> NotMatched(fs, n + 1) == NotMatched(fs, n) + 1
    ensures MarkerSeen(fs, n) && fs[n].fields.Some? ==> NotMatched(fs, n + 1) == 0
    ensures MarkerSeen(fs, n) && fs[n].startsWithArrow && fs[n].fields.None? ==>
      NotMatched(fs, n + 1) == NotMatched(fs, n)
  {
    if !MarkerSeen(fs, n) {
      NoPlainBeforeMarker(fs, LastReset(fs, n + 1), n + 1);
      NoPlainBeforeMarker(fs, LastReset(fs, n), n);
    }
  }

  // ---------------------------------------------------------------------------
  // The scan, as the loop in `get_toc` runs it
  // ---------------------------------------------------------------------------

  /** The loop body on 0-based line `i` once the marker is seen: the new counter and entries */
  function Step(f: LineFacts, i: nat, notMatched: nat, acc: seq<TocEntry>): (nat, seq<TocEntry>) {
    if f.startsWithArrow then
      match f.fields
      case Some(g) => (0, acc + [EntryOf(g, i)])
      case None => (notMatched, acc)
    else (notMatched + 1, acc)
  }

  /**
   * The loop of `get_toc` from 0-based line `i` on, with its marker flag, its
   * counter and the entries recorded so far. The requires are the loop's
   * invariants.
   */
  function Scan(fs: seq<LineFacts>, maxNotMatched: int, i: nat, flag: bool,
                notMatched: nat, acc: seq<TocEntry>): (r: TocScan)
    requires Consistent(fs) && i <= |fs|
    requires flag <==> i > 0 && MarkerSeen(fs, i - 1)
    requires notMatched == NotMatched(fs, i)
    requires acc == Recorded(fs, i)
    requires forall n :: 1 <= n <= i ==> !StopsAt(fs, maxNotMatched, n)
    ensures i <= r.offset <= |fs|
    ensures r.entries == Recorded(fs, r.offset)
    ensures forall n :: 1 <= n < r.offset ==> !StopsAt(fs, maxNotMatched, n)
    ensures r.offset == |fs| || StopsAt(fs, maxNotMatched, r.offset)
    decreases |fs| - i
  {
    if i == |fs| then TocScan(acc, i)
    else
      var seen := flag || fs[i].hasMarker;
      CounterStep(fs, i);
      if !seen then Scan(fs, maxNotMatched, i + 1, false, notMatched, acc)
      else
        var next := Step(fs[i], i, notMatched, acc);
        if next.0 > maxNotMatched then TocScan(next.1, i + 1)
        else Scan(fs, maxNotMatched, i + 1, true, next.0, next.1)
  }

  /**
   * `get_toc(lines, marker, max_not_matched_lines)`: the entries recorded
   * before the scan stopped, and the stop line, which is the first 1-based
   * line where the counter exceeds the limit, or the number of lines.
   */
  function GetToc(lines: seq<string>, marker: string, maxNotMatched: int): (r: TocScan)
    requires AllLines(lines)
    ensures r.offset <= |lines|
    ensures r.entries == Recorded(AllFacts(lines, marker), r.offset)
    ensures forall n :: 1 <= n < r.offset ==> !StopsAt(AllFacts(lines, marker), maxNotMatched, n)
    ensures r.offset == |lines| || StopsAt(AllFacts(lines, marker), maxNotMatched, r.offset)
  {
    Scan(AllFacts(lines, marker), maxNotMatched, 0, false, 0, [])
  }

  // ---------------------------------------------------------------------------
  // Properties of the recorded entries
  // ---------------------------------------------------------------------------

  /** The first line containing the marker, or the number of lines */
  function FirstMarkerLine(lines: seq<string>, marker: string): (r: nat)
    requires AllLines(lines)
    ensures r <= |lines|
    ensures forall j :: 0 <= j < r ==> !Contains(lines[j], marker)
    ensures r < |lines| ==> Contains(lines[r], marker)
  {
    var fs := AllFacts(lines, marker);
    assert forall j :: 0 <= j < |lines| ==> fs[j].hasMarker == Contains(lines[j], marker);
    FirstMarker(fs)
  }

  /** Each of `es` carries the fields of a matching line after the first marker line, and before line `n` */
  predicate FromMatches(fs: seq<LineFacts>, es: seq<TocEntry>, n: nat) {
    forall i :: 0 <= i < |es| ==>
      && FirstMarker(fs) < es[i].lineNumber <= n
      && es[i].lineNumber <= |fs|
      && fs[es[i].lineNumber - 1].fields == Some((es[i].title, es[i].source, es[i].date))
  }

  lemma {:induction false} RecordedFromMatches(fs: seq<LineFacts>, n: nat)
    requires n <= |fs|
    ensures FromMatches(fs, Recorded(fs, n), n)
  {
    if n > 0 {
      RecordedFromMatches(fs, n - 1);
      var prev := Recorded(fs, n - 1);
      if IsTocMatch(fs, n - 1) {
        var r := prev + [EntryOf(fs[n - 1].fields.value, n - 1)];
        assert Recorded(fs, n) == r;
        assert forall i :: 0 <= i < |prev| ==> r[i] == prev[i];
      }
    }
  }

  /**
   * Every entry `e`, the `i`-th recorded, comes from a line after the first
   * marker line that starts with `>` and has two commas, and carries that
   * line's fields.
   */
  lemma RecordedFromTocLines(lines: seq<string>, marker: string, n: nat, i: nat, e: TocEntry)
    requires AllLines(lines) && n <= |lines|
    requires i < |Recorded(AllFacts(lines, marker), n)| && e == Recorded(AllFacts(lines, marker), n)[i]
    ensures FirstMarkerLine(lines, marker) < e.lineNumber <= n
    ensures StartsWith(lines[e.lineNumber - 1], ">")
    ensures HasTwoCommas(Content(lines[e.lineNumber - 1]))
    ensures ParseTocLine(lines[e.lineNumber - 1]) == Some((e.title, e.source, e.date))
  {
    RecordedEntry(AllFacts(lines, marker), n, i, e);
    TocLineOfEntry(lines, marker, n, e);
  }

  /** An entry carrying the fields of a line after the first marker line, in the terms of the lines */
  lemma TocLineOfEntry(lines: seq<string>, marker: string, n: nat, e: TocEntry)
    requires AllLines(lines) && n <= |lines|
    requires FirstMarker(AllFacts(lines, marker)) < e.lineNumber <= n
    requires AllFacts(lines, marker)[e.lineNumber - 1].fields == Some((e.title, e.source, e.date))
    ensures FirstMarkerLine(lines, marker) < e.lineNumber <= n
    ensures StartsWith(lines[e.lineNumber - 1], ">")
    ensures HasTwoCommas(Content(lines[e.lineNumber - 1]))
    ensures ParseTocLine(lines[e.lineNumber - 1]) == Some((e.title, e.source, e.date))
  {
    AllFactsFields(lines, marker, e.lineNumber - 1);
    FirstMarkerLineOfFacts(lines, marker);
  }

  /** Entry `i` carries the fields of a matching line after the first marker line */
  lemma RecordedEntry(fs: seq<LineFacts>, n: nat, i: nat, e: TocEntry)
    requires n <= |fs| && i < |Recorded(fs, n)| && e == Recorded(fs, n)[i]
    ensures FirstMarker(fs) < e.lineNumber <= n && e.lineNumber <= |fs|
    ensures fs[e.lineNumber - 1].fields == Some((e.title, e.source, e.date))
  {
    RecordedFromMatches(fs, n);
  }

  lemma FirstMarkerLineOfFacts(lines: seq<string>, marker: string)
    requires AllLines(lines)
    ensures FirstMarkerLine(lines, marker) == FirstMarker(AllFacts(lines, marker))
  {
  }

  lemma AllFactsFields(lines: seq<string>, marker: string, k: nat)
    requires AllLines(lines) && k < |lines|
    ensures AllFacts(lines, marker)[k].fields == ParseTocLine(lines[k])
    ensures ParseTocLine(lines[k]).Some? ==> StartsWith(lines[k], ">") && HasTwoCommas(Content(lines[k]))
  {
    ParseTocLineMatches(lines[k]);
  }

  /** The line numbers of `es` increase strictly and stay within the first `n` lines */
  predicate Increasing(es: seq<TocEntry>, n: nat) {
    && (forall i :: 0 <= i < |es| ==> es[i].lineNumber <= n)
    && (forall i, j :: 0 <= i < j < |es| ==> es[i].lineNumber < es[j].lineNumber)
  }

  /** The entries are in strictly increasing line order */
  lemma {:induction false} RecordedIncreasing(fs: seq<LineFacts>, n: nat)
    requires n <= |fs|
    ensures Increasing(Recorded(fs, n), n)
  {
    if n > 0 {
      RecordedIncreasing(fs, n - 1);
      var prev := Recorded(fs, n - 1);
      if IsTocMatch(fs, n - 1) {
        var r := prev + [EntryOf(fs[n - 1].fields.value, n - 1)];
        assert Recorded(fs, n) == r;
        assert forall i :: 0 <= i < |prev| ==> r[i] == prev[i];
      }
    }
  }

  /** Every table-of-contents line among the first `n` after the marker is recorded */
  lemma {:induction false} RecordedComplete(fs: seq<LineFacts>, n: nat, k: nat)
    requires k < n <= |fs|
    requires IsTocMatch(fs, k)
    ensures exists i :: 0 <= i < |Recorded(fs, n)| && Recorded(fs, n)[i].lineNumber == k + 1
  {
    var r := Recorded(fs, n);
    var prev := Recorded(fs, n - 1);
    if k == n - 1 {
      assert r[|r| - 1].lineNumber == k + 1;
    } else {
      RecordedComplete(fs, n - 1, k);
      var i :| 0 <= i < |prev| && prev[i].lineNumber == k + 1;
      assert r[i] == prev[i];
    }
  }

  /** Without a marker line nothing is recorded and every line is read */
  lemma NoMarkerNoEntries(lines: seq<string>, marker: string, maxNotMatched: int)
    requires AllLines(lines)
    requires forall j :: 0 <= j < |lines| ==> !Contains(lines[j], marker)
    ensures GetToc(lines, marker, maxNotMatched) == TocScan([], |lines|)
  {
    var fs := AllFacts(lines, marker);
    var r := GetToc(lines, marker, maxNotMatched);
    assert FirstMarker(fs) == |fs|;
    NoEntriesWithoutMarker(fs, r.offset);
  }

  lemma {:induction false} NoEntriesWithoutMarker(fs: seq<LineFacts>, n: nat)
    requires n <= |fs| <= FirstMarker(fs)
    ensures Recorded(fs, n) == []
  {
    if n > 0 {
      NoEntriesWithoutMarker(fs, n - 1);
    }
  }

  // ---------------------------------------------------------------------------
  // The shape of the export file the tests use
  // ---------------------------------------------------------------------------

  /** The first marker line is the one before which no line has the marker */
  lemma FirstMarkerIs(fs: seq<LineFacts>, m: nat)
    requires m < |fs| && fs[m].hasMarker
    requires forall j :: 0 <= j < m ==> !fs[j].hasMarker
    ensures FirstMarker(fs) == m
  {
  }

  /**
   * Three lines before the marker line, a blank line, an entry, a blank
   * line, an entry and three lines of article text: the counter reaches 3 on
   * line 11, where the scan stops, having recorded lines 6 and 8.
   */
  lemma FixtureCounter(fs: seq<LineFacts>, g1: (string, string, string), g2: (string, string, string))
    requires |fs| >= 11 && Consistent(fs)
    requires !fs[0].hasMarker && !fs[1].hasMarker && !fs[2].hasMarker && fs[3].hasMarker
    requires !fs[3].startsWithArrow && !fs[4].startsWithArrow && !fs[6].startsWithArrow
    requires !fs[8].startsWithArrow && !fs[9].startsWithArrow && !fs[10].startsWithArrow
    requires fs[5].fields == Some(g1) && fs[7].fields == Some(g2)
    ensures forall n :: 1 <= n <= 10 ==> !StopsAt(fs, 2, n)
    ensures StopsAt(fs, 2, 11)
    ensures Recorded(fs, 11) == [EntryOf(g1, 5), EntryOf(g2, 7)]
  {
    FirstMarkerIs(fs, 3);
    CounterStep(fs, 0);
    CounterStep(fs, 1);
    CounterStep(fs, 2);
    CounterStep(fs, 3);
    CounterStep(fs, 4);
    CounterStep(fs, 5);
    CounterStep(fs, 6);
    CounterStep(fs, 7);
    CounterStep(fs, 8);
    CounterStep(fs, 9);
    CounterStep(fs, 10);
    assert NotMatched(fs, 11) == 3;
    assert fs[3].fields.None? && fs[4].fields.None? && fs[6].fields.None?;
    assert fs[8].fields.None? && fs[9].fields.None? && fs[10].fields.None?;
    assert Recorded(fs, 3) == [] by {
      assert Recorded(fs, 1) == [];
      assert Recorded(fs, 2) == [];
    }
    assert Recorded(fs, 5) == [] by {
      assert Recorded(fs, 4) == [];
    }
    assert Recorded(fs, 6) == [EntryOf(g1, 5)];
    assert Recorded(fs, 7) == [EntryOf(g1, 5)];
    assert Recorded(fs, 8) == [EntryOf(g1, 5), EntryOf(g2, 7)];
    assert Recorded(fs, 9) == Recorded(fs, 8);
    assert Recorded(fs, 10) == Recorded(fs, 8);
  }

  /** The fixture: entries from lines 6 and 8, and the scan stops at line 11 */
  lemma GetTocFixture(lines: seq<string>, marker: string, g1: (string, string, string), g2: (string, string, string))
    requires AllLines(lines) && |lines| >= 11
    requires !Contains(lines[0], marker) && !Contains(lines[1], marker) && !Contains(lines[2], marker)
    requires Contains(lines[3], marker)
    requires !StartsWith(lines[3], ">") && !StartsWith(lines[4], ">") && !StartsWith(lines[6], ">")
    requires !StartsWith(lines[8], ">") && !StartsWith(lines[9], ">") && !StartsWith(lines[10], ">")
    requires ParseTocLine(lines[5]) == Some(g1) && ParseTocLine(lines[7]) == Some(g2)
    ensures GetToc(lines, marker, 2) == TocScan([TocEntry(g1.0, g1.1, g1.2, 6), TocEntry(g2.0, g2.1, g2.2, 8)], 11)
  {
    var fs := AllFacts(lines, marker);
    FixtureFacts(lines, marker, fs);
    FixtureCounter(fs, g1, g2);
    var r := GetToc(lines, marker, 2);
    StopLineIs(fs, 2, r.offset, 11);
  }

  /** A table-of-contents line `> title, source, date` */
  function TocLine(t: string, s: string, d: string): string {
    "> " + t + ", " + s + ", " + d + "\n"
  }

  /**
   * A written line parses back into its title, source and date when none of
   * them starts with whitespace or holds a newline, and the source and date
   * hold no comma
   */
  lemma TocLineParses(t: string, s: string, d: string)
    requires |t| > 0 && |s| > 0 && |d| > 0 && !IsSpace(t[0]) && !IsSpace(s[0]) && !IsSpace(d[0])
    requires forall i :: 0 <= i < |t| ==> t[i] != '\n'
    requires forall i :: 0 <= i < |s| ==> s[i] != '\n' && s[i] != ','
    requires forall i :: 0 <= i < |d| ==> d[i] != '\n' && d[i] != ','
    ensures IsLine(TocLine(t, s, d))
    ensures ParseTocLine(TocLine(t, s, d)) == Some((t, s, d))
  {
    var l := TocLine(t, s, d);
    var body := ">" + (" " + t) + "," + (" " + s) + "," + (" " + d);
    assert l == body + "\n";
    assert IsLine(l) by {
      forall i | 0 <= i < |l| - 1
        ensures l[i] != '\n'
      {
        assert l[i] == body[i];
      }
    }
    assert Content(l) == body;
    ParseTocLineSplitsAtLastTwoCommas(l, " " + t, " " + s, " " + d);
    StripLeftOneSpace(t);
    StripLeftOneSpace(s);
    StripLeftOneSpace(d);
  }

  /** Left-stripping one space before a text that does not start with whitespace */
  lemma StripLeftOneSpace(w: string)
    requires |w| > 0 && !IsSpace(w[0])
    ensures StripLeft(" " + w) == w
  {
    assert (" " + w)[1..] == w;
  }

  /** The test file's first table-of-contents line parses into the values the test expects */
  lemma FixtureLineOneParses()
    ensures IsLine(TocLine("Title One", "Source One", "2020-12-04 05:26"))
    ensures ParseTocLine(TocLine("Title One", "Source One", "2020-12-04 05:26")) == Some(("Title One", "Source One", "2020-12-04 05:26"))
  {
    TocLineParses("Title One", "Source One", "2020-12-04 05:26");
  }

  /** The test file's second table-of-contents line parses into the values the test expects */
  lemma FixtureLineTwoParses()
    ensures IsLine(TocLine("Title Two", "Source Two", "2023-12-04 04:32"))
    ensures ParseTocLine(TocLine("Title Two", "Source Two", "2023-12-04 04:32")) == Some(("Title Two", "Source Two", "2023-12-04 04:32"))
  {
    TocLineParses("Title Two", "Source Two", "2023-12-04 04:32");
  }

  /**
   * On the test file, with its two table-of-contents lines at lines 6 and 8,
   * `get_toc` returns the entries the test expects, with their values, and offset 11
   */
  lemma GetTocFixtureValues(lines: seq<string>, marker: string)
    requires AllLines(lines) && |lines| >= 11
    requires !Contains(lines[0], marker) && !Contains(lines[1], marker) && !Contains(lines[2], marker)
    requires Contains(lines[3], marker)
    requires !StartsWith(lines[3], ">") && !StartsWith(lines[4], ">") && !StartsWith(lines[6], ">")
    requires !StartsWith(lines[8], ">") && !StartsWith(lines[9], ">") && !StartsWith(lines[10], ">")
    requires lines[5] == TocLine("Title One", "Source One", "2020-12-04 05:26")
    requires lines[7] == TocLine("Title Two", "Source Two", "2023-12-04 04:32")
    ensures GetToc(lines, marker, 2) == TocScan([
      TocEntry("Title One", "Source One", "2020-12-04 05:26", 6),
      TocEntry("Title Two", "Source Two", "2023-12-04 04:32", 8)], 11)
  {
    FixtureLineOneParses();
    FixtureLineTwoParses();
    GetTocFixture(lines, marker, ("Title One", "Source One", "2020-12-04 05:26"), ("Title Two", "Source Two", "2023-12-04 04:32"));
  }

  /** The facts of each line of the fixture */
  lemma FixtureFacts(lines: seq<string>, marker: string, fs: seq<LineFacts>)
    requires AllLines(lines) && |lines| >= 11 && fs == AllFacts(lines, marker)
    ensures Consistent(fs)
    ensures forall k :: 0 <= k < 11 ==> fs[k].hasMarker == Contains(lines[k], marker)
    ensures forall k :: 0 <= k < 11 ==> fs[k].startsWithArrow == StartsWith(lines[k], ">")
    ensures forall k :: 0 <= k < 11 ==> fs[k].fields == ParseTocLine(lines[k])
  {
  }

  /** Only one line can be the first at which the scan stops */
  lemma StopLineIs(fs: seq<LineFacts>, maxNotMatched: int, offset: nat, n: nat)
    requires offset <= |fs| && n <= |fs|
    requires forall k :: 1 <= k < offset ==> !StopsAt(fs, maxNotMatched, k)
    requires offset == |fs| || StopsAt(fs, maxNotMatched, offset)
    requires forall k :: 1 <= k < n ==> !StopsAt(fs, maxNotMatched, k)
    requires StopsAt(fs, maxNotMatched, n)
    ensures offset == n
  {
  }
}
