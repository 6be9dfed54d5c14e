# Retriever export parsing and deduplication, in Dafny

A model of `retriever/retriever.py`, the tool that turns bulk export files of a
media-monitoring service into one record per article and a deduplicated
document index. Each export file holds a free-text preamble, a table of
contents opened by the line `Innehållsförteckning:` and made of lines
`> Title, Source, Date`, and then the articles, separated by a line of 78 `=`
characters. Every article starts with a header (title, source and date, a
`Publicerat ...` line, sometimes a `Sida N` line), a blank line, and the body.

The model is a set of pure functions over strings and sequences, one module
per stage of the program:

- `Lines`: the file as `readlines()` gives it.
- `Toc`: the table-of-contents scan of `get_toc`. It is a loop with a marker
  flag and a counter of lines that do not start with `>`. Each entry is
  split at the last two commas of its line, because the pattern is greedy.
- `Articles`: `get_articles`. It slices the lines from the stop line on,
  splits at the separator and strips each piece.
- `Header`: `fix_header` and `extract_headers`.
- `Fields`: `check_title`, `extract_media` and `extract_pages`.
- `Cleaning`:
  - `extract_url`;
  - the patterns the program hands to `re.sub`: the URL sentence, the
    stop-word labels, the photo captions and the copyright notice;
  - the removal of the header from the body.
- `Corpus`: the per-article loop of `create_corpus` and the table it builds.
- `Naming`: the columns `main` derives for each row: `document_name`,
  `filename` and `id`.
- `Dedup`: the pandas operations on the key, `duplicated(keep=False)` and
  `drop_duplicates(keep='last')`, and the choice of row pairs that `log_diffs`
  compares.
- `Pipeline`: `main`. It covers every `.txt` file of the folder in listing
  order, the concatenated index, the duplicates, the compared pairs and the
  rows kept.

Every way the modelled stages can stop the run becomes a `Failure` carrying
a `RunError`. That covers a failed assertion (the title check, the leftover
`Retriever`), an `IndexError` (a `Sida` line without a space, an article
without a table-of-contents entry), a bad roman numeral, and pandas refusing
to build or join tables. Each such case is stated with its exact condition.
The stages left out below can also stop the run; those stops are named there.

Two behaviours worth stating plainly:

- `fix_header` drops every whitespace-only line before the first line whose
  stripped form starts with `Publicerat`. It keeps every line from there on,
  whatever the header length.
- `check_title` replaces each run of non-word characters with one space
  before it compares the titles.

Ids are written as three-digit fields, and a number from 1000 on takes more
digits. Two different rows can then get the same id, but only when a volume
and a row number have both reached 1000:
`Naming.IdCollidesPastThreeDigits` shows that `Id(100, 1001) == Id(1001, 1)`.
Ids stay distinct when both volumes, or both row numbers, are below 1000.
Rows of one file always have distinct ids. With a volume below 1000, an id
decodes back to the volume and the row.

## Model

| member | source | states |
|---|---|---|
| Lines.ReadLines | retriever/retriever.py:25-26 | The lines concatenate back to the file text. Every line is non-empty, and every line except the last ends in its newline, which is its only newline. |
| Text.Split | retriever/retriever.py:74 | `str.split` with a separator: the pieces are one more than the non-overlapping occurrences of the separator, joining them with the separator gives back the text, and no piece contains the separator. Each cut is at the leftmost occurrence left: no occurrence starts inside a piece, even one that runs into the separator after it. |
| Text.SplitJoinChar | retriever/retriever.py:290-302 | Splitting at a character gives back exactly the lines that were joined with it, when none of them contains that character |
| Text.Strip | retriever/retriever.py:75 | `str.strip` leaves no whitespace at either end and leaves an already-stripped text unchanged |
| Text.StripSlice | retriever/retriever.py:75 | `str.strip` keeps one contiguous piece of its input |
| Text.StripSubsequence | retriever/retriever.py:130 | Stripping only deletes characters |
| Text.IndexOf | retriever/retriever.py:130 | `str.find` gives the first position where the text occurs, and none when it does not occur |
| Text.ZFill | retriever/retriever.py:390-392 | `zfill` pads with leading zeros up to the width and ends with the original text |
| Text.ParseNatToString | retriever/retriever.py:390-392 | The decimal text of a number reads back as that number |
| Toc.LastTwoCommas | retriever/retriever.py:44 | The positions of the last two commas of the line. They exist exactly when the line has two commas, and no other comma follows the first of them. |
| Toc.ParseTocLineMatches | retriever/retriever.py:43-45 | A line yields an entry exactly when it starts with `>` and has at least two commas |
| Toc.ParseTocLineSplitsAtLastTwoCommas | retriever/retriever.py:44-46 | Title, source and date are the pieces around the last two commas, each with its leading whitespace dropped |
| Toc.FirstMarker | retriever/retriever.py:37-41 | The first line holding the marker: no earlier line holds it |
| Toc.FirstMarkerLine | retriever/retriever.py:37-41 | The same, stated on the lines themselves |
| Toc.CounterStep | retriever/retriever.py:35-52 | How the counter changes. Before the marker it stays 0. After it, a line not starting with `>` adds one (the marker line included), a recorded line resets it to 0, and any other `>` line leaves it unchanged. |
| Toc.Scan | retriever/retriever.py:35-55 | The loop returns the entries of the matching lines read, in order. It stops at the first line where the counter exceeds the limit, or at the end of the file. |
| Toc.GetToc | retriever/retriever.py:13-59 | The stop line is the first 1-based line at which the counter exceeds the limit, or the number of lines. The entries are those of the matching lines from the first marker line on (the marker line included), up to the stop line. |
| Toc.RecordedFromMatches | retriever/retriever.py:35-48 | Every entry comes from a matching line from the first marker line on (the marker line included), no later than the stop line, and carries that line's fields |
| Toc.RecordedFromTocLines | retriever/retriever.py:35-48 | Every entry comes from a line, from the first marker line on (the marker line included), that starts with `>` and has two commas, and carries that line's title, source and date |
| Toc.RecordedIncreasing | retriever/retriever.py:48 | The entries' line numbers increase strictly |
| Toc.RecordedComplete | retriever/retriever.py:43-48 | Every matching line from the first marker line on (the marker line included) and before the stop is recorded |
| Toc.NoMarkerNoEntries | retriever/retriever.py:34-59 | Without a marker line there are no entries and the stop line is the number of lines (0 for an empty file) |
| Toc.FixtureCounter | tests/retriver_test.py:10-33 | With the test file's line shapes, the scan does not stop on lines 1 to 10 and stops at line 11, having recorded lines 6 and 8 |
| Toc.GetTocFixture | tests/retriver_test.py:65-75 | On the test file, the scan gives the entries of lines 6 and 8 and stop line 11 |
| Toc.TocLineParses | retriever/retriever.py:44-46 | A line `> title, source, date` parses back into its title, source and date when none starts with whitespace or holds a newline and the source and date hold no comma |
| Toc.GetTocFixtureValues | tests/retriver_test.py:65-75 | On the test file, `get_toc` returns `Title One`, `Source One`, `2020-12-04 05:26` at line 6 and `Title Two`, `Source Two`, `2023-12-04 04:32` at line 8, with offset 11 |
| Articles.Blocks | retriever/retriever.py:73-74 | The pieces between separators, cut left to right: one more than the separators, joined with the separator they give back the text, and no separator starts inside a piece |
| Articles.GetArticles | retriever/retriever.py:62-77 | The articles are the stripped pieces of the text from the stop line on. There is one more article than there are separators, and no article contains a separator or surrounding whitespace. |
| Articles.NoSeparatorOneArticle | retriever/retriever.py:73-75 | A text without a separator is one article, the stripped text |
| Articles.ArticleDataFromOffset | retriever/retriever.py:73 | The slice `[offset - 1:]` is the text from line `offset` on. Offset 0 gives the last line only, as a negative index does in Python. An offset past the end gives nothing. |
| Header.HeaderText | retriever/retriever.py:230 | The text before the first blank line, stripped. It is one contiguous piece of the article and holds no blank line. |
| Header.HeaderLines | retriever/retriever.py:230 | The header lines. There is at least one, none contains a newline, and joined with newlines they give the header text. |
| Header.ExtractHeaders | retriever/retriever.py:219-236 | `extract_headers` returns at least one header line, none holding a newline. The header column is the header text itself, and splitting it at newlines gives the lines back. |
| Header.HeaderColumnLines | retriever/retriever.py:230-231 | The header lines joined with newlines split back into the same lines |
| Header.FirstPublicerat | retriever/retriever.py:296 | The first line whose stripped form starts with `Publicerat` |
| Header.DropBlank | retriever/retriever.py:299-300 | Only whitespace-only lines are dropped, and the rest keep their order |
| Header.KeepAllOnceFound | retriever/retriever.py:297-300 | Once the `Publicerat` line has been seen, every line is kept |
| Header.KeepLinesIsKept | retriever/retriever.py:295-300 | The loop keeps the non-blank lines before the first `Publicerat` line and every line from it on |
| Header.KeptIsSubsequence | retriever/retriever.py:295-300 | Header repair only deletes lines and keeps their order |
| Header.FixHeader | retriever/retriever.py:281-305 | The repaired text is the kept lines joined with newlines. The header length is the number of header lines of the repaired text, and it is at least 1. |
| Header.RepairedLines | retriever/retriever.py:290-302 | Splitting the repaired text gives back exactly the kept lines |
| Header.FixHeaderIdempotent | retriever/retriever.py:281-305 | Repairing a repaired article changes nothing |
| Header.NoPubliceratDropsAllBlank | retriever/retriever.py:295-300 | Without a `Publicerat` line, every whitespace-only line is dropped and nothing else is |
| Header.KeptFromPubliceratOn | retriever/retriever.py:296-300 | The lines from the first `Publicerat` line on are kept verbatim at the end |
| Fields.SubNonWordSquashed | retriever/retriever.py:214-215 | After runs of non-word characters become one space, only word characters and single spaces remain |
| Fields.SubNonWordOfSquashed | retriever/retriever.py:214-215 | A text that is already squashed is left unchanged |
| Fields.TitleKey | retriever/retriever.py:214-215 | The normalised title is squashed, trimmed and lower-case |
| Fields.TitleKeyIdempotent | retriever/retriever.py:214-215 | Normalising a normalised title changes nothing |
| Fields.CheckTitleWithoutWords | retriever/retriever.py:214-216 | A first line without word characters passes the check against any title |
| Fields.CheckTitleOwnTitle | retriever/retriever.py:206-216 | An article whose first line is its entry's title passes the check |
| Fields.CheckTitleUsesPrefix | retriever/retriever.py:216 | The check depends only on the first 25 characters of the normalised first line |
| Fields.ExtractMedia | retriever/retriever.py:266-278 | Only the last header line matters. It gives web when it starts with `Publicerat` and contains `webb`, print when it starts with `Publicerat` and does not, and none otherwise. |
| Fields.MediaOfLastLine | retriever/retriever.py:274 | Two headers with the same last line give the same media |
| Fields.MediaWebExample | tests/retriver_test.py:52-56 | The first article of the test file is a web article |
| Fields.MediaPrintExample | tests/retriver_test.py:52-56 | The second article of the test file is a print article |
| Fields.ExtractPages | retriever/retriever.py:253-263 | The page is taken only with at least three header lines whose second-to-last line starts with `Sida`. Such a line without a space is an error, and the token taken never contains a space. |
| Fields.PagesToken | retriever/retriever.py:261 | The page is the text between the first and second space of the second-to-last header line |
| Cleaning.SubAll | retriever/retriever.py:119 | Deleting every leftmost non-overlapping match only deletes characters, and without a match the text is unchanged |
| Cleaning.UrlPhrase | retriever/retriever.py:247 | A match starts with `Läs hela artikeln på ` or `Se webartikeln på ` |
| Cleaning.UrlMatch | retriever/retriever.py:119 | A URL match runs from the phrase to the end of its line |
| Cleaning.ExtractUrl | retriever/retriever.py:247-249 | There is a URL exactly when some phrase occurs, and the URL holds no newline |
| Cleaning.ExtractUrlAtPhrase | retriever/retriever.py:247-248 | The URL is the rest of the line after the phrase |
| Cleaning.ExtractUrlFirstPhrase | retriever/retriever.py:247-248 | With no phrase before it, the first phrase gives the rest of its line as the URL |
| Cleaning.NoUrlPhraseRemains | retriever/retriever.py:119 | No URL phrase remains after the URL sentence is removed |
| Cleaning.RemoveUrlDeletes | retriever/retriever.py:119 | Removing the URL sentence only deletes characters |
| Cleaning.UrlAbsentIffNothingRemoved | retriever/retriever.py:119 | Without a URL the removal only strips the text, and with one it shortens the text |
| Cleaning.LabelMatch | retriever/retriever.py:202 | There is a match exactly when the text starts with some label followed by a colon. The match is the first such label in the list, with its colon, and ends at that colon. |
| Cleaning.StopWordMatch | retriever/retriever.py:202 | The match is the label match plus one whitespace character when one follows it. When it ends right after the colon, no whitespace character comes next. |
| Cleaning.StopWordExample | retriever/retriever.py:202 | A label, its colon and one whitespace character are matched together |
| Cleaning.RemoveStopWordsDeletes | retriever/retriever.py:190-203 | Stop-word removal only deletes characters |
| Cleaning.RemoveStopWordsAbsent | retriever/retriever.py:200-202 | Without a label followed by a colon, the removal only strips the text |
| Cleaning.CaptionMatch | retriever/retriever.py:186 | A caption match is `Bild: `, then the longest name there, then `/TT` when it comes next, then one whitespace character when one comes next. It exists exactly when `Bild: ` is followed by a capitalised word. |
| Cleaning.NameMatchShape | retriever/retriever.py:186 | The name matched is capitalised words one space apart |
| Cleaning.NameMatchLongest | retriever/retriever.py:186 | The name matched is the longest one: no lower-case letter and no further space-and-capitalised-word follows it |
| Cleaning.CaptionExample | retriever/retriever.py:186 | `Bild: Anna Svensson/TT ` is one caption |
| Cleaning.RemoveCaptionsDeletes | retriever/retriever.py:176-187 | Caption removal only deletes characters |
| Cleaning.RemoveCaptionsAbsent | retriever/retriever.py:186 | Without `Bild: ` the removal only strips the text |
| Cleaning.DropFinalNewline | retriever/retriever.py:171 | `$` matches before one final newline: the text loses at most that newline |
| Cleaning.LastLineStart | retriever/retriever.py:171 | Where the last line begins: after the last newline, and no newline follows |
| Cleaning.CopyrightCutsLastLine | retriever/retriever.py:171 | Only the last line is cut, at its first `©`. Every earlier line and a final newline are unchanged. |
| Cleaning.RemoveCopyrightAbsent | retriever/retriever.py:157-173 | A last line without `©` leaves the text only stripped |
| Cleaning.RemoveCopyrightDeletes | retriever/retriever.py:157-173 | Copyright removal only deletes characters |
| Cleaning.RemoveHeaderAfterBlankLine | retriever/retriever.py:130 | With a blank line, the body is the stripped text after the first one |
| Cleaning.RemoveHeaderWithoutBlankLine | retriever/retriever.py:130 | Without a blank line, only the last character survives |
| Cleaning.RemoveHeaderKeepsAbsence | retriever/retriever.py:127-130 | Cutting the header only deletes characters and brings in no text that was absent before |
| Corpus.CleanDeletes | retriever/retriever.py:119-125 | All cleaning steps together only delete characters from the repaired article |
| Corpus.ProcessArticle | retriever/retriever.py:102-132 | The article stops the run on a title mismatch, on a `Sida` line without a space, or on a leftover `Retriever`, checked in that order. Each error occurs exactly when its check is the first to fail, and the article succeeds exactly when none fails. On success: the body is the cleaned article with its header cut off, keeps no `Retriever`, and is a deletion of the repaired article. The full text is the article. The header column splits into exactly as many lines as the header length. The media, pages and URL are those read from the repaired header and article, and there is a URL exactly when a phrase occurs. |
| Corpus.ProcessFrom | retriever/retriever.py:99-132 | The loop gives every article's columns, or the error of the first article that has no entry or fails |
| Corpus.BuildCorpus | retriever/retriever.py:99-148 | Success means every article has an entry and succeeds. Each row then pairs entry `k` with the columns of article `k`; entries without an article get none. Entries but no articles cannot form a table. Otherwise the error is that of the first failing article. |
| Corpus.CorpusBodiesClean | retriever/retriever.py:119-132 | In a built corpus every article has its body, which keeps no `Retriever` and is a deletion of the repaired article |
| Corpus.MoreArticlesThanEntries | retriever/retriever.py:99-102 | More articles than entries stop the run, at the first article without an entry |
| Naming.Slugify | retriever/retriever.py:373 | After runs of non-word characters become `_` and the text is lower-cased, only lower-case word characters remain |
| Naming.SlugifyOfSlug | retriever/retriever.py:373 | A text that is already a slug is unchanged |
| Naming.SourceSlug | retriever/retriever.py:373 | The source part of the name is the slug of the source |
| Naming.SourceSlugIdempotent | retriever/retriever.py:373 | Making a slug of a slug changes nothing |
| Naming.TitleSlug | retriever/retriever.py:377 | The title part is a slug of at most 60 characters that does not start with `_` |
| Naming.TitleSlugOfSlug | retriever/retriever.py:377 | A short slug without `_` at either end is its own title part |
| Naming.Without | retriever/retriever.py:382 | Deleting a character leaves none of it and only deletes |
| Naming.ReplaceCharIsWithout | retriever/retriever.py:382 | Replacing a character with nothing deletes every occurrence of it |
| Naming.DateCompactDeletes | retriever/retriever.py:382 | The date part is the date with its spaces, colons and dashes deleted, and nothing else. A date without them is unchanged. |
| Naming.LastSegment | retriever/retriever.py:390 | `rsplit(c)[-1]` is the end of the text after the last `c`, and holds no `c` |
| Naming.LastSegmentOf | retriever/retriever.py:390 | The last segment is whatever follows the last separator |
| Naming.DocumentName | retriever/retriever.py:373-385 | The name starts with the source part and `_`, and ends with `_` and the media |
| Naming.MediaOfDocumentName | retriever/retriever.py:379-385 | The media can be read back from the name, as its last `_` segment |
| Naming.FilenameInjective | retriever/retriever.py:386 | Two rows get the same file name exactly when they have the same document name |
| Naming.RomanSegmentOf | retriever/retriever.py:390 | A file named `..._<numeral>.txt` yields its numeral |
| Naming.Field | retriever/retriever.py:390-392 | A zero-padded number has three digits below 1000 and reads back as the number |
| Naming.Id | retriever/retriever.py:390-392 | The id is all digits, and six of them while volume and row stay below 1000 |
| Naming.IdDecodes | retriever/retriever.py:390-392 | With a volume below 1000, the first three digits of the id are the volume and the rest are the row, whatever the row |
| Naming.IdInjective | retriever/retriever.py:390-392 | Different volume and row pairs give different ids when both volumes, or both rows, are below 1000 |
| Naming.IdInjectiveInVolume | retriever/retriever.py:390-392 | Within one volume, different rows give different ids, whatever the numbers |
| Naming.IdCollidesPastThreeDigits | retriever/retriever.py:390-392 | Once a volume and a row number reach 1000, two different rows can share an id |
| Dedup.DuplicatedPositions | retriever/retriever.py:405-407 | The duplicates are exactly the rows whose key another row shares, in order |
| Dedup.TwinIffCountAtLeastTwo | retriever/retriever.py:405-407 | A row is a duplicate exactly when its key occurs at least twice |
| Dedup.SharedKeyMarksBoth | retriever/retriever.py:405-407 | Two rows with one key are both duplicates |
| Dedup.KeepLastPositions | retriever/retriever.py:422 | The rows kept are exactly those that no later row shares a key with, in their original order |
| Dedup.KeepLastKeysDistinct | retriever/retriever.py:422 | The kept rows have distinct keys |
| Dedup.KeepLastKeepsEveryKey | retriever/retriever.py:422 | Every key survives, in the last row that has it |
| Dedup.UniqueKeyKept | retriever/retriever.py:405-422 | Every row whose key is not duplicated is kept |
| Dedup.DroppedAreDuplicates | retriever/retriever.py:405-422 | Every dropped row is a duplicate, and a later row shares its key |
| Dedup.DiffPairs | retriever/retriever.py:321-334 | A pair is compared exactly when both rows take part and share the group key, and no row in between takes part in that group. A row takes part when its key and text occur nowhere else and its media is set. Pairs are ordered by their later row. |
| Dedup.TwoRowsOneDiff | tests/retriver_test.py:130-141 | Two rows of one group with different texts give one comparison |
| Dedup.IdenticalTextsNoDiff | retriever/retriever.py:321-323 | Two rows with the same key and text are not compared |
| Dedup.DiffsAmongDuplicates | retriever/retriever.py:321-334 | Comparing only the duplicated rows, then naming the pairs by index position, gives the pairs of comparing every row |
| Dedup.ComparedAmongDuplicates | retriever/retriever.py:321-326 | A duplicated row takes part among the duplicates exactly when it takes part among all rows |
| Dedup.ConsecutiveLifts | retriever/retriever.py:326-334 | Two duplicated rows follow each other in their group among the duplicates exactly when they do among all rows |
| Dedup.SameSortedPairs | retriever/retriever.py:326-334 | Two pair lists ordered by their later row and holding the same pairs are equal |
| Dedup.MissingMediaNoDiff | retriever/retriever.py:326 | Rows whose media is missing are not compared |
| Pipeline.FileCorpusNotEmpty | retriever/retriever.py:368-371 | A file that yields a table yields at least one row |
| Pipeline.NoEntriesStopsRun | retriever/retriever.py:99-100 | A file without table-of-contents entries stops the run at its first article |
| Pipeline.Documents | retriever/retriever.py:373-392 | One named row per corpus row, in order, each with the input file name |
| Pipeline.DocumentsReadBack | retriever/retriever.py:373-392 | Each row's media reads back from its name and its file name is the name plus `.txt`. With a volume below 1000, the id decodes to the volume and the row index for any number of rows, and has six digits when the file has at most 1000 rows |
| Pipeline.DocumentIdsDistinct | retriever/retriever.py:390-392 | Rows of one file always have distinct ids |
| Pipeline.NameRows | retriever/retriever.py:373-392 | A failed corpus passes its error on. A file with rows and an unreadable numeral stops the run, and one with a readable numeral names its rows with that volume. An empty table stays empty. |
| Pipeline.TxtPositions | retriever/retriever.py:364-366 | The positions in the listing whose file name ends in `.txt`, all of them, each once, in increasing order |
| Pipeline.TxtFiles | retriever/retriever.py:364-366 | The `.txt` files in listing order, each once and nothing else: file `a` read is the file at the `a`-th `.txt` position |
| Pipeline.Tables | retriever/retriever.py:364-395 | The tables of all files in order when every file succeeds, and otherwise the error of the first file that fails |
| Pipeline.Flatten | retriever/retriever.py:400-402 | The concatenated index is as long as all tables together and holds only their rows |
| Pipeline.FlattenAt | retriever/retriever.py:400-402 | Row `k` of table `j` is the index row whose `document_id` is the number of rows of the earlier tables plus `k` |
| Pipeline.FlattenConcat | retriever/retriever.py:400 | Concatenating two lists of tables gives the concatenation of their indexes |
| Pipeline.BuildIndex | retriever/retriever.py:364-402 | No `.txt` file means no table to join. Otherwise the index is the tables concatenated, or else the error of the first `.txt` file whose table fails. |
| Pipeline.Diffs | retriever/retriever.py:321-334 | Every compared pair is two duplicates in order with one key and a set media. Run on the rows `duplicated` marks, it compares exactly the pairs the comparison over the whole index would. |
| Pipeline.Deduplicate | retriever/retriever.py:405-422 | The duplicates are the rows whose key occurs at least twice, and the kept rows are the last of each key. Two index rows are compared exactly when they share a key with media, neither shares both key and text with another row, and no such row of that key lies between them. The pairs lie among the duplicates and are listed by their later row. |
| Pipeline.KeptKeysOnceEach | retriever/retriever.py:422 | After the drop each key occurs once, and every key of the index survives |
| Pipeline.NoTxtFilesStopsRun | retriever/retriever.py:364-402 | A folder without `.txt` files stops the run: there is no table to join |

## Left out

- Reading the folder and the files, creating folders, and writing the article files, the short-header folder, the diff files and the CSV files with their byte-order mark. Files arrive as a list of names and decoded texts, in listing order.
- Line ends: a file's text is taken as Python's universal-newline reading gives it, with every line ending in `\n` only. `\r\n` and `\r` in the file are not modelled.
- All logging, including the warnings for a short header and for a missing `©` on the last line. They never change a result.
- `pd.to_datetime(format="mixed")` and the `date_time` column (retriever/retriever.py:149). Nothing else in the program reads the column. A date pandas cannot parse stops the run there, and that stop is not modelled: such a table is a `Success` in the model.
- The `year` column and its `astype(int)` (retriever/retriever.py:387). Nothing else reads it. A date whose first four characters are not a number stops the run there, and that stop is not modelled either.
- The report of rows with missing values after the table is built. It only logs.
- The text of `difflib.ndiff`. Only which row pairs are compared is modelled.
- Dedup.DiffPairs: the order of comparisons across groups, which `groupby` sorts by key. Only the order within a group, which is what makes a pair consecutive, is stated.
- The `duplicates.csv` aggregation (`', '.join` and `count` over `url`). Its only use is the CSV file. With a missing URL among the duplicates the join raises and stops the run; that stop is not modelled, and such a run is a `Success` in the model.
- `roman.fromRoman`, a foreign library. It is a parameter: a partial function from text to number.
- The general regex engine. The five patterns the program uses are written out by hand. `\w` is ASCII letters and digits, the underscore, and the Latin-1 and Latin Extended letters and numerals. `\s` and `str.strip` use Python's whitespace set. `str.lower` is modelled for the ASCII and Latin-1 capitals.
- The stop-word string is treated as literal labels separated by `|`, not as a regular expression.
- `str.replace('.txt', '')` on the input file name is literal, as in pandas 2.
- Pipeline.Run: it carries no contract of its own. It is `BuildIndex` over the file tables followed by `Deduplicate`, and those two carry the contracts (with `NoTxtFilesStopsRun` for the empty folder).
- Pipeline.FileCorpus and Pipeline.FileTable: they carry no contract of their own. They are `GetToc`, `GetArticles`, `CreateCorpus` and `NameRows` composed. `FileCorpusNotEmpty` and `NoEntriesStopsRun` state what the composition adds.
- pandas pads the shorter rows of a table whose articles are fewer than its entries. This is modelled as rows without article columns. A table with entries but no articles cannot be built, and it stops the run. When such a padded row survives `drop_duplicates`, the write loop (retriever/retriever.py:427-430) hands its missing `article_text` to `f.write`, which raises a `TypeError` and stops the run. The write loop is not modelled, so that stop is not either, and such a run is a `Success` in the model.
