/** The lines of a file, as `file.readlines()` returns them. */
module Lines {
  import opened Wrappers
  import opened Text

  /** A line as `readlines()` yields it: a newline can only be its last character */
  predicate IsLine(l: string) {
    forall i :: 0 <= i < |l| - 1 ==> l[i] != '\n'
  }

  predicate AllLines(lines: seq<string>) {
    forall i :: 0 <= i < |lines| ==> IsLine(lines[i])
  }

  /**
   * `file.readlines()` on the decoded text of a file: every line but the last
   * ends in its newline, and together they are the text.
   */
  function ReadLines(text: string): (lines: seq<string>)
    ensures Concat(lines) == text
    ensures AllLines(lines)
    ensures forall i :: 0 <= i < |lines| ==> |lines[i]| > 0
    ensures forall i :: 0 <= i < |lines| - 1 ==> lines[i][|lines[i]| - 1] == '\n'
    decreases |text|
  {
    if |text| == 0 then []
    else match IndexOf(text, "\n")
      case None =>
        forall j | 0 <= j < |text|
          ensures text[j] != '\n'
        {
          OccursAtChar(text, '\n', j);
        }
        [text]
      case Some(k) =>
        OccursAtChar(text, '\n', k);
        forall j | 0 <= j < k
          ensures text[j] != '\n'
        {
          OccursAtChar(text, '\n', j);
        }
        var rest := ReadLines(text[k + 1..]);
        assert text[..k + 1] + text[k + 1..] == text;
        [text[..k + 1]] + rest
  }
}
