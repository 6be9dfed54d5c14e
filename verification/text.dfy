/**
 * The string operations of Python's `str` and of the few regular-expression
 * classes the retriever relies on, over `string == seq<char>`.
 */
module Text {
  import opened Wrappers

  // ---------------------------------------------------------------------------
  // Character classes
  // ---------------------------------------------------------------------------

  /** Python's `str.isspace`: what `\s` matches and what `str.strip()` removes */
  predicate IsSpace(c: char) {
    ('\t' <= c <= '\r') || ('\U{1C}' <= c <= ' ') || c == '\U{85}' || c == '\U{A0}'
    || c == '\U{1680}' || ('\U{2000}' <= c <= '\U{200A}') || c == '\U{2028}' || c == '\U{2029}'
    || c == '\U{202F}' || c == '\U{205F}' || c == '\U{3000}'
  }

  /**
   * A character `\w` matches: ASCII letters and digits, the underscore, and the
   * Latin-1 and Latin Extended letters and numerals. `\W` is its complement.
   */
  predicate IsWordChar(c: char) {
    ('a' <= c <= 'z') || ('A' <= c <= 'Z') || ('0' <= c <= '9') || c == '_'
    || c == '\U{AA}' || c == '\U{B2}' || c == '\U{B3}' || c == '\U{B5}' || c == '\U{B9}'
    || c == '\U{BA}' || ('\U{BC}' <= c <= '\U{BE}')
    || ('\U{C0}' <= c <= '\U{24F}' && c != '\U{D7}' && c != '\U{F7}')
  }

  /** `str.lower()` on one character, for the ASCII and Latin-1 capitals */
  function Lower(c: char): (r: char)
    ensures IsWordChar(r) <==> IsWordChar(c)
    ensures IsSpace(r) <==> IsSpace(c)
    ensures !('A' <= r <= 'Z')
  {
    if 'A' <= c <= 'Z' || ('\U{C0}' <= c <= '\U{DE}' && c != '\U{D7}') then (c as int + 32) as char else c
  }

  function LowerString(s: string): (r: string)
    ensures |r| == |s|
    ensures forall i :: 0 <= i < |s| ==> r[i] == Lower(s[i])
  {
    if |s| == 0 then "" else [Lower(s[0])] + LowerString(s[1..])
  }

  lemma LowerIdempotent(c: char)
    ensures Lower(Lower(c)) == Lower(c)
  {
  }

  // ---------------------------------------------------------------------------
  // Stripping whitespace
  // ---------------------------------------------------------------------------

  /** `str.lstrip()`: the suffix left after dropping leading whitespace */
  function StripLeft(s: string): (r: string)
    ensures |r| <= |s| && r == s[|s| - |r|..]
    ensures forall i :: 0 <= i < |s| - |r| ==> IsSpace(s[i])
    ensures |r| == 0 || !IsSpace(r[0])
  {
    s[LeadingSpace(s)..]
  }

  /** The number of whitespace characters `s` starts with */
  function LeadingSpace(s: string): (n: nat)
    ensures n <= |s|
    ensures forall i :: 0 <= i < n ==> IsSpace(s[i])
    ensures n == |s| || !IsSpace(s[n])
  {
    if |s| > 0 && IsSpace(s[0]) then 1 + LeadingSpace(s[1..]) else 0
  }

  /** `str.rstrip()`: the prefix left after dropping trailing whitespace */
  function StripRight(s: string): (r: string)
    ensures |r| <= |s| && r == s[..|r|]
    ensures forall i :: |r| <= i < |s| ==> IsSpace(s[i])
    ensures |r| == 0 || !IsSpace(r[|r| - 1])
  {
    if |s| > 0 && IsSpace(s[|s| - 1]) then StripRight(s[..|s| - 1]) else s
  }

  /** Neither end of `s` is whitespace */
  predicate IsTrimmed(s: string) {
    |s| == 0 || (!IsSpace(s[0]) && !IsSpace(s[|s| - 1]))
  }

  /** `str.strip()` */
  function Strip(s: string): (r: string)
    ensures IsTrimmed(r)
    ensures IsTrimmed(s) ==> r == s
  {
    StripRight(StripLeft(s))
  }

  /** `str.strip()` only deletes */
  lemma StripSubsequence(s: string)
    ensures IsSubsequence(Strip(s), s)
  {
    var l := StripLeft(s);
    var r := StripRight(l);
    SubsequenceOfSlice(l, 0, |r|);
    assert l[0..|r|] == r;
    SubsequenceOfSlice(s, |s| - |l|, |s|);
    assert s[|s| - |l|..|s|] == l;
    SubsequenceTransitive(r, l, s);
  }

  /** Where the text `str.strip()` keeps begins */
  function StripStart(s: string): nat {
    |s| - |StripLeft(s)|
  }

  /** `str.strip()` keeps one contiguous piece of its input */
  lemma StripSlice(s: string)
    ensures StripStart(s) + |Strip(s)| <= |s|
    ensures Strip(s) == s[StripStart(s)..StripStart(s) + |Strip(s)|]
  {
    var l := StripLeft(s);
    var r := StripRight(l);
    assert r == l[..|r|];
    assert l == s[|s| - |l|..];
  }

  /** Leading whitespace never survives `str.strip()` */
  lemma StripSkipsLeadingSpace(w: string, s: string)
    requires forall i :: 0 <= i < |w| ==> IsSpace(w[i])
    ensures Strip(w + s) == Strip(s)
  {
    if |w| > 0 {
      assert (w + s)[1..] == w[1..] + s;
      StripSkipsLeadingSpace(w[1..], s);
    } else {
      assert w + s == s;
    }
  }

  /** `str.strip(c)` for a single character `c` */
  function StripChar(s: string, c: char): (r: string)
    ensures |r| == 0 || (r[0] != c && r[|r| - 1] != c)
    ensures IsSubsequence(r, s)
    decreases |s|
  {
    if |s| > 0 && s[0] == c then
      SubsequenceOfSuffix(StripChar(s[1..], c), s[1..], [s[0]]);
      assert [s[0]] + s[1..] == s;
      StripChar(s[1..], c)
    else if |s| > 0 && s[|s| - 1] == c then
      SubsequenceOfPrefix(StripChar(s[..|s| - 1], c), s[..|s| - 1], [s[|s| - 1]]);
      assert s[..|s| - 1] + [s[|s| - 1]] == s;
      StripChar(s[..|s| - 1], c)
    else
      SubsequenceReflexive(s);
      s
  }

  // ---------------------------------------------------------------------------
  // Deletion: `a` is what is left of `b` after deleting some characters
  // ---------------------------------------------------------------------------

  predicate IsSubsequence<T(==)>(a: seq<T>, b: seq<T>)
    decreases |b|
  {
    |a| == 0 || (|b| > 0 && ((a[0] == b[0] && IsSubsequence(a[1..], b[1..])) || IsSubsequence(a, b[1..])))
  }

  lemma {:induction false} SubsequenceReflexive<T>(a: seq<T>)
    ensures IsSubsequence(a, a)
    decreases |a|
  {
    if |a| > 0 {
      SubsequenceReflexive(a[1..]);
    }
  }

  lemma {:induction false} SubsequenceTransitive<T>(a: seq<T>, b: seq<T>, c: seq<T>)
    requires IsSubsequence(a, b) && IsSubsequence(b, c)
    ensures IsSubsequence(a, c)
    decreases |a| + |b| + |c|
  {
    if |a| == 0 {
    } else if IsSubsequence(b, c[1..]) {
      SubsequenceTransitive(a, b, c[1..]);
    } else {
      assert b[0] == c[0] && IsSubsequence(b[1..], c[1..]);
      if a[0] == b[0] && IsSubsequence(a[1..], b[1..]) {
        SubsequenceTransitive(a[1..], b[1..], c[1..]);
      } else {
        SubsequenceTransitive(a, b[1..], c[1..]);
      }
    }
  }

  /** Deleting a whole prefix */
  lemma {:induction false} SubsequenceOfSuffix<T>(a: seq<T>, b: seq<T>, x: seq<T>)
    requires IsSubsequence(a, b)
    ensures IsSubsequence(a, x + b)
    decreases |x|
  {
    if |x| > 0 {
      assert (x + b)[1..] == x[1..] + b;
      SubsequenceOfSuffix(a, b, x[1..]);
    } else {
      assert x + b == b;
    }
  }

  /** Deleting a whole suffix */
  lemma {:induction false} SubsequenceOfPrefix<T>(a: seq<T>, b: seq<T>, y: seq<T>)
    requires IsSubsequence(a, b)
    ensures IsSubsequence(a, b + y)
    decreases |b|
  {
    if |a| > 0 {
      assert (b + y)[1..] == b[1..] + y;
      if a[0] == b[0] && IsSubsequence(a[1..], b[1..]) {
        SubsequenceOfPrefix(a[1..], b[1..], y);
      } else {
        SubsequenceOfPrefix(a, b[1..], y);
      }
    }
  }

  /** Deletions in two adjacent pieces are a deletion in their concatenation */
  lemma {:induction false} SubsequenceConcat<T>(a1: seq<T>, b1: seq<T>, a2: seq<T>, b2: seq<T>)
    requires IsSubsequence(a1, b1) && IsSubsequence(a2, b2)
    ensures IsSubsequence(a1 + a2, b1 + b2)
    decreases |b1|
  {
    if |a1| == 0 {
      assert a1 + a2 == a2;
      SubsequenceOfSuffix(a2, b2, b1);
    } else {
      assert (b1 + b2)[1..] == b1[1..] + b2;
      if a1[0] == b1[0] && IsSubsequence(a1[1..], b1[1..]) {
        assert (a1 + a2)[1..] == a1[1..] + a2;
        SubsequenceConcat(a1[1..], b1[1..], a2, b2);
      } else {
        SubsequenceConcat(a1, b1[1..], a2, b2);
      }
    }
  }

  lemma SubsequenceOfSlice<T>(s: seq<T>, i: nat, j: nat)
    requires i <= j <= |s|
    ensures IsSubsequence(s[i..j], s)
  {
    SubsequenceReflexive(s[i..j]);
    SubsequenceOfSuffix(s[i..j], s[i..j], s[..i]);
    SubsequenceOfPrefix(s[i..j], s[..i] + s[i..j], s[j..]);
    assert s[..i] + s[i..j] + s[j..] == s;
  }

  /** Deleting a piece from the middle */
  lemma SubsequenceCut<T>(x: seq<T>, y: seq<T>, z: seq<T>)
    ensures IsSubsequence(x + z, x + y + z)
  {
    SubsequenceReflexive(z);
    SubsequenceOfSuffix(z, z, y);
    SubsequenceReflexive(x);
    SubsequenceConcat(x, x, z, y + z);
    assert x + (y + z) == x + y + z;
  }

  /** Keeping the first element and deleting from the rest */
  lemma SubsequenceCons<T>(x: T, a: seq<T>, b: seq<T>)
    requires IsSubsequence(a, b)
    ensures IsSubsequence([x] + a, [x] + b)
  {
    assert ([x] + a)[1..] == a;
    assert ([x] + b)[1..] == b;
  }

  /** Deletion never makes a text longer */
  lemma {:induction false} SubsequenceLength<T>(a: seq<T>, b: seq<T>)
    requires IsSubsequence(a, b)
    ensures |a| <= |b|
    decreases |b|
  {
    if |a| > 0 {
      if a[0] == b[0] && IsSubsequence(a[1..], b[1..]) {
        SubsequenceLength(a[1..], b[1..]);
      } else {
        SubsequenceLength(a, b[1..]);
      }
    }
  }

  // ---------------------------------------------------------------------------
  // Searching
  // ---------------------------------------------------------------------------

  /** `t` occurs in `s` starting at index `i` */
  predicate OccursAt<T(==)>(s: seq<T>, t: seq<T>, i: int) {
    0 <= i && i + |t| <= |s| && s[i..i + |t|] == t
  }

  /** `s.find(t, i)`, as an option */
  function IndexOfFrom(s: string, t: string, i: nat): (r: Option<nat>)
    requires i <= |s|
    ensures r.Some? ==> i <= r.value && OccursAt(s, t, r.value)
    ensures r.Some? ==> forall j :: i <= j < r.value ==> !OccursAt(s, t, j)
    ensures r.None? ==> forall j :: i <= j ==> !OccursAt(s, t, j)
    decreases |s| - i
  {
    if OccursAt(s, t, i) then Some(i)
    else if i + |t| >= |s| then None
    else IndexOfFrom(s, t, i + 1)
  }

  /** `s.find(t)`, as an option: the first occurrence */
  function IndexOf(s: string, t: string): (r: Option<nat>)
    ensures r.Some? ==> OccursAt(s, t, r.value) && forall j :: 0 <= j < r.value ==> !OccursAt(s, t, j)
    ensures r.None? ==> forall j :: !OccursAt(s, t, j)
  {
    IndexOfFrom(s, t, 0)
  }

  /** An occurrence with none before it is what `IndexOf` finds */
  lemma IndexOfIsFirst(s: string, t: string, k: nat)
    requires OccursAt(s, t, k)
    requires forall j :: 0 <= j < k ==> !OccursAt(s, t, j)
    ensures IndexOf(s, t) == Some(k)
  {
  }

  /** `t in s` */
  predicate Contains(s: string, t: string) {
    IndexOf(s, t).Some?
  }

  lemma ContainsOccurrence(s: string, t: string)
    ensures Contains(s, t) <==> exists j :: OccursAt(s, t, j)
  {
  }

  /** An occurrence inside a slice is an occurrence in the whole */
  lemma OccursInSlice(s: string, t: string, a: nat, b: nat, j: int)
    requires a <= b <= |s|
    requires OccursAt(s[a..b], t, j)
    ensures OccursAt(s, t, a + j)
  {
    forall k | 0 <= k < |t|
      ensures s[a + j + k] == t[k]
    {
      assert s[a..b][j..j + |t|][k] == t[k];
    }
    assert s[a + j..a + j + |t|] == t;
  }

  /** A piece of a text that lacks `t` lacks `t` too */
  lemma NotContainsSlice(s: string, t: string, a: nat, b: nat)
    requires a <= b <= |s|
    requires !Contains(s, t)
    ensures !Contains(s[a..b], t)
  {
    if Contains(s[a..b], t) {
      OccursInSlice(s, t, a, b, IndexOf(s[a..b], t).value);
      assert false;
    }
  }

  /** A single-character pattern occurs exactly where that character is */
  lemma OccursAtChar(s: string, c: char, j: int)
    ensures OccursAt(s, [c], j) <==> 0 <= j < |s| && s[j] == c
  {
    if 0 <= j < |s| {
      assert s[j..j + 1] == [s[j]];
    }
  }

  /** `s.startswith(p)` */
  predicate StartsWith(s: string, p: string) {
    |p| <= |s| && s[..|p|] == p
  }

  /** The last index of `c` in `s` */
  function LastIndexOfChar(s: string, c: char): (r: Option<nat>)
    ensures r.Some? ==> r.value < |s| && s[r.value] == c && forall j :: r.value < j < |s| ==> s[j] != c
    ensures r.None? ==> forall j :: 0 <= j < |s| ==> s[j] != c
  {
    if |s| == 0 then None
    else if s[|s| - 1] == c then Some(|s| - 1)
    else LastIndexOfChar(s[..|s| - 1], c)
  }

  /** `s.split(sep, maxsplit=1)[0]`: the text before the first `sep` */
  function BeforeFirst(s: string, sep: string): (r: string)
    requires |sep| > 0
    ensures |r| <= |s| && r == s[..|r|]
    ensures forall j :: 0 <= j < |r| ==> !OccursAt(s, sep, j)
    ensures OccursAt(s, sep, |r|) || |r| == |s|
  {
    match IndexOf(s, sep)
    case Some(k) => s[..k]
    case None => s
  }

  /** The text before the first `sep` holds no `sep` */
  lemma BeforeFirstLacks(s: string, sep: string)
    requires |sep| > 0
    ensures !Contains(BeforeFirst(s, sep), sep)
  {
    var r := BeforeFirst(s, sep);
    if Contains(r, sep) {
      var j := IndexOf(r, sep).value;
      assert s[0..|r|] == r;
      OccursInSlice(s, sep, 0, |r|, j);
      assert false;
    }
  }

  // ---------------------------------------------------------------------------
  // Splitting and joining
  // ---------------------------------------------------------------------------

  /** `sep.join(ps)` */
  function Join(ps: seq<string>, sep: string): string {
    if |ps| == 0 then "" else if |ps| == 1 then ps[0] else ps[0] + sep + Join(ps[1..], sep)
  }

  /** `"".join(ps)` */
  function Concat(ps: seq<string>): string {
    if |ps| == 0 then "" else ps[0] + Concat(ps[1..])
  }

  /** The number of non-overlapping occurrences of `sep` found scanning left to right */
  function Occurrences(s: string, sep: string): nat
    requires |sep| > 0
    decreases |s|
  {
    if |s| < |sep| then 0
    else if s[..|sep|] == sep then 1 + Occurrences(s[|sep|..], sep)
    else Occurrences(s[1..], sep)
  }

  lemma {:induction false} OccurrencesNone(s: string, sep: string)
    requires |sep| > 0
    requires forall j :: !OccursAt(s, sep, j)
    ensures Occurrences(s, sep) == 0
    decreases |s|
  {
    if |s| >= |sep| {
      assert !OccursAt(s, sep, 0);
      forall j | true
        ensures !OccursAt(s[1..], sep, j)
      {
        if OccursAt(s[1..], sep, j) {
          assert s[1..|s|] == s[1..];
          OccursInSlice(s, sep, 1, |s|, j);
        }
      }
      OccurrencesNone(s[1..], sep);
    }
  }

  lemma {:induction false} OccurrencesSkip(s: string, sep: string, k: nat)
    requires |sep| > 0
    requires OccursAt(s, sep, k)
    requires forall j :: 0 <= j < k ==> !OccursAt(s, sep, j)
    ensures Occurrences(s, sep) == 1 + Occurrences(s[k + |sep|..], sep)
    decreases k
  {
    if k > 0 {
      assert !OccursAt(s, sep, 0);
      assert s[1..][k - 1..k - 1 + |sep|] == s[k..k + |sep|];
      forall j | 0 <= j < k - 1
        ensures !OccursAt(s[1..], sep, j)
      {
        if OccursAt(s[1..], sep, j) {
          assert s[1..|s|] == s[1..];
          OccursInSlice(s, sep, 1, |s|, j);
        }
      }
      OccurrencesSkip(s[1..], sep, k - 1);
      assert s[1..][k - 1 + |sep|..] == s[k + |sep|..];
    }
  }

  /** Occurrences inside the text before the first occurrence */
  lemma NoOccurrenceBefore(s: string, sep: string, k: nat)
    requires |sep| > 0 && k <= |s|
    requires forall j :: 0 <= j < k ==> !OccursAt(s, sep, j)
    ensures forall j :: !OccursAt(s[..k], sep, j)
  {
    forall j | OccursAt(s[..k], sep, j)
      ensures false
    {
      assert s[0..k] == s[..k];
      OccursInSlice(s, sep, 0, k, j);
    }
  }

  /**
   * The piece before the first occurrence of `sep` cuts at the leftmost
   * place: no occurrence of `sep` starts inside it, not even one running
   * into the separator that follows it.
   */
  lemma FirstPieceLeftmost(s: string, sep: string, k: nat)
    requires |sep| > 0
    requires IndexOf(s, sep) == Some(k)
    ensures !Contains(s[..k] + sep[..|sep| - 1], sep)
  {
    var n := k + |sep| - 1;
    var t := s[..k] + sep[..|sep| - 1];
    assert t == s[0..n] by {
      assert s[k..k + |sep|] == sep;
      forall i | k <= i < n
        ensures t[i] == s[i]
      {
        assert s[k..k + |sep|][i - k] == s[i];
      }
    }
    forall j | OccursAt(t, sep, j)
      ensures false
    {
      OccursInSlice(s, sep, 0, n, j);
    }
    ContainsOccurrence(t, sep);
  }

  /**
   * `s.split(sep)`: the pieces between the non-overlapping occurrences of
   * `sep`, found left to right.
   */
  function Split(s: string, sep: string): (r: seq<string>)
    requires |sep| > 0
    ensures |r| == Occurrences(s, sep) + 1
    ensures Join(r, sep) == s
    ensures forall i :: 0 <= i < |r| ==> !Contains(r[i], sep)
    ensures forall i :: 0 <= i < |r| - 1 ==> !Contains(r[i] + sep[..|sep| - 1], sep)
    decreases |s|
  {
    match IndexOf(s, sep)
    case None =>
      OccurrencesNone(s, sep);
      [s]
    case Some(k) =>
      OccurrencesSkip(s, sep, k);
      NoOccurrenceBefore(s, sep, k);
      FirstPieceLeftmost(s, sep, k);
      var rest := Split(s[k + |sep|..], sep);
      assert s[..k] + sep + s[k + |sep|..] == s;
      [s[..k]] + rest
  }

  /** Splitting a join on a separator character no piece contains gives the pieces back */
  lemma {:induction false} SplitJoinChar(ps: seq<string>, c: char)
    requires |ps| >= 1
    requires forall i, j :: 0 <= i < |ps| && 0 <= j < |ps[i]| ==> ps[i][j] != c
    ensures Split(Join(ps, [c]), [c]) == ps
    decreases |ps|
  {
    var s := Join(ps, [c]);
    if |ps| == 1 {
      forall j | true
        ensures !OccursAt(s, [c], j)
      {
        OccursAtChar(s, c, j);
      }
    } else {
      var k := |ps[0]|;
      assert s == ps[0] + [c] + Join(ps[1..], [c]);
      OccursAtChar(s, c, k);
      forall j | 0 <= j < k
        ensures !OccursAt(s, [c], j)
      {
        OccursAtChar(s, c, j);
        assert s[j] == ps[0][j];
      }
      IndexOfIsFirst(s, [c], k);
      assert s[..k] == ps[0];
      assert s[k + 1..] == Join(ps[1..], [c]);
      SplitJoinChar(ps[1..], c);
    }
  }

  /** `s.replace(t, rep)` */
  function ReplaceAll(s: string, t: string, rep: string): string
    requires |t| > 0
  {
    Join(Split(s, t), rep)
  }

  // ---------------------------------------------------------------------------
  // Slicing
  // ---------------------------------------------------------------------------

  /** Python's `s[start:]`, where a negative start counts from the end */
  function SliceFrom<T>(s: seq<T>, start: int): seq<T> {
    if start >= |s| then []
    else if start >= 0 then s[start..]
    else if |s| + start >= 0 then s[|s| + start..]
    else s
  }

  /** The index `SliceFrom` starts at */
  function SliceStart(len: nat, start: int): (k: nat)
    ensures k <= len
  {
    if start >= len then len
    else if start >= 0 then start
    else if len + start >= 0 then len + start
    else 0
  }

  /** `s[start:]` is the suffix of `s` from the index Python computes */
  lemma SliceFromIsSuffix<T>(s: seq<T>, start: int)
    ensures SliceFrom(s, start) == s[SliceStart(|s|, start)..]
  {
  }

  /** Python's `s[:n]` for `n >= 0` */
  function Take<T>(s: seq<T>, n: nat): (r: seq<T>)
    ensures |r| <= n && |r| <= |s| && r == s[..|r|]
    ensures |r| == n || r == s
  {
    if n <= |s| then s[..n] else s
  }

  // ---------------------------------------------------------------------------
  // Decimal numerals
  // ---------------------------------------------------------------------------

  predicate IsDigit(c: char) {
    '0' <= c <= '9'
  }

  function DigitChar(d: nat): (c: char)
    requires d < 10
    ensures IsDigit(c) && c as int - '0' as int == d
  {
    ('0' as int + d) as char
  }

  /** `str(n)` for a natural number */
  function NatToString(n: nat): (r: string)
    ensures |r| >= 1
    ensures forall i :: 0 <= i < |r| ==> IsDigit(r[i])
    ensures n < 10 ==> |r| == 1
    ensures n < 100 ==> |r| <= 2
    ensures n < 1000 ==> |r| <= 3
  {
    if n < 10 then [DigitChar(n)] else NatToString(n / 10) + [DigitChar(n % 10)]
  }

  /** The value of a string of decimal digits */
  function ParseDecimal(s: string): nat
    requires forall i :: 0 <= i < |s| ==> IsDigit(s[i])
  {
    if |s| == 0 then 0
    else
      assert IsDigit(s[|s| - 1]);
      ParseDecimal(s[..|s| - 1]) * 10 + (s[|s| - 1] as int - '0' as int)
  }

  lemma {:induction false} ParseNatToString(n: nat)
    ensures ParseDecimal(NatToString(n)) == n
  {
    if n >= 10 {
      var r := NatToString(n);
      assert r[..|r| - 1] == NatToString(n / 10);
      ParseNatToString(n / 10);
    }
  }

  /** Leading zeros do not change the value of a numeral */
  lemma {:induction false} ParseLeadingZeros(z: string, s: string)
    requires forall i :: 0 <= i < |z| ==> z[i] == '0'
    requires forall i :: 0 <= i < |s| ==> IsDigit(s[i])
    ensures ParseDecimal(z + s) == ParseDecimal(s)
    decreases |s|
  {
    if |s| == 0 {
      assert z + s == z;
      ZerosParseToZero(z);
    } else {
      assert (z + s)[..|z + s| - 1] == z + s[..|s| - 1];
      ParseLeadingZeros(z, s[..|s| - 1]);
    }
  }

  lemma {:induction false} ZerosParseToZero(z: string)
    requires forall i :: 0 <= i < |z| ==> z[i] == '0'
    ensures ParseDecimal(z) == 0
    decreases |z|
  {
    if |z| > 0 {
      ZerosParseToZero(z[..|z| - 1]);
    }
  }

  function Repeat(c: char, n: nat): (r: string)
    ensures |r| == n && forall i :: 0 <= i < n ==> r[i] == c
  {
    if n == 0 then "" else [c] + Repeat(c, n - 1)
  }

  /** `s.zfill(width)` for an unsigned numeral: left-padded with zeros */
  function ZFill(s: string, width: nat): (r: string)
    ensures |r| == if |s| < width then width else |s|
    ensures r[|r| - |s|..] == s
    ensures forall i :: 0 <= i < |r| - |s| ==> r[i] == '0'
  {
    if |s| < width then Repeat('0', width - |s|) + s else s
  }
}
