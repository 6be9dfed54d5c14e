/**
 * Finding duplicate articles in the document index, keyed by document name,
 * source, date and media: the rows `duplicated(keep=False)` marks, the rows
 * `drop_duplicates(keep='last')` keeps, and the pairs `log_diffs` compares.
 * Rows are named by their position; the key and text types are left open.
 */
module Dedup {
  import opened Wrappers

  // ---------------------------------------------------------------------------
  // Selecting positions
  // ---------------------------------------------------------------------------

  /** Strictly increasing positions */
  predicate Increasing(ps: seq<nat>) {
    forall a, b :: 0 <= a < b < |ps| ==> ps[a] < ps[b]
  }

  /** The positions from `i` below `n` that `keep` selects, in order */
  function Select(n: nat, keep: nat -> bool, i: nat): (r: seq<nat>)
    requires i <= n
    ensures forall a :: 0 <= a < |r| ==> i <= r[a] < n
    ensures Increasing(r)
    ensures forall p: nat :: p in r <==> i <= p < n && keep(p)
    decreases n - i
  {
    if i == n then []
    else
      var rest := Select(n, keep, i + 1);
      if keep(i) then [i] + rest else rest
  }

  // ---------------------------------------------------------------------------
  // duplicated(keep=False)
  // ---------------------------------------------------------------------------

  /** Some other position holds the same key */
  predicate HasTwin<K(==)>(keys: seq<K>, p: nat) {
    p < |keys| && exists q :: 0 <= q < |keys| && q != p && keys[q] == keys[p]
  }

  /** `duplicated(subset, keep=False)`: every position whose key some other position shares */
  function DuplicatedPositions<K(==)>(keys: seq<K>): (r: seq<nat>)
    ensures Increasing(r)
    ensures forall a :: 0 <= a < |r| ==> r[a] < |keys|
    ensures forall p: nat :: p in r <==> HasTwin(keys, p)
  {
    Select(|keys|, (p: nat) => HasTwin(keys, p), 0)
  }

  /** How pandas decides: a key is duplicated when it occurs at least twice */
  lemma TwinIffCountAtLeastTwo<K>(keys: seq<K>, p: nat)
    requires p < |keys|
    ensures HasTwin(keys, p) <==> multiset(keys)[keys[p]] >= 2
  {
    var x := keys[p];
    var a := keys[..p];
    var b := keys[p + 1..];
    assert keys == a + [x] + b;
    assert multiset(keys)[x] == multiset(a)[x] + 1 + multiset(b)[x];
    if HasTwin(keys, p) {
      var q :| 0 <= q < |keys| && q != p && keys[q] == x;
      if q < p {
        assert a[q] == x;
      } else {
        assert b[q - p - 1] == x;
      }
    }
    if multiset(keys)[x] >= 2 {
      if x in a {
        var q :| 0 <= q < |a| && a[q] == x;
        assert keys[q] == x;
      } else {
        assert x in b;
        var q :| 0 <= q < |b| && b[q] == x;
        assert keys[p + 1 + q] == x;
      }
    }
  }

  /** A key shared by two positions marks both of them */
  lemma SharedKeyMarksBoth<K>(keys: seq<K>, p: nat, q: nat)
    requires p < |keys| && q < |keys| && p != q && keys[p] == keys[q]
    ensures p in DuplicatedPositions(keys) && q in DuplicatedPositions(keys)
  {
    assert HasTwin(keys, p) && HasTwin(keys, q);
  }

  // ---------------------------------------------------------------------------
  // drop_duplicates(keep='last')
  // ---------------------------------------------------------------------------

  /** No later position holds the same key */
  predicate IsLast<K(==)>(keys: seq<K>, p: nat) {
    p < |keys| && forall q :: p < q < |keys| ==> keys[q] != keys[p]
  }

  /** `drop_duplicates(subset, keep='last')`: the positions left, in order */
  function KeepLastPositions<K(==)>(keys: seq<K>): (r: seq<nat>)
    ensures Increasing(r)
    ensures forall a :: 0 <= a < |r| ==> r[a] < |keys|
    ensures forall p: nat :: p in r <==> IsLast(keys, p)
  {
    Select(|keys|, (p: nat) => IsLast(keys, p), 0)
  }

  /** The last position below `j` holding the key at `p` */
  function LastAt<K(==)>(keys: seq<K>, p: nat, j: nat): (r: nat)
    requires p < j <= |keys|
    ensures p <= r < j && keys[r] == keys[p]
    ensures forall q :: r < q < j ==> keys[q] != keys[p]
    decreases j
  {
    if keys[j - 1] == keys[p] then j - 1 else LastAt(keys, p, j - 1)
  }

  /** The rows kept hold pairwise different keys */
  lemma KeepLastKeysDistinct<K>(keys: seq<K>)
    ensures var r := KeepLastPositions(keys);
      forall a, b :: 0 <= a < b < |r| ==> keys[r[a]] != keys[r[b]]
  {
    var r := KeepLastPositions(keys);
    forall a, b | 0 <= a < b < |r|
      ensures keys[r[a]] != keys[r[b]]
    {
      assert r[a] in r && r[b] in r;
      assert IsLast(keys, r[a]);
    }
  }

  /** Every key survives: its last position is kept */
  lemma KeepLastKeepsEveryKey<K>(keys: seq<K>, p: nat)
    requires p < |keys|
    ensures var r := KeepLastPositions(keys);
      LastAt(keys, p, |keys|) in r && keys[LastAt(keys, p, |keys|)] == keys[p]
  {
    var q := LastAt(keys, p, |keys|);
    assert IsLast(keys, q);
  }

  /** A position whose key occurs nowhere else is kept */
  lemma UniqueKeyKept<K>(keys: seq<K>, p: nat)
    requires p < |keys| && p !in DuplicatedPositions(keys)
    ensures p in KeepLastPositions(keys)
  {
    assert !HasTwin(keys, p);
    assert IsLast(keys, p);
  }

  /** Only duplicates are dropped, and a dropped position has a later twin */
  lemma DroppedAreDuplicates<K>(keys: seq<K>, p: nat)
    requires p < |keys| && p !in KeepLastPositions(keys)
    ensures p in DuplicatedPositions(keys)
    ensures exists q :: p < q < |keys| && keys[q] == keys[p]
  {
    assert !IsLast(keys, p);
    var q :| p < q < |keys| && keys[q] == keys[p];
    assert HasTwin(keys, p);
  }

  // ---------------------------------------------------------------------------
  // The pairs log_diffs compares
  // ---------------------------------------------------------------------------

  /** The key paired with the article text */
  function Zip<K, T>(keys: seq<K>, texts: seq<T>): (z: seq<(K, T)>)
    requires |keys| == |texts|
    ensures |z| == |keys| && forall p :: 0 <= p < |z| ==> z[p] == (keys[p], texts[p])
  {
    seq(|keys|, p requires 0 <= p < |keys| => (keys[p], texts[p]))
  }

  /**
   * A row that takes part in the comparison: its key plus text occurs
   * nowhere else, and its group key is complete (`groupby` drops a group
   * whose media is missing).
   */
  predicate Compared<K(==), T(==)>(keys: seq<K>, texts: seq<T>, grouped: seq<bool>, p: nat)
    requires |keys| == |texts| == |grouped|
  {
    p < |keys| && grouped[p] && !HasTwin(Zip(keys, texts), p)
  }

  /** `y` follows `x` directly within the compared rows of one group */
  predicate Consecutive<K(==)>(keys: seq<K>, cmp: nat -> bool, x: nat, y: nat) {
    x < y < |keys| && cmp(x) && cmp(y) && keys[x] == keys[y]
    && forall z: nat :: x < z < y && cmp(z) ==> keys[z] != keys[y]
  }

  /** The last selected position before `j` holding the key at `y`, if any */
  function PreviousInGroup<K(==)>(keys: seq<K>, cmp: nat -> bool, y: nat, j: nat): (r: Option<nat>)
    requires y < |keys| && j <= y
    ensures r.Some? ==> r.value < j && cmp(r.value) && keys[r.value] == keys[y]
    ensures r.Some? ==> forall z: nat :: r.value < z < j && cmp(z) ==> keys[z] != keys[y]
    ensures r.None? ==> forall z: nat :: z < j && cmp(z) ==> keys[z] != keys[y]
    decreases j
  {
    if j == 0 then None
    else if cmp(j - 1) && keys[j - 1] == keys[y] then Some(j - 1)
    else PreviousInGroup(keys, cmp, y, j - 1)
  }

  /** The pairs whose second row lies at or after `y`, in the order of that row */
  function PairsFrom<K(==)>(keys: seq<K>, cmp: nat -> bool, y: nat): (r: seq<(nat, nat)>)
    requires y <= |keys|
    ensures forall x: nat, z: nat :: (x, z) in r <==> y <= z && Consecutive(keys, cmp, x, z)
    ensures forall a, b :: 0 <= a < b < |r| ==> r[a].1 < r[b].1
    ensures forall a :: 0 <= a < |r| ==> y <= r[a].1
    decreases |keys| - y
  {
    if y == |keys| then []
    else
      var rest := PairsFrom(keys, cmp, y + 1);
      var prev := PreviousInGroup(keys, cmp, y, y);
      if cmp(y) && prev.Some? then [(prev.value, y)] + rest else rest
  }

  /**
   * `log_diffs`' selection: within each group, every compared row is
   * diffed against the compared row before it. Listed by the later row.
   */
  function DiffPairs<K(==), T(==)>(keys: seq<K>, texts: seq<T>, grouped: seq<bool>): (r: seq<(nat, nat)>)
    requires |keys| == |texts| == |grouped|
    ensures forall x: nat, y: nat :: (x, y) in r <==>
      Consecutive(keys, (p: nat) => Compared(keys, texts, grouped, p), x, y)
    ensures forall a, b :: 0 <= a < b < |r| ==> r[a].1 < r[b].1
  {
    PairsFrom(keys, (p: nat) => Compared(keys, texts, grouped, p), 0)
  }

  // ---------------------------------------------------------------------------
  // The pairs of a sub-table, in the positions of the whole table
  // ---------------------------------------------------------------------------

  /** The values at the given positions: the rows of a sub-table */
  function Pick<T>(s: seq<T>, ps: seq<nat>): (r: seq<T>)
    requires forall a :: 0 <= a < |ps| ==> ps[a] < |s|
    ensures |r| == |ps| && forall a :: 0 <= a < |ps| ==> r[a] == s[ps[a]]
  {
    seq(|ps|, a requires 0 <= a < |ps| => s[ps[a]])
  }

  /** Pairs of sub-table rows, named by their positions in the whole table */
  function Lift(pairs: seq<(nat, nat)>, ps: seq<nat>): (r: seq<(nat, nat)>)
    requires forall a :: 0 <= a < |pairs| ==> pairs[a].0 < |ps| && pairs[a].1 < |ps|
    ensures |r| == |pairs|
    ensures forall a :: 0 <= a < |r| ==> r[a] == (ps[pairs[a].0], ps[pairs[a].1])
  {
    seq(|pairs|, a requires 0 <= a < |pairs| => (ps[pairs[a].0], ps[pairs[a].1]))
  }

  /**
   * `log_diffs` run on the duplicated rows only, its pairs named by their
   * positions in the whole table
   */
  function DiffsAmong<K(==), T(==)>(keys: seq<K>, texts: seq<T>, grouped: seq<bool>, dups: seq<nat>): (r: seq<(nat, nat)>)
    requires |keys| == |texts| == |grouped|
    requires forall a :: 0 <= a < |dups| ==> dups[a] < |keys|
    ensures |r| == |DiffPairs(Pick(keys, dups), Pick(texts, dups), Pick(grouped, dups))|
  {
    var sk, st, sg := Pick(keys, dups), Pick(texts, dups), Pick(grouped, dups);
    var pairs := DiffPairs(sk, st, sg);
    forall a | 0 <= a < |pairs|
      ensures pairs[a].0 < |dups| && pairs[a].1 < |dups|
    {
      DiffPairAt(sk, st, sg, a);
    }
    Lift(pairs, dups)
  }

  /**
   * Comparing only the duplicated rows compares the same pairs as comparing
   * every row: a row whose key occurs once has no partner in its group, and
   * a twin of a duplicated row's key plus text is itself a duplicate.
   */
  lemma DiffsAmongDuplicates<K, T>(keys: seq<K>, texts: seq<T>, grouped: seq<bool>)
    requires |keys| == |texts| == |grouped|
    ensures DiffsAmong(keys, texts, grouped, DuplicatedPositions(keys)) == DiffPairs(keys, texts, grouped)
  {
    var dups := DuplicatedPositions(keys);
    var u := DiffsAmong(keys, texts, grouped, dups);
    var v := DiffPairs(keys, texts, grouped);
    forall x: nat, y: nat
      ensures (x, y) in u <==> (x, y) in v
    {
      if (x, y) in u {
        var i :| 0 <= i < |u| && u[i] == (x, y);
        LiftedPairCompared(keys, texts, grouped, i);
      }
      if (x, y) in v {
        ComparedPairLifted(keys, texts, grouped, x, y);
      }
    }
    LiftedInOrder(keys, texts, grouped);
    SameSortedPairs(u, v);
  }

  /** Every lifted pair is a pair of the whole table */
  lemma LiftedPairCompared<K, T>(keys: seq<K>, texts: seq<T>, grouped: seq<bool>, i: nat)
    requires |keys| == |texts| == |grouped|
    requires i < |DiffsAmong(keys, texts, grouped, DuplicatedPositions(keys))|
    ensures DiffsAmong(keys, texts, grouped, DuplicatedPositions(keys))[i] in DiffPairs(keys, texts, grouped)
  {
    var dups := DuplicatedPositions(keys);
    var sk, st, sg := Pick(keys, dups), Pick(texts, dups), Pick(grouped, dups);
    var sub := DiffPairs(sk, st, sg);
    var u := DiffsAmong(keys, texts, grouped, dups);
    ComparedAgree(keys, texts, grouped);
    var e := sub[i];
    assert (e.0, e.1) in sub by {
      assert (e.0, e.1) == sub[i];
    }
    DiffPairAt(sk, st, sg, i);
    ConsecutiveLifts(keys, (p: nat) => Compared(keys, texts, grouped, p), dups,
      (c: nat) => Compared(sk, st, sg, c), e.0, e.1);
    assert u[i] == (dups[e.0], dups[e.1]);
  }

  /** Every pair of the whole table is a lifted pair */
  lemma ComparedPairLifted<K, T>(keys: seq<K>, texts: seq<T>, grouped: seq<bool>, x: nat, y: nat)
    requires |keys| == |texts| == |grouped|
    requires (x, y) in DiffPairs(keys, texts, grouped)
    ensures (x, y) in DiffsAmong(keys, texts, grouped, DuplicatedPositions(keys))
  {
    var dups := DuplicatedPositions(keys);
    var sk, st, sg := Pick(keys, dups), Pick(texts, dups), Pick(grouped, dups);
    var sub := DiffPairs(sk, st, sg);
    var u := DiffsAmong(keys, texts, grouped, dups);
    assert Consecutive(keys, (p: nat) => Compared(keys, texts, grouped, p), x, y);
    SharedKeyMarksBoth(keys, x, y);
    var a :| 0 <= a < |dups| && dups[a] == x;
    var b :| 0 <= b < |dups| && dups[b] == y;
    ComparedAgree(keys, texts, grouped);
    ConsecutiveLifts(keys, (p: nat) => Compared(keys, texts, grouped, p), dups,
      (c: nat) => Compared(sk, st, sg, c), a, b);
    assert (a, b) in sub;
    var i :| 0 <= i < |sub| && sub[i] == (a, b);
    assert u[i] == (x, y);
  }

  /** The lifted pairs are listed by their later row, as the pairs of the whole table are */
  lemma LiftedInOrder<K, T>(keys: seq<K>, texts: seq<T>, grouped: seq<bool>)
    requires |keys| == |texts| == |grouped|
    ensures var u := DiffsAmong(keys, texts, grouped, DuplicatedPositions(keys));
      forall i, j :: 0 <= i < j < |u| ==> u[i].1 < u[j].1
  {
    var dups := DuplicatedPositions(keys);
    var sub := DiffPairs(Pick(keys, dups), Pick(texts, dups), Pick(grouped, dups));
    var u := DiffsAmong(keys, texts, grouped, dups);
    forall i, j | 0 <= i < j < |u|
      ensures u[i].1 < u[j].1
    {
      DiffPairAt(Pick(keys, dups), Pick(texts, dups), Pick(grouped, dups), i);
      DiffPairAt(Pick(keys, dups), Pick(texts, dups), Pick(grouped, dups), j);
      IncreasingOrder(dups, sub[i].1, sub[j].1);
    }
  }

  /** The duplicated rows compared among the duplicates are those compared among all rows */
  lemma ComparedAgree<K, T>(keys: seq<K>, texts: seq<T>, grouped: seq<bool>)
    requires |keys| == |texts| == |grouped|
    ensures var dups := DuplicatedPositions(keys);
      forall a: nat :: a < |dups| ==>
        Compared(Pick(keys, dups), Pick(texts, dups), Pick(grouped, dups), a)
        == Compared(keys, texts, grouped, dups[a])
  {
    var dups := DuplicatedPositions(keys);
    forall a: nat | a < |dups|
      ensures Compared(Pick(keys, dups), Pick(texts, dups), Pick(grouped, dups), a)
        == Compared(keys, texts, grouped, dups[a])
    {
      ComparedAmongDuplicates(keys, texts, grouped, a);
    }
  }

  /** A duplicated row is compared among the duplicates exactly when it is compared among all rows */
  lemma ComparedAmongDuplicates<K, T>(keys: seq<K>, texts: seq<T>, grouped: seq<bool>, a: nat)
    requires |keys| == |texts| == |grouped|
    requires a < |DuplicatedPositions(keys)|
    ensures var dups := DuplicatedPositions(keys);
      Compared(Pick(keys, dups), Pick(texts, dups), Pick(grouped, dups), a)
      == Compared(keys, texts, grouped, dups[a])
  {
    var dups := DuplicatedPositions(keys);
    var sk, st := Pick(keys, dups), Pick(texts, dups);
    var zs, z := Zip(sk, st), Zip(keys, texts);
    var p := dups[a];
    if HasTwin(zs, a) {
      var b :| 0 <= b < |zs| && b != a && zs[b] == zs[a];
      IncreasingOrder(dups, a, b);
      IncreasingOrder(dups, b, a);
      assert z[dups[b]] == z[p];
    }
    if HasTwin(z, p) {
      var q :| 0 <= q < |z| && q != p && z[q] == z[p];
      assert keys[q] == keys[p];
      SharedKeyMarksBoth(keys, q, p);
      var b :| 0 <= b < |dups| && dups[b] == q;
      assert zs[b] == zs[a];
    }
  }

  /**
   * Two duplicated rows follow each other among the compared duplicates
   * exactly when their positions follow each other among the compared rows
   */
  lemma ConsecutiveLifts<K>(keys: seq<K>, cmp: nat -> bool, dups: seq<nat>, cmpS: nat -> bool, a: nat, b: nat)
    requires dups == DuplicatedPositions(keys)
    requires forall c: nat :: c < |dups| ==> cmpS(c) == cmp(dups[c])
    requires a < |dups| && b < |dups|
    ensures Consecutive(Pick(keys, dups), cmpS, a, b) <==> Consecutive(keys, cmp, dups[a], dups[b])
  {
    var sk := Pick(keys, dups);
    if Consecutive(sk, cmpS, a, b) {
      forall z: nat | dups[a] < z < dups[b] && cmp(z)
        ensures keys[z] != keys[dups[b]]
      {
        TwinIsDuplicate(keys, z, dups[b]);
        if z in dups {
          var c :| 0 <= c < |dups| && dups[c] == z;
          IncreasingOrder(dups, a, c);
          IncreasingOrder(dups, c, b);
          assert sk[c] != sk[b];
        }
      }
    }
    if Consecutive(keys, cmp, dups[a], dups[b]) {
      IncreasingOrder(dups, a, b);
      forall c: nat | a < c < b && cmpS(c)
        ensures sk[c] != sk[b]
      {
        IncreasingOrder(dups, a, c);
        IncreasingOrder(dups, c, b);
      }
    }
  }

  /** A row sharing its key with another row is a duplicate */
  lemma TwinIsDuplicate<K>(keys: seq<K>, z: nat, q: nat)
    requires z < |keys| && q < |keys|
    ensures z != q && keys[z] == keys[q] ==> z in DuplicatedPositions(keys)
  {
    if z != q && keys[z] == keys[q] {
      assert HasTwin(keys, z);
    }
  }

  /** Positions in an increasing list are in the order of their indices */
  lemma IncreasingOrder(ps: seq<nat>, a: nat, b: nat)
    requires Increasing(ps) && a < |ps| && b < |ps|
    ensures ps[a] < ps[b] <==> a < b
  {
  }

  /** Two lists of pairs with strictly increasing second rows and the same pairs are equal */
  lemma {:induction false} SameSortedPairs(u: seq<(nat, nat)>, v: seq<(nat, nat)>)
    requires forall i, j :: 0 <= i < j < |u| ==> u[i].1 < u[j].1
    requires forall i, j :: 0 <= i < j < |v| ==> v[i].1 < v[j].1
    requires forall x: nat, y: nat :: (x, y) in u <==> (x, y) in v
    ensures u == v
    decreases |u|
  {
    if |u| == 0 {
      if |v| > 0 {
        HeadIn(v);
        assert false;
      }
    } else if |v| == 0 {
      HeadIn(u);
      assert false;
    } else {
      SameHeads(u, v);
      SameTails(u, v);
      SameSortedPairs(u[1..], v[1..]);
      assert u == [u[0]] + u[1..] && v == [v[0]] + v[1..];
    }
  }

  /** Of two such lists, the first pairs agree: each is the one with the least second row */
  lemma SameHeads(u: seq<(nat, nat)>, v: seq<(nat, nat)>)
    requires |u| > 0 && |v| > 0
    requires forall i, j :: 0 <= i < j < |u| ==> u[i].1 < u[j].1
    requires forall i, j :: 0 <= i < j < |v| ==> v[i].1 < v[j].1
    requires forall x: nat, y: nat :: (x, y) in u <==> (x, y) in v
    ensures u[0] == v[0]
  {
    HeadIn(u);
    HeadIn(v);
    var i :| 0 <= i < |u| && u[i] == v[0];
    var j :| 0 <= j < |v| && v[j] == u[0];
    HeadLeast(u, i);
    HeadLeast(v, j);
  }

  /** In a list of strictly increasing second rows, the first pair has the least, and no other pair has it */
  lemma HeadLeast(u: seq<(nat, nat)>, i: nat)
    requires forall a, b :: 0 <= a < b < |u| ==> u[a].1 < u[b].1
    requires i < |u|
    ensures u[0].1 <= u[i].1
    ensures u[i].1 == u[0].1 ==> i == 0
  {
    if i > 0 {
      assert u[0].1 < u[i].1;
    }
  }

  /** Of two such lists with the same first pair, the rests hold the same pairs */
  lemma SameTails(u: seq<(nat, nat)>, v: seq<(nat, nat)>)
    requires |u| > 0 && |v| > 0 && u[0] == v[0]
    requires forall i, j :: 0 <= i < j < |u| ==> u[i].1 < u[j].1
    requires forall i, j :: 0 <= i < j < |v| ==> v[i].1 < v[j].1
    requires forall x: nat, y: nat :: (x, y) in u <==> (x, y) in v
    ensures forall x: nat, y: nat :: (x, y) in u[1..] <==> (x, y) in v[1..]
  {
    forall x: nat, y: nat | (x, y) in u[1..]
      ensures (x, y) in v[1..]
    {
      TailMember(u, v, x, y);
    }
    forall x: nat, y: nat | (x, y) in v[1..]
      ensures (x, y) in u[1..]
    {
      TailMember(v, u, x, y);
    }
  }

  lemma TailMember(u: seq<(nat, nat)>, v: seq<(nat, nat)>, x: nat, y: nat)
    requires |u| > 0 && |v| > 0 && u[0] == v[0]
    requires forall i, j :: 0 <= i < j < |u| ==> u[i].1 < u[j].1
    requires (x, y) in u ==> (x, y) in v
    requires (x, y) in u[1..]
    ensures (x, y) in v[1..]
  {
    var k :| 0 <= k < |u[1..]| && u[1..][k] == (x, y);
    assert u[k + 1] == (x, y) && u[0].1 < u[k + 1].1;
    var m :| 0 <= m < |v| && v[m] == (x, y);
    assert v[1..][m - 1] == (x, y);
  }

  /** Each listed pair is two grouped rows of one key, the earlier first */
  lemma DiffPairAt<K, T>(keys: seq<K>, texts: seq<T>, grouped: seq<bool>, a: nat)
    requires |keys| == |texts| == |grouped|
    requires a < |DiffPairs(keys, texts, grouped)|
    ensures var e := DiffPairs(keys, texts, grouped)[a];
      && e.0 < e.1 < |keys| && keys[e.0] == keys[e.1] && grouped[e.0] && grouped[e.1]
  {
    var r := DiffPairs(keys, texts, grouped);
    var e := r[a];
    assert (e.0, e.1) in r by {
      assert (e.0, e.1) == r[a];
    }
    assert Consecutive(keys, (p: nat) => Compared(keys, texts, grouped, p), e.0, e.1);
  }

  /** Two rows of one group with different texts give one diff */
  lemma TwoRowsOneDiff<K, T>(k: K, t1: T, t2: T)
    requires t1 != t2
    ensures DiffPairs([k, k], [t1, t2], [true, true]) == [(0, 1)]
  {
    var keys := [k, k];
    var texts := [t1, t2];
    var grouped := [true, true];
    var z := Zip(keys, texts);
    assert !HasTwin(z, 0) && !HasTwin(z, 1);
    var r := DiffPairs(keys, texts, grouped);
    var cmp := (p: nat) => Compared(keys, texts, grouped, p);
    assert Consecutive(keys, cmp, 0, 1);
    assert (0, 1) in r;
    forall a | 0 <= a < |r|
      ensures r[a] == (0, 1)
    {
      assert r[a] in r;
      assert Consecutive(keys, cmp, r[a].0, r[a].1);
    }
    OnePairAtMost(r, (0, 1));
  }

  /** A list holding no pair is empty */
  lemma NoPairsNoList(r: seq<(nat, nat)>)
    requires forall x: nat, y: nat :: (x, y) !in r
    ensures r == []
  {
    if |r| > 0 {
      HeadIn(r);
      assert false;
    }
  }

  /** A list of strictly increasing second rows holding one pair only holds it once */
  lemma OnePairAtMost(r: seq<(nat, nat)>, e: (nat, nat))
    requires forall a, b :: 0 <= a < b < |r| ==> r[a].1 < r[b].1
    requires forall a :: 0 <= a < |r| ==> r[a] == e
    requires e in r
    ensures r == [e]
  {
    if |r| >= 2 {
      HeadIn(r);
      HeadIn(r[1..]);
      assert false;
    }
  }

  /** The first pair of a non-empty list is one of its pairs */
  lemma HeadIn(r: seq<(nat, nat)>)
    requires |r| > 0
    ensures (r[0].0, r[0].1) in r
  {
  }

  /** Rows with the same key and the same text are not compared at all */
  lemma IdenticalTextsNoDiff<K, T>(k: K, t: T)
    ensures DiffPairs([k, k], [t, t], [true, true]) == []
  {
    var keys := [k, k];
    var texts := [t, t];
    var grouped := [true, true];
    var z := Zip(keys, texts);
    assert z[1] == z[0];
    assert HasTwin(z, 0) && HasTwin(z, 1);
    var r := DiffPairs(keys, texts, grouped);
    NoPairsNoList(r);
  }

  /** A group without media is not compared */
  lemma MissingMediaNoDiff<K, T>(k: K, t1: T, t2: T)
    ensures DiffPairs([k, k], [t1, t2], [false, false]) == []
  {
    var r := DiffPairs([k, k], [t1, t2], [false, false]);
    NoPairsNoList(r);
  }
}
