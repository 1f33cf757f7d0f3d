/**
 * The version-rollout ranker of the package card: it turns the weekly download
 * histogram of a package (version string to download count) into the rows of
 * the "Version rollout" list. Entries are sorted by the chosen strategy, cut to
 * `limit` rows, and each row gets its share of the downloads of the WHOLE
 * histogram and a flag saying whether it is the version the caller calls current.
 */
module VersionRollout {
  import opened Outcomes
  import opened SortOrder

  /**
   * One element of `Object.entries(versions)`: a version string and its
   * download count. A histogram is a sequence of them in entry order.
   */
  type Entry = (string, int)

  /** The `count` strategy: the entry with more downloads goes first. */
  function ByCount(a: Entry, b: Entry): int {
    b.1 - a.1
  }

  /** The `semver` strategy: the entry `compareBuild` ranks higher goes first. */
  function BySemver(compareBuild: (string, string) -> int): (Entry, Entry) -> int {
    (a: Entry, b: Entry) => compareBuild(b.0, a.0)
  }

  /**
   * The comparator the strategy key selects; a key that names no strategy
   * falls back to `count`.
   */
  function Comparator(sort: string, compareBuild: (string, string) -> int): (Entry, Entry) -> int {
    match sort
    case "semver" => BySemver(compareBuild)
    case _ => ByCount
  }

  /** The end index of `s.slice(0, end)` on a sequence of length `n`. */
  function SliceEnd(n: nat, end: int): (k: nat)
    ensures k <= n
    ensures 0 <= end ==> k == (if end < n then end else n)
    ensures end < 0 ==> k == (if n + end < 0 then 0 else n + end)
  {
    if end < 0 then (if n + end < 0 then 0 else n + end)
    else if end < n then end
    else n
  }

  /** `s.slice(0, end)`: a prefix of `s`; a negative `end` drops entries from the back. */
  function Slice<T>(s: seq<T>, end: int): (r: seq<T>)
    ensures |r| == SliceEnd(|s|, end)
    ensures r == s[..|r|]
    ensures 0 <= end ==> |r| <= end
    ensures end >= |s| ==> r == s
    ensures end < 0 && -end <= |s| ==> r + s[|s| + end..] == s
    ensures end < 0 && -end >= |s| ==> r == []
  {
    s[..SliceEnd(|s|, end)]
  }

  /** `reduce((sum, count) => sum + count, acc)` over the counts of `s`, left to right. */
  function Fold(acc: int, s: seq<Entry>): int
    decreases s
  {
    if s == [] then acc else Fold(acc + s[0].1, s[1..])
  }

  /** The sum of all download counts of a histogram. */
  function Total(versions: seq<Entry>): int {
    Fold(0, versions)
  }

  /**
   * The number `(100 * count) / totalCount` evaluates to, kept exact: the
   * fraction `numerator / denominator` when the total is not zero, and
   * otherwise NaN or an infinity, as IEEE division by zero gives.
   */
  datatype Percent = Fraction(numerator: int, denominator: int) | NaN | Infinity | NegativeInfinity {
    function Value(): real
      requires Fraction? && denominator != 0
    {
      numerator as real / denominator as real
    }
  }

  function Share(count: int, total: int): (p: Percent)
    ensures p.Fraction? <==> total != 0
    ensures p.Fraction? ==> p.denominator == total && p.numerator == 100 * count
    ensures total == 0 ==> (p.NaN? <==> count == 0) && (p.Infinity? <==> count > 0)
    ensures p.Fraction? ==> p.Value() * (total as real) == 100.0 * (count as real)
  {
    if total != 0 then Fraction(100 * count, total)
    else if count > 0 then Infinity
    else if count < 0 then NegativeInfinity
    else NaN
  }

  /** A share lies between 0 and 100 when the count is part of a positive total. */
  lemma ShareValue(count: int, total: int)
    requires total != 0
    ensures 0 <= count <= total ==> 0.0 <= Share(count, total).Value() <= 100.0
  {
    var v := Share(count, total).Value();
    assert v == (100 * count) as real / total as real;
    if 0 <= count <= total {
      if total > 0 {
        assert (100 * count) as real <= 100.0 * total as real;
      }
    }
  }

  /** One rendered line of the rollout list. */
  datatype Row = Row(version: string, count: int, percent: Percent, isCurrent: bool)

  function RowOf(e: Entry, totalCount: int, latestVersion: Option<string>): Row {
    Row(e.0, e.1, Share(e.1, totalCount), latestVersion == Some(e.0))
  }

  function Rows(data: seq<Entry>, totalCount: int, latestVersion: Option<string>): seq<Row> {
    seq(|data|, i requires 0 <= i < |data| => RowOf(data[i], totalCount, latestVersion))
  }

  /** The (version, count) pairs the rows show. */
  function Entries(rows: seq<Row>): seq<Entry> {
    seq(|rows|, i requires 0 <= i < |rows| => (rows[i].version, rows[i].count))
  }

  /**
   * The ranker: sort a copy of the entries with the selected comparator, keep
   * the first `limit`, and compute each share against the total of ALL entries.
   */
  function Rank(versions: seq<Entry>, limit: int, sort: string, latestVersion: Option<string>,
                compareBuild: (string, string) -> int): (rows: seq<Row>)
    ensures |rows| == SliceEnd(|versions|, limit)
    ensures forall i :: 0 <= i < |rows| ==>
      (rows[i].version, rows[i].count) == Sort(versions, Comparator(sort, compareBuild))[i]
    ensures forall i :: 0 <= i < |rows| ==> rows[i].percent == Share(rows[i].count, Total(versions))
    ensures forall i :: 0 <= i < |rows| ==> (rows[i].isCurrent <==> latestVersion == Some(rows[i].version))
  {
    var data := Slice(Sort(versions, Comparator(sort, compareBuild)), limit);
    var totalCount := Total(versions);
    Rows(data, totalCount, latestVersion)
  }

  // ---------------------------------------------------------------------------
  // The comparators are consistent.

  lemma ByCountConsistent()
    ensures Consistent(ByCount)
  {
    forall a: Entry, b: Entry, c: Entry | Chain(ByCount, a, b, c) ensures ByCount(a, c) <= 0 {
    }
  }

  /** `compareBuild(b, a)` is consistent whenever `compareBuild` is. */
  lemma BySemverConsistent(compareBuild: (string, string) -> int)
    requires Consistent(compareBuild)
    ensures Consistent(BySemver(compareBuild))
  {
    var cmp := BySemver(compareBuild);
    forall a: Entry, b: Entry ensures cmp(a, b) < 0 <==> cmp(b, a) > 0 {
      assert compareBuild(b.0, a.0) < 0 <==> compareBuild(a.0, b.0) > 0;
    }
    forall a: Entry, b: Entry, c: Entry | Chain(cmp, a, b, c) ensures cmp(a, c) <= 0 {
      Transitive(compareBuild, c.0, b.0, a.0);
    }
  }

  /** Every strategy's comparator is consistent; `semver` needs `compareBuild` to be. */
  lemma ComparatorConsistent(sort: string, compareBuild: (string, string) -> int)
    requires sort == "semver" ==> Consistent(compareBuild)
    ensures Consistent(Comparator(sort, compareBuild))
  {
    if sort == "semver" {
      BySemverConsistent(compareBuild);
    } else {
      ByCountConsistent();
    }
  }

  // ---------------------------------------------------------------------------
  // Length, content and order of the rows.

  /**
   * For a non-negative limit there are `min(limit, n)` rows; a negative limit
   * drops that many entries from the end.
   */
  lemma RankLength(versions: seq<Entry>, limit: int, sort: string, latestVersion: Option<string>,
                   compareBuild: (string, string) -> int)
    ensures var n := |Rank(versions, limit, sort, latestVersion, compareBuild)|;
      && (0 <= limit ==> n == (if limit < |versions| then limit else |versions|))
      && (limit < 0 ==> n == (if |versions| + limit < 0 then 0 else |versions| + limit))
  {
  }

  /**
   * The rows show a prefix of a permutation of the entries, each pair carried
   * through unchanged; with a limit of at least the number of entries, all of them.
   */
  lemma {:induction false} RankIsPrefixOfPermutation(versions: seq<Entry>, limit: int, sort: string,
      latestVersion: Option<string>, compareBuild: (string, string) -> int)
    ensures var shown := Entries(Rank(versions, limit, sort, latestVersion, compareBuild));
      && IsPrefix(shown, Sort(versions, Comparator(sort, compareBuild)))
      && multiset(shown) <= multiset(versions)
      && (limit >= |versions| ==> multiset(shown) == multiset(versions))
  {
    var sorted := Sort(versions, Comparator(sort, compareBuild));
    var shown := Entries(Rank(versions, limit, sort, latestVersion, compareBuild));
    assert shown == sorted[..|shown|];
    assert sorted == shown + sorted[|shown|..];
    assert multiset(sorted) == multiset(shown) + multiset(sorted[|shown|..]);
  }

  /** With the `count` strategy (or any key other than `semver`), counts never increase down the list. */
  lemma {:induction false} RankByCountOrdered(versions: seq<Entry>, limit: int, sort: string,
      latestVersion: Option<string>, compareBuild: (string, string) -> int)
    requires sort != "semver"
    ensures var rows := Rank(versions, limit, sort, latestVersion, compareBuild);
      forall i, j :: 0 <= i < j < |rows| ==> rows[i].count >= rows[j].count
  {
    ByCountConsistent();
    SortSorted(versions, ByCount);
    var sorted := Sort(versions, ByCount);
    var rows := Rank(versions, limit, sort, latestVersion, compareBuild);
    forall i, j | 0 <= i < j < |rows| ensures rows[i].count >= rows[j].count {
      assert ByCount(sorted[i], sorted[j]) <= 0;
    }
  }

  /**
   * With the `semver` strategy, each row's version ranks at least as high under
   * `compareBuild` as every version after it.
   */
  lemma {:induction false} RankBySemverOrdered(versions: seq<Entry>, limit: int,
      latestVersion: Option<string>, compareBuild: (string, string) -> int)
    requires Consistent(compareBuild)
    ensures var rows := Rank(versions, limit, "semver", latestVersion, compareBuild);
      forall i, j :: 0 <= i < j < |rows| ==> compareBuild(rows[i].version, rows[j].version) >= 0
  {
    var cmp := BySemver(compareBuild);
    BySemverConsistent(compareBuild);
    SortSorted(versions, cmp);
    var sorted := Sort(versions, cmp);
    var rows := Rank(versions, limit, "semver", latestVersion, compareBuild);
    forall i, j | 0 <= i < j < |rows| ensures compareBuild(rows[i].version, rows[j].version) >= 0 {
      assert cmp(sorted[i], sorted[j]) <= 0;
      assert compareBuild(sorted[j].0, sorted[i].0) <= 0;
    }
  }

  /**
   * Stability, for either strategy: the rows that tie with `e` under the chosen
   * comparator appear in the order their entries had in the histogram, and are
   * the first of those entries.
   */
  lemma {:induction false} RankStable(versions: seq<Entry>, limit: int, sort: string,
      latestVersion: Option<string>, compareBuild: (string, string) -> int, e: Entry)
    requires sort == "semver" ==> Consistent(compareBuild)
    ensures var cmp := Comparator(sort, compareBuild);
      IsPrefix(Ties(Entries(Rank(versions, limit, sort, latestVersion, compareBuild)), cmp, e),
               Ties(versions, cmp, e))
  {
    var cmp := Comparator(sort, compareBuild);
    ComparatorConsistent(sort, compareBuild);
    var sorted := Sort(versions, cmp);
    var shown := Entries(Rank(versions, limit, sort, latestVersion, compareBuild));
    assert shown == sorted[..|shown|];
    TiesOfPrefix(sorted, |shown|, cmp, e);
    SortStable(versions, cmp, e);
  }

  /** The entries of `s` whose count is `c`, in their order in `s`. */
  function WithCount(s: seq<Entry>, c: int): seq<Entry> {
    if s == [] then [] else (if s[0].1 == c then [s[0]] else []) + WithCount(s[1..], c)
  }

  lemma {:induction false} TiesByCount(s: seq<Entry>, e: Entry)
    ensures Ties(s, ByCount, e) == WithCount(s, e.1)
  {
    if s != [] {
      TiesByCount(s[1..], e);
    }
  }

  /**
   * Stability of the `count` strategy: rows with equal counts keep their entry
   * order, and are the first entries with that count.
   */
  lemma RankByCountStable(versions: seq<Entry>, limit: int, sort: string,
      latestVersion: Option<string>, compareBuild: (string, string) -> int, c: int)
    requires sort != "semver"
    ensures IsPrefix(WithCount(Entries(Rank(versions, limit, sort, latestVersion, compareBuild)), c),
                     WithCount(versions, c))
  {
    var e := ("", c);
    ByCountConsistent();
    var sorted := Sort(versions, ByCount);
    var shown := Entries(Rank(versions, limit, sort, latestVersion, compareBuild));
    assert shown == sorted[..|shown|];
    TiesOfPrefix(sorted, |shown|, ByCount, e);
    SortStable(versions, ByCount, e);
    TiesByCount(shown, e);
    TiesByCount(versions, e);
  }

  /** A strategy key that names no strategy ranks exactly like `count`. */
  lemma UnknownStrategyIsCount(versions: seq<Entry>, limit: int, sort: string,
      latestVersion: Option<string>, compareBuild: (string, string) -> int)
    requires sort != "count" && sort != "semver"
    ensures Rank(versions, limit, sort, latestVersion, compareBuild)
         == Rank(versions, limit, "count", latestVersion, compareBuild)
  {
  }

  // ---------------------------------------------------------------------------
  // The shares.

  lemma {:induction false} FoldShift(acc: int, s: seq<Entry>)
    ensures Fold(acc, s) == acc + Fold(0, s)
    decreases s
  {
    if s != [] {
      FoldShift(acc + s[0].1, s[1..]);
      FoldShift(s[0].1, s[1..]);
    }
  }

  lemma TotalCons(s: seq<Entry>)
    requires s != []
    ensures Total(s) == s[0].1 + Total(s[1..])
  {
    FoldShift(s[0].1, s[1..]);
  }

  lemma {:induction false} TotalAppend(a: seq<Entry>, b: seq<Entry>)
    ensures Total(a + b) == Total(a) + Total(b)
  {
    if a == [] {
      assert a + b == b;
    } else {
      assert (a + b)[1..] == a[1..] + b;
      TotalCons(a + b);
      TotalCons(a);
      TotalAppend(a[1..], b);
    }
  }

  lemma {:induction false} TotalInsert(x: Entry, t: seq<Entry>, cmp: (Entry, Entry) -> int)
    ensures Total(Insert(x, t, cmp)) == x.1 + Total(t)
  {
    if t != [] && cmp(x, t[0]) > 0 {
      TotalInsert(x, t[1..], cmp);
      TotalCons(Insert(x, t, cmp));
      TotalCons(t);
    } else {
      TotalCons([x] + t);
      assert ([x] + t)[1..] == t;
    }
  }

  /** Sorting does not change the total. */
  lemma {:induction false} TotalSort(s: seq<Entry>, cmp: (Entry, Entry) -> int)
    ensures Total(Sort(s, cmp)) == Total(s)
  {
    if s != [] {
      TotalSort(s[1..], cmp);
      TotalInsert(s[0], Sort(s[1..], cmp), cmp);
      TotalCons(s);
    }
  }

  predicate NonNegative(s: seq<Entry>) {
    forall i :: 0 <= i < |s| ==> s[i].1 >= 0
  }

  lemma {:induction false} TotalNonNegative(s: seq<Entry>)
    requires NonNegative(s)
    ensures Total(s) >= 0
  {
    if s != [] {
      TotalCons(s);
      TotalNonNegative(s[1..]);
    }
  }

  /** Every row's share is a fraction over `d`. */
  predicate OverDenominator(rows: seq<Row>, d: int) {
    forall i :: 0 <= i < |rows| ==> rows[i].percent.Fraction? && rows[i].percent.denominator == d
  }

  /** The sum of the numerators of shares that are all fractions. */
  function Numerators(rows: seq<Row>): int
    requires forall i :: 0 <= i < |rows| ==> rows[i].percent.Fraction?
  {
    if rows == [] then 0 else rows[0].percent.numerator + Numerators(rows[1..])
  }

  lemma {:induction false} NumeratorsOfRows(data: seq<Entry>, totalCount: int, latestVersion: Option<string>)
    requires totalCount != 0
    ensures var rows := Rows(data, totalCount, latestVersion);
      OverDenominator(rows, totalCount) && Numerators(rows) == 100 * Total(data)
  {
    var rows := Rows(data, totalCount, latestVersion);
    if data != [] {
      assert rows[1..] == Rows(data[1..], totalCount, latestVersion);
      NumeratorsOfRows(data[1..], totalCount, latestVersion);
      TotalCons(data);
    }
  }

  /** The shown entries and the entries cut off make up the whole histogram. */
  lemma ShownAndCut(versions: seq<Entry>, limit: int, sort: string,
      latestVersion: Option<string>, compareBuild: (string, string) -> int)
    ensures var sorted := Sort(versions, Comparator(sort, compareBuild));
      var shown := Entries(Rank(versions, limit, sort, latestVersion, compareBuild));
      && |shown| <= |sorted|
      && Total(shown) + Total(sorted[|shown|..]) == Total(versions)
      && multiset(sorted[|shown|..]) <= multiset(versions)
  {
    var cmp := Comparator(sort, compareBuild);
    var sorted := Sort(versions, cmp);
    var shown := Entries(Rank(versions, limit, sort, latestVersion, compareBuild));
    var rest := sorted[|shown|..];
    assert shown == sorted[..|shown|];
    assert sorted == shown + rest;
    TotalAppend(shown, rest);
    TotalSort(versions, cmp);
    assert multiset(sorted) == multiset(shown) + multiset(rest);
  }

  /** The downloads the rows show: all of them when nothing is cut off, at most all when none is negative. */
  lemma ShownTotal(versions: seq<Entry>, limit: int, sort: string,
      latestVersion: Option<string>, compareBuild: (string, string) -> int)
    ensures var shown := Total(Entries(Rank(versions, limit, sort, latestVersion, compareBuild)));
      && (limit >= |versions| ==> shown == Total(versions))
      && (NonNegative(versions) ==> shown <= Total(versions))
  {
    ShownAndCut(versions, limit, sort, latestVersion, compareBuild);
    var sorted := Sort(versions, Comparator(sort, compareBuild));
    var shown := Entries(Rank(versions, limit, sort, latestVersion, compareBuild));
    var rest := sorted[|shown|..];
    if limit >= |versions| {
      assert |shown| == |sorted|;
      assert rest == [];
    }
    if NonNegative(versions) {
      forall i | 0 <= i < |rest| ensures rest[i].1 >= 0 {
        assert rest[i] in multiset(versions);
        var k :| 0 <= k < |versions| && versions[k] == rest[i];
      }
      TotalNonNegative(rest);
    }
  }

  /**
   * The denominator is the total of the whole histogram: with a non-zero total
   * every share is a fraction over that total, and the numerators add up to
   * 100 times the downloads the rows show.
   */
  lemma {:induction false} RankShares(versions: seq<Entry>, limit: int, sort: string,
      latestVersion: Option<string>, compareBuild: (string, string) -> int)
    requires Total(versions) != 0
    ensures var rows := Rank(versions, limit, sort, latestVersion, compareBuild);
      && OverDenominator(rows, Total(versions))
      && Numerators(rows) == 100 * Total(Entries(rows))
  {
    var rows := Rank(versions, limit, sort, latestVersion, compareBuild);
    var data := Slice(Sort(versions, Comparator(sort, compareBuild)), limit);
    assert rows == Rows(data, Total(versions), latestVersion);
    assert Entries(rows) == data;
    NumeratorsOfRows(data, Total(versions), latestVersion);
  }

  /** With no entry cut off, the shares add up to exactly 100 percent. */
  lemma {:induction false} RankSharesComplete(versions: seq<Entry>, limit: int, sort: string,
      latestVersion: Option<string>, compareBuild: (string, string) -> int)
    requires Total(versions) != 0 && limit >= |versions|
    ensures var rows := Rank(versions, limit, sort, latestVersion, compareBuild);
      OverDenominator(rows, Total(versions)) && Numerators(rows) == 100 * Total(versions)
  {
    RankShares(versions, limit, sort, latestVersion, compareBuild);
    ShownTotal(versions, limit, sort, latestVersion, compareBuild);
  }

  /** When no count is negative, the shares of the rows add up to at most 100 percent. */
  lemma {:induction false} RankSharesAtMost100(versions: seq<Entry>, limit: int, sort: string,
      latestVersion: Option<string>, compareBuild: (string, string) -> int)
    requires Total(versions) > 0 && NonNegative(versions)
    ensures var rows := Rank(versions, limit, sort, latestVersion, compareBuild);
      OverDenominator(rows, Total(versions)) && Numerators(rows) <= 100 * Total(versions)
  {
    RankShares(versions, limit, sort, latestVersion, compareBuild);
    ShownTotal(versions, limit, sort, latestVersion, compareBuild);
  }

  /**
   * Cutting to a smaller limit only drops rows from the end: every kept row,
   * its share included, is the same whatever the limit.
   */
  lemma RankTruncation(versions: seq<Entry>, small: int, large: int, sort: string,
      latestVersion: Option<string>, compareBuild: (string, string) -> int)
    requires 0 <= small <= large
    ensures var few := Rank(versions, small, sort, latestVersion, compareBuild);
      IsPrefix(few, Rank(versions, large, sort, latestVersion, compareBuild))
  {
  }

  // ---------------------------------------------------------------------------
  // The current-version flag.

  predicate DistinctVersions(s: seq<Entry>) {
    forall i, j :: 0 <= i < j < |s| ==> s[i].0 != s[j].0
  }

  lemma {:induction false} InsertDistinct(x: Entry, t: seq<Entry>, cmp: (Entry, Entry) -> int)
    requires DistinctVersions(t)
    requires forall k :: 0 <= k < |t| ==> t[k].0 != x.0
    ensures DistinctVersions(Insert(x, t, cmp))
  {
    if t != [] && cmp(x, t[0]) > 0 {
      InsertDistinct(x, t[1..], cmp);
      var rest := Insert(x, t[1..], cmp);
      forall k | 0 <= k < |rest| ensures rest[k].0 != t[0].0 {
        MemberInsert(x, t[1..], cmp, rest[k]);
      }
    }
  }

  lemma {:induction false} SortDistinct(s: seq<Entry>, cmp: (Entry, Entry) -> int)
    requires DistinctVersions(s)
    ensures DistinctVersions(Sort(s, cmp))
  {
    if s != [] {
      SortDistinct(s[1..], cmp);
      var sorted := Sort(s[1..], cmp);
      forall k | 0 <= k < |sorted| ensures sorted[k].0 != s[0].0 {
        assert sorted[k] in multiset(s[1..]);
      }
      InsertDistinct(s[0], sorted, cmp);
    }
  }

  /**
   * A row is current exactly when its version string equals `latestVersion`;
   * when the histogram's versions are distinct, at most one row is current.
   */
  lemma {:induction false} AtMostOneCurrent(versions: seq<Entry>, limit: int, sort: string,
      latestVersion: Option<string>, compareBuild: (string, string) -> int)
    requires DistinctVersions(versions)
    ensures var rows := Rank(versions, limit, sort, latestVersion, compareBuild);
      forall i, j :: 0 <= i < j < |rows| && rows[i].isCurrent ==> !rows[j].isCurrent
  {
    var sorted := Sort(versions, Comparator(sort, compareBuild));
    SortDistinct(versions, Comparator(sort, compareBuild));
    var rows := Rank(versions, limit, sort, latestVersion, compareBuild);
    forall i, j | 0 <= i < j < |rows| && rows[i].isCurrent ensures !rows[j].isCurrent {
      assert sorted[i].0 != sorted[j].0;
    }
  }

  /**
   * A worked case: `{"2.0.0": 80, "1.9.0": 15, "1.8.0": 5}` with limit 2 and
   * the `count` strategy shows 2.0.0 at 80% and 1.9.0 at 15%; the dropped
   * 1.8.0 still counts towards the total of 100.
   */
  lemma WorkedExample(compareBuild: (string, string) -> int)
    ensures Rank([("2.0.0", 80), ("1.9.0", 15), ("1.8.0", 5)], 2, "count", Some("2.0.0"), compareBuild)
         == [Row("2.0.0", 80, Fraction(8000, 100), true), Row("1.9.0", 15, Fraction(1500, 100), false)]
  {
    var versions := [("2.0.0", 80), ("1.9.0", 15), ("1.8.0", 5)];
    ExampleTotal();
    ExampleSorted();
    var rows := Rank(versions, 2, "count", Some("2.0.0"), compareBuild);
    assert |rows| == 2;
    assert rows[0] == Row("2.0.0", 80, Fraction(8000, 100), true);
    assert rows[1] == Row("1.9.0", 15, Fraction(1500, 100), false);
  }

  lemma ExampleTotal()
    ensures Total([("2.0.0", 80), ("1.9.0", 15), ("1.8.0", 5)]) == 100
  {
    var versions := [("2.0.0", 80), ("1.9.0", 15), ("1.8.0", 5)];
    TotalCons(versions);
    TotalCons(versions[1..]);
    TotalCons(versions[2..]);
    assert versions[3..] == [];
  }

  lemma ExampleSorted()
    ensures Sort([("2.0.0", 80), ("1.9.0", 15), ("1.8.0", 5)], ByCount) == [("2.0.0", 80), ("1.9.0", 15), ("1.8.0", 5)]
  {
    var versions := [("2.0.0", 80), ("1.9.0", 15), ("1.8.0", 5)];
    var tail := [("1.9.0", 15), ("1.8.0", 5)];
    var last := [("1.8.0", 5)];
    assert versions[1..] == tail && tail[1..] == last && last[1..] == [];
    assert Sort(last, ByCount) == last;
    assert Insert(("1.9.0", 15), last, ByCount) == tail;
    assert Sort(tail, ByCount) == tail;
    assert Insert(("2.0.0", 80), tail, ByCount) == versions;
  }

  /** The empty histogram gives no rows, whatever the limit and strategy. */
  lemma EmptyHistogram(limit: int, sort: string, latestVersion: Option<string>,
                       compareBuild: (string, string) -> int)
    ensures Rank([], limit, sort, latestVersion, compareBuild) == []
  {
  }
}
