/**
 * Sorting with a comparator in the sense of `Array.prototype.sort`: a comparator
 * returns a negative number when its first argument goes first, a positive one
 * when its second argument goes first, and zero for a tie. Since ES2019 the sort
 * is stable: tied elements keep their relative order. `Sort` is an insertion
 * sort; `StableSortIsUnique` shows that every stable sort with a consistent
 * comparator produces exactly its result.
 */
module SortOrder {

  /**
   * The ECMAScript conditions for a consistent comparator: the sign of
   * cmp(a, b) is the opposite of the sign of cmp(b, a), and "goes first or ties"
   * is transitive.
   */
  ghost predicate Consistent<T(!new)>(cmp: (T, T) -> int) {
    && (forall a, b :: cmp(a, b) < 0 <==> cmp(b, a) > 0)
    && (forall a, b, c {:trigger Chain(cmp, a, b, c)} :: Chain(cmp, a, b, c) ==> cmp(a, c) <= 0)
  }

  /** `a` goes first or ties with `b`, which goes first or ties with `c`. */
  ghost predicate Chain<T>(cmp: (T, T) -> int, a: T, b: T, c: T) {
    cmp(a, b) <= 0 && cmp(b, c) <= 0
  }

  /** Transitivity of a consistent comparator, one instance at a time. */
  lemma Transitive<T(!new)>(cmp: (T, T) -> int, a: T, b: T, c: T)
    requires Consistent(cmp)
    requires cmp(a, b) <= 0 && cmp(b, c) <= 0
    ensures cmp(a, c) <= 0
  {
    assert Chain(cmp, a, b, c);
  }

  /** Every element goes first or ties with every element after it. */
  predicate Sorted<T>(s: seq<T>, cmp: (T, T) -> int) {
    forall i, j :: 0 <= i < j < |s| ==> cmp(s[i], s[j]) <= 0
  }

  /** The subsequence of `s` of the elements that tie with `e`, in their order in `s`. */
  function Ties<T>(s: seq<T>, cmp: (T, T) -> int, e: T): (r: seq<T>)
    ensures |r| <= |s|
    ensures forall x :: x in r ==> x in s && cmp(x, e) == 0
  {
    if s == [] then []
    else (if cmp(s[0], e) == 0 then [s[0]] else []) + Ties(s[1..], cmp, e)
  }

  predicate IsPrefix<T(==)>(a: seq<T>, b: seq<T>) {
    |a| <= |b| && b[..|a|] == a
  }

  /**
   * Inserts `x` into `t` before the first element that `x` goes first or ties
   * with; `x` therefore stays ahead of the elements of `t` it ties with.
   */
  function Insert<T(==)>(x: T, t: seq<T>, cmp: (T, T) -> int): (r: seq<T>)
    ensures |r| == |t| + 1
    ensures multiset(r) == multiset(t) + multiset{x}
  {
    if t == [] || cmp(x, t[0]) <= 0 then [x] + t
    else
      assert t == [t[0]] + t[1..];
      [t[0]] + Insert(x, t[1..], cmp)
  }

  /** The stable sort of `s` under `cmp`: a permutation of `s`. */
  function Sort<T(==)>(s: seq<T>, cmp: (T, T) -> int): (r: seq<T>)
    ensures |r| == |s|
    ensures multiset(r) == multiset(s)
  {
    if s == [] then []
    else
      assert s == [s[0]] + s[1..];
      Insert(s[0], Sort(s[1..], cmp), cmp)
  }

  /** Ties in both directions: two elements that tie with a third tie with each other. */
  lemma TieTransitive<T(!new)>(cmp: (T, T) -> int, a: T, b: T, e: T)
    requires Consistent(cmp)
    requires cmp(a, e) == 0 && cmp(b, e) == 0
    ensures cmp(a, b) == 0 && cmp(b, a) == 0
  {
    Transitive(cmp, a, e, b);
    Transitive(cmp, b, e, a);
  }

  lemma {:induction false} MemberInsert<T>(x: T, t: seq<T>, cmp: (T, T) -> int, y: T)
    requires y in Insert(x, t, cmp)
    ensures y == x || y in t
  {
    assert y in multiset(Insert(x, t, cmp));
  }

  lemma {:induction false} InsertSorted<T(!new)>(x: T, t: seq<T>, cmp: (T, T) -> int)
    requires Consistent(cmp) && Sorted(t, cmp)
    ensures Sorted(Insert(x, t, cmp), cmp)
  {
    if t == [] || cmp(x, t[0]) <= 0 {
      var r := [x] + t;
      forall i, j | 0 <= i < j < |r| ensures cmp(r[i], r[j]) <= 0 {
        if i == 0 && j > 1 {
          Transitive(cmp, x, t[0], t[j - 1]);
        }
      }
    } else {
      var rest := Insert(x, t[1..], cmp);
      InsertSorted(x, t[1..], cmp);
      var r := [t[0]] + rest;
      forall i, j | 0 <= i < j < |r| ensures cmp(r[i], r[j]) <= 0 {
        if i == 0 {
          var y := rest[j - 1];
          MemberInsert(x, t[1..], cmp, y);
          if y != x {
            var m :| 0 <= m < |t[1..]| && t[1..][m] == y;
            assert t[m + 1] == y;
          }
        }
      }
    }
  }

  /** The result of `Sort` is sorted. */
  lemma {:induction false} SortSorted<T(!new)>(s: seq<T>, cmp: (T, T) -> int)
    requires Consistent(cmp)
    ensures Sorted(Sort(s, cmp), cmp)
  {
    if s != [] {
      SortSorted(s[1..], cmp);
      InsertSorted(s[0], Sort(s[1..], cmp), cmp);
    }
  }

  lemma {:induction false} TiesAppend<T>(a: seq<T>, b: seq<T>, cmp: (T, T) -> int, e: T)
    ensures Ties(a + b, cmp, e) == Ties(a, cmp, e) + Ties(b, cmp, e)
  {
    if a != [] {
      assert (a + b)[1..] == a[1..] + b;
      TiesAppend(a[1..], b, cmp, e);
    } else {
      assert a + b == b;
    }
  }

  lemma {:induction false} TiesInsert<T(!new)>(x: T, t: seq<T>, cmp: (T, T) -> int, e: T)
    requires Consistent(cmp)
    ensures Ties(Insert(x, t, cmp), cmp, e) == Ties([x] + t, cmp, e)
  {
    if t != [] && cmp(x, t[0]) > 0 {
      var rest := Insert(x, t[1..], cmp);
      assert t == [t[0]] + t[1..];
      if cmp(x, e) == 0 && cmp(t[0], e) == 0 {
        TieTransitive(cmp, x, t[0], e);
      }
      calc {
        Ties(Insert(x, t, cmp), cmp, e);
        Ties([t[0]] + rest, cmp, e);
        { TiesAppend([t[0]], rest, cmp, e); }
        Ties([t[0]], cmp, e) + Ties(rest, cmp, e);
        { TiesInsert(x, t[1..], cmp, e); TiesAppend([x], t[1..], cmp, e); }
        Ties([t[0]], cmp, e) + (Ties([x], cmp, e) + Ties(t[1..], cmp, e));
        // x and t[0] do not tie, so at most one of them ties with e
        Ties([x], cmp, e) + (Ties([t[0]], cmp, e) + Ties(t[1..], cmp, e));
        { TiesAppend([t[0]], t[1..], cmp, e); }
        Ties([x], cmp, e) + Ties(t, cmp, e);
        { TiesAppend([x], t, cmp, e); }
        Ties([x] + t, cmp, e);
      }
    }
  }

  /** Stability: for every tie class, `Sort` keeps the order the elements had in `s`. */
  lemma {:induction false} SortStable<T(!new)>(s: seq<T>, cmp: (T, T) -> int, e: T)
    requires Consistent(cmp)
    ensures Ties(Sort(s, cmp), cmp, e) == Ties(s, cmp, e)
  {
    if s != [] {
      SortStable(s[1..], cmp, e);
      TiesInsert(s[0], Sort(s[1..], cmp), cmp, e);
      TiesAppend([s[0]], Sort(s[1..], cmp), cmp, e);
      TiesAppend([s[0]], s[1..], cmp, e);
      assert s == [s[0]] + s[1..];
    }
  }

  /** Taking a prefix keeps a prefix of every tie class. */
  lemma {:induction false} TiesOfPrefix<T>(s: seq<T>, k: nat, cmp: (T, T) -> int, e: T)
    requires k <= |s|
    ensures IsPrefix(Ties(s[..k], cmp, e), Ties(s, cmp, e))
  {
    assert s == s[..k] + s[k..];
    TiesAppend(s[..k], s[k..], cmp, e);
  }

  lemma {:induction false} TiesDrop<T>(s: seq<T>, cmp: (T, T) -> int, e: T)
    requires s != []
    ensures Ties(s[1..], cmp, e) == if cmp(s[0], e) == 0 then Ties(s, cmp, e)[1..] else Ties(s, cmp, e)
  {
  }

  /**
   * Any sorted permutation of `s` that keeps every tie class in the order of `s`
   * is `Sort(s, cmp)`: the result does not depend on which stable sort runs.
   */
  lemma {:induction false} StableSortIsUnique<T(!new)>(s: seq<T>, r: seq<T>, cmp: (T, T) -> int)
    requires Consistent(cmp)
    requires multiset(r) == multiset(s) && Sorted(r, cmp)
    requires forall e :: Ties(r, cmp, e) == Ties(s, cmp, e)
    ensures r == Sort(s, cmp)
  {
    var q := Sort(s, cmp);
    SortSorted(s, cmp);
    forall e ensures Ties(q, cmp, e) == Ties(r, cmp, e) {
      SortStable(s, cmp, e);
    }
    SortedStableEqual(r, q, cmp);
  }

  lemma {:induction false} SortedStableEqual<T(!new)>(r: seq<T>, q: seq<T>, cmp: (T, T) -> int)
    requires Consistent(cmp)
    requires multiset(r) == multiset(q) && Sorted(r, cmp) && Sorted(q, cmp)
    requires forall e :: Ties(q, cmp, e) == Ties(r, cmp, e)
    ensures r == q
    decreases |r|
  {
    assert |r| == |multiset(r)| == |multiset(q)| == |q|;
    if r != [] {
      SameHead(r, q, cmp);
      MultisetTail(r, q);
      SortedTail(r, cmp);
      SortedTail(q, cmp);
      TiesTail(r, q, cmp);
      SortedStableEqual(r[1..], q[1..], cmp);
    }
  }

  lemma MultisetTail<T>(r: seq<T>, q: seq<T>)
    requires r != [] && q != [] && r[0] == q[0] && multiset(r) == multiset(q)
    ensures multiset(r[1..]) == multiset(q[1..])
  {
    assert r == [r[0]] + r[1..] && q == [q[0]] + q[1..];
    assert multiset(r[1..]) == multiset(r) - multiset{r[0]};
    assert multiset(q[1..]) == multiset(q) - multiset{q[0]};
  }

  lemma SortedTail<T>(s: seq<T>, cmp: (T, T) -> int)
    requires s != [] && Sorted(s, cmp)
    ensures Sorted(s[1..], cmp)
  {
    forall i, j | 0 <= i < j < |s[1..]| ensures cmp(s[1..][i], s[1..][j]) <= 0 {
      assert cmp(s[i + 1], s[j + 1]) <= 0;
    }
  }

  lemma TiesTail<T>(r: seq<T>, q: seq<T>, cmp: (T, T) -> int)
    requires r != [] && q != [] && r[0] == q[0]
    requires forall e :: Ties(q, cmp, e) == Ties(r, cmp, e)
    ensures forall e :: Ties(q[1..], cmp, e) == Ties(r[1..], cmp, e)
  {
    forall e ensures Ties(q[1..], cmp, e) == Ties(r[1..], cmp, e) {
      TiesDrop(q, cmp, e);
      TiesDrop(r, cmp, e);
    }
  }

  /** Two sorted permutations with the same tie classes start with the same element. */
  lemma SameHead<T(!new)>(r: seq<T>, q: seq<T>, cmp: (T, T) -> int)
    requires Consistent(cmp)
    requires r != [] && multiset(r) == multiset(q) && Sorted(r, cmp) && Sorted(q, cmp)
    requires forall e :: Ties(q, cmp, e) == Ties(r, cmp, e)
    ensures q != [] && r[0] == q[0]
  {
    var a := r[0];
    assert a in multiset(q);
    var i :| 0 <= i < |q| && q[i] == a;
    var b := q[0];
    assert b in multiset(r);
    var j :| 0 <= j < |r| && r[j] == b;
    assert cmp(b, a) <= 0 && cmp(a, b) <= 0 by {
      if i > 0 { assert cmp(q[0], q[i]) <= 0; }
      if j > 0 { assert cmp(r[0], r[j]) <= 0; }
    }
    assert cmp(a, a) == 0;
    assert Ties(r, cmp, a)[0] == a;
    assert Ties(q, cmp, a) == Ties(r, cmp, a);
    assert Ties(q, cmp, a)[0] == b;
  }
}
