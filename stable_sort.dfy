/** `Array.prototype.sort(comparefn)` on a copy of an array. Since ES2019 that sort is
    stable, and for a consistent comparator a stable sort has exactly one possible
    result (`SortIsUnique`), so it is modelled by the stable insertion sort `Sort`.
    A comparator returns a number; `cmp(a, b) < 0` puts `a` first. */
module StableSort {

  /** `cmp` is a consistent comparator on the elements of `u`: the sign flips with the
      arguments and "not after" (`cmp(a, b) <= 0`) is transitive. */
  ghost predicate ConsistentOn<T>(cmp: (T, T) -> real, u: seq<T>) {
    && (forall a, b {:trigger cmp(a, b)} | a in u && b in u :: (cmp(a, b) < 0.0) == (cmp(b, a) > 0.0))
    && (forall a, b, c {:trigger cmp(a, b), cmp(b, c), cmp(a, c)} | a in u && b in u && c in u ::
          cmp(a, b) <= 0.0 && cmp(b, c) <= 0.0 ==> cmp(a, c) <= 0.0)
  }

  ghost predicate Within<T>(s: seq<T>, u: seq<T>) {
    forall x :: x in s ==> x in u
  }

  ghost predicate Sorted<T>(s: seq<T>, cmp: (T, T) -> real) {
    forall i, j | 0 <= i < j < |s| :: cmp(s[i], s[j]) <= 0.0
  }

  /** The elements of `s` that compare equal to `v`, in their order in `s`. */
  function Equivalents<T>(s: seq<T>, v: T, cmp: (T, T) -> real): (r: seq<T>)
    ensures (forall i | 0 <= i < |s| :: cmp(s[i], v) != 0.0) ==> r == []
  {
    if s == [] then []
    else (if cmp(s[0], v) == 0.0 then [s[0]] else []) + Equivalents(s[1..], v, cmp)
  }

  /** Stable with respect to `s`: every class of equal-comparing elements appears in
      the same order as in `s` (which makes it a permutation of `s`, too). */
  ghost predicate StableFor<T>(r: seq<T>, s: seq<T>, cmp: (T, T) -> real, u: seq<T>) {
    forall v | v in u :: Equivalents(r, v, cmp) == Equivalents(s, v, cmp)
  }

  /** Insert `x` into sorted `s` after every element that does not compare greater. */
  function Insert<T>(x: T, s: seq<T>, cmp: (T, T) -> real): (r: seq<T>)
    ensures |r| == |s| + 1
  {
    if s == [] then [x]
    else if cmp(x, s[0]) < 0.0 then [x] + s
    else [s[0]] + Insert(x, s[1..], cmp)
  }

  /** The sorted copy: each element, in input order, inserted into the sorted prefix. */
  function Sort<T>(s: seq<T>, cmp: (T, T) -> real): (r: seq<T>)
    ensures |r| == |s|
  {
    if s == [] then []
    else Insert(s[|s| - 1], Sort(s[..|s| - 1], cmp), cmp)
  }

  lemma {:induction false} InsertPermutes<T>(x: T, s: seq<T>, cmp: (T, T) -> real)
    ensures multiset(Insert(x, s, cmp)) == multiset(s) + multiset{x}
  {
    if s != [] && cmp(x, s[0]) >= 0.0 {
      InsertPermutes(x, s[1..], cmp);
      assert s == [s[0]] + s[1..];
    }
  }

  /** The sorted copy is a permutation of the input. */
  lemma {:induction false} SortPermutes<T>(s: seq<T>, cmp: (T, T) -> real)
    ensures multiset(Sort(s, cmp)) == multiset(s)
  {
    if s != [] {
      var init := s[..|s| - 1];
      SortPermutes(init, cmp);
      InsertPermutes(s[|s| - 1], Sort(init, cmp), cmp);
      assert s == init + [s[|s| - 1]];
    }
  }

  lemma SortWithin<T>(s: seq<T>, cmp: (T, T) -> real, u: seq<T>)
    requires Within(s, u)
    ensures Within(Sort(s, cmp), u)
  {
    SortPermutes(s, cmp);
    forall y | y in Sort(s, cmp) ensures y in u {
      assert y in multiset(Sort(s, cmp));
      assert y in multiset(s);
    }
  }

  lemma Reflexive<T>(cmp: (T, T) -> real, u: seq<T>, a: T)
    requires ConsistentOn(cmp, u) && a in u
    ensures cmp(a, a) == 0.0
  {
    assert (cmp(a, a) < 0.0) == (cmp(a, a) > 0.0);
  }

  lemma Flip<T>(cmp: (T, T) -> real, u: seq<T>, a: T, b: T)
    requires ConsistentOn(cmp, u) && a in u && b in u
    ensures (cmp(a, b) < 0.0) == (cmp(b, a) > 0.0)
    ensures (cmp(a, b) <= 0.0) == (cmp(b, a) >= 0.0)
  {
    assert (cmp(b, a) < 0.0) == (cmp(a, b) > 0.0);
  }

  lemma Trans<T>(cmp: (T, T) -> real, u: seq<T>, a: T, b: T, c: T)
    requires ConsistentOn(cmp, u) && a in u && b in u && c in u
    ensures cmp(a, b) <= 0.0 && cmp(b, c) <= 0.0 ==> cmp(a, c) <= 0.0
  {
  }

  /** `a < b <= c` gives `a < c`. */
  lemma StrictBefore<T>(cmp: (T, T) -> real, u: seq<T>, a: T, b: T, c: T)
    requires ConsistentOn(cmp, u) && a in u && b in u && c in u
    ensures cmp(a, b) < 0.0 && cmp(b, c) <= 0.0 ==> cmp(a, c) < 0.0
  {
    Flip(cmp, u, a, c);
    Flip(cmp, u, a, b);
    Trans(cmp, u, b, c, a);
  }

  /** `a <= b < c` gives `a < c`. */
  lemma StrictAfter<T>(cmp: (T, T) -> real, u: seq<T>, a: T, b: T, c: T)
    requires ConsistentOn(cmp, u) && a in u && b in u && c in u
    ensures cmp(a, b) <= 0.0 && cmp(b, c) < 0.0 ==> cmp(a, c) < 0.0
  {
    Flip(cmp, u, a, c);
    Flip(cmp, u, b, c);
    Trans(cmp, u, c, a, b);
  }

  /** `a` is not after any element of `t`. */
  ghost predicate NotAfterAll<T>(a: T, t: seq<T>, cmp: (T, T) -> real) {
    forall k | 0 <= k < |t| :: cmp(a, t[k]) <= 0.0
  }

  lemma SortedCons<T>(a: T, t: seq<T>, cmp: (T, T) -> real)
    requires NotAfterAll(a, t, cmp) && Sorted(t, cmp)
    ensures Sorted([a] + t, cmp)
  {
    var r := [a] + t;
    forall i, j | 0 <= i < j < |r| ensures cmp(r[i], r[j]) <= 0.0 {
      assert r[j] == t[j - 1];
      if i > 0 {
        assert r[i] == t[i - 1];
      }
    }
  }

  lemma {:induction false} InsertNotAfterAll<T>(a: T, x: T, s: seq<T>, cmp: (T, T) -> real)
    requires cmp(a, x) <= 0.0 && NotAfterAll(a, s, cmp)
    ensures NotAfterAll(a, Insert(x, s, cmp), cmp)
  {
    if s != [] && cmp(x, s[0]) >= 0.0 {
      InsertNotAfterAll(a, x, s[1..], cmp);
      var r := Insert(x, s, cmp);
      forall k | 0 <= k < |r| ensures cmp(a, r[k]) <= 0.0 {
        if k > 0 {
          assert r[k] == Insert(x, s[1..], cmp)[k - 1];
        }
      }
    }
  }

  lemma {:induction false} InsertSorted<T>(x: T, s: seq<T>, cmp: (T, T) -> real, u: seq<T>)
    requires ConsistentOn(cmp, u) && x in u && Within(s, u)
    requires Sorted(s, cmp)
    ensures Sorted(Insert(x, s, cmp), cmp)
  {
    if s == [] {
    } else if cmp(x, s[0]) < 0.0 {
      forall k | 0 <= k < |s| ensures cmp(x, s[k]) <= 0.0 {
        if k > 0 {
          assert cmp(s[0], s[k]) <= 0.0;
          Trans(cmp, u, x, s[0], s[k]);
        }
      }
      SortedCons(x, s, cmp);
    } else {
      var tail := s[1..];
      assert Within(tail, u) && Sorted(tail, cmp);
      InsertSorted(x, tail, cmp, u);
      Flip(cmp, u, x, s[0]);
      forall k | 0 <= k < |tail| ensures cmp(s[0], tail[k]) <= 0.0 {
        assert tail[k] == s[k + 1];
      }
      InsertNotAfterAll(s[0], x, tail, cmp);
      SortedCons(s[0], Insert(x, tail, cmp), cmp);
    }
  }

  /** The insertion sort puts its result in comparator order. */
  lemma {:induction false} SortSorted<T>(s: seq<T>, cmp: (T, T) -> real, u: seq<T>)
    requires ConsistentOn(cmp, u) && Within(s, u)
    ensures Sorted(Sort(s, cmp), cmp)
  {
    if s != [] {
      var init := s[..|s| - 1];
      SortSorted(init, cmp, u);
      SortWithin(init, cmp, u);
      InsertSorted(s[|s| - 1], Sort(init, cmp), cmp, u);
    }
  }

  lemma {:induction false} EquivalentsAppend<T>(s: seq<T>, t: seq<T>, v: T, cmp: (T, T) -> real)
    ensures Equivalents(s + t, v, cmp) == Equivalents(s, v, cmp) + Equivalents(t, v, cmp)
  {
    if s != [] {
      assert (s + t)[1..] == s[1..] + t;
      EquivalentsAppend(s[1..], t, v, cmp);
    } else {
      assert s + t == t;
    }
  }

  /** When `x` comes before the first element of sorted `s` and is equivalent to `v`,
      nothing in `s` is equivalent to `v`. */
  lemma NoneEquivalentAfter<T>(x: T, s: seq<T>, v: T, cmp: (T, T) -> real, u: seq<T>)
    requires ConsistentOn(cmp, u) && x in u && v in u && Within(s, u)
    requires Sorted(s, cmp) && s != [] && cmp(x, s[0]) < 0.0 && cmp(x, v) == 0.0
    ensures Equivalents(s, v, cmp) == []
  {
    Flip(cmp, u, x, v);
    forall i | 0 <= i < |s| ensures cmp(s[i], v) != 0.0 {
      if i > 0 {
        assert cmp(s[0], s[i]) <= 0.0;
      }
      StrictBefore(cmp, u, x, s[0], s[i]);
      StrictAfter(cmp, u, v, x, s[i]);
      Flip(cmp, u, v, s[i]);
    }
  }

  lemma {:induction false} InsertEquivalents<T>(x: T, s: seq<T>, v: T, cmp: (T, T) -> real, u: seq<T>)
    requires ConsistentOn(cmp, u) && x in u && v in u && Within(s, u)
    requires Sorted(s, cmp)
    ensures Equivalents(Insert(x, s, cmp), v, cmp)
         == Equivalents(s, v, cmp) + (if cmp(x, v) == 0.0 then [x] else [])
  {
    if s == [] {
    } else if cmp(x, s[0]) < 0.0 {
      InsertFrontEquivalents(x, s, v, cmp, u);
    } else {
      TailSortedWithin(s, cmp, u);
      InsertEquivalents(x, s[1..], v, cmp, u);
      InsertPastHeadEquivalents(x, s, v, cmp);
    }
  }

  /** Inserted in front of sorted `s`: `x` is the only new equivalent of `v`, and
      it comes last among them because none of `s` is equivalent to `v`. */
  lemma InsertFrontEquivalents<T>(x: T, s: seq<T>, v: T, cmp: (T, T) -> real, u: seq<T>)
    requires ConsistentOn(cmp, u) && x in u && v in u && Within(s, u)
    requires Sorted(s, cmp) && s != [] && cmp(x, s[0]) < 0.0
    ensures Equivalents(Insert(x, s, cmp), v, cmp)
         == Equivalents(s, v, cmp) + (if cmp(x, v) == 0.0 then [x] else [])
  {
    assert ([x] + s)[1..] == s;
    if cmp(x, v) == 0.0 {
      NoneEquivalentAfter(x, s, v, cmp, u);
    }
  }

  /** Inserted past the head: the head stays first, so the claim for the tail carries
      over. */
  lemma InsertPastHeadEquivalents<T>(x: T, s: seq<T>, v: T, cmp: (T, T) -> real)
    requires s != [] && !(cmp(x, s[0]) < 0.0)
    requires Equivalents(Insert(x, s[1..], cmp), v, cmp)
          == Equivalents(s[1..], v, cmp) + (if cmp(x, v) == 0.0 then [x] else [])
    ensures Equivalents(Insert(x, s, cmp), v, cmp)
         == Equivalents(s, v, cmp) + (if cmp(x, v) == 0.0 then [x] else [])
  {
    var rest := Insert(x, s[1..], cmp);
    assert Insert(x, s, cmp) == [s[0]] + rest;
    assert ([s[0]] + rest)[1..] == rest;
  }

  lemma SplitLast<T>(s: seq<T>)
    requires s != []
    ensures s == s[..|s| - 1] + [s[|s| - 1]]
  {
  }

  /** The insertion sort is stable: equal-comparing elements keep their input order. */
  lemma {:induction false} SortStable<T>(s: seq<T>, v: T, cmp: (T, T) -> real, u: seq<T>)
    requires ConsistentOn(cmp, u) && v in u && Within(s, u)
    ensures Equivalents(Sort(s, cmp), v, cmp) == Equivalents(s, v, cmp)
  {
    if s != [] {
      var init, last := s[..|s| - 1], s[|s| - 1];
      var sorted := Sort(init, cmp);
      assert Sort(s, cmp) == Insert(last, sorted, cmp);
      SortStable(init, v, cmp, u);
      SortSorted(init, cmp, u);
      SortWithin(init, cmp, u);
      InsertEquivalents(last, sorted, v, cmp, u);
      EquivalentsSnoc(s, v, cmp);
    }
  }

  lemma EquivalentsSnoc<T>(s: seq<T>, v: T, cmp: (T, T) -> real)
    requires s != []
    ensures Equivalents(s, v, cmp)
         == Equivalents(s[..|s| - 1], v, cmp) + (if cmp(s[|s| - 1], v) == 0.0 then [s[|s| - 1]] else [])
  {
    var last := s[|s| - 1];
    SplitLast(s);
    EquivalentsAppend(s[..|s| - 1], [last], v, cmp);
    assert [last][1..] == [];
  }

  /** The first element equivalent to `v` is an element of `s`. */
  lemma {:induction false} FirstEquivalent<T>(s: seq<T>, v: T, cmp: (T, T) -> real)
    requires Equivalents(s, v, cmp) != []
    ensures Equivalents(s, v, cmp)[0] in s && cmp(Equivalents(s, v, cmp)[0], v) == 0.0
  {
    if cmp(s[0], v) != 0.0 {
      FirstEquivalent(s[1..], v, cmp);
    }
  }

  lemma HeadEquivalent<T>(r: seq<T>, cmp: (T, T) -> real, u: seq<T>)
    requires ConsistentOn(cmp, u) && Within(r, u) && r != []
    ensures Equivalents(r, r[0], cmp) != []
  {
    Reflexive(cmp, u, r[0]);
    assert Equivalents(r, r[0], cmp)[0] == r[0];
  }

  /** Every element of sorted `r` before one equivalent to `b` is not after `b`. */
  lemma FirstNotAfter<T>(r: seq<T>, b: T, cmp: (T, T) -> real, u: seq<T>)
    requires ConsistentOn(cmp, u) && Within(r, u) && b in u
    requires Sorted(r, cmp) && Equivalents(r, b, cmp) != []
    ensures cmp(r[0], b) <= 0.0
  {
    var y := Equivalents(r, b, cmp)[0];
    FirstEquivalent(r, b, cmp);
    var iy :| 0 <= iy < |r| && r[iy] == y;
    Reflexive(cmp, u, r[0]);
    assert cmp(r[0], y) <= 0.0;
    Trans(cmp, u, r[0], y, b);
  }

  /** Two sorted sequences with the same equivalence classes, in the same orders, are
      equal: a stable sort has only one possible result. */
  lemma {:induction false} SortedStableUnique<T>(r1: seq<T>, r2: seq<T>, cmp: (T, T) -> real, u: seq<T>)
    requires ConsistentOn(cmp, u) && Within(r1, u) && Within(r2, u)
    requires Sorted(r1, cmp) && Sorted(r2, cmp)
    requires forall v | v in u :: Equivalents(r1, v, cmp) == Equivalents(r2, v, cmp)
    ensures r1 == r2
    decreases |r1|
  {
    if r1 == [] && r2 == [] {
    } else if r1 == [] {
      HeadEquivalent(r2, cmp, u);
      assert false;
    } else if r2 == [] {
      HeadEquivalent(r1, cmp, u);
      assert false;
    } else {
      var a, b := r1[0], r2[0];
      HeadEquivalent(r1, cmp, u);
      HeadEquivalent(r2, cmp, u);
      FirstNotAfter(r1, b, cmp, u);
      FirstNotAfter(r2, a, cmp, u);
      Flip(cmp, u, a, b);
      assert cmp(b, a) == 0.0;
      assert Equivalents(r1, a, cmp)[0] == a;
      assert Equivalents(r2, a, cmp)[0] == b;
      forall v | v in u
        ensures Equivalents(r1[1..], v, cmp) == Equivalents(r2[1..], v, cmp)
      {
        DropHead(r1, r2, v, cmp);
      }
      TailSortedWithin(r1, cmp, u);
      TailSortedWithin(r2, cmp, u);
      SortedStableUnique(r1[1..], r2[1..], cmp, u);
      SameHead(r1, r2);
    }
  }

  /** Equal class sequences of two sequences with the same head stay equal without it. */
  lemma DropHead<T>(r1: seq<T>, r2: seq<T>, v: T, cmp: (T, T) -> real)
    requires r1 != [] && r2 != [] && r1[0] == r2[0]
    ensures Equivalents(r1, v, cmp) == Equivalents(r2, v, cmp)
        ==> Equivalents(r1[1..], v, cmp) == Equivalents(r2[1..], v, cmp)
  {
    var h := if cmp(r1[0], v) == 0.0 then [r1[0]] else [];
    var t1, t2 := Equivalents(r1[1..], v, cmp), Equivalents(r2[1..], v, cmp);
    if h + t1 == h + t2 {
      assert t1 == (h + t1)[|h|..] && t2 == (h + t2)[|h|..];
    }
  }

  lemma TailSortedWithin<T>(r: seq<T>, cmp: (T, T) -> real, u: seq<T>)
    requires r != []
    ensures Within(r, u) ==> Within(r[1..], u)
    ensures Sorted(r, cmp) ==> Sorted(r[1..], cmp)
  {
    if Sorted(r, cmp) {
      forall i, j | 0 <= i < j < |r| - 1 ensures cmp(r[1..][i], r[1..][j]) <= 0.0 {
        assert r[1..][i] == r[i + 1] && r[1..][j] == r[j + 1];
      }
    }
  }

  lemma SameHead<T>(r1: seq<T>, r2: seq<T>)
    requires r1 != [] && r2 != [] && r1[0] == r2[0] && r1[1..] == r2[1..]
    ensures r1 == r2
  {
    assert r1 == [r1[0]] + r1[1..] && r2 == [r2[0]] + r2[1..];
  }

  /** Any sorted arrangement of `s` that is stable with respect to `s` (what a
      stable sort promises) is `Sort(s)`. */
  lemma SortIsUnique<T>(s: seq<T>, r: seq<T>, cmp: (T, T) -> real)
    requires ConsistentOn(cmp, s) && Within(r, s)
    requires Sorted(r, cmp) && StableFor(r, s, cmp, s)
    ensures r == Sort(s, cmp)
  {
    SortSorted(s, cmp, s);
    SortWithin(s, cmp, s);
    forall v | v in s ensures Equivalents(r, v, cmp) == Equivalents(Sort(s, cmp), v, cmp) {
      SortStable(s, v, cmp, s);
    }
    SortedStableUnique(r, Sort(s, cmp), cmp, s);
  }

  /** When every pair compares equal the sort leaves the order unchanged. */
  lemma SortAllEqual<T>(s: seq<T>, cmp: (T, T) -> real)
    requires forall a, b | a in s && b in s :: cmp(a, b) == 0.0
    ensures Sort(s, cmp) == s
  {
    SortIsUnique(s, s, cmp);
  }
}
