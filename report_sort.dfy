/** Sorting the report table: the column a header names, the comparator
    `sortResults` hands to `Array.prototype.sort`, and the header click that picks
    or flips the sort. */
module ReportSort {
  import opened Wrappers
  import opened JsValues
  import opened StableSort
  import opened Processing

  /** What `getSortValue` returns for a row: `null`, a number or a string. */
  datatype SortValue = NullValue | NumValue(n: real) | TextValue(s: string)

  /** The header keys `getSortValue` knows. */
  predicate IsKnownKey(key: string) {
    key in {"sobject", "field", "sobjectCount", "nonNullCount", "nonNullPercentage", "status"}
  }

  /** The keys whose column holds strings. */
  predicate IsTextKey(key: string) {
    key in {"sobject", "field", "status"}
  }

  function OptionValue(v: Option<real>): SortValue {
    match v
    case None => NullValue
    case Some(n) => NumValue(n)
  }

  /** `getSortValue(result, key)`. */
  function SortValueOf(row: ResultEntry, key: string): (v: SortValue)
    ensures !IsKnownKey(key) ==> v == NullValue
    ensures IsTextKey(key) ==> v.TextValue?
    ensures !IsTextKey(key) ==> !v.TextValue?
  {
    match key
    case "sobject" => TextValue(row.sobjectLabel)
    case "field" => TextValue(row.fieldLabel)
    case "sobjectCount" => OptionValue(row.sobjectCount)
    case "nonNullCount" => OptionValue(row.nonNullCount)
    case "nonNullPercentage" => OptionValue(row.nonNullPercentage)
    case "status" => TextValue(row.status)
    case _ => NullValue
  }

  /** `value.toString()` for the two non-null kinds. */
  function ValueText(v: SortValue, rt: Runtime): string {
    match v
    case NullValue => "null"
    case NumValue(n) => rt.numberText(n)
    case TextValue(s) => s
  }

  /** `direction === "desc" ? -1 : 1`. */
  function Multiplier(direction: string): (m: real)
    ensures m == 1.0 || m == -1.0
    ensures m == -1.0 <==> direction == "desc"
  {
    if direction == "desc" then -1.0 else 1.0
  }

  /** The body of the comparator: nulls go last (first when descending), numbers by
      difference, anything else by `localeCompare` of the texts. */
  function CompareValues(a: SortValue, b: SortValue, m: real, rt: Runtime): real {
    if a.NullValue? && b.NullValue? then 0.0
    else if a.NullValue? then 1.0 * m
    else if b.NullValue? then -1.0 * m
    else if a.NumValue? && b.NumValue? then (a.n - b.n) * m
    else (rt.localeCompare(ValueText(a, rt), ValueText(b, rt)) as real) * m
  }

  /** The comparator `sortResults` passes to `sort`. */
  function Comparator(key: string, direction: string, rt: Runtime): (ResultEntry, ResultEntry) -> real {
    (a: ResultEntry, b: ResultEntry) => CompareValues(SortValueOf(a, key), SortValueOf(b, key), Multiplier(direction), rt)
  }

  /** `sortResults(results, key, direction)`: a copy, sorted when a key is set. */
  function SortResults(results: seq<ResultEntry>, key: Option<string>, direction: string, rt: Runtime): (r: seq<ResultEntry>)
    ensures multiset(r) == multiset(results)
    ensures key.None? || key.value == "" ==> r == results
  {
    if key.None? || key.value == "" then results
    else
      SortPermutes(results, Comparator(key.value, direction, rt));
      Sort(results, Comparator(key.value, direction, rt))
  }

  /* ---------- the comparator is consistent ---------- */

  /** Swapping the arguments flips the sign. */
  lemma ValueFlip(a: SortValue, b: SortValue, m: real, rt: Runtime)
    requires ConsistentCollation(rt) && (m == 1.0 || m == -1.0)
    ensures (CompareValues(a, b, m, rt) < 0.0) == (CompareValues(b, a, m, rt) > 0.0)
  {
    if !a.NullValue? && !b.NullValue? && !(a.NumValue? && b.NumValue?) {
      var x, y := ValueText(a, rt), ValueText(b, rt);
      assert (rt.localeCompare(x, y) < 0) == (rt.localeCompare(y, x) > 0);
      assert (rt.localeCompare(y, x) < 0) == (rt.localeCompare(x, y) > 0);
    }
  }

  /** Descending compares exactly as the negated ascending comparison. */
  lemma DescNegatesAsc(a: SortValue, b: SortValue, rt: Runtime)
    ensures CompareValues(a, b, -1.0, rt) == -CompareValues(a, b, 1.0, rt)
  {
  }

  /** A column holds values of one kind: strings, or numbers and nulls. */
  predicate OfKind(v: SortValue, textual: bool) {
    if textual then v.TextValue? else !v.TextValue?
  }

  /** "Not after" is transitive in ascending order within a column. */
  lemma AscTrans(a: SortValue, b: SortValue, c: SortValue, textual: bool, rt: Runtime)
    requires ConsistentCollation(rt)
    requires OfKind(a, textual) && OfKind(b, textual) && OfKind(c, textual)
    requires CompareValues(a, b, 1.0, rt) <= 0.0 && CompareValues(b, c, 1.0, rt) <= 0.0
    ensures CompareValues(a, c, 1.0, rt) <= 0.0
  {
    if textual {
      assert rt.localeCompare(a.s, b.s) <= 0 && rt.localeCompare(b.s, c.s) <= 0;
    }
  }

  lemma ValueTrans(a: SortValue, b: SortValue, c: SortValue, textual: bool, m: real, rt: Runtime)
    requires ConsistentCollation(rt) && (m == 1.0 || m == -1.0)
    requires OfKind(a, textual) && OfKind(b, textual) && OfKind(c, textual)
    ensures CompareValues(a, b, m, rt) <= 0.0 && CompareValues(b, c, m, rt) <= 0.0 ==> CompareValues(a, c, m, rt) <= 0.0
  {
    if CompareValues(a, b, m, rt) <= 0.0 && CompareValues(b, c, m, rt) <= 0.0 {
      if m == 1.0 {
        AscTrans(a, b, c, textual, rt);
      } else {
        DescNegatesAsc(a, b, rt);
        DescNegatesAsc(b, c, rt);
        DescNegatesAsc(a, c, rt);
        ValueFlip(a, b, 1.0, rt);
        ValueFlip(b, c, 1.0, rt);
        ValueFlip(a, c, 1.0, rt);
        AscTrans(c, b, a, textual, rt);
      }
    }
  }

  /** With a consistent collation the comparator of every column and direction is
      consistent, so `sort` has a single stable result. */
  lemma ComparatorConsistent(key: string, direction: string, rt: Runtime, u: seq<ResultEntry>)
    requires ConsistentCollation(rt)
    ensures ConsistentOn(Comparator(key, direction, rt), u)
  {
    var cmp := Comparator(key, direction, rt);
    var m := Multiplier(direction);
    forall a, b | a in u && b in u ensures (cmp(a, b) < 0.0) == (cmp(b, a) > 0.0) {
      ValueFlip(SortValueOf(a, key), SortValueOf(b, key), m, rt);
    }
    forall a, b, c | a in u && b in u && c in u && cmp(a, b) <= 0.0 && cmp(b, c) <= 0.0
      ensures cmp(a, c) <= 0.0
    {
      ValueTrans(SortValueOf(a, key), SortValueOf(b, key), SortValueOf(c, key), IsTextKey(key), m, rt);
    }
  }

  /* ---------- what the sorted table looks like ---------- */

  /** The order of a sorted table: ascending puts every null last, numbers rising and
      texts in collation order; descending puts nulls first, numbers falling and texts
      in reverse collation order. */
  lemma SortedTable(results: seq<ResultEntry>, key: string, direction: string, rt: Runtime)
    requires ConsistentCollation(rt) && key != ""
    ensures var r := SortResults(results, Some(key), direction, rt);
      forall i, j | 0 <= i < j < |r| ::
        var a, b := SortValueOf(r[i], key), SortValueOf(r[j], key);
        && (direction != "desc" && a.NullValue? ==> b.NullValue?)
        && (direction == "desc" && !a.NullValue? ==> !b.NullValue?)
        && (a.NumValue? && b.NumValue? ==> if direction == "desc" then a.n >= b.n else a.n <= b.n)
        && (a.TextValue? && b.TextValue? ==>
              if direction == "desc" then rt.localeCompare(a.s, b.s) >= 0 else rt.localeCompare(a.s, b.s) <= 0)
  {
    var cmp := Comparator(key, direction, rt);
    ComparatorConsistent(key, direction, rt, results);
    SortSorted(results, cmp, results);
    var r := SortResults(results, Some(key), direction, rt);
    forall i, j | 0 <= i < j < |r|
      ensures var a, b := SortValueOf(r[i], key), SortValueOf(r[j], key);
        && (direction != "desc" && a.NullValue? ==> b.NullValue?)
        && (direction == "desc" && !a.NullValue? ==> !b.NullValue?)
        && (a.NumValue? && b.NumValue? ==> if direction == "desc" then a.n >= b.n else a.n <= b.n)
        && (a.TextValue? && b.TextValue? ==>
              if direction == "desc" then rt.localeCompare(a.s, b.s) >= 0 else rt.localeCompare(a.s, b.s) <= 0)
    {
      assert cmp(r[i], r[j]) <= 0.0;
    }
  }

  /** A key `getSortValue` does not know makes every row compare equal, so the table
      keeps its order. */
  lemma UnknownKeyKeepsOrder(results: seq<ResultEntry>, key: string, direction: string, rt: Runtime)
    requires !IsKnownKey(key)
    ensures SortResults(results, Some(key), direction, rt) == results
  {
    SortAllEqual(results, Comparator(key, direction, rt));
  }

  function Reverse<T>(s: seq<T>): (r: seq<T>)
    ensures |r| == |s|
    ensures forall i | 0 <= i < |s| :: r[i] == s[|s| - 1 - i]
  {
    if s == [] then [] else Reverse(s[1..]) + [s[0]]
  }

  lemma {:induction false} ReversePermutes<T>(s: seq<T>)
    ensures multiset(Reverse(s)) == multiset(s)
  {
    if s != [] {
      ReversePermutes(s[1..]);
      assert s == [s[0]] + s[1..];
    }
  }

  function Copies<T>(v: T, n: nat): (r: seq<T>)
    ensures |r| == n
  {
    if n == 0 then [] else [v] + Copies(v, n - 1)
  }

  /** When only `v` itself compares equal to `v`, its equivalents are its copies. */
  lemma {:induction false} EquivalentsAreCopies<T>(s: seq<T>, v: T, cmp: (T, T) -> real)
    requires forall i | 0 <= i < |s| :: cmp(s[i], v) == 0.0 <==> s[i] == v
    ensures Equivalents(s, v, cmp) == Copies(v, multiset(s)[v])
  {
    if s != [] {
      EquivalentsAreCopies(s[1..], v, cmp);
      assert s == [s[0]] + s[1..];
      assert multiset(s)[v] == (if s[0] == v then 1 else 0) + multiset(s[1..])[v];
    }
  }

  /** No two different rows tie on the column. */
  ghost predicate NoTies(results: seq<ResultEntry>, key: string, rt: Runtime) {
    forall a, b | a in results && b in results && a != b :: Comparator(key, "asc", rt)(a, b) != 0.0
  }

  /** Sorting descending gives the ascending table reversed, when different rows
      never tie on the column. */
  lemma DescIsReversedAsc(results: seq<ResultEntry>, key: string, rt: Runtime)
    requires ConsistentCollation(rt) && key != ""
    requires NoTies(results, key, rt)
    ensures SortResults(results, Some(key), "desc", rt) == Reverse(SortResults(results, Some(key), "asc", rt))
  {
    var up, down := Comparator(key, "asc", rt), Comparator(key, "desc", rt);
    ComparatorConsistent(key, "asc", rt, results);
    ComparatorConsistent(key, "desc", rt, results);
    var a := Sort(results, up);
    var r := Reverse(a);
    SortPermutes(results, up);
    ReversePermutes(a);
    SamePermutationWithin(r, results);
    SamePermutationWithin(a, results);
    Negated(key, rt);
    SortSorted(results, up, results);
    ReversedSorted(a, up, down, results);
    NoTiesStable(r, results, key, "desc", rt);
    SortIsUnique(results, r, down);
  }

  lemma SamePermutationWithin<T>(r: seq<T>, s: seq<T>)
    requires multiset(r) == multiset(s)
    ensures Within(r, s)
  {
    forall x | x in r ensures x in s {
      assert multiset(r)[x] > 0;
    }
  }

  lemma Negated(key: string, rt: Runtime)
    ensures forall x, y :: Comparator(key, "desc", rt)(x, y) == -Comparator(key, "asc", rt)(x, y)
  {
    forall x, y ensures Comparator(key, "desc", rt)(x, y) == -Comparator(key, "asc", rt)(x, y) {
      DescNegatesAsc(SortValueOf(x, key), SortValueOf(y, key), rt);
    }
  }

  /** Reversing a sorted sequence sorts it for the negated comparator. */
  lemma ReversedSorted<T>(a: seq<T>, up: (T, T) -> real, down: (T, T) -> real, u: seq<T>)
    requires ConsistentOn(up, u) && Within(a, u) && Sorted(a, up)
    requires forall x, y :: down(x, y) == -up(x, y)
    ensures Sorted(Reverse(a), down)
  {
    var r := Reverse(a);
    forall i, j | 0 <= i < j < |r| ensures down(r[i], r[j]) <= 0.0 {
      var p, q := |a| - 1 - j, |a| - 1 - i;
      assert up(a[p], a[q]) <= 0.0;
      Flip(up, u, a[p], a[q]);
    }
  }

  /** Without ties every row's equivalents are its own copies, so any permutation of
      the rows is stable. */
  lemma NoTiesStable(r: seq<ResultEntry>, results: seq<ResultEntry>, key: string, direction: string, rt: Runtime)
    requires ConsistentCollation(rt) && NoTies(results, key, rt)
    requires multiset(r) == multiset(results) && Within(r, results)
    ensures StableFor(r, results, Comparator(key, direction, rt), results)
  {
    var cmp := Comparator(key, direction, rt);
    ComparatorConsistent(key, direction, rt, results);
    Scaled(key, direction, rt);
    forall v | v in results ensures Equivalents(r, v, cmp) == Equivalents(results, v, cmp) {
      Reflexive(cmp, results, v);
      EquivalentsAreCopies(r, v, cmp);
      EquivalentsAreCopies(results, v, cmp);
    }
  }

  /** Every direction compares as the ascending comparison times its multiplier. */
  lemma Scaled(key: string, direction: string, rt: Runtime)
    ensures forall x, y :: Comparator(key, direction, rt)(x, y) == Multiplier(direction) * Comparator(key, "asc", rt)(x, y)
  {
    forall x, y ensures Comparator(key, direction, rt)(x, y) == Multiplier(direction) * Comparator(key, "asc", rt)(x, y) {
      DescNegatesAsc(SortValueOf(x, key), SortValueOf(y, key), rt);
    }
  }

  /* ---------- the rows that have a value in the column ---------- */

  /** The rows whose column value is not null, in order. */
  function NonNullRows(results: seq<ResultEntry>, key: string): (r: seq<ResultEntry>)
    ensures forall x | x in r :: x in results && !SortValueOf(x, key).NullValue?
  {
    if results == [] then []
    else (if SortValueOf(results[0], key).NullValue? then [] else [results[0]]) + NonNullRows(results[1..], key)
  }

  lemma {:induction false} NonNullCount(results: seq<ResultEntry>, key: string, x: ResultEntry)
    ensures multiset(NonNullRows(results, key))[x] == if SortValueOf(x, key).NullValue? then 0 else multiset(results)[x]
  {
    if results != [] {
      NonNullCount(results[1..], key, x);
      assert results == [results[0]] + results[1..];
    }
  }

  /** Two arrangements of the same rows have the same non-null rows, up to order. */
  lemma NonNullPermutes(r: seq<ResultEntry>, results: seq<ResultEntry>, key: string)
    requires multiset(r) == multiset(results)
    ensures multiset(NonNullRows(r, key)) == multiset(NonNullRows(results, key))
  {
    forall x ensures multiset(NonNullRows(r, key))[x] == multiset(NonNullRows(results, key))[x] {
      NonNullCount(r, key, x);
      NonNullCount(results, key, x);
    }
  }

  /** Leaving rows out of a sorted table keeps it sorted. */
  lemma {:induction false} NonNullSorted(s: seq<ResultEntry>, key: string, cmp: (ResultEntry, ResultEntry) -> real)
    requires Sorted(s, cmp)
    ensures Sorted(NonNullRows(s, key), cmp)
  {
    if s != [] {
      var t := NonNullRows(s[1..], key);
      assert Sorted(s[1..], cmp) by {
        forall i, j | 0 <= i < j < |s| - 1 ensures cmp(s[1..][i], s[1..][j]) <= 0.0 {
          assert s[1..][i] == s[i + 1] && s[1..][j] == s[j + 1];
        }
      }
      NonNullSorted(s[1..], key, cmp);
      if !SortValueOf(s[0], key).NullValue? {
        forall k | 0 <= k < |t| ensures cmp(s[0], t[k]) <= 0.0 {
          assert t[k] in s[1..];
          var j :| 0 <= j < |s| - 1 && s[1..][j] == t[k];
          assert s[j + 1] == t[k];
        }
        SortedCons(s[0], t, cmp);
      }
    }
  }

  /** Without ties among the non-null rows, the non-null rows of the sorted table are
      those rows sorted on their own. */
  lemma NonNullOfSorted(results: seq<ResultEntry>, key: string, direction: string, rt: Runtime)
    requires ConsistentCollation(rt) && key != ""
    requires NoTies(NonNullRows(results, key), key, rt)
    ensures NonNullRows(SortResults(results, Some(key), direction, rt), key) ==
      SortResults(NonNullRows(results, key), Some(key), direction, rt)
  {
    var cmp := Comparator(key, direction, rt);
    var f := NonNullRows(results, key);
    var a := Sort(results, cmp);
    var g := NonNullRows(a, key);
    SortPermutes(results, cmp);
    NonNullPermutes(a, results, key);
    SamePermutationWithin(g, f);
    ComparatorConsistent(key, direction, rt, results);
    ComparatorConsistent(key, direction, rt, f);
    SortSorted(results, cmp, results);
    NonNullSorted(a, key, cmp);
    NoTiesStable(g, f, key, direction, rt);
    SortIsUnique(f, g, cmp);
  }

  /** When no two different rows with a value tie on the column, descending lists the
      rows that have a value in the reverse of their ascending order; the null rows,
      wherever they sit, do not disturb it. */
  lemma NonNullDescIsReversedAsc(results: seq<ResultEntry>, key: string, rt: Runtime)
    requires ConsistentCollation(rt) && key != ""
    requires NoTies(NonNullRows(results, key), key, rt)
    ensures NonNullRows(SortResults(results, Some(key), "desc", rt), key) ==
      Reverse(NonNullRows(SortResults(results, Some(key), "asc", rt), key))
  {
    NonNullOfSorted(results, key, "asc", rt);
    NonNullOfSorted(results, key, "desc", rt);
    DescIsReversedAsc(NonNullRows(results, key), key, rt);
  }

  /* ---------- the header click ---------- */

  /** The sort state after a click on the header with a non-empty key: the same key
      flips the direction, another key sorts ascending by it. */
  function NextSort(sortKey: Option<string>, sortDirection: string, key: string): (Option<string>, string) {
    if sortKey == Some(key) then (sortKey, if sortDirection == "asc" then "desc" else "asc")
    else (Some(key), "asc")
  }

  /** Two clicks on the same header return to the first click's direction, and a click
      on a new header always sorts ascending. */
  lemma NextSortToggles(sortKey: Option<string>, sortDirection: string, key: string)
    requires sortDirection == "asc" || sortDirection == "desc"
    ensures NextSort(sortKey, sortDirection, key).0 == Some(key)
    ensures sortKey != Some(key) ==> NextSort(sortKey, sortDirection, key).1 == "asc"
    ensures sortKey == Some(key) ==> NextSort(sortKey, sortDirection, key).1 != sortDirection
    ensures var (k1, d1) := NextSort(sortKey, sortDirection, key);
      NextSort(k1, d1, key) == (if sortKey == Some(key) then (sortKey, sortDirection) else (Some(key), "desc"))
  {
  }

  /** The report page's table state. */
  class ReportView {
    const results: seq<ResultEntry>
    var sortKey: Option<string>
    var sortDirection: string

    ghost predicate Valid()
      reads this
    {
      (sortDirection == "asc" || sortDirection == "desc") && (sortKey.None? || sortKey.value != "")
    }

    /** The loaded report, shown unsorted. */
    constructor (loaded: seq<ResultEntry>)
      ensures Valid()
      ensures results == loaded && sortKey == None && sortDirection == "asc"
    {
      results := loaded;
      sortKey := None;
      sortDirection := "asc";
    }

    /** `handleSort`: a header without a key does nothing; otherwise the sort state
        moves on and the rows are rendered in the new order. */
    method HandleSort(key: string, rt: Runtime) returns (rendered: Option<seq<ResultEntry>>)
      requires Valid()
      modifies this
      ensures Valid()
      ensures key == "" ==> rendered == None && sortKey == old(sortKey) && sortDirection == old(sortDirection)
      ensures key != "" ==> (sortKey, sortDirection) == NextSort(old(sortKey), old(sortDirection), key)
      ensures key != "" ==> rendered == Some(SortResults(results, sortKey, sortDirection, rt))
    {
      if key == "" {
        return None;
      }
      if sortKey == Some(key) {
        sortDirection := if sortDirection == "asc" then "desc" else "asc";
      } else {
        sortKey := Some(key);
        sortDirection := "asc";
      }
      rendered := Some(SortResults(results, sortKey, sortDirection, rt));
    }
  }

  /** Clicking a new header twice shows the ascending table and then its reverse, when
      different rows never tie on the column. */
  lemma SecondClickReverses(results: seq<ResultEntry>, sortKey: Option<string>, sortDirection: string, key: string, rt: Runtime)
    requires ConsistentCollation(rt) && key != "" && sortKey != Some(key)
    requires NoTies(results, key, rt)
    ensures var (k1, d1) := NextSort(sortKey, sortDirection, key);
      var (k2, d2) := NextSort(k1, d1, key);
      SortResults(results, k2, d2, rt) == Reverse(SortResults(results, k1, d1, rt))
  {
    DescIsReversedAsc(results, key, rt);
  }
}
