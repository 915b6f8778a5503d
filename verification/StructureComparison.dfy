/** Comparing expected operations with those found in a compiled model (`model_structure.py`). */
module StructureComparison {
  import opened Arithmetic
  import opened Strings

  /** One line of the report: an operation, how often it was expected and found, and the
      matched count, deficit or surplus, depending on the list it stands in. */
  datatype Row = Row(opType: string, expectedCount: nat, actualCount: nat, count: nat)

  function Count(rows: seq<Row>, name: string): nat {
    if rows == [] then 0
    else Count(rows[..|rows| - 1], name) + if rows[|rows| - 1].opType == name then rows[|rows| - 1].count else 0
  }

  lemma {:induction false} CountAppend(rows: seq<Row>, row: Row, name: string)
    ensures Count(rows + [row], name) == Count(rows, name) + if row.opType == name then row.count else 0
  {
    assert (rows + [row])[..|rows|] == rows;
  }

  /** Rows with a positive count are appended, others are not. */
  function WithRow(rows: seq<Row>, row: Row): (r: seq<Row>)
    ensures forall name :: Count(r, name) == Count(rows, name) + if row.opType == name then row.count else 0
  {
    assert forall name :: Count(rows + [row], name) == Count(rows, name) + if row.opType == name then row.count else 0 by {
      forall name ensures Count(rows + [row], name) == Count(rows, name) + if row.opType == name then row.count else 0 {
        CountAppend(rows, row, name);
      }
    }
    if row.count > 0 then rows + [row] else rows
  }

  datatype Report = Report(matched: seq<Row>, missing: seq<Row>, extra: seq<Row>,
                           totalExpected: nat, totalActual: nat, totalMatched: nat, score: real)

  /** For `name`, what matched plus the deficit is what was expected, what matched plus the
      surplus is what was found, and there is never both a deficit and a surplus. */
  ghost predicate Balanced(matched: seq<Row>, missing: seq<Row>, extra: seq<Row>, name: string, expected: nat, actual: nat) {
    && Count(matched, name) + Count(missing, name) == expected
    && Count(matched, name) + Count(extra, name) == actual
    && (Count(missing, name) == 0 || Count(extra, name) == 0)
  }

  /** Every row states both counts of its operation, and the matched count, deficit or surplus is
      positive. */
  ghost predicate Stated(rows: seq<Row>, expected: multiset<string>, actual: multiset<string>) {
    forall row | row in rows ::
      row.expectedCount == expected[row.opType] && row.actualCount == actual[row.opType] && row.count > 0
  }

  method CompareMirVsStructure(expected: seq<string>, actual: seq<string>) returns (r: Report)
    ensures Stated(r.matched + r.missing + r.extra, multiset(expected), multiset(actual))
    ensures forall name ::
      Balanced(r.matched, r.missing, r.extra, name, multiset(expected)[name], multiset(actual)[name])
    ensures r.totalExpected == |expected| && r.totalActual == |actual|
    ensures r.totalMatched == |multiset(expected) * multiset(actual)|
    ensures r.score == if expected == [] then 0.0 else r.totalMatched as real / r.totalExpected as real
  {
    var expectedCounts, actualCounts := multiset(expected), multiset(actual);
    var names := SortDedup(expected + actual);
    SortDedupAscending(expected + actual);
    NamesAreDistinct(names);
    assert forall name :: name in expected + actual <==> name in expected || name in actual;
    var matched, missing, extra := CompareCounts(names, expectedCounts, actualCounts);
    TotalIsSize(expectedCounts, names);
    TotalIsSize(actualCounts, names);
    TotalIsSize(expectedCounts * actualCounts, names);
    var totalExpected := SumCounts(names, expectedCounts);
    var totalActual := SumCounts(names, actualCounts);
    var totalMatched := SumCounts(names, expectedCounts * actualCounts);
    var score := if totalExpected > 0 then totalMatched as real / totalExpected as real else 0.0;
    r := Report(matched, missing, extra, totalExpected, totalActual, totalMatched, score);
  }

  method CompareCounts(names: seq<string>, expectedCounts: multiset<string>, actualCounts: multiset<string>)
      returns (matched: seq<Row>, missing: seq<Row>, extra: seq<Row>)
    requires forall i, j :: 0 <= i < j < |names| ==> names[i] != names[j]
    requires forall name | name !in names :: expectedCounts[name] == 0 && actualCounts[name] == 0
    ensures Stated(matched + missing + extra, expectedCounts, actualCounts)
    ensures forall name :: Balanced(matched, missing, extra, name, expectedCounts[name], actualCounts[name])
  {
    matched, missing, extra := [], [], [];
    for i := 0 to |names|
      invariant matched == Rows(names[..i], expectedCounts, actualCounts, Min)
      invariant missing == Rows(names[..i], expectedCounts, actualCounts, Excess)
      invariant extra == Rows(names[..i], expectedCounts, actualCounts, Lack)
    {
      var name := names[i];
      var expectedN, actualN := expectedCounts[name], actualCounts[name];
      matched := WithRow(matched, Row(name, expectedN, actualN, Min(expectedN, actualN)));
      missing := WithRow(missing, Row(name, expectedN, actualN, Excess(expectedN, actualN)));
      extra := WithRow(extra, Row(name, expectedN, actualN, Lack(expectedN, actualN)));
      assert names[..i + 1][..i] == names[..i];
    }
    assert names[..|names|] == names;
    RowsStated(names, expectedCounts, actualCounts, Min);
    RowsStated(names, expectedCounts, actualCounts, Excess);
    RowsStated(names, expectedCounts, actualCounts, Lack);
    forall name ensures Balanced(matched, missing, extra, name, expectedCounts[name], actualCounts[name]) {
      RowsCount(names, expectedCounts, actualCounts, Min, name);
      RowsCount(names, expectedCounts, actualCounts, Excess, name);
      RowsCount(names, expectedCounts, actualCounts, Lack, name);
    }
  }

  function Excess(expected: nat, actual: nat): nat { if expected > actual then expected - actual else 0 }
  function Lack(expected: nat, actual: nat): nat { if actual > expected then actual - expected else 0 }

  /** One row for every name whose count `f(expected, actual)` is positive. */
  ghost function Rows(names: seq<string>, expected: multiset<string>, actual: multiset<string>, f: (nat, nat) -> nat): seq<Row> {
    if names == [] then []
    else
      var name := names[|names| - 1];
      WithRow(Rows(names[..|names| - 1], expected, actual, f),
              Row(name, expected[name], actual[name], f(expected[name], actual[name])))
  }

  lemma {:induction false} RowsCount(names: seq<string>, expected: multiset<string>, actual: multiset<string>,
                                     f: (nat, nat) -> nat, name: string)
    requires forall i, j :: 0 <= i < j < |names| ==> names[i] != names[j]
    ensures Count(Rows(names, expected, actual, f), name)
         == if name in names then f(expected[name], actual[name]) else 0
  {
    if names != [] {
      var init := names[..|names| - 1];
      RowsCount(init, expected, actual, f, name);
      assert names == init + [names[|names| - 1]];
    }
  }

  lemma {:induction false} RowsStated(names: seq<string>, expected: multiset<string>, actual: multiset<string>, f: (nat, nat) -> nat)
    ensures Stated(Rows(names, expected, actual, f), expected, actual)
  {
    if names != [] { RowsStated(names[..|names| - 1], expected, actual, f); }
  }

  method SumCounts(names: seq<string>, counts: multiset<string>) returns (sum: nat)
    ensures sum == Total(counts, names)
  {
    sum := 0;
    for i := 0 to |names|
      invariant sum == Total(counts, names[..i])
    {
      sum := sum + counts[names[i]];
      assert names[..i + 1][..i] == names[..i];
    }
    assert names[..|names|] == names;
  }

  lemma {:induction false} NamesAreDistinct(names: seq<string>)
    requires Ascending(names)
    ensures forall i, j :: 0 <= i < j < |names| ==> names[i] != names[j]
  {
    forall i, j | 0 <= i < j < |names| ensures names[i] != names[j] { LexTrichotomy(names[i], names[j]); }
  }

  function Total(m: multiset<string>, names: seq<string>): nat {
    if names == [] then 0 else Total(m, names[..|names| - 1]) + m[names[|names| - 1]]
  }

  lemma {:induction false} TotalIgnores(m: multiset<string>, names: seq<string>, x: string)
    requires x !in names
    ensures Total(m[x := 0], names) == Total(m, names)
  {
    if names != [] { TotalIgnores(m, names[..|names| - 1], x); }
  }

  lemma {:induction false} TotalIsSize(m: multiset<string>, names: seq<string>)
    requires forall i, j :: 0 <= i < j < |names| ==> names[i] != names[j]
    requires forall x :: x in m ==> x in names
    ensures Total(m, names) == |m|
  {
    if names == [] {
      assert m == multiset{};
    } else {
      var init, last := names[..|names| - 1], names[|names| - 1];
      assert names == init + [last];
      TotalIgnores(m, init, last);
      TotalIsSize(m[last := 0], init);
      assert m == m[last := 0] + multiset{}[last := m[last]];
    }
  }

  /** The score is 1 exactly when something was expected and all of it was found. */
  lemma {:induction false} FullScore(expected: seq<string>, actual: seq<string>, score: real)
    requires score == if expected == [] then 0.0
                      else |multiset(expected) * multiset(actual)| as real / |expected| as real
    ensures score == 1.0 <==> expected != [] && multiset(expected) <= multiset(actual)
    ensures 0.0 <= score <= 1.0
  {
    if expected != [] {
      var e, both := multiset(expected), multiset(expected) * multiset(actual);
      assert |e| == |expected|;
      assert e == both + (e - both);
      var n, d := |both| as real, |expected| as real;
      assert n <= d && d > 0.0;
      Fraction(n, d);
      if |both| == |expected| { assert |e - both| == 0; assert e == both; }
      if e <= multiset(actual) { assert both == e; }
    }
  }

  lemma {:induction false} Fraction(n: real, d: real)
    requires 0.0 <= n <= d && d > 0.0
    ensures 0.0 <= n / d <= 1.0 && (n / d == 1.0 <==> n == d)
  {
  }
}
