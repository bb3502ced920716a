// average of internal/maturity/evaluate.go: sort, sum, round to hundredths.
// Float arithmetic is a parameter, because float addition is not associative.
module Averages {
  import opened Common
  import Sorting

  // How two numbers are added, and how a total of n numbers becomes their
  // rounded mean.
  datatype Arithmetic = Arithmetic(add: (real, real) -> real, mean: (real, nat) -> real)

  predicate Less(x: real, y: real) { x < y }

  // The sum from the left.
  function Total(ar: Arithmetic, s: seq<real>): real {
    if s == [] then 0.0 else ar.add(Total(ar, s[..|s| - 1]), s[|s| - 1])
  }

  function Insert(x: real, s: seq<real>): (r: seq<real>)
    ensures multiset(r) == multiset(s) + multiset{x}
  {
    if s == [] then [x]
    else if x <= s[0] then [x] + s
    else assert s == [s[0]] + s[1..]; [s[0]] + Insert(x, s[1..])
  }

  function Sort(s: seq<real>): (r: seq<real>)
    ensures multiset(r) == multiset(s)
  {
    if s == [] then []
    else assert s == s[..|s| - 1] + [s[|s| - 1]]; Insert(s[|s| - 1], Sort(s[..|s| - 1]))
  }

  lemma {:induction false} InsertSorts(x: real, s: seq<real>)
    requires Sorting.Sorted(s, Less)
    ensures Sorting.Sorted(Insert(x, s), Less)
  {
    if s != [] && x > s[0] {
      InsertSorts(x, s[1..]);
      var r := Insert(x, s[1..]);
      forall y | y in r ensures s[0] <= y {
        assert y in multiset(r);
        if y != x {
          assert y in s[1..];
          var i :| 0 <= i < |s[1..]| && s[1..][i] == y;
          assert !Less(s[i + 1], s[0]);
        }
      }
      var all := [s[0]] + r;
      forall i, j | 0 <= i < j < |all| ensures !Less(all[j], all[i]) {
        assert all[j] in r;
        if i > 0 { assert !Less(r[j - 1], r[i - 1]); }
      }
    } else if s != [] {
      var r := [x] + s;
      forall i, j | 0 <= i < j < |r| ensures !Less(r[j], r[i]) {
        if i == 0 && j > 1 { assert !Less(s[j - 1], s[0]); }
      }
    }
  }

  lemma {:induction false} SortSorts(s: seq<real>)
    ensures Sorting.Sorted(Sort(s), Less)
  {
    if s != [] {
      SortSorts(s[..|s| - 1]);
      InsertSorts(s[|s| - 1], Sort(s[..|s| - 1]));
    }
  }

  function AverageOf(ar: Arithmetic, s: seq<real>): Option<real> {
    if s == [] then None else Some(ar.mean(Total(ar, Sort(s)), |s|))
  }

  lemma SortedIsSort(s: seq<real>, t: seq<real>)
    requires Sorting.Sorted(t, Less) && multiset(t) == multiset(s)
    ensures t == Sort(s)
  {
    SortSorts(s);
    Sorting.SortedUnique(t, Sort(s), Less);
  }

  // The values are sorted in place before they are added up.
  method Average(ar: Arithmetic, values: array<real>) returns (r: Option<real>)
    modifies values
    ensures r == AverageOf(ar, old(values[..]))
    ensures values[..] == Sort(old(values[..]))
  {
    ghost var given := values[..];
    if values.Length == 0 {
      return None;
    }
    ghost var order := Sorting.SortSlice(values, Less);
    SortedIsSort(given, values[..]);
    var total := 0.0;
    for i := 0 to values.Length
      invariant values[..] == Sort(given)
      invariant total == Total(ar, values[..i])
    {
      assert values[..i + 1][..i] == values[..i];
      total := ar.add(total, values[i]);
    }
    assert values[..values.Length] == values[..];
    r := Some(ar.mean(total, values.Length));
  }

  // Whatever addition is, the order in which the scores came does not matter:
  // scores that are permutations of each other have the same average.
  lemma AverageIgnoresOrder(ar: Arithmetic, s: seq<real>, t: seq<real>)
    requires multiset(s) == multiset(t)
    ensures AverageOf(ar, s) == AverageOf(ar, t)
  {
    SortSorts(t);
    SortedIsSort(s, Sort(t));
    assert |s| == |multiset(s)| == |multiset(t)| == |t|;
  }

  // ----- exact arithmetic -----

  // math.Round: to the nearest integer, halves away from zero.
  function Round(x: real): int {
    if x >= 0.0 then (x + 0.5).Floor else -((-x + 0.5).Floor)
  }

  // To the nearest hundredth.
  function Hundredths(x: real): real { Round(x * 100.0) as real / 100.0 }

  function ExactMean(total: real, n: nat): real {
    if n == 0 then 0.0 else Hundredths(total / n as real)
  }

  const EXACT := Arithmetic((x, y) => x + y, ExactMean)

  lemma {:induction false} ExactInsert(x: real, s: seq<real>)
    ensures Total(EXACT, Insert(x, s)) == x + Total(EXACT, s)
  {
    if s == [] {
      assert [x][..0] == [];
      assert Total(EXACT, [x]) == Total(EXACT, []) + x;
    } else if x <= s[0] {
      ExactCons(x, s);
    } else {
      ExactCons(s[0], Insert(x, s[1..]));
      ExactInsert(x, s[1..]);
      ExactCons(s[0], s[1..]);
      assert s == [s[0]] + s[1..];
    }
  }

  lemma {:induction false} ExactCons(x: real, s: seq<real>)
    ensures Total(EXACT, [x] + s) == x + Total(EXACT, s)
  {
    if s == [] {
      assert [x] + s == [x] && [x][..0] == [];
      assert Total(EXACT, [x]) == Total(EXACT, []) + x;
    } else {
      var n := |s| - 1;
      assert ([x] + s)[..n + 1] == [x] + s[..n];
      ExactCons(x, s[..n]);
    }
  }

  lemma {:induction false} ExactSort(s: seq<real>)
    ensures Total(EXACT, Sort(s)) == Total(EXACT, s)
  {
    if s != [] {
      ExactSort(s[..|s| - 1]);
      ExactInsert(s[|s| - 1], Sort(s[..|s| - 1]));
    }
  }

  lemma RoundNear(x: real)
    ensures -0.5 <= Round(x) as real - x <= 0.5
  {
  }

  lemma RoundMonotone(x: real, y: real)
    requires x <= y
    ensures Round(x) <= Round(y)
  {
  }

  lemma RoundWhole(n: int)
    ensures Round(n as real) == n
  {
  }

  // The reported average is within half a hundredth of the mean.
  lemma AverageIsClose(s: seq<real>)
    requires s != []
    ensures var mean := Total(EXACT, s) / |s| as real;
            -0.005 <= AverageOf(EXACT, s).value - mean <= 0.005
  {
    ExactAverage(s);
    RoundNear(Total(EXACT, s) / |s| as real * 100.0);
  }

  lemma {:induction false} TotalAtLeast(s: seq<real>, m: real)
    requires forall i :: 0 <= i < |s| ==> s[i] >= m
    ensures Total(EXACT, s) >= m * |s| as real
  {
    if s != [] {
      var n := |s| - 1;
      TotalAtLeast(s[..n], m);
      assert Total(EXACT, s) == Total(EXACT, s[..n]) + s[n];
      assert m * |s| as real == m * n as real + m;
    }
  }

  predicate IsWhole(x: real) { x.Floor as real == x }

  // If every score is at least m, the average is at least m rounded to hundredths.
  lemma AverageAtLeast(s: seq<real>, m: real)
    requires s != [] && forall i :: 0 <= i < |s| ==> s[i] >= m
    ensures AverageOf(EXACT, s).value >= Hundredths(m)
  {
    hide Hundredths, Total, Sort;
    ExactAverage(s);
    TotalAtLeast(s, m);
    DivideBound(Total(EXACT, s), m, |s| as real);
    HundredthsMonotone(m, Total(EXACT, s) / |s| as real);
  }

  lemma ExactAverage(s: seq<real>)
    requires s != []
    ensures AverageOf(EXACT, s) == Some(Hundredths(Total(EXACT, s) / |s| as real))
  {
    hide Hundredths;
    ExactSort(s);
  }

  lemma HundredthsMonotone(x: real, y: real)
    requires x <= y
    ensures Hundredths(x) <= Hundredths(y)
  {
    RoundMonotone(x * 100.0, y * 100.0);
  }

  // That is m itself exactly when 100 m is whole.
  lemma HundredthsFixes(m: real)
    ensures Hundredths(m) == m <==> IsWhole(m * 100.0)
  {
    if IsWhole(m * 100.0) { RoundWhole((m * 100.0).Floor); }
    if Hundredths(m) == m { assert Round(m * 100.0) as real == m * 100.0; }
  }

  lemma DivideBound(total: real, m: real, size: real)
    requires size > 0.0 && total >= m * size
    ensures total / size >= m
  {
    var q := total / size;
    assert q * size == total;
    if q < m { assert (m - q) * size > 0.0; }
  }

  lemma {:induction false} TotalOfSame(s: seq<real>, m: real)
    requires forall i :: 0 <= i < |s| ==> s[i] == m
    ensures Total(EXACT, s) == m * |s| as real
  {
    if s != [] {
      var n := |s| - 1;
      TotalOfSame(s[..n], m);
      assert m * |s| as real == m * n as real + m;
    }
  }

  // Scores that are all m average to m rounded to hundredths.
  lemma AverageOfSame(s: seq<real>, m: real)
    requires s != [] && forall i :: 0 <= i < |s| ==> s[i] == m
    ensures AverageOf(EXACT, s) == Some(Hundredths(m))
  {
    hide Hundredths, Total, Sort;
    ExactAverage(s);
    TotalOfSame(s, m);
    Quotient(m, |s| as real);
    assert Total(EXACT, s) / |s| as real == m;
  }

  lemma Quotient(m: real, size: real)
    requires size > 0.0
    ensures m * size / size == m
  {
    var q := m * size / size;
    assert q * size == m * size;
    assert (q - m) * size == 0.0;
  }

  predicate AllAtLeast(s: seq<real>, m: real) { forall i :: 0 <= i < |s| ==> s[i] >= m }

  // Scores of at least m always average to at least m, exactly when m does not
  // fall short of itself by rounding.
  lemma AverageReachesExactly(m: real)
    ensures (forall s :: s != [] && AllAtLeast(s, m) ==> AverageOf(EXACT, s).value >= m) <==> Hundredths(m) >= m
  {
    hide Hundredths, Total, Sort;
    if Hundredths(m) >= m {
      forall s | s != [] && AllAtLeast(s, m) ensures AverageOf(EXACT, s).value >= m {
        AverageAtLeast(s, m);
      }
    } else {
      AverageOfSame([m], m);
      assert AllAtLeast([m], m);
    }
  }

  // A minimum that is rounded down, and scores that meet it but whose average
  // does not.
  lemma AverageCanFallShort()
    ensures Hundredths(3.004) < 3.004
    ensures AverageOf(EXACT, [3.004, 3.004]) == Some(3.0)
  {
    AverageOfSame([3.004, 3.004], 3.004);
    assert (300.4 + 0.5).Floor == 300;
  }

  // n is the integer nearest to x, and of two the one further from zero.
  predicate Nearest(x: real, n: int) {
    && -0.5 <= n as real - x <= 0.5
    && (n as real - x == 0.5 ==> x > 0.0) && (x - n as real == 0.5 ==> x < 0.0)
  }

  lemma RoundIsNearest(x: real)
    ensures Nearest(x, Round(x))
    ensures forall n :: Nearest(x, n) ==> n == Round(x)
  {
  }

  // The average in hundredths is the integer nearest to a hundred times the mean,
  // halves being rounded away from zero.
  lemma AverageIsNearest(s: seq<real>)
    requires s != []
    ensures var mean := Total(EXACT, s) / |s| as real;
            var n := Round(mean * 100.0);
            Nearest(mean * 100.0, n) && AverageOf(EXACT, s) == Some(n as real / 100.0)
  {
    hide Nearest, Total, Sort, Round;
    ExactAverage(s);
    RoundIsNearest(Total(EXACT, s) / |s| as real * 100.0);
  }

  // The exact total is the sum of the scores, from either end.
  lemma TotalIsSum(x: real, s: seq<real>)
    ensures Total(EXACT, []) == 0.0 && Total(EXACT, [x] + s) == x + Total(EXACT, s)
    ensures Total(EXACT, s + [x]) == Total(EXACT, s) + x
  {
    ExactCons(x, s);
    assert (s + [x])[..|s|] == s;
  }
}
