/** The statistics of the jar panel: an alert for an empty jar; otherwise
    the calorie total and the pie slices, one per fruit with positive
    calories, sorted by calories, largest first, ties in jar order. */
module JarStats {
  import opened Fruits

  /** One entry of `pieData`: `{ name, calories }`; its percentage is
      `Percentage`. */
  datatype Slice = Slice(name: string, calories: int)

  /** What the panel renders: the "no fruits" alert, or the chart with its
      total and slices. */
  datatype Panel = EmptyJarAlert | Chart(totalCalories: int, pieData: seq<Slice>)

  /** `totalCalories`: the sum over the jar, a missing value counting 0. */
  function TotalCalories(jar: seq<Fruit>): (total: int)
    decreases |jar|
  {
    if |jar| == 0 then 0 else CaloriesOrZero(jar[0]) + TotalCalories(jar[1..])
  }

  /** The filter `fruit?.nutritions?.calories > 0`; a missing value fails it. */
  predicate Charted(f: Fruit)
  {
    f.calories.Some? && f.calories.value > 0
  }

  /** The `filter` step: the charted fruits of the jar, in jar order, each
      occurrence kept. */
  function ChartedFruits(jar: seq<Fruit>): (r: seq<Fruit>)
    ensures |r| <= |jar|
    ensures forall f :: f in r ==> Charted(f)
    ensures forall f :: multiset(r)[f] == if Charted(f) then multiset(jar)[f] else 0
    decreases |jar|
  {
    if |jar| == 0 then []
    else
      assert jar == [jar[0]] + jar[1..];
      (if Charted(jar[0]) then [jar[0]] else []) + ChartedFruits(jar[1..])
  }

  function ToSlice(f: Fruit): (s: Slice)
  {
    Slice(f.name, CaloriesOrZero(f))
  }

  /** The `map` step. */
  function ToSlices(fs: seq<Fruit>): (r: seq<Slice>)
    ensures |r| == |fs|
    ensures forall i :: 0 <= i < |fs| ==> r[i] == ToSlice(fs[i])
    decreases |fs|
  {
    if |fs| == 0 then [] else [ToSlice(fs[0])] + ToSlices(fs[1..])
  }

  predicate Descending(xs: seq<Slice>)
  {
    forall i, j :: 0 <= i < j < |xs| ==> xs[i].calories >= xs[j].calories
  }

  /** The slices of `xs` with exactly `c` calories, in order: a stable sort
      keeps each of these runs as it was. */
  function WithCalories(xs: seq<Slice>, c: int): (run: seq<Slice>)
    decreases |xs|
  {
    if |xs| == 0 then []
    else (if xs[0].calories == c then [xs[0]] else []) + WithCalories(xs[1..], c)
  }

  function SumCalories(xs: seq<Slice>): (sum: int)
    decreases |xs|
  {
    if |xs| == 0 then 0 else xs[0].calories + SumCalories(xs[1..])
  }

  /** Places `e` in front of the first slice with at most its calories, so
      that `e` precedes the slices of equal calories that came after it. */
  function Insert(e: Slice, sorted: seq<Slice>): (r: seq<Slice>)
    decreases |sorted|
  {
    if |sorted| == 0 then [e]
    else if sorted[0].calories > e.calories then [sorted[0]] + Insert(e, sorted[1..])
    else [e] + sorted
  }

  /** Inserting adds exactly `e`. */
  lemma {:induction false} InsertPermutes(e: Slice, sorted: seq<Slice>)
    ensures multiset(Insert(e, sorted)) == multiset(sorted) + multiset{e}
    decreases |sorted|
  {
    if |sorted| != 0 && sorted[0].calories > e.calories {
      assert sorted == [sorted[0]] + sorted[1..];
      InsertPermutes(e, sorted[1..]);
    }
  }

  /** `.sort((a, b) => b.calories - a.calories)`, a stable sort: modelled as
      insertion of each slice, from the last to the first. */
  function SortDescending(xs: seq<Slice>): (r: seq<Slice>)
    ensures Descending(r)
    ensures multiset(r) == multiset(xs)
    decreases |xs|
  {
    if |xs| == 0 then []
    else
      assert xs == [xs[0]] + xs[1..];
      var sortedTail := SortDescending(xs[1..]);
      InsertKeepsDescending(xs[0], sortedTail);
      InsertPermutes(xs[0], sortedTail);
      Insert(xs[0], sortedTail)
  }

  /** `pieData`: filter, map, sort. */
  function PieData(jar: seq<Fruit>): (r: seq<Slice>)
    ensures |r| <= |jar|
    ensures forall i :: 0 <= i < |r| ==> r[i].calories > 0
    ensures Descending(r)
    ensures multiset(r) == multiset(ToSlices(ChartedFruits(jar)))
  {
    var slices := ToSlices(ChartedFruits(jar));
    var r := SortDescending(slices);
    assert |r| == |multiset(r)| == |slices|;
    ChartedSlicesArePositive(ChartedFruits(jar));
    forall i | 0 <= i < |r|
      ensures r[i].calories > 0
    {
      assert r[i] in multiset(r);
    }
    r
  }

  /** The panel: the alert when the jar is empty, else the chart. */
  function JarPanel(jar: seq<Fruit>): (p: Panel)
    ensures p.EmptyJarAlert? <==> |jar| == 0
  {
    if |jar| == 0 then EmptyJarAlert else Chart(TotalCalories(jar), PieData(jar))
  }

  /** The share of one slice: `calories / totalCalories * 100`, as a
      rational rather than a rounded float. */
  function Percentage(s: Slice, total: int): (share: real)
    requires total != 0
  {
    (s.calories as real / total as real) * 100.0
  }

  function SumPercentages(xs: seq<Slice>, total: int): (sum: real)
    requires total != 0
    decreases |xs|
  {
    if |xs| == 0 then 0.0 else Percentage(xs[0], total) + SumPercentages(xs[1..], total)
  }

  /** No fruit in the jar has negative calories. */
  predicate NoNegativeCalories(jar: seq<Fruit>)
  {
    forall i :: 0 <= i < |jar| ==> CaloriesOrZero(jar[i]) >= 0
  }

  // ---------------------------------------------------------------------
  // Proofs

  lemma ChartedSlicesArePositive(fs: seq<Fruit>)
    requires forall f :: f in fs ==> Charted(f)
    ensures forall s :: s in ToSlices(fs) ==> s.calories > 0
  {
    forall s | s in ToSlices(fs)
      ensures s.calories > 0
    {
      var i :| 0 <= i < |fs| && ToSlices(fs)[i] == s;
      assert fs[i] in fs;
    }
  }

  lemma {:induction false} InsertKeepsDescending(e: Slice, sorted: seq<Slice>)
    requires Descending(sorted)
    ensures Descending(Insert(e, sorted))
    decreases |sorted|
  {
    if |sorted| != 0 && sorted[0].calories > e.calories {
      var rest := Insert(e, sorted[1..]);
      InsertKeepsDescending(e, sorted[1..]);
      InsertPermutes(e, sorted[1..]);
      var r := [sorted[0]] + rest;
      forall j | 0 < j < |r|
        ensures r[0].calories >= r[j].calories
      {
        assert r[j] in multiset(rest);
        assert r[j] in multiset(sorted[1..]) || r[j] == e;
      }
    }
  }

  lemma WithCaloriesCons(x: Slice, xs: seq<Slice>, c: int)
    ensures WithCalories([x] + xs, c) == (if x.calories == c then [x] else []) + WithCalories(xs, c)
  {
    assert ([x] + xs)[1..] == xs;
  }

  /** The step of `InsertIsStable` where `e` goes past the head. */
  lemma InsertPastHead(e: Slice, sorted: seq<Slice>, c: int)
    requires sorted != [] && sorted[0].calories > e.calories
    requires WithCalories(Insert(e, sorted[1..]), c)
             == (if e.calories == c then [e] else []) + WithCalories(sorted[1..], c)
    ensures WithCalories(Insert(e, sorted), c)
            == (if e.calories == c then [e] else []) + WithCalories(sorted, c)
  {
    var rest := Insert(e, sorted[1..]);
    var h := if sorted[0].calories == c then [sorted[0]] else [];
    var eh := if e.calories == c then [e] else [];
    var t := WithCalories(sorted[1..], c);
    assert Insert(e, sorted) == [sorted[0]] + rest;
    WithCaloriesCons(sorted[0], rest, c);
    assert sorted == [sorted[0]] + sorted[1..];
    WithCaloriesCons(sorted[0], sorted[1..], c);
    assert WithCalories(Insert(e, sorted), c) == h + (eh + t);
    assert WithCalories(sorted, c) == h + t;
    assert h == [] || eh == [];
    assert h + (eh + t) == eh + (h + t);
  }

  /** Inserting `e` adds it at the front of its run of equal calories. */
  lemma {:induction false} InsertIsStable(e: Slice, sorted: seq<Slice>, c: int)
    ensures WithCalories(Insert(e, sorted), c)
            == (if e.calories == c then [e] else []) + WithCalories(sorted, c)
    decreases |sorted|
  {
    if |sorted| == 0 {
      assert [e][1..] == [];
    } else if sorted[0].calories > e.calories {
      InsertIsStable(e, sorted[1..], c);
      InsertPastHead(e, sorted, c);
    } else {
      assert ([e] + sorted)[1..] == sorted;
    }
  }

  /** The sort is stable: the slices of any one calorie value keep their
      relative order. */
  lemma {:induction false} SortIsStable(xs: seq<Slice>, c: int)
    ensures WithCalories(SortDescending(xs), c) == WithCalories(xs, c)
    decreases |xs|
  {
    if |xs| != 0 {
      SortIsStable(xs[1..], c);
      InsertIsStable(xs[0], SortDescending(xs[1..]), c);
    }
  }

  /** The run of `c` calories comes from `xs`, and starts with `xs[0]` when
      that has `c` calories. */
  lemma {:induction false} WithCaloriesFacts(xs: seq<Slice>, c: int)
    ensures |WithCalories(xs, c)| <= |xs|
    ensures forall x :: x in WithCalories(xs, c) ==> x in xs && x.calories == c
    ensures |xs| != 0 && xs[0].calories == c ==>
              WithCalories(xs, c) != [] && WithCalories(xs, c)[0] == xs[0]
    decreases |xs|
  {
    if |xs| != 0 {
      WithCaloriesFacts(xs[1..], c);
    }
  }

  /** A descending order is fixed by its runs of equal calories: two
      descending sequences with the same run for every calorie value are
      equal. So a stable descending sort has one possible result. */
  lemma {:induction false} StableDescendingIsUnique(r: seq<Slice>, q: seq<Slice>)
    requires Descending(r) && Descending(q)
    requires forall c :: WithCalories(r, c) == WithCalories(q, c)
    ensures r == q
    decreases |r| + |q|
  {
    if r != [] || q != [] {
      var c := if r != [] then r[0].calories else q[0].calories;
      WithCaloriesFacts(r, c);
      WithCaloriesFacts(q, c);
      assert WithCalories(r, c) == WithCalories(q, c);
      assert r != [] && q != [];
      var m, n := r[0].calories, q[0].calories;
      WithCaloriesFacts(r, m);
      WithCaloriesFacts(q, m);
      WithCaloriesFacts(r, n);
      WithCaloriesFacts(q, n);
      assert WithCalories(r, m) == WithCalories(q, m);
      assert WithCalories(r, n) == WithCalories(q, n);
      assert WithCalories(q, m)[0] in q;
      assert n >= m;
      assert WithCalories(r, n)[0] in r;
      assert m >= n;
      assert r[0] == WithCalories(r, m)[0] == WithCalories(q, m)[0] == q[0];
      forall c' ensures WithCalories(r[1..], c') == WithCalories(q[1..], c')
      {
        var wr, wq := WithCalories(r, c'), WithCalories(q, c');
        assert wr == wq;
        assert wr == (if m == c' then [r[0]] else []) + WithCalories(r[1..], c');
        assert wq == (if m == c' then [q[0]] else []) + WithCalories(q[1..], c');
        if m == c' {
          assert wr[1..] == WithCalories(r[1..], c');
          assert wq[1..] == WithCalories(q[1..], c');
        } else {
          assert wr == WithCalories(r[1..], c');
          assert wq == WithCalories(q[1..], c');
        }
      }
      StableDescendingIsUnique(r[1..], q[1..]);
      assert r == [r[0]] + r[1..] && q == [q[0]] + q[1..];
    }
  }

  /** The chart order is THE stable descending order of the charted slices:
      a sequence is descending and keeps every run of equal calories exactly
      when it is `SortDescending`'s result. */
  lemma SortDescendingIsTheStableSort(xs: seq<Slice>, r: seq<Slice>)
    ensures r == SortDescending(xs) ==>
              Descending(r) && forall c :: WithCalories(r, c) == WithCalories(xs, c)
    ensures Descending(r) && (forall c :: WithCalories(r, c) == WithCalories(xs, c)) ==>
              r == SortDescending(xs)
  {
    var sorted := SortDescending(xs);
    forall c ensures WithCalories(sorted, c) == WithCalories(xs, c) {
      SortIsStable(xs, c);
    }
    if Descending(r) && forall c :: WithCalories(r, c) == WithCalories(xs, c) {
      StableDescendingIsUnique(r, sorted);
    }
  }

  /** Slices of equal calories appear in the chart in jar order. */
  lemma PieDataKeepsJarOrderOnTies(jar: seq<Fruit>, c: int)
    ensures WithCalories(PieData(jar), c) == WithCalories(ToSlices(ChartedFruits(jar)), c)
    ensures c > 0 ==> WithCalories(PieData(jar), c) == WithCalories(ToSlices(jar), c)
  {
    SortIsStable(ToSlices(ChartedFruits(jar)), c);
    if c > 0 {
      ChartedRunsAreJarRuns(jar, c);
    }
  }

  /** The filter keeps jar order: filtering a concatenation filters each
      part and concatenates the results. */
  lemma {:induction false} ChartedFruitsSplits(xs: seq<Fruit>, ys: seq<Fruit>)
    ensures ChartedFruits(xs + ys) == ChartedFruits(xs) + ChartedFruits(ys)
    decreases |xs|
  {
    if |xs| == 0 {
      assert xs + ys == ys;
    } else {
      assert (xs + ys)[0] == xs[0] && (xs + ys)[1..] == xs[1..] + ys;
      ChartedFruitsSplits(xs[1..], ys);
    }
  }

  /** For a positive calorie value, the filter drops none of the jar's
      fruits with that value and keeps them in jar order. */
  lemma {:induction false} ChartedRunsAreJarRuns(jar: seq<Fruit>, c: int)
    requires c > 0
    ensures WithCalories(ToSlices(ChartedFruits(jar)), c) == WithCalories(ToSlices(jar), c)
    decreases |jar|
  {
    if |jar| != 0 {
      var f := jar[0];
      ChartedRunsAreJarRuns(jar[1..], c);
      var rest := ChartedFruits(jar[1..]);
      assert ToSlices(jar) == [ToSlice(f)] + ToSlices(jar[1..]);
      WithCaloriesCons(ToSlice(f), ToSlices(jar[1..]), c);
      if Charted(f) {
        assert ChartedFruits(jar) == [f] + rest;
        assert ToSlices([f] + rest) == [ToSlice(f)] + ToSlices(rest);
        WithCaloriesCons(ToSlice(f), ToSlices(rest), c);
      } else {
        assert ChartedFruits(jar) == rest;
        assert ToSlice(f).calories != c;
      }
    }
  }

  lemma {:induction false} InsertKeepsSum(e: Slice, sorted: seq<Slice>)
    ensures SumCalories(Insert(e, sorted)) == e.calories + SumCalories(sorted)
    decreases |sorted|
  {
    if |sorted| != 0 && sorted[0].calories > e.calories {
      var r := Insert(e, sorted);
      assert r[1..] == Insert(e, sorted[1..]);
      InsertKeepsSum(e, sorted[1..]);
    } else if |sorted| != 0 {
      assert ([e] + sorted)[1..] == sorted;
    }
  }

  lemma {:induction false} SortKeepsSum(xs: seq<Slice>)
    ensures SumCalories(SortDescending(xs)) == SumCalories(xs)
    decreases |xs|
  {
    if |xs| != 0 {
      SortKeepsSum(xs[1..]);
      InsertKeepsSum(xs[0], SortDescending(xs[1..]));
    }
  }

  /** With no negative values, the charted fruits carry the whole total:
      what the filter drops counts 0 towards it. */
  lemma {:induction false} ChartedCarryTotal(jar: seq<Fruit>)
    requires NoNegativeCalories(jar)
    ensures SumCalories(ToSlices(ChartedFruits(jar))) == TotalCalories(jar)
    decreases |jar|
  {
    if |jar| != 0 {
      assert NoNegativeCalories(jar[1..]) by {
        forall i | 0 <= i < |jar[1..]| ensures CaloriesOrZero(jar[1..][i]) >= 0 {
          assert jar[1..][i] == jar[i + 1];
        }
      }
      ChartedCarryTotal(jar[1..]);
      assert CaloriesOrZero(jar[0]) >= 0;
      var cf := ChartedFruits(jar);
      if Charted(jar[0]) {
        assert cf == [jar[0]] + ChartedFruits(jar[1..]);
        assert cf[0] == jar[0] && cf[1..] == ChartedFruits(jar[1..]);
        var sl := ToSlices(cf);
        assert sl[0] == ToSlice(jar[0]);
        assert sl[1..] == ToSlices(cf[1..]);
        assert SumCalories(sl) == sl[0].calories + SumCalories(sl[1..]);
      } else {
        assert cf == ChartedFruits(jar[1..]);
        assert CaloriesOrZero(jar[0]) == 0;
      }
    }
  }

  /** With no negative values, the slices add up to `totalCalories`. */
  lemma PieSumIsTotal(jar: seq<Fruit>)
    requires NoNegativeCalories(jar)
    ensures SumCalories(PieData(jar)) == TotalCalories(jar)
  {
    SortKeepsSum(ToSlices(ChartedFruits(jar)));
    ChartedCarryTotal(jar);
  }

  lemma {:induction false} PositiveSlicesHavePositiveSum(xs: seq<Slice>)
    requires forall i :: 0 <= i < |xs| ==> xs[i].calories > 0
    ensures xs != [] ==> SumCalories(xs) > 0
    ensures xs == [] ==> SumCalories(xs) == 0
    decreases |xs|
  {
    if |xs| != 0 {
      PositiveSlicesHavePositiveSum(xs[1..]);
    }
  }

  /** With no negative values, a chart with a slice has a positive total, so
      the division of the percentage is defined. */
  lemma PieTotalPositive(jar: seq<Fruit>)
    requires NoNegativeCalories(jar)
    requires PieData(jar) != []
    ensures TotalCalories(jar) > 0
  {
    PieSumIsTotal(jar);
    PositiveSlicesHavePositiveSum(PieData(jar));
  }

  lemma {:induction false} SumPercentagesScales(xs: seq<Slice>, total: int)
    requires total != 0
    ensures SumPercentages(xs, total) == (SumCalories(xs) as real / total as real) * 100.0
    decreases |xs|
  {
    if |xs| != 0 {
      SumPercentagesScales(xs[1..], total);
      var t := total as real;
      var a, b := xs[0].calories as real, SumCalories(xs[1..]) as real;
      assert a / t + b / t == (a + b) / t;
    }
  }

  /** With no negative values, the percentages of the chart add up to 100
      (before `toFixed` rounds them). */
  lemma PercentagesAddUpTo100(jar: seq<Fruit>)
    requires NoNegativeCalories(jar)
    requires PieData(jar) != []
    ensures TotalCalories(jar) > 0
    ensures SumPercentages(PieData(jar), TotalCalories(jar)) == 100.0
  {
    PieTotalPositive(jar);
    PieSumIsTotal(jar);
    SharesOfTheWholeAddUpTo100(PieData(jar), TotalCalories(jar));
  }

  lemma SharesOfTheWholeAddUpTo100(xs: seq<Slice>, total: int)
    requires total > 0 && SumCalories(xs) == total
    ensures SumPercentages(xs, total) == 100.0
  {
    SumPercentagesScales(xs, total);
    var t := total as real;
    assert t / t == 1.0;
  }
}
