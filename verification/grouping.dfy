/** The `groupedFruits` memo that the table view and the list view both
    compute (the two are the same code): with no grouping one group "All"
    holds every fruit; otherwise `reduce` files each fruit, in input order,
    under the value of the chosen taxonomic field. Groups come out in the
    order their labels first appear (the insertion order of a plain object's
    non-integer keys). */
module Grouping {
  import opened Fruits

  /** The label of the single group when nothing is grouped. */
  const AllLabel: string := "All"

  /** One entry of `groupedFruits`: a label and the fruits filed under it. */
  datatype Group = Group(key: string, members: seq<Fruit>)

  function Labels(gs: seq<Group>): (ls: seq<string>)
    ensures |ls| == |gs|
    ensures forall i :: 0 <= i < |gs| ==> ls[i] == gs[i].key
    decreases |gs|
  {
    if |gs| == 0 then [] else [gs[0].key] + Labels(gs[1..])
  }

  predicate DistinctLabels(gs: seq<Group>)
  {
    forall i, j :: 0 <= i < j < |gs| ==> gs[i].key != gs[j].key
  }

  /** All members of all groups, group after group. */
  function Flatten(gs: seq<Group>): (fs: seq<Fruit>)
    decreases |gs|
  {
    if |gs| == 0 then [] else gs[0].members + Flatten(gs[1..])
  }

  /** The sum of the group sizes shown in the headers. */
  function TotalSize(gs: seq<Group>): (n: nat)
    decreases |gs|
  {
    if |gs| == 0 then 0 else |gs[0].members| + TotalSize(gs[1..])
  }

  // ---------------------------------------------------------------------
  // Reference definitions, independent of the reduce

  /** The fruits of `fruits` whose label is `key`, in input order. */
  function Filter(fruits: seq<Fruit>, key: string, a: Axis): (r: seq<Fruit>)
    ensures |r| <= |fruits|
    decreases |fruits|
  {
    if |fruits| == 0 then []
    else (if Label(fruits[0], a) == key then [fruits[0]] else []) + Filter(fruits[1..], key, a)
  }

  /** The index of the first fruit labelled `key`, or `|fruits|` when none is. */
  function FirstIndex(fruits: seq<Fruit>, key: string, a: Axis): (r: nat)
    ensures r <= |fruits|
    ensures r < |fruits| ==> Label(fruits[r], a) == key
    decreases |fruits|
  {
    if |fruits| == 0 then 0
    else if Label(fruits[0], a) == key then 0
    else 1 + FirstIndex(fruits[1..], key, a)
  }

  /** `Filter` keeps only fruits of `fruits` that carry the label. */
  lemma {:induction false} FilterSelects(fruits: seq<Fruit>, key: string, a: Axis)
    ensures forall f :: f in Filter(fruits, key, a) ==> f in fruits && Label(f, a) == key
    decreases |fruits|
  {
    if |fruits| != 0 {
      FilterSelects(fruits[1..], key, a);
      assert forall f :: f in fruits[1..] ==> f in fruits;
    }
  }

  /** No fruit before `FirstIndex` carries the label. */
  lemma {:induction false} FirstIndexIsFirst(fruits: seq<Fruit>, key: string, a: Axis)
    ensures forall p :: 0 <= p < FirstIndex(fruits, key, a) ==> Label(fruits[p], a) != key
    decreases |fruits|
  {
    if |fruits| != 0 && Label(fruits[0], a) != key {
      FirstIndexIsFirst(fruits[1..], key, a);
      forall p | 1 <= p < FirstIndex(fruits, key, a)
        ensures Label(fruits[p], a) != key
      {
        assert fruits[p] == fruits[1..][p - 1];
      }
    }
  }

  /** Every group holds exactly the fruits with its label, in input order;
      in particular no group is empty. */
  ghost predicate HoldsItsFruits(gs: seq<Group>, fruits: seq<Fruit>, a: Axis)
  {
    && (forall i :: 0 <= i < |gs| ==> gs[i].members != [])
    && (forall i :: 0 <= i < |gs| ==> gs[i].members == Filter(fruits, gs[i].key, a))
  }

  /** Every fruit's label has a group. */
  ghost predicate CoversLabels(gs: seq<Group>, fruits: seq<Fruit>, a: Axis)
  {
    forall p :: 0 <= p < |fruits| ==> Label(fruits[p], a) in Labels(gs)
  }

  /** Every group's label occurs, and groups are ordered by where their
      labels first occur. */
  ghost predicate InFirstAppearanceOrder(gs: seq<Group>, fruits: seq<Fruit>, a: Axis)
  {
    && (forall i :: 0 <= i < |gs| ==> FirstIndex(fruits, gs[i].key, a) < |fruits|)
    && (forall i, j :: 0 <= i < j < |gs| ==>
          FirstIndex(fruits, gs[i].key, a) < FirstIndex(fruits, gs[j].key, a))
  }

  /** What grouping `fruits` by axis `a` must give: distinct, non-empty
      groups, each holding exactly the fruits with its label in input order,
      a group for every fruit's label, and groups ordered by where their
      labels first appear. */
  ghost predicate IsGroupingOf(gs: seq<Group>, fruits: seq<Fruit>, a: Axis)
  {
    && DistinctLabels(gs)
    && HoldsItsFruits(gs, fruits, a)
    && CoversLabels(gs, fruits, a)
    && InFirstAppearanceOrder(gs, fruits, a)
  }

  // ---------------------------------------------------------------------
  // The reduce

  /** One step of the reduce: `if (!groups[key]) groups[key] = [];
      groups[key].push(fruit)`. */
  function Push(groups: seq<Group>, key: string, fruit: Fruit): (r: seq<Group>)
    decreases |groups|
  {
    if |groups| == 0 then [Group(key, [fruit])]
    else if groups[0].key == key then [Group(key, groups[0].members + [fruit])] + groups[1..]
    else [groups[0]] + Push(groups[1..], key, fruit)
  }

  /** `fruits.reduce(..., {})`: the groups after filing every fruit in turn. */
  function Reduce(fruits: seq<Fruit>, a: Axis): (gs: seq<Group>)
    decreases |fruits|
  {
    if |fruits| == 0 then []
    else
      var last := fruits[|fruits| - 1];
      Push(Reduce(fruits[..|fruits| - 1], a), Label(last, a), last)
  }

  /** The memo: one "All" group when ungrouped, the reduce otherwise. */
  function GroupedFruits(fruits: seq<Fruit>, g: GroupBy): (gs: seq<Group>)
    ensures g == Ungrouped ==> |gs| == 1 && gs[0].key == AllLabel && gs[0].members == fruits
    ensures g.By? ==> IsGroupingOf(gs, fruits, g.axis)
    ensures multiset(Flatten(gs)) == multiset(fruits)
    ensures TotalSize(gs) == |fruits|
  {
    match g
    case Ungrouped =>
      assert Flatten([Group(AllLabel, fruits)]) == fruits by {
        assert [Group(AllLabel, fruits)][1..] == [];
      }
      [Group(AllLabel, fruits)]
    case By(a) =>
      ReduceIsGrouping(fruits, a);
      ReduceKeepsEveryFruit(fruits, a);
      FlattenSize(Reduce(fruits, a));
      assert |Flatten(Reduce(fruits, a))| == |multiset(Flatten(Reduce(fruits, a)))| == |fruits|;
      Reduce(fruits, a)
  }

  // ---------------------------------------------------------------------
  // Proofs

  lemma {:induction false} FilterSnoc(fruits: seq<Fruit>, x: Fruit, key: string, a: Axis)
    ensures Filter(fruits + [x], key, a)
            == Filter(fruits, key, a) + (if Label(x, a) == key then [x] else [])
    decreases |fruits|
  {
    var t := if Label(x, a) == key then [x] else [];
    if |fruits| != 0 {
      var h := if Label(fruits[0], a) == key then [fruits[0]] else [];
      var rest := Filter(fruits[1..], key, a);
      assert (fruits + [x])[0] == fruits[0];
      assert (fruits + [x])[1..] == fruits[1..] + [x];
      FilterSnoc(fruits[1..], x, key, a);
      assert Filter(fruits + [x], key, a) == h + (rest + t);
      assert Filter(fruits, key, a) == h + rest;
      assert h + (rest + t) == (h + rest) + t;
    } else {
      assert [x][1..] == [];
      assert Filter([x], key, a) == t + Filter([], key, a);
    }
  }

  lemma {:induction false} FilterAbsent(fruits: seq<Fruit>, key: string, a: Axis)
    requires forall p :: 0 <= p < |fruits| ==> Label(fruits[p], a) != key
    ensures Filter(fruits, key, a) == []
    decreases |fruits|
  {
    if |fruits| != 0 {
      FilterAbsent(fruits[1..], key, a);
    }
  }

  lemma {:induction false} FirstIndexSnoc(fruits: seq<Fruit>, x: Fruit, key: string, a: Axis)
    ensures FirstIndex(fruits + [x], key, a)
            == if FirstIndex(fruits, key, a) < |fruits| then FirstIndex(fruits, key, a)
               else if Label(x, a) == key then |fruits|
               else |fruits| + 1
    decreases |fruits|
  {
    if |fruits| != 0 {
      assert (fruits + [x])[1..] == fruits[1..] + [x];
      FirstIndexSnoc(fruits[1..], x, key, a);
    }
  }

  /** A `push` under a key with no group yet adds the group `[fruit]` last. */
  lemma {:induction false} PushNewAppends(groups: seq<Group>, key: string, fruit: Fruit)
    requires key !in Labels(groups)
    ensures Push(groups, key, fruit) == groups + [Group(key, [fruit])]
    decreases |groups|
  {
    if |groups| != 0 {
      assert Labels(groups) == [groups[0].key] + Labels(groups[1..]);
      PushNewAppends(groups[1..], key, fruit);
      assert groups == [groups[0]] + groups[1..];
    }
  }

  /** A `push` under a key that has a group grows that group, and only it. */
  lemma {:induction false} PushExistingGrows(groups: seq<Group>, key: string, fruit: Fruit)
    requires DistinctLabels(groups)
    requires key in Labels(groups)
    ensures |Push(groups, key, fruit)| == |groups|
    ensures forall i :: 0 <= i < |groups| ==>
              Push(groups, key, fruit)[i]
              == if groups[i].key == key then Group(key, groups[i].members + [fruit])
                 else groups[i]
    decreases |groups|
  {
    var r := Push(groups, key, fruit);
    assert Labels(groups) == [groups[0].key] + Labels(groups[1..]);
    if groups[0].key == key {
      forall i | 1 <= i < |groups|
        ensures r[i] == groups[i]
      {
        assert groups[0].key != groups[i].key;
      }
    } else {
      var rest := groups[1..];
      PushExistingGrows(rest, key, fruit);
      assert r == [groups[0]] + Push(rest, key, fruit);
      forall i | 1 <= i < |groups|
        ensures r[i] == if groups[i].key == key then Group(key, groups[i].members + [fruit])
                        else groups[i]
      {
        assert r[i] == Push(rest, key, fruit)[i - 1] && rest[i - 1] == groups[i];
      }
    }
  }

  /** The effect of one `push` on groups with distinct labels: an existing
      group for `key` grows by `fruit` at its end and nothing else changes;
      otherwise a new group `[fruit]` is added last. */
  lemma PushFiles(groups: seq<Group>, key: string, fruit: Fruit)
    requires DistinctLabels(groups)
    ensures key !in Labels(groups) ==> Push(groups, key, fruit) == groups + [Group(key, [fruit])]
    ensures key in Labels(groups) ==>
              && |Push(groups, key, fruit)| == |groups|
              && forall i :: 0 <= i < |groups| ==>
                   Push(groups, key, fruit)[i]
                   == if groups[i].key == key then Group(key, groups[i].members + [fruit])
                      else groups[i]
  {
    if key in Labels(groups) {
      PushExistingGrows(groups, key, fruit);
    } else {
      PushNewAppends(groups, key, fruit);
    }
  }

  /** Pushing one fruit adds exactly that fruit to the flattened groups. */
  lemma {:induction false} PushAddsOne(groups: seq<Group>, key: string, fruit: Fruit)
    ensures multiset(Flatten(Push(groups, key, fruit))) == multiset(Flatten(groups)) + multiset{fruit}
    decreases |groups|
  {
    if |groups| == 0 {
      assert Flatten([Group(key, [fruit])]) == [fruit] by {
        assert [Group(key, [fruit])][1..] == [];
      }
    } else if groups[0].key == key {
      var r := Push(groups, key, fruit);
      assert r[1..] == groups[1..];
    } else {
      var r := Push(groups, key, fruit);
      assert r[1..] == Push(groups[1..], key, fruit);
      PushAddsOne(groups[1..], key, fruit);
    }
  }

  /** No fruit is lost or duplicated by the reduce. */
  lemma {:induction false} ReduceKeepsEveryFruit(fruits: seq<Fruit>, a: Axis)
    ensures multiset(Flatten(Reduce(fruits, a))) == multiset(fruits)
    decreases |fruits|
  {
    if |fruits| != 0 {
      var pre, x := fruits[..|fruits| - 1], fruits[|fruits| - 1];
      ReduceKeepsEveryFruit(pre, a);
      PushAddsOne(Reduce(pre, a), Label(x, a), x);
      assert fruits == pre + [x];
    }
  }

  lemma {:induction false} FlattenSize(gs: seq<Group>)
    ensures |Flatten(gs)| == TotalSize(gs)
    decreases |gs|
  {
    if |gs| != 0 {
      FlattenSize(gs[1..]);
    }
  }

  /** Filtering and the first index after one more fruit `x`. */
  lemma SnocFacts(pre: seq<Fruit>, x: Fruit, l: string, a: Axis)
    ensures Filter(pre + [x], l, a) == Filter(pre, l, a) + (if Label(x, a) == l then [x] else [])
    ensures FirstIndex(pre + [x], l, a)
            == if FirstIndex(pre, l, a) < |pre| then FirstIndex(pre, l, a)
               else if Label(x, a) == l then |pre| else |pre| + 1
  {
    FilterSnoc(pre, x, l, a);
    FirstIndexSnoc(pre, x, l, a);
  }

  /** Every label of `pre + [x]` has a group once `x`'s label has one. */
  lemma CoverSnoc(gs0: seq<Group>, gs: seq<Group>, pre: seq<Fruit>, x: Fruit, a: Axis)
    requires CoversLabels(gs0, pre, a)
    requires forall l :: l in Labels(gs0) ==> l in Labels(gs)
    requires Label(x, a) in Labels(gs)
    ensures CoversLabels(gs, pre + [x], a)
  {
    var fs := pre + [x];
    forall p | 0 <= p < |fs|
      ensures Label(fs[p], a) in Labels(gs)
    {
      if p < |pre| {
        assert fs[p] == pre[p];
      }
    }
  }

  /** Filing a fruit whose label already has a group keeps a grouping. */
  lemma PushExistingKeepsGrouping(gs0: seq<Group>, pre: seq<Fruit>, x: Fruit, a: Axis)
    requires IsGroupingOf(gs0, pre, a)
    requires Label(x, a) in Labels(gs0)
    ensures IsGroupingOf(Push(gs0, Label(x, a), x), pre + [x], a)
  {
    var k := Label(x, a);
    var gs := Push(gs0, k, x);
    PushExistingKeepsLabels(gs0, k, x);
    ExistingGroupHoldsItsFruits(gs0, pre, x, a);
    ExistingGroupInOrder(gs0, pre, x, a);
    CoverSnoc(gs0, gs, pre, x, a);
  }

  /** Growing an existing group keeps the labels, hence their distinctness. */
  lemma PushExistingKeepsLabels(gs0: seq<Group>, k: string, x: Fruit)
    requires DistinctLabels(gs0)
    requires k in Labels(gs0)
    ensures Labels(Push(gs0, k, x)) == Labels(gs0)
    ensures DistinctLabels(Push(gs0, k, x))
  {
    var gs := Push(gs0, k, x);
    PushExistingGrows(gs0, k, x);
    assert forall i :: 0 <= i < |gs| ==> gs[i].key == gs0[i].key;
  }

  lemma ExistingGroupHoldsItsFruits(gs0: seq<Group>, pre: seq<Fruit>, x: Fruit, a: Axis)
    requires DistinctLabels(gs0) && HoldsItsFruits(gs0, pre, a)
    requires Label(x, a) in Labels(gs0)
    ensures HoldsItsFruits(Push(gs0, Label(x, a), x), pre + [x], a)
  {
    var k, fs := Label(x, a), pre + [x];
    var gs := Push(gs0, k, x);
    PushExistingGrows(gs0, k, x);
    forall i | 0 <= i < |gs|
      ensures gs[i].members == Filter(fs, gs[i].key, a) && gs[i].members != []
    {
      SnocFacts(pre, x, gs0[i].key, a);
    }
  }

  lemma ExistingGroupInOrder(gs0: seq<Group>, pre: seq<Fruit>, x: Fruit, a: Axis)
    requires DistinctLabels(gs0) && InFirstAppearanceOrder(gs0, pre, a)
    requires Label(x, a) in Labels(gs0)
    ensures InFirstAppearanceOrder(Push(gs0, Label(x, a), x), pre + [x], a)
  {
    var k, fs := Label(x, a), pre + [x];
    var gs := Push(gs0, k, x);
    PushExistingGrows(gs0, k, x);
    forall i | 0 <= i < |gs|
      ensures FirstIndex(fs, gs[i].key, a) == FirstIndex(pre, gs0[i].key, a) < |pre|
    {
      SnocFacts(pre, x, gs0[i].key, a);
    }
  }

  /** Filing a fruit with a new label appends its one-fruit group and keeps
      a grouping. */
  lemma PushNewKeepsGrouping(gs0: seq<Group>, pre: seq<Fruit>, x: Fruit, a: Axis)
    requires IsGroupingOf(gs0, pre, a)
    requires Label(x, a) !in Labels(gs0)
    ensures IsGroupingOf(Push(gs0, Label(x, a), x), pre + [x], a)
  {
    var k := Label(x, a);
    var gs := Push(gs0, k, x);
    PushFiles(gs0, k, x);
    assert forall p :: 0 <= p < |pre| ==> Label(pre[p], a) != k;
    LabelsSnoc(gs0, Group(k, [x]));
    NewGroupHoldsItsFruits(gs0, pre, x, a);
    NewGroupInOrder(gs0, pre, x, a);
    CoverSnoc(gs0, gs, pre, x, a);
  }

  lemma NewGroupHoldsItsFruits(gs0: seq<Group>, pre: seq<Fruit>, x: Fruit, a: Axis)
    requires HoldsItsFruits(gs0, pre, a)
    requires forall p :: 0 <= p < |pre| ==> Label(pre[p], a) != Label(x, a)
    requires forall i :: 0 <= i < |gs0| ==> gs0[i].key != Label(x, a)
    ensures HoldsItsFruits(gs0 + [Group(Label(x, a), [x])], pre + [x], a)
  {
    var k, fs, gs := Label(x, a), pre + [x], gs0 + [Group(Label(x, a), [x])];
    forall i | 0 <= i < |gs0|
      ensures gs[i].members == Filter(fs, gs[i].key, a)
    {
      SnocFacts(pre, x, gs0[i].key, a);
    }
    FilterAbsent(pre, k, a);
    SnocFacts(pre, x, k, a);
  }

  lemma NewGroupInOrder(gs0: seq<Group>, pre: seq<Fruit>, x: Fruit, a: Axis)
    requires InFirstAppearanceOrder(gs0, pre, a)
    requires forall p :: 0 <= p < |pre| ==> Label(pre[p], a) != Label(x, a)
    ensures InFirstAppearanceOrder(gs0 + [Group(Label(x, a), [x])], pre + [x], a)
  {
    var k, fs := Label(x, a), pre + [x];
    OldGroupsKeepFirstIndex(gs0, pre, x, a);
    SnocFacts(pre, x, k, a);
    FilterAbsent(pre, k, a);
    assert FirstIndex(pre, k, a) == |pre|;
    assert FirstIndex(fs, k, a) == |pre|;
    OrderSnoc(gs0, Group(k, [x]), fs, a);
  }

  /** A group whose label first occurs after every other group's may be
      appended without breaking the order. */
  lemma OrderSnoc(gs0: seq<Group>, g: Group, fs: seq<Fruit>, a: Axis)
    requires InFirstAppearanceOrder(gs0, fs, a)
    requires FirstIndex(fs, g.key, a) < |fs|
    requires forall i :: 0 <= i < |gs0| ==> FirstIndex(fs, gs0[i].key, a) < FirstIndex(fs, g.key, a)
    ensures InFirstAppearanceOrder(gs0 + [g], fs, a)
  {
    var gs := gs0 + [g];
    forall i | 0 <= i < |gs|
      ensures FirstIndex(fs, gs[i].key, a) < |fs|
    {
      if i < |gs0| {
        assert gs[i] == gs0[i];
      }
    }
    forall i, j | 0 <= i < j < |gs|
      ensures FirstIndex(fs, gs[i].key, a) < FirstIndex(fs, gs[j].key, a)
    {
      assert gs[i] == gs0[i];
      if j < |gs0| {
        assert gs[j] == gs0[j];
      } else {
        assert gs[j] == g;
      }
    }
  }

  lemma OldGroupsKeepFirstIndex(gs0: seq<Group>, pre: seq<Fruit>, x: Fruit, a: Axis)
    requires InFirstAppearanceOrder(gs0, pre, a)
    ensures InFirstAppearanceOrder(gs0, pre + [x], a)
    ensures forall i :: 0 <= i < |gs0| ==> FirstIndex(pre + [x], gs0[i].key, a) < |pre|
  {
    forall i | 0 <= i < |gs0|
      ensures FirstIndex(pre + [x], gs0[i].key, a) == FirstIndex(pre, gs0[i].key, a)
    {
      SnocFacts(pre, x, gs0[i].key, a);
    }
  }

  lemma {:induction false} LabelsSnoc(gs: seq<Group>, g: Group)
    ensures Labels(gs + [g]) == Labels(gs) + [g.key]
    decreases |gs|
  {
    if |gs| != 0 {
      assert (gs + [g])[1..] == gs[1..] + [g];
      LabelsSnoc(gs[1..], g);
    } else {
      assert [g][1..] == [];
    }
  }

  /** The reduce meets the reference definition of a grouping. */
  lemma {:induction false} ReduceIsGrouping(fruits: seq<Fruit>, a: Axis)
    ensures IsGroupingOf(Reduce(fruits, a), fruits, a)
    decreases |fruits|
  {
    if |fruits| != 0 {
      var pre, x := fruits[..|fruits| - 1], fruits[|fruits| - 1];
      assert fruits == pre + [x];
      ReduceIsGrouping(pre, a);
      if Label(x, a) in Labels(Reduce(pre, a)) {
        PushExistingKeepsGrouping(Reduce(pre, a), pre, x, a);
      } else {
        PushNewKeepsGrouping(Reduce(pre, a), pre, x, a);
      }
    }
  }

  /** Labels listed in strictly increasing order of first occurrence. */
  ghost predicate FirstAppearanceSorted(xs: seq<string>, fruits: seq<Fruit>, a: Axis)
  {
    forall i, j :: 0 <= i < j < |xs| ==>
      FirstIndex(fruits, xs[i], a) < FirstIndex(fruits, xs[j], a)
  }

  /** In such a list, no label after the head is the head again. */
  lemma TailAvoidsHead(xs: seq<string>, fruits: seq<Fruit>, a: Axis, l: string)
    requires xs != [] && FirstAppearanceSorted(xs, fruits, a)
    ensures l in xs[1..] <==> l in xs && l != xs[0]
  {
    if l in xs[1..] {
      var k :| 0 <= k < |xs[1..]| && xs[1..][k] == l;
      assert xs[k + 1] == l;
      assert FirstIndex(fruits, xs[0], a) < FirstIndex(fruits, xs[k + 1], a);
    }
    if l in xs && l != xs[0] {
      var m :| 0 <= m < |xs| && xs[m] == l;
      assert xs[1..][m - 1] == l;
    }
  }

  /** The head of such a list occurs first among its labels. */
  lemma HeadOccursFirst(xs: seq<string>, fruits: seq<Fruit>, a: Axis, l: string)
    requires FirstAppearanceSorted(xs, fruits, a) && l in xs
    ensures FirstIndex(fruits, xs[0], a) <= FirstIndex(fruits, l, a)
  {
    var k :| 0 <= k < |xs| && xs[k] == l;
    if k != 0 {
      assert FirstIndex(fruits, xs[0], a) < FirstIndex(fruits, xs[k], a);
    }
  }

  /** Two such lists of the same labels start with the same label. */
  lemma HeadsAgree(xs: seq<string>, ys: seq<string>, fruits: seq<Fruit>, a: Axis)
    requires xs != [] && ys != []
    requires FirstIndex(fruits, xs[0], a) < |fruits|
    requires FirstAppearanceSorted(xs, fruits, a) && FirstAppearanceSorted(ys, fruits, a)
    requires forall l :: l in xs <==> l in ys
    ensures xs[0] == ys[0]
  {
    assert xs[0] in xs && ys[0] in ys;
    HeadOccursFirst(xs, fruits, a, ys[0]);
    HeadOccursFirst(ys, fruits, a, xs[0]);
    var fx := FirstIndex(fruits, xs[0], a);
    assert xs[0] == Label(fruits[fx], a) == ys[0];
  }

  /** Lists of the same labels are empty together. */
  lemma SameLabelsSameEmptiness(xs: seq<string>, ys: seq<string>)
    requires forall l :: l in xs <==> l in ys
    ensures xs == [] <==> ys == []
  {
    if xs != [] {
      assert xs[0] in xs;
    }
    if ys != [] {
      assert ys[0] in ys;
    }
  }

  lemma TailStaysSorted(xs: seq<string>, fruits: seq<Fruit>, a: Axis)
    requires xs != []
    requires FirstAppearanceSorted(xs, fruits, a)
    ensures FirstAppearanceSorted(xs[1..], fruits, a)
  {
    forall i, j | 0 <= i < j < |xs[1..]|
      ensures FirstIndex(fruits, xs[1..][i], a) < FirstIndex(fruits, xs[1..][j], a)
    {
      assert xs[1..][i] == xs[i + 1] && xs[1..][j] == xs[j + 1];
    }
  }

  /** Two label sequences that list the same labels, each in strictly
      increasing order of first occurrence, are equal. */
  lemma {:induction false} FirstAppearanceOrderIsUnique(
    xs: seq<string>, ys: seq<string>, fruits: seq<Fruit>, a: Axis)
    requires forall i :: 0 <= i < |xs| ==> FirstIndex(fruits, xs[i], a) < |fruits|
    requires FirstAppearanceSorted(xs, fruits, a) && FirstAppearanceSorted(ys, fruits, a)
    requires forall l :: l in xs <==> l in ys
    ensures xs == ys
    decreases |xs| + |ys|
  {
    SameLabelsSameEmptiness(xs, ys);
    if xs != [] {
      HeadsAgree(xs, ys, fruits, a);
      forall l ensures l in xs[1..] <==> l in ys[1..]
      {
        TailAvoidsHead(xs, fruits, a, l);
        TailAvoidsHead(ys, fruits, a, l);
      }
      TailStaysSorted(xs, fruits, a);
      TailStaysSorted(ys, fruits, a);
      FirstAppearanceOrderIsUnique(xs[1..], ys[1..], fruits, a);
      assert xs == [xs[0]] + xs[1..] && ys == [ys[0]] + ys[1..];
    }
  }

  /** The reference definition fixes the grouping: two groupings of the
      same fruits by the same axis are equal. */
  lemma GroupingIsUnique(gs: seq<Group>, hs: seq<Group>, fruits: seq<Fruit>, a: Axis)
    requires IsGroupingOf(gs, fruits, a)
    requires IsGroupingOf(hs, fruits, a)
    ensures gs == hs
  {
    var xs, ys := Labels(gs), Labels(hs);
    forall l ensures l in xs <==> l in ys
    {
      if l in xs {
        var i :| 0 <= i < |gs| && xs[i] == l;
        assert Label(fruits[FirstIndex(fruits, gs[i].key, a)], a) == l;
      }
      if l in ys {
        var i :| 0 <= i < |hs| && ys[i] == l;
        assert Label(fruits[FirstIndex(fruits, hs[i].key, a)], a) == l;
      }
    }
    FirstAppearanceOrderIsUnique(xs, ys, fruits, a);
    forall i | 0 <= i < |gs|
      ensures gs[i] == hs[i]
    {
      assert xs[i] == ys[i];
    }
  }

  /** Grouping by an axis gives exactly the reference grouping: a sequence
      of groups meets `IsGroupingOf` if and only if it is what the memo
      computes. So the table view and the list view, whose memos are the
      same code, show the same groups for every input. */
  lemma GroupedFruitsIsTheGrouping(fruits: seq<Fruit>, a: Axis, gs: seq<Group>)
    ensures IsGroupingOf(gs, fruits, a) <==> gs == GroupedFruits(fruits, By(a))
  {
    if IsGroupingOf(gs, fruits, a) {
      GroupingIsUnique(gs, GroupedFruits(fruits, By(a)), fruits, a);
    }
  }

  /** Any grouping holds exactly the listed fruits, counted with multiplicity. */
  lemma GroupingKeepsEveryFruit(gs: seq<Group>, fruits: seq<Fruit>, a: Axis)
    requires IsGroupingOf(gs, fruits, a)
    ensures multiset(Flatten(gs)) == multiset(fruits)
  {
    GroupingIsUnique(gs, GroupedFruits(fruits, By(a)), fruits, a);
  }
}
