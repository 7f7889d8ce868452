/** The per-group controls of the table and list views: collapsing a group,
    the rows left on screen, and the "Add All" button, which hands every
    fruit of its group to the jar's add handler, one after another. */
module GroupView {
  import opened Fruits
  import opened Grouping
  import JarMachine

  /** `toggleGroup`: a collapsed label is expanded, any other is collapsed. */
  function Toggle(collapsed: set<string>, group: string): (r: set<string>)
    ensures group in r <==> group !in collapsed
    ensures forall l :: l != group ==> (l in r <==> l in collapsed)
  {
    if group in collapsed then collapsed - {group} else collapsed + {group}
  }

  /** Toggling the same group twice restores the collapsed set. */
  lemma ToggleTwiceRestores(collapsed: set<string>, group: string)
    ensures Toggle(Toggle(collapsed, group), group) == collapsed
  {
  }

  /** The fruit rows on screen: the members of every group that is not
      collapsed, group after group. */
  function ShownRows(gs: seq<Group>, collapsed: set<string>): (r: seq<Fruit>)
    ensures multiset(r) <= multiset(Flatten(gs))
    ensures forall i :: 0 <= i < |gs| && gs[i].key !in collapsed ==>
              multiset(gs[i].members) <= multiset(r)
    decreases |gs|
  {
    if |gs| == 0 then []
    else
      var rest := ShownRows(gs[1..], collapsed);
      assert forall i :: 1 <= i < |gs| ==> gs[i] == gs[1..][i - 1];
      (if gs[0].key in collapsed then [] else gs[0].members) + rest
  }

  /** For groups that each hold only fruits of their own label (as every
      grouping does), a fruit is on screen exactly when it belongs to some
      group and its label is not collapsed: collapsed groups are hidden. */
  lemma {:induction false} ShownRowsHidesCollapsed(
    gs: seq<Group>, collapsed: set<string>, a: Axis, f: Fruit)
    requires forall i, g :: 0 <= i < |gs| && g in gs[i].members ==> Label(g, a) == gs[i].key
    ensures f in ShownRows(gs, collapsed) <==> f in Flatten(gs) && Label(f, a) !in collapsed
    decreases |gs|
  {
    if |gs| != 0 {
      assert forall i :: 0 <= i < |gs[1..]| ==> gs[1..][i] == gs[i + 1];
      ShownRowsHidesCollapsed(gs[1..], collapsed, a, f);
      assert Flatten(gs) == gs[0].members + Flatten(gs[1..]);
      var shown := if gs[0].key in collapsed then [] else gs[0].members;
      assert ShownRows(gs, collapsed) == shown + ShownRows(gs[1..], collapsed);
      if f in gs[0].members {
        assert Label(f, a) == gs[0].key;
      }
    }
  }

  /** In a grouping, the rows on screen are the fruits whose label is not
      collapsed. */
  lemma ShownRowsOfGrouping(gs: seq<Group>, fruits: seq<Fruit>, a: Axis, collapsed: set<string>, f: Fruit)
    requires IsGroupingOf(gs, fruits, a)
    ensures f in ShownRows(gs, collapsed) <==> f in fruits && Label(f, a) !in collapsed
  {
    forall i, g | 0 <= i < |gs| && g in gs[i].members
      ensures Label(g, a) == gs[i].key
    {
      FilterSelects(fruits, gs[i].key, a);
    }
    ShownRowsHidesCollapsed(gs, collapsed, a, f);
    GroupingKeepsEveryFruit(gs, fruits, a);
    assert f in Flatten(gs) <==> f in multiset(Flatten(gs));
  }

  /** With no group collapsed, every fruit is on screen exactly once. */
  lemma {:induction false} NothingCollapsedShowsEveryFruit(gs: seq<Group>, collapsed: set<string>)
    requires forall i :: 0 <= i < |gs| ==> gs[i].key !in collapsed
    ensures ShownRows(gs, collapsed) == Flatten(gs)
    decreases |gs|
  {
    if |gs| != 0 {
      assert forall i :: 0 <= i < |gs[1..]| ==> gs[1..][i] == gs[i + 1];
      NothingCollapsedShowsEveryFruit(gs[1..], collapsed);
    }
  }

  /** The groups that carry an "Add All" button: in both views, every
      group whose label is not "All". */
  function AddAllGroups(gs: seq<Group>): (r: seq<Group>)
    ensures forall g :: g in r ==> g in gs && g.key != AllLabel
    ensures forall i :: 0 <= i < |gs| && gs[i].key != AllLabel ==> gs[i] in r
    decreases |gs|
  {
    if |gs| == 0 then []
    else
      var rest := AddAllGroups(gs[1..]);
      assert forall i :: 1 <= i < |gs| ==> gs[i] == gs[1..][i - 1];
      (if gs[0].key == AllLabel then [] else [gs[0]]) + rest
  }

  /** Ungrouped, the views offer no "Add All" button. */
  lemma UngroupedOffersNoAddAll(fruits: seq<Fruit>)
    ensures AddAllGroups(GroupedFruits(fruits, Ungrouped)) == []
  {
    assert GroupedFruits(fruits, Ungrouped) == [Group(AllLabel, fruits)];
  }

  /** When the group fits in the free room, its "Add All" button
      (`handleAddAllFruits(groupFruits)`, the jar's add handler once per
      member, in group order) appends each of its fruits exactly once and no
      dialog opens. */
  lemma AddAllThatFitsAppendsTheGroup(s: JarMachine.JarState, g: Group)
    requires |s.jar| + |g.members| <= JarMachine.MaxFruits
    requires g.members != []
    ensures JarMachine.HandleAddAll(s, g.members).jar == s.jar + g.members
    ensures JarMachine.HandleAddAll(s, g.members).selected == None
    ensures !JarMachine.HandleAddAll(s, g.members).limitReached
  {
    JarMachine.HandleAddAllOutcome(s, g.members);
  }
}
