/** The bounded jar of the application component: a sequence of at most
    MaxFruits fruits, a pending selection and the "limit reached" flag that
    opens the replace dialog. Every React state update is a total function
    from the state before to the state after. */
module JarMachine {
  import opened Fruits

  /** `MAX_FRUITS`, the capacity of the jar. */
  const MaxFruits: nat := 15

  /** `jar`, `selectedFruit` (null is `None`) and `isLimitReached`. */
  datatype JarState = JarState(jar: seq<Fruit>, selected: Option<Fruit>, limitReached: bool)

  /** The state on first render: empty jar, nothing pending, dialog closed. */
  const Initial: JarState := JarState([], None, false)

  /** The last `MaxFruits` elements of `xs` (all of `xs` when it is shorter). */
  function Window(xs: seq<Fruit>): (r: seq<Fruit>)
    ensures |r| == if |xs| <= MaxFruits then |xs| else MaxFruits
  {
    if |xs| <= MaxFruits then xs else xs[|xs| - MaxFruits..]
  }

  /** The updater `addFruitToJar` hands to `setJar`: at or over capacity the
      oldest fruit (index 0) leaves and the new one goes to the end (FIFO
      displacement); below capacity the new fruit is appended. */
  function Displace(prev: seq<Fruit>, fruit: Fruit): (r: seq<Fruit>)
    ensures |r| == if |prev| >= MaxFruits then |prev| else |prev| + 1
    ensures r[|r| - 1] == fruit
    ensures |prev| < MaxFruits ==> r[..|prev|] == prev
    ensures |prev| >= MaxFruits ==> forall i :: 0 <= i < |r| - 1 ==> r[i] == prev[i + 1]
  {
    if |prev| >= MaxFruits then prev[1..] + [fruit] else prev + [fruit]
  }

  /** `addFruitToJar`: schedule the displacement and clear the pending
      selection and the dialog flag, whatever the jar held. */
  function AddToJar(s: JarState, fruit: Fruit): (r: JarState)
    ensures r.selected == None && !r.limitReached
    ensures r.jar == Displace(s.jar, fruit)
    ensures |s.jar| <= MaxFruits ==> |r.jar| <= MaxFruits
  {
    JarState(Displace(s.jar, fruit), None, false)
  }

  /** `handleAddFruit` as the closure of one render: it tests the length of
      the jar that render saw (`rendered`), while the update it schedules
      folds over the latest jar `s.jar`. */
  function HandleAddWith(rendered: seq<Fruit>, s: JarState, fruit: Fruit): (r: JarState)
    ensures |rendered| < MaxFruits ==> r == AddToJar(s, fruit)
    ensures |rendered| >= MaxFruits ==>
              r.jar == s.jar && r.selected == Some(fruit) && r.limitReached
  {
    if |rendered| < MaxFruits then AddToJar(s, fruit)
    else s.(selected := Some(fruit), limitReached := true)
  }

  /** One "Add" click: the rendered jar is the current jar. Below capacity the
      fruit is appended; at capacity the jar is left alone and the fruit
      waits for confirmation. */
  function HandleAdd(s: JarState, fruit: Fruit): (r: JarState)
    ensures |s.jar| < MaxFruits ==>
              && r.jar == s.jar + [fruit]
              && r.selected == None && !r.limitReached
    ensures |s.jar| >= MaxFruits ==>
              r.jar == s.jar && r.selected == Some(fruit) && r.limitReached
  {
    HandleAddWith(s.jar, s, fruit)
  }

  /** `onConfirm`: `selectedFruit && addFruitToJar(selectedFruit)`; with
      nothing pending it does nothing. */
  function Confirm(s: JarState): (r: JarState)
    ensures s.selected.None? ==> r == s
    ensures s.selected.Some? ==>
              && r.jar == Displace(s.jar, s.selected.value)
              && r.selected == None && !r.limitReached
  {
    match s.selected
    case None => s
    case Some(f) => AddToJar(s, f)
  }

  /** `onOpenChange`, wired straight to `setIsLimitReached`. Cancel and
      dismissing the dialog are `OpenChange(s, false)`: the pending
      selection is NOT cleared. */
  function OpenChange(s: JarState, open: bool): (r: JarState)
    ensures r.jar == s.jar && r.selected == s.selected && r.limitReached == open
  {
    s.(limitReached := open)
  }

  /** `handleAddAllFruits` of a group: `handleAddFruit` is called once per
      fruit, in order, every call closing over the same rendered jar. */
  function AddAllWith(rendered: seq<Fruit>, s: JarState, fruits: seq<Fruit>): (r: JarState)
    decreases |fruits|
  {
    if |fruits| == 0 then s
    else AddAllWith(rendered, HandleAddWith(rendered, s, fruits[0]), fruits[1..])
  }

  /** An "Add All" click on the current state. */
  function HandleAddAll(s: JarState, fruits: seq<Fruit>): (r: JarState)
  {
    AddAllWith(s.jar, s, fruits)
  }

  /** Displacing into the window of `xs` gives the window of `xs + [fruit]`. */
  lemma DisplaceWindow(xs: seq<Fruit>, fruit: Fruit)
    ensures Displace(Window(xs), fruit) == Window(xs + [fruit])
  {
    if |xs| >= MaxFruits {
      assert Window(xs)[1..] == xs[|xs| - MaxFruits + 1..];
      assert (xs + [fruit])[|xs| + 1 - MaxFruits..] == xs[|xs| + 1 - MaxFruits..] + [fruit];
    }
  }

  /** Below capacity, a batch is a left fold of the displacing update: the
      jar ends as the window of everything added and nothing is pending. */
  lemma {:induction false} AddAllBelowCapacityFolds(
    rendered: seq<Fruit>, s: JarState, base: seq<Fruit>, fruits: seq<Fruit>)
    requires |rendered| < MaxFruits
    requires s.jar == Window(base)
    ensures AddAllWith(rendered, s, fruits).jar == Window(base + fruits)
    ensures fruits != [] ==>
              AddAllWith(rendered, s, fruits).selected == None
              && !AddAllWith(rendered, s, fruits).limitReached
    ensures fruits == [] ==> AddAllWith(rendered, s, fruits) == s
    decreases |fruits|
  {
    if fruits != [] {
      var f, rest := fruits[0], fruits[1..];
      var s' := JarState(Displace(s.jar, f), None, false);
      assert HandleAddWith(rendered, s, f) == s';
      DisplaceWindow(base, f);
      assert s'.jar == Window(base + [f]);
      AddAllBelowCapacityFolds(rendered, s', base + [f], rest);
      assert AddAllWith(rendered, s, fruits) == AddAllWith(rendered, s', rest);
      assert (base + [f]) + rest == base + fruits;
    }
  }

  /** At capacity, every call of a batch re-selects; the jar is untouched and
      the last fruit of the batch is the one left pending. */
  lemma {:induction false} AddAllAtCapacityPrompts(
    rendered: seq<Fruit>, s: JarState, fruits: seq<Fruit>)
    requires |rendered| >= MaxFruits
    ensures AddAllWith(rendered, s, fruits).jar == s.jar
    ensures fruits != [] ==>
              AddAllWith(rendered, s, fruits).selected == Some(fruits[|fruits| - 1])
              && AddAllWith(rendered, s, fruits).limitReached
    ensures fruits == [] ==> AddAllWith(rendered, s, fruits) == s
    decreases |fruits|
  {
    if fruits != [] {
      AddAllAtCapacityPrompts(rendered, HandleAddWith(rendered, s, fruits[0]), fruits[1..]);
    }
  }

  /** "Add All" dispatched from a jar below capacity: the jar ends with
      `min(MaxFruits, |jar| + |fruits|)` fruits, the last ones added, in
      order, and the dialog never opens. From a full jar the jar is left
      alone and the batch's last fruit is pending. */
  lemma HandleAddAllOutcome(s: JarState, fruits: seq<Fruit>)
    requires |s.jar| <= MaxFruits
    ensures |s.jar| < MaxFruits ==>
              && HandleAddAll(s, fruits).jar == Window(s.jar + fruits)
              && |HandleAddAll(s, fruits).jar|
                 == (if |s.jar| + |fruits| <= MaxFruits then |s.jar| + |fruits| else MaxFruits)
              && (fruits != [] ==> !HandleAddAll(s, fruits).limitReached
                                   && HandleAddAll(s, fruits).selected == None)
    ensures |s.jar| == MaxFruits ==>
              && HandleAddAll(s, fruits).jar == s.jar
              && (fruits != [] ==> HandleAddAll(s, fruits).selected == Some(fruits[|fruits| - 1])
                                   && HandleAddAll(s, fruits).limitReached)
    ensures fruits == [] ==> HandleAddAll(s, fruits) == s
  {
    if |s.jar| < MaxFruits {
      AddAllBelowCapacityFolds(s.jar, s, s.jar, fruits);
    } else {
      AddAllAtCapacityPrompts(s.jar, s, fruits);
    }
  }

  /** The commands the page can issue to the jar. `CloseDialog` is
      `onOpenChange(false)`: the Cancel button or a dismissal. */
  datatype Command =
    | Add(fruit: Fruit)
    | AddAll(fruits: seq<Fruit>)
    | ConfirmReplace
    | CloseDialog

  function Step(s: JarState, c: Command): (r: JarState)
  {
    match c
    case Add(f) => HandleAdd(s, f)
    case AddAll(fs) => HandleAddAll(s, fs)
    case ConfirmReplace => Confirm(s)
    case CloseDialog => OpenChange(s, false)
  }

  /** The state after the commands `cs`, issued one after another. */
  function Run(s: JarState, cs: seq<Command>): (r: JarState)
    decreases |cs|
  {
    if |cs| == 0 then s else Run(Step(s, cs[0]), cs[1..])
  }

  /** What every reachable state satisfies: the capacity bound, a pending
      fruit only while the jar is full, and the dialog open only while a
      fruit is pending. */
  predicate Valid(s: JarState)
  {
    && |s.jar| <= MaxFruits
    && (s.selected.Some? ==> |s.jar| == MaxFruits)
    && (s.limitReached ==> s.selected.Some?)
  }

  lemma StepKeepsValid(s: JarState, c: Command)
    requires Valid(s)
    ensures Valid(Step(s, c))
  {
    match c
    case AddAll(fs) => HandleAddAllOutcome(s, fs);
    case _ =>
  }

  lemma {:induction false} RunKeepsValid(s: JarState, cs: seq<Command>)
    requires Valid(s)
    ensures Valid(Run(s, cs))
    decreases |cs|
  {
    if |cs| != 0 {
      StepKeepsValid(s, cs[0]);
      RunKeepsValid(Step(s, cs[0]), cs[1..]);
    }
  }

  /** From the empty jar, every sequence of adds, batches, confirmations and
      cancellations keeps at most MaxFruits fruits in the jar, and leaves a
      fruit pending only while the jar is full. */
  lemma ReachableWithinCapacity(cs: seq<Command>)
    ensures |Run(Initial, cs).jar| <= MaxFruits
    ensures Run(Initial, cs).selected.Some? ==> |Run(Initial, cs).jar| == MaxFruits
    ensures Run(Initial, cs).limitReached ==> Run(Initial, cs).selected.Some?
  {
    RunKeepsValid(Initial, cs);
  }

  /** One `Add` command per fruit of `fruits`. */
  function Adds(fruits: seq<Fruit>): (cs: seq<Command>)
    decreases |fruits|
  {
    if |fruits| == 0 then [] else [Add(fruits[0])] + Adds(fruits[1..])
  }

  /** Single adds that fit append in order and never prompt; in particular
      MaxFruits adds from the empty jar fill it exactly. */
  lemma {:induction false} AddsThatFitAppend(s: JarState, fruits: seq<Fruit>)
    requires |s.jar| + |fruits| <= MaxFruits
    requires fruits != []
    ensures Run(s, Adds(fruits)) == JarState(s.jar + fruits, None, false)
    decreases |fruits|
  {
    var f, more := fruits[0], fruits[1..];
    var s' := JarState(s.jar + [f], None, false);
    RunAddsStep(s, fruits);
    if |fruits| > 1 {
      AddsThatFitAppend(s', more);
      assert s'.jar + more == s.jar + fruits;
    }
  }

  /** The first of a run of adds into free room appends its fruit. */
  lemma RunAddsStep(s: JarState, fruits: seq<Fruit>)
    requires |s.jar| < MaxFruits && fruits != []
    ensures Run(s, Adds(fruits)) == Run(JarState(s.jar + [fruits[0]], None, false), Adds(fruits[1..]))
  {
    assert Adds(fruits) == [Add(fruits[0])] + Adds(fruits[1..]);
    RunCons(s, Add(fruits[0]), Adds(fruits[1..]));
    AddThatFits(s, fruits[0]);
  }

  /** One add into free room is an append with no prompt. */
  lemma AddThatFits(s: JarState, f: Fruit)
    requires |s.jar| < MaxFruits
    ensures Step(s, Add(f)) == JarState(s.jar + [f], None, false)
  {
  }

  /** Running a command list is running its head, then its tail. */
  lemma RunCons(s: JarState, c: Command, cs: seq<Command>)
    ensures Run(s, [c] + cs) == Run(Step(s, c), cs)
  {
    assert ([c] + cs)[1..] == cs;
  }

  /** The add that overflows a full jar, then Cancel: the jar is exactly as
      before and the fruit stays selected with the dialog closed. */
  lemma OverflowThenCancel(s: JarState, fruit: Fruit)
    requires |s.jar| == MaxFruits
    ensures Run(s, [Add(fruit), CloseDialog]) == s.(selected := Some(fruit), limitReached := false)
  {
    var cs := [Add(fruit), CloseDialog];
    assert cs[1..] == [CloseDialog] && cs[1..][1..] == [];
    assert Run(s, cs) == Run(HandleAdd(s, fruit), [CloseDialog]);
  }

  /** The add that overflows a full jar, then Replace: the oldest fruit is
      evicted, the others keep their order and the new fruit is last. */
  lemma OverflowThenConfirm(s: JarState, fruit: Fruit)
    requires |s.jar| == MaxFruits
    ensures Run(s, [Add(fruit), ConfirmReplace]) == JarState(s.jar[1..] + [fruit], None, false)
  {
    var cs := [Add(fruit), ConfirmReplace];
    assert cs[1..] == [ConfirmReplace] && cs[1..][1..] == [];
    assert Run(s, cs) == Run(HandleAdd(s, fruit), [ConfirmReplace]);
  }
}
