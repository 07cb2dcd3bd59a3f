/** The action decomposer: each `add` or `update` becomes the eight lifecycle
    steps of its package, in a fixed order; every other action, `remove`
    included, is passed through as it is. */
module DecomposeActions {
  import opened Actions

  /** The lifecycle steps of an added or updated package, in order. */
  const Lifecycle: seq<string> :=
    ["fetch", "extract", "preinstall", "build", "install", "postinstall", "test", "finalize"]

  /** The verbs the `switch` expands. */
  predicate Expands(cmd: string)
  {
    cmd == "add" || cmd == "update"
  }

  /** One entry per lifecycle step, all about `pkg`. */
  function Steps(pkg: NodeRef): seq<Action>
  {
    seq(|Lifecycle|, i requires 0 <= i < |Lifecycle| => Action(Lifecycle[i], pkg))
  }

  /** What the `switch` pushes for one action. */
  function Expand(a: Action): seq<Action>
  {
    if Expands(a.cmd) then Steps(a.pkg) else [a]
  }

  /** The eight `push` calls of the `add`/`update` case push exactly the steps. */
  lemma EightPushes(before: seq<Action>, pkg: NodeRef)
    ensures before + [Action("fetch", pkg)] + [Action("extract", pkg)] + [Action("preinstall", pkg)]
            + [Action("build", pkg)] + [Action("install", pkg)] + [Action("postinstall", pkg)]
            + [Action("test", pkg)] + [Action("finalize", pkg)]
            == before + Steps(pkg)
  {
  }

  /** An `add` or `update` becomes one entry per lifecycle step, in lifecycle
      order, all about the same package; anything else is kept unchanged. */
  lemma ExpandShape(a: Action)
    ensures Expands(a.cmd) ==> |Expand(a)| == |Lifecycle|
    ensures Expands(a.cmd) ==> forall i :: 0 <= i < |Lifecycle| ==> Expand(a)[i] == Action(Lifecycle[i], a.pkg)
    ensures !Expands(a.cmd) ==> Expand(a) == [a]
  {
  }

  /** Everything one call pushes for the actions `ds`, in order. */
  function Decomposition(ds: seq<Action>): seq<Action>
    decreases |ds|
  {
    if ds == [] then [] else Decomposition(ds[..|ds| - 1]) + Expand(ds[|ds| - 1])
  }

  /** The number of actions the `switch` expands. */
  function ExpandingCount(ds: seq<Action>): (n: nat)
    ensures n <= |ds|
    decreases |ds|
  {
    if ds == [] then 0
    else ExpandingCount(ds[..|ds| - 1]) + (if Expands(ds[|ds| - 1].cmd) then 1 else 0)
  }

  /** The output grows by eight per `add`/`update` and by one per other action. */
  lemma {:induction false} DecompositionLength(ds: seq<Action>)
    ensures |Decomposition(ds)| == 8 * ExpandingCount(ds) + (|ds| - ExpandingCount(ds))
    decreases |ds|
  {
    if ds != [] {
      DecompositionLength(ds[..|ds| - 1]);
    }
  }

  /** Decomposing two runs of actions one after the other is decomposing their
      concatenation. */
  lemma {:induction false} DecompositionAppend(a: seq<Action>, b: seq<Action>)
    ensures Decomposition(a + b) == Decomposition(a) + Decomposition(b)
    decreases |b|
  {
    if b == [] {
      assert a + b == a;
    } else {
      var init := b[..|b| - 1];
      assert (a + b)[..|a + b| - 1] == a + init;
      DecompositionAppend(a, init);
    }
  }

  /** Output blocks follow input order: the block of action `i` sits between
      the blocks of the actions before it and those after it. */
  lemma DecompositionBlocks(ds: seq<Action>, i: nat)
    requires i < |ds|
    ensures Decomposition(ds) == Decomposition(ds[..i]) + Expand(ds[i]) + Decomposition(ds[i + 1..])
  {
    SplitAt(ds, i);
    DecompositionAppend(ds[..i + 1], ds[i + 1..]);
    DecompositionSnoc(ds, i);
  }

  lemma SplitAt(ds: seq<Action>, i: nat)
    requires i < |ds|
    ensures ds == ds[..i + 1] + ds[i + 1..]
    ensures ds[..i + 1][..i] == ds[..i]
  {
  }

  lemma DecompositionSnoc(ds: seq<Action>, i: nat)
    requires i < |ds|
    ensures Decomposition(ds[..i + 1]) == Decomposition(ds[..i]) + Expand(ds[i])
  {
    SplitAt(ds, i);
  }

  /** Every output entry is about the package of some input action, and keeps
      that action's verb unless the verb was expanded into a lifecycle step. */
  lemma {:induction false} DecompositionMembers(ds: seq<Action>, e: Action)
    requires e in Decomposition(ds)
    ensures exists a :: a in ds && e.pkg == a.pkg
                        && (if Expands(a.cmd) then e.cmd in Lifecycle else e == a)
    decreases |ds|
  {
    var init := ds[..|ds| - 1];
    var last := ds[|ds| - 1];
    if e in Decomposition(init) {
      DecompositionMembers(init, e);
      var a :| a in init && e.pkg == a.pkg && (if Expands(a.cmd) then e.cmd in Lifecycle else e == a);
      assert a in ds;
    } else {
      assert e in Expand(last);
      assert last in ds;
      assert e.pkg == last.pkg && (if Expands(last.cmd) then e.cmd in Lifecycle else e == last);
    }
  }

  /** The exported decomposer: appends the expansion of each action of
      `differences`, in order, to the caller's `decomposed`. */
  method Decompose(differences: ActionList, decomposed: ActionList)
    requires differences != decomposed
    modifies decomposed
    ensures decomposed.items == old(decomposed.items) + Decomposition(differences.items)
  {
    var ds := differences.items;
    for i := 0 to |ds|
      invariant decomposed.items == old(decomposed.items) + Decomposition(ds[..i])
    {
      var cmd := ds[i].cmd;
      var pkg := ds[i].pkg;
      DecompositionSnoc(ds, i);
      AppendAssoc(old(decomposed.items), Decomposition(ds[..i]), Expand(ds[i]));
      if cmd == "add" || cmd == "update" {
        assert Expand(ds[i]) == Steps(pkg);
        PushSteps(decomposed, pkg);
      } else {
        assert Expand(ds[i]) == [Action(cmd, pkg)];
        decomposed.Push(Action(cmd, pkg));
      }
    }
    assert ds[..|ds|] == ds;
  }

  /** The `add`/`update` case of the `switch`: eight pushes, one per lifecycle step. */
  method PushSteps(decomposed: ActionList, pkg: NodeRef)
    modifies decomposed
    ensures decomposed.items == old(decomposed.items) + Steps(pkg)
  {
    EightPushes(decomposed.items, pkg);
    decomposed.Push(Action("fetch", pkg));
    decomposed.Push(Action("extract", pkg));
    decomposed.Push(Action("preinstall", pkg));
    decomposed.Push(Action("build", pkg));
    decomposed.Push(Action("install", pkg));
    decomposed.Push(Action("postinstall", pkg));
    decomposed.Push(Action("test", pkg));
    decomposed.Push(Action("finalize", pkg));
  }
}
