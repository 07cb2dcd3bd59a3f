/** The tree differ: both trees are flattened to path-keyed tables, then every
    path of the old tree that the new tree lacks becomes a `remove`, and every
    path of the new tree becomes an `add` (path only in the new tree) or an
    `update` (path in both, unless the package is unchanged and was not
    asked for by name). */
module DiffTrees {
  import opened Packages
  import opened Deps
  import opened FlattenTree
  import opened Actions

  /** `pkgAreEquiv`: equal shasums when both manifests have `dist`, never
      equivalent when only one has it, equal versions when neither has it.
      The source's fall-through returns `undefined`, which its caller reads
      as false. */
  predicate PkgAreEquiv(aa: Manifest, bb: Manifest): (equiv: bool)
    ensures equiv ==> (aa.dist.Some? <==> bb.dist.Some?)
    ensures equiv && aa.dist.Some? ==> aa.dist.value.shasum == bb.dist.value.shasum
    ensures equiv && aa.dist.None? ==> aa.version == bb.version
    ensures aa == bb ==> equiv
  {
    if aa.dist.Some? && bb.dist.Some? && aa.dist.value.shasum == bb.dist.value.shasum then true
    else if aa.dist.Some? || bb.dist.Some? then false
    else aa.version == bb.version
  }

  /** The three-way rule, case by case. */
  lemma PkgAreEquivCases(aa: Manifest, bb: Manifest)
    ensures aa.dist.Some? && bb.dist.Some? ==>
              (PkgAreEquiv(aa, bb) <==> aa.dist.value.shasum == bb.dist.value.shasum)
    ensures aa.dist.Some? != bb.dist.Some? ==> !PkgAreEquiv(aa, bb)
    ensures aa.dist.None? && bb.dist.None? ==> (PkgAreEquiv(aa, bb) <==> aa.version == bb.version)
  {
  }

  /** The rule is an equivalence: reflexive, symmetric and transitive. */
  lemma PkgAreEquivIsEquivalence(aa: Manifest, bb: Manifest, cc: Manifest)
    ensures PkgAreEquiv(aa, aa)
    ensures PkgAreEquiv(aa, bb) ==> PkgAreEquiv(bb, aa)
    ensures PkgAreEquiv(aa, bb) && PkgAreEquiv(bb, cc) ==> PkgAreEquiv(aa, cc)
  {
  }

  // ---------------------------------------------------------------------------
  // The differences, as a function of the two flattened tables
  // ---------------------------------------------------------------------------

  /** Every listed key is a key of the table. */
  ghost predicate Keyed(keys: seq<string>, f: Flat)
  {
    forall i :: 0 <= i < |keys| ==> keys[i] in f.entries
  }

  /** What the first `forEach` pushes for one old path. */
  function RemovalFor(o: Flat, n: Flat, path: string): seq<Action>
    requires path in o.entries
  {
    if path in n.entries then [] else [Action("remove", OldNode(o.entries[path]))]
  }

  /** What the first `forEach` pushes for the old paths `keys`, in order. */
  function Removals(keys: seq<string>, o: Flat, n: Flat): (r: seq<Action>)
    requires Keyed(keys, o)
    ensures forall i :: 0 <= i < |r| ==> r[i].cmd == "remove"
    ensures |r| <= |keys|
    decreases |keys|
  {
    if keys == [] then []
    else Removals(keys[..|keys| - 1], o, n) + RemovalFor(o, n, keys[|keys| - 1])
  }

  /** What the second `forEach` pushes for one new path. */
  function ChangeFor(oldNodes: seq<Node>, newNodes: seq<Node>, o: Flat, n: Flat, path: string): seq<Action>
    requires path in n.entries && InRange(o, |oldNodes|) && InRange(n, |newNodes|)
  {
    if path in o.entries then
      if !newNodes[n.entries[path]].directlyRequested
         && PkgAreEquiv(oldNodes[o.entries[path]].pkg, newNodes[n.entries[path]].pkg)
      then []
      else [Action("update", NewNode(n.entries[path]))]
    else [Action("add", NewNode(n.entries[path]))]
  }

  /** What the second `forEach` pushes for the new paths `keys`, in order. */
  function Changes(keys: seq<string>, oldNodes: seq<Node>, newNodes: seq<Node>, o: Flat, n: Flat): (r: seq<Action>)
    requires Keyed(keys, n) && InRange(o, |oldNodes|) && InRange(n, |newNodes|)
    ensures forall i :: 0 <= i < |r| ==> r[i].cmd == "add" || r[i].cmd == "update"
    ensures |r| <= |keys|
    decreases |keys|
  {
    if keys == [] then []
    else Changes(keys[..|keys| - 1], oldNodes, newNodes, o, n) + ChangeFor(oldNodes, newNodes, o, n, keys[|keys| - 1])
  }

  /** Everything one call of the differ appends to `differences`. */
  function Diff(oldNodes: seq<Node>, oldRoot: nat, newNodes: seq<Node>, newRoot: nat): seq<Action>
    requires WellFormed(oldNodes) && oldRoot < |oldNodes|
    requires WellFormed(newNodes) && newRoot < |newNodes|
  {
    var o := Flatten(oldNodes, oldRoot);
    var n := Flatten(newNodes, newRoot);
    Removals(o.order, o, n) + Changes(n.order, oldNodes, newNodes, o, n)
  }

  /** The exported differ: flattens both trees, then pushes the removals and
      the additions and updates onto the caller's `differences`. */
  method DiffTrees(oldNodes: seq<Node>, oldRoot: nat, newNodes: seq<Node>, newRoot: nat, differences: ActionList)
    requires WellFormed(oldNodes) && oldRoot < |oldNodes|
    requires WellFormed(newNodes) && newRoot < |newNodes|
    modifies differences
    ensures differences.items == old(differences.items) + Diff(oldNodes, oldRoot, newNodes, newRoot)
  {
    var oldTree := FlattenTree.FlattenTree(oldNodes, oldRoot);
    var newTree := FlattenTree.FlattenTree(newNodes, newRoot);
    ConsistentKeyed(oldTree);
    ConsistentKeyed(newTree);
    ghost var before := differences.items;
    PushRemovals(oldTree, newTree, differences);
    PushChanges(oldNodes, newNodes, oldTree, newTree, differences);
    AppendAssoc(before, Removals(oldTree.order, oldTree, newTree),
                Changes(newTree.order, oldNodes, newNodes, oldTree, newTree));
  }

  lemma ConsistentKeyed(f: Flat)
    requires Consistent(f)
    ensures Keyed(f.order, f)
  {
  }

  /** The first `forEach`: every old path the new table lacks is removed. */
  method PushRemovals(oldTree: Flat, newTree: Flat, differences: ActionList)
    requires Keyed(oldTree.order, oldTree)
    modifies differences
    ensures differences.items == old(differences.items) + Removals(oldTree.order, oldTree, newTree)
  {
    var keys := oldTree.order;
    for i := 0 to |keys|
      invariant differences.items == old(differences.items) + Removals(keys[..i], oldTree, newTree)
    {
      var path := keys[i];
      assert keys[..i + 1][..i] == keys[..i];
      AppendAssoc(old(differences.items), Removals(keys[..i], oldTree, newTree), RemovalFor(oldTree, newTree, path));
      if path !in newTree.entries {
        differences.Push(Action("remove", OldNode(oldTree.entries[path])));
      }
    }
    assert keys[..|keys|] == keys;
  }

  /** The second `forEach`: every new path is added, or updated when the old
      table has it too and the package changed or was asked for by name. */
  method PushChanges(oldNodes: seq<Node>, newNodes: seq<Node>, oldTree: Flat, newTree: Flat, differences: ActionList)
    requires Keyed(newTree.order, newTree) && InRange(oldTree, |oldNodes|) && InRange(newTree, |newNodes|)
    modifies differences
    ensures differences.items == old(differences.items) + Changes(newTree.order, oldNodes, newNodes, oldTree, newTree)
  {
    var keys := newTree.order;
    for i := 0 to |keys|
      invariant differences.items == old(differences.items) + Changes(keys[..i], oldNodes, newNodes, oldTree, newTree)
    {
      var path := keys[i];
      assert keys[..i + 1][..i] == keys[..i];
      AppendAssoc(old(differences.items), Changes(keys[..i], oldNodes, newNodes, oldTree, newTree),
                  ChangeFor(oldNodes, newNodes, oldTree, newTree, path));
      if path in oldTree.entries {
        if !newNodes[newTree.entries[path]].directlyRequested
           && PkgAreEquiv(oldNodes[oldTree.entries[path]].pkg, newNodes[newTree.entries[path]].pkg) {
        } else {
          differences.Push(Action("update", NewNode(newTree.entries[path])));
        }
      } else {
        differences.Push(Action("add", NewNode(newTree.entries[path])));
      }
    }
    assert keys[..|keys|] == keys;
  }

  // ---------------------------------------------------------------------------
  // Membership and multiplicity
  // ---------------------------------------------------------------------------

  lemma {:induction false} RemovalsMembers(keys: seq<string>, o: Flat, n: Flat, a: Action)
    requires Keyed(keys, o)
    ensures a in Removals(keys, o, n) <==>
              exists j :: 0 <= j < |keys| && keys[j] !in n.entries && a == Action("remove", OldNode(o.entries[keys[j]]))
    decreases |keys|
  {
    if keys != [] {
      var init := keys[..|keys| - 1];
      RemovalsMembers(init, o, n, a);
      if a in Removals(keys, o, n) && a !in Removals(init, o, n) {
        assert keys[|keys| - 1] !in n.entries && a == Action("remove", OldNode(o.entries[keys[|keys| - 1]]));
      }
      if exists j :: 0 <= j < |keys| && keys[j] !in n.entries && a == Action("remove", OldNode(o.entries[keys[j]])) {
        var j :| 0 <= j < |keys| && keys[j] !in n.entries && a == Action("remove", OldNode(o.entries[keys[j]]));
        if j < |keys| - 1 {
          assert init[j] == keys[j];
        }
      }
    }
  }

  /** A vanished path's removal appears exactly once among the removals of a
      duplicate-free key list. */
  lemma {:induction false} RemovalsOnce(keys: seq<string>, o: Flat, n: Flat, p: string)
    requires Keyed(keys, o) && Injective(o)
    requires forall i, j :: 0 <= i < j < |keys| ==> keys[i] != keys[j]
    requires p in keys && p !in n.entries
    ensures multiset(Removals(keys, o, n))[Action("remove", OldNode(o.entries[p]))] == 1
    decreases |keys|
  {
    var init := keys[..|keys| - 1];
    if keys[|keys| - 1] == p {
      RemovedAtLast(keys, o, n);
    } else {
      var i :| 0 <= i < |keys| && keys[i] == p;
      assert init[i] == p;
      RemovalsOnce(init, o, n, p);
      RemovedBefore(keys, o, n, p);
    }
  }

  /** The last key's removal, which the keys before it do not produce, occurs once. */
  lemma RemovedAtLast(keys: seq<string>, o: Flat, n: Flat)
    requires Keyed(keys, o) && Injective(o) && keys != []
    requires forall i, j :: 0 <= i < j < |keys| ==> keys[i] != keys[j]
    requires keys[|keys| - 1] !in n.entries
    ensures multiset(Removals(keys, o, n))[Action("remove", OldNode(o.entries[keys[|keys| - 1]]))] == 1
  {
    var earlier := Removals(keys[..|keys| - 1], o, n);
    var a := Action("remove", OldNode(o.entries[keys[|keys| - 1]]));
    assert Removals(keys, o, n) == earlier + [a];
    NotRemovedEarlier(keys, o, n);
    assert multiset(earlier + [a]) == multiset(earlier) + multiset{a};
  }

  /** A removal counted among the keys before the last is not repeated by the last key. */
  lemma RemovedBefore(keys: seq<string>, o: Flat, n: Flat, p: string)
    requires Keyed(keys, o) && Injective(o) && keys != []
    requires p in o.entries && p != keys[|keys| - 1]
    requires multiset(Removals(keys[..|keys| - 1], o, n))[Action("remove", OldNode(o.entries[p]))] == 1
    ensures multiset(Removals(keys, o, n))[Action("remove", OldNode(o.entries[p]))] == 1
  {
    var earlier := Removals(keys[..|keys| - 1], o, n);
    var here := RemovalFor(o, n, keys[|keys| - 1]);
    var a := Action("remove", OldNode(o.entries[p]));
    assert Removals(keys, o, n) == earlier + here;
    assert multiset(earlier + here) == multiset(earlier) + multiset(here);
    assert multiset(here)[a] == 0;
  }

  /** The removal of the last key's node is not among the removals of the
      keys before it. */
  lemma NotRemovedEarlier(keys: seq<string>, o: Flat, n: Flat)
    requires Keyed(keys, o) && Injective(o) && keys != []
    requires forall i, j :: 0 <= i < j < |keys| ==> keys[i] != keys[j]
    ensures Action("remove", OldNode(o.entries[keys[|keys| - 1]])) !in Removals(keys[..|keys| - 1], o, n)
  {
    var init := keys[..|keys| - 1];
    var last := keys[|keys| - 1];
    var a := Action("remove", OldNode(o.entries[last]));
    RemovalsMembers(init, o, n, a);
    if a in Removals(init, o, n) {
      assert false;
    }
  }

  lemma {:induction false} ChangesMembers(keys: seq<string>, oldNodes: seq<Node>, newNodes: seq<Node>, o: Flat, n: Flat, a: Action)
    requires Keyed(keys, n) && InRange(o, |oldNodes|) && InRange(n, |newNodes|)
    ensures a in Changes(keys, oldNodes, newNodes, o, n) <==>
              exists j :: 0 <= j < |keys| && a in ChangeFor(oldNodes, newNodes, o, n, keys[j])
    decreases |keys|
  {
    if keys != [] {
      var init := keys[..|keys| - 1];
      ChangesMembers(init, oldNodes, newNodes, o, n, a);
      if exists j :: 0 <= j < |keys| && a in ChangeFor(oldNodes, newNodes, o, n, keys[j]) {
        var j :| 0 <= j < |keys| && a in ChangeFor(oldNodes, newNodes, o, n, keys[j]);
        if j < |keys| - 1 {
          assert init[j] == keys[j];
        }
      }
    }
  }

  /** No removal among the changes, no change among the removals. */
  lemma RemovalsBeforeChanges(keys: seq<string>, o: Flat, n: Flat, oldNodes: seq<Node>, newNodes: seq<Node>, newKeys: seq<string>)
    requires Keyed(keys, o) && Keyed(newKeys, n) && InRange(o, |oldNodes|) && InRange(n, |newNodes|)
    ensures forall i, j ::
              (0 <= i < j < |Removals(keys, o, n) + Changes(newKeys, oldNodes, newNodes, o, n)|
               && (Removals(keys, o, n) + Changes(newKeys, oldNodes, newNodes, o, n))[j].cmd == "remove") ==>
              (Removals(keys, o, n) + Changes(newKeys, oldNodes, newNodes, o, n))[i].cmd == "remove"
  {
  }

  // ---------------------------------------------------------------------------
  // The differ's promises
  // ---------------------------------------------------------------------------

  /** All removals come before every addition and update. */
  lemma DiffRemovesFirst(oldNodes: seq<Node>, oldRoot: nat, newNodes: seq<Node>, newRoot: nat, i: nat, j: nat)
    requires WellFormed(oldNodes) && oldRoot < |oldNodes|
    requires WellFormed(newNodes) && newRoot < |newNodes|
    requires i < j < |Diff(oldNodes, oldRoot, newNodes, newRoot)|
    requires Diff(oldNodes, oldRoot, newNodes, newRoot)[j].cmd == "remove"
    ensures Diff(oldNodes, oldRoot, newNodes, newRoot)[i].cmd == "remove"
  {
    var o := Flatten(oldNodes, oldRoot);
    var n := Flatten(newNodes, newRoot);
    RemovalsBeforeChanges(o.order, o, n, oldNodes, newNodes, n.order);
  }

  /** A path of the old tree that the new tree lacks is removed exactly once,
      and every removal is of such a path. */
  lemma DiffRemovals(oldNodes: seq<Node>, oldRoot: nat, newNodes: seq<Node>, newRoot: nat, a: Action)
    requires WellFormed(oldNodes) && oldRoot < |oldNodes|
    requires WellFormed(newNodes) && newRoot < |newNodes|
    ensures forall p :: p in Flatten(oldNodes, oldRoot).entries && p !in Flatten(newNodes, newRoot).entries ==>
              multiset(Diff(oldNodes, oldRoot, newNodes, newRoot))
                [Action("remove", OldNode(Flatten(oldNodes, oldRoot).entries[p]))] == 1
    ensures a in Diff(oldNodes, oldRoot, newNodes, newRoot) && a.cmd == "remove" ==>
              exists p :: p in Flatten(oldNodes, oldRoot).entries && p !in Flatten(newNodes, newRoot).entries
                          && a.pkg == OldNode(Flatten(oldNodes, oldRoot).entries[p])
  {
    FlattenInjective(oldNodes, oldRoot);
    var o := Flatten(oldNodes, oldRoot);
    var n := Flatten(newNodes, newRoot);
    RemovalsThenChanges(o, n, Changes(n.order, oldNodes, newNodes, o, n), a);
  }

  /** On a consistent, injective old table, the removals followed by any run
      of additions and updates remove each vanished path exactly once and
      nothing else. */
  lemma RemovalsThenChanges(o: Flat, n: Flat, cs: seq<Action>, a: Action)
    requires Consistent(o) && Injective(o)
    requires forall i :: 0 <= i < |cs| ==> cs[i].cmd == "add" || cs[i].cmd == "update"
    ensures Keyed(o.order, o)
    ensures forall p :: p in o.entries && p !in n.entries ==>
              multiset(Removals(o.order, o, n) + cs)[Action("remove", OldNode(o.entries[p]))] == 1
    ensures a in Removals(o.order, o, n) + cs && a.cmd == "remove" ==>
              exists p :: p in o.entries && p !in n.entries && a.pkg == OldNode(o.entries[p])
  {
    ConsistentKeyed(o);
    var rs := Removals(o.order, o, n);
    forall p | p in o.entries && p !in n.entries
      ensures multiset(rs + cs)[Action("remove", OldNode(o.entries[p]))] == 1
    {
      RemovalsOnce(o.order, o, n, p);
      assert Action("remove", OldNode(o.entries[p])) !in cs;
    }
    if a in rs + cs && a.cmd == "remove" {
      assert a in rs;
      RemovalsMembers(o.order, o, n, a);
    }
  }

  lemma ChangesAdd(keys: seq<string>, oldNodes: seq<Node>, newNodes: seq<Node>, o: Flat, n: Flat, p: string)
    requires Keyed(keys, n) && InRange(o, |oldNodes|) && InRange(n, |newNodes|)
    requires p in keys && p !in o.entries && p in n.entries
    ensures Action("add", NewNode(n.entries[p])) in Changes(keys, oldNodes, newNodes, o, n)
  {
    var add := Action("add", NewNode(n.entries[p]));
    var j :| 0 <= j < |keys| && keys[j] == p;
    assert add in ChangeFor(oldNodes, newNodes, o, n, keys[j]);
    ChangesMembers(keys, oldNodes, newNodes, o, n, add);
  }

  lemma ChangesAddOnlyNew(keys: seq<string>, oldNodes: seq<Node>, newNodes: seq<Node>, o: Flat, n: Flat, a: Action)
    requires Keyed(keys, n) && InRange(o, |oldNodes|) && InRange(n, |newNodes|)
    requires a in Changes(keys, oldNodes, newNodes, o, n) && a.cmd == "add"
    ensures exists j :: 0 <= j < |keys| && keys[j] !in o.entries && a.pkg == NewNode(n.entries[keys[j]])
  {
    ChangesMembers(keys, oldNodes, newNodes, o, n, a);
    var j :| 0 <= j < |keys| && a in ChangeFor(oldNodes, newNodes, o, n, keys[j]);
    assert keys[j] !in o.entries;
  }

  /** A path only the new tree has is added, and every addition is of such a path. */
  lemma DiffAdditions(oldNodes: seq<Node>, oldRoot: nat, newNodes: seq<Node>, newRoot: nat, a: Action)
    requires WellFormed(oldNodes) && oldRoot < |oldNodes|
    requires WellFormed(newNodes) && newRoot < |newNodes|
    ensures forall p :: p in Flatten(newNodes, newRoot).entries && p !in Flatten(oldNodes, oldRoot).entries ==>
              Action("add", NewNode(Flatten(newNodes, newRoot).entries[p])) in Diff(oldNodes, oldRoot, newNodes, newRoot)
    ensures a in Diff(oldNodes, oldRoot, newNodes, newRoot) && a.cmd == "add" ==>
              exists p :: p in Flatten(newNodes, newRoot).entries && p !in Flatten(oldNodes, oldRoot).entries
                          && a.pkg == NewNode(Flatten(newNodes, newRoot).entries[p])
  {
    var o := Flatten(oldNodes, oldRoot);
    var n := Flatten(newNodes, newRoot);
    var rs := Removals(o.order, o, n);
    var cs := Changes(n.order, oldNodes, newNodes, o, n);
    forall p | p in n.entries && p !in o.entries
      ensures Action("add", NewNode(n.entries[p])) in rs + cs
    {
      ChangesAdd(n.order, oldNodes, newNodes, o, n, p);
    }
    if a in rs + cs && a.cmd == "add" {
      assert a in cs;
      ChangesAddOnlyNew(n.order, oldNodes, newNodes, o, n, a);
    }
  }

  lemma ChangesUpdate(keys: seq<string>, oldNodes: seq<Node>, newNodes: seq<Node>, o: Flat, n: Flat, p: string)
    requires Keyed(keys, n) && InRange(o, |oldNodes|) && InRange(n, |newNodes|) && Injective(n)
    requires p in keys && p in o.entries && p in n.entries
    ensures Action("update", NewNode(n.entries[p])) in Changes(keys, oldNodes, newNodes, o, n)
            <==> (newNodes[n.entries[p]].directlyRequested
                  || !PkgAreEquiv(oldNodes[o.entries[p]].pkg, newNodes[n.entries[p]].pkg))
  {
    var up := Action("update", NewNode(n.entries[p]));
    ChangesMembers(keys, oldNodes, newNodes, o, n, up);
    if up in Changes(keys, oldNodes, newNodes, o, n) {
      var j :| 0 <= j < |keys| && up in ChangeFor(oldNodes, newNodes, o, n, keys[j]);
      assert n.entries[keys[j]] == n.entries[p];
    } else {
      var j :| 0 <= j < |keys| && keys[j] == p;
      assert up !in ChangeFor(oldNodes, newNodes, o, n, keys[j]);
    }
  }

  /** A path in both trees is updated exactly when its new node was asked for
      by name or its package differs from the old one. */
  lemma DiffUpdates(oldNodes: seq<Node>, oldRoot: nat, newNodes: seq<Node>, newRoot: nat, p: string)
    requires WellFormed(oldNodes) && oldRoot < |oldNodes|
    requires WellFormed(newNodes) && newRoot < |newNodes|
    requires p in Flatten(oldNodes, oldRoot).entries && p in Flatten(newNodes, newRoot).entries
    ensures Action("update", NewNode(Flatten(newNodes, newRoot).entries[p])) in Diff(oldNodes, oldRoot, newNodes, newRoot)
            <==> (newNodes[Flatten(newNodes, newRoot).entries[p]].directlyRequested
                  || !PkgAreEquiv(oldNodes[Flatten(oldNodes, oldRoot).entries[p]].pkg,
                                  newNodes[Flatten(newNodes, newRoot).entries[p]].pkg))
  {
    var o := Flatten(oldNodes, oldRoot);
    var n := Flatten(newNodes, newRoot);
    FlattenInjective(newNodes, newRoot);
    var rs := Removals(o.order, o, n);
    var cs := Changes(n.order, oldNodes, newNodes, o, n);
    var up := Action("update", NewNode(n.entries[p]));
    assert up !in rs;
    ChangesUpdate(n.order, oldNodes, newNodes, o, n, p);
  }

  /** Diffing a tree against itself adds and removes nothing: every entry is
      an update of a node that was asked for by name. */
  lemma DiffSelf(nodes: seq<Node>, root: nat, a: Action)
    requires WellFormed(nodes) && root < |nodes|
    requires a in Diff(nodes, root, nodes, root)
    ensures a.cmd == "update" && a.pkg.NewNode? && a.pkg.index < |nodes| && nodes[a.pkg.index].directlyRequested
  {
    var f := Flatten(nodes, root);
    SelfChanges(nodes, f, a);
  }

  /** Comparing a consistent table with itself yields only updates of
      directly requested nodes. */
  lemma SelfChanges(nodes: seq<Node>, f: Flat, a: Action)
    requires Consistent(f) && InRange(f, |nodes|)
    requires Keyed(f.order, f)
    requires a in Removals(f.order, f, f) + Changes(f.order, nodes, nodes, f, f)
    ensures a.cmd == "update" && a.pkg.NewNode? && a.pkg.index < |nodes| && nodes[a.pkg.index].directlyRequested
  {
    NoRemovals(f.order, f, f);
    assert a in Changes(f.order, nodes, nodes, f, f);
    ChangesMembers(f.order, nodes, nodes, f, f, a);
    var j :| 0 <= j < |f.order| && a in ChangeFor(nodes, nodes, f, f, f.order[j]);
    ChangeForSelf(nodes, f, f.order[j], a);
  }

  /** A path compared with itself is never added, and updated only when
      directly requested. */
  lemma ChangeForSelf(nodes: seq<Node>, f: Flat, path: string, a: Action)
    requires InRange(f, |nodes|) && path in f.entries
    requires a in ChangeFor(nodes, nodes, f, f, path)
    ensures a.cmd == "update" && a.pkg.NewNode? && a.pkg.index < |nodes| && nodes[a.pkg.index].directlyRequested
  {
    var pkg := nodes[f.entries[path]].pkg;
    PkgAreEquivIsEquivalence(pkg, pkg, pkg);
  }

  /** Keys the new table also has produce no removals. */
  lemma {:induction false} NoRemovals(keys: seq<string>, o: Flat, n: Flat)
    requires Keyed(keys, o) && Keyed(keys, n)
    ensures Removals(keys, o, n) == []
    decreases |keys|
  {
    if keys != [] {
      var init := keys[..|keys| - 1];
      assert Keyed(init, n);
      NoRemovals(init, o, n);
    }
  }
}
