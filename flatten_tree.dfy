/** The tree flattener: every node reachable from the root through `children`
    is stored under the slash-joined names on its path, `"root/child/grandchild"`.
    A JavaScript object remembers the order in which its keys were first
    assigned, and the differ walks the keys in that order, so a flattened tree
    is a map together with that order. */
module FlattenTree {
  import opened Packages
  import opened Deps

  datatype Flat = Flat(entries: map<string, nat>, order: seq<string>)

  /** `order` lists exactly the keys of `entries`, each once. */
  ghost predicate Consistent(f: Flat)
  {
    && (forall key :: key in f.entries <==> key in f.order)
    && (forall i, j :: 0 <= i < j < |f.order| ==> f.order[i] != f.order[j])
  }

  /** Every stored value is an index of the arena. */
  ghost predicate InRange(f: Flat, n: nat)
  {
    forall key :: key in f.entries ==> f.entries[key] < n
  }

  /** No node is stored under two keys. */
  ghost predicate Injective(f: Flat)
  {
    forall k1, k2 :: k1 in f.entries && k2 in f.entries && f.entries[k1] == f.entries[k2] ==> k1 == k2
  }

  /** `flat[key] = v`: a new key goes to the end of the order, an existing key
      keeps its place and only its value changes. */
  function Put(f: Flat, key: string, v: nat): (r: Flat)
    ensures r.entries == f.entries[key := v]
    ensures key in f.entries ==> r.order == f.order
    ensures key !in f.entries ==> r.order == f.order + [key]
    ensures Consistent(f) ==> Consistent(r)
  {
    Flat(f.entries[key := v], if key in f.entries then f.order else f.order + [key])
  }

  /** `flatten(pkg, path)` for node `k`, starting from the table `f`. */
  function FlattenFrom(nodes: seq<Node>, k: nat, prefix: string, f: Flat): (r: Flat)
    requires WellFormed(nodes) && k < |nodes|
    ensures Consistent(f) ==> Consistent(r)
    ensures InRange(f, |nodes|) ==> InRange(r, |nodes|)
    ensures f.entries.Keys <= r.entries.Keys
    ensures prefix + nodes[k].pkg.name in r.entries
    decreases |nodes| - k, 1
  {
    var path := prefix + nodes[k].pkg.name;
    FlattenChildren(nodes, k, 0, path + "/", Put(f, path, k))
  }

  /** The `forEach` over `children[j..]` of node `k`. */
  function FlattenChildren(nodes: seq<Node>, k: nat, j: nat, prefix: string, f: Flat): (r: Flat)
    requires WellFormed(nodes) && k < |nodes| && j <= |nodes[k].children|
    ensures Consistent(f) ==> Consistent(r)
    ensures InRange(f, |nodes|) ==> InRange(r, |nodes|)
    ensures f.entries.Keys <= r.entries.Keys
    decreases |nodes| - k, 0, |nodes[k].children| - j
  {
    if j == |nodes[k].children| then f
    else
      var c := nodes[k].children[j];
      assert NodeOk(nodes, k);
      assert NodeOk(nodes, c);
      FlattenChildren(nodes, k, j + 1, prefix, FlattenFrom(nodes, c, prefix, f))
  }

  /** The exported function: the table built from an empty object. */
  function Flatten(nodes: seq<Node>, root: nat): (r: Flat)
    requires WellFormed(nodes) && root < |nodes|
    ensures nodes[root].pkg.name in r.entries
    ensures Consistent(r) && InRange(r, |nodes|)
  {
    assert "" + nodes[root].pkg.name == nodes[root].pkg.name;
    FlattenFrom(nodes, root, "", Flat(map[], []))
  }

  /** The object the closure fills in place. */
  class FlatTable {
    var entries: map<string, nat>
    var order: seq<string>

    constructor()
      ensures entries == map[] && order == []
    {
      entries := map[];
      order := [];
    }

    /** The inner `flatten` closure: store node `k` under `prefix + name`,
        then visit its children in order. */
    method Visit(nodes: seq<Node>, k: nat, prefix: string)
      requires WellFormed(nodes) && k < |nodes|
      modifies this
      ensures Flat(entries, order) == FlattenFrom(nodes, k, prefix, old(Flat(entries, order)))
      decreases |nodes| - k
    {
      ghost var start := Flat(entries, order);
      var path := prefix + nodes[k].pkg.name;
      if path !in entries {
        order := order + [path];
      }
      entries := entries[path := k];
      assert NodeOk(nodes, k);
      var cs := nodes[k].children;
      for j := 0 to |cs|
        invariant FlattenChildren(nodes, k, j, path + "/", Flat(entries, order))
               == FlattenFrom(nodes, k, prefix, start)
      {
        assert NodeOk(nodes, cs[j]);
        Visit(nodes, cs[j], path + "/");
      }
    }
  }

  /** `flattenTree(tree)`: a fresh table holding every node under its path key. */
  method FlattenTree(nodes: seq<Node>, root: nat) returns (f: Flat)
    requires WellFormed(nodes) && root < |nodes|
    ensures f == Flatten(nodes, root)
  {
    var table := new FlatTable();
    table.Visit(nodes, root, "");
    f := Flat(table.entries, table.order);
  }

  // ---------------------------------------------------------------------------
  // What the keys mean
  // ---------------------------------------------------------------------------

  /** `d` lies in the subtree of `a` (inclusive). */
  ghost predicate Under(nodes: seq<Node>, a: nat, d: nat)
    requires d < |nodes|
  {
    a in Ancestry(nodes, d)
  }

  /** The key of descendant `d` of `root`: the names on the path from `root`
      down to `d`, joined by "/". */
  ghost function Key(nodes: seq<Node>, root: nat, d: nat): string
    requires d < |nodes|
    decreases d
  {
    if d != root && nodes[d].parent.Some? && nodes[d].parent.value < d
    then Key(nodes, root, nodes[d].parent.value) + "/" + nodes[d].pkg.name
    else nodes[d].pkg.name
  }

  ghost function Descendants(nodes: seq<Node>, root: nat): set<nat>
  {
    set d | 0 <= d < |nodes| && Under(nodes, root, d)
  }

  /** Every stored value lies under `root` and is stored under its own key. */
  ghost predicate SoundFor(nodes: seq<Node>, root: nat, f: Flat)
  {
    forall key :: key in f.entries ==>
      f.entries[key] < |nodes| && Under(nodes, root, f.entries[key]) && Key(nodes, root, f.entries[key]) == key
  }

  lemma {:induction false} AncestryBelow(nodes: seq<Node>, t: nat, j: nat)
    requires t < |nodes| && j < |Ancestry(nodes, t)|
    ensures Ancestry(nodes, t)[j] <= t
    decreases t
  {
    if j > 0 {
      var p := nodes[t].parent.value;
      AncestryBelow(nodes, p, j - 1);
    }
  }

  /** A child of `k` lies under everything `k` lies under, and its key extends `k`'s. */
  lemma ChildKey(nodes: seq<Node>, root: nat, k: nat, c: nat)
    requires WellFormed(nodes) && k < |nodes| && Under(nodes, root, k)
    requires c in nodes[k].children
    ensures c < |nodes| && Under(nodes, root, c)
    ensures Key(nodes, root, c) == Key(nodes, root, k) + "/" + nodes[c].pkg.name
  {
    assert NodeOk(nodes, k);
    assert NodeOk(nodes, c);
    var i :| 0 <= i < |Ancestry(nodes, k)| && Ancestry(nodes, k)[i] == root;
    AncestryBelow(nodes, k, i);
    assert Ancestry(nodes, c) == [c] + Ancestry(nodes, k);
  }

  lemma {:induction false} FromSound(nodes: seq<Node>, root: nat, k: nat, prefix: string, f: Flat)
    requires WellFormed(nodes) && k < |nodes| && Under(nodes, root, k)
    requires prefix + nodes[k].pkg.name == Key(nodes, root, k)
    requires SoundFor(nodes, root, f)
    ensures SoundFor(nodes, root, FlattenFrom(nodes, k, prefix, f))
    decreases |nodes| - k, 1
  {
    var path := prefix + nodes[k].pkg.name;
    ChildrenSound(nodes, root, k, 0, path + "/", Put(f, path, k));
  }

  lemma {:induction false} ChildrenSound(nodes: seq<Node>, root: nat, k: nat, j: nat, prefix: string, f: Flat)
    requires WellFormed(nodes) && k < |nodes| && Under(nodes, root, k) && j <= |nodes[k].children|
    requires prefix == Key(nodes, root, k) + "/"
    requires SoundFor(nodes, root, f)
    ensures SoundFor(nodes, root, FlattenChildren(nodes, k, j, prefix, f))
    decreases |nodes| - k, 0, |nodes[k].children| - j
  {
    if j < |nodes[k].children| {
      var c := nodes[k].children[j];
      ChildKey(nodes, root, k, c);
      assert NodeOk(nodes, k);
      assert NodeOk(nodes, c);
      FromSound(nodes, root, c, prefix, f);
      ChildrenSound(nodes, root, k, j + 1, prefix, FlattenFrom(nodes, c, prefix, f));
    }
  }

  /** A proper descendant of `k` lies under one of `k`'s children. */
  lemma {:induction false} ChildOnPath(nodes: seq<Node>, k: nat, d: nat)
    requires WellFormed(nodes) && d < |nodes| && Under(nodes, k, d) && d != k
    ensures exists i :: 0 <= i < |nodes[k].children| && nodes[k].children[i] < |nodes|
                        && Under(nodes, nodes[k].children[i], d)
    decreases d
  {
    assert NodeOk(nodes, d);
    var p := nodes[d].parent.value;
    assert Ancestry(nodes, d) == [d] + Ancestry(nodes, p);
    if p == k {
      var i :| 0 <= i < |nodes[k].children| && nodes[k].children[i] == d;
      assert Under(nodes, nodes[k].children[i], d);
    } else {
      ChildOnPath(nodes, k, p);
      var i :| 0 <= i < |nodes[k].children| && nodes[k].children[i] < |nodes|
               && Under(nodes, nodes[k].children[i], p);
      assert Under(nodes, nodes[k].children[i], d);
    }
  }

  /** Lying under is transitive. */
  lemma {:induction false} UnderTrans(nodes: seq<Node>, a: nat, k: nat, d: nat)
    requires k < |nodes| && d < |nodes| && Under(nodes, a, k) && Under(nodes, k, d)
    ensures Under(nodes, a, d)
    decreases d
  {
    if d != k {
      var p := nodes[d].parent.value;
      assert Ancestry(nodes, d) == [d] + Ancestry(nodes, p);
      UnderTrans(nodes, a, k, p);
    }
  }

  lemma {:induction false} FromComplete(nodes: seq<Node>, root: nat, k: nat, prefix: string, f: Flat)
    requires WellFormed(nodes) && k < |nodes| && Under(nodes, root, k)
    requires prefix + nodes[k].pkg.name == Key(nodes, root, k)
    ensures forall d :: 0 <= d < |nodes| && Under(nodes, k, d) ==>
              Key(nodes, root, d) in FlattenFrom(nodes, k, prefix, f).entries
    decreases |nodes| - k, 1
  {
    var path := prefix + nodes[k].pkg.name;
    var g := Put(f, path, k);
    ChildrenComplete(nodes, root, k, 0, path + "/", g);
    forall d | 0 <= d < |nodes| && Under(nodes, k, d)
      ensures Key(nodes, root, d) in FlattenFrom(nodes, k, prefix, f).entries
    {
      if d != k {
        ChildOnPath(nodes, k, d);
      }
    }
  }

  lemma {:induction false} ChildrenComplete(nodes: seq<Node>, root: nat, k: nat, j: nat, prefix: string, f: Flat)
    requires WellFormed(nodes) && k < |nodes| && Under(nodes, root, k) && j <= |nodes[k].children|
    requires prefix == Key(nodes, root, k) + "/"
    ensures forall i, d ::
              (j <= i < |nodes[k].children| && 0 <= d < |nodes| && nodes[k].children[i] < |nodes|
               && Under(nodes, nodes[k].children[i], d)) ==>
              Key(nodes, root, d) in FlattenChildren(nodes, k, j, prefix, f).entries
    decreases |nodes| - k, 0, |nodes[k].children| - j
  {
    if j < |nodes[k].children| {
      var c := nodes[k].children[j];
      ChildKey(nodes, root, k, c);
      assert NodeOk(nodes, k);
      assert NodeOk(nodes, c);
      var g := FlattenFrom(nodes, c, prefix, f);
      FromComplete(nodes, root, c, prefix, f);
      ChildrenComplete(nodes, root, k, j + 1, prefix, g);
    }
  }

  /** The flattened table holds exactly the keys of the nodes under the root,
      each stored under its own key, with the order listing each key once. */
  lemma FlattenKeys(nodes: seq<Node>, root: nat)
    requires WellFormed(nodes) && root < |nodes|
    ensures Consistent(Flatten(nodes, root))
    ensures forall key :: key in Flatten(nodes, root).entries ==>
              Flatten(nodes, root).entries[key] in Descendants(nodes, root)
              && Key(nodes, root, Flatten(nodes, root).entries[key]) == key
    ensures forall d :: d in Descendants(nodes, root) ==> Key(nodes, root, d) in Flatten(nodes, root).entries
  {
    assert Ancestry(nodes, root)[0] == root;
    FromSound(nodes, root, root, "", Flat(map[], []));
    FromComplete(nodes, root, root, "", Flat(map[], []));
  }

  /** Different keys of a flattened table hold different nodes. */
  lemma FlattenInjective(nodes: seq<Node>, root: nat)
    requires WellFormed(nodes) && root < |nodes|
    ensures Injective(Flatten(nodes, root))
  {
    FlattenKeys(nodes, root);
  }

  // ---------------------------------------------------------------------------
  // Keys along paths
  // ---------------------------------------------------------------------------

  lemma {:induction false} KeyExtendsRootName(nodes: seq<Node>, root: nat, d: nat)
    requires WellFormed(nodes) && d < |nodes| && Under(nodes, root, d) && d != root
    ensures |Key(nodes, root, d)| > |nodes[root].pkg.name|
    decreases d
  {
    assert NodeOk(nodes, d);
    var p := nodes[d].parent.value;
    assert Ancestry(nodes, d) == [d] + Ancestry(nodes, p);
    if p != root {
      KeyExtendsRootName(nodes, root, p);
    }
  }

  /** The root is stored under its own package name, and every other stored
      node under its parent's key, a slash and its own package name. */
  lemma StoredUnderOwnName(nodes: seq<Node>, root: nat, key: string)
    requires WellFormed(nodes) && root < |nodes|
    requires key in Flatten(nodes, root).entries
    ensures Flatten(nodes, root).entries[nodes[root].pkg.name] == root
    ensures Flatten(nodes, root).entries[key] == root ==> key == nodes[root].pkg.name
    ensures Flatten(nodes, root).entries[key] != root ==>
              && Flatten(nodes, root).entries[key] < |nodes|
              && nodes[Flatten(nodes, root).entries[key]].parent.Some?
              && nodes[Flatten(nodes, root).entries[key]].parent.value < |nodes|
              && key == Key(nodes, root, nodes[Flatten(nodes, root).entries[key]].parent.value) + "/"
                        + nodes[Flatten(nodes, root).entries[key]].pkg.name
  {
    FlattenKeys(nodes, root);
    assert Ancestry(nodes, root)[0] == root;
    assert root in Descendants(nodes, root);
    var r := Flatten(nodes, root).entries[nodes[root].pkg.name];
    if r != root {
      KeyExtendsRootName(nodes, root, r);
    }
    var v := Flatten(nodes, root).entries[key];
    if v != root {
      assert NodeOk(nodes, v);
      assert Ancestry(nodes, v) != [v];
    }
  }

  /** No two siblings share a package name. */
  ghost predicate DistinctSiblingNames(nodes: seq<Node>)
  {
    forall k, i, j ::
      (0 <= k < |nodes| && 0 <= i < j < |nodes[k].children|
       && nodes[k].children[i] < |nodes| && nodes[k].children[j] < |nodes|) ==>
      nodes[nodes[k].children[i]].pkg.name != nodes[nodes[k].children[j]].pkg.name
  }

  /** A path segment that is not a scope: no slash and no leading `@`. */
  predicate PlainSegment(s: string)
  {
    '/' !in s && (|s| == 0 || s[0] != '@')
  }

  /** The scoped package name `@scope/name`. */
  function Scoped(scope: string, name: string): string
  {
    "@" + scope + "/" + name
  }

  /** A package name npm accepts: a non-empty plain name, or `@scope/name`
      with a non-empty slash-free scope and a non-empty plain name. */
  ghost predicate ValidName(n: string)
  {
    || (n != "" && PlainSegment(n))
    || exists scope, name :: n == Scoped(scope, name) && scope != "" && '/' !in scope && name != "" && PlainSegment(name)
  }

  ghost predicate ValidNames(nodes: seq<Node>)
  {
    forall d :: 0 <= d < |nodes| ==> ValidName(nodes[d].pkg.name)
  }

  /** The text after the last slash of `x`, or all of `x` when it has none. */
  function LastSegment(x: string): (r: string)
    ensures '/' !in r
  {
    if |x| == 0 || x[|x| - 1] == '/' then ""
    else LastSegment(x[..|x| - 1]) + [x[|x| - 1]]
  }

  /** Dropping the last character of a slash-free text leaves it slash-free. */
  lemma InitSlashFree(m: string)
    requires '/' !in m && |m| > 0
    ensures '/' !in m[..|m| - 1]
  {
    var init := m[..|m| - 1];
    forall i | 0 <= i < |init| ensures init[i] != '/' {
      assert init[i] == m[i];
    }
  }

  lemma {:induction false} LastSegmentOf(u: string, m: string)
    requires '/' !in m
    ensures LastSegment(m) == m
    ensures LastSegment(u + "/" + m) == m
    decreases |m|
  {
    if |m| > 0 {
      var init := m[..|m| - 1];
      InitSlashFree(m);
      LastSegmentOf(u, init);
      LastStep(u, init, m);
    }
  }

  lemma LastStep(u: string, init: string, m: string)
    requires |m| > 0 && init == m[..|m| - 1] && m[|m| - 1] != '/'
    requires LastSegment(init) == init && LastSegment(u + "/" + init) == init
    ensures LastSegment(m) == m
    ensures LastSegment(u + "/" + m) == m
  {
    assert m == init + [m[|m| - 1]];
    var x := u + "/" + m;
    assert x[..|x| - 1] == u + "/" + init;
  }

  /** The last segment of a scoped name is the name after its scope. */
  lemma ScopedLastSegment(u: string, scope: string, name: string)
    requires '/' !in name
    ensures LastSegment(Scoped(scope, name)) == name
    ensures LastSegment(u + "/" + Scoped(scope, name)) == name
  {
    assert Scoped(scope, name) == ("@" + scope) + "/" + name;
    LastSegmentOf("@" + scope, name);
    assert u + "/" + Scoped(scope, name) == (u + "/" + "@" + scope) + "/" + name;
    LastSegmentOf(u + "/" + "@" + scope, name);
  }

  /** Whatever precedes it, a key ending in a valid name ends in a plain segment. */
  lemma NameEndsPlain(u: string, n: string)
    requires ValidName(n)
    ensures PlainSegment(LastSegment(n)) && PlainSegment(LastSegment(u + "/" + n))
  {
    if PlainSegment(n) {
      LastSegmentOf(u, n);
    } else {
      var scope, name :| n == Scoped(scope, name) && scope != "" && '/' !in scope && name != "" && PlainSegment(name);
      ScopedLastSegment(u, scope, name);
    }
  }

  lemma KeyEndsPlain(nodes: seq<Node>, root: nat, d: nat)
    requires d < |nodes| && ValidNames(nodes)
    ensures PlainSegment(LastSegment(Key(nodes, root, d)))
  {
    if d != root && nodes[d].parent.Some? && nodes[d].parent.value < d {
      NameEndsPlain(Key(nodes, root, nodes[d].parent.value), nodes[d].pkg.name);
    } else {
      NameEndsPlain("", nodes[d].pkg.name);
    }
  }

  /** In `a + "/" + b` with a slash-free `b`, the last slash is the one after `a`. */
  lemma SlashOnlyAt(a: string, b: string)
    requires '/' !in b
    ensures (a + "/" + b)[|a|] == '/'
    ensures forall i :: |a| < i < |a| + 1 + |b| ==> (a + "/" + b)[i] != '/'
  {
    forall i | |a| < i < |a| + 1 + |b|
      ensures (a + "/" + b)[i] != '/'
    {
      assert (a + "/" + b)[i] == b[i - |a| - 1];
    }
  }

  lemma SplitAtLastSlash(a: string, b: string, a2: string, b2: string)
    requires a + "/" + b == a2 + "/" + b2 && '/' !in b && '/' !in b2
    ensures a == a2 && b == b2
  {
    var x := a + "/" + b;
    SlashOnlyAt(a, b);
    SlashOnlyAt(a2, b2);
    assert |a| == |a2|;
    assert a == x[..|a|] == a2;
    assert b == x[|a| + 1..] == b2;
  }

  /** When a key ending in a plain segment is extended by a plain name, no
      split of the result ends in a scoped name: its scope would be the last
      segment of the key. */
  lemma PlainAfterPlain(a: string, b: string, a2: string, b2: string)
    requires a + "/" + b == a2 + "/" + b2
    requires PlainSegment(b) && ValidName(b2) && PlainSegment(LastSegment(a))
    ensures PlainSegment(b2)
  {
    if !PlainSegment(b2) {
      var scope, name :| b2 == Scoped(scope, name) && scope != "" && '/' !in scope && name != "" && PlainSegment(name);
      assert a2 + "/" + b2 == (a2 + "/" + ("@" + scope)) + "/" + name;
      SplitAtLastSlash(a, b, a2 + "/" + ("@" + scope), name);
      LastSegmentOf(a2, "@" + scope);
      assert false;
    }
  }

  /** A key that ends in a plain segment, extended by a valid name, can be
      split back into the two in only one way. */
  lemma SplitKey(a: string, b: string, a2: string, b2: string)
    requires a + "/" + b == a2 + "/" + b2
    requires ValidName(b) && ValidName(b2)
    requires PlainSegment(LastSegment(a)) && PlainSegment(LastSegment(a2))
    ensures a == a2 && b == b2
  {
    if PlainSegment(b) {
      PlainAfterPlain(a, b, a2, b2);
    }
    if PlainSegment(b2) {
      PlainAfterPlain(a2, b2, a, b);
    }
    if PlainSegment(b) {
      SplitAtLastSlash(a, b, a2, b2);
    } else {
      var scope, name :| b == Scoped(scope, name) && scope != "" && '/' !in scope && name != "" && PlainSegment(name);
      var scope2, name2 :| b2 == Scoped(scope2, name2) && scope2 != "" && '/' !in scope2 && name2 != "" && PlainSegment(name2);
      SplitScoped(a, scope, name, a2, scope2, name2);
    }
  }

  /** Two keys extended by scoped names agree only when the keys, the scopes
      and the names agree. */
  lemma SplitScoped(a: string, scope: string, name: string, a2: string, scope2: string, name2: string)
    requires a + "/" + Scoped(scope, name) == a2 + "/" + Scoped(scope2, name2)
    requires '/' !in scope && '/' !in name && '/' !in scope2 && '/' !in name2
    ensures a == a2 && Scoped(scope, name) == Scoped(scope2, name2)
  {
    assert a + "/" + Scoped(scope, name) == (a + "/" + ("@" + scope)) + "/" + name;
    assert a2 + "/" + Scoped(scope2, name2) == (a2 + "/" + ("@" + scope2)) + "/" + name2;
    SplitAtLastSlash(a + "/" + ("@" + scope), name, a2 + "/" + ("@" + scope2), name2);
    SplitAtLastSlash(a, "@" + scope, a2, "@" + scope2);
  }

  /** With valid package names (scoped ones included) and distinct sibling
      names, different nodes under the root have different keys. */
  lemma {:induction false} KeyInjective(nodes: seq<Node>, root: nat, a: nat, b: nat)
    requires WellFormed(nodes) && a < |nodes| && b < |nodes|
    requires Under(nodes, root, a) && Under(nodes, root, b)
    requires DistinctSiblingNames(nodes) && ValidNames(nodes)
    requires Key(nodes, root, a) == Key(nodes, root, b)
    ensures a == b
    decreases a + b
  {
    if a == root && b == root {
    } else if a == root || b == root {
      KeyExtendsRootName(nodes, root, if a == root then b else a);
      assert false;
    } else {
      assert NodeOk(nodes, a);
      assert NodeOk(nodes, b);
      var pa := nodes[a].parent.value;
      var pb := nodes[b].parent.value;
      assert Ancestry(nodes, a) == [a] + Ancestry(nodes, pa);
      assert Ancestry(nodes, b) == [b] + Ancestry(nodes, pb);
      KeyEndsPlain(nodes, root, pa);
      KeyEndsPlain(nodes, root, pb);
      SplitKey(Key(nodes, root, pa), nodes[a].pkg.name, Key(nodes, root, pb), nodes[b].pkg.name);
      KeyInjective(nodes, root, pa, pb);
      assert NodeOk(nodes, pa);
      var i :| 0 <= i < |nodes[pa].children| && nodes[pa].children[i] == a;
      var j :| 0 <= j < |nodes[pa].children| && nodes[pa].children[j] == b;
      if i != j {
        assert false;
      }
    }
  }

  ghost function KeySet(nodes: seq<Node>, root: nat, s: set<nat>): set<string>
  {
    set d | d in s && d < |nodes| :: Key(nodes, root, d)
  }

  lemma {:induction false} KeySetSize(nodes: seq<Node>, root: nat, s: set<nat>)
    requires WellFormed(nodes)
    requires forall d :: d in s ==> d < |nodes| && Under(nodes, root, d)
    ensures |KeySet(nodes, root, s)| <= |s|
    ensures DistinctSiblingNames(nodes) && ValidNames(nodes) ==> |KeySet(nodes, root, s)| == |s|
    decreases |s|
  {
    if s == {} {
      assert KeySet(nodes, root, s) == {};
    } else {
      var x :| x in s;
      var rest := s - {x};
      KeySetSize(nodes, root, rest);
      assert KeySet(nodes, root, s) == KeySet(nodes, root, rest) + {Key(nodes, root, x)};
      if DistinctSiblingNames(nodes) && ValidNames(nodes) {
        forall d | d in rest
          ensures Key(nodes, root, d) != Key(nodes, root, x)
        {
          if Key(nodes, root, d) == Key(nodes, root, x) {
            KeyInjective(nodes, root, d, x);
          }
        }
        assert Key(nodes, root, x) !in KeySet(nodes, root, rest);
      }
    }
  }

  /** A flattened table has at most one key per node under the root, and
      exactly one when sibling names are distinct and every name is a valid
      (plain or scoped) package name. */
  lemma FlattenCount(nodes: seq<Node>, root: nat)
    requires WellFormed(nodes) && root < |nodes|
    ensures |Flatten(nodes, root).entries| <= |Descendants(nodes, root)|
    ensures DistinctSiblingNames(nodes) && ValidNames(nodes) ==>
              |Flatten(nodes, root).entries| == |Descendants(nodes, root)|
  {
    FlattenKeys(nodes, root);
    var f := Flatten(nodes, root);
    var ds := Descendants(nodes, root);
    assert f.entries.Keys == KeySet(nodes, root, ds);
    KeySetSize(nodes, root, ds);
  }
}
