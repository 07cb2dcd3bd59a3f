/** The tree resolver's placement and reuse rules (lib/install/deps.js).

    The dependency tree is an arena: node `i` is `nodes[i]`, and every edge
    (`parent`, `children`, `requires`, `requiredBy`) is an index into it. A
    node's parent always has a smaller index than the node, which is what
    makes the upward searches terminate. */
module Deps {
  import opened Packages

  datatype Node = Node(
    pkg: Manifest,
    parent: Option<nat>,
    children: seq<nat>,
    requirements: seq<nat>,
    requiredBy: seq<nat>,
    path: string,
    loaded: bool,
    directlyRequested: bool)

  /** Node `i`'s edges are consistent: its parent precedes it and lists it
      among its children, each child names `i` as its parent, and every
      edge names a node of the arena. */
  ghost predicate NodeOk(nodes: seq<Node>, i: nat)
    requires i < |nodes|
  {
    && (nodes[i].parent.Some? ==>
          nodes[i].parent.value < i && i in nodes[nodes[i].parent.value].children)
    && InArena(nodes, nodes[i].children)
    && (forall c :: c in nodes[i].children ==> c < |nodes| && nodes[c].parent == Some(i))
    && InArena(nodes, nodes[i].requirements)
    && InArena(nodes, nodes[i].requiredBy)
  }

  /** The physical tree is a tree and every edge stays inside the arena. */
  ghost predicate WellFormed(nodes: seq<Node>)
  {
    forall i :: 0 <= i < |nodes| ==> NodeOk(nodes, i)
  }

  /** The chain from `t` up to the root: `t`, its parent, its grandparent, ... */
  ghost function Ancestry(nodes: seq<Node>, t: nat): (anc: seq<nat>)
    requires t < |nodes|
    ensures |anc| >= 1 && anc[0] == t
    ensures forall j :: 0 <= j < |anc| ==> anc[j] < |nodes|
    decreases t
  {
    if nodes[t].parent.Some? && nodes[t].parent.value < t
    then [t] + Ancestry(nodes, nodes[t].parent.value)
    else [t]
  }

  // ---------------------------------------------------------------------------
  // Filters over children

  /** Every element of `cs` names a node of the arena. */
  ghost predicate InArena(nodes: seq<Node>, cs: seq<nat>)
  {
    forall j :: 0 <= j < |cs| ==> cs[j] < |nodes|
  }

  /** `cs.filter(c => c.package.name === name)` */
  function NameMatches(nodes: seq<Node>, cs: seq<nat>, name: string): (ms: seq<nat>)
    requires InArena(nodes, cs)
    ensures InArena(nodes, ms)
    ensures forall m :: m in ms <==> m in cs && nodes[m].pkg.name == name
  {
    if |cs| == 0 then []
    else (if nodes[cs[0]].pkg.name == name then [cs[0]] else []) + NameMatches(nodes, cs[1..], name)
  }

  /** `cs.filter(c => semver.satisfies(c.package.version, range))` */
  function VersionMatches(nodes: seq<Node>, cs: seq<nat>, range: string, sat: (string, string) -> bool): (ms: seq<nat>)
    requires InArena(nodes, cs)
    ensures InArena(nodes, ms)
    ensures forall m :: m in ms <==> m in cs && sat(nodes[m].pkg.version, range)
  {
    if |cs| == 0 then []
    else (if sat(nodes[cs[0]].pkg.version, range) then [cs[0]] else []) + VersionMatches(nodes, cs[1..], range, sat)
  }

  // ---------------------------------------------------------------------------
  // findRequirement

  /** Node `k` has the requested name and its version satisfies the range. */
  ghost predicate Fits(nodes: seq<Node>, k: nat, name: string, range: string, sat: (string, string) -> bool)
    requires k < |nodes|
  {
    nodes[k].pkg.name == name && sat(nodes[k].pkg.version, range)
  }

  /** `level` mentions the name: it is the module itself, or one of its children is. */
  ghost predicate NameAtLevel(nodes: seq<Node>, level: nat, name: string)
    requires level < |nodes|
  {
    nodes[level].pkg.name == name
    || exists c :: c in nodes[level].children && c < |nodes| && nodes[c].pkg.name == name
  }

  /** The nodes findRequirement weighs at `level`: the level itself when it
      has the name, otherwise its children that have it. */
  ghost predicate Candidate(nodes: seq<Node>, level: nat, k: nat, name: string)
    requires level < |nodes|
  {
    if nodes[level].pkg.name == name then k == level
    else k in nodes[level].children && k < |nodes| && nodes[k].pkg.name == name
  }

  /** `anc[i]` is the first level of the chain that mentions the name. */
  ghost predicate FirstNameLevel(nodes: seq<Node>, anc: seq<nat>, i: int, name: string)
    requires forall j :: 0 <= j < |anc| ==> anc[j] < |nodes|
  {
    && 0 <= i < |anc|
    && NameAtLevel(nodes, anc[i], name)
    && forall j :: 0 <= j < i ==> !NameAtLevel(nodes, anc[j], name)
  }

  /** Looks for an installed node that already meets a requirement, from `t`
      upwards. Whatever it returns has the name and a satisfying version and
      sits on `t`'s chain to the root or directly under a node of it. */
  function FindRequirement(nodes: seq<Node>, t: nat, name: string, range: string,
                           sat: (string, string) -> bool): (r: Option<nat>)
    requires WellFormed(nodes) && t < |nodes|
    ensures r.Some? ==> r.value < |nodes| && Fits(nodes, r.value, name, range, sat)
    ensures r.Some? ==> exists a :: a in Ancestry(nodes, t) && (r.value == a || r.value in nodes[a].children)
    decreases t
  {
    assert NodeOk(nodes, t);
    if nodes[t].pkg.name == name then
      (if sat(nodes[t].pkg.version, range) then Some(t) else None)
    else
      var matches := NameMatches(nodes, nodes[t].children, name);
      if |matches| > 0 then
        var fitting := VersionMatches(nodes, matches, range, sat);
        if |fitting| > 0 then Some(fitting[0]) else None
      else if nodes[t].parent.None? then None
      else FindRequirement(nodes, nodes[t].parent.value, name, range, sat)
  }

  /** Past a level that does not mention the name, the first such level of
      the chain is the first such level of the parent's chain, one step up. */
  lemma FirstNameLevelUp(nodes: seq<Node>, t: nat, p: nat, name: string, i: nat)
    requires t < |nodes| && nodes[t].parent == Some(p) && p < t
    requires !NameAtLevel(nodes, t, name)
    ensures FirstNameLevel(nodes, Ancestry(nodes, t), i + 1, name)
            <==> FirstNameLevel(nodes, Ancestry(nodes, p), i, name)
  {
    var anc := Ancestry(nodes, t);
    var up := Ancestry(nodes, p);
    AncestryStep(nodes, t, p);
    if FirstNameLevel(nodes, up, i, name) {
      forall j | 0 <= j < i + 1 ensures !NameAtLevel(nodes, anc[j], name) {
        if j > 0 { assert anc[j] == up[j - 1]; }
      }
    }
    if FirstNameLevel(nodes, anc, i + 1, name) {
      forall j | 0 <= j < i ensures !NameAtLevel(nodes, up[j], name) {
        assert anc[j + 1] == up[j];
      }
    }
  }

  /** One step of the chain: below a parent `p`, the chain is `t` followed by `p`'s chain. */
  lemma AncestryStep(nodes: seq<Node>, t: nat, p: nat)
    requires t < |nodes| && nodes[t].parent == Some(p) && p < t
    ensures |Ancestry(nodes, t)| == |Ancestry(nodes, p)| + 1
    ensures forall j :: 0 <= j < |Ancestry(nodes, p)| ==> Ancestry(nodes, t)[j + 1] == Ancestry(nodes, p)[j]
  {
    assert Ancestry(nodes, t) == [t] + Ancestry(nodes, p);
  }

  /** findRequirement decides at the first level of the chain that mentions
      the name and never looks higher: what it returns is one of that level's
      candidates. In particular it returns null when no level, up to and
      including the root, mentions the name. */
  lemma {:induction false} FindRequirementDecidesAtFirstLevel(nodes: seq<Node>, t: nat, name: string,
                                                              range: string, sat: (string, string) -> bool)
    requires WellFormed(nodes) && t < |nodes|
    requires FindRequirement(nodes, t, name, range, sat).Some?
    ensures exists i :: FirstNameLevel(nodes, Ancestry(nodes, t), i, name)
                        && Candidate(nodes, Ancestry(nodes, t)[i], FindRequirement(nodes, t, name, range, sat).value, name)
    decreases t
  {
    var r := FindRequirement(nodes, t, name, range, sat).value;
    if NameAtLevel(nodes, t, name) {
      DecidesHere(nodes, t, name, range, sat);
      assert FirstNameLevel(nodes, Ancestry(nodes, t), 0, name) && Candidate(nodes, Ancestry(nodes, t)[0], r, name);
    } else {
      var p := SearchesParent(nodes, t, name, range, sat);
      FindRequirementDecidesAtFirstLevel(nodes, p, name, range, sat);
      var up := Ancestry(nodes, p);
      var i :| FirstNameLevel(nodes, up, i, name) && Candidate(nodes, up[i], r, name);
      FirstNameLevelUp(nodes, t, p, name, i);
      AncestryStep(nodes, t, p);
      assert FirstNameLevel(nodes, Ancestry(nodes, t), i + 1, name) && Candidate(nodes, Ancestry(nodes, t)[i + 1], r, name);
    }
  }

  /** At a level that mentions the name, findRequirement's answer is one of its candidates. */
  lemma DecidesHere(nodes: seq<Node>, t: nat, name: string, range: string, sat: (string, string) -> bool)
    requires WellFormed(nodes) && t < |nodes| && NameAtLevel(nodes, t, name)
    requires FindRequirement(nodes, t, name, range, sat).Some?
    ensures FirstNameLevel(nodes, Ancestry(nodes, t), 0, name)
    ensures Candidate(nodes, t, FindRequirement(nodes, t, name, range, sat).value, name)
  {
    var r := FindRequirement(nodes, t, name, range, sat).value;
    var cs := nodes[t].children;
    assert NodeOk(nodes, t);
    if nodes[t].pkg.name != name {
      var c :| c in cs && c < |nodes| && nodes[c].pkg.name == name;
      var ms := NameMatches(nodes, cs, name);
      assert c in ms;
      assert r == VersionMatches(nodes, ms, range, sat)[0];
      assert r in ms;
    }
  }

  /** At a level that does not mention the name, findRequirement has a parent
      to go to and answers what the parent's search answers. */
  lemma SearchesParent(nodes: seq<Node>, t: nat, name: string, range: string, sat: (string, string) -> bool)
    returns (p: nat)
    requires WellFormed(nodes) && t < |nodes| && !NameAtLevel(nodes, t, name)
    requires FindRequirement(nodes, t, name, range, sat).Some?
    ensures nodes[t].parent == Some(p) && p < t
    ensures FindRequirement(nodes, t, name, range, sat) == FindRequirement(nodes, p, name, range, sat)
  {
    assert NodeOk(nodes, t);
    var ms := NameMatches(nodes, nodes[t].children, name);
    if |ms| > 0 {
      assert false;
    }
    p := nodes[t].parent.value;
  }

  /** When findRequirement returns null, no candidate at the first level that
      mentions the name satisfies the range: it does not look further up. */
  lemma {:induction false} FindRequirementNullAtFirstLevel(nodes: seq<Node>, t: nat, name: string, range: string,
                                                           sat: (string, string) -> bool, i: nat, k: nat)
    requires WellFormed(nodes) && t < |nodes|
    requires FindRequirement(nodes, t, name, range, sat).None?
    requires FirstNameLevel(nodes, Ancestry(nodes, t), i, name)
    requires Candidate(nodes, Ancestry(nodes, t)[i], k, name)
    ensures k < |nodes| && !Fits(nodes, k, name, range, sat)
    decreases t
  {
    var anc := Ancestry(nodes, t);
    var cs := nodes[t].children;
    assert NodeOk(nodes, t);
    if nodes[t].pkg.name == name {
      assert NameAtLevel(nodes, anc[0], name);
      assert i == 0;
    } else if |NameMatches(nodes, cs, name)| > 0 {
      var m := NameMatches(nodes, cs, name)[0];
      assert m in cs && nodes[m].pkg.name == name;
      assert NameAtLevel(nodes, anc[0], name);
      assert i == 0;
      assert k in NameMatches(nodes, cs, name);
    } else {
      assert !NameAtLevel(nodes, t, name);
      assert i != 0;
      if nodes[t].parent.None? {
        assert false;
      }
      var p := nodes[t].parent.value;
      FirstNameLevelUp(nodes, t, p, name, i - 1);
      assert anc[i] == Ancestry(nodes, p)[i - 1];
      FindRequirementNullAtFirstLevel(nodes, p, name, range, sat, i - 1, k);
    }
  }

  // ---------------------------------------------------------------------------
  // earliestInstallable

  /** The child declares an executable that `pkg` also declares (with a non-empty script). */
  predicate BinClash(child: Manifest, pkg: Manifest)
  {
    exists b :: b in child.bin && b in pkg.bin && pkg.bin[b] != ""
  }

  /** `cs.filter(c => Object.keys(c.package.bin || {}).filter(b => pkg.bin && pkg.bin[b]).length)` */
  function BinMatches(nodes: seq<Node>, cs: seq<nat>, pkg: Manifest): (ms: seq<nat>)
    requires InArena(nodes, cs)
    ensures InArena(nodes, ms)
    ensures forall m :: m in ms <==> m in cs && BinClash(nodes[m].pkg, pkg)
  {
    if |cs| == 0 then []
    else (if BinClash(nodes[cs[0]].pkg, pkg) then [cs[0]] else []) + BinMatches(nodes, cs[1..], pkg)
  }

  /** `pkg` may not be installed at `level`: a child there already has its
      name, or declares one of its executables. */
  ghost predicate Obstructed(nodes: seq<Node>, level: nat, pkg: Manifest)
    requires level < |nodes|
  {
    exists c :: c in nodes[level].children && c < |nodes|
                && (nodes[c].pkg.name == pkg.name || BinClash(nodes[c].pkg, pkg))
  }

  /** The highest level at which `pkg` can be installed, starting from `t`;
      null exactly when `t` itself is obstructed. It only reads the tree. */
  function EarliestInstallable(nodes: seq<Node>, t: nat, pkg: Manifest): (r: Option<nat>)
    requires WellFormed(nodes) && t < |nodes|
    ensures r.None? <==> Obstructed(nodes, t, pkg)
    ensures r.Some? ==> r.value in Ancestry(nodes, t) && !Obstructed(nodes, r.value, pkg)
    decreases t
  {
    assert NodeOk(nodes, t);
    if |NameMatches(nodes, nodes[t].children, pkg.name)| > 0 then
      assert NameMatches(nodes, nodes[t].children, pkg.name)[0] in nodes[t].children;
      None
    else if |BinMatches(nodes, nodes[t].children, pkg)| > 0 then
      assert BinMatches(nodes, nodes[t].children, pkg)[0] in nodes[t].children;
      None
    else if nodes[t].parent.None? then Some(t)
    else
      match EarliestInstallable(nodes, nodes[t].parent.value, pkg)
      case Some(a) => Some(a)
      case None => Some(t)
  }

  /** `anc[i]` ends the run of unobstructed levels at the start of `anc`. */
  ghost predicate StopsAt(nodes: seq<Node>, anc: seq<nat>, i: int, pkg: Manifest)
    requires forall j :: 0 <= j < |anc| ==> anc[j] < |nodes|
  {
    && 0 <= i < |anc|
    && (forall j :: 0 <= j <= i ==> !Obstructed(nodes, anc[j], pkg))
    && (i + 1 == |anc| || Obstructed(nodes, anc[i + 1], pkg))
  }

  /** Past an unobstructed level, the run of unobstructed levels of the
      chain ends one step above where the parent's run ends. */
  lemma StopsAtUp(nodes: seq<Node>, t: nat, p: nat, pkg: Manifest, i: nat)
    requires t < |nodes| && nodes[t].parent == Some(p) && p < t
    requires !Obstructed(nodes, t, pkg)
    requires StopsAt(nodes, Ancestry(nodes, p), i, pkg)
    ensures StopsAt(nodes, Ancestry(nodes, t), i + 1, pkg)
  {
    var anc := Ancestry(nodes, t);
    var up := Ancestry(nodes, p);
    AncestryStep(nodes, t, p);
    forall j | 0 <= j <= i + 1 ensures !Obstructed(nodes, anc[j], pkg) {
      if j > 0 {
        assert anc[j] == up[j - 1];
      }
    }
    if i + 1 < |up| {
      assert anc[i + 2] == up[i + 1];
    }
  }

  /** earliestInstallable climbs through the contiguous run of unobstructed
      levels that starts at `t` and answers the last of them: the level above
      its answer is obstructed, or its answer is the root. */
  lemma {:induction false} EarliestInstallableHighest(nodes: seq<Node>, t: nat, pkg: Manifest)
    requires WellFormed(nodes) && t < |nodes|
    requires EarliestInstallable(nodes, t, pkg).Some?
    ensures exists i :: StopsAt(nodes, Ancestry(nodes, t), i, pkg)
                        && EarliestInstallable(nodes, t, pkg).value == Ancestry(nodes, t)[i]
    decreases t
  {
    var r := EarliestInstallable(nodes, t, pkg).value;
    if nodes[t].parent.None? {
      assert Ancestry(nodes, t) == [t];
      assert StopsAt(nodes, Ancestry(nodes, t), 0, pkg) && r == t;
    } else {
      var p := ClimbsToParent(nodes, t, pkg);
      AncestryStep(nodes, t, p);
      if EarliestInstallable(nodes, p, pkg).None? {
        assert Ancestry(nodes, t)[1] == Ancestry(nodes, p)[0];
        assert StopsAt(nodes, Ancestry(nodes, t), 0, pkg) && r == t;
      } else {
        EarliestInstallableHighest(nodes, p, pkg);
        var up := Ancestry(nodes, p);
        var i :| StopsAt(nodes, up, i, pkg) && r == up[i];
        StopsAtUp(nodes, t, p, pkg, i);
        assert StopsAt(nodes, Ancestry(nodes, t), i + 1, pkg) && r == Ancestry(nodes, t)[i + 1];
      }
    }
  }

  /** Below an unobstructed level with a parent, earliestInstallable asks the
      parent, and falls back to `t` when the parent answers null. */
  lemma ClimbsToParent(nodes: seq<Node>, t: nat, pkg: Manifest) returns (p: nat)
    requires WellFormed(nodes) && t < |nodes| && nodes[t].parent.Some?
    requires EarliestInstallable(nodes, t, pkg).Some?
    ensures nodes[t].parent == Some(p) && p < t && !Obstructed(nodes, t, pkg)
    ensures EarliestInstallable(nodes, t, pkg)
            == if EarliestInstallable(nodes, p, pkg).Some? then EarliestInstallable(nodes, p, pkg) else Some(t)
  {
    assert NodeOk(nodes, t);
    p := nodes[t].parent.value;
  }

  /** The root of `t`'s tree: the last node of its chain. */
  ghost function RootOf(nodes: seq<Node>, t: nat): nat
    requires t < |nodes|
  {
    Ancestry(nodes, t)[|Ancestry(nodes, t)| - 1]
  }

  /** The chain ends at a node without a parent. */
  lemma {:induction false} RootHasNoParent(nodes: seq<Node>, t: nat)
    requires WellFormed(nodes) && t < |nodes|
    ensures RootOf(nodes, t) < |nodes| && nodes[RootOf(nodes, t)].parent.None?
    decreases t
  {
    assert NodeOk(nodes, t);
    if nodes[t].parent.Some? {
      RootHasNoParent(nodes, nodes[t].parent.value);
      assert Ancestry(nodes, t) == [t] + Ancestry(nodes, nodes[t].parent.value);
    }
  }

  /** When no level from `t` up to the root is obstructed, the package goes to the root. */
  lemma EarliestInstallableRoot(nodes: seq<Node>, t: nat, pkg: Manifest)
    requires WellFormed(nodes) && t < |nodes|
    requires forall j :: 0 <= j < |Ancestry(nodes, t)| ==> !Obstructed(nodes, Ancestry(nodes, t)[j], pkg)
    ensures EarliestInstallable(nodes, t, pkg) == Some(RootOf(nodes, t))
  {
    assert !Obstructed(nodes, Ancestry(nodes, t)[0], pkg);
    EarliestInstallableHighest(nodes, t, pkg);
  }

  /** A root with one child `mid`, under which sit the requester `t` and an
      older `x`. */
  function HoistingSample(): seq<Node>
  {
    [ Node(Manifest("root", "1.0.0", map[], None, None), None, [1], [], [], "", false, false),
      Node(Manifest("mid", "1.0.0", map[], None, None), Some(0), [2, 3], [], [], "/node_modules/mid", false, false),
      Node(Manifest("t", "1.0.0", map[], None, None), Some(1), [], [], [], "/node_modules/mid/node_modules/t", false, false),
      Node(Manifest("x", "1.0.0", map[], None, None), Some(1), [], [], [], "/node_modules/mid/node_modules/x", false, false) ]
  }

  lemma HoistingSampleWellFormed()
    ensures WellFormed(HoistingSample())
  {
    var nodes := HoistingSample();
    assert NodeOk(nodes, 0) by { assert nodes[0].children == [1]; }
    assert NodeOk(nodes, 1) by { assert nodes[1].children == [2, 3]; }
    assert NodeOk(nodes, 2) && NodeOk(nodes, 3);
  }

  /** Hoisting stops below the first obstructed level even when the root
      itself is free: a newer `x` required by `t` is placed under `t`, not at
      the root, because `mid` already holds an `x`. */
  lemma RootClearIsNotEnough()
    ensures WellFormed(HoistingSample())
    ensures !Obstructed(HoistingSample(), 0, Manifest("x", "2.0.0", map[], None, None))
    ensures EarliestInstallable(HoistingSample(), 2, Manifest("x", "2.0.0", map[], None, None)) == Some(2)
  {
    var pkg := Manifest("x", "2.0.0", map[], None, None);
    var nodes := HoistingSample();
    HoistingSampleWellFormed();
    assert Obstructed(nodes, 1, pkg) by {
      assert 3 in nodes[1].children;
    }
    assert !Obstructed(nodes, 0, pkg) by {
      assert nodes[0].children == [1];
    }
  }

  // ---------------------------------------------------------------------------
  // Edge lists: lodash `union` and `pushUnique`

  predicate NoDups(s: seq<nat>)
  {
    forall i, j :: 0 <= i < j < |s| ==> s[i] != s[j]
  }

  /** The distinct elements of `s`, each at its first occurrence, in order. */
  function Dedup(s: seq<nat>): (r: seq<nat>)
    ensures NoDups(r)
    ensures forall x :: x in r <==> x in s
    decreases |s|
  {
    if |s| == 0 then []
    else
      var d := Dedup(s[..|s| - 1]);
      if s[|s| - 1] in d then d else d + [s[|s| - 1]]
  }

  /** lodash `union(a, b)`: the distinct elements of `a` then `b`, in order of first occurrence. */
  function Union(a: seq<nat>, b: seq<nat>): seq<nat>
  {
    Dedup(a + b)
  }

  /** `pushUnique(obj, key, x)` on the list `s` (a missing list is the empty one). */
  function PushUnique(s: seq<nat>, x: nat): (r: seq<nat>)
    ensures |r| == if x in s then |s| else |s| + 1
    ensures x in r && r[..|s|] == s
  {
    if x in s then s else s + [x]
  }

  /** Pushing the same element twice changes nothing the second time, and
      leaves it in the list exactly once when the list had no duplicates. */
  lemma PushUniqueOnce(s: seq<nat>, x: nat)
    requires NoDups(s)
    ensures PushUnique(PushUnique(s, x), x) == PushUnique(s, x)
    ensures NoDups(PushUnique(s, x))
    ensures multiset(PushUnique(s, x))[x] == 1
  {
    if x !in s {
      assert multiset(s)[x] == 0;
      assert multiset(s + [x]) == multiset(s) + multiset{x};
    } else {
      var i :| 0 <= i < |s| && s[i] == x;
      MultisetOfNoDups(s, i);
    }
  }

  lemma {:induction false} MultisetOfNoDups(s: seq<nat>, i: nat)
    requires NoDups(s) && i < |s|
    ensures multiset(s)[s[i]] == 1
    decreases |s|
  {
    var last := |s| - 1;
    assert s == s[..last] + [s[last]];
    assert multiset(s) == multiset(s[..last]) + multiset{s[last]};
    if i == last {
      assert s[i] !in s[..last];
      assert multiset(s[..last])[s[i]] == 0;
    } else {
      MultisetOfNoDups(s[..last], i);
      assert s[..last][i] == s[i];
    }
  }

  /** A list without duplicates is its own Dedup. */
  lemma {:induction false} DedupOfNoDups(s: seq<nat>)
    requires NoDups(s)
    ensures Dedup(s) == s
    decreases |s|
  {
    if |s| > 0 {
      DedupOfNoDups(s[..|s| - 1]);
      assert s[|s| - 1] !in s[..|s| - 1];
      assert s == s[..|s| - 1] + [s[|s| - 1]];
    }
  }

  /** With an element not yet in the list, `union(a, [x])` is the distinct
      elements of `a` followed by `x`. */
  lemma UnionFresh(a: seq<nat>, x: nat)
    requires x !in a
    ensures Union(a, [x]) == Dedup(a) + [x]
  {
    assert (a + [x])[..|a + [x]| - 1] == a;
  }

  /** `union(a, [x])` is `pushUnique` onto the distinct elements of `a`: an
      element appended to a list is never duplicated, and repeating the
      union adds nothing. */
  lemma {:induction false} UnionIsPushUnique(a: seq<nat>, x: nat)
    ensures Union(a, [x]) == PushUnique(Dedup(a), x)
    ensures Union(Union(a, [x]), [x]) == Union(a, [x])
  {
    assert (a + [x])[..|a + [x]| - 1] == a;
    var u := Union(a, [x]);
    assert Union(u, [x]) == PushUnique(Dedup(u), x) by {
      assert (u + [x])[..|u + [x]| - 1] == u;
    }
    DedupOfNoDups(u);
  }

  // ---------------------------------------------------------------------------
  // resolveWithExistingModule's range merge

  /** The descriptor a reused node records before the incoming range is
      merged in: its own, or (when it had none) the incoming descriptor if its
      version satisfies it, otherwise an exact-version descriptor. */
  function BaseRequested(version: string, current: Option<Descriptor>, incoming: Descriptor,
                         sat: (string, string) -> bool): Descriptor
  {
    if current.Some? then current.value
    else if sat(version, incoming.spec) then incoming
    else Descriptor(None, "", version, Version)
  }

  /** The merged descriptor keeps the range the node already recorded as a
      prefix and always ends with the incoming range; when the two differ it
      becomes a `range` descriptor, otherwise nothing changes. */
  function MergeRequested(version: string, current: Option<Descriptor>, incoming: Descriptor,
                          sat: (string, string) -> bool): (d: Descriptor)
    ensures var base := BaseRequested(version, current, incoming, sat);
            && |base.spec| <= |d.spec| && d.spec[..|base.spec|] == base.spec
            && |incoming.spec| <= |d.spec| && d.spec[|d.spec| - |incoming.spec|..] == incoming.spec
            && d.name == base.name && d.rawSpec == base.rawSpec
            && (d == base || (d.kind == Range && d.spec == base.spec + " " + incoming.spec))
            && (d == base <==> base.spec == incoming.spec)
    ensures current.None? && sat(version, incoming.spec) ==> d == incoming
    ensures current.None? && !sat(version, incoming.spec) ==> d.spec[..|version|] == version
  {
    var base := BaseRequested(version, current, incoming, sat);
    if base.spec != incoming.spec then
      var merged := base.spec + " " + incoming.spec;
      assert merged[|merged| - |incoming.spec|..] == incoming.spec;
      base.(spec := merged, kind := Range)
    else base
  }

  /** Unlike the edge lists, the range text is not idempotent: reusing a
      node a second time for the same differing range appends it again. */
  lemma RemergeAppendsAgain(version: string, current: Option<Descriptor>, incoming: Descriptor,
                            sat: (string, string) -> bool)
    requires BaseRequested(version, current, incoming, sat).spec != incoming.spec
    ensures var once := MergeRequested(version, current, incoming, sat);
            MergeRequested(version, Some(once), incoming, sat).spec == once.spec + " " + incoming.spec
  {
  }

  /** The range a fetched manifest asks for: its requested spec when it has a
      non-empty one, else its version. */
  function RequestedRange(pkg: Manifest): (range: string)
    ensures range == pkg.version || (pkg.requested.Some? && range == pkg.requested.value.spec)
    ensures pkg.requested.Some? && pkg.requested.value.spec != "" ==> range == pkg.requested.value.spec
    ensures range == "" ==> pkg.version == ""
  {
    if pkg.requested.Some? && pkg.requested.value.spec != "" then pkg.requested.value.spec else pkg.version
  }

  /** Where resolveRequirement attaches a new node: `earliestInstallable(tree) || tree`. */
  function Placement(nodes: seq<Node>, t: nat, pkg: Manifest): (p: nat)
    requires WellFormed(nodes) && t < |nodes|
    ensures p in Ancestry(nodes, t)
  {
    match EarliestInstallable(nodes, t, pkg)
    case Some(a) => a
    case None => t
  }

  /** Nodes agree on everything but their `children` and `requirements`. */
  ghost predicate SameButEdges(a: Node, b: Node)
  {
    && a.pkg == b.pkg && a.parent == b.parent && a.requiredBy == b.requiredBy
    && a.path == b.path && a.loaded == b.loaded && a.directlyRequested == b.directlyRequested
  }

  /** The arena after `node` is appended as a new child of `p` (pushed onto
      `p`'s children) and the requirements of `t` become `reqs`. */
  function Attached(before: seq<Node>, p: nat, t: nat, node: Node, reqs: seq<nat>): seq<Node>
    requires p < |before| && t < |before|
  {
    var mid := before[p := before[p].(children := before[p].children + [|before|])] + [node];
    mid[t := mid[t].(requirements := reqs)]
  }

  lemma AttachedNodeOk(before: seq<Node>, p: nat, t: nat, node: Node, reqs: seq<nat>, i: nat)
    requires WellFormed(before) && p < |before| && t < |before|
    requires node.parent == Some(p) && node.children == []
    requires InArena(before + [node], node.requirements) && InArena(before + [node], node.requiredBy)
    requires InArena(before + [node], reqs)
    requires i <= |before|
    ensures NodeOk(Attached(before, p, t, node, reqs), i)
  {
    var after := Attached(before, p, t, node, reqs);
    var child := |before|;
    assert |after| == child + 1;
    assert after[p].children == before[p].children + [child];
    if i == child {
      assert after[i] == node;
    } else {
      assert NodeOk(before, i);
      assert SameButEdges(after[i], before[i]);
      assert after[i].children == if i == p then before[i].children + [child] else before[i].children;
      assert after[i].requirements == if i == t then reqs else before[i].requirements;
      if before[i].parent.Some? {
        var q := before[i].parent.value;
        assert after[q].children[..|before[q].children|] == before[q].children;
      }
      forall c | c in after[i].children
        ensures c < |after| && after[c].parent == Some(i)
      {
        if c != child {
          assert c in before[i].children;
          assert SameButEdges(after[c], before[c]);
        }
      }
    }
  }

  /** What attaching changes: the new node is last, its parent gains it as
      its last child, `t`'s requirements are replaced, and nothing else. */
  lemma AttachedFacts(before: seq<Node>, p: nat, t: nat, node: Node, reqs: seq<nat>)
    requires p < |before| && t < |before|
    ensures |Attached(before, p, t, node, reqs)| == |before| + 1
    ensures Attached(before, p, t, node, reqs)[|before|] == node
    ensures Attached(before, p, t, node, reqs)[p].children == before[p].children + [|before|]
    ensures Attached(before, p, t, node, reqs)[t].requirements == reqs
    ensures forall i :: 0 <= i < |before| && i != p ==>
              Attached(before, p, t, node, reqs)[i].children == before[i].children
    ensures forall i :: 0 <= i < |before| && i != t ==>
              Attached(before, p, t, node, reqs)[i].requirements == before[i].requirements
    ensures forall i :: 0 <= i < |before| ==> SameButEdges(Attached(before, p, t, node, reqs)[i], before[i])
  {
  }

  /** When `p` is unobstructed, the attached node is the only child of `p`
      with its name. */
  lemma AttachedNameIsFresh(before: seq<Node>, p: nat, t: nat, node: Node, reqs: seq<nat>)
    requires WellFormed(before) && p < |before| && t < |before|
    requires !Obstructed(before, p, node.pkg)
    ensures forall c :: c in Attached(before, p, t, node, reqs)[p].children && c != |before| ==>
              c < |before| + 1 && Attached(before, p, t, node, reqs)[c].pkg.name != node.pkg.name
  {
    var after := Attached(before, p, t, node, reqs);
    AttachedFacts(before, p, t, node, reqs);
    assert NodeOk(before, p);
    forall c | c in after[p].children && c != |before|
      ensures c < |before| + 1 && after[c].pkg.name != node.pkg.name
    {
      assert c in before[p].children;
      assert SameButEdges(after[c], before[c]);
    }
  }

  /** Attaching a fresh last node whose edges stay inside the arena keeps the
      tree well formed. */
  lemma AttachedWellFormed(before: seq<Node>, p: nat, t: nat, node: Node, reqs: seq<nat>)
    requires WellFormed(before) && p < |before| && t < |before|
    requires node.parent == Some(p) && node.children == []
    requires InArena(before + [node], node.requirements) && InArena(before + [node], node.requiredBy)
    requires InArena(before + [node], reqs)
    ensures WellFormed(Attached(before, p, t, node, reqs))
  {
    forall i | 0 <= i < |Attached(before, p, t, node, reqs)|
      ensures NodeOk(Attached(before, p, t, node, reqs), i)
    {
      AttachedNodeOk(before, p, t, node, reqs, i);
    }
  }

  /** The arena after node `child` gets package `pkg` and requester `t`, and
      `t` gets requirement `child`. */
  ghost function Relinked(before: seq<Node>, child: nat, t: nat, pkg: Manifest): seq<Node>
    requires child < |before| && t < |before|
  {
    var mid := before[child := before[child].(pkg := pkg, requiredBy := Union(before[child].requiredBy, [t]))];
    mid[t := mid[t].(requirements := Union(mid[t].requirements, [child]))]
  }

  lemma RelinkedNodeOk(before: seq<Node>, child: nat, t: nat, pkg: Manifest, i: nat)
    requires WellFormed(before) && child < |before| && t < |before| && i < |before|
    ensures NodeOk(Relinked(before, child, t, pkg), i)
  {
    var after := Relinked(before, child, t, pkg);
    assert NodeOk(before, i) && NodeOk(before, child) && NodeOk(before, t);
    assert after[i].parent == before[i].parent;
    forall k | 0 <= k < |before| ensures after[k].children == before[k].children {
    }
    if i == child {
      UnionInArena(before, before[child].requiredBy, [t]);
    }
    if i == t {
      UnionInArena(before, before[t].requirements, [child]);
    }
  }

  /** Reusing a node rewrites only packages and logical edges inside the
      arena, so the tree stays well formed. */
  lemma RelinkedWellFormed(before: seq<Node>, child: nat, t: nat, pkg: Manifest)
    requires WellFormed(before) && child < |before| && t < |before|
    ensures WellFormed(Relinked(before, child, t, pkg))
  {
    forall i | 0 <= i < |Relinked(before, child, t, pkg)| ensures NodeOk(Relinked(before, child, t, pkg), i) {
      RelinkedNodeOk(before, child, t, pkg, i);
    }
  }

  /** The node resolveRequirement creates for `pkg`, required by `t`. */
  function Placed(before: seq<Node>, t: nat, pkg: Manifest): Node
    requires WellFormed(before) && t < |before|
  {
    var p := Placement(before, t, pkg);
    Node(pkg, Some(p), [], [], [t], before[p].path + "/node_modules/" + pkg.name, false, false)
  }

  /** Attaching the placed node, with `t`'s requirements de-duplicated and
      extended by it, keeps the tree well formed; the new index is not yet
      among `t`'s requirements. */
  lemma PlacedWellFormed(before: seq<Node>, t: nat, pkg: Manifest)
    requires WellFormed(before) && t < |before|
    ensures |before| !in before[t].requirements
    ensures WellFormed(Attached(before, Placement(before, t, pkg), t, Placed(before, t, pkg),
                                Dedup(before[t].requirements) + [|before|]))
  {
    var p := Placement(before, t, pkg);
    var child := |before|;
    var node := Placed(before, t, pkg);
    var reqs := Dedup(before[t].requirements) + [child];
    assert NodeOk(before, t);
    AppendedRequirementInArena(before + [node], before[t].requirements, child);
    assert InArena(before + [node], [t]);
    AttachedWellFormed(before, p, t, node, reqs);
  }

  /** Requirements below index `x`, de-duplicated and extended by `x`, stay
      inside an arena that holds `x`. */
  lemma AppendedRequirementInArena(nodes: seq<Node>, rs: seq<nat>, x: nat)
    requires forall j :: 0 <= j < |rs| ==> rs[j] < x
    requires x < |nodes|
    ensures x !in rs
    ensures InArena(nodes, Dedup(rs) + [x])
  {
    forall j | 0 <= j < |Dedup(rs)| ensures Dedup(rs)[j] < x {
      assert Dedup(rs)[j] in rs;
    }
  }

  /** What reusing a node changes: its package and `requiredBy`, the
      requester's `requirements`, and nothing else. */
  lemma RelinkedFacts(before: seq<Node>, child: nat, t: nat, pkg: Manifest)
    requires child < |before| && t < |before|
    ensures |Relinked(before, child, t, pkg)| == |before|
    ensures Relinked(before, child, t, pkg)[child].pkg == pkg
    ensures Relinked(before, child, t, pkg)[child].requiredBy == Union(before[child].requiredBy, [t])
    ensures Relinked(before, child, t, pkg)[t].requirements == Union(before[t].requirements, [child])
    ensures t in Relinked(before, child, t, pkg)[child].requiredBy
    ensures child in Relinked(before, child, t, pkg)[t].requirements
    ensures t != child ==> Relinked(before, child, t, pkg)[t].pkg == before[t].pkg
    ensures forall i :: 0 <= i < |before| && i != child && i != t ==> Relinked(before, child, t, pkg)[i] == before[i]
    ensures forall i :: 0 <= i < |before| ==>
              && Relinked(before, child, t, pkg)[i].parent == before[i].parent
              && Relinked(before, child, t, pkg)[i].children == before[i].children
              && Relinked(before, child, t, pkg)[i].path == before[i].path
              && Relinked(before, child, t, pkg)[i].loaded == before[i].loaded
              && Relinked(before, child, t, pkg)[i].directlyRequested == before[i].directlyRequested
  {
    assert t in before[child].requiredBy + [t];
    assert child in before[t].requirements + [child];
  }

  /** Recording a brand-new node as a requirement: the union drops earlier
      duplicates and appends it, and the following pushUnique adds nothing. */
  lemma FreshRequirement(reqs: seq<nat>, child: nat)
    requires child !in reqs
    ensures Union(reqs, [child]) == Dedup(reqs) + [child]
    ensures PushUnique(Union(reqs, [child]), child) == Dedup(reqs) + [child]
    ensures multiset(Dedup(reqs) + [child])[child] == 1
  {
    UnionFresh(reqs, child);
    assert child !in Dedup(reqs);
    assert multiset(Dedup(reqs) + [child]) == multiset(Dedup(reqs)) + multiset{child};
  }

  lemma UnionInArena(nodes: seq<Node>, a: seq<nat>, b: seq<nat>)
    requires InArena(nodes, a) && InArena(nodes, b)
    ensures InArena(nodes, Union(a, b))
  {
    var u := Union(a, b);
    forall j | 0 <= j < |u| ensures u[j] < |nodes| {
      assert u[j] in a + b;
    }
  }

  /** The live dependency tree that resolution grows in place. */
  class DependencyTree {
    var nodes: seq<Node>

    ghost predicate Valid()
      reads this
    {
      WellFormed(nodes)
    }

    /** A tree holding only its root. */
    constructor(root: Manifest, path: string)
      ensures Valid()
      ensures nodes == [Node(root, None, [], [], [], path, false, false)]
    {
      nodes := [Node(root, None, [], [], [], path, false, false)];
      new;
      assert NodeOk(nodes, 0);
    }

    /** Creates a node for `pkg`, required by `t`, and attaches it at the
        level earliestInstallable picks (or under `t` when it picks none). */
    method ResolveRequirement(pkg: Manifest, t: nat) returns (child: nat)
      requires Valid() && t < |nodes|
      modifies this
      ensures Valid()
      ensures child == old(|nodes|) && |nodes| == child + 1
      ensures nodes[child].parent == Some(Placement(old(nodes), t, pkg))
      ensures nodes[child] == Node(pkg, nodes[child].parent, [], [], [t],
                                   old(nodes)[nodes[child].parent.value].path + "/node_modules/" + pkg.name, false, false)
      ensures nodes[nodes[child].parent.value].children == old(nodes)[nodes[child].parent.value].children + [child]
      ensures forall i :: 0 <= i < child && Some(i) != nodes[child].parent ==> nodes[i].children == old(nodes[i].children)
      ensures nodes[t].requirements == Dedup(old(nodes[t].requirements)) + [child]
      ensures multiset(nodes[t].requirements)[child] == 1
      ensures nodes == Attached(old(nodes), Placement(old(nodes), t, pkg), t, Placed(old(nodes), t, pkg),
                                Dedup(old(nodes[t].requirements)) + [child])
      ensures forall i :: 0 <= i < child && i != t ==> nodes[i].requirements == old(nodes[i].requirements)
      ensures forall i :: 0 <= i < child ==> SameButEdges(nodes[i], old(nodes[i]))
      ensures EarliestInstallable(old(nodes), t, pkg).Some? ==>
                forall c :: c in nodes[nodes[child].parent.value].children && c != child ==>
                              c < |nodes| && nodes[c].pkg.name != pkg.name
    {
      var p := Placement(nodes, t, pkg);
      child := |nodes|;
      var node := Node(pkg, Some(p), [], [], [t], nodes[p].path + "/node_modules/" + pkg.name, false, false);
      // `tree.requires = union(tree.requires || [], [child])`, then `pushUnique(tree, "requires", child)`
      var reqs := Union(nodes[t].requirements, [child]);
      reqs := PushUnique(reqs, child);
      PlacedWellFormed(nodes, t, pkg);
      FreshRequirement(nodes[t].requirements, child);
      AttachedFacts(nodes, p, t, node, reqs);
      if EarliestInstallable(nodes, t, pkg).Some? {
        AttachedNameIsFresh(nodes, p, t, node, reqs);
      }
      nodes := Attached(nodes, p, t, node, reqs);
    }

    /** Reuses node `child` for `pkg`, required by `t`: merges the requested
        range into the node's descriptor and records the two logical edges. */
    method ResolveWithExistingModule(child: nat, pkg: Manifest, t: nat, sat: (string, string) -> bool)
      requires Valid() && child < |nodes| && t < |nodes|
      requires pkg.requested.Some?
      modifies this
      ensures Valid() && |nodes| == old(|nodes|)
      ensures nodes[child].pkg == old(nodes[child].pkg).(requested := Some(MergeRequested(
                old(nodes[child].pkg.version), old(nodes[child].pkg.requested), pkg.requested.value, sat)))
      ensures nodes == Relinked(old(nodes), child, t, old(nodes[child].pkg).(requested := Some(MergeRequested(
                old(nodes[child].pkg.version), old(nodes[child].pkg.requested), pkg.requested.value, sat))))
      ensures nodes[child].requiredBy == Union(old(nodes[child].requiredBy), [t])
      ensures nodes[t].requirements == Union(old(nodes[t].requirements), [child])
      ensures t in nodes[child].requiredBy && child in nodes[t].requirements
      ensures t != child ==> nodes[t].pkg == old(nodes[t].pkg)
      ensures forall i :: 0 <= i < |nodes| && i != child && i != t ==> nodes[i] == old(nodes[i])
      ensures forall i :: 0 <= i < |nodes| ==>
                && nodes[i].parent == old(nodes[i].parent) && nodes[i].children == old(nodes[i].children)
                && nodes[i].path == old(nodes[i].path) && nodes[i].loaded == old(nodes[i].loaded)
                && nodes[i].directlyRequested == old(nodes[i].directlyRequested)
    {
      ghost var before := nodes;
      var c := nodes[child];
      var merged := MergeRequested(c.pkg.version, c.pkg.requested, pkg.requested.value, sat);
      var reused := c.pkg.(requested := Some(merged));
      nodes := nodes[child := c.(pkg := reused, requiredBy := Union(c.requiredBy, [t]))];
      nodes := nodes[t := nodes[t].(requirements := Union(nodes[t].requirements, [child]))];
      assert nodes == Relinked(before, child, t, reused);
      RelinkedFacts(before, child, t, reused);
      RelinkedWellFormed(before, child, t, reused);
    }

    /** addDependency once the manifest has been fetched: reuse the node
        findRequirement finds for the requested range, or create a new one. */
    method AddDependency(pkg: Manifest, t: nat, sat: (string, string) -> bool) returns (child: nat, reused: bool)
      requires Valid() && t < |nodes|
      requires pkg.requested.Some?
      modifies this
      ensures Valid()
      ensures reused <==> FindRequirement(old(nodes), t, pkg.name, RequestedRange(pkg), sat).Some?
      ensures reused ==> FindRequirement(old(nodes), t, pkg.name, RequestedRange(pkg), sat) == Some(child)
                         && |nodes| == old(|nodes|)
      ensures !reused ==> child == old(|nodes|) && |nodes| == child + 1
      ensures child < |nodes| && nodes[child].pkg.name == pkg.name
      ensures reused ==> nodes == Relinked(old(nodes), child, t, old(nodes[child].pkg).(requested := Some(MergeRequested(
                           old(nodes[child].pkg.version), old(nodes[child].pkg.requested), pkg.requested.value, sat))))
      ensures !reused ==> nodes == Attached(old(nodes), Placement(old(nodes), t, pkg), t, Placed(old(nodes), t, pkg),
                                            Dedup(old(nodes[t].requirements)) + [child])
    {
      var found := FindRequirement(nodes, t, pkg.name, RequestedRange(pkg), sat);
      if found.Some? {
        child, reused := found.value, true;
        ResolveWithExistingModule(child, pkg, t, sat);
      } else {
        reused := false;
        child := ResolveRequirement(pkg, t);
      }
    }
  }
}
