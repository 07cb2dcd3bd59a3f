/** The metadata fetcher (lib/fetch-package-metadata.js): the coalescing key,
    registry version selection, directory-manifest validation, the hosted-git
    fallback order and the choice of `package.json` inside a local tarball.
    Network, filesystem and archive streams are replaced by their outcomes,
    passed in as values or functions. */
module FetchMetadata {
  import opened Packages

  datatype FetchError =
    | NoCompatibleVersion(rawSpec: string, targets: seq<string>)
    | NoName(rawSpec: string)
    | NoVersion(rawSpec: string)
    | InvalidPackage(expected: string, found: string)
    | MissingPackageJson(spec: string)
    | NoPackageJsonFound(spec: string)
    | JsonParse(file: string)
      /** An error produced by a collaborator (stat, registry client, git) and passed through. */
    | Collaborator(message: string)

  /** The `code` property the fetcher sets on an error, or "" where it sets none. */
  function Code(e: FetchError): string
  {
    match e
    case MissingPackageJson(_) => "ENOPACKAGEJSON"
    case JsonParse(_) => "EJSONPARSE"
    case _ => ""
  }

  // ---------------------------------------------------------------------------
  // Coalescing key

  /** The key under which concurrent fetches of one specifier are coalesced:
      `name@spec`, or the bare spec when the descriptor has no name. */
  function NormalizedKey(dep: Descriptor): (key: string)
    ensures |dep.spec| <= |key| && key[|key| - |dep.spec|..] == dep.spec
    ensures dep.name.None? <==> key == dep.spec
    ensures dep.name.Some? ==>
              |key| == |dep.name.value| + 1 + |dep.spec| && key[..|dep.name.value| + 1] == dep.name.value + "@"
  {
    if dep.name.None? then dep.spec else dep.name.value + "@" + dep.spec
  }

  /** Two requests for the same name (or two unnamed requests) share a key
      exactly when they ask for the same spec, so coalescing never merges
      requests for different ranges of one package. */
  lemma {:induction false} KeySeparatesSpecs(a: Descriptor, b: Descriptor)
    requires a.name == b.name
    ensures NormalizedKey(a) == NormalizedKey(b) <==> a.spec == b.spec
  {
    if a.name.Some? && NormalizedKey(a) == NormalizedKey(b) {
      var prefix := a.name.value + "@";
      assert NormalizedKey(a) == prefix + a.spec && NormalizedKey(b) == prefix + b.spec;
      assert a.spec == (prefix + a.spec)[|prefix|..];
      assert b.spec == (prefix + b.spec)[|prefix|..];
    }
  }

  // ---------------------------------------------------------------------------
  // Registry version selection

  /** The registry document for one package name: every published version's
      manifest, and the dist-tags naming some of them. */
  datatype Packument = Packument(versions: map<string, Manifest>, distTags: map<string, string>)

  /** `versions` is `Object.keys(p.versions)` sorted with `semver.rcompare`:
      strictly descending under `gt`, holding exactly the published versions. */
  ghost predicate SortedKeys(p: Packument, versions: seq<string>, gt: (string, string) -> bool)
  {
    && (forall i, j :: 0 <= i < j < |versions| ==> gt(versions[i], versions[j]))
    && (forall v :: v in versions <==> v in p.versions)
  }

  /** `p["dist-tags"].latest || versions[0]`; the empty string stands for the
      `undefined` the source gets when there is neither. */
  function LatestVersion(p: Packument, versions: seq<string>): (latest: string)
    ensures "latest" in p.distTags && p.distTags["latest"] != "" ==> latest == p.distTags["latest"]
    ensures ("latest" !in p.distTags || p.distTags["latest"] == "") ==>
              if |versions| > 0 then latest == versions[0] else latest == ""
    ensures latest == "" || latest in p.distTags.Values || latest in versions
  {
    if "latest" in p.distTags && p.distTags["latest"] != "" then p.distTags["latest"]
    else if |versions| > 0 then versions[0]
    else ""
  }

  /** A version the first scan accepts: not above `latest`, and inside the range. */
  ghost predicate Fits(gt: (string, string) -> bool, sat: (string, string) -> bool,
                       v: string, latest: string, range: string)
  {
    !gt(v, latest) && sat(v, range)
  }

  ghost predicate HighestFitting(gt: (string, string) -> bool, sat: (string, string) -> bool,
                                 versions: seq<string>, v: string, latest: string, range: string)
  {
    && v in versions
    && Fits(gt, sat, v, latest, range)
    && forall w :: w in versions && Fits(gt, sat, w, latest, range) && w != v ==> gt(v, w)
  }

  ghost predicate HighestSatisfying(gt: (string, string) -> bool, sat: (string, string) -> bool,
                                    versions: seq<string>, v: string, range: string)
  {
    && v in versions
    && sat(v, range)
    && forall w :: w in versions && sat(w, range) && w != v ==> gt(v, w)
  }

  /** `versions[i]` is the first version in the sorted list that fits. */
  ghost predicate FirstFitting(gt: (string, string) -> bool, sat: (string, string) -> bool,
                               versions: seq<string>, i: int, latest: string, range: string)
  {
    && 0 <= i < |versions|
    && Fits(gt, sat, versions[i], latest, range)
    && forall k :: 0 <= k < i ==> !Fits(gt, sat, versions[k], latest, range)
  }

  /** `versions[i]` is the first version in the sorted list that satisfies the range. */
  ghost predicate FirstSatisfying(sat: (string, string) -> bool, versions: seq<string>, i: int, range: string)
  {
    && 0 <= i < |versions|
    && sat(versions[i], range)
    && forall k :: 0 <= k < i ==> !sat(versions[k], range)
  }

  /** The registry branch of the fetcher, after the version list has been
      sorted: a tag names its version directly; otherwise the highest version
      not above `latest` that satisfies the range, failing that the highest
      that satisfies it, failing that an error carrying every candidate. */
  method SelectVersion(dep: Descriptor, p: Packument, versions: seq<string>,
                       gt: (string, string) -> bool, sat: (string, string) -> bool)
    returns (r: Result<Manifest, FetchError>)
    requires SortedKeys(p, versions, gt)
    ensures r.Ok? ==> exists v :: v in p.versions && r.value == p.versions[v]
    ensures r.Err? ==> r.error == NoCompatibleVersion(dep.rawSpec, versions)
    ensures dep.kind == Tag ==>
      if dep.spec in p.distTags && p.distTags[dep.spec] in p.versions
      then r == Ok(p.versions[p.distTags[dep.spec]])
      else r.Err?
    ensures dep.kind != Tag && (exists v :: v in versions && Fits(gt, sat, v, LatestVersion(p, versions), dep.spec)) ==>
      exists v :: HighestFitting(gt, sat, versions, v, LatestVersion(p, versions), dep.spec) && r == Ok(p.versions[v])
    ensures dep.kind != Tag && (forall v :: v in versions ==> !Fits(gt, sat, v, LatestVersion(p, versions), dep.spec))
                            && (exists v :: v in versions && sat(v, dep.spec)) ==>
      exists v :: HighestSatisfying(gt, sat, versions, v, dep.spec) && r == Ok(p.versions[v])
    ensures dep.kind != Tag ==>
      forall i :: FirstFitting(gt, sat, versions, i, LatestVersion(p, versions), dep.spec) ==>
        r == Ok(p.versions[versions[i]])
    ensures dep.kind != Tag && (forall v :: v in versions ==> !Fits(gt, sat, v, LatestVersion(p, versions), dep.spec)) ==>
      forall i :: FirstSatisfying(sat, versions, i, dep.spec) ==> r == Ok(p.versions[versions[i]])
    ensures dep.kind != Tag && (forall v :: v in versions ==> !sat(v, dep.spec)) ==> r.Err?
  {
    if dep.kind == Tag {
      if dep.spec in p.distTags && p.distTags[dep.spec] in p.versions {
        return Ok(p.versions[p.distTags[dep.spec]]);
      }
    } else {
      var latest := LatestVersion(p, versions);
      for i := 0 to |versions|
        invariant forall k :: 0 <= k < i ==> !Fits(gt, sat, versions[k], latest, dep.spec)
      {
        if gt(versions[i], latest) {
          continue;
        }
        if sat(versions[i], dep.spec) {
          forall w | w in versions && Fits(gt, sat, w, latest, dep.spec) && w != versions[i]
            ensures gt(versions[i], w)
          {
            var j :| 0 <= j < |versions| && versions[j] == w;
            assert j > i;
          }
          assert HighestFitting(gt, sat, versions, versions[i], latest, dep.spec);
          return Ok(p.versions[versions[i]]);
        }
      }
      for i := 0 to |versions|
        invariant forall k :: 0 <= k < i ==> !sat(versions[k], dep.spec)
      {
        if sat(versions[i], dep.spec) {
          forall w | w in versions && sat(w, dep.spec) && w != versions[i]
            ensures gt(versions[i], w)
          {
            var j :| 0 <= j < |versions| && versions[j] == w;
            assert j > i;
          }
          assert HighestSatisfying(gt, sat, versions, versions[i], dep.spec);
          return Ok(p.versions[versions[i]]);
        }
      }
    }
    return Err(NoCompatibleVersion(dep.rawSpec, versions));
  }

  /** The precondition of SelectVersion pins `versions` down: for an
      asymmetric `gt` there is only one strictly descending list of the
      published versions. */
  lemma {:induction false} SortedKeysUnique(p: Packument, a: seq<string>, b: seq<string>,
                                            gt: (string, string) -> bool)
    requires forall x, y :: gt(x, y) ==> !gt(y, x)
    requires SortedKeys(p, a, gt) && SortedKeys(p, b, gt)
    ensures a == b
    decreases |a|
  {
    assert |a| == 0 <==> |b| == 0 by {
      if |a| > 0 { assert a[0] in p.versions; }
      if |b| > 0 { assert b[0] in p.versions; }
    }
    if |a| > 0 {
      assert b[0] in a && a[0] in b;
      var a0, b0 := a[0], b[0];
      var k :| 0 <= k < |a| && a[k] == b0;
      var m :| 0 <= m < |b| && b[m] == a0;
      assert k == 0 || gt(a0, b0);
      assert m == 0 || gt(b0, a0);
      assert a0 == b0;
      var rest := Packument(p.versions - {a[0]}, p.distTags);
      forall v ensures v in a[1..] <==> v in rest.versions {
        if v in a[1..] {
          var i :| 1 <= i < |a| && a[i] == v;
          assert gt(a[0], a[i]);
        }
        if v in rest.versions {
          var i :| 0 <= i < |a| && a[i] == v;
          assert a[1..][i - 1] == v;
        }
      }
      forall v ensures v in b[1..] <==> v in rest.versions {
        if v in b[1..] {
          var i :| 1 <= i < |b| && b[i] == v;
          assert gt(b[0], b[i]);
        }
        if v in rest.versions {
          var i :| 0 <= i < |b| && b[i] == v;
          assert b[1..][i - 1] == v;
        }
      }
      SortedKeysUnique(rest, a[1..], b[1..], gt);
      assert a == [a[0]] + a[1..] && b == [b[0]] + b[1..];
    }
  }

  /** Without a usable `latest` dist-tag the bound is the highest published
      version, so for an asymmetric `gt` the first scan already accepts every
      satisfying version and the fallback scan can never be reached. */
  lemma {:induction false} NoLatestTagMeansNoFallback(p: Packument, versions: seq<string>,
                                                      gt: (string, string) -> bool,
                                                      sat: (string, string) -> bool, range: string)
    requires forall x, y :: gt(x, y) ==> !gt(y, x)
    requires SortedKeys(p, versions, gt)
    requires !("latest" in p.distTags && p.distTags["latest"] != "")
    ensures forall v :: v in versions ==> (Fits(gt, sat, v, LatestVersion(p, versions), range) <==> sat(v, range))
  {
    forall v | v in versions
      ensures Fits(gt, sat, v, LatestVersion(p, versions), range) <==> sat(v, range)
    {
      var j :| 0 <= j < |versions| && versions[j] == v;
      assert LatestVersion(p, versions) == versions[0];
      if j > 0 {
        assert gt(versions[0], versions[j]);
      }
    }
  }

  // ---------------------------------------------------------------------------
  // The no-compatible-version message

  function Quote(s: string): string
  {
    "\"" + s + "\""
  }

  /** The elements of `JSON.stringify(vs)` between the brackets. Versions are
      taken to need no JSON escaping. */
  function JoinQuoted(vs: seq<string>): string
  {
    if |vs| == 0 then ""
    else if |vs| == 1 then Quote(vs[0])
    else Quote(vs[0]) + "," + JoinQuoted(vs[1..])
  }

  function JsonStringArray(vs: seq<string>): string
  {
    "[" + JoinQuoted(vs) + "]"
  }

  /** Where the quoted form of `vs[i]` starts inside JoinQuoted(vs). */
  function QuotedOffset(vs: seq<string>, i: nat): nat
    requires i <= |vs|
  {
    if i == 0 then 0 else |vs[0]| + 3 + QuotedOffset(vs[1..], i - 1)
  }

  function NoCompatibleVersionMessage(rawSpec: string, targets: seq<string>): string
  {
    "No compatible version found: " + rawSpec + "\n"
    + (if |targets| > 0 then "Valid install targets:\n" + JsonStringArray(targets) + "\n"
       else "No valid targets found.")
  }

  /** Each candidate appears, quoted, in JoinQuoted(vs) at QuotedOffset(vs, i). */
  lemma {:induction false} JoinQuotedAt(vs: seq<string>, i: nat)
    requires i < |vs|
    ensures QuotedOffset(vs, i) + |vs[i]| + 2 <= |JoinQuoted(vs)|
    ensures JoinQuoted(vs)[QuotedOffset(vs, i) .. QuotedOffset(vs, i) + |vs[i]| + 2] == Quote(vs[i])
  {
    if |vs| > 1 {
      var q := Quote(vs[0]);
      var rest := JoinQuoted(vs[1..]);
      StringAssoc(q, ",", rest);
      if i == 0 {
        SliceOfPrefix(q, "," + rest, 0, |q|);
      } else {
        JoinQuotedAt(vs[1..], i - 1);
        var s := QuotedOffset(vs[1..], i - 1);
        SliceOfConcat(q + ",", rest, s, s + |vs[i]| + 2);
      }
    }
  }

  lemma StringAssoc(a: string, b: string, c: string)
    ensures a + b + c == a + (b + c)
  {
  }

  /** Where the candidate list starts inside the message. */
  function TargetsStart(rawSpec: string): nat
  {
    |"No compatible version found: " + rawSpec + "\n" + "Valid install targets:\n" + "["|
  }

  /** The message says "No valid targets found." exactly when there are no candidates. */
  lemma MessageWithoutTargets(rawSpec: string, targets: seq<string>)
    ensures |targets| == 0 <==>
      NoCompatibleVersionMessage(rawSpec, targets)
        == "No compatible version found: " + rawSpec + "\n" + "No valid targets found."
  {
    var head := "No compatible version found: " + rawSpec + "\n";
    if |targets| > 0 {
      var m := NoCompatibleVersionMessage(rawSpec, targets);
      assert m[|head|] == 'V';
      assert (head + "No valid targets found.")[|head|] == 'N';
    }
  }

  /** The message names candidate `i`, quoted, at TargetsStart + QuotedOffset(targets, i);
      with OffsetIncreasing, the candidates appear in the order they are listed
      (descending, as SelectVersion passes them). */
  lemma {:induction false} MessageNamesTarget(rawSpec: string, targets: seq<string>, i: nat)
    requires i < |targets|
    ensures TargetsStart(rawSpec) + QuotedOffset(targets, i) + |targets[i]| + 2
              <= |NoCompatibleVersionMessage(rawSpec, targets)|
    ensures NoCompatibleVersionMessage(rawSpec, targets)
              [TargetsStart(rawSpec) + QuotedOffset(targets, i) .. TargetsStart(rawSpec) + QuotedOffset(targets, i) + |targets[i]| + 2]
            == Quote(targets[i])
  {
    JoinQuotedAt(targets, i);
    var j := JoinQuoted(targets);
    var s := QuotedOffset(targets, i);
    var e := s + |targets[i]| + 2;
    MessageAroundTargets(rawSpec, targets);
    SliceThrough(MessagePrefix(rawSpec), j, "]\n", s, e);
  }

  /** A slice of the middle part of `pre + (mid + post)`. */
  lemma SliceThrough(pre: string, mid: string, post: string, lo: nat, hi: nat)
    requires lo <= hi <= |mid|
    ensures |pre| + hi <= |pre + (mid + post)|
    ensures (pre + (mid + post))[|pre| + lo .. |pre| + hi] == mid[lo .. hi]
  {
    SliceOfConcat(pre, mid + post, lo, hi);
    SliceOfPrefix(mid, post, lo, hi);
  }

  /** The text before the candidate list. */
  function MessagePrefix(rawSpec: string): (pre: string)
    ensures |pre| == TargetsStart(rawSpec)
  {
    "No compatible version found: " + rawSpec + "\n" + "Valid install targets:\n" + "["
  }

  /** With candidates, the message is its prefix, the quoted list, and the
      closing bracket and line break. */
  lemma MessageAroundTargets(rawSpec: string, targets: seq<string>)
    requires |targets| > 0
    ensures NoCompatibleVersionMessage(rawSpec, targets) == MessagePrefix(rawSpec) + (JoinQuoted(targets) + "]\n")
  {
    Regroup("No compatible version found: " + rawSpec + "\n", "Valid install targets:\n", JoinQuoted(targets));
  }

  /** `a + (b + "[" + c + "]" + "\n")`, regrouped around `c`. */
  lemma Regroup(a: string, b: string, c: string)
    ensures a + (b + ("[" + c + "]") + "\n") == a + b + "[" + (c + "]\n")
  {
    var l := a + (b + ("[" + c + "]") + "\n");
    var r := a + b + "[" + (c + "]\n");
    assert |l| == |r|;
    forall k | 0 <= k < |l| ensures l[k] == r[k] {
      if k < |a| + |b| + 1 {
      } else if k < |a| + |b| + 1 + |c| {
      }
    }
  }

  lemma SliceOfConcat(a: string, b: string, lo: nat, hi: nat)
    requires lo <= hi <= |b|
    ensures (a + b)[|a| + lo .. |a| + hi] == b[lo .. hi]
  {
  }

  lemma SliceOfPrefix(a: string, b: string, lo: nat, hi: nat)
    requires lo <= hi <= |a|
    ensures (a + b)[lo .. hi] == a[lo .. hi]
  {
  }

  lemma {:induction false} OffsetIncreasing(vs: seq<string>, i: nat, j: nat)
    requires i < j <= |vs|
    ensures QuotedOffset(vs, i) < QuotedOffset(vs, j)
  {
    if i > 0 {
      OffsetIncreasing(vs[1..], i - 1, j - 1);
    }
  }

  // ---------------------------------------------------------------------------
  // Directory manifests

  /** The checks applied to a `package.json` read from a directory: a name, a
      version, and (when the descriptor names one) the expected name. A read
      error is passed through. */
  function FetchDirectoryPackageData(dep: Descriptor, read: Result<Manifest, FetchError>): (r: Result<Manifest, FetchError>)
    ensures read.Err? ==> r == read
    ensures read.Ok? ==>
      (r.Ok? <==> read.value.name != "" && read.value.version != ""
                  && (dep.name.None? || dep.name.value == "" || dep.name.value == read.value.name))
    ensures r.Ok? ==> r == read
    ensures read.Ok? && read.value.name == "" ==> r == Err(NoName(dep.rawSpec))
    ensures read.Ok? && read.value.name != "" && read.value.version == "" ==> r == Err(NoVersion(dep.rawSpec))
    ensures read.Ok? && read.value.name != "" && read.value.version != ""
            && dep.name.Some? && dep.name.value != "" && dep.name.value != read.value.name ==>
      r == Err(InvalidPackage(dep.name.value, read.value.name))
  {
    match read
    case Err(e) => Err(e)
    case Ok(data) =>
      if data.name == "" then Err(NoName(dep.rawSpec))
      else if data.version == "" then Err(NoVersion(dep.rawSpec))
      else if dep.name.Some? && dep.name.value != "" && dep.name.value != data.name then
        Err(InvalidPackage(dep.name.value, data.name))
      else Ok(data)
  }

  // ---------------------------------------------------------------------------
  // Hosted git

  /** The outcome of a hosted-git fetch and the locations tried, in order. */
  datatype HostedFetch = HostedFetch(result: Result<Manifest, FetchError>, tried: seq<string>)

  /** The registry-style direct URL first, then git over HTTPS, then git over
      SSH; the first success wins. */
  function FetchHostedGitPackageData(h: HostedUrls,
                                     registryGet: string -> Result<Manifest, FetchError>,
                                     remoteGit: string -> Result<Manifest, FetchError>): (f: HostedFetch)
    ensures 1 <= |f.tried| && f.tried <= [h.directUrl, h.httpsUrl, h.ssh]
    ensures f.result.Ok? <==> registryGet(h.directUrl).Ok? || remoteGit(h.httpsUrl).Ok? || remoteGit(h.ssh).Ok?
    ensures |f.tried| == 3 <==> registryGet(h.directUrl).Err? && remoteGit(h.httpsUrl).Err?
    ensures |f.tried| >= 2 ==> registryGet(h.directUrl).Err?
    ensures f.result == if |f.tried| == 1 then registryGet(h.directUrl) else remoteGit(f.tried[|f.tried| - 1])
  {
    var direct := registryGet(h.directUrl);
    if direct.Ok? then HostedFetch(direct, [h.directUrl])
    else
      var https := remoteGit(h.httpsUrl);
      if https.Ok? then HostedFetch(https, [h.directUrl, h.httpsUrl])
      else HostedFetch(remoteGit(h.ssh), [h.directUrl, h.httpsUrl, h.ssh])
  }

  // ---------------------------------------------------------------------------
  // Local tarballs

  datatype TarEntry = TarEntry(path: string, content: string)

  predicate IsLineTerminator(c: char)
  {
    c == '\n' || c == '\r' || c as int == 0x2028 || c as int == 0x2029
  }

  /** `/^(?:[^\/]+[\/])package.json$/` exactly as the source writes it: one
      directory level, then `package`, any character but a line terminator
      (the `.` is not escaped), then `json`. */
  predicate MatchesPackageJsonAsWritten(path: string)
  {
    |path| >= 14 &&
    var k := |path| - 13;
    && path[k] == '/'
    && (forall i :: 0 <= i < k ==> path[i] != '/')
    && path[k + 1 .. k + 8] == "package"
    && !IsLineTerminator(path[k + 8])
    && path[k + 9 ..] == "json"
  }

  /** The intended pattern: a `package.json` one directory below the root. */
  predicate IsTopLevelPackageJson(path: string)
  {
    |path| >= 14 &&
    var k := |path| - 13;
    && path[k] == '/'
    && (forall i :: 0 <= i < k ==> path[i] != '/')
    && path[k + 1 ..] == "package.json"
  }

  /** The unescaped `.` lets a file `json` in a directory `package` pass for
      the manifest. */
  lemma PackageJsonPatternTooLoose()
    ensures MatchesPackageJsonAsWritten("package/package/json")
    ensures !IsTopLevelPackageJson("package/package/json")
  {
    var p := "package/package/json";
    assert p[7] == '/' && p[15] == '/';
    assert p[8..15] == "package";
    assert p[16..] == "json";
  }

  /** The intended pattern only ever narrows the written one. */
  lemma IntendedPatternNarrower(path: string)
    ensures IsTopLevelPackageJson(path) ==> MatchesPackageJsonAsWritten(path)
  {
    if IsTopLevelPackageJson(path) {
      var k := |path| - 13;
      assert path[k + 1 ..] == "package.json";
      assert path[k + 1 .. k + 8] == path[k + 1 ..][.. 7];
      assert path[k + 8] == path[k + 1 ..][7];
      assert path[k + 9 ..] == path[k + 1 ..][8 ..];
    }
  }

  /** Entry `i` is the first entry whose path `matches` accepts. */
  ghost predicate FirstMatching(entries: seq<TarEntry>, i: int, matches: string -> bool)
  {
    && 0 <= i < |entries|
    && matches(entries[i].path)
    && forall j :: 0 <= j < i ==> !matches(entries[j].path)
  }

  /** The index of the first entry whose path `matches` accepts, or
      `|entries|` when there is none. */
  function FirstMatch(entries: seq<TarEntry>, matches: string -> bool): (i: nat)
    ensures i <= |entries|
    ensures i < |entries| ==> FirstMatching(entries, i, matches)
    ensures i == |entries| ==> forall j :: 0 <= j < |entries| ==> !matches(entries[j].path)
  {
    if |entries| == 0 || matches(entries[0].path) then 0
    else 1 + FirstMatch(entries[1..], matches)
  }

  /** Parsing the chosen entry: a parse failure is an EJSONPARSE error naming the file. */
  function ParseEntry(spec: string, e: TarEntry, parseJson: string -> Option<Manifest>): Result<Manifest, FetchError>
  {
    match parseJson(e.content)
    case None => Err(JsonParse(spec + "/" + e.path))
    case Some(m) => Ok(m)
  }

  /** The outcome of reading a tarball whose manifest entry is recognised by
      `matches`: only the first such entry is parsed, and an archive without
      one is an error. */
  function TarManifest(spec: string, entries: seq<TarEntry>, parseJson: string -> Option<Manifest>,
                       matches: string -> bool): (r: Result<Manifest, FetchError>)
    ensures (forall i :: 0 <= i < |entries| ==> !matches(entries[i].path)) ==> r == Err(NoPackageJsonFound(spec))
    ensures forall i :: FirstMatching(entries, i, matches) ==> r == ParseEntry(spec, entries[i], parseJson)
  {
    var i := FirstMatch(entries, matches);
    if i == |entries| then Err(NoPackageJsonFound(spec)) else ParseEntry(spec, entries[i], parseJson)
  }

  /** Walks the archive's entries with a found-flag, recognising the manifest
      with `matches`: the program passes the pattern as written,
      `MatchesPackageJsonAsWritten`; the corrected fetcher passes
      `IsTopLevelPackageJson`. */
  method FetchLocalTarPackageData(spec: string, entries: seq<TarEntry>, parseJson: string -> Option<Manifest>,
                                  matches: string -> bool)
    returns (r: Result<Manifest, FetchError>)
    ensures r == TarManifest(spec, entries, parseJson, matches)
  {
    var found := false;
    var chosen := 0;
    var i := 0;
    while i < |entries|
      invariant 0 <= i <= |entries|
      invariant !found ==> forall j :: 0 <= j < i ==> !matches(entries[j].path)
      invariant found ==> chosen < i && FirstMatching(entries, chosen, matches)
    {
      if !found && matches(entries[i].path) {
        found := true;
        chosen := i;
      }
      i := i + 1;
    }
    if !found {
      return Err(NoPackageJsonFound(spec));
    }
    r := ParseEntry(spec, entries[chosen], parseJson);
  }

  /** `pkg/packageXjson` passes the pattern as written but is no manifest. */
  lemma XjsonLooksLikeManifest()
    ensures MatchesPackageJsonAsWritten("pkg/packageXjson")
    ensures !IsTopLevelPackageJson("pkg/packageXjson")
  {
    var p := "pkg/packageXjson";
    assert p[3] == '/' && p[4..11] == "package" && p[12..] == "json";
    assert p[4..] != "package.json" by {
      assert p[4..][7] == 'X';
    }
  }

  lemma TopLevelManifest()
    ensures IsTopLevelPackageJson("pkg/package.json")
  {
    var p := "pkg/package.json";
    assert p[3] == '/' && p[4..] == "package.json";
  }

  /** An archive holding `pkg/packageXjson` before `pkg/package.json`: the
      pattern as written parses the first entry, the intended one the second. */
  lemma AsWrittenWalkParsesOtherEntry(spec: string, parseJson: string -> Option<Manifest>, a: string, b: string)
    ensures var entries := [TarEntry("pkg/packageXjson", a), TarEntry("pkg/package.json", b)];
            && TarManifest(spec, entries, parseJson, MatchesPackageJsonAsWritten) == ParseEntry(spec, entries[0], parseJson)
            && TarManifest(spec, entries, parseJson, IsTopLevelPackageJson) == ParseEntry(spec, entries[1], parseJson)
  {
    var entries := [TarEntry("pkg/packageXjson", a), TarEntry("pkg/package.json", b)];
    XjsonLooksLikeManifest();
    TopLevelManifest();
    assert FirstMatching(entries, 0, MatchesPackageJsonAsWritten);
    assert FirstMatching(entries, 1, IsTopLevelPackageJson);
  }

  /** The two walks part only over an entry that the written pattern accepts
      and the intended one does not: without such an entry they return the same. */
  lemma WalksAgree(spec: string, entries: seq<TarEntry>, parseJson: string -> Option<Manifest>)
    requires forall i :: 0 <= i < |entries| && MatchesPackageJsonAsWritten(entries[i].path) ==>
                         IsTopLevelPackageJson(entries[i].path)
    ensures TarManifest(spec, entries, parseJson, MatchesPackageJsonAsWritten)
         == TarManifest(spec, entries, parseJson, IsTopLevelPackageJson)
  {
    forall i | 0 <= i < |entries|
      ensures MatchesPackageJsonAsWritten(entries[i].path) == IsTopLevelPackageJson(entries[i].path)
    {
      IntendedPatternNarrower(entries[i].path);
    }
    assert FirstMatch(entries, MatchesPackageJsonAsWritten) == FirstMatch(entries, IsTopLevelPackageJson);
  }

  /** The `local` branch of the fetcher: a failed `stat` is passed through, a
      directory is an ENOPACKAGEJSON error, anything else is read as a tarball.
      `stat` holds whether the path is a directory. */
  method FetchLocalPackageData(dep: Descriptor, stat: Result<bool, FetchError>,
                               entries: seq<TarEntry>, parseJson: string -> Option<Manifest>)
    returns (r: Result<Manifest, FetchError>)
    ensures stat.Err? ==> r == Err(stat.error)
    ensures stat == Ok(true) ==> r == Err(MissingPackageJson(dep.spec)) && Code(r.error) == "ENOPACKAGEJSON"
    ensures stat == Ok(false) ==> r == TarManifest(dep.spec, entries, parseJson, IsTopLevelPackageJson)
    ensures stat == Ok(false) && (forall i :: 0 <= i < |entries| ==> !IsTopLevelPackageJson(entries[i].path)) ==>
      r == Err(NoPackageJsonFound(dep.spec))
    ensures stat == Ok(false) ==>
      forall i :: FirstMatching(entries, i, IsTopLevelPackageJson) ==> r == ParseEntry(dep.spec, entries[i], parseJson)
  {
    match stat
    case Err(e) =>
      return Err(e);
    case Ok(isDirectory) =>
      if isDirectory {
        return Err(MissingPackageJson(dep.spec));
      }
      r := FetchLocalTarPackageData(dep.spec, entries, parseJson, IsTopLevelPackageJson);
  }
}
