/**
 * `bind_crate_packages`: the Cargo packages of a candidate against the fixed publish
 * order. What acceptance means for publishing one prefix of that order after another.
 */
module CratePackages {
  import opened Basics

  /** Fields a JSON entry may lack are options; a row that is no object is `Malformed`. */
  datatype Dependency = MalformedDependency | Dependency(kind: Option<string>, name: Option<string>)

  datatype LockRow =
    | MalformedLock
    | LockRow(name: Option<string>, version: Option<string>, source: Option<string>, checksum: Option<string>)

  datatype Ui = Ui(sha256: Option<string>, fileCount: Option<int>, packageVersion: Option<string>)

  datatype Artifact = Artifact(
    kind: string, packageName: Option<string>, packageVersion: Option<string>, publishOrder: Option<int>,
    sha256: Option<string>, sourceCommit: Option<string>, sourceDirty: Option<bool>,
    dependencies: Option<seq<Dependency>>, lock: Option<seq<LockRow>>, ui: Ui, uiPlaceholder: Option<bool>)

  const CRATE_KIND := "cargo_crate_package"
  const CRATES_IO := "registry+https://github.com/rust-lang/crates.io-index"

  /** `PUBLISHED_CRATE_ORDER`. */
  const ORDER: seq<string> := ["m1nd-core", "m1nd-control", "m1nd-ingest", "m1nd-mcp"]

  function ExpectedEdges(name: string): set<string> {
    if name == "m1nd-ingest" then {"m1nd-core"}
    else if name == "m1nd-mcp" then {"m1nd-control", "m1nd-core", "m1nd-ingest"}
    else {}
  }

  datatype Release = Release(version: string, commit: string, ui: Ui)

  type Packages = map<string, Artifact>

  lemma OrderDistinct()
    ensures Distinct(ORDER)
  {}

  // ------------------------------------------------------------ the checks

  predicate IsDev(d: Dependency)
    requires d.Dependency?
  {
    d.kind == Some("dev")
  }

  /** One dependency row: a development one, or one published earlier. */
  predicate DependencyOk(d: Dependency, earlier: set<string>) {
    d.Dependency? && (IsDev(d) || (d.name.Some? && d.name.value in earlier))
  }

  /** The first loop's checks of the package at a position. */
  predicate PackageOk(e: Artifact, position: nat, r: Release)
    requires position < |ORDER|
  {
    && e.publishOrder == Some(position + 1)
    && e.sourceCommit == Some(r.commit)
    && e.sourceDirty.Some?
    && (ORDER[position] in {"m1nd-core", "m1nd-ingest", "m1nd-mcp"} ==> e.packageVersion == Some(r.version))
    && e.dependencies.Some?
    && forall i :: 0 <= i < |e.dependencies.value| ==>
         DependencyOk(e.dependencies.value[i], set k | 0 <= k < position :: ORDER[k])
  }

  /** Names of the dependencies other than development ones. */
  function Edges(e: Artifact): set<Option<string>> {
    if e.dependencies.None? then {}
    else
      set i | 0 <= i < |e.dependencies.value| && e.dependencies.value[i].Dependency? && !IsDev(e.dependencies.value[i])
        :: e.dependencies.value[i].name
  }

  /** Names of all dependencies. */
  function Declared(e: Artifact): set<Option<string>> {
    if e.dependencies.None? then {}
    else set i | 0 <= i < |e.dependencies.value| && e.dependencies.value[i].Dependency? :: e.dependencies.value[i].name
  }

  function Somes(names: set<string>): set<Option<string>> {
    set n | n in names :: Some(n)
  }

  /** One lock row pins the version, bytes and registry of a package of this candidate. */
  predicate Pins(row: LockRow, pkgs: Packages) {
    && row.LockRow? && row.name.Some? && row.name.value in pkgs
    && row.version == pkgs[row.name.value].packageVersion
    && row.checksum == pkgs[row.name.value].sha256
    && row.source == Some(CRATES_IO)
  }

  function LockNames(rows: seq<LockRow>): set<Option<string>> {
    set i | 0 <= i < |rows| && rows[i].LockRow? :: rows[i].name
  }

  /** The lock rows: distinct names, exactly the declared ones, each pinned. */
  predicate LockOk(e: Artifact, pkgs: Packages) {
    && e.lock.Some?
    && (forall i, j :: 0 <= i < j < |e.lock.value| ==>
          e.lock.value[i].LockRow? && e.lock.value[j].LockRow? && e.lock.value[i].name != e.lock.value[j].name)
    && (forall i :: 0 <= i < |e.lock.value| ==> Pins(e.lock.value[i], pkgs))
    && LockNames(e.lock.value) == Declared(e)
    && None !in Declared(e)
  }

  predicate UiOk(e: Artifact, r: Release) {
    e.ui == r.ui && e.uiPlaceholder == Some(false)
  }

  function CrateEntries(artifacts: seq<Artifact>): seq<Artifact> {
    if artifacts == [] then []
    else (if artifacts[0].kind == CRATE_KIND then [artifacts[0]] else []) + CrateEntries(artifacts[1..])
  }

  lemma {:induction false} CrateEntriesAre(artifacts: seq<Artifact>, e: Artifact)
    ensures e in CrateEntries(artifacts) <==> e in artifacts && e.kind == CRATE_KIND
  {
    if artifacts != [] {
      CrateEntriesAre(artifacts[1..], e);
      assert artifacts == [artifacts[0]] + artifacts[1..];
    }
  }

  /** Every entry is named and no name repeats. */
  predicate WellNamed(entries: seq<Artifact>) {
    && (forall i :: 0 <= i < |entries| ==> entries[i].packageName.Some?)
    && (forall i, j :: 0 <= i < j < |entries| ==> entries[i].packageName != entries[j].packageName)
  }

  function ByName(entries: seq<Artifact>): (pkgs: Packages)
    requires WellNamed(entries)
    ensures forall i :: 0 <= i < |entries| ==>
      entries[i].packageName.value in pkgs && pkgs[entries[i].packageName.value] == entries[i]
    ensures forall n :: n in pkgs ==> pkgs[n] in entries && pkgs[n].packageName == Some(n)
  {
    map i | 0 <= i < |entries| :: entries[i].packageName.value := entries[i]
  }

  /** What it means for the packages to be bound to the release. */
  predicate PackagesBound(pkgs: Packages, r: Release) {
    && pkgs.Keys == (set k | 0 <= k < |ORDER| :: ORDER[k])
    && forall k :: 0 <= k < |ORDER| ==>
         && PackageOk(pkgs[ORDER[k]], k, r)
         && Edges(pkgs[ORDER[k]]) == Somes(ExpectedEdges(ORDER[k]))
         && LockOk(pkgs[ORDER[k]], pkgs)
         && (k == 3 ==> UiOk(pkgs[ORDER[k]], r))
  }

  predicate Bound(artifacts: seq<Artifact>, r: Release) {
    var entries := CrateEntries(artifacts);
    WellNamed(entries) && PackagesBound(ByName(entries), r)
  }

  // ------------------------------------------------------------- the loops

  /** The map after `i` turns: the packages so far, all named and apart, and nothing else. */
  ghost predicate Filled(m: Packages, entries: seq<Artifact>, i: nat)
    requires i <= |entries|
  {
    && (forall k :: 0 <= k < i ==> entries[k].packageName.Some?)
    && (forall k, l :: 0 <= k < l < i ==> entries[k].packageName != entries[l].packageName)
    && (forall k :: 0 <= k < i ==> entries[k].packageName.value in m && m[entries[k].packageName.value] == entries[k])
    && (forall n :: n in m ==> exists k :: 0 <= k < i && entries[k].packageName == Some(n))
  }

  lemma FilledSnoc(m: Packages, entries: seq<Artifact>, i: nat)
    requires i < |entries| && Filled(m, entries, i) && entries[i].packageName.Some?
    requires entries[i].packageName.value !in m
    ensures Filled(m[entries[i].packageName.value := entries[i]], entries, i + 1)
  {
    var name, next := entries[i].packageName.value, m[entries[i].packageName.value := entries[i]];
    forall k | 0 <= k < i ensures entries[k].packageName != Some(name) {
      assert entries[k].packageName.value in m;
    }
    forall n | n in next ensures exists k :: 0 <= k < i + 1 && entries[k].packageName == Some(n) {
      if n != name { assert n in m; }
    }
  }

  lemma NamedTwice(m: Packages, entries: seq<Artifact>, i: nat)
    requires i < |entries| && Filled(m, entries, i) && entries[i].packageName.Some?
    requires entries[i].packageName.value in m
    ensures !WellNamed(entries)
  {}

  /** The loop that fills `by_name`. */
  method FillByName(entries: seq<Artifact>) returns (pkgs: Option<Packages>)
    ensures pkgs.Some? <==> WellNamed(entries)
    ensures pkgs.Some? ==> pkgs.value == ByName(entries)
  {
    hide Filled, ByName;
    var m: Packages := map[];
    var i := 0;
    NothingFilled(entries);
    while i < |entries|
      invariant 0 <= i <= |entries|
      invariant Filled(m, entries, i)
    {
      var name := entries[i].packageName;
      if name.None? {
        return None;
      }
      if name.value in m {
        NamedTwice(m, entries, i);
        return None;
      }
      FilledSnoc(m, entries, i);
      m := m[name.value := entries[i]];
      i := i + 1;
    }
    SamePackages(entries, m);
    return Some(m);
  }

  lemma NothingFilled(entries: seq<Artifact>)
    ensures Filled(map[], entries, 0)
  {}

  lemma SamePackages(entries: seq<Artifact>, m: Packages)
    requires Filled(m, entries, |entries|)
    ensures WellNamed(entries) && m == ByName(entries)
  {}

  /** The loop over lock rows, with its dictionary of names seen. */
  method CheckLock(e: Artifact, pkgs: Packages) returns (ok: bool)
    requires None !in Declared(e)
    ensures ok <==> LockOk(e, pkgs)
  {
    if e.lock.None? {
      return false;
    }
    var rows := e.lock.value;
    var lockByName: map<string, LockRow> := map[];
    var i := 0;
    while i < |rows|
      invariant 0 <= i <= |rows|
      invariant forall k :: 0 <= k < i ==> rows[k].LockRow? && rows[k].name.Some? && rows[k].name.value in lockByName
      invariant forall k, l :: 0 <= k < l < i ==> rows[k].name != rows[l].name
      invariant forall n :: n in lockByName ==> exists k :: 0 <= k < i && rows[k].name == Some(n) && lockByName[n] == rows[k]
    {
      if rows[i].MalformedLock? || rows[i].name.None? {
        assert !Pins(rows[i], pkgs);
        return false;
      }
      var name := rows[i].name.value;
      if name in lockByName {
        return false;
      }
      lockByName := lockByName[name := rows[i]];
      i := i + 1;
    }
    if LockNames(rows) != Declared(e) {
      return false;
    }
    ok := forall k :: 0 <= k < |rows| ==> Pins(rows[k], pkgs);
  }

  /** The first loop: the packages in publish order. */
  method OrderPackages(pkgs: Packages, r: Release) returns (ordered: Option<seq<Artifact>>)
    requires forall k :: 0 <= k < |ORDER| ==> ORDER[k] in pkgs
    ensures ordered.Some? <==> forall k :: 0 <= k < |ORDER| ==> PackageOk(pkgs[ORDER[k]], k, r)
    ensures ordered.Some? ==>
      |ordered.value| == |ORDER| && forall k :: 0 <= k < |ORDER| ==> ordered.value[k] == pkgs[ORDER[k]]
  {
    hide PackageOk;
    var result: seq<Artifact> := [];
    var position := 0;
    while position < |ORDER|
      invariant 0 <= position <= |ORDER| && |result| == position
      invariant forall k :: 0 <= k < position ==> result[k] == pkgs[ORDER[k]] && PackageOk(pkgs[ORDER[k]], k, r)
    {
      var e := pkgs[ORDER[position]];
      if !PackageOk(e, position, r) {
        return None;
      }
      result := result + [e];
      position := position + 1;
    }
    return Some(result);
  }

  /** The second loop: exact edges and pinned locks. */
  method CheckEdges(pkgs: Packages) returns (ok: bool)
    requires forall k :: 0 <= k < |ORDER| ==> ORDER[k] in pkgs
    ensures ok <==> forall k :: 0 <= k < |ORDER| ==>
      Edges(pkgs[ORDER[k]]) == Somes(ExpectedEdges(ORDER[k])) && LockOk(pkgs[ORDER[k]], pkgs)
  {
    hide Edges, LockOk, Declared, ExpectedEdges;
    var position := 0;
    while position < |ORDER|
      invariant 0 <= position <= |ORDER|
      invariant forall k :: 0 <= k < position ==>
        Edges(pkgs[ORDER[k]]) == Somes(ExpectedEdges(ORDER[k])) && LockOk(pkgs[ORDER[k]], pkgs)
    {
      var e := pkgs[ORDER[position]];
      if Edges(e) != Somes(ExpectedEdges(ORDER[position])) {
        return false;
      }
      if None in Declared(e) {
        LockNeedsNames(e, pkgs);
        return false;
      }
      var pinned := CheckLock(e, pkgs);
      if !pinned {
        return false;
      }
      position := position + 1;
    }
    return true;
  }

  /** `bind_crate_packages`: the packages in publish order, or a refusal. */
  method BindCratePackages(artifacts: seq<Artifact>, r: Release) returns (ordered: Option<seq<Artifact>>)
    ensures ordered.Some? <==> Bound(artifacts, r)
    ensures ordered.Some? ==>
      && |ordered.value| == |ORDER|
      && forall k :: 0 <= k < |ORDER| ==>
           ordered.value[k] in artifacts && ordered.value[k].packageName == Some(ORDER[k])
  {
    hide PackageOk, Edges, LockOk, UiOk, ExpectedEdges;
    var entries := CrateEntries(artifacts);
    var filled := FillByName(entries);
    if filled.None? {
      return None;
    }
    var pkgs := filled.value;
    if pkgs.Keys != set k | 0 <= k < |ORDER| :: ORDER[k] {
      return None;
    }
    assert forall k :: 0 <= k < |ORDER| ==> ORDER[k] in pkgs.Keys;
    ordered := OrderPackages(pkgs, r);
    if ordered.None? {
      return None;
    }
    var ok := CheckEdges(pkgs);
    if !ok || !UiOk(pkgs[ORDER[3]], r) {
      return None;
    }
    forall k | 0 <= k < |ORDER|
      ensures ordered.value[k] in artifacts && ordered.value[k].packageName == Some(ORDER[k])
    {
      CrateEntriesAre(artifacts, ordered.value[k]);
    }
  }

  lemma LockNeedsNames(e: Artifact, pkgs: Packages)
    requires None in Declared(e)
    ensures !LockOk(e, pkgs)
  {}

  // --------------------------------------------------- what acceptance means

  /** A dependency row other than a development one names the package. */
  predicate DependsOn(e: Artifact, name: string) {
    && e.dependencies.Some?
    && exists i :: 0 <= i < |e.dependencies.value| && e.dependencies.value[i].Dependency?
         && e.dependencies.value[i].kind != Some("dev") && e.dependencies.value[i].name == Some(name)
  }

  /** `a` needs `b` to be published first. */
  predicate Needs(pkgs: Packages, a: string, b: string) {
    a in pkgs && DependsOn(pkgs[a], b)
  }

  lemma EdgesLaw(e: Artifact, name: string)
    ensures Some(name) in Edges(e) <==> DependsOn(e, name)
  {
    if DependsOn(e, name) {
      var i :| 0 <= i < |e.dependencies.value| && e.dependencies.value[i].Dependency?
               && e.dependencies.value[i].kind != Some("dev") && e.dependencies.value[i].name == Some(name);
    }
  }

  /** A chain of such dependencies. */
  ghost predicate Chain(pkgs: Packages, names: seq<string>) {
    forall k :: 0 <= k < |names| - 1 ==> Needs(pkgs, names[k], names[k+1])
  }

  /** A direct dependency sits strictly earlier in the publish order. */
  lemma NeedsEarlier(pkgs: Packages, r: Release, i: nat, b: string)
    requires PackagesBound(pkgs, r) && i < |ORDER| && Needs(pkgs, ORDER[i], b)
    ensures exists j :: 0 <= j < i && ORDER[j] == b
  {
    EdgesLaw(pkgs[ORDER[i]], b);
  }

  /**
   * Every prefix of the publish order is closed under transitive dependencies: a chain that
   * starts in the prefix stays in it, and never comes back to a package it has passed.
   */
  lemma {:induction false} PrefixClosed(pkgs: Packages, r: Release, names: seq<string>, n: nat)
    requires PackagesBound(pkgs, r) && Chain(pkgs, names) && names != []
    requires n <= |ORDER| && exists i :: 0 <= i < n && ORDER[i] == names[0]
    ensures forall k :: 0 <= k < |names| ==> exists j :: 0 <= j < n - k && ORDER[j] == names[k]
    decreases |names|
  {
    hide PackagesBound;
    var i :| 0 <= i < n && ORDER[i] == names[0];
    if |names| > 1 {
      assert Needs(pkgs, names[0], names[1]);
      NeedsEarlier(pkgs, r, i, names[1]);
      var j :| 0 <= j < i && ORDER[j] == names[1];
      var rest := names[1..];
      forall k | 0 <= k < |rest| - 1 ensures Needs(pkgs, rest[k], rest[k+1]) {
        assert Needs(pkgs, names[k+1], names[k+2]);
      }
      PrefixClosed(pkgs, r, rest, n - 1);
      forall k | 0 <= k < |names| ensures exists j :: 0 <= j < n - k && ORDER[j] == names[k] {
        if k > 0 { assert names[k] == rest[k-1]; }
      }
    }
  }

  /** No package needs itself through any chain. */
  lemma Acyclic(pkgs: Packages, r: Release, names: seq<string>)
    requires PackagesBound(pkgs, r) && Chain(pkgs, names) && |names| > 1 && names[0] in ORDER
    ensures names[|names| - 1] != names[0]
  {
    hide PackagesBound;
    var i :| 0 <= i < |ORDER| && ORDER[i] == names[0];
    PrefixClosed(pkgs, r, names, i + 1);
    OrderDistinct();
  }

  /** Every lock row of an accepted candidate names one of its packages, by version and bytes. */
  lemma LocksPinned(artifacts: seq<Artifact>, r: Release, e: Artifact, row: LockRow)
    requires Bound(artifacts, r)
    requires e in artifacts && e.kind == CRATE_KIND && e.lock.Some? && row in e.lock.value
    ensures row.LockRow? && row.name.Some? && row.source == Some(CRATES_IO)
    ensures exists p :: p in artifacts && p.kind == CRATE_KIND && p.packageName == row.name
                     && row.version == p.packageVersion && row.checksum == p.sha256
    ensures forall p, q | p in artifacts && q in artifacts && p.kind == CRATE_KIND && q.kind == CRATE_KIND ::
      p.packageName == q.packageName ==> p == q
  {
    hide PackageOk, Edges, UiOk;
    var entries := CrateEntries(artifacts);
    var pkgs := ByName(entries);
    CrateEntriesAre(artifacts, e);
    var i :| 0 <= i < |entries| && entries[i] == e;
    var name := e.packageName.value;
    assert name in pkgs && pkgs[name] == e;
    assert name in set k | 0 <= k < |ORDER| :: ORDER[k];
    var k :| 0 <= k < |ORDER| && ORDER[k] == name;
    assert LockOk(e, pkgs);
    var l :| 0 <= l < |e.lock.value| && e.lock.value[l] == row;
    assert Pins(row, pkgs);
    CrateEntriesAre(artifacts, pkgs[row.name.value]);
    forall p, q | p in artifacts && q in artifacts && p.kind == CRATE_KIND && q.kind == CRATE_KIND
      && p.packageName == q.packageName
      ensures p == q
    {
      CrateEntriesAre(artifacts, p);
      CrateEntriesAre(artifacts, q);
    }
  }
}
