/**
 * What `bind_crate_packages` accepts, in literals: four packages, their order, their rows
 * and their locks, spelled out without the checks of the loops.
 */
module CrateLaws {
  import opened Basics
  import Sorting
  import opened CratePackages

  /** Some dependency row, of whatever kind, names the package. */
  predicate Mentions(e: Artifact, name: string) {
    && e.dependencies.Some?
    && exists i :: 0 <= i < |e.dependencies.value| && e.dependencies.value[i].Dependency?
         && e.dependencies.value[i].name == Some(name)
  }

  /** Every dependency row is an object with a name. */
  predicate NamedRows(e: Artifact) {
    e.dependencies.Some? && forall i :: 0 <= i < |e.dependencies.value| ==>
      e.dependencies.value[i].Dependency? && e.dependencies.value[i].name.Some?
  }

  /** A lock row pins a package of the candidate. */
  predicate Pinned(row: LockRow, p: Artifact) {
    && row.LockRow? && row.name == p.packageName && row.version == p.packageVersion && row.checksum == p.sha256
    && row.source == Some("registry+https://github.com/rust-lang/crates.io-index")
  }

  predicate Locks(e: Artifact, name: string) {
    && e.lock.Some?
    && exists i :: 0 <= i < |e.lock.value| && e.lock.value[i].LockRow? && e.lock.value[i].name == Some(name)
  }

  /** The lock rows name what the dependency rows mention, once each, and pin it. */
  ghost predicate LockedTo(e: Artifact, core: Artifact, control: Artifact, ingest: Artifact, mcp: Artifact) {
    && e.lock.Some?
    && (forall i :: 0 <= i < |e.lock.value| ==>
          || Pinned(e.lock.value[i], core) || Pinned(e.lock.value[i], control)
          || Pinned(e.lock.value[i], ingest) || Pinned(e.lock.value[i], mcp))
    && (forall i, j :: 0 <= i < j < |e.lock.value| ==>
          e.lock.value[i].LockRow? && e.lock.value[j].LockRow? ==> e.lock.value[i].name != e.lock.value[j].name)
    && forall name :: Locks(e, name) <==> Mentions(e, name)
  }

  predicate FromCommit(e: Artifact, r: Release) {
    e.sourceCommit == Some(r.commit) && e.sourceDirty.Some?
  }

  ghost predicate Publishable(core: Artifact, control: Artifact, ingest: Artifact, mcp: Artifact, r: Release) {
    && core.packageName == Some("m1nd-core") && control.packageName == Some("m1nd-control")
    && ingest.packageName == Some("m1nd-ingest") && mcp.packageName == Some("m1nd-mcp")
    && core.publishOrder == Some(1) && control.publishOrder == Some(2)
    && ingest.publishOrder == Some(3) && mcp.publishOrder == Some(4)
    && FromCommit(core, r) && FromCommit(control, r) && FromCommit(ingest, r) && FromCommit(mcp, r)
    && core.packageVersion == Some(r.version) && ingest.packageVersion == Some(r.version)
    && mcp.packageVersion == Some(r.version)
    && NamedRows(core) && NamedRows(control) && NamedRows(ingest) && NamedRows(mcp)
    && (forall name :: !DependsOn(core, name) && !DependsOn(control, name))
    && (forall name :: DependsOn(ingest, name) <==> name == "m1nd-core")
    && (forall name :: DependsOn(mcp, name) <==> name == "m1nd-core" || name == "m1nd-control" || name == "m1nd-ingest")
    && LockedTo(core, core, control, ingest, mcp) && LockedTo(control, core, control, ingest, mcp)
    && LockedTo(ingest, core, control, ingest, mcp) && LockedTo(mcp, core, control, ingest, mcp)
    && mcp.ui == r.ui && mcp.uiPlaceholder == Some(false)
  }

  /** The four packages of a map by name. */
  ghost predicate Four(pkgs: Packages, core: Artifact, control: Artifact, ingest: Artifact, mcp: Artifact) {
    && pkgs.Keys == {"m1nd-core", "m1nd-control", "m1nd-ingest", "m1nd-mcp"}
    && pkgs["m1nd-core"] == core && pkgs["m1nd-control"] == control
    && pkgs["m1nd-ingest"] == ingest && pkgs["m1nd-mcp"] == mcp
    && core.packageName == Some("m1nd-core") && control.packageName == Some("m1nd-control")
    && ingest.packageName == Some("m1nd-ingest") && mcp.packageName == Some("m1nd-mcp")
  }

  lemma Names()
    ensures |"m1nd-core"| == 9 && |"m1nd-control"| == 12 && |"m1nd-ingest"| == 11 && |"m1nd-mcp"| == 8
    ensures ORDER == ["m1nd-core", "m1nd-control", "m1nd-ingest", "m1nd-mcp"]
    ensures (set k | 0 <= k < |ORDER| :: ORDER[k]) == {"m1nd-core", "m1nd-control", "m1nd-ingest", "m1nd-mcp"}
  {
    var s := set k | 0 <= k < |ORDER| :: ORDER[k];
    assert ORDER[0] in s && ORDER[1] in s && ORDER[2] in s && ORDER[3] in s;
  }

  lemma MentionsLaw(e: Artifact, name: string)
    ensures Some(name) in Declared(e) <==> Mentions(e, name)
  {
    if Mentions(e, name) {
      var i :| 0 <= i < |e.dependencies.value| && e.dependencies.value[i].Dependency?
               && e.dependencies.value[i].name == Some(name);
    }
  }

  lemma PinsLaw(row: LockRow, pkgs: Packages, core: Artifact, control: Artifact, ingest: Artifact, mcp: Artifact)
    requires Four(pkgs, core, control, ingest, mcp)
    ensures Pins(row, pkgs) <==> Pinned(row, core) || Pinned(row, control) || Pinned(row, ingest) || Pinned(row, mcp)
  {
    Names();
  }

  /** The lock check in literals, for a package whose rows are all named. */
  lemma LockLaw(e: Artifact, pkgs: Packages, core: Artifact, control: Artifact, ingest: Artifact, mcp: Artifact)
    requires Four(pkgs, core, control, ingest, mcp) && NamedRows(e)
    ensures LockOk(e, pkgs) <==> LockedTo(e, core, control, ingest, mcp)
  {
    hide Four, Pins, Pinned;
    forall row ensures Pins(row, pkgs) <==> Pinned(row, core) || Pinned(row, control) || Pinned(row, ingest) || Pinned(row, mcp) {
      PinsLaw(row, pkgs, core, control, ingest, mcp);
    }
    forall row | Pins(row, pkgs) ensures row.LockRow? && row.name.Some? { PinsNames(row, pkgs); }
    forall name ensures Some(name) in Declared(e) <==> Mentions(e, name) { MentionsLaw(e, name); }
    NoneDeclared(e);
    if e.lock.Some? {
      forall name ensures Some(name) in LockNames(e.lock.value) <==> Locks(e, name) { LocksLaw(e, name); }
      if forall i :: 0 <= i < |e.lock.value| ==> Pins(e.lock.value[i], pkgs) { NoneLocked(e.lock.value, pkgs); }
    }
  }

  lemma PinsNames(row: LockRow, pkgs: Packages)
    requires Pins(row, pkgs)
    ensures row.LockRow? && row.name.Some?
  {}

  lemma NoneDeclared(e: Artifact)
    requires NamedRows(e)
    ensures None !in Declared(e)
  {}

  lemma NoneLocked(rows: seq<LockRow>, pkgs: Packages)
    requires forall i :: 0 <= i < |rows| ==> Pins(rows[i], pkgs)
    ensures None !in LockNames(rows)
  {}

  lemma LocksLaw(e: Artifact, name: string)
    requires e.lock.Some?
    ensures Some(name) in LockNames(e.lock.value) <==> Locks(e, name)
  {
    if Locks(e, name) {
      var i :| 0 <= i < |e.lock.value| && e.lock.value[i].LockRow? && e.lock.value[i].name == Some(name);
    }
  }

  /** What the package at a place of the publish order must depend on. */
  predicate Wanted(position: nat, name: string) {
    || (position == 2 && name == "m1nd-core")
    || (position == 3 && (name == "m1nd-core" || name == "m1nd-control" || name == "m1nd-ingest"))
  }

  /** The checks of one package in literals, but for its lock. */
  ghost predicate PackageSpelled(e: Artifact, position: nat, r: Release) {
    && e.publishOrder == Some(position + 1) && FromCommit(e, r)
    && (position != 1 ==> e.packageVersion == Some(r.version))
    && NamedRows(e)
    && forall name :: DependsOn(e, name) <==> Wanted(position, name)
  }

  lemma WantedExactly(position: nat, name: string)
    requires position < 4
    ensures Some(name) in Somes(ExpectedEdges(ORDER[position])) <==> Wanted(position, name)
  {
    Names();
    var expected := ExpectedEdges(ORDER[position]);
    assert name in expected <==> Wanted(position, name);
  }

  lemma WantedEarlier(position: nat, name: string)
    requires position < 4 && Wanted(position, name)
    ensures name in set k | 0 <= k < position :: ORDER[k]
  {
    Names();
    assert ORDER[0] == "m1nd-core" && ORDER[1] == "m1nd-control" && ORDER[2] == "m1nd-ingest";
  }

  lemma EdgesExactly(e: Artifact, position: nat)
    requires position < 4 && NamedRows(e)
    ensures Edges(e) == Somes(ExpectedEdges(ORDER[position])) <==> forall name :: DependsOn(e, name) <==> Wanted(position, name)
  {
    hide ExpectedEdges, DependsOn, Wanted;
    var a, b := Edges(e), Somes(ExpectedEdges(ORDER[position]));
    forall name ensures Some(name) in a <==> DependsOn(e, name) { EdgesLaw(e, name); }
    forall name ensures Some(name) in b <==> Wanted(position, name) { WantedExactly(position, name); }
    assert None !in a && None !in b;
    if forall name :: DependsOn(e, name) <==> Wanted(position, name) {
      forall x ensures x in a <==> x in b { if x.Some? { assert x == Some(x.value); } }
    }
  }

  lemma PackageLaw(e: Artifact, position: nat, r: Release)
    requires position < 4
    ensures PackageOk(e, position, r) && Edges(e) == Somes(ExpectedEdges(ORDER[position])) && None !in Declared(e)
      <==> PackageSpelled(e, position, r)
  {
    hide Edges, ExpectedEdges, Wanted, Somes;
    Names();
    if NamedRows(e) {
      EdgesExactly(e, position);
      NoneDeclared(e);
      if forall name :: DependsOn(e, name) <==> Wanted(position, name) { RowsEarlier(e, position); }
    } else if PackageOk(e, position, r) && None !in Declared(e) {
      RowsNamed(e, position, r);
    }
  }

  lemma RowsNamed(e: Artifact, position: nat, r: Release)
    requires position < 4 && e.dependencies.Some? && None !in Declared(e) && PackageOk(e, position, r)
    ensures NamedRows(e)
  {
    forall i | 0 <= i < |e.dependencies.value| ensures e.dependencies.value[i].Dependency? && e.dependencies.value[i].name.Some? {
      assert DependencyOk(e.dependencies.value[i], set k | 0 <= k < position :: ORDER[k]);
      assert e.dependencies.value[i].name in Declared(e);
    }
  }

  lemma RowsEarlier(e: Artifact, position: nat)
    requires position < 4 && NamedRows(e) && forall name :: DependsOn(e, name) <==> Wanted(position, name)
    ensures forall i :: 0 <= i < |e.dependencies.value| ==>
      DependencyOk(e.dependencies.value[i], set k | 0 <= k < position :: ORDER[k])
  {
    forall i | 0 <= i < |e.dependencies.value|
      ensures DependencyOk(e.dependencies.value[i], set k | 0 <= k < position :: ORDER[k])
    {
      var row := e.dependencies.value[i];
      if row.kind != Some("dev") {
        assert DependsOn(e, row.name.value);
        WantedEarlier(position, row.name.value);
      }
    }
  }

  /** The packages of an accepted list, spelled out. */
  lemma PackagesLaw(pkgs: Packages, core: Artifact, control: Artifact, ingest: Artifact, mcp: Artifact, r: Release)
    requires Four(pkgs, core, control, ingest, mcp)
    ensures PackagesBound(pkgs, r) <==> Publishable(core, control, ingest, mcp, r)
  {
    hide PackageOk, Edges, LockOk, LockedTo, ExpectedEdges, Somes, Declared, PackageSpelled;
    Names();
    assert pkgs.Keys == {"m1nd-core", "m1nd-control", "m1nd-ingest", "m1nd-mcp"};
    assert pkgs[ORDER[0]] == core && pkgs[ORDER[1]] == control && pkgs[ORDER[2]] == ingest && pkgs[ORDER[3]] == mcp;
    OnePackage(core, 0, pkgs, core, control, ingest, mcp, r);
    OnePackage(control, 1, pkgs, core, control, ingest, mcp, r);
    OnePackage(ingest, 2, pkgs, core, control, ingest, mcp, r);
    OnePackage(mcp, 3, pkgs, core, control, ingest, mcp, r);
    Spelled(core, control, ingest, mcp, r);
  }

  lemma OnePackage(e: Artifact, position: nat, pkgs: Packages, core: Artifact, control: Artifact, ingest: Artifact, mcp: Artifact, r: Release)
    requires position < 4 && Four(pkgs, core, control, ingest, mcp)
    ensures PackageOk(e, position, r) && Edges(e) == Somes(ExpectedEdges(ORDER[position])) && LockOk(e, pkgs)
      <==> PackageSpelled(e, position, r) && LockedTo(e, core, control, ingest, mcp)
  {
    hide PackageOk, Edges, LockedTo, ExpectedEdges, Somes, Declared, Four, Pins;
    PackageLaw(e, position, r);
    if NamedRows(e) { LockLaw(e, pkgs, core, control, ingest, mcp); }
  }

  lemma Spelled(core: Artifact, control: Artifact, ingest: Artifact, mcp: Artifact, r: Release)
    ensures Publishable(core, control, ingest, mcp, r) <==>
      && core.packageName == Some("m1nd-core") && control.packageName == Some("m1nd-control")
      && ingest.packageName == Some("m1nd-ingest") && mcp.packageName == Some("m1nd-mcp")
      && PackageSpelled(core, 0, r) && LockedTo(core, core, control, ingest, mcp)
      && PackageSpelled(control, 1, r) && LockedTo(control, core, control, ingest, mcp)
      && PackageSpelled(ingest, 2, r) && LockedTo(ingest, core, control, ingest, mcp)
      && PackageSpelled(mcp, 3, r) && LockedTo(mcp, core, control, ingest, mcp)
      && UiOk(mcp, r)
  {
    hide LockedTo, DependsOn, NamedRows, FromCommit;
  }

  // -------------------------------------------------------- whole lists

  /** The Cargo packages of a list are these four, once each; other artifacts do not matter. */
  ghost predicate CratesAre(artifacts: seq<Artifact>, core: Artifact, control: Artifact, ingest: Artifact, mcp: Artifact) {
    && (forall e :: e in artifacts && e.kind == "cargo_crate_package" ==> e == core || e == control || e == ingest || e == mcp)
    && Once(artifacts, core) && Once(artifacts, control) && Once(artifacts, ingest) && Once(artifacts, mcp)
  }

  ghost predicate Once(artifacts: seq<Artifact>, e: Artifact) {
    e.kind == "cargo_crate_package" && multiset(artifacts)[e] == 1
  }

  lemma {:induction false} EntriesCount(artifacts: seq<Artifact>, e: Artifact)
    ensures multiset(CrateEntries(artifacts))[e] == if e.kind == "cargo_crate_package" then multiset(artifacts)[e] else 0
  {
    if artifacts != [] {
      EntriesCount(artifacts[1..], e);
      assert artifacts == [artifacts[0]] + artifacts[1..];
    }
  }

  lemma MapOfEntries(entries: seq<Artifact>, core: Artifact, control: Artifact, ingest: Artifact, mcp: Artifact)
    requires WellNamed(entries)
    requires forall e :: e in entries <==> e == core || e == control || e == ingest || e == mcp
    requires core.packageName == Some("m1nd-core") && control.packageName == Some("m1nd-control")
    requires ingest.packageName == Some("m1nd-ingest") && mcp.packageName == Some("m1nd-mcp")
    ensures Four(ByName(entries), core, control, ingest, mcp)
  {
    Names();
    var pkgs := ByName(entries);
    forall e | e in entries ensures e.packageName.Some? && e.packageName.value in pkgs && pkgs[e.packageName.value] == e {
      var i :| 0 <= i < |entries| && entries[i] == e;
    }
    assert core in entries && control in entries && ingest in entries && mcp in entries;
    forall n | n in pkgs ensures n in {"m1nd-core", "m1nd-control", "m1nd-ingest", "m1nd-mcp"} {
      assert pkgs[n] in entries && pkgs[n].packageName == Some(n);
    }
  }

  lemma EntriesNamed(artifacts: seq<Artifact>, core: Artifact, control: Artifact, ingest: Artifact, mcp: Artifact)
    requires CratesAre(artifacts, core, control, ingest, mcp)
    requires core.packageName == Some("m1nd-core") && control.packageName == Some("m1nd-control")
    requires ingest.packageName == Some("m1nd-ingest") && mcp.packageName == Some("m1nd-mcp")
    ensures var entries := CrateEntries(artifacts);
      && WellNamed(entries) && forall e :: e in entries <==> e == core || e == control || e == ingest || e == mcp
  {
    Names();
    var entries := CrateEntries(artifacts);
    forall e ensures e in entries <==> e == core || e == control || e == ingest || e == mcp {
      CrateEntriesAre(artifacts, e);
      EntriesCount(artifacts, e);
      assert e in entries <==> multiset(entries)[e] > 0;
    }
    forall i, j | 0 <= i < j < |entries| ensures entries[i].packageName != entries[j].packageName {
      assert entries[i] in entries && entries[j] in entries;
      if entries[i] == entries[j] {
        Sorting.CountOfRepeated(entries, i, j);
        EntriesCount(artifacts, entries[i]);
      }
    }
    forall i | 0 <= i < |entries| ensures entries[i].packageName.Some? { assert entries[i] in entries; }
  }

  /**
   * A list of artifacts is accepted exactly when its Cargo packages are four that are
   * publishable in order; every other artifact is ignored.
   */
  lemma BoundExactly(artifacts: seq<Artifact>, r: Release)
    ensures Bound(artifacts, r) <==>
      exists core, control, ingest, mcp ::
        CratesAre(artifacts, core, control, ingest, mcp) && Publishable(core, control, ingest, mcp, r)
  {
    if Bound(artifacts, r) { BoundIs(artifacts, r); }
    if core, control, ingest, mcp :| CratesAre(artifacts, core, control, ingest, mcp) && Publishable(core, control, ingest, mcp, r) {
      AcceptedIf(artifacts, core, control, ingest, mcp, r);
    }
  }

  lemma AcceptedIf(artifacts: seq<Artifact>, core: Artifact, control: Artifact, ingest: Artifact, mcp: Artifact, r: Release)
    requires CratesAre(artifacts, core, control, ingest, mcp) && Publishable(core, control, ingest, mcp, r)
    ensures Bound(artifacts, r)
  {
    hide PackagesBound, LockedTo, DependsOn, NamedRows, FromCommit, Four, CratesAre;
    EntriesNamed(artifacts, core, control, ingest, mcp);
    var entries := CrateEntries(artifacts);
    MapOfEntries(entries, core, control, ingest, mcp);
    PackagesLaw(ByName(entries), core, control, ingest, mcp, r);
  }

  lemma BoundIs(artifacts: seq<Artifact>, r: Release)
    requires Bound(artifacts, r)
    ensures exists core, control, ingest, mcp ::
      CratesAre(artifacts, core, control, ingest, mcp) && Publishable(core, control, ingest, mcp, r)
  {
    hide PackageOk, Edges, LockOk, UiOk, ExpectedEdges, Publishable;
    Names();
    var entries := CrateEntries(artifacts);
    var pkgs := ByName(entries);
    assert pkgs.Keys == {"m1nd-core", "m1nd-control", "m1nd-ingest", "m1nd-mcp"};
    var core, control, ingest, mcp := pkgs["m1nd-core"], pkgs["m1nd-control"], pkgs["m1nd-ingest"], pkgs["m1nd-mcp"];
    PackagesLaw(pkgs, core, control, ingest, mcp, r);
    forall e ensures e in entries ==> e == core || e == control || e == ingest || e == mcp {
      if e in entries {
        var i :| 0 <= i < |entries| && entries[i] == e;
        assert e.packageName.value in pkgs.Keys;
      }
    }
    EntriesOnce(artifacts, entries, pkgs, core);
    EntriesOnce(artifacts, entries, pkgs, control);
    EntriesOnce(artifacts, entries, pkgs, ingest);
    EntriesOnce(artifacts, entries, pkgs, mcp);
    forall e | e in artifacts && e.kind == "cargo_crate_package" ensures e in entries { CrateEntriesAre(artifacts, e); }
  }

  lemma EntriesOnce(artifacts: seq<Artifact>, entries: seq<Artifact>, pkgs: Packages, e: Artifact)
    requires entries == CrateEntries(artifacts) && WellNamed(entries) && e in entries
    ensures Once(artifacts, e)
  {
    CrateEntriesAre(artifacts, e);
    EntriesCount(artifacts, e);
    assert Distinct(entries);
    Sorting.CountOfDistinct(entries, e);
  }

  /** On an accepted list every dependency row but a development one names a package published before. */
  lemma DependencyEarlier(artifacts: seq<Artifact>, r: Release, ordered: seq<Artifact>, k: nat, row: Dependency)
    requires Bound(artifacts, r) && |ordered| == 4 && k < 4
    requires forall j :: 0 <= j < 4 ==>
      ordered[j] in artifacts && ordered[j].kind == "cargo_crate_package"
      && ordered[j].packageName == Some(["m1nd-core", "m1nd-control", "m1nd-ingest", "m1nd-mcp"][j])
    requires ordered[k].dependencies.Some? && row in ordered[k].dependencies.value
    ensures row.Dependency?
    ensures row.kind != Some("dev") ==> exists j :: 0 <= j < k && row.name == ordered[j].packageName
  {
    hide LockedTo, FromCommit, NamedRows, DependsOn, Bound, Publishable, CratesAre, PackageSpelled, Once;
    BoundExactly(artifacts, r);
    var core, control, ingest, mcp :|
      CratesAre(artifacts, core, control, ingest, mcp) && Publishable(core, control, ingest, mcp, r);
    Spelled(core, control, ingest, mcp, r);
    Names();
    forall j | 0 <= j < 4 ensures ordered[j] == [core, control, ingest, mcp][j] {
      NamedOne(artifacts, core, control, ingest, mcp, ordered[j], j);
    }
    RowEarlier(ordered[k], k, r, row);
  }

  lemma NamedOne(artifacts: seq<Artifact>, core: Artifact, control: Artifact, ingest: Artifact, mcp: Artifact, e: Artifact, j: nat)
    requires CratesAre(artifacts, core, control, ingest, mcp)
    requires core.packageName == Some("m1nd-core") && control.packageName == Some("m1nd-control")
    requires ingest.packageName == Some("m1nd-ingest") && mcp.packageName == Some("m1nd-mcp")
    requires j < 4 && e in artifacts && e.kind == "cargo_crate_package"
    requires e.packageName == Some(["m1nd-core", "m1nd-control", "m1nd-ingest", "m1nd-mcp"][j])
    ensures e == [core, control, ingest, mcp][j]
  {
    hide Once;
    Names();
  }

  lemma RowEarlier(e: Artifact, k: nat, r: Release, row: Dependency)
    requires k < 4 && PackageSpelled(e, k, r) && row in e.dependencies.value
    ensures row.Dependency?
    ensures row.kind != Some("dev") ==>
      exists j :: 0 <= j < k && row.name == Some(["m1nd-core", "m1nd-control", "m1nd-ingest", "m1nd-mcp"][j])
  {
    var i :| 0 <= i < |e.dependencies.value| && e.dependencies.value[i] == row;
    if row.kind != Some("dev") {
      assert DependsOn(e, row.name.value);
      assert Wanted(k, row.name.value);
      var names := ["m1nd-core", "m1nd-control", "m1nd-ingest", "m1nd-mcp"];
      assert names[0] == "m1nd-core" && names[1] == "m1nd-control" && names[2] == "m1nd-ingest";
    }
  }

  // -------------------------------------------------------------- witness

  function Crate(name: string, order: int, r: Release, deps: seq<Dependency>, lock: seq<LockRow>): Artifact {
    Artifact("cargo_crate_package", Some(name), Some(r.version), Some(order), Some(name), Some(r.commit), Some(false),
             Some(deps), Some(lock), r.ui, Some(false))
  }

  function Normal(name: string): Dependency {
    Dependency(Some("normal"), Some(name))
  }

  function Pin(name: string, r: Release): LockRow {
    LockRow(Some(name), Some(r.version), Some("registry+https://github.com/rust-lang/crates.io-index"), Some(name))
  }

  /** The first package has a development dependency on the third, which is published later. */
  function Example(r: Release): (list: seq<Artifact>)
    ensures |list| == 4
  {
    [Crate("m1nd-core", 1, r, [Dependency(Some("dev"), Some("m1nd-ingest"))], [Pin("m1nd-ingest", r)]),
     Crate("m1nd-control", 2, r, [], []),
     Crate("m1nd-ingest", 3, r, [Normal("m1nd-core")], [Pin("m1nd-core", r)]),
     Crate("m1nd-mcp", 4, r, [Normal("m1nd-core"), Normal("m1nd-control"), Normal("m1nd-ingest")],
           [Pin("m1nd-core", r), Pin("m1nd-control", r), Pin("m1nd-ingest", r)])]
  }

  lemma DevIsNot()
    ensures Some("normal") != Some("dev") && "normal" != "dev"
  {
    assert |"normal"| != |"dev"|;
  }

  lemma ExampleRows(r: Release)
    ensures var e := Example(r);
      && (forall name :: !DependsOn(e[0], name) && !DependsOn(e[1], name))
      && (forall name :: DependsOn(e[2], name) <==> name == "m1nd-core")
      && (forall name :: DependsOn(e[3], name) <==> name == "m1nd-core" || name == "m1nd-control" || name == "m1nd-ingest")
  {
    DevIsNot();
    var e := Example(r);
    assert e[2].dependencies.value[0] == Normal("m1nd-core");
    assert e[3].dependencies.value[0] == Normal("m1nd-core") && e[3].dependencies.value[1] == Normal("m1nd-control");
    assert e[3].dependencies.value[2] == Normal("m1nd-ingest");
  }

  lemma ExampleLocks(r: Release)
    ensures var e := Example(r);
      && LockedTo(e[0], e[0], e[1], e[2], e[3]) && LockedTo(e[1], e[0], e[1], e[2], e[3])
      && LockedTo(e[2], e[0], e[1], e[2], e[3]) && LockedTo(e[3], e[0], e[1], e[2], e[3])
  {
    Names();
    var e := Example(r);
    ExampleMentions(r);
    ExamplePins(r);
  }

  lemma ExampleMentions(r: Release)
    ensures var e := Example(r); forall k, name :: 0 <= k < 4 ==> (Locks(e[k], name) <==> Mentions(e[k], name))
  {
    var e := Example(r);
    assert e[0].dependencies.value[0].name == Some("m1nd-ingest") == e[0].lock.value[0].name;
    assert e[2].dependencies.value[0].name == Some("m1nd-core") == e[2].lock.value[0].name;
    assert forall i :: 0 <= i < 3 ==> e[3].dependencies.value[i].name == e[3].lock.value[i].name;
    forall k, name | 0 <= k < 4 ensures Locks(e[k], name) <==> Mentions(e[k], name) {
      assert |e[k].lock.value| == |e[k].dependencies.value|;
      forall i | 0 <= i < |e[k].lock.value|
        ensures e[k].lock.value[i].LockRow? && e[k].dependencies.value[i].Dependency?
        ensures e[k].lock.value[i].name == e[k].dependencies.value[i].name
      {
      }
    }
  }

  lemma ExamplePins(r: Release)
    ensures var e := Example(r);
      && Pinned(Pin("m1nd-core", r), e[0]) && Pinned(Pin("m1nd-control", r), e[1]) && Pinned(Pin("m1nd-ingest", r), e[2])
  {}

  lemma ExampleOnce(r: Release)
    ensures var e := Example(r); CratesAre(e, e[0], e[1], e[2], e[3])
  {
    Names();
    var e := Example(r);
    assert e[0].packageName != e[1].packageName && e[0].packageName != e[2].packageName && e[0].packageName != e[3].packageName;
    assert e[1].packageName != e[2].packageName && e[1].packageName != e[3].packageName && e[2].packageName != e[3].packageName;
    assert multiset(e) == multiset{e[0], e[1], e[2], e[3]};
  }

  /** Rows of kind `normal` on the fixed edges, pinned locks and a later development dependency: accepted. */
  lemma ExampleAccepted(r: Release)
    ensures Bound(Example(r), r)
  {
    hide DependsOn, LockedTo;
    Names();
    var list := Example(r);
    ExampleRows(r);
    ExampleLocks(r);
    ExampleOnce(r);
    AcceptedIf(list, list[0], list[1], list[2], list[3], r);
  }
}
