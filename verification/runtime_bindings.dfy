/**
 * Runtime bindings of a candidate: one archive, one raw binary and one smoke receipt per
 * target, all about the same bytes.
 */
module RuntimeBindings {
  import opened Basics
  import opened Sorting
  import opened TextSets
  import opened JsonValue
  import opened ReleaseContract

  const ARCHIVE := "runtime_archive"
  const BINARY := "runtime_binary"
  const SMOKE := "artifact_smoke_receipt"

  datatype Artifact = Artifact(
    kind: string, name: Text, sha256: Text, size: nat, target: Text, runtimeSha: Text)

  /** The one member of an archive: its digest and size. */
  datatype Extracted = Extracted(sha256: Text, size: nat)

  /** What the files say; `None` where reading them is refused. */
  datatype Files = Files(runtime: (Text, Text) -> Option<Extracted>, receipt: Text -> Option<JSON>)

  datatype Release = Release(version: Text, commit: Text, sourceRef: Text, uiSha256: Text)

  datatype Binding = Binding(
    archive: Text, member: Text, smoke: Text, binary: Text, sha256: Text, size: nat, target: Text)

  // ---------------------------------------------------------------- naming

  predicate IsWindows(target: Text) {
    StartsWith(target, T("windows-"))
  }

  function MemberName(target: Text): Text {
    if IsWindows(target) then T("m1nd-mcp.exe") else T("m1nd-mcp")
  }

  function BinaryName(target: Text): Text {
    T("m1nd-mcp-") + target + (if IsWindows(target) then T(".exe") else [])
  }

  function ArchiveName(target: Text, zip: bool): Text {
    T("m1nd-mcp-") + target + (if zip then T(".zip") else T(".tar.gz"))
  }

  function ReceiptName(target: Text): Text {
    T("GATE-ARTIFACT-SMOKE-") + target + T(".json")
  }

  predicate TargetName(t: Text) {
    t != [] && forall i :: 0 <= i < |t| ==> 97 <= t[i] < 123 || IsDigit(t[i]) || t[i] == 0x5F || t[i] == 0x2D
  }

  predicate Sha256Text(t: Text) {
    |t| == 64 && forall i :: 0 <= i < 64 ==> IsDigit(t[i]) || 97 <= t[i] < 103
  }

  /** What `collect_artifacts` has established of an entry. */
  predicate Collected(e: Artifact) {
    e.kind in [ARCHIVE, BINARY, SMOKE] ==>
      && TargetName(e.target) && Sha256Text(e.sha256) && e.size > 0
      && (e.kind == ARCHIVE ==> e.name == ArchiveName(e.target, true) || e.name == ArchiveName(e.target, false))
      && (e.kind == BINARY ==> e.name == BinaryName(e.target))
      && (e.kind == SMOKE ==> e.name == ReceiptName(e.target))
  }

  // --------------------------------------------------------------- binding

  /** `needle in v` on JSON. */
  predicate Mentions(v: JSON, needle: Text) {
    match v
    case Str(s) => Contains(s, needle)
    case Arr(items) => Str(needle) in items
    case Obj(members) => needle in KeySet(members)
    case _ => false
  }

  /** `binary.version_output`, empty when absent. */
  function VersionOutput(receipt: JSON): JSON {
    var binary := At(receipt, "binary");
    if binary.Obj? then (match Lookup(binary.members, T("version_output")) case Some(v) => v case None => Str([]))
    else if receipt.Obj? && Lookup(receipt.members, T("binary")).None? then Str([])
    else Null
  }

  /** The smoke receipt names this release, its version output and its embedded UI. */
  predicate ReceiptOk(receipt: JSON, r: Release) {
    var expected, ui := At(receipt, "expected"), At(receipt, "ui_bundle");
    && ExactKeys(expected, ["commit", "version"])
    && At(expected, "commit") == Str(r.commit) && At(expected, "version") == Str(r.version)
    && Mentions(VersionOutput(receipt), r.version)
    && Mentions(VersionOutput(receipt), if |r.commit| <= 7 then r.commit else r.commit[..7])
    && ExactKeys(ui, ["freshness", "mode", "sha256", "status"])
    && At(ui, "freshness") == Str(T("FRESH")) && At(ui, "mode") == Str(T("embedded"))
    && At(ui, "sha256") == Str(r.uiSha256) && At(ui, "status") == Str(T("AVAILABLE"))
  }

  /** Archive, binary and receipt of one target speak about the same bytes. */
  predicate Agrees(f: Files, r: Release, a: Artifact, b: Artifact, s: Artifact) {
    && f.runtime(a.name, a.target) == Some(Extracted(b.sha256, b.size))
    && s.runtimeSha == b.sha256
    && f.receipt(s.name).Some? && ReceiptOk(f.receipt(s.name).value, r)
  }

  ghost predicate OneEach(artifacts: seq<Artifact>, kind: string) {
    forall i, j :: 0 <= i < j < |artifacts| && artifacts[i].kind == kind && artifacts[j].kind == kind
      ==> artifacts[i].target != artifacts[j].target
  }

  type ByTarget = map<Text, Artifact>

  /** The map lists exactly the entries of a kind, under their targets. */
  ghost predicate Maps(m: ByTarget, artifacts: seq<Artifact>, kind: string) {
    && (forall t :: t in m ==> m[t] in artifacts && m[t].kind == kind && m[t].target == t)
    && (forall e :: e in artifacts && e.kind == kind ==> e.target in m && m[e.target] == e)
  }

  /** `unique_target_map`. */
  method UniqueTargetMap(artifacts: seq<Artifact>, kind: string) returns (r: Option<ByTarget>)
    ensures r.Some? <==> OneEach(artifacts, kind)
    ensures r.Some? ==> Maps(r.value, artifacts, kind)
  {
    var m: ByTarget := map[];
    var i := 0;
    while i < |artifacts|
      invariant 0 <= i <= |artifacts|
      invariant OneEach(artifacts[..i], kind) && Maps(m, artifacts[..i], kind)
    {
      var e := artifacts[i];
      assert artifacts[..i+1] == artifacts[..i] + [e];
      if e.kind == kind {
        if e.target in m {
          assert m[e.target] in artifacts[..i];
          return None;
        }
        m := m[e.target := e];
      }
      i := i + 1;
    }
    assert artifacts[..i] == artifacts;
    return Some(m);
  }

  ghost predicate Entry(artifacts: seq<Artifact>, kind: string, target: Text, e: Artifact) {
    e in artifacts && e.kind == kind && e.target == target
  }

  /** Every kind has exactly the expected targets, each once, and each target agrees. */
  ghost predicate Bound(f: Files, r: Release, artifacts: seq<Artifact>, targets: set<Text>) {
    && OneEach(artifacts, ARCHIVE) && OneEach(artifacts, BINARY) && OneEach(artifacts, SMOKE)
    && (forall e :: e in artifacts && e.kind in [ARCHIVE, BINARY, SMOKE] ==> e.target in targets)
    && (forall t :: t in targets ==> BoundTarget(f, r, artifacts, t))
  }

  ghost predicate BoundTarget(f: Files, r: Release, artifacts: seq<Artifact>, t: Text) {
    exists a, b, s :: && Entry(artifacts, ARCHIVE, t, a) && Entry(artifacts, BINARY, t, b)
                      && Entry(artifacts, SMOKE, t, s) && Agrees(f, r, a, b, s)
  }

  /** A binding names the three entries of its target and the bytes they share. */
  ghost predicate Joins(artifacts: seq<Artifact>, x: Binding, a: Artifact, b: Artifact, s: Artifact) {
    && Entry(artifacts, ARCHIVE, x.target, a) && Entry(artifacts, BINARY, x.target, b)
    && Entry(artifacts, SMOKE, x.target, s)
    && x.archive == a.name && x.binary == b.name && x.smoke == s.name
    && x.member == MemberName(x.target) && x.sha256 == b.sha256 && x.size == b.size
  }

  ghost predicate Describes(artifacts: seq<Artifact>, x: Binding) {
    exists a, b, s :: Joins(artifacts, x, a, b, s)
  }

  /** One binding per target, in the order of the target names. */
  ghost predicate Lists(artifacts: seq<Artifact>, targets: set<Text>, bindings: seq<Binding>) {
    && |bindings| == |Listing(targets)|
    && forall i :: 0 <= i < |bindings| ==> bindings[i].target == Listing(targets)[i] && Describes(artifacts, bindings[i])
  }

  lemma MapDecides(m: ByTarget, artifacts: seq<Artifact>, kind: string, t: Text, e: Artifact)
    requires Maps(m, artifacts, kind)
    ensures Entry(artifacts, kind, t, e) <==> t in m && m[t] == e
  {}

  lemma TargetDecided(f: Files, r: Release, artifacts: seq<Artifact>, xs: ByTarget, ys: ByTarget, zs: ByTarget, t: Text)
    requires Maps(xs, artifacts, ARCHIVE) && Maps(ys, artifacts, BINARY) && Maps(zs, artifacts, SMOKE)
    ensures BoundTarget(f, r, artifacts, t) <==>
      t in xs && t in ys && t in zs && Agrees(f, r, xs[t], ys[t], zs[t])
  {}

  /** One turn of the loop over targets. */
  method BindTarget(f: Files, r: Release, ghost artifacts: seq<Artifact>, xs: ByTarget, ys: ByTarget, zs: ByTarget, t: Text)
    returns (x: Option<Binding>)
    requires Maps(xs, artifacts, ARCHIVE) && Maps(ys, artifacts, BINARY) && Maps(zs, artifacts, SMOKE)
    requires t in xs && t in ys && t in zs
    ensures x.Some? <==> BoundTarget(f, r, artifacts, t)
    ensures x.Some? ==> x.value.target == t && Describes(artifacts, x.value)
  {
    hide Agrees;
    var a, b, s := xs[t], ys[t], zs[t];
    TargetDecided(f, r, artifacts, xs, ys, zs, t);
    if !Agrees(f, r, a, b, s) {
      return None;
    }
    x := Some(Binding(a.name, MemberName(t), s.name, b.name, b.sha256, b.size, t));
    assert Joins(artifacts, x.value, a, b, s);
  }

  /** `bind_runtime_artifacts`. */
  method BindRuntimeArtifacts(f: Files, artifacts: seq<Artifact>, expectedTargets: seq<Text>, r: Release)
    returns (bindings: Option<seq<Binding>>)
    ensures bindings.Some? <==> Bound(f, r, artifacts, Elements(expectedTargets))
    ensures bindings.Some? ==> Lists(artifacts, Elements(expectedTargets), bindings.value)
  {
    hide BoundTarget, Describes, OneEach;
    var archives := UniqueTargetMap(artifacts, ARCHIVE);
    var binaries := UniqueTargetMap(artifacts, BINARY);
    var smokes := UniqueTargetMap(artifacts, SMOKE);
    if archives.None? || binaries.None? || smokes.None? {
      return None;
    }
    var targets := set i | 0 <= i < |expectedTargets| :: expectedTargets[i];
    assert targets == Elements(expectedTargets);
    KeysDecided(f, r, artifacts, archives.value, binaries.value, smokes.value, targets);
    if archives.value.Keys != targets || binaries.value.Keys != targets || smokes.value.Keys != targets {
      return None;
    }
    bindings := BindAll(f, r, artifacts, archives.value, binaries.value, smokes.value, targets);
  }

  /** The loop over the sorted targets. */
  method BindAll(f: Files, r: Release, ghost artifacts: seq<Artifact>, xs: ByTarget, ys: ByTarget, zs: ByTarget, targets: set<Text>)
    returns (bindings: Option<seq<Binding>>)
    requires Maps(xs, artifacts, ARCHIVE) && Maps(ys, artifacts, BINARY) && Maps(zs, artifacts, SMOKE)
    requires xs.Keys == ys.Keys == zs.Keys == targets
    ensures bindings.Some? <==> forall t :: t in targets ==> BoundTarget(f, r, artifacts, t)
    ensures bindings.Some? ==> Lists(artifacts, targets, bindings.value)
  {
    hide BoundTarget, Describes, Maps;
    var expected := SortedSet(targets);
    var rows: seq<Binding> := [];
    for i := 0 to |expected|
      invariant |rows| == i
      invariant forall k :: 0 <= k < i ==>
        BoundTarget(f, r, artifacts, expected[k]) && rows[k].target == expected[k] && Describes(artifacts, rows[k])
    {
      assert expected[i] in Elements(expected);
      var x := BindTarget(f, r, artifacts, xs, ys, zs, expected[i]);
      if x.None? {
        return None;
      }
      rows := rows + [x.value];
    }
    forall t | t in targets ensures BoundTarget(f, r, artifacts, t) {
      assert t in Elements(expected);
    }
    return Some(rows);
  }

  lemma KeysDecided(f: Files, r: Release, artifacts: seq<Artifact>, xs: ByTarget, ys: ByTarget, zs: ByTarget, targets: set<Text>)
    requires Maps(xs, artifacts, ARCHIVE) && Maps(ys, artifacts, BINARY) && Maps(zs, artifacts, SMOKE)
    ensures Bound(f, r, artifacts, targets) ==> xs.Keys == ys.Keys == zs.Keys == targets
  {
    hide Agrees;
    if Bound(f, r, artifacts, targets) {
      forall t | t in targets ensures t in xs && t in ys && t in zs {
        TargetDecided(f, r, artifacts, xs, ys, zs, t);
      }
    }
  }

  lemma OneEntry(artifacts: seq<Artifact>, kind: string, t: Text, e: Artifact, d: Artifact)
    requires OneEach(artifacts, kind) && Entry(artifacts, kind, t, e) && Entry(artifacts, kind, t, d)
    ensures e == d
  {}

  /** The bindings do not depend on the order in which the files were collected. */
  lemma OrderIrrelevant(f: Files, r: Release, artifacts: seq<Artifact>, others: seq<Artifact>, targets: set<Text>,
                        xs: seq<Binding>, ys: seq<Binding>)
    requires multiset(artifacts) == multiset(others)
    ensures Bound(f, r, artifacts, targets) <==> Bound(f, r, others, targets)
    ensures Bound(f, r, artifacts, targets) && Lists(artifacts, targets, xs) && Lists(others, targets, ys) ==> xs == ys
  {
    hide OneEach, Entry, BoundTarget, Describes;
    SameElements(artifacts, others);
    OneEachPermutes(artifacts, others);
    OneEachPermutes(others, artifacts);
    SameBound(f, r, artifacts, others, targets);
    SameBound(f, r, others, artifacts, targets);
    if Bound(f, r, artifacts, targets) && Lists(artifacts, targets, xs) && Lists(others, targets, ys) {
      forall i | 0 <= i < |xs| ensures xs[i] == ys[i] {
        SameBinding(artifacts, others, xs[i], ys[i]);
      }
    }
  }

  lemma SameBinding(artifacts: seq<Artifact>, others: seq<Artifact>, x: Binding, y: Binding)
    requires forall e :: e in artifacts <==> e in others
    requires OneEach(artifacts, ARCHIVE) && OneEach(artifacts, BINARY) && OneEach(artifacts, SMOKE)
    requires Describes(artifacts, x) && Describes(others, y) && x.target == y.target
    ensures x == y
  {}

  lemma OneEachPermutes(artifacts: seq<Artifact>, others: seq<Artifact>)
    requires multiset(artifacts) == multiset(others)
    ensures forall kind :: OneEach(artifacts, kind) ==> OneEach(others, kind)
  {
    forall kind, i, j | OneEach(artifacts, kind) && 0 <= i < j < |others| && others[i].kind == kind && others[j].kind == kind
      ensures others[i].target != others[j].target
    {
      if others[i].target == others[j].target {
        SameElements(artifacts, others);
        assert others[i] in artifacts && others[j] in artifacts;
        OneEntry(artifacts, kind, others[i].target, others[i], others[j]);
        CountOfRepeated(others, i, j);
        Repeated(artifacts, others[i]);
      }
    }
  }

  /** An element counted twice sits at two places. */
  lemma {:induction false} Repeated(artifacts: seq<Artifact>, e: Artifact)
    requires multiset(artifacts)[e] >= 2
    ensures exists i, j :: 0 <= i < j < |artifacts| && artifacts[i] == e && artifacts[j] == e
  {
    assert artifacts == [artifacts[0]] + artifacts[1..];
    if artifacts[0] == e {
      assert multiset(artifacts[1..])[e] >= 1 && e in artifacts[1..];
      var j :| 0 <= j < |artifacts| - 1 && artifacts[1..][j] == e;
      assert artifacts[0] == e && artifacts[j + 1] == e;
    } else {
      Repeated(artifacts[1..], e);
      var i, j :| 0 <= i < j < |artifacts| - 1 && artifacts[1..][i] == e && artifacts[1..][j] == e;
      assert artifacts[i + 1] == e && artifacts[j + 1] == e;
    }
  }

  lemma SameBound(f: Files, r: Release, artifacts: seq<Artifact>, others: seq<Artifact>, targets: set<Text>)
    requires forall e :: e in artifacts <==> e in others
    requires forall kind :: OneEach(artifacts, kind) ==> OneEach(others, kind)
    ensures Bound(f, r, artifacts, targets) ==> Bound(f, r, others, targets)
  {
    hide Agrees, OneEach;
    if Bound(f, r, artifacts, targets) {
      forall t | t in targets ensures BoundTarget(f, r, others, t) {
        assert BoundTarget(f, r, artifacts, t);
        var a, b, s :| Entry(artifacts, ARCHIVE, t, a) && Entry(artifacts, BINARY, t, b)
                       && Entry(artifacts, SMOKE, t, s) && Agrees(f, r, a, b, s);
        assert Entry(others, ARCHIVE, t, a) && Entry(others, BINARY, t, b) && Entry(others, SMOKE, t, s);
      }
    }
  }
}
