/**
 * The operational documents of a candidate, its compatibility manifest and its rollback
 * plan: how they are prepared from the runtime bindings and what their validators accept.
 */
module OperationalDocuments {
  import opened Basics
  import LexOrder
  import opened TextSets
  import opened JsonValue
  import opened JsonText
  import opened ReleaseContract
  import opened RuntimeBindings
  import CiScope

  datatype Runtime = Runtime(target: Text, asset: Text, sha256: Text, size: nat)
  datatype Compatibility = Compatibility(version: Text, commit: Text, sourceRef: Text, targets: seq<Runtime>)
  datatype Rollback = Rollback(version: Text, commit: Text, sourceRef: Text, bindings: seq<Binding>)

  /** `n` runs of digits between dots, then perhaps a dash and more. */
  predicate Dotted(t: Text, n: nat)
    requires n > 0
  {
    var k := DigitRun(t);
    k > 0 &&
    if n > 1 then k < |t| && t[k] == 0x2E && Dotted(t[k + 1..], n - 1)
    else k == |t| || (t[k] == 0x2D && k + 1 < |t| && forall i :: k < i < |t| ==>
           IsDigit(t[i]) || 65 <= t[i] < 91 || 97 <= t[i] < 123 || t[i] == 0x2E || t[i] == 0x2D)
  }

  /** `validate_identity`. */
  predicate ValidIdentity(version: Text, commit: Text, sourceRef: Text) {
    Dotted(version, 3) && CiScope.IsSha(commit) && sourceRef == T("refs/tags/v") + version
  }

  predicate U64Size(n: nat) {
    0 < n < 0x1_0000_0000_0000_0000
  }

  predicate RuntimeOk(x: Runtime) {
    TargetName(x.target) && x.asset == BinaryName(x.target) && Sha256Text(x.sha256) && U64Size(x.size)
  }

  predicate BindingOk(x: Binding) {
    && TargetName(x.target)
    && x.archive == ArchiveName(x.target, IsWindows(x.target))
    && x.member == MemberName(x.target) && x.smoke == ReceiptName(x.target) && x.binary == BinaryName(x.target)
    && Sha256Text(x.sha256) && U64Size(x.size)
  }

  ghost predicate ValidCompatibility(c: Compatibility) {
    && ValidIdentity(c.version, c.commit, c.sourceRef) && c.targets != []
    && (forall i :: 0 <= i < |c.targets| ==> RuntimeOk(c.targets[i]))
    && (forall i, j :: 0 <= i < j < |c.targets| ==> c.targets[i].target != c.targets[j].target)
  }

  ghost predicate ValidRollback(p: Rollback) {
    && ValidIdentity(p.version, p.commit, p.sourceRef) && p.bindings != []
    && (forall i :: 0 <= i < |p.bindings| ==> BindingOk(p.bindings[i]))
    && (forall i, j :: 0 <= i < j < |p.bindings| ==> p.bindings[i].target != p.bindings[j].target)
  }

  function Shared(x: Binding): Runtime {
    Runtime(x.target, x.binary, x.sha256, x.size)
  }

  /** Both documents speak of one release and list the same runtimes. */
  ghost predicate SameRuntimes(c: Compatibility, p: Rollback) {
    && c.version == p.version && c.commit == p.commit && c.sourceRef == p.sourceRef
    && forall x :: x in c.targets <==> exists i :: 0 <= i < |p.bindings| && Shared(p.bindings[i]) == x
  }

  // ------------------------------------------------ the documents as JSON

  const COMPATIBILITY_FIELDS := ["schema", "version", "commit", "source_ref", "targets"]
  const RUNTIME_FIELDS := ["target", "asset", "sha256", "size_bytes"]
  const ROLLBACK_FIELDS := ["schema", "version", "commit", "source_ref", "runtime_bindings", "activation", "rollback"]
  const BINDING_FIELDS := [
    "archive", "archive_member", "artifact_smoke_receipt", "raw_binary", "runtime_sha256", "size_bytes", "target"]

  /** An object with these fields and values, in this order. */
  function Written(fields: seq<string>, values: seq<JSON>): (v: JSON)
    requires |values| == |fields|
    ensures v.Obj? && |v.members| == |fields|
    ensures forall i :: 0 <= i < |fields| ==> v.members[i] == Member(T(fields[i]), values[i])
  {
    Obj(seq(|fields|, i requires 0 <= i < |fields| => Member(T(fields[i]), values[i])))
  }

  predicate PairwiseApart(fields: seq<string>) {
    forall i, j :: 0 <= i < j < |fields| ==> Apart(fields[i], fields[j])
  }

  lemma WrittenReads(fields: seq<string>, values: seq<JSON>)
    requires |values| == |fields| && PairwiseApart(fields)
    ensures ExactKeys(Written(fields, values), fields)
    ensures forall i :: 0 <= i < |fields| ==> At(Written(fields, values), fields[i]) == values[i]
  {
    WrittenOut(Written(fields, values).members, fields);
  }

  lemma ManifestFieldsApart()
    ensures PairwiseApart(COMPATIBILITY_FIELDS) && PairwiseApart(RUNTIME_FIELDS)
  {}

  lemma PlanFieldsApart()
    ensures PairwiseApart(ROLLBACK_FIELDS)
  {
    var f := ROLLBACK_FIELDS;
    assert |f[0]| == 6 && |f[1]| == 7 && |f[2]| == 6 && |f[3]| == 10 && |f[4]| == 16 && |f[5]| == 10 && |f[6]| == 8;
    assert f[0][0] == 's' && f[2][0] == 'c' && f[3][0] == 's' && f[5][0] == 'a';
  }

  lemma BindingFieldsApart()
    ensures PairwiseApart(BINDING_FIELDS)
  {
    var f := BINDING_FIELDS;
    assert |f[0]| == 7 && |f[1]| == 14 && |f[2]| == 22 && |f[3]| == 10 && |f[4]| == 14 && |f[5]| == 10 && |f[6]| == 6;
    assert f[1][0] == 'a' && f[4][0] == 'r' && f[3][0] == 'r' && f[5][0] == 's';
  }

  lemma ActionFieldsApart()
    ensures PairwiseApart(ACTIVATION_FIELDS) && PairwiseApart(ACTION_FIELDS)
  {}

  function RuntimeJson(x: Runtime): JSON {
    Written(RUNTIME_FIELDS, [Str(x.target), Str(x.asset), Str(x.sha256), Int(x.size)])
  }

  function BindingJson(x: Binding): JSON {
    Written(BINDING_FIELDS,
      [Str(x.archive), Str(x.member), Str(x.smoke), Str(x.binary), Str(x.sha256), Int(x.size), Str(x.target)])
  }

  const ACTIVATION_FIELDS := ["automatic", "command"]
  const ACTION_FIELDS := ["automatic", "command", "requires_local_state_schema", "source"]

  function Activation(): JSON {
    Written(ACTIVATION_FIELDS, [Bool(false), Str(T("m1nd update apply --yes"))])
  }

  function RollbackAction(): JSON {
    Written(ACTION_FIELDS,
      [Bool(false), Str(T("m1nd update rollback")), Str(T("m1nd-self-update-rollback-state-v0")),
       Str(T("pre-activation local runtime backup"))])
  }

  function RuntimesJson(xs: seq<Runtime>): (js: seq<JSON>)
    ensures |js| == |xs| && forall i :: 0 <= i < |xs| ==> js[i] == RuntimeJson(xs[i])
  {
    seq(|xs|, i requires 0 <= i < |xs| => RuntimeJson(xs[i]))
  }

  function BindingsJson(xs: seq<Binding>): (js: seq<JSON>)
    ensures |js| == |xs| && forall i :: 0 <= i < |xs| ==> js[i] == BindingJson(xs[i])
  {
    seq(|xs|, i requires 0 <= i < |xs| => BindingJson(xs[i]))
  }

  const COMPATIBILITY_SCHEMA := "m1nd-release-compatibility-manifest-v1"
  const ROLLBACK_SCHEMA := "m1nd-release-rollback-plan-v1"

  function CompatibilityJson(c: Compatibility): JSON {
    Written(COMPATIBILITY_FIELDS,
      [Str(T(COMPATIBILITY_SCHEMA)), Str(c.version), Str(c.commit), Str(c.sourceRef), Arr(RuntimesJson(c.targets))])
  }

  function RollbackJson(p: Rollback): JSON {
    Written(ROLLBACK_FIELDS,
      [Str(T(ROLLBACK_SCHEMA)), Str(p.version), Str(p.commit), Str(p.sourceRef), Arr(BindingsJson(p.bindings)),
       Activation(), RollbackAction()])
  }

  // ----------------------------------------------- reading them back

  /** One row of the manifest: exactly its fields, each of its type. */
  function ReadRuntime(v: JSON): Option<Runtime> {
    var t, a, d, n := At(v, "target"), At(v, "asset"), At(v, "sha256"), At(v, "size_bytes");
    if ExactKeys(v, RUNTIME_FIELDS) && t.Str? && a.Str? && d.Str? && n.Int? && n.n >= 0
    then Some(Runtime(t.s, a.s, d.s, n.n))
    else None
  }

  /** One binding of the plan. */
  function ReadBinding(v: JSON): Option<Binding> {
    var a, m, s, b := At(v, "archive"), At(v, "archive_member"), At(v, "artifact_smoke_receipt"), At(v, "raw_binary");
    var d, n, t := At(v, "runtime_sha256"), At(v, "size_bytes"), At(v, "target");
    if ExactKeys(v, BINDING_FIELDS) && a.Str? && m.Str? && s.Str? && b.Str? && d.Str? && n.Int? && n.n >= 0 && t.Str?
    then Some(Binding(a.s, m.s, s.s, b.s, d.s, n.n, t.s))
    else None
  }

  /** Every item reads as the row at its position. */
  predicate Reads<X(==)>(read: JSON -> Option<X>, items: seq<JSON>, rows: seq<X>) {
    |items| == |rows| && forall i :: 0 <= i < |rows| ==> read(items[i]) == Some(rows[i])
  }

  /** The head both documents share. */
  predicate ReadsIdentity(v: JSON, version: Text, commit: Text, sourceRef: Text) {
    At(v, "version") == Str(version) && At(v, "commit") == Str(commit) && At(v, "source_ref") == Str(sourceRef)
  }

  predicate ReadsCompatibility(v: JSON, c: Compatibility) {
    && ExactKeys(v, COMPATIBILITY_FIELDS) && At(v, "schema") == Str(T(COMPATIBILITY_SCHEMA))
    && ReadsIdentity(v, c.version, c.commit, c.sourceRef)
    && At(v, "targets").Arr? && Reads(ReadRuntime, At(v, "targets").items, c.targets)
  }

  /** Activation and rollback stay explicit and local. */
  predicate Explicit(v: JSON) {
    var a, r := At(v, "activation"), At(v, "rollback");
    && ExactKeys(a, ACTIVATION_FIELDS)
    && At(a, "automatic") == Bool(false) && At(a, "command") == Str(T("m1nd update apply --yes"))
    && ExactKeys(r, ACTION_FIELDS)
    && At(r, "automatic") == Bool(false) && At(r, "command") == Str(T("m1nd update rollback"))
    && At(r, "requires_local_state_schema") == Str(T("m1nd-self-update-rollback-state-v0"))
    && At(r, "source") == Str(T("pre-activation local runtime backup"))
  }

  predicate ReadsRollback(v: JSON, p: Rollback) {
    && ExactKeys(v, ROLLBACK_FIELDS) && At(v, "schema") == Str(T(ROLLBACK_SCHEMA))
    && ReadsIdentity(v, p.version, p.commit, p.sourceRef)
    && At(v, "runtime_bindings").Arr? && Reads(ReadBinding, At(v, "runtime_bindings").items, p.bindings)
    && Explicit(v)
  }

  lemma ReadsOnce<X>(read: JSON -> Option<X>, items: seq<JSON>, xs: seq<X>, ys: seq<X>)
    requires Reads(read, items, xs) && Reads(read, items, ys)
    ensures xs == ys
  {
    forall i | 0 <= i < |xs| ensures xs[i] == ys[i] { assert read(items[i]) == Some(xs[i]) && read(items[i]) == Some(ys[i]); }
  }

  lemma RuntimeReads(x: Runtime)
    ensures ReadRuntime(RuntimeJson(x)) == Some(x)
  {
    hide Written, ExactKeys, At, Apart;
    ManifestFieldsApart();
    var f := RUNTIME_FIELDS;
    WrittenReads(f, [Str(x.target), Str(x.asset), Str(x.sha256), Int(x.size)]);
    assert f[0] == "target" && f[1] == "asset" && f[2] == "sha256" && f[3] == "size_bytes";
  }

  lemma BindingReads(x: Binding)
    ensures ReadBinding(BindingJson(x)) == Some(x)
  {
    hide Written, ExactKeys, At, Apart;
    BindingFieldsApart();
    var f := BINDING_FIELDS;
    WrittenReads(f,
      [Str(x.archive), Str(x.member), Str(x.smoke), Str(x.binary), Str(x.sha256), Int(x.size), Str(x.target)]);
    assert f[0] == "archive" && f[1] == "archive_member" && f[2] == "artifact_smoke_receipt" && f[3] == "raw_binary";
    assert f[4] == "runtime_sha256" && f[5] == "size_bytes" && f[6] == "target";
  }

  /** The manifest as written reads back, as nothing else. */
  lemma CompatibilityReads(c: Compatibility, d: Compatibility)
    ensures ReadsCompatibility(CompatibilityJson(c), d) <==> c == d
  {
    hide Written, ExactKeys, At, Apart, RuntimeJson, ReadRuntime;
    ManifestFieldsApart();
    var f := COMPATIBILITY_FIELDS;
    WrittenReads(f,
      [Str(T(COMPATIBILITY_SCHEMA)), Str(c.version), Str(c.commit), Str(c.sourceRef), Arr(RuntimesJson(c.targets))]);
    assert f[0] == "schema" && f[1] == "version" && f[2] == "commit" && f[3] == "source_ref" && f[4] == "targets";
    forall i | 0 <= i < |c.targets| ensures ReadRuntime(RuntimesJson(c.targets)[i]) == Some(c.targets[i]) {
      RuntimeReads(c.targets[i]);
    }
    if ReadsCompatibility(CompatibilityJson(c), d) {
      ReadsOnce(ReadRuntime, RuntimesJson(c.targets), c.targets, d.targets);
    }
  }

  lemma ActionsRead(v: JSON)
    requires At(v, "activation") == Activation() && At(v, "rollback") == RollbackAction()
    ensures Explicit(v)
  {
    hide Written, ExactKeys, At, Apart;
    ActionFieldsApart();
    var f, g := ACTIVATION_FIELDS, ACTION_FIELDS;
    WrittenReads(f, [Bool(false), Str(T("m1nd update apply --yes"))]);
    WrittenReads(g, [Bool(false), Str(T("m1nd update rollback")), Str(T("m1nd-self-update-rollback-state-v0")),
                     Str(T("pre-activation local runtime backup"))]);
    assert f[0] == g[0] == "automatic" && f[1] == g[1] == "command";
    assert g[2] == "requires_local_state_schema" && g[3] == "source";
  }

  /** The rollback plan as written reads back, as nothing else. */
  lemma RollbackReads(p: Rollback, q: Rollback)
    ensures ReadsRollback(RollbackJson(p), q) <==> p == q
  {
    hide Written, ExactKeys, At, Apart, BindingJson, ReadBinding, Activation, RollbackAction, Explicit;
    PlanFieldsApart();
    var f := ROLLBACK_FIELDS;
    WrittenReads(f,
      [Str(T(ROLLBACK_SCHEMA)), Str(p.version), Str(p.commit), Str(p.sourceRef), Arr(BindingsJson(p.bindings)),
       Activation(), RollbackAction()]);
    assert f[0] == "schema" && f[1] == "version" && f[2] == "commit" && f[3] == "source_ref";
    assert f[4] == "runtime_bindings" && f[5] == "activation" && f[6] == "rollback";
    forall i | 0 <= i < |p.bindings| ensures ReadBinding(BindingsJson(p.bindings)[i]) == Some(p.bindings[i]) {
      BindingReads(p.bindings[i]);
    }
    ActionsRead(RollbackJson(p));
    if ReadsRollback(RollbackJson(p), q) {
      ReadsOnce(ReadBinding, BindingsJson(p.bindings), p.bindings, q.bindings);
    }
  }

  // --------------------------------------------------------- validators

  /** Rows that pass, no target twice. */
  ghost predicate GoodRows<X>(ok: X -> bool, target: X -> Text, rows: seq<X>) {
    && (forall i :: 0 <= i < |rows| ==> ok(rows[i]))
    && (forall i, j :: 0 <= i < j < |rows| ==> target(rows[i]) != target(rows[j]))
  }

  /** The loop over rows of either document, with its set of targets seen. */
  method ValidateRows<X(==)>(read: JSON -> Option<X>, ok: X -> bool, target: X -> Text, items: seq<JSON>)
    returns (rows: Option<seq<X>>)
    ensures rows.Some? ==> Reads(read, items, rows.value) && GoodRows(ok, target, rows.value)
    ensures rows.None? ==> forall xs :: Reads(read, items, xs) ==> !GoodRows(ok, target, xs)
  {
    var done: seq<X> := [];
    var seen: set<Text> := {};
    for i := 0 to |items|
      invariant Reads(read, items[..i], done) && GoodRows(ok, target, done)
      invariant forall t :: t in seen <==> exists k :: 0 <= k < i && target(done[k]) == t
    {
      var x := read(items[i]);
      if x.None? || !ok(x.value) || target(x.value) in seen {
        forall xs | Reads(read, items, xs) ensures !GoodRows(ok, target, xs) {
          ReadsOnce(read, items[..i], done, xs[..i]);
          assert read(items[i]) == Some(xs[i]);
          assert forall k :: 0 <= k < i ==> done[k] == xs[..i][k] == xs[k];
        }
        return None;
      }
      done := done + [x.value];
      seen := seen + {target(x.value)};
    }
    assert items[..|items|] == items;
    return Some(done);
  }

  function RuntimeTarget(x: Runtime): Text {
    x.target
  }

  function BindingTarget(x: Binding): Text {
    x.target
  }

  /** `validate_canonical_compatibility`, on any JSON value: the manifest it is, or a refusal. */
  method ValidateCompatibility(v: JSON) returns (r: Option<Compatibility>)
    ensures r.Some? ==> ReadsCompatibility(v, r.value) && ValidCompatibility(r.value)
    ensures r.None? ==> forall c :: ReadsCompatibility(v, c) ==> !ValidCompatibility(c)
  {
    hide ValidIdentity, RuntimeOk, ExactKeys, At, ReadRuntime, Reads;
    var version, commit, sourceRef, targets := At(v, "version"), At(v, "commit"), At(v, "source_ref"), At(v, "targets");
    if !ExactKeys(v, COMPATIBILITY_FIELDS) || At(v, "schema") != Str(T(COMPATIBILITY_SCHEMA)) {
      return None;
    }
    if !version.Str? || !commit.Str? || !sourceRef.Str? || !ValidIdentity(version.s, commit.s, sourceRef.s) {
      return None;
    }
    if !targets.Arr? || targets.items == [] {
      AtLeastOne(v);
      return None;
    }
    var rows := ValidateRows(ReadRuntime, RuntimeOk, RuntimeTarget, targets.items);
    if rows.None? {
      forall c | ReadsCompatibility(v, c) ensures !ValidCompatibility(c) {
        assert Reads(ReadRuntime, targets.items, c.targets);
        assert !GoodRows(RuntimeOk, RuntimeTarget, c.targets);
      }
      return None;
    }
    SameCount(ReadRuntime, targets.items, rows.value);
    return Some(Compatibility(version.s, commit.s, sourceRef.s, rows.value));
  }

  lemma SameCount<X>(read: JSON -> Option<X>, items: seq<JSON>, rows: seq<X>)
    requires Reads(read, items, rows)
    ensures |items| == |rows|
  {}

  lemma AtLeastOne(v: JSON)
    ensures At(v, "targets") == Arr([]) ==> forall c :: ReadsCompatibility(v, c) ==> c.targets == []
    ensures At(v, "runtime_bindings") == Arr([]) ==> forall p :: ReadsRollback(v, p) ==> p.bindings == []
  {}

  /** `validate_canonical_rollback`, on any JSON value: the plan it is, or a refusal. */
  method ValidateRollback(v: JSON) returns (r: Option<Rollback>)
    ensures r.Some? ==> ReadsRollback(v, r.value) && ValidRollback(r.value)
    ensures r.None? ==> forall p :: ReadsRollback(v, p) ==> !ValidRollback(p)
  {
    hide ValidIdentity, BindingOk, ExactKeys, At, ReadBinding, Reads, Explicit;
    var version, commit, sourceRef := At(v, "version"), At(v, "commit"), At(v, "source_ref");
    var bindings := At(v, "runtime_bindings");
    if !ExactKeys(v, ROLLBACK_FIELDS) || At(v, "schema") != Str(T(ROLLBACK_SCHEMA)) {
      return None;
    }
    if !version.Str? || !commit.Str? || !sourceRef.Str? || !ValidIdentity(version.s, commit.s, sourceRef.s) {
      return None;
    }
    if !bindings.Arr? || bindings.items == [] {
      AtLeastOne(v);
      return None;
    }
    var rows := ValidateRows(ReadBinding, BindingOk, BindingTarget, bindings.items);
    if rows.None? {
      forall p | ReadsRollback(v, p) ensures !ValidRollback(p) {
        assert Reads(ReadBinding, bindings.items, p.bindings);
        assert !GoodRows(BindingOk, BindingTarget, p.bindings);
      }
      return None;
    }
    SameCount(ReadBinding, bindings.items, rows.value);
    if !Explicit(v) {
      return None;
    }
    return Some(Rollback(version.s, commit.s, sourceRef.s, rows.value));
  }

  /** `validate_canonical_operational_pair`, on documents that passed their own validators. */
  method ValidatePair(c: Compatibility, p: Rollback) returns (ok: bool)
    requires ValidCompatibility(c) && ValidRollback(p)
    ensures ok <==> SameRuntimes(c, p)
  {
    hide ValidIdentity, RuntimeOk, BindingOk;
    if c.version != p.version || c.commit != p.commit || c.sourceRef != p.sourceRef {
      return false;
    }
    var compatible: map<Text, Runtime> := map[];
    for i := 0 to |c.targets|
      invariant forall k :: 0 <= k < i ==> c.targets[k].target in compatible && compatible[c.targets[k].target] == c.targets[k]
      invariant forall t :: t in compatible ==> exists k :: 0 <= k < i && c.targets[k].target == t
    {
      compatible := compatible[c.targets[i].target := c.targets[i]];
    }
    var bound: map<Text, Binding> := map[];
    for i := 0 to |p.bindings|
      invariant forall k :: 0 <= k < i ==> p.bindings[k].target in bound && bound[p.bindings[k].target] == p.bindings[k]
      invariant forall t :: t in bound ==> exists k :: 0 <= k < i && p.bindings[k].target == t
    {
      bound := bound[p.bindings[i].target := p.bindings[i]];
    }
    PairDecided(c, p, compatible, bound);
    ok := compatible.Keys == bound.Keys && forall t :: t in compatible ==> t in bound && Shared(bound[t]) == compatible[t];
  }

  lemma PairDecided(c: Compatibility, p: Rollback, compatible: map<Text, Runtime>, bound: map<Text, Binding>)
    requires c.version == p.version && c.commit == p.commit && c.sourceRef == p.sourceRef
    requires forall k :: 0 <= k < |c.targets| ==> c.targets[k].target in compatible && compatible[c.targets[k].target] == c.targets[k]
    requires forall t :: t in compatible ==> exists k :: 0 <= k < |c.targets| && c.targets[k].target == t
    requires forall k :: 0 <= k < |p.bindings| ==> p.bindings[k].target in bound && bound[p.bindings[k].target] == p.bindings[k]
    requires forall t :: t in bound ==> exists k :: 0 <= k < |p.bindings| && p.bindings[k].target == t
    ensures SameRuntimes(c, p) <==>
      compatible.Keys == bound.Keys && forall t :: t in compatible ==> t in bound && Shared(bound[t]) == compatible[t]
  {
    if SameRuntimes(c, p) {
      forall t | t in compatible ensures t in bound && Shared(bound[t]) == compatible[t] {
        assert compatible[t] in c.targets;
        var i :| 0 <= i < |p.bindings| && Shared(p.bindings[i]) == compatible[t];
      }
      forall t | t in bound ensures t in compatible {
        var k :| 0 <= k < |p.bindings| && p.bindings[k].target == t;
        assert Shared(p.bindings[k]) in c.targets;
      }
    } else if compatible.Keys == bound.Keys && forall t :: t in compatible ==> t in bound && Shared(bound[t]) == compatible[t] {
      forall x | x in c.targets ensures exists i :: 0 <= i < |p.bindings| && Shared(p.bindings[i]) == x {
        assert x.target in bound;
        var i :| 0 <= i < |p.bindings| && p.bindings[i].target == x.target;
        assert Shared(p.bindings[i]) == x;
      }
      forall i | 0 <= i < |p.bindings| ensures Shared(p.bindings[i]) in c.targets {
        assert p.bindings[i].target in compatible;
        var k :| 0 <= k < |c.targets| && c.targets[k].target == p.bindings[i].target;
        assert c.targets[k] == Shared(p.bindings[i]);
      }
    }
  }

  /** When prepared documents pass: bound, some target, platform archives, 64-bit sizes. */
  ghost predicate Preparable(f: Files, r: Release, artifacts: seq<Artifact>, targets: set<Text>) {
    && ValidIdentity(r.version, r.commit, r.sourceRef)
    && Bound(f, r, artifacts, targets) && targets != {}
    && Passing(artifacts)
  }

  /** Every archive has its platform's extension and every binary a positive 64-bit size. */
  ghost predicate Passing(artifacts: seq<Artifact>) {
    && (forall a :: a in artifacts && a.kind == ARCHIVE ==> a.name == ArchiveName(a.target, IsWindows(a.target)))
    && (forall b :: b in artifacts && b.kind == BINARY ==> U64Size(b.size))
  }

  ghost predicate AllCollected(artifacts: seq<Artifact>) {
    forall e :: e in artifacts ==> Collected(e)
  }

  function RuntimeOf(e: Artifact): Runtime {
    Runtime(e.target, e.name, e.sha256, e.size)
  }

  /** A binding passes the rollback checks exactly for a platform archive and a 64-bit size. */
  lemma BindingPasses(artifacts: seq<Artifact>, x: Binding, a: Artifact, b: Artifact, s: Artifact)
    requires AllCollected(artifacts) && Joins(artifacts, x, a, b, s)
    ensures BindingOk(x) <==> a.name == ArchiveName(a.target, IsWindows(a.target)) && U64Size(b.size)
    ensures RuntimeOk(Shared(x)) <==> U64Size(b.size)
    ensures Shared(x) == RuntimeOf(b)
  {}

  ghost predicate AllPass(bindings: seq<Binding>) {
    forall i :: 0 <= i < |bindings| ==> BindingOk(bindings[i]) && RuntimeOk(Shared(bindings[i]))
  }

  /** An archive or binary is bound, so its binding decides. */
  lemma EntryPasses(f: Files, r: Release, artifacts: seq<Artifact>, targets: set<Text>, bindings: seq<Binding>, e: Artifact)
    requires AllCollected(artifacts) && Bound(f, r, artifacts, targets) && Lists(artifacts, targets, bindings)
    requires AllPass(bindings) && e in artifacts && (e.kind == ARCHIVE || e.kind == BINARY)
    ensures e.kind == ARCHIVE ==> e.name == ArchiveName(e.target, IsWindows(e.target))
    ensures e.kind == BINARY ==> U64Size(e.size)
  {
    hide BindingOk, RuntimeOk, Collected, ArchiveName, BoundTarget, U64Size, OneEach, Joins, Agrees;
    assert e.target in Elements(Listing(targets));
    var i :| 0 <= i < |bindings| && Listing(targets)[i] == e.target;
    var a, b, s :| Joins(artifacts, bindings[i], a, b, s);
    BindingPasses(artifacts, bindings[i], a, b, s);
    JoinsEntries(artifacts, bindings[i], a, b, s);
    OneEntry(artifacts, e.kind, e.target, e, if e.kind == ARCHIVE then a else b);
  }

  lemma JoinsEntries(artifacts: seq<Artifact>, x: Binding, a: Artifact, b: Artifact, s: Artifact)
    requires Joins(artifacts, x, a, b, s)
    ensures Entry(artifacts, ARCHIVE, x.target, a) && Entry(artifacts, BINARY, x.target, b)
  {}

  /** All bindings pass exactly when all archives and binaries do: none is left unbound. */
  lemma BindingsPass(f: Files, r: Release, artifacts: seq<Artifact>, targets: set<Text>, bindings: seq<Binding>)
    requires AllCollected(artifacts) && Bound(f, r, artifacts, targets) && Lists(artifacts, targets, bindings)
    ensures AllPass(bindings) <==> Passing(artifacts)
  {
    hide BindingOk, RuntimeOk, Collected, ArchiveName, Bound, U64Size, Joins;
    if AllPass(bindings) {
      forall e | e in artifacts && (e.kind == ARCHIVE || e.kind == BINARY)
        ensures e.kind == ARCHIVE ==> e.name == ArchiveName(e.target, IsWindows(e.target))
        ensures e.kind == BINARY ==> U64Size(e.size)
      {
        EntryPasses(f, r, artifacts, targets, bindings, e);
      }
    } else {
      var i :| 0 <= i < |bindings| && !(BindingOk(bindings[i]) && RuntimeOk(Shared(bindings[i])));
      var a, b, s :| Joins(artifacts, bindings[i], a, b, s);
      BindingPasses(artifacts, bindings[i], a, b, s);
      JoinsEntries(artifacts, bindings[i], a, b, s);
    }
  }

  lemma TargetsDistinct(targets: set<Text>)
    ensures forall i, j :: 0 <= i < j < |Listing(targets)| ==> Listing(targets)[i] != Listing(targets)[j]
    ensures Listing(targets) == [] <==> targets == {}
  {
    var ts := Listing(targets);
    forall i, j | 0 <= i < j < |ts| ensures ts[i] != ts[j] { LexOrder.LexIrreflexive(ts[i]); }
    if ts == [] { assert Elements(ts) == {}; } else { assert ts[0] in Elements(ts); }
  }

  /** The documents `prepare_canonical_operational` writes. */
  datatype Documents = Documents(compatibility: JSON, rollback: JSON)

  function Write(c: Compatibility, p: Rollback): Documents {
    Documents(CompatibilityJson(c), RollbackJson(p))
  }

  /**
   * Documents prepared from bound files: the two validators accept them exactly when the
   * files are preparable, and then the comparison of the two never refuses.
   */
  lemma PreparedExactly(f: Files, r: Release, artifacts: seq<Artifact>, targets: set<Text>, bindings: seq<Binding>, rows: seq<Runtime>)
    requires AllCollected(artifacts) && Bound(f, r, artifacts, targets) && Lists(artifacts, targets, bindings)
    requires |rows| == |bindings| && forall i :: 0 <= i < |rows| ==> rows[i] == Shared(bindings[i])
    ensures var c, p := Compatibility(r.version, r.commit, r.sourceRef, rows), Rollback(r.version, r.commit, r.sourceRef, bindings);
      && (ValidCompatibility(c) && ValidRollback(p) <==> Preparable(f, r, artifacts, targets))
      && SameRuntimes(c, p)
  {
    hide BindingOk, RuntimeOk, BoundTarget, Describes, ValidIdentity, OneEach;
    BindingsPass(f, r, artifacts, targets, bindings);
    TargetsDistinct(targets);
  }

  /** The binding part of `prepare_canonical_operational`. */
  method Prepare(f: Files, artifacts: seq<Artifact>, expectedTargets: seq<Text>, r: Release)
    returns (documents: Option<Documents>, ghost c: Compatibility, ghost p: Rollback)
    requires AllCollected(artifacts)
    ensures documents.Some? <==> Preparable(f, r, artifacts, Elements(expectedTargets))
    ensures documents.Some? ==>
      && documents.value == Write(c, p) && ValidCompatibility(c) && ValidRollback(p) && SameRuntimes(c, p)
      && Lists(artifacts, Elements(expectedTargets), p.bindings)
      && p.version == r.version && p.commit == r.commit && p.sourceRef == r.sourceRef
  {
    hide ValidIdentity, Describes, BoundTarget, OneEach, Maps, CompatibilityJson, RollbackJson, RuntimeOk, BindingOk;
    hide ReadsCompatibility, ReadsRollback, ValidCompatibility, ValidRollback, SameRuntimes, Lists, Bound;
    c, p := Compatibility([], [], [], []), Rollback([], [], [], []);
    documents := None;
    if !ValidIdentity(r.version, r.commit, r.sourceRef) {
      return;
    }
    var bindings := BindRuntimeArtifacts(f, artifacts, expectedTargets, r);
    if bindings.None? {
      return;
    }
    BoundOnce(f, r, artifacts, Elements(expectedTargets));
    var raw := UniqueTargetMap(artifacts, BINARY);
    var rows := ListRuntimes(artifacts, raw.value, Elements(expectedTargets), bindings.value, expectedTargets);
    PreparedExactly(f, r, artifacts, Elements(expectedTargets), bindings.value, rows);
    var manifest := Compatibility(r.version, r.commit, r.sourceRef, rows);
    var plan := Rollback(r.version, r.commit, r.sourceRef, bindings.value);
    c, p := manifest, plan;
    forall d { CompatibilityReads(manifest, d); }
    forall q { RollbackReads(plan, q); }
    var compatible := ValidateCompatibility(CompatibilityJson(manifest));
    var reversible := ValidateRollback(RollbackJson(plan));
    if compatible.None? || reversible.None? {
      return;
    }
    var paired := ValidatePair(compatible.value, reversible.value);
    documents := if paired then Some(Write(manifest, plan)) else None;
  }

  lemma BoundOnce(f: Files, r: Release, artifacts: seq<Artifact>, targets: set<Text>)
    requires Bound(f, r, artifacts, targets)
    ensures OneEach(artifacts, BINARY)
  {}

  /** The rows of the compatibility manifest, one per sorted target. */
  method ListRuntimes(ghost artifacts: seq<Artifact>, raw: ByTarget, ghost targets: set<Text>, ghost bindings: seq<Binding>,
                      expectedTargets: seq<Text>)
    returns (rows: seq<Runtime>)
    requires OneEach(artifacts, BINARY) && Maps(raw, artifacts, BINARY)
    requires targets == Elements(expectedTargets) && Lists(artifacts, targets, bindings)
    ensures |rows| == |bindings| && forall i :: 0 <= i < |rows| ==> rows[i] == Shared(bindings[i])
  {
    hide OneEach, Maps, MemberName;
    var expected := SortedSet(set i | 0 <= i < |expectedTargets| :: expectedTargets[i]);
    assert targets == set i | 0 <= i < |expectedTargets| :: expectedTargets[i];
    rows := [];
    for i := 0 to |expected|
      invariant |rows| == i && forall k :: 0 <= k < i ==> rows[k] == Shared(bindings[k])
    {
      var t := expected[i];
      assert t == bindings[i].target;
      ghost var a, b, s :| Joins(artifacts, bindings[i], a, b, s);
      MapDecides(raw, artifacts, BINARY, t, b);
      rows := rows + [RuntimeOf(raw[t])];
    }
  }

  // -------------------------------------------------------------- witness

  const RECEIPT_FIELDS := ["expected", "binary", "ui_bundle"]
  const EXPECTED_FIELDS := ["commit", "version"]
  const OUTPUT_FIELDS := ["version_output"]
  const UI_FIELDS := ["freshness", "mode", "sha256", "status"]

  function ExpectedJson(r: Release): JSON {
    Written(EXPECTED_FIELDS, [Str(r.commit), Str(r.version)])
  }

  function UiJson(r: Release): JSON {
    Written(UI_FIELDS, [Str(T("FRESH")), Str(T("embedded")), Str(r.uiSha256), Str(T("AVAILABLE"))])
  }

  function OutputJson(r: Release): JSON {
    Written(OUTPUT_FIELDS, [Str(r.version + r.commit)])
  }

  /** A smoke receipt the binding accepts. */
  function ReceiptJson(r: Release): JSON {
    Written(RECEIPT_FIELDS, [ExpectedJson(r), OutputJson(r), UiJson(r)])
  }

  lemma ReceiptFieldsApart()
    ensures PairwiseApart(RECEIPT_FIELDS) && PairwiseApart(EXPECTED_FIELDS) && PairwiseApart(OUTPUT_FIELDS)
    ensures PairwiseApart(UI_FIELDS)
  {}

  lemma OutputMentions(r: Release)
    ensures Mentions(Str(r.version + r.commit), r.version)
    ensures Mentions(Str(r.version + r.commit), if |r.commit| <= 7 then r.commit else r.commit[..7])
  {
    var s := r.version + r.commit;
    var short := if |r.commit| <= 7 then r.commit else r.commit[..7];
    assert s[0..|r.version|] == r.version && OccursAt(s, 0, r.version);
    assert s[|r.version|..|r.version| + |short|] == short && OccursAt(s, |r.version|, short);
  }

  lemma ReceiptAccepted(r: Release)
    ensures ReceiptOk(ReceiptJson(r), r)
  {
    hide Written, ExactKeys, At, Apart, Mentions, OutputJson, ExpectedJson, UiJson;
    ReceiptFieldsApart();
    var e, f, g := RECEIPT_FIELDS, EXPECTED_FIELDS, UI_FIELDS;
    WrittenReads(e, [ExpectedJson(r), OutputJson(r), UiJson(r)]);
    assert e[0] == "expected" && e[1] == "binary" && e[2] == "ui_bundle";
    ExpectedReads(r);
    UiReads(r);
    OutputReads(r);
    OutputMentions(r);
    OutputIs(ReceiptJson(r), r);
  }

  lemma ExpectedReads(r: Release)
    ensures var v := ExpectedJson(r);
      ExactKeys(v, EXPECTED_FIELDS) && At(v, "commit") == Str(r.commit) && At(v, "version") == Str(r.version)
  {
    hide Written, ExactKeys, At, Apart;
    ReceiptFieldsApart();
    var f := EXPECTED_FIELDS;
    WrittenReads(f, [Str(r.commit), Str(r.version)]);
    assert f[0] == "commit" && f[1] == "version";
  }

  lemma UiReads(r: Release)
    ensures var v := UiJson(r);
      && ExactKeys(v, UI_FIELDS) && At(v, "freshness") == Str(T("FRESH")) && At(v, "mode") == Str(T("embedded"))
      && At(v, "sha256") == Str(r.uiSha256) && At(v, "status") == Str(T("AVAILABLE"))
  {
    hide Written, ExactKeys, At, Apart;
    ReceiptFieldsApart();
    var g := UI_FIELDS;
    WrittenReads(g, [Str(T("FRESH")), Str(T("embedded")), Str(r.uiSha256), Str(T("AVAILABLE"))]);
    assert g[0] == "freshness" && g[1] == "mode" && g[2] == "sha256" && g[3] == "status";
  }

  lemma OutputReads(r: Release)
    ensures OutputJson(r).Obj? && Lookup(OutputJson(r).members, T("version_output")) == Some(Str(r.version + r.commit))
  {}

  lemma OutputIs(v: JSON, r: Release)
    requires At(v, "binary") == OutputJson(r)
    ensures VersionOutput(v) == Str(r.version + r.commit)
  {
    OutputReads(r);
  }

  const TARGET := T("windows-x64")

  function Zeros(): (d: Text)
    ensures |d| == 64 && forall i :: 0 <= i < 64 ==> d[i] == 48
  {
    seq(64, _ => 48)
  }

  /** One Windows target whose archive is a tarball. */
  function TarballArtifacts(): seq<Artifact> {
    [Artifact(ARCHIVE, ArchiveName(TARGET, false), Zeros(), 1, TARGET, []),
     Artifact(BINARY, BinaryName(TARGET), Zeros(), 1, TARGET, []),
     Artifact(SMOKE, ReceiptName(TARGET), Zeros(), 1, TARGET, Zeros())]
  }

  function TarballFiles(r: Release): Files {
    Files((_, _) => Some(Extracted(Zeros(), 1)), _ => Some(ReceiptJson(r)))
  }

  lemma KindsDiffer()
    ensures ARCHIVE != BINARY && ARCHIVE != SMOKE && BINARY != SMOKE
  {
    assert |ARCHIVE| == 15 && |BINARY| == 14 && |SMOKE| == 22;
  }

  lemma TarballCollected()
    ensures AllCollected(TarballArtifacts())
    ensures ArchiveName(TARGET, IsWindows(TARGET)) != ArchiveName(TARGET, false)
  {
    assert TargetName(TARGET) && IsWindows(TARGET);
    assert |ArchiveName(TARGET, true)| != |ArchiveName(TARGET, false)|;
  }

  /** Binding accepts the tarball of a Windows target; the rollback plan refuses it. */
  lemma TarballBoundNotPrepared(r: Release)
    requires ValidIdentity(r.version, r.commit, r.sourceRef)
    ensures var artifacts := TarballArtifacts();
      && AllCollected(artifacts) && Bound(TarballFiles(r), r, artifacts, {TARGET})
      && !Preparable(TarballFiles(r), r, artifacts, {TARGET})
  {
    hide ReceiptOk, ReceiptJson, ValidIdentity, ArchiveName, BinaryName, ReceiptName, IsWindows, TargetName, Sha256Text;
    var artifacts := TarballArtifacts();
    var a, b, s := artifacts[0], artifacts[1], artifacts[2];
    KindsDiffer();
    TarballCollected();
    ReceiptAccepted(r);
    assert Agrees(TarballFiles(r), r, a, b, s);
    assert Entry(artifacts, ARCHIVE, TARGET, a) && Entry(artifacts, BINARY, TARGET, b) && Entry(artifacts, SMOKE, TARGET, s);
    assert BoundTarget(TarballFiles(r), r, artifacts, TARGET);
    assert a in artifacts;
  }
}
