/**
 * The operational documents as schemas, in literals: which JSON values are accepted, down
 * to the file names of each target.
 */
module DocumentLaws {
  import opened Basics
  import opened Alphabets
  import LexOrder
  import opened JsonValue
  import opened JsonText
  import opened ReleaseContract
  import opened ContractLaws
  import opened RuntimeBindings
  import opened OperationalDocuments
  import CiScope

  // -------------------------------------------------------------- scalars

  predicate AllIn(t: Text, alphabet: Text) {
    t != [] && forall i :: 0 <= i < |t| ==> t[i] in alphabet
  }

  const NAME_CHARACTERS := LOWERS + DIGITS + T("_-")
  const LABEL_CHARACTERS := UPPERS + LOWERS + DIGITS + T(".-")

  /** Nothing, or a dash and a label. */
  predicate IsLabel(t: Text) {
    t == [] || (t[0] == T("-")[0] && AllIn(t[1..], LABEL_CHARACTERS))
  }

  /** Three numbers between dots, then perhaps a label. */
  ghost predicate IsVersion(t: Text) {
    exists a, b, c, s ::
      AllIn(a, DIGITS) && AllIn(b, DIGITS) && AllIn(c, DIGITS) && IsLabel(s)
      && t == a + (T(".") + (b + (T(".") + (c + s))))
  }

  lemma AlphabetsLaw(c: Code)
    ensures c in NAME_CHARACTERS <==> 97 <= c < 123 || IsDigit(c) || c == 0x5F || c == 0x2D
    ensures c in LABEL_CHARACTERS <==> IsDigit(c) || 65 <= c < 91 || 97 <= c < 123 || c == 0x2E || c == 0x2D
  {
    hide DIGITS, LOWERS, UPPERS;
    Digits(c);
    Lowers(c);
    Uppers(c);
    assert c in T("_-") <==> c == 0x5F || c == 0x2D by { assert T("_-") == [0x5F, 0x2D]; }
    assert c in T(".-") <==> c == 0x2E || c == 0x2D by { assert T(".-") == [0x2E, 0x2D]; }
  }

  lemma AllAlphabets()
    ensures forall c: Code :: c in DIGITS <==> IsDigit(c)
    ensures forall c: Code :: c in LOWER_HEX <==> IsDigit(c) || 97 <= c < 103
    ensures forall c: Code :: c in NAME_CHARACTERS <==> 97 <= c < 123 || IsDigit(c) || c == 0x5F || c == 0x2D
    ensures forall c: Code :: c in LABEL_CHARACTERS <==> IsDigit(c) || 65 <= c < 91 || 97 <= c < 123 || c == 0x2E || c == 0x2D
  {
    hide *;
    forall c: Code
      ensures c in DIGITS <==> IsDigit(c)
      ensures c in LOWER_HEX <==> IsDigit(c) || 97 <= c < 103
      ensures c in NAME_CHARACTERS <==> 97 <= c < 123 || IsDigit(c) || c == 0x5F || c == 0x2D
      ensures c in LABEL_CHARACTERS <==> IsDigit(c) || 65 <= c < 91 || 97 <= c < 123 || c == 0x2E || c == 0x2D
    {
      Digits(c);
      AlphabetsLaw(c);
    }
  }

  /** Digits followed by no digit are the leading run. */
  lemma RunIs(d: Text, rest: Text)
    requires AllIn(d, DIGITS) && (rest == [] || !IsDigit(rest[0]))
    ensures DigitRun(d + rest) == |d|
  {
    hide DIGITS, DigitRun;
    AllAlphabets();
    var t := d + rest;
    assert forall i :: 0 <= i < |d| ==> IsDigit(t[i]);
    assert rest != [] ==> t[|d|] == rest[0];
  }

  lemma RunOf(t: Text)
    requires DigitRun(t) > 0
    ensures AllIn(t[..DigitRun(t)], DIGITS)
  {
    hide DIGITS, DigitRun;
    AllAlphabets();
  }

  lemma DotFollows(t: Text, n: nat)
    requires n > 1
    ensures Dotted(t, n) <==> exists a, u :: AllIn(a, DIGITS) && Dotted(u, n - 1) && t == a + (T(".") + u)
  {
    hide DIGITS, DigitRun, AllIn, Dotted;
    if Dotted(t, n) {
      DotThere(t, n);
      RunOf(t);
    }
    if a, u :| AllIn(a, DIGITS) && Dotted(u, n - 1) && t == a + (T(".") + u) {
      DotAfter(a, u, n);
    }
  }

  lemma DotThere(t: Text, n: nat)
    requires n > 1 && Dotted(t, n)
    ensures var k := DigitRun(t);
      0 < k < |t| && Dotted(t[k + 1..], n - 1) && t == t[..k] + (T(".") + t[k + 1..])
  {
    hide DigitRun;
    assert T(".") == [0x2E];
  }

  lemma DotAfter(a: Text, u: Text, n: nat)
    requires n > 1 && AllIn(a, DIGITS) && Dotted(u, n - 1)
    ensures Dotted(a + (T(".") + u), n)
  {
    hide DIGITS, DigitRun, AllIn;
    var t := a + (T(".") + u);
    assert (T(".") + u)[0] == 0x2E;
    RunIs(a, T(".") + u);
    NotEmpty(a);
    assert t[|a|] == 0x2E && t[|a| + 1..] == u;
  }

  lemma NotEmpty(d: Text)
    requires AllIn(d, DIGITS)
    ensures d != []
  {}

  lemma LabelIs(t: Text, k: nat)
    requires k < |t|
    ensures IsLabel(t[k..]) <==>
      t[k] == 0x2D && k + 1 < |t|
      && forall i :: k < i < |t| ==> IsDigit(t[i]) || 65 <= t[i] < 91 || 97 <= t[i] < 123 || t[i] == 0x2E || t[i] == 0x2D
  {
    hide LABEL_CHARACTERS;
    AllAlphabets();
    var s := t[k..];
    assert |s[1..]| == |t| - k - 1 && forall i :: k < i < |t| ==> t[i] == s[1..][i - k - 1];
    assert forall i :: 0 <= i < |s[1..]| ==> s[1..][i] == t[k + 1 + i];
  }

  lemma LabelFollows(t: Text)
    ensures Dotted(t, 1) <==> exists c, s :: AllIn(c, DIGITS) && IsLabel(s) && t == c + s
  {
    hide DIGITS, DigitRun, AllIn, IsLabel;
    var k := DigitRun(t);
    if k < |t| { LabelIs(t, k); }
    assert t[|t|..] == [];
    if Dotted(t, 1) {
      RunOf(t);
      assert t == t[..k] + t[k..];
      EmptyLabel();
    }
    if c, s :| AllIn(c, DIGITS) && IsLabel(s) && t == c + s {
      LabelHead(s);
      RunIs(c, s);
      NotEmpty(c);
      assert t[k..] == s;
    }
  }

  lemma EmptyLabel()
    ensures IsLabel([])
  {}

  lemma LabelHead(s: Text)
    requires IsLabel(s)
    ensures s == [] || s[0] == 0x2D
  {}

  lemma VersionLaw(t: Text)
    ensures Dotted(t, 3) <==> IsVersion(t)
  {
    hide Dotted, AllIn, IsLabel, T, DIGITS;
    DotFollows(t, 3);
    if Dotted(t, 3) {
      var a, u :| AllIn(a, DIGITS) && Dotted(u, 2) && t == a + (T(".") + u);
      DotFollows(u, 2);
      var b, w :| AllIn(b, DIGITS) && Dotted(w, 1) && u == b + (T(".") + w);
      LabelFollows(w);
      var c, s :| AllIn(c, DIGITS) && IsLabel(s) && w == c + s;
      assert t == a + (T(".") + (b + (T(".") + (c + s))));
    }
    if IsVersion(t) { VersionDotted(t); }
  }

  lemma VersionDotted(t: Text)
    requires IsVersion(t)
    ensures Dotted(t, 3)
  {
    hide Dotted, AllIn, IsLabel, T, DIGITS;
    var a, b, c, s :| AllIn(a, DIGITS) && AllIn(b, DIGITS) && AllIn(c, DIGITS) && IsLabel(s)
      && t == a + (T(".") + (b + (T(".") + (c + s))));
    var w := c + s;
    var u := b + (T(".") + w);
    LabelFollows(w);
    DotFollows(u, 2);
    DotFollows(t, 3);
  }

  // ------------------------------------------------------------- the schemas

  /** Version, commit and the tag of that version. */
  ghost predicate IdentityShaped(v: JSON) {
    var version, commit := At(v, "version"), At(v, "commit");
    && version.Str? && IsVersion(version.s)
    && commit.Str? && |commit.s| == 40 && AllIn(commit.s, LOWER_HEX)
    && At(v, "source_ref") == Str(T("refs/tags/v") + version.s)
  }

  ghost predicate ForWindows(target: Text) {
    exists rest: Text :: target == T("windows-") + rest
  }

  /** Digest, size and target of a runtime, under these keys. */
  predicate BytesShaped(x: JSON, digest: string) {
    var d, n, t := At(x, digest), At(x, "size_bytes"), At(x, "target");
    && d.Str? && |d.s| == 64 && AllIn(d.s, LOWER_HEX)
    && n.Int? && 1 <= n.n <= 0xFFFF_FFFF_FFFF_FFFF
    && t.Str? && AllIn(t.s, NAME_CHARACTERS)
  }

  function Ext(yes: bool, suffix: string, otherwise: string): Text {
    if yes then T(suffix) else T(otherwise)
  }

  /** One row of the manifest: the raw binary of a target. */
  ghost predicate ManifestRow(x: JSON) {
    && Keys(x, ["target", "asset", "sha256", "size_bytes"])
    && BytesShaped(x, "sha256")
    && var t := At(x, "target").s;
      At(x, "asset") == Str(T("m1nd-mcp-") + t + Ext(ForWindows(t), ".exe", ""))
  }

  /** One binding of the plan: the four files of a target. */
  ghost predicate PlanRow(x: JSON) {
    && Keys(x, ["archive", "archive_member", "artifact_smoke_receipt", "raw_binary", "runtime_sha256", "size_bytes", "target"])
    && BytesShaped(x, "runtime_sha256")
    && var t := At(x, "target").s;
      && At(x, "archive") == Str(T("m1nd-mcp-") + t + Ext(ForWindows(t), ".zip", ".tar.gz"))
      && At(x, "archive_member") == Str(T("m1nd-mcp") + Ext(ForWindows(t), ".exe", ""))
      && At(x, "artifact_smoke_receipt") == Str(T("GATE-ARTIFACT-SMOKE-") + t + T(".json"))
      && At(x, "raw_binary") == Str(T("m1nd-mcp-") + t + Ext(ForWindows(t), ".exe", ""))
  }

  /** Rows, at least one, no target twice. */
  ghost predicate Rows(v: JSON, row: JSON -> bool) {
    && v.Arr? && v.items != [] && (forall i :: 0 <= i < |v.items| ==> row(v.items[i]))
    && forall i, j :: 0 <= i < j < |v.items| ==> At(v.items[i], "target") != At(v.items[j], "target")
  }

  ghost predicate ManifestShaped(v: JSON) {
    && Keys(v, ["schema", "version", "commit", "source_ref", "targets"])
    && At(v, "schema") == Str(T("m1nd-release-compatibility-manifest-v1")) && IdentityShaped(v)
    && Rows(At(v, "targets"), x => ManifestRow(x))
  }

  ghost predicate PlanShaped(v: JSON) {
    && Keys(v, ["schema", "version", "commit", "source_ref", "runtime_bindings", "activation", "rollback"])
    && At(v, "schema") == Str(T("m1nd-release-rollback-plan-v1")) && IdentityShaped(v)
    && Rows(At(v, "runtime_bindings"), x => PlanRow(x))
    && ActionsShaped(At(v, "activation"), At(v, "rollback"))
  }

  /** Nothing happens by itself: what the operator runs, and from what a rollback restores. */
  ghost predicate ActionsShaped(a: JSON, r: JSON) {
    && Keys(a, ["automatic", "command"])
    && At(a, "automatic") == Bool(false) && At(a, "command") == Str(T("m1nd update apply --yes"))
    && Keys(r, ["automatic", "command", "requires_local_state_schema", "source"])
    && At(r, "automatic") == Bool(false) && At(r, "command") == Str(T("m1nd update rollback"))
    && At(r, "requires_local_state_schema") == Str(T("m1nd-self-update-rollback-state-v0"))
    && At(r, "source") == Str(T("pre-activation local runtime backup"))
  }

  // ------------------------------------- the validators accept exactly these

  lemma WindowsLaw(t: Text)
    ensures IsWindows(t) <==> ForWindows(t)
  {
    if IsWindows(t) { assert t == T("windows-") + t[8..]; }
    if rest: Text :| t == T("windows-") + rest { assert t[..8] == T("windows-"); }
  }

  lemma IdentityLaw(v: JSON)
    ensures IdentityShaped(v) <==>
      && At(v, "version").Str? && At(v, "commit").Str? && At(v, "source_ref").Str?
      && ValidIdentity(At(v, "version").s, At(v, "commit").s, At(v, "source_ref").s)
  {
    hide Dotted, IsVersion, DIGITS, LOWER_HEX, NAME_CHARACTERS, LABEL_CHARACTERS, At;
    AllAlphabets();
    if At(v, "version").Str? { VersionLaw(At(v, "version").s); }
  }

  lemma BytesLaw(x: JSON, digest: string)
    ensures BytesShaped(x, digest) <==>
      var d, n, t := At(x, digest), At(x, "size_bytes"), At(x, "target");
      d.Str? && n.Int? && n.n >= 0 && t.Str? && Sha256Text(d.s) && U64Size(n.n) && TargetName(t.s)
  {
    hide DIGITS, LOWER_HEX, NAME_CHARACTERS, LABEL_CHARACTERS, At;
    AllAlphabets();
  }

  lemma ManifestRowLaw(x: JSON)
    ensures ManifestRow(x) <==> ReadRuntime(x).Some? && RuntimeOk(ReadRuntime(x).value)
    ensures ManifestRow(x) ==> At(x, "target") == Str(ReadRuntime(x).value.target)
  {
    hide At, Keys, ExactKeys, BytesShaped, TargetName, Sha256Text, U64Size, IsWindows, ForWindows, T;
    KeysLaw(x, RUNTIME_FIELDS);
    BytesLaw(x, "sha256");
    if At(x, "target").Str? { BinaryNamed(At(x, "target").s); }
  }

  lemma BinaryNamed(t: Text)
    ensures BinaryName(t) == T("m1nd-mcp-") + t + Ext(ForWindows(t), ".exe", "")
    ensures ArchiveName(t, IsWindows(t)) == T("m1nd-mcp-") + t + Ext(ForWindows(t), ".zip", ".tar.gz")
    ensures MemberName(t) == T("m1nd-mcp") + Ext(ForWindows(t), ".exe", "")
    ensures ReceiptName(t) == T("GATE-ARTIFACT-SMOKE-") + t + T(".json")
  {
    hide IsWindows, ForWindows;
    WindowsLaw(t);
    assert T("") == [];
    assert T("m1nd-mcp") + T(".exe") == T("m1nd-mcp.exe") && T("m1nd-mcp") + [] == T("m1nd-mcp");
  }

  lemma PlanRowLaw(x: JSON)
    ensures PlanRow(x) <==> ReadBinding(x).Some? && BindingOk(ReadBinding(x).value)
    ensures PlanRow(x) ==> At(x, "target") == Str(ReadBinding(x).value.target)
  {
    hide At, Keys, ExactKeys, BytesShaped, TargetName, Sha256Text, U64Size, IsWindows, ForWindows, T,
      BinaryName, ArchiveName, MemberName, ReceiptName;
    KeysLaw(x, BINDING_FIELDS);
    BytesLaw(x, "runtime_sha256");
    if At(x, "target").Str? { BinaryNamed(At(x, "target").s); }
  }

  /** An accepted compatibility manifest is exactly a JSON value of this schema. */
  lemma ManifestLaw(v: JSON)
    ensures (exists c :: ReadsCompatibility(v, c) && ValidCompatibility(c)) <==> ManifestShaped(v)
  {
    hide At, Keys, ExactKeys, IdentityShaped, ValidIdentity, ManifestRow, ReadRuntime, RuntimeOk, T;
    KeysLaw(v, COMPATIBILITY_FIELDS);
    IdentityLaw(v);
    forall x
      ensures ManifestRow(x) <==> ReadRuntime(x).Some? && RuntimeOk(ReadRuntime(x).value)
      ensures ManifestRow(x) ==> At(x, "target") == Str(ReadRuntime(x).value.target)
    {
      ManifestRowLaw(x);
    }
    if ManifestShaped(v) {
      var items := At(v, "targets").items;
      var rows := seq(|items|, i requires 0 <= i < |items| && ReadRuntime(items[i]).Some? => ReadRuntime(items[i]).value);
      var c := Compatibility(At(v, "version").s, At(v, "commit").s, At(v, "source_ref").s, rows);
      assert ReadsCompatibility(v, c) && ValidCompatibility(c);
    }
  }

  lemma ActionsLaw(v: JSON)
    ensures Explicit(v) <==> ActionsShaped(At(v, "activation"), At(v, "rollback"))
  {
    hide At, Keys, ExactKeys, T;
    KeysLaw(At(v, "activation"), ACTIVATION_FIELDS);
    KeysLaw(At(v, "rollback"), ACTION_FIELDS);
  }

  /** An accepted rollback plan is exactly a JSON value of this schema. */
  lemma PlanLaw(v: JSON)
    ensures (exists p :: ReadsRollback(v, p) && ValidRollback(p)) <==> PlanShaped(v)
  {
    hide At, Keys, ExactKeys, IdentityShaped, ValidIdentity, PlanRow, ReadBinding, BindingOk, T, Explicit, ActionsShaped;
    KeysLaw(v, ROLLBACK_FIELDS);
    ActionsLaw(v);
    IdentityLaw(v);
    forall x
      ensures PlanRow(x) <==> ReadBinding(x).Some? && BindingOk(ReadBinding(x).value)
      ensures PlanRow(x) ==> At(x, "target") == Str(ReadBinding(x).value.target)
    {
      PlanRowLaw(x);
    }
    if PlanShaped(v) {
      var items := At(v, "runtime_bindings").items;
      var rows := seq(|items|, i requires 0 <= i < |items| && ReadBinding(items[i]).Some? => ReadBinding(items[i]).value);
      var p := Rollback(At(v, "version").s, At(v, "commit").s, At(v, "source_ref").s, rows);
      assert ReadsRollback(v, p) && ValidRollback(p);
    }
  }

  // ------------------------------------------- what is bound before they are written

  /** A smoke receipt of this release: who was expected, and which UI was served. */
  ghost predicate ReceiptShaped(v: JSON, r: Release) {
    var expected, ui := At(v, "expected"), At(v, "ui_bundle");
    && Keys(expected, ["commit", "version"])
    && At(expected, "version") == Str(r.version) && At(expected, "commit") == Str(r.commit)
    && Keys(ui, ["freshness", "mode", "sha256", "status"])
    && At(ui, "freshness") == Str(T("FRESH")) && At(ui, "mode") == Str(T("embedded"))
    && At(ui, "sha256") == Str(r.uiSha256) && At(ui, "status") == Str(T("AVAILABLE"))
  }

  /** A receipt is accepted if, besides, its version output has the version and seven digits of the commit. */
  lemma ReceiptLaw(v: JSON, r: Release, output: Text)
    requires At(v, "binary").Obj? && At(At(v, "binary"), "version_output") == Str(output) && |r.commit| >= 7
    ensures ReceiptOk(v, r) <==> ReceiptShaped(v, r) && Contains(output, r.version) && Contains(output, r.commit[..7])
  {
    hide Keys, ExactKeys, T, Contains;
    KeysLaw(At(v, "expected"), ["commit", "version"]);
    KeysLaw(At(v, "ui_bundle"), ["freshness", "mode", "sha256", "status"]);
    assert |r.commit| == 7 ==> r.commit[..7] == r.commit;
    OutputFound(v, output);
  }

  lemma OutputFound(v: JSON, output: Text)
    requires At(v, "binary").Obj? && At(At(v, "binary"), "version_output") == Str(output)
    ensures VersionOutput(v) == Str(output)
  {
    hide T, Lookup;
  }

  /** The one file of a kind for a target. */
  ghost predicate OnlyFile(artifacts: seq<Artifact>, kind: string, target: Text, e: Artifact) {
    exists i :: 0 <= i < |artifacts| && artifacts[i] == e && e.kind == kind && e.target == target
      && forall j :: 0 <= j < |artifacts| && artifacts[j].kind == kind && artifacts[j].target == target ==> j == i
  }

  /** Archive, binary and receipt of a target agree on the bytes. */
  ghost predicate SameBytes(f: Files, r: Release, artifacts: seq<Artifact>, t: Text) {
    exists archive, binary, receipt ::
      && OnlyFile(artifacts, "runtime_archive", t, archive) && OnlyFile(artifacts, "runtime_binary", t, binary)
      && OnlyFile(artifacts, "artifact_smoke_receipt", t, receipt)
      && f.runtime(archive.name, archive.target) == Some(Extracted(binary.sha256, binary.size))
      && receipt.runtimeSha == binary.sha256
      && f.receipt(receipt.name).Some? && ReceiptOk(f.receipt(receipt.name).value, r)
  }

  /** Every runtime file belongs to a target. */
  ghost predicate NoOthers(artifacts: seq<Artifact>, targets: set<Text>) {
    forall e :: e in artifacts && (e.kind == "runtime_archive" || e.kind == "runtime_binary" || e.kind == "artifact_smoke_receipt")
      ==> e.target in targets
  }

  /** Binding succeeds exactly if each target has one file of each kind, they agree, and there are no others. */
  lemma BoundLaw(f: Files, r: Release, artifacts: seq<Artifact>, targets: set<Text>)
    ensures Bound(f, r, artifacts, targets) <==>
      NoOthers(artifacts, targets) && forall t :: t in targets ==> SameBytes(f, r, artifacts, t)
  {
    hide SameBytes, BoundTarget, OneEach;
    KindsListed();
    if Bound(f, r, artifacts, targets) {
      forall t | t in targets ensures SameBytes(f, r, artifacts, t) { BytesAgree(f, r, artifacts, targets, t); }
    }
    if NoOthers(artifacts, targets) && forall t :: t in targets ==> SameBytes(f, r, artifacts, t) {
      forall t | t in targets
        ensures BoundTarget(f, r, artifacts, t)
        ensures Once(artifacts, ARCHIVE, t) && Once(artifacts, BINARY, t) && Once(artifacts, SMOKE, t)
      {
        AgreeBound(f, r, artifacts, t);
      }
      EachOnce(artifacts, ARCHIVE, targets);
      EachOnce(artifacts, BINARY, targets);
      EachOnce(artifacts, SMOKE, targets);
    }
  }

  lemma KindsListed()
    ensures forall k :: k in [ARCHIVE, BINARY, SMOKE] <==>
      k == "runtime_archive" || k == "runtime_binary" || k == "artifact_smoke_receipt"
  {}

  ghost predicate Once(artifacts: seq<Artifact>, kind: string, t: Text) {
    forall i, j :: 0 <= i < j < |artifacts| && artifacts[i].kind == kind && artifacts[j].kind == kind ==>
      !(artifacts[i].target == t && artifacts[j].target == t)
  }

  lemma EachOnce(artifacts: seq<Artifact>, kind: string, targets: set<Text>)
    requires forall t :: t in targets ==> Once(artifacts, kind, t)
    requires forall e :: e in artifacts && e.kind == kind ==> e.target in targets
    ensures OneEach(artifacts, kind)
  {}

  lemma OnlyOne(artifacts: seq<Artifact>, kind: string, t: Text, e: Artifact)
    ensures OnlyFile(artifacts, kind, t, e) <==> Entry(artifacts, kind, t, e) && Once(artifacts, kind, t)
  {
    if Entry(artifacts, kind, t, e) && Once(artifacts, kind, t) {
      var i :| 0 <= i < |artifacts| && artifacts[i] == e;
    }
  }

  lemma BytesAgree(f: Files, r: Release, artifacts: seq<Artifact>, targets: set<Text>, t: Text)
    requires Bound(f, r, artifacts, targets) && t in targets
    ensures SameBytes(f, r, artifacts, t)
  {
    hide OnlyFile, Once, ReceiptOk;
    var a, b, s :| Entry(artifacts, ARCHIVE, t, a) && Entry(artifacts, BINARY, t, b) && Entry(artifacts, SMOKE, t, s)
      && Agrees(f, r, a, b, s);
    OneEachOnce(artifacts, ARCHIVE, t);
    OneEachOnce(artifacts, BINARY, t);
    OneEachOnce(artifacts, SMOKE, t);
    OnlyOne(artifacts, ARCHIVE, t, a);
    OnlyOne(artifacts, BINARY, t, b);
    OnlyOne(artifacts, SMOKE, t, s);
  }

  lemma OneEachOnce(artifacts: seq<Artifact>, kind: string, t: Text)
    requires OneEach(artifacts, kind)
    ensures Once(artifacts, kind, t)
  {}

  lemma AgreeBound(f: Files, r: Release, artifacts: seq<Artifact>, t: Text)
    requires SameBytes(f, r, artifacts, t)
    ensures BoundTarget(f, r, artifacts, t)
    ensures Once(artifacts, ARCHIVE, t) && Once(artifacts, BINARY, t) && Once(artifacts, SMOKE, t)
  {
    hide OnlyFile, Once, ReceiptOk;
    forall kind, e ensures OnlyFile(artifacts, kind, t, e) <==> Entry(artifacts, kind, t, e) && Once(artifacts, kind, t) {
      OnlyOne(artifacts, kind, t, e);
    }
  }
}
