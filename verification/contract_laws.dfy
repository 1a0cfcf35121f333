/**
 * The release contract as a schema: for every field of the three cores the shape its value
 * must have, and the rules that tie fields together. The validators accept exactly this.
 */
module ContractLaws {
  import opened Basics
  import opened Sorting
  import opened Utf8
  import opened JsonValue
  import opened Canonical
  import opened Framing
  import opened ReleaseContract
  import opened Convergence

  datatype Shape =
    | Hex64 | Hex64OrNull | Words | Seconds | ExitCode | Choice(names: seq<string>)
    | WordMap | Hex64Map | FindingList | StringList

  predicate IsHex64(v: JSON) {
    v.Str? && |v.s| == 64 && forall i :: 0 <= i < 64 ==> v.s[i] in T("0123456789abcdefABCDEF")
  }

  /** Text with something other than white space in it. */
  predicate IsWords(v: JSON) {
    v.Str? && exists i :: 0 <= i < |v.s| && !IsWhite(v.s[i])
  }

  predicate IsChoice(v: JSON, names: seq<string>) {
    exists i :: 0 <= i < |names| && v == Str(T(names[i]))
  }

  /** A finding: five fields of these shapes. */
  ghost predicate FindingShaped(v: JSON) {
    && Keys(v, ["finding_id", "severity", "status", "statement", "evidence_digest"])
    && IsWords(At(v, "finding_id")) && IsChoice(At(v, "severity"), ["P0", "P1", "P2", "P3", "Info"])
    && IsChoice(At(v, "status"), ["OPEN", "CLOSED"]) && IsWords(At(v, "statement")) && IsHex64(At(v, "evidence_digest"))
  }

  /** An object with these keys, no more and no fewer. */
  ghost predicate Keys(v: JSON, names: seq<string>) {
    && v.Obj?
    && (forall i :: 0 <= i < |v.members| ==> OneOfNames(v.members[i].key, names))
    && (forall j :: 0 <= j < |names| ==> HasKey(v.members, T(names[j])))
  }

  predicate OneOfNames(k: Text, names: seq<string>) {
    exists j :: 0 <= j < |names| && k == T(names[j])
  }

  ghost predicate Shaped(v: JSON, s: Shape) {
    match s
    case Hex64 => IsHex64(v)
    case Hex64OrNull => v.Null? || IsHex64(v)
    case Words => IsWords(v)
    case Seconds => v.Int? && 0 <= v.n <= 0xFFFF_FFFF_FFFF_FFFF
    case ExitCode => v.Null? || (v.Int? && -0x8000_0000 <= v.n <= 0x7FFF_FFFF)
    case Choice(names) => IsChoice(v, names)
    case WordMap =>
      v.Obj? && v.members != []
      && forall i :: 0 <= i < |v.members| ==> IsWords(Str(v.members[i].key)) && IsWords(v.members[i].value)
    case Hex64Map =>
      v.Obj? && v.members != []
      && forall i :: 0 <= i < |v.members| ==> IsWords(Str(v.members[i].key)) && IsHex64(v.members[i].value)
    case FindingList =>
      && v.Arr? && (forall i :: 0 <= i < |v.items| ==> FindingShaped(v.items[i]))
      && forall i, j :: 0 <= i < j < |v.items| ==> At(v.items[i], "finding_id") != At(v.items[j], "finding_id")
    case StringList => v.Arr? && forall i :: 0 <= i < |v.items| ==> v.items[i].Str?
  }

  // ------------------------------------------------------------- schemas

  /** Two numbers, the second no smaller. */
  predicate InOrder(a: JSON, b: JSON) {
    a.Int? && b.Int? && a.n <= b.n
  }

  const GATES := ["G0", "G1", "G2", "G3", "G4", "G5", "G6", "G7", "G8", "G9", "G10"]

  /** The core of a release candidate. */
  ghost predicate CandidateShaped(v: JSON) {
    && Keys(v, [
      "repo_commits", "artifact_digests", "schema_policy_versions", "tool_catalog_digest",
      "safety_kernel_digest", "previous_governance_runtime_digest", "constitution_epoch_digest",
      "autonomy_epoch_grants_digest", "independence_quorum_policy_digest", "intended_active_mode",
      "compatibility_manifest_digest", "rollback_plan_digest", "harness_fixture_threat_digests",
      "build_environment_digest", "built_at"])
    && Shaped(At(v, "repo_commits"), WordMap)
    && Shaped(At(v, "artifact_digests"), Hex64Map)
    && Shaped(At(v, "schema_policy_versions"), WordMap)
    && Shaped(At(v, "tool_catalog_digest"), Hex64)
    && Shaped(At(v, "safety_kernel_digest"), Hex64)
    && Shaped(At(v, "previous_governance_runtime_digest"), Hex64)
    && Shaped(At(v, "constitution_epoch_digest"), Hex64)
    && Shaped(At(v, "autonomy_epoch_grants_digest"), Hex64)
    && Shaped(At(v, "independence_quorum_policy_digest"), Hex64)
    && Shaped(At(v, "intended_active_mode"), Choice(["HUMAN_GATED", "POLICY_AUTONOMOUS", "FULL_AUTONOMY"]))
    && Shaped(At(v, "compatibility_manifest_digest"), Hex64)
    && Shaped(At(v, "rollback_plan_digest"), Hex64)
    && Shaped(At(v, "harness_fixture_threat_digests"), Hex64Map)
    && Shaped(At(v, "build_environment_digest"), Hex64)
    && Shaped(At(v, "built_at"), Seconds)
  }

  /** The core of a gate receipt; a pass has exit code zero, a gate not run has none. */
  ghost predicate GateShaped(v: JSON) {
    && Keys(v, [
      "candidate_digest", "gate_id", "custody_floor", "spec_version", "metric_spec_digest",
      "harness_fixture_digest", "environment_digest", "provider_id", "provider_key_version",
      "input_digests", "command", "started_at", "ended_at", "exit_code", "verdict", "findings",
      "artifact_digests"])
    && Shaped(At(v, "candidate_digest"), Hex64)
    && Shaped(At(v, "gate_id"), Choice(GATES))
    && Shaped(At(v, "custody_floor"), Choice(["secure-enclave-single-host-v1"]))
    && Shaped(At(v, "spec_version"), Words)
    && Shaped(At(v, "metric_spec_digest"), Hex64OrNull)
    && Shaped(At(v, "harness_fixture_digest"), Hex64)
    && Shaped(At(v, "environment_digest"), Hex64)
    && Shaped(At(v, "provider_id"), Words)
    && Shaped(At(v, "provider_key_version"), Words)
    && Shaped(At(v, "input_digests"), Hex64Map)
    && Shaped(At(v, "command"), Words)
    && Shaped(At(v, "started_at"), Seconds)
    && Shaped(At(v, "ended_at"), Seconds)
    && Shaped(At(v, "exit_code"), ExitCode)
    && Shaped(At(v, "verdict"), Choice(["PASS", "FAIL", "NOT_RUN", "NOT_PROVEN"]))
    && Shaped(At(v, "findings"), FindingList)
    && Shaped(At(v, "artifact_digests"), Hex64Map)
    && InOrder(At(v, "started_at"), At(v, "ended_at"))
    && (At(v, "verdict") == Str(T("PASS")) ==> At(v, "exit_code") == Int(0))
    && (At(v, "verdict") == Str(T("NOT_RUN")) ==> At(v, "exit_code") == Null)
  }

  /** The core of an independent review. */
  ghost predicate ReviewShaped(v: JSON) {
    && Keys(v, [
      "candidate_digest", "threat_matrix_digest", "provider_id", "provider_model_version",
      "provider_key_version", "reviewed_inputs_digest", "binding_changes", "started_at", "ended_at",
      "verdict", "findings"])
    && Shaped(At(v, "candidate_digest"), Hex64)
    && Shaped(At(v, "threat_matrix_digest"), Hex64)
    && Shaped(At(v, "provider_id"), Words)
    && Shaped(At(v, "provider_model_version"), Words)
    && Shaped(At(v, "provider_key_version"), Words)
    && Shaped(At(v, "reviewed_inputs_digest"), Hex64)
    && Shaped(At(v, "binding_changes"), StringList)
    && Shaped(At(v, "started_at"), Seconds)
    && Shaped(At(v, "ended_at"), Seconds)
    && Shaped(At(v, "verdict"), Choice(["PASS", "FAIL", "NOT_RUN", "NOT_PROVEN"]))
    && Shaped(At(v, "findings"), FindingList)
    && InOrder(At(v, "started_at"), At(v, "ended_at"))
  }

  // ------------------------------------------------- the scalar checks agree

  lemma HexCharacters(c: Code)
    ensures IsHexChar(c) <==> c in T("0123456789abcdefABCDEF")
  {
    var t := T("0123456789abcdefABCDEF");
    if 48 <= c < 58 { assert t[c - 48] == c; }
    if 97 <= c < 103 { assert t[c - 87] == c; }
    if 65 <= c < 71 { assert t[c - 49] == c; }
  }

  lemma DigestLaw(v: JSON)
    ensures IsDigest(v) <==> IsHex64(v)
  {
    hide IsHexChar;
    forall c: Code ensures IsHexChar(c) <==> c in T("0123456789abcdefABCDEF") { HexCharacters(c); }
  }

  lemma ChoiceLaw(v: JSON, names: seq<string>)
    ensures IsOneOf(v, names) <==> IsChoice(v, names)
  {}

  lemma MapLaw(v: JSON)
    ensures IsNamedMap(v, false) <==> Shaped(v, WordMap)
    ensures IsNamedMap(v, true) <==> Shaped(v, Hex64Map)
  {
    hide IsHex64, IsDigest;
    forall x ensures IsDigest(x) <==> IsHex64(x) { DigestLaw(x); }
  }

  lemma InKeySet(ms: seq<Member>, k: Text)
    ensures k in KeySet(ms) <==> HasKey(ms, k)
  {}

  lemma InNames(names: seq<string>, k: Text)
    ensures k in ReleaseContract.Names(names) <==> OneOfNames(k, names)
  {
    hide T;
  }

  lemma KeysLaw(v: JSON, names: seq<string>)
    ensures ExactKeys(v, names) <==> Keys(v, names)
  {
    hide T, KeySet, ReleaseContract.Names, HasKey, OneOfNames;
    if v.Obj? {
      var ms := v.members;
      forall k ensures k in KeySet(ms) <==> HasKey(ms, k) { InKeySet(ms, k); }
      forall k ensures k in ReleaseContract.Names(names) <==> OneOfNames(k, names) { InNames(names, k); }
      forall i | 0 <= i < |ms| ensures HasKey(ms, ms[i].key) { IsKeyAt(ms, i); }
      forall j | 0 <= j < |names| ensures OneOfNames(T(names[j]), names) { IsNameAt(names, j); }
      if Keys(v, names) {
        forall k ensures HasKey(ms, k) <==> OneOfNames(k, names) { SameKeys(v, names, k); }
      }
    }
  }

  lemma IsKeyAt(ms: seq<Member>, i: nat)
    requires i < |ms|
    ensures HasKey(ms, ms[i].key)
  {}

  lemma IsNameAt(names: seq<string>, j: nat)
    requires j < |names|
    ensures OneOfNames(T(names[j]), names)
  {}

  lemma SameKeys(v: JSON, names: seq<string>, k: Text)
    requires Keys(v, names)
    ensures HasKey(v.members, k) <==> OneOfNames(k, names)
  {
    hide T;
  }

  lemma FindingLaw(v: JSON)
    ensures IsFinding(v) <==> FindingShaped(v)
  {
    hide ExactKeys, Keys, IsDigest, IsHex64, IsOneOf, IsChoice, At;
    KeysLaw(v, ["finding_id", "severity", "status", "statement", "evidence_digest"]);
    ChoiceLaw(At(v, "severity"), ["P0", "P1", "P2", "P3", "Info"]);
    ChoiceLaw(At(v, "status"), ["OPEN", "CLOSED"]);
    DigestLaw(At(v, "evidence_digest"));
  }

  lemma FindingsLaw(v: JSON)
    ensures Findings(v) <==> Shaped(v, FindingList)
  {
    hide IsFinding, FindingShaped, At;
    forall x ensures IsFinding(x) <==> FindingShaped(x) { FindingLaw(x); }
  }

  // ------------------------------------------------------------- the cores

  lemma GateIdLaw(v: JSON)
    ensures v.Str? && v.s in GateIds() <==> IsChoice(v, GATES)
  {
    var g, n := GateIds(), GATES;
    assert g[0] == T(n[0]) && g[1] == T(n[1]) && g[2] == T(n[2]) && g[3] == T(n[3]) && g[4] == T(n[4]) && g[5] == T(n[5]);
    assert g[6] == T(n[6]) && g[7] == T(n[7]) && g[8] == T(n[8]) && g[9] == T(n[9]) && g[10] == T(n[10]);
    if v.Str? && v.s in g {
      var i :| 0 <= i < 11 && g[i] == v.s;
      assert v == Str(T(n[i]));
    }
    if IsChoice(v, n) {
      var i :| 0 <= i < 11 && v == Str(T(n[i]));
      assert g[i] == v.s;
    }
  }

  lemma CandidateLaw(v: JSON)
    ensures CandidateCore(v) <==> CandidateShaped(v)
  {
    hide ExactKeys, Keys, IsDigest, At, IsNamedMap, IsOneOf, Shaped, IsU64, T;
    KeysLaw(v, CANDIDATE_FIELDS);
    ModeLaw(At(v, "intended_active_mode"));
    MapLaw(At(v, "repo_commits"));
    MapLaw(At(v, "artifact_digests"));
    MapLaw(At(v, "schema_policy_versions"));
    MapLaw(At(v, "harness_fixture_threat_digests"));
    ShapesLaw(At(v, "tool_catalog_digest"));
    ShapesLaw(At(v, "safety_kernel_digest"));
    ShapesLaw(At(v, "previous_governance_runtime_digest"));
    ShapesLaw(At(v, "constitution_epoch_digest"));
    ShapesLaw(At(v, "autonomy_epoch_grants_digest"));
    ShapesLaw(At(v, "independence_quorum_policy_digest"));
    ShapesLaw(At(v, "compatibility_manifest_digest"));
    ShapesLaw(At(v, "rollback_plan_digest"));
    ShapesLaw(At(v, "build_environment_digest"));
    ShapesLaw(At(v, "built_at"));
  }

  lemma ModeLaw(v: JSON)
    ensures IsOneOf(v, ["HUMAN_GATED", "POLICY_AUTONOMOUS", "FULL_AUTONOMY"])
      <==> Shaped(v, Choice(["HUMAN_GATED", "POLICY_AUTONOMOUS", "FULL_AUTONOMY"]))
  {
    ChoiceLaw(v, ["HUMAN_GATED", "POLICY_AUTONOMOUS", "FULL_AUTONOMY"]);
  }

  lemma FloorLaw(v: JSON)
    ensures v == Str(T("secure-enclave-single-host-v1")) <==> IsChoice(v, ["secure-enclave-single-host-v1"])
  {
    var names := ["secure-enclave-single-host-v1"];
    assert names[0] == "secure-enclave-single-host-v1";
  }

  lemma ShapesLaw(v: JSON)
    ensures IsDigest(v) <==> Shaped(v, Hex64)
    ensures v.Null? || IsDigest(v) <==> Shaped(v, Hex64OrNull)
    ensures IsText(v) <==> Shaped(v, Words)
    ensures IsU64(v) <==> Shaped(v, Seconds)
    ensures IsI32OrNull(v) <==> Shaped(v, ExitCode)
    ensures IsNamedMap(v, true) <==> Shaped(v, Hex64Map)
    ensures Findings(v) <==> Shaped(v, FindingList)
    ensures v.Str? && v.s in GateIds() <==> Shaped(v, Choice(GATES))
    ensures IsOneOf(v, VERDICTS) <==> Shaped(v, Choice(["PASS", "FAIL", "NOT_RUN", "NOT_PROVEN"]))
    ensures v == Str(T("secure-enclave-single-host-v1")) <==> Shaped(v, Choice(["secure-enclave-single-host-v1"]))
  {
    hide IsDigest, IsHex64, IsNamedMap, IsText, IsWords, Findings, IsOneOf, IsChoice, GateIds;
    DigestLaw(v);
    TextLaw(v);
    MapLaw(v);
    FindingsLaw(v);
    GateIdLaw(v);
    ChoiceLaw(v, VERDICTS);
    FloorLaw(v);
  }

  lemma GateLaw(v: JSON)
    ensures GateCore(v) <==> GateShaped(v)
  {
    hide ExactKeys, Keys, IsDigest, At, IsNamedMap, IsText, Findings, GateIds, Shaped, IsOneOf, IsI32OrNull, T;
    KeysLaw(v, GATE_FIELDS);
    ShapesLaw(At(v, "candidate_digest"));
    ShapesLaw(At(v, "gate_id"));
    ShapesLaw(At(v, "custody_floor"));
    ShapesLaw(At(v, "spec_version"));
    ShapesLaw(At(v, "metric_spec_digest"));
    ShapesLaw(At(v, "harness_fixture_digest"));
    ShapesLaw(At(v, "environment_digest"));
    ShapesLaw(At(v, "provider_id"));
    ShapesLaw(At(v, "provider_key_version"));
    ShapesLaw(At(v, "input_digests"));
    ShapesLaw(At(v, "command"));
    ShapesLaw(At(v, "started_at"));
    ShapesLaw(At(v, "ended_at"));
    ShapesLaw(At(v, "exit_code"));
    ShapesLaw(At(v, "verdict"));
    ShapesLaw(At(v, "findings"));
    ShapesLaw(At(v, "artifact_digests"));
  }

  lemma TextLaw(v: JSON)
    ensures IsText(v) <==> IsWords(v)
  {}

  lemma ReviewLaw(v: JSON)
    ensures ReviewCore(v) <==> ReviewShaped(v)
  {
    hide ExactKeys, Keys, IsDigest, At, IsText, Findings, IsOneOf, Shaped, T;
    KeysLaw(v, REVIEW_FIELDS);
    StringsLaw(At(v, "binding_changes"));
    ShapesLaw(At(v, "candidate_digest"));
    ShapesLaw(At(v, "threat_matrix_digest"));
    ShapesLaw(At(v, "provider_id"));
    ShapesLaw(At(v, "provider_model_version"));
    ShapesLaw(At(v, "provider_key_version"));
    ShapesLaw(At(v, "reviewed_inputs_digest"));
    ShapesLaw(At(v, "started_at"));
    ShapesLaw(At(v, "ended_at"));
    ShapesLaw(At(v, "verdict"));
    ShapesLaw(At(v, "findings"));
  }

  lemma StringsLaw(v: JSON)
    ensures Shaped(v, StringList) <==> v.Arr? && forall i :: 0 <= i < |v.items| ==> v.items[i].Str?
  {}

  // ----------------------------------------------------- records and digests

  /** The digest of a core: the frame of domain and canonical bytes, hashed, in hexadecimal. */
  function DigestOver(h: Hash, domain: string, core: JSON): Text {
    Hex(h(DigestOctets(Encode(T(domain)), CanonicalBytes(core))))
  }

  lemma DigestOverLaw(h: Hash, k: Kind, core: JSON)
    requires Encodables(core)
    ensures DigestCanonical(h, Domain(k), core) == Some(DigestOver(h, Schema(k), core))
  {
    hide DigestOctets, DigestFrame, Hex, CanonicalBytes;
    DigestFrameLaw(Domain(k), CanonicalBytes(core));
  }

  /** Sealed records, written out. */
  lemma SealedLaw(h: Hash, core: JSON, signature: Text)
    requires Encodables(core)
    ensures Sealed(h, Candidate, core, signature) == Obj([
      Member(T("schema"), Str(T("m1nd-release-candidate-manifest-v1"))), Member(T("core"), core),
      Member(T("candidate_digest"), Str(DigestOver(h, "m1nd-release-candidate-manifest-v1", core))),
      Member(T("provenance_signature"), Str(signature))])
    ensures Sealed(h, Gate, core, signature) == Obj([
      Member(T("schema"), Str(T("m1nd-gate-receipt-v1"))), Member(T("core"), core),
      Member(T("receipt_id"), Str(T("gate:") + DigestOver(h, "m1nd-gate-receipt-v1", core))),
      Member(T("receipt_digest"), Str(DigestOver(h, "m1nd-gate-receipt-v1", core))),
      Member(T("signature"), Str(signature))])
    ensures Sealed(h, Review, core, signature) == Obj([
      Member(T("schema"), Str(T("m1nd-independent-adversarial-review-receipt-v1"))), Member(T("core"), core),
      Member(T("receipt_id"), Str(T("iar:") + DigestOver(h, "m1nd-independent-adversarial-review-receipt-v1", core))),
      Member(T("receipt_digest"), Str(DigestOver(h, "m1nd-independent-adversarial-review-receipt-v1", core))),
      Member(T("signature"), Str(signature))])
  {
    hide Sealed, DigestOver, T;
    SealedCandidate(h, core, signature);
    SealedReceipt(h, Gate, core, signature);
    SealedReceipt(h, Review, core, signature);
  }

  lemma SealedCandidate(h: Hash, core: JSON, signature: Text)
    requires Encodables(core)
    ensures Sealed(h, Candidate, core, signature) == Obj([
      Member(T("schema"), Str(T(Schema(Candidate)))), Member(T("core"), core),
      Member(T("candidate_digest"), Str(DigestOver(h, Schema(Candidate), core))),
      Member(T("provenance_signature"), Str(signature))])
  {
    hide DigestCanonical, DigestOver, T, Schema, Domain;
    DigestOverLaw(h, Candidate, core);
  }

  lemma SealedReceipt(h: Hash, k: Kind, core: JSON, signature: Text)
    requires Encodables(core) && k != Candidate
    ensures Sealed(h, k, core, signature) == Obj([
      Member(T("schema"), Str(T(Schema(k)))), Member(T("core"), core),
      Member(T("receipt_id"), Str(IdPrefix(k) + DigestOver(h, Schema(k), core))),
      Member(T("receipt_digest"), Str(DigestOver(h, Schema(k), core))),
      Member(T("signature"), Str(signature))])
  {
    hide DigestCanonical, DigestOver, T, Schema, Domain, IdPrefix;
    DigestOverLaw(h, k, core);
  }

  /** A receipt around its core: its fields, and an id and digest that fit. */
  ghost predicate Receipt(h: Hash, v: JSON, schema: string, prefix: string) {
    && Keys(v, ["schema", "core", "receipt_id", "receipt_digest", "signature"])
    && At(v, "schema") == Str(T(schema)) && Encodables(At(v, "core"))
    && At(v, "receipt_digest") == Str(DigestOver(h, schema, At(v, "core")))
    && At(v, "receipt_id") == Str(T(prefix) + DigestOver(h, schema, At(v, "core")))
    && At(v, "signature").Str? && At(v, "signature").s != []
  }

  ghost predicate GateRecord(h: Hash, v: JSON) {
    Receipt(h, v, "m1nd-gate-receipt-v1", "gate:") && GateShaped(At(v, "core"))
  }

  ghost predicate ReviewRecord(h: Hash, v: JSON) {
    Receipt(h, v, "m1nd-independent-adversarial-review-receipt-v1", "iar:") && ReviewShaped(At(v, "core"))
  }

  ghost predicate CandidateRecord(h: Hash, v: JSON) {
    && Keys(v, ["schema", "core", "candidate_digest", "provenance_signature"])
    && At(v, "schema") == Str(T("m1nd-release-candidate-manifest-v1"))
    && CandidateShaped(At(v, "core")) && Encodables(At(v, "core"))
    && At(v, "candidate_digest") == Str(DigestOver(h, "m1nd-release-candidate-manifest-v1", At(v, "core")))
    && At(v, "provenance_signature").Str? && At(v, "provenance_signature").s != []
  }

  /** The three validators accept exactly such records. */
  lemma RecordLaw(h: Hash, v: JSON)
    requires Sha(h)
    ensures ValidRecord(h, Candidate, v) <==> CandidateRecord(h, v)
    ensures ValidRecord(h, Gate, v) <==> GateRecord(h, v)
    ensures ValidRecord(h, Review, v) <==> ReviewRecord(h, v)
  {
    CandidateRecordLaw(h, v);
    GateRecordLaw(h, v);
    ReviewRecordLaw(h, v);
  }

  lemma CandidateRecordLaw(h: Hash, v: JSON)
    requires Sha(h)
    ensures ValidRecord(h, Candidate, v) <==> CandidateRecord(h, v)
  {
    hide CandidateCore, CandidateShaped, DigestCanonical, DigestOver, ExactKeys, Keys, At, T, Encodables, IsDigest;
    KeysLaw(v, ["schema", "core", "candidate_digest", "provenance_signature"]);
    CandidateLaw(At(v, "core"));
    DigestIsText(At(v, DigestField(Candidate)));
    CoreDigest(h, Candidate, At(v, "core"));
  }

  lemma ReceiptLaw(h: Hash, k: Kind, prefix: string, v: JSON)
    requires Sha(h) && k != Candidate && IdPrefix(k) == T(prefix)
    ensures ValidRecord(h, k, v) <==> Receipt(h, v, Schema(k), prefix) && Core(k, At(v, "core"))
  {
    hide Core, DigestCanonical, DigestOver, ExactKeys, Keys, At, T, Encodables, IsDigest, Schema, Domain, IdPrefix;
    KeysLaw(v, ["schema", "core", "receipt_id", "receipt_digest", "signature"]);
    DigestIsText(At(v, "receipt_digest"));
    CoreDigest(h, k, At(v, "core"));
  }

  lemma GateRecordLaw(h: Hash, v: JSON)
    requires Sha(h)
    ensures ValidRecord(h, Gate, v) <==> GateRecord(h, v)
  {
    hide GateCore, GateShaped, Receipt, ValidRecord, At, T;
    GateLaw(At(v, "core"));
    ReceiptLaw(h, Gate, "gate:", v);
  }

  lemma ReviewRecordLaw(h: Hash, v: JSON)
    requires Sha(h)
    ensures ValidRecord(h, Review, v) <==> ReviewRecord(h, v)
  {
    hide ReviewCore, ReviewShaped, Receipt, ValidRecord, At, T;
    ReviewLaw(At(v, "core"));
    ReceiptLaw(h, Review, "iar:", v);
  }

  lemma DigestIsText(v: JSON)
    ensures IsDigest(v) ==> v.Str?
  {}

  lemma CoreDigest(h: Hash, k: Kind, core: JSON)
    requires Sha(h)
    ensures DigestCanonical(h, Domain(k), core) == if Encodables(core) then Some(DigestOver(h, Schema(k), core)) else None
    ensures Encodables(core) ==> IsDigest(Str(DigestOver(h, Schema(k), core)))
  {
    hide DigestCanonical, DigestOver, Encodables, IsDigest, Schema, Domain;
    if Encodables(core) {
      DigestOverLaw(h, k, core);
      DigestShape(h, k, core);
    } else {
      NoDigest(h, Domain(k), core);
    }
  }

  lemma NoDigest(h: Hash, domain: Bytes, core: JSON)
    requires !Encodables(core)
    ensures DigestCanonical(h, domain, core) == None
  {}

  // ---------------------------------------------------------- convergence

  /** A finding that blocks a release: open, and of severity P0 or P1. */
  predicate OpenBlocker(finding: JSON) {
    At(finding, "status") == Str(T("OPEN")) && (At(finding, "severity") == Str(T("P0")) || At(finding, "severity") == Str(T("P1")))
  }

  /** A core that endorses: the same candidate digest, PASS, and no open blocker. */
  predicate Passing(core: JSON, candidate: JSON) {
    && At(core, "candidate_digest") == At(candidate, "candidate_digest") && At(core, "verdict") == Str(T("PASS"))
    && At(core, "findings").Arr?
    && forall i :: 0 <= i < |At(core, "findings").items| ==> !OpenBlocker(At(core, "findings").items[i])
  }

  lemma PassingLaw(core: JSON, candidate: JSON)
    requires At(core, "findings").Arr?
    ensures Endorses(core, candidate) <==> Passing(core, candidate)
  {
    hide At, IsOneOf;
    forall f ensures Blocking(f) <==> OpenBlocker(f) { BlockingLaw(f); }
    FindingsBlock(At(core, "findings"));
  }

  lemma FindingsBlock(findings: JSON)
    requires findings.Arr?
    ensures HasOpenBlocker(findings) <==> exists i :: 0 <= i < |findings.items| && Blocking(findings.items[i])
  {}

  lemma BlockingLaw(f: JSON)
    ensures Blocking(f) <==> OpenBlocker(f)
  {
    hide At;
    var names := ["P0", "P1"];
    assert names[0] == "P0" && names[1] == "P1";
  }

  /**
   * Evidence converges exactly when candidate and review are valid records, the review
   * passes the candidate, and the receipts are valid, passing, one for each of G0 to G10.
   */
  lemma ConvergedLaw(h: Hash, candidate: JSON, receipts: seq<JSON>, review: JSON)
    requires Sha(h)
    ensures Converged(h, EvidenceSet(candidate, receipts, review)) <==>
      && CandidateRecord(h, candidate) && ReviewRecord(h, review) && Passing(At(review, "core"), candidate)
      && (forall i :: 0 <= i < |receipts| ==> GateRecord(h, receipts[i]) && Passing(At(receipts[i], "core"), candidate))
      && multiset(GatesOf(receipts)) == multiset{T("G0"), T("G1"), T("G2"), T("G3"), T("G4"), T("G5"), T("G6"), T("G7"), T("G8"),
                                                  T("G9"), T("G10")}
  {
    hide ValidRecord, CandidateRecord, GateRecord, ReviewRecord, Endorses, Passing, At, EvidenceSet, Converged, GatesOf;
    EvidenceAccepted(h, candidate, receipts, review);
    RecordLaw(h, candidate);
    RecordLaw(h, review);
    if ReviewRecord(h, review) {
      ReviewFindings(h, review);
      PassingLaw(At(review, "core"), candidate);
    }
    forall i | 0 <= i < |receipts|
      ensures ValidRecord(h, Gate, receipts[i]) <==> GateRecord(h, receipts[i])
      ensures GateRecord(h, receipts[i]) ==> (Endorses(At(receipts[i], "core"), candidate) <==> Passing(At(receipts[i], "core"), candidate))
    {
      RecordLaw(h, receipts[i]);
      if GateRecord(h, receipts[i]) {
        GateFindings(h, receipts[i]);
        PassingLaw(At(receipts[i], "core"), candidate);
      }
    }
    GateNames();
  }

  lemma GateNames()
    ensures multiset(GateIds()) == multiset{T("G0"), T("G1"), T("G2"), T("G3"), T("G4"), T("G5"), T("G6"), T("G7"), T("G8"),
                                            T("G9"), T("G10")}
  {
    OneName(0, "G0");
    OneName(1, "G1");
    OneName(2, "G2");
    OneName(3, "G3");
    OneName(4, "G4");
    OneName(5, "G5");
    OneName(6, "G6");
    OneName(7, "G7");
    OneName(8, "G8");
    OneName(9, "G9");
    assert GateId(10) == T("G10");
    hide T, GateId;
  }

  lemma OneName(i: nat, name: string)
    requires i < 10 && |name| == 2 && name[0] == 'G' && name[1] as int == 48 + i
    ensures GateId(i) == T(name)
  {}

  lemma FindingsAre(v: JSON)
    requires Shaped(v, FindingList)
    ensures v.Arr?
  {}

  lemma ReviewFindings(h: Hash, review: JSON)
    requires ReviewRecord(h, review)
    ensures At(At(review, "core"), "findings").Arr?
  {
    hide At, Keys, DigestOver, T, Shaped, Encodables;
    FindingsAre(At(At(review, "core"), "findings"));
  }

  lemma GateFindings(h: Hash, receipt: JSON)
    requires GateRecord(h, receipt)
    ensures At(At(receipt, "core"), "findings").Arr?
  {
    hide At, Keys, DigestOver, T, Shaped, Encodables;
    FindingsAre(At(At(receipt, "core"), "findings"));
  }
}
