/**
 * The release contract on JSON values: records with a self-digest (candidates, gate
 * receipts, reviews), how they are sealed and validated, and what a digest binds.
 */
module ReleaseContract {
  import opened Basics
  import opened Utf8
  import opened JsonValue
  import opened Canonical
  import opened Framing

  // ------------------------------------------------------- object accessors

  function Lookup(ms: seq<Member>, k: Text): Option<JSON> {
    if ms == [] then None else if ms[0].key == k then Some(ms[0].value) else Lookup(ms[1..], k)
  }

  /** `v[k]`; the validators ask only for keys they have checked. */
  function At(v: JSON, k: string): JSON {
    if v.Obj? then match Lookup(v.members, T(k)) case Some(x) => x case None => Null else Null
  }

  function KeySet(ms: seq<Member>): set<Text> {
    set i | 0 <= i < |ms| :: ms[i].key
  }

  function Names(fields: seq<string>): set<Text> {
    set i | 0 <= i < |fields| :: T(fields[i])
  }

  /** `_exact_keys`. */
  predicate ExactKeys(v: JSON, fields: seq<string>) {
    v.Obj? && KeySet(v.members) == Names(fields)
  }

  lemma {:induction false} LookupAt(ms: seq<Member>, i: nat)
    requires i < |ms| && DistinctKeys(ms)
    ensures Lookup(ms, ms[i].key) == Some(ms[i].value)
  {
    if i > 0 { LookupAt(ms[1..], i - 1); }
  }

  // --------------------------------------------------------- scalar checks

  /** `_text` with trimming: something is left of it. */
  predicate IsText(v: JSON) {
    v.Str? && exists i :: 0 <= i < |v.s| && !IsWhite(v.s[i])
  }

  /** `_signature`: not empty. */
  predicate IsSignature(v: JSON) {
    v.Str? && v.s != []
  }

  predicate IsHexChar(c: Code) {
    48 <= c < 58 || 65 <= c < 71 || 97 <= c < 103
  }

  predicate IsDigest(v: JSON) {
    v.Str? && |v.s| == 64 && forall i :: 0 <= i < 64 ==> IsHexChar(v.s[i])
  }

  predicate IsU64(v: JSON) {
    v.Int? && 0 <= v.n < 0x1_0000_0000_0000_0000
  }

  predicate IsI32OrNull(v: JSON) {
    v.Null? || (v.Int? && -0x8000_0000 <= v.n < 0x8000_0000)
  }

  predicate IsOneOf(v: JSON, names: seq<string>) {
    v.Str? && exists i :: 0 <= i < |names| && v.s == T(names[i])
  }

  predicate IsNamedMember(m: Member, digests: bool) {
    IsText(Str(m.key)) && (if digests then IsDigest(m.value) else IsText(m.value))
  }

  /** `_named_map`. */
  predicate IsNamedMap(v: JSON, digests: bool) {
    v.Obj? && v.members != [] && forall i :: 0 <= i < |v.members| ==> IsNamedMember(v.members[i], digests)
  }

  // -------------------------------------------------------------- findings

  predicate IsFinding(v: JSON) {
    && ExactKeys(v, ["finding_id", "severity", "status", "statement", "evidence_digest"])
    && IsText(At(v, "finding_id"))
    && IsOneOf(At(v, "severity"), ["P0", "P1", "P2", "P3", "Info"])
    && IsOneOf(At(v, "status"), ["OPEN", "CLOSED"])
    && IsText(At(v, "statement"))
    && IsDigest(At(v, "evidence_digest"))
  }

  /** An array of findings, no id twice. */
  predicate Findings(v: JSON) {
    && v.Arr?
    && (forall i :: 0 <= i < |v.items| ==> IsFinding(v.items[i]))
    && (forall i, j :: 0 <= i < j < |v.items| ==> At(v.items[i], "finding_id") != At(v.items[j], "finding_id"))
  }

  /** `_findings`, with its set of seen ids. */
  method CheckFindings(v: JSON) returns (ok: bool)
    ensures ok <==> Findings(v)
  {
    hide IsFinding, At;
    if !v.Arr? {
      return false;
    }
    var seen: set<JSON> := {};
    var i := 0;
    while i < |v.items|
      invariant 0 <= i <= |v.items|
      invariant forall k :: 0 <= k < i ==> IsFinding(v.items[k])
      invariant forall k, l :: 0 <= k < l < i ==> At(v.items[k], "finding_id") != At(v.items[l], "finding_id")
      invariant forall x :: x in seen <==> exists k :: 0 <= k < i && At(v.items[k], "finding_id") == x
    {
      if !IsFinding(v.items[i]) {
        return false;
      }
      var id := At(v.items[i], "finding_id");
      if id in seen {
        return false;
      }
      seen := seen + {id};
      i := i + 1;
    }
    return true;
  }

  predicate Blocking(finding: JSON) {
    At(finding, "status") == Str(T("OPEN")) && IsOneOf(At(finding, "severity"), ["P0", "P1"])
  }

  /** `_has_open_p0_or_p1`. */
  predicate HasOpenBlocker(findings: JSON) {
    findings.Arr? && exists i :: 0 <= i < |findings.items| && Blocking(findings.items[i])
  }

  // ----------------------------------------------------------------- cores

  const CANDIDATE_FIELDS := [
    "repo_commits", "artifact_digests", "schema_policy_versions", "tool_catalog_digest", "safety_kernel_digest",
    "previous_governance_runtime_digest", "constitution_epoch_digest", "autonomy_epoch_grants_digest",
    "independence_quorum_policy_digest", "intended_active_mode", "compatibility_manifest_digest",
    "rollback_plan_digest", "harness_fixture_threat_digests", "build_environment_digest", "built_at"]

  /** `validate_candidate_core`. */
  predicate CandidateCore(core: JSON) {
    && ExactKeys(core, CANDIDATE_FIELDS)
    && IsNamedMap(At(core, "repo_commits"), false)
    && IsNamedMap(At(core, "artifact_digests"), true)
    && IsNamedMap(At(core, "schema_policy_versions"), false)
    && IsNamedMap(At(core, "harness_fixture_threat_digests"), true)
    && IsDigest(At(core, "tool_catalog_digest")) && IsDigest(At(core, "safety_kernel_digest"))
    && IsDigest(At(core, "previous_governance_runtime_digest")) && IsDigest(At(core, "constitution_epoch_digest"))
    && IsDigest(At(core, "autonomy_epoch_grants_digest")) && IsDigest(At(core, "independence_quorum_policy_digest"))
    && IsDigest(At(core, "compatibility_manifest_digest")) && IsDigest(At(core, "rollback_plan_digest"))
    && IsDigest(At(core, "build_environment_digest"))
    && IsOneOf(At(core, "intended_active_mode"), ["HUMAN_GATED", "POLICY_AUTONOMOUS", "FULL_AUTONOMY"])
    && IsU64(At(core, "built_at"))
  }

  const VERDICTS := ["PASS", "FAIL", "NOT_RUN", "NOT_PROVEN"]

  function GateId(i: nat): Text
    requires i < 11
  {
    if i < 10 then [71, 48 + i] else [71, 49, 48]
  }

  /** `GATE_IDS`: G0 to G10. */
  function GateIds(): seq<Text> {
    [GateId(0), GateId(1), GateId(2), GateId(3), GateId(4), GateId(5),
     GateId(6), GateId(7), GateId(8), GateId(9), GateId(10)]
  }

  const GATE_FIELDS := [
    "candidate_digest", "gate_id", "custody_floor", "spec_version", "metric_spec_digest", "harness_fixture_digest",
    "environment_digest", "provider_id", "provider_key_version", "input_digests", "command", "started_at",
    "ended_at", "exit_code", "verdict", "findings", "artifact_digests"]

  predicate IsTimeWindow(core: JSON) {
    && IsU64(At(core, "started_at")) && IsU64(At(core, "ended_at"))
    && At(core, "started_at").n <= At(core, "ended_at").n
  }

  /** `validate_gate_core`. */
  predicate GateCore(core: JSON) {
    && ExactKeys(core, GATE_FIELDS)
    && IsDigest(At(core, "candidate_digest"))
    && At(core, "gate_id").Str? && At(core, "gate_id").s in GateIds()
    && At(core, "custody_floor") == Str(T("secure-enclave-single-host-v1"))
    && IsText(At(core, "spec_version"))
    && (At(core, "metric_spec_digest").Null? || IsDigest(At(core, "metric_spec_digest")))
    && IsDigest(At(core, "harness_fixture_digest")) && IsDigest(At(core, "environment_digest"))
    && IsText(At(core, "provider_id")) && IsText(At(core, "provider_key_version"))
    && IsNamedMap(At(core, "input_digests"), true)
    && IsText(At(core, "command"))
    && IsTimeWindow(core)
    && IsI32OrNull(At(core, "exit_code"))
    && IsOneOf(At(core, "verdict"), VERDICTS)
    && (At(core, "verdict") == Str(T("PASS")) ==> At(core, "exit_code") == Int(0))
    && (At(core, "verdict") == Str(T("NOT_RUN")) ==> At(core, "exit_code").Null?)
    && Findings(At(core, "findings"))
    && IsNamedMap(At(core, "artifact_digests"), true)
  }

  const REVIEW_FIELDS := [
    "candidate_digest", "threat_matrix_digest", "provider_id", "provider_model_version", "provider_key_version",
    "reviewed_inputs_digest", "binding_changes", "started_at", "ended_at", "verdict", "findings"]

  /** `validate_review_core`. */
  predicate ReviewCore(core: JSON) {
    && ExactKeys(core, REVIEW_FIELDS)
    && IsDigest(At(core, "candidate_digest")) && IsDigest(At(core, "threat_matrix_digest"))
    && IsText(At(core, "provider_id")) && IsText(At(core, "provider_model_version"))
    && IsText(At(core, "provider_key_version"))
    && IsDigest(At(core, "reviewed_inputs_digest"))
    && At(core, "binding_changes").Arr?
    && (forall i :: 0 <= i < |At(core, "binding_changes").items| ==> At(core, "binding_changes").items[i].Str?)
    && IsTimeWindow(core)
    && IsOneOf(At(core, "verdict"), VERDICTS)
    && Findings(At(core, "findings"))
  }

  // ------------------------------------------------------ records by digest

  /** The three self-digested records; schema and digest domain are the same string. */
  datatype Kind = Candidate | Gate | Review

  function Schema(k: Kind): string {
    match k
    case Candidate => "m1nd-release-candidate-manifest-v1"
    case Gate => "m1nd-gate-receipt-v1"
    case Review => "m1nd-independent-adversarial-review-receipt-v1"
  }

  predicate Core(k: Kind, core: JSON) {
    match k
    case Candidate => CandidateCore(core)
    case Gate => GateCore(core)
    case Review => ReviewCore(core)
  }

  function Domain(k: Kind): Bytes {
    Encode(T(Schema(k)))
  }

  /** `digest_canonical`; no digest for a value UTF-8 cannot carry. */
  function DigestCanonical(h: Hash, domain: Bytes, v: JSON): Option<Text> {
    match CanonicalJson(v)
    case None => None
    case Some(payload) => Some(DigestOf(h, domain, payload))
  }

  function IdPrefix(k: Kind): Text {
    if k == Gate then T("gate:") else T("iar:")
  }

  /** `seal_candidate`, `seal_gate_receipt` and `seal_independent_review` before their own check. */
  function Sealed(h: Hash, k: Kind, core: JSON, signature: Text): JSON
    requires Encodables(core)
  {
    var digest := DigestCanonical(h, Domain(k), core).value;
    if k == Candidate then
      Obj([Member(T("schema"), Str(T(Schema(k)))), Member(T("core"), core),
           Member(T("candidate_digest"), Str(digest)), Member(T("provenance_signature"), Str(signature))])
    else
      Obj([Member(T("schema"), Str(T(Schema(k)))), Member(T("core"), core),
           Member(T("receipt_id"), Str(IdPrefix(k) + digest)), Member(T("receipt_digest"), Str(digest)),
           Member(T("signature"), Str(signature))])
  }

  function DigestField(k: Kind): string {
    if k == Candidate then "candidate_digest" else "receipt_digest"
  }

  function SignatureField(k: Kind): string {
    if k == Candidate then "provenance_signature" else "signature"
  }

  function Fields(k: Kind): seq<string> {
    if k == Candidate then ["schema", "core", "candidate_digest", "provenance_signature"]
    else ["schema", "core", "receipt_id", "receipt_digest", "signature"]
  }

  /** `validate_candidate`, `validate_gate_receipt`, `validate_independent_review`. */
  predicate ValidRecord(h: Hash, k: Kind, v: JSON) {
    && ExactKeys(v, Fields(k))
    && At(v, "schema") == Str(T(Schema(k)))
    && Core(k, At(v, "core"))
    && IsDigest(At(v, DigestField(k)))
    && (k != Candidate ==> At(v, "receipt_id") == Str(IdPrefix(k) + At(v, DigestField(k)).s))
    && IsSignature(At(v, SignatureField(k)))
    && DigestCanonical(h, Domain(k), At(v, "core")) == Some(At(v, DigestField(k)).s)
  }

  lemma HexIsDigest(b: Bytes)
    requires |b| == 32
    ensures IsDigest(Str(Hex(b)))
  {
    var t := Hex(b);
    forall i | 0 <= i < 64 ensures IsHexChar(t[i]) {
      var k := i / 2;
      assert t[2 * k] == HexDigit(b[k] / 16) && t[2 * k + 1] == HexDigit(b[k] % 16);
    }
  }

  lemma DigestShape(h: Hash, k: Kind, core: JSON)
    requires Sha(h) && Encodables(core)
    ensures DigestCanonical(h, Domain(k), core).Some?
    ensures IsDigest(Str(DigestCanonical(h, Domain(k), core).value))
  {
    hide DigestFrame, Hex, IsDigest, CanonicalBytes, Encode;
    HexIsDigest(h(DigestFrame(Domain(k), CanonicalBytes(core))));
  }

  /** Two names that differ at a glance: in length, in the first or in the last letter. */
  predicate Apart(a: string, b: string) {
    |a| != |b| || (a != "" && (a[0] != b[0] || a[|a|-1] != b[|b|-1]))
  }

  /** An object written out with fields that are pairwise apart. */
  lemma WrittenOut(ms: seq<Member>, fields: seq<string>)
    requires |ms| == |fields| && forall i :: 0 <= i < |ms| ==> ms[i].key == T(fields[i])
    requires forall i, j :: 0 <= i < j < |fields| ==> Apart(fields[i], fields[j])
    ensures ExactKeys(Obj(ms), fields)
    ensures forall i :: 0 <= i < |ms| ==> At(Obj(ms), fields[i]) == ms[i].value
  {
    forall i, j | 0 <= i < j < |ms| ensures ms[i].key != ms[j].key {
      assert Apart(fields[i], fields[j]);
      if |fields[i]| == |fields[j]| {
        var l := |fields[i]| - 1;
        assert ms[i].key[0] != ms[j].key[0] || ms[i].key[l] != ms[j].key[l];
      }
    }
    assert DistinctKeys(ms);
    assert forall k :: k in KeySet(ms) <==> exists i :: 0 <= i < |ms| && ms[i].key == k;
    assert forall k :: k in Names(fields) <==> exists i :: 0 <= i < |fields| && T(fields[i]) == k;
    forall i | 0 <= i < |ms| ensures At(Obj(ms), fields[i]) == ms[i].value {
      LookupAt(ms, i);
    }
  }

  lemma SealedFields(h: Hash, k: Kind, core: JSON, signature: Text)
    requires Encodables(core)
    ensures var v := Sealed(h, k, core, signature);
      && ExactKeys(v, Fields(k))
      && At(v, "schema") == Str(T(Schema(k))) && At(v, "core") == core
      && At(v, DigestField(k)) == Str(DigestCanonical(h, Domain(k), core).value)
      && At(v, SignatureField(k)) == Str(signature)
      && (k != Candidate ==> At(v, "receipt_id") == Str(IdPrefix(k) + DigestCanonical(h, Domain(k), core).value))
  {
    hide DigestCanonical, Schema, IdPrefix, At, ExactKeys, T, Domain, Encodables;
    var ms, fields := Sealed(h, k, core, signature).members, Fields(k);
    WrittenOut(ms, fields);
    assert fields[0] == "schema" && fields[1] == "core" && fields[2] == (if k == Candidate then "candidate_digest" else "receipt_id");
    assert k != Candidate ==> fields[3] == "receipt_digest" && fields[4] == "signature";
    assert k == Candidate ==> fields[3] == "provenance_signature";
  }

  /** Sealing a valid core always yields a record that validates, carrying that core. */
  lemma SealValidates(h: Hash, k: Kind, core: JSON, signature: Text)
    requires Sha(h) && Core(k, core) && Encodables(core) && signature != []
    ensures ValidRecord(h, k, Sealed(h, k, core, signature))
    ensures At(Sealed(h, k, core, signature), "core") == core
  {
    hide Core, DigestCanonical, Sealed, Schema, At, ExactKeys, IsDigest, Domain, IdPrefix;
    SealedFields(h, k, core, signature);
    DigestShape(h, k, core);
  }

  /** The frame a validated record's digest was computed over. */
  function FrameOf(k: Kind, core: JSON): Bytes {
    DigestFrame(Domain(k), CanonicalBytes(core))
  }

  lemma DomainsDistinct(k: Kind, l: Kind)
    ensures Domain(k) == Domain(l) <==> k == l
    ensures Fits(Domain(k))
  {
    var s := T(Schema(k));
    if Domain(k) == Domain(l) {
      EncodeInjective(s, T(Schema(l)));
      assert |Schema(k)| == |Schema(l)|;
      assert |"m1nd-release-candidate-manifest-v1"| == 34 && |"m1nd-gate-receipt-v1"| == 20;
      assert |"m1nd-independent-adversarial-review-receipt-v1"| == 46;
    }
    EncodeLength(s);
  }

  /**
   * A digest binds kind and data: two validated records, of any kinds, carry the same digest
   * exactly when they are of one kind and their cores are the same data, unless the hash
   * collides on the two frames.
   */
  lemma DigestBindsCore(h: Hash, k: Kind, v: JSON, l: Kind, w: JSON)
    requires ValidRecord(h, k, v) && ValidRecord(h, l, w)
    requires Dict(At(v, "core")) && Dict(At(w, "core"))
    requires Fits(CanonicalBytes(At(v, "core"))) && Fits(CanonicalBytes(At(w, "core")))
    requires Separates(h, FrameOf(k, At(v, "core")), FrameOf(l, At(w, "core")))
    ensures At(v, DigestField(k)) == At(w, DigestField(l)) <==> k == l && SameData(At(v, "core"), At(w, "core"))
  {
    hide Core, At, CanonicalBytes, SameData, Dict, Encode;
    var c, d := At(v, "core"), At(w, "core");
    DomainsDistinct(k, l);
    DomainsDistinct(l, k);
    DigestBinds(h, Domain(k), CanonicalBytes(c), Domain(l), CanonicalBytes(d));
    CanonicalExact(c, d);
  }
}
