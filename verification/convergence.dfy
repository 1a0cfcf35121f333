/**
 * `validate_convergence`: a candidate is released on a bound passing review and on one
 * passing receipt for every gate. The loop over receipts with its set of observed gates
 * accepts exactly the permutations of G0 to G10.
 */
module Convergence {
  import opened Basics
  import opened JsonValue
  import opened Framing
  import opened ReleaseContract
  import opened Sorting

  const EVIDENCE_FIELDS := ["schema", "contract_status", "candidate", "gate_receipts", "independent_review"]

  function GateOf(receipt: JSON): Text {
    var id := At(At(receipt, "core"), "gate_id");
    if id.Str? then id.s else []
  }

  function GatesOf(receipts: seq<JSON>): (gs: seq<Text>)
    ensures |gs| == |receipts| && forall i :: 0 <= i < |gs| ==> gs[i] == GateOf(receipts[i])
  {
    seq(|receipts|, i requires 0 <= i < |receipts| => GateOf(receipts[i]))
  }

  /** A core that speaks for the candidate: bound to it, PASS, nothing blocking open. */
  predicate Endorses(core: JSON, candidate: JSON) {
    && At(core, "candidate_digest") == At(candidate, "candidate_digest")
    && At(core, "verdict") == Str(T("PASS"))
    && !HasOpenBlocker(At(core, "findings"))
  }

  predicate GoodReceipt(h: Hash, receipt: JSON, candidate: JSON) {
    ValidRecord(h, Gate, receipt) && Endorses(At(receipt, "core"), candidate)
  }

  /** Everything but the gate receipts. */
  predicate Framed(h: Hash, evidence: JSON) {
    && ExactKeys(evidence, EVIDENCE_FIELDS)
    && At(evidence, "schema") == Str(T("m1nd-release-evidence-set-json-extension-v1"))
    && At(evidence, "contract_status") == Str(T("STRUCTURALLY_VALID_NOT_CRYPTOGRAPHICALLY_VERIFIED"))
    && ValidRecord(h, Candidate, At(evidence, "candidate"))
    && ValidRecord(h, Review, At(evidence, "independent_review"))
    && Endorses(At(At(evidence, "independent_review"), "core"), At(evidence, "candidate"))
    && At(evidence, "gate_receipts").Arr?
  }

  /** The receipts: all good, and their gates a permutation of G0 to G10. */
  ghost predicate Complete(h: Hash, receipts: seq<JSON>, candidate: JSON) {
    && (forall i :: 0 <= i < |receipts| ==> GoodReceipt(h, receipts[i], candidate))
    && multiset(GatesOf(receipts)) == multiset(GateIds())
  }

  ghost predicate Converged(h: Hash, evidence: JSON) {
    Framed(h, evidence) && Complete(h, At(evidence, "gate_receipts").items, At(evidence, "candidate"))
  }

  // ------------------------------------------------------ counting gates

  lemma GateIdsDistinct()
    ensures Distinct(GateIds())
  {}

  /** An accepted evidence set has exactly eleven receipts. */
  lemma ElevenReceipts(h: Hash, receipts: seq<JSON>, candidate: JSON)
    requires Complete(h, receipts, candidate)
    ensures |receipts| == 11
  {
    assert |multiset(GatesOf(receipts))| == |GatesOf(receipts)|;
    assert |multiset(GateIds())| == |GateIds()|;
  }

  // ------------------------------------------------------------- the loop

  /** The receipts of an evidence set. */
  function Receipts(evidence: JSON): seq<JSON> {
    var a := At(evidence, "gate_receipts");
    if a.Arr? then a.items else []
  }

  lemma ValidGate(h: Hash, receipt: JSON)
    requires ValidRecord(h, Gate, receipt)
    ensures GateOf(receipt) in GateIds()
  {
    hide IsNamedMap, IsText, IsDigest, IsOneOf, Findings, ExactKeys, At, DigestCanonical, GateIds;
  }

  /** The loop over the receipts, with its set of observed gates. */
  method CheckReceipts(h: Hash, receipts: seq<JSON>, candidate: JSON) returns (ok: bool)
    ensures ok <==> Complete(h, receipts, candidate)
  {
    hide ValidRecord, Endorses, GateOf, GateIds;
    ghost var gs := GatesOf(receipts);
    GateIdsDistinct();
    PermutationExactly(gs, GateIds());
    var observed: set<Text> := {};
    var i := 0;
    while i < |receipts|
      invariant 0 <= i <= |receipts|
      invariant forall k :: 0 <= k < i ==> GoodReceipt(h, receipts[k], candidate)
      invariant forall k :: 0 <= k < i ==> gs[k] in GateIds()
      invariant Distinct(gs[..i]) && observed == Elements(gs[..i])
    {
      var receipt := receipts[i];
      if !ValidRecord(h, Gate, receipt) {
        return false;
      }
      ValidGate(h, receipt);
      var gate := GateOf(receipt);
      AppendDistinct(gs, i);
      if gate in observed {
        return false;
      }
      if !Endorses(At(receipt, "core"), candidate) {
        return false;
      }
      observed := observed + {gate};
      i := i + 1;
    }
    assert gs[..i] == gs;
    NoneMissing(gs, GateIds(), observed);
    ok := forall g | g in GateIds() :: g in observed;
  }

  /** `validate_convergence`. */
  method ValidateConvergence(h: Hash, evidence: JSON) returns (ok: bool)
    ensures ok <==> Converged(h, evidence)
  {
    hide Framed, Complete;
    if !Framed(h, evidence) {
      return false;
    }
    assert At(evidence, "gate_receipts").Arr? by { FramedHasReceipts(h, evidence); }
    ok := CheckReceipts(h, Receipts(evidence), At(evidence, "candidate"));
  }

  lemma FramedHasReceipts(h: Hash, evidence: JSON)
    requires Framed(h, evidence)
    ensures At(evidence, "gate_receipts").Arr?
  {
    hide ValidRecord, Endorses, ExactKeys, At;
  }

  // ------------------------------------------------------ order of receipts

  /** `evidence_set_json_extension`, before its own check. */
  function EvidenceSet(candidate: JSON, receipts: seq<JSON>, review: JSON): JSON {
    Obj([
      Member(T("schema"), Str(T("m1nd-release-evidence-set-json-extension-v1"))),
      Member(T("contract_status"), Str(T("STRUCTURALLY_VALID_NOT_CRYPTOGRAPHICALLY_VERIFIED"))),
      Member(T("candidate"), candidate),
      Member(T("gate_receipts"), Arr(receipts)),
      Member(T("independent_review"), review)])
  }

  lemma EvidenceFields(candidate: JSON, receipts: seq<JSON>, review: JSON)
    ensures var e := EvidenceSet(candidate, receipts, review);
      && ExactKeys(e, EVIDENCE_FIELDS)
      && At(e, "schema") == Str(T("m1nd-release-evidence-set-json-extension-v1"))
      && At(e, "contract_status") == Str(T("STRUCTURALLY_VALID_NOT_CRYPTOGRAPHICALLY_VERIFIED"))
      && At(e, "candidate") == candidate && At(e, "gate_receipts") == Arr(receipts)
      && At(e, "independent_review") == review
  {
    hide At, ExactKeys, T;
    var f := EVIDENCE_FIELDS;
    WrittenOut(EvidenceSet(candidate, receipts, review).members, f);
    assert f[0] == "schema" && f[1] == "contract_status" && f[2] == "candidate" && f[3] == "gate_receipts";
    assert f[4] == "independent_review";
  }

  /** What an accepted evidence set is made of. */
  lemma EvidenceAccepted(h: Hash, candidate: JSON, receipts: seq<JSON>, review: JSON)
    ensures Converged(h, EvidenceSet(candidate, receipts, review)) <==>
      && ValidRecord(h, Candidate, candidate)
      && ValidRecord(h, Review, review) && Endorses(At(review, "core"), candidate)
      && Complete(h, receipts, candidate)
  {
    hide ValidRecord, Endorses, Complete, ExactKeys, At, T, EvidenceSet;
    EvidenceFields(candidate, receipts, review);
  }

  lemma GatesWithout(rs: seq<JSON>, i: nat)
    requires i < |rs|
    ensures multiset(GatesOf(rs)) == multiset(GatesOf(rs[..i] + rs[i+1..])) + multiset{GateOf(rs[i])}
  {
    hide GateOf;
    var gs := GatesOf(rs);
    RemoveAt(gs, i);
    assert GatesOf(rs[..i] + rs[i+1..]) == gs[..i] + gs[i+1..];
  }

  lemma GatesHead(rs: seq<JSON>)
    requires rs != []
    ensures multiset(GatesOf(rs)) == multiset(GatesOf(rs[1..])) + multiset{GateOf(rs[0])}
  {
    hide GateOf, GatesOf;
    GatesWithout(rs, 0);
    assert rs[..0] + rs[1..] == rs[1..];
  }

  lemma NoReceipts(rs: seq<JSON>)
    requires |multiset(rs)| == 0
    ensures rs == []
  {}

  lemma {:induction false} GatesPermute(rs: seq<JSON>, qs: seq<JSON>)
    requires multiset(rs) == multiset(qs)
    ensures multiset(GatesOf(rs)) == multiset(GatesOf(qs))
    decreases |rs|
  {
    hide GateOf, GatesOf;
    if rs == [] {
      NoReceipts(qs);
    } else {
      var i := FindFirst(rs, qs);
      GatesPermute(rs[1..], qs[..i] + qs[i+1..]);
      GatesWithout(qs, i);
      GatesHead(rs);
    }
  }

  /** The order in which the receipts are listed does not matter. */
  lemma OrderIrrelevant(h: Hash, candidate: JSON, receipts: seq<JSON>, others: seq<JSON>, review: JSON)
    requires multiset(receipts) == multiset(others)
    ensures Converged(h, EvidenceSet(candidate, receipts, review))
      <==> Converged(h, EvidenceSet(candidate, others, review))
  {
    hide ValidRecord, Endorses, GoodReceipt, Converged, EvidenceSet, At;
    EvidenceAccepted(h, candidate, receipts, review);
    EvidenceAccepted(h, candidate, others, review);
    GatesPermute(receipts, others);
    SameElements(receipts, others);
    assert forall i :: 0 <= i < |receipts| ==> receipts[i] in receipts;
    assert forall i :: 0 <= i < |others| ==> others[i] in others;
    assert forall r :: r in receipts <==> r in others;
  }
}
