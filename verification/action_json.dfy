/**
 * The catalogue as serde writes it: variants in upper snake case, sets in declaration
 * order, fields by name. The written form loses nothing.
 */
module ActionJson {
  import opened Basics
  import opened Utf8
  import opened JsonValue

  datatype Floor = Ordinary | ScopedGrantA2 | PositiveSovereign | ServiceIdentity | SafetyOnly

  datatype Risk = Low | Medium | High | Critical

  datatype Ingress = Mcp | Rest | Cli | Hook | BackgroundJob | Recovery | Migration

  datatype Effect =
    | Read | GraphMutation | RuntimeStoreWrite | SourceFilesystemWrite | HostFilesystemWrite | CoordinationRecord
    | MissionStateWrite | SovereignMutation | ProcessSpawn | ProcessSignal | ExecutableReplacement | NetworkAccess
    | NetworkExpose | FreezeIssuance | EpochFence | EpochBump | RevokeCapability | AbortPrepared | DemoteGrant
    | RollbackSignedCandidate

  datatype Entry = Entry(action: Text, ingresses: set<Ingress>, effects: set<Effect>, risk: Risk, floor: Floor)

  datatype Catalog = Catalog(schema: Text, version: Text, entries: seq<Entry>, digest: Text)

  // ---------------------------------------------------------- variant names

  function FloorName(f: Floor): string {
    match f
    case Ordinary => "ORDINARY"
    case ScopedGrantA2 => "SCOPED_GRANT_A2"
    case PositiveSovereign => "POSITIVE_SOVEREIGN"
    case ServiceIdentity => "SERVICE_IDENTITY"
    case SafetyOnly => "SAFETY_ONLY"
  }

  function RiskName(r: Risk): string {
    match r
    case Low => "LOW"
    case Medium => "MEDIUM"
    case High => "HIGH"
    case Critical => "CRITICAL"
  }

  const INGRESSES := [Mcp, Rest, Cli, Hook, BackgroundJob, Recovery, Migration]

  function IngressName(i: Ingress): string {
    match i
    case Mcp => "MCP"
    case Rest => "REST"
    case Cli => "CLI"
    case Hook => "HOOK"
    case BackgroundJob => "BACKGROUND_JOB"
    case Recovery => "RECOVERY"
    case Migration => "MIGRATION"
  }

  const EFFECTS := [
    Read, GraphMutation, RuntimeStoreWrite, SourceFilesystemWrite, HostFilesystemWrite, CoordinationRecord,
    MissionStateWrite, SovereignMutation, ProcessSpawn, ProcessSignal, ExecutableReplacement, NetworkAccess,
    NetworkExpose, FreezeIssuance, EpochFence, EpochBump, RevokeCapability, AbortPrepared, DemoteGrant,
    RollbackSignedCandidate]

  function EffectName(e: Effect): string {
    match e
    case Read => "READ"
    case GraphMutation => "GRAPH_MUTATION"
    case RuntimeStoreWrite => "RUNTIME_STORE_WRITE"
    case SourceFilesystemWrite => "SOURCE_FILESYSTEM_WRITE"
    case HostFilesystemWrite => "HOST_FILESYSTEM_WRITE"
    case CoordinationRecord => "COORDINATION_RECORD"
    case MissionStateWrite => "MISSION_STATE_WRITE"
    case SovereignMutation => "SOVEREIGN_MUTATION"
    case ProcessSpawn => "PROCESS_SPAWN"
    case ProcessSignal => "PROCESS_SIGNAL"
    case ExecutableReplacement => "EXECUTABLE_REPLACEMENT"
    case NetworkAccess => "NETWORK_ACCESS"
    case NetworkExpose => "NETWORK_EXPOSE"
    case FreezeIssuance => "FREEZE_ISSUANCE"
    case EpochFence => "EPOCH_FENCE"
    case EpochBump => "EPOCH_BUMP"
    case RevokeCapability => "REVOKE_CAPABILITY"
    case AbortPrepared => "ABORT_PREPARED"
    case DemoteGrant => "DEMOTE_GRANT"
    case RollbackSignedCandidate => "ROLLBACK_SIGNED_CANDIDATE"
  }

  /** Length, first and last letter of a name: enough to tell the effects apart. */
  function Outline(s: string): (nat, char, char)
    requires s != ""
  {
    (|s|, s[0], s[|s|-1])
  }

  function EffectOutline(e: Effect): (nat, char, char) {
    match e
    case Read => (4, 'R', 'D')
    case GraphMutation => (14, 'G', 'N')
    case RuntimeStoreWrite => (19, 'R', 'E')
    case SourceFilesystemWrite => (23, 'S', 'E')
    case HostFilesystemWrite => (21, 'H', 'E')
    case CoordinationRecord => (19, 'C', 'D')
    case MissionStateWrite => (19, 'M', 'E')
    case SovereignMutation => (18, 'S', 'N')
    case ProcessSpawn => (13, 'P', 'N')
    case ProcessSignal => (14, 'P', 'L')
    case ExecutableReplacement => (22, 'E', 'T')
    case NetworkAccess => (14, 'N', 'S')
    case NetworkExpose => (14, 'N', 'E')
    case FreezeIssuance => (15, 'F', 'E')
    case EpochFence => (11, 'E', 'E')
    case EpochBump => (10, 'E', 'P')
    case RevokeCapability => (17, 'R', 'Y')
    case AbortPrepared => (14, 'A', 'D')
    case DemoteGrant => (12, 'D', 'T')
    case RollbackSignedCandidate => (25, 'R', 'E')
  }

  lemma EffectOutlines(e: Effect)
    ensures EffectName(e) != "" && Outline(EffectName(e)) == EffectOutline(e)
  {}

  lemma EffectNamesDiffer(e: Effect, f: Effect)
    ensures EffectName(e) == EffectName(f) <==> e == f
  {
    hide EffectName, Outline;
    EffectOutlines(e);
    EffectOutlines(f);
  }

  lemma IngressNamesDiffer(i: Ingress, j: Ingress)
    ensures IngressName(i) == IngressName(j) <==> i == j
  {
    assert "MCP"[0] == 'M' && "CLI"[0] == 'C' && "REST"[0] == 'R' && "HOOK"[0] == 'H';
  }

  lemma FloorNamesDiffer(f: Floor, g: Floor)
    ensures FloorName(f) == FloorName(g) <==> f == g
  {}

  lemma RiskNamesDiffer(r: Risk, q: Risk)
    ensures RiskName(r) == RiskName(q) <==> r == q
  {}

  /** The place of an effect in the declaration. */
  function Rank(e: Effect): nat {
    match e
    case Read => 0
    case GraphMutation => 1
    case RuntimeStoreWrite => 2
    case SourceFilesystemWrite => 3
    case HostFilesystemWrite => 4
    case CoordinationRecord => 5
    case MissionStateWrite => 6
    case SovereignMutation => 7
    case ProcessSpawn => 8
    case ProcessSignal => 9
    case ExecutableReplacement => 10
    case NetworkAccess => 11
    case NetworkExpose => 12
    case FreezeIssuance => 13
    case EpochFence => 14
    case EpochBump => 15
    case RevokeCapability => 16
    case AbortPrepared => 17
    case DemoteGrant => 18
    case RollbackSignedCandidate => 19
  }

  lemma EffectListed(e: Effect)
    ensures e in EFFECTS
  {
    assert EFFECTS[Rank(e)] == e;
  }

  lemma IngressListed(i: Ingress)
    ensures i in INGRESSES
  {}

  lemma TextExact(a: string, b: string)
    ensures T(a) == T(b) <==> a == b
  {
    if T(a) == T(b) {
      assert |a| == |T(a)| == |T(b)| == |b|;
      forall k | 0 <= k < |a| ensures a[k] == b[k] { assert T(a)[k] == T(b)[k]; }
    }
  }

  // ------------------------------------------------------------- documents

  function Named(s: string): JSON {
    Str(T(s))
  }

  /** A `BTreeSet` of variants: in declaration order. */
  function Variants<X(==)>(order: seq<X>, name: X -> string, xs: set<X>): seq<JSON> {
    if order == [] then []
    else (if order[0] in xs then [Named(name(order[0]))] else []) + Variants(order[1..], name, xs)
  }

  function EntryMembers(e: Entry): seq<Member> {
    [Member(T("action"), Str(e.action)),
     Member(T("ingresses"), Arr(Variants(INGRESSES, IngressName, e.ingresses))),
     Member(T("complete_effects"), Arr(Variants(EFFECTS, EffectName, e.effects))),
     Member(T("risk_class"), Named(RiskName(e.risk))),
     Member(T("authority_floor"), Named(FloorName(e.floor)))]
  }

  function EntryJson(e: Entry): JSON {
    Obj(EntryMembers(e))
  }

  function EntriesJson(es: seq<Entry>): (js: seq<JSON>)
    ensures |js| == |es| && forall i :: 0 <= i < |es| ==> js[i] == EntryJson(es[i])
  {
    seq(|es|, i requires 0 <= i < |es| => EntryJson(es[i]))
  }

  /** An entry in literals: five keys, and the variants of a set in the order of their declaration. */
  lemma EntryJsonLaw(e: Entry)
    ensures EntryJson(e) == Obj([
      Member(T("action"), Str(e.action)), Member(T("ingresses"), Arr(Variants(INGRESSES, IngressName, e.ingresses))),
      Member(T("complete_effects"), Arr(Variants(EFFECTS, EffectName, e.effects))),
      Member(T("risk_class"), Str(T(RiskName(e.risk)))), Member(T("authority_floor"), Str(T(FloorName(e.floor))))])
  {
    hide Variants, IngressName, EffectName, RiskName, FloorName;
  }

  // ----------------------------------------------------- nothing is lost

  ghost predicate TellsApart<X(!new)>(name: X -> string) {
    forall x, y :: name(x) == name(y) <==> x == y
  }

  lemma {:induction false} VariantsListed<X(!new)>(order: seq<X>, name: X -> string, xs: set<X>, x: X)
    requires TellsApart(name) && x in order
    ensures x in xs <==> Named(name(x)) in Variants(order, name, xs)
  {
    forall y ensures Named(name(y)) == Named(name(x)) <==> y == x { TextExact(name(y), name(x)); }
    if x in order[1..] {
      VariantsListed(order[1..], name, xs, x);
    } else {
      assert x == order[0];
      OthersListed(order[1..], name, xs, x);
    }
  }

  lemma {:induction false} OthersListed<X(!new)>(order: seq<X>, name: X -> string, xs: set<X>, x: X)
    requires TellsApart(name) && x !in order
    ensures Named(name(x)) !in Variants(order, name, xs)
  {
    if order != [] {
      TextExact(name(order[0]), name(x));
      OthersListed(order[1..], name, xs, x);
    }
  }

  /** Every element of a written set is plain text. */
  lemma {:induction false} VariantsAreText<X(!new)>(order: seq<X>, name: X -> string, xs: set<X>)
    ensures forall i :: 0 <= i < |Variants(order, name, xs)| ==>
      Variants(order, name, xs)[i].Str? && Encodables(Variants(order, name, xs)[i])
  {
    if order != [] { VariantsAreText(order[1..], name, xs); }
  }

  lemma SameTexts(a: JSON, b: JSON)
    requires a.Arr? && b.Arr? && SameData(a, b)
    requires (forall i :: 0 <= i < |a.items| ==> a.items[i].Str?) && (forall i :: 0 <= i < |b.items| ==> b.items[i].Str?)
    ensures a == b
  {
    assert |a.items| == |b.items|;
    forall i | 0 <= i < |a.items| ensures a.items[i] == b.items[i] { assert SameData(a.items[i], b.items[i]); }
  }

  /** One member of two objects with the same key: the same data under it. */
  lemma SameMember(ms: seq<Member>, ns: seq<Member>, i: nat)
    requires SameData(Obj(ms), Obj(ns)) && i < |ms| && i < |ns| && ms[i].key == ns[i].key
    ensures SameData(ms[i].value, ns[i].value)
  {}

  lemma EntryJsonExact(e: Entry, f: Entry)
    ensures SameData(EntryJson(e), EntryJson(f)) <==> e == f
  {
    hide SameData, Variants, IngressName, EffectName, RiskName, FloorName;
    EntryIsDict(e);
    if SameData(EntryJson(e), EntryJson(f)) {
      var ms, ns := EntryMembers(e), EntryMembers(f);
      forall i | 0 <= i < 5 ensures SameData(ms[i].value, ns[i].value) { SameMember(ms, ns, i); }
      SameIngresses(e, f);
      SameEffects(e, f);
      SameNames(e, f);
    } else if e == f {
      NormalExact(EntryJson(e), EntryJson(f));
    }
  }

  lemma SameIngresses(e: Entry, f: Entry)
    requires SameData(EntryMembers(e)[1].value, EntryMembers(f)[1].value)
    ensures e.ingresses == f.ingresses
  {
    hide SameData, Variants, IngressName;
    VariantsAreText(INGRESSES, IngressName, e.ingresses);
    VariantsAreText(INGRESSES, IngressName, f.ingresses);
    SameTexts(EntryMembers(e)[1].value, EntryMembers(f)[1].value);
    forall i: Ingress, j: Ingress ensures IngressName(i) == IngressName(j) <==> i == j { IngressNamesDiffer(i, j); }
    forall i: Ingress ensures i in e.ingresses <==> i in f.ingresses {
      IngressListed(i);
      VariantsListed(INGRESSES, IngressName, e.ingresses, i);
      VariantsListed(INGRESSES, IngressName, f.ingresses, i);
    }
  }

  lemma SameEffects(e: Entry, f: Entry)
    requires SameData(EntryMembers(e)[2].value, EntryMembers(f)[2].value)
    ensures e.effects == f.effects
  {
    hide SameData, Variants, EffectName;
    VariantsAreText(EFFECTS, EffectName, e.effects);
    VariantsAreText(EFFECTS, EffectName, f.effects);
    SameTexts(EntryMembers(e)[2].value, EntryMembers(f)[2].value);
    forall i: Effect, j: Effect ensures EffectName(i) == EffectName(j) <==> i == j { EffectNamesDiffer(i, j); }
    forall i: Effect ensures i in e.effects <==> i in f.effects {
      EffectListed(i);
      VariantsListed(EFFECTS, EffectName, e.effects, i);
      VariantsListed(EFFECTS, EffectName, f.effects, i);
    }
  }

  lemma SameNames(e: Entry, f: Entry)
    requires forall i :: i == 0 || i == 3 || i == 4 ==> SameData(EntryMembers(e)[i].value, EntryMembers(f)[i].value)
    ensures e.action == f.action && e.risk == f.risk && e.floor == f.floor
  {
    hide Variants, IngressName, EffectName, RiskName, FloorName;
    var ms, ns := EntryMembers(e), EntryMembers(f);
    assert ms[0].value == ns[0].value && ms[3].value == ns[3].value && ms[4].value == ns[4].value;
    TextExact(RiskName(e.risk), RiskName(f.risk));
    TextExact(FloorName(e.floor), FloorName(f.floor));
    RiskNamesDiffer(e.risk, f.risk);
    FloorNamesDiffer(e.floor, f.floor);
  }

  lemma TextsAreDict(a: JSON)
    requires a.Arr? && forall i :: 0 <= i < |a.items| ==> a.items[i].Str? && Encodables(a.items[i])
    ensures Dict(a) && Encodables(a)
  {}

  lemma EntryIsDict(e: Entry)
    ensures Dict(EntryJson(e))
    ensures Encodable(e.action) ==> Encodables(EntryJson(e))
  {
    hide Variants, IngressName, EffectName, RiskName, FloorName;
    VariantsAreText(INGRESSES, IngressName, e.ingresses);
    VariantsAreText(EFFECTS, EffectName, e.effects);
    var ms := EntryMembers(e);
    assert |ms[0].key| == 6 && |ms[1].key| == 9 && |ms[2].key| == 16 && |ms[3].key| == 10 && |ms[4].key| == 15;
    assert DistinctKeys(ms);
    TextsAreDict(ms[1].value);
    TextsAreDict(ms[2].value);
  }

  /** Lists of entries are written as the same data exactly if they are equal. */
  lemma EntriesExact(es: seq<Entry>, fs: seq<Entry>)
    ensures SameData(Arr(EntriesJson(es)), Arr(EntriesJson(fs))) <==> es == fs
  {
    hide EntryJson;
    if SameData(Arr(EntriesJson(es)), Arr(EntriesJson(fs))) {
      assert |es| == |EntriesJson(es)| == |EntriesJson(fs)| == |fs|;
      forall i | 0 <= i < |es| ensures es[i] == fs[i] {
        assert SameData(EntriesJson(es)[i], EntriesJson(fs)[i]);
        EntryJsonExact(es[i], fs[i]);
      }
    }
    if es == fs {
      forall i | 0 <= i < |es| ensures SameData(EntriesJson(es)[i], EntriesJson(fs)[i]) { EntryJsonExact(es[i], fs[i]); }
    }
  }
}
