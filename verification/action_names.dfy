/**
 * The names of variants in the catalogue: each is the Rust identifier in upper snake case,
 * by the rule serde applies.
 */
module ActionNames {
  import opened ActionJson

  /** An ASCII capital. */
  function Up(c: char): char { if 'a' <= c <= 'z' then (c as int - 32) as char else c }

  function Upper(s: string): (r: string)
    ensures |r| == |s| && forall i :: 0 <= i < |s| ==> r[i] == Up(s[i])
  {
    seq(|s|, i requires 0 <= i < |s| => Up(s[i]))
  }

  function Rest(s: string): string {
    if s == "" then ""
    else (if 'A' <= s[0] <= 'Z' then "_" else "") + [Up(s[0])] + Rest(s[1..])
  }

  /** `rename_all = "SCREAMING_SNAKE_CASE"`: an underscore before every capital but the first, all in capitals. */
  function Snake(s: string): string {
    if s == "" then "" else [Up(s[0])] + Rest(s[1..])
  }

  /** A capital and then no other. */
  predicate Word(s: string) {
    s != "" && 'A' <= s[0] <= 'Z' && forall i :: 1 <= i < |s| ==> !('A' <= s[i] <= 'Z')
  }

  lemma {:induction false} RestOfSmall(s: string, t: string)
    requires forall i :: 0 <= i < |s| ==> !('A' <= s[i] <= 'Z')
    ensures Rest(s + t) == Upper(s) + Rest(t)
  {
    if s == "" {
      assert s + t == t;
    } else {
      assert (s + t)[1..] == s[1..] + t;
      RestOfSmall(s[1..], t);
      assert Upper(s) == [Up(s[0])] + Upper(s[1..]);
    }
  }

  lemma RestOfWord(w: string, t: string)
    requires Word(w)
    ensures Rest(w + t) == "_" + Upper(w) + Rest(t)
  {
    hide Upper;
    assert (w + t)[1..] == w[1..] + t;
    RestOfSmall(w[1..], t);
    UpperHead(w);
    assert Rest(w + t) == "_" + [Up(w[0])] + Rest((w + t)[1..]);
  }

  lemma UpperHead(w: string)
    requires w != ""
    ensures Upper(w) == [Up(w[0])] + Upper(w[1..])
  {}

  lemma SnakeHead(w: string, t: string)
    requires Word(w)
    ensures Snake(w + t) == Upper(w) + Rest(t)
  {
    hide Upper, Rest;
    assert (w + t)[1..] == w[1..] + t;
    RestOfSmall(w[1..], t);
    UpperHead(w);
  }

  lemma RestOfOne(w: string)
    requires Word(w)
    ensures Rest(w) == "_" + Upper(w)
  {
    hide Upper;
    RestOfWord(w, "");
    assert w + "" == w;
  }

  lemma OneWord(a: string)
    requires Word(a)
    ensures Snake(a) == Upper(a)
  {
    hide Upper;
    SnakeHead(a, "");
    assert a + "" == a;
  }

  lemma TwoWords(a: string, b: string)
    requires Word(a) && Word(b)
    ensures Snake(a + b) == Upper(a) + "_" + Upper(b)
  {
    hide *;
    SnakeHead(a, b);
    RestOfOne(b);
  }

  lemma ThreeWords(a: string, b: string, c: string)
    requires Word(a) && Word(b) && Word(c)
    ensures Snake(a + b + c) == Upper(a) + "_" + Upper(b) + "_" + Upper(c)
  {
    hide *;
    assert a + b + c == a + (b + c);
    SnakeHead(a, b + c);
    RestOfWord(b, c);
    RestOfOne(c);
  }

  /** A word and its capitals. */
  predicate Screams(w: string, u: string) {
    Word(w) && |w| == |u| && forall i :: 0 <= i < |w| ==> u[i] == Up(w[i])
  }

  lemma One(a: string, u: string)
    requires Screams(a, u)
    ensures Snake(a) == u
  {
    hide Snake, Rest;
    OneWord(a);
    assert Upper(a) == u;
  }

  lemma Two(a: string, b: string, u: string, v: string, name: string)
    requires Screams(a, u) && Screams(b, v) && name == u + "_" + v
    ensures Snake(a + b) == name
  {
    hide Snake, Rest;
    TwoWords(a, b);
    assert Upper(a) == u && Upper(b) == v;
  }

  lemma Three(a: string, b: string, c: string, u: string, v: string, w: string, name: string)
    requires Screams(a, u) && Screams(b, v) && Screams(c, w) && name == u + "_" + v + "_" + w
    ensures Snake(a + b + c) == name
  {
    hide Snake, Rest;
    ThreeWords(a, b, c);
    assert Upper(a) == u && Upper(b) == v && Upper(c) == w;
  }

  /** The identifiers of the source. */
  function EffectIdent(x: Effect): string {
    match x
    case Read => "Read"
    case GraphMutation => "Graph" + "Mutation"
    case RuntimeStoreWrite => "Runtime" + "Store" + "Write"
    case SourceFilesystemWrite => "Source" + "Filesystem" + "Write"
    case HostFilesystemWrite => "Host" + "Filesystem" + "Write"
    case CoordinationRecord => "Coordination" + "Record"
    case MissionStateWrite => "Mission" + "State" + "Write"
    case SovereignMutation => "Sovereign" + "Mutation"
    case ProcessSpawn => "Process" + "Spawn"
    case ProcessSignal => "Process" + "Signal"
    case ExecutableReplacement => "Executable" + "Replacement"
    case NetworkAccess => "Network" + "Access"
    case NetworkExpose => "Network" + "Expose"
    case FreezeIssuance => "Freeze" + "Issuance"
    case EpochFence => "Epoch" + "Fence"
    case EpochBump => "Epoch" + "Bump"
    case RevokeCapability => "Revoke" + "Capability"
    case AbortPrepared => "Abort" + "Prepared"
    case DemoteGrant => "Demote" + "Grant"
    case RollbackSignedCandidate => "Rollback" + "Signed" + "Candidate"
  }

  /** The identifiers of the source. */
  function IngressIdent(x: Ingress): string {
    match x
    case Mcp => "Mcp"
    case Rest => "Rest"
    case Cli => "Cli"
    case Hook => "Hook"
    case BackgroundJob => "Background" + "Job"
    case Recovery => "Recovery"
    case Migration => "Migration"
  }

  /** The identifiers of the source. */
  function RiskIdent(x: Risk): string {
    match x
    case Low => "Low"
    case Medium => "Medium"
    case High => "High"
    case Critical => "Critical"
  }

  /** The identifiers of the source. */
  function FloorIdent(x: Floor): string {
    match x
    case Ordinary => "Ordinary"
    case ScopedGrantA2 => "Scoped" + "Grant" + "A2"
    case PositiveSovereign => "Positive" + "Sovereign"
    case ServiceIdentity => "Service" + "Identity"
    case SafetyOnly => "Safety" + "Only"
  }

  lemma EffectRead()
    ensures Snake("Read") == "READ"
  {
    hide Snake, Rest, Upper;
    One("Read", "READ");
  }

  lemma EffectGraphMutation()
    ensures Snake("Graph" + "Mutation") == "GRAPH_MUTATION"
  {
    hide Snake, Rest, Upper;
    Two("Graph", "Mutation", "GRAPH", "MUTATION", "GRAPH_MUTATION");
  }

  lemma EffectRuntimeStoreWrite()
    ensures Snake("Runtime" + "Store" + "Write") == "RUNTIME_STORE_WRITE"
  {
    hide Snake, Rest, Upper;
    Three("Runtime", "Store", "Write", "RUNTIME", "STORE", "WRITE", "RUNTIME_STORE_WRITE");
  }

  lemma EffectSourceFilesystemWrite()
    ensures Snake("Source" + "Filesystem" + "Write") == "SOURCE_FILESYSTEM_WRITE"
  {
    hide Snake, Rest, Upper;
    Three("Source", "Filesystem", "Write", "SOURCE", "FILESYSTEM", "WRITE", "SOURCE_FILESYSTEM_WRITE");
  }

  lemma EffectHostFilesystemWrite()
    ensures Snake("Host" + "Filesystem" + "Write") == "HOST_FILESYSTEM_WRITE"
  {
    hide Snake, Rest, Upper;
    Three("Host", "Filesystem", "Write", "HOST", "FILESYSTEM", "WRITE", "HOST_FILESYSTEM_WRITE");
  }

  lemma EffectCoordinationRecord()
    ensures Snake("Coordination" + "Record") == "COORDINATION_RECORD"
  {
    hide Snake, Rest, Upper;
    Two("Coordination", "Record", "COORDINATION", "RECORD", "COORDINATION_RECORD");
  }

  lemma EffectMissionStateWrite()
    ensures Snake("Mission" + "State" + "Write") == "MISSION_STATE_WRITE"
  {
    hide Snake, Rest, Upper;
    Three("Mission", "State", "Write", "MISSION", "STATE", "WRITE", "MISSION_STATE_WRITE");
  }

  lemma EffectSovereignMutation()
    ensures Snake("Sovereign" + "Mutation") == "SOVEREIGN_MUTATION"
  {
    hide Snake, Rest, Upper;
    Two("Sovereign", "Mutation", "SOVEREIGN", "MUTATION", "SOVEREIGN_MUTATION");
  }

  lemma EffectProcessSpawn()
    ensures Snake("Process" + "Spawn") == "PROCESS_SPAWN"
  {
    hide Snake, Rest, Upper;
    Two("Process", "Spawn", "PROCESS", "SPAWN", "PROCESS_SPAWN");
  }

  lemma EffectProcessSignal()
    ensures Snake("Process" + "Signal") == "PROCESS_SIGNAL"
  {
    hide Snake, Rest, Upper;
    Two("Process", "Signal", "PROCESS", "SIGNAL", "PROCESS_SIGNAL");
  }

  lemma EffectExecutableReplacement()
    ensures Snake("Executable" + "Replacement") == "EXECUTABLE_REPLACEMENT"
  {
    hide Snake, Rest, Upper;
    Two("Executable", "Replacement", "EXECUTABLE", "REPLACEMENT", "EXECUTABLE_REPLACEMENT");
  }

  lemma EffectNetworkAccess()
    ensures Snake("Network" + "Access") == "NETWORK_ACCESS"
  {
    hide Snake, Rest, Upper;
    Two("Network", "Access", "NETWORK", "ACCESS", "NETWORK_ACCESS");
  }

  lemma EffectNetworkExpose()
    ensures Snake("Network" + "Expose") == "NETWORK_EXPOSE"
  {
    hide Snake, Rest, Upper;
    Two("Network", "Expose", "NETWORK", "EXPOSE", "NETWORK_EXPOSE");
  }

  lemma EffectFreezeIssuance()
    ensures Snake("Freeze" + "Issuance") == "FREEZE_ISSUANCE"
  {
    hide Snake, Rest, Upper;
    Two("Freeze", "Issuance", "FREEZE", "ISSUANCE", "FREEZE_ISSUANCE");
  }

  lemma EffectEpochFence()
    ensures Snake("Epoch" + "Fence") == "EPOCH_FENCE"
  {
    hide Snake, Rest, Upper;
    Two("Epoch", "Fence", "EPOCH", "FENCE", "EPOCH_FENCE");
  }

  lemma EffectEpochBump()
    ensures Snake("Epoch" + "Bump") == "EPOCH_BUMP"
  {
    hide Snake, Rest, Upper;
    Two("Epoch", "Bump", "EPOCH", "BUMP", "EPOCH_BUMP");
  }

  lemma EffectRevokeCapability()
    ensures Snake("Revoke" + "Capability") == "REVOKE_CAPABILITY"
  {
    hide Snake, Rest, Upper;
    Two("Revoke", "Capability", "REVOKE", "CAPABILITY", "REVOKE_CAPABILITY");
  }

  lemma EffectAbortPrepared()
    ensures Snake("Abort" + "Prepared") == "ABORT_PREPARED"
  {
    hide Snake, Rest, Upper;
    Two("Abort", "Prepared", "ABORT", "PREPARED", "ABORT_PREPARED");
  }

  lemma EffectDemoteGrant()
    ensures Snake("Demote" + "Grant") == "DEMOTE_GRANT"
  {
    hide Snake, Rest, Upper;
    Two("Demote", "Grant", "DEMOTE", "GRANT", "DEMOTE_GRANT");
  }

  lemma EffectRollbackSignedCandidate()
    ensures Snake("Rollback" + "Signed" + "Candidate") == "ROLLBACK_SIGNED_CANDIDATE"
  {
    hide Snake, Rest, Upper;
    Three("Rollback", "Signed", "Candidate", "ROLLBACK", "SIGNED", "CANDIDATE", "ROLLBACK_SIGNED_CANDIDATE");
  }

  lemma IngressMcp()
    ensures Snake("Mcp") == "MCP"
  {
    hide Snake, Rest, Upper;
    One("Mcp", "MCP");
  }

  lemma IngressRest()
    ensures Snake("Rest") == "REST"
  {
    hide Snake, Rest, Upper;
    One("Rest", "REST");
  }

  lemma IngressCli()
    ensures Snake("Cli") == "CLI"
  {
    hide Snake, Rest, Upper;
    One("Cli", "CLI");
  }

  lemma IngressHook()
    ensures Snake("Hook") == "HOOK"
  {
    hide Snake, Rest, Upper;
    One("Hook", "HOOK");
  }

  lemma IngressBackgroundJob()
    ensures Snake("Background" + "Job") == "BACKGROUND_JOB"
  {
    hide Snake, Rest, Upper;
    Two("Background", "Job", "BACKGROUND", "JOB", "BACKGROUND_JOB");
  }

  lemma IngressRecovery()
    ensures Snake("Recovery") == "RECOVERY"
  {
    hide Snake, Rest, Upper;
    One("Recovery", "RECOVERY");
  }

  lemma IngressMigration()
    ensures Snake("Migration") == "MIGRATION"
  {
    hide Snake, Rest, Upper;
    One("Migration", "MIGRATION");
  }

  lemma RiskLow()
    ensures Snake("Low") == "LOW"
  {
    hide Snake, Rest, Upper;
    One("Low", "LOW");
  }

  lemma RiskMedium()
    ensures Snake("Medium") == "MEDIUM"
  {
    hide Snake, Rest, Upper;
    One("Medium", "MEDIUM");
  }

  lemma RiskHigh()
    ensures Snake("High") == "HIGH"
  {
    hide Snake, Rest, Upper;
    One("High", "HIGH");
  }

  lemma RiskCritical()
    ensures Snake("Critical") == "CRITICAL"
  {
    hide Snake, Rest, Upper;
    One("Critical", "CRITICAL");
  }

  lemma FloorOrdinary()
    ensures Snake("Ordinary") == "ORDINARY"
  {
    hide Snake, Rest, Upper;
    One("Ordinary", "ORDINARY");
  }

  lemma FloorScopedGrantA2()
    ensures Snake("Scoped" + "Grant" + "A2") == "SCOPED_GRANT_A2"
  {
    hide Snake, Rest, Upper;
    Three("Scoped", "Grant", "A2", "SCOPED", "GRANT", "A2", "SCOPED_GRANT_A2");
  }

  lemma FloorPositiveSovereign()
    ensures Snake("Positive" + "Sovereign") == "POSITIVE_SOVEREIGN"
  {
    hide Snake, Rest, Upper;
    Two("Positive", "Sovereign", "POSITIVE", "SOVEREIGN", "POSITIVE_SOVEREIGN");
  }

  lemma FloorServiceIdentity()
    ensures Snake("Service" + "Identity") == "SERVICE_IDENTITY"
  {
    hide Snake, Rest, Upper;
    Two("Service", "Identity", "SERVICE", "IDENTITY", "SERVICE_IDENTITY");
  }

  lemma FloorSafetyOnly()
    ensures Snake("Safety" + "Only") == "SAFETY_ONLY"
  {
    hide Snake, Rest, Upper;
    Two("Safety", "Only", "SAFETY", "ONLY", "SAFETY_ONLY");
  }

  lemma EffectNameLaw(x: Effect)
    ensures EffectName(x) == Snake(EffectIdent(x))
  {
    hide Snake;
    match x
    case Read => EffectRead();
    case GraphMutation => EffectGraphMutation();
    case RuntimeStoreWrite => EffectRuntimeStoreWrite();
    case SourceFilesystemWrite => EffectSourceFilesystemWrite();
    case HostFilesystemWrite => EffectHostFilesystemWrite();
    case CoordinationRecord => EffectCoordinationRecord();
    case MissionStateWrite => EffectMissionStateWrite();
    case SovereignMutation => EffectSovereignMutation();
    case ProcessSpawn => EffectProcessSpawn();
    case ProcessSignal => EffectProcessSignal();
    case ExecutableReplacement => EffectExecutableReplacement();
    case NetworkAccess => EffectNetworkAccess();
    case NetworkExpose => EffectNetworkExpose();
    case FreezeIssuance => EffectFreezeIssuance();
    case EpochFence => EffectEpochFence();
    case EpochBump => EffectEpochBump();
    case RevokeCapability => EffectRevokeCapability();
    case AbortPrepared => EffectAbortPrepared();
    case DemoteGrant => EffectDemoteGrant();
    case RollbackSignedCandidate => EffectRollbackSignedCandidate();
  }

  lemma IngressNameLaw(x: Ingress)
    ensures IngressName(x) == Snake(IngressIdent(x))
  {
    hide Snake;
    match x
    case Mcp => IngressMcp();
    case Rest => IngressRest();
    case Cli => IngressCli();
    case Hook => IngressHook();
    case BackgroundJob => IngressBackgroundJob();
    case Recovery => IngressRecovery();
    case Migration => IngressMigration();
  }

  lemma RiskNameLaw(x: Risk)
    ensures RiskName(x) == Snake(RiskIdent(x))
  {
    hide Snake;
    match x
    case Low => RiskLow();
    case Medium => RiskMedium();
    case High => RiskHigh();
    case Critical => RiskCritical();
  }

  lemma FloorNameLaw(x: Floor)
    ensures FloorName(x) == Snake(FloorIdent(x))
  {
    hide Snake;
    match x
    case Ordinary => FloorOrdinary();
    case ScopedGrantA2 => FloorScopedGrantA2();
    case PositiveSovereign => FloorPositiveSovereign();
    case ServiceIdentity => FloorServiceIdentity();
    case SafetyOnly => FloorSafetyOnly();
  }
}
