/**
 * The action catalogue: `seal` writes a self-digest that ignores itself, `validate` walks
 * the entries with a map, a set and the previous action. What acceptance says of every
 * entry's authority and of every pair of entries.
 */
module ActionCatalog {
  import opened Basics
  import opened Alphabets
  import opened LexOrder
  import opened Sorting
  import opened Utf8
  import opened JsonValue
  import opened Canonical
  import opened Framing
  import opened ActionJson

  /** `is_negative_safety`. */
  predicate NegativeSafety(e: Effect) {
    e in {FreezeIssuance, EpochFence, EpochBump, RevokeCapability, AbortPrepared, DemoteGrant, RollbackSignedCandidate}
  }

  /** `effect_requires_elevated_authority`. */
  predicate Elevated(e: Effect) {
    e in {SourceFilesystemWrite, HostFilesystemWrite, ProcessSpawn, ProcessSignal, ExecutableReplacement,
          NetworkAccess, NetworkExpose}
  }

  /** Effects that only take authority away. */
  lemma SafetyLaw(e: Effect)
    ensures NegativeSafety(e) <==>
      || e == FreezeIssuance || e == EpochFence || e == EpochBump || e == RevokeCapability || e == AbortPrepared
      || e == DemoteGrant || e == RollbackSignedCandidate
  {}

  /** Effects on the host, its processes and its network. */
  lemma ElevatedLaw(e: Effect)
    ensures Elevated(e) <==>
      || e == SourceFilesystemWrite || e == HostFilesystemWrite || e == ProcessSpawn || e == ProcessSignal
      || e == ExecutableReplacement || e == NetworkAccess || e == NetworkExpose
  {}

  datatype Error =
    | BadSchema | EmptyRequired | NoEntries | InvalidActionId(action: Text) | DuplicateAction(action: Text)
    | NotStrictlySorted(action: Text) | EmptyIngresses(action: Text) | EmptyEffects(action: Text)
    | NonSafetyEffectInSafetyAction | SafetyEffectOutsideSafetyAction | SovereignEffectWithoutPositiveFloor
    | PositiveFloorWithoutSovereignEffect | PositiveSovereignMustBeCritical | SafetyOnlyMustBeCritical
    | CriticalActionHasInsufficientFloor | ElevatedEffectInOrdinaryAction
    | ExecutableReplacementWithoutPositiveFloor | ServiceIdentityWithoutServiceIngress | DigestMismatch

  // ------------------------------------------------------ entry authority

  /** `validate_entry_authority`, branch by branch. */
  function AuthorityError(e: Entry): Option<Error> {
    var safety := exists f :: f in e.effects && NegativeSafety(f);
    var byFloor :=
      match e.floor
      case SafetyOnly =>
        if exists f :: f in e.effects && !NegativeSafety(f) then Some(NonSafetyEffectInSafetyAction)
        else if e.risk != Critical then Some(SafetyOnlyMustBeCritical)
        else None
      case PositiveSovereign =>
        if safety then Some(SafetyEffectOutsideSafetyAction)
        else if SovereignMutation !in e.effects then Some(PositiveFloorWithoutSovereignEffect)
        else if e.risk != Critical then Some(PositiveSovereignMustBeCritical)
        else None
      case floor =>
        if safety then Some(SafetyEffectOutsideSafetyAction)
        else if SovereignMutation in e.effects then Some(SovereignEffectWithoutPositiveFloor)
        else if e.risk == Critical then Some(CriticalActionHasInsufficientFloor)
        else if floor == Ordinary && exists f :: f in e.effects && Elevated(f) then Some(ElevatedEffectInOrdinaryAction)
        else if floor == ServiceIdentity && e.ingresses * {Rest, Cli, Hook, BackgroundJob, Recovery, Migration} == {}
        then Some(ServiceIdentityWithoutServiceIngress)
        else None;
    if byFloor.Some? then byFloor
    else if ExecutableReplacement in e.effects && e.floor != PositiveSovereign
    then Some(ExecutableReplacementWithoutPositiveFloor)
    else None
  }

  /** The separation of authority and effects, as a table of equivalences. */
  ghost predicate Separated(e: Entry) {
    && (SovereignMutation in e.effects <==> e.floor == PositiveSovereign)
    && ((exists f :: f in e.effects && NegativeSafety(f)) <==> e.floor == SafetyOnly)
    && (e.floor == SafetyOnly ==> forall f :: f in e.effects ==> NegativeSafety(f))
    && (e.risk == Critical <==> e.floor in {PositiveSovereign, SafetyOnly})
    && (ExecutableReplacement in e.effects ==> e.floor == PositiveSovereign)
    && (e.floor == Ordinary ==> forall f :: f in e.effects ==> !Elevated(f))
    && (e.floor == ServiceIdentity ==> exists i :: i in e.ingresses && i != Mcp)
  }

  /** The branches accept an entry with effects exactly when it is separated. */
  lemma AuthorityExactly(e: Entry)
    requires e.effects != {}
    ensures AuthorityError(e) == None <==> Separated(e)
  {
    var f :| f in e.effects;
    var services := {Rest, Cli, Hook, BackgroundJob, Recovery, Migration};
    assert forall i: Ingress :: i in services <==> i != Mcp;
    assert e.ingresses * services == {} <==> !exists i :: i in e.ingresses && i != Mcp by {
      if i :| i in e.ingresses && i != Mcp { assert i in e.ingresses * services; }
    }
    assert !NegativeSafety(SovereignMutation) && !NegativeSafety(ExecutableReplacement);
    assert NegativeSafety(f) || !NegativeSafety(f);
  }

  // ----------------------------------------------------------- the entries

  /** Two or more lowercase dotted segments of `a-z`, `0-9` and `_`. */
  predicate SemanticId(t: Text) {
    && (exists i :: 0 <= i < |t| && t[i] == 0x2E)
    && (forall i :: 0 <= i < |t| ==> 97 <= t[i] < 123 || 48 <= t[i] < 58 || t[i] == 0x5F || t[i] == 0x2E)
    && t[0] != 0x2E && t[|t| - 1] != 0x2E
    && (forall i :: 0 <= i < |t| - 1 ==> t[i] == 0x2E ==> t[i+1] != 0x2E)
  }

  /** A segment of an action id. */
  predicate Segment(s: Text) {
    s != [] && forall i :: 0 <= i < |s| ==> s[i] in LOWERS + DIGITS + T("_")
  }

  lemma SegmentCharacter(c: Code)
    ensures c in LOWERS + DIGITS + T("_") <==> 97 <= c < 123 || 48 <= c < 58 || c == 0x5F
  {
    hide LOWERS, DIGITS;
    Lowers(c);
    Digits(c);
    assert T("_") == [0x5F];
  }

  lemma SegmentShape(s: Text)
    ensures Segment(s) <==> s != [] && forall i :: 0 <= i < |s| ==> 97 <= s[i] < 123 || 48 <= s[i] < 58 || s[i] == 0x5F
  {
    hide LOWERS, DIGITS;
    forall i | 0 <= i < |s| ensures s[i] in LOWERS + DIGITS + T("_") <==> 97 <= s[i] < 123 || 48 <= s[i] < 58 || s[i] == 0x5F {
      SegmentCharacter(s[i]);
    }
  }

  /** An action id is two or more segments with dots between them. */
  lemma SemanticIdLaw(t: Text)
    ensures SemanticId(t) <==>
      exists segments: seq<Text> ::
        |segments| >= 2 && (forall i :: 0 <= i < |segments| ==> Segment(segments[i])) && t == Joined(T("."), segments)
  {
    if SemanticId(t) {
      var segments := Segments(t);
    }
    if segments: seq<Text> :|
      |segments| >= 2 && (forall i :: 0 <= i < |segments| ==> Segment(segments[i])) && t == Joined(T("."), segments)
    {
      Dotted(segments);
      var first, rest := segments[0], Joined(T("."), segments[1..]);
      assert t == first + T(".") + rest;
      assert t[|first|] == 0x2E;
    }
  }

  /** Characters and dots as an action id has them; without a dot, a single segment. */
  predicate DottedText(t: Text) {
    && t != [] && (forall i :: 0 <= i < |t| ==> 97 <= t[i] < 123 || 48 <= t[i] < 58 || t[i] == 0x5F || t[i] == 0x2E)
    && t[0] != 0x2E && t[|t| - 1] != 0x2E
    && (forall i :: 0 <= i < |t| - 1 ==> t[i] == 0x2E ==> t[i+1] != 0x2E)
  }

  lemma {:induction false} Dotted(segments: seq<Text>)
    requires segments != [] && forall i :: 0 <= i < |segments| ==> Segment(segments[i])
    ensures DottedText(Joined(T("."), segments))
  {
    hide Segment;
    var t := Joined(T("."), segments);
    var first := segments[0];
    SegmentShape(first);
    assert T(".") == [0x2E];
    if |segments| > 1 {
      var rest := Joined(T("."), segments[1..]);
      Dotted(segments[1..]);
      assert t == first + [0x2E] + rest;
      forall i | 0 <= i < |t|
        ensures t[i] == if i < |first| then first[i] else if i == |first| then 0x2E else rest[i - |first| - 1] {}
    }
  }

  lemma {:induction false} Segments(t: Text) returns (segments: seq<Text>)
    requires DottedText(t)
    ensures segments != [] && (forall i :: 0 <= i < |segments| ==> Segment(segments[i])) && t == Joined(T("."), segments)
    ensures (exists i :: 0 <= i < |t| && t[i] == 0x2E) ==> |segments| >= 2
    decreases |t|
  {
    hide Segment;
    if i :| 0 <= i < |t| && t[i] == 0x2E && forall k :: 0 <= k < i ==> t[k] != 0x2E {
      DottedSplit(t, i);
      var rest := Segments(t[i + 1..]);
      segments := [t[..i]] + rest;
      assert segments[1..] == rest;
      assert t == t[..i] + T(".") + t[i + 1..];
    } else {
      NoDot(t, |t|);
      SegmentShape(t);
      segments := [t];
    }
  }

  /** What stands before the first dot is a segment, what follows is dotted text again. */
  lemma DottedSplit(t: Text, i: nat)
    requires DottedText(t) && i < |t| && t[i] == 0x2E && forall k :: 0 <= k < i ==> t[k] != 0x2E
    ensures i + 1 < |t| && Segment(t[..i]) && DottedText(t[i + 1..]) && T(".") == [0x2E]
  {
    hide Segment;
    SegmentShape(t[..i]);
    var u := t[i + 1..];
    assert forall k :: 0 <= k < |u| ==> u[k] == t[i + 1 + k];
    assert u[0] == t[i + 1];
  }

  /** Without a first dot there is none. */
  lemma {:induction false} NoDot(t: Text, n: nat)
    requires n <= |t|
    requires !exists i :: 0 <= i < |t| && t[i] == 0x2E && forall k :: 0 <= k < i ==> t[k] != 0x2E
    ensures forall k :: 0 <= k < n ==> t[k] != 0x2E
  {
    if n > 0 { NoDot(t, n - 1); }
  }

  /** `Ord` of `ActionId`: Rust compares the bytes. */
  predicate ActionLess(a: Text, b: Text) {
    LexLess(Encode(a), Encode(b))
  }

  ghost predicate Sorted(es: seq<Entry>) {
    forall i, j :: 0 <= i < j < |es| ==> ActionLess(es[i].action, es[j].action)
  }

  predicate EntryShape(e: Entry) {
    SemanticId(e.action) && e.ingresses != {} && e.effects != {}
  }

  ghost predicate GoodEntries(es: seq<Entry>) {
    Sorted(es) && forall i :: 0 <= i < |es| ==> EntryShape(es[i]) && Separated(es[i])
  }

  /** The checks of one turn: `seen` tells whether the action came before. */
  function TurnError(e: Entry, seen: bool, previous: Option<Text>): Option<Error> {
    if !SemanticId(e.action) then Some(InvalidActionId(e.action))
    else if e.ingresses == {} then Some(EmptyIngresses(e.action))
    else if e.effects == {} then Some(EmptyEffects(e.action))
    else if seen then Some(DuplicateAction(e.action))
    else if previous.Some? && !ActionLess(previous.value, e.action) then Some(NotStrictlySorted(e.action))
    else AuthorityError(e)
  }

  /** The error of entry `i`, given the entries before it. */
  function EntryError(es: seq<Entry>, i: nat): Option<Error>
    requires i < |es|
  {
    TurnError(es[i], exists k :: 0 <= k < i && es[k].action == es[i].action,
              if i == 0 then None else Some(es[i-1].action))
  }

  /** The first error at or after entry `i`. */
  function FirstEntryError(es: seq<Entry>, i: nat): Option<Error>
    requires i <= |es|
    decreases |es| - i
  {
    if i == |es| then None
    else
      var error := EntryError(es, i);
      if error.Some? then error else FirstEntryError(es, i + 1)
  }

  lemma {:induction false} FirstEntryErrorExactly(es: seq<Entry>, i: nat)
    requires i <= |es|
    ensures FirstEntryError(es, i) == None <==> forall k :: i <= k < |es| ==> EntryError(es, k) == None
    decreases |es| - i
  {
    hide EntryError;
    if i < |es| { FirstEntryErrorExactly(es, i + 1); }
  }

  /** One entry after good ones raises no error exactly when the list stays good. */
  lemma EntryErrorExactly(es: seq<Entry>, i: nat)
    requires i < |es|
    ensures EntryError(es, i) == None ==>
      EntryShape(es[i]) && Separated(es[i]) && (i > 0 ==> ActionLess(es[i-1].action, es[i].action))
    ensures EntryShape(es[i]) && Separated(es[i]) && Sorted(es) ==> EntryError(es, i) == None
  {
    hide SemanticId, AuthorityError, Separated, ActionLess;
    if es[i].effects != {} { AuthorityExactly(es[i]); }
    if Sorted(es) {
      forall k | 0 <= k < i ensures es[k].action != es[i].action {
        ActionIrreflexive(es[k].action);
      }
    }
  }

  function ByAction(): (Entry, Entry) -> bool {
    (e: Entry, f: Entry) => ActionLess(e.action, f.action)
  }

  lemma ActionTransitive()
    ensures Transitive(ByAction())
  {
    forall e: Entry, f: Entry, g: Entry | ByAction()(e, f) && ByAction()(f, g) ensures ByAction()(e, g) {
      LexTransitive(Encode(e.action), Encode(f.action), Encode(g.action));
    }
  }

  lemma ActionIrreflexive(a: Text)
    ensures !ActionLess(a, a)
  {
    LexIrreflexive(Encode(a));
  }

  /** The walk finds no error exactly in a strictly increasing list of separated entries. */
  lemma EntriesExactly(es: seq<Entry>)
    ensures FirstEntryError(es, 0) == None <==> GoodEntries(es)
  {
    hide EntryError, EntryShape, Separated, ActionLess;
    FirstEntryErrorExactly(es, 0);
    forall i | 0 <= i < |es|
      ensures EntryError(es, i) == None ==>
        EntryShape(es[i]) && Separated(es[i]) && (i > 0 ==> ActionLess(es[i-1].action, es[i].action))
      ensures EntryShape(es[i]) && Separated(es[i]) && Sorted(es) ==> EntryError(es, i) == None
    {
      EntryErrorExactly(es, i);
    }
    if FirstEntryError(es, 0) == None {
      forall i | 0 < i < |es| ensures ActionLess(es[i-1].action, es[i].action) { assert EntryError(es, i) == None; }
      ActionTransitive();
      AdjacentIncreasing(ByAction(), es);
      assert forall i, j :: 0 <= i < j < |es| ==> ByAction()(es[i], es[j]);
      forall i | 0 <= i < |es| ensures EntryShape(es[i]) && Separated(es[i]) {
        assert EntryError(es, i) == None;
        EntryErrorExactly(es, i);
      }
    }
  }

  // ----------------------------------------------------------- the digest

  const SCHEMA := T("m1nd-action-catalog-v1")
  const DIGEST_FIELD := T("catalog_digest")

  /** `serde_json::to_value(self)`. */
  function ToValue(c: Catalog): seq<Member> {
    [Member(T("schema"), Str(c.schema)), Member(T("catalog_version"), Str(c.version)),
     Member(T("entries"), Arr(EntriesJson(c.entries))), Member(DIGEST_FIELD, Str(c.digest))]
  }

  /** `object.remove(key)`. */
  function Remove(ms: seq<Member>, k: Text): seq<Member> {
    if ms == [] then [] else (if ms[0].key == k then [] else [ms[0]]) + Remove(ms[1..], k)
  }

  function Unsigned(c: Catalog): JSON {
    Obj(Remove(ToValue(c), DIGEST_FIELD))
  }

  /** `compute_catalog_digest`. */
  function ComputeDigest(h: Hash, c: Catalog): Text {
    DigestOf(h, Encode(SCHEMA), CanonicalBytes(Unsigned(c)))
  }

  lemma {:induction false} RemoveAppend(ms: seq<Member>, ns: seq<Member>, k: Text)
    ensures Remove(ms + ns, k) == Remove(ms, k) + Remove(ns, k)
  {
    if ms == [] {
      assert ms + ns == ns;
    } else {
      assert (ms + ns)[1..] == ms[1..] + ns;
      RemoveAppend(ms[1..], ns, k);
    }
  }

  /** What is hashed: schema, version and entries, in that order. */
  lemma UnsignedMembers(c: Catalog)
    ensures Unsigned(c) == Obj([Member(T("schema"), Str(c.schema)), Member(T("catalog_version"), Str(c.version)),
                                Member(T("entries"), Arr(EntriesJson(c.entries)))])
  {
    hide EntriesJson;
    var ms := ToValue(c);
    assert |ms[0].key| == 6 && |ms[1].key| == 15 && |ms[2].key| == 7 && |DIGEST_FIELD| == 14;
    assert ms == [ms[0]] + ([ms[1]] + ([ms[2]] + [ms[3]]));
    RemoveAppend([ms[0]], [ms[1]] + ([ms[2]] + [ms[3]]), DIGEST_FIELD);
    RemoveAppend([ms[1]], [ms[2]] + [ms[3]], DIGEST_FIELD);
    RemoveAppend([ms[2]], [ms[3]], DIGEST_FIELD);
  }

  /** What is hashed does not contain the digest. */
  lemma DigestIgnoresItself(c: Catalog, digest: Text)
    ensures Unsigned(c.(digest := digest)) == Unsigned(c)
  {
    UnsignedMembers(c);
    UnsignedMembers(c.(digest := digest));
  }

  /** The digest in literals: the frame of the schema name and the canonical bytes of what is hashed. */
  lemma ComputeDigestLaw(h: Hash, c: Catalog)
    ensures ComputeDigest(h, c) ==
      Hex(h(DigestOctets(Encode(T("m1nd-action-catalog-v1")), CanonicalBytes(Unsigned(c)))))
  {
    hide CanonicalBytes, DigestOctets, Hex, DigestFrame, Unsigned, Encode, T;
    DigestFrameLaw(Encode(SCHEMA), CanonicalBytes(Unsigned(c)));
  }

  /** Entries ascend by the bytes of their actions. */
  lemma SortedLaw(es: seq<Entry>)
    ensures Sorted(es) <==> forall i, j :: 0 <= i < j < |es| ==> Before(Encode(es[i].action), Encode(es[j].action))
  {
    hide LexLess, Before, Encode;
    forall i, j | 0 <= i < j < |es| ensures ActionLess(es[i].action, es[j].action) <==> Before(Encode(es[i].action), Encode(es[j].action)) {
      LexMeaning(Encode(es[i].action), Encode(es[j].action));
    }
  }

  // --------------------------------------------------------- validation

  predicate RustWhite(c: Code) {
    || 0x09 <= c < 0x0E || c == 0x20 || c == 0x85 || c == 0xA0 || c == 0x1680 || 0x2000 <= c < 0x200B
    || c == 0x2028 || c == 0x2029 || c == 0x202F || c == 0x205F || c == 0x3000
  }

  /** Rust's white space is Python's without the four separators below the space. */
  lemma RustWhiteLaw(c: Code)
    ensures RustWhite(c) <==> IsWhite(c) && !(0x1C <= c < 0x20)
  {}

  /** `!value.trim().is_empty()`. */
  predicate NonBlank(t: Text) {
    exists i :: 0 <= i < |t| && !RustWhite(t[i])
  }

  /** What an accepted catalogue is. */
  ghost predicate ValidCatalog(h: Hash, c: Catalog) {
    && c.schema == SCHEMA && NonBlank(c.version) && NonBlank(c.digest)
    && c.entries != [] && GoodEntries(c.entries)
    && c.digest == ComputeDigest(h, c)
  }

  datatype Outcome = Valid(entryCount: nat, actionCount: nat, ingressCount: nat, digest: Text) | Invalid(error: Error)

  /** The first error of a catalogue, in the order of the checks. */
  function FirstError(h: Hash, c: Catalog): Option<Error> {
    if c.schema != SCHEMA then Some(BadSchema)
    else if !NonBlank(c.version) || !NonBlank(c.digest) then Some(EmptyRequired)
    else if c.entries == [] then Some(NoEntries)
    else
      var error := FirstEntryError(c.entries, 0);
      if error.Some? then error
      else if c.digest != ComputeDigest(h, c) then Some(DigestMismatch)
      else None
  }

  lemma ValidExactly(h: Hash, c: Catalog)
    ensures FirstError(h, c) == None <==> ValidCatalog(h, c)
  {
    hide ComputeDigest, NonBlank, FirstEntryError, GoodEntries;
    EntriesExactly(c.entries);
  }

  ghost function AllIngresses(es: seq<Entry>): set<Ingress> {
    set i: Ingress, k | 0 <= k < |es| && i in es[k].ingresses :: i
  }

  class ActionCatalogV1 {
    var schema: Text
    var version: Text
    var entries: seq<Entry>
    var digest: Text

    constructor (c: Catalog)
      ensures State() == c
    {
      schema, version, entries, digest := c.schema, c.version, c.entries, c.digest;
    }

    function State(): Catalog
      reads this
    {
      Catalog(schema, version, entries, digest)
    }

    /** `seal`: only the digest changes, and it is the digest of everything else. */
    method Seal(h: Hash)
      modifies this`digest
      ensures State() == Sealed(h, old(State()))
    {
      digest := ComputeDigest(h, State());
    }

    /** The walk over the entries, with its map of actions, its set and its predecessor. */
    method WalkEntries() returns (error: Option<Error>, actionCount: nat, ingressCount: nat)
      ensures error == FirstEntryError(entries, 0)
      ensures error.None? ==> actionCount == |entries| && ingressCount == |AllIngresses(entries)|
    {
      hide TurnError, AllIngresses, FirstEntryError, Inserted;
      NothingInserted(entries);
      NoIngresses(entries);
      AtTheEnd(entries);
      var actions: map<Text, ()> := map[];
      var allIngresses: set<Ingress> := {};
      var previous: Option<Text> := None;
      var i := 0;
      while i < |entries|
        invariant 0 <= i <= |entries|
        invariant FirstEntryError(entries, 0) == FirstEntryError(entries, i)
        invariant Inserted(actions, entries, i)
        invariant previous == if i == 0 then None else Some(entries[i-1].action)
        invariant allIngresses == AllIngresses(entries[..i])
      {
        var e := entries[i];
        var failed := TurnError(e, e.action in actions, previous);
        InsertedMeans(actions, entries, i);
        NextError(entries, i, e.action in actions, previous);
        if failed.Some? {
          return failed, 0, 0;
        }
        TurnAccepts(e, e.action in actions, previous);
        InsertedSnoc(actions, entries, i);
        actions := actions[e.action := ()];
        previous := Some(e.action);
        IngressesSnoc(entries, i);
        allIngresses := allIngresses + e.ingresses;
        i := i + 1;
      }
      assert entries[..i] == entries;
      InsertedCount(actions, entries);
      return None, |actions|, |allIngresses|;
    }

    /** `validate`. */
    method Validate(h: Hash) returns (outcome: Outcome)
      ensures outcome.Valid? <==> ValidCatalog(h, State())
      ensures outcome.Invalid? ==> FirstError(h, State()) == Some(outcome.error)
      ensures outcome.Valid? ==>
        outcome == Outcome.Valid(|entries|, |entries|, |AllIngresses(entries)|, ComputeDigest(h, State()))
    {
      hide NonBlank, ComputeDigest, FirstEntryError, ValidCatalog;
      ValidExactly(h, State());
      if schema != SCHEMA {
        return Invalid(BadSchema);
      }
      if !NonBlank(version) || !NonBlank(digest) {
        return Invalid(EmptyRequired);
      }
      if entries == [] {
        return Invalid(NoEntries);
      }
      var error, actionCount, ingressCount := WalkEntries();
      if error.Some? {
        return Invalid(error.value);
      }
      var computed := ComputeDigest(h, State());
      if digest != computed {
        return Invalid(DigestMismatch);
      }
      return Outcome.Valid(|entries|, actionCount, ingressCount, computed);
    }
  }

  /** One of the first `i` entries has this action. */
  ghost predicate Listed(es: seq<Entry>, i: nat, action: Text)
    requires i <= |es|
  {
    exists k :: 0 <= k < i && es[k].action == action
  }

  /** The map after `i` turns: the actions so far, each once. */
  ghost predicate Inserted(actions: map<Text, ()>, es: seq<Entry>, i: nat)
    requires i <= |es|
  {
    |actions| == i && forall a :: a in actions <==> Listed(es, i, a)
  }

  lemma NothingInserted(es: seq<Entry>)
    ensures Inserted(map[], es, 0)
  {}

  lemma InsertedMeans(actions: map<Text, ()>, es: seq<Entry>, i: nat)
    requires i < |es| && Inserted(actions, es, i)
    ensures es[i].action in actions <==> exists k :: 0 <= k < i && es[k].action == es[i].action
  {
    assert es[i].action in actions <==> Listed(es, i, es[i].action);
  }

  lemma ListedSnoc(es: seq<Entry>, i: nat, a: Text)
    requires i < |es|
    ensures Listed(es, i + 1, a) <==> Listed(es, i, a) || es[i].action == a
  {}

  lemma InsertedSnoc(actions: map<Text, ()>, es: seq<Entry>, i: nat)
    requires i < |es| && Inserted(actions, es, i) && es[i].action !in actions
    ensures Inserted(actions[es[i].action := ()], es, i + 1)
  {
    hide Listed;
    var next := actions[es[i].action := ()];
    assert |next| == |actions| + 1 by { assert next.Keys == actions.Keys + {es[i].action}; }
    forall a ensures a in next <==> Listed(es, i + 1, a) { ListedSnoc(es, i, a); }
  }

  lemma InsertedCount(actions: map<Text, ()>, es: seq<Entry>)
    requires Inserted(actions, es, |es|)
    ensures |actions| == |es|
  {}

  lemma AtTheEnd(es: seq<Entry>)
    ensures FirstEntryError(es, |es|) == None
  {}

  /** The turn for one entry is the step of the walk. */
  lemma NextError(es: seq<Entry>, i: nat, seen: bool, previous: Option<Text>)
    requires i < |es|
    requires seen <==> exists k :: 0 <= k < i && es[k].action == es[i].action
    requires previous == if i == 0 then None else Some(es[i-1].action)
    ensures FirstEntryError(es, i) ==
      var failed := TurnError(es[i], seen, previous); if failed.Some? then failed else FirstEntryError(es, i + 1)
  {
    hide AuthorityError, SemanticId, ActionLess;
  }

  lemma TurnAccepts(e: Entry, seen: bool, previous: Option<Text>)
    ensures TurnError(e, seen, previous).None? ==> !seen
  {}

  lemma NoIngresses(es: seq<Entry>)
    ensures AllIngresses(es[..0]) == {}
  {}

  lemma IngressesSnoc(es: seq<Entry>, i: nat)
    requires i < |es|
    ensures AllIngresses(es[..i+1]) == AllIngresses(es[..i]) + es[i].ingresses
  {}

  // ------------------------------------------------------------- sealing

  function Sealed(h: Hash, c: Catalog): Catalog {
    c.(digest := ComputeDigest(h, c))
  }

  /** Sealing twice is sealing once, whatever digest stood there before. */
  lemma SealIdempotent(h: Hash, c: Catalog, digest: Text)
    ensures Sealed(h, Sealed(h, c)) == Sealed(h, c)
    ensures Sealed(h, c.(digest := digest)) == Sealed(h, c)
  {
    hide Unsigned;
    DigestIgnoresItself(c, ComputeDigest(h, c));
    DigestIgnoresItself(c, digest);
  }

  lemma HexNonBlank(b: Bytes)
    requires |b| == 32
    ensures NonBlank(Hex(b))
  {}

  /** A sealed catalogue validates exactly when its content does: the digest never fails it. */
  lemma SealedValidates(h: Hash, c: Catalog)
    requires Sha(h)
    ensures ValidCatalog(h, Sealed(h, c)) <==>
      c.schema == SCHEMA && NonBlank(c.version) && c.entries != [] && GoodEntries(c.entries)
  {
    hide Unsigned, NonBlank, GoodEntries, DigestFrame;
    DigestIgnoresItself(c, ComputeDigest(h, c));
    HexNonBlank(h(DigestFrame(Encode(SCHEMA), CanonicalBytes(Unsigned(c)))));
  }

  /** Strings of the catalogue are text, as Rust strings are. */
  ghost predicate Texts(c: Catalog) {
    Encodable(c.schema) && Encodable(c.version) && forall i :: 0 <= i < |c.entries| ==> Encodable(c.entries[i].action)
  }

  lemma UnsignedIsValid(c: Catalog)
    requires Texts(c)
    ensures JsonValue.Valid(Unsigned(c))
  {
    hide EntryJson, EntriesJson;
    UnsignedMembers(c);
    var ms := Unsigned(c).members;
    assert |ms[0].key| == 6 && |ms[1].key| == 15 && |ms[2].key| == 7;
    forall i | 0 <= i < |c.entries| ensures Dict(EntryJson(c.entries[i])) && Encodables(EntryJson(c.entries[i])) {
      EntryIsDict(c.entries[i]);
    }
    assert DistinctKeys(ms);
    assert Dict(ms[0].value) && Dict(ms[1].value) && Dict(ms[2].value);
    assert Encodables(ms[0].value) && Encodables(ms[1].value) && Encodables(ms[2].value);
    assert forall i :: 0 <= i < |ms| ==> Dict(ms[i].value) && Encodable(ms[i].key) && Encodables(ms[i].value);
  }

  /** The hashed data is that of schema, version and entries, and loses nothing of them. */
  lemma UnsignedExact(c: Catalog, d: Catalog)
    requires Texts(c) && Texts(d)
    ensures SameData(Unsigned(c), Unsigned(d)) <==> c.schema == d.schema && c.version == d.version && c.entries == d.entries
  {
    hide EntriesJson, SameData;
    UnsignedMembers(c);
    UnsignedMembers(d);
    var ms, ns := Unsigned(c).members, Unsigned(d).members;
    if SameData(Unsigned(c), Unsigned(d)) {
      SameMember(ms, ns, 0);
      SameMember(ms, ns, 1);
      SameMember(ms, ns, 2);
      SameStrings(c.schema, d.schema);
      SameStrings(c.version, d.version);
      EntriesExact(c.entries, d.entries);
    }
    if c.schema == d.schema && c.version == d.version && c.entries == d.entries {
      UnsignedIsValid(c);
      NormalExact(Unsigned(c), Unsigned(d));
    }
  }

  lemma SameStrings(a: Text, b: Text)
    ensures SameData(Str(a), Str(b)) <==> a == b
  {}

  /** Two catalogues have one digest exactly if schema, version and entries are equal, unless the hash collides. */
  lemma CatalogDigestBinds(h: Hash, c: Catalog, d: Catalog)
    requires Texts(c) && Texts(d)
    requires Fits(CanonicalBytes(Unsigned(c))) && Fits(CanonicalBytes(Unsigned(d)))
    requires Separates(h, DigestFrame(Encode(SCHEMA), CanonicalBytes(Unsigned(c))),
                          DigestFrame(Encode(SCHEMA), CanonicalBytes(Unsigned(d))))
    ensures ComputeDigest(h, c) == ComputeDigest(h, d)
      <==> c.schema == d.schema && c.version == d.version && c.entries == d.entries
  {
    hide Unsigned, CanonicalBytes, SameData, JsonValue.Valid, Encode, Texts;
    EncodeLength(SCHEMA);
    UnsignedIsValid(c);
    UnsignedIsValid(d);
    DigestBinds(h, Encode(SCHEMA), CanonicalBytes(Unsigned(c)), Encode(SCHEMA), CanonicalBytes(Unsigned(d)));
    CanonicalExact(Unsigned(c), Unsigned(d));
    UnsignedExact(c, d);
  }
}
