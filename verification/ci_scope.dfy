/**
 * `classify_paths` and `valid_scope`: which CI areas a set of changed paths owes. The
 * loop over flags and sets is proved to compute a join over the paths, and the scope it
 * builds to be valid, closed under dependencies and monotone.
 */
module CiScope {
  import opened Basics
  import opened LexOrder
  import Sorting
  import opened TextSets
  import opened CiPaths

  datatype Scope = Scope(
    schema: Text, candidate: Text, mode: Text,
    rust: bool, ui: bool, host: bool, cache: bool, python: bool,
    crates: seq<Text>, heavy: seq<Text>)

  const SCHEMA := T("m1nd-ci-scope-v1")
  const FULL := T("full")
  const SCOPED := T("scoped")

  const CONTROL := T("m1nd-control")
  const CORE := T("m1nd-core")
  const INGEST := T("m1nd-ingest")
  const MCP := T("m1nd-mcp")
  const OPENCLAW := T("m1nd-openclaw")
  const RUNNERD := T("m1nd-runnerd")
  const CRATES := [CONTROL, CORE, INGEST, MCP, OPENCLAW, RUNNERD]

  const RETROBUILDER := T("retrobuilder")
  const TRANSPLANT := T("transplant")
  const HEAVY := [RETROBUILDER, TRANSPLANT]

  const GLOBAL_PATHS := [
    T("Cargo.toml"), T("Cargo.lock"), T("build.rs"), T("scripts/ci_scope.py"), T("scripts/ci_gate_status.py"),
    T("scripts/lightning_check.sh"), T("scripts/rust_pr_check.py"), T("scripts/m1nd10_candidate_source_guard.py"),
    T(".gitleaks.toml"), T("SECURITY.md")]

  // -------------------------------------------------------------- one path

  predicate Ends(path: Text, suffix: Text) {
    |suffix| <= |path| && path[|path| - |suffix|..] == suffix
  }

  predicate IsGlobal(path: Text) {
    || path in GLOBAL_PATHS
    || Ends(path, T("/Cargo.toml")) || Ends(path, T("/build.rs"))
    || StartsWith(path, T(".github/workflows/")) || StartsWith(path, T(".config/"))
  }

  function FirstCrate(path: Text, crates: seq<Text>): (r: Option<Text>)
    ensures r.Some? ==> r.value in crates
  {
    if crates == [] then None
    else if StartsWith(path, crates[0] + T("/src/")) || StartsWith(path, crates[0] + T("/tests/")) then Some(crates[0])
    else FirstCrate(path, crates[1..])
  }

  function CrateFor(path: Text): (r: Option<Text>)
    ensures r.Some? ==> r.value in CRATES
  {
    FirstCrate(path, CRATES)
  }

  /** `str.lower`, as far as the ASCII words searched for can tell. */
  function Lower(t: Text): (r: Text)
    ensures |r| == |t|
  {
    seq(|t|, i requires 0 <= i < |t| => LowerCase(t[i]))
  }

  /** What a diff owes: everything, or some areas, crates and heavy families. */
  datatype Owed =
    | Everything
    | Areas(rust: bool, ui: bool, host: bool, cache: bool, python: bool, crates: set<Text>, heavy: set<Text>)

  const NOTHING := Areas(false, false, false, false, false, {}, {})

  /** What one changed path owes, taken by itself. */
  function OwedBy(path: Text): Owed {
    if IsGlobal(path) then Everything
    else
      match CrateFor(path)
      case Some(crate) =>
        if Contains(Lower(path), RETROBUILDER) then Everything
        else
          Areas(true, false, false, true, false, {crate},
                if Contains(Lower(path), TRANSPLANT) then {TRANSPLANT} else {})
      case None =>
        if StartsWith(path, T("m1nd-ui/")) then NOTHING.(ui := true)
        else if StartsWith(path, T("npm/")) || path in [T("package.json"), T("package-lock.json")]
        then NOTHING.(host := true, cache := true)
        else if StartsWith(path, T("tests/test_")) && Ends(path, T(".py")) then NOTHING.(python := true)
        else if path == T("scripts/m1nd-dev") || StartsWith(path, T("scripts/devkit/")) then
          if StartsWith(path, T("scripts/devkit/ui-dev")) then NOTHING.(ui := true)
          else NOTHING.(python := true, ui := true, cache := true)
        else if path in [T("README.md"), T("AGENTS.md"), T("CONTRIBUTING.md")] || StartsWith(path, T("docs/"))
        then NOTHING
        else Everything
  }

  // ------------------------------------------- the table of paths, in literals

  /** What a debt says, flag by flag, of the path it stems from. */
  ghost predicate Told(o: Owed, path: Text) {
    if CallsForAll(path) then o.Everything?
    else
      && o.Areas?
      && o.rust == RustPath(path) && o.ui == UiPath(path) && o.host == HostPath(path)
      && o.cache == CachePath(path) && o.python == PythonPath(path)
      && (T("m1nd-control") in o.crates <==> ControlPath(path)) && (T("m1nd-core") in o.crates <==> CorePath(path))
      && (T("m1nd-ingest") in o.crates <==> IngestPath(path)) && (T("m1nd-mcp") in o.crates <==> McpPath(path))
      && (T("m1nd-openclaw") in o.crates <==> OpenclawPath(path))
      && (T("m1nd-runnerd") in o.crates <==> RunnerdPath(path))
      && o.heavy == (if TransplantPath(path) then {T("transplant")} else {})
  }

  lemma GlobalExactly(path: Text)
    ensures IsGlobal(path) <==> Global(path)
  {
    var g := GLOBAL_PATHS;
    assert g[0] == T("Cargo.toml") && g[1] == T("Cargo.lock") && g[2] == T("build.rs") && g[3] == T("scripts/ci_scope.py");
    assert g[4] == T("scripts/ci_gate_status.py") && g[5] == T("scripts/lightning_check.sh");
    assert g[6] == T("scripts/rust_pr_check.py") && g[7] == T("scripts/m1nd10_candidate_source_guard.py");
    assert g[8] == T(".gitleaks.toml") && g[9] == T("SECURITY.md");
  }

  /** A path under a directory is under its parts. */
  lemma Under2(path: Text, crate: string, rest: string, whole: string)
    requires whole == crate + rest
    ensures StartsWith(path, T(crate) + T(rest)) <==> Under(path, whole)
  {
    assert T(whole) == T(crate) + T(rest);
  }

  lemma CrateDirectories(path: Text)
    ensures StartsWith(path, CONTROL + T("/src/")) || StartsWith(path, CONTROL + T("/tests/")) <==> ControlPath(path)
    ensures StartsWith(path, CORE + T("/src/")) || StartsWith(path, CORE + T("/tests/")) <==> CorePath(path)
    ensures StartsWith(path, INGEST + T("/src/")) || StartsWith(path, INGEST + T("/tests/")) <==> IngestPath(path)
    ensures StartsWith(path, MCP + T("/src/")) || StartsWith(path, MCP + T("/tests/")) <==> McpPath(path)
    ensures StartsWith(path, OPENCLAW + T("/src/")) || StartsWith(path, OPENCLAW + T("/tests/")) <==> OpenclawPath(path)
    ensures StartsWith(path, RUNNERD + T("/src/")) || StartsWith(path, RUNNERD + T("/tests/")) <==> RunnerdPath(path)
  {
    hide StartsWith, Under;
    Under2(path, "m1nd-control", "/src/", "m1nd-control/src/");
    Under2(path, "m1nd-control", "/tests/", "m1nd-control/tests/");
    Under2(path, "m1nd-core", "/src/", "m1nd-core/src/");
    Under2(path, "m1nd-core", "/tests/", "m1nd-core/tests/");
    Under2(path, "m1nd-ingest", "/src/", "m1nd-ingest/src/");
    Under2(path, "m1nd-ingest", "/tests/", "m1nd-ingest/tests/");
    Under2(path, "m1nd-mcp", "/src/", "m1nd-mcp/src/");
    Under2(path, "m1nd-mcp", "/tests/", "m1nd-mcp/tests/");
    Under2(path, "m1nd-openclaw", "/src/", "m1nd-openclaw/src/");
    Under2(path, "m1nd-openclaw", "/tests/", "m1nd-openclaw/tests/");
    Under2(path, "m1nd-runnerd", "/src/", "m1nd-runnerd/src/");
    Under2(path, "m1nd-runnerd", "/tests/", "m1nd-runnerd/tests/");
  }

  /** Two letters tell the crates apart, and the crates from everything else. */
  lemma Letters(path: Text)
    ensures RustPath(path) || Under(path, "m1nd-ui/") ==> |path| > 7 && path[0] == 'm' as int
    ensures ControlPath(path) ==> path[5] == 'c' as int && path[7] == 'n' as int
    ensures CorePath(path) ==> path[5] == 'c' as int && path[7] == 'r' as int
    ensures IngestPath(path) ==> path[5] == 'i' as int
    ensures McpPath(path) ==> path[5] == 'm' as int
    ensures OpenclawPath(path) ==> path[5] == 'o' as int
    ensures RunnerdPath(path) ==> path[5] == 'r' as int
    ensures Under(path, "m1nd-ui/") ==> path[5] == 'u' as int
  {
    At(path, "m1nd-control/src/", 7);
    At(path, "m1nd-control/tests/", 7);
    At(path, "m1nd-core/src/", 7);
    At(path, "m1nd-core/tests/", 7);
    At(path, "m1nd-ingest/src/", 7);
    At(path, "m1nd-ingest/tests/", 7);
    At(path, "m1nd-mcp/src/", 7);
    At(path, "m1nd-mcp/tests/", 7);
    At(path, "m1nd-openclaw/src/", 7);
    At(path, "m1nd-openclaw/tests/", 7);
    At(path, "m1nd-runnerd/src/", 7);
    At(path, "m1nd-runnerd/tests/", 7);
    At(path, "m1nd-ui/", 7);
  }

  lemma At(path: Text, directory: string, k: nat)
    requires k < |directory| && k >= 5
    ensures Under(path, directory) ==>
      |path| > k && path[0] == directory[0] as int && path[5] == directory[5] as int && path[k] == directory[k] as int
  {
    if Under(path, directory) {
      var p := T(directory);
      assert path[..|p|][0] == p[0] && path[..|p|][5] == p[5] && path[..|p|][k] == p[k];
    }
  }

  lemma CrateNames()
    ensures |CONTROL| == 12 && |CORE| == 9 && |INGEST| == 11 && |MCP| == 8 && |OPENCLAW| == 13 && |RUNNERD| == 12
    ensures CONTROL[5] != RUNNERD[5]
    ensures CONTROL == T("m1nd-control") && CORE == T("m1nd-core") && INGEST == T("m1nd-ingest")
    ensures MCP == T("m1nd-mcp") && OPENCLAW == T("m1nd-openclaw") && RUNNERD == T("m1nd-runnerd")
    ensures CRATES == [CONTROL, CORE, INGEST, MCP, OPENCLAW, RUNNERD]
  {}

  /** `crate_for` names the one crate whose sources or tests hold the path. */
  lemma CrateExactly(path: Text)
    ensures CrateFor(path) == Some(CONTROL) <==> ControlPath(path)
    ensures CrateFor(path) == Some(CORE) <==> CorePath(path)
    ensures CrateFor(path) == Some(INGEST) <==> IngestPath(path)
    ensures CrateFor(path) == Some(MCP) <==> McpPath(path)
    ensures CrateFor(path) == Some(OPENCLAW) <==> OpenclawPath(path)
    ensures CrateFor(path) == Some(RUNNERD) <==> RunnerdPath(path)
    ensures CrateFor(path).Some? <==> RustPath(path)
  {
    hide StartsWith, Under, ControlPath, CorePath, IngestPath, McpPath, OpenclawPath, RunnerdPath, FirstCrate;
    CrateNames();
    CrateDirectories(path);
    Letters(path);
    FirstOf(path, CRATES, CONTROL, [CORE, INGEST, MCP, OPENCLAW, RUNNERD]);
    FirstOf(path, [CORE, INGEST, MCP, OPENCLAW, RUNNERD], CORE, [INGEST, MCP, OPENCLAW, RUNNERD]);
    FirstOf(path, [INGEST, MCP, OPENCLAW, RUNNERD], INGEST, [MCP, OPENCLAW, RUNNERD]);
    FirstOf(path, [MCP, OPENCLAW, RUNNERD], MCP, [OPENCLAW, RUNNERD]);
    FirstOf(path, [OPENCLAW, RUNNERD], OPENCLAW, [RUNNERD]);
    FirstOf(path, [RUNNERD], RUNNERD, []);
    NoCrate(path);
  }

  lemma FirstOf(path: Text, crates: seq<Text>, first: Text, rest: seq<Text>)
    requires crates == [first] + rest
    ensures FirstCrate(path, crates) ==
      if StartsWith(path, first + T("/src/")) || StartsWith(path, first + T("/tests/")) then Some(first)
      else FirstCrate(path, rest)
  {
    assert crates[1..] == rest;
  }

  lemma NoCrate(path: Text)
    ensures FirstCrate(path, []) == None
  {}

  /** The word searched for in the lowered path is there in capital or small letters. */
  lemma MentionsExactly(path: Text, small: string, capital: string)
    requires |small| == |capital| > 0
    requires forall k :: 0 <= k < |small| ==> 'a' <= small[k] <= 'z' && capital[k] as int + 32 == small[k] as int
    ensures Contains(Lower(path), T(small)) <==> Mentions(path, small, capital)
  {
    var h, n := Lower(path), T(small);
    forall i: nat | i + |small| <= |path| ensures OccursAt(h, i, n) <==> Spelled(path, i, small, capital) {
      SpelledExactly(path, i, small, capital);
    }
    if Contains(h, n) {
      var i :| 0 <= i <= |h| && OccursAt(h, i, n);
      assert Spelled(path, i, small, capital);
    }
    if Mentions(path, small, capital) {
      var i :| 0 <= i && i + |small| <= |path| && Spelled(path, i, small, capital);
      assert OccursAt(h, i, n);
    }
  }

  lemma SpelledExactly(path: Text, i: nat, small: string, capital: string)
    requires |small| == |capital| && i + |small| <= |path|
    requires forall k :: 0 <= k < |small| ==> 'a' <= small[k] <= 'z' && capital[k] as int + 32 == small[k] as int
    ensures OccursAt(Lower(path), i, T(small)) <==> Spelled(path, i, small, capital)
  {
    var h, n := Lower(path), T(small);
    forall k | 0 <= k < |small| ensures h[i + k] == n[k] <==> path[i + k] == small[k] as int || path[i + k] == capital[k] as int {}
    if OccursAt(h, i, n) {
      forall k | 0 <= k < |small| ensures h[i + k] == n[k] { assert h[i..i + |n|][k] == n[k]; }
    }
    if Spelled(path, i, small, capital) {
      assert h[i..i + |n|] == n;
    }
  }

  /** Letters at the front tell the other classes apart. */
  lemma Fronts(path: Text)
    ensures RustPath(path) || Under(path, "m1nd-ui/") ==> path != [] && path[0] == 'm' as int
    ensures PackagePath(path) ==> path != [] && (path[0] == 'n' as int || path[0] == 'p' as int)
    ensures PythonTest(path) ==> path != [] && path[0] == 't' as int
    ensures DevkitPath(path) || DevkitUi(path) ==> path != [] && path[0] == 's' as int
    ensures DocPath(path) ==> path != [] && path[0] in ['R' as int, 'A' as int, 'C' as int, 'd' as int]
  {
    Letters(path);
    Front(path, "npm/");
    Front(path, "tests/test_");
    Front(path, "scripts/devkit/");
    Front(path, "scripts/devkit/ui-dev");
    Front(path, "docs/");
  }

  lemma Front(path: Text, directory: string)
    requires directory != ""
    ensures Under(path, directory) ==> path != [] && path[0] == directory[0] as int
  {
    if Under(path, directory) {
      assert path[..|directory|][0] == T(directory)[0];
    }
  }

  lemma DevkitUiIsDevkit(path: Text)
    ensures DevkitUi(path) ==> Under(path, "scripts/devkit/")
  {
    if DevkitUi(path) {
      var p, q := T("scripts/devkit/ui-dev"), T("scripts/devkit/");
      assert p == q + T("ui-dev");
      assert path[..|q|] == path[..|p|][..|q|] == q;
    }
  }

  /** The words and their capitals. */
  lemma Words()
    ensures |"retrobuilder"| == |"RETROBUILDER"| == 12 && |"transplant"| == |"TRANSPLANT"| == 10
    ensures forall k :: 0 <= k < 12 ==>
      'a' <= "retrobuilder"[k] <= 'z' && "RETROBUILDER"[k] as int + 32 == "retrobuilder"[k] as int
    ensures forall k :: 0 <= k < 10 ==>
      'a' <= "transplant"[k] <= 'z' && "TRANSPLANT"[k] as int + 32 == "transplant"[k] as int
  {}

  /** The whole table: what one path owes is what its classes say. */
  lemma OwedLaw(path: Text)
    ensures Told(OwedBy(path), path)
  {
    hide StartsWith, Under, ControlPath, CorePath, IngestPath, McpPath, OpenclawPath, RunnerdPath, IsGlobal, Global;
    hide CrateFor, Contains, Mentions, Lower, Ends, EndsIn;
    GlobalExactly(path);
    CrateExactly(path);
    CrateNames();
    Words();
    MentionsExactly(path, "retrobuilder", "RETROBUILDER");
    MentionsExactly(path, "transplant", "TRANSPLANT");
    OtherClasses(path);
    Fronts(path);
    Letters(path);
    DevkitUiIsDevkit(path);
  }

  lemma OtherClasses(path: Text)
    ensures StartsWith(path, T("m1nd-ui/")) <==> Under(path, "m1nd-ui/")
    ensures StartsWith(path, T("npm/")) || path in [T("package.json"), T("package-lock.json")] <==> PackagePath(path)
    ensures StartsWith(path, T("tests/test_")) && Ends(path, T(".py")) <==> PythonTest(path)
    ensures path == T("scripts/m1nd-dev") || StartsWith(path, T("scripts/devkit/")) <==> DevkitPath(path)
    ensures StartsWith(path, T("scripts/devkit/ui-dev")) <==> DevkitUi(path)
    ensures path in [T("README.md"), T("AGENTS.md"), T("CONTRIBUTING.md")] || StartsWith(path, T("docs/")) <==> DocPath(path)
  {}

  // ---------------------------------------------------------------- joins

  function Join(a: Owed, b: Owed): Owed {
    if a.Everything? || b.Everything? then Everything
    else
      Areas(a.rust || b.rust, a.ui || b.ui, a.host || b.host, a.cache || b.cache, a.python || b.python,
            a.crates + b.crates, a.heavy + b.heavy)
  }

  function JoinAll(paths: seq<Text>): Owed {
    if paths == [] then NOTHING else Join(OwedBy(paths[0]), JoinAll(paths[1..]))
  }

  lemma JoinLaws(a: Owed, b: Owed, c: Owed)
    ensures Join(Join(a, b), c) == Join(a, Join(b, c))
    ensures Join(a, b) == Join(b, a) && Join(a, a) == a
    ensures Join(NOTHING, a) == a && Join(a, NOTHING) == a
  {}

  /** `b` owes at least what `a` owes. */
  predicate Within(a: Owed, b: Owed) {
    Join(a, b) == b
  }

  lemma {:induction false} JoinAllAppend(ps: seq<Text>, qs: seq<Text>)
    ensures JoinAll(ps + qs) == Join(JoinAll(ps), JoinAll(qs))
  {
    hide OwedBy, Join;
    if ps == [] {
      assert ps + qs == qs;
      JoinLaws(JoinAll(qs), NOTHING, NOTHING);
    } else {
      assert (ps + qs)[1..] == ps[1..] + qs;
      JoinAllAppend(ps[1..], qs);
      JoinLaws(OwedBy(ps[0]), JoinAll(ps[1..]), JoinAll(qs));
    }
  }

  lemma {:induction false} JoinAllBounds(ps: seq<Text>, i: nat)
    requires i < |ps|
    ensures Within(OwedBy(ps[i]), JoinAll(ps))
  {
    hide OwedBy, Join;
    var a, b := OwedBy(ps[0]), JoinAll(ps[1..]);
    JoinLaws(a, a, b);
    if i > 0 {
      JoinAllBounds(ps[1..], i - 1);
      var c := OwedBy(ps[i]);
      JoinLaws(c, a, b);
      JoinLaws(a, c, b);
    }
  }

  lemma {:induction false} JoinAllLeast(ps: seq<Text>, o: Owed)
    requires forall i :: 0 <= i < |ps| ==> Within(OwedBy(ps[i]), o)
    ensures Within(JoinAll(ps), o)
  {
    hide OwedBy;
    if ps == [] {
      JoinLaws(o, o, o);
    } else {
      assert Within(OwedBy(ps[0]), o);
      JoinAllLeast(ps[1..], o);
      JoinLaws(OwedBy(ps[0]), JoinAll(ps[1..]), o);
    }
  }

  /** More paths owe at least as much; order and repetition do not matter. */
  lemma JoinAllMonotone(ps: seq<Text>, qs: seq<Text>)
    requires Elements(ps) <= Elements(qs)
    ensures Within(JoinAll(ps), JoinAll(qs))
  {
    forall i | 0 <= i < |ps| ensures Within(OwedBy(ps[i]), JoinAll(qs)) {
      assert ps[i] in Elements(ps);
      var j :| 0 <= j < |qs| && qs[j] == ps[i];
      JoinAllBounds(qs, j);
    }
    JoinAllLeast(ps, JoinAll(qs));
  }

  lemma JoinAllOfSet(ps: seq<Text>, qs: seq<Text>)
    requires Elements(ps) == Elements(qs)
    ensures JoinAll(ps) == JoinAll(qs)
  {
    JoinAllMonotone(ps, qs);
    JoinAllMonotone(qs, ps);
    JoinLaws(JoinAll(ps), JoinAll(qs), NOTHING);
  }

  // -------------------------------------------------- dependency closure

  /** The static closure, in the order of the source. */
  function Closure(crates: set<Text>): set<Text> {
    var a := if CORE in crates || INGEST in crates then crates + {CORE, INGEST, MCP, RUNNERD, OPENCLAW} else crates;
    var b := if CONTROL in a then a + {MCP, RUNNERD, OPENCLAW} else a;
    if MCP in b then b + {RUNNERD, OPENCLAW} else b
  }

  /** A dependent of a crate whose tests a change in it owes. */
  predicate Affects(crate: Text, dependent: Text) {
    || (crate in {CORE, INGEST} && dependent in {CORE, INGEST, MCP, RUNNERD, OPENCLAW})
    || (crate == CONTROL && dependent in {MCP, RUNNERD, OPENCLAW})
    || (crate == MCP && dependent in {RUNNERD, OPENCLAW})
  }

  ghost predicate Closed(crates: set<Text>) {
    forall c, d :: c in crates && Affects(c, d) ==> d in crates
  }

  /** The closure is the least closed superset: a closure operator that joins commute with. */
  lemma ClosureIsLeast(crates: set<Text>, other: set<Text>)
    ensures crates <= Closure(crates) && Closed(Closure(crates))
    ensures crates <= other && Closed(other) ==> Closure(crates) <= other
    ensures Closure(Closure(crates)) == Closure(crates)
    ensures Closure(crates + other) == Closure(crates) + Closure(other)
  {}

  // --------------------------------------------------------------- scopes

  ghost function MakeScope(candidate: Text, mode: Text, o: Owed): Scope
    requires o.Areas?
  {
    Scope(SCHEMA, candidate, mode, o.rust, o.ui, o.host, o.cache, o.python, Listing(o.crates), Listing(o.heavy))
  }

  const ALL := Areas(true, true, true, true, true, ToSet(CRATES), {RETROBUILDER, TRANSPLANT})

  function ToSet(ts: seq<Text>): set<Text> {
    set t | t in ts
  }

  /** The scope that a debt calls for. */
  ghost function ScopeFor(candidate: Text, o: Owed): Scope {
    match o
    case Everything => MakeScope(candidate, FULL, ALL)
    case Areas(_, _, _, _, _, crates, _) => MakeScope(candidate, SCOPED, o.(crates := Closure(crates)))
  }

  /** What a list of changed paths owes; an empty diff owes everything. */
  function Debt(paths: seq<Text>): Owed {
    if paths == [] then Everything else JoinAll(paths)
  }

  method MakeScopeObject(candidate: Text, mode: Text, o: Owed) returns (r: Scope)
    requires o.Areas?
    ensures r == MakeScope(candidate, mode, o)
  {
    var crates := SortedSet(o.crates);
    var heavy := SortedSet(o.heavy);
    r := Scope(SCHEMA, candidate, mode, o.rust, o.ui, o.host, o.cache, o.python, crates, heavy);
  }

  method Full(candidate: Text) returns (r: Scope)
    ensures r == ScopeFor(candidate, Everything)
  {
    r := MakeScopeObject(candidate, FULL, ALL);
  }

  // ------------------------------------------------------------- the loop

  lemma JoinAllSnoc(paths: seq<Text>, i: nat)
    requires i < |paths|
    ensures JoinAll(paths[..i+1]) == Join(JoinAll(paths[..i]), OwedBy(paths[i]))
  {
    hide OwedBy, Join;
    assert paths[..i+1] == paths[..i] + [paths[i]];
    JoinAllAppend(paths[..i], [paths[i]]);
    var one := [paths[i]];
    assert |one[1..]| == 0;
    JoinLaws(OwedBy(paths[i]), NOTHING, NOTHING);
  }

  /** One path that owes everything makes the diff owe everything. */
  lemma EverythingWins(paths: seq<Text>, i: nat)
    requires i < |paths| && OwedBy(paths[i]) == Everything
    ensures JoinAll(paths) == Everything
  {
    hide OwedBy;
    JoinAllBounds(paths, i);
  }

  /** One turn of the loop on its flags and sets; `known` is false for a path nobody owns. */
  method Turn(path: Text, areas: Owed) returns (known: bool, next: Owed)
    requires !IsGlobal(path) && areas.Areas?
    ensures known <==> Turned(path).Areas?
    ensures known ==> next == Join(areas, Turned(path))
  {
    hide IsGlobal, FirstCrate, StartsWith, Ends, Contains;
    var Areas(rust, ui, host, cache, python, crates, heavy) := areas;
    known := true;
    var crate := CrateFor(path);
    if crate.Some? {
      rust, cache := true, true;
      crates := crates + {crate.value};
      var lowered := Lower(path);
      if Contains(lowered, RETROBUILDER) {
        heavy := heavy + {RETROBUILDER};
      }
      if Contains(lowered, TRANSPLANT) {
        heavy := heavy + {TRANSPLANT};
      }
    } else if StartsWith(path, T("m1nd-ui/")) {
      ui := true;
    } else if StartsWith(path, T("npm/")) || path in [T("package.json"), T("package-lock.json")] {
      host, cache := true, true;
    } else if StartsWith(path, T("tests/test_")) && Ends(path, T(".py")) {
      python := true;
    } else if path == T("scripts/m1nd-dev") || StartsWith(path, T("scripts/devkit/")) {
      if StartsWith(path, T("scripts/devkit/ui-dev")) {
        ui := true;
      } else {
        python, ui, cache := true, true, true;
      }
    } else if path in [T("README.md"), T("AGENTS.md"), T("CONTRIBUTING.md")] || StartsWith(path, T("docs/")) {
    } else {
      known := false;
    }
    next := Areas(rust, ui, host, cache, python, crates, heavy);
  }

  /** The static dependency closure, step by step. */
  method Close(owed: set<Text>) returns (crates: set<Text>)
    ensures crates == Closure(owed)
  {
    crates := owed;
    if CORE in crates || INGEST in crates {
      crates := crates + {CORE, INGEST, MCP, RUNNERD, OPENCLAW};
    }
    if CONTROL in crates {
      crates := crates + {MCP, RUNNERD, OPENCLAW};
    }
    if MCP in crates {
      crates := crates + {RUNNERD, OPENCLAW};
    }
  }

  /** A turn notes a retrobuilder path as a heavy family; it is weighed after the loop. */
  function Turned(path: Text): Owed {
    if OwedBy(path).Everything? && !IsGlobal(path) && CrateFor(path).Some? then
      Areas(true, false, false, true, false, {CrateFor(path).value},
            {RETROBUILDER} + if Contains(Lower(path), TRANSPLANT) then {TRANSPLANT} else {})
    else OwedBy(path)
  }

  lemma TurnedFacts(path: Text)
    requires !IsGlobal(path)
    ensures Turned(path).Everything? ==> OwedBy(path).Everything?
    ensures Turned(path).Areas? && RETROBUILDER in Turned(path).heavy ==> OwedBy(path).Everything?
    ensures Turned(path).Areas? && RETROBUILDER !in Turned(path).heavy ==> Turned(path) == OwedBy(path)
    ensures Turned(path).Areas? && (Turned(path).crates != {} || Turned(path).heavy != {}) ==> Turned(path).rust
  {}

  /** `classify_paths`. */
  method ClassifyPaths(candidate: Text, paths: seq<Text>) returns (r: Scope)
    ensures r == ScopeFor(candidate, Debt(paths))
    ensures Describes(r, candidate, paths)
  {
    hide IsGlobal, OwedBy, Turned, MakeScope, Closure, Describes;
    ScopeLaw(candidate, paths);
    if paths == [] {
      r := Full(candidate);
      return;
    }
    if exists i :: 0 <= i < |paths| && IsGlobal(paths[i]) {
      ghost var i :| 0 <= i < |paths| && IsGlobal(paths[i]);
      GlobalOwesAll(paths[i]);
      EverythingWins(paths, i);
      r := Full(candidate);
      return;
    }
    var areas := NOTHING;
    var i := 0;
    while i < |paths|
      invariant 0 <= i <= |paths| && areas.Areas?
      invariant RETROBUILDER in areas.heavy ==> JoinAll(paths[..i]) == Everything
      invariant RETROBUILDER !in areas.heavy ==> JoinAll(paths[..i]) == areas
      invariant areas.crates != {} || areas.heavy != {} ==> areas.rust
    {
      JoinAllSnoc(paths, i);
      TurnedFacts(paths[i]);
      var known, next := Turn(paths[i], areas);
      if !known {
        EverythingWins(paths, i);
        r := Full(candidate);
        return;
      }
      areas := next;
      i := i + 1;
    }
    assert paths[..i] == paths;
    if RETROBUILDER in areas.heavy {
      r := Full(candidate);
      return;
    }
    ClosureOfNone();
    if !(areas.rust || areas.ui || areas.host || areas.cache || areas.python) {
      r := MakeScopeObject(candidate, SCOPED, NOTHING);
      return;
    }
    if areas.rust {
      var crates := Close(areas.crates);
      areas := areas.(crates := crates);
    }
    r := MakeScopeObject(candidate, SCOPED, areas);
  }

  lemma GlobalOwesAll(path: Text)
    requires IsGlobal(path)
    ensures OwedBy(path) == Everything
  {}

  lemma ClosureOfNone()
    ensures Closure({}) == {}
  {}

  // --------------------------------------- the whole scope, in path classes

  /** What a joined debt says of a list of paths. */
  ghost predicate ToldAll(o: Owed, paths: seq<Text>) {
    if AnyPath(paths, CallsForAll) then o.Everything?
    else
      && o.Areas?
      && (o.rust <==> AnyPath(paths, RustPath)) && (o.ui <==> AnyPath(paths, UiPath))
      && (o.host <==> AnyPath(paths, HostPath)) && (o.cache <==> AnyPath(paths, CachePath))
      && (o.python <==> AnyPath(paths, PythonPath))
      && (T("m1nd-control") in o.crates <==> AnyPath(paths, ControlPath))
      && (T("m1nd-core") in o.crates <==> AnyPath(paths, CorePath))
      && (T("m1nd-ingest") in o.crates <==> AnyPath(paths, IngestPath))
      && (T("m1nd-mcp") in o.crates <==> AnyPath(paths, McpPath))
      && (T("m1nd-openclaw") in o.crates <==> AnyPath(paths, OpenclawPath))
      && (T("m1nd-runnerd") in o.crates <==> AnyPath(paths, RunnerdPath))
      && o.heavy == (if AnyPath(paths, TransplantPath) then {T("transplant")} else {})
  }

  lemma AnyStep(paths: seq<Text>, concerns: Text -> bool)
    requires paths != []
    ensures AnyPath(paths, concerns) <==> concerns(paths[0]) || AnyPath(paths[1..], concerns)
  {
    assert forall i :: 0 <= i < |paths[1..]| ==> paths[1..][i] == paths[i + 1];
    assert forall i :: 1 <= i < |paths| ==> paths[i] == paths[1..][i - 1];
  }

  lemma {:induction false} JoinAllLaw(paths: seq<Text>)
    ensures ToldAll(JoinAll(paths), paths)
  {
    hide ToldAll, OwedBy, Join;
    if paths == [] {
      NoPaths(paths);
    } else {
      JoinAllLaw(paths[1..]);
      JoinTold(JoinAll(paths[1..]), paths);
    }
  }

  lemma NoPaths(paths: seq<Text>)
    requires paths == []
    ensures ToldAll(NOTHING, paths)
  {}

  lemma AnySteps(paths: seq<Text>)
    requires paths != []
    ensures AnyPath(paths, CallsForAll) <==> CallsForAll(paths[0]) || AnyPath(paths[1..], CallsForAll)
    ensures AnyPath(paths, RustPath) <==> RustPath(paths[0]) || AnyPath(paths[1..], RustPath)
    ensures AnyPath(paths, UiPath) <==> UiPath(paths[0]) || AnyPath(paths[1..], UiPath)
    ensures AnyPath(paths, HostPath) <==> HostPath(paths[0]) || AnyPath(paths[1..], HostPath)
    ensures AnyPath(paths, CachePath) <==> CachePath(paths[0]) || AnyPath(paths[1..], CachePath)
    ensures AnyPath(paths, PythonPath) <==> PythonPath(paths[0]) || AnyPath(paths[1..], PythonPath)
    ensures AnyPath(paths, ControlPath) <==> ControlPath(paths[0]) || AnyPath(paths[1..], ControlPath)
    ensures AnyPath(paths, CorePath) <==> CorePath(paths[0]) || AnyPath(paths[1..], CorePath)
    ensures AnyPath(paths, IngestPath) <==> IngestPath(paths[0]) || AnyPath(paths[1..], IngestPath)
    ensures AnyPath(paths, McpPath) <==> McpPath(paths[0]) || AnyPath(paths[1..], McpPath)
    ensures AnyPath(paths, OpenclawPath) <==> OpenclawPath(paths[0]) || AnyPath(paths[1..], OpenclawPath)
    ensures AnyPath(paths, RunnerdPath) <==> RunnerdPath(paths[0]) || AnyPath(paths[1..], RunnerdPath)
    ensures AnyPath(paths, TransplantPath) <==> TransplantPath(paths[0]) || AnyPath(paths[1..], TransplantPath)
  {
    hide CallsForAll, RustPath, UiPath, HostPath, CachePath, PythonPath, ControlPath, CorePath, IngestPath, McpPath, OpenclawPath, RunnerdPath, TransplantPath, AnyPath;
    AnyStep(paths, CallsForAll);
    AnyStep(paths, RustPath);
    AnyStep(paths, UiPath);
    AnyStep(paths, HostPath);
    AnyStep(paths, CachePath);
    AnyStep(paths, PythonPath);
    AnyStep(paths, ControlPath);
    AnyStep(paths, CorePath);
    AnyStep(paths, IngestPath);
    AnyStep(paths, McpPath);
    AnyStep(paths, OpenclawPath);
    AnyStep(paths, RunnerdPath);
    AnyStep(paths, TransplantPath);
  }

  /** Joining one more debt adds the classes of its path. */
  lemma JoinTold(o: Owed, paths: seq<Text>)
    requires paths != [] && ToldAll(o, paths[1..])
    ensures ToldAll(Join(OwedBy(paths[0]), o), paths)
  {
    hide OwedBy, AnyPath, CallsForAll, RustPath, UiPath, HostPath, CachePath, PythonPath, ControlPath, CorePath, IngestPath, McpPath, OpenclawPath, RunnerdPath, TransplantPath;
    OwedLaw(paths[0]);
    AnySteps(paths);
  }

  /** The scope of a list of changed paths, flag by flag and crate by crate. */
  ghost predicate Describes(r: Scope, candidate: Text, paths: seq<Text>) {
    && r.schema == T("m1nd-ci-scope-v1") && r.candidate == candidate
    && StrictlySorted(r.crates) && StrictlySorted(r.heavy)
    && if FullDiff(paths) then
         && r.mode == T("full") && r.rust && r.ui && r.host && r.cache && r.python
         && r.crates == [T("m1nd-control"), T("m1nd-core"), T("m1nd-ingest"), T("m1nd-mcp"), T("m1nd-openclaw"), T("m1nd-runnerd")]
         && r.heavy == [T("retrobuilder"), T("transplant")]
       else
         && r.mode == T("scoped")
         && (r.rust <==> AnyPath(paths, RustPath)) && (r.ui <==> AnyPath(paths, UiPath))
         && (r.host <==> AnyPath(paths, HostPath)) && (r.cache <==> AnyPath(paths, CachePath))
         && (r.python <==> AnyPath(paths, PythonPath))
         && Crates(r.crates, paths)
         && r.heavy == (if AnyPath(paths, TransplantPath) then [T("transplant")] else [])
  }

  /** The crates to test: those touched and those that depend on them. */
  ghost predicate Crates(crates: seq<Text>, paths: seq<Text>) {
    var inner := AnyPath(paths, CorePath) || AnyPath(paths, IngestPath);
    var outer := inner || AnyPath(paths, ControlPath) || AnyPath(paths, McpPath);
    && (T("m1nd-control") in crates <==> AnyPath(paths, ControlPath))
    && (T("m1nd-core") in crates <==> inner) && (T("m1nd-ingest") in crates <==> inner)
    && (T("m1nd-mcp") in crates <==> outer)
    && (T("m1nd-openclaw") in crates <==> outer || AnyPath(paths, OpenclawPath))
    && (T("m1nd-runnerd") in crates <==> outer || AnyPath(paths, RunnerdPath))
    && forall c :: c in crates ==> c in [T("m1nd-control"), T("m1nd-core"), T("m1nd-ingest"), T("m1nd-mcp"), T("m1nd-openclaw"), T("m1nd-runnerd")]
  }

  lemma FullLaw(candidate: Text, paths: seq<Text>)
    ensures Describes(MakeScope(candidate, FULL, ALL), candidate, paths) <==> FullDiff(paths)
  {
    hide FullDiff, AnyPath, Crates;
    ConstantsSorted();
    CrateNames();
    assert T("full") != T("scoped") by { assert |T("full")| != |T("scoped")|; }
  }

  lemma ClosureLaw(crates: set<Text>)
    requires crates <= ToSet(CRATES)
    ensures var r := Closure(crates);
      var inner := T("m1nd-core") in crates || T("m1nd-ingest") in crates;
      var outer := inner || T("m1nd-control") in crates || T("m1nd-mcp") in crates;
      && (T("m1nd-control") in r <==> T("m1nd-control") in crates)
      && (T("m1nd-core") in r <==> inner) && (T("m1nd-ingest") in r <==> inner) && (T("m1nd-mcp") in r <==> outer)
      && (T("m1nd-openclaw") in r <==> outer || T("m1nd-openclaw") in crates)
      && (T("m1nd-runnerd") in r <==> outer || T("m1nd-runnerd") in crates)
      && r <= ToSet(CRATES)
  {
    CrateNames();
  }

  lemma ListingHas(s: set<Text>)
    ensures forall x :: x in Listing(s) <==> x in s
  {
    assert forall x :: x in Elements(Listing(s)) <==> x in Listing(s);
  }

  lemma OneHeavy(heavy: set<Text>)
    ensures heavy == {} ==> Listing(heavy) == []
    ensures heavy == {T("transplant")} ==> Listing(heavy) == [T("transplant")]
  {
    ListingFacts(heavy);
    if heavy == {T("transplant")} {
      assert StrictlySorted([T("transplant")]) && Elements([T("transplant")]) == heavy;
      ListingUnique(Listing(heavy), [T("transplant")]);
    }
  }

  /** The classifier's result in path classes, for every list of paths. */
  lemma ScopeLaw(candidate: Text, paths: seq<Text>)
    ensures Describes(ScopeFor(candidate, Debt(paths)), candidate, paths)
  {
    hide OwedBy, CallsForAll, RustPath, UiPath, HostPath, CachePath, PythonPath, AnyPath, JoinAll, Closure, Sound;
    hide ControlPath, CorePath, IngestPath, McpPath, OpenclawPath, RunnerdPath, TransplantPath;
    JoinAllLaw(paths);
    FullLaw(candidate, paths);
    FullDiffIs(paths);
    var o := Debt(paths);
    if o.Areas? {
      KnownCrates(paths);
      ClosureLaw(o.crates);
      ListingHas(Closure(o.crates));
      CrateNames();
      OneHeavy(o.heavy);
    }
  }

  lemma FullDiffIs(paths: seq<Text>)
    ensures FullDiff(paths) <==> paths == [] || AnyPath(paths, CallsForAll)
  {}

  lemma KnownCrates(paths: seq<Text>)
    ensures JoinAll(paths).Areas? ==> JoinAll(paths).crates <= ToSet(CRATES)
  {
    JoinAllSound(paths);
  }

  // ------------------------------------------------------------- validity

  predicate IsSha(t: Text) {
    |t| == 40 && forall i :: 0 <= i < 40 ==> 48 <= t[i] < 58 || 97 <= t[i] < 103
  }

  /** `valid_scope`, on an object of the right shape. */
  predicate ValidScope(s: Scope) {
    && s.schema == SCHEMA
    && IsSha(s.candidate)
    && s.mode in [FULL, SCOPED]
    && StrictlySorted(s.crates) && StrictlySorted(s.heavy)
    && (forall i :: 0 <= i < |s.crates| ==> s.crates[i] in CRATES)
    && (forall i :: 0 <= i < |s.heavy| ==> s.heavy[i] in HEAVY)
    && (if s.mode == FULL
        then s.rust && s.ui && s.host && s.cache && s.python && s.crates == CRATES && s.heavy == HEAVY
        else (s.crates != []) == s.rust && (s.heavy == [] || s.rust))
  }

  /** `valid_scope` in literals: what an arbitrary scope object must be. */
  lemma ValidScopeLaw(s: Scope)
    ensures ValidScope(s) <==>
      && s.schema == T("m1nd-ci-scope-v1")
      && |s.candidate| == 40 && (forall i :: 0 <= i < 40 ==> s.candidate[i] in T("0123456789abcdef"))
      && (forall i, j :: 0 <= i < j < |s.crates| ==> Before(s.crates[i], s.crates[j]))
      && (forall i, j :: 0 <= i < j < |s.heavy| ==> Before(s.heavy[i], s.heavy[j]))
      && (forall c :: c in s.crates ==>
            c in [T("m1nd-control"), T("m1nd-core"), T("m1nd-ingest"), T("m1nd-mcp"), T("m1nd-openclaw"), T("m1nd-runnerd")])
      && (forall f :: f in s.heavy ==> f in [T("retrobuilder"), T("transplant")])
      && (if s.mode == T("full") then
            && s.rust && s.ui && s.host && s.cache && s.python && |s.crates| == 6 && |s.heavy| == 2
          else
            s.mode == T("scoped") && (s.rust <==> s.crates != []) && (s.heavy != [] ==> s.rust))
  {
    hide LexLess, Before;
    forall c: Code ensures c in T("0123456789abcdef") <==> 48 <= c < 58 || 97 <= c < 103 { HexCharacter(c); }
    forall i, j | 0 <= i < j < |s.crates| ensures LexLess(s.crates[i], s.crates[j]) <==> Before(s.crates[i], s.crates[j]) {
      LexMeaning(s.crates[i], s.crates[j]);
    }
    forall i, j | 0 <= i < j < |s.heavy| ensures LexLess(s.heavy[i], s.heavy[j]) <==> Before(s.heavy[i], s.heavy[j]) {
      LexMeaning(s.heavy[i], s.heavy[j]);
    }
    CrateNames();
    ConstantsSorted();
    if StrictlySorted(s.crates) && forall i :: 0 <= i < |s.crates| ==> s.crates[i] in CRATES { AllCrates(s.crates, CRATES); }
    if StrictlySorted(s.heavy) && forall i :: 0 <= i < |s.heavy| ==> s.heavy[i] in HEAVY { AllCrates(s.heavy, HEAVY); }
  }

  lemma HexCharacter(c: Code)
    ensures c in T("0123456789abcdef") <==> 48 <= c < 58 || 97 <= c < 103
  {
    var t := T("0123456789abcdef");
    if 48 <= c < 58 { assert t[c - 48] == c; }
    if 97 <= c < 103 { assert t[c - 87] == c; }
  }

  /** A sorted list of known names is complete exactly when it is long enough. */
  lemma AllCrates(names: seq<Text>, known: seq<Text>)
    requires StrictlySorted(names) && StrictlySorted(known) && forall i :: 0 <= i < |names| ==> names[i] in known
    ensures |names| == |known| <==> names == known
  {
    if |names| == |known| {
      SortedDistinct(names);
      SortedDistinct(known);
      assert Elements(names) <= Elements(known);
      CardinalityOf(names);
      CardinalityOf(known);
      SubsetOfSameSize(Elements(names), Elements(known));
      ListingUnique(names, known);
    }
  }

  lemma SortedDistinct(names: seq<Text>)
    requires StrictlySorted(names)
    ensures Distinct(names)
  {
    forall i, j | 0 <= i < j < |names| ensures names[i] != names[j] { LexIrreflexive(names[i]); }
  }

  lemma {:induction false} CardinalityOf(names: seq<Text>)
    requires Distinct(names)
    ensures |Elements(names)| == |names|
  {
    if names == [] {
      assert Elements(names) == {};
    } else {
      var init, last := names[..|names|-1], names[|names|-1];
      CardinalityOf(init);
      assert Elements(names) == Elements(init) + {last};
    }
  }

  lemma SubsetOfSameSize(a: set<Text>, b: set<Text>)
    requires a <= b && |a| == |b|
    ensures a == b
  {
    assert |b - a| == |b| - |a|;
  }

  lemma Differs(a: Text, b: Text, k: nat)
    requires k < |a| && k < |b| && a[k] < b[k] && forall i :: 0 <= i < k ==> a[i] == b[i]
    ensures LexLess(a, b)
  {
    assert a[..k] == b[..k];
    LexFirstDifference(a, b, k);
  }

  /** The constant lists are themselves sorted, as `full` needs them to be. */
  lemma ConstantsSorted()
    ensures StrictlySorted(CRATES) && StrictlySorted(HEAVY)
    ensures Listing(ToSet(CRATES)) == CRATES && Listing({RETROBUILDER, TRANSPLANT}) == HEAVY
  {
    hide LexLess;
    Differs(CONTROL, CORE, 7);
    Differs(CORE, INGEST, 5);
    Differs(INGEST, MCP, 5);
    Differs(MCP, OPENCLAW, 5);
    Differs(OPENCLAW, RUNNERD, 5);
    Differs(RETROBUILDER, TRANSPLANT, 0);
    TextOrderTransitive();
    Sorting.AdjacentIncreasing(ByText(), CRATES);
    Sorting.AdjacentIncreasing(ByText(), HEAVY);
    assert forall i, j :: 0 <= i < j < |CRATES| ==> ByText()(CRATES[i], CRATES[j]);
    assert forall i, j :: 0 <= i < j < |HEAVY| ==> ByText()(HEAVY[i], HEAVY[j]);
    ListingUnique(Listing(ToSet(CRATES)), CRATES);
    assert Elements(HEAVY) == {RETROBUILDER, TRANSPLANT};
    ListingUnique(Listing({RETROBUILDER, TRANSPLANT}), HEAVY);
  }

  /** A debt in areas names known crates, and a crate or family only together with Rust. */
  predicate Sound(o: Owed) {
    o.Areas? ==> o.crates <= ToSet(CRATES) && o.heavy <= {TRANSPLANT} && (o.crates != {}) == o.rust && (o.heavy != {} ==> o.rust)
  }

  lemma {:induction false} JoinAllSound(paths: seq<Text>)
    ensures Sound(JoinAll(paths))
  {
    hide IsGlobal, StartsWith, Ends, Lower, Contains, FirstCrate;
    if paths != [] {
      JoinAllSound(paths[1..]);
      OwedBySound(paths[0]);
    }
  }

  lemma OwedBySound(path: Text)
    ensures Sound(OwedBy(path))
  {
    hide IsGlobal, StartsWith, Ends, Lower, Contains, FirstCrate;
  }

  lemma ClosureKnown(crates: set<Text>)
    requires crates <= ToSet(CRATES)
    ensures Closure(crates) <= ToSet(CRATES) && (Closure(crates) != {} <==> crates != {})
  {}

  lemma ListingFacts(s: set<Text>)
    ensures Listing(s) == [] <==> s == {}
    ensures forall i :: 0 <= i < |Listing(s)| ==> Listing(s)[i] in s
  {
    var r := Listing(s);
    if r != [] { assert r[0] in Elements(r); }
    forall i | 0 <= i < |r| ensures r[i] in s { assert r[i] in Elements(r); }
  }

  /** The classifier's scopes are valid, for a well-formed candidate, whatever the diff. */
  lemma ClassifiedIsValid(candidate: Text, paths: seq<Text>)
    ensures ValidScope(ScopeFor(candidate, Debt(paths))) <==> IsSha(candidate)
  {
    hide OwedBy, Closure, LexLess, IsSha;
    ConstantsSorted();
    JoinAllSound(paths);
    assert |FULL| != |SCOPED|;
    var o := Debt(paths);
    if o.Areas? {
      ClosureKnown(o.crates);
      ListingFacts(Closure(o.crates));
      ListingFacts(o.heavy);
      assert HEAVY[1] == TRANSPLANT;
    }
  }

  // ---------------------------------------------------- scopes as a lattice

  /** Join of scopes: flags or-ed, crates and families united, full on top. */
  ghost function JoinScopes(s: Scope, t: Scope): Scope {
    if s.mode == FULL then s
    else if t.mode == FULL then t
    else
      Scope(SCHEMA, s.candidate, SCOPED, s.rust || t.rust, s.ui || t.ui, s.host || t.host, s.cache || t.cache,
            s.python || t.python, Listing(Elements(s.crates) + Elements(t.crates)),
            Listing(Elements(s.heavy) + Elements(t.heavy)))
  }

  /** The scope of two diffs together is the join of their scopes. */
  lemma ClassifyIsHomomorphism(candidate: Text, ps: seq<Text>, qs: seq<Text>)
    requires ps != [] && qs != []
    ensures ScopeFor(candidate, Debt(ps + qs)) ==
      JoinScopes(ScopeFor(candidate, Debt(ps)), ScopeFor(candidate, Debt(qs)))
  {
    hide OwedBy, JoinAll, Closure;
    JoinAllAppend(ps, qs);
    assert |FULL| != |SCOPED|;
    var a, b := Debt(ps), Debt(qs);
    if a.Areas? && b.Areas? {
      ClosureIsLeast(a.crates, b.crates);
    }
  }

  /** Order and repetition of the changed paths do not matter. */
  lemma ClassifyOfSet(candidate: Text, ps: seq<Text>, qs: seq<Text>)
    requires Elements(ps) == Elements(qs)
    ensures ScopeFor(candidate, Debt(ps)) == ScopeFor(candidate, Debt(qs))
  {
    JoinAllOfSet(ps, qs);
    assert ps != [] ==> ps[0] in Elements(ps);
    assert qs != [] ==> qs[0] in Elements(qs);
  }

  ghost predicate Covers(s: Scope, t: Scope) {
    && (t.rust ==> s.rust) && (t.ui ==> s.ui) && (t.host ==> s.host) && (t.cache ==> s.cache) && (t.python ==> s.python)
    && Elements(t.crates) <= Elements(s.crates) && Elements(t.heavy) <= Elements(s.heavy)
  }

  /** Adding changed paths never drops a gate, a crate or a heavy family. */
  lemma AddingPathsNeverDrops(candidate: Text, ps: seq<Text>, qs: seq<Text>)
    requires ps != [] && Elements(ps) <= Elements(qs)
    ensures Covers(ScopeFor(candidate, Debt(qs)), ScopeFor(candidate, Debt(ps)))
  {
    hide OwedBy, JoinAll, Closure;
    assert ps[0] in Elements(ps);
    JoinAllMonotone(ps, qs);
    JoinAllSound(ps);
    var a, b := Debt(ps), Debt(qs);
    if a.Areas? {
      ClosureKnown(a.crates);
      if b.Areas? { ClosureIsLeast(a.crates, b.crates); }
    }
  }

  /** The crates of a scoped run are a fixed point of the dependency closure. */
  lemma ScopedCratesClosed(candidate: Text, paths: seq<Text>)
    ensures var crates := Elements(ScopeFor(candidate, Debt(paths)).crates);
      Closed(crates) && Closure(crates) == crates
  {
    hide OwedBy, JoinAll;
    var o := Debt(paths);
    if o.Areas? {
      ClosureIsLeast(o.crates, {});
    } else {
      assert CRATES[0] == CONTROL && CRATES[1] == CORE && CRATES[2] == INGEST;
      assert CRATES[3] == MCP && CRATES[4] == OPENCLAW && CRATES[5] == RUNNERD;
    }
  }
}
