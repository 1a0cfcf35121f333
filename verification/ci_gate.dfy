/**
 * `evaluate` of the CI aggregate: every selected job must have succeeded and every other
 * one must have been skipped. With the classifier in front, end to end: from the changed
 * paths to the jobs that ran.
 */
module CiGate {
  import opened Basics
  import opened TextSets
  import opened CiDiff
  import opened CiPaths
  import opened CiScope

  const ALWAYS: set<string> := {"ci-scope", "security-gates", "contract-gates"}
  const UI_JOB := "ui-gates"
  const HOST_JOB := "host-pack-gates"
  const CACHE_JOB := "agent-cache-real-gates"
  const PYTHON_JOB := "python-gates"
  const AREA_JOBS: set<string> := {UI_JOB, HOST_JOB, CACHE_JOB, PYTHON_JOB}
  const RUST_SCOPED := "rust-scoped"
  const RUST_FULL := "rust-full"
  const EXPECTED: set<string> := ALWAYS + AREA_JOBS + {RUST_SCOPED, RUST_FULL}

  /** The area jobs a scope selects. */
  function AreasOf(s: Scope): set<string> {
    (if s.ui then {UI_JOB} else {}) + (if s.host then {HOST_JOB} else {})
    + (if s.cache then {CACHE_JOB} else {}) + (if s.python then {PYTHON_JOB} else {})
  }

  /** The one Rust job a scope selects, if any. */
  function RustOf(s: Scope): set<string> {
    if s.mode == FULL then {RUST_FULL} else if s.rust then {RUST_SCOPED} else {}
  }

  function Required(s: Scope): set<string> {
    ALWAYS + AreasOf(s) + RustOf(s)
  }

  /** `needs`: the jobs and their results; a malformed entry has none. */
  type Needs = map<string, Option<string>>

  predicate Result(needs: Needs, job: string, result: string) {
    job in needs && needs[job] == Some(result)
  }

  /** What a green aggregate means. */
  ghost predicate Passes(needs: Needs, selected: Option<Scope>) {
    && selected.Some? && ValidScope(selected.value)
    && needs.Keys == EXPECTED
    && forall job :: job in EXPECTED ==>
         Result(needs, job, if job in Required(selected.value) then "success" else "skipped")
  }

  /** No two job names are equal. */
  lemma JobsDistinct()
    ensures ALWAYS !! AREA_JOBS && ALWAYS !! {RUST_SCOPED, RUST_FULL} && AREA_JOBS !! {RUST_SCOPED, RUST_FULL}
    ensures UI_JOB != HOST_JOB && UI_JOB != CACHE_JOB && UI_JOB != PYTHON_JOB
    ensures HOST_JOB != CACHE_JOB && HOST_JOB != PYTHON_JOB && CACHE_JOB != PYTHON_JOB && RUST_SCOPED != RUST_FULL
  {}

  /** `AREA_JOBS` in its order, and the flag that selects each. */
  const AREA_ORDER: seq<string> := [UI_JOB, HOST_JOB, CACHE_JOB, PYTHON_JOB]

  function Flag(s: Scope, k: nat): bool {
    if k == 0 then s.ui else if k == 1 then s.host else if k == 2 then s.cache else s.python
  }

  /** The jobs among the first `n` areas whose flag is `wanted`. */
  function Selected(s: Scope, n: nat, wanted: bool): set<string>
    requires n <= 4
  {
    if n == 0 then {}
    else Selected(s, n - 1, wanted) + if Flag(s, n - 1) == wanted then {AREA_ORDER[n - 1]} else {}
  }

  lemma SelectedAll(s: Scope)
    ensures Selected(s, 4, true) == AreasOf(s) && Selected(s, 4, false) == AREA_JOBS - AreasOf(s)
  {
    JobsDistinct();
    assert Selected(s, 1, true) == if s.ui then {UI_JOB} else {};
    assert Selected(s, 1, false) == if s.ui then {} else {UI_JOB};
    assert Selected(s, 2, true) == (if s.ui then {UI_JOB} else {}) + (if s.host then {HOST_JOB} else {});
    assert Selected(s, 2, false) == (if s.ui then {} else {UI_JOB}) + (if s.host then {} else {HOST_JOB});
  }

  /** The two sets `evaluate` fills. */
  method Select(s: Scope) returns (required: set<string>, skipped: set<string>)
    ensures required == Required(s) && skipped == EXPECTED - Required(s)
  {
    required, skipped := ALWAYS, {};
    var k := 0;
    while k < |AREA_ORDER|
      invariant 0 <= k <= 4
      invariant required == ALWAYS + Selected(s, k, true) && skipped == Selected(s, k, false)
    {
      if Flag(s, k) {
        required := required + {AREA_ORDER[k]};
      } else {
        skipped := skipped + {AREA_ORDER[k]};
      }
      k := k + 1;
    }
    SelectedAll(s);
    JobsDistinct();
    if s.mode == FULL {
      required := required + {RUST_FULL};
      skipped := skipped + {RUST_SCOPED};
    } else if s.rust {
      required := required + {RUST_SCOPED};
      skipped := skipped + {RUST_FULL};
    } else {
      skipped := skipped + {RUST_SCOPED, RUST_FULL};
    }
    JobsPartitioned(s, required, skipped);
  }

  /** `evaluate`: 0 for a pass. `selected` is absent when the scope output is malformed. */
  method Evaluate(needs: Needs, selected: Option<Scope>) returns (code: nat)
    ensures code <= 1
    ensures code == 0 <==> Passes(needs, selected)
  {
    hide ValidScope, Required;
    if selected.None? || !ValidScope(selected.value) {
      return 1;
    }
    var s := selected.value;
    if needs.Keys != EXPECTED {
      return 1;
    }
    var required, skipped := Select(s);
    RequiredExpected(s);
    if exists job :: job in required && !Result(needs, job, "success") {
      return 1;
    }
    if exists job :: job in skipped && !Result(needs, job, "skipped") {
      return 1;
    }
    return 0;
  }

  lemma RequiredExpected(s: Scope)
    ensures Required(s) <= EXPECTED
  {}

  /** Required and skipped jobs partition the closed job set, for every scope. */
  lemma JobsPartitioned(s: Scope, required: set<string>, skipped: set<string>)
    requires required == ALWAYS + AreasOf(s) + RustOf(s)
    requires skipped == (AREA_JOBS - AreasOf(s)) + ({RUST_SCOPED, RUST_FULL} - RustOf(s))
    ensures required + skipped == EXPECTED && required !! skipped
    ensures required == Required(s) && skipped == EXPECTED - Required(s)
  {
    JobsDistinct();
  }

  // ----------------------------------------------------------- end to end

  /** The area jobs a path, or a debt, owes. */
  function OwedJobs(o: Owed): set<string> {
    match o
    case Everything => AREA_JOBS
    case Areas(_, ui, host, cache, python, _, _) =>
      (if ui then {UI_JOB} else {}) + (if host then {HOST_JOB} else {})
      + (if cache then {CACHE_JOB} else {}) + (if python then {PYTHON_JOB} else {})
  }

  predicate OwesRust(o: Owed) {
    o.Everything? || o.rust
  }

  /** A diff owes a job exactly when one of its paths does; an empty diff owes them all. */
  lemma {:induction false} JobsOfPaths(paths: seq<Text>, job: string)
    ensures job in OwedJobs(JoinAll(paths)) <==> exists i :: 0 <= i < |paths| && job in OwedJobs(OwedBy(paths[i]))
    ensures OwesRust(JoinAll(paths)) <==> exists i :: 0 <= i < |paths| && OwesRust(OwedBy(paths[i]))
  {
    hide OwedBy;
    if paths != [] {
      JobsOfPaths(paths[1..], job);
      OwedOfJoin(OwedBy(paths[0]), JoinAll(paths[1..]), job);
      assert forall i :: 0 <= i < |paths[1..]| ==> paths[1..][i] == paths[i + 1];
      assert forall i :: 1 <= i < |paths| ==> paths[i] == paths[1..][i - 1];
    }
  }

  lemma OwedOfJoin(a: Owed, b: Owed, job: string)
    ensures job in OwedJobs(Join(a, b)) <==> job in OwedJobs(a) || job in OwedJobs(b)
    ensures OwesRust(Join(a, b)) <==> OwesRust(a) || OwesRust(b)
  {}

  /** The scope of a diff requires the jobs its debt names. */
  lemma ScopeRequires(candidate: Text, o: Owed)
    ensures AreasOf(ScopeFor(candidate, o)) == OwedJobs(o)
    ensures RustOf(ScopeFor(candidate, o)) ==
      if o.Everything? then {RUST_FULL} else if o.rust then {RUST_SCOPED} else {}
  {}

  /**
   * If the aggregate passes on the scope classified from a non-empty diff, then an area job
   * succeeded exactly when some changed path owes it and was skipped exactly when none
   * does, and the same holds of the two Rust jobs counted as one.
   */
  lemma EndToEnd(needs: Needs, candidate: Text, paths: seq<Text>, job: string)
    requires paths != [] && job in AREA_JOBS
    requires Passes(needs, Some(ScopeFor(candidate, Debt(paths))))
    ensures Result(needs, job, "success") <==> exists i :: 0 <= i < |paths| && job in OwedJobs(OwedBy(paths[i]))
    ensures Result(needs, job, "skipped") <==> !exists i :: 0 <= i < |paths| && job in OwedJobs(OwedBy(paths[i]))
    ensures Result(needs, RUST_SCOPED, "success") || Result(needs, RUST_FULL, "success")
      <==> exists i :: 0 <= i < |paths| && OwesRust(OwedBy(paths[i]))
    ensures Result(needs, RUST_SCOPED, "skipped") && Result(needs, RUST_FULL, "skipped")
      <==> !exists i :: 0 <= i < |paths| && OwesRust(OwedBy(paths[i]))
    ensures forall always :: always in ALWAYS ==> Result(needs, always, "success")
  {
    hide OwedBy, JoinAll, ScopeFor, OwedJobs, ValidScope, AreasOf, RustOf;
    var o := Debt(paths);
    var s := ScopeFor(candidate, o);
    JobsOfPaths(paths, job);
    ScopeRequires(candidate, o);
    JobsDistinct();
    assert "success" != "skipped" by { assert "success"[1] == 'u' && "skipped"[1] == 'k'; }
    assert job in Required(s) <==> job in OwedJobs(o);
    assert RUST_SCOPED in EXPECTED && RUST_FULL in EXPECTED && job in EXPECTED;
    assert AreasOf(s) <= AREA_JOBS by { OwedAreArea(o); }
    assert RUST_FULL in Required(s) <==> RUST_FULL in RustOf(s);
    assert RUST_SCOPED in Required(s) <==> RUST_SCOPED in RustOf(s);
  }

  /** The jobs a scope requires, by name. */
  lemma RequiredLaw(s: Scope)
    ensures "ci-scope" in Required(s) && "security-gates" in Required(s) && "contract-gates" in Required(s)
    ensures "ui-gates" in Required(s) <==> s.ui
    ensures "host-pack-gates" in Required(s) <==> s.host
    ensures "agent-cache-real-gates" in Required(s) <==> s.cache
    ensures "python-gates" in Required(s) <==> s.python
    ensures "rust-full" in Required(s) <==> s.mode == T("full")
    ensures "rust-scoped" in Required(s) <==> s.mode != T("full") && s.rust
    ensures EXPECTED == {"ci-scope", "security-gates", "contract-gates", "ui-gates", "host-pack-gates",
                         "agent-cache-real-gates", "python-gates", "rust-scoped", "rust-full"}
  {
    JobsDistinct();
  }

  /**
   * Job by job and path class by path class: the aggregate passes exactly when the candidate
   * is a commit id, the jobs are these nine, and each succeeded or was skipped as the
   * changed paths call for.
   */
  lemma PassesExactly(needs: Needs, candidate: Text, paths: seq<Text>)
    ensures Passes(needs, Some(ScopeFor(candidate, Debt(paths)))) <==>
      && IsSha(candidate)
      && needs.Keys == {"ci-scope", "security-gates", "contract-gates", "ui-gates", "host-pack-gates",
                        "agent-cache-real-gates", "python-gates", "rust-scoped", "rust-full"}
      && Result(needs, "ci-scope", "success") && Result(needs, "security-gates", "success")
      && Result(needs, "contract-gates", "success")
      && Result(needs, "ui-gates", if FullDiff(paths) || AnyPath(paths, UiPath) then "success" else "skipped")
      && Result(needs, "host-pack-gates", if FullDiff(paths) || AnyPath(paths, HostPath) then "success" else "skipped")
      && Result(needs, "agent-cache-real-gates", if FullDiff(paths) || AnyPath(paths, CachePath) then "success" else "skipped")
      && Result(needs, "python-gates", if FullDiff(paths) || AnyPath(paths, PythonPath) then "success" else "skipped")
      && Result(needs, "rust-full", if FullDiff(paths) then "success" else "skipped")
      && Result(needs, "rust-scoped", if !FullDiff(paths) && AnyPath(paths, RustPath) then "success" else "skipped")
  {
    hide ScopeFor, ValidScope, AnyPath, FullDiff, Required, IsSha, Result, Crates, Debt;
    var s := ScopeFor(candidate, Debt(paths));
    ClassifiedIsValid(candidate, paths);
    ScopeLaw(candidate, paths);
    RequiredLaw(s);
    assert T("full") != T("scoped") by { assert |T("full")| != |T("scoped")|; }
  }

  lemma OwedAreArea(o: Owed)
    ensures OwedJobs(o) <= AREA_JOBS
  {}

  /** A diff that touches a global, unknown or retrobuilder path, or nothing, runs full Rust. */
  lemma FullRustWhenUnsure(needs: Needs, candidate: Text, paths: seq<Text>)
    requires Passes(needs, Some(ScopeFor(candidate, Debt(paths))))
    ensures Result(needs, RUST_FULL, "success") <==>
      paths == [] || exists i :: 0 <= i < |paths| && OwedBy(paths[i]).Everything?
  {
    hide OwedBy, ScopeFor, OwedJobs, ValidScope, AreasOf, RustOf;
    var o := Debt(paths);
    ScopeRequires(candidate, o);
    EverythingExactly(paths);
    JobsDistinct();
    OwedAreArea(o);
    assert "success" != "skipped" by { assert "success"[1] == 'u' && "skipped"[1] == 'k'; }
    assert RUST_FULL in EXPECTED;
    assert RUST_FULL in Required(ScopeFor(candidate, o)) <==> RUST_FULL in RustOf(ScopeFor(candidate, o));
  }

  lemma {:induction false} EverythingExactly(paths: seq<Text>)
    ensures JoinAll(paths).Everything? <==> exists i :: 0 <= i < |paths| && OwedBy(paths[i]).Everything?
  {
    hide OwedBy;
    if paths != [] {
      EverythingExactly(paths[1..]);
      assert forall i :: 0 <= i < |paths[1..]| ==> paths[1..][i] == paths[i + 1];
      assert forall i :: 1 <= i < |paths| ==> paths[i] == paths[1..][i - 1];
    }
  }

  // ------------------------------------------------------- from the diff

  function AllPaths(rs: seq<Record>): seq<Text> {
    if rs == [] then [] else rs[0].paths + AllPaths(rs[1..])
  }

  /** What the bytes of a diff owe; a diff that does not parse owes everything. */
  function DiffDebt(payload: Bytes): Owed {
    match Parse(payload)
    case None => Everything
    case Some(rs) => Debt(AllPaths(rs))
  }

  /** The tail of `classify`, from the output of `git diff` on. */
  method ClassifyDiff(candidate: Text, payload: Bytes) returns (r: Scope)
    ensures r == ScopeFor(candidate, DiffDebt(payload))
  {
    var records := ParseNameStatus(payload);
    if records.None? {
      r := Full(candidate);
      return;
    }
    r := ClassifyPaths(candidate, AllPaths(records.value));
  }

  lemma {:induction false} PathOfRecord(rs: seq<Record>, k: nat, l: nat)
    requires k < |rs| && l < |rs[k].paths|
    ensures exists i :: 0 <= i < |AllPaths(rs)| && AllPaths(rs)[i] == rs[k].paths[l]
  {
    var rest := AllPaths(rs[1..]);
    if k == 0 {
      assert AllPaths(rs)[l] == rs[0].paths[l];
    } else {
      PathOfRecord(rs[1..], k - 1, l);
      var i :| 0 <= i < |rest| && rest[i] == rs[1..][k-1].paths[l];
      assert AllPaths(rs)[|rs[0].paths| + i] == rest[i];
    }
  }

  /**
   * From diff bytes to jobs: if the aggregate passes on the scope of a printed diff, every
   * area job owed to any path of any record succeeded, both ends of a rename or copy included.
   */
  lemma DiffEndToEnd(needs: Needs, candidate: Text, rs: seq<Record>, k: nat, l: nat, job: string)
    requires ValidRecords(rs) && k < |rs| && l < |rs[k].paths|
    requires job in AREA_JOBS && job in OwedJobs(OwedBy(rs[k].paths[l]))
    requires Passes(needs, Some(ScopeFor(candidate, DiffDebt(Print(rs)))))
    ensures Result(needs, job, "success")
    ensures OwesRust(OwedBy(rs[k].paths[l])) ==>
      Result(needs, RUST_SCOPED, "success") || Result(needs, RUST_FULL, "success")
  {
    hide OwedBy, JoinAll, ScopeFor, OwedJobs, ValidScope, Passes, Parse, ValidRecord, Print;
    ParseExact(Print(rs), rs);
    PathOfRecord(rs, k, l);
    EndToEnd(needs, candidate, AllPaths(rs), job);
  }

  /** Bytes that are not the print of valid records run everything. */
  lemma MalformedDiffRunsAll(candidate: Text, payload: Bytes)
    requires forall rs :: ValidRecords(rs) ==> payload != Print(rs)
    ensures ScopeFor(candidate, DiffDebt(payload)) == ScopeFor(candidate, Everything)
  {
    hide ScopeFor, Parse, Print, ValidRecord;
    if Parse(payload).Some? { ParseExact(payload, Parse(payload).value); }
  }

  /** The paths classified are those of the records, both of a rename or copy, and no others. */
  lemma {:induction false} AllPathsLaw(rs: seq<Record>, p: Text)
    ensures p in AllPaths(rs) <==> exists k :: 0 <= k < |rs| && p in rs[k].paths
  {
    if rs != [] {
      AllPathsLaw(rs[1..], p);
      assert forall k :: 0 <= k < |rs[1..]| ==> rs[1..][k] == rs[k + 1];
      assert forall k :: 1 <= k < |rs| ==> rs[k] == rs[1..][k - 1];
    }
  }

  /** The same from the bytes of the diff: both paths of every record count. */
  lemma DiffPassesExactly(needs: Needs, candidate: Text, rs: seq<Record>)
    requires ValidRecords(rs)
    ensures Passes(needs, Some(ScopeFor(candidate, DiffDebt(Print(rs))))) <==>
      Passes(needs, Some(ScopeFor(candidate, Debt(AllPaths(rs)))))
  {
    hide ValidRecords;
    ParseExact(Print(rs), rs);
  }
}
