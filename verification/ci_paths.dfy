/**
 * Which paths of the repository concern which area of the CI, in plain path classes. The
 * classifier of `CiScope` is measured against these.
 */
module CiPaths {
  import opened Basics

  predicate Under(path: Text, directory: string) {
    StartsWith(path, T(directory))
  }

  predicate EndsIn(path: Text, suffix: string) {
    |suffix| <= |path| && path[|path| - |suffix|..] == T(suffix)
  }

  /** Workflows, configuration, manifests, build scripts and the scripts of the gate itself. */
  predicate Global(path: Text) {
    || path == T("Cargo.toml") || path == T("Cargo.lock") || path == T("build.rs")
    || path == T("scripts/ci_scope.py") || path == T("scripts/ci_gate_status.py")
    || path == T("scripts/lightning_check.sh") || path == T("scripts/rust_pr_check.py")
    || path == T("scripts/m1nd10_candidate_source_guard.py")
    || path == T(".gitleaks.toml") || path == T("SECURITY.md")
    || EndsIn(path, "/Cargo.toml") || EndsIn(path, "/build.rs")
    || Under(path, ".github/workflows/") || Under(path, ".config/")
  }

  /** Sources and tests of the six crates. */
  predicate ControlPath(path: Text) {
    Under(path, "m1nd-control/src/") || Under(path, "m1nd-control/tests/")
  }

  predicate CorePath(path: Text) {
    Under(path, "m1nd-core/src/") || Under(path, "m1nd-core/tests/")
  }

  predicate IngestPath(path: Text) {
    Under(path, "m1nd-ingest/src/") || Under(path, "m1nd-ingest/tests/")
  }

  predicate McpPath(path: Text) {
    Under(path, "m1nd-mcp/src/") || Under(path, "m1nd-mcp/tests/")
  }

  predicate OpenclawPath(path: Text) {
    Under(path, "m1nd-openclaw/src/") || Under(path, "m1nd-openclaw/tests/")
  }

  predicate RunnerdPath(path: Text) {
    Under(path, "m1nd-runnerd/src/") || Under(path, "m1nd-runnerd/tests/")
  }

  predicate RustPath(path: Text) {
    ControlPath(path) || CorePath(path) || IngestPath(path) || McpPath(path) || OpenclawPath(path) || RunnerdPath(path)
  }

  /** A word in capital or small ASCII letters, somewhere in the path. */
  predicate Mentions(path: Text, small: string, capital: string)
    requires |small| == |capital|
  {
    exists i :: 0 <= i && i + |small| <= |path| && Spelled(path, i, small, capital)
  }

  predicate Spelled(path: Text, i: nat, small: string, capital: string)
    requires |small| == |capital| && i + |small| <= |path|
  {
    forall k :: 0 <= k < |small| ==> path[i + k] == small[k] as int || path[i + k] == capital[k] as int
  }

  /** Real-repository ingestion: a family too heavy for the scoped lane. */
  predicate RetrobuilderPath(path: Text) {
    RustPath(path) && Mentions(path, "retrobuilder", "RETROBUILDER")
  }

  predicate TransplantPath(path: Text) {
    RustPath(path) && Mentions(path, "transplant", "TRANSPLANT")
  }

  predicate PackagePath(path: Text) {
    Under(path, "npm/") || path == T("package.json") || path == T("package-lock.json")
  }

  predicate PythonTest(path: Text) {
    Under(path, "tests/test_") && EndsIn(path, ".py")
  }

  predicate DevkitPath(path: Text) {
    path == T("scripts/m1nd-dev") || Under(path, "scripts/devkit/")
  }

  predicate DevkitUi(path: Text) {
    Under(path, "scripts/devkit/ui-dev")
  }

  predicate DocPath(path: Text) {
    path == T("README.md") || path == T("AGENTS.md") || path == T("CONTRIBUTING.md") || Under(path, "docs/")
  }

  // ------------------------------------------------------ areas by path

  predicate UiPath(path: Text) {
    Under(path, "m1nd-ui/") || DevkitPath(path)
  }

  predicate HostPath(path: Text) {
    PackagePath(path)
  }

  predicate CachePath(path: Text) {
    RustPath(path) || PackagePath(path) || (DevkitPath(path) && !DevkitUi(path))
  }

  predicate PythonPath(path: Text) {
    PythonTest(path) || (DevkitPath(path) && !DevkitUi(path))
  }

  /** A path some area answers for. */
  predicate Owned(path: Text) {
    RustPath(path) || Under(path, "m1nd-ui/") || PackagePath(path) || PythonTest(path) || DevkitPath(path) || DocPath(path)
  }

  /** A path that calls for everything. */
  predicate CallsForAll(path: Text) {
    Global(path) || !Owned(path) || RetrobuilderPath(path)
  }

  /** A diff calls for everything if it is empty or one of its paths does. */
  ghost predicate FullDiff(paths: seq<Text>) {
    paths == [] || exists i :: 0 <= i < |paths| && CallsForAll(paths[i])
  }

  ghost predicate AnyPath(paths: seq<Text>, concerns: Text -> bool) {
    exists i :: 0 <= i < |paths| && concerns(paths[i])
  }
}
