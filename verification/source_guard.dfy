/**
 * The candidate source guard: three checks collect rejections in dictionaries, a merge
 * keeps the earliest reason, and content is scanned only for what the first two let pass.
 * Proved to report what scanning everything would report.
 */
module SourceGuard {
  import opened Basics
  import opened LexOrder
  import opened TextSets
  import opened Framing

  type Reason = string

  /** One entry of `git ls-tree -r -z -l`. */
  datatype Entry = Entry(path: Text, mode: string, objectType: string, objectId: string, size: Option<int>)

  datatype Row = Row(path: Text, reason: Reason)

  /** What one check says about one entry. */
  datatype Verdict = Verdict(path: Text, reason: Option<Reason>)

  type Rejections = map<Text, Reason>

  /**
   * What the guard asks of the outside: the closed path rules (`violation_for`), the blob
   * behind an object id (absent when unreadable) and the personal-path pattern.
   */
  datatype World = World(
    violationFor: Text -> Option<Reason>, blob: string -> Option<Bytes>, personalPath: Bytes -> bool, h: Hash)

  const MAX_BLOB_BYTES := 8 * 1024 * 1024
  const FROZEN_PRD_PATH := T("docs/M1ND-10-PRD.md")
  const FROZEN_PRD_SHA256 := T("2745560daf6e5cf6237b84663f895e81e2c4979de4190dfef649b032b680f87b")

  // ------------------------------------------------------------ the checks

  function PathVerdict(w: World, e: Entry): Verdict {
    Verdict(e.path, w.violationFor(e.path))
  }

  function MetadataVerdict(e: Entry): Verdict {
    Verdict(e.path,
      if e.objectType != "blob" || e.mode !in {"100644", "100755"} then Some("non_regular_git_entry")
      else if e.size.None? || e.size.value < 0 then Some("invalid_blob_size")
      else if e.size.value > MAX_BLOB_BYTES then Some("oversized_blob")
      else None)
  }

  /** `scan_blob_for_personal_path`, with its one digest-pinned exception. */
  function ScanBlob(w: World, blob: Bytes, path: Text): Option<Reason> {
    if path == FROZEN_PRD_PATH && Hex(w.h(blob)) == FROZEN_PRD_SHA256 then None
    else if w.personalPath(blob) then Some("personal_path_content")
    else None
  }

  function ContentVerdict(w: World, e: Entry): Verdict {
    Verdict(e.path,
      match w.blob(e.objectId)
      case None => Some("unreadable_candidate_content")
      case Some(blob) => ScanBlob(w, blob, e.path))
  }

  datatype Check = Paths | Metadata | Content

  function Judge(w: World, c: Check, e: Entry): (v: Verdict)
    ensures v.path == e.path
  {
    match c
    case Paths => PathVerdict(w, e)
    case Metadata => MetadataVerdict(e)
    case Content => ContentVerdict(w, e)
  }

  /** What the metadata check says, in literals. */
  lemma MetadataLaw(w: World, e: Entry)
    ensures var regular := e.objectType == "blob" && (e.mode == "100644" || e.mode == "100755");
      Judge(w, Metadata, e).reason ==
        if !regular then Some("non_regular_git_entry")
        else if e.size == None || e.size.value < 0 then Some("invalid_blob_size")
        else if e.size.value > 8388608 then Some("oversized_blob")
        else None
  {}

  /** What the content check says: unreadable, a personal path, or the one pinned exception. */
  lemma ContentLaw(w: World, e: Entry)
    ensures var blob := w.blob(e.objectId);
      Judge(w, Content, e).reason ==
        if blob == None then Some("unreadable_candidate_content")
        else if e.path == T("docs/M1ND-10-PRD.md")
             && Hex(w.h(blob.value)) == T("2745560daf6e5cf6237b84663f895e81e2c4979de4190dfef649b032b680f87b") then None
        else if w.personalPath(blob.value) then Some("personal_path_content")
        else None
  {
    hide T, Hex;
  }

  /** An entry nothing speaks against. */
  predicate Clean(w: World, e: Entry) {
    && w.violationFor(e.path) == None
    && e.objectType == "blob" && (e.mode == "100644" || e.mode == "100755")
    && e.size.Some? && 0 <= e.size.value <= 8388608
    && w.blob(e.objectId).Some?
    && (w.personalPath(w.blob(e.objectId).value) ==>
          && e.path == T("docs/M1ND-10-PRD.md")
          && Hex(w.h(w.blob(e.objectId).value)) == T("2745560daf6e5cf6237b84663f895e81e2c4979de4190dfef649b032b680f87b"))
  }

  /** The three checks accept exactly the clean entries. */
  lemma CleanLaw(w: World, e: Entry)
    ensures Clean(w, e) <==> forall c :: Judge(w, c, e).reason == None
  {
    hide T, Hex;
    MetadataLaw(w, e);
    ContentLaw(w, e);
    assert Judge(w, Paths, e).reason == w.violationFor(e.path);
    if forall c :: Judge(w, c, e).reason == None {
      assert Judge(w, Paths, e).reason == None && Judge(w, Metadata, e).reason == None && Judge(w, Content, e).reason == None;
    }
  }

  // ------------------------------------------------------ the dictionaries

  /** The dictionary a check fills: a later entry overwrites an earlier one of its path. */
  function Rejected(w: World, c: Check, es: seq<Entry>): Rejections {
    if es == [] then map[]
    else
      var m := Rejected(w, c, es[..|es| - 1]);
      var v := Judge(w, c, es[|es| - 1]);
      if v.reason.Some? then m[v.path := v.reason.value] else m
  }

  /** `setdefault`: the earlier group's reason stays. */
  function Merge(first: Rejections, second: Rejections): Rejections {
    second + first
  }

  /** The report rows of a dictionary: one per path, paths sorted. */
  ghost function Rows(m: Rejections): (rows: seq<Row>)
    ensures |rows| == |Listing(m.Keys)|
    ensures forall i :: 0 <= i < |rows| ==> rows[i].path == Listing(m.Keys)[i]
    ensures forall i :: 0 <= i < |rows| ==> rows[i].path in m && rows[i].reason == m[rows[i].path]
  {
    var paths := Listing(m.Keys);
    assert forall i :: 0 <= i < |paths| ==> paths[i] in Elements(paths);
    seq(|paths|, i requires 0 <= i < |paths| => Row(paths[i], m[paths[i]]))
  }

  /** Rows are sorted, name each path once, and say for every path what the dictionary says. */
  lemma RowsFaithful(m: Rejections)
    ensures forall i, j :: 0 <= i < j < |Rows(m)| ==> LexLess(Rows(m)[i].path, Rows(m)[j].path)
    ensures forall p :: p in m <==> exists i :: 0 <= i < |Rows(m)| && Rows(m)[i] == Row(p, if p in m then m[p] else "")
    ensures Rows(m) == [] <==> m == map[]
  {
    var paths := Listing(m.Keys);
    forall p ensures p in m <==> exists i :: 0 <= i < |Rows(m)| && Rows(m)[i] == Row(p, if p in m then m[p] else "") {
      if p in m {
        assert p in Elements(paths);
        var i :| 0 <= i < |paths| && paths[i] == p;
        assert Rows(m)[i] == Row(p, m[p]);
      }
    }
    if m != map[] {
      var p :| p in m;
      assert p in Elements(paths);
    }
    assert paths != [] ==> paths[0] in Elements(paths);
  }

  method SortedRows(m: Rejections) returns (rows: seq<Row>)
    ensures rows == Rows(m)
  {
    var paths := SortedSet(m.Keys);
    assert forall i :: 0 <= i < |paths| ==> paths[i] in Elements(paths);
    rows := [];
    var i := 0;
    while i < |paths|
      invariant 0 <= i <= |paths| && |rows| == i
      invariant forall k :: 0 <= k < i ==> rows[k] == Row(paths[k], m[paths[k]])
    {
      rows := rows + [Row(paths[i], m[paths[i]])];
      i := i + 1;
    }
  }

  /** `violations`, `metadata_violations`, `commit_content_violations`. */
  method CollectRejections(w: World, c: Check, es: seq<Entry>) returns (rows: seq<Row>)
    ensures rows == Rows(Rejected(w, c, es))
  {
    hide Judge;
    var rejected: Rejections := map[];
    var i := 0;
    while i < |es|
      invariant 0 <= i <= |es|
      invariant rejected == Rejected(w, c, es[..i])
    {
      assert es[..i+1][..i] == es[..i];
      var v := Judge(w, c, es[i]);
      if v.reason.Some? {
        rejected := rejected[v.path := v.reason.value];
      }
      i := i + 1;
    }
    assert es[..|es|] == es;
    rows := SortedRows(rejected);
  }

  /** The dictionary that rows came from. */
  function Unrow(rows: seq<Row>): Rejections {
    if rows == [] then map[] else Unrow(rows[1..])[rows[0].path := rows[0].reason]
  }

  lemma {:induction false} UnrowRows(rows: seq<Row>, m: Rejections, paths: set<Text>)
    requires forall i :: 0 <= i < |rows| ==> rows[i].path in m && rows[i].reason == m[rows[i].path]
    requires paths == set i | 0 <= i < |rows| :: rows[i].path
    ensures Unrow(rows) == map p | p in m && p in paths :: m[p]
  {
    if rows != [] {
      var rest := set i | 0 <= i < |rows[1..]| :: rows[1..][i].path;
      UnrowRows(rows[1..], m, rest);
      assert forall i :: 1 <= i < |rows| ==> rows[i] == rows[1..][i - 1];
      assert paths == rest + {rows[0].path};
    }
  }

  lemma UnrowOfRows(m: Rejections)
    ensures Unrow(Rows(m)) == m
  {
    var rows := Rows(m);
    var listing := Listing(m.Keys);
    var paths := set i | 0 <= i < |rows| :: rows[i].path;
    forall p ensures p in paths <==> p in m {
      if p in m {
        assert p in Elements(listing);
        var i :| 0 <= i < |listing| && listing[i] == p;
        assert rows[i].path == p;
      }
    }
    UnrowRows(rows, m, paths);
  }

  /** The merge of groups of rows, the earliest reason first. */
  function MergeGroups(groups: seq<seq<Row>>): Rejections {
    if groups == [] then map[] else Merge(Unrow(groups[0]), MergeGroups(groups[1..]))
  }

  lemma MergeAssociative(a: Rejections, b: Rejections, c: Rejections)
    ensures Merge(Merge(a, b), c) == Merge(a, Merge(b, c))
  {}

  lemma MergeUnit(a: Rejections)
    ensures Merge(a, map[]) == a && Merge(map[], a) == a
  {}

  lemma MergeStep(groups: seq<seq<Row>>, i: nat)
    requires i < |groups|
    ensures MergeGroups(groups[i..]) == Merge(Unrow(groups[i]), MergeGroups(groups[i+1..]))
  {}

  lemma MergeNothing(groups: seq<seq<Row>>)
    requires groups == []
    ensures MergeGroups(groups) == map[]
  {}

  lemma MergeThree(a: seq<Row>, b: seq<Row>, c: seq<Row>)
    ensures MergeGroups([a, b, c]) == Merge(Merge(Unrow(a), Unrow(b)), Unrow(c))
  {
    hide Merge, Unrow;
    var groups := [a, b, c];
    MergeStep(groups, 0);
    MergeStep(groups, 1);
    MergeStep(groups, 2);
    assert groups[0..] == groups && |groups[3..]| == 0;
    MergeUnit(Unrow(c));
    MergeAssociative(Unrow(a), Unrow(b), Unrow(c));
  }

  /** `merged_violations`. */
  method MergedViolations(groups: seq<seq<Row>>) returns (rows: seq<Row>)
    ensures rows == Rows(MergeGroups(groups))
  {
    hide Rows, Merge, MergeGroups, Unrow;
    var rejected: Rejections := map[];
    var i := 0;
    MergeUnit(MergeGroups(groups));
    assert groups[0..] == groups;
    while i < |groups|
      invariant 0 <= i <= |groups|
      invariant MergeGroups(groups) == Merge(rejected, MergeGroups(groups[i..]))
    {
      MergeStep(groups, i);
      MergeAssociative(rejected, Unrow(groups[i]), MergeGroups(groups[i+1..]));
      rejected := SetDefaults(rejected, groups[i]);
      i := i + 1;
    }
    MergeNothing(groups[i..]);
    MergeUnit(rejected);
    rows := SortedRows(rejected);
  }

  /** One group of `merged_violations`. */
  method SetDefaults(rejected: Rejections, group: seq<Row>) returns (r: Rejections)
    ensures r == Merge(rejected, Unrow(group))
  {
    hide Merge, Unrow;
    r := rejected;
    var i := 0;
    assert group[0..] == group;
    while i < |group|
      invariant 0 <= i <= |group|
      invariant Merge(rejected, Unrow(group)) == Merge(r, Unrow(group[i..]))
    {
      var row := group[i];
      UnrowStep(group, i);
      MergeRow(r, Unrow(group[i+1..]), row);
      if row.path !in r {
        r := r[row.path := row.reason];
      }
      i := i + 1;
    }
    UnrowNothing(group[i..]);
    MergeUnit(r);
  }

  lemma UnrowStep(group: seq<Row>, i: nat)
    requires i < |group|
    ensures Unrow(group[i..]) == Unrow(group[i+1..])[group[i].path := group[i].reason]
  {}

  lemma UnrowNothing(group: seq<Row>)
    requires group == []
    ensures Unrow(group) == map[]
  {}

  /** `setdefault` of one row. */
  lemma MergeRow(r: Rejections, rest: Rejections, row: Row)
    ensures Merge(r, rest[row.path := row.reason]) ==
      Merge(if row.path in r then r else r[row.path := row.reason], rest)
  {}

  // ------------------------------------------------------------ refinement

  predicate Accepts(w: World, c: Check, e: Entry) {
    Judge(w, c, e).reason.None?
  }

  /** A path is rejected exactly when some entry of that path is. */
  lemma {:induction false} RejectedExactly(w: World, c: Check, es: seq<Entry>, p: Text)
    ensures p in Rejected(w, c, es) <==> exists i :: 0 <= i < |es| && es[i].path == p && !Accepts(w, c, es[i])
  {
    hide Judge, Accepts;
    if es != [] {
      var n := |es| - 1;
      RejectedExactly(w, c, es[..n], p);
      AcceptsMeaning(w, c, es[n]);
      assert forall i :: 0 <= i < n ==> es[..n][i] == es[i];
      if p in Rejected(w, c, es[..n]) {
        var i :| 0 <= i < n && es[..n][i].path == p && !Accepts(w, c, es[..n][i]);
        assert es[i].path == p && !Accepts(w, c, es[i]);
      }
    }
  }

  lemma AcceptsMeaning(w: World, c: Check, e: Entry)
    ensures Accepts(w, c, e) <==> Judge(w, c, e).reason.None?
    ensures Judge(w, c, e).path == e.path
  {}

  /** The entries whose path is not in `gone`. */
  function Survivors(es: seq<Entry>, gone: set<Text>): seq<Entry> {
    if es == [] then []
    else
      var rest := Survivors(es[..|es| - 1], gone);
      if es[|es| - 1].path in gone then rest else rest + [es[|es| - 1]]
  }

  lemma RejectedSnoc(w: World, c: Check, es: seq<Entry>, e: Entry)
    ensures Rejected(w, c, es + [e]) ==
      if Accepts(w, c, e) then Rejected(w, c, es)
      else Rejected(w, c, es)[e.path := Judge(w, c, e).reason.value]
  {}

  /** What is said about one path depends on the entries of that path only. */
  lemma {:induction false} SurvivorsPoint(w: World, c: Check, es: seq<Entry>, gone: set<Text>, p: Text)
    ensures var r, s := Rejected(w, c, es), Rejected(w, c, Survivors(es, gone));
      if p in gone then p !in s else (p in s <==> p in r) && (p in r ==> s[p] == r[p])
  {
    hide Judge, Accepts, Rejected;
    if es == [] {
      assert Survivors(es, gone) == es;
      RejectedNothing(w, c);
    } else {
      var n := |es| - 1;
      SurvivorsPoint(w, c, es[..n], gone, p);
      assert es == es[..n] + [es[n]];
      RejectedSnoc(w, c, es[..n], es[n]);
      RejectedSnoc(w, c, Survivors(es[..n], gone), es[n]);
    }
  }

  lemma RejectedNothing(w: World, c: Check)
    ensures Rejected(w, c, []) == map[]
  {}

  /** Dropping entries of other paths does not change what is said about a path that stays. */
  lemma SurvivorsSuffice(w: World, c: Check, es: seq<Entry>, gone: set<Text>)
    ensures Rejected(w, c, Survivors(es, gone)) == Rejected(w, c, es) - gone
  {
    hide Rejected, Survivors;
    var r, s := Rejected(w, c, es), Rejected(w, c, Survivors(es, gone));
    forall p ensures if p in gone then p !in s else (p in s <==> p in r) && (p in r ==> s[p] == r[p]) {
      SurvivorsPoint(w, c, es, gone, p);
    }
    assert s.Keys == (r - gone).Keys;
  }

  /** The verdict on a candidate, every check run on every entry. */
  function FullReport(w: World, es: seq<Entry>): Rejections {
    Merge(Merge(Rejected(w, Paths, es), Rejected(w, Metadata, es)), Rejected(w, Content, es))
  }

  /** Scanning the content of survivors only gives the same merged report. */
  lemma SurvivorScanRefines(w: World, es: seq<Entry>)
    ensures var gone := Rejected(w, Paths, es).Keys + Rejected(w, Metadata, es).Keys;
      Merge(Merge(Rejected(w, Paths, es), Rejected(w, Metadata, es)), Rejected(w, Content, Survivors(es, gone)))
      == FullReport(w, es)
  {
    hide Rejected;
    SurvivorsSuffice(w, Content, es, Rejected(w, Paths, es).Keys + Rejected(w, Metadata, es).Keys);
  }

  /** The report is empty exactly when every check accepts every entry. */
  lemma PassExactly(w: World, es: seq<Entry>)
    ensures FullReport(w, es) == map[] <==>
      forall i, c :: 0 <= i < |es| ==> Accepts(w, c, es[i])
  {
    hide Rejected, Accepts;
    forall i, c | 0 <= i < |es| && !Accepts(w, c, es[i]) ensures es[i].path in FullReport(w, es) {
      RejectedExactly(w, c, es, es[i].path);
      assert es[i].path in Rejected(w, c, es);
      assert c == Paths || c == Metadata || c == Content;
    }
    if FullReport(w, es) != map[] {
      var p :| p in FullReport(w, es);
      RejectedExactly(w, Paths, es, p);
      RejectedExactly(w, Metadata, es, p);
      RejectedExactly(w, Content, es, p);
    }
  }

  /** The reason reported for a path comes from the earliest check that rejects it. */
  lemma EarliestReason(w: World, es: seq<Entry>, p: Text)
    requires p in FullReport(w, es)
    ensures FullReport(w, es)[p] ==
      if p in Rejected(w, Paths, es) then Rejected(w, Paths, es)[p]
      else if p in Rejected(w, Metadata, es) then Rejected(w, Metadata, es)[p]
      else Rejected(w, Content, es)[p]
  {}

  /** The verdict entry by entry. */
  lemma AllClean(w: World, es: seq<Entry>)
    ensures (forall i, c :: 0 <= i < |es| ==> Accepts(w, c, es[i])) <==> forall i :: 0 <= i < |es| ==> Clean(w, es[i])
  {
    hide Judge, Clean;
    forall i | 0 <= i < |es| ensures Clean(w, es[i]) <==> forall c :: Accepts(w, c, es[i]) {
      CleanLaw(w, es[i]);
      assert forall c :: Accepts(w, c, es[i]) <==> Judge(w, c, es[i]).reason == None;
    }
  }

  datatype Report = Report(pass: bool, trackedPathCount: nat, violations: seq<Row>)

  /** `inspect_candidate`, on the entries of the commit. */
  method InspectCandidate(w: World, entries: seq<Entry>) returns (report: Report)
    ensures report.violations == Rows(FullReport(w, entries))
    ensures report.pass <==> forall i, c :: 0 <= i < |entries| ==> Accepts(w, c, entries[i])
    ensures report.pass <==> forall i :: 0 <= i < |entries| ==> Clean(w, entries[i])
    ensures report.trackedPathCount == |entries|
  {
    hide Rejected, Accepts, Clean, Rows, Merge, MergeGroups, Unrow, Survivors, FullReport;
    AllClean(w, entries);
    var pathRows := CollectRejections(w, Paths, entries);
    var metadataRows := CollectRejections(w, Metadata, entries);
    ghost var mp, mm := Rejected(w, Paths, entries), Rejected(w, Metadata, entries);
    UnrowOfRows(mp);
    UnrowOfRows(mm);
    var gone := Unrow(pathRows).Keys + Unrow(metadataRows).Keys;
    var survivors := Survivors(entries, gone);
    var contentRows := CollectRejections(w, Content, survivors);
    ghost var mc := Rejected(w, Content, survivors);
    UnrowOfRows(mc);
    MergeThree(pathRows, metadataRows, contentRows);
    var rejected := MergedViolations([pathRows, metadataRows, contentRows]);
    SurvivorScanRefines(w, entries);
    PassExactly(w, entries);
    assert rejected == Rows(FullReport(w, entries));
    RowsFaithful(FullReport(w, entries));
    report := Report(rejected == [], |entries|, rejected);
  }
}
