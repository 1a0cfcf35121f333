/**
 * Three programs hash a UI tree. The binary and the crate inspector list it by the
 * `/`-joined path; the release script sorts `Path` objects, that is, component by
 * component. The two orders agree on a tree exactly when no directory name is a proper
 * prefix of a sibling name that continues with a character below `/`.
 */
module PathOrder {
  import opened Basics
  import opened LexOrder
  import opened Sorting
  import opened Utf8
  import opened Framing
  import opened UiTree

  type Path = seq<Text>

  datatype File = File(path: Path, bytes: Bytes)

  const SLASH: Code := 0x2F

  predicate ValidName(t: Text) {
    t != [] && forall i :: 0 <= i < |t| ==> t[i] != SLASH
  }

  predicate ValidPath(p: Path) {
    p != [] && forall i :: 0 <= i < |p| ==> ValidName(p[i])
  }

  ghost predicate Tree(files: seq<File>) {
    && (forall i :: 0 <= i < |files| ==> ValidPath(files[i].path))
    && (forall i, j :: 0 <= i < j < |files| ==> files[i].path != files[j].path)
  }

  /** `as_posix`. */
  function Join(p: Path): Text {
    if p == [] then []
    else if |p| == 1 then p[0]
    else p[0] + [SLASH] + Join(p[1..])
  }

  /** Order of `Path` objects: the lists of components, lexicographically. */
  predicate PathLess(p: Path, q: Path) {
    q != [] && (p == [] || LexLess(p[0], q[0]) || (p[0] == q[0] && PathLess(p[1..], q[1..])))
  }

  predicate JoinedLess(p: Path, q: Path) {
    LexLess(Join(p), Join(q))
  }

  /** `a` is a proper prefix of `b`, which goes on with a character below `/`. */
  predicate Shadows(a: Text, b: Text) {
    |a| < |b| && b[..|a|] == a && b[|a|] < SLASH
  }

  /** At some depth, a directory of `p` shadows its sibling on the way to `q`. */
  predicate Conflict(p: Path, q: Path) {
    |p| > 1 && q != [] && (Shadows(p[0], q[0]) || (p[0] == q[0] && Conflict(p[1..], q[1..])))
  }

  /** Names joined by slashes. */
  lemma {:induction false} JoinLaw(p: Path)
    ensures Join(p) == Joined(T("/"), p)
  {
    if |p| > 1 { JoinLaw(p[1..]); }
    assert T("/") == [SLASH];
  }

  /** A shadowing directory name is the beginning of a name that goes on below the slash. */
  lemma ShadowsLaw(a: Text, b: Text)
    ensures Shadows(a, b) <==> exists c: Code, rest: Text :: b == a + ([c] + rest) && c < T("/")[0]
  {
    if Shadows(a, b) { assert b == a + ([b[|a|]] + b[|a| + 1..]); }
  }

  /** `Conflict`, written with an explicit common parent. */
  lemma {:induction false} ConflictMeaning(p: Path, q: Path)
    ensures Conflict(p, q) <==>
      exists k :: 0 <= k < |q| && k + 1 < |p| && p[..k] == q[..k] && Shadows(p[k], q[k])
  {
    if Conflict(p, q) {
      if Shadows(p[0], q[0]) {
        assert p[..0] == q[..0];
      } else {
        ConflictMeaning(p[1..], q[1..]);
        var k :| 0 <= k < |q[1..]| && k + 1 < |p[1..]| && p[1..][..k] == q[1..][..k] && Shadows(p[1..][k], q[1..][k]);
        assert p[..k+1] == [p[0]] + p[1..][..k] && q[..k+1] == [q[0]] + q[1..][..k];
        assert p[k+1] == p[1..][k] && q[k+1] == q[1..][k];
      }
    }
    if k :| 0 <= k < |q| && k + 1 < |p| && p[..k] == q[..k] && Shadows(p[k], q[k]) {
      if k > 0 {
        assert p[0] == p[..k][0] == q[..k][0] == q[0];
        assert p[1..][..k-1] == p[..k][1..] && q[1..][..k-1] == q[..k][1..];
        assert p[1..][k-1] == p[k] && q[1..][k-1] == q[k];
        ConflictMeaning(p[1..], q[1..]);
      }
    }
  }

  // ------------------------------------------------------- pairs of paths

  /** What follows the first component in the joined path. */
  function After(p: Path): Text
    requires p != []
  {
    if |p| == 1 then [] else [SLASH] + Join(p[1..])
  }

  lemma JoinHead(p: Path)
    requires p != []
    ensures Join(p) == p[0] + After(p)
  {}

  lemma EarlyDifference(a: Text, r: Text, b: Text, s: Text, k: nat)
    requires k < |a| && k < |b| && a[..k] == b[..k] && a[k] < b[k]
    ensures LexLess(a + r, b + s) && !Shadows(a, b)
  {
    if |a| < |b| { assert b[..|a|][k] == b[k]; }
    assert (a + r)[..k] == a[..k] && (b + s)[..k] == b[..k];
    LexFirstDifference(a + r, b + s, k);
  }

  /** `a` ends, `b` goes on: what follows `a` decides. */
  lemma LateDifference(a: Text, r: Text, b: Text, s: Text)
    requires |a| < |b| && b[..|a|] == a && (r != [] ==> r[0] != b[|a|])
    ensures LexLess(a + r, b + s) <==> r == [] || r[0] < b[|a|]
    ensures LexLess(b + s, a + r) <==> r != [] && b[|a|] < r[0]
  {
    var c := b[|a|..] + s;
    assert b == a + b[|a|..];
    Assoc(a, b[|a|..], s);
    LexPrefix(a, r, c);
    LexPrefix(a, c, r);
    assert c[0] == b[|a|];
  }

  /** Different first components: the smaller one wins both orders, unless it shadows. */
  lemma FirstNamesDecide(p: Path, q: Path)
    requires ValidPath(p) && ValidPath(q) && LexLess(p[0], q[0])
    ensures if |p| > 1 && Shadows(p[0], q[0]) then JoinedLess(q, p) else JoinedLess(p, q)
  {
    hide LexLess, Join;
    var a, b := p[0], q[0];
    var k := FirstDifference(a, b);
    JoinHead(p);
    JoinHead(q);
    if k < |a| {
      EarlyDifference(a, After(p), b, After(q), k);
    } else {
      assert a[..k] == a;
      LateDifference(a, After(p), b, After(q));
    }
  }

  /** Equal first components drop out of both orders. */
  lemma SameFirstName(p: Path, q: Path)
    requires |p| > 1 && |q| > 1 && p[0] == q[0]
    ensures JoinedLess(p, q) <==> JoinedLess(p[1..], q[1..])
  {
    LexPrefix(p[0] + [SLASH], Join(p[1..]), Join(q[1..]));
  }

  lemma {:induction false} ConflictReverses(p: Path, q: Path)
    requires ValidPath(p) && ValidPath(q) && Conflict(p, q)
    ensures PathLess(p, q) && JoinedLess(q, p)
  {
    if Shadows(p[0], q[0]) {
      assert q[0] == p[0] + q[0][|p[0]|..];
      LexPrefix(p[0], [], q[0][|p[0]|..]);
      assert p[0] + [] == p[0];
      FirstNamesDecide(p, q);
    } else {
      ConflictReverses(p[1..], q[1..]);
      SameFirstName(q, p);
    }
  }

  lemma {:induction false} NoConflictAgrees(p: Path, q: Path)
    requires ValidPath(p) && ValidPath(q) && p != q && !Conflict(p, q) && !Conflict(q, p)
    ensures PathLess(p, q) <==> JoinedLess(p, q)
  {
    LexTotal(p[0], q[0]);
    if LexLess(p[0], q[0]) {
      FirstNamesDecide(p, q);
    } else if LexLess(q[0], p[0]) {
      FirstNamesDecide(q, p);
      LexAsymmetric(q[0], p[0]);
      LexAsymmetric(Join(q), Join(p));
    } else if |p| > 1 && |q| > 1 {
      LexIrreflexive(p[0]);
      SameFirstName(p, q);
      assert p == [p[0]] + p[1..] && q == [q[0]] + q[1..];
      NoConflictAgrees(p[1..], q[1..]);
    } else {
      LexIrreflexive(p[0]);
      JoinHead(p);
      JoinHead(q);
      LexPrefix(p[0], After(p), After(q));
      assert p == [p[0]] + p[1..] && q == [q[0]] + q[1..];
    }
  }

  // --------------------------------------------------------- whole trees

  function ByComponents(): (File, File) -> bool {
    (f: File, g: File) => PathLess(f.path, g.path)
  }

  function ByJoined(): (File, File) -> bool {
    (f: File, g: File) => JoinedLess(f.path, g.path)
  }

  ghost predicate ConflictFree(files: seq<File>) {
    forall i, j :: 0 <= i < |files| && 0 <= j < |files| ==> !Conflict(files[i].path, files[j].path)
  }

  lemma {:induction false} PathIrreflexive(p: Path)
    ensures !PathLess(p, p)
  {
    if p != [] { LexIrreflexive(p[0]); PathIrreflexive(p[1..]); }
  }

  lemma {:induction false} PathTransitive(p: Path, q: Path, r: Path)
    requires PathLess(p, q) && PathLess(q, r)
    ensures PathLess(p, r)
  {
    if p != [] {
      if LexLess(p[0], q[0]) && LexLess(q[0], r[0]) { LexTransitive(p[0], q[0], r[0]); }
      if p[0] == q[0] == r[0] && !LexLess(p[0], q[0]) && !LexLess(q[0], r[0]) {
        PathTransitive(p[1..], q[1..], r[1..]);
      }
    }
  }

  lemma {:induction false} PathTotal(p: Path, q: Path)
    ensures p == q || PathLess(p, q) || PathLess(q, p)
  {
    if p != [] && q != [] {
      LexTotal(p[0], q[0]);
      if p[0] == q[0] {
        PathTotal(p[1..], q[1..]);
        assert p == [p[0]] + p[1..] && q == [q[0]] + q[1..];
      }
    }
  }

  /** Joined valid paths are as distinct as the paths. */
  lemma {:induction false} JoinInjective(p: Path, q: Path)
    requires ValidPath(p) && ValidPath(q) && Join(p) == Join(q)
    ensures p == q
  {
    LexTotal(p[0], q[0]);
    LexIrreflexive(Join(p));
    if LexLess(p[0], q[0]) {
      FirstNamesDecide(p, q);
      assert false;
    } else if LexLess(q[0], p[0]) {
      FirstNamesDecide(q, p);
      assert false;
    } else {
      JoinHead(p);
      JoinHead(q);
      SplitAt(p[0], After(p), q[0], After(q));
      assert p == [p[0]] + p[1..] && q == [q[0]] + q[1..];
      if |p| > 1 && |q| > 1 {
        SplitAt([SLASH], Join(p[1..]), [SLASH], Join(q[1..]));
        JoinInjective(p[1..], q[1..]);
      }
    }
  }

  lemma ComponentOrder(files: seq<File>)
    requires Tree(files)
    ensures StrictOrder(ByComponents(), Elements(files)) && Within(files, Elements(files)) && Distinct(files)
  {
    var less := ByComponents();
    forall f ensures !less(f, f) { PathIrreflexive(f.path); }
    forall f, g, k | less(f, g) && less(g, k) ensures less(f, k) { PathTransitive(f.path, g.path, k.path); }
    forall f, g | f in Elements(files) && g in Elements(files) ensures f == g || less(f, g) || less(g, f) {
      PathTotal(f.path, g.path);
    }
  }

  lemma JoinedOrder(files: seq<File>)
    requires Tree(files)
    ensures StrictOrder(ByJoined(), Elements(files)) && Within(files, Elements(files)) && Distinct(files)
  {
    var less := ByJoined();
    forall f ensures !less(f, f) { LexIrreflexive(Join(f.path)); }
    forall f, g, k | less(f, g) && less(g, k) ensures less(f, k) {
      LexTransitive(Join(f.path), Join(g.path), Join(k.path));
    }
    forall f, g | f in Elements(files) && g in Elements(files) ensures f == g || less(f, g) || less(g, f) {
      LexTotal(Join(f.path), Join(g.path));
      if Join(f.path) == Join(g.path) { JoinInjective(f.path, g.path); }
    }
  }

  lemma ConflictSplitsOrders(files: seq<File>, f: File, g: File)
    requires Tree(files) && f in files && g in files && Conflict(f.path, g.path)
    ensures Sort(ByComponents(), files) != Sort(ByJoined(), files)
  {
    hide Sort, Conflict, PathLess, JoinedLess, ValidPath, StrictOrder, Increasing;
    var less, more, dom := ByComponents(), ByJoined(), Elements(files);
    ComponentOrder(files);
    JoinedOrder(files);
    SortIncreasing(less, dom, files);
    SortIncreasing(more, dom, files);
    SortElements(less, files);
    SortElements(more, files);
    var s, t := Sort(less, files), Sort(more, files);
    forall i | 0 <= i < |s| ensures s[i] in dom { assert s[i] in s && s[i] in files; }
    forall i | 0 <= i < |t| ensures t[i] in dom { assert t[i] in t && t[i] in files; }
    assert ValidPath(f.path) && ValidPath(g.path);
    ConflictReverses(f.path, g.path);
    assert f in s && g in s;
    OrdersClash(less, more, dom, s, t, f, g);
  }

  /** The two listings of a tree coincide exactly when it is free of conflicts. */
  lemma ListingsAgree(files: seq<File>)
    requires Tree(files)
    ensures Sort(ByComponents(), files) == Sort(ByJoined(), files) <==> ConflictFree(files)
  {
    if ConflictFree(files) {
      forall f, g | f in files && g in files ensures ByComponents()(f, g) == ByJoined()(f, g) {
        if f.path == g.path {
          PathIrreflexive(f.path);
          LexIrreflexive(Join(f.path));
        } else {
          NoConflictAgrees(f.path, g.path);
        }
      }
      SortAgree(ByComponents(), ByJoined(), files);
    } else {
      var i, j :| 0 <= i < |files| && 0 <= j < |files| && Conflict(files[i].path, files[j].path);
      ConflictSplitsOrders(files, files[i], files[j]);
    }
  }

  // -------------------------------------------------- the hashed streams

  function EntriesOf(files: seq<File>): (es: seq<Entry>)
    ensures |es| == |files|
    ensures forall i :: 0 <= i < |files| ==> es[i] == Entry(Join(files[i].path), files[i].bytes)
  {
    seq(|files|, i requires 0 <= i < |files| => Entry(Join(files[i].path), files[i].bytes))
  }

  /** The tree has its start page at the root. */
  ghost predicate HasIndex(files: seq<File>) {
    exists f :: f in files && f.path == [T("index.html")]
  }

  /** Every name is text: a name that is no UTF-8 reaches Python with surrogates in it. */
  ghost predicate AllEncodable(files: seq<File>) {
    forall f :: f in files ==> Encodable(Join(f.path))
  }

  /** Files sorted as `Path` objects. */
  function ComponentStream(files: seq<File>): Bytes {
    Stream(EntriesOf(Sort(ByComponents(), files)))
  }

  /** The release script refuses a tree without its start page or with a name it cannot encode. */
  ghost function ScriptStream(files: seq<File>): Option<Bytes> {
    if HasIndex(files) && AllEncodable(files) then Some(ComponentStream(files)) else None
  }

  /** `ui_tree_identity_from_entries` on `/`-joined names, as the binary embeds them. */
  function BinaryStream(files: seq<File>): Bytes {
    Stream(Sort(ByPath(), EntriesOf(files)))
  }

  lemma EntriesInjective(files: seq<File>, others: seq<File>)
    requires EntriesOf(files) == EntriesOf(others)
    requires forall i :: 0 <= i < |files| ==> ValidPath(files[i].path)
    requires forall i :: 0 <= i < |others| ==> ValidPath(others[i].path)
    ensures files == others
  {
    assert |files| == |others|;
    forall i | 0 <= i < |files| ensures files[i] == others[i] {
      assert EntriesOf(files)[i] == EntriesOf(others)[i];
      JoinInjective(files[i].path, others[i].path);
    }
  }

  lemma EntriesDistinct(files: seq<File>)
    requires Tree(files)
    ensures DistinctPaths(EntriesOf(files))
  {
    hide Join, ValidPath;
    var es := EntriesOf(files);
    forall i, j | 0 <= i < j < |es| ensures es[i].path != es[j].path {
      if es[i].path == es[j].path { JoinInjective(files[i].path, files[j].path); }
    }
  }

  lemma EntriesOfListing(files: seq<File>, listing: seq<File>)
    requires forall f :: f in listing <==> f in files
    ensures forall e :: e in EntriesOf(listing) <==> e in EntriesOf(files)
  {
    hide Join;
    var es, rs := EntriesOf(files), EntriesOf(listing);
    forall e ensures e in rs <==> e in es {
      if e in es {
        var i :| 0 <= i < |es| && es[i] == e;
        assert files[i] in files && files[i] in listing;
        var j :| 0 <= j < |listing| && listing[j] == files[i];
        assert rs[j] == e;
      }
      if e in rs {
        var j :| 0 <= j < |rs| && rs[j] == e;
        assert listing[j] in listing && listing[j] in files;
        var i :| 0 <= i < |files| && files[i] == listing[j];
        assert es[i] == e;
      }
    }
  }

  lemma EntriesIncreasing(listing: seq<File>)
    requires Increasing(ByJoined(), listing)
    ensures Increasing(ByPath(), EntriesOf(listing))
  {
    hide Join, LexLess, Encode;
    var rs := EntriesOf(listing);
    forall i, j | 0 <= i < j < |rs| ensures ByPath()(rs[i], rs[j]) {
      assert ByJoined()(listing[i], listing[j]);
      EncodePreservesOrder(rs[i].path, rs[j].path);
    }
  }

  /** Sorting the entries is listing the files by joined path. */
  lemma EntriesSorted(files: seq<File>)
    requires Tree(files)
    ensures Sort(ByPath(), EntriesOf(files)) == EntriesOf(Sort(ByJoined(), files))
  {
    hide Sort, Tree, StrictOrder, Increasing, Join;
    var es, r := EntriesOf(files), Sort(ByJoined(), files);
    var dom := Elements(es);
    JoinedOrder(files);
    SortIncreasing(ByJoined(), Elements(files), files);
    SortElements(ByJoined(), files);
    EntriesIncreasing(r);
    EntriesOfListing(files, r);
    EntriesDistinct(files);
    PathStrictOrder(es, dom);
    SortIncreasing(ByPath(), dom, es);
    SortElements(ByPath(), es);
    var s, rs := Sort(ByPath(), es), EntriesOf(r);
    forall i | 0 <= i < |s| ensures s[i] in dom { assert s[i] in s && s[i] in es; }
    forall i | 0 <= i < |rs| ensures rs[i] in dom { assert rs[i] in rs && rs[i] in es; }
    SortedUnique(ByPath(), dom, s, rs);
  }

  ghost predicate FittingTree(files: seq<File>) {
    forall f :: f in files ==> Fits(Encode(Join(f.path))) && Fits(f.bytes)
  }

  lemma FittingEntries(files: seq<File>, listing: seq<File>)
    requires FittingTree(files) && forall f :: f in listing ==> f in files
    ensures Fitting(EntriesOf(listing))
  {}

  lemma ComponentsAgree(files: seq<File>)
    requires Tree(files) && FittingTree(files)
    ensures ComponentStream(files) == BinaryStream(files) <==> ConflictFree(files)
  {
    var a, b := Sort(ByComponents(), files), Sort(ByJoined(), files);
    EntriesSorted(files);
    ListingsAgree(files);
    SortElements(ByComponents(), files);
    SortElements(ByJoined(), files);
    FittingEntries(files, a);
    FittingEntries(files, b);
    StreamDecodable(EntriesOf(a), EntriesOf(b));
    if EntriesOf(a) == EntriesOf(b) {
      forall i | 0 <= i < |a| ensures ValidPath(a[i].path) { assert a[i] in a && a[i] in files; }
      forall i | 0 <= i < |b| ensures ValidPath(b[i].path) { assert b[i] in b && b[i] in files; }
      EntriesInjective(a, b);
    }
  }

  /**
   * The release script accepts a tree and hashes what the binary hashes over its embedded
   * files exactly if the tree has its start page, only text names and no conflict.
   */
  lemma StreamsAgree(files: seq<File>)
    requires Tree(files) && FittingTree(files)
    ensures ScriptStream(files) == Some(BinaryStream(files)) <==>
      HasIndex(files) && AllEncodable(files) && ConflictFree(files)
  {
    ComponentsAgree(files);
  }

  // -------------------------------------------------- the walk of the disk

  const BACKSLASH: Code := 0x5C

  /** `replace('\\', "/")`. */
  function Slashes(t: Text): (r: Text)
    ensures |r| == |t|
    ensures forall i :: 0 <= i < |t| ==> r[i] == (if t[i] == BACKSLASH then SLASH else t[i])
  {
    seq(|t|, i requires 0 <= i < |t| => if t[i] == BACKSLASH then SLASH else t[i])
  }

  /** `to_string_lossy`: some text, and the name itself when it is text. */
  type Lossy = Text -> Text

  ghost predicate KeepsText(lossy: Lossy) {
    forall t :: Encodable(t) ==> lossy(t) == t
  }

  function WalkEntries(lossy: Lossy, files: seq<File>): (es: seq<Entry>)
    ensures |es| == |files|
    ensures forall i :: 0 <= i < |files| ==> es[i] == Entry(Slashes(lossy(Join(files[i].path))), files[i].bytes)
  {
    seq(|files|, i requires 0 <= i < |files| => Entry(Slashes(lossy(Join(files[i].path))), files[i].bytes))
  }

  /** `ui_tree_identity`: the walked paths sorted as such, normalized, then sorted as strings. */
  function WalkStream(lossy: Lossy, files: seq<File>): Bytes {
    Stream(Sort(ByPath(), WalkEntries(lossy, Sort(ByComponents(), files))))
  }

  /** No file or directory name contains a backslash. */
  ghost predicate NoBackslash(files: seq<File>) {
    forall f :: f in files ==> BACKSLASH !in Join(f.path)
  }

  /** Every backslash becomes a slash; every other character stays. */
  lemma SlashesLaw(t: Text, i: nat)
    requires i < |t|
    ensures Slashes(t)[i] == (if t[i] == T("\\")[0] then T("/")[0] else t[i])
  {}

  lemma NoneToReplace(t: Text)
    requires BACKSLASH !in t
    ensures Slashes(t) == t
  {}

  lemma {:induction false} SlashesWidth(t: Text)
    ensures |Encode(Slashes(t))| == |Encode(t)|
  {
    if t != [] {
      assert Slashes(t)[1..] == Slashes(t[1..]);
      SlashesWidth(t[1..]);
    }
  }

  /** Without backslashes the walk hashes what the binary hashes over the embedded files. */
  lemma WalkIsBinary(lossy: Lossy, files: seq<File>)
    requires Tree(files) && KeepsText(lossy) && AllEncodable(files) && NoBackslash(files)
    ensures WalkStream(lossy, files) == BinaryStream(files)
  {
    hide Sort, Join, Tree, StrictOrder;
    var r := Sort(ByComponents(), files);
    SortElements(ByComponents(), files);
    var es, rs := EntriesOf(files), EntriesOf(r);
    forall i | 0 <= i < |r| ensures WalkEntries(lossy, r)[i] == rs[i] {
      assert r[i] in r && r[i] in files;
      NoneToReplace(Join(r[i].path));
    }
    assert WalkEntries(lossy, r) == rs;
    ComponentOrder(files);
    SortIncreasing(ByComponents(), Elements(files), files);
    ListingIsTree(files, r);
    EntriesOfListing(files, r);
    EntriesDistinct(files);
    EntriesDistinct(r);
    PathStrictOrder(es, Elements(es));
    PathStrictOrder(rs, Elements(rs));
    SortPermutation(ByPath(), Elements(es), es, rs);
  }

  lemma ListingIsTree(files: seq<File>, r: seq<File>)
    requires Tree(files) && r == Sort(ByComponents(), files) && Increasing(ByComponents(), r)
    ensures Tree(r)
  {
    hide Sort, PathLess;
    SortElements(ByComponents(), files);
    forall i | 0 <= i < |r| ensures ValidPath(r[i].path) { assert r[i] in r && r[i] in files; }
    forall i, j | 0 <= i < j < |r| ensures r[i].path != r[j].path {
      assert ByComponents()(r[i], r[j]);
      PathIrreflexive(r[i].path);
    }
  }

  /** The walk's entries have no backslash in their names. */
  lemma WalkFits(lossy: Lossy, files: seq<File>, r: seq<File>, s: seq<Entry>)
    requires FittingTree(files) && KeepsText(lossy) && AllEncodable(files) && Elements(r) == Elements(files)
    requires Elements(s) == Elements(WalkEntries(lossy, r))
    ensures forall e :: e in s ==> FittingEntry(e) && BACKSLASH !in e.path
  {
    hide Join, Encode;
    var ws := WalkEntries(lossy, r);
    forall e | e in s ensures FittingEntry(e) && BACKSLASH !in e.path {
      assert e in Elements(s);
      var i :| 0 <= i < |ws| && ws[i] == e;
      assert r[i] in Elements(r) && r[i] in files;
      SlashesWidth(Join(r[i].path));
    }
  }

  /** A backslash survives in the script's stream and in no other entry of the walk's. */
  lemma BackslashShows(lossy: Lossy, files: seq<File>)
    requires Tree(files) && FittingTree(files) && KeepsText(lossy) && AllEncodable(files)
    requires ComponentStream(files) == WalkStream(lossy, files)
    ensures NoBackslash(files)
  {
    hide Sort, Join, Tree, Encode, KeepsText, AllEncodable, FittingEntry;
    var r := Sort(ByComponents(), files);
    SortElements(ByComponents(), files);
    var rs, ws := EntriesOf(r), WalkEntries(lossy, r);
    var s := Sort(ByPath(), ws);
    SortElements(ByPath(), ws);
    FittingEntries(files, r);
    WalkFits(lossy, files, r, s);
    StreamDecodable(rs, s);
    forall f | f in files ensures BACKSLASH !in Join(f.path) {
      assert f in Elements(files) && f in r;
      var i :| 0 <= i < |r| && r[i] == f;
      assert rs[i] in s;
    }
  }

  /**
   * The release script accepts a tree and hashes what the build hashes on disk exactly if
   * the tree has its start page, only text names, no conflict and no backslash in a name.
   */
  lemma WalksAgree(lossy: Lossy, files: seq<File>)
    requires Tree(files) && FittingTree(files) && KeepsText(lossy)
    ensures ScriptStream(files) == Some(WalkStream(lossy, files)) <==>
      HasIndex(files) && AllEncodable(files) && ConflictFree(files) && NoBackslash(files)
  {
    hide WalkStream, ComponentStream, BinaryStream, ConflictFree, Tree;
    ComponentsAgree(files);
    if AllEncodable(files) {
      if ComponentStream(files) == WalkStream(lossy, files) { BackslashShows(lossy, files); }
      if NoBackslash(files) { WalkIsBinary(lossy, files); }
    }
  }

  // ------------------------------------------------- the crate inspector

  /** The crate inspector sorts archive member names and strips their common prefix. */
  function ByName(prefix: Text): (Entry, Entry) -> bool {
    (e: Entry, f: Entry) => LexLess(prefix + e.path, prefix + f.path)
  }

  /** It, too, refuses a tree without start page and a name it cannot encode. */
  ghost function InspectorStream(prefix: Text, files: seq<File>): Option<Bytes> {
    if HasIndex(files) && AllEncodable(files) then Some(Stream(Sort(ByName(prefix), EntriesOf(files)))) else None
  }

  /** What the crate inspector hashes is always what the binary hashes. */
  lemma InspectorAgrees(prefix: Text, files: seq<File>)
    ensures InspectorStream(prefix, files) ==
      if HasIndex(files) && AllEncodable(files) then Some(BinaryStream(files)) else None
  {
    forall e, f ensures ByName(prefix)(e, f) == ByPath()(e, f) {
      LexPrefix(prefix, e.path, f.path);
      EncodePreservesOrder(e.path, f.path);
    }
    SortAgree(ByName(prefix), ByPath(), EntriesOf(files));
  }

  // ------------------------------------------------------------ witnesses

  const INDEX := File([T("index.html")], [])

  lemma ShortNames(p: Path)
    requires ValidPath(p) && |p| <= 2 && forall i :: 0 <= i < |p| ==> |p[i]| <= 10
    requires forall i, k :: 0 <= i < |p| && 0 <= k < |p[i]| ==> p[i][k] < 0x80
    ensures Fits(Encode(Join(p))) && Encodable(Join(p))
  {
    if |p| == 2 { assert p[1..] == [p[1]]; }
    EncodeLength(Join(p));
  }

  /** A tree on which they differ: `a/x` beside `a-b`. */
  lemma StreamsCanDiffer()
    ensures var files := [INDEX, File([T("a"), T("x")], []), File([T("a-b")], [])];
      Tree(files) && ScriptStream(files).Some? && ScriptStream(files) != Some(BinaryStream(files))
  {
    hide Join, Encode, Conflict, ComponentStream, BinaryStream;
    var p, q := [T("a"), T("x")], [T("a-b")];
    var files := [INDEX, File(p, []), File(q, [])];
    assert p[0] == [97] && p[1] == [120] && q[0] == [97, 45, 98];
    assert |p| != |q| && |q[0]| != |INDEX.path[0]| && ValidPath(p) && ValidPath(q) && ValidPath(INDEX.path);
    ShortNames(p);
    ShortNames(q);
    ShortNames(INDEX.path);
    assert Conflict(files[1].path, files[2].path) by {
      assert Shadows(p[0], q[0]);
      ConflictAtOnce(p, q);
    }
    StreamsAgree(files);
  }

  lemma ConflictAtOnce(p: Path, q: Path)
    requires |p| > 1 && q != [] && Shadows(p[0], q[0])
    ensures Conflict(p, q)
  {}

  /** A tree without conflict on which the script and the walk differ: one file named `a\b`. */
  lemma BackslashDiffers(lossy: Lossy)
    requires KeepsText(lossy)
    ensures var files := [INDEX, File([[97, BACKSLASH, 98]], [])];
      && Tree(files) && ConflictFree(files) && ScriptStream(files) == Some(BinaryStream(files))
      && ScriptStream(files) != Some(WalkStream(lossy, files))
  {
    hide Encode, ComponentStream, BinaryStream, WalkStream, Encodable;
    var p: Path := [[97, BACKSLASH, 98]];
    var files := [INDEX, File(p, [])];
    assert |p[0]| != |INDEX.path[0]| && ValidPath(p) && ValidPath(INDEX.path);
    ShortNames(p);
    ShortNames(INDEX.path);
    StreamsAgree(files);
    WalksAgree(lossy, files);
    assert files[1] in files && Join(p)[1] == BACKSLASH;
  }
}
