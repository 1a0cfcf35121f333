/**
 * Identity of a served UI tree: what `ui_tree_identity_from_entries` hashes, why the
 * stream names one tree only, and when the three implementations agree.
 */
module UiTree {
  import opened Basics
  import opened LexOrder
  import opened Sorting
  import opened Utf8
  import opened Framing

  /** A file as the binary holds it: `/`-joined relative path and content. */
  datatype Entry = Entry(path: Text, bytes: Bytes)

  datatype Identity = Identity(sha256: Text, placeholder: bool)

  const DOMAIN: Bytes := A("m1nd-ui-bundle-tree-v1") + [0]
  const MARKER: Bytes := A("m1nd UI not built")

  // --------------------------------------------------- the hashed stream

  function Row(e: Entry): Bytes {
    Field(Encode(e.path)) + Field(e.bytes)
  }

  function Stream(es: seq<Entry>): Bytes {
    DOMAIN + Rows(Row, es)
  }

  ghost predicate FittingEntry(e: Entry) {
    Fits(Encode(e.path)) && Fits(e.bytes)
  }

  ghost predicate Fitting(es: seq<Entry>) {
    forall e :: e in es ==> FittingEntry(e)
  }

  /** A row in literals: path and content, each behind its length in eight octets. */
  lemma RowLaw(e: Entry)
    ensures Row(e) ==
      EightOctets(|Encode(e.path)|) + Encode(e.path) + EightOctets(|e.bytes|) + e.bytes
  {
    hide BigEndian, EightOctets, Encode;
    BigEndianOctets(|Encode(e.path)|);
    BigEndianOctets(|e.bytes|);
    Assoc(EightOctets(|Encode(e.path)|) + Encode(e.path), EightOctets(|e.bytes|), e.bytes);
  }

  /** The stream in literals: the domain and a zero octet, then row after row. */
  lemma StreamLaw(es: seq<Entry>)
    ensures Stream(es) == A("m1nd-ui-bundle-tree-v1") + [0] + Rows(Row, es)
    ensures es != [] ==> Stream(es) == A("m1nd-ui-bundle-tree-v1") + [0] + Row(es[0]) + Rows(Row, es[1..])
  {
    if es != [] { Assoc(DOMAIN, Row(es[0]), Rows(Row, es[1..])); }
  }

  /** Entries are listed by ascending bytes of the path. */
  lemma PathsAscend(es: seq<Entry>, i: nat, j: nat)
    requires DistinctPaths(es) && i < j < |es|
    ensures var r := Sort(ByPath(), es); |r| == |es| && Before(Encode(r[i].path), Encode(r[j].path))
  {
    hide Sort, Encode, LexLess;
    PathStrictOrder(es, Elements(es));
    SortIncreasing(ByPath(), Elements(es), es);
    SortElements(ByPath(), es);
    var r := Sort(ByPath(), es);
    assert ByPath()(r[i], r[j]);
    LexMeaning(Encode(r[i].path), Encode(r[j].path));
  }

  lemma RowNonEmpty(e: Entry)
    ensures |Row(e)| >= 16
  {}

  lemma RowSplit(e: Entry, r: Bytes, f: Entry, s: Bytes)
    requires FittingEntry(e) && FittingEntry(f)
    requires Row(e) + r == Row(f) + s
    ensures e == f && r == s
  {
    hide Field, Encode;
    Assoc(Field(Encode(e.path)), Field(e.bytes), r);
    Assoc(Field(Encode(f.path)), Field(f.bytes), s);
    FieldSplit(Encode(e.path), Field(e.bytes) + r, Encode(f.path), Field(f.bytes) + s);
    FieldSplit(e.bytes, r, f.bytes, s);
    EncodeInjective(e.path, f.path);
  }

  /** The stream carries no entry count, yet it splits into rows in one way only. */
  lemma RowsDecodable(es: seq<Entry>, fs: seq<Entry>)
    requires Fitting(es) && Fitting(fs) && Rows(Row, es) == Rows(Row, fs)
    ensures es == fs
  {
    var ok := (e: Entry) => FittingEntry(e);
    forall e ensures Row(e) != [] { RowNonEmpty(e); }
    forall e: Entry, f: Entry, r: Bytes, s: Bytes | ok(e) && ok(f) && Row(e) + r == Row(f) + s ensures e == f && r == s {
      RowSplit(e, r, f, s);
    }
    RowsUnique(Row, ok, es, fs);
  }

  lemma StreamDecodable(es: seq<Entry>, fs: seq<Entry>)
    requires Fitting(es) && Fitting(fs)
    ensures Stream(es) == Stream(fs) <==> es == fs
  {
    if Stream(es) == Stream(fs) {
      SplitAt(DOMAIN, Rows(Row, es), DOMAIN, Rows(Row, fs));
      RowsDecodable(es, fs);
    }
  }

  // ------------------------------------- identity of a set of entries

  /** Rust compares `String`s, that is, UTF-8 bytes. */
  function ByPath(): (Entry, Entry) -> bool {
    (e: Entry, f: Entry) => LexLess(Encode(e.path), Encode(f.path))
  }

  ghost predicate DistinctPaths(es: seq<Entry>) {
    forall i, j :: 0 <= i < j < |es| ==> es[i].path != es[j].path
  }

  predicate IsPlaceholder(e: Entry) {
    e.path == T("index.html") && Contains(e.bytes, MARKER)
  }

  /** The tree was not built: some entry is the placeholder page. */
  ghost predicate Placeholder(es: seq<Entry>) {
    exists e :: e in es && IsPlaceholder(e)
  }

  ghost function IdentityOf(h: Hash, es: seq<Entry>): Identity {
    Identity(Hex(h(Stream(Sort(ByPath(), es)))), Placeholder(es))
  }

  lemma PlaceholderSorted(es: seq<Entry>, sorted: seq<Entry>)
    requires forall e :: e in sorted <==> e in es
    ensures Placeholder(es) <==> exists k :: 0 <= k < |sorted| && IsPlaceholder(sorted[k])
  {}

  /** The page that stands in for a UI which was not built. */
  predicate StandIn(e: Entry) {
    e.path == T("index.html") && Contains(e.bytes, A("m1nd UI not built"))
  }

  /** The flag in literals. */
  lemma PlaceholderLaw(es: seq<Entry>)
    ensures Placeholder(es) <==> exists e :: e in es && StandIn(e)
  {
    hide Contains;
  }

  /** `ui_tree_identity_from_entries`. */
  method UiTreeIdentityFromEntries(h: Hash, entries: seq<Entry>) returns (identity: Identity)
    ensures identity == IdentityOf(h, entries)
    ensures identity.placeholder <==> exists e :: e in entries && StandIn(e)
  {
    PlaceholderLaw(entries);
    hide Row, IsPlaceholder, StandIn, Sort, Placeholder;
    var sorted := Sort(ByPath(), entries);
    SortElements(ByPath(), entries);
    var hasher := new Hasher();
    hasher.Update(DOMAIN);
    var placeholder := false;
    var i := 0;
    while i < |sorted|
      invariant 0 <= i <= |sorted|
      invariant hasher.fed == DOMAIN + Rows(Row, sorted[..i])
      invariant placeholder <==> exists k :: 0 <= k < i && IsPlaceholder(sorted[k])
    {
      var e := sorted[i];
      if IsPlaceholder(e) {
        placeholder := true;
      }
      FeedRow(hasher, e);
      RowsSnoc(Row, sorted, i);
      Assoc(DOMAIN, Rows(Row, sorted[..i]), Row(e));
      i := i + 1;
    }
    assert sorted[..|sorted|] == sorted;
    PlaceholderSorted(entries, sorted);
    var sha := HexLower(h(hasher.fed));
    identity := Identity(sha, placeholder);
  }

  /** The four hasher updates of one entry. */
  method FeedRow(hasher: Hasher, e: Entry)
    modifies hasher
    ensures hasher.fed == old(hasher.fed) + Row(e)
    ensures hasher.fed == old(hasher.fed)
      + (EightOctets(|Encode(e.path)|) + Encode(e.path) + EightOctets(|e.bytes|) + e.bytes)
  {
    hide BigEndian, EightOctets;
    RowLaw(e);
    var path := Encode(e.path);
    ghost var start := hasher.fed;
    hasher.Update(BigEndian(|path|, 8));
    hasher.Update(path);
    Assoc(start, BigEndian(|path|, 8), path);
    hasher.Update(BigEndian(|e.bytes|, 8));
    hasher.Update(e.bytes);
    Assoc(start + Field(path), BigEndian(|e.bytes|, 8), e.bytes);
    Assoc(start, Field(path), Field(e.bytes));
  }

  lemma PathStrictOrder(es: seq<Entry>, dom: set<Entry>)
    requires DistinctPaths(es) && dom == Elements(es)
    ensures StrictOrder(ByPath(), dom) && Within(es, dom) && Distinct(es)
  {
    var less := ByPath();
    forall e ensures !less(e, e) { LexIrreflexive(Encode(e.path)); }
    forall e, f, g | less(e, f) && less(f, g) ensures less(e, g) {
      LexTransitive(Encode(e.path), Encode(f.path), Encode(g.path));
    }
    forall e, f | e in dom && f in dom ensures e == f || less(e, f) || less(f, e) {
      LexTotal(e.path, f.path);
      EncodePreservesOrder(e.path, f.path);
      EncodePreservesOrder(f.path, e.path);
    }
  }

  /** Same files in any order: the same digest and the same flag. */
  lemma OrderIrrelevant(h: Hash, es: seq<Entry>, fs: seq<Entry>)
    requires DistinctPaths(es) && DistinctPaths(fs) && Elements(es) == Elements(fs)
    ensures IdentityOf(h, es) == IdentityOf(h, fs)
  {
    PathStrictOrder(es, Elements(es));
    PathStrictOrder(fs, Elements(fs));
    assert forall e :: e in es <==> e in Elements(es);
    assert forall e :: e in fs <==> e in Elements(fs);
    SortPermutation(ByPath(), Elements(es), es, fs);
  }

  /** Equal digests mean equal files, unless the hash collides on the two streams. */
  lemma IdentityBinds(h: Hash, es: seq<Entry>, fs: seq<Entry>)
    requires DistinctPaths(es) && DistinctPaths(fs) && Fitting(es) && Fitting(fs)
    requires Separates(h, Stream(Sort(ByPath(), es)), Stream(Sort(ByPath(), fs)))
    ensures IdentityOf(h, es).sha256 == IdentityOf(h, fs).sha256 <==> Elements(es) == Elements(fs)
  {
    var a, b := Sort(ByPath(), es), Sort(ByPath(), fs);
    if IdentityOf(h, es).sha256 == IdentityOf(h, fs).sha256 {
      HexInjective(h(Stream(a)), h(Stream(b)));
      SortElements(ByPath(), es);
      SortElements(ByPath(), fs);
      StreamDecodable(a, b);
      assert forall e :: e in Elements(es) <==> e in Elements(fs);
    }
    if Elements(es) == Elements(fs) { OrderIrrelevant(h, es, fs); }
  }
}
