/**
 * `framed_tree_identity` of the live orchestrator: the richer stream that also carries
 * the mode and tells regular files from symbolic links.
 */
module FramedTree {
  import opened Basics
  import opened LexOrder
  import opened Sorting
  import opened Utf8
  import opened Framing

  datatype Kind = Link | Regular

  /** A walked entry; the payload is the link target or the file content. */
  datatype Node = Node(path: Text, mode: nat, kind: Kind, payload: Bytes)

  function Tag(k: Kind): Bytes {
    if k == Link then [0x4C] else [0x46]
  }

  function Row(n: Node): Bytes {
    Field(Encode(n.path)) + BigEndian(n.mode, 4) + Tag(n.kind) + Field(n.payload)
  }

  ghost predicate FittingNode(n: Node) {
    Fits(Encode(n.path)) && n.mode < 0x1_0000_0000 && Fits(n.payload)
  }

  ghost predicate Fitting(ns: seq<Node>) {
    forall n :: n in ns ==> FittingNode(n)
  }

  /** A row in literals: path, mode in four octets, `L` or `F`, and the payload. */
  lemma RowLaw(n: Node)
    ensures Row(n) ==
      EightOctets(|Encode(n.path)|) + Encode(n.path) + FourOctets(n.mode)
      + A(if n.kind == Link then "L" else "F") + EightOctets(|n.payload|) + n.payload
  {
    hide BigEndian, EightOctets, FourOctets, Encode;
    BigEndianOctets(|Encode(n.path)|);
    BigEndianOctets(|n.payload|);
    BigEndianOctets(n.mode);
    TagLaw(n.kind);
    Assoc(EightOctets(|Encode(n.path)|) + Encode(n.path) + FourOctets(n.mode) + Tag(n.kind),
          EightOctets(|n.payload|), n.payload);
  }

  lemma TagLaw(k: Kind)
    ensures Tag(k) == A(if k == Link then "L" else "F")
  {}

  /** Entries are listed by ascending path. */
  lemma PathsAscend(ns: seq<Node>, i: nat, j: nat)
    requires DistinctPaths(ns) && i < j < |ns|
    ensures var r := Sort(ByPosix(), ns); |r| == |ns| && Before(r[i].path, r[j].path)
  {
    hide Sort, LexLess;
    PosixOrder(ns);
    SortIncreasing(ByPosix(), Elements(ns), ns);
    SortElements(ByPosix(), ns);
    var r := Sort(ByPosix(), ns);
    assert ByPosix()(r[i], r[j]);
    LexMeaning(r[i].path, r[j].path);
  }

  lemma RowShape(n: Node, r: Bytes)
    ensures Row(n) + r == Field(Encode(n.path)) + (BigEndian(n.mode, 4) + (Tag(n.kind) + (Field(n.payload) + r)))
    ensures |Row(n)| > 0
  {
    hide Field, Encode, BigEndian;
    Assoc5(Field(Encode(n.path)), BigEndian(n.mode, 4), Tag(n.kind), Field(n.payload), r);
    Assoc(BigEndian(n.mode, 4), Tag(n.kind), Field(n.payload) + r);
  }

  lemma RowSplit(n: Node, r: Bytes, m: Node, s: Bytes)
    requires FittingNode(n) && FittingNode(m) && Row(n) + r == Row(m) + s
    ensures n == m && r == s
  {
    hide Field, Encode, BigEndian, Row;
    RowShape(n, r);
    RowShape(m, s);
    var tn, tm := Field(n.payload) + r, Field(m.payload) + s;
    FieldSplit(Encode(n.path), BigEndian(n.mode, 4) + (Tag(n.kind) + tn),
               Encode(m.path), BigEndian(m.mode, 4) + (Tag(m.kind) + tm));
    EncodeInjective(n.path, m.path);
    SplitAt(BigEndian(n.mode, 4), Tag(n.kind) + tn, BigEndian(m.mode, 4), Tag(m.kind) + tm);
    Pow256Eight();
    BigEndianInjective(n.mode, m.mode, 4);
    SplitAt(Tag(n.kind), tn, Tag(m.kind), tm);
    FieldSplit(n.payload, r, m.payload, s);
  }

  /** Equal streams under one domain: the same nodes in the same order. */
  lemma RowsDecodable(ns: seq<Node>, ms: seq<Node>)
    requires Fitting(ns) && Fitting(ms) && Rows(Row, ns) == Rows(Row, ms)
    ensures ns == ms
  {
    hide Row;
    var ok := (n: Node) => FittingNode(n);
    forall n ensures Row(n) != [] { RowShape(n, []); }
    forall n: Node, m: Node, r: Bytes, s: Bytes | ok(n) && ok(m) && Row(n) + r == Row(m) + s ensures n == m && r == s {
      RowSplit(n, r, m, s);
    }
    RowsUnique(Row, ok, ns, ms);
  }

  function ByPosix(): (Node, Node) -> bool {
    (n: Node, m: Node) => LexLess(n.path, m.path)
  }

  function PayloadSize(ns: seq<Node>): nat {
    if ns == [] then 0 else PayloadSize(ns[..|ns|-1]) + |ns[|ns|-1].payload|
  }

  lemma NoNodes()
    ensures Rows(Row, []) == [] && PayloadSize([]) == 0
  {}

  lemma PayloadSnoc(ns: seq<Node>, i: nat)
    requires i < |ns|
    ensures PayloadSize(ns[..i+1]) == PayloadSize(ns[..i]) + |ns[i].payload|
  {
    assert ns[..i+1][..i] == ns[..i];
  }

  datatype TreeIdentity = TreeIdentity(digest: Text, count: nat, byteCount: nat)

  /**
   * What the loop demands of an entry: a path that encodes, a link that is not absolute,
   * and `steady`, what the file system says of it: a link that resolves inside the root,
   * an entry that did not change while it was read.
   */
  predicate Hashable(n: Node, steady: Node -> bool) {
    Encodable(n.path) && (n.kind == Link ==> !StartsWith(n.payload, [0x2F])) && steady(n)
  }

  /** The hash loop, on the entries the walk collected; it refuses at the first unsafe one. */
  method FramedTreeIdentity(h: Hash, domain: Bytes, entries: seq<Node>, steady: Node -> bool)
    returns (identity: Option<TreeIdentity>)
    ensures identity.Some? <==> forall n :: n in entries ==> Hashable(n, steady)
    ensures identity.Some? ==>
      identity.value == TreeIdentity(DigestOfTree(h, domain, entries), |entries|, PayloadSize(Sort(ByPosix(), entries)))
  {
    hide Row, Rows, Hashable, Sort, PayloadSize;
    assert Rows(Row, []) == [] && PayloadSize([]) == 0 by { NoNodes(); }
    var sorted := Sort(ByPosix(), entries);
    SortElements(ByPosix(), entries);
    var hasher := new Hasher();
    hasher.Update(domain);
    var byteCount := 0;
    var i := 0;
    while i < |sorted|
      invariant 0 <= i <= |sorted|
      invariant hasher.fed == domain + Rows(Row, sorted[..i])
      invariant byteCount == PayloadSize(sorted[..i])
      invariant forall k :: 0 <= k < i ==> Hashable(sorted[k], steady)
    {
      if !Hashable(sorted[i], steady) {
        assert sorted[i] in sorted;
        return None;
      }
      FeedRow(hasher, sorted[i]);
      RowsSnoc(Row, sorted, i);
      Assoc(domain, Rows(Row, sorted[..i]), Row(sorted[i]));
      PayloadSnoc(sorted, i);
      byteCount := byteCount + |sorted[i].payload|;
      i := i + 1;
    }
    assert sorted[..|sorted|] == sorted;
    var digest := HexLower(h(hasher.fed));
    identity := Some(TreeIdentity(digest, |sorted|, byteCount));
  }

  method FeedRow(hasher: Hasher, n: Node)
    modifies hasher
    ensures hasher.fed == old(hasher.fed) + Row(n)
    ensures hasher.fed == old(hasher.fed)
      + (EightOctets(|Encode(n.path)|) + Encode(n.path) + FourOctets(n.mode)
         + A(if n.kind == Link then "L" else "F") + EightOctets(|n.payload|) + n.payload)
  {
    hide BigEndian, Encode, EightOctets, FourOctets;
    RowLaw(n);
    var path := Encode(n.path);
    ghost var start := hasher.fed;
    hasher.Update(BigEndian(|path|, 8));
    hasher.Update(path);
    Assoc(start, BigEndian(|path|, 8), path);
    hasher.Update(BigEndian(n.mode, 4));
    hasher.Update(Tag(n.kind));
    ghost var middle := hasher.fed;
    hasher.Update(BigEndian(|n.payload|, 8));
    hasher.Update(n.payload);
    Assoc(middle, BigEndian(|n.payload|, 8), n.payload);
    Assoc5(start, Field(path), BigEndian(n.mode, 4), Tag(n.kind), Field(n.payload));
    Assoc4(Field(path), BigEndian(n.mode, 4), Tag(n.kind), Field(n.payload));
  }

  ghost predicate DistinctPaths(ns: seq<Node>) {
    forall i, j :: 0 <= i < j < |ns| ==> ns[i].path != ns[j].path
  }

  lemma PosixOrder(ns: seq<Node>)
    requires DistinctPaths(ns)
    ensures StrictOrder(ByPosix(), Elements(ns)) && Within(ns, Elements(ns)) && Distinct(ns)
  {
    var less := ByPosix();
    forall n ensures !less(n, n) { LexIrreflexive(n.path); }
    forall n, m, k | less(n, m) && less(m, k) ensures less(n, k) { LexTransitive(n.path, m.path, k.path); }
    forall n, m | n in Elements(ns) && m in Elements(ns) ensures n == m || less(n, m) || less(m, n) {
      LexTotal(n.path, m.path);
    }
  }

  ghost function DigestOfTree(h: Hash, domain: Bytes, ns: seq<Node>): Text {
    Hex(h(domain + Rows(Row, Sort(ByPosix(), ns))))
  }

  /**
   * Two walks hashed under one domain have equal digests exactly when they found the same
   * nodes (path, mode, kind, payload), unless the hash collides on the two streams.
   */
  lemma FramedTreeBinds(h: Hash, domain: Bytes, ns: seq<Node>, ms: seq<Node>)
    requires DistinctPaths(ns) && DistinctPaths(ms) && Fitting(ns) && Fitting(ms)
    requires Separates(h, domain + Rows(Row, Sort(ByPosix(), ns)), domain + Rows(Row, Sort(ByPosix(), ms)))
    ensures DigestOfTree(h, domain, ns) == DigestOfTree(h, domain, ms) <==> Elements(ns) == Elements(ms)
  {
    var a, b := Sort(ByPosix(), ns), Sort(ByPosix(), ms);
    if DigestOfTree(h, domain, ns) == DigestOfTree(h, domain, ms) {
      HexInjective(h(domain + Rows(Row, a)), h(domain + Rows(Row, b)));
      SplitAt(domain, Rows(Row, a), domain, Rows(Row, b));
      SortElements(ByPosix(), ns);
      SortElements(ByPosix(), ms);
      RowsDecodable(a, b);
      assert forall n :: n in Elements(ns) <==> n in Elements(ms);
    }
    if Elements(ns) == Elements(ms) {
      PosixOrder(ns);
      PosixOrder(ms);
      assert forall n :: n in ns <==> n in Elements(ns);
      assert forall n :: n in ms <==> n in Elements(ms);
      SortPermutation(ByPosix(), Elements(ns), ns, ms);
    }
  }
}
