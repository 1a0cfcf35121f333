/**
 * Length-delimited framing: fixed-width big-endian lengths, the domain-separated
 * digest frame, lower-case hexadecimal and the hasher that is fed piece by piece.
 */
module Framing {
  import opened Basics

  /** `n.to_bytes(k, "big")`; a Rust `as` cast keeps the low `8 * k` bits. */
  function BigEndian(n: nat, k: nat): (b: Bytes)
    ensures |b| == k
  {
    if k == 0 then [] else BigEndian(n / 256, k - 1) + [n % 256]
  }

  function Pow256(k: nat): (n: nat)
    ensures n > 0
  {
    if k == 0 then 1 else 256 * Pow256(k - 1)
  }

  lemma {:induction false} BigEndianInjective(n: nat, m: nat, k: nat)
    requires n < Pow256(k) && m < Pow256(k) && BigEndian(n, k) == BigEndian(m, k)
    ensures n == m
  {
    if k > 0 {
      var a, b := BigEndian(n, k), BigEndian(m, k);
      assert a[..k-1] == BigEndian(n / 256, k - 1) && b[..k-1] == BigEndian(m / 256, k - 1);
      assert a[k-1] == n % 256 && b[k-1] == m % 256;
      BigEndianInjective(n / 256, m / 256, k - 1);
    }
  }

  /** Reading octets as a number, the first the most significant. */
  function Number(b: Bytes): nat {
    if b == [] then 0 else 256 * Number(b[..|b|-1]) + b[|b|-1]
  }

  /** A number comes back from its octets. */
  lemma {:induction false} BigEndianReads(n: nat, k: nat)
    requires n < Pow256(k)
    ensures Number(BigEndian(n, k)) == n
  {
    if k > 0 {
      var b := BigEndian(n, k);
      assert b[..k-1] == BigEndian(n / 256, k - 1);
      BigEndianReads(n / 256, k - 1);
    }
  }

  /** Four octets of a number, the most significant first. */
  function FourOctets(n: nat): (b: Bytes)
    ensures |b| == 4
  {
    [n / 0x100_0000 % 0x100, n / 0x1_0000 % 0x100, n / 0x100 % 0x100, n % 0x100]
  }

  /** Eight octets of a number, the most significant first. */
  function EightOctets(n: nat): (b: Bytes)
    ensures |b| == 8
  {
    [n / 0x100_0000_0000_0000 % 0x100, n / 0x1_0000_0000_0000 % 0x100,
     n / 0x100_0000_0000 % 0x100, n / 0x1_0000_0000 % 0x100,
     n / 0x100_0000 % 0x100, n / 0x1_0000 % 0x100, n / 0x100 % 0x100, n % 0x100]
  }

  /** The lengths of the frames are written as these octets. */
  lemma BigEndianOctets(n: nat)
    ensures BigEndian(n, 4) == FourOctets(n) && BigEndian(n, 8) == EightOctets(n)
  {
    var a := n / 0x100;
    var b := a / 0x100;
    var c := b / 0x100;
    var d := c / 0x100;
    var e := d / 0x100;
    var f := e / 0x100;
    var g := f / 0x100;
    assert b == n / 0x1_0000 && c == n / 0x100_0000 && d == n / 0x1_0000_0000;
    assert e == n / 0x100_0000_0000 && f == n / 0x1_0000_0000_0000 && g == n / 0x100_0000_0000_0000;
    OneMore(g, 0);
    OneMore(f, 1);
    OneMore(e, 2);
    OneMore(d, 3);
    OneMore(c, 0);
    OneMore(c, 4);
    OneMore(b, 1);
    OneMore(b, 5);
    OneMore(a, 2);
    OneMore(a, 6);
    OneMore(n, 3);
    OneMore(n, 7);
    assert BigEndian(g / 256, 0) == [] && BigEndian(c / 256, 0) == [];
  }

  lemma OneMore(n: nat, k: nat)
    ensures BigEndian(n, k + 1) == BigEndian(n / 256, k) + [n % 256]
  {}

  /** A byte string whose length fits the eight length octets. */
  predicate Fits(b: Bytes) {
    |b| < 0x1_0000_0000_0000_0000
  }

  lemma Pow256Eight()
    ensures Pow256(8) == 0x1_0000_0000_0000_0000 && Pow256(4) == 0x1_0000_0000
  {}

  /** One length-delimited field. */
  function Field(b: Bytes): Bytes {
    BigEndian(|b|, 8) + b
  }

  /** Two headers of the same width in front of anything: both parts agree. */
  lemma SplitAt<X>(a: seq<X>, r: seq<X>, b: seq<X>, s: seq<X>)
    requires |a| == |b| && a + r == b + s
    ensures a == b && r == s
  {
    assert (a + r)[..|a|] == a && (b + s)[..|b|] == b;
    assert (a + r)[|a|..] == r && (b + s)[|b|..] == s;
  }

  /** A field can be split off the front of a stream in one way only. */
  lemma FieldSplit(a: Bytes, r: Bytes, b: Bytes, s: Bytes)
    requires Fits(a) && Fits(b) && Field(a) + r == Field(b) + s
    ensures a == b && r == s
  {
    hide BigEndian;
    var la, lb := BigEndian(|a|, 8), BigEndian(|b|, 8);
    Assoc(la, a, r);
    Assoc(lb, b, s);
    SplitAt(la, a + r, lb, b + s);
    Pow256Eight();
    BigEndianInjective(|a|, |b|, 8);
    SplitAt(a, r, b, s);
  }

  // ------------------------------------------------------- rows of a stream

  /** The rows of all entries, one after the other, with no count. */
  function Rows<X>(row: X -> Bytes, xs: seq<X>): Bytes {
    if xs == [] then [] else row(xs[0]) + Rows(row, xs[1..])
  }

  lemma {:induction false} RowsSnoc<X>(row: X -> Bytes, xs: seq<X>, i: nat)
    requires i < |xs|
    ensures Rows(row, xs[..i+1]) == Rows(row, xs[..i]) + row(xs[i])
  {
    if i == 0 {
      assert xs[..1] == [xs[0]];
      assert xs[..1][1..] == [];
    } else {
      assert xs[..i+1][1..] == xs[1..][..i] && xs[..i][1..] == xs[1..][..i-1];
      RowsSnoc(row, xs[1..], i - 1);
      Assoc(row(xs[0]), Rows(row, xs[1..][..i-1]), row(xs[i]));
    }
  }

  /** No row is empty, and a row splits off the front of a stream in one way only. */
  ghost predicate PrefixFree<X(!new)>(row: X -> Bytes, ok: X -> bool) {
    && (forall x :: row(x) != [])
    && (forall x, y, r: Bytes, s: Bytes | ok(x) && ok(y) && row(x) + r == row(y) + s :: x == y && r == s)
  }

  /** Then the stream determines the entries. */
  lemma {:induction false} RowsUnique<X(!new)>(row: X -> Bytes, ok: X -> bool, xs: seq<X>, ys: seq<X>)
    requires PrefixFree(row, ok) && Rows(row, xs) == Rows(row, ys)
    requires (forall i :: 0 <= i < |xs| ==> ok(xs[i])) && (forall i :: 0 <= i < |ys| ==> ok(ys[i]))
    ensures xs == ys
  {
    if xs != [] && ys != [] {
      assert row(xs[0]) + Rows(row, xs[1..]) == row(ys[0]) + Rows(row, ys[1..]);
      RowsUnique(row, ok, xs[1..], ys[1..]);
      assert xs == [xs[0]] + xs[1..] && ys == [ys[0]] + ys[1..];
    }
  }

  // ------------------------------------------------ domain-separated digest

  const DIGEST_PREFIX: Bytes := A("m1nd-domain-separated-sha256-v1") + [0]

  /** The bytes hashed by `digest_domain_bytes`. */
  function DigestFrame(domain: Bytes, payload: Bytes): Bytes {
    DIGEST_PREFIX + Field(domain) + Field(payload)
  }

  lemma DigestFrameInjective(d: Bytes, p: Bytes, e: Bytes, q: Bytes)
    requires Fits(d) && Fits(p) && Fits(e) && Fits(q)
    ensures DigestFrame(d, p) == DigestFrame(e, q) <==> d == e && p == q
  {
    hide BigEndian, Field;
    if DigestFrame(d, p) == DigestFrame(e, q) {
      Assoc(DIGEST_PREFIX, Field(d), Field(p));
      Assoc(DIGEST_PREFIX, Field(e), Field(q));
      SplitAt(DIGEST_PREFIX, Field(d) + Field(p), DIGEST_PREFIX, Field(e) + Field(q));
      FieldSplit(d, Field(p), e, Field(q));
      Assoc(Field(p), [], []);
      assert Field(p) + [] == Field(p) && Field(q) + [] == Field(q);
      FieldSplit(p, [], q, []);
    }
  }

  /** SHA-256 is opaque: any function with 32-byte results. */
  type Hash = Bytes -> Bytes

  ghost predicate Sha(h: Hash) {
    forall b :: |h(b)| == 32
  }

  /** No collision between these two inputs. */
  predicate Separates(h: Hash, a: Bytes, b: Bytes) {
    h(a) == h(b) ==> a == b
  }

  // ------------------------------------------------------------ hexadecimal

  function Hex(b: Bytes): (t: Text)
    ensures |t| == 2 * |b|
    ensures forall i :: 0 <= i < |b| ==> t[2*i] == HexDigit(b[i] / 16) && t[2*i+1] == HexDigit(b[i] % 16)
  {
    if b == [] then []
    else
      var t := Hex(b[..|b|-1]) + [HexDigit(b[|b|-1] / 16), HexDigit(b[|b|-1] % 16)];
      t
  }

  lemma HexInjective(a: Bytes, b: Bytes)
    requires Hex(a) == Hex(b)
    ensures a == b
  {}

  /** `hex_lower`. */
  method HexLower(bytes: Bytes) returns (output: Text)
    ensures output == Hex(bytes)
  {
    output := [];
    var i := 0;
    while i < |bytes|
      invariant 0 <= i <= |bytes| && output == Hex(bytes[..i])
    {
      assert bytes[..i+1][..i] == bytes[..i];
      output := output + [HexDigit(bytes[i] / 16)];
      output := output + [HexDigit(bytes[i] % 16)];
      i := i + 1;
    }
    assert bytes[..|bytes|] == bytes;
  }

  /** The hexadecimal digest of a payload under a domain. */
  function DigestOf(h: Hash, domain: Bytes, payload: Bytes): Text {
    Hex(h(DigestFrame(domain, payload)))
  }

  /** Equal digests: same domain and payload, unless the hash collides on the two frames. */
  lemma DigestBinds(h: Hash, d: Bytes, p: Bytes, e: Bytes, q: Bytes)
    requires Fits(d) && Fits(p) && Fits(e) && Fits(q)
    requires Separates(h, DigestFrame(d, p), DigestFrame(e, q))
    ensures DigestOf(h, d, p) == DigestOf(h, e, q) <==> d == e && p == q
  {
    DigestFrameInjective(d, p, e, q);
    if DigestOf(h, d, p) == DigestOf(h, e, q) {
      HexInjective(h(DigestFrame(d, p)), h(DigestFrame(e, q)));
    }
  }

  /** A hasher in use: what it was fed so far. */
  class Hasher {
    var fed: Bytes

    constructor ()
      ensures fed == []
    {
      fed := [];
    }

    method Update(bytes: Bytes)
      modifies this
      ensures fed == old(fed) + bytes
    {
      fed := fed + bytes;
    }
  }

  /** The frame in literals: the prefix and a zero octet, then each length in eight octets and its bytes. */
  function DigestOctets(domain: Bytes, payload: Bytes): Bytes {
    A("m1nd-domain-separated-sha256-v1") + [0] + EightOctets(|domain|) + domain + EightOctets(|payload|) + payload
  }

  lemma DigestFrameLaw(domain: Bytes, payload: Bytes)
    ensures DigestFrame(domain, payload) == DigestOctets(domain, payload)
  {
    hide BigEndian, EightOctets;
    BigEndianOctets(|domain|);
    BigEndianOctets(|payload|);
    Assoc(DIGEST_PREFIX, EightOctets(|domain|), domain);
    Assoc(DIGEST_PREFIX + EightOctets(|domain|) + domain, EightOctets(|payload|), payload);
  }

  /** The digits of a digest, in literals. */
  lemma HexLaw(b: Bytes, i: nat)
    requires i < |b|
    ensures |Hex(b)| == 2 * |b|
    ensures Hex(b)[2*i] == T("0123456789abcdef")[b[i] / 16] && Hex(b)[2*i+1] == T("0123456789abcdef")[b[i] % 16]
  {
    HexLetterLaw(b[i] / 16);
    HexLetterLaw(b[i] % 16);
  }

  lemma HexLetterLaw(d: nat)
    requires d < 16
    ensures HexDigit(d) == T("0123456789abcdef")[d]
  {}

  /** `digest_domain_bytes`: the hasher sees exactly the frame. */
  method DigestDomainBytes(h: Hash, domain: Bytes, payload: Bytes) returns (digest: Text)
    ensures digest == DigestOf(h, domain, payload)
    ensures digest == Hex(h(DigestOctets(domain, payload)))
  {
    DigestFrameLaw(domain, payload);
    hide BigEndian;
    var hasher := new Hasher();
    hasher.Update(DIGEST_PREFIX);
    hasher.Update(BigEndian(|domain|, 8));
    hasher.Update(domain);
    Assoc(DIGEST_PREFIX, BigEndian(|domain|, 8), domain);
    assert hasher.fed == DIGEST_PREFIX + Field(domain);
    hasher.Update(BigEndian(|payload|, 8));
    hasher.Update(payload);
    Assoc(DIGEST_PREFIX + Field(domain), BigEndian(|payload|, 8), payload);
    assert hasher.fed == DigestFrame(domain, payload);
    digest := HexLower(h(hasher.fed));
  }
}
