/**
 * The crates.io upload body: two little-endian length-delimited parts, the metadata
 * as compact JSON in insertion order and the package bytes.
 */
module UploadBody {
  import opened Basics
  import opened Utf8
  import opened JsonValue
  import opened JsonText
  import opened JsonRoundTrip
  import opened Canonical
  import opened Framing

  /** `len(part) <= 2**32 - 1`. */
  predicate FitsU32(b: Bytes) {
    |b| < 0x1_0000_0000
  }

  /** `struct.pack("<I", n)`. */
  function LittleEndian(n: nat): (b: Bytes)
    requires n < 0x1_0000_0000
    ensures |b| == 4
  {
    [n % 256, n / 256 % 256, n / 256 / 256 % 256, n / 256 / 256 / 256]
  }

  function FromLittleEndian(b: Bytes): nat
    requires |b| == 4
  {
    var d: seq<nat> := b;
    d[0] + 256 * (d[1] + 256 * (d[2] + 256 * d[3]))
  }

  lemma LittleEndianReads(n: nat)
    requires n < 0x1_0000_0000
    ensures FromLittleEndian(LittleEndian(n)) == n
  {}

  /** The octets of a length, the least significant first. */
  lemma LittleEndianLaw(n: nat)
    requires n < 0x1_0000_0000
    ensures var b, o := LittleEndian(n), FourOctets(n); b == [o[3], o[2], o[1], o[0]]
    ensures Number(FourOctets(n)) == n
  {
    hide Number;
    BigEndianReads(n, 4);
    BigEndianOctets(n);
    var b, o := LittleEndian(n), FourOctets(n);
    assert n / 256 / 256 == n / 0x1_0000 && n / 256 / 256 / 256 == n / 0x100_0000;
  }

  function Part(b: Bytes): Bytes
    requires FitsU32(b)
  {
    LittleEndian(|b|) + b
  }

  function Metadata(v: JSON): Bytes {
    Encode(Compact(v))
  }

  /** `build_upload_body`: refused when text cannot be encoded or a part exceeds 32 bits. */
  function Build(metadata: JSON, package: Bytes): Option<Bytes> {
    if Encodables(metadata) && FitsU32(Metadata(metadata)) && FitsU32(package)
    then Some(Part(Metadata(metadata)) + Part(package))
    else None
  }

  /** The body, written out: each part behind its length, the least significant octet first. */
  lemma BodyLaw(metadata: JSON, package: Bytes)
    requires Build(metadata, package).Some?
    ensures var m := Encode(Compact(metadata));
      var a, b := FourOctets(|m|), FourOctets(|package|);
      Build(metadata, package) ==
        Some([a[3], a[2], a[1], a[0]] + m + ([b[3], b[2], b[1], b[0]] + package))
  {
    hide LittleEndian, FourOctets, Encode, Compact;
    LittleEndianLaw(|Metadata(metadata)|);
    LittleEndianLaw(|package|);
  }

  // ------------------------------------------- the other end of the upload

  /** A reader of one part: its bytes and what follows. */
  function TakePart(b: Bytes): Option<(Bytes, Bytes)> {
    if |b| < 4 then None
    else
      var n := FromLittleEndian(b[..4]);
      if n > |b| - 4 then None else Some((b[4..4 + n], b[4 + n..]))
  }

  /** A reader of the whole body, with nothing left over. */
  function Read(body: Bytes): Option<(JSON, Bytes)> {
    match TakePart(body)
    case None => None
    case Some((metadata, rest)) =>
      match TakePart(rest)
      case None => None
      case Some((package, left)) =>
        match Decode(metadata)
        case None => None
        case Some(t) =>
          match Loads(t)
          case Refused(_) => None
          case Value(v) => if left == [] then Some((v, package)) else None
  }

  lemma PartTaken(b: Bytes, rest: Bytes)
    requires FitsU32(b)
    ensures TakePart(Part(b) + rest) == Some((b, rest))
  {
    var s := Part(b) + rest;
    Assoc(LittleEndian(|b|), b, rest);
    assert s[..4] == LittleEndian(|b|);
    LittleEndianReads(|b|);
    assert s[4..] == b + rest;
    assert s[4..4 + |b|] == b && s[4 + |b|..] == rest;
  }

  /** The registry reads back the metadata, keys in their order, and the package. */
  lemma UploadRoundTrip(metadata: JSON, package: Bytes)
    requires Dict(metadata) && Build(metadata, package).Some?
    ensures Read(Build(metadata, package).value) == Some((metadata, package))
  {
    hide ParseValue, Compact, Part, TakePart;
    var m := Metadata(metadata);
    PartTaken(m, Part(package));
    PartTaken(package, []);
    assert Part(package) + [] == Part(package);
    CompactHead(metadata);
    ValueRoundTrip(metadata, []);
    assert Compact(metadata) + [] == Compact(metadata);
    CompactPlain(metadata);
    DecodeEncode(Compact(metadata));
  }

  /** Bodies bind both parts; the key order of the metadata is part of the body. */
  lemma UploadBinds(v: JSON, p: Bytes, w: JSON, q: Bytes)
    requires Dict(v) && Dict(w) && Build(v, p).Some? && Build(w, q).Some?
    ensures Build(v, p) == Build(w, q) <==> v == w && p == q
  {
    UploadRoundTrip(v, p);
    UploadRoundTrip(w, q);
  }
}
