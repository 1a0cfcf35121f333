/**
 * UTF-8 as RFC 3629 defines it (sections 3 and 4): the encoder behind
 * `str.encode("utf-8")` and Rust's `String`, and the strict decoder.
 */
module Utf8 {
  import opened Basics
  import opened LexOrder

  /** Code points other than surrogates; the only ones UTF-8 can carry. */
  predicate IsScalar(c: Code) {
    !(0xD800 <= c < 0xE000)
  }

  predicate Encodable(t: Text) {
    forall i :: 0 <= i < |t| ==> IsScalar(t[i])
  }

  /** Number of octets, RFC 3629 section 3. */
  function Width(c: Code): (n: nat)
    ensures 1 <= n <= 4
  {
    if c < 0x80 then 1 else if c < 0x800 then 2 else if c < 0x1_0000 then 3 else 4
  }

  function EncodeCode(c: Code): (b: Bytes)
    ensures |b| == Width(c)
  {
    if c < 0x80 then [c]
    else if c < 0x800 then [0xC0 + c / 0x40, 0x80 + c % 0x40]
    else if c < 0x1_0000 then [0xE0 + c / 0x40 / 0x40, 0x80 + c / 0x40 % 0x40, 0x80 + c % 0x40]
    else [0xF0 + c / 0x40 / 0x40 / 0x40, 0x80 + c / 0x40 / 0x40 % 0x40, 0x80 + c / 0x40 % 0x40, 0x80 + c % 0x40]
  }

  function Encode(t: Text): Bytes {
    if t == [] then [] else EncodeCode(t[0]) + Encode(t[1..])
  }

  lemma {:induction false} EncodeAppend(a: Text, b: Text)
    ensures Encode(a + b) == Encode(a) + Encode(b)
  {
    if a == [] {
      assert a + b == b;
    } else {
      assert (a + b)[1..] == a[1..] + b;
      EncodeAppend(a[1..], b);
    }
  }

  lemma EncodeOne(c: Code)
    ensures Encode([c]) == EncodeCode(c)
  {}

  lemma {:induction false} EncodeLength(t: Text)
    ensures |t| <= |Encode(t)| <= 4 * |t|
  {
    if t != [] { EncodeLength(t[1..]); }
  }

  /** ASCII text is its own encoding. */
  lemma {:induction false} EncodeAscii(t: Text)
    requires forall i :: 0 <= i < |t| ==> t[i] < 0x80
    ensures Encode(t) == t
  {
    if t != [] {
      EncodeAscii(t[1..]);
      assert t == [t[0]] + t[1..];
    }
  }

  // ---------------------------------------------------------------- order

  lemma CodeOrder(c: Code, d: Code, x: Bytes, y: Bytes)
    requires c < d
    ensures LexLess(EncodeCode(c) + x, EncodeCode(d) + y)
  {
    var a, b := EncodeCode(c) + x, EncodeCode(d) + y;
    if Width(c) != Width(d) || a[0] != b[0] {
      LeadByteOrder(c, d);
      LexFirstDifference(a, b, 0);
    } else if a[1] != b[1] {
      LexFirstDifference(a, b, 1);
    } else if a[2] != b[2] {
      assert a[..2] == b[..2];
      LexFirstDifference(a, b, 2);
    } else {
      assert a[..3] == b[..3];
      LexFirstDifference(a, b, 3);
    }
  }

  lemma LeadByteOrder(c: Code, d: Code)
    requires c < d
    ensures EncodeCode(c)[0] <= EncodeCode(d)[0]
    ensures Width(c) != Width(d) ==> EncodeCode(c)[0] < EncodeCode(d)[0]
  {}

  /** RFC 3629, section 3: marker bits of every octet, and the code in the bits that remain. */
  lemma EncodeLaw(c: Code)
    ensures var b: seq<int> := EncodeCode(c);
      if c < 0x80 then b == [c]
      else if c < 0x800 then
        |b| == 2 && 0xC0 <= b[0] < 0xE0 && 0x80 <= b[1] < 0xC0 && c == (b[0] - 0xC0) * 0x40 + (b[1] - 0x80)
      else if c < 0x1_0000 then
        && |b| == 3 && 0xE0 <= b[0] < 0xF0 && 0x80 <= b[1] < 0xC0 && 0x80 <= b[2] < 0xC0
        && c == (b[0] - 0xE0) * 0x1000 + (b[1] - 0x80) * 0x40 + (b[2] - 0x80)
      else
        && |b| == 4 && 0xF0 <= b[0] < 0xF8 && 0x80 <= b[1] < 0xC0 && 0x80 <= b[2] < 0xC0 && 0x80 <= b[3] < 0xC0
        && c == (b[0] - 0xF0) * 0x4_0000 + (b[1] - 0x80) * 0x1000 + (b[2] - 0x80) * 0x40 + (b[3] - 0x80)
  {}

  /**
   * Byte order of encodings is code point order of texts: what lets Rust sort keys by
   * bytes and Python by code points and still agree. Holds of surrogates as well.
   */
  lemma {:induction false} EncodePreservesOrder(a: Text, b: Text)
    ensures LexLess(Encode(a), Encode(b)) <==> LexLess(a, b)
  {
    if a == [] || b == [] {
      LexIrreflexive([]);
    } else if a[0] == b[0] {
      LexPrefix(EncodeCode(a[0]), Encode(a[1..]), Encode(b[1..]));
      EncodePreservesOrder(a[1..], b[1..]);
    } else if a[0] < b[0] {
      CodeOrder(a[0], b[0], Encode(a[1..]), Encode(b[1..]));
    } else {
      CodeOrder(b[0], a[0], Encode(b[1..]), Encode(a[1..]));
      LexAsymmetric(Encode(b), Encode(a));
    }
  }

  lemma EncodeInjective(a: Text, b: Text)
    requires Encode(a) == Encode(b)
    ensures a == b
  {
    LexTotal(a, b);
    EncodePreservesOrder(a, b);
    EncodePreservesOrder(b, a);
    LexIrreflexive(Encode(a));
  }

  // -------------------------------------------------------------- decoding

  predicate Tail(b: Byte) {
    0x80 <= b < 0xC0
  }

  /** Six more payload bits. */
  function Push(c: nat, b: Byte): (r: nat)
    requires Tail(b)
    ensures r / 0x40 == c && 0x80 + r % 0x40 == b
  {
    c * 0x40 + (b as int - 0x80)
  }

  /** The code point of one well-formed sequence at the head of `b` (RFC 3629 section 4). */
  function DecodeCode(b: Bytes): (r: Option<Code>)
    ensures r.Some? ==> IsScalar(r.value) && |b| >= Width(r.value)
  {
    if b == [] then None
    else if b[0] < 0x80 then Some(b[0])
    else if 0xC2 <= b[0] < 0xE0 then
      if |b| >= 2 && Tail(b[1]) then Some(Push(b[0] as int - 0xC0, b[1])) else None
    else if 0xE0 <= b[0] < 0xF0 then
      if |b| >= 3 && Tail(b[1]) && Tail(b[2]) then
        var c := Push(Push(b[0] as int - 0xE0, b[1]), b[2]);
        if c >= 0x800 && IsScalar(c) then Some(c) else None
      else None
    else if 0xF0 <= b[0] < 0xF5 then
      if |b| >= 4 && Tail(b[1]) && Tail(b[2]) && Tail(b[3]) then
        var c := Push(Push(Push(b[0] as int - 0xF0, b[1]), b[2]), b[3]);
        if 0x1_0000 <= c < 0x11_0000 then Some(c) else None
      else None
    else None
  }

  function Decode(b: Bytes): Option<Text>
    decreases |b|
  {
    if b == [] then Some([])
    else match DecodeCode(b)
      case None => None
      case Some(c) =>
        match Decode(b[Width(c)..])
        case None => None
        case Some(t) => Some([c] + t)
  }

  lemma DecodeCodeOfEncode(c: Code, rest: Bytes)
    requires IsScalar(c)
    ensures DecodeCode(EncodeCode(c) + rest) == Some(c)
  {}

  lemma EncodeOfDecodeCode(b: Bytes)
    requires DecodeCode(b).Some?
    ensures var c := DecodeCode(b).value; EncodeCode(c) == b[..Width(c)]
  {}

  lemma {:induction false} DecodeEncode(t: Text)
    requires Encodable(t)
    ensures Decode(Encode(t)) == Some(t)
  {
    if t != [] {
      var rest := Encode(t[1..]);
      DecodeCodeOfEncode(t[0], rest);
      assert (EncodeCode(t[0]) + rest)[Width(t[0])..] == rest;
      DecodeEncode(t[1..]);
      assert t == [t[0]] + t[1..];
    }
  }

  lemma {:induction false} EncodeDecode(b: Bytes)
    ensures Decode(b).Some? ==> Encodable(Decode(b).value) && Encode(Decode(b).value) == b
    decreases |b|
  {
    if b != [] && DecodeCode(b).Some? {
      var c := DecodeCode(b).value;
      EncodeOfDecodeCode(b);
      EncodeDecode(b[Width(c)..]);
      assert b == b[..Width(c)] + b[Width(c)..];
      if Decode(b).Some? {
        assert Decode(b).value[1..] == Decode(b[Width(c)..]).value;
      }
    }
  }

  /** The decoder accepts exactly the encodings, and inverts the encoder on them. */
  lemma DecodeExact(b: Bytes, t: Text)
    ensures Decode(b) == Some(t) <==> Encodable(t) && Encode(t) == b
  {
    EncodeDecode(b);
    if Encodable(t) { DecodeEncode(t); }
  }
}
