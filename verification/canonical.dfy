/**
 * Canonical JSON bytes (`canonical_json`), the reader of canonical files
 * (`load_integer_json`) and the laws that join them.
 */
module Canonical {
  import opened Basics
  import opened Sorting
  import opened Utf8
  import opened JsonValue
  import opened JsonText
  import opened JsonRoundTrip

  function CanonicalText(v: JSON): Text {
    Compact(Normal(v))
  }

  function CanonicalBytes(v: JSON): Bytes {
    Encode(CanonicalText(v))
  }

  /** `canonical_json` of the release contract: refuses what UTF-8 cannot carry. */
  function CanonicalJson(v: JSON): Option<Bytes> {
    if Encodables(v) then Some(CanonicalBytes(v)) else None
  }

  /** Universal newlines, as `Path.read_text` applies them. */
  function UniversalNewlines(t: Text): Text {
    if t == [] then []
    else if t[0] != 0x0D then [t[0]] + UniversalNewlines(t[1..])
    else if |t| > 1 && t[1] == 0x0A then [0x0A] + UniversalNewlines(t[2..])
    else [0x0A] + UniversalNewlines(t[1..])
  }

  /** CR LF, CR and LF each become LF; nothing else changes; a text translates piece by piece. */
  lemma NewlinesLaw(a: Text, b: Text)
    ensures UniversalNewlines(T("\r\n")) == UniversalNewlines(T("\r")) == UniversalNewlines(T("\n")) == T("\n")
    ensures |a| == 1 && a != T("\r") ==> UniversalNewlines(a) == a
    ensures a == [] || b == [] || a[|a|-1] != T("\r")[0] || b[0] != T("\n")[0]
      ==> UniversalNewlines(a + b) == UniversalNewlines(a) + UniversalNewlines(b)
  {
    hide UniversalNewlines;
    Breaks();
    if |a| == 1 {
      assert a == [a[0]];
      OneCharacter(a[0]);
    }
    if a == [] || b == [] || a[|a|-1] != 0x0D || b[0] != 0x0A { Piecewise(a, b); }
  }

  lemma OneCharacter(c: Code)
    ensures c != 0x0D ==> UniversalNewlines([c]) == [c]
  {}

  lemma {:induction false} Piecewise(a: Text, b: Text)
    requires a == [] || b == [] || a[|a|-1] != 0x0D || b[0] != 0x0A
    ensures UniversalNewlines(a + b) == UniversalNewlines(a) + UniversalNewlines(b)
    decreases |a|
  {
    if a == [] {
      assert a + b == b;
    } else if b == [] {
      assert a + b == a;
    } else {
      var k := if a[0] == 0x0D && |a| > 1 && a[1] == 0x0A then 2 else 1;
      Piecewise(a[k..], b);
      assert (a + b)[k..] == a[k..] + b;
    }
  }

  lemma Breaks()
    ensures T("\r\n") == [0x0D, 0x0A] && T("\r") == [0x0D] && T("\n") == [0x0A]
    ensures UniversalNewlines(T("\r\n")) == UniversalNewlines(T("\r")) == UniversalNewlines(T("\n")) == T("\n")
  {
    var t := T("\r\n");
    assert t[2..] == [];
  }

  /** `load_integer_json` on the bytes of a file. */
  function LoadFile(file: Bytes): (r: Loaded)
    ensures r.Value? ==> Valid(r.value)
  {
    match Decode(file)
    case None => Refused(NotUtf8)
    case Some(t) => Loads(UniversalNewlines(t))
  }

  /** A loaded file that `require_exact_canonical_file` lets pass. */
  predicate ExactCanonicalFile(file: Bytes) {
    LoadFile(file).Value? && file == CanonicalBytes(LoadFile(file).value)
  }

  // -------------------------------------- canonical text has no line breaks

  ghost predicate Plain(t: Text) {
    forall i :: 0 <= i < |t| ==> t[i] >= 0x20 && IsScalar(t[i])
  }

  lemma {:induction false} EscapePlain(s: Text)
    requires Encodable(s)
    ensures Plain(Escape(s))
  {
    hide EscapeCode;
    if s != [] {
      EscapeCodePlain(s[0]);
      EscapePlain(s[1..]);
    }
  }

  lemma EscapeCodePlain(c: Code)
    requires IsScalar(c)
    ensures Plain(EscapeCode(c))
  {}

  lemma IntegerPlain(n: int)
    ensures Plain(Integer(n))
  {
    NaturalDigits(if n < 0 then -n else n);
  }

  lemma {:induction false} CompactPlain(v: JSON)
    requires Encodables(v)
    ensures Plain(Compact(v))
    decreases v, 0
  {
    hide Escape, CompactItems, CompactMembers, Integer;
    match v
    case Int(n) => IntegerPlain(n);
    case Str(s) => EscapePlain(s);
    case Arr(xs) => CompactItemsPlain(xs);
    case Obj(ms) => CompactMembersPlain(ms);
    case _ =>
  }

  lemma {:induction false} CompactItemsPlain(xs: seq<JSON>)
    requires forall i :: 0 <= i < |xs| ==> Encodables(xs[i])
    ensures Plain(CompactItems(xs))
    decreases xs, 1
  {
    if xs != [] {
      CompactPlain(xs[0]);
      CompactItemsPlain(xs[1..]);
    }
  }

  lemma {:induction false} CompactMembersPlain(ms: seq<Member>)
    requires forall i :: 0 <= i < |ms| ==> Encodable(ms[i].key) && Encodables(ms[i].value)
    ensures Plain(CompactMembers(ms))
    decreases ms, 1
  {
    if ms != [] {
      EscapePlain(ms[0].key);
      CompactPlain(ms[0].value);
      assert Plain(CompactMember(ms[0]));
      CompactMembersPlain(ms[1..]);
    }
  }

  lemma {:induction false} PlainNewlines(t: Text)
    requires Plain(t)
    ensures UniversalNewlines(t) == t
  {
    if t != [] {
      PlainNewlines(t[1..]);
      assert t == [t[0]] + t[1..];
    }
  }

  // --------------------------------------------------------------- the laws

  /** Reading canonical text back gives the value, its keys sorted. */
  lemma CanonicalTextRoundTrip(v: JSON)
    requires Valid(v)
    ensures Loads(CanonicalText(v)) == Value(Normal(v))
  {
    hide ParseValue, Compact;
    var w := Normal(v);
    NormalIsDict(v);
    NormalIsEncodable(v);
    CompactHead(w);
    ValueRoundTrip(w, []);
    assert Compact(w) + [] == Compact(w);
  }

  /** The same through UTF-8 and a file. */
  lemma CanonicalFileRoundTrip(v: JSON)
    requires Valid(v)
    ensures LoadFile(CanonicalBytes(v)) == Value(Normal(v))
  {
    var t := CanonicalText(v);
    NormalIsEncodable(v);
    CompactPlain(Normal(v));
    DecodeEncode(t);
    PlainNewlines(t);
    CanonicalTextRoundTrip(v);
  }

  /** Canonical bytes identify data: they coincide exactly for equal data. */
  lemma CanonicalExact(v: JSON, w: JSON)
    requires Valid(v) && Valid(w)
    ensures CanonicalBytes(v) == CanonicalBytes(w) <==> SameData(v, w)
  {
    NormalExact(v, w);
    if CanonicalBytes(v) == CanonicalBytes(w) {
      CanonicalFileRoundTrip(v);
      CanonicalFileRoundTrip(w);
    }
  }

  lemma {:induction false} SameAsNormal(v: JSON)
    requires Dict(v)
    ensures SameData(v, Normal(v))
  {
    match v
    case Arr(xs) =>
      forall i | 0 <= i < |xs| ensures SameData(xs[i], Normal(xs[i])) { SameAsNormal(xs[i]); }
    case Obj(ms) =>
      forall i | 0 <= i < |ms| ensures SameData(ms[i].value, Normal(ms[i].value)) {
        SameAsNormal(ms[i].value);
      }
      SortedMembers(ms);
      SameKeysAsSorted(ms);
    case _ =>
  }

  lemma SameKeysAsSorted(ms: seq<Member>)
    requires DistinctKeys(ms)
    ensures var r := Normal(Obj(ms)).members;
      && (forall k :: HasKey(ms, k) <==> HasKey(r, k))
      && (forall i, j | 0 <= i < |ms| && 0 <= j < |r| && ms[i].key == r[j].key ::
            r[j].value == Normal(ms[i].value))
  {
    SortedMembers(ms);
    var a, r := SortValues(CodePoints, ms), Normal(Obj(ms)).members;
    forall i | 0 <= i < |ms| ensures HasKey(r, ms[i].key) {
      assert a[i] in a;
      var j :| 0 <= j < |r| && r[j] == a[i];
    }
    forall j | 0 <= j < |r|
      ensures exists i :: 0 <= i < |ms| && ms[i].key == r[j].key && r[j].value == Normal(ms[i].value)
    {
      assert r[j] in r;
      var i :| 0 <= i < |a| && a[i] == r[j];
      assert ms[i].key == r[j].key;
    }
  }

  lemma NormalIdempotent(v: JSON)
    requires Dict(v)
    ensures Normal(Normal(v)) == Normal(v)
  {
    NormalIsDict(v);
    SameAsNormal(v);
    NormalExact(v, Normal(v));
  }

  /** The accepted files are exactly the canonical encodings of valid values. */
  lemma ExactFileIsImage(file: Bytes)
    ensures ExactCanonicalFile(file) <==> exists v :: Valid(v) && file == CanonicalBytes(v)
  {
    if v :| Valid(v) && file == CanonicalBytes(v) {
      CanonicalFileRoundTrip(v);
      NormalIdempotent(v);
    }
  }

  /** Accepted files with different bytes carry different data. */
  lemma ExactFilesDiffer(file: Bytes, other: Bytes)
    requires ExactCanonicalFile(file) && ExactCanonicalFile(other)
    ensures file == other <==> SameData(LoadFile(file).value, LoadFile(other).value)
  {
    CanonicalExact(LoadFile(file).value, LoadFile(other).value);
  }
}
