/**
 * `write_value` of the Rust control crate: a recursive writer into a growing byte
 * buffer that sorts keys by their UTF-8 bytes and escapes strings byte by byte.
 */
module CanonicalRs {
  import opened Basics
  import opened LexOrder
  import opened Sorting
  import opened TextSets
  import opened Utf8
  import opened JsonValue
  import opened JsonText
  import opened Canonical
  import JsonRoundTrip

  // ------------------------------------------------- strings, byte by byte

  /** The escape of one byte of a UTF-8 string; bytes above ASCII pass unchanged. */
  function EscapeByte(b: Byte): Bytes {
    EscapeCode(b)
  }

  function EscapeBytes(bs: Bytes): Bytes {
    if bs == [] then [] else EscapeByte(bs[0]) + EscapeBytes(bs[1..])
  }

  lemma {:induction false} EscapeBytesAppend(a: Bytes, b: Bytes)
    ensures EscapeBytes(a + b) == EscapeBytes(a) + EscapeBytes(b)
  {
    hide EscapeByte;
    if a == [] {
      assert a + b == b;
    } else {
      assert (a + b)[1..] == a[1..] + b;
      EscapeBytesAppend(a[1..], b);
    }
  }

  lemma EscapeBytesEmpty(bs: Bytes)
    requires bs == []
    ensures EscapeBytes(bs) == []
  {}

  lemma EscapeBytesSnoc(bs: Bytes, i: nat)
    requires i < |bs|
    ensures EscapeBytes(bs[..i+1]) == EscapeBytes(bs[..i]) + EscapeByte(bs[i])
  {
    hide EscapeByte;
    assert bs[..i+1] == bs[..i] + [bs[i]];
    EscapeBytesAppend(bs[..i], [bs[i]]);
    assert [bs[i]][1..] == [];
  }

  lemma {:induction false} HighBytesPass(bs: Bytes)
    requires forall i :: 0 <= i < |bs| ==> bs[i] >= 0x80
    ensures EscapeBytes(bs) == bs
  {
    if bs != [] {
      HighBytesPass(bs[1..]);
      assert bs == [bs[0]] + bs[1..];
    }
  }

  lemma EscapeOneCode(c: Code)
    ensures EscapeBytes(EncodeCode(c)) == Encode(EscapeCode(c))
  {
    if c < 0x80 {
      assert [c][1..] == [];
      EncodeAscii(EscapeCode(c));
    } else {
      HighBytesPass(EncodeCode(c));
      EncodeOne(c);
    }
  }

  /** Escaping the bytes of a string is encoding its escaped characters. */
  lemma {:induction false} EscapeCommutes(s: Text)
    ensures EscapeBytes(Encode(s)) == Encode(Escape(s))
  {
    hide EscapeByte, EscapeCode, EncodeCode;
    if s != [] {
      EscapeBytesAppend(EncodeCode(s[0]), Encode(s[1..]));
      EscapeOneCode(s[0]);
      EscapeCommutes(s[1..]);
      EncodeAppend(EscapeCode(s[0]), Escape(s[1..]));
    }
  }

  lemma QuoteBytes(s: Text)
    ensures Encode(Quote(s)) == [0x22] + EscapeBytes(Encode(s)) + [0x22]
  {
    EscapeCommutes(s);
    EncodeAppend([0x22] + Escape(s), [0x22]);
    EncodeAppend([0x22], Escape(s));
    EncodeOne(0x22);
  }

  // ---------------------------------------------------------- sorted keys

  /** `sort_unstable` on `&String`: the bytes decide. */
  function ByUtf8(): (Text, Text) -> bool {
    (a: Text, b: Text) => LexLess(Encode(a), Encode(b))
  }

  function Keys(ms: seq<Member>): (ks: seq<Text>)
    ensures |ks| == |ms| && forall i :: 0 <= i < |ms| ==> ks[i] == ms[i].key
  {
    seq(|ms|, i requires 0 <= i < |ms| => ms[i].key)
  }

  /** Position of a key in an object. */
  function IndexOf(ms: seq<Member>, k: Text): (i: nat)
    requires HasKey(ms, k)
    ensures i < |ms| && ms[i].key == k
  {
    if ms[0].key == k then 0
    else
      assert HasKey(ms[1..], k) by {
        var j :| 0 <= j < |ms| && ms[j].key == k;
        assert ms[1..][j-1].key == k;
      }
      1 + IndexOf(ms[1..], k)
  }

  /** The byte-sorted keys of an object are the keys of its normal form, in order. */
  lemma SortedKeys(ms: seq<Member>)
    requires DistinctKeys(ms)
    ensures Sort(ByUtf8(), Keys(ms)) == Keys(Normal(Obj(ms)).members)
  {
    var ks, r := Keys(ms), Normal(Obj(ms)).members;
    forall a, b ensures ByUtf8()(a, b) == ByText()(a, b) { EncodePreservesOrder(a, b); }
    SortAgree(ByUtf8(), ByText(), ks);
    var less := ByText();
    var s := Sort(less, ks);
    TextOrder(Elements(ks));
    SortIncreasing(less, Elements(ks), ks);
    SortElements(less, ks);
    SortedMembers(ms);
    SameKeysAsSorted(ms);
    forall k ensures k in s <==> k in Keys(r) {
      if k in ks { assert HasKey(ms, k); }
      if k in Keys(r) { assert HasKey(r, k); }
      if HasKey(ms, k) { var i :| 0 <= i < |ms| && ms[i].key == k; assert ks[i] == k; }
      if HasKey(r, k) { var i :| 0 <= i < |r| && r[i].key == k; assert Keys(r)[i] == k; }
    }
    forall i, j | 0 <= i < j < |r| ensures less(Keys(r)[i], Keys(r)[j]) {
      assert ByKey(CodePoints)(r[i], r[j]);
    }
    forall i | 0 <= i < |s| ensures s[i] in Elements(ks) { assert s[i] in s; }
    forall i | 0 <= i < |r| ensures Keys(r)[i] in Elements(ks) { assert Keys(r)[i] in s; }
    SortedUnique(less, Elements(ks), s, Keys(r));
  }

  /** The value under the `i`-th sorted key is the normal form of the value looked up. */
  lemma SortedLookup(ms: seq<Member>, i: nat)
    requires DistinctKeys(ms) && i < |ms|
    ensures var ks := Sort(ByUtf8(), Keys(ms));
      && |ks| == |ms| == |Normal(Obj(ms)).members| && HasKey(ms, ks[i])
      && Normal(Obj(ms)).members[i] == Member(ks[i], Normal(ms[IndexOf(ms, ks[i])].value))
  {
    var r := Normal(Obj(ms)).members;
    SortedKeys(ms);
    SortedMembers(ms);
    SameKeysAsSorted(ms);
    assert HasKey(r, r[i].key);
  }

  // ------------------------------------------- growing lists from the right

  lemma {:induction false} ItemsSnoc(xs: seq<JSON>, x: JSON)
    ensures CompactItems(xs + [x]) ==
            if xs == [] then Compact(x) else CompactItems(xs) + [0x2C] + Compact(x)
  {
    hide Compact;
    if |xs| >= 1 {
      assert (xs + [x])[1..] == xs[1..] + [x];
      ItemsSnoc(xs[1..], x);
      if |xs| > 1 {
        Assoc5(Compact(xs[0]), [0x2C], CompactItems(xs[1..]), [0x2C], Compact(x));
      }
    }
  }

  lemma {:induction false} MembersSnoc(ms: seq<Member>, m: Member)
    ensures CompactMembers(ms + [m]) ==
            if ms == [] then CompactMember(m) else CompactMembers(ms) + [0x2C] + CompactMember(m)
  {
    hide CompactMember;
    if |ms| >= 1 {
      assert (ms + [m])[1..] == ms[1..] + [m];
      MembersSnoc(ms[1..], m);
      if |ms| > 1 {
        Assoc5(CompactMember(ms[0]), [0x2C], CompactMembers(ms[1..]), [0x2C], CompactMember(m));
      }
    }
  }

  function ItemsBytes(xs: seq<JSON>): Bytes {
    Encode(CompactItems(xs))
  }

  function MembersBytes(ms: seq<Member>): Bytes {
    Encode(CompactMembers(ms))
  }

  lemma ItemsBytesSnoc(xs: seq<JSON>, x: JSON)
    ensures ItemsBytes(xs + [x]) == ItemsBytes(xs) + (if xs == [] then [] else [0x2C]) + Encode(Compact(x))
  {
    ItemsSnoc(xs, x);
    EncodeAppend(CompactItems(xs) + [0x2C], Compact(x));
    EncodeAppend(CompactItems(xs), [0x2C]);
    EncodeOne(0x2C);
  }

  lemma NoMembers(ms: seq<Member>)
    requires ms == []
    ensures MembersBytes(ms) == []
  {}

  lemma MembersBytesSnoc(ms: seq<Member>, m: Member)
    ensures MembersBytes(ms + [m]) ==
      MembersBytes(ms) + (if ms == [] then [] else [0x2C]) + Encode(Quote(m.key)) + [0x3A] + Encode(Compact(m.value))
  {
    hide Quote, Compact, CompactMembers, Encode;
    if ms == [] { NoMembers(ms); }
    MembersSnoc(ms, m);
    EncodeAppend(CompactMembers(ms) + [0x2C], CompactMember(m));
    EncodeAppend(CompactMembers(ms), [0x2C]);
    EncodeAppend(Quote(m.key) + [0x3A], Compact(m.value));
    EncodeAppend(Quote(m.key), [0x3A]);
    EncodeOne(0x2C);
    EncodeOne(0x3A);
  }

  lemma BracketBytes(open: Code, inner: Text, close: Code)
    requires open < 0x80 && close < 0x80
    ensures Encode([open] + inner + [close]) == [open] + Encode(inner) + [close]
  {
    EncodeAppend([open] + inner, [close]);
    EncodeAppend([open], inner);
    EncodeOne(open);
    EncodeOne(close);
  }

  // ----------------------------------------------------------- the writer

  /** `Vec<u8>`. */
  class Output {
    var bytes: Bytes

    constructor ()
      ensures bytes == []
    {
      bytes := [];
    }

    method Push(b: Byte)
      modifies this
      ensures bytes == old(bytes) + [b]
    {
      bytes := bytes + [b];
    }

    method Extend(bs: Bytes)
      modifies this
      ensures bytes == old(bytes) + bs
    {
      bytes := bytes + bs;
    }
  }

  /** `serde_json::to_writer` on a string. */
  method WriteString(s: Text, output: Output)
    modifies output
    ensures output.bytes == old(output.bytes) + Encode(Quote(s))
  {
    hide EscapeByte, EscapeBytes, Encode, Quote;
    var bs := Encode(s);
    output.Push(0x22);
    assert EscapeBytes(bs[..0]) == [] by { EscapeBytesEmpty(bs[..0]); }
    var i := 0;
    while i < |bs|
      invariant 0 <= i <= |bs|
      invariant output.bytes == old(output.bytes) + [0x22] + EscapeBytes(bs[..i])
    {
      EscapeBytesSnoc(bs, i);
      output.Extend(EscapeByte(bs[i]));
      i := i + 1;
    }
    assert bs[..|bs|] == bs;
    output.Push(0x22);
    QuoteBytes(s);
  }

  /** `write_value`: appends exactly the canonical bytes that the Python mirror computes. */
  method WriteValue(v: JSON, output: Output)
    requires Valid(v)
    modifies output
    ensures output.bytes == old(output.bytes) + CanonicalBytes(v)
    decreases v
  {
    hide Sort, Escape;
    match v
    case Null => EncodeAscii(T("null")); output.Extend(T("null"));
    case Bool(b) =>
      var w := if b then T("true") else T("false");
      EncodeAscii(w);
      output.Extend(w);
    case Int(n) =>
      IntegerIsAscii(n);
      output.Extend(Integer(n));
    case Str(s) => WriteString(s, output);
    case Arr(xs) => WriteArray(v, output);
    case Obj(ms) => WriteObject(v, output);
  }

  lemma IntegerIsAscii(n: int)
    ensures forall i :: 0 <= i < |Integer(n)| ==> Integer(n)[i] < 0x80
    ensures Encode(Integer(n)) == Integer(n)
  {
    JsonRoundTrip.NaturalDigits(if n < 0 then -n else n);
    EncodeAscii(Integer(n));
  }

  /** The array arm of `write_value`. */
  method WriteArray(v: JSON, output: Output)
    requires Valid(v) && v.Arr?
    modifies output
    ensures output.bytes == old(output.bytes) + CanonicalBytes(v)
    decreases v, 0
  {
    hide Compact, CompactItems, Encode;
    var xs := v.items;
    ghost var ns := Normal(v).items;
    output.Push(0x5B);
    ghost var start := output.bytes;
    ItemsBytesEmpty();
    var i := 0;
    while i < |xs|
      invariant 0 <= i <= |xs| == |ns|
      invariant output.bytes == start + ItemsBytes(ns[..i])
    {
      assert ns[..i+1] == ns[..i] + [ns[i]];
      ItemsBytesSnoc(ns[..i], ns[i]);
      if i != 0 {
        output.Push(0x2C);
      }
      WriteValue(xs[i], output);
      i := i + 1;
    }
    assert ns[..|xs|] == ns;
    output.Push(0x5D);
    ArrayBytes(v);
  }

  lemma ItemsBytesEmpty()
    ensures ItemsBytes([]) == []
  {}

  lemma ArrayBytes(v: JSON)
    requires v.Arr?
    ensures CanonicalBytes(v) == [0x5B] + ItemsBytes(Normal(v).items) + [0x5D]
  {
    BracketBytes(0x5B, CompactItems(Normal(v).items), 0x5D);
  }

  lemma ObjectBytes(v: JSON)
    requires v.Obj?
    ensures CanonicalBytes(v) == [0x7B] + MembersBytes(NormalMembers(v.members)) + [0x7D]
  {
    BracketBytes(0x7B, CompactMembers(Normal(v).members), 0x7D);
  }

  /** The sorted keys, as many as there are members. */
  function KeysInOrder(ms: seq<Member>): seq<Text> {
    Sort(ByUtf8(), Keys(ms))
  }

  function NormalMembers(ms: seq<Member>): seq<Member> {
    Normal(Obj(ms)).members
  }

  lemma KeysInOrderLength(ms: seq<Member>)
    requires DistinctKeys(ms)
    ensures |KeysInOrder(ms)| == |ms| == |NormalMembers(ms)|
  {
    SortElements(ByUtf8(), Keys(ms));
    SortedMembers(ms);
  }

  /** What one turn of the object loop appends. */
  lemma ObjectTurn(ms: seq<Member>, i: nat)
    requires DistinctKeys(ms) && i < |ms| && i < |NormalMembers(ms)| && i < |KeysInOrder(ms)|
    ensures HasKey(ms, KeysInOrder(ms)[i])
    ensures var k := KeysInOrder(ms)[i];
      MembersBytes(NormalMembers(ms)[..i+1]) ==
        MembersBytes(NormalMembers(ms)[..i]) + (if i == 0 then [] else [0x2C]) + Encode(Quote(k)) + [0x3A]
        + CanonicalBytes(ms[IndexOf(ms, k)].value)
  {
    hide MembersBytes, Encode, Quote, Compact, Sort, IndexOf, SortKeys, Keys;
    var ns := NormalMembers(ms);
    SortedLookup(ms, i);
    assert ns[..i+1] == ns[..i] + [ns[i]];
    MembersBytesSnoc(ns[..i], ns[i]);
  }

  /** The object arm of `write_value`: keys collected, sorted by bytes, values looked up. */
  method WriteObject(v: JSON, output: Output)
    requires Valid(v) && v.Obj?
    modifies output
    ensures output.bytes == old(output.bytes) + CanonicalBytes(v)
    decreases v, 0
  {
    hide KeysInOrder, NormalMembers, MembersBytes, CanonicalBytes, Encode, Quote;
    var ms := v.members;
    ghost var ns := NormalMembers(ms);
    output.Push(0x7B);
    ghost var start := output.bytes;
    var keys := KeysInOrder(ms);
    KeysInOrderLength(ms);
    NoMembers(ns[..0]);
    var i := 0;
    while i < |keys|
      invariant 0 <= i <= |keys| == |ms| == |ns|
      invariant output.bytes == start + MembersBytes(ns[..i])
    {
      ObjectTurn(ms, i);
      if i != 0 {
        output.Push(0x2C);
      }
      WriteString(keys[i], output);
      output.Push(0x3A);
      WriteValue(ms[IndexOf(ms, keys[i])].value, output);
      i := i + 1;
    }
    assert ns[..|keys|] == ns;
    output.Push(0x7D);
    ObjectBytes(v);
  }
}
