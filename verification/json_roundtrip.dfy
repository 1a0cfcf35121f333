/** The reader inverts the writer: the parse of a printed value, in any context. */
module JsonRoundTrip {
  import opened Basics
  import opened JsonValue
  import opened JsonText

  // ---------------------------------------------------------------- strings

  lemma EscapeScans(c: Code, rest: Text)
    ensures ScanCode(EscapeCode(c) + rest) == Ok(c, rest)
    ensures EscapeCode(c)[0] != 0x22
  {
    var e := EscapeCode(c);
    var s := e + rest;
    assert forall i :: 0 <= i < |e| ==> s[i] == e[i];
    assert s[|e|..] == rest;
    if c < 0x20 && |e| == 6 {
      assert s[2..][0] == 48 && s[2..][1] == 48;
      assert s[2..][2] == HexDigit(c / 16) && s[2..][3] == HexDigit(c % 16);
      assert Hex4(s[2..]) == Some(c);
    }
  }

  lemma {:induction false} EscapeRoundTrip(t: Text, rest: Text)
    ensures ScanString(Escape(t) + [0x22] + rest) == Ok(t, rest)
  {
    hide ScanCode, EscapeCode;
    var s := Escape(t) + [0x22] + rest;
    if t == [] {
      assert s == [0x22] + rest;
      DropHead(0x22, rest);
    } else {
      var tail := Escape(t[1..]) + [0x22] + rest;
      Assoc4(EscapeCode(t[0]), Escape(t[1..]), [0x22], rest);
      EscapeScans(t[0], tail);
      EscapeRoundTrip(t[1..], rest);
      assert t == [t[0]] + t[1..];
    }
  }

  // ---------------------------------------------------------------- numbers

  lemma {:induction false} NaturalDigits(n: nat)
    ensures forall i :: 0 <= i < |Natural(n)| ==> IsDigit(Natural(n)[i])
    ensures DigitsValue(Natural(n)) == n
    ensures Natural(n)[0] == 48 ==> n == 0
  {
    if n >= 10 {
      NaturalDigits(n / 10);
      var t := Natural(n);
      assert t[..|t|-1] == Natural(n / 10);
    } else {
      assert Natural(n)[..0] == [];
    }
  }

  /** What may follow a number: nothing that could lengthen it. */
  predicate Closed(s: Text) {
    s == [] || !(IsDigit(s[0]) || s[0] == 0x2E || s[0] == 0x65 || s[0] == 0x45)
  }

  lemma {:induction false} DigitRunOf(d: Text, rest: Text)
    requires forall i :: 0 <= i < |d| ==> IsDigit(d[i])
    requires Closed(rest)
    ensures DigitRun(d + rest) == |d|
  {
    if d == [] {
      assert d + rest == rest;
    } else {
      assert (d + rest)[1..] == d[1..] + rest;
      DigitRunOf(d[1..], rest);
    }
  }

  lemma NaturalRoundTrip(n: nat, rest: Text)
    requires Closed(rest)
    ensures ScanNatural(Natural(n) + rest) == Ok(n, rest)
  {
    var d := Natural(n);
    var s := d + rest;
    NaturalDigits(n);
    DigitRunOf(d, rest);
    assert s[0] == d[0];
    if d[0] == 48 {
      assert n == 0 && d == [48];
    }
    assert s[..|d|] == d && s[|d|..] == rest;
  }

  lemma ReadNumber(s: Text)
    requires s != [] && (IsDigit(s[0]) || s[0] == 0x2D)
    ensures ParseValue(s) == ScanNumber(s)
  {
    hide ScanNumber;
    NotAWord(s);
  }

  lemma IntegerRoundTrip(n: int, rest: Text)
    requires Closed(rest)
    ensures ParseValue(Integer(n) + rest) == Ok(Int(n), rest)
  {
    hide ParseValue, ScanNatural, Natural;
    NaturalDigits(if n < 0 then -n else n);
    if n < 0 {
      Assoc([0x2D], Natural(-n), rest);
      DropHead(0x2D, Natural(-n) + rest);
      NaturalRoundTrip(-n, rest);
    } else {
      NaturalRoundTrip(n, rest);
    }
    ReadNumber(Integer(n) + rest);
  }

  /** A text starting with a digit or a minus sign is none of the three words. */
  lemma NotAWord(s: Text)
    requires s != [] && s[0] < 0x5B
    ensures !StartsWith(s, T("null")) && !StartsWith(s, T("true")) && !StartsWith(s, T("false"))
  {}

  // ----------------------------------------------------------------- values

  /** The first character of a printed value: never white space, never a closing bracket. */
  lemma CompactHead(v: JSON)
    ensures Compact(v) != [] && !IsSpace(Compact(v)[0])
    ensures Compact(v)[0] != 0x5D && Compact(v)[0] != 0x7D
  {
    if v.Int? {
      NaturalDigits(if v.n < 0 then -v.n else v.n);
    }
  }

  // One lemma per grammar rule: what the reader does with the text of one construct,
  // given what it does with the parts.

  lemma ReadArray(inner: Text)
    requires inner != [] && !IsSpace(inner[0]) && inner[0] != 0x5D
    requires ParseItems(inner).Ok?
    ensures ParseValue([0x5B] + inner) == Ok(Arr(ParseItems(inner).value), ParseItems(inner).rest)
  {}

  lemma ReadObject(inner: Text)
    requires inner != [] && inner[0] == 0x22
    requires ParseMembers(inner).Ok? && DistinctKeys(ParseMembers(inner).value)
    ensures ParseValue([0x7B] + inner) == Ok(Obj(ParseMembers(inner).value), ParseMembers(inner).rest)
  {}

  lemma ReadEmpty(rest: Text)
    ensures ParseValue([0x5B, 0x5D] + rest) == Ok(Arr([]), rest)
    ensures ParseValue([0x7B, 0x7D] + rest) == Ok(Obj([]), rest)
  {}

  lemma ReadItem(s: Text, v: JSON, rest: Text)
    requires ParseValue(s) == Ok(v, [0x5D] + rest)
    ensures ParseItems(s) == Ok([v], rest)
  {}

  lemma ReadItems(s: Text, v: JSON, tail: Text)
    requires ParseValue(s) == Ok(v, [0x2C] + tail)
    requires tail != [] && !IsSpace(tail[0]) && ParseItems(tail).Ok?
    ensures ParseItems(s) == Ok([v] + ParseItems(tail).value, ParseItems(tail).rest)
  {}

  lemma ReadMember(s: Text, m: Member, rest: Text)
    requires ParseMember(s) == Ok(m, [0x7D] + rest)
    ensures ParseMembers(s) == Ok([m], rest)
  {}

  lemma ReadMembers(s: Text, m: Member, tail: Text)
    requires ParseMember(s) == Ok(m, [0x2C] + tail)
    requires tail != [] && tail[0] == 0x22 && ParseMembers(tail).Ok?
    ensures ParseMembers(s) == Ok([m] + ParseMembers(tail).value, ParseMembers(tail).rest)
  {
    assert ([0x2C] + tail)[1..] == tail;
  }

  lemma ReadString(t: Text, rest: Text)
    ensures ParseValue(Quote(t) + rest) == Ok(Str(t), rest)
  {
    hide Escape, ScanString, ScanNumber, ParseItems, ParseMembers, SkipSpace;
    EscapeRoundTrip(t, rest);
    assert (Quote(t) + rest)[1..] == Escape(t) + [0x22] + rest;
  }

  lemma ReadWord(w: Text, rest: Text)
    requires w == T("null") || w == T("true") || w == T("false")
    ensures ParseValue(w + rest) == Ok(if w == T("null") then Null else Bool(w == T("true")), rest)
  {}

  lemma {:induction false} ValueRoundTrip(v: JSON, rest: Text)
    requires Dict(v) && Closed(rest)
    ensures ParseValue(Compact(v) + rest) == Ok(v, rest)
    decreases v, 0
  {
    hide ParseValue, ParseItems, ParseMember, ParseMembers;
    match v
    case Null => ReadWord(T("null"), rest);
    case Bool(b) =>
      assert T("true")[0] != T("false")[0] && T("null")[0] != T("true")[0] && T("null")[0] != T("false")[0];
      ReadWord(if b then T("true") else T("false"), rest);
    case Int(n) => IntegerRoundTrip(n, rest);
    case Str(t) => ReadString(t, rest);
    case Arr(xs) =>
      if xs == [] {
        ReadEmpty(rest);
        assert Compact(v) == [0x5B, 0x5D];
      } else {
        var inner := CompactItems(xs) + [0x5D] + rest;
        assert Compact(v) + rest == [0x5B] + inner;
        ItemsRoundTrip(xs, rest);
        ReadArray(inner);
      }
    case Obj(ms) =>
      if ms == [] {
        ReadEmpty(rest);
        assert Compact(v) == [0x7B, 0x7D];
      } else {
        var inner := CompactMembers(ms) + [0x7D] + rest;
        assert Compact(v) + rest == [0x7B] + inner;
        MembersRoundTrip(ms, rest);
        ReadObject(inner);
      }
  }

  lemma ItemsText(xs: seq<JSON>, rest: Text)
    requires xs != []
    ensures |xs| == 1 ==> CompactItems(xs) + [0x5D] + rest == Compact(xs[0]) + ([0x5D] + rest)
    ensures |xs| > 1 ==>
      CompactItems(xs) + [0x5D] + rest == Compact(xs[0]) + ([0x2C] + (CompactItems(xs[1..]) + [0x5D] + rest))
  {
    hide Compact;
    if |xs| == 1 {
      Assoc(Compact(xs[0]), [0x5D], rest);
    } else {
      Assoc5(Compact(xs[0]), [0x2C], CompactItems(xs[1..]), [0x5D], rest);
    }
  }

  lemma {:induction false} ItemsRoundTrip(xs: seq<JSON>, rest: Text)
    requires xs != [] && forall i :: 0 <= i < |xs| ==> Dict(xs[i])
    ensures var s := CompactItems(xs) + [0x5D] + rest;
      ParseItems(s) == Ok(xs, rest) && !IsSpace(s[0]) && s[0] != 0x5D
    decreases xs, 1
  {
    hide ParseValue, ParseItems, ParseMember, ParseMembers;
    hide Compact, CompactItems;
    var s := CompactItems(xs) + [0x5D] + rest;
    CompactHead(xs[0]);
    ItemsText(xs, rest);
    if |xs| == 1 {
      ValueRoundTrip(xs[0], [0x5D] + rest);
      ReadItem(s, xs[0], rest);
      assert xs == [xs[0]];
    } else {
      var tail := CompactItems(xs[1..]) + [0x5D] + rest;
      ValueRoundTrip(xs[0], [0x2C] + tail);
      ItemsRoundTrip(xs[1..], rest);
      ReadItems(s, xs[0], tail);
      assert xs == [xs[0]] + xs[1..];
    }
  }

  lemma MemberText(m: Member, rest: Text)
    ensures CompactMember(m) + rest == [0x22] + (Escape(m.key) + [0x22] + ([0x3A] + (Compact(m.value) + rest)))
  {}

  lemma ReadKeyed(inner: Text, k: Text, value: Text)
    requires ScanString(inner) == Ok(k, [0x3A] + value)
    requires value != [] && !IsSpace(value[0]) && ParseValue(value).Ok?
    ensures ParseMember([0x22] + inner) == Ok(Member(k, ParseValue(value).value), ParseValue(value).rest)
  {
    hide ParseValue;
    DropHead(0x22, inner);
    DropHead(0x3A, value);
  }

  lemma {:induction false} MemberRoundTrip(m: Member, rest: Text)
    requires Dict(m.value) && Closed(rest)
    ensures ParseMember(CompactMember(m) + rest) == Ok(m, rest)
    decreases m, 1
  {
    hide ParseValue, ParseMember, Compact, CompactMember, ScanString;
    var value := Compact(m.value) + rest;
    MemberText(m, rest);
    EscapeRoundTrip(m.key, [0x3A] + value);
    CompactHead(m.value);
    ValueRoundTrip(m.value, rest);
    ReadKeyed(Escape(m.key) + [0x22] + ([0x3A] + value), m.key, value);
  }

  lemma MembersText(ms: seq<Member>, rest: Text)
    requires ms != []
    ensures |ms| == 1 ==> CompactMembers(ms) + [0x7D] + rest == CompactMember(ms[0]) + ([0x7D] + rest)
    ensures |ms| > 1 ==>
      CompactMembers(ms) + [0x7D] + rest
      == CompactMember(ms[0]) + ([0x2C] + (CompactMembers(ms[1..]) + [0x7D] + rest))
  {
    hide CompactMember;
    if |ms| == 1 {
      Assoc(CompactMember(ms[0]), [0x7D], rest);
    } else {
      Assoc5(CompactMember(ms[0]), [0x2C], CompactMembers(ms[1..]), [0x7D], rest);
    }
  }

  lemma MemberHead(m: Member)
    ensures CompactMember(m) != [] && CompactMember(m)[0] == 0x22
  {}

  lemma {:induction false} MembersRoundTrip(ms: seq<Member>, rest: Text)
    requires ms != [] && forall i :: 0 <= i < |ms| ==> Dict(ms[i].value)
    ensures var s := CompactMembers(ms) + [0x7D] + rest;
      ParseMembers(s) == Ok(ms, rest) && s[0] == 0x22
    decreases ms, 2
  {
    hide ParseMember, ParseMembers, CompactMember, CompactMembers;
    var s := CompactMembers(ms) + [0x7D] + rest;
    MemberHead(ms[0]);
    MembersText(ms, rest);
    if |ms| == 1 {
      MemberRoundTrip(ms[0], [0x7D] + rest);
      ReadMember(s, ms[0], rest);
      assert ms == [ms[0]];
    } else {
      var tail := CompactMembers(ms[1..]) + [0x7D] + rest;
      MemberRoundTrip(ms[0], [0x2C] + tail);
      MembersRoundTrip(ms[1..], rest);
      ReadMembers(s, ms[0], tail);
      assert ms == [ms[0]] + ms[1..];
    }
  }
}
