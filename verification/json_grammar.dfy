/**
 * The grammar of RFC 8259 (sections 2 to 7) for integer data, written down without the
 * reader: which texts spell a value. The strict reader accepts exactly these texts.
 */
module JsonGrammar {
  import opened Basics
  import opened Utf8
  import opened JsonValue
  import opened JsonText
  import opened JsonRoundTrip

  // ------------------------------------------------------------- grammar

  /** Space, tab, line feed and carriage return. */
  predicate AllSpace(w: Text) {
    forall i :: 0 <= i < |w| ==> w[i] in T(" \t\n\r")
  }

  /** `s` is white space and then `r`. */
  ghost predicate Blank(s: Text, r: Text) {
    exists w: Text :: AllSpace(w) && s == w + r
  }

  /** Decimal digits, most significant first, without a leading zero. */
  predicate NaturalText(t: Text, n: nat)
    decreases |t|
  {
    if |t| <= 1 then n < 10 && t == [T("0123456789")[n]]
    else n >= 10 && t[|t|-1] == T("0123456789")[n % 10] && NaturalText(t[..|t|-1], n / 10)
  }

  /** An optional minus sign, then digits; no fraction, no exponent. */
  predicate IntegerText(t: Text, n: int) {
    || (n >= 0 && NaturalText(t, n))
    || (n <= 0 && t != [] && t[0] == T("-")[0] && NaturalText(t[1..], -n))
  }

  /** A hexadecimal digit, in either case. */
  predicate HexText(c: Code, d: nat) {
    d < 16 && (c == T("0123456789abcdef")[d] || c == T("0123456789ABCDEF")[d])
  }

  /** Backslash, `u` and four hexadecimal digits, most significant first. */
  predicate HexEscape(p: Text, n: nat) {
    && |p| == 6 && p[..2] == T("\\u") && n < 0x1_0000
    && HexText(p[2], n / 0x1000) && HexText(p[3], n / 0x100 % 0x10) && HexText(p[4], n / 0x10 % 0x10)
    && HexText(p[5], n % 0x10)
  }

  /** Backslash and a letter: the characters with a short escape. */
  predicate ShortEscape(p: Text, c: Code) {
    || (p == T("\\\"") && c == 0x22) || (p == T("\\\\") && c == 0x5C) || (p == T("\\/") && c == 0x2F)
    || (p == T("\\b") && c == 0x08) || (p == T("\\f") && c == 0x0C) || (p == T("\\n") && c == 0x0A)
    || (p == T("\\r") && c == 0x0D) || (p == T("\\t") && c == 0x09)
  }

  /** One character: as itself, by a short escape, by its code, or by its surrogate pair. */
  predicate CharText(c: Code, p: Text) {
    || (p == [c] && c >= 0x20 && c != 0x22 && c != 0x5C)
    || ShortEscape(p, c)
    || HexEscape(p, c)
    || (|p| == 12 && c >= 0x1_0000
        && HexEscape(p[..6], 0xD800 + (c - 0x1_0000) / 0x400) && HexEscape(p[6..], 0xDC00 + (c - 0x1_0000) % 0x400))
  }

  // --------------------------------------- the scanner in terms of the grammar

  lemma SpaceExactly(c: Code)
    ensures IsSpace(c) <==> c in T(" \t\n\r")
  {
    var w := T(" \t\n\r");
    assert w[0] == 0x20 && w[1] == 0x09 && w[2] == 0x0A && w[3] == 0x0D;
  }

  lemma AllSpaceSkips(w: Text, i: nat)
    requires AllSpace(w) && i < |w|
    ensures IsSpace(w[i])
  {
    SpaceExactly(w[i]);
  }

  lemma HexExactly(c: Code, d: nat)
    ensures HexValue(c) == Some(d) <==> HexText(c, d)
  {
    var l, u := T("0123456789abcdef"), T("0123456789ABCDEF");
    if d < 16 {
      assert l[d] == (if d < 10 then 48 + d else 87 + d) && u[d] == (if d < 10 then 48 + d else 55 + d);
    }
  }

  lemma FourDigits(s: Text, n: nat)
    ensures Hex4(s) == Some(n) <==>
      && |s| >= 4 && n < 0x1_0000
      && HexText(s[0], n / 0x1000) && HexText(s[1], n / 0x100 % 0x10) && HexText(s[2], n / 0x10 % 0x10)
      && HexText(s[3], n % 0x10)
  {
    hide HexText, HexValue;
    if |s| >= 4 {
      HexExactly(s[0], n / 0x1000);
      HexExactly(s[1], n / 0x100 % 0x10);
      HexExactly(s[2], n / 0x10 % 0x10);
      HexExactly(s[3], n % 0x10);
      if Hex4(s).Some? {
        HexBound(s[0]);
        HexBound(s[1]);
        HexBound(s[2]);
        HexBound(s[3]);
        Weights(HexValue(s[0]).value, HexValue(s[1]).value, HexValue(s[2]).value, HexValue(s[3]).value);
      }
      if n < 0x1_0000 { Weighed(n); }
    }
  }

  lemma Weighed(n: nat)
    ensures n == n / 0x1000 * 4096 + n / 0x100 % 0x10 * 256 + n / 0x10 % 0x10 * 16 + n % 0x10
  {
    assert n / 0x100 == n / 0x10 / 0x10 && n / 0x1000 == n / 0x100 / 0x10;
  }

  lemma HexBound(c: Code)
    ensures HexValue(c).Some? ==> HexValue(c).value < 16
  {}

  lemma Weights(a: nat, b: nat, c: nat, d: nat)
    requires a < 16 && b < 16 && c < 16 && d < 16
    ensures var n := a * 4096 + b * 256 + c * 16 + d;
      n / 0x1000 == a && n / 0x100 % 0x10 == b && n / 0x10 % 0x10 == c && n % 0x10 == d
  {
    var n := a * 4096 + b * 256 + c * 16 + d;
    var m := a * 256 + b * 16 + c;
    Digit(m, d);
    Digit(a * 16 + b, c);
    Digit(a, b);
    assert n / 0x100 == m / 0x10 && n / 0x1000 == (a * 16 + b) / 0x10;
  }

  lemma Digit(m: nat, d: nat)
    requires d < 16
    ensures (m * 16 + d) / 16 == m && (m * 16 + d) % 16 == d
  {}

  lemma EscapeRead(s: Text, n: nat)
    requires |s| >= 6
    ensures HexEscape(s[..6], n) <==> s[0] == 0x5C && s[1] == 0x75 && Hex4(s[2..]) == Some(n)
  {
    hide HexText, Hex4;
    FourDigits(s[2..], n);
    assert s[..6][..2] == [s[0], s[1]] && T("\\u") == [0x5C, 0x75];
  }

  lemma ShortExactly(x: Code, c: Code)
    ensures x != 0x75 && Simple(x) == Some(c) <==> ShortEscape([0x5C, x], c)
  {
    var q, b, s, e, f, n, r, t := T("\\\""), T("\\\\"), T("\\/"), T("\\b"), T("\\f"), T("\\n"), T("\\r"), T("\\t");
    assert q == [0x5C, 0x22] && b == [0x5C, 0x5C] && s == [0x5C, 0x2F] && e == [0x5C, 0x62] && f == [0x5C, 0x66];
    assert n == [0x5C, 0x6E] && r == [0x5C, 0x72] && t == [0x5C, 0x74];
  }

  /** `s` spells the characters, then a closing quote, then `r`. */
  ghost predicate Chars(cs: Text, s: Text, r: Text)
    decreases |cs|
  {
    if cs == [] then s == [0x22] + r
    else exists p: Text, m: Text :: CharText(cs[0], p) && s == p + m && Chars(cs[1..], m, r)
  }

  ghost predicate Quoted(cs: Text, s: Text, r: Text) {
    s != [] && s[0] == 0x22 && Chars(cs, s[1..], r)
  }

  /** `s` spells the value and then goes on with `r`. */
  ghost predicate Spells(v: JSON, s: Text, r: Text)
    decreases v, 0
  {
    match v
    case Null => s == T("null") + r
    case Bool(b) => s == (if b then T("true") else T("false")) + r
    case Int(n) => exists t: Text :: IntegerText(t, n) && s == t + r
    case Str(cs) => Quoted(cs, s, r)
    case Arr(xs) =>
      s != [] && s[0] == 0x5B && exists m: Text :: Blank(s[1..], m) && (if xs == [] then m == [0x5D] + r else Items(xs, m, r))
    case Obj(ms) =>
      s != [] && s[0] == 0x7B && exists m: Text :: Blank(s[1..], m) && (if ms == [] then m == [0x7D] + r else Members(ms, m, r))
  }

  /** Values between commas, then the closing bracket. */
  ghost predicate Items(xs: seq<JSON>, s: Text, r: Text)
    requires xs != []
    decreases xs, 1
  {
    exists m: Text, c: Text :: Spells(xs[0], s, m) && Blank(m, c) && ItemsAfter(xs, c, r)
  }

  ghost predicate ItemsAfter(xs: seq<JSON>, c: Text, r: Text)
    requires xs != []
    decreases xs, 0
  {
    if |xs| == 1 then c == [0x5D] + r
    else c != [] && c[0] == 0x2C && exists d: Text :: Blank(c[1..], d) && Items(xs[1..], d, r)
  }

  /** Members between commas, then the closing brace. */
  ghost predicate Members(ms: seq<Member>, s: Text, r: Text)
    requires ms != []
    decreases ms, 1
  {
    exists m: Text, c: Text :: MemberText(ms[0], s, m) && Blank(m, c) && MembersAfter(ms, c, r)
  }

  ghost predicate MembersAfter(ms: seq<Member>, c: Text, r: Text)
    requires ms != []
    decreases ms, 0
  {
    if |ms| == 1 then c == [0x7D] + r
    else c != [] && c[0] == 0x2C && exists d: Text :: Blank(c[1..], d) && Members(ms[1..], d, r)
  }

  /** A quoted key, a colon, a value. */
  ghost predicate MemberText(m: Member, s: Text, r: Text)
    decreases m, 1
  {
    exists a: Text, b: Text, d: Text ::
      Quoted(m.key, s, a) && Blank(a, b) && b != [] && b[0] == 0x3A && Blank(b[1..], d) && Spells(m.value, d, r)
  }

  /** A whole text of a value. */
  ghost predicate TextOf(v: JSON, t: Text) {
    exists a: Text, b: Text :: Blank(t, a) && Spells(v, a, b) && Blank(b, [])
  }

  // ------------------------------------------------- what is read is spelled

  lemma {:induction false} SkipIsBlank(s: Text)
    ensures Blank(s, SkipSpace(s))
  {
    if s != [] && IsSpace(s[0]) {
      SkipIsBlank(s[1..]);
      SpaceBefore(s, SkipSpace(s));
    } else {
      NoBlank(s);
    }
  }

  lemma NoBlank(s: Text)
    ensures Blank(s, s)
  {
    var w: Text := [];
    assert AllSpace(w) && s == w + s;
  }

  lemma SpaceBefore(s: Text, r: Text)
    requires s != [] && IsSpace(s[0]) && Blank(s[1..], r)
    ensures Blank(s, r)
  {
    var w: Text :| AllSpace(w) && s[1..] == w + r;
    var u: Text := [s[0]] + w;
    assert s == [s[0]] + s[1..];
    Assoc([s[0]], w, r);
    SpaceExactly(s[0]);
    assert AllSpace(u) && s == u + r;
  }

  lemma CodeRead(s: Text)
    requires ScanCode(s).Ok? && IsScalar(ScanCode(s).value)
    requires s != [] && s[0] != 0x22
    ensures var r := ScanCode(s); exists p: Text :: CharText(r.value, p) && s == p + r.rest
  {
    hide Hex4, Simple, HexEscape, ShortEscape;
    var r := ScanCode(s);
    var k := |s| - |r.rest|;
    var p := s[..k];
    assert s == p + r.rest;
    if s[0] == 0x5C && s[1] == 0x75 {
      var c := Hex4(s[2..]).value;
      EscapeRead(s, c);
      assert k == 12 ==> p[..6] == s[..6];
      if k == 12 {
        EscapeRead(s[6..], Hex4(s[8..]).value);
        assert s[6..][2..] == s[8..] && p[6..] == s[6..][..6];
        PairHalves(c, Hex4(s[8..]).value, r.value);
      }
    } else if s[0] == 0x5C {
      ShortExactly(s[1], r.value);
      assert p == [0x5C, s[1]];
    }
  }

  /** The halves of a surrogate pair, computed back from its code. */
  lemma PairHalves(h: nat, l: nat, c: nat)
    requires 0xD800 <= h < 0xDC00 && 0xDC00 <= l < 0xE000
    ensures c == 0x1_0000 + (h - 0xD800) * 0x400 + (l - 0xDC00) <==>
      c >= 0x1_0000 && h == 0xD800 + (c - 0x1_0000) / 0x400 && l == 0xDC00 + (c - 0x1_0000) % 0x400
  {}

  lemma {:induction false} NaturalExactly(t: Text, n: nat)
    ensures NaturalText(t, n) <==>
      t != [] && (forall i :: 0 <= i < |t| ==> IsDigit(t[i])) && (t[0] == 48 ==> |t| == 1) && DigitsValue(t) == n
    decreases |t|
  {
    forall d | 0 <= d < 10 ensures T("0123456789")[d] == 48 + d { DecimalDigit(d); }
    if |t| == 1 {
      assert t == [t[0]] && t[..0] == [];
      assert IsDigit(t[0]) ==> DigitsValue(t) == t[0] - 48;
    } else if |t| > 1 {
      var init, last := t[..|t|-1], t[|t|-1];
      NaturalExactly(init, n / 10);
      if forall i :: 0 <= i < |t| ==> IsDigit(t[i]) {
        assert DigitsValue(t) == 10 * DigitsValue(init) + (last - 48);
        if t[0] != 48 { NaturalExactly(init, 0); }
      }
      assert init[0] == t[0];
    }
  }

  lemma DecimalDigit(d: nat)
    requires d < 10
    ensures T("0123456789")[d] == 48 + d
  {}

  lemma CharsRead(s: Text)
    requires ScanString(s).Ok? && Encodable(ScanString(s).value)
    ensures Chars(ScanString(s).value, s, ScanString(s).rest)
    decreases |s|
  {
    hide ScanCode, CharText;
    var r := ScanString(s);
    if s[0] != 0x22 {
      var c := ScanCode(s);
      assert r.value == [c.value] + ScanString(c.rest).value;
      assert r.value[0] == c.value && r.value[1..] == ScanString(c.rest).value;
      CodeRead(s);
      var p: Text :| CharText(c.value, p) && s == p + c.rest;
      assert forall i :: 0 <= i < |r.value[1..]| ==> r.value[1..][i] == r.value[i + 1];
      CharsRead(c.rest);
      assert CharText(r.value[0], p) && s == p + c.rest && Chars(r.value[1..], c.rest, r.rest);
    } else {
      assert s == [0x22] + s[1..];
    }
  }

  lemma NaturalRead(s: Text)
    requires ScanNatural(s).Ok?
    ensures var r := ScanNatural(s); exists t: Text :: NaturalText(t, r.value) && s == t + r.rest
  {
    hide FloatTail;
    var k := if s[0] == 48 then 1 else DigitRun(s);
    var t := s[..k];
    assert s == t + s[k..];
    NaturalExactly(t, ScanNatural(s).value);
  }

  lemma NumberRead(s: Text)
    requires ScanNumber(s).Ok?
    ensures Spells(ScanNumber(s).value, s, ScanNumber(s).rest)
  {
    hide ScanNatural, NaturalText, StartsWith;
    if s != [] && s[0] == 0x2D {
      NaturalRead(s[1..]);
      var r := ScanNatural(s[1..]);
      var t: Text :| NaturalText(t, r.value) && s[1..] == t + r.rest;
      var u: Text := [0x2D] + t;
      assert u[1..] == t;
      assert s == u + r.rest;
      assert IntegerText(u, -(r.value as int));
    } else {
      NaturalRead(s);
      var r := ScanNatural(s);
      var t: Text :| NaturalText(t, r.value) && s == t + r.rest;
      assert IntegerText(t, r.value);
    }
  }

  lemma WordRead(s: Text, w: Text)
    requires StartsWith(s, w)
    ensures s == w + s[|w|..]
  {}

  lemma {:induction false} ValueRead(s: Text)
    requires ParseValue(s).Ok? && Encodables(ParseValue(s).value)
    ensures Spells(ParseValue(s).value, s, ParseValue(s).rest)
    decreases |s|, 1
  {
    hide ScanString, ScanNumber, SkipSpace, StartsWith, Blank, Chars, HasDuplicate;
    var r := ParseValue(s);
    if s[0] == 0x22 {
      CharsRead(s[1..]);
    } else if s[0] == 0x7B || s[0] == 0x5B {
      var m := SkipSpace(s[1..]);
      SkipIsBlank(s[1..]);
      if m != [] && m[0] == s[0] + 2 {
        assert m == [s[0] + 2] + r.rest;
      } else if s[0] == 0x7B {
        MembersRead(m);
      } else {
        ItemsRead(m);
      }
    } else if StartsWith(s, T("null")) {
      WordRead(s, T("null"));
    } else if StartsWith(s, T("true")) {
      WordRead(s, T("true"));
    } else if StartsWith(s, T("false")) {
      WordRead(s, T("false"));
    } else {
      NumberRead(s);
    }
  }

  lemma {:induction false} ItemsRead(s: Text)
    requires ParseItems(s).Ok? && forall i :: 0 <= i < |ParseItems(s).value| ==> Encodables(ParseItems(s).value[i])
    ensures ParseItems(s).value != [] && Items(ParseItems(s).value, s, ParseItems(s).rest)
    decreases |s|, 2
  {
    hide ParseValue, SkipSpace, Spells, Blank;
    var r, v := ParseItems(s), ParseValue(s);
    var c := SkipSpace(v.rest);
    SkipIsBlank(v.rest);
    assert r.value[0] == v.value;
    ValueRead(s);
    if c[0] == 0x5D {
      assert c == [0x5D] + r.rest;
    } else {
      var d := SkipSpace(c[1..]);
      SkipIsBlank(c[1..]);
      assert r.value[1..] == ParseItems(d).value;
      assert forall i :: 0 <= i < |r.value[1..]| ==> r.value[1..][i] == r.value[i + 1];
      ItemsRead(d);
    }
    assert ItemsAfter(r.value, c, r.rest);
  }

  lemma {:induction false} MembersRead(s: Text)
    requires ParseMembers(s).Ok?
    requires forall i :: 0 <= i < |ParseMembers(s).value| ==>
      Encodable(ParseMembers(s).value[i].key) && Encodables(ParseMembers(s).value[i].value)
    ensures ParseMembers(s).value != [] && Members(ParseMembers(s).value, s, ParseMembers(s).rest)
    decreases |s|, 2
  {
    hide ParseMember, SkipSpace, MemberText, Blank;
    var r, v := ParseMembers(s), ParseMember(s);
    var c := SkipSpace(v.rest);
    SkipIsBlank(v.rest);
    assert r.value[0] == v.value;
    MemberRead(s);
    if c[0] == 0x7D {
      assert c == [0x7D] + r.rest;
    } else {
      var d := SkipSpace(c[1..]);
      SkipIsBlank(c[1..]);
      assert r.value[1..] == ParseMembers(d).value;
      assert forall i :: 0 <= i < |r.value[1..]| ==> r.value[1..][i] == r.value[i + 1];
      MembersRead(d);
    }
    assert MembersAfter(r.value, c, r.rest);
  }

  lemma {:induction false} MemberRead(s: Text)
    requires ParseMember(s).Ok?
    requires Encodable(ParseMember(s).value.key) && Encodables(ParseMember(s).value.value)
    ensures MemberText(ParseMember(s).value, s, ParseMember(s).rest)
    decreases |s|, 1
  {
    hide ParseValue, ScanString, SkipSpace, Spells, Blank, Chars;
    var m := ParseMember(s).value;
    var k := ScanString(s[1..]);
    CharsRead(s[1..]);
    var b := SkipSpace(k.rest);
    SkipIsBlank(k.rest);
    var d := SkipSpace(b[1..]);
    SkipIsBlank(b[1..]);
    ValueRead(d);
    assert Quoted(m.key, s, k.rest);
  }

  // ------------------------------------------------- what is spelled is read

  /** White space in front of something else is skipped, all of it. */
  lemma {:induction false} BlankSkipped(s: Text, r: Text)
    requires Blank(s, r) && (r == [] || !IsSpace(r[0]))
    ensures SkipSpace(s) == r
    decreases |s|
  {
    var w: Text :| AllSpace(w) && s == w + r;
    if w == [] {
      assert s == r;
    } else {
      AllSpaceSkips(w, 0);
      assert s[0] == w[0] && s[1..] == w[1..] + r;
      assert AllSpace(w[1..]);
      BlankSkipped(s[1..], r);
    }
  }

  /** What follows a value in a text does not lengthen a number. */
  lemma BlankCloses(m: Text, c: Text)
    requires Blank(m, c) && Closed(c)
    ensures Closed(m)
  {
    var w: Text :| AllSpace(w) && m == w + c;
    if w == [] { assert m == c; } else { AllSpaceSkips(w, 0); assert m[0] == w[0]; }
  }

  lemma CodeSpelled(c: Code, p: Text, m: Text)
    requires CharText(c, p) && IsScalar(c)
    ensures ScanCode(p + m) == Ok(c, m) && p != [] && p[0] != 0x22
  {
    hide Hex4, Simple, HexEscape, ShortEscape;
    var s := p + m;
    if ShortEscape(p, c) {
      ShortShape(p, c);
      ShortExactly(p[1], c);
      assert p == [0x5C, p[1]] && s[1] == p[1] && s[2..] == m;
    } else if HexEscape(p, c) {
      HexLength(p, c);
      assert s[..6] == p && s[6..] == m;
      EscapeRead(s, c);
    } else if |p| == 12 {
      var h, l := 0xD800 + (c - 0x1_0000) / 0x400, 0xDC00 + (c - 0x1_0000) % 0x400;
      assert s[..6] == p[..6] && s[6..][..6] == p[6..] && s[6..][2..] == s[8..] && s[12..] == m;
      EscapeRead(s, h);
      EscapeRead(s[6..], l);
      assert s[6] == 0x5C && s[7] == 0x75;
      PairHalves(h, l, c);
    } else {
      assert s[0] == c && s[1..] == m;
    }
  }

  lemma HexLength(p: Text, n: nat)
    ensures HexEscape(p, n) ==> |p| == 6
  {}

  lemma ShortShape(p: Text, c: Code)
    requires ShortEscape(p, c)
    ensures |p| == 2 && p[0] == 0x5C && p[1] != 0x75
  {}

  lemma {:induction false} CharsSpelled(cs: Text, s: Text, r: Text)
    requires Chars(cs, s, r) && Encodable(cs)
    ensures ScanString(s) == Ok(cs, r)
    decreases |cs|
  {
    hide ScanCode, CharText;
    if cs != [] {
      var p: Text, m: Text :| CharText(cs[0], p) && s == p + m && Chars(cs[1..], m, r);
      CodeSpelled(cs[0], p, m);
      CharsSpelled(cs[1..], m, r);
      assert cs == [cs[0]] + cs[1..];
    }
  }

  lemma NaturalSpelled(t: Text, n: nat, r: Text)
    requires NaturalText(t, n) && Closed(r)
    ensures ScanNatural(t + r) == Ok(n, r)
  {
    hide DigitsValue, NaturalText;
    NaturalExactly(t, n);
    var s := t + r;
    assert s[0] == t[0] && s[..|t|] == t && s[|t|..] == r;
    DigitRunOf(t, r);
  }

  lemma NumberSpelled(n: int, s: Text, r: Text)
    requires Spells(Int(n), s, r) && Closed(r)
    ensures ParseValue(s) == Ok(Int(n), r)
  {
    hide ScanNatural, NaturalText, StartsWith, ParseMembers, ParseItems, ScanString;
    var t: Text :| IntegerText(t, n) && s == t + r;
    NumberHead(t, n);
    assert s[0] == t[0];
    NotAWord(s);
    ReadNumber(s);
    if n >= 0 && NaturalText(t, n) {
      NaturalSpelled(t, n, r);
      NaturalHead(t, n);
    } else {
      NaturalSpelled(t[1..], -n, r);
      assert s[1..] == t[1..] + r;
    }
  }

  lemma NaturalHead(t: Text, n: nat)
    requires NaturalText(t, n)
    ensures t != [] && IsDigit(t[0])
  {
    NaturalExactly(t, n);
  }

  lemma NumberHead(t: Text, n: int)
    requires IntegerText(t, n)
    ensures t != [] && (IsDigit(t[0]) || t[0] == 0x2D)
  {
    if n >= 0 && NaturalText(t, n) { NaturalHead(t, n); }
  }

  /** How the text of a value can begin. */
  lemma Head(v: JSON, s: Text, r: Text)
    requires Spells(v, s, r)
    ensures s != [] && !IsSpace(s[0]) && s[0] != 0x5D && s[0] != 0x7D
  {
    hide Blank, Chars, IntegerText, Items, Members;
    if v.Int? {
      var t: Text :| IntegerText(t, v.n) && s == t + r;
      NumberHead(t, v.n);
      assert s[0] == t[0];
    } else if v.Null? || v.Bool? {
      var w := if v.Null? then T("null") else if v.b then T("true") else T("false");
      assert s[0] == w[0];
    }
  }

  lemma WordSpelled(v: JSON, s: Text, r: Text)
    requires Spells(v, s, r) && (v.Null? || v.Bool?)
    ensures ParseValue(s) == Ok(v, r)
  {
    hide ParseValue;
    var w := if v.Null? then T("null") else if v.b then T("true") else T("false");
    ReadWord(w, r);
    if v.Bool? && v.b { assert T("true")[0] != T("null")[0]; }
    if v.Bool? && !v.b { assert |T("true")| != |T("false")| && |T("null")| != |T("false")|; }
  }

  lemma StringRead(cs: Text, s: Text, r: Text)
    requires s != [] && s[0] == 0x22 && ScanString(s[1..]) == Ok(cs, r)
    ensures ParseValue(s) == Ok(Str(cs), r)
  {
    hide ScanString;
  }

  lemma ArrayRead(xs: seq<JSON>, s: Text, m: Text, r: Text)
    requires s != [] && s[0] == 0x5B && m != [] && SkipSpace(s[1..]) == m
    requires if m[0] == 0x5D then xs == [] && m[1..] == r else ParseItems(m) == Ok(xs, r)
    ensures ParseValue(s) == Ok(Arr(xs), r)
  {
    hide ParseItems, SkipSpace;
  }

  lemma ObjectRead(ms: seq<Member>, s: Text, m: Text, r: Text)
    requires s != [] && s[0] == 0x7B && m != [] && SkipSpace(s[1..]) == m
    requires if m[0] == 0x7D then ms == [] && m[1..] == r else ParseMembers(m) == Ok(ms, r) && !HasDuplicate(ms)
    ensures ParseValue(s) == Ok(Obj(ms), r)
  {
    hide ParseMembers, SkipSpace, HasDuplicate;
  }

  lemma {:induction false} ValueSpelled(v: JSON, s: Text, r: Text)
    requires Dict(v) && Encodables(v) && Spells(v, s, r) && Closed(r)
    ensures ParseValue(s) == Ok(v, r)
    decreases v, 1
  {
    hide ScanString, Chars, ParseValue, Dict;
    match v
    case Null => WordSpelled(v, s, r);
    case Bool(_) => WordSpelled(v, s, r);
    case Int(n) => NumberSpelled(n, s, r);
    case Str(cs) =>
      CharsSpelled(cs, s[1..], r);
      StringRead(cs, s, r);
    case Arr(xs) => ArraySpelled(xs, v, s, r);
    case Obj(ms) => ObjectSpelled(ms, v, s, r);
  }

  lemma {:induction false} ArraySpelled(xs: seq<JSON>, v: JSON, s: Text, r: Text)
    requires v == Arr(xs) && Dict(v) && Encodables(v) && Spells(v, s, r)
    ensures ParseValue(s) == Ok(v, r)
    decreases v, 0
  {
    hide SkipSpace, Blank, ParseItems, ParseValue, Items;
    var m: Text :| Blank(s[1..], m) && (if xs == [] then m == [0x5D] + r else Items(xs, m, r));
    if xs != [] { ItemsSpelled(xs, m, r); }
    BlankSkipped(s[1..], m);
    assert xs == [] ==> m[1..] == r;
    ArrayRead(xs, s, m, r);
  }

  lemma {:induction false} ObjectSpelled(ms: seq<Member>, v: JSON, s: Text, r: Text)
    requires v == Obj(ms) && Dict(v) && Encodables(v) && Spells(v, s, r)
    ensures ParseValue(s) == Ok(v, r)
    decreases v, 0
  {
    hide SkipSpace, Blank, ParseMembers, ParseValue, HasDuplicate, Members;
    var m: Text :| Blank(s[1..], m) && (if ms == [] then m == [0x7D] + r else Members(ms, m, r));
    if ms != [] { MembersSpelled(ms, m, r); }
    BlankSkipped(s[1..], m);
    assert ms == [] ==> m[1..] == r;
    ObjectRead(ms, s, m, r);
  }

  lemma {:induction false} ItemsSpelled(xs: seq<JSON>, s: Text, r: Text)
    requires xs != [] && Items(xs, s, r)
    requires forall i :: 0 <= i < |xs| ==> Dict(xs[i]) && Encodables(xs[i])
    ensures ParseItems(s) == Ok(xs, r) && s != [] && !IsSpace(s[0]) && s[0] != 0x5D
    decreases xs, 1
  {
    hide ParseValue, SkipSpace, Spells, Blank, Dict, Encodables;
    var m: Text, c: Text :| Spells(xs[0], s, m) && Blank(m, c) && ItemsAfter(xs, c, r);
    Head(xs[0], s, m);
    assert c[0] == 0x5D || c[0] == 0x2C;
    BlankCloses(m, c);
    ValueSpelled(xs[0], s, m);
    BlankSkipped(m, c);
    if |xs| == 1 {
      assert xs == [xs[0]] && c[1..] == r;
    } else {
      var d: Text :| Blank(c[1..], d) && Items(xs[1..], d, r);
      ItemsSpelled(xs[1..], d, r);
      BlankSkipped(c[1..], d);
      assert xs == [xs[0]] + xs[1..];
    }
  }

  lemma {:induction false} MembersSpelled(ms: seq<Member>, s: Text, r: Text)
    requires ms != [] && Members(ms, s, r)
    requires forall i :: 0 <= i < |ms| ==> Dict(ms[i].value) && Encodable(ms[i].key) && Encodables(ms[i].value)
    ensures ParseMembers(s) == Ok(ms, r) && s != [] && s[0] == 0x22
    decreases ms, 2
  {
    hide ParseMember, SkipSpace, MemberText, Blank, Dict, Encodables, Encodable;
    var m: Text, c: Text :| MemberText(ms[0], s, m) && Blank(m, c) && MembersAfter(ms, c, r);
    assert c[0] == 0x7D || c[0] == 0x2C;
    BlankCloses(m, c);
    MemberSpelled(ms[0], s, m);
    BlankSkipped(m, c);
    if |ms| == 1 {
      assert ms == [ms[0]] && c[1..] == r;
    } else {
      var d: Text :| Blank(c[1..], d) && Members(ms[1..], d, r);
      MembersSpelled(ms[1..], d, r);
      BlankSkipped(c[1..], d);
      assert ms == [ms[0]] + ms[1..];
    }
  }

  lemma {:induction false} MemberSpelled(m: Member, s: Text, r: Text)
    requires MemberText(m, s, r) && Closed(r)
    requires Dict(m.value) && Encodable(m.key) && Encodables(m.value)
    ensures ParseMember(s) == Ok(m, r) && s != [] && s[0] == 0x22
    decreases m, 1
  {
    hide ParseValue, ScanString, SkipSpace, Spells, Blank, Chars, Dict, Encodables, Encodable;
    var a: Text, b: Text, d: Text :|
      Quoted(m.key, s, a) && Blank(a, b) && b != [] && b[0] == 0x3A && Blank(b[1..], d) && Spells(m.value, d, r);
    CharsSpelled(m.key, s[1..], a);
    BlankSkipped(a, b);
    Head(m.value, d, r);
    BlankSkipped(b[1..], d);
    ValueSpelled(m.value, d, r);
  }

  // --------------------------------------------------------------- exactly

  /**
   * The strict reader returns a value exactly for the texts that spell it, provided the
   * value is integer data with distinct keys and without unpaired surrogates.
   */
  lemma LoadsExactly(t: Text, v: JSON)
    ensures Loads(t) == Value(v) <==> Valid(v) && TextOf(v, t)
  {
    hide ParseValue, SkipSpace, Spells, Dict, Encodables, Blank;
    if Loads(t) == Value(v) {
      var a := SkipSpace(t);
      var b := ParseValue(a).rest;
      SkipIsBlank(t);
      ValueRead(a);
      SkipIsBlank(b);
    }
    if Valid(v) && TextOf(v, t) {
      var a: Text, b: Text :| Blank(t, a) && Spells(v, a, b) && Blank(b, []);
      Head(v, a, b);
      BlankSkipped(t, a);
      BlankCloses(b, []);
      ValueSpelled(v, a, b);
      BlankSkipped(b, []);
    }
  }

  /** A text spells at most one value. */
  lemma Unambiguous(t: Text, v: JSON, w: JSON)
    requires Valid(v) && Valid(w) && TextOf(v, t) && TextOf(w, t)
    ensures v == w
  {
    LoadsExactly(t, v);
    LoadsExactly(t, w);
  }
}
