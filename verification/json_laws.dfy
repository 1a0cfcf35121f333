/**
 * Which of the many texts of a value is the canonical one, and what single characters look
 * like, in literals: the escapes that are written, the escapes that are read, punctuation,
 * and that no text of the same data is shorter than the canonical one.
 */
module JsonLaws {
  import opened Basics
  import opened Alphabets
  import opened Sorting
  import opened JsonValue
  import opened JsonText
  import opened JsonGrammar
  import opened Canonical
  import opened Framing
  import opened LexOrder

  const UPPER_HEX := T("0123456789ABCDEF")

  // -------------------------------------------------- escapes that are read

  function HexLetter(d: nat, upper: bool): Code
    requires d < 16
  {
    if upper then UPPER_HEX[d] else LOWER_HEX[d]
  }

  /** Backslash, `u` and the four hexadecimal digits of `n`, each in either case. */
  function CodeEscape(n: nat, a: bool, b: bool, c: bool, d: bool): Text
    requires n < 0x1_0000
  {
    T("\\u") + [HexLetter(n / 0x1000, a), HexLetter(n / 0x100 % 0x10, b), HexLetter(n / 0x10 % 0x10, c), HexLetter(n % 0x10, d)]
  }

  lemma CodeEscapeShape(n: nat, a: bool, b: bool, c: bool, d: bool)
    requires n < 0x1_0000
    ensures HexEscape(CodeEscape(n, a, b, c, d), n)
  {
    var p := CodeEscape(n, a, b, c, d);
    assert p[..2] == T("\\u");
  }

  /** A code escape stands for its code, whatever the case of its digits. */
  lemma CodeEscapeRead(n: Code, a: bool, b: bool, c: bool, d: bool, rest: Text)
    requires n < 0xD800 || 0xE000 <= n < 0x1_0000
    ensures ScanCode(CodeEscape(n, a, b, c, d) + rest) == Ok(n, rest)
  {
    hide HexEscape, CodeEscape, ScanCode;
    CodeEscapeShape(n, a, b, c, d);
    CodeSpelled(n, CodeEscape(n, a, b, c, d), rest);
  }

  /** The two code escapes of a surrogate pair. */
  function PairEscape(n: Code, upper: bool): Text
    requires n >= 0x1_0000
  {
    var h, l := 0xD800 + (n - 0x1_0000) / 0x400, 0xDC00 + (n - 0x1_0000) % 0x400;
    CodeEscape(h, upper, upper, upper, upper) + CodeEscape(l, upper, upper, upper, upper)
  }

  lemma PairEscapeShape(n: Code, upper: bool)
    requires n >= 0x1_0000
    ensures CharText(n, PairEscape(n, upper))
  {
    hide HexEscape, CodeEscape;
    var h, l := 0xD800 + (n - 0x1_0000) / 0x400, 0xDC00 + (n - 0x1_0000) % 0x400;
    var p, q := CodeEscape(h, upper, upper, upper, upper), CodeEscape(l, upper, upper, upper, upper);
    CodeEscapeShape(h, upper, upper, upper, upper);
    CodeEscapeShape(l, upper, upper, upper, upper);
    assert |p| == 6 by { HexLength(p, h); }
    assert (p + q)[..6] == p && (p + q)[6..] == q;
  }

  /** Two code escapes that form a surrogate pair stand for one character. */
  lemma PairEscapeRead(n: Code, upper: bool, rest: Text)
    requires n >= 0x1_0000
    ensures ScanCode(PairEscape(n, upper) + rest) == Ok(n, rest)
  {
    hide CharText, PairEscape, ScanCode;
    PairEscapeShape(n, upper);
    CodeSpelled(n, PairEscape(n, upper), rest);
  }

  /** The letters with a short escape, and what they stand for, position by position. */
  const SHORT := T("\"\\/bfnrt")
  const MEANT: Text := [0x22, 0x5C, 0x2F, 0x08, 0x0C, 0x0A, 0x0D, 0x09]

  lemma ShortLetters()
    ensures |SHORT| == |MEANT| == 8
    ensures SHORT == [0x22, 0x5C, 0x2F, 0x62, 0x66, 0x6E, 0x72, 0x74]
  {}

  /** A backslash and a letter other than `u`: the short escapes, and nothing else. */
  lemma ShortEscapeRead(x: Code, rest: Text)
    requires x != T("u")[0]
    ensures forall i :: 0 <= i < 8 && x == SHORT[i] ==> ScanCode([0x5C, x] + rest) == Ok(MEANT[i], rest)
    ensures x !in SHORT ==> ScanCode([0x5C, x] + rest).Fail?
  {
    ShortLetters();
    assert ([0x5C, x] + rest)[2..] == rest;
    assert forall i :: 0 <= i < 8 ==> SHORT[i] in SHORT;
    assert SHORT[0] == 0x22 && SHORT[1] == 0x5C && SHORT[2] == 0x2F && SHORT[3] == 0x62;
    assert SHORT[4] == 0x66 && SHORT[5] == 0x6E && SHORT[6] == 0x72 && SHORT[7] == 0x74;
  }

  // ----------------------------------------------- escapes that are written

  /** The writer escapes quotes, backslashes and control characters, and nothing else. */
  lemma EscapeLaw(c: Code)
    ensures c >= 0x20 && c != 0x22 && c != 0x5C ==> EscapeCode(c) == [c]
    ensures EscapeCode(0x22) == T("\\\"") && EscapeCode(0x5C) == T("\\\\") && EscapeCode(0x08) == T("\\b")
    ensures EscapeCode(0x0C) == T("\\f") && EscapeCode(0x0A) == T("\\n") && EscapeCode(0x0D) == T("\\r")
    ensures EscapeCode(0x09) == T("\\t")
    ensures c < 0x20 && c !in [0x08, 0x09, 0x0A, 0x0C, 0x0D] ==>
      EscapeCode(c) == T("\\u00") + [LOWER_HEX[c / 16], LOWER_HEX[c % 16]]
  {
    if c < 0x20 {
      HexLetterLaw(c / 16);
      HexLetterLaw(c % 16);
    }
  }

  /** Text without quote, backslash or control character is its own escape: paths stay as they are. */
  lemma {:induction false} PlainIsItself(s: Text)
    requires forall i :: 0 <= i < |s| ==> s[i] >= 0x20 && s[i] != 0x22 && s[i] != 0x5C
    ensures Escape(s) == s
  {
    if s != [] {
      PlainIsItself(s[1..]);
      assert s == [s[0]] + s[1..];
    }
  }

  // ---------------------------------------------------------- punctuation

  function ItemTexts(xs: seq<JSON>): (ts: seq<Text>)
    ensures |ts| == |xs| && forall i :: 0 <= i < |xs| ==> ts[i] == Compact(xs[i])
  {
    seq(|xs|, i requires 0 <= i < |xs| => Compact(xs[i]))
  }

  function MemberTexts(ms: seq<Member>): (ts: seq<Text>)
    ensures |ts| == |ms|
    ensures forall i :: 0 <= i < |ms| ==>
      ts[i] == T("\"") + Escape(ms[i].key) + T("\":") + Compact(ms[i].value)
  {
    seq(|ms|, i requires 0 <= i < |ms| => T("\"") + Escape(ms[i].key) + T("\":") + Compact(ms[i].value))
  }

  /** Brackets, braces, commas, colons and quotes of the written text. */
  lemma {:induction false} WrittenLaw(v: JSON)
    ensures v.Null? ==> Compact(v) == T("null")
    ensures v.Bool? ==> Compact(v) == if v.b then T("true") else T("false")
    ensures v.Str? ==> Compact(v) == T("\"") + Escape(v.s) + T("\"")
    ensures v.Arr? ==> Compact(v) == T("[") + Joined(T(","), ItemTexts(v.items)) + T("]")
    ensures v.Obj? ==> Compact(v) == T("{") + Joined(T(","), MemberTexts(v.members)) + T("}")
  {
    hide Escape, CompactItems, CompactMembers, Joined;
    assert T("\"") == [0x22] && T("[") == [0x5B] && T("]") == [0x5D] && T("{") == [0x7B] && T("}") == [0x7D];
    if v.Arr? { ItemsWritten(v.items); }
    if v.Obj? { MembersWritten(v.members); }
  }

  lemma {:induction false} ItemsWritten(xs: seq<JSON>)
    ensures CompactItems(xs) == Joined(T(","), ItemTexts(xs))
  {
    hide Compact;
    assert T(",") == [0x2C];
    if |xs| > 1 {
      ItemsWritten(xs[1..]);
      assert ItemTexts(xs)[1..] == ItemTexts(xs[1..]);
    }
  }

  lemma {:induction false} MembersWritten(ms: seq<Member>)
    ensures CompactMembers(ms) == Joined(T(","), MemberTexts(ms))
  {
    hide Compact, Escape;
    assert T(",") == [0x2C];
    if ms != [] { MemberWritten(ms[0]); }
    if |ms| > 1 {
      MembersWritten(ms[1..]);
      assert MemberTexts(ms)[1..] == MemberTexts(ms[1..]);
    }
  }

  lemma MemberWritten(m: Member)
    ensures CompactMember(m) == T("\"") + Escape(m.key) + T("\":") + Compact(m.value)
  {
    hide Compact, Escape;
    assert T("\"") == [0x22] && T("\":") == [0x22] + [0x3A];
    Assoc([0x22] + Escape(m.key), [0x22], [0x3A]);
  }

  /** An integer is written by its decimal digits, the only way but for a minus sign before zero. */
  lemma IntegerLaw(n: int, t: Text)
    ensures IntegerText(t, n) <==> t == Integer(n) || (n == 0 && t == T("-0"))
  {
    hide NaturalText, Natural;
    assert T("-") == [0x2D] && T("-0") == [0x2D, 0x30];
    if n >= 0 { NaturalOnly(t, n); }
    if n <= 0 && t != [] {
      NaturalOnly(t[1..], -n);
      if n == 0 { ZeroText(); }
      assert t == [t[0]] + t[1..];
    }
    if n < 0 { assert Integer(n)[1..] == Natural(-n); }
    if n == 0 && t == T("-0") { assert t[1..] == [0x30]; ZeroText(); }
  }

  lemma ZeroText()
    ensures Natural(0) == [0x30]
  {}

  lemma {:induction false} NaturalOnly(t: Text, n: nat)
    ensures NaturalText(t, n) <==> t == Natural(n)
    decreases |t|
  {
    forall d | 0 <= d < 10 ensures T("0123456789")[d] == 48 + d { DecimalDigit(d); }
    if |t| <= 1 {
      if n >= 10 { assert |Natural(n)| > 1; }
    } else {
      var init := t[..|t|-1];
      NaturalOnly(init, n / 10);
      assert t == init + [t[|t|-1]];
      if n >= 10 { assert Natural(n)[..|Natural(n)|-1] == Natural(n / 10); }
    }
  }

  // --------------------------------------------------------- key order

  /** Keys ascend: at the first difference the smaller code point, or the end, comes first. */
  lemma KeysAscend(ms: seq<Member>, i: nat, j: nat)
    requires Dict(Obj(ms)) && i < j < |ms|
    ensures var r := Normal(Obj(ms)).members; |r| == |ms| && Before(r[i].key, r[j].key)
  {
    hide Dict;
    KeysOf(ms);
    SortedMembers(ms);
    var r := Normal(Obj(ms)).members;
    assert r == Sort(ByKey(CodePoints), SortValues(CodePoints, ms)) by { NormalMembersAre(ms); }
    assert ByKey(CodePoints)(r[i], r[j]);
    LexMeaning(r[i].key, r[j].key);
  }

  lemma KeysOf(ms: seq<Member>)
    requires Dict(Obj(ms))
    ensures DistinctKeys(ms)
  {}

  lemma NormalMembersAre(ms: seq<Member>)
    ensures Normal(Obj(ms)) == Obj(Sort(ByKey(CodePoints), SortValues(CodePoints, ms)))
  {}

  // ------------------------------------------------- the shortest text

  lemma EscapeShortest(c: Code, p: Text)
    requires CharText(c, p)
    ensures 0 < |EscapeCode(c)| <= |p|
  {
    hide HexEscape;
    EscapeLaw(c);
    if HexEscape(p, c) { HexLength(p, c); }
  }

  lemma {:induction false} CharsShortest(cs: Text, s: Text, r: Text)
    requires Chars(cs, s, r)
    ensures |s| >= |Escape(cs)| + 1 + |r|
    decreases |cs|
  {
    hide CharText, EscapeCode;
    if cs != [] {
      var p: Text, m: Text :| CharText(cs[0], p) && s == p + m && Chars(cs[1..], m, r);
      EscapeShortest(cs[0], p);
      CharsShortest(cs[1..], m, r);
    }
  }

  lemma BlankGrows(s: Text, r: Text)
    requires Blank(s, r)
    ensures |s| >= |r|
  {
    var w: Text :| AllSpace(w) && s == w + r;
  }

  /** No text that spells a value is shorter than the one written for it. */
  lemma {:induction false} ValueShortest(v: JSON, s: Text, r: Text)
    requires Spells(v, s, r)
    ensures |s| >= |Compact(v)| + |r|
    decreases v, 0
  {
    hide Chars, Blank, Escape, IntegerText, Integer;
    match v
    case Null =>
    case Bool(_) =>
    case Int(n) =>
      var t: Text :| IntegerText(t, n) && s == t + r;
      IntegerLaw(n, t);
      if t != Integer(n) { assert |Integer(0)| == 1 by { ZeroShort(); } }
    case Str(cs) => CharsShortest(cs, s[1..], r);
    case Arr(xs) =>
      var m: Text :| Blank(s[1..], m) && (if xs == [] then m == [0x5D] + r else Items(xs, m, r));
      BlankGrows(s[1..], m);
      if xs != [] { ItemsShortest(xs, m, r); }
    case Obj(ms) =>
      var m: Text :| Blank(s[1..], m) && (if ms == [] then m == [0x7D] + r else Members(ms, m, r));
      BlankGrows(s[1..], m);
      if ms != [] { MembersShortest(ms, m, r); }
  }

  lemma ZeroShort()
    ensures |Integer(0)| == 1
  {}

  lemma {:induction false} ItemsShortest(xs: seq<JSON>, s: Text, r: Text)
    requires xs != [] && Items(xs, s, r)
    ensures |s| >= |CompactItems(xs)| + 1 + |r|
    decreases xs, 1
  {
    hide Spells, Blank, Compact;
    var m: Text, c: Text :| Spells(xs[0], s, m) && Blank(m, c) && ItemsAfter(xs, c, r);
    ValueShortest(xs[0], s, m);
    BlankGrows(m, c);
    if |xs| > 1 {
      var d: Text :| Blank(c[1..], d) && Items(xs[1..], d, r);
      BlankGrows(c[1..], d);
      ItemsShortest(xs[1..], d, r);
    }
  }

  lemma {:induction false} MembersShortest(ms: seq<Member>, s: Text, r: Text)
    requires ms != [] && Members(ms, s, r)
    ensures |s| >= |CompactMembers(ms)| + 1 + |r|
    decreases ms, 2
  {
    hide MemberText, Blank, CompactMember;
    var m: Text, c: Text :| MemberText(ms[0], s, m) && Blank(m, c) && MembersAfter(ms, c, r);
    MemberShortest(ms[0], s, m);
    BlankGrows(m, c);
    if |ms| > 1 {
      var d: Text :| Blank(c[1..], d) && Members(ms[1..], d, r);
      BlankGrows(c[1..], d);
      MembersShortest(ms[1..], d, r);
    }
  }

  lemma {:induction false} MemberShortest(m: Member, s: Text, r: Text)
    requires MemberText(m, s, r)
    ensures |s| >= |CompactMember(m)| + |r|
    decreases m, 1
  {
    hide Spells, Blank, Chars, Compact, Escape;
    var a: Text, b: Text, d: Text :|
      Quoted(m.key, s, a) && Blank(a, b) && b != [] && b[0] == 0x3A && Blank(b[1..], d) && Spells(m.value, d, r);
    CharsShortest(m.key, s[1..], a);
    BlankGrows(a, b);
    BlankGrows(b[1..], d);
    ValueShortest(m.value, d, r);
  }

  /** The lengths of the members, added up. */
  function Size(ms: seq<Member>): nat {
    if ms == [] then 0 else |CompactMember(ms[0])| + Size(ms[1..])
  }

  lemma {:induction false} MembersLength(ms: seq<Member>)
    ensures |CompactMembers(ms)| == Size(ms) + if ms == [] then 0 else |ms| - 1
  {
    hide CompactMember;
    if |ms| > 1 { MembersLength(ms[1..]); }
  }

  lemma {:induction false} InsertSize(less: (Member, Member) -> bool, x: Member, ms: seq<Member>)
    ensures Size(Insert(less, x, ms)) == |CompactMember(x)| + Size(ms)
  {
    hide CompactMember;
    if ms == [] || !less(ms[0], x) {
      assert ([x] + ms)[1..] == ms;
    } else {
      InsertSize(less, x, ms[1..]);
      assert Insert(less, x, ms)[1..] == Insert(less, x, ms[1..]);
    }
  }

  lemma {:induction false} SortSize(less: (Member, Member) -> bool, ms: seq<Member>)
    ensures Size(Sort(less, ms)) == Size(ms)
  {
    hide CompactMember, Insert;
    if ms != [] {
      SortSize(less, ms[1..]);
      InsertSize(less, ms[0], Sort(less, ms[1..]));
    }
  }

  /** Sorting keys changes no length. */
  lemma {:induction false} NormalLength(v: JSON)
    ensures |Compact(Normal(v))| == |Compact(v)|
  {
    hide Sort, Escape, Integer, CompactItems, CompactMembers;
    match v
    case Arr(xs) =>
      var ys := Normal(v).items;
      forall i | 0 <= i < |xs| ensures |Compact(ys[i])| == |Compact(xs[i])| { NormalLength(xs[i]); }
      ItemsLength(xs, ys);
    case Obj(ms) =>
      forall m | m in ms ensures |Compact(Normal(m.value))| == |Compact(m.value)| { NormalLength(m.value); }
      var a := SortValues(CodePoints, ms);
      SizeOfValues(ms, a);
      SortSize(ByKey(CodePoints), a);
      SortElements(ByKey(CodePoints), a);
      MembersLength(ms);
      MembersLength(Normal(v).members);
    case _ =>
  }

  lemma {:induction false} ItemsLength(xs: seq<JSON>, ys: seq<JSON>)
    requires |xs| == |ys| && forall i :: 0 <= i < |xs| ==> |Compact(ys[i])| == |Compact(xs[i])|
    ensures |CompactItems(ys)| == |CompactItems(xs)|
  {
    hide Compact;
    if |xs| > 1 { ItemsLength(xs[1..], ys[1..]); }
  }

  lemma {:induction false} SizeOfValues(ms: seq<Member>, ns: seq<Member>)
    requires |ms| == |ns|
    requires forall i :: 0 <= i < |ms| ==> ms[i].key == ns[i].key && |Compact(ns[i].value)| == |Compact(ms[i].value)|
    ensures Size(ns) == Size(ms)
  {
    hide Compact, Escape;
    if ms != [] { SizeOfValues(ms[1..], ns[1..]); }
  }

  /**
   * The canonical text is a shortest text of its data: whatever spells the same data, with
   * its members in any order, is at least as long.
   */
  lemma CanonicalShortest(v: JSON, w: JSON, t: Text)
    requires Dict(v) && Dict(w) && SameData(v, w) && TextOf(w, t)
    ensures |CanonicalText(v)| <= |t|
  {
    hide Spells, Blank, Compact, Dict, SameData;
    NormalExact(v, w);
    NormalLength(w);
    var a: Text, b: Text :| Blank(t, a) && Spells(w, a, b) && Blank(b, []);
    BlankGrows(t, a);
    ValueShortest(w, a, b);
  }

  /** In particular no text of the sorted value is shorter. */
  lemma SortedShortest(v: JSON, t: Text)
    requires Dict(v) && TextOf(Normal(v), t)
    ensures |CanonicalText(v)| <= |t|
  {
    SameAsNormal(v);
    NormalIsDict(v);
    CanonicalShortest(v, Normal(v), t);
  }
}
