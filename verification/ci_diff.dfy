/**
 * `parse_name_status`: the records of `git diff --name-status -z -M`. Proved to be the
 * exact inverse of the NUL-terminated record printer.
 */
module CiDiff {
  import opened Basics
  import opened Utf8

  /** A status and its one or two paths. */
  datatype Record = Record(status: Text, paths: seq<Text>)

  // ------------------------------------------------------------ the format

  /** How many paths follow a status; none when the status is unknown. */
  function Width(status: seq<int>): (w: nat)
    ensures w <= 2
  {
    if |status| == 1 && status[0] in {0x41, 0x4D, 0x44, 0x54} then 1
    else if 2 <= |status| <= 4 && status[0] in {0x52, 0x43}
            && forall i :: 1 <= i < |status| ==> IsDigit(status[i]) then 2
    else 0
  }

  /** Neither empty nor absolute, and without NUL. */
  predicate Relative(p: Text) {
    p != [] && p[0] != 0x2F && forall i :: 0 <= i < |p| ==> p[i] != 0
  }

  predicate ValidPath(p: Text) {
    Relative(p) && Encodable(p)
  }

  predicate ValidRecord(r: Record) {
    Width(r.status) != 0 && |r.paths| == Width(r.status) && forall i :: 0 <= i < |r.paths| ==> ValidPath(r.paths[i])
  }

  predicate ValidRecords(rs: seq<Record>) {
    forall i :: 0 <= i < |rs| ==> ValidRecord(rs[i])
  }

  /** The NUL-terminated fields, printed. */
  function PrintFields(fs: seq<Bytes>): Bytes {
    if fs == [] then [] else fs[0] + [0] + PrintFields(fs[1..])
  }

  function PathFields(ps: seq<Text>): (fs: seq<Bytes>)
    ensures |fs| == |ps| && forall i :: 0 <= i < |ps| ==> fs[i] == Encode(ps[i])
  {
    seq(|ps|, i requires 0 <= i < |ps| => Encode(ps[i]))
  }

  function FieldsOf(r: Record): seq<Bytes> {
    [Encode(r.status)] + PathFields(r.paths)
  }

  function Fields(rs: seq<Record>): seq<Bytes> {
    if rs == [] then [] else FieldsOf(rs[0]) + Fields(rs[1..])
  }

  function Print(rs: seq<Record>): Bytes {
    PrintFields(Fields(rs))
  }

  /** The statuses, by name: one path for added, modified, deleted and retyped files. */
  lemma WidthLaw(status: Text)
    ensures Width(status) == 1 <==> status in [T("A"), T("M"), T("D"), T("T")]
    ensures Width(status) == 2 <==>
      && 2 <= |status| <= 4 && (status[0] == T("R")[0] || status[0] == T("C")[0])
      && forall i :: 1 <= i < |status| ==> status[i] in T("0123456789")
  {
    var a, m, d, t := T("A"), T("M"), T("D"), T("T");
    assert a == [0x41] && m == [0x4D] && d == [0x44] && t == [0x54];
    assert T("R")[0] == 0x52 && T("C")[0] == 0x43;
    if |status| == 1 { assert status == [status[0]]; }
    forall c: Code ensures IsDigit(c) <==> c in T("0123456789") { DigitCharacter(c); }
  }

  lemma DigitCharacter(c: Code)
    ensures IsDigit(c) <==> c in T("0123456789")
  {
    if IsDigit(c) { assert T("0123456789")[c - 48] == c; }
  }

  /** A path of a record: not empty, not absolute, no NUL, and text. */
  lemma ValidPathLaw(p: Text)
    ensures ValidPath(p) <==>
      p != [] && p[0] != T("/")[0] && 0 !in p && forall i :: 0 <= i < |p| ==> p[i] < 0xD800 || p[i] >= 0xE000
  {}

  /** The bytes of one record: the status, then its paths, each closed by a zero byte. */
  lemma RecordPrintLaw(r: Record)
    ensures |r.paths| == 1 ==> Print([r]) == Encode(r.status) + [0] + Encode(r.paths[0]) + [0]
    ensures |r.paths| == 2 ==>
      Print([r]) == Encode(r.status) + [0] + Encode(r.paths[0]) + [0] + Encode(r.paths[1]) + [0]
  {
    hide Encode;
    var none: seq<Record> := [];
    assert [r][1..] == none;
    assert Fields([r]) == FieldsOf(r) + [] == FieldsOf(r);
    if |r.paths| == 1 {
      assert FieldsOf(r) == [Encode(r.status), Encode(r.paths[0])];
      TwoFields(Encode(r.status), Encode(r.paths[0]));
    } else if |r.paths| == 2 {
      assert FieldsOf(r) == [Encode(r.status), Encode(r.paths[0]), Encode(r.paths[1])];
      ThreeFields(Encode(r.status), Encode(r.paths[0]), Encode(r.paths[1]));
    }
  }

  lemma OneField(f: Bytes)
    ensures PrintFields([f]) == f + [0]
  {
    var none: seq<Bytes> := [];
    assert [f][1..] == none;
  }

  lemma TwoFields(f: Bytes, g: Bytes)
    ensures PrintFields([f, g]) == f + [0] + g + [0]
  {
    OneField(g);
    assert [f, g][1..] == [g];
    Assoc(f + [0], g, [0]);
  }

  lemma ThreeFields(f: Bytes, g: Bytes, h: Bytes)
    ensures PrintFields([f, g, h]) == f + [0] + g + [0] + h + [0]
  {
    TwoFields(g, h);
    assert [f, g, h][1..] == [g, h];
  }

  /** Records are printed one after the other. */
  lemma {:induction false} PrintAppend(rs: seq<Record>, qs: seq<Record>)
    ensures Print(rs + qs) == Print(rs) + Print(qs)
  {
    FieldsAppend(rs, qs);
    PrintFieldsAppend(Fields(rs), Fields(qs));
  }

  lemma {:induction false} FieldsAppend(rs: seq<Record>, qs: seq<Record>)
    ensures Fields(rs + qs) == Fields(rs) + Fields(qs)
  {
    hide FieldsOf;
    if rs == [] {
      assert rs + qs == qs;
    } else {
      assert (rs + qs)[1..] == rs[1..] + qs;
      FieldsAppend(rs[1..], qs);
      Assoc(FieldsOf(rs[0]), Fields(rs[1..]), Fields(qs));
    }
  }

  lemma {:induction false} PrintFieldsAppend(fs: seq<Bytes>, gs: seq<Bytes>)
    ensures PrintFields(fs + gs) == PrintFields(fs) + PrintFields(gs)
  {
    if fs == [] {
      assert fs + gs == gs;
    } else {
      assert (fs + gs)[1..] == fs[1..] + gs;
      PrintFieldsAppend(fs[1..], gs);
      Assoc(fs[0] + [0], PrintFields(fs[1..]), PrintFields(gs));
    }
  }

  // ------------------------------------------------------------- the parser

  /** `payload.split(b"\0")`. */
  function SplitNul(b: Bytes): (fs: seq<Bytes>)
    ensures fs != []
  {
    if b == [] then [[]]
    else
      var rest := SplitNul(b[1..]);
      if b[0] == 0 then [[]] + rest else [[b[0]] + rest[0]] + rest[1..]
  }

  /** `str.decode("ascii")`. */
  function DecodeAscii(b: Bytes): Option<Text> {
    if forall i :: 0 <= i < |b| ==> b[i] < 0x80 then Some(b) else None
  }

  function DecodePaths(fs: seq<Bytes>): Option<seq<Text>> {
    if fs == [] then Some([])
    else
      match (Decode(fs[0]), DecodePaths(fs[1..]))
      case (Some(p), Some(ps)) => Some([p] + ps)
      case _ => None
  }

  /** One record at the head of the fields, as one turn of the loop takes it. */
  function ParseOne(fs: seq<Bytes>): (r: Option<Record>)
    requires fs != []
    ensures r.Some? ==> |r.value.paths| == Width(r.value.status) != 0 && 1 + |r.value.paths| <= |fs|
  {
    match DecodeAscii(fs[0])
    case None => None
    case Some(status) =>
      var width := Width(status);
      if width == 0 || 1 + width > |fs| then None
      else
        match DecodePaths(fs[1..1 + width])
        case None => None
        case Some(paths) =>
          DecodePathsExact(fs[1..1 + width], paths);
          PathCount(paths);
          if forall i :: 0 <= i < |paths| ==> Relative(paths[i]) then Some(Record(status, paths)) else None
  }

  function ParseFields(fs: seq<Bytes>): Option<seq<Record>>
    decreases |fs|
  {
    if fs == [] then Some([])
    else
      match ParseOne(fs)
      case None => None
      case Some(r) =>
        match ParseFields(fs[1 + |r.paths|..])
        case None => None
        case Some(rs) => Some([r] + rs)
  }

  function Parse(payload: Bytes): Option<seq<Record>> {
    var fs := SplitNul(payload);
    if fs[|fs| - 1] != [] then None else ParseFields(fs[..|fs| - 1])
  }

  /** The cursor loop. */
  method ParseNameStatus(payload: Bytes) returns (r: Option<seq<Record>>)
    ensures r == Parse(payload)
  {
    hide ParseOne;
    var fields := SplitNul(payload);
    if fields[|fields| - 1] != [] {
      return None;
    }
    fields := fields[..|fields| - 1];
    var records := [];
    var cursor := 0;
    assert fields[0..] == fields;
    assert match ParseFields(fields) case None => true case Some(rs) => records + rs == rs;
    while cursor < |fields|
      invariant 0 <= cursor <= |fields|
      invariant ParseFields(fields) ==
        match ParseFields(fields[cursor..]) case None => None case Some(rs) => Some(records + rs)
      decreases |fields| - cursor
    {
      var one := ParseOne(fields[cursor..]);
      if one.None? {
        return None;
      }
      var width := |one.value.paths|;
      ghost var rest := ParseFields(fields[cursor..][1 + width..]);
      assert fields[cursor..][1 + width..] == fields[cursor + 1 + width..];
      if rest.Some? { Assoc(records, [one.value], rest.value); }
      records := records + [one.value];
      cursor := cursor + 1 + width;
    }
    assert fields[cursor..] == [];
    assert records + [] == records;
    return Some(records);
  }

  // ---------------------------------------------------- both are inverses

  ghost predicate NulFree(b: Bytes) {
    forall i :: 0 <= i < |b| ==> b[i] != 0
  }

  lemma {:induction false} SplitPrints(b: Bytes)
    ensures var fs := SplitNul(b);
      && PrintFields(fs[..|fs| - 1]) + fs[|fs| - 1] == b
      && forall i :: 0 <= i < |fs| ==> NulFree(fs[i])
  {
    hide NulFree;
    var fs := SplitNul(b);
    if b != [] {
      SplitPrints(b[1..]);
      var rest := SplitNul(b[1..]);
      assert b == [b[0]] + b[1..];
      if b[0] == 0 {
        SplitAtNul(b, rest);
      } else {
        SplitInField(b, rest);
      }
    } else {
      assert fs[..0] == [] && NulFree([]) by { NulFreeStep(1, []); }
    }
  }

  lemma NulFreeStep(c: Byte, b: Bytes)
    ensures NulFree([])
    ensures c != 0 && NulFree(b) ==> NulFree([c] + b)
  {}

  ghost predicate Splits(b: Bytes, fs: seq<Bytes>) {
    fs != [] && PrintFields(fs[..|fs| - 1]) + fs[|fs| - 1] == b && forall i :: 0 <= i < |fs| ==> NulFree(fs[i])
  }

  lemma SplitAtNul(b: Bytes, rest: seq<Bytes>)
    requires b != [] && b[0] == 0 && Splits(b[1..], rest)
    ensures Splits(b, [[]] + rest)
  {
    hide NulFree;
    NulFreeStep(1, []);
    var fs := [[]] + rest;
    var init := rest[..|rest| - 1];
    assert fs[..|fs| - 1] == [[]] + init;
    assert ([[]] + init)[1..] == init;
    assert PrintFields([[]] + init) == [0] + PrintFields(init);
    Assoc([0], PrintFields(init), rest[|rest| - 1]);
    assert b == [b[0]] + b[1..];
  }

  lemma SplitInField(b: Bytes, rest: seq<Bytes>)
    requires b != [] && b[0] != 0 && Splits(b[1..], rest)
    ensures Splits(b, [[b[0]] + rest[0]] + rest[1..])
  {
    hide NulFree;
    var fs := [[b[0]] + rest[0]] + rest[1..];
    NulFreeStep(b[0], rest[0]);
    assert b == [b[0]] + b[1..];
    var last := rest[|rest| - 1];
    if |rest| == 1 {
      assert fs[..0] == [] && rest[..0] == [];
    } else {
      var init := rest[..|rest| - 1];
      assert fs[..|fs| - 1] == [[b[0]] + init[0]] + init[1..];
      assert ([[b[0]] + init[0]] + init[1..])[1..] == init[1..];
      assert fs[|fs| - 1] == last;
      Assoc5([b[0]], init[0], [0], PrintFields(init[1..]), last);
      Assoc4(init[0], [0], PrintFields(init[1..]), last);
    }
  }

  lemma NulFreeHead(a: Bytes, r: Bytes, b: Bytes, s: Bytes)
    requires NulFree(a) && NulFree(b) && a + [0] + r == b + [0] + s
    ensures a == b && r == s
  {
    var x, y := a + [0] + r, b + [0] + s;
    assert x[|a|] == 0 && y[|b|] == 0;
    assert forall i :: 0 <= i < |a| ==> x[i] == a[i];
    assert forall i :: 0 <= i < |b| ==> y[i] == b[i];
    assert |a| == |b|;
    assert x[..|a|] == a && y[..|a|] == b;
    assert x[|a| + 1..] == r && y[|a| + 1..] == s;
  }

  lemma PrintNonEmpty(fs: seq<Bytes>)
    ensures fs != [] ==> PrintFields(fs) != []
  {}

  /** NUL-free fields are recovered from their print. */
  lemma {:induction false} PrintFieldsInjective(fs: seq<Bytes>, gs: seq<Bytes>)
    requires forall i :: 0 <= i < |fs| ==> NulFree(fs[i])
    requires forall i :: 0 <= i < |gs| ==> NulFree(gs[i])
    requires PrintFields(fs) == PrintFields(gs)
    ensures fs == gs
  {
    if fs != [] && gs != [] {
      NulFreeHead(fs[0], PrintFields(fs[1..]), gs[0], PrintFields(gs[1..]));
      PrintFieldsInjective(fs[1..], gs[1..]);
      assert fs == [fs[0]] + fs[1..] && gs == [gs[0]] + gs[1..];
    } else {
      PrintNonEmpty(fs);
      PrintNonEmpty(gs);
    }
  }

  lemma {:induction false} EncodeNulFree(t: Text)
    requires forall i :: 0 <= i < |t| ==> t[i] != 0
    ensures NulFree(Encode(t))
  {
    if t != [] { EncodeNulFree(t[1..]); }
  }

  lemma {:induction false} FieldsNulFree(rs: seq<Record>)
    requires ValidRecords(rs)
    ensures forall i :: 0 <= i < |Fields(rs)| ==> NulFree(Fields(rs)[i])
  {
    hide Encode;
    if rs != [] {
      var r := rs[0];
      assert ValidRecord(r);
      EncodeNulFree(r.status);
      forall i | 0 <= i < |r.paths| ensures NulFree(Encode(r.paths[i])) { EncodeNulFree(r.paths[i]); }
      FieldsNulFree(rs[1..]);
    }
  }

  ghost predicate AllEncodable(ps: seq<Text>) {
    forall i :: 0 <= i < |ps| ==> Encodable(ps[i])
  }

  lemma AllEncodableStep(p: Text, ps: seq<Text>)
    ensures AllEncodable([p] + ps) <==> Encodable(p) && AllEncodable(ps)
  {
    hide Encodable;
    var qs := [p] + ps;
    assert qs[0] == p && qs[1..] == ps;
    if AllEncodable(qs) {
      forall i | 0 <= i < |ps| ensures Encodable(ps[i]) { assert qs[i+1] == ps[i]; }
    }
  }

  lemma PathFieldsStep(p: Text, ps: seq<Text>)
    ensures PathFields([p] + ps) == [Encode(p)] + PathFields(ps)
  {}

  lemma {:induction false} DecodePathsExact(fs: seq<Bytes>, ps: seq<Text>)
    ensures DecodePaths(fs) == Some(ps) <==> AllEncodable(ps) && PathFields(ps) == fs
  {
    hide Encode, Decode, Encodable, AllEncodable, PathFields;
    NoPaths();
    if fs == [] {
      PathCount(ps);
    } else if ps == [] {
      assert PathFields(ps) == [];
    } else {
      DecodeExact(fs[0], ps[0]);
      DecodePathsExact(fs[1..], ps[1..]);
      assert ps == [ps[0]] + ps[1..] && fs == [fs[0]] + fs[1..];
      AllEncodableStep(ps[0], ps[1..]);
      PathFieldsStep(ps[0], ps[1..]);
      SplitPair(Encode(ps[0]), PathFields(ps[1..]), fs[0], fs[1..]);
      if DecodePaths(fs) == Some(ps) {
        SplitPair(Decode(fs[0]).value, DecodePaths(fs[1..]).value, ps[0], ps[1..]);
      }
    }
  }

  lemma NoPaths()
    ensures AllEncodable([]) && PathFields([]) == []
  {}

  lemma PathCount(ps: seq<Text>)
    ensures |PathFields(ps)| == |ps|
  {}

  lemma AsciiFields(b: Bytes, t: Text)
    requires forall i :: 0 <= i < |t| ==> t[i] < 0x80
    ensures Encode(t) == b <==> DecodeAscii(b) == Some(t)
  {
    EncodeAscii(t);
  }

  lemma StatusIsAscii(status: Text)
    requires Width(status) != 0
    ensures forall i :: 0 <= i < |status| ==> status[i] < 0x80
  {}

  /** One turn of the loop accepts exactly the fields of one valid record. */
  lemma ParseOneExact(fs: seq<Bytes>, r: Record)
    requires fs != []
    ensures ParseOne(fs) == Some(r) <==>
      ValidRecord(r) && 1 + |r.paths| <= |fs| && FieldsOf(r) == fs[..1 + |r.paths|]
  {
    hide Encode, Width, Relative, Encodable, DecodePaths, DecodeAscii;
    var n := |r.paths|;
    if 1 + n <= |fs| {
      assert fs[..1 + n] == [fs[0]] + fs[1..1 + n];
      assert FieldsOf(r) == fs[..1 + n] <==> Encode(r.status) == fs[0] && PathFields(r.paths) == fs[1..1 + n] by {
        SplitPair(Encode(r.status), PathFields(r.paths), fs[0], fs[1..1 + n]);
      }
      DecodePathsExact(fs[1..1 + n], r.paths);
      PathCount(r.paths);
      if Width(r.status) != 0 {
        StatusIsAscii(r.status);
        AsciiFields(fs[0], r.status);
      }
    }
  }

  lemma SplitPair<X>(x: X, xs: seq<X>, y: X, ys: seq<X>)
    ensures [x] + xs == [y] + ys <==> x == y && xs == ys
  {
    assert ([x] + xs)[0] == x && ([y] + ys)[0] == y;
    assert ([x] + xs)[1..] == xs && ([y] + ys)[1..] == ys;
  }

  lemma {:induction false} ParseFieldsExact(fs: seq<Bytes>, rs: seq<Record>)
    ensures ParseFields(fs) == Some(rs) <==> ValidRecords(rs) && Fields(rs) == fs
    decreases |fs|
  {
    hide ParseOne, ValidRecord, FieldsOf;
    if fs == [] {
      assert rs != [] ==> |FieldsOf(rs[0])| > 0 by { if rs != [] { FieldsNonEmpty(rs[0]); } }
    } else {
      if ParseFields(fs) == Some(rs) {
        var r := ParseOne(fs).value;
        ParseOneExact(fs, r);
        ParseFieldsExact(fs[1 + |r.paths|..], rs[1..]);
        assert rs == [r] + rs[1..];
        assert fs == fs[..1 + |r.paths|] + fs[1 + |r.paths|..];
      }
      if ValidRecords(rs) && Fields(rs) == fs {
        var r := rs[0];
        FieldsNonEmpty(r);
        var n := 1 + |r.paths|;
        assert fs[..n] == FieldsOf(r) && fs[n..] == Fields(rs[1..]);
        ParseOneExact(fs, r);
        ParseFieldsExact(fs[n..], rs[1..]);
        assert rs == [r] + rs[1..];
      }
    }
  }

  lemma FieldsNonEmpty(r: Record)
    ensures |FieldsOf(r)| == 1 + |r.paths|
  {}

  /**
   * The parser accepts a payload exactly when it is the print of valid records, and then
   * returns those records: renames and copies with both their paths included.
   */
  lemma ParseExact(payload: Bytes, rs: seq<Record>)
    ensures Parse(payload) == Some(rs) <==> ValidRecords(rs) && payload == Print(rs)
  {
    hide ParseFields, SplitNul;
    var fs := SplitNul(payload);
    var init := fs[..|fs| - 1];
    SplitPrints(payload);
    ParseFieldsExact(init, rs);
    assert PrintFields(init) + [] == PrintFields(init);
    if ValidRecords(rs) && payload == Print(rs) {
      FieldsNulFree(rs);
      SplitOfPrint(Fields(rs));
    }
  }

  /** Splitting a print gives the fields back, and an empty piece at the end. */
  lemma SplitOfPrint(gs: seq<Bytes>)
    requires forall i :: 0 <= i < |gs| ==> NulFree(gs[i])
    ensures SplitNul(PrintFields(gs)) == gs + [[]]
  {
    hide SplitNul, PrintFields, NulFree;
    var b := PrintFields(gs);
    var fs := SplitNul(b);
    var init, last := fs[..|fs| - 1], fs[|fs| - 1];
    SplitPrints(b);
    EndsWithNul(gs);
    LastByte(PrintFields(init), last);
    if last != [] { NotNul(last, |last| - 1); }
    EndsWithNul(init);
    assert PrintFields(init) + [] == PrintFields(init);
    PrintFieldsInjective(init, gs);
    assert fs == init + [last];
  }

  lemma NotNul(b: Bytes, i: nat)
    requires NulFree(b) && i < |b|
    ensures b[i] != 0
  {}

  lemma LastByte(a: Bytes, last: Bytes)
    ensures last != [] ==> (a + last)[|a + last| - 1] == last[|last| - 1]
  {}

  lemma {:induction false} EndsWithNul(gs: seq<Bytes>)
    ensures gs == [] ==> PrintFields(gs) == []
    ensures gs != [] ==> |PrintFields(gs)| > 0 && PrintFields(gs)[|PrintFields(gs)| - 1] == 0
  {
    if gs != [] { EndsWithNul(gs[1..]); }
  }
}
