/**
 * The compact writer behind `json.dumps(sort_keys=True, separators=(",", ":"),
 * ensure_ascii=False)` and the strict reader `loads_integer_json`, with the grammar
 * of RFC 8259 (sections 2 to 7) as Python's scanner reads it.
 */
module JsonText {
  import opened Basics
  import opened Utf8
  import opened JsonValue

  // ---------------------------------------------------------------- writing

  function Natural(n: nat): (t: Text)
    ensures |t| >= 1
  {
    if n < 10 then [48 + n] else Natural(n / 10) + [48 + n % 10]
  }

  function Integer(n: int): Text {
    if n < 0 then [0x2D] + Natural(-n) else Natural(n)
  }

  /** One character inside quotes (RFC 8259 section 7; the shortest escape wins). */
  function EscapeCode(c: Code): Text {
    if c == 0x22 || c == 0x5C then [0x5C, c]
    else if c == 0x08 then T("\\b")
    else if c == 0x0C then T("\\f")
    else if c == 0x0A then T("\\n")
    else if c == 0x0D then T("\\r")
    else if c == 0x09 then T("\\t")
    else if c < 0x20 then T("\\u00") + [HexDigit(c / 16), HexDigit(c % 16)]
    else [c]
  }

  function Escape(s: Text): Text {
    if s == [] then [] else EscapeCode(s[0]) + Escape(s[1..])
  }

  function Quote(s: Text): Text {
    [0x22] + Escape(s) + [0x22]
  }

  /** The compact text of a value, members in the order they stand. */
  function Compact(v: JSON): Text {
    match v
    case Null => T("null")
    case Bool(b) => if b then T("true") else T("false")
    case Int(n) => Integer(n)
    case Str(s) => Quote(s)
    case Arr(xs) => [0x5B] + CompactItems(xs) + [0x5D]
    case Obj(ms) => [0x7B] + CompactMembers(ms) + [0x7D]
  }

  function CompactItems(xs: seq<JSON>): Text {
    if xs == [] then []
    else if |xs| == 1 then Compact(xs[0])
    else Compact(xs[0]) + [0x2C] + CompactItems(xs[1..])
  }

  function CompactMembers(ms: seq<Member>): Text {
    if ms == [] then []
    else if |ms| == 1 then CompactMember(ms[0])
    else CompactMember(ms[0]) + [0x2C] + CompactMembers(ms[1..])
  }

  function CompactMember(m: Member): Text {
    Quote(m.key) + [0x3A] + Compact(m.value)
  }

  // ---------------------------------------------------------------- reading

  datatype Refusal = NotUtf8 | BadJson | NonInteger | DuplicateKey | UnpairedSurrogate

  datatype Parsed<+V> = Ok(value: V, rest: Text) | Fail(refusal: Refusal)

  predicate IsSpace(c: Code) {
    c == 0x20 || c == 0x09 || c == 0x0A || c == 0x0D
  }

  function SkipSpace(s: Text): (r: Text)
    ensures |r| <= |s|
  {
    if s != [] && IsSpace(s[0]) then SkipSpace(s[1..]) else s
  }

  function HexValue(c: Code): Option<nat> {
    if IsDigit(c) then Some(c - 48)
    else if 97 <= c < 103 then Some(c - 87)
    else if 65 <= c < 71 then Some(c - 55)
    else None
  }

  /** Four hexadecimal digits at the head of `s`. */
  function Hex4(s: Text): (r: Option<nat>)
    ensures r.Some? ==> |s| >= 4 && r.value < 0x1_0000
  {
    if |s| < 4 || HexValue(s[0]).None? || HexValue(s[1]).None? || HexValue(s[2]).None? || HexValue(s[3]).None?
    then None
    else Some(HexValue(s[0]).value * 4096 + HexValue(s[1]).value * 256
              + HexValue(s[2]).value * 16 + HexValue(s[3]).value)
  }

  function Simple(c: Code): Option<Code> {
    if c == 0x22 || c == 0x5C || c == 0x2F then Some(c)
    else if c == 0x62 then Some(0x08)
    else if c == 0x66 then Some(0x0C)
    else if c == 0x6E then Some(0x0A)
    else if c == 0x72 then Some(0x0D)
    else if c == 0x74 then Some(0x09)
    else None
  }

  /** One character of a string body; a high surrogate escape joins a low one after it. */
  function ScanCode(s: Text): (r: Parsed<Code>)
    ensures r.Ok? ==> |r.rest| < |s|
  {
    if s == [] || s[0] < 0x20 then Fail(BadJson)
    else if s[0] != 0x5C then Ok(s[0], s[1..])
    else if |s| < 2 then Fail(BadJson)
    else if s[1] != 0x75 then
      match Simple(s[1])
      case Some(c) => Ok(c, s[2..])
      case None => Fail(BadJson)
    else
      match Hex4(s[2..])
      case None => Fail(BadJson)
      case Some(c) =>
        if 0xD800 <= c < 0xDC00 && |s| >= 8 && s[6] == 0x5C && s[7] == 0x75 then
          match Hex4(s[8..])
          case None => Fail(BadJson)
          case Some(d) =>
            if 0xDC00 <= d < 0xE000
            then Ok(0x1_0000 + (c - 0xD800) * 0x400 + (d - 0xDC00), s[12..])
            else Ok(c, s[6..])
        else Ok(c, s[6..])
  }

  /** The rest of a string, after its opening quote. */
  function ScanString(s: Text): (r: Parsed<Text>)
    ensures r.Ok? ==> |r.rest| < |s|
    decreases |s|
  {
    if s != [] && s[0] == 0x22 then Ok([], s[1..])
    else
      match ScanCode(s)
      case Fail(e) => Fail(e)
      case Ok(c, r) =>
        match ScanString(r)
        case Fail(e) => Fail(e)
        case Ok(t, r') => Ok([c] + t, r')
  }

  function DigitRun(s: Text): (k: nat)
    ensures k <= |s| && (forall i :: 0 <= i < k ==> IsDigit(s[i])) && (k == |s| || !IsDigit(s[k]))
  {
    if s == [] || !IsDigit(s[0]) then 0 else 1 + DigitRun(s[1..])
  }

  function DigitsValue(s: Text): nat
    requires forall i :: 0 <= i < |s| ==> IsDigit(s[i])
  {
    if s == [] then 0
    else
      assert IsDigit(s[|s|-1]);
      DigitsValue(s[..|s|-1]) * 10 + (s[|s|-1] as int - 48)
  }

  /** A fraction or an exponent follows: the number is a float, which the reader refuses. */
  predicate FloatTail(s: Text) {
    || (|s| >= 2 && s[0] == 0x2E && IsDigit(s[1]))
    || (|s| >= 2 && (s[0] == 0x65 || s[0] == 0x45)
        && (IsDigit(s[1]) || (|s| >= 3 && (s[1] == 0x2B || s[1] == 0x2D) && IsDigit(s[2]))))
  }

  function ScanNatural(s: Text): (r: Parsed<nat>)
    ensures r.Ok? ==> |r.rest| < |s|
  {
    if s == [] || !IsDigit(s[0]) then Fail(BadJson)
    else
      var k := if s[0] == 48 then 1 else DigitRun(s);
      if FloatTail(s[k..]) then Fail(NonInteger) else Ok(DigitsValue(s[..k]), s[k..])
  }

  function ScanNumber(s: Text): (r: Parsed<JSON>)
    ensures r.Ok? ==> |r.rest| < |s| && r.value.Int?
  {
    if s != [] && s[0] == 0x2D then
      match ScanNatural(s[1..])
      case Ok(n, r) => Ok(Int(-(n as int)), r)
      case Fail(e) => Fail(if StartsWith(s, T("-Infinity")) then NonInteger else e)
    else
      match ScanNatural(s)
      case Ok(n, r) => Ok(Int(n), r)
      case Fail(e) => Fail(if StartsWith(s, T("NaN")) || StartsWith(s, T("Infinity")) then NonInteger else e)
  }

  /** `scan_once`, with `_object_without_duplicate_keys` as the object hook. */
  function ParseValue(s: Text): (r: Parsed<JSON>)
    ensures r.Ok? ==> |r.rest| < |s| && Dict(r.value)
    decreases |s|, 1
  {
    if s == [] then Fail(BadJson)
    else if s[0] == 0x22 then
      match ScanString(s[1..])
      case Ok(t, r) => Ok(Str(t), r)
      case Fail(e) => Fail(e)
    else if s[0] == 0x7B then
      var s' := SkipSpace(s[1..]);
      if s' != [] && s'[0] == 0x7D then Ok(Obj([]), s'[1..])
      else
        match ParseMembers(s')
        case Fail(e) => Fail(e)
        case Ok(ms, r) => if HasDuplicate(ms) then Fail(DuplicateKey) else Ok(Obj(ms), r)
    else if s[0] == 0x5B then
      var s' := SkipSpace(s[1..]);
      if s' != [] && s'[0] == 0x5D then Ok(Arr([]), s'[1..])
      else
        match ParseItems(s')
        case Fail(e) => Fail(e)
        case Ok(xs, r) => Ok(Arr(xs), r)
    else if StartsWith(s, T("null")) then Ok(Null, s[4..])
    else if StartsWith(s, T("true")) then Ok(Bool(true), s[4..])
    else if StartsWith(s, T("false")) then Ok(Bool(false), s[5..])
    else ScanNumber(s)
  }

  function ParseItems(s: Text): (r: Parsed<seq<JSON>>)
    ensures r.Ok? ==> |r.rest| < |s| && forall i :: 0 <= i < |r.value| ==> Dict(r.value[i])
    decreases |s|, 2
  {
    match ParseValue(s)
    case Fail(e) => Fail(e)
    case Ok(v, r0) =>
      var r := SkipSpace(r0);
      if r != [] && r[0] == 0x5D then Ok([v], r[1..])
      else if r != [] && r[0] == 0x2C then
        match ParseItems(SkipSpace(r[1..]))
        case Fail(e) => Fail(e)
        case Ok(vs, r') => Ok([v] + vs, r')
      else Fail(BadJson)
  }

  function ParseMembers(s: Text): (r: Parsed<seq<Member>>)
    ensures r.Ok? ==> |r.rest| < |s| && forall i :: 0 <= i < |r.value| ==> Dict(r.value[i].value)
    decreases |s|, 2
  {
    match ParseMember(s)
    case Fail(e) => Fail(e)
    case Ok(m, r0) =>
      var r := SkipSpace(r0);
      if r != [] && r[0] == 0x7D then Ok([m], r[1..])
      else if r != [] && r[0] == 0x2C then
        match ParseMembers(SkipSpace(r[1..]))
        case Fail(e) => Fail(e)
        case Ok(ms, r') => Ok([m] + ms, r')
      else Fail(BadJson)
  }

  function ParseMember(s: Text): (r: Parsed<Member>)
    ensures r.Ok? ==> |r.rest| < |s| && Dict(r.value.value)
    decreases |s|, 1
  {
    if s == [] || s[0] != 0x22 then Fail(BadJson)
    else
      match ScanString(s[1..])
      case Fail(e) => Fail(e)
      case Ok(k, r0) =>
        var r := SkipSpace(r0);
        if r == [] || r[0] != 0x3A then Fail(BadJson)
        else
          match ParseValue(SkipSpace(r[1..]))
          case Fail(e) => Fail(e)
          case Ok(v, r') => Ok(Member(k, v), r')
  }

  predicate HasDuplicate(ms: seq<Member>)
    ensures HasDuplicate(ms) <==> !DistinctKeys(ms)
  {
    exists i, j :: 0 <= i < j < |ms| && ms[i].key == ms[j].key
  }

  /** `_object_without_duplicate_keys`: the dictionary keeps the order of insertion. */
  method ObjectWithoutDuplicateKeys(pairs: seq<Member>) returns (result: Option<seq<Member>>)
    ensures result == if HasDuplicate(pairs) then None else Some(pairs)
  {
    var members: seq<Member> := [];
    var keys: set<Text> := {};
    for i := 0 to |pairs|
      invariant members == pairs[..i] && DistinctKeys(members)
      invariant forall k :: k in keys <==> exists j :: 0 <= j < i && pairs[j].key == k
    {
      if pairs[i].key in keys {
        return None;
      }
      members := members + [pairs[i]];
      keys := keys + {pairs[i].key};
    }
    assert pairs[..|pairs|] == pairs;
    return Some(members);
  }

  datatype Loaded = Value(value: JSON) | Refused(refusal: Refusal)

  /** `loads_integer_json`. */
  function Loads(t: Text): (r: Loaded)
    ensures r.Value? ==> Valid(r.value)
  {
    match ParseValue(SkipSpace(t))
    case Fail(e) => Refused(e)
    case Ok(v, rest) =>
      if SkipSpace(rest) != [] then Refused(BadJson)
      else if !Encodables(v) then Refused(UnpairedSurrogate)
      else Value(v)
  }
}
