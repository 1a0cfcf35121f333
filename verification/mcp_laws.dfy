/**
 * What frames and headers look like, in literals: the frame written, the header line that
 * announces a length, and the numbers read from it.
 */
module McpLaws {
  import opened Basics
  import opened Utf8
  import opened McpFrames
  import JsonText
  import JsonGrammar
  import JsonLaws

  /** A frame: the length in decimal, a blank line, the body. */
  lemma FrameLaw(body: Bytes, d: Bytes)
    requires JsonGrammar.NaturalText(d, |body|)
    ensures Frame(body) == A("Content-Length: ") + d + A("\r\n\r\n") + body
  {
    hide JsonGrammar.NaturalText;
    JsonLaws.NaturalOnly(d, |body|);
    assert A("\r\n\r\n") == MARKER;
  }

  // -------------------------------------------------------------- the lines

  /** Lines ended by CR LF, then a last one without an end. */
  function Lines(ended: seq<Bytes>, last: Bytes): Bytes {
    if ended == [] then last else ended[0] + (A("\r\n") + Lines(ended[1..], last))
  }

  predicate OneLine(b: Bytes) {
    !Contains(b, A("\r\n"))
  }

  lemma BreakFound(line: Bytes, rest: Bytes)
    requires OneLine(line)
    ensures var b := line + (A("\r\n") + rest); Contains(b, CRLF) && IndexOf(b, CRLF) == |line|
  {
    hide IndexOf;
    assert A("\r\n") == CRLF;
    var b := line + (CRLF + rest);
    assert b[|line|..|line| + 2] == CRLF;
    assert OccursAt(b, |line|, CRLF);
    forall j: nat | j < |line| ensures !OccursAt(b, j, CRLF) {
      if j + 1 == |line| {
        assert b[j..j + 2][1] == b[j + 1] == 0x0D;
      } else {
        assert b[j..j + 2] == line[j..j + 2];
        assert !OccursAt(line, j, CRLF);
      }
    }
    var i := IndexOf(b, CRLF);
    assert OccursAt(b, i, CRLF) && forall j: nat :: j < i ==> !OccursAt(b, j, CRLF);
    if i < |line| { assert false; }
  }

  lemma {:induction false} LinesSplit(ended: seq<Bytes>, last: Bytes)
    requires OneLine(last) && forall i :: 0 <= i < |ended| ==> OneLine(ended[i])
    ensures SplitLines(Lines(ended, last)) == ended + [last]
  {
    hide Contains, IndexOf;
    assert A("\r\n") == CRLF;
    if ended != [] {
      BreakFound(ended[0], Lines(ended[1..], last));
      LinesSplit(ended[1..], last);
      var b := Lines(ended, last);
      assert b[..|ended[0]|] == ended[0] && b[|ended[0]| + 2..] == Lines(ended[1..], last);
      assert ended == [ended[0]] + ended[1..];
    }
  }

  // ------------------------------------------------- the line with the length

  /** The field name, each letter in either case. */
  predicate Announces(line: Bytes) {
    && |line| >= 15
    && forall i :: 0 <= i < 15 ==> line[i] == A("content-length:")[i] || line[i] == A("CONTENT-LENGTH:")[i]
  }

  lemma AnnouncesLaw(line: Bytes)
    ensures IsLengthLine(line) <==> Announces(line)
  {
    var lower, upper := A("content-length:"), A("CONTENT-LENGTH:");
    assert FIELD_NAME == lower;
    forall i | 0 <= i < 15 && i < |line| ensures LowerCase(line[i]) == lower[i] <==> line[i] == lower[i] || line[i] == upper[i] {
      CaseLaw(i, line[i]);
    }
  }

  lemma CaseLaw(i: nat, c: Byte)
    requires i < 15
    ensures LowerCase(c) == A("content-length:")[i] <==> c == A("content-length:")[i] || c == A("CONTENT-LENGTH:")[i]
  {}

  /** The first announcing line counts, whatever stands before and after it. */
  lemma {:induction false} HeaderLaw(before: seq<Bytes>, line: Bytes, after: seq<Bytes>, last: Bytes)
    requires forall i :: 0 <= i < |before| ==> OneLine(before[i]) && !Announces(before[i])
    requires OneLine(line) && Announces(line)
    requires OneLine(last) && forall i :: 0 <= i < |after| ==> OneLine(after[i])
    ensures HeaderLength(Lines(before + [line] + after, last)) ==
      (match ParseLength(line[15..]) case Some(n) => Ok(n) case None => Fail(BadLength))
  {
    hide Contains, Announces, SplitLines, LineLength;
    LinesSplit(before + [line] + after, last);
    Assoc(before + [line], after, [last]);
    Assoc(before, [line], after + [last]);
    FirstLine(before, line, after + [last]);
  }

  lemma {:induction false} FirstLine(before: seq<Bytes>, line: Bytes, after: seq<Bytes>)
    requires forall i :: 0 <= i < |before| ==> !Announces(before[i])
    requires Announces(line)
    ensures LineLength(before + ([line] + after)) ==
      (match ParseLength(line[15..]) case Some(n) => Ok(n) case None => Fail(BadLength))
  {
    hide Announces, IsLengthLine, ParseLength;
    var all := before + ([line] + after);
    AnnouncesLaw(all[0]);
    if before == [] {
      assert |FIELD_NAME| == 15;
    } else {
      assert all[1..] == before[1..] + ([line] + after);
      FirstLine(before[1..], line, after);
    }
  }

  /** Without an announcing line there is no length. */
  lemma {:induction false} NoLength(lines: seq<Bytes>)
    requires forall i :: 0 <= i < |lines| ==> !Announces(lines[i])
    ensures LineLength(lines) == Fail(MissingLength)
  {
    hide Announces, IsLengthLine;
    if lines != [] {
      AnnouncesLaw(lines[0]);
      NoLength(lines[1..]);
    }
  }

  // ------------------------------------------------------------- the number

  predicate Blank(t: Text) {
    forall i :: 0 <= i < |t| ==> t[i] in T(" \t")
  }

  lemma {:induction false} StrippedLeft(a: Text, t: Text)
    requires Blank(a) && (t == [] || !IsWhite(t[0]))
    ensures StripLeft(a + t) == t
  {
    assert T(" \t") == [0x20, 0x09];
    if a == [] {
      assert a + t == t;
    } else {
      assert (a + t)[1..] == a[1..] + t;
      StrippedLeft(a[1..], t);
    }
  }

  lemma {:induction false} StrippedRight(t: Text, b: Text)
    requires Blank(b) && t != [] && !IsWhite(t[|t|-1])
    ensures StripRight(t + b) == t
  {
    assert T(" \t") == [0x20, 0x09];
    if b == [] {
      assert t + b == t;
    } else {
      assert (t + b)[..|t + b|-1] == t + b[..|b|-1];
      StrippedRight(t, b[..|b|-1]);
    }
  }

  lemma Stripped(a: Text, t: Text, b: Text)
    requires Blank(a) && Blank(b) && t != [] && !IsWhite(t[0]) && !IsWhite(t[|t|-1])
    ensures StripRight(StripLeft(a + t + b)) == t
  {
    hide StripLeft, StripRight, Blank, IsWhite;
    assert (t + b)[0] == t[0];
    StrippedLeft(a, t + b);
    Assoc(a, t, b);
    StrippedRight(t, b);
  }

  lemma SignedParses(sign: Text, n: nat)
    requires sign in [T(""), T("+"), T("-")]
    ensures ParseInt(sign + Decimal(n)) == Some(if sign == T("-") then -(n as int) else n)
  {
    hide Decimal, DigitsOrUnderscores, JsonText.DigitsValue, WithoutUnderscores, IsWhite, T, Encodable;
    var d := Decimal(n);
    Signs(sign, d);
    DigitsOnly(d);
    PlainDigits(d);
  }

  lemma ParsesInside(a: Text, t: Text, b: Text)
    requires Blank(a) && Blank(b) && Encodable(t) && t != [] && !IsWhite(t[0]) && !IsWhite(t[|t|-1])
    ensures Encodable(a + t + b) && ParseLength(Encode(a + t + b)) == ParseInt(t)
  {
    hide Encode, Decode, StripLeft, StripRight, Blank, ParseInt, IsWhite;
    BlankScalars(a);
    BlankScalars(b);
    DecodeEncode(a + t + b);
    Stripped(a, t, b);
  }

  /** A signed decimal between blanks is the number it spells. */
  lemma LengthLaw(a: Text, sign: Text, d: Text, b: Text, n: nat)
    requires Blank(a) && Blank(b) && sign in [T(""), T("+"), T("-")] && JsonGrammar.NaturalText(d, n)
    ensures Encodable(a + (sign + d) + b)
    ensures ParseLength(Encode(a + (sign + d) + b)) == Some(if sign == T("-") then -(n as int) else n)
  {
    hide JsonGrammar.NaturalText, Blank, ParseInt, ParseLength, IsWhite, T, Decimal, Encodable, Encode;
    JsonLaws.NaturalOnly(d, n);
    assert d == Decimal(n);
    Signs(sign, d);
    ParsesInside(a, sign + d, b);
    SignedParses(sign, n);
  }

  lemma Signs(sign: Text, d: Text)
    requires sign in [T(""), T("+"), T("-")] && d != [] && forall i :: 0 <= i < |d| ==> IsDigit(d[i])
    ensures var t := sign + d;
      && !IsWhite(t[0]) && !IsWhite(t[|t|-1]) && Encodable(t)
      && (t[0] == 0x2D <==> sign == T("-"))
      && d == (if t[0] == 0x2D || t[0] == 0x2B then t[1..] else t)
  {
    assert T("") == [] && T("+") == [0x2B] && T("-") == [0x2D];
  }

  lemma BlankScalars(a: Text)
    requires Blank(a)
    ensures Encodable(a)
  {
    assert T(" \t") == [0x20, 0x09];
  }
}
