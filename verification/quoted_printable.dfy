// The quoted-printable codec of template bodies (src/message/rotation.rs),
// against section 6.7 of RFC 2045.
module QuotedPrintable {
  import opened Bytes
  import opened Wrappers
  import opened Lines
  import opened Headers

  const MAX_LINE: nat := 73

  // -- specifications --------------------------------------------------------

  predicate IsLiteral(b: byte) {
    b == SPACE || b == TAB || 33 <= b <= 60 || 62 <= b <= 126
  }

  function HexDigit(n: nat): (b: byte)
    requires n < 16
    ensures b != CR && b != LF && b != EQUALS
  {
    if n < 10 then (48 + n) as byte else (65 + n - 10) as byte
  }

  function HexValue(b: byte): (n: Option<nat>)
    ensures n.Some? ==> n.value < 16
  {
    if 48 <= b <= 57 then Some((b - 48) as nat)
    else if 97 <= b <= 102 then Some((b - 97 + 10) as nat)
    else if 65 <= b <= 70 then Some((b - 65 + 10) as nat)
    else None
  }

  // One byte on the wire: itself, or an escape.
  function Token(b: byte): (t: Text)
    ensures 1 <= |t| <= 3
    ensures CR !in t && LF !in t
  {
    if IsLiteral(b) then [b] else [EQUALS, HexDigit(b as nat / 16), HexDigit(b as nat % 16)]
  }

  // The encoding of s when column bytes stand on the line already.
  function EncodeSpec(s: Text, column: nat): Text {
    if s == [] then []
    else if s[0] == LF then CRLF + EncodeSpec(s[1..], 0)
    else if s[0] == CR then EncodeSpec(s[1..], column)
    else
      var token := Token(s[0]);
      if column + |token| > MAX_LINE then [EQUALS] + CRLF + token + EncodeSpec(s[1..], |token|)
      else token + EncodeSpec(s[1..], column + |token|)
  }

  function DecodeSpec(s: Text): Text
    decreases |s|
  {
    if s == [] then []
    else if s[0] == EQUALS && |s| > 1 && (s[1] == CR || s[1] == LF) then
      var a := s[1..];
      var b := if a[0] == CR then a[1..] else a;
      var c := if b != [] && b[0] == LF then b[1..] else b;
      DecodeSpec(c)
    else if s[0] == EQUALS && |s| > 2 && HexValue(s[1]).Some? && HexValue(s[2]).Some? then
      [(HexValue(s[1]).value * 16 + HexValue(s[2]).value) as byte] + DecodeSpec(s[3..])
    else [s[0]] + DecodeSpec(s[1..])
  }

  // -- the loops ---------------------------------------------------------------

  method Encode(input: Text) returns (out: Text)
    ensures out == EncodeSpec(input, 0)
  {
    hide EncodeSpec, Token;
    var line: Text := [];
    out := [];
    var i := 0;
    assert input[0..] == input;
    while i < |input|
      invariant 0 <= i <= |input|
      invariant out + line + EncodeSpec(input[i..], |line|) == EncodeSpec(input, 0)
    {
      var b := input[i];
      EncodeStep(out, line, input, i);
      i := i + 1;
      if b == LF {
        out := out + line + CRLF;
        line := [];
        continue;
      }
      if b == CR {
        continue;
      }
      var encoded := Token(b);
      if |line| + |encoded| > MAX_LINE {
        out := out + line + [EQUALS] + CRLF;
        line := [];
      }
      line := line + encoded;
    }
    assert input[i..] == [];
    EncodeEnd(|line|);
    out := out + line;
  }

  lemma {:induction false} EncodeStep(out: Text, line: Text, input: Text, i: nat)
    requires i < |input|
    ensures var b, token, rest := input[i], Token(input[i]), input[i + 1..];
      out + line + EncodeSpec(input[i..], |line|)
        == if b == LF then out + line + CRLF + [] + EncodeSpec(rest, 0)
           else if b == CR then out + line + EncodeSpec(rest, |line|)
           else if |line| + |token| > MAX_LINE then
             out + line + [EQUALS] + CRLF + ([] + token) + EncodeSpec(rest, |[] + token|)
           else out + (line + token) + EncodeSpec(rest, |line + token|)
  {
    assert input[i..][1..] == input[i + 1..];
  }

  lemma EncodeEnd(column: nat)
    ensures EncodeSpec([], column) == []
  {
  }

  method Decode(input: Text) returns (out: Text)
    ensures out == DecodeSpec(input)
  {
    hide DecodeSpec;
    out := [];
    var index := 0;
    assert input[0..] == input;
    while index < |input|
      invariant 0 <= index <= |input|
      invariant out + DecodeSpec(input[index..]) == DecodeSpec(input)
    {
      DecodeStep(out, input, index);
      if input[index] == EQUALS && index + 1 < |input| {
        if input[index + 1] == CR || input[index + 1] == LF {
          index := index + 1;
          if index < |input| && input[index] == CR {
            index := index + 1;
          }
          if index < |input| && input[index] == LF {
            index := index + 1;
          }
          continue;
        }
        if index + 2 < |input| {
          var high, low := HexValue(input[index + 1]), HexValue(input[index + 2]);
          if high.Some? && low.Some? {
            out := out + [(high.value * 16 + low.value) as byte];
            index := index + 3;
            continue;
          }
        }
      }
      out := out + [input[index]];
      index := index + 1;
    }
    assert input[index..] == [];
    DecodeEnd();
  }

  lemma {:induction false} DecodeStep(out: Text, input: Text, i: nat)
    requires i < |input|
    ensures var n := |input|;
      out + DecodeSpec(input[i..])
        == if input[i] == EQUALS && i + 1 < n && (input[i + 1] == CR || input[i + 1] == LF) then
             var a := if input[i + 1] == CR then i + 2 else i + 1;
             out + DecodeSpec(input[if a < n && input[a] == LF then a + 1 else a..])
           else if input[i] == EQUALS && i + 2 < n && HexValue(input[i + 1]).Some? && HexValue(input[i + 2]).Some? then
             out + [(HexValue(input[i + 1]).value * 16 + HexValue(input[i + 2]).value) as byte]
               + DecodeSpec(input[i + 3..])
           else out + [input[i]] + DecodeSpec(input[i + 1..])
  {
    var s := input[i..];
    assert s[1..] == input[i + 1..];
    if input[i] == EQUALS && i + 1 < |input| && (input[i + 1] == CR || input[i + 1] == LF) {
      var a := if input[i + 1] == CR then i + 2 else i + 1;
      assert (if s[1..][0] == CR then s[1..][1..] else s[1..]) == input[a..];
      assert input[a..] != [] ==> input[a..][1..] == input[a + 1..];
    } else if input[i] == EQUALS && i + 2 < |input| && HexValue(input[i + 1]).Some? && HexValue(input[i + 2]).Some? {
      var decoded := (HexValue(input[i + 1]).value * 16 + HexValue(input[i + 2]).value) as byte;
      assert s[3..] == input[i + 3..];
      assert DecodeSpec(s) == [decoded] + DecodeSpec(input[i + 3..]);
      Assoc(out, [decoded], DecodeSpec(input[i + 3..]));
    } else {
      assert DecodeSpec(s) == [s[0]] + DecodeSpec(s[1..]);
      Assoc(out, [input[i]], DecodeSpec(input[i + 1..]));
    }
  }

  lemma DecodeEnd()
    ensures DecodeSpec([]) == []
  {
  }

  // -- round trip ----------------------------------------------------------------

  // Text with CRs dropped and every LF made a CRLF.
  function Canonical(s: Text): Text {
    if s == [] then []
    else (if s[0] == LF then CRLF else if s[0] == CR then [] else [s[0]]) + Canonical(s[1..])
  }

  lemma HexRoundTrip(n: nat)
    requires n < 16
    ensures HexValue(HexDigit(n)) == Some(n)
  {
  }

  lemma DecodeToken(b: byte, rest: Text)
    requires b != CR && b != LF
    ensures DecodeSpec(Token(b) + rest) == [b] + DecodeSpec(rest)
  {
    var s := Token(b) + rest;
    if IsLiteral(b) {
      assert s[1..] == rest;
    } else {
      HexRoundTrip(b as nat / 16);
      HexRoundTrip(b as nat % 16);
      assert s[3..] == rest;
    }
  }

  lemma DecodePlain(b: byte, rest: Text)
    requires b != EQUALS
    ensures DecodeSpec([b] + rest) == [b] + DecodeSpec(rest)
  {
    assert ([b] + rest)[1..] == rest;
  }

  lemma DecodeSoft(rest: Text)
    ensures DecodeSpec([EQUALS] + CRLF + rest) == DecodeSpec(rest)
  {
    var s := [EQUALS] + CRLF + rest;
    assert s[1..][1..][1..] == rest;
  }

  lemma DecodeCrlf(rest: Text)
    ensures DecodeSpec(CRLF + rest) == CRLF + DecodeSpec(rest)
  {
    hide DecodeSpec;
    DecodePlain(LF, rest);
    DecodePlain(CR, [LF] + rest);
    assert CRLF + rest == [CR] + ([LF] + rest);
    Assoc([CR], [LF], DecodeSpec(rest));
  }

  lemma {:induction false} DecodeEncode(s: Text, column: nat)
    ensures DecodeSpec(EncodeSpec(s, column)) == Canonical(s)
  {
    hide Token, DecodeSpec;
    if s == [] {
      DecodeEnd();
    } else if s[0] == LF {
      DecodeEncode(s[1..], 0);
      DecodeCrlf(EncodeSpec(s[1..], 0));
    } else if s[0] == CR {
      DecodeEncode(s[1..], column);
    } else {
      var token := Token(s[0]);
      if column + |token| > MAX_LINE {
        var rest := EncodeSpec(s[1..], |token|);
        DecodeEncode(s[1..], |token|);
        DecodeToken(s[0], rest);
        DecodeSoft(token + rest);
        assert [EQUALS] + CRLF + token + rest == [EQUALS] + CRLF + (token + rest);
      } else {
        DecodeEncode(s[1..], column + |token|);
        DecodeToken(s[0], EncodeSpec(s[1..], column + |token|));
      }
    }
  }

  // Every CR stands in front of an LF and every LF behind a CR.
  predicate CrlfText(s: Text) {
    if s == [] then true
    else if s[0] == CR then |s| > 1 && s[1] == LF && CrlfText(s[2..])
    else s[0] != LF && CrlfText(s[1..])
  }

  lemma {:induction false} CanonicalKeeps(s: Text)
    requires CrlfText(s)
    ensures Canonical(s) == s
  {
    if s != [] {
      if s[0] == CR {
        CanonicalKeeps(s[2..]);
        assert Canonical(s) == Canonical(s[1..]);
        assert s[1..][1..] == s[2..];
      } else {
        CanonicalKeeps(s[1..]);
      }
    }
  }

  lemma {:induction false} CanonicalCrStartsCrlf(s: Text)
    requires Canonical(s) != [] && Canonical(s)[0] == CR
    ensures |Canonical(s)| > 1 && Canonical(s)[1] == LF
  {
    if s[0] == CR {
      CanonicalCrStartsCrlf(s[1..]);
    }
  }

  lemma {:induction false} OnlyCrlfTextIsKept(s: Text)
    requires Canonical(s) == s
    ensures CrlfText(s)
  {
    if s != [] {
      if s[0] == CR {
        CanonicalCrStartsCrlf(s);
        assert s[1..][1..] == s[2..];
        assert s == CRLF + s[2..];
        assert CRLF + Canonical(s[2..]) == s;
        assert Canonical(s[2..]) == s[2..];
        OnlyCrlfTextIsKept(s[2..]);
      } else {
        assert s == [s[0]] + s[1..];
        OnlyCrlfTextIsKept(s[1..]);
      }
    }
  }

  // The codec loses nothing exactly on text whose line endings are all CRLF.
  lemma RoundTrip(s: Text)
    ensures DecodeSpec(EncodeSpec(s, 0)) == s <==> CrlfText(s)
  {
    DecodeEncode(s, 0);
    if CrlfText(s) {
      CanonicalKeeps(s);
    } else if Canonical(s) == s {
      OnlyCrlfTextIsKept(s);
      assert false;
    }
  }

  // -- line length -----------------------------------------------------------------

  ghost predicate Short(lines: seq<Text>) {
    forall k :: 0 <= k < |lines| ==> |lines[k]| <= MAX_LINE + 1
  }

  lemma SplitCrlf(line: Text, rest: Text)
    requires LF !in line
    ensures SplitSpec(line + CRLF + rest) == [line] + SplitSpec(rest)
  {
    CutTerminated(line, rest);
  }

  lemma SplitUnended(line: Text)
    requires LF !in line
    ensures SplitSpec(line) == if line == [] then [] else [line]
  {
    if line != [] {
      CutBehind(line, []);
      assert line + [] == line;
      assert [line] + SplitSpec([]) == [line];
    }
  }

  lemma {:induction false} LinesAreShort(s: Text, line: Text)
    requires LF !in line && |line| <= MAX_LINE
    ensures Short(SplitSpec(line + EncodeSpec(s, |line|)))
  {
    hide Token, SplitSpec;
    if s == [] {
      assert line + [] == line;
      SplitUnended(line);
    } else if s[0] == LF {
      var rest := EncodeSpec(s[1..], 0);
      LinesAreShort(s[1..], []);
      assert [] + rest == rest;
      SplitCrlf(line, rest);
      assert line + (CRLF + rest) == line + CRLF + rest;
    } else if s[0] == CR {
      LinesAreShort(s[1..], line);
    } else {
      var token := Token(s[0]);
      if |line| + |token| > MAX_LINE {
        var rest := EncodeSpec(s[1..], |token|);
        LinesAreShort(s[1..], token);
        SplitCrlf(line + [EQUALS], token + rest);
        assert line + ([EQUALS] + CRLF + token + rest) == (line + [EQUALS]) + CRLF + (token + rest);
      } else {
        LinesAreShort(s[1..], line + token);
        assert line + (token + EncodeSpec(s[1..], |line| + |token|))
          == (line + token) + EncodeSpec(s[1..], |line + token|);
      }
    }
  }

  // No encoded line is longer than 74 bytes, inside the limit of 76.
  lemma EncodedLines(s: Text)
    ensures forall k :: 0 <= k < |SplitSpec(EncodeSpec(s, 0))| ==> |SplitSpec(EncodeSpec(s, 0))[k]| <= 74
  {
    LinesAreShort(s, []);
    assert [] + EncodeSpec(s, 0) == EncodeSpec(s, 0);
  }

  // -- line ends -------------------------------------------------------------------

  predicate IsBlank(b: byte) {
    b == SPACE || b == TAB
  }

  predicate EndsBlank(line: Text) {
    line != [] && IsBlank(line[|line| - 1])
  }

  ghost predicate Frayed(lines: seq<Text>) {
    exists k :: 0 <= k < |lines| && EndsBlank(lines[k])
  }

  // Nothing more on the line but CRs, which are dropped.
  predicate EndsLine(s: Text) {
    s == [] || s[0] == LF || (s[0] == CR && EndsLine(s[1..]))
  }

  // Some line of the text ends in a space or tab.
  predicate TrailingBlank(s: Text) {
    s != [] && ((IsBlank(s[0]) && EndsLine(s[1..])) || TrailingBlank(s[1..]))
  }

  lemma FrayedFirst(line: Text, lines: seq<Text>)
    ensures Frayed([line] + lines) <==> EndsBlank(line) || Frayed(lines)
  {
    var all := [line] + lines;
    assert forall k :: 0 <= k < |lines| ==> lines[k] == all[k + 1];
    assert all[0] == line;
  }

  lemma TokenEnds(b: byte, line: Text)
    requires b != CR && b != LF
    ensures EndsBlank(line + Token(b)) <==> IsBlank(b)
  {
    var token := Token(b);
    assert (line + token)[|line + token| - 1] == token[|token| - 1];
  }

  lemma {:induction false} LinesEnd(s: Text, line: Text)
    requires LF !in line
    ensures Frayed(SplitSpec(line + EncodeSpec(s, |line|)))
      <==> TrailingBlank(s) || (EndsBlank(line) && EndsLine(s))
  {
    hide Token, SplitSpec, Frayed, EndsBlank;
    if s == [] {
      assert line + [] == line;
      SplitUnended(line);
      FrayedFirst(line, []);
      assert [line] + [] == [line];
      NothingFrayed();
    } else if s[0] == LF {
      var rest := EncodeSpec(s[1..], 0);
      LinesEnd(s[1..], []);
      NothingFrayed();
      assert [] + rest == rest;
      SplitCrlf(line, rest);
      assert line + (CRLF + rest) == line + CRLF + rest;
      FrayedFirst(line, SplitSpec(rest));
    } else if s[0] == CR {
      LinesEnd(s[1..], line);
    } else {
      var token := Token(s[0]);
      if |line| + |token| > MAX_LINE {
        var rest := EncodeSpec(s[1..], |token|);
        LinesEnd(s[1..], token);
        TokenEnds(s[0], []);
        assert [] + token == token;
        SplitCrlf(line + [EQUALS], token + rest);
        assert line + ([EQUALS] + CRLF + token + rest) == (line + [EQUALS]) + CRLF + (token + rest);
        FrayedFirst(line + [EQUALS], SplitSpec(token + rest));
        SoftBreakEnds(line);
      } else {
        LinesEnd(s[1..], line + token);
        TokenEnds(s[0], line);
        assert line + (token + EncodeSpec(s[1..], |line| + |token|))
          == (line + token) + EncodeSpec(s[1..], |line + token|);
      }
    }
  }

  lemma NothingFrayed()
    ensures !Frayed([]) && !EndsBlank([])
  {
  }

  lemma SoftBreakEnds(line: Text)
    ensures !EndsBlank(line + [EQUALS])
  {
  }

  // The standard wants no white space at the end of an encoded line. The encoder escapes
  // none, so there is some exactly when a line of the text ends in a space or tab; its own
  // soft breaks leave none.
  lemma NoBlankLineEndsExactlyWhen(s: Text)
    ensures (forall k :: 0 <= k < |SplitSpec(EncodeSpec(s, 0))| ==> !EndsBlank(SplitSpec(EncodeSpec(s, 0))[k]))
      <==> !TrailingBlank(s)
  {
    hide EndsBlank, SplitSpec;
    LinesEnd(s, []);
    NothingFrayed();
    assert [] + EncodeSpec(s, 0) == EncodeSpec(s, 0);
  }

  // And everything in it is printable ASCII, space, tab or a line break.
  lemma {:induction false} EncodedIsPlain(s: Text, column: nat)
    ensures forall b :: b in EncodeSpec(s, column) ==> b == TAB || 32 <= b <= 126 || b == CR || b == LF
  {
    if s != [] {
      var token := Token(s[0]);
      EncodedIsPlain(s[1..], 0);
      EncodedIsPlain(s[1..], column);
      EncodedIsPlain(s[1..], |token|);
      EncodedIsPlain(s[1..], column + |token|);
    }
  }

  // Printable text that fits on the line is not changed.
  lemma {:induction false} ReadableStays(s: Text, column: nat)
    requires column + |s| <= 73
    requires forall k :: 0 <= k < |s| ==> s[k] == TAB || (32 <= s[k] <= 126 && s[k] != EQUALS)
    ensures EncodeSpec(s, column) == s
  {
    if s != [] {
      ReadableStays(s[1..], column + 1);
      assert s == [s[0]] + s[1..];
    }
  }

  // -- what other encoders write --------------------------------------------------------

  // The byte for one hexadecimal digit, in either letter case.
  predicate IsDigit(b: byte, n: nat) {
    (n < 10 && b as nat == 48 + n) || (10 <= n < 16 && (b as nat == 55 + n || b as nat == 87 + n))
  }

  // An escape is read in either letter case.
  lemma EscapeIsRead(high: byte, low: byte, h: nat, l: nat, rest: Text)
    requires IsDigit(high, h) && IsDigit(low, l)
    ensures DecodeSpec([EQUALS, high, low] + rest) == [(h * 16 + l) as byte] + DecodeSpec(rest)
  {
    assert ([EQUALS, high, low] + rest)[3..] == rest;
  }

  // A soft break may be a bare LF or CR.
  lemma {:induction false} SoftBreaksAreRead(rest: Text)
    ensures DecodeSpec([EQUALS, LF] + rest) == DecodeSpec(rest)
    ensures rest == [] || rest[0] != LF ==> DecodeSpec([EQUALS, CR] + rest) == DecodeSpec(rest)
  {
    var lf, cr := [EQUALS, LF] + rest, [EQUALS, CR] + rest;
    assert lf[1..] == [LF] + rest && ([LF] + rest)[1..] == rest;
    assert cr[1..] == [CR] + rest && ([CR] + rest)[1..] == rest;
  }

  // An equals sign that begins neither is text.
  lemma {:induction false} LoneEqualsIsText(rest: Text)
    requires rest == [] || (rest[0] != CR && rest[0] != LF)
    requires |rest| >= 2 ==> forall h, l :: !(IsDigit(rest[0], h) && IsDigit(rest[1], l))
    ensures DecodeSpec([EQUALS] + rest) == [EQUALS] + DecodeSpec(rest)
  {
    var s := [EQUALS] + rest;
    assert s[1..] == rest;
    if |rest| >= 2 && HexValue(rest[0]).Some? && HexValue(rest[1]).Some? {
      assert IsDigit(rest[0], HexValue(rest[0]).value) && IsDigit(rest[1], HexValue(rest[1]).value);
    }
  }
}
