// The byte-exact header codec (src/message/headers.rs), against sections 2.2
// and 2.2.3 of RFC 5322.
module Headers {
  import opened Bytes
  import opened Wrappers
  import opened Lines

  // A header field and its raw, still folded value: everything between the
  // colon and the final CRLF.
  datatype Header = Header(name: Text, rawValue: Text) {
    function Lower(): Text {
      ToLower(name)
    }
  }

  datatype Contents = Contents(headers: seq<Header>, body: Text, wasLfOnly: bool)

  datatype MessageError = NoHeaderSeparator

  // -- specifications ------------------------------------------------------

  function SplitSpec(block: Text): seq<Text>
    decreases |block|
  {
    if block == [] then []
    else
      var (line, rest) := CutLine(block);
      [line] + SplitSpec(rest)
  }

  predicate IsContinuation(line: Text) {
    line != [] && (line[0] == SPACE || line[0] == TAB)
  }

  // The field a line opens, if it is one.
  function FieldOf(line: Text): Option<Header> {
    var colon := IndexOf(line, COLON);
    if 0 < colon < |line| then Some(Header(Trim(line[..colon]), line[colon + 1..])) else None
  }

  function Extend(h: Header, line: Text): Header {
    h.(rawValue := h.rawValue + CRLF + line)
  }

  function Flush(current: Option<Header>): seq<Header> {
    if current.Some? then [current.value] else []
  }

  function FieldsSpec(lines: seq<Text>, current: Option<Header>): seq<Header> {
    if lines == [] then Flush(current)
    else
      var line, rest := lines[0], lines[1..];
      if line == [] then FieldsSpec(rest, current)
      else if IsContinuation(line) then
        FieldsSpec(rest, if current.Some? then Some(Extend(current.value, line)) else None)
      else Flush(current) + FieldsSpec(rest, FieldOf(line))
  }

  // First place where needle occurs, or |s| when there is none.
  function Find(s: Text, needle: Text): (r: nat)
    requires needle != []
    ensures r <= |s|
    ensures r < |s| ==> needle <= s[r..]
    ensures forall j :: 0 <= j < r ==> !(needle <= s[j..])
  {
    FindFrom(s, needle, 0)
  }

  function FindFrom(s: Text, needle: Text, i: nat): (r: nat)
    requires needle != [] && i <= |s|
    ensures i <= r <= |s|
    ensures r < |s| ==> needle <= s[r..]
    ensures forall j :: i <= j < r ==> !(needle <= s[j..])
    decreases |s| - i
  {
    if i == |s| || needle <= s[i..] then i else FindFrom(s, needle, i + 1)
  }

  // Header block, body, and whether the source used bare LF line endings.
  function SplitHeaderBlock(raw: Text): (Text, Text, bool) {
    var crlf := Find(raw, CRLF + CRLF);
    if crlf < |raw| then (raw[..crlf + 2], raw[crlf + 4..], false)
    else
      var lf := Find(raw, [LF, LF]);
      if lf < |raw| then (raw[..lf + 1], raw[lf + 2..], true)
      else (raw, [], Find(raw, CRLF) == |raw| && LF in raw)
  }

  function ParseSpec(raw: Text): Contents {
    var (block, body, lfOnly) := SplitHeaderBlock(raw);
    Contents(FieldsSpec(SplitSpec(block), None), body, lfOnly)
  }

  function CrlfSpec(input: Text, previous: byte): Text {
    if input == [] then []
    else (if input[0] == LF && previous != CR then [CR] else []) + [input[0]] + CrlfSpec(input[1..], input[0])
  }

  function Normalized(input: Text): Text {
    CrlfSpec(input, 0)
  }

  function PrintFields(headers: seq<Header>, lfOnly: bool): Text {
    if headers == [] then []
    else
      headers[0].name + [COLON] + (if lfOnly then Normalized(headers[0].rawValue) else headers[0].rawValue) + CRLF
        + PrintFields(headers[1..], lfOnly)
  }

  function PrintSpec(c: Contents): Text {
    PrintFields(c.headers, c.wasLfOnly) + CRLF + if c.wasLfOnly then Normalized(c.body) else c.body
  }

  // Folding collapsed into single spaces, none in front.
  function UnfoldSpec(raw: Text, pending: bool, started: bool): Text {
    if raw == [] then []
    else if raw[0] in {CR, LF, SPACE, TAB} then UnfoldSpec(raw[1..], true, started)
    else (if pending && started then [SPACE] else []) + [raw[0]] + UnfoldSpec(raw[1..], false, true)
  }

  function Unfolded(raw: Text): Text {
    UnfoldSpec(raw, false, false)
  }

  function FirstNamed(headers: seq<Header>, needle: Text): Option<Header> {
    if headers == [] then None
    else if headers[0].Lower() == needle then Some(headers[0])
    else FirstNamed(headers[1..], needle)
  }

  // The unfolded value of the first field of that name.
  function ValueOf(headers: seq<Header>, name: Text): Option<Text> {
    match FirstNamed(headers, ToLower(name))
    case None => None
    case Some(h) => Some(Unfolded(h.rawValue))
  }

  function PeekSpec(lines: seq<Text>, needle: Text, current: Option<Text>): Option<Text> {
    if lines == [] || lines[0] == [] then
      match current case None => None case Some(v) => Some(Unfolded(v))
    else
      var line, rest := lines[0], lines[1..];
      if IsContinuation(line) then
        PeekSpec(rest, needle, match current case None => None case Some(v) => Some(v + CRLF + line))
      else if current.Some? then Some(Unfolded(current.value))
      else
        var colon := IndexOf(line, COLON);
        PeekSpec(rest, needle,
                 if colon < |line| && ToLower(Trim(line[..colon])) == needle then Some(line[colon + 1..]) else None)
  }

  // -- the loops -----------------------------------------------------------

  method SplitLines(block: Text) returns (lines: seq<Text>)
    ensures lines == SplitSpec(block)
  {
    hide SplitSpec;
    lines := [];
    var start, index := 0, 0;
    assert block[0..] == block;
    while index < |block|
      invariant 0 <= start <= index <= |block|
      invariant LF !in block[start..index]
      invariant lines + SplitSpec(block[start..]) == SplitSpec(block)
    {
      if block[index] == LF {
        SplitStep(block, start, index);
        var end := index;
        if end > start && block[end - 1] == CR {
          end := end - 1;
        }
        assert lines + ([block[start..end]] + SplitSpec(block[index + 1..]))
          == lines + [block[start..end]] + SplitSpec(block[index + 1..]);
        lines := lines + [block[start..end]];
        start := index + 1;
      }
      index := index + 1;
    }
    SplitLast(block, start);
    if start < |block| {
      lines := lines + [block[start..]];
    }
  }

  lemma {:induction false} SplitStep(block: Text, start: nat, index: nat)
    requires start <= index < |block| && block[index] == LF && LF !in block[start..index]
    ensures var end := if index > start && block[index - 1] == CR then index - 1 else index;
      SplitSpec(block[start..]) == [block[start..end]] + SplitSpec(block[index + 1..])
  {
    hide CutLine, IndexOf;
    var front, n := block[start..], index - start;
    assert front[..n] == block[start..index];
    CutAt(front, [], n);
    assert front + [] == front;
    assert front[n + 1..] + [] == block[index + 1..];
    assert StripCr(front[..n]) == block[start..if index > start && block[index - 1] == CR then index - 1 else index];
  }

  lemma SplitLast(block: Text, start: nat)
    requires start <= |block| && LF !in block[start..|block|]
    ensures SplitSpec(block[start..]) == if start < |block| then [block[start..]] else []
  {
    hide CutLine, IndexOf;
    var front := block[start..];
    if front != [] {
      assert front == block[start..|block|];
      CutBehind(front, []);
      assert front + [] == front;
      assert CutLine(front) == (front, []);
      assert [front] + SplitSpec([]) == [front];
    }
  }

  method ParseHeaderBlock(block: Text) returns (headers: seq<Header>)
    ensures headers == FieldsSpec(SplitSpec(block), None)
  {
    hide FieldsSpec, FieldOf, SplitSpec, IsContinuation, Extend;
    headers := [];
    var current: Option<Header> := None;
    var lines := SplitLines(block);
    var i := 0;
    assert lines[0..] == lines;
    while i < |lines|
      invariant 0 <= i <= |lines|
      invariant headers + FieldsSpec(lines[i..], current) == FieldsSpec(lines, None)
    {
      var line := lines[i];
      FieldsStep(headers, lines, i, current);
      i := i + 1;
      if line == [] {
        continue;
      }
      if IsContinuation(line) {
        if current.Some? {
          current := Some(Extend(current.value, line));
        }
        continue;
      }
      if current.Some? {
        headers := headers + [current.value];
      }
      current := FieldOf(line);
    }
    assert lines[i..] == [];
    FieldsEnd(current);
    if current.Some? {
      headers := headers + [current.value];
    }
  }

  lemma {:induction false} FieldsStep(headers: seq<Header>, lines: seq<Text>, i: nat, current: Option<Header>)
    requires i < |lines|
    ensures var line := lines[i];
      headers + FieldsSpec(lines[i..], current)
        == if line == [] then headers + FieldsSpec(lines[i + 1..], current)
           else if IsContinuation(line) then
             headers + FieldsSpec(lines[i + 1..], if current.Some? then Some(Extend(current.value, line)) else None)
           else
             (if current.Some? then headers + [current.value] else headers) + FieldsSpec(lines[i + 1..], FieldOf(line))
  {
    hide Extend, FieldOf;
    assert lines[i..][1..] == lines[i + 1..];
  }

  lemma FieldsEnd(current: Option<Header>)
    ensures FieldsSpec([], current) == if current.Some? then [current.value] else []
  {
  }

  method NormalizeCrlf(input: Text) returns (out: Text)
    ensures out == Normalized(input)
  {
    hide CrlfSpec;
    out := [];
    var previous: byte := 0;
    var i := 0;
    assert input[0..] == input;
    while i < |input|
      invariant 0 <= i <= |input|
      invariant out + CrlfSpec(input[i..], previous) == Normalized(input)
    {
      var b := input[i];
      CrlfStep(out, input, i, previous);
      if b == LF && previous != CR {
        out := out + [CR];
      }
      out := out + [b];
      previous := b;
      i := i + 1;
    }
    assert input[i..] == [];
    CrlfEnd(previous);
  }

  lemma CrlfStep(out: Text, input: Text, i: nat, previous: byte)
    requires i < |input|
    ensures out + CrlfSpec(input[i..], previous)
      == (if input[i] == LF && previous != CR then out + [CR] else out) + [input[i]]
        + CrlfSpec(input[i + 1..], input[i])
  {
    assert input[i..][1..] == input[i + 1..];
    var rest := CrlfSpec(input[i + 1..], input[i]);
    if input[i] == LF && previous != CR {
      assert out + ([CR] + [input[i]] + rest) == out + [CR] + [input[i]] + rest;
    } else {
      assert out + ([] + [input[i]] + rest) == out + [input[i]] + rest;
    }
  }

  lemma CrlfEnd(previous: byte)
    ensures CrlfSpec([], previous) == []
  {
  }

  method Unfold(raw: Text) returns (out: Text)
    ensures out == Unfolded(raw)
  {
    hide UnfoldSpec;
    out := [];
    var pendingSpace := false;
    var i := 0;
    assert raw[0..] == raw;
    while i < |raw|
      invariant 0 <= i <= |raw|
      invariant out + UnfoldSpec(raw[i..], pendingSpace, out != []) == Unfolded(raw)
    {
      var b := raw[i];
      UnfoldStep(out, raw, i, pendingSpace);
      if b == CR || b == LF || b == SPACE || b == TAB {
        pendingSpace := true;
      } else {
        if pendingSpace && out != [] {
          out := out + [SPACE];
        }
        pendingSpace := false;
        out := out + [b];
      }
      i := i + 1;
    }
    assert raw[i..] == [];
    UnfoldEnd(pendingSpace, out != []);
  }

  lemma UnfoldStep(out: Text, raw: Text, i: nat, pending: bool)
    requires i < |raw|
    ensures out + UnfoldSpec(raw[i..], pending, out != [])
      == if raw[i] == CR || raw[i] == LF || raw[i] == SPACE || raw[i] == TAB then
           out + UnfoldSpec(raw[i + 1..], true, out != [])
         else
           (if pending && out != [] then out + [SPACE] else out) + [raw[i]] + UnfoldSpec(raw[i + 1..], false, true)
  {
    assert raw[i..][1..] == raw[i + 1..];
    var rest := UnfoldSpec(raw[i + 1..], false, true);
    if pending && out != [] {
      assert out + ([SPACE] + [raw[i]] + rest) == out + [SPACE] + [raw[i]] + rest;
    } else {
      assert out + ([] + [raw[i]] + rest) == out + [raw[i]] + rest;
    }
  }

  lemma UnfoldEnd(pending: bool, started: bool)
    ensures UnfoldSpec([], pending, started) == []
  {
  }

  // One header value straight out of a raw message.
  method Peek(raw: Text, name: Text) returns (value: Option<Text>)
    ensures value == PeekSpec(SplitSpec(SplitHeaderBlock(raw).0), ToLower(name), None)
  {
    var (block, _, _) := SplitHeaderBlock(raw);
    var needle := ToLower(name);
    var current: Option<Text> := None;
    var lines := SplitLines(block);
    var i := 0;
    while i < |lines|
      invariant 0 <= i <= |lines|
      invariant PeekSpec(lines[i..], needle, current) == PeekSpec(lines, needle, None)
    {
      var line := lines[i];
      assert lines[i..][1..] == lines[i + 1..];
      i := i + 1;
      if line == [] {
        break;
      }
      if IsContinuation(line) {
        if current.Some? {
          current := Some(current.value + CRLF + line);
        }
        continue;
      }
      if current.Some? {
        var unfolded := Unfold(current.value);
        return Some(unfolded);
      }
      var colon := IndexOf(line, COLON);
      if colon < |line| && ToLower(Trim(line[..colon])) == needle {
        current := Some(line[colon + 1..]);
      }
    }
    if current.Some? {
      var unfolded := Unfold(current.value);
      return Some(unfolded);
    }
    return None;
  }

  // -- print and parse back --------------------------------------------------

  ghost predicate FieldName(name: Text) {
    name != [] && forall k :: 0 <= k < |name| ==> 33 <= name[k] <= 126 && name[k] != COLON
  }

  // Every LF is the end of a CRLF in front of a space or tab.
  ghost predicate Folded(value: Text) {
    forall k :: 0 <= k < |value| && value[k] == LF ==>
      0 < k && value[k - 1] == CR && k + 1 < |value| && (value[k + 1] == SPACE || value[k + 1] == TAB)
  }

  ghost predicate Printable(headers: seq<Header>) {
    forall k :: 0 <= k < |headers| ==> FieldName(headers[k].name) && Folded(headers[k].rawValue)
  }

  // Inside a printed block no LF is followed by CR, except the last of all.
  lemma {:induction false} NoBlankInside(headers: seq<Header>, k: nat)
    requires Printable(headers)
    requires k + 1 < |PrintFields(headers, false)| && PrintFields(headers, false)[k] == LF
    ensures PrintFields(headers, false)[k + 1] != CR
  {
    var h, rest := headers[0], PrintFields(headers[1..], false);
    var first := h.name + [COLON] + h.rawValue + CRLF;
    assert PrintFields(headers, false) == first + rest;
    if k + 1 < |first| {
      var v := k - |h.name| - 1;
      assert 0 <= v < |h.rawValue| && h.rawValue[v] == LF;
      assert first[k + 1] == h.rawValue[v + 1];
    } else if k + 1 == |first| {
      assert rest[0] == headers[1..][0].name[0];
    } else {
      NoBlankInside(headers[1..], k - |first|);
    }
  }

  lemma {:induction false} EndsInCrlf(headers: seq<Header>)
    requires headers != []
    ensures |PrintFields(headers, false)| >= 3
    ensures PrintFields(headers, false)[|PrintFields(headers, false)| - 2..] == CRLF
  {
    if |headers| > 1 {
      EndsInCrlf(headers[1..]);
    }
  }

  lemma BlankLineFound(headers: seq<Header>, body: Text)
    requires Printable(headers) && headers != []
    ensures SplitHeaderBlock(PrintFields(headers, false) + CRLF + body) == (PrintFields(headers, false), body, false)
  {
    hide PrintFields, Printable, Find, BlankAt;
    EndsInCrlf(headers);
    var block := PrintFields(headers, false);
    forall j | 0 <= j < |block| - 1 && block[j] == LF
      ensures block[j + 1] != CR
    {
      NoBlankInside(headers, j);
    }
    FirstBlankAfter(block, body);
    var raw, at := block + CRLF + body, |block| - 2;
    assert raw[..at + 2] == block && raw[at + 4..] == body;
  }

  // A block that ends a line and holds no empty one ends where the first empty line is.
  lemma FirstBlankAfter(block: Text, body: Text)
    requires |block| >= 2 && block[|block| - 2..] == CRLF
    requires forall j :: 0 <= j < |block| - 1 && block[j] == LF ==> block[j + 1] != CR
    ensures Find(block + CRLF + body, CRLF + CRLF) == |block| - 2
  {
    hide Find;
    var raw, at := block + CRLF + body, |block| - 2;
    assert block[at] == block[at..][0] && block[at + 1] == block[at..][1];
    assert BlankAt(raw, at);
    forall j | 0 <= j < at
      ensures !BlankAt(raw, j)
    {
      assert raw[j + 1] == block[j + 1];
    }
    FirstBlank(raw);
  }

  // Splitting at the first fold of a value.
  lemma FoldAt(value: Text, i: nat)
    requires Folded(value) && i < |value| && value[i] == LF && LF !in value[..i]
    ensures 0 < i && value == value[..i - 1] + CRLF + value[i + 1..]
    ensures LF !in value[..i - 1]
    ensures IsContinuation(value[i + 1..]) && Folded(value[i + 1..])
  {
    var rest := value[i + 1..];
    forall k | 0 <= k < |rest| && rest[k] == LF
      ensures 0 < k && rest[k - 1] == CR && k + 1 < |rest| && (rest[k + 1] == SPACE || rest[k + 1] == TAB)
    {
      assert value[i + 1 + k] == LF;
    }
  }

  // Lines behind a fold go back onto the value they came from.
  lemma {:induction false} FoldsAreRead(h: Header, more: Text, rest: Text)
    requires Folded(more) && IsContinuation(more)
    ensures FieldsSpec(SplitSpec(more + CRLF + rest), Some(h))
      == FieldsSpec(SplitSpec(rest), Some(Extend(h, more)))
    decreases |more|
  {
    hide FieldsSpec, SplitSpec, Folded, IndexOf, Extend;
    var i := IndexOf(more, LF);
    if i == |more| {
      ReadContinuation(h, more, rest);
    } else {
      FoldAt(more, i);
      var line, next := more[..i - 1], more[i + 1..];
      assert more + CRLF + rest == line + CRLF + (next + CRLF + rest);
      ReadContinuation(h, line, next + CRLF + rest);
      FoldsAreRead(Extend(h, line), next, rest);
      ExtendTwice(h, line, next);
    }
  }

  lemma ExtendTwice(h: Header, line: Text, next: Text)
    ensures Extend(Extend(h, line), next) == Extend(h, line + CRLF + next)
  {
    assert h.rawValue + CRLF + line + CRLF + next == h.rawValue + CRLF + (line + CRLF + next);
  }

  lemma ReadContinuation(h: Header, line: Text, rest: Text)
    requires LF !in line && IsContinuation(line)
    ensures FieldsSpec(SplitSpec(line + CRLF + rest), Some(h)) == FieldsSpec(SplitSpec(rest), Some(Extend(h, line)))
  {
    CutTerminated(line, rest);
    var lines := SplitSpec(line + CRLF + rest);
    assert lines == [line] + SplitSpec(rest);
    assert lines[1..] == SplitSpec(rest);
  }

  lemma FieldIsRead(name: Text, value: Text)
    requires FieldName(name)
    ensures FieldOf(name + [COLON] + value) == Some(Header(name, value))
    ensures !IsContinuation(name + [COLON] + value)
  {
    var line := name + [COLON] + value;
    IndexOfIs(line, COLON, |name|);
    assert line[..|name|] == name && line[|name| + 1..] == value;
    TrimTight(name);
  }

  lemma ReadField(current: Option<Header>, name: Text, value: Text, rest: Text)
    requires FieldName(name) && LF !in value
    ensures FieldsSpec(SplitSpec(name + [COLON] + value + CRLF + rest), current)
      == Flush(current) + FieldsSpec(SplitSpec(rest), Some(Header(name, value)))
  {
    var line := name + [COLON] + value;
    FieldIsRead(name, value);
    CutTerminated(line, rest);
    var lines := SplitSpec(line + CRLF + rest);
    assert lines == [line] + SplitSpec(rest);
    assert lines[1..] == SplitSpec(rest);
  }

  lemma NothingToSplit()
    ensures SplitSpec([]) == []
  {
  }

  lemma {:induction false} FieldsAreRead(headers: seq<Header>, current: Option<Header>)
    requires Printable(headers)
    ensures FieldsSpec(SplitSpec(PrintFields(headers, false)), current) == Flush(current) + headers
  {
    hide SplitSpec, IndexOf, FieldName, Folded;
    if headers == [] {
      assert SplitSpec([]) == [] by { NothingToSplit(); }
    } else {
      var h, rest := headers[0], PrintFields(headers[1..], false);
      var i := IndexOf(h.rawValue, LF);
      FieldsAreRead(headers[1..], Some(h));
      assert [h] + headers[1..] == headers;
      if i == |h.rawValue| {
        ReadField(current, h.name, h.rawValue, rest);
      } else {
        FoldedIsRead(h, i, current, rest);
        assert PrintFields(headers, false) == h.name + [COLON] + h.rawValue + CRLF + rest;
      }
    }
  }

  lemma FoldedIsRead(h: Header, i: nat, current: Option<Header>, rest: Text)
    requires FieldName(h.name) && Folded(h.rawValue)
    requires i < |h.rawValue| && h.rawValue[i] == LF && LF !in h.rawValue[..i]
    ensures FieldsSpec(SplitSpec(h.name + [COLON] + h.rawValue + CRLF + rest), current)
      == Flush(current) + FieldsSpec(SplitSpec(rest), Some(h))
  {
    hide FieldsSpec, SplitSpec, FieldName, Folded;
    FoldAt(h.rawValue, i);
    var line, next := h.rawValue[..i - 1], h.rawValue[i + 1..];
    assert h.name + [COLON] + h.rawValue + CRLF + rest == h.name + [COLON] + line + CRLF + (next + CRLF + rest);
    ReadField(current, h.name, line, next + CRLF + rest);
    FoldsAreRead(Header(h.name, line), next, rest);
  }

  // The codec is exact: what is printed is parsed back, headers and body, folding
  // and all, whatever bytes the body holds.
  lemma RoundTrip(headers: seq<Header>, body: Text)
    requires Printable(headers) && headers != []
    ensures ParseSpec(PrintSpec(Contents(headers, body, false))) == Contents(headers, body, false)
  {
    BlankLineFound(headers, body);
    FieldsAreRead(headers, None);
    assert [] + headers == headers;
  }

  // So a message in that form goes through the codec unchanged, byte for byte.
  lemma PassThrough(raw: Text, headers: seq<Header>, body: Text)
    requires Printable(headers) && headers != []
    requires raw == PrintFields(headers, false) + CRLF + body
    ensures PrintSpec(ParseSpec(raw)) == raw
  {
    RoundTrip(headers, body);
    assert raw == PrintSpec(Contents(headers, body, false));
  }

  // -- what other clients send -------------------------------------------------------

  // A field begins here, or a line that is none.
  ghost predicate Opens(lines: seq<Text>) {
    lines == [] || (lines[0] != [] && !IsContinuation(lines[0]))
  }

  lemma {:induction false} FieldsJoin(above: seq<Text>, below: seq<Text>, current: Option<Header>)
    requires Opens(below)
    ensures FieldsSpec(above + below, current) == FieldsSpec(above, current) + FieldsSpec(below, None)
  {
    if above == [] {
      assert above + below == below;
    } else {
      var line, rest := above[0], above[1..];
      assert (above + below)[1..] == rest + below;
      var next := if line == [] then current
                  else if !IsContinuation(line) then FieldOf(line)
                  else if current.Some? then Some(Extend(current.value, line)) else None;
      FieldsJoin(rest, below, next);
    }
  }

  lemma {:induction false} OrphansAreDropped(folds: seq<Text>, below: seq<Text>)
    requires forall k :: 0 <= k < |folds| ==> IsContinuation(folds[k])
    ensures FieldsSpec(folds + below, None) == FieldsSpec(below, None)
  {
    if folds == [] {
      assert folds + below == below;
    } else {
      assert (folds + below)[1..] == folds[1..] + below;
      OrphansAreDropped(folds[1..], below);
    }
  }

  // A line without a colon, or with nothing in front of it, and the continuations behind it
  // go, and leave every other field as if they had never been there.
  lemma {:induction false} MalformedIsDropped(
      above: seq<Text>, line: Text, folds: seq<Text>, below: seq<Text>)
    requires line != [] && !IsContinuation(line) && (COLON !in line || line[0] == COLON)
    requires Opens(below) && forall k :: 0 <= k < |folds| ==> IsContinuation(folds[k])
    ensures FieldsSpec(above + ([line] + (folds + below)), None) == FieldsSpec(above + below, None)
  {
    hide FieldsSpec, IsContinuation;
    var bad := [line] + (folds + below);
    FieldsJoin(above, bad, None);
    FieldsJoin(above, below, None);
    OrphansAreDropped(folds, below);
    MalformedLine(line, folds + below);
  }

  lemma MalformedLine(line: Text, rest: seq<Text>)
    requires line != [] && !IsContinuation(line) && (COLON !in line || line[0] == COLON)
    ensures FieldsSpec([line] + rest, None) == FieldsSpec(rest, None)
  {
    assert ([line] + rest)[1..] == rest;
  }

  // Without an empty line all of it is header; its line ends are bare if there are any and
  // none is a CRLF.
  lemma {:induction false} WithoutBlankAllIsHeader(raw: Text)
    requires forall k :: 0 < k < |raw| && raw[k] == LF ==> raw[k - 1] != LF
    requires forall k :: 0 <= k ==> !BlankAt(raw, k)
    ensures ParseSpec(raw).headers == FieldsSpec(SplitSpec(raw), None) && ParseSpec(raw).body == []
    ensures ParseSpec(raw).wasLfOnly
      <==> LF in raw && forall k :: 0 < k < |raw| && raw[k] == LF ==> raw[k - 1] != CR
  {
    hide Find, FieldsSpec, SplitSpec;
    FirstBlank(raw);
    FirstPair(raw, LF, LF);
    FirstPair(raw, CR, LF);
  }

  predicate PairAt(s: Text, a: byte, b: byte, j: nat) {
    j + 1 < |s| && s[j] == a && s[j + 1] == b
  }

  lemma {:induction false} FirstPair(s: Text, a: byte, b: byte)
    ensures Find(s, [a, b]) == |s| <==> forall k :: 0 < k < |s| && s[k] == b ==> s[k - 1] != a
  {
    forall j: nat | j <= |s|
      ensures [a, b] <= s[j..] <==> PairAt(s, a, b, j)
    {
      PairIs(s, a, b, j);
    }
    var at := Find(s, [a, b]);
    if at == |s| {
      forall k | 0 < k < |s| && s[k] == b
        ensures s[k - 1] != a
      {
        assert !PairAt(s, a, b, k - 1);
      }
    } else {
      assert PairAt(s, a, b, at);
    }
  }

  lemma PairIs(s: Text, a: byte, b: byte, j: nat)
    requires j <= |s|
    ensures [a, b] <= s[j..] <==> PairAt(s, a, b, j)
  {
    if PairAt(s, a, b, j) {
      assert s[j..][..2] == [a, b];
    }
    if [a, b] <= s[j..] {
      assert s[j..][0] == a && s[j..][1] == b;
    }
  }

  // -- the fast path -----------------------------------------------------------

  function UpToEmpty(lines: seq<Text>): (r: seq<Text>)
    ensures [] !in lines ==> r == lines
  {
    if lines == [] || lines[0] == [] then [] else [lines[0]] + UpToEmpty(lines[1..])
  }

  // The value peek is collecting, out of the field the full parser is collecting.
  function Watched(current: Option<Header>, needle: Text): Option<Text> {
    if current.Some? && current.value.Lower() == needle then Some(current.value.rawValue) else None
  }

  lemma {:induction false} PeekFollowsParse(lines: seq<Text>, current: Option<Header>, needle: Text)
    requires needle != []
    ensures PeekSpec(lines, needle, Watched(current, needle))
      == match FirstNamed(FieldsSpec(UpToEmpty(lines), current), needle)
         case None => None
         case Some(h) => Some(Unfolded(h.rawValue))
  {
    if lines != [] && lines[0] != [] {
      var line, rest := lines[0], lines[1..];
      assert ([line] + UpToEmpty(rest))[1..] == UpToEmpty(rest);
      if IsContinuation(line) {
        PeekFollowsParse(rest, if current.Some? then Some(Extend(current.value, line)) else None, needle);
      } else {
        PeekFollowsParse(rest, FieldOf(line), needle);
        var tail := FieldsSpec(UpToEmpty(rest), FieldOf(line));
        if current.Some? {
          assert (Flush(current) + tail)[1..] == tail;
        } else {
          assert Flush(current) + tail == tail;
        }
        PeekSeesField(line, needle);
      }
    }
  }

  lemma {:induction false} PeekSeesField(line: Text, needle: Text)
    requires needle != []
    ensures var colon := IndexOf(line, COLON);
      Watched(FieldOf(line), needle)
        == if colon < |line| && ToLower(Trim(line[..colon])) == needle then Some(line[colon + 1..]) else None
  {
    var colon := IndexOf(line, COLON);
    if colon == 0 {
      assert line[..0] == [];
      assert Trim([]) == [];
    }
  }

  // What peek returns, on every input: the value a full parse finds in the
  // lines above the first empty one.
  lemma {:induction false} PeekIsParseAboveBlank(raw: Text, name: Text)
    requires name != []
    ensures var lines := SplitSpec(SplitHeaderBlock(raw).0);
      PeekSpec(lines, ToLower(name), None) == ValueOf(FieldsSpec(UpToEmpty(lines), None), name)
  {
    PeekFollowsParse(SplitSpec(SplitHeaderBlock(raw).0), None, ToLower(name));
  }

  // With no empty line inside the block that is the full parse.
  lemma PeekIsParse(raw: Text, name: Text)
    requires name != []
    requires [] !in SplitSpec(SplitHeaderBlock(raw).0)
    ensures PeekSpec(SplitSpec(SplitHeaderBlock(raw).0), ToLower(name), None) == ValueOf(ParseSpec(raw).headers, name)
  {
    PeekIsParseAboveBlank(raw, name);
  }

  // Below an empty line the fast path finds nothing, while the full parse goes on as if the
  // line were not there.
  lemma PeekStopsAtBlank(above: seq<Text>, below: seq<Text>, needle: Text, current: Option<Header>)
    requires needle != [] && [] !in above
    requires FirstNamed(FieldsSpec(above, None), needle).None?
    ensures PeekSpec(above + [[]] + below, needle, None) == None
    ensures FieldsSpec(above + [[]] + below, current) == FieldsSpec(above + below, current)
  {
    UpToFirstEmpty(above, below);
    PeekFollowsParse(above + [[]] + below, None, needle);
    BlankIsSkipped(above, below, current);
  }

  lemma {:induction false} BlankIsSkipped(above: seq<Text>, below: seq<Text>, current: Option<Header>)
    ensures FieldsSpec(above + [[]] + below, current) == FieldsSpec(above + below, current)
  {
    var lines, without := above + [[]] + below, above + below;
    if above == [] {
      assert lines[1..] == below && without == below;
    } else {
      assert lines[1..] == above[1..] + [[]] + below && without[1..] == above[1..] + below;
      assert lines[0] == above[0] == without[0];
      var line := above[0];
      BlankIsSkipped(above[1..], below, current);
      BlankIsSkipped(above[1..], below, if current.Some? then Some(Extend(current.value, line)) else None);
      BlankIsSkipped(above[1..], below, FieldOf(line));
    }
  }

  lemma {:induction false} UpToFirstEmpty(above: seq<Text>, below: seq<Text>)
    requires [] !in above
    ensures UpToEmpty(above + [[]] + below) == above
  {
    var lines := above + [[]] + below;
    if above != [] {
      assert lines[1..] == above[1..] + [[]] + below;
      assert lines[0] == above[0] && above[0] in above;
      UpToFirstEmpty(above[1..], below);
    }
  }

  // -- messages with CRLF line ends ---------------------------------------------------

  // Every LF ends a CRLF, as in every message that came through DATA.
  ghost predicate CrlfOnly(raw: Text) {
    forall i :: 0 <= i < |raw| && raw[i] == LF ==> i > 0 && raw[i - 1] == CR
  }

  // An empty line begins behind the line that ends here.
  predicate BlankAt(s: Text, j: nat) {
    j + 4 <= |s| && s[j] == CR && s[j + 1] == LF && s[j + 2] == CR && s[j + 3] == LF
  }

  lemma BlankIs(s: Text, j: nat)
    requires j <= |s|
    ensures CRLF + CRLF <= s[j..] <==> BlankAt(s, j)
  {
    if BlankAt(s, j) {
      assert s[j..][..4] == CRLF + CRLF;
    }
    if CRLF + CRLF <= s[j..] {
      assert forall k :: 0 <= k < 4 ==> s[j..][k] == (CRLF + CRLF)[k];
    }
  }

  ghost predicate NoBlankIn(block: Text) {
    forall j :: 0 <= j ==> !BlankAt(block, j)
  }

  lemma {:induction false} FirstBlank(s: Text)
    ensures var at := Find(s, CRLF + CRLF);
      && (at < |s| ==> BlankAt(s, at)) && forall j :: 0 <= j < at ==> !BlankAt(s, j)
  {
    var at := Find(s, CRLF + CRLF);
    if at < |s| {
      BlankIs(s, at);
    }
    forall j | 0 <= j < at
      ensures !BlankAt(s, j)
    {
      BlankIs(s, j);
    }
  }

  lemma NoDoubleLf(raw: Text)
    requires CrlfOnly(raw)
    ensures Find(raw, [LF, LF]) == |raw|
  {
    var at := Find(raw, [LF, LF]);
    assert forall j :: 0 <= j < |raw| && [LF, LF] <= raw[j..] ==> raw[j..][0] == LF && raw[j..][1] == LF;
  }

  // The block of such a message holds no empty line but one it begins with.
  lemma {:induction false} BlockOfCrlf(raw: Text)
    requires CrlfOnly(raw)
    ensures var block := SplitHeaderBlock(raw).0;
      block <= raw && CrlfOnly(block) && NoBlankIn(block) && (CRLF <= block <==> CRLF <= raw)
  {
    hide Find;
    FirstBlank(raw);
    NoDoubleLf(raw);
    var block := SplitHeaderBlock(raw).0;
    forall j | 0 <= j
      ensures !BlankAt(block, j)
    {
      assert BlankAt(block, j) ==> BlankAt(raw, j);
    }
  }

  lemma LineIsThere(block: Text, i: nat, k: nat)
    requires CrlfOnly(block) && NoBlankIn(block) && !(CRLF <= block)
    requires i + k < |block| && (i > 0 ==> i >= 2 && block[i - 2] == CR && block[i - 1] == LF)
    requires block[i + k] == LF
    ensures k >= 2 && block[i + k - 1] == CR
  {
    if i == 0 {
      assert block[0] == CR && block[1] == LF ==> CRLF <= block;
    } else {
      assert !BlankAt(block, i - 2);
    }
  }

  lemma CutIs(s: Text)
    requires s != []
    ensures IndexOf(s, LF) >= 2 ==> CutLine(s).0 != []
    ensures IndexOf(s, LF) < |s| ==> CutLine(s).1 == s[IndexOf(s, LF) + 1..]
    ensures IndexOf(s, LF) == |s| ==> CutLine(s) == (s, [])
  {
    hide IndexOf;
  }

  lemma {:induction false} LinesAreThere(block: Text, i: nat)
    requires CrlfOnly(block) && NoBlankIn(block) && !(CRLF <= block)
    requires i <= |block| && (i > 0 ==> i >= 2 && block[i - 2] == CR && block[i - 1] == LF)
    ensures [] !in SplitSpec(block[i..])
    decreases |block| - i
  {
    hide IndexOf, NoBlankIn, CrlfOnly, CutLine;
    var s := block[i..];
    var k := IndexOf(s, LF);
    if s != [] {
      CutIs(s);
      if k < |s| {
        LineIsThere(block, i, k);
        assert s[k + 1..] == block[i + k + 1..];
        LinesAreThere(block, i + k + 1);
      } else {
        NothingToSplit();
      }
    }
  }

  // On such a message the fast path agrees with the full parse for every name, unless the
  // message begins with an empty line; then it finds nothing at all. So they differ exactly
  // when it does begin so and the parse finds the name.
  lemma {:induction false} PeekOfCrlf(raw: Text, name: Text)
    requires CrlfOnly(raw) && name != []
    ensures var peeked := PeekSpec(SplitSpec(SplitHeaderBlock(raw).0), ToLower(name), None);
      var parsed := ValueOf(ParseSpec(raw).headers, name);
      && peeked == (if CRLF <= raw then None else parsed)
      && (peeked == parsed <==> !(CRLF <= raw) || parsed == None)
  {
    hide ParseSpec, SplitHeaderBlock, FieldsSpec, PeekSpec, ValueOf;
    var block := SplitHeaderBlock(raw).0;
    BlockOfCrlf(raw);
    if CRLF <= raw {
      FirstIsBlank(block);
      PeekOfBlank(SplitSpec(block), ToLower(name));
    } else {
      LinesAreThere(block, 0);
      assert block[0..] == block;
      PeekIsParse(raw, name);
    }
  }

  lemma FirstIsBlank(block: Text)
    requires CRLF <= block
    ensures SplitSpec(block) != [] && SplitSpec(block)[0] == []
  {
    IndexOfIs(block, LF, 1);
    assert block[..1] == [CR];
  }

  lemma PeekOfBlank(lines: seq<Text>, needle: Text)
    requires lines != [] && lines[0] == []
    ensures PeekSpec(lines, needle, None) == None
  {
  }

  // That case is real: in front of any printed header list an empty line blinds the fast
  // path to every field, while the full parse still finds them all.
  lemma {:induction false} LeadingBlankHides(headers: seq<Header>, body: Text, name: Text)
    requires Printable(headers) && headers != [] && name != []
    ensures ParseSpec(CRLF + (PrintFields(headers, false) + CRLF + body)) == Contents(headers, body, false)
    ensures
      PeekSpec(SplitSpec(SplitHeaderBlock(CRLF + (PrintFields(headers, false) + CRLF + body)).0), ToLower(name), None)
      == None
  {
    hide FieldsSpec, SplitSpec, PrintFields, PeekSpec, Find;
    var fields := PrintFields(headers, false);
    var inner := fields + CRLF + body;
    BlankLineFound(headers, body);
    FieldsBeginVisibly(headers);
    LeadingBlankStays(inner, fields, body);
    LeadingBlankLine(fields);
    BlankIsSkipped([], SplitSpec(fields), None);
    assert [] + [[]] + SplitSpec(fields) == [[]] + SplitSpec(fields);
    assert [] + SplitSpec(fields) == SplitSpec(fields);
    FieldsAreRead(headers, None);
    assert Flush(None) + headers == headers;
    PeekOfBlank([[]] + SplitSpec(fields), ToLower(name));
  }

  lemma FieldsBeginVisibly(headers: seq<Header>)
    requires Printable(headers) && headers != []
    ensures PrintFields(headers, false) != [] && PrintFields(headers, false)[0] != CR
      && PrintFields(headers, false)[0] != LF
  {
    var h := headers[0];
    assert FieldName(h.name);
    assert PrintFields(headers, false)[0] == h.name[0];
  }

  lemma LeadingBlankLine(fields: Text)
    ensures SplitSpec(CRLF + fields) == [[]] + SplitSpec(fields)
  {
    CutTerminated([], fields);
    assert [] + CRLF + fields == CRLF + fields;
  }

  // An empty line in front moves the end of the block by its two bytes.
  lemma LeadingBlankStays(inner: Text, fields: Text, body: Text)
    requires inner != [] && inner[0] != CR && inner[0] != LF
    requires inner == fields + CRLF + body && SplitHeaderBlock(inner) == (fields, body, false)
    requires Find(inner, CRLF + CRLF) < |inner|
    ensures SplitHeaderBlock(CRLF + inner) == (CRLF + fields, body, false)
  {
    hide Find;
    var raw, at := CRLF + inner, Find(inner, CRLF + CRLF);
    FirstBlank(inner);
    FirstBlank(raw);
    assert raw[2] == inner[0];
    forall j: nat
      ensures BlankAt(raw, j + 2) == BlankAt(inner, j)
    {
    }
    forall j | 0 <= j < at + 2
      ensures !BlankAt(raw, j)
    {
      assert j >= 2 ==> BlankAt(raw, (j - 2) + 2) == BlankAt(inner, j - 2);
    }
    assert BlankAt(raw, at + 2);
    assert raw[..at + 4] == CRLF + inner[..at + 2] && raw[at + 6..] == inner[at + 4..];
  }

  // -- messages with bare LF line ends ----------------------------------------------------

  // CR and LF come only together.
  ghost predicate Crisp(s: Text) {
    || s == []
    || (s[0] != CR && s[0] != LF && Crisp(s[1..]))
    || (s[0] == CR && |s| > 1 && s[1] == LF && Crisp(s[2..]))
  }

  // The text with bare LF line ends.
  function Bare(s: Text): Text {
    if s == [] then [] else (if s[0] == CR then [] else [s[0]]) + Bare(s[1..])
  }

  lemma {:induction false} BareJoin(a: Text, b: Text)
    ensures Bare(a + b) == Bare(a) + Bare(b)
    ensures CR !in a ==> Bare(a) == a
    ensures CR !in Bare(a)
  {
    if a == [] {
      assert a + b == b;
    } else {
      BareJoin(a[1..], b);
      assert (a + b)[1..] == a[1..] + b;
      assert a == [a[0]] + a[1..];
    }
  }

  lemma {:induction false} CrispJoin(a: Text, b: Text)
    requires Crisp(a) && Crisp(b)
    ensures Crisp(a + b)
    decreases |a|
  {
    if a == [] {
      assert a + b == b;
    } else {
      var n := if a[0] == CR then 2 else 1;
      assert (a + b)[n..] == a[n..] + b;
      CrispJoin(a[n..], b);
    }
  }

  lemma {:induction false} PlainIsCrisp(s: Text)
    requires CR !in s && LF !in s
    ensures Crisp(s)
  {
    if s != [] {
      PlainIsCrisp(s[1..]);
    }
  }

  lemma BareStep(s: Text)
    requires Crisp(s) && s != []
    ensures s[0] != CR ==> s[0] != LF && Crisp(s[1..]) && Bare(s) == [s[0]] + Bare(s[1..])
    ensures s[0] == CR ==> |s| > 1 && s[1] == LF && Crisp(s[2..]) && Bare(s) == [LF] + Bare(s[2..])
  {
    if s[0] == CR {
      assert s[1..][0] == LF && s[1..][1..] == s[2..];
    }
  }

  // Normalising puts back the CRs that were left out.
  lemma {:induction false} NormalizedBare(s: Text, rest: Text, previous: byte)
    requires Crisp(s) && previous != CR
    ensures CrlfSpec(Bare(s) + rest, previous) == s + CrlfSpec(rest, if s == [] then previous else s[|s| - 1])
    decreases |s|
  {
    if s == [] {
      assert Bare(s) + rest == rest;
    } else {
      hide Bare, Crisp, CrlfSpec;
      BareStep(s);
      if s[0] == CR {
        assert s == CRLF + s[2..];
        NormalizedBare(s[2..], rest, LF);
        CrlfFirst(LF, Bare(s[2..]), rest, previous);
        Regroup(CRLF, s[2..], CrlfSpec(rest, s[|s| - 1]));
      } else {
        assert s == [s[0]] + s[1..];
        NormalizedBare(s[1..], rest, s[0]);
        CrlfFirst(s[0], Bare(s[1..]), rest, previous);
        Regroup([s[0]], s[1..], CrlfSpec(rest, s[|s| - 1]));
      }
    }
  }

  lemma Regroup(a: Text, b: Text, c: Text)
    ensures a + (b + c) == a + b + c
  {
  }

  lemma CrlfFirst(b: byte, s: Text, rest: Text, previous: byte)
    requires previous != CR
    ensures CrlfSpec([b] + s + rest, previous) == (if b == LF then CRLF else [b]) + CrlfSpec(s + rest, b)
  {
    assert ([b] + s + rest)[1..] == s + rest;
  }

  // What has its CRs is not changed.
  lemma {:induction false} NormalizedStays(s: Text, previous: byte)
    requires Crisp(s)
    ensures CrlfSpec(s, previous) == s
    decreases |s|
  {
    if s != [] {
      if s[0] == CR {
        NormalizedStays(s[2..], LF);
        assert s[1..][1..] == s[2..];
        assert s == [s[0]] + ([s[1]] + s[2..]);
      } else {
        NormalizedStays(s[1..], s[0]);
        assert s == [s[0]] + s[1..];
      }
    }
  }

  lemma {:induction false} FirstCrispLine(s: Text) returns (line: Text, rest: Text)
    requires Crisp(s)
    ensures LF !in line && CR !in line && Crisp(rest)
    ensures LF in s ==> s == line + CRLF + rest && Bare(s) == line + [LF] + Bare(rest)
    ensures LF !in s ==> s == line == Bare(s)
    decreases |s|
  {
    if s == [] {
      return [], [];
    }
    BareStep(s);
    hide Bare, Crisp;
    if s[0] == CR {
      line, rest := [], s[2..];
      assert s == line + CRLF + rest && Bare(s) == line + [LF] + Bare(rest);
    } else {
      line, rest := FirstCrispLine(s[1..]);
      assert s == [s[0]] + s[1..];
      line := [s[0]] + line;
      if LF in s {
        assert LF in s[1..];
        assert s == line + CRLF + rest && Bare(s) == line + [LF] + Bare(rest);
      }
    }
  }

  // So the lines are the same.
  lemma {:induction false} BareLines(s: Text)
    requires Crisp(s)
    ensures SplitSpec(Bare(s)) == SplitSpec(s)
    decreases |s|
  {
    hide Crisp, Bare, CutLine;
    var line, rest := FirstCrispLine(s);
    if LF in s {
      CutTerminated(line, rest);
      CutBare(line, Bare(rest));
      BareLines(rest);
    }
  }

  lemma CutBare(line: Text, rest: Text)
    requires LF !in line && CR !in line
    ensures CutLine(line + [LF] + rest) == (line, rest)
  {
    var s := line + [LF] + rest;
    IndexOfIs(s, LF, |line|);
    assert s[..|line|] == line && s[|line| + 1..] == rest;
  }

  // No empty line comes up.
  lemma {:induction false} BareKeepsApart(s: Text)
    requires Crisp(s) && forall k :: 0 <= k < |s| - 1 && s[k] == LF ==> s[k + 1] != CR
    ensures forall k :: 0 <= k < |Bare(s)| - 1 && Bare(s)[k] == LF ==> Bare(s)[k + 1] != LF
    ensures s != [] && s[0] != CR ==> Bare(s) != [] && Bare(s)[0] != LF
    decreases |s|
  {
    if s != [] {
      BareStep(s);
      var n := if s[0] == CR then 2 else 1;
      var after := s[n..];
      assert forall k :: 0 <= k < |after| ==> after[k] == s[k + n];
      hide Bare;
      BareKeepsApart(after);
      assert s[0] == CR && after != [] ==> after[0] != CR;
    }
  }

  lemma {:induction false} FieldsAreCrisp(headers: seq<Header>)
    requires Printable(headers) && forall h :: h in headers ==> Crisp(h.rawValue)
    ensures Crisp(PrintFields(headers, false)) && PrintFields(headers, true) == PrintFields(headers, false)
  {
    if headers != [] {
      FieldsAreCrisp(headers[1..]);
      var h := headers[0];
      assert h in headers;
      NormalizedStays(h.rawValue, 0);
      var name := h.name + [COLON];
      PlainIsCrisp(name);
      PlainIsCrisp([]);
      CrispJoin(name, h.rawValue);
      CrispJoin(name + h.rawValue, CRLF);
      CrispJoin(name + h.rawValue + CRLF, PrintFields(headers[1..], false));
    }
  }

  lemma BareBlankFound(block: Text, body: Text)
    requires Crisp(block) && |block| >= 2 && block[|block| - 2..] == CRLF && CR !in body
    requires forall k :: 0 <= k < |block| - 1 && block[k] == LF ==> block[k + 1] != CR
    ensures SplitHeaderBlock(Bare(block) + [LF] + body) == (Bare(block), body, true)
  {
    hide Crisp, Bare, Find;
    BareJoin(block, []);
    BareKeepsApart(block);
    BareEnd(block);
    NoCrNoBlank(Bare(block) + [LF] + body);
    DoubleLf(Bare(block), body);
    SplitAtDoubleLf(Bare(block), body);
  }

  lemma {:induction false} SplitAtDoubleLf(block: Text, body: Text)
    requires block != []
    requires var raw := block + [LF] + body;
      Find(raw, CRLF + CRLF) == |raw| && Find(raw, [LF, LF]) == |block| - 1
    ensures SplitHeaderBlock(block + [LF] + body) == (block, body, true)
  {
    hide Find;
    var raw := block + [LF] + body;
    assert raw[..|block|] == block && raw[|block| + 1..] == body;
  }

  lemma BareEnd(block: Text)
    requires |block| >= 2 && block[|block| - 2..] == CRLF
    ensures Bare(block) != [] && Bare(block)[|Bare(block)| - 1] == LF
  {
    var front := block[..|block| - 2];
    assert block == front + [CR] + [LF];
    BareJoin(front + [CR], [LF]);
    BareJoin([LF], []);
  }

  lemma NoCrNoBlank(raw: Text)
    requires CR !in raw
    ensures Find(raw, CRLF + CRLF) == |raw|
  {
    assert forall j :: 0 <= j < |raw| ==> raw[j..][0] == raw[j];
  }

  lemma DoubleLf(block: Text, body: Text)
    requires block != [] && block[|block| - 1] == LF
    requires forall k :: 0 <= k < |block| - 1 && block[k] == LF ==> block[k + 1] != LF
    ensures Find(block + [LF] + body, [LF, LF]) == |block| - 1
  {
    var raw := block + [LF] + body;
    var at := |block| - 1;
    assert raw[at..][..2] == [LF, LF];
    forall j | 0 <= j < at
      ensures !([LF, LF] <= raw[j..])
    {
      assert raw[j..][0] == block[j] && raw[j..][1] == block[j + 1];
    }
  }

  // A message that comes with bare LF line ends is read as the one with CRLFs, and goes out
  // with them, fields, folds and body alike, and otherwise as it came.
  lemma {:induction false} BareRoundTrip(headers: seq<Header>, body: Text)
    requires Printable(headers) && headers != [] && CR !in body
    requires forall h :: h in headers ==> Crisp(h.rawValue)
    ensures var raw := Bare(PrintFields(headers, false)) + [LF] + body;
      && ParseSpec(raw) == Contents(headers, body, true)
      && PrintSpec(ParseSpec(raw)) == Normalized(raw) == PrintFields(headers, false) + CRLF + Normalized(body)
  {
    hide PrintFields, Crisp, Printable, FieldsSpec, SplitSpec, Bare, CrlfSpec, SplitHeaderBlock;
    var block := PrintFields(headers, false);
    FieldsAreCrisp(headers);
    EndsInCrlf(headers);
    forall k | 0 <= k < |block| - 1 && block[k] == LF
      ensures block[k + 1] != CR
    {
      NoBlankInside(headers, k);
    }
    BareBlankFound(block, body);
    BareLines(block);
    FieldsAreRead(headers, None);
    assert [] + headers == headers;
    assert Bare(block) + [LF] + body == Bare(block) + ([LF] + body);
    NormalizedBare(block, [LF] + body, 0);
    NormalizedBehind(body, LF);
    assert block + (CRLF + Normalized(body)) == block + CRLF + Normalized(body);
  }

  lemma NormalizedBehind(body: Text, previous: byte)
    requires previous != CR
    ensures CrlfSpec([LF] + body, previous) == CRLF + Normalized(body)
  {
    assert ([LF] + body)[1..] == body;
  }
}
