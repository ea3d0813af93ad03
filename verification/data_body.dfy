// Reading a DATA payload: dot-unstuffing, the end marker and the size limit
// (src/smtp/session.rs, read_body), against section 4.5.2 of RFC 5321.
module DataBody {
  import opened Bytes
  import opened Lines

  const MAX_COMMAND_LINE: nat := 4096

  datatype BodyResult = Complete(raw: Text) | TooLarge(limit: nat) | Aborted

  // -- what a payload is ---------------------------------------------------

  datatype Marked = NoMarker | Marker(lines: seq<Text>, rest: Text)

  // The lines in front of the first line that is a single dot, and the bytes
  // behind it.
  function UpToMarker(s: Text): Marked
    decreases |s|
  {
    if s == [] then NoMarker
    else
      var (line, rest) := CutLine(s);
      if line == [DOT] then Marker([], rest)
      else
        match UpToMarker(rest)
        case NoMarker => NoMarker
        case Marker(lines, rest) => Marker([line] + lines, rest)
  }

  function Unstuff(line: Text): Text {
    if line != [] && line[0] == DOT then line[1..] else line
  }

  // The message the lines stand for, each ended by CRLF.
  function Message(lines: seq<Text>): Text {
    if lines == [] then [] else Unstuff(lines[0]) + CRLF + Message(lines[1..])
  }

  // The outcome of reading a payload of at most limit bytes off a stream: no
  // buffer, no line limit, no running total.
  function Payload(s: Text, limit: nat): (BodyResult, Text) {
    match UpToMarker(s)
    case NoMarker => (Aborted, [])
    case Marker(lines, rest) =>
      (if |Message(lines)| <= limit then Complete(Message(lines)) else TooLarge(limit), rest)
  }

  // -- the reader ------------------------------------------------------------

  // What remains to be reported when raw has been collected already, or the
  // message is known to be over size.
  ghost function Resume(s: Text, raw: Text, overSize: bool, limit: nat): (BodyResult, Text) {
    match UpToMarker(s)
    case NoMarker => (Aborted, [])
    case Marker(lines, rest) =>
      (if overSize || |raw + Message(lines)| > limit then TooLarge(limit) else Complete(raw + Message(lines)), rest)
  }

  method ReadBody(reader: LineReader, limit: nat) returns (r: BodyResult)
    requires reader.Valid()
    modifies reader
    ensures reader.Valid()
    ensures (r, reader.Remaining()) == Payload(old(reader.Remaining()), limit)
  {
    hide CutLine, UpToMarker, Message, Unstuff;
    var lineLimit := limit + MAX_COMMAND_LINE;
    var raw: Text := [];
    var overSize := false;
    ResumeIsPayload(reader.Remaining(), limit);
    while true
      invariant reader.Valid()
      invariant overSize || |raw| <= limit
      invariant Resume(reader.Remaining(), raw, overSize, limit) == Payload(old(reader.Remaining()), limit)
      decreases |reader.Remaining()|
    {
      ghost var s := reader.Remaining();
      var next := reader.ReadLine(lineLimit);
      ResumeStep(s, raw, overSize, limit);
      match next
      case Eof => return Aborted;
      case TooLong => overSize := true;
      case Line(line) =>
        if line == [DOT] {
          return if overSize then TooLarge(limit) else Complete(raw);
        }
        if !overSize {
          var payload := Unstuff(line);
          if |raw| + |payload| + 2 > limit {
            overSize := true;
            raw := [];
          } else {
            raw := raw + payload + CRLF;
          }
        }
    }
  }

  lemma ResumeIsPayload(s: Text, limit: nat)
    ensures Resume(s, [], false, limit) == Payload(s, limit)
  {
    match UpToMarker(s)
    case NoMarker =>
    case Marker(lines, rest) => assert [] + Message(lines) == Message(lines);
  }

  lemma {:induction false} ResumeStep(s: Text, raw: Text, overSize: bool, limit: nat)
    requires overSize || |raw| <= limit
    ensures s == [] ==> Resume(s, raw, overSize, limit) == (Aborted, [])
    ensures s != [] ==>
      var (line, rest) := CutLine(s);
      var payload := Unstuff(line);
      && (line == [DOT] ==>
            Resume(s, raw, overSize, limit) == (if overSize then TooLarge(limit) else Complete(raw), rest))
      && (line != [DOT] && !overSize && |raw| + |payload| + 2 <= limit ==>
        Resume(s, raw, overSize, limit) == Resume(rest, raw + payload + CRLF, false, limit))
      && (line != [DOT] && (overSize || |raw| + |payload| + 2 > limit) ==>
        forall other :: Resume(s, raw, overSize, limit) == Resume(rest, other, true, limit))
      && (|line| > limit + MAX_COMMAND_LINE ==> line != [DOT] && |raw| + |payload| + 2 > limit)
  {
    if s != [] {
      var (line, rest) := CutLine(s);
      if line == [DOT] {
        assert raw + Message([]) == raw;
      } else if UpToMarker(rest).Marker? {
        var lines := UpToMarker(rest).lines;
        assert ([line] + lines)[1..] == lines;
        assert raw + Message([line] + lines) == (raw + Unstuff(line) + CRLF) + Message(lines);
      }
    }
  }

  // -- transparency ----------------------------------------------------------

  // The sender's half of the rule: a leading dot is doubled.
  function Stuff(line: Text): Text {
    if line != [] && line[0] == DOT then [DOT] + line else line
  }

  function Wire(lines: seq<Text>): Text {
    if lines == [] then [DOT] + CRLF else Stuff(lines[0]) + CRLF + Wire(lines[1..])
  }

  // The lines as the sender wrote them, each ended by CRLF.
  function Plain(lines: seq<Text>): Text {
    if lines == [] then [] else lines[0] + CRLF + Plain(lines[1..])
  }

  lemma {:induction false} WireIsUndone(lines: seq<Text>, rest: Text)
    requires forall k :: 0 <= k < |lines| ==> LF !in lines[k]
    ensures UpToMarker(Wire(lines) + rest).Marker?
    ensures UpToMarker(Wire(lines) + rest).rest == rest
    ensures Message(UpToMarker(Wire(lines) + rest).lines) == Plain(lines)
  {
    if lines == [] {
      CutTerminated([DOT], rest);
    } else {
      var line, more := Stuff(lines[0]), Wire(lines[1..]) + rest;
      assert Wire(lines) + rest == line + CRLF + more;
      CutTerminated(line, more);
      WireIsUndone(lines[1..], rest);
      var tail := UpToMarker(more).lines;
      assert ([line] + tail)[1..] == tail;
      assert Unstuff(line) == lines[0];
    }
  }

  // Whatever the lines are, dots and all, the receiver gets exactly them, or a
  // refusal when they are over the limit; either way it stops exactly behind
  // the end marker.
  lemma Transparent(lines: seq<Text>, rest: Text, limit: nat)
    requires forall k :: 0 <= k < |lines| ==> LF !in lines[k]
    ensures Payload(Wire(lines) + rest, limit)
      == (if |Plain(lines)| <= limit then Complete(Plain(lines)) else TooLarge(limit), rest)
  {
    WireIsUndone(lines, rest);
  }

  // -- a stream that ends too early ------------------------------------------------------

  // The last line of the text, which nothing ends, is a single dot.
  predicate StopsAtDot(s: Text) {
    s == [DOT] || (|s| >= 2 && s[|s| - 2..] == [LF, DOT])
  }

  lemma {:induction false} UnendedMarker(s: Text)
    requires LF !in s
    ensures UpToMarker(s).Marker? <==> StopsAtDot(s)
    ensures s == [DOT] ==> UpToMarker(s) == Marker([], [])
  {
    if s != [] {
      IndexOfIs(s, LF, |s|);
      assert UpToMarker([]).NoMarker?;
      if |s| >= 2 {
        assert s[|s| - 2..][0] == s[|s| - 2];
      }
    }
  }

  lemma StopsBehind(front: Text, s: Text)
    requires front != [] && front[|front| - 1] == LF
    ensures StopsAtDot(front + s) <==> StopsAtDot(s)
  {
    var all := front + s;
    if |s| >= 2 {
      assert all[|all| - 2..] == s[|s| - 2..];
    } else if |s| == 1 {
      assert all[|all| - 2..] == [LF] + s && ([LF] + s)[1] == s[0];
    } else {
      assert all == front;
      assert |all| >= 2 ==> all[|all| - 2..][1] == LF;
    }
  }

  lemma {:induction false} MarkerBehind(line: Text, rest: Text)
    requires LF !in line && line != [DOT]
    ensures UpToMarker(line + CRLF + rest).Marker? <==> UpToMarker(rest).Marker?
  {
    hide CutLine;
    CutTerminated(line, rest);
  }

  // A connection lost before the end marker is complete hands nothing on, unless it is lost
  // right behind the dot of the marker or the first of two dots that begin a line: then what
  // came before counts as the whole message.
  lemma {:induction false} CutOffExactlyWhen(lines: seq<Text>, n: nat, limit: nat)
    requires (forall k :: 0 <= k < |lines| ==> LF !in lines[k]) && n < |Wire(lines)|
    ensures Payload(Wire(lines)[..n], limit).0 == Aborted <==> !StopsAtDot(Wire(lines)[..n])
    decreases |lines|
  {
    hide UpToMarker, CutLine, StopsAtDot;
    var wire := Wire(lines);
    var s := wire[..n];
    if lines == [] {
      assert wire == [DOT] + CRLF && LF !in s;
      UnendedMarker(s);
    } else {
      var line, more := Stuff(lines[0]), Wire(lines[1..]);
      var first := line + CRLF;
      assert wire == first + more;
      if n < |first| {
        assert s == first[..n];
        UnendedMarker(s);
      } else {
        var rest := more[..n - |first|];
        assert s == line + CRLF + rest;
        MarkerBehind(line, rest);
        StopsBehind(first, rest);
        CutOffExactlyWhen(lines[1..], n - |first|, limit);
      }
    }
  }
}
