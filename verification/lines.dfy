// The bounded line reader of the inbound session (src/smtp/lines.rs). The
// socket is the list of chunks it will deliver, so every chunking is a value.
module Lines {
  import opened Bytes
  import opened Wrappers

  const CHUNK: nat := 16384

  datatype ReadLine = Line(line: Text) | TooLong | Eof

  // -- what a line is, with no buffer and no chunks ----------------------

  // Everything before the first LF, and everything after it.
  function CutLine(s: Text): (r: (Text, Text))
    requires s != []
    ensures |r.1| < |s|
  {
    var i := IndexOf(s, LF);
    if i < |s| then (StripCr(s[..i]), s[i + 1..]) else (s, [])
  }

  // One CR in front of the LF belongs to the terminator.
  function StripCr(line: Text): (r: Text)
    ensures r <= line && |line| - 1 <= |r|
  {
    if line != [] && line[|line| - 1] == CR then line[..|line| - 1] else line
  }

  function NextLine(s: Text, maxLen: nat): (r: (ReadLine, Text))
    ensures s != [] ==> |r.1| < |s|
  {
    if s == [] then (Eof, [])
    else
      var (line, rest) := CutLine(s);
      (if |line| > maxLen then TooLong else Line(line), rest)
  }

  ghost function Flatten(chunks: seq<Text>): Text {
    if chunks == [] then [] else chunks[0] + Flatten(chunks[1..])
  }

  // -- the reader --------------------------------------------------------

  class LineReader {
    // chunks the socket has still to deliver; none left is end of file
    var incoming: seq<Text>
    var buffer: Text
    var position: nat
    // most bytes ever held unread
    ghost var peak: nat

    ghost predicate Valid()
      reads this
    {
      && position <= |buffer|
      && |buffer| - position <= peak
      && (forall k :: 0 <= k < |incoming| ==> 0 < |incoming[k]| <= CHUNK)
    }

    // Bytes read but not yet consumed.
    function Unread(): Text
      reads this
      requires Valid()
    {
      buffer[position..]
    }

    // The bytes not yet consumed, wherever they are.
    ghost function Remaining(): Text
      reads this
      requires Valid()
    {
      Unread() + Flatten(incoming)
    }

    constructor (chunks: seq<Text>)
      requires forall k :: 0 <= k < |chunks| ==> 0 < |chunks[k]| <= CHUNK
      ensures Valid() && Remaining() == Flatten(chunks) && peak == 0
    {
      incoming := chunks;
      buffer := [];
      position := 0;
      peak := 0;
    }

    // Moves past count unread bytes and empties a drained buffer.
    method Consume(count: nat)
      requires Valid() && count <= |Unread()|
      modifies this
      ensures Valid() && incoming == old(incoming) && peak == old(peak)
      ensures Unread() == old(Unread())[count..]
    {
      position := position + count;
      if position == |buffer| {
        buffer := [];
        position := 0;
      }
    }

    // Reads one more chunk behind what is buffered; 0 means end of file.
    method Fill() returns (count: nat)
      requires Valid()
      modifies this
      ensures Valid() && Remaining() == old(Remaining())
      ensures |incoming| <= |old(incoming)| && (count > 0 ==> |incoming| < |old(incoming)|)
      ensures old(Unread()) <= Unread() && |Unread()| == |old(Unread())| + count
      ensures count == 0 ==> Flatten(incoming) == []
      ensures peak <= if old(peak) > |old(Unread())| + CHUNK then old(peak) else |old(Unread())| + CHUNK
    {
      if position > 0 {
        buffer := buffer[position..];
        position := 0;
      }
      if incoming == [] {
        count := 0;
      } else {
        count := |incoming[0]|;
        buffer := buffer + incoming[0];
        incoming := incoming[1..];
        peak := if |buffer| > peak then |buffer| else peak;
      }
    }

    // Drops bytes up to and including the next LF, or all of them.
    method DiscardLine()
      requires Valid()
      modifies this
      ensures Valid()
      ensures Remaining() == if old(Remaining()) == [] then [] else CutLine(old(Remaining())).1
      ensures peak <= if old(peak) > CHUNK then old(peak) else CHUNK
    {
      hide IndexOf, CutLine, Flatten;
      while true
        invariant Valid()
        invariant (if old(Remaining()) == [] then [] else CutLine(old(Remaining())).1)
          == if Remaining() == [] then [] else CutLine(Remaining()).1
        invariant peak <= if old(peak) > CHUNK then old(peak) else CHUNK
        decreases |incoming|
      {
        ghost var front, back := Unread(), Flatten(incoming);
        var index := IndexOf(Unread(), LF);
        if index < |Unread()| {
          CutAt(front, back, index);
          Consume(index + 1);
          return;
        }
        if front + back != [] {
          CutBehind(front, back);
        }
        Consume(|Unread()|);
        assert Remaining() == back;
        var count := Fill();
        if count == 0 {
          return;
        }
      }
    }

    // Reads one line of up to maxLen bytes, its terminator not counted.
    method ReadLine(maxLen: nat) returns (r: ReadLine)
      requires Valid()
      modifies this
      ensures Valid()
      ensures (r, Remaining()) == NextLine(old(Remaining()), maxLen)
      ensures peak <= if old(peak) > maxLen + 2 + CHUNK then old(peak) else maxLen + 2 + CHUNK
    {
      hide IndexOf, CutLine, NextLine, StripCr, Flatten;
      // unread bytes already known to hold no LF
      var scanned: nat := 0;
      while true
        invariant Valid() && Remaining() == old(Remaining())
        invariant scanned <= |Unread()|
        invariant LF !in Unread()[..scanned]
        invariant peak <= if old(peak) > maxLen + 2 + CHUNK then old(peak) else maxLen + 2 + CHUNK
        decreases |incoming|
      {
        ghost var front, back := Unread(), Flatten(incoming);
        var index := IndexOf(Unread()[scanned..], LF);
        NoneScanned(front, scanned, index);
        if index < |Unread()| - scanned {
          var newline := scanned + index;
          LineFound(front, back, newline, maxLen);
          var line := StripCr(Unread()[..newline]);
          Consume(newline + 1);
          return if |line| > maxLen then TooLong else Line(line);
        }
        scanned := |Unread()|;
        assert front[..scanned] == front;
        if scanned > maxLen + 2 {
          LineTooLong(front, back, maxLen);
          DiscardLine();
          return TooLong;
        }
        var count := Fill();
        if count == 0 {
          assert Remaining() == Unread();
          LineAtEnd(front, back, Unread(), maxLen);
          if |Unread()| == 0 {
            return Eof;
          }
          var line := Unread();
          Consume(|line|);
          assert Remaining() == [];
          return if |line| > maxLen then TooLong else Line(line);
        }
      }
    }

    // Exactly the next count bytes, or None when the stream ends before them.
    method ReadExactBytes(count: nat) returns (r: Option<Text>)
      requires Valid()
      modifies this
      ensures Valid()
      ensures count <= |old(Remaining())| ==>
        r == Some(old(Remaining())[..count]) && Remaining() == old(Remaining())[count..]
      ensures count > |old(Remaining())| ==> r.None? && Remaining() == []
    {
      hide Flatten;
      var out: Text := [];
      while |out| < count
        invariant Valid() && |out| <= count
        invariant out + Remaining() == old(Remaining())
        decreases count - |out|
      {
        if |Unread()| == 0 {
          var got := Fill();
          if got == 0 {
            return None;
          }
        }
        var unread := Unread();
        var take := if count - |out| < |unread| then count - |out| else |unread|;
        Regroup(out, unread, take, Flatten(incoming));
        out := out + unread[..take];
        Consume(take);
      }
      r := Some(out);
    }
  }

  // -- cutting a stream whose front is buffered ----------------------------

  lemma CutAt(front: Text, back: Text, i: nat)
    requires i < |front| && front[i] == LF && LF !in front[..i]
    ensures CutLine(front + back) == (StripCr(front[..i]), front[i + 1..] + back)
  {
    hide IndexOf;
    var s := front + back;
    forall j | 0 <= j < i
      ensures s[j] != LF
    {
      assert s[j] == front[..i][j];
    }
    IndexOfIs(s, LF, i);
    assert s[..i] == front[..i] && s[i + 1..] == front[i + 1..] + back;
  }

  lemma CutBehind(front: Text, back: Text)
    requires front + back != [] && LF !in front
    ensures CutLine(front + back).1 == if back == [] then [] else CutLine(back).1
    ensures back == [] ==> CutLine(front + back).0 == front
    ensures |front| <= |CutLine(front + back).0| + 1
  {
    hide IndexOf;
    var s, k := front + back, IndexOf(back, LF);
    IndexOfIs(s, LF, |front| + k);
    if k < |back| {
      assert s[|front| + k + 1..] == back[k + 1..];
    } else if back == [] {
      assert s == front;
    }
  }

  lemma Regroup(out: Text, unread: Text, take: nat, back: Text)
    requires take <= |unread|
    ensures (out + unread[..take]) + (unread[take..] + back) == out + (unread + back)
  {
  }

  lemma {:induction false} LineFound(front: Text, back: Text, i: nat, maxLen: nat)
    requires i < |front| && front[i] == LF && LF !in front[..i]
    ensures var line := StripCr(front[..i]);
      NextLine(front + back, maxLen) == (if |line| > maxLen then TooLong else Line(line), front[i + 1..] + back)
  {
    CutAt(front, back, i);
  }

  // Past the limit with no LF in sight: too long however the line ends.
  lemma LineTooLong(front: Text, back: Text, maxLen: nat)
    requires LF !in front && |front| > maxLen + 2
    ensures NextLine(front + back, maxLen) == (TooLong, CutLine(front + back).1)
  {
    CutBehind(front, back);
  }

  lemma LineAtEnd(front: Text, back: Text, all: Text, maxLen: nat)
    requires LF !in front && front + back == all && |all| == |front|
    ensures NextLine(all, maxLen)
      == (if all == [] then Eof else if |all| > maxLen then TooLong else Line(all), [])
  {
    if all != [] {
      CutBehind(front, back);
    }
  }

  lemma NoneScanned(front: Text, scanned: nat, index: nat)
    requires scanned <= |front| && LF !in front[..scanned]
    requires index <= |front| - scanned && LF !in front[scanned..][..index]
    ensures LF !in front[..scanned + index]
  {
    assert front[..scanned + index] == front[..scanned] + front[scanned..][..index];
  }

  // A line ended by CRLF is read back exactly, even when it ends in CR itself.
  lemma CutTerminated(line: Text, rest: Text)
    requires LF !in line
    ensures CutLine(line + CRLF + rest) == (line, rest)
  {
    var front := line + CRLF;
    assert front[..|line| + 1] == line + [CR];
    CutAt(front, rest, |line| + 1);
    assert front[|line| + 2..] + rest == rest;
    assert StripCr(line + [CR]) == line;
  }

  // One within the limit is handed over, one beyond it is not, and either way the rest of
  // the stream is next.
  lemma LineOrTooLong(line: Text, rest: Text, maxLen: nat)
    requires LF !in line
    ensures NextLine(line + CRLF + rest, maxLen) == (if |line| <= maxLen then Line(line) else TooLong, rest)
  {
    CutTerminated(line, rest);
  }
}
