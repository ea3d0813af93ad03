// Editing a parsed message: an ordered header list in front of an untouched
// body (src/message/headers.rs, Message).
module Messages {
  import opened Bytes
  import opened Wrappers
  import opened Headers

  // -- header lists ------------------------------------------------------------

  // The headers whose lowercased name is wanted, in order.
  ghost function Keep(headers: seq<Header>, wanted: Text -> bool): seq<Header> {
    if headers == [] then []
    else (if wanted(headers[0].Lower()) then [headers[0]] else []) + Keep(headers[1..], wanted)
  }

  function Without(headers: seq<Header>, needle: Text): seq<Header> {
    if headers == [] then []
    else (if headers[0].Lower() != needle then [headers[0]] else []) + Without(headers[1..], needle)
  }

  function WithoutPrefix(headers: seq<Header>, prefix: Text): seq<Header> {
    if headers == [] then []
    else (if prefix <= headers[0].Lower() then [] else [headers[0]]) + WithoutPrefix(headers[1..], prefix)
  }

  // Position of the first header of that name, or |headers|.
  function Position(headers: seq<Header>, needle: Text): (r: nat)
    ensures r <= |headers|
    ensures r < |headers| ==> headers[r].Lower() == needle
    ensures forall j :: 0 <= j < r ==> headers[j].Lower() != needle
  {
    if headers == [] || headers[0].Lower() == needle then 0 else 1 + Position(headers[1..], needle)
  }

  // A header as this program writes it, with a space behind the colon.
  function Written(name: Text, value: Text): Header {
    Header(name, [SPACE] + value)
  }

  // The first header of the name replaced where it stands and the others of
  // that name gone; at the end when there was none.
  function SetIn(headers: seq<Header>, name: Text, value: Text): seq<Header> {
    var needle := ToLower(name);
    var i := Position(headers, needle);
    if i < |headers| then headers[..i] + [Written(name, value)] + Without(headers[i + 1..], needle)
    else headers + [Written(name, value)]
  }

  // -- what an edit leaves alone --------------------------------------------------

  lemma {:induction false} KeepJoin(a: seq<Header>, b: seq<Header>, wanted: Text -> bool)
    ensures Keep(a + b, wanted) == Keep(a, wanted) + Keep(b, wanted)
  {
    if a == [] {
      assert a + b == b;
    } else {
      assert (a + b)[1..] == a[1..] + b;
      KeepJoin(a[1..], b, wanted);
    }
  }

  lemma {:induction false} KeepWithout(headers: seq<Header>, needle: Text, wanted: Text -> bool)
    requires !wanted(needle)
    ensures Keep(Without(headers, needle), wanted) == Keep(headers, wanted)
  {
    if headers != [] {
      KeepWithout(headers[1..], needle, wanted);
      KeepJoin(if headers[0].Lower() != needle then [headers[0]] else [], Without(headers[1..], needle), wanted);
    }
  }

  lemma {:induction false} KeepWithoutPrefix(headers: seq<Header>, prefix: Text, wanted: Text -> bool)
    requires forall n :: wanted(n) ==> !(prefix <= n)
    ensures Keep(WithoutPrefix(headers, prefix), wanted) == Keep(headers, wanted)
  {
    if headers != [] {
      KeepWithoutPrefix(headers[1..], prefix, wanted);
      KeepJoin(if prefix <= headers[0].Lower() then [] else [headers[0]], WithoutPrefix(headers[1..], prefix), wanted);
    }
  }

  lemma KeepAdded(headers: seq<Header>, h: Header, wanted: Text -> bool)
    requires !wanted(h.Lower())
    ensures Keep(headers + [h], wanted) == Keep(headers, wanted)
    ensures Keep([h] + headers, wanted) == Keep(headers, wanted)
  {
    KeepJoin(headers, [h], wanted);
    KeepJoin([h], headers, wanted);
  }

  // Setting one header changes no other.
  lemma KeepSet(headers: seq<Header>, name: Text, value: Text, wanted: Text -> bool)
    requires !wanted(ToLower(name))
    ensures Keep(SetIn(headers, name, value), wanted) == Keep(headers, wanted)
  {
    var needle := ToLower(name);
    var i := Position(headers, needle);
    if i < |headers| {
      var front, back := headers[..i], headers[i + 1..];
      assert headers == front + [headers[i]] + back;
      assert Keep([headers[i]], wanted) == [] && Keep([Written(name, value)], wanted) == [];
      KeepJoin(front + [headers[i]], back, wanted);
      KeepJoin(front, [headers[i]], wanted);
      KeepJoin(front + [Written(name, value)], Without(back, needle), wanted);
      KeepJoin(front, [Written(name, value)], wanted);
      KeepWithout(back, needle, wanted);
    } else {
      KeepAdded(headers, Written(name, value), wanted);
    }
  }

  lemma {:induction false} WithoutHasNone(headers: seq<Header>, needle: Text, wanted: Text -> bool)
    requires forall n :: wanted(n) <==> n == needle
    ensures Keep(Without(headers, needle), wanted) == []
  {
    if headers != [] {
      WithoutHasNone(headers[1..], needle, wanted);
      KeepJoin(if headers[0].Lower() != needle then [headers[0]] else [], Without(headers[1..], needle), wanted);
    }
  }

  lemma {:induction false} NoneOfName(headers: seq<Header>, needle: Text, wanted: Text -> bool)
    requires forall n :: wanted(n) <==> n == needle
    requires forall j :: 0 <= j < |headers| ==> headers[j].Lower() != needle
    ensures Keep(headers, wanted) == []
  {
    if headers != [] {
      NoneOfName(headers[1..], needle, wanted);
    }
  }

  // Afterwards the name is there exactly once, with the new value.
  lemma SetLeavesOne(headers: seq<Header>, name: Text, value: Text, wanted: Text -> bool)
    requires forall n :: wanted(n) <==> n == ToLower(name)
    ensures Keep(SetIn(headers, name, value), wanted) == [Written(name, value)]
  {
    var needle := ToLower(name);
    var i := Position(headers, needle);
    var h := Written(name, value);
    NoneOfName(headers[..i], needle, wanted);
    KeepJoin(headers[..i], [h], wanted);
    if i < |headers| {
      WithoutHasNone(headers[i + 1..], needle, wanted);
      KeepJoin(headers[..i] + [h], Without(headers[i + 1..], needle), wanted);
    } else {
      assert headers[..i] == headers;
    }
  }

  // The first header of a name is the first of those kept under it.
  lemma {:induction false} FirstOfKept(headers: seq<Header>, needle: Text, wanted: Text -> bool)
    requires forall n :: wanted(n) <==> n == needle
    ensures FirstNamed(headers, needle)
      == if Keep(headers, wanted) == [] then None else Some(Keep(headers, wanted)[0])
  {
    if headers != [] {
      FirstOfKept(headers[1..], needle, wanted);
    }
  }

  // -- the message ------------------------------------------------------------------

  class Message {
    var headers: seq<Header>
    var body: Text
    var wasLfOnly: bool

    constructor (headers: seq<Header>, body: Text, wasLfOnly: bool)
      ensures View() == Contents(headers, body, wasLfOnly)
    {
      this.headers := headers;
      this.body := body;
      this.wasLfOnly := wasLfOnly;
    }

    function View(): Contents
      reads this
    {
      Contents(headers, body, wasLfOnly)
    }

    static method Parse(raw: Text) returns (r: Result<Message, MessageError>)
      ensures r.Err? <==> raw == []
      ensures r.Ok? ==> fresh(r.value) && r.value.View() == ParseSpec(raw)
    {
      if raw == [] {
        return Err(NoHeaderSeparator);
      }
      var (block, body, wasLfOnly) := SplitHeaderBlock(raw);
      var headers := ParseHeaderBlock(block);
      var message := new Message(headers, body, wasLfOnly);
      return Ok(message);
    }

    function Value(name: Text): Option<Text>
      reads this
    {
      ValueOf(headers, name)
    }

    predicate Has(name: Text)
      reads this
    {
      FirstNamed(headers, ToLower(name)).Some?
    }

    method RemoveAll(name: Text)
      modifies this`headers
      ensures headers == Without(old(headers), ToLower(name))
    {
      var needle := ToLower(name);
      var kept: seq<Header> := [];
      var i := 0;
      assert headers[0..] == headers;
      while i < |headers|
        invariant headers == old(headers) && 0 <= i <= |headers|
        invariant kept + Without(headers[i..], needle) == Without(headers, needle)
      {
        WithoutStep(kept, headers, i, needle);
        if headers[i].Lower() != needle {
          kept := kept + [headers[i]];
        }
        i := i + 1;
      }
      assert headers[i..] == [] && kept + [] == kept;
      headers := kept;
    }

    method RemovePrefix(prefix: Text)
      modifies this`headers
      ensures headers == WithoutPrefix(old(headers), ToLower(prefix))
    {
      var needle := ToLower(prefix);
      var kept: seq<Header> := [];
      var i := 0;
      assert headers[0..] == headers;
      while i < |headers|
        invariant 0 <= i <= |headers|
        invariant kept + WithoutPrefix(headers[i..], needle) == WithoutPrefix(headers, needle)
      {
        assert headers[i..][1..] == headers[i + 1..];
        if !(needle <= headers[i].Lower()) {
          kept := kept + [headers[i]];
        }
        i := i + 1;
      }
      headers := kept;
    }

    method Set(name: Text, value: Text)
      modifies this`headers
      ensures headers == SetIn(old(headers), name, value)
    {
      hide Without;
      var needle := ToLower(name);
      var replacement := Written(name, value);
      var index := Position(headers, needle);
      if index == |headers| {
        headers := headers + [replacement];
        return;
      }
      ghost var front, back := headers[..index], headers[index + 1..];
      var edited := headers[index := replacement];
      var kept: seq<Header> := [];
      var seen := false;
      var i := 0;
      while i < |edited|
        invariant 0 <= i <= |edited|
        invariant seen <==> i > index
        invariant !seen ==> kept == edited[..i]
        invariant seen ==> kept + Without(edited[i..], needle) == front + [replacement] + Without(back, needle)
      {
        if edited[i].Lower() != needle {
          if seen {
            WithoutStep(kept, edited, i, needle);
          }
          kept := kept + [edited[i]];
        } else if !seen {
          assert i == index;
          assert edited[index + 1..] == back;
          seen := true;
          kept := kept + [edited[i]];
        } else {
          WithoutStep(kept, edited, i, needle);
        }
        i := i + 1;
      }
      assert edited[i..] == [];
      WithoutNone(needle);
      assert kept + [] == kept;
      headers := kept;
    }

    method Prepend(name: Text, value: Text)
      modifies this`headers
      ensures headers == [Written(name, value)] + old(headers)
    {
      headers := [Written(name, value)] + headers;
    }

    method Append(name: Text, value: Text)
      modifies this`headers
      ensures headers == old(headers) + [Written(name, value)]
    {
      headers := headers + [Written(name, value)];
    }

    method ToBytes() returns (out: Text)
      ensures out == PrintSpec(View())
    {
      out := [];
      var i := 0;
      assert headers[0..] == headers;
      while i < |headers|
        invariant 0 <= i <= |headers|
        invariant out + PrintFields(headers[i..], wasLfOnly) == PrintFields(headers, wasLfOnly)
      {
        PrintStep(out, headers, i, wasLfOnly);
        out := out + headers[i].name + [COLON];
        if wasLfOnly {
          var value := NormalizeCrlf(headers[i].rawValue);
          out := out + value;
        } else {
          out := out + headers[i].rawValue;
        }
        out := out + CRLF;
        i := i + 1;
      }
      assert out + PrintFields([], wasLfOnly) == out;
      out := out + CRLF;
      if wasLfOnly {
        var normalized := NormalizeCrlf(body);
        out := out + normalized;
      } else {
        out := out + body;
      }
    }
  }

  lemma WithoutStep(kept: seq<Header>, headers: seq<Header>, i: nat, needle: Text)
    requires i < |headers|
    ensures kept + Without(headers[i..], needle)
      == (if headers[i].Lower() != needle then kept + [headers[i]] else kept) + Without(headers[i + 1..], needle)
  {
    assert headers[i..][1..] == headers[i + 1..];
    var rest := Without(headers[i + 1..], needle);
    assert kept + ([headers[i]] + rest) == kept + [headers[i]] + rest;
    assert [] + rest == rest;
  }

  lemma WithoutNone(needle: Text)
    ensures Without([], needle) == []
  {
  }

  lemma {:induction false} PrintStep(out: Text, headers: seq<Header>, i: nat, lfOnly: bool)
    requires i < |headers|
    ensures var h := headers[i];
      out + PrintFields(headers[i..], lfOnly)
        == out + h.name + [COLON] + (if lfOnly then Normalized(h.rawValue) else h.rawValue) + CRLF
           + PrintFields(headers[i + 1..], lfOnly)
  {
    assert headers[i..][1..] == headers[i + 1..];
  }
}
