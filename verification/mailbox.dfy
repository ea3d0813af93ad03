// Printing and parsing mailboxes (src/util.rs and src/message/headers.rs),
// against section 3.4 of RFC 5322.
module Mailboxes {
  import opened Bytes
  import opened Wrappers

  // -- printing --------------------------------------------------------------

  predicate IsSpecial(b: byte) {
    b in [LPAREN, RPAREN, LT, GT, LBRACKET, RBRACKET, COLON, SEMICOLON, AT, BACKSLASH, COMMA, DOT, DQUOTE]
  }

  predicate EncodedWordShape(s: Text) {
    |s| >= 2 && s[..2] == [EQUALS, QUESTION] && s[|s| - 2..] == [QUESTION, EQUALS]
  }

  predicate QuotedShape(s: Text) {
    |s| >= 2 && s[0] == DQUOTE && s[|s| - 1] == DQUOTE
  }

  predicate IsAscii(s: Text) {
    forall k :: 0 <= k < |s| ==> s[k] < 128
  }

  function NoControls(s: Text): Text {
    if s == [] then [] else (if IsControl(s[0]) then [] else [s[0]]) + NoControls(s[1..])
  }

  // Quoted-string content: quotes and backslashes escaped.
  function Escape(s: Text): Text {
    if s == [] then []
    else (if s[0] == DQUOTE || s[0] == BACKSLASH then [BACKSLASH] else []) + [s[0]] + Escape(s[1..])
  }

  predicate NeedsQuoting(s: Text) {
    exists k :: 0 <= k < |s| && (IsSpecial(s[k]) || IsControl(s[k]))
  }

  function DisplaySpec(name: Text): Text {
    var trimmed := Trim(name);
    if trimmed == [] then []
    else if EncodedWordShape(trimmed) || QuotedShape(trimmed) then trimmed
    else if !IsAscii(trimmed) then Ascii("=?UTF-8?B?") + Base64(trimmed) + [QUESTION, EQUALS]
    else if NeedsQuoting(trimmed) then [DQUOTE] + Escape(NoControls(trimmed)) + [DQUOTE]
    else trimmed
  }

  // The standard base64 alphabet and its padding.
  function Base64Digit(n: nat): (b: byte)
    requires n < 64
    ensures IsBase64(b)
  {
    if n < 26 then (65 + n) as byte
    else if n < 52 then (97 + n - 26) as byte
    else if n < 62 then (48 + n - 52) as byte
    else if n == 62 then 43
    else 47
  }

  predicate IsBase64(b: byte) {
    48 <= b <= 57 || 65 <= b <= 90 || 97 <= b <= 122 || b == 43 || b == 47 || b == EQUALS
  }

  // Up to three bytes as four digits, with padding for those that are missing.
  function Digits64(s: Text): (r: Text)
    requires s != []
    ensures |r| == 4 && forall k :: 0 <= k < 4 ==> IsBase64(r[k])
  {
    var a := s[0] as nat;
    var b := if |s| > 1 then s[1] as nat else 0;
    var c := if |s| > 2 then s[2] as nat else 0;
    [Base64Digit(a / 4), Base64Digit(a % 4 * 16 + b / 16),
     if |s| > 1 then Base64Digit(b % 16 * 4 + c / 64) else EQUALS, if |s| > 2 then Base64Digit(c % 64) else EQUALS]
  }

  function Base64(s: Text): (r: Text)
    ensures forall k :: 0 <= k < |r| ==> IsBase64(r[k])
  {
    if s == [] then [] else Digits64(s) + if |s| > 3 then Base64(s[3..]) else []
  }

  method EncodeDisplayName(name: Text) returns (r: Text)
    ensures r == DisplaySpec(name)
  {
    var trimmed := Trim(name);
    if trimmed == [] {
      return [];
    }
    if EncodedWordShape(trimmed) || QuotedShape(trimmed) {
      return trimmed;
    }
    if !IsAscii(trimmed) {
      return Ascii("=?UTF-8?B?") + Base64(trimmed) + [QUESTION, EQUALS];
    }
    if !NeedsQuoting(trimmed) {
      return trimmed;
    }
    var quoted: Text := [DQUOTE];
    var i := 0;
    assert trimmed[0..] == trimmed;
    while i < |trimmed|
      invariant 0 <= i <= |trimmed|
      invariant quoted + Escape(NoControls(trimmed[i..])) == [DQUOTE] + Escape(NoControls(trimmed))
    {
      var b := trimmed[i];
      EscapeStep(quoted, trimmed, i);
      if b == DQUOTE || b == BACKSLASH {
        quoted := quoted + [BACKSLASH];
      }
      if !IsControl(b) {
        quoted := quoted + [b];
      }
      i := i + 1;
    }
    return quoted + [DQUOTE];
  }

  lemma EscapeStep(out: Text, s: Text, i: nat)
    requires i < |s|
    ensures out + Escape(NoControls(s[i..]))
      == (if s[i] == DQUOTE || s[i] == BACKSLASH then out + [BACKSLASH] + [s[i]]
          else if IsControl(s[i]) then out else out + [s[i]]) + Escape(NoControls(s[i + 1..]))
  {
    assert s[i..][1..] == s[i + 1..];
    var rest := NoControls(s[i + 1..]);
    if IsControl(s[i]) {
      assert NoControls(s[i..]) == rest;
    } else {
      assert NoControls(s[i..]) == [s[i]] + rest;
      assert ([s[i]] + rest)[1..] == rest;
      var mark: Text := if s[i] == DQUOTE || s[i] == BACKSLASH then [BACKSLASH] else [];
      assert out + (mark + [s[i]] + Escape(rest)) == out + mark + [s[i]] + Escape(rest);
    }
  }

  function MailboxText(displayName: Text, address: Text): Text {
    var encoded := DisplaySpec(displayName);
    (if encoded == [] then [] else encoded + [SPACE]) + [LT] + address + [GT]
  }

  method FormatMailbox(displayName: Text, address: Text) returns (r: Text)
    ensures r == MailboxText(displayName, address)
  {
    var encoded := EncodeDisplayName(displayName);
    r := if encoded == [] then [LT] + address + [GT] else encoded + [SPACE, LT] + address + [GT];
    assert encoded != [] ==> r == encoded + [SPACE] + [LT] + address + [GT];
  }

  predicate LooksLikeEmail(address: Text) {
    var addr := Trim(address);
    && addr != [] && |addr| <= 320
    && (forall k :: 0 <= k < |addr| ==> !IsSpace(addr[k]) && addr[k] != LT && addr[k] != GT && addr[k] != COMMA)
    && var at := IndexOf(addr, AT);
       && 0 < at < |addr| - 1
       && addr[at + 1] != DOT && addr[|addr| - 1] != DOT
       && AT !in addr[at + 1..]
  }

  // A domain needs no dot in it.
  lemma DotlessDomainPasses(local: byte, domain: byte)
    requires 97 <= local <= 122 && 97 <= domain <= 122
    ensures LooksLikeEmail([local, AT, domain]) && DOT !in [local, AT, domain]
  {
    var address := [local, AT, domain];
    TrimTight(address);
    IndexOfIs(address, AT, 1);
  }

  // The domain part of an address; localhost when there is none.
  function AddressDomain(address: Text): Text {
    var at := LastIndexOf(address, AT);
    if at < |address| && at + 1 < |address| then address[at + 1..] else Ascii("localhost")
  }

  // The domain is what stands behind the last at sign; where nothing does, or there is none,
  // it is localhost.
  lemma DomainIsTold(local: Text, domain: Text)
    requires AT !in domain
    ensures AddressDomain(local + [AT] + domain) == if domain == [] then Ascii("localhost") else domain
    ensures AddressDomain(domain) == Ascii("localhost")
  {
    var s := local + [AT] + domain;
    assert s[|local| + 1..] == domain;
    LastIndexIs(s, AT, |local|);
  }

  function LastIndexOf(s: Text, b: byte): (r: nat)
    ensures r <= |s|
    ensures r < |s| ==> s[r] == b && b !in s[r + 1..]
    ensures r == |s| ==> b !in s
  {
    if s == [] then 0
    else if s[|s| - 1] == b then |s| - 1
    else
      var r := LastIndexOf(s[..|s| - 1], b);
      if r < |s| - 1 then r else |s|
  }

  // What an address that passes the check can have for a domain.
  predicate DomainShape(d: Text) {
    && 0 < |d| <= 318 && d[0] != DOT && d[|d| - 1] != DOT
    && forall k :: 0 <= k < |d| ==> !IsSpace(d[k]) && d[k] != LT && d[k] != GT && d[k] != COMMA && d[k] != AT
  }

  lemma LastIndexIs(s: Text, b: byte, i: nat)
    requires i < |s| && s[i] == b && b !in s[i + 1..]
    ensures LastIndexOf(s, b) == i
  {
    var r := LastIndexOf(s, b);
    assert b in s;
    assert forall k :: i < k < |s| ==> s[k] == s[i + 1..][k - i - 1];
    assert forall k :: r < k < |s| ==> s[k] == s[r + 1..][k - r - 1];
  }

  predicate Spaces(s: Text) {
    forall k :: 0 <= k < |s| ==> IsSpace(s[k])
  }

  // A text is its trimmed form between white space.
  lemma {:induction false} TrimmedBetween(s: Text) returns (front: Text, back: Text)
    ensures s == front + Trim(s) + back && Spaces(front) && Spaces(back)
  {
    var rest := TrimStart(s);
    TrimStartFront(s);
    TrimEndBack(rest);
    hide TrimStart, TrimEnd;
    front, back := s[..|s| - |rest|], rest[|Trim(s)|..];
    assert rest == Trim(s) + back;
    assert s == front + rest;
    Assoc(front, Trim(s), back);
  }

  lemma {:induction false} TrimEndSpaces(s: Text, spaces: Text)
    requires s != [] && !IsSpace(s[|s| - 1]) && Spaces(spaces)
    ensures TrimEnd(s + spaces) == s
  {
    if spaces == [] {
      assert s + spaces == s;
    } else {
      var n := |spaces| - 1;
      assert (s + spaces)[..|s + spaces| - 1] == s + spaces[..n];
      assert (s + spaces)[|s + spaces| - 1] == spaces[n];
      TrimEndSpaces(s, spaces[..n]);
    }
  }

  lemma StartsTight(s: Text)
    requires s != [] && !IsSpace(s[0])
    ensures TrimStart(s) == s
  {
  }

  // The last at sign of a text is the one inside it when there is none after.
  lemma DomainOf(front: Text, addr: Text, back: Text, at: nat)
    requires at < |addr| - 1 && addr[at] == AT && AT !in addr[at + 1..] && Spaces(back)
    ensures AddressDomain(front + addr + back) == addr[at + 1..] + back
  {
    var address, i := front + addr + back, |front| + at;
    assert address[i + 1..] == addr[at + 1..] + back;
    assert address[i] == addr[at];
    LastIndexIs(address, AT, i);
  }

  // The domain of an address that passes has that shape, and every text of that shape is
  // the domain of one.
  lemma {:induction false} DomainHasShape(address: Text)
    requires LooksLikeEmail(address)
    ensures DomainShape(Trim(AddressDomain(address)))
  {
    hide TrimStart, TrimEnd, AddressDomain;
    var addr := Trim(address);
    var front, back := TrimmedBetween(address);
    var at := IndexOf(addr, AT);
    var d := addr[at + 1..];
    DomainOf(front, addr, back, at);
    StartsTight(d + back);
    TrimEndSpaces(d, back);
  }

  lemma ShapeIsDomain(d: Text)
    requires DomainShape(d)
    ensures LooksLikeEmail([97, AT] + d) && AddressDomain([97, AT] + d) == d
  {
    var address := [97, AT] + d;
    TrimTight(address);
    IndexOfIs(address, AT, 1);
    assert address[2..] == d;
    LastIndexIs(address, AT, 1);
  }

  // -- parsing: what the four scanners compute ---------------------------------

  datatype Mailbox = Mailbox(displayName: Text, address: Text)

  // split_address_list, from the state reached so far.
  function PartsSpec(s: Text, current: Text, inQuotes: bool, escaped: bool, angle: nat, comment: nat): seq<Text> {
    if s == [] then
      if Trim(current) != [] then [Trim(current)] else []
    else
      var b, rest := s[0], s[1..];
      if escaped then PartsSpec(rest, current + [b], inQuotes, false, angle, comment)
      else if b == BACKSLASH then PartsSpec(rest, current + [b], inQuotes, true, angle, comment)
      else if b == DQUOTE then PartsSpec(rest, current + [b], !inQuotes, false, angle, comment)
      else if inQuotes then PartsSpec(rest, current + [b], true, false, angle, comment)
      else if b == LT then PartsSpec(rest, current + [b], false, false, angle + 1, comment)
      else if b == GT then PartsSpec(rest, current + [b], false, false, if angle > 0 then angle - 1 else 0, comment)
      else if b == LPAREN then PartsSpec(rest, current + [b], false, false, angle, comment + 1)
      else if b == RPAREN then
        PartsSpec(rest, current + [b], false, false, angle, if comment > 0 then comment - 1 else 0)
      else if b == COMMA && angle == 0 && comment == 0 then
        (if Trim(current) != [] then [Trim(current)] else []) + PartsSpec(rest, [], false, false, 0, 0)
      else PartsSpec(rest, current + [b], false, false, angle, comment)
  }

  // find_angle_addr: positions of the last unquoted < and the last unquoted >
  // behind the < before it.
  function AngleSpec(s: Text, i: nat, inQuotes: bool, escaped: bool, open: Option<nat>, close: Option<nat>)
    : (Option<nat>, Option<nat>)
    requires i <= |s|
    decreases |s| - i
  {
    if i == |s| then (open, close)
    else if escaped then AngleSpec(s, i + 1, inQuotes, false, open, close)
    else if s[i] == BACKSLASH && inQuotes then AngleSpec(s, i + 1, inQuotes, true, open, close)
    else if s[i] == DQUOTE then AngleSpec(s, i + 1, !inQuotes, false, open, close)
    else if s[i] == LT && !inQuotes then AngleSpec(s, i + 1, inQuotes, false, Some(i), close)
    else if s[i] == GT && !inQuotes && open.Some? && i > open.value then
      AngleSpec(s, i + 1, inQuotes, false, open, Some(i))
    else AngleSpec(s, i + 1, inQuotes, false, open, close)
  }

  function AngleAddr(s: Text): (r: Option<(nat, nat)>)
  {
    var (open, close) := AngleSpec(s, 0, false, false, None, None);
    if open.Some? && close.Some? && close.value > open.value then Some((open.value, close.value)) else None
  }

  function CommentsSpec(s: Text, depth: nat, inQuotes: bool, escaped: bool): Text {
    if s == [] then []
    else
      var b, rest := s[0], s[1..];
      var kept := if depth == 0 then [b] else [];
      if escaped then kept + CommentsSpec(rest, depth, inQuotes, false)
      else if b == BACKSLASH then kept + CommentsSpec(rest, depth, inQuotes, true)
      else if b == DQUOTE then [b] + CommentsSpec(rest, depth, !inQuotes, false)
      else if b == LPAREN && !inQuotes then CommentsSpec(rest, depth + 1, inQuotes, false)
      else if b == RPAREN && !inQuotes && depth > 0 then CommentsSpec(rest, depth - 1, inQuotes, false)
      else kept + CommentsSpec(rest, depth, inQuotes, false)
  }

  function UnescapeSpec(s: Text, escaped: bool): Text {
    if s == [] then []
    else if escaped then [s[0]] + UnescapeSpec(s[1..], false)
    else if s[0] == BACKSLASH then UnescapeSpec(s[1..], true)
    else [s[0]] + UnescapeSpec(s[1..], false)
  }

  function Unquoted(text: Text): Text {
    var trimmed := Trim(text);
    if QuotedShape(trimmed) then Trim(UnescapeSpec(trimmed[1..|trimmed| - 1], false)) else trimmed
  }

  function StripSourceRoute(address: Text): Text {
    var trimmed := Trim(address);
    var colon := IndexOf(trimmed, COLON);
    if trimmed != [] && trimmed[0] == AT && colon < |trimmed| then Trim(trimmed[colon + 1..]) else trimmed
  }

  function CommentIn(text: Text): Option<Text> {
    var start, end := IndexOf(text, LPAREN), LastIndexOf(text, RPAREN);
    if start < |text| && end < |text| && end > start + 1 && Trim(text[start + 1..end]) != []
    then Some(Trim(text[start + 1..end])) else None
  }

  // First whitespace-separated token holding an @; none gives all of s.
  function AddressToken(s: Text, token: Text): Option<Text> {
    if s == [] then if AT in token then Some(token) else None
    else if IsSpace(s[0]) then if AT in token then Some(token) else AddressToken(s[1..], [])
    else AddressToken(s[1..], token + [s[0]])
  }

  function SingleSpec(entry: Text): Option<Mailbox> {
    var text := Trim(entry);
    if text == [] then None
    else
      match AngleAddr(text)
      case Some(pair) =>
        AngleBounds(text);
        var address := StripSourceRoute(Trim(text[pair.0 + 1..pair.1]));
        var display := Unquoted(Trim(CommentsSpec(text[..pair.0], 0, false, false)));
        if address == [] then None else Some(Mailbox(display, address))
      case None =>
        var comment := CommentIn(text);
        var bare := Trim(CommentsSpec(text, 0, false, false));
        match AddressToken(bare, [])
        case None => None
        case Some(token) =>
          Some(Mailbox(match comment case None => [] case Some(c) => c, StripSourceRoute(token)))
  }

  function MailboxSpec(value: Text): Option<Mailbox> {
    var trimmed := Trim(value);
    var parts := PartsSpec(trimmed, [], false, false, 0, 0);
    if parts == [] then None
    else if AT in parts[0] then SingleSpec(parts[0])
    else SingleSpec(trimmed)
  }

  lemma {:induction false} AngleBoundsFrom(s: Text, i: nat, inQuotes: bool, escaped: bool, open: Option<nat>,
          close: Option<nat>)
    requires i <= |s|
    requires (open.Some? ==> open.value < i) && (close.Some? ==> close.value < i)
    ensures var (o, c) := AngleSpec(s, i, inQuotes, escaped, open, close);
      (o.Some? ==> o.value < |s|) && (c.Some? ==> c.value < |s|)
    decreases |s| - i
  {
    if i < |s| {
      if escaped {
        AngleBoundsFrom(s, i + 1, inQuotes, false, open, close);
      } else if s[i] == BACKSLASH && inQuotes {
        AngleBoundsFrom(s, i + 1, inQuotes, true, open, close);
      } else if s[i] == DQUOTE {
        AngleBoundsFrom(s, i + 1, !inQuotes, false, open, close);
      } else if s[i] == LT && !inQuotes {
        AngleBoundsFrom(s, i + 1, inQuotes, false, Some(i), close);
      } else if s[i] == GT && !inQuotes && open.Some? && i > open.value {
        AngleBoundsFrom(s, i + 1, inQuotes, false, open, Some(i));
      } else {
        AngleBoundsFrom(s, i + 1, inQuotes, false, open, close);
      }
    }
  }

  lemma AngleBounds(s: Text)
    ensures AngleAddr(s).Some? ==> AngleAddr(s).value.0 < AngleAddr(s).value.1 < |s|
  {
    AngleBoundsFrom(s, 0, false, false, None, None);
  }

  // -- the scanning loops --------------------------------------------------------

  method SplitAddressList(value: Text) returns (parts: seq<Text>)
    ensures parts == PartsSpec(value, [], false, false, 0, 0)
  {
    hide PartsSpec;
    parts := [];
    var current: Text := [];
    var inQuotes, escaped := false, false;
    var angleDepth: nat, commentDepth: nat := 0, 0;
    var i := 0;
    assert value[0..] == value;
    while i < |value|
      invariant 0 <= i <= |value|
      invariant parts + PartsSpec(value[i..], current, inQuotes, escaped, angleDepth, commentDepth)
        == PartsSpec(value, [], false, false, 0, 0)
    {
      var b := value[i];
      PartsStep(parts, value, i, current, inQuotes, escaped, angleDepth, commentDepth);
      i := i + 1;
      if escaped {
        current := current + [b];
        escaped := false;
        continue;
      }
      if b == BACKSLASH {
        escaped := true;
        current := current + [b];
      } else if b == DQUOTE {
        inQuotes := !inQuotes;
        current := current + [b];
      } else if b == LT && !inQuotes {
        angleDepth := angleDepth + 1;
        current := current + [b];
      } else if b == GT && !inQuotes {
        angleDepth := if angleDepth > 0 then angleDepth - 1 else 0;
        current := current + [b];
      } else if b == LPAREN && !inQuotes {
        commentDepth := commentDepth + 1;
        current := current + [b];
      } else if b == RPAREN && !inQuotes {
        commentDepth := if commentDepth > 0 then commentDepth - 1 else 0;
        current := current + [b];
      } else if b == COMMA && !inQuotes && angleDepth == 0 && commentDepth == 0 {
        if Trim(current) != [] {
          parts := parts + [Trim(current)];
        }
        current := [];
      } else {
        current := current + [b];
      }
    }
    assert value[i..] == [];
    PartsEnd(current, inQuotes, escaped, angleDepth, commentDepth);
    if Trim(current) != [] {
      parts := parts + [Trim(current)];
    }
  }

  lemma {:induction false} PartsStep(parts: seq<Text>, value: Text, i: nat, current: Text, q: bool, e: bool, a: nat,
          c: nat)
    requires i < |value|
    ensures var b, rest, more := value[i], value[i + 1..], current + [value[i]];
      parts + PartsSpec(value[i..], current, q, e, a, c)
        == if e then parts + PartsSpec(rest, more, q, false, a, c)
           else if b == BACKSLASH then parts + PartsSpec(rest, more, q, true, a, c)
           else if b == DQUOTE then parts + PartsSpec(rest, more, !q, false, a, c)
           else if b == LT && !q then parts + PartsSpec(rest, more, q, false, a + 1, c)
           else if b == GT && !q then parts + PartsSpec(rest, more, q, false, if a > 0 then a - 1 else 0, c)
           else if b == LPAREN && !q then parts + PartsSpec(rest, more, q, false, a, c + 1)
           else if b == RPAREN && !q then parts + PartsSpec(rest, more, q, false, a, if c > 0 then c - 1 else 0)
           else if b == COMMA && !q && a == 0 && c == 0 then
             (if Trim(current) != [] then parts + [Trim(current)] else parts) + PartsSpec(rest, [], q, false, a, c)
           else parts + PartsSpec(rest, more, q, false, a, c)
  {
    assert value[i..][1..] == value[i + 1..];
    if !e && value[i] == COMMA && !q && a == 0 && c == 0 {
      var tail := PartsSpec(value[i + 1..], [], q, false, a, c);
      if Trim(current) == [] {
        assert parts + ([] + tail) == parts + tail;
      } else {
        assert parts + ([Trim(current)] + tail) == parts + [Trim(current)] + tail;
      }
    }
  }

  lemma PartsEnd(current: Text, q: bool, e: bool, a: nat, c: nat)
    ensures PartsSpec([], current, q, e, a, c) == if Trim(current) != [] then [Trim(current)] else []
  {
  }

  method FindAngleAddr(text: Text) returns (r: Option<(nat, nat)>)
    ensures r == AngleAddr(text)
    ensures r.Some? ==> r.value.0 < r.value.1 < |text|
  {
    var inQuotes, escaped := false, false;
    var open: Option<nat>, close: Option<nat> := None, None;
    var i := 0;
    while i < |text|
      invariant 0 <= i <= |text|
      invariant AngleSpec(text, i, inQuotes, escaped, open, close) == AngleSpec(text, 0, false, false, None, None)
    {
      if escaped {
        escaped := false;
      } else if text[i] == BACKSLASH && inQuotes {
        escaped := true;
      } else if text[i] == DQUOTE {
        inQuotes := !inQuotes;
      } else if text[i] == LT && !inQuotes {
        open := Some(i);
      } else if text[i] == GT && !inQuotes {
        if open.Some? && i > open.value {
          close := Some(i);
        }
      }
      i := i + 1;
    }
    AngleBounds(text);
    r := if open.Some? && close.Some? && close.value > open.value then Some((open.value, close.value)) else None;
  }

  method StripComments(text: Text) returns (out: Text)
    ensures out == CommentsSpec(text, 0, false, false)
  {
    hide CommentsSpec;
    out := [];
    var depth: nat := 0;
    var inQuotes, escaped := false, false;
    var i := 0;
    assert text[0..] == text;
    while i < |text|
      invariant 0 <= i <= |text|
      invariant out + CommentsSpec(text[i..], depth, inQuotes, escaped) == CommentsSpec(text, 0, false, false)
    {
      var b := text[i];
      CommentsStep(out, text, i, depth, inQuotes, escaped);
      i := i + 1;
      if escaped {
        if depth == 0 {
          out := out + [b];
        }
        escaped := false;
        continue;
      }
      if b == BACKSLASH {
        escaped := true;
        if depth == 0 {
          out := out + [b];
        }
      } else if b == DQUOTE {
        inQuotes := !inQuotes;
        out := out + [b];
      } else if b == LPAREN && !inQuotes {
        depth := depth + 1;
      } else if b == RPAREN && !inQuotes && depth > 0 {
        depth := depth - 1;
      } else if depth == 0 {
        out := out + [b];
      }
    }
    assert text[i..] == [];
    CommentsEnd(depth, inQuotes, escaped);
  }

  lemma {:induction false} CommentsStep(out: Text, text: Text, i: nat, d: nat, q: bool, e: bool)
    requires i < |text|
    ensures var b, rest := text[i], text[i + 1..];
      var kept := if d == 0 then out + [b] else out;
      out + CommentsSpec(text[i..], d, q, e)
        == if e then kept + CommentsSpec(rest, d, q, false)
           else if b == BACKSLASH then kept + CommentsSpec(rest, d, q, true)
           else if b == DQUOTE then out + [b] + CommentsSpec(rest, d, !q, false)
           else if b == LPAREN && !q then out + CommentsSpec(rest, d + 1, q, false)
           else if b == RPAREN && !q && d > 0 then out + CommentsSpec(rest, d - 1, q, false)
           else kept + CommentsSpec(rest, d, q, false)
  {
    var b, rest := text[i], text[i + 1..];
    assert text[i..][1..] == rest;
    var kept: Text := if d == 0 then [b] else [];
    Assoc(out, kept, CommentsSpec(rest, d, q, false));
    Assoc(out, kept, CommentsSpec(rest, d, q, true));
    Assoc(out, [b], CommentsSpec(rest, d, !q, false));
    assert out + [] == out;
  }

  lemma CommentsEnd(d: nat, q: bool, e: bool)
    ensures CommentsSpec([], d, q, e) == []
  {
  }

  method Unquote(text: Text) returns (r: Text)
    ensures r == Unquoted(text)
  {
    hide UnescapeSpec;
    var trimmed := Trim(text);
    if !QuotedShape(trimmed) {
      return trimmed;
    }
    var inner := trimmed[1..|trimmed| - 1];
    var out: Text := [];
    var escaped := false;
    var i := 0;
    assert inner[0..] == inner;
    while i < |inner|
      invariant 0 <= i <= |inner|
      invariant out + UnescapeSpec(inner[i..], escaped) == UnescapeSpec(inner, false)
    {
      UnescapeStep(out, inner, i, escaped);
      if escaped {
        out := out + [inner[i]];
        escaped := false;
      } else if inner[i] == BACKSLASH {
        escaped := true;
      } else {
        out := out + [inner[i]];
      }
      i := i + 1;
    }
    assert inner[i..] == [];
    UnescapeEnd(escaped);
    assert out + [] == out;
    return Trim(out);
  }

  lemma UnescapeStep(out: Text, s: Text, i: nat, e: bool)
    requires i < |s|
    ensures out + UnescapeSpec(s[i..], e)
      == if !e && s[i] == BACKSLASH then out + UnescapeSpec(s[i + 1..], true)
         else out + [s[i]] + UnescapeSpec(s[i + 1..], false)
  {
    assert s[i..][1..] == s[i + 1..];
    Assoc(out, [s[i]], UnescapeSpec(s[i + 1..], false));
  }

  lemma UnescapeEnd(e: bool)
    ensures UnescapeSpec([], e) == []
  {
  }

  method ParseSingleMailbox(entry: Text) returns (r: Option<Mailbox>)
    ensures r == SingleSpec(entry)
  {
    var text := Trim(entry);
    if text == [] {
      return None;
    }
    var pair := FindAngleAddr(text);
    if pair.Some? {
      var address := StripSourceRoute(Trim(text[pair.value.0 + 1..pair.value.1]));
      var display := StripComments(text[..pair.value.0]);
      var displayName := Unquote(Trim(display));
      return if address == [] then None else Some(Mailbox(displayName, address));
    }
    var comment := CommentIn(text);
    var stripped := StripComments(text);
    var token := AddressToken(Trim(stripped), []);
    if token.None? {
      return None;
    }
    return Some(Mailbox(if comment.None? then [] else comment.value, StripSourceRoute(token.value)));
  }

  method ParseMailbox(value: Text) returns (r: Option<Mailbox>)
    ensures r == MailboxSpec(value)
  {
    var trimmed := Trim(value);
    var parts := SplitAddressList(trimmed);
    if parts == [] {
      return None;
    }
    if AT in parts[0] {
      r := ParseSingleMailbox(parts[0]);
    } else {
      r := ParseSingleMailbox(trimmed);
    }
  }

  // -- print and parse back ---------------------------------------------------------

  // Text every scanner passes over without changing state.
  ghost predicate Inert(s: Text) {
    forall k :: 0 <= k < |s| ==>
      s[k] != DQUOTE && s[k] != LT && s[k] != GT && s[k] != COMMA && s[k] != LPAREN && s[k] != RPAREN
        && s[k] != BACKSLASH
  }

  // Text that may stand between two quotes: none of its own quotes is bare, and no
  // backslash is left over at its end.
  predicate Enclosed(s: Text, escaped: bool) {
    if s == [] then !escaped
    else if escaped then Enclosed(s[1..], false)
    else if s[0] == BACKSLASH then Enclosed(s[1..], true)
    else s[0] != DQUOTE && Enclosed(s[1..], false)
  }

  function InQuotes(quoted: Text): Text {
    [DQUOTE] + quoted + [DQUOTE]
  }

  ghost predicate QuotedUnit(display: Text, quoted: Text, name: Text) {
    display == InQuotes(quoted) && Enclosed(quoted, false) && UnescapeSpec(quoted, false) == name
  }

  // A display text the scanners take as one unit: inert, or one quoted string.
  ghost predicate Unit(display: Text, name: Text) {
    (Inert(display) && display == name) || exists quoted :: QuotedUnit(display, quoted, name)
  }

  // No quoted string in the address runs over its end.
  function QuotesClosed(address: Text, inQuotes: bool, escaped: bool): bool {
    if address == [] then !inQuotes
    else if escaped then QuotesClosed(address[1..], inQuotes, false)
    else if address[0] == BACKSLASH && inQuotes then QuotesClosed(address[1..], inQuotes, true)
    else if address[0] == DQUOTE then QuotesClosed(address[1..], !inQuotes, false)
    else QuotesClosed(address[1..], inQuotes, false)
  }

  // With no comma that splits, the list is one entry.
  function NeverSplits(s: Text, q: bool, e: bool): bool {
    if s == [] then true
    else if e then NeverSplits(s[1..], q, false)
    else if s[0] == BACKSLASH then NeverSplits(s[1..], q, true)
    else if s[0] == DQUOTE then NeverSplits(s[1..], !q, false)
    else (q || s[0] != COMMA) && NeverSplits(s[1..], q, false)
  }

  lemma {:induction false} OnePart(s: Text, current: Text, q: bool, e: bool, a: nat, c: nat)
    requires NeverSplits(s, q, e)
    ensures PartsSpec(s, current, q, e, a, c) == if Trim(current + s) != [] then [Trim(current + s)] else []
  {
    if s == [] {
      assert current + s == current;
    } else {
      assert current + s == (current + [s[0]]) + s[1..];
      var more := current + [s[0]];
      if e {
        OnePart(s[1..], more, q, false, a, c);
      } else if s[0] == BACKSLASH {
        OnePart(s[1..], more, q, true, a, c);
      } else if s[0] == DQUOTE {
        OnePart(s[1..], more, !q, false, a, c);
      } else {
        OnePart(s[1..], more, q, false, a, c);
        OnePart(s[1..], more, q, false, a + 1, c);
        OnePart(s[1..], more, q, false, if a > 0 then a - 1 else 0, c);
        OnePart(s[1..], more, q, false, a, c + 1);
        OnePart(s[1..], more, q, false, a, if c > 0 then c - 1 else 0);
      }
    }
  }

  lemma {:induction false} NoCommaNeverSplits(s: Text, q: bool, e: bool)
    requires COMMA !in s
    ensures NeverSplits(s, q, e)
  {
    if s != [] {
      NoCommaNeverSplits(s[1..], q, false);
      NoCommaNeverSplits(s[1..], q, true);
      NoCommaNeverSplits(s[1..], !q, false);
    }
  }

  lemma {:induction false} EnclosedNeverSplits(quoted: Text, escaped: bool, rest: Text)
    requires Enclosed(quoted, escaped)
    ensures NeverSplits(quoted + rest, true, escaped) == NeverSplits(rest, true, false)
  {
    if quoted == [] {
      assert quoted + rest == rest;
    } else {
      assert (quoted + rest)[1..] == quoted[1..] + rest;
      EnclosedNeverSplits(quoted[1..], !escaped && quoted[0] == BACKSLASH, rest);
    }
  }

  lemma {:induction false} AngleSkipsInert(s: Text, i: nat, end: nat, open: Option<nat>, close: Option<nat>)
    requires i <= end <= |s| && Inert(s[i..end])
    ensures AngleSpec(s, i, false, false, open, close) == AngleSpec(s, end, false, false, open, close)
    decreases end - i
  {
    if i < end {
      assert s[i] == s[i..end][0];
      assert s[i..end][1..] == s[i + 1..end];
      AngleSkipsInert(s, i + 1, end, open, close);
    }
  }

  lemma {:induction false} AngleSkipsEnclosed(
    s: Text, i: nat, quoted: Text, escaped: bool, open: Option<nat>, close: Option<nat>)
    requires i + |quoted| <= |s| && s[i..i + |quoted|] == quoted && Enclosed(quoted, escaped)
    ensures AngleSpec(s, i, true, escaped, open, close) == AngleSpec(s, i + |quoted|, true, false, open, close)
    decreases |quoted|
  {
    if quoted != [] {
      assert s[i] == s[i..i + |quoted|][0];
      assert s[i + 1..i + 1 + |quoted[1..]|] == s[i..i + |quoted|][1..];
      AngleSkipsEnclosed(s, i + 1, quoted[1..], !escaped && quoted[0] == BACKSLASH, open, close);
    }
  }

  lemma {:induction false} AngleSkipsAddress(s: Text, i: nat, end: nat, q: bool, e: bool, open: Option<nat>)
    requires i <= end <= |s| && QuotesClosed(s[i..end], q, e)
    requires forall k :: i <= k < end ==> s[k] != LT && s[k] != GT
    requires e ==> q
    ensures AngleSpec(s, i, q, e, open, None) == AngleSpec(s, end, false, false, open, None)
    decreases end - i
  {
    if i < end {
      assert s[i..end][1..] == s[i + 1..end];
      if e {
        AngleSkipsAddress(s, i + 1, end, q, false, open);
      } else if s[i] == BACKSLASH && q {
        AngleSkipsAddress(s, i + 1, end, q, true, open);
      } else if s[i] == DQUOTE {
        AngleSkipsAddress(s, i + 1, end, !q, false, open);
      } else {
        AngleSkipsAddress(s, i + 1, end, q, false, open);
      }
    }
  }

  lemma {:induction false} CommentsKeepInert(s: Text, rest: Text)
    requires Inert(s)
    ensures CommentsSpec(s + rest, 0, false, false) == s + CommentsSpec(rest, 0, false, false)
  {
    if s == [] {
      assert s + rest == rest;
    } else {
      assert (s + rest)[1..] == s[1..] + rest;
      CommentsKeepInert(s[1..], rest);
    }
  }

  lemma {:induction false} CommentsKeepEnclosed(quoted: Text, escaped: bool, rest: Text)
    requires Enclosed(quoted, escaped)
    ensures CommentsSpec(quoted + rest, 0, true, escaped) == quoted + CommentsSpec(rest, 0, true, false)
  {
    if quoted == [] {
      assert quoted + rest == rest;
    } else {
      var b, tail := quoted[0], quoted[1..];
      assert (quoted + rest)[1..] == tail + rest;
      CommentsKeepEnclosed(tail, !escaped && b == BACKSLASH, rest);
      assert quoted == [b] + tail;
      Assoc([b], tail, CommentsSpec(rest, 0, true, false));
    }
  }

  // Escaped text may stand between quotes.
  lemma {:induction false} EscapedIsEnclosed(name: Text)
    ensures Enclosed(Escape(name), false)
  {
    if name != [] {
      var s := Escape(name);
      EscapedIsEnclosed(name[1..]);
      if name[0] == DQUOTE || name[0] == BACKSLASH {
        assert s[1..][1..] == Escape(name[1..]);
        assert Enclosed(s, false) == Enclosed(s[1..], true);
      } else {
        assert s[1..] == Escape(name[1..]);
      }
    }
  }

  lemma {:induction false} UnescapeUndoes(name: Text)
    ensures UnescapeSpec(Escape(name), false) == name
  {
    if name != [] {
      var s := Escape(name);
      UnescapeUndoes(name[1..]);
      if name[0] == DQUOTE || name[0] == BACKSLASH {
        assert s[1..][1..] == Escape(name[1..]);
        assert UnescapeSpec(s, false) == UnescapeSpec(s[1..], true);
      } else {
        assert s[1..] == Escape(name[1..]);
      }
    }
  }

  lemma TrimOnlySpaces(s: Text)
    ensures forall k :: 0 <= k < |s| ==> IsSpace(s[k]) || s[k] in Trim(s)
    ensures forall b :: b in Trim(s) ==> b in s
  {
    TrimStartFront(s);
    TrimEndBack(TrimStart(s));
    var front := TrimStart(s);
    forall k | 0 <= k < |s|
      ensures IsSpace(s[k]) || s[k] in Trim(s)
    {
      var j := k - (|s| - |front|);
      if 0 <= j {
        assert front[j] == s[k];
        if j < |Trim(s)| {
          assert Trim(s)[j] == s[k];
        }
      }
    }
  }

  // What the scanners need of an address.
  lemma AddressIsPlain(address: Text)
    requires LooksLikeEmail(address)
    ensures LT !in address && GT !in address && COMMA !in address
    ensures AT in address && Trim(address) != [] && Trim(address)[0] != AT
  {
    TrimOnlySpaces(address);
    var addr := Trim(address);
    var at := IndexOf(addr, AT);
    assert addr[at] == AT;
  }

  lemma RouteFree(address: Text)
    requires LooksLikeEmail(address)
    ensures StripSourceRoute(Trim(address)) == Trim(address)
  {
    AddressIsPlain(address);
    TrimIsTight(address);
    TrimTight(Trim(address));
  }

  ghost function Shown(display: Text, address: Text): Text {
    (if display == [] then [] else display + [SPACE]) + [LT] + address + [GT]
  }

  // The display part comes back out of the comment stripper and the unquoting.
  lemma {:induction false} DisplayIsRead(display: Text, name: Text)
    requires Unit(display, name) && Tight(display)
    ensures var front := if display == [] then [] else display + [SPACE];
      Unquoted(Trim(CommentsSpec(front, 0, false, false))) == Trim(name)
  {
    if display == [] {
      assert Trim([]) == [];
    } else if Inert(display) && display == name {
      CommentsKeepInert(display, [SPACE]);
      assert CommentsSpec([SPACE], 0, false, false) == [SPACE];
      TrimTrailingSpace(display);
      TrimTight(display);
    } else {
      var quoted :| QuotedUnit(display, quoted, name);
      QuotedIsKept(quoted);
      TrimTrailingSpace(display);
      TrimTight(display);
      assert display[1..|display| - 1] == quoted;
    }
  }

  lemma QuotedIsKept(quoted: Text)
    requires Enclosed(quoted, false)
    ensures CommentsSpec(InQuotes(quoted) + [SPACE], 0, false, false) == InQuotes(quoted) + [SPACE]
  {
    hide Enclosed;
    var tail, s := [DQUOTE, SPACE], InQuotes(quoted) + [SPACE];
    assert tail[1..] == [SPACE];
    assert CommentsSpec([SPACE], 0, false, false) == [SPACE];
    assert CommentsSpec(tail, 0, true, false) == tail;
    assert s[1..] == quoted + tail;
    CommentsKeepEnclosed(quoted, false, tail);
  }

  lemma TrimTrailingSpace(s: Text)
    requires s != [] && Tight(s)
    ensures Trim(s + [SPACE]) == s
  {
    assert TrimStart(s + [SPACE]) == s + [SPACE];
    assert (s + [SPACE])[..|s|] == s;
    assert TrimEnd(s) == s;
  }

  lemma QuotedNeverSplits(quoted: Text, rest: Text)
    requires Enclosed(quoted, false) && COMMA !in rest
    ensures NeverSplits(InQuotes(quoted) + rest, false, false)
  {
    hide Enclosed;
    var tail, s := [DQUOTE] + rest, InQuotes(quoted) + rest;
    assert s[1..] == quoted + tail;
    EnclosedNeverSplits(quoted, false, tail);
    assert tail[1..] == rest;
    NoCommaNeverSplits(rest, false, false);
  }

  lemma ShownNeverSplits(display: Text, name: Text, address: Text)
    requires Unit(display, name) && COMMA !in address
    ensures NeverSplits(Shown(display, address), false, false)
  {
    hide NeverSplits, Enclosed, UnescapeSpec;
    var text := Shown(display, address);
    if display == [] || (Inert(display) && display == name) {
      NoCommaNeverSplits(text, false, false);
    } else {
      var quoted :| QuotedUnit(display, quoted, name);
      var rest := [SPACE, LT] + address + [GT];
      assert text == InQuotes(quoted) + rest;
      QuotedNeverSplits(quoted, rest);
    }
  }

  lemma AngleSkipsQuoted(text: Text, quoted: Text)
    requires Enclosed(quoted, false) && InQuotes(quoted) + [SPACE] <= text
    ensures AngleSpec(text, 0, false, false, None, None) == AngleSpec(text, |quoted| + 3, false, false, None, None)
  {
    hide Enclosed;
    var n := |quoted|;
    var piece := InQuotes(quoted) + [SPACE];
    assert text[..n + 3] == piece;
    assert text[0] == piece[0] && text[n + 1] == piece[n + 1] && text[n + 2] == piece[n + 2];
    assert text[1..1 + n] == piece[1..1 + n] == quoted;
    AngleSkipsEnclosed(text, 1, quoted, false, None, None);
    assert AngleSpec(text, 0, false, false, None, None) == AngleSpec(text, 1, true, false, None, None);
    assert AngleSpec(text, 1 + n, true, false, None, None) == AngleSpec(text, 2 + n, false, false, None, None);
    assert AngleSpec(text, 2 + n, false, false, None, None) == AngleSpec(text, 3 + n, false, false, None, None);
  }

  lemma AngleSkipsUnit(text: Text, display: Text, name: Text)
    requires Unit(display, name) && display != [] && display + [SPACE] <= text
    ensures AngleSpec(text, 0, false, false, None, None) == AngleSpec(text, |display| + 1, false, false, None, None)
  {
    hide AngleSpec, Enclosed, UnescapeSpec;
    if Inert(display) && display == name {
      assert text[0..|display| + 1] == display + [SPACE];
      AngleSkipsInert(text, 0, |display| + 1, None, None);
    } else {
      var quoted :| QuotedUnit(display, quoted, name);
      AngleSkipsQuoted(text, quoted);
    }
  }

  lemma AngleReadsAddress(text: Text, open: nat, address: Text)
    requires open + |address| + 2 == |text|
    requires text[open] == LT && text[open + 1..|text| - 1] == address && text[|text| - 1] == GT
    requires LT !in address && GT !in address && QuotesClosed(address, false, false)
    ensures AngleSpec(text, open, false, false, None, None) == (Some(open), Some(|text| - 1))
  {
    var close := |text| - 1;
    forall k | open + 1 <= k < close
      ensures text[k] != LT && text[k] != GT
    {
      assert text[k] == address[k - open - 1];
    }
    assert AngleSpec(text, open, false, false, None, None) == AngleSpec(text, open + 1, false, false, Some(open), None);
    AngleSkipsAddress(text, open + 1, close, false, false, Some(open));
    assert AngleSpec(text, close, false, false, Some(open), None)
      == AngleSpec(text, close + 1, false, false, Some(open), Some(close));
  }

  lemma {:induction false} ShownAngle(display: Text, name: Text, address: Text)
    requires Unit(display, name)
    requires LT !in address && GT !in address && QuotesClosed(address, false, false)
    ensures var text, open := Shown(display, address), if display == [] then 0 else |display| + 1;
      && AngleAddr(text) == Some((open, |text| - 1))
      && text[..open] == (if display == [] then [] else display + [SPACE])
      && text[open + 1..|text| - 1] == address
  {
    hide AngleSpec, QuotesClosed, Unit;
    var text, open := Shown(display, address), if display == [] then 0 else |display| + 1;
    assert text[..open] == if display == [] then [] else display + [SPACE];
    assert text[open + 1..|text| - 1] == address;
    if display != [] {
      assert display + [SPACE] <= text;
      AngleSkipsUnit(text, display, name);
    }
    AngleReadsAddress(text, open, address);
  }

  lemma ShownIsTight(display: Text, address: Text)
    requires Tight(display)
    ensures Trim(Shown(display, address)) == Shown(display, address) != []
    ensures AT in address ==> AT in Shown(display, address)
  {
    var text := Shown(display, address);
    TrimTight(text);
    var front := if display == [] then [] else display + [SPACE];
    assert text == front + [LT] + address + [GT];
  }

  // Any mailbox text built around one display unit is read back exactly.
  lemma ShownIsRead(display: Text, name: Text, address: Text)
    requires Unit(display, name) && Tight(display)
    requires LooksLikeEmail(address) && QuotesClosed(address, false, false)
    ensures MailboxSpec(Shown(display, address)) == Some(Mailbox(Trim(name), Trim(address)))
  {
    hide PartsSpec, AngleAddr, CommentsSpec, Unquoted, LooksLikeEmail, StripSourceRoute, Shown, Unit, Tight, Trim,
         NeverSplits, QuotesClosed;
    var text := Shown(display, address);
    AddressIsPlain(address);
    ShownIsTight(display, address);
    ShownNeverSplits(display, name, address);
    OnePart(text, [], false, false, 0, 0);
    assert [] + text == text;
    ShownAngle(display, name, address);
    DisplayIsRead(display, name);
    RouteFree(address);
  }

  // A name shaped as an encoded word or a quoted string is passed on as it is; it has to be
  // one: an encoded word with nothing in it that means something to the scanners, a quoted
  // string with its inner quotes escaped.
  ghost predicate Faithful(name: Text) {
    var trimmed := Trim(name);
    && (EncodedWordShape(trimmed) ==> Inert(trimmed))
    && (QuotedShape(trimmed) ==> Enclosed(trimmed[1..|trimmed| - 1], false))
  }

  // Not every name is: this one has the shape of an encoded word.
  const MISLEADING: Text := [EQUALS, QUESTION, AT, COMMA, QUESTION, EQUALS]

  lemma TrimKeepsFront(front: Text, rest: Text)
    requires front != [] && !IsSpace(front[0]) && !IsSpace(front[|front| - 1])
    ensures front <= Trim(front + rest)
  {
    var s := front + rest;
    assert TrimStart(s) == s;
    TrimEndBack(s);
    assert s[|front| - 1] == front[|front| - 1];
    assert front == s[..|front|];
  }

  lemma PlainByte(b: byte, rest: Text, current: Text)
    requires Inert([b])
    ensures PartsSpec([b] + rest, current, false, false, 0, 0) == PartsSpec(rest, current + [b], false, false, 0, 0)
  {
    assert [b][0] == b && ([b] + rest)[1..] == rest;
  }

  lemma CommaByte(rest: Text, current: Text)
    requires current != [] && Tight(current)
    ensures PartsSpec([COMMA] + rest, current, false, false, 0, 0)
      == [current] + PartsSpec(rest, [], false, false, 0, 0)
  {
    assert ([COMMA] + rest)[1..] == rest;
    TrimTight(current);
    hide Trim;
  }

  lemma {:induction false} CommaCuts(rest: Text)
    ensures var parts := PartsSpec(MISLEADING[..4] + rest, [], false, false, 0, 0);
      parts != [] && parts[0] == MISLEADING[..3]
  {
    hide PartsSpec;
    var s := [COMMA] + rest;
    CommaByte(rest, MISLEADING[..3]);
    PlainByte(AT, s, [EQUALS, QUESTION]);
    PlainByte(QUESTION, [AT] + s, [EQUALS]);
    PlainByte(EQUALS, [QUESTION] + ([AT] + s), []);
    assert MISLEADING[..4] + rest == [EQUALS] + ([QUESTION] + ([AT] + s));
    assert [] + [EQUALS] == [EQUALS] && [EQUALS] + [QUESTION] == [EQUALS, QUESTION];
    assert [EQUALS, QUESTION] + [AT] == MISLEADING[..3];
  }

  lemma {:induction false} TokenIsAll(s: Text, token: Text)
    requires forall k :: 0 <= k < |s| ==> !IsSpace(s[k])
    requires AT in token + s
    ensures AddressToken(s, token) == Some(token + s)
  {
    if s == [] {
      assert token + s == token;
    } else {
      assert token + s == (token + [s[0]]) + s[1..];
      TokenIsAll(s[1..], token + [s[0]]);
    }
  }

  lemma NoAngle(text: Text)
    requires Inert(text)
    ensures AngleAddr(text).None?
  {
    hide AngleSpec;
    assert text[0..|text|] == text;
    AngleSkipsInert(text, 0, |text|, None, None);
    AngleEnd(text);
  }

  lemma AngleEnd(text: Text)
    ensures AngleSpec(text, |text|, false, false, None, None) == (None, None)
  {
  }

  lemma NoComments(text: Text)
    requires Inert(text)
    ensures CommentIn(text).None? && CommentsSpec(text, 0, false, false) == text
  {
    hide CommentsSpec, Trim;
    CommentsKeepInert(text, []);
    NothingToStrip();
    assert text + [] == text;
  }

  lemma NothingToStrip()
    ensures CommentsSpec([], 0, false, false) == []
  {
  }

  // A bare address is read as it stands.
  lemma BareIsRead(text: Text)
    requires Inert(text) && AT in text && text[0] != AT && forall k :: 0 <= k < |text| ==> !IsSpace(text[k])
    ensures SingleSpec(text) == Some(Mailbox([], text))
  {
    hide AngleAddr, CommentIn, CommentsSpec, AddressToken, Trim, Inert;
    TrimTight(text);
    NoAngle(text);
    NoComments(text);
    TokenIsAll(text, []);
    assert [] + text == text;
  }

  // Whatever follows its comma, a reader takes what stands before for the address.
  lemma MisleadsReaders(rest: Text)
    ensures MailboxSpec(MISLEADING[..4] + rest).Some?
    ensures MailboxSpec(MISLEADING[..4] + rest).value.address == MISLEADING[..3]
  {
    var s := MISLEADING[..4] + rest;
    TrimKeepsFront(MISLEADING[..4], rest);
    hide PartsSpec, SingleSpec, Trim;
    var trimmed := Trim(s);
    assert trimmed == MISLEADING[..4] + trimmed[4..];
    CommaCuts(trimmed[4..]);
    assert MISLEADING[..3][2] == AT;
    BareIsRead(MISLEADING[..3]);
  }

  lemma MisleadingIsNotFaithful()
    ensures !Faithful(MISLEADING)
  {
    TrimTight(MISLEADING);
    assert MISLEADING[3] == COMMA;
  }

  // And a sender can have it for a display name.
  lemma {:induction false} MisleadingCanBeSent(address: Text)
    requires LooksLikeEmail(address) && QuotesClosed(address, false, false)
    ensures MailboxSpec(Shown(InQuotes(MISLEADING), address)) == Some(Mailbox(MISLEADING, Trim(address)))
  {
    hide Enclosed, UnescapeSpec, LooksLikeEmail, QuotesClosed, MailboxSpec, Shown;
    TrimTight(MISLEADING);
    PlainIsEnclosed(MISLEADING);
    assert QuotedUnit(InQuotes(MISLEADING), MISLEADING, MISLEADING);
    ShownIsRead(InQuotes(MISLEADING), MISLEADING, address);
  }

  lemma {:induction false} PlainIsEnclosed(s: Text)
    requires DQUOTE !in s && BACKSLASH !in s
    ensures Enclosed(s, false) && UnescapeSpec(s, false) == s
  {
    if s != [] {
      PlainIsEnclosed(s[1..]);
    }
  }

  // What the parser makes of a printed name.
  ghost function ReadName(name: Text): Text {
    var trimmed := Trim(name);
    if trimmed != [] && !EncodedWordShape(trimmed) && QuotedShape(trimmed) then
      Trim(UnescapeSpec(trimmed[1..|trimmed| - 1], false))
    else if trimmed == [] || EncodedWordShape(trimmed) || !IsAscii(trimmed) then DisplaySpec(name)
    else Trim(NoControls(trimmed))
  }

  lemma {:induction false} NothingToDrop(s: Text)
    requires forall k :: 0 <= k < |s| ==> !IsControl(s[k])
    ensures NoControls(s) == s
  {
    if s != [] {
      NothingToDrop(s[1..]);
    }
  }

  // The printer always produces one display unit.
  lemma DisplayIsUnit(name: Text) returns (inner: Text)
    requires Faithful(name)
    ensures Unit(DisplaySpec(name), inner) && Tight(DisplaySpec(name))
    ensures Trim(inner) == ReadName(name)
  {
    hide Base64, Escape, Enclosed, UnescapeSpec;
    var trimmed, display := Trim(name), DisplaySpec(name);
    TrimIsTight(name);
    inner := display;
    if trimmed == [] || EncodedWordShape(trimmed) {
      TrimTight(display);
    } else if QuotedShape(trimmed) {
      var quoted := trimmed[1..|trimmed| - 1];
      inner := UnescapeSpec(quoted, false);
      assert trimmed == InQuotes(quoted);
      assert QuotedUnit(display, quoted, inner);
    } else if !IsAscii(trimmed) {
      TrimTight(display);
    } else if NeedsQuoting(trimmed) {
      inner := NoControls(trimmed);
      EscapedIsEnclosed(inner);
      UnescapeUndoes(inner);
      assert QuotedUnit(display, Escape(inner), inner);
    } else {
      NothingToDrop(trimmed);
      TrimTight(trimmed);
    }
  }

  // Printing a mailbox and parsing it gives back the address and the name
  // without its control characters.
  lemma RoundTrip(name: Text, address: Text)
    requires Faithful(name)
    requires LooksLikeEmail(address) && QuotesClosed(address, false, false)
    ensures MailboxSpec(MailboxText(name, address)) == Some(Mailbox(ReadName(name), Trim(address)))
  {
    var inner := DisplayIsUnit(name);
    ShownIsRead(DisplaySpec(name), inner, address);
  }

  // Without a double quote in it an address closes all its quotes.
  lemma {:induction false} NoQuoteIsClosed(address: Text)
    requires DQUOTE !in address
    ensures QuotesClosed(address, false, false)
  {
    if address != [] {
      NoQuoteIsClosed(address[1..]);
    }
  }

  // -- lists, comments and routes ---------------------------------------------------------------

  // The scanner comes through the text back to where no quote, angle or comment is open, and
  // meets no comma that splits.
  ghost predicate Closes(s: Text, q: bool, e: bool, a: nat, c: nat) {
    if s == [] then !q && !e && a == 0 && c == 0
    else
      var b, rest := s[0], s[1..];
      if e then Closes(rest, q, false, a, c)
      else if b == BACKSLASH then Closes(rest, q, true, a, c)
      else if b == DQUOTE then Closes(rest, !q, false, a, c)
      else if q then Closes(rest, true, false, a, c)
      else if b == LT then Closes(rest, false, false, a + 1, c)
      else if b == GT then Closes(rest, false, false, if a > 0 then a - 1 else 0, c)
      else if b == LPAREN then Closes(rest, false, false, a, c + 1)
      else if b == RPAREN then Closes(rest, false, false, a, if c > 0 then c - 1 else 0)
      else !(b == COMMA && a == 0 && c == 0) && Closes(rest, false, false, a, c)
  }

  // What such a text, a comma and more are split into.
  lemma {:induction false} CommaSplits(s: Text, rest: Text, current: Text, q: bool, e: bool, a: nat, c: nat)
    requires Closes(s, q, e, a, c)
    ensures PartsSpec(s + [COMMA] + rest, current, q, e, a, c)
      == (if Trim(current + s) != [] then [Trim(current + s)] else []) + PartsSpec(rest, [], false, false, 0, 0)
    decreases |s|, 0
  {
    var all := s + [COMMA] + rest;
    if s == [] {
      assert all == [COMMA] + rest && all[1..] == rest;
      assert current + s == current;
    } else {
      var more := current + [s[0]];
      assert all[1..] == s[1..] + [COMMA] + rest;
      assert current + s == more + s[1..];
      CommaSplitsBehind(s, rest, more, q, e, a, c);
    }
  }

  lemma {:induction false} CommaSplitsBehind(s: Text, rest: Text, more: Text, q: bool, e: bool, a: nat, c: nat)
    requires s != [] && Closes(s, q, e, a, c)
    ensures var b, tail := s[0], s[1..] + [COMMA] + rest;
      var end := (if Trim(more + s[1..]) != [] then [Trim(more + s[1..])] else [])
                 + PartsSpec(rest, [], false, false, 0, 0);
      if e then PartsSpec(tail, more, q, false, a, c) == end
      else if b == BACKSLASH then PartsSpec(tail, more, q, true, a, c) == end
      else if b == DQUOTE then PartsSpec(tail, more, !q, false, a, c) == end
      else if q then PartsSpec(tail, more, true, false, a, c) == end
      else if b == LT then PartsSpec(tail, more, false, false, a + 1, c) == end
      else if b == GT then PartsSpec(tail, more, false, false, if a > 0 then a - 1 else 0, c) == end
      else if b == LPAREN then PartsSpec(tail, more, false, false, a, c + 1) == end
      else if b == RPAREN then PartsSpec(tail, more, false, false, a, if c > 0 then c - 1 else 0) == end
      else PartsSpec(tail, more, false, false, a, c) == end
    decreases |s| - 1, 1
  {
    hide PartsSpec, Trim;
    var b, s1 := s[0], s[1..];
    if e {
      CommaSplits(s1, rest, more, q, false, a, c);
    } else if b == BACKSLASH {
      CommaSplits(s1, rest, more, q, true, a, c);
    } else if b == DQUOTE {
      CommaSplits(s1, rest, more, !q, false, a, c);
    } else if q {
      CommaSplits(s1, rest, more, true, false, a, c);
    } else if b == LT {
      CommaSplits(s1, rest, more, false, false, a + 1, c);
    } else if b == GT {
      CommaSplits(s1, rest, more, false, false, if a > 0 then a - 1 else 0, c);
    } else if b == LPAREN {
      CommaSplits(s1, rest, more, false, false, a, c + 1);
    } else if b == RPAREN {
      CommaSplits(s1, rest, more, false, false, a, if c > 0 then c - 1 else 0);
    } else {
      CommaSplits(s1, rest, more, false, false, a, c);
    }
  }

  // The mailbox of a list is its first entry's, unless that has no at sign in it, as half a
  // name has whose comma stands without quotes: then all of the text is one entry.
  lemma {:induction false} FirstEntryIsRead(entry: Text, rest: Text)
    requires Closes(entry, false, false, 0, 0) && Tight(entry) && entry != []
    ensures MailboxSpec(entry + [COMMA] + rest)
      == SingleSpec(if AT in entry then entry else Trim(entry + [COMMA] + rest))
    ensures MailboxSpec(entry) == SingleSpec(entry)
  {
    hide PartsSpec, SingleSpec, Closes;
    var list := entry + [COMMA] + rest;
    TrimKeepsFront(entry + [COMMA], rest);
    var trimmed := Trim(list);
    var tail := trimmed[|entry| + 1..];
    assert trimmed == entry + [COMMA] + tail;
    assert [] + entry == entry;
    TrimTight(entry);
    CommaSplits(entry, tail, [], false, false, 0, 0);
    ClosesAlone(entry, [], false, false, 0, 0);
  }

  lemma {:induction false} ClosesAlone(s: Text, current: Text, q: bool, e: bool, a: nat, c: nat)
    requires Closes(s, q, e, a, c)
    ensures PartsSpec(s, current, q, e, a, c) == if Trim(current + s) != [] then [Trim(current + s)] else []
  {
    hide Trim;
    if s == [] {
      assert current + s == current;
    } else {
      var more, s1 := current + [s[0]], s[1..];
      assert current + s == more + s1;
      if e {
        ClosesAlone(s1, more, q, false, a, c);
      } else if s[0] == BACKSLASH {
        ClosesAlone(s1, more, q, true, a, c);
      } else if s[0] == DQUOTE {
        ClosesAlone(s1, more, !q, false, a, c);
      } else if q {
        ClosesAlone(s1, more, true, false, a, c);
      } else if s[0] == LT {
        ClosesAlone(s1, more, false, false, a + 1, c);
      } else if s[0] == GT {
        ClosesAlone(s1, more, false, false, if a > 0 then a - 1 else 0, c);
      } else if s[0] == LPAREN {
        ClosesAlone(s1, more, false, false, a, c + 1);
      } else if s[0] == RPAREN {
        ClosesAlone(s1, more, false, false, a, if c > 0 then c - 1 else 0);
      } else {
        ClosesAlone(s1, more, false, false, a, c);
      }
    }
  }

  // A comment's text: every parenthesis in it is matched, k of them from before.
  ghost predicate Matched(s: Text, k: nat) {
    if s == [] then k == 0
    else if s[0] == LPAREN then Matched(s[1..], k + 1)
    else if s[0] == RPAREN then k > 0 && Matched(s[1..], k - 1)
    else Matched(s[1..], k)
  }

  lemma {:induction false} CommentTextGoes(s: Text, k: nat, d: nat, rest: Text)
    requires Matched(s, k) && DQUOTE !in s && BACKSLASH !in s && d > 0
    ensures CommentsSpec(s + rest, d + k, false, false) == CommentsSpec(rest, d, false, false)
  {
    if s == [] {
      assert s + rest == rest;
    } else {
      assert (s + rest)[1..] == s[1..] + rest;
      assert s[0] in s && forall b :: b in s[1..] ==> b in s;
      var next := if s[0] == LPAREN then k + 1 else if s[0] == RPAREN then k - 1 else k;
      CommentTextGoes(s[1..], next, d, rest);
    }
  }

  // A comment goes as a whole, with those inside it.
  lemma {:induction false} CommentGoes(comment: Text, rest: Text)
    requires Matched(comment, 0) && DQUOTE !in comment && BACKSLASH !in comment
    ensures CommentsSpec([LPAREN] + comment + [RPAREN] + rest, 0, false, false) == CommentsSpec(rest, 0, false, false)
  {
    var behind := [RPAREN] + rest;
    var s := [LPAREN] + comment + [RPAREN] + rest;
    assert s[1..] == comment + behind && behind[1..] == rest;
    CommentTextGoes(comment, 0, 1, behind);
  }

  // A source route in front of an address is left out.
  lemma RouteGoes(route: Text, address: Text)
    requires COLON !in route && Tight(address) && address != []
    ensures StripSourceRoute([AT] + route + [COLON] + address) == address
  {
    var s := [AT] + route + [COLON] + address;
    TrimTight(s);
    IndexOfIs(s, COLON, |route| + 1);
    assert s[|route| + 2..] == address;
    TrimTight(address);
  }

  // Angles with nothing between them are no mailbox, whatever the name.
  lemma {:induction false} NothingInAngles(display: Text, name: Text)
    requires Unit(display, name) && Tight(display)
    ensures SingleSpec(Shown(display, [])).None?
  {
    hide Unit, AngleAddr, CommentsSpec;
    ShownAngle(display, name, []);
    ShownIsTight(display, []);
    TrimTight(Shown(display, []));
  }

  // -- an address with a name in a comment ------------------------------------------------------

  lemma {:induction false} WithoutLt(s: Text, i: nat, q: bool, e: bool, close: Option<nat>)
    requires i <= |s| && LT !in s
    ensures AngleSpec(s, i, q, e, None, close).0 == None
    decreases |s| - i
  {
    if i < |s| {
      WithoutLt(s, i + 1, q, true, close);
      WithoutLt(s, i + 1, q, false, close);
      WithoutLt(s, i + 1, !q, false, close);
    }
  }

  // What is no scanner's business, but for commas.
  predicate Remark(s: Text) {
    DQUOTE !in s && BACKSLASH !in s && LPAREN !in s && RPAREN !in s && LT !in s && GT !in s
  }

  lemma {:induction false} RemarkIsMatched(s: Text)
    requires Remark(s)
    ensures Matched(s, 0)
  {
    if s != [] {
      assert forall b :: b in s[1..] ==> b in s;
      RemarkIsMatched(s[1..]);
    }
  }

  lemma {:induction false} RemarkCloses(s: Text, rest: Text, c: nat)
    requires Remark(s) && (COMMA in s ==> c > 0)
    ensures Closes(s + rest, false, false, 0, c) == Closes(rest, false, false, 0, c)
  {
    if s == [] {
      assert s + rest == rest;
    } else {
      assert (s + rest)[1..] == s[1..] + rest;
      assert s[0] in s && forall b :: b in s[1..] ==> b in s;
      RemarkCloses(s[1..], rest, c);
    }
  }

  lemma RemarkedCloses(front: Text, name: Text)
    requires Remark(front) && COMMA !in front && Remark(name)
    ensures Closes(front + ([LPAREN] + (name + [RPAREN])), false, false, 0, 0)
  {
    RemarkCloses(front, [LPAREN] + (name + [RPAREN]), 0);
    assert ([LPAREN] + (name + [RPAREN]))[1..] == name + [RPAREN];
    RemarkCloses(name, [RPAREN], 1);
  }

  // The name of an address without angles is what its comment says.
  lemma {:induction false} CommentIsName(address: Text, name: Text)
    requires Inert(address) && AT in address && address[0] != AT && Remark(name)
    requires forall k :: 0 <= k < |address| ==> !IsSpace(address[k])
    ensures MailboxSpec(address + [SPACE] + ([LPAREN] + (name + [RPAREN]))) == Some(Mailbox(Trim(name), address))
  {
    hide AngleSpec, CommentIn, CommentsSpec, AddressToken, Trim, PartsSpec, Closes, StripSourceRoute;
    var front, text := address + [SPACE], address + [SPACE] + ([LPAREN] + (name + [RPAREN]));
    TrimTight(text);
    TrimTight(address);
    RemarkedCloses(front, name);
    assert [] + text == text;
    ClosesAlone(text, [], false, false, 0, 0);
    WithoutLt(text, 0, false, false, None);
    CommentSays(front, name);
    CommentLeaves(front, name);
    TrimTrailingSpace(address);
    TokenIsAll(address, []);
    assert [] + address == address;
    assert StripSourceRoute(address) == address by { NoRoute(address); }
  }

  lemma NoRoute(address: Text)
    requires Trim(address) == address && address != [] && address[0] != AT
    ensures StripSourceRoute(address) == address
  {
  }

  lemma {:induction false} CommentSays(front: Text, name: Text)
    requires LPAREN !in front && RPAREN !in name
    ensures match CommentIn(front + ([LPAREN] + (name + [RPAREN])))
      case Some(comment) => comment == Trim(name)
      case None => Trim(name) == []
  {
    hide Trim;
    var text := front + ([LPAREN] + (name + [RPAREN]));
    IndexOfIs(text, LPAREN, |front|);
    LastIndexIs(text, RPAREN, |text| - 1);
    assert text[|front| + 1..|text| - 1] == name;
    if name == [] {
      TrimTight([]);
    }
  }

  lemma CommentLeaves(front: Text, name: Text)
    requires Inert(front) && Remark(name)
    ensures CommentsSpec(front + ([LPAREN] + (name + [RPAREN])), 0, false, false) == front
  {
    hide CommentsSpec;
    RemarkIsMatched(name);
    var comment := [LPAREN] + (name + [RPAREN]);
    CommentsKeepInert(front, comment);
    CommentGoes(name, []);
    assert [LPAREN] + name + [RPAREN] + [] == comment;
    NothingToStrip();
  }

  // Words in front of an address are passed over, up to the first that holds an at sign.
  lemma {:induction false} WordsArePassed(word: Text, space: byte, rest: Text, token: Text)
    requires IsSpace(space) && forall k :: 0 <= k < |word| ==> !IsSpace(word[k])
    ensures AddressToken(word + ([space] + rest), token)
      == if AT in token + word then Some(token + word) else AddressToken(rest, [])
    ensures AddressToken(word, token) == if AT in token + word then Some(token + word) else None
  {
    if word == [] {
      assert word + ([space] + rest) == [space] + rest && ([space] + rest)[1..] == rest;
      assert token + word == token;
    } else {
      assert (word + ([space] + rest))[1..] == word[1..] + ([space] + rest);
      assert token + word == (token + [word[0]]) + word[1..];
      WordsArePassed(word[1..], space, rest, token + [word[0]]);
    }
  }

  // -- what a shown name says ---------------------------------------------------------------

  // Table 1 of RFC 4648.
  function Sextet(b: byte): nat {
    if 65 <= b <= 90 then b as nat - 65
    else if 97 <= b <= 122 then b as nat - 71
    else if 48 <= b <= 57 then b as nat + 4
    else if b == 43 then 62
    else if b == 47 then 63
    else 0
  }

  // Four digits as the one to three bytes they stand for, by section 4 of RFC 4648.
  function Quantum(q: Text): (r: Text)
    requires |q| == 4
  {
    var a, b, c, d := Sextet(q[0]), Sextet(q[1]), Sextet(q[2]), Sextet(q[3]);
    [((a * 4 + b / 16) % 256) as byte]
      + (if q[2] == EQUALS then [] else [((b % 16 * 16 + c / 4) % 256) as byte])
      + (if q[3] == EQUALS then [] else [((c % 4 * 64 + d) % 256) as byte])
  }

  function Decoded64(word: Text): Text {
    if |word| < 4 then [] else Quantum(word[..4]) + Decoded64(word[4..])
  }

  lemma DigitIsSextet(n: nat)
    requires n < 64
    ensures Sextet(Base64Digit(n)) == n && Base64Digit(n) != EQUALS
  {
  }

  lemma QuantumIs(a: nat, b: nat, c: nat, d: nat, two: bool, three: bool)
    requires a < 64 && b < 64 && c < 64 && d < 64 && (three ==> two)
    ensures Quantum([Base64Digit(a), Base64Digit(b), if two then Base64Digit(c) else EQUALS,
                     if three then Base64Digit(d) else EQUALS])
      == [(a * 4 + b / 16) as byte] + (if two then [(b % 16 * 16 + c / 4) as byte] else [])
         + (if three then [(c % 4 * 64 + d) as byte] else [])
  {
    hide Base64Digit, Sextet;
    DigitIsSextet(a);
    DigitIsSextet(b);
    DigitIsSextet(c);
    DigitIsSextet(d);
  }

  lemma {:induction false} OneQuantum(s: Text)
    requires s != []
    ensures Quantum(Digits64(s)) == if |s| > 3 then s[..3] else s
  {
    var a, b, c := s[0] as nat, if |s| > 1 then s[1] as nat else 0, if |s| > 2 then s[2] as nat else 0;
    SextetsAre(a, b, c);
    hide Base64Digit, Quantum;
    ThreeBytes(s, a / 4, a % 4 * 16 + b / 16, b % 16 * 4 + c / 64, c % 64);
  }

  lemma {:induction false} ThreeBytes(s: Text, w: nat, x: nat, y: nat, z: nat)
    requires s != [] && w < 64 && x < 64 && y < 64 && z < 64 && w * 4 + x / 16 == s[0] as nat
    requires |s| > 1 ==> x % 16 * 16 + y / 4 == s[1] as nat
    requires |s| > 2 ==> y % 4 * 64 + z == s[2] as nat
    ensures Quantum([Base64Digit(w), Base64Digit(x), if |s| > 1 then Base64Digit(y) else EQUALS,
                     if |s| > 2 then Base64Digit(z) else EQUALS])
      == if |s| > 3 then s[..3] else s
  {
    hide Base64Digit, Quantum;
    QuantumIs(w, x, y, z, |s| > 1, |s| > 2);
  }

  // Decoding what was encoded gives the text back.
  lemma {:induction false} Base64Undone(s: Text)
    ensures Decoded64(Base64(s)) == s
  {
    if s != [] {
      OneQuantum(s);
      hide Digits64, Quantum;
      var quad, more := Digits64(s), if |s| > 3 then Base64(s[3..]) else [];
      assert (quad + more)[..4] == quad && (quad + more)[4..] == more;
      if |s| > 3 {
        Base64Undone(s[3..]);
        assert s == s[..3] + s[3..];
      }
    }
  }

  // Begins and ends so; the two may overlap.
  predicate Between(s: Text, front: Text, back: Text) {
    front <= s && |back| <= |s| && s[|s| - |back|..] == back
  }

  // A byte that may stand in a phrase without quotes, by section 3.2.3 of RFC 5322.
  predicate NoQuoteNeeded(b: byte) {
    32 <= b != 127 && b !in Ascii("()<>[]:;@\\,.\"")
  }

  // A name that has the form of an encoded word or of a quoted string is left alone; of the
  // others one with a byte beyond ASCII goes out as an encoded word that holds exactly the
  // name, one with a special or a control character in quotes, and the rest as they are.
  lemma {:induction false} NameIsShown(name: Text)
    ensures var s := Trim(name);
      if Between(s, Ascii("=?"), Ascii("?=")) || (|s| >= 2 && Between(s, [DQUOTE], [DQUOTE])) then
        DisplaySpec(name) == s
      else if exists k :: 0 <= k < |s| && s[k] > 127 then
        exists word :: Decoded64(word) == s && DisplaySpec(name) == Ascii("=?UTF-8?B?") + word + Ascii("?=")
      else if exists k :: 0 <= k < |s| && !NoQuoteNeeded(s[k]) then
        DisplaySpec(name) == [DQUOTE] + Escape(NoControls(s)) + [DQUOTE]
      else DisplaySpec(name) == s
  {
    hide Trim, Base64, Decoded64;
    var s := Trim(name);
    Base64Undone(s);
    SpecialsAre();
    assert EncodedWordShape(s) <==> Between(s, Ascii("=?"), Ascii("?="));
    assert QuotedShape(s) <==> |s| >= 2 && Between(s, [DQUOTE], [DQUOTE]);
  }

  lemma SpecialsAre()
    ensures Ascii("=?") == [EQUALS, QUESTION] && Ascii("?=") == [QUESTION, EQUALS]
    ensures forall b: byte :: b <= 127 ==> (IsSpecial(b) || IsControl(b) <==> !NoQuoteNeeded(b))
  {
    var specials := Ascii("()<>[]:;@\\,.\"");
    assert specials == [40, 41, 60, 62, 91, 93, 58, 59, 64, 92, 44, 46, 34];
  }

  lemma SextetsAre(a: nat, b: nat, c: nat)
    requires a < 256 && b < 256 && c < 256
    ensures a / 4 * 4 + (a % 4 * 16 + b / 16) / 16 == a
    ensures (a % 4 * 16 + b / 16) % 16 * 16 + (b % 16 * 4 + c / 64) / 4 == b
    ensures (b % 16 * 4 + c / 64) % 4 * 64 + c % 64 == c
    ensures a / 4 < 64 && a % 4 * 16 + b / 16 < 64 && b % 16 * 4 + c / 64 < 64
  {
    assert (a % 4 * 16 + b / 16) % 16 == b / 16;
    assert (b % 16 * 4 + c / 64) % 4 == c / 64;
  }
}
