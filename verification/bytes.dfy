// Bytes and text. A Rust &str is its UTF-8 bytes, so text is a byte sequence
// too; whitespace, control characters and letter case are those of ASCII.
module Bytes {
  newtype byte = b: int | 0 <= b < 256

  type Text = seq<byte>

  const TAB: byte := 9
  const LF: byte := 10
  const CR: byte := 13
  const SPACE: byte := 32
  const DQUOTE: byte := 34
  const LPAREN: byte := 40
  const RPAREN: byte := 41
  const COMMA: byte := 44
  const DOT: byte := 46
  const COLON: byte := 58
  const SEMICOLON: byte := 59
  const LT: byte := 60
  const EQUALS: byte := 61
  const GT: byte := 62
  const QUESTION: byte := 63
  const AT: byte := 64
  const LBRACKET: byte := 91
  const BACKSLASH: byte := 92
  const RBRACKET: byte := 93
  const DEL: byte := 127

  const CRLF: Text := [CR, LF]

  lemma Assoc(a: Text, b: Text, c: Text)
    ensures (a + b) + c == a + (b + c)
  {
  }

  // Position of the first b in s, or |s| when there is none.
  function IndexOf(s: Text, b: byte): (r: nat)
    ensures r <= |s|
    ensures forall j :: 0 <= j < r ==> s[j] != b
    ensures r < |s| ==> s[r] == b
  {
    if s == [] || s[0] == b then 0 else 1 + IndexOf(s[1..], b)
  }

  lemma IndexOfIs(s: Text, b: byte, i: nat)
    requires i <= |s| && (forall j :: 0 <= j < i ==> s[j] != b) && (i < |s| ==> s[i] == b)
    ensures IndexOf(s, b) == i
  {
  }

  // -- ASCII classes -----------------------------------------------------

  predicate IsSpace(b: byte) {
    b == SPACE || 9 <= b <= 13
  }

  predicate IsControl(b: byte) {
    b < 32 || b == DEL
  }

  function LowerByte(b: byte): byte {
    if 65 <= b <= 90 then b + 32 else b
  }

  // to_ascii_lowercase
  function ToLower(s: Text): (r: Text)
    ensures |r| == |s|
  {
    seq(|s|, i requires 0 <= i < |s| => LowerByte(s[i]))
  }

  // The bytes of an ASCII literal.
  function Ascii(s: string): (r: Text)
    ensures |r| == |s|
  {
    seq(|s|, i requires 0 <= i < |s| => (s[i] as int % 256) as byte)
  }

  // -- trimming ------------------------------------------------------------

  function TrimStart(s: Text): (r: Text) {
    if s != [] && IsSpace(s[0]) then TrimStart(s[1..]) else s
  }

  function TrimEnd(s: Text): (r: Text) {
    if s != [] && IsSpace(s[|s| - 1]) then TrimEnd(s[..|s| - 1]) else s
  }

  function Trim(s: Text): (r: Text) {
    TrimEnd(TrimStart(s))
  }

  // No whitespace at either end.
  predicate Tight(s: Text) {
    s != [] ==> !IsSpace(s[0]) && !IsSpace(s[|s| - 1])
  }

  lemma TrimTight(s: Text)
    requires Tight(s)
    ensures Trim(s) == s
  {
  }

  lemma {:induction false} TrimIsTight(s: Text)
    ensures Tight(Trim(s))
    ensures |Trim(s)| <= |s|
    ensures forall b :: b in Trim(s) ==> b in s
  {
    TrimStartFront(s);
    TrimEndBack(TrimStart(s));
  }

  lemma {:induction false} TrimStartFront(s: Text)
    ensures |TrimStart(s)| <= |s|
    ensures TrimStart(s) == s[|s| - |TrimStart(s)|..]
    ensures TrimStart(s) != [] ==> !IsSpace(TrimStart(s)[0])
    ensures forall k :: 0 <= k < |s| - |TrimStart(s)| ==> IsSpace(s[k])
  {
    if s != [] && IsSpace(s[0]) {
      var rest := s[1..];
      TrimStartFront(rest);
      var cut := |rest| - |TrimStart(rest)|;
      assert rest[cut..] == s[cut + 1..];
      assert forall k :: 1 <= k < cut + 1 ==> s[k] == rest[k - 1];
    }
  }

  lemma {:induction false} TrimEndBack(s: Text)
    ensures TrimEnd(s) <= s
    ensures TrimEnd(s) != [] ==> !IsSpace(TrimEnd(s)[|TrimEnd(s)| - 1])
    ensures forall k :: |TrimEnd(s)| <= k < |s| ==> IsSpace(s[k])
  {
    if s != [] && IsSpace(s[|s| - 1]) {
      TrimEndBack(s[..|s| - 1]);
    }
  }
}
