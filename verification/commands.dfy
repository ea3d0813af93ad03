// Client commands of the inbound session (src/smtp/command.rs), against sections
// 4.1.1 and 4.1.2 of RFC 5321.
module Commands {
  import opened Bytes
  import opened Wrappers

  datatype Command =
    | Ehlo(domain: Text)
    | Helo(domain: Text)
    | Mail(address: Text, size: Option<nat>)
    | Rcpt(address: Text)
    | Data
    | Rset
    | Noop
    | Quit
    | Vrfy
    | Expn
    | Help
    | StartTls
    | Auth(mechanism: Text, initial: Option<Text>)
    | Unimplemented(verb: Text)
    | Unknown(verb: Text)
    | Empty

  // KEY=VALUE, the key in upper case.
  datatype Parameter = Parameter(key: Text, value: Option<Text>)

  // Every failure is the reply code to send.
  type Code = nat

  const EHLO: Text := Ascii("EHLO")
  const HELO: Text := Ascii("HELO")
  const MAIL: Text := Ascii("MAIL")
  const RCPT: Text := Ascii("RCPT")
  const DATA: Text := Ascii("DATA")
  const RSET: Text := Ascii("RSET")
  const NOOP: Text := Ascii("NOOP")
  const QUIT: Text := Ascii("QUIT")
  const VRFY: Text := Ascii("VRFY")
  const EXPN: Text := Ascii("EXPN")
  const HELP: Text := Ascii("HELP")
  const STARTTLS: Text := Ascii("STARTTLS")
  const AUTH: Text := Ascii("AUTH")
  const FROM: Text := Ascii("FROM")
  const TO: Text := Ascii("TO")
  const SIZE: Text := Ascii("SIZE")
  const PLUS: byte := 43

  const U64: nat := 0x1_0000_0000_0000_0000

  // The letters of the words, to tell them apart.
  lemma Spelled()
    ensures EHLO == [69, 72, 76, 79] && HELO == [72, 69, 76, 79] && MAIL == [77, 65, 73, 76]
    ensures RCPT == [82, 67, 80, 84] && DATA == [68, 65, 84, 65] && RSET == [82, 83, 69, 84]
    ensures QUIT == [81, 85, 73, 84] && AUTH == [65, 85, 84, 72]
  {
  }

  lemma SpelledToo()
    ensures NOOP == [78, 79, 79, 80] && VRFY == [86, 82, 70, 89] && EXPN == [69, 88, 80, 78]
    ensures HELP == [72, 69, 76, 80] && FROM == [70, 82, 79, 77] && SIZE == [83, 73, 90, 69]
    ensures TO == [84, 79] && |STARTTLS| == 8
  {
  }

  // Each verb is taken for itself.
  lemma VerbsAreTold(rest: Text)
    ensures VerbOf(MAIL, rest) == MailOf(rest) && VerbOf(RCPT, rest) == RcptOf(rest)
    ensures PlainVerb(MAIL) && PlainVerb(RCPT)
  {
    hide Ascii, MailOf, RcptOf, AuthOf, Simple;
    Spelled();
  }

  lemma SimpleVerbs()
    ensures Simple(DATA) == Some(Data) && Simple(RSET) == Some(Rset) && Simple(QUIT) == Some(Quit)
    ensures PlainVerb(DATA) && PlainVerb(RSET) && PlainVerb(QUIT)
  {
    hide Ascii;
    Spelled();
    SpelledToo();
  }

  lemma SimpleVerbsAreTold(rest: Text)
    ensures VerbOf(DATA, rest) == Ok(Data) && VerbOf(RSET, rest) == Ok(Rset) && VerbOf(QUIT, rest) == Ok(Quit)
    ensures PlainVerb(DATA) && PlainVerb(RSET) && PlainVerb(QUIT)
  {
    hide Ascii, MailOf, RcptOf, AuthOf, Simple;
    Spelled();
    SimpleVerbs();
  }

  // -- words -----------------------------------------------------------------------

  function UpperByte(b: byte): byte {
    if 97 <= b <= 122 then b - 32 else b
  }

  // to_ascii_uppercase
  function ToUpper(s: Text): (r: Text)
    ensures |r| == |s|
  {
    seq(|s|, i requires 0 <= i < |s| => UpperByte(s[i]))
  }

  // Where the first whitespace is, or the end.
  function WordEnd(s: Text): (r: nat)
    ensures r <= |s| && forall k :: 0 <= k < r ==> !IsSpace(s[k])
    ensures r < |s| ==> IsSpace(s[r])
  {
    if s == [] || IsSpace(s[0]) then 0 else 1 + WordEnd(s[1..])
  }

  lemma WordEndIs(s: Text, i: nat)
    requires i <= |s| && (forall k :: 0 <= k < i ==> !IsSpace(s[k])) && (i < |s| ==> IsSpace(s[i]))
    ensures WordEnd(s) == i
  {
  }

  // split_whitespace
  function Tokens(s: Text): (r: seq<Text>)
    ensures forall k :: 0 <= k < |r| ==> r[k] != [] && forall b :: b in r[k] ==> !IsSpace(b)
    decreases |s|
  {
    TrimStartFront(s);
    var t := TrimStart(s);
    if t == [] then []
    else
      var end := WordEnd(t);
      [t[..end]] + Tokens(t[end..])
  }

  function FirstToken(s: Text): Text {
    var tokens := Tokens(s);
    if tokens == [] then [] else tokens[0]
  }

  // -- numbers -----------------------------------------------------------------------

  predicate IsDigit(b: byte) {
    48 <= b <= 57
  }

  predicate AllDigits(s: Text) {
    forall k :: 0 <= k < |s| ==> IsDigit(s[k])
  }

  function Value(digits: Text): nat
    requires AllDigits(digits)
  {
    if digits == [] then 0
    else
      var last := digits[|digits| - 1];
      assert IsDigit(last);
      Value(digits[..|digits| - 1]) * 10 + (last as nat - 48)
  }

  // str::parse::<u64>, which takes a leading plus
  function ParseNumber(s: Text): Option<nat> {
    var digits := if s != [] && s[0] == PLUS then s[1..] else s;
    if digits != [] && AllDigits(digits) && Value(digits) < U64 then Some(Value(digits)) else None
  }

  // -- paths and parameters ---------------------------------------------------------------

  // KEYWORD: in front of the rest.
  function ExpectKeyword(input: Text, keyword: Text): Option<Text> {
    var trimmed := TrimStart(input);
    if |trimmed| < |keyword| || ToUpper(trimmed[..|keyword|]) != keyword then None
    else
      var after := TrimStart(trimmed[|keyword|..]);
      if after != [] && after[0] == COLON then Some(after[1..]) else None
  }

  function StripRoute(address: Text): Text {
    var colon := IndexOf(address, COLON);
    if address != [] && address[0] == AT && colon < |address| then Trim(address[colon + 1..]) else address
  }

  function ParameterOf(token: Text): Parameter {
    var i := IndexOf(token, EQUALS);
    if i < |token| then Parameter(ToUpper(token[..i]), Some(token[i + 1..])) else Parameter(ToUpper(token), None)
  }

  function ParametersOf(tokens: seq<Text>): (r: seq<Parameter>)
    ensures |r| == |tokens|
    ensures forall k :: 0 <= k < |r| ==> r[k] == ParameterOf(tokens[k])
  {
    if tokens == [] then [] else [ParameterOf(tokens[0])] + ParametersOf(tokens[1..])
  }

  // The address, in angle brackets or bare, and what follows it.
  function PathOf(input: Text): Result<(Text, Text), Code> {
    var trimmed := TrimStart(input);
    if trimmed != [] && trimmed[0] == LT then
      var open := trimmed[1..];
      var close := IndexOf(open, GT);
      if close == |open| then Err(501) else Ok((StripRoute(Trim(open[..close])), open[close + 1..]))
    else
      var end := WordEnd(trimmed);
      Ok((StripRoute(Trim(trimmed[..end])), trimmed[end..]))
  }

  // `<address> KEY=VALUE ...` as its address and its parameters.
  method SplitPath(input: Text) returns (r: Result<(Text, seq<Parameter>), Code>)
    ensures match PathOf(input)
      case Err(code) => r == Err(code)
      case Ok(path) => r == Ok((path.0, ParametersOf(Tokens(path.1))))
  {
    hide PathOf, Tokens;
    var path := PathOf(input);
    if path.Err? {
      return Err(path.error);
    }
    var tokens := Tokens(path.value.1);
    var parameters := [];
    for i := 0 to |tokens|
      invariant |parameters| == i && forall k :: 0 <= k < i ==> parameters[k] == ParameterOf(tokens[k])
    {
      parameters := parameters + [ParameterOf(tokens[i])];
    }
    assert parameters == ParametersOf(tokens);
    r := Ok((path.value.0, parameters));
  }

  // Parameters of MAIL that are accepted and not looked at.
  const IGNORED: set<Text> := {
    Ascii("BODY"), Ascii("SMTPUTF8"), Ascii("RET"), Ascii("ENVID"), AUTH,
    Ascii("REQUIRETLS") }

  const RCPT_KEYS: set<Text> := { Ascii("NOTIFY"), Ascii("ORCPT"), Ascii("RRVS") }

  // What is wrong with a parameter of MAIL, if anything is.
  function Fault(p: Parameter): Option<Code> {
    if p.key == SIZE then
      if p.value.Some? && ParseNumber(p.value.value).Some? then None else Some(501)
    else if p.key in IGNORED then None
    else Some(555)
  }

  // The first fault, or the last size given.
  function SizeOf(parameters: seq<Parameter>, size: Option<nat>): Result<Option<nat>, Code> {
    if parameters == [] then Ok(size)
    else
      var p := parameters[0];
      if Fault(p).Some? then Err(Fault(p).value)
      else SizeOf(parameters[1..], if p.key == SIZE then ParseNumber(p.value.value) else size)
  }

  function MailOf(rest: Text): Result<Command, Code> {
    match ExpectKeyword(rest, FROM)
    case None => Err(501)
    case Some(after) =>
      match PathOf(after)
      case Err(code) => Err(code)
      case Ok(path) =>
        match SizeOf(ParametersOf(Tokens(path.1)), None)
        case Err(code) => Err(code)
        case Ok(size) => Ok(Mail(path.0, size))
  }

  method ParseMail(rest: Text) returns (r: Result<Command, Code>)
    ensures r == MailOf(rest)
  {
    hide ExpectKeyword, PathOf, Tokens, ParametersOf, Fault;
    var after := ExpectKeyword(rest, FROM);
    if after.None? {
      return Err(501);
    }
    var split := SplitPath(after.value);
    if split.Err? {
      return Err(split.error);
    }
    var (address, parameters) := split.value;
    var size := None;
    var i := 0;
    while i < |parameters|
      invariant i <= |parameters| && SizeOf(parameters, None) == SizeOf(parameters[i..], size)
    {
      var fault := Fault(parameters[i]);
      FaultFree(parameters[i]);
      assert parameters[i..][1..] == parameters[i + 1..];
      if fault.Some? {
        return Err(fault.value);
      }
      if parameters[i].key == SIZE {
        size := ParseNumber(parameters[i].value.value);
      }
      i := i + 1;
    }
    assert parameters[i..] == [];
    r := Ok(Mail(address, size));
  }

  lemma FaultFree(p: Parameter)
    ensures Fault(p).None? && p.key == SIZE ==> p.value.Some? && ParseNumber(p.value.value).Some?
  {
  }

  function RcptOf(rest: Text): Result<Command, Code> {
    match ExpectKeyword(rest, TO)
    case None => Err(501)
    case Some(after) =>
      match PathOf(after)
      case Err(code) => Err(code)
      case Ok(path) =>
        if path.0 == [] then Err(501)
        else if forall p :: p in ParametersOf(Tokens(path.1)) ==> p.key in RCPT_KEYS then Ok(Rcpt(path.0))
        else Err(555)
  }

  method ParseRcpt(rest: Text) returns (r: Result<Command, Code>)
    ensures r == RcptOf(rest)
  {
    hide ExpectKeyword, PathOf, Tokens, ParametersOf;
    var after := ExpectKeyword(rest, TO);
    if after.None? {
      return Err(501);
    }
    var split := SplitPath(after.value);
    if split.Err? {
      return Err(split.error);
    }
    var (address, parameters) := split.value;
    if address == [] {
      return Err(501);
    }
    for i := 0 to |parameters|
      invariant forall k :: 0 <= k < i ==> parameters[k].key in RCPT_KEYS
    {
      if parameters[i].key !in RCPT_KEYS {
        assert parameters[i] in parameters;
        return Err(555);
      }
    }
    r := Ok(Rcpt(address));
  }

  function AuthOf(rest: Text): Result<Command, Code> {
    if rest == [] then Err(501)
    else
      var tokens := Tokens(rest);
      if tokens == [] then Ok(Auth([], None))
      else Ok(Auth(ToUpper(tokens[0]), if |tokens| > 1 then Some(tokens[1]) else None))
  }

  // Verbs that are known and not implemented.
  const KNOWN: set<Text> := {
    Ascii("BDAT"), Ascii("ETRN"), Ascii("ATRN"), Ascii("TURN"), Ascii("SAML"), Ascii("SOML"),
    Ascii("SEND") }

  // Commands without arguments.
  function Simple(verb: Text): Option<Command> {
    if verb == DATA then Some(Data)
    else if verb == RSET then Some(Rset)
    else if verb == NOOP then Some(Noop)
    else if verb == QUIT then Some(Quit)
    else if verb == VRFY then Some(Vrfy)
    else if verb == EXPN then Some(Expn)
    else if verb == HELP then Some(Help)
    else if verb == STARTTLS then Some(StartTls)
    else None
  }

  function VerbOf(verb: Text, rest: Text): Result<Command, Code> {
    if verb == EHLO then if rest == [] then Err(501) else Ok(Ehlo(FirstToken(rest)))
    else if verb == HELO then if rest == [] then Err(501) else Ok(Helo(FirstToken(rest)))
    else if verb == MAIL then MailOf(rest)
    else if verb == RCPT then RcptOf(rest)
    else if verb == AUTH then AuthOf(rest)
    else if Simple(verb).Some? then Ok(Simple(verb).value)
    else if verb in KNOWN then Ok(Unimplemented(verb))
    else Ok(Unknown(verb))
  }

  // One command line, without its CRLF.
  function CommandOf(line: Text): Result<Command, Code> {
    var trimmed := Trim(line);
    if trimmed == [] then Ok(Empty)
    else
      var end := WordEnd(trimmed);
      VerbOf(ToUpper(trimmed[..end]), TrimStart(trimmed[end..]))
  }

  method Parse(line: Text) returns (r: Result<Command, Code>)
    ensures r == CommandOf(line)
  {
    hide MailOf, RcptOf, AuthOf, Simple;
    Spelled();
    var trimmed := Trim(line);
    if trimmed == [] {
      return Ok(Empty);
    }
    var end := WordEnd(trimmed);
    var verb, rest := ToUpper(trimmed[..end]), TrimStart(trimmed[end..]);
    if verb == MAIL {
      r := ParseMail(rest);
    } else if verb == RCPT {
      r := ParseRcpt(rest);
    } else {
      r := VerbOf(verb, rest);
    }
  }

  // -- what a parsed command promises --------------------------------------------------------

  // A name was given and it is one word; a recipient is never empty.
  ghost predicate Proper(c: Command) {
    match c
    case Ehlo(d) => d != [] && forall b :: b in d ==> !IsSpace(b)
    case Helo(d) => d != [] && forall b :: b in d ==> !IsSpace(b)
    case Rcpt(address) => address != []
    case Mail(_, size) => size.Some? ==> size.value < U64
    case _ => true
  }

  lemma {:induction false} SizeIsBounded(parameters: seq<Parameter>, size: Option<nat>)
    requires size.Some? ==> size.value < U64
    ensures SizeOf(parameters, size).Ok? && SizeOf(parameters, size).value.Some?
      ==> SizeOf(parameters, size).value.value < U64
  {
    hide Value;
    if parameters != [] && Fault(parameters[0]).None? {
      var p := parameters[0];
      SizeIsBounded(parameters[1..], if p.key == SIZE then ParseNumber(p.value.value) else size);
    }
  }

  lemma TrimStartIsEmpty(s: Text)
    requires s != [] && !IsSpace(s[0])
    ensures TrimStart(s) == s
  {
  }

  lemma FirstTokenIsWord(s: Text)
    requires TrimStart(s) != []
    ensures FirstToken(s) != [] && forall b :: b in FirstToken(s) ==> !IsSpace(b)
  {
    TrimStartFront(s);
  }

  lemma {:induction false} TrimStartTwice(s: Text)
    ensures TrimStart(TrimStart(s)) == TrimStart(s)
  {
    TrimStartFront(s);
  }

  lemma ParsedIsProper(line: Text)
    requires CommandOf(line).Ok?
    ensures Proper(CommandOf(line).value)
  {
    hide PathOf, ExpectKeyword, SizeOf, Tokens, FirstToken, TrimStart, Trim, WordEnd, ParametersOf, AuthOf, Simple;
    Spelled();
    var trimmed := Trim(line);
    if trimmed != [] {
      var end := WordEnd(trimmed);
      var verb, rest := ToUpper(trimmed[..end]), TrimStart(trimmed[end..]);
      if rest != [] {
        TrimStartTwice(trimmed[end..]);
        FirstTokenIsWord(rest);
      }
      if verb == AUTH {
        AuthIsAuth(rest);
      } else if verb == MAIL && MailOf(rest).Ok? {
        var path := PathOf(ExpectKeyword(rest, FROM).value).value;
        SizeIsBounded(ParametersOf(Tokens(path.1)), None);
      } else if Simple(verb).Some? {
        SimpleIsPlain(verb);
      }
    }
  }

  lemma AuthIsAuth(rest: Text)
    ensures AuthOf(rest).Ok? ==> AuthOf(rest).value.Auth?
  {
  }

  lemma SimpleIsPlain(verb: Text)
    requires Simple(verb).Some?
    ensures Proper(Simple(verb).value)
  {
  }

  ghost predicate LastSize(parameters: seq<Parameter>, k: nat)
    requires k < |parameters|
  {
    parameters[k].key == SIZE && forall j :: k < j < |parameters| ==> parameters[j].key != SIZE
  }

  // MAIL is accepted with these parameters exactly when each of them is known and
  // every SIZE a number, and then the last SIZE counts.
  lemma {:induction false} LastSizeCounts(parameters: seq<Parameter>, size: Option<nat>)
    ensures SizeOf(parameters, size).Ok? <==> forall k :: 0 <= k < |parameters| ==> Fault(parameters[k]).None?
    ensures SizeOf(parameters, size).Ok? ==>
      (forall k :: 0 <= k < |parameters| ==> parameters[k].key != SIZE) ==> SizeOf(parameters, size).value == size
    ensures SizeOf(parameters, size).Ok? ==>
      forall k :: 0 <= k < |parameters| && LastSize(parameters, k) ==>
        parameters[k].value.Some? && SizeOf(parameters, size).value == ParseNumber(parameters[k].value.value)
  {
    hide Value, ParseNumber;
    if parameters != [] {
      var p, more := parameters[0], parameters[1..];
      FaultFree(p);
      if Fault(p).None? {
        var next := if p.key == SIZE then ParseNumber(p.value.value) else size;
        LastSizeCounts(more, next);
        assert SizeOf(parameters, size) == SizeOf(more, next);
        assert forall k :: 1 <= k < |parameters| ==> parameters[k] == more[k - 1];
        assert forall k :: 1 <= k < |parameters| && LastSize(parameters, k) ==> LastSize(more, k - 1);
      }
    }
  }

  // -- the client's side ------------------------------------------------------------------------

  function Digits(n: nat): (r: Text)
    ensures r != [] && AllDigits(r) && Value(r) == n
  {
    var last := [(48 + n % 10) as byte];
    if n < 10 then
      assert last[..0] == [];
      last
    else
      var front := Digits(n / 10);
      assert (front + last)[..|front|] == front;
      front + last
  }

  lemma DigitsAreRead(n: nat)
    requires n < U64
    ensures ParseNumber(Digits(n)) == Some(n)
  {
    hide Value, Digits;
  }

  // The parts of a line with an address: verb, keyword, path, parameters.
  function AddressLine(verb: Text, keyword: Text, address: Text, parameters: Text): Text {
    verb + ([SPACE] + (keyword + ([COLON, LT] + (address + ([GT] + parameters)))))
  }

  function SizeParameter(size: Option<nat>): Text {
    match size
    case None => []
    case Some(n) => [SPACE] + (SIZE + ([EQUALS] + Digits(n)))
  }

  function Render(c: Command): Text
    requires c.Mail? || c.Rcpt? || c.Data? || c.Ehlo? || c.Helo? || c.Rset? || c.Quit?
  {
    match c
    case Mail(address, size) => AddressLine(MAIL, FROM, address, SizeParameter(size))
    case Rcpt(address) => AddressLine(RCPT, TO, address, [])
    case Ehlo(domain) => EHLO + ([SPACE] + domain)
    case Helo(domain) => HELO + ([SPACE] + domain)
    case Data => DATA
    case Rset => RSET
    case Quit => QUIT
  }

  // An address that needs no care on the wire.
  predicate PlainAddress(address: Text) {
    GT !in address && Tight(address) && (address != [] ==> address[0] != AT)
  }

  predicate PlainVerb(verb: Text) {
    |verb| > 0 && (forall k :: 0 <= k < |verb| ==> 65 <= verb[k] <= 90)
  }

  lemma UpperStays(verb: Text)
    requires PlainVerb(verb)
    ensures ToUpper(verb) == verb
  {
  }

  // A word, a space and the rest are told apart again.
  lemma VerbAndRest(verb: Text, rest: Text)
    requires PlainVerb(verb) && rest != [] && Tight(rest)
    ensures CommandOf(verb + ([SPACE] + rest)) == VerbOf(verb, rest)
  {
    hide VerbOf;
    var line := verb + ([SPACE] + rest);
    assert line[0] == verb[0] && line[|line| - 1] == rest[|rest| - 1];
    TrimTight(line);
    assert forall k :: 0 <= k < |verb| ==> line[k] == verb[k];
    assert line[|verb|] == SPACE;
    WordEndIs(line, |verb|);
    assert line[..|verb|] == verb && line[|verb|..] == [SPACE] + rest;
    UpperStays(verb);
    assert ([SPACE] + rest)[1..] == rest;
    assert TrimStart([SPACE] + rest) == TrimStart(rest);
    TrimStartIsEmpty(rest);
  }

  lemma KeywordIsRead(keyword: Text, after: Text)
    requires PlainVerb(keyword)
    ensures ExpectKeyword(keyword + ([COLON] + after), keyword) == Some(after)
  {
    var input := keyword + ([COLON] + after);
    TrimStartIsEmpty(input);
    assert input[..|keyword|] == keyword && input[|keyword|..] == [COLON] + after;
    UpperStays(keyword);
    TrimStartIsEmpty([COLON] + after);
    assert ([COLON] + after)[1..] == after;
  }

  lemma PathIsRead(address: Text, parameters: Text)
    requires PlainAddress(address)
    ensures PathOf([LT] + (address + ([GT] + parameters))) == Ok((address, parameters))
  {
    var open := address + ([GT] + parameters);
    var input := [LT] + open;
    TrimStartIsEmpty(input);
    assert input[1..] == open;
    IndexOfIs(open, GT, |address|);
    assert open[..|address|] == address && open[|address| + 1..] == parameters;
    TrimTight(address);
  }

  lemma {:induction false} AddressLineIsRead(verb: Text, keyword: Text, address: Text, parameters: Text)
    requires PlainVerb(verb) && PlainVerb(keyword) && PlainAddress(address) && Tight([GT] + parameters)
    ensures var rest := keyword + ([COLON, LT] + (address + ([GT] + parameters)));
      && CommandOf(AddressLine(verb, keyword, address, parameters)) == VerbOf(verb, rest)
      && ExpectKeyword(rest, keyword) == Some([LT] + (address + ([GT] + parameters)))
      && PathOf([LT] + (address + ([GT] + parameters))) == Ok((address, parameters))
  {
    hide VerbOf, CommandOf, ExpectKeyword, PathOf;
    var path := [LT] + (address + ([GT] + parameters));
    var rest := keyword + ([COLON, LT] + (address + ([GT] + parameters)));
    assert [COLON, LT] + (address + ([GT] + parameters)) == [COLON] + path;
    assert rest[0] == keyword[0] && rest[|rest| - 1] == ([GT] + parameters)[|parameters|];
    VerbAndRest(verb, rest);
    KeywordIsRead(keyword, path);
    PathIsRead(address, parameters);
  }

  lemma NoTokens()
    ensures Tokens([]) == []
  {
  }

  lemma TrimStartSpace(word: Text)
    ensures TrimStart([SPACE] + word) == TrimStart(word)
  {
    assert ([SPACE] + word)[1..] == word;
  }

  lemma OneToken(word: Text)
    requires word != [] && forall k :: 0 <= k < |word| ==> !IsSpace(word[k])
    ensures Tokens(word) == [word] && Tokens([SPACE] + word) == [word]
  {
    TrimStartIsEmpty(word);
    WordEndIs(word, |word|);
    hide WordEnd;
    assert word[..|word|] == word && word[|word|..] == [];
    NoTokens();
    TrimStartSpace(word);
  }

  lemma SizeIsRead(n: nat)
    requires n < U64
    ensures SizeOf(ParametersOf(Tokens(SizeParameter(Some(n)))), None) == Ok(Some(n))
    ensures Tight([GT] + SizeParameter(Some(n)))
  {
    hide Value, Digits, Tokens, ParseNumber;
    SpelledToo();
    var word := SIZE + ([EQUALS] + Digits(n));
    forall k | 0 <= k < |word|
      ensures !IsSpace(word[k])
    {
      if k > 4 {
        assert word[k] == Digits(n)[k - 5];
      }
    }
    OneToken(word);
    assert word[4] == EQUALS && forall k :: 0 <= k < 4 ==> word[k] == SIZE[k];
    IndexOfIs(word, EQUALS, 4);
    assert word[..4] == SIZE && word[5..] == Digits(n);
    UpperStays(SIZE);
    DigitsAreRead(n);
    var p := Parameter(SIZE, Some(Digits(n)));
    assert ParameterOf(word) == p;
    assert ParametersOf([word]) == [p];
    assert [p][1..] == [];
  }

  lemma FromIsPlain()
    ensures PlainVerb(FROM) && PlainVerb(TO)
  {
    SpelledToo();
  }

  // What a client writes, the session reads: sender and declared size.
  lemma MailIsRead(address: Text, size: Option<nat>)
    requires PlainAddress(address) && (size.Some? ==> size.value < U64)
    ensures CommandOf(Render(Mail(address, size))) == Ok(Mail(address, size))
  {
    hide ExpectKeyword, PathOf, CommandOf, AddressLine, SizeParameter, VerbOf, Ascii, Tokens, ParametersOf, SizeOf;
    match size {
      case None => SizeOfNothing();
      case Some(n) => SizeIsRead(n);
    }
    FromIsPlain();
    VerbsAreTold(FROM + ([COLON, LT] + (address + ([GT] + SizeParameter(size)))));
    AddressLineIsRead(MAIL, FROM, address, SizeParameter(size));
  }

  lemma SizeOfNothing()
    ensures SizeOf(ParametersOf(Tokens(SizeParameter(None))), None) == Ok(None) && Tight([GT] + SizeParameter(None))
  {
    NoTokens();
  }

  // And a recipient.
  lemma RcptIsRead(address: Text)
    requires PlainAddress(address) && address != []
    ensures CommandOf(Render(Rcpt(address))) == Ok(Rcpt(address))
  {
    hide ExpectKeyword, PathOf, CommandOf, AddressLine, VerbOf, Ascii;
    NoTokens();
    FromIsPlain();
    VerbsAreTold(TO + ([COLON, LT] + (address + ([GT] + []))));
    AddressLineIsRead(RCPT, TO, address, []);
  }

  lemma GreetingIsRead(domain: Text)
    requires domain != [] && forall k :: 0 <= k < |domain| ==> !IsSpace(domain[k])
    ensures CommandOf(Render(Ehlo(domain))) == Ok(Ehlo(domain))
    ensures CommandOf(Render(Helo(domain))) == Ok(Helo(domain))
  {
    hide CommandOf, Tokens;
    Spelled();
    VerbAndRest(EHLO, domain);
    VerbAndRest(HELO, domain);
    OneToken(domain);
  }

  lemma AloneIsRead(verb: Text)
    requires PlainVerb(verb)
    ensures CommandOf(verb) == VerbOf(verb, [])
  {
    hide VerbOf;
    TrimTight(verb);
    WordEndIs(verb, |verb|);
    assert verb[..|verb|] == verb && verb[|verb|..] == [];
    UpperStays(verb);
  }

  lemma VerbsAreRead()
    ensures CommandOf(Render(Data)) == Ok(Data)
    ensures CommandOf(Render(Rset)) == Ok(Rset)
    ensures CommandOf(Render(Quit)) == Ok(Quit)
  {
    hide CommandOf, VerbOf, Ascii;
    SimpleVerbsAreTold([]);
    AloneIsRead(DATA);
    AloneIsRead(RSET);
    AloneIsRead(QUIT);
  }

  predicate Word(s: Text) {
    s != [] && forall k :: 0 <= k < |s| ==> !IsSpace(s[k])
  }

  // Letter case of the verb does not matter.
  lemma {:induction false} VerbInAnyCase(word: Text, rest: Text)
    requires Word(word) && Tight(rest)
    ensures CommandOf(if rest == [] then word else word + ([SPACE] + rest)) == VerbOf(ToUpper(word), rest)
  {
    hide VerbOf;
    if rest == [] {
      TrimTight(word);
      WordEndIs(word, |word|);
      assert word[..|word|] == word && word[|word|..] == [];
    } else {
      var line := word + ([SPACE] + rest);
      assert line[0] == word[0] && line[|line| - 1] == rest[|rest| - 1];
      TrimTight(line);
      assert forall k :: 0 <= k < |word| ==> line[k] == word[k];
      assert line[|word|] == SPACE;
      WordEndIs(line, |word|);
      assert line[..|word|] == word && line[|word|..] == [SPACE] + rest;
      TrimStartSpace(rest);
      TrimStartIsEmpty(rest);
    }
  }

  lemma AuthIsTold(rest: Text)
    ensures VerbOf(AUTH, rest) == AuthOf(rest)
  {
    hide Ascii, MailOf, RcptOf, AuthOf, Simple;
    Spelled();
  }

  lemma TwoTokens(a: Text, b: Text)
    requires Word(a) && Word(b)
    ensures Tokens(a + ([SPACE] + b)) == [a, b]
  {
    var s := a + ([SPACE] + b);
    TrimStartIsEmpty(s);
    assert forall k :: 0 <= k < |a| ==> s[k] == a[k];
    WordEndIs(s, |a|);
    assert s[..|a|] == a && s[|a|..] == [SPACE] + b;
    hide WordEnd;
    OneToken(b);
    assert [a] + [b] == [a, b];
  }

  // AUTH with its mechanism, in any letter case, and perhaps a first response.
  lemma {:induction false} AuthIsRead(verb: Text, mechanism: Text, initial: Option<Text>)
    requires Word(verb) && ToUpper(verb) == AUTH && Word(mechanism) && (initial.Some? ==> Word(initial.value))
    ensures var rest := mechanism + match initial case Some(word) => [SPACE] + word case None => [];
      CommandOf(verb + ([SPACE] + rest)) == Ok(Auth(ToUpper(mechanism), initial))
  {
    hide CommandOf, Tokens, VerbOf, ToUpper, Ascii;
    var rest := mechanism + match initial case Some(word) => [SPACE] + word case None => [];
    assert rest[0] == mechanism[0];
    match initial {
      case Some(word) =>
        assert rest[|rest| - 1] == word[|word| - 1];
        TwoTokens(mechanism, word);
      case None =>
        assert rest == mechanism;
        OneToken(mechanism);
    }
    VerbInAnyCase(verb, rest);
    AuthIsTold(rest);
  }

  // -- every line a client may write ---------------------------------------------------------

  // Letters are taken for each other exactly when they differ in case only.
  lemma {:induction false} CaseBlind(a: Text, b: Text)
    ensures ToUpper(a) == ToUpper(b) <==> ToLower(a) == ToLower(b)
  {
    if |a| == |b| {
      forall k | 0 <= k < |a|
        ensures ToUpper(a)[k] == ToUpper(b)[k] <==> ToLower(a)[k] == ToLower(b)[k]
      {
        assert UpperByte(a[k]) == UpperByte(b[k]) <==> LowerByte(a[k]) == LowerByte(b[k]);
      }
    }
  }

  ghost predicate Decimal(digits: Text, n: nat) {
    digits != [] && (forall k :: 0 <= k < |digits| ==> 48 <= digits[k] <= 57) && Value(digits) == n
  }

  // A decimal number of 64 bits, perhaps behind a plus.
  lemma {:induction false} NumberExactlyWhen(s: Text, n: nat)
    ensures ParseNumber(s) == Some(n)
      <==> n < U64 && (Decimal(s, n) || (s != [] && s[0] == 43 && Decimal(s[1..], n)))
  {
    var digits := if s != [] && s[0] == PLUS then s[1..] else s;
    if Decimal(s, n) {
      assert forall k :: 0 <= k < |s| ==> IsDigit(s[k]);
      assert s[0] != PLUS;
      assert digits == s;
    }
    if n < U64 && Decimal(digits, n) {
      assert forall k :: 0 <= k < |digits| ==> IsDigit(digits[k]);
      assert ParseNumber(s) == Some(n);
    }
  }

  predicate Blank(s: Text) {
    forall k :: 0 <= k < |s| ==> IsSpace(s[k])
  }

  lemma {:induction false} TrimStartBlank(gap: Text, s: Text)
    requires Blank(gap)
    ensures TrimStart(gap + s) == TrimStart(s)
  {
    if gap == [] {
      assert gap + s == s;
    } else {
      assert (gap + s)[1..] == gap[1..] + s;
      TrimStartBlank(gap[1..], s);
    }
  }

  lemma {:induction false} BlankIsTrimmed(s: Text) returns (gap: Text)
    ensures Blank(gap) && s == gap + TrimStart(s)
  {
    TrimStartFront(s);
    hide TrimStart;
    gap := s[..|s| - |TrimStart(s)|];
  }

  ghost predicate Opens(input: Text, keyword: Text, word: Text, gap: Text, after: Text) {
    ToUpper(word) == keyword && Blank(gap) && TrimStart(input) == word + gap + [COLON] + after
  }

  // FROM or TO in any letter case, with space around it, and a colon.
  lemma {:induction false} KeywordExactlyWhen(input: Text, keyword: Text, after: Text)
    ensures ExpectKeyword(input, keyword) == Some(after)
      <==> exists word, gap :: Opens(input, keyword, word, gap, after)
  {
    hide ExpectKeyword, Opens;
    if ExpectKeyword(input, keyword) == Some(after) {
      var word, gap := KeywordOpens(input, keyword, after);
    }
    forall word, gap | Opens(input, keyword, word, gap, after)
      ensures ExpectKeyword(input, keyword) == Some(after)
    {
      OpeningIsRead(input, keyword, word, gap, after);
    }
  }

  lemma {:induction false} KeywordOpens(input: Text, keyword: Text, after: Text) returns (word: Text, gap: Text)
    requires ExpectKeyword(input, keyword) == Some(after)
    ensures Opens(input, keyword, word, gap, after)
  {
    hide ToUpper, TrimStart;
    var trimmed := TrimStart(input);
    var behind := trimmed[|keyword|..];
    word := trimmed[..|keyword|];
    gap := BlankIsTrimmed(behind);
    assert TrimStart(behind) == [COLON] + after;
    assert trimmed == word + behind;
    assert word + (gap + ([COLON] + after)) == word + gap + [COLON] + after;
  }

  lemma {:induction false} OpeningIsRead(input: Text, keyword: Text, word: Text, gap: Text, after: Text)
    requires Opens(input, keyword, word, gap, after)
    ensures ExpectKeyword(input, keyword) == Some(after)
  {
    hide TrimStart;
    var trimmed, behind := TrimStart(input), gap + ([COLON] + after);
    assert trimmed == word + behind;
    assert trimmed[..|keyword|] == word && trimmed[|keyword|..] == behind;
    TrimStartBlank(gap, [COLON] + after);
    ColonStays(after);
  }

  lemma ColonStays(after: Text)
    ensures TrimStart([COLON] + after) == [COLON] + after && ([COLON] + after)[1..] == after
  {
  }

  // A path in angles that is not closed is an error; a source route in front of the address
  // is left out; and without angles the path ends at the first space.
  lemma {:induction false} PathsAreRead(address: Text, route: Text, rest: Text)
    requires PlainAddress(address) && GT !in route && COLON !in route
    ensures GT !in rest ==> PathOf([LT] + rest) == Err(501)
    ensures address != [] ==>
      PathOf([LT, AT] + (route + ([COLON] + (address + ([GT] + rest))))) == Ok((address, rest))
    ensures Word(address) && address[0] != LT && (rest != [] ==> IsSpace(rest[0])) ==>
      PathOf(address + rest) == Ok((address, rest))
  {
    var s := [LT] + rest;
    TrimStartIsEmpty(s);
    assert s[1..] == rest;
    IndexOfIs(rest, GT, IndexOf(rest, GT));
    if address != [] {
      RoutedIsRead(address, route, rest);
    }
    if Word(address) && address[0] != LT && (rest != [] ==> IsSpace(rest[0])) {
      var bare := address + rest;
      TrimStartIsEmpty(bare);
      assert forall k :: 0 <= k < |address| ==> bare[k] == address[k];
      WordEndIs(bare, |address|);
      assert bare[..|address|] == address && bare[|address|..] == rest;
      TrimTight(address);
    }
  }

  lemma RoutedIsRead(address: Text, route: Text, rest: Text)
    requires PlainAddress(address) && address != [] && GT !in route && COLON !in route
    ensures PathOf([LT, AT] + (route + ([COLON] + (address + ([GT] + rest))))) == Ok((address, rest))
  {
    hide Trim, TrimStart, StripRoute, IndexOf, Tight, PlainAddress;
    var path := [AT] + (route + ([COLON] + address));
    var open := path + ([GT] + rest);
    var input := [LT, AT] + (route + ([COLON] + (address + ([GT] + rest))));
    assert input == [LT] + open;
    TrimStartIsEmpty(input);
    assert input[1..] == open;
    RouteIsStripped(address, route);
    IndexOfIs(open, GT, |path|);
    assert open[..|path|] == path && open[|path| + 1..] == rest;
  }

  lemma {:induction false} RouteIsStripped(address: Text, route: Text)
    requires PlainAddress(address) && address != [] && COLON !in route
    ensures var path := [AT] + (route + ([COLON] + address));
      Trim(path) == path && StripRoute(path) == address && GT !in address
  {
    hide Trim, IndexOf;
    var path := [AT] + (route + ([COLON] + address));
    assert path[|path| - 1] == address[|address| - 1];
    TrimTight(path);
    IndexOfIs(path, COLON, |route| + 1);
    assert path[|route| + 2..] == address;
    TrimTight(address);
  }

  // -- parameters

  function Spaced(tokens: seq<Text>): Text {
    if tokens == [] then [] else [SPACE] + tokens[0] + Spaced(tokens[1..])
  }

  lemma {:induction false} TokensOfSpaced(tokens: seq<Text>)
    requires forall k :: 0 <= k < |tokens| ==> Word(tokens[k])
    ensures Tokens(Spaced(tokens)) == tokens
    ensures Tight([GT] + Spaced(tokens))
  {
    if tokens == [] {
      NoTokens();
    } else {
      var word, more := tokens[0], Spaced(tokens[1..]);
      TokensOfSpaced(tokens[1..]);
      var s := Spaced(tokens);
      assert s == [SPACE] + (word + more);
      TrimStartSpace(word + more);
      TrimStartIsEmpty(word + more);
      var t := word + more;
      assert forall k :: 0 <= k < |word| ==> t[k] == word[k];
      assert more != [] ==> t[|word|] == SPACE;
      WordEndIs(t, |word|);
      assert t[..|word|] == word && t[|word|..] == more;
      assert tokens == [word] + tokens[1..];
      assert ([GT] + s)[|s|] == if more == [] then word[|word| - 1] else ([GT] + more)[|more|];
    }
  }

  // A SIZE needs a number; the other extensions the greeting offers, and those a client may
  // send regardless, are passed over; the rest is not implemented.
  ghost function Objection(token: Text): Option<Code> {
    var i := IndexOf(token, EQUALS);
    var key := ToUpper(token[..i]);
    if key == Ascii("SIZE") then
      if i < |token| && ParseNumber(token[i + 1..]).Some? then None else Some(501)
    else if key in {Ascii("BODY"), Ascii("SMTPUTF8"), Ascii("RET"), Ascii("ENVID"), Ascii("AUTH"), Ascii("REQUIRETLS")}
    then None
    else Some(555)
  }

  lemma ObjectionIsFault(token: Text)
    ensures Fault(ParameterOf(token)) == Objection(token)
  {
    hide Ascii, ParseNumber, ToUpper;
    var i := IndexOf(token, EQUALS);
    assert i == |token| ==> token[..i] == token;
  }

  ghost predicate FirstObjection(tokens: seq<Text>, k: nat) {
    k < |tokens| && Objection(tokens[k]).Some? && forall j :: 0 <= j < k ==> Objection(tokens[j]).None?
  }

  lemma {:induction false} FirstFaultDecides(tokens: seq<Text>, size: Option<nat>, k: nat)
    requires FirstObjection(tokens, k)
    ensures SizeOf(ParametersOf(tokens), size) == Err(Objection(tokens[k]).value)
  {
    hide Objection, Fault, ParameterOf;
    ObjectionIsFault(tokens[0]);
    if k > 0 {
      var p := ParameterOf(tokens[0]);
      FaultFree(p);
      FirstFaultDecides(tokens[1..], if p.key == SIZE then ParseNumber(p.value.value) else size, k - 1);
    }
  }

  // MAIL with any list of parameters: the first one that is objected to gives the reply, and
  // where none is the sender is as written.
  lemma {:induction false} MailIsTold(address: Text, tokens: seq<Text>)
    requires PlainAddress(address) && forall k :: 0 <= k < |tokens| ==> Word(tokens[k])
    ensures var r := CommandOf(AddressLine(MAIL, FROM, address, Spaced(tokens)));
      && (forall k: nat :: FirstObjection(tokens, k) ==> r == Err(Objection(tokens[k]).value))
      && ((forall k :: 0 <= k < |tokens| ==> Objection(tokens[k]).None?) ==>
            r.Ok? && r.value.Mail? && r.value.address == address
            && Ok(r.value.size) == SizeOf(ParametersOf(tokens), None))
  {
    hide ExpectKeyword, PathOf, CommandOf, AddressLine, VerbOf, Ascii, Tokens, ParametersOf, SizeOf, Spaced, Objection,
         Fault;
    TokensOfSpaced(tokens);
    FromIsPlain();
    VerbsAreTold(FROM + ([COLON, LT] + (address + ([GT] + Spaced(tokens)))));
    AddressLineIsRead(MAIL, FROM, address, Spaced(tokens));
    forall k: nat | FirstObjection(tokens, k)
      ensures SizeOf(ParametersOf(tokens), None) == Err(Objection(tokens[k]).value)
    {
      FirstFaultDecides(tokens, None, k);
    }
    LastSizeCounts(ParametersOf(tokens), None);
    forall k | 0 <= k < |tokens|
      ensures Fault(ParametersOf(tokens)[k]) == Objection(tokens[k])
    {
      ObjectionIsFault(tokens[k]);
    }
  }

  // RCPT takes the delivery-status parameters only, and no empty address.
  lemma {:induction false} RcptIsTold(address: Text, tokens: seq<Text>)
    requires PlainAddress(address) && forall k :: 0 <= k < |tokens| ==> Word(tokens[k])
    ensures CommandOf(AddressLine(RCPT, TO, address, Spaced(tokens)))
      == if address == [] then Err(501)
         else if forall token :: token in tokens ==>
           ToUpper(token[..IndexOf(token, EQUALS)]) in {Ascii("NOTIFY"), Ascii("ORCPT"), Ascii("RRVS")}
         then Ok(Rcpt(address))
         else Err(555)
  {
    hide ExpectKeyword, PathOf, CommandOf, AddressLine, VerbOf, Ascii, Tokens, Spaced, ToUpper;
    TokensOfSpaced(tokens);
    FromIsPlain();
    VerbsAreTold(TO + ([COLON, LT] + (address + ([GT] + Spaced(tokens)))));
    AddressLineIsRead(RCPT, TO, address, Spaced(tokens));
    hide PlainAddress, PlainVerb, Word;
    KeysAre(tokens, RCPT_KEYS);
  }

  lemma KeysAre(tokens: seq<Text>, keys: set<Text>)
    ensures (forall p :: p in ParametersOf(tokens) ==> p.key in keys)
      <==> forall token :: token in tokens ==> ToUpper(token[..IndexOf(token, EQUALS)]) in keys
  {
    hide ToUpper;
    var parameters := ParametersOf(tokens);
    forall k | 0 <= k < |tokens|
      ensures parameters[k].key == ToUpper(tokens[k][..IndexOf(tokens[k], EQUALS)])
    {
      var i := IndexOf(tokens[k], EQUALS);
      assert i == |tokens[k]| ==> tokens[k][..i] == tokens[k];
    }
    forall token | token in tokens
      ensures exists p :: p in parameters && p.key == ToUpper(token[..IndexOf(token, EQUALS)])
    {
      var k :| 0 <= k < |tokens| && tokens[k] == token;
      assert parameters[k] in parameters;
    }
  }

  // Without a keyword, a path or an argument where one is due the reply is a syntax error.
  lemma {:induction false} ArgumentsAreDue(rest: Text)
    ensures ExpectKeyword(rest, FROM).None? ==> VerbOf(MAIL, rest) == Err(501)
    ensures ExpectKeyword(rest, TO).None? ==> VerbOf(RCPT, rest) == Err(501)
    ensures ExpectKeyword(rest, FROM).Some? && PathOf(ExpectKeyword(rest, FROM).value).Err? ==>
      VerbOf(MAIL, rest) == Err(501)
    ensures ExpectKeyword(rest, TO).Some? && PathOf(ExpectKeyword(rest, TO).value).Err? ==>
      VerbOf(RCPT, rest) == Err(501)
    ensures VerbOf(AUTH, []) == VerbOf(EHLO, []) == VerbOf(HELO, []) == Err(501)
  {
    hide Ascii, ExpectKeyword;
    Spelled();
    VerbsAreTold(rest);
    AuthIsTold([]);
  }

  // Every other word is one of the commands without arguments, whatever follows it, or a
  // command that is known and not implemented, or unknown.
  lemma {:induction false} OtherVerbsAreTold(verb: Text, rest: Text)
    ensures VerbOf(Ascii("NOOP"), rest) == Ok(Noop) && VerbOf(Ascii("VRFY"), rest) == Ok(Vrfy)
    ensures VerbOf(Ascii("EXPN"), rest) == Ok(Expn) && VerbOf(Ascii("HELP"), rest) == Ok(Help)
    ensures VerbOf(Ascii("STARTTLS"), rest) == Ok(StartTls)
    ensures var others := {Ascii("BDAT"), Ascii("ETRN"), Ascii("ATRN"), Ascii("TURN"), Ascii("SAML"), Ascii("SOML"),
                           Ascii("SEND")};
      && (verb in others ==> VerbOf(verb, rest) == Ok(Unimplemented(verb)))
      && (verb !in others + MODELLED ==> VerbOf(verb, rest) == Ok(Unknown(verb)))
  {
    hide Ascii, MailOf, RcptOf, AuthOf, FirstToken, Simple, VerbOf;
    MoreSimpleVerbs();
    SimpleIsTold(NOOP, rest);
    SimpleIsTold(VRFY, rest);
    SimpleIsTold(EXPN, rest);
    SimpleIsTold(HELP, rest);
    SimpleIsTold(STARTTLS, rest);
    if verb in KNOWN || verb !in MODELLED {
      NotSimple(verb, rest);
    }
  }

  lemma MoreSimpleVerbs()
    ensures Simple(NOOP) == Some(Noop) && Simple(VRFY) == Some(Vrfy) && Simple(EXPN) == Some(Expn)
    ensures Simple(HELP) == Some(Help) && Simple(STARTTLS) == Some(StartTls)
  {
    hide Ascii;
    Spelled();
    SpelledToo();
  }

  lemma SimpleIsTold(verb: Text, rest: Text)
    requires verb in {NOOP, VRFY, EXPN, HELP, STARTTLS} && Simple(verb).Some?
    ensures VerbOf(verb, rest) == Ok(Simple(verb).value)
  {
    hide Ascii, MailOf, RcptOf, AuthOf, FirstToken, Simple;
    Spelled();
    SpelledToo();
  }

  lemma NotSimple(verb: Text, rest: Text)
    requires verb in KNOWN || verb !in MODELLED
    ensures VerbOf(verb, rest) == Ok(if verb in KNOWN then Unimplemented(verb) else Unknown(verb))
  {
    hide Ascii, MailOf, RcptOf, AuthOf, FirstToken, Simple;
    assert verb !in MODELLED by {
      if verb in KNOWN {
        OthersAreApart(verb);
      }
    }
    NotModelled(verb);
  }

  lemma NotModelled(verb: Text)
    requires verb !in MODELLED
    ensures Simple(verb).None?
  {
  }

  lemma OthersAreApart(verb: Text)
    requires verb in KNOWN
    ensures verb !in MODELLED
  {
    hide Ascii;
    Spelled();
    SpelledToo();
    SpelledOthers();
  }

  const MODELLED: set<Text> := {
    EHLO, HELO, MAIL, RCPT, DATA, RSET, NOOP, QUIT, VRFY, EXPN, HELP, STARTTLS, AUTH }

  lemma SpelledOthers()
    ensures Ascii("BDAT") == [66, 68, 65, 84] && Ascii("ETRN") == [69, 84, 82, 78] && Ascii("ATRN") == [65, 84, 82, 78]
    ensures Ascii("TURN") == [84, 85, 82, 78] && Ascii("SAML") == [83, 65, 77, 76] && Ascii("SOML") == [83, 79, 77, 76]
    ensures Ascii("SEND") == [83, 69, 78, 68]
  {
  }
}
