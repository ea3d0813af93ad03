// The inbound session: greeting, authentication, envelope and DATA, over one byte
// stream (src/smtp/session.rs), against sections 3.3 and 4.1.4 of RFC 5321.
module Sessions {
  import opened Bytes
  import opened Wrappers
  import opened Lines
  import C = Commands
  import D = DataBody
  import M = Mailboxes

  const MAX_COMMAND_LINE: nat := 4096
  const MAX_PROTOCOL_ERRORS: nat := 12

  // What became of a message that was handed on: delivered or queued, or refused.
  type Refusal = code: nat | code == 451 || code == 452 || code == 550 witness 451

  datatype Answer = Taken | Turned(code: Refusal)

  // decode is base64, accepts the credentials check, and answer the outcome of the
  // n-th message handed on.
  datatype Config = Config(
    requireAuth: bool, authAvailable: bool, maxRecipients: nat, maxSize: nat, decode: Text -> Option<Text>,
    accepts: (Text, Text) -> bool, answer: nat -> Answer)

  datatype Disconnect = ByQuit | ClientClosed | ProtocolAbuse | WriteFailed

  // What was heard from the client, and the code of the reply it got.
  datatype Heard = Garbled | Spoken(command: C.Command)

  datatype Exchange = Exchange(heard: Heard, code: nat)

  // A message handed on, with the place of its DATA in the transcript.
  datatype Letter = Letter(
    sender: Text, recipients: seq<Text>, raw: Text, helo: Text, authUser: Option<Text>, place: nat)

  datatype Talk = Talk(
    helo: Text, esmtp: bool, authenticated: bool, authUser: Option<Text>, sender: Option<Text>, recipients: seq<Text>,
    accepted: nat, errors: nat, transcript: seq<Exchange>, submitted: seq<Letter>)

  const HELLO: Talk := Talk([], false, false, None, None, [], 0, 0, [], [])

  // -- steps ---------------------------------------------------------------------------

  function Replied(t: Talk, heard: Heard, code: nat): Talk {
    t.(transcript := t.transcript + [Exchange(heard, code)])
  }

  function Protested(t: Talk, heard: Heard, code: nat): Talk {
    Replied(t.(errors := t.errors + 1), heard, code)
  }

  function Reset(t: Talk): Talk {
    t.(sender := None, recipients := [])
  }

  predicate Known(recipients: seq<Text>, address: Text) {
    exists k :: 0 <= k < |recipients| && ToLower(recipients[k]) == ToLower(address)
  }

  function MailCode(c: Config, t: Talk, address: Text, size: Option<nat>): nat {
    if t.helo == [] then 503
    else if c.requireAuth && !t.authenticated then 530
    else if t.sender.Some? then 503
    else if address != [] && !M.LooksLikeEmail(address) then 553
    else if size.Some? && size.value > c.maxSize then 552
    else 250
  }

  function AfterMail(c: Config, t: Talk, address: Text, size: Option<nat>): Talk {
    var code := MailCode(c, t, address, size);
    Replied(if code == 250 then t.(sender := Some(address), recipients := []) else t, Spoken(C.Mail(address, size)),
            code)
  }

  function RcptCode(c: Config, t: Talk, address: Text): nat {
    if t.sender.None? then 503
    else if !M.LooksLikeEmail(address) then 553
    else if |t.recipients| >= c.maxRecipients then 452
    else 250
  }

  function AfterRcpt(c: Config, t: Talk, address: Text): Talk {
    var code := RcptCode(c, t, address);
    Replied(if code == 250 && !Known(t.recipients, address) then t.(recipients := t.recipients + [address]) else t,
            Spoken(C.Rcpt(address)), code)
  }

  function AnswerCode(a: Answer): nat {
    match a
    case Taken => 250
    case Turned(code) => code
  }

  // The message is handed on and the transaction is over, whatever the answer.
  function Dispatched(c: Config, t: Talk, raw: Text): Talk
    requires t.sender.Some?
  {
    var letter := Letter(t.sender.value, t.recipients, raw, t.helo, t.authUser, |t.transcript|);
    var answer := c.answer(|t.submitted|);
    Replied(Reset(t).(submitted := t.submitted + [letter], accepted := t.accepted + if answer.Taken? then 1 else 0),
            Spoken(C.Data), AnswerCode(answer))
  }

  // What is left of the stream behind a step, and whether the session is over.
  datatype Progress = Progress(talk: Talk, rest: Text, ended: Option<Disconnect>)

  function AfterData(c: Config, t: Talk, s: Text): Progress {
    if t.sender.None? || t.recipients == [] then Progress(Replied(t, Spoken(C.Data), 503), s, None)
    else
      var (body, rest) := D.Payload(s, c.maxSize);
      match body
      case Complete(raw) => Progress(Dispatched(c, t, raw), rest, None)
      case TooLarge(_) => Progress(Replied(Reset(t), Spoken(C.Data), 552), rest, None)
      case Aborted => Progress(Replied(Reset(t), Spoken(C.Data), 354), rest, Some(WriteFailed))
  }

  // -- AUTH

  const STAR: Text := Ascii("*")

  // One continuation line; a star or nothing cancels.
  function AuthLine(s: Text): (Option<Text>, Text) {
    var (line, rest) := NextLine(s, MAX_COMMAND_LINE);
    if line.Line? && Trim(line.line) != STAR && Trim(line.line) != [] then (Some(Trim(line.line)), rest)
    else (None, rest)
  }

  // authzid NUL user NUL password
  function PlainParts(decoded: Text): Option<(Text, Text)> {
    var i := IndexOf(decoded, 0);
    if i == |decoded| then None
    else
      var u := decoded[i + 1..];
      var j := IndexOf(u, 0);
      if j == |u| then None
      else
        var p := u[j + 1..];
        Some((u[..j], p[..IndexOf(p, 0)]))
  }

  function PlainOf(c: Config, initial: Option<Text>, s: Text): (Option<(Text, Text)>, Text) {
    var (encoded, rest) := if initial.Some? then (initial, s) else AuthLine(s);
    if encoded.None? then (None, rest)
    else
      match c.decode(encoded.value)
      case None => (None, rest)
      case Some(decoded) => (PlainParts(decoded), rest)
  }

  function LoginOf(c: Config, initial: Option<Text>, s: Text): (Option<(Text, Text)>, Text) {
    var (user, rest) := if initial.Some? then (initial, s) else AuthLine(s);
    if user.None? then (None, rest)
    else
      var (password, rest2) := AuthLine(rest);
      if password.None? then (None, rest2)
      else
        match (c.decode(user.value), c.decode(password.value))
        case (Some(u), Some(p)) => (Some((u, p)), rest2)
        case _ => (None, rest2)
  }

  const PLAIN: Text := Ascii("PLAIN")
  const LOGIN: Text := Ascii("LOGIN")

  function Judged(c: Config, t: Talk, heard: Heard, credentials: Option<(Text, Text)>): Talk {
    match credentials
    case None => Replied(t, heard, 501)
    case Some(pair) =>
      if c.accepts(pair.0, pair.1) then Replied(t.(authenticated := true, authUser := Some(pair.0)), heard, 235)
      else Replied(t, heard, 535)
  }

  function AfterAuth(c: Config, t: Talk, mechanism: Text, initial: Option<Text>, s: Text): Progress {
    var heard := Spoken(C.Auth(mechanism, initial));
    if !c.authAvailable || t.authenticated || t.sender.Some? then Progress(Replied(t, heard, 503), s, None)
    else if mechanism == PLAIN then
      var (credentials, rest) := PlainOf(c, initial, s);
      Progress(Judged(c, t, heard, credentials), rest, None)
    else if mechanism == LOGIN then
      var (credentials, rest) := LoginOf(c, initial, s);
      Progress(Judged(c, t, heard, credentials), rest, None)
    else Progress(Replied(t, heard, 504), s, None)
  }

  // -- one command

  function Greeted(t: Talk, command: C.Command, domain: Text, esmtp: bool): Talk {
    Replied(Reset(t).(helo := domain, esmtp := esmtp), Spoken(command), 250)
  }

  function Handled(c: Config, t: Talk, command: C.Command, s: Text): Progress {
    var heard := Spoken(command);
    match command
    case Empty => Progress(Protested(t, heard, 500), s, None)
    case Ehlo(domain) => Progress(Greeted(t, command, domain, true), s, None)
    case Helo(domain) => Progress(Greeted(t, command, domain, false), s, None)
    case Auth(mechanism, initial) => AfterAuth(c, t, mechanism, initial, s)
    case Mail(address, size) => Progress(AfterMail(c, t, address, size), s, None)
    case Rcpt(address) => Progress(AfterRcpt(c, t, address), s, None)
    case Data => AfterData(c, t, s)
    case Rset => Progress(Replied(Reset(t), heard, 250), s, None)
    case Noop => Progress(Replied(t, heard, 250), s, None)
    case Quit => Progress(Replied(t, heard, 221), s, Some(ByQuit))
    case Vrfy => Progress(Replied(t, heard, 252), s, None)
    case Expn => Progress(Replied(t, heard, 502), s, None)
    case Help => Progress(Replied(t, heard, 214), s, None)
    case StartTls => Progress(Replied(t, heard, 454), s, None)
    case Unimplemented(_) => Progress(Protested(t, heard, 502), s, None)
    case Unknown(_) => Progress(Protested(t, heard, 500), s, None)
  }

  // A line that was no command; only here are the errors counted against the limit.
  function Misheard(t: Talk, code: nat, s: Text): Progress {
    var p := Protested(t, Garbled, code);
    Progress(p, s, if p.errors >= MAX_PROTOCOL_ERRORS then Some(ProtocolAbuse) else None)
  }

  function Turn(c: Config, t: Talk, s: Text): Progress {
    var (next, rest) := NextLine(s, MAX_COMMAND_LINE);
    match next
    case Eof => Progress(t, rest, Some(ClientClosed))
    case TooLong => Misheard(t, 500, rest)
    case Line(line) =>
      match C.CommandOf(line)
      case Err(code) => Misheard(t, code, rest)
      case Ok(command) => Handled(c, t, command, rest)
  }

  lemma {:induction false} MarkerShrinks(s: Text)
    ensures D.UpToMarker(s).Marker? ==> |D.UpToMarker(s).rest| <= |s|
    decreases |s|
  {
    if s != [] {
      MarkerShrinks(CutLine(s).1);
    }
  }

  lemma HandledShrinks(c: Config, t: Talk, command: C.Command, s: Text)
    ensures |Handled(c, t, command, s).rest| <= |s|
  {
    hide CutLine, D.UpToMarker, C.CommandOf;
    MarkerShrinks(s);
  }

  lemma TurnShrinks(c: Config, t: Talk, s: Text)
    ensures Turn(c, t, s).ended.None? ==> |Turn(c, t, s).rest| < |s|
  {
    hide Handled, C.CommandOf, CutLine;
    var (next, rest) := NextLine(s, MAX_COMMAND_LINE);
    if next.Line? && C.CommandOf(next.line).Ok? {
      HandledShrinks(c, t, C.CommandOf(next.line).value, rest);
    }
  }

  // A whole session, to its end.
  function Converse(c: Config, t: Talk, s: Text): (Talk, Disconnect)
    decreases |s|
  {
    TurnShrinks(c, t, s);
    var p := Turn(c, t, s);
    match p.ended
    case Some(why) => (p.talk, why)
    case None => Converse(c, p.talk, p.rest)
  }

  // -- the session as the program keeps it --------------------------------------------------

  class Session {
    const config: Config
    const reader: LineReader
    var heloName: Text
    var esmtp: bool
    var authenticated: bool
    var authUser: Option<Text>
    var envelopeSender: Option<Text>
    var recipients: seq<Text>
    var acceptedMessages: nat
    var protocolErrors: nat
    // commands with the code of the reply written for each
    var transcript: seq<Exchange>
    // messages handed to the dispatcher
    var submitted: seq<Letter>

    ghost predicate Valid()
      reads this, reader
    {
      reader.Valid()
    }

    ghost function View(): Talk
      reads this
    {
      Talk(heloName, esmtp, authenticated, authUser, envelopeSender, recipients, acceptedMessages, protocolErrors,
           transcript, submitted)
    }

    // What was said so far and what is still to be read.
    ghost function Where(ended: Option<Disconnect>): Progress
      reads this, reader
      requires Valid()
    {
      Progress(View(), reader.Remaining(), ended)
    }

    constructor (config: Config, reader: LineReader)
      requires reader.Valid()
      ensures this.config == config && this.reader == reader && View() == HELLO
    {
      this.config, this.reader := config, reader;
      heloName, esmtp, authenticated, authUser, envelopeSender, recipients := [], false, false, None, None, [];
      acceptedMessages, protocolErrors, transcript, submitted := 0, 0, [], [];
    }

    method Reply(heard: Heard, code: nat)
      modifies this`transcript
      ensures View() == Replied(old(View()), heard, code)
    {
      transcript := transcript + [Exchange(heard, code)];
    }

    method ProtocolError(heard: Heard, code: nat)
      modifies this`transcript, this`protocolErrors
      ensures View() == Protested(old(View()), heard, code)
    {
      protocolErrors := protocolErrors + 1;
      Reply(heard, code);
    }

    method ResetTransaction()
      modifies this`envelopeSender, this`recipients
      ensures View() == Reset(old(View()))
    {
      envelopeSender := None;
      recipients := [];
    }

    method HandleMail(address: Text, size: Option<nat>)
      modifies this
      ensures View() == AfterMail(config, old(View()), address, size)
    {
      hide M.LooksLikeEmail;
      var heard := Spoken(C.Mail(address, size));
      if heloName == [] {
        Reply(heard, 503);
        return;
      }
      if config.requireAuth && !authenticated {
        Reply(heard, 530);
        return;
      }
      if envelopeSender.Some? {
        Reply(heard, 503);
        return;
      }
      if address != [] && !M.LooksLikeEmail(address) {
        Reply(heard, 553);
        return;
      }
      if size.Some? && size.value > config.maxSize {
        Reply(heard, 552);
        return;
      }
      envelopeSender := Some(address);
      recipients := [];
      Reply(heard, 250);
    }

    method HandleRcpt(address: Text)
      modifies this
      ensures View() == AfterRcpt(config, old(View()), address)
    {
      hide M.LooksLikeEmail;
      var heard := Spoken(C.Rcpt(address));
      if envelopeSender.None? {
        Reply(heard, 503);
        return;
      }
      if !M.LooksLikeEmail(address) {
        Reply(heard, 553);
        return;
      }
      if |recipients| >= config.maxRecipients {
        Reply(heard, 452);
        return;
      }
      if Known(recipients, address) {
        Reply(heard, 250);
        return;
      }
      recipients := recipients + [address];
      Reply(heard, 250);
    }

    method ReadAuthLine() returns (r: Option<Text>)
      requires Valid()
      modifies reader
      ensures Valid() && (r, reader.Remaining()) == AuthLine(old(reader.Remaining()))
    {
      hide NextLine;
      var next := reader.ReadLine(MAX_COMMAND_LINE);
      match next
      case Line(line) =>
        var text := Trim(line);
        r := if text == STAR || text == [] then None else Some(text);
      case _ => r := None;
    }

    method CollectPlain(initial: Option<Text>) returns (r: Option<(Text, Text)>)
      requires Valid()
      modifies reader
      ensures Valid() && (r, reader.Remaining()) == PlainOf(config, initial, old(reader.Remaining()))
    {
      hide AuthLine, PlainParts;
      var encoded := initial;
      if encoded.None? {
        encoded := ReadAuthLine();
        if encoded.None? {
          return None;
        }
      }
      var decoded := config.decode(encoded.value);
      r := if decoded.None? then None else PlainParts(decoded.value);
    }

    method CollectLogin(initial: Option<Text>) returns (r: Option<(Text, Text)>)
      requires Valid()
      modifies reader
      ensures Valid() && (r, reader.Remaining()) == LoginOf(config, initial, old(reader.Remaining()))
    {
      hide AuthLine;
      var user := initial;
      if user.None? {
        user := ReadAuthLine();
        if user.None? {
          return None;
        }
      }
      var password := ReadAuthLine();
      if password.None? {
        return None;
      }
      var u, p := config.decode(user.value), config.decode(password.value);
      r := if u.Some? && p.Some? then Some((u.value, p.value)) else None;
    }

    method HandleAuth(mechanism: Text, initial: Option<Text>)
      requires Valid()
      modifies this, reader
      ensures Valid() && Where(None) == AfterAuth(config, old(View()), mechanism, initial, old(reader.Remaining()))
    {
      hide PlainOf, LoginOf;
      var heard := Spoken(C.Auth(mechanism, initial));
      if !config.authAvailable || authenticated || envelopeSender.Some? {
        Reply(heard, 503);
        return;
      }
      var credentials: Option<(Text, Text)>;
      if mechanism == PLAIN {
        credentials := CollectPlain(initial);
      } else if mechanism == LOGIN {
        credentials := CollectLogin(initial);
      } else {
        Reply(heard, 504);
        return;
      }
      if credentials.None? {
        Reply(heard, 501);
      } else if config.accepts(credentials.value.0, credentials.value.1) {
        authenticated := true;
        authUser := Some(credentials.value.0);
        Reply(heard, 235);
      } else {
        Reply(heard, 535);
      }
    }

    method DispatchMessage(raw: Text)
      requires envelopeSender.Some?
      modifies this
      ensures View() == Dispatched(config, old(View()), raw)
    {
      var letter := Letter(envelopeSender.value, recipients, raw, heloName, authUser, |transcript|);
      var answer := config.answer(|submitted|);
      submitted := submitted + [letter];
      ResetTransaction();
      match answer
      case Taken =>
        acceptedMessages := acceptedMessages + 1;
        Reply(Spoken(C.Data), 250);
      case Turned(code) => Reply(Spoken(C.Data), code);
    }

    method HandleData() returns (ended: Option<Disconnect>)
      requires Valid()
      modifies this, reader
      ensures Valid() && Where(ended) == AfterData(config, old(View()), old(reader.Remaining()))
    {
      hide D.Payload, Dispatched;
      if envelopeSender.None? || recipients == [] {
        Reply(Spoken(C.Data), 503);
        return None;
      }
      var body := D.ReadBody(reader, config.maxSize);
      match body {
        case Complete(raw) =>
          DispatchMessage(raw);
          ended := None;
        case TooLarge(_) =>
          ResetTransaction();
          Reply(Spoken(C.Data), 552);
          ended := None;
        case Aborted =>
          ResetTransaction();
          Reply(Spoken(C.Data), 354);
          ended := Some(WriteFailed);
      }
    }

    method Handle(command: C.Command) returns (ended: Option<Disconnect>)
      requires Valid()
      modifies this, reader
      ensures Valid() && Where(ended) == Handled(config, old(View()), command, old(reader.Remaining()))
    {
      hide AfterMail, AfterRcpt, AfterData, AfterAuth;
      ended := None;
      match command {
        case Empty => ProtocolError(Spoken(command), 500);
        case Ehlo(domain) =>
          heloName := domain;
          esmtp := true;
          ResetTransaction();
          Reply(Spoken(command), 250);
        case Helo(domain) =>
          heloName := domain;
          esmtp := false;
          ResetTransaction();
          Reply(Spoken(command), 250);
        case Auth(mechanism, initial) => HandleAuth(mechanism, initial);
        case Mail(address, size) => HandleMail(address, size);
        case Rcpt(address) => HandleRcpt(address);
        case Data => ended := HandleData();
        case Rset =>
          ResetTransaction();
          Reply(Spoken(command), 250);
        case Noop => Reply(Spoken(command), 250);
        case Quit =>
          Reply(Spoken(command), 221);
          ended := Some(ByQuit);
        case Vrfy => Reply(Spoken(command), 252);
        case Expn => Reply(Spoken(command), 502);
        case Help => Reply(Spoken(command), 214);
        case StartTls => Reply(Spoken(command), 454);
        case Unimplemented(_) => ProtocolError(Spoken(command), 502);
        case Unknown(_) => ProtocolError(Spoken(command), 500);
      }
    }

    // Drives the session until it is over.
    method CommandLoop() returns (why: Disconnect)
      requires Valid()
      modifies this, reader
      ensures Valid() && (View(), why) == Converse(config, old(View()), old(reader.Remaining()))
    {
      hide NextLine, C.CommandOf, Handled;
      while true
        invariant Valid()
        invariant Converse(config, View(), reader.Remaining()) == Converse(config, old(View()), old(reader.Remaining()))
        decreases |reader.Remaining()|
      {
        ghost var t, s := View(), reader.Remaining();
        TurnShrinks(config, t, s);
        var next := reader.ReadLine(MAX_COMMAND_LINE);
        match next
        case Eof => return ClientClosed;
        case TooLong =>
          ProtocolError(Garbled, 500);
          if protocolErrors >= MAX_PROTOCOL_ERRORS {
            return ProtocolAbuse;
          }
        case Line(line) =>
          var command := C.Parse(line);
          match command
          case Err(code) =>
            ProtocolError(Garbled, code);
            if protocolErrors >= MAX_PROTOCOL_ERRORS {
              return ProtocolAbuse;
            }
          case Ok(parsed) =>
            var ended := Handle(parsed);
            if ended.Some? {
              return ended.value;
            }
      }
    }
  }
}
