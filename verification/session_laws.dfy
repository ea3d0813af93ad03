// What holds of every message a session hands on, and of a transaction sent whole
// (src/smtp/session.rs).
module SessionLaws {
  import opened Bytes
  import opened Wrappers
  import opened Lines
  import opened Sessions
  import C = Commands
  import D = DataBody
  import H = Headers
  import M = Mailboxes

  // -- the envelope, told from the transcript -----------------------------------------

  // Sender and recipients as a client can work them out from its commands and the
  // codes it got: a 250 for MAIL opens a transaction, a 250 for RCPT adds an address
  // not yet there, and greetings, RSET and an answered DATA close it.
  ghost function EnvelopeOf(transcript: seq<Exchange>): (Option<Text>, seq<Text>) {
    if transcript == [] then (None, [])
    else After(EnvelopeOf(transcript[..|transcript| - 1]), transcript[|transcript| - 1])
  }

  ghost function After(envelope: (Option<Text>, seq<Text>), e: Exchange): (Option<Text>, seq<Text>) {
    match e.heard
    case Garbled => envelope
    case Spoken(command) =>
      match command
      case Mail(address, _) => if e.code == 250 then (Some(address), []) else envelope
      case Rcpt(address) =>
        if e.code == 250 && !Known(envelope.1, address) then (envelope.0, envelope.1 + [address]) else envelope
      case Data => if e.code == 503 then envelope else (None, [])
      case Ehlo(_) => (None, [])
      case Helo(_) => (None, [])
      case Rset => (None, [])
      case _ => envelope
  }

  // Places of the DATA commands that handed a message on.
  ghost function Places(transcript: seq<Exchange>): seq<nat> {
    if transcript == [] then []
    else
      var n := |transcript| - 1;
      Places(transcript[..n]) + if HandsOn(transcript[n]) then [n] else []
  }

  predicate HandsOn(e: Exchange) {
    e.heard == Spoken(C.Data) && e.code != 503 && e.code != 552 && e.code != 354
  }

  // -- what is kept ---------------------------------------------------------------------

  ghost predicate Distinct(recipients: seq<Text>) {
    forall j, k :: 0 <= j < k < |recipients| ==> ToLower(recipients[j]) != ToLower(recipients[k])
  }

  ghost predicate GoodRecipients(c: Config, recipients: seq<Text>) {
    && |recipients| <= c.maxRecipients
    && (forall k :: 0 <= k < |recipients| ==> M.LooksLikeEmail(recipients[k]))
    && Distinct(recipients)
  }

  ghost predicate GoodSender(sender: Text) {
    sender == [] || M.LooksLikeEmail(sender)
  }

  ghost predicate Trusted(c: Config, user: Option<Text>) {
    user.Some? ==> exists password :: c.accepts(user.value, password)
  }

  // A message as it may be handed on.
  ghost predicate Proper(c: Config, letter: Letter) {
    && letter.recipients != [] && GoodRecipients(c, letter.recipients) && GoodSender(letter.sender)
    && letter.helo != [] && |letter.raw| <= c.maxSize && H.CrlfOnly(letter.raw)
    && (c.requireAuth ==> letter.authUser.Some?) && Trusted(c, letter.authUser)
  }

  // Its envelope is the one the transcript shows in front of its DATA.
  ghost predicate Faithful(transcript: seq<Exchange>, letter: Letter) {
    && letter.place < |transcript| && transcript[letter.place].heard == Spoken(C.Data)
    && EnvelopeOf(transcript[..letter.place]) == (Some(letter.sender), letter.recipients)
  }

  ghost predicate Open(c: Config, t: Talk) {
    && EnvelopeOf(t.transcript) == (t.sender, t.recipients)
    && (t.sender.None? ==> t.recipients == [])
    && GoodRecipients(c, t.recipients)
    && (t.sender.Some? ==> GoodSender(t.sender.value) && t.helo != [] && (c.requireAuth ==> t.authenticated))
    && (t.authenticated <==> t.authUser.Some?) && Trusted(c, t.authUser)
  }

  ghost predicate Accounted(c: Config, t: Talk) {
    && (forall k :: 0 <= k < |t.submitted| ==> Proper(c, t.submitted[k]) && Faithful(t.transcript, t.submitted[k]))
    && |Places(t.transcript)| == |t.submitted|
    && (forall k :: 0 <= k < |t.submitted| ==> Places(t.transcript)[k] == t.submitted[k].place)
  }

  ghost predicate Invariant(c: Config, t: Talk) {
    Open(c, t) && Accounted(c, t)
  }

  lemma Initially(c: Config)
    ensures Invariant(c, HELLO)
  {
  }

  lemma Said(transcript: seq<Exchange>, e: Exchange)
    ensures EnvelopeOf(transcript + [e]) == After(EnvelopeOf(transcript), e)
    ensures Places(transcript + [e]) == Places(transcript) + if HandsOn(e) then [|transcript|] else []
  {
    assert (transcript + [e])[..|transcript|] == transcript;
  }

  lemma StaysFaithful(transcript: seq<Exchange>, e: Exchange, letter: Letter)
    requires Faithful(transcript, letter)
    ensures Faithful(transcript + [e], letter)
  {
    assert (transcript + [e])[..letter.place] == transcript[..letter.place];
  }

  // A reply that hands nothing on leaves the account as it was.
  lemma StillAccounted(c: Config, t: Talk, r: Talk, heard: Heard, code: nat)
    requires Accounted(c, t) && r.submitted == t.submitted && r.transcript == t.transcript + [Exchange(heard, code)]
    requires !HandsOn(Exchange(heard, code))
    ensures Accounted(c, r)
  {
    hide Proper, Faithful, Places;
    Said(t.transcript, Exchange(heard, code));
    forall k | 0 <= k < |t.submitted|
      ensures Faithful(r.transcript, r.submitted[k])
    {
      StaysFaithful(t.transcript, Exchange(heard, code), t.submitted[k]);
    }
  }

  lemma MailKeeps(c: Config, t: Talk, address: Text, size: Option<nat>)
    requires Invariant(c, t)
    ensures Invariant(c, AfterMail(c, t, address, size))
  {
    hide Accounted, EnvelopeOf, M.LooksLikeEmail, Trusted;
    var heard, code := Spoken(C.Mail(address, size)), MailCode(c, t, address, size);
    Said(t.transcript, Exchange(heard, code));
    StillAccounted(c, t, AfterMail(c, t, address, size), heard, code);
  }

  lemma NewRecipient(c: Config, recipients: seq<Text>, address: Text)
    requires GoodRecipients(c, recipients) && |recipients| < c.maxRecipients && M.LooksLikeEmail(address)
    requires !Known(recipients, address)
    ensures GoodRecipients(c, recipients + [address])
  {
    hide M.LooksLikeEmail;
  }

  lemma RcptKeeps(c: Config, t: Talk, address: Text)
    requires Invariant(c, t)
    ensures Invariant(c, AfterRcpt(c, t, address))
  {
    hide Accounted, EnvelopeOf, M.LooksLikeEmail, Trusted, GoodRecipients, Known;
    var heard, code := Spoken(C.Rcpt(address)), RcptCode(c, t, address);
    Said(t.transcript, Exchange(heard, code));
    StillAccounted(c, t, AfterRcpt(c, t, address), heard, code);
    if code == 250 && !Known(t.recipients, address) {
      NewRecipient(c, t.recipients, address);
    }
  }

  lemma NobodyIsGood(c: Config)
    ensures GoodRecipients(c, [])
  {
  }

  // Closing the transaction, with a reply the transcript shows as closing it.
  lemma ResetKeeps(c: Config, t: Talk, r: Talk, heard: Heard, code: nat)
    requires Invariant(c, t) && r.transcript == t.transcript + [Exchange(heard, code)] && r.submitted == t.submitted
    requires r.sender.None? && r.recipients == [] && r.authenticated == t.authenticated && r.authUser == t.authUser
    requires !HandsOn(Exchange(heard, code)) && After(EnvelopeOf(t.transcript), Exchange(heard, code)) == (None, [])
    ensures Invariant(c, r)
  {
    hide Accounted, EnvelopeOf, Trusted, GoodRecipients, After;
    Said(t.transcript, Exchange(heard, code));
    StillAccounted(c, t, r, heard, code);
    NobodyIsGood(c);
  }

  // A reply that changes nothing but the error count.
  lemma ReplyKeeps(c: Config, t: Talk, r: Talk, heard: Heard, code: nat)
    requires Invariant(c, t) && r == Replied(t.(errors := r.errors), heard, code)
    requires !HandsOn(Exchange(heard, code))
      && After(EnvelopeOf(t.transcript), Exchange(heard, code)) == EnvelopeOf(t.transcript)
    ensures Invariant(c, r)
  {
    hide Accounted, EnvelopeOf, Trusted, GoodRecipients, After;
    Said(t.transcript, Exchange(heard, code));
    StillAccounted(c, t, r, heard, code);
  }

  lemma AcceptedKeeps(c: Config, t: Talk, mechanism: Text, initial: Option<Text>, user: Text, password: Text)
    requires Invariant(c, t) && c.accepts(user, password)
    ensures Invariant(c, Replied(t.(authenticated := true, authUser := Some(user)),
                                 Spoken(C.Auth(mechanism, initial)), 235))
  {
    hide Accounted, EnvelopeOf, GoodRecipients, GoodSender, After;
    var heard := Spoken(C.Auth(mechanism, initial));
    var r := Replied(t.(authenticated := true, authUser := Some(user)), heard, 235);
    Said(t.transcript, Exchange(heard, 235));
    AuthIsQuiet(EnvelopeOf(t.transcript), mechanism, initial, 235);
    StillAccounted(c, t, r, heard, 235);
  }

  lemma AuthIsQuiet(envelope: (Option<Text>, seq<Text>), mechanism: Text, initial: Option<Text>, code: nat)
    ensures After(envelope, Exchange(Spoken(C.Auth(mechanism, initial)), code)) == envelope
  {
  }

  lemma JudgedKeeps(c: Config, t: Talk, mechanism: Text, initial: Option<Text>, credentials: Option<(Text, Text)>)
    requires Invariant(c, t)
    ensures Invariant(c, Judged(c, t, Spoken(C.Auth(mechanism, initial)), credentials))
  {
    hide Invariant, EnvelopeOf, After;
    var heard := Spoken(C.Auth(mechanism, initial));
    var code := if credentials.None? then 501 else 535;
    if credentials.Some? && c.accepts(credentials.value.0, credentials.value.1) {
      AcceptedKeeps(c, t, mechanism, initial, credentials.value.0, credentials.value.1);
    } else {
      AuthIsQuiet(EnvelopeOf(t.transcript), mechanism, initial, code);
      ReplyKeeps(c, t, Replied(t, heard, code), heard, code);
    }
  }

  lemma LetterIsProper(c: Config, t: Talk, raw: Text)
    requires Open(c, t) && t.sender.Some? && t.recipients != [] && |raw| <= c.maxSize && H.CrlfOnly(raw)
    ensures Proper(c, Letter(t.sender.value, t.recipients, raw, t.helo, t.authUser, |t.transcript|))
  {
    hide EnvelopeOf, GoodRecipients, GoodSender, Trusted, H.CrlfOnly;
  }

  lemma DispatchedKeeps(c: Config, t: Talk, raw: Text)
    requires Invariant(c, t) && t.sender.Some? && t.recipients != [] && |raw| <= c.maxSize && H.CrlfOnly(raw)
    ensures Invariant(c, Dispatched(c, t, raw))
  {
    hide Proper, EnvelopeOf, Places, GoodRecipients, GoodSender, Trusted;
    var r := Dispatched(c, t, raw);
    var e := r.transcript[|t.transcript|];
    var letter := r.submitted[|t.submitted|];
    Said(t.transcript, e);
    LetterIsProper(c, t, raw);
    NobodyIsGood(c);
    assert r.transcript == t.transcript + [e];
    assert r.transcript[..letter.place] == t.transcript;
    forall k | 0 <= k < |r.submitted|
      ensures Proper(c, r.submitted[k]) && Faithful(r.transcript, r.submitted[k])
    {
      if k < |t.submitted| {
        StaysFaithful(t.transcript, e, t.submitted[k]);
      }
    }
  }

  lemma CutHasNoLf(s: Text)
    requires s != []
    ensures LF !in CutLine(s).0
  {
    hide IndexOf;
  }

  lemma {:induction false} MarkedHasNoLf(s: Text)
    requires D.UpToMarker(s).Marker?
    ensures forall k :: 0 <= k < |D.UpToMarker(s).lines| ==> LF !in D.UpToMarker(s).lines[k]
    decreases |s|
  {
    hide CutLine;
    CutHasNoLf(s);
    var (line, rest) := CutLine(s);
    if line != [DOT] {
      MarkedHasNoLf(rest);
    }
  }

  lemma CrlfJoins(a: Text, b: Text)
    requires LF !in a && H.CrlfOnly(b)
    ensures H.CrlfOnly(a + CRLF + b)
  {
  }

  lemma {:induction false} MessageIsCrlf(lines: seq<Text>)
    requires forall k :: 0 <= k < |lines| ==> LF !in lines[k]
    ensures H.CrlfOnly(D.Message(lines))
  {
    hide H.CrlfOnly;
    if lines == [] {
      NothingIsCrlf();
    } else {
      MessageIsCrlf(lines[1..]);
      CrlfJoins(D.Unstuff(lines[0]), D.Message(lines[1..]));
    }
  }

  lemma NothingIsCrlf()
    ensures H.CrlfOnly([])
  {
  }

  // Whatever line ends a client sends, the body that comes of them has CRLF.
  lemma PayloadIsCrlf(s: Text, limit: nat)
    ensures D.Payload(s, limit).0.Complete? ==> H.CrlfOnly(D.Payload(s, limit).0.raw)
  {
    hide D.UpToMarker, D.Message, H.CrlfOnly;
    if D.UpToMarker(s).Marker? {
      MarkedHasNoLf(s);
      MessageIsCrlf(D.UpToMarker(s).lines);
    }
  }

  lemma PayloadFits(s: Text, limit: nat)
    ensures D.Payload(s, limit).0.Complete? ==> |D.Payload(s, limit).0.raw| <= limit
  {
    hide D.UpToMarker, D.Message;
  }

  lemma DataKeeps(c: Config, t: Talk, s: Text)
    requires Invariant(c, t)
    ensures Invariant(c, AfterData(c, t, s).talk)
  {
    hide Invariant, D.Payload, Dispatched, EnvelopeOf, H.CrlfOnly;
    if t.sender.None? || t.recipients == [] {
      ReplyKeeps(c, t, Replied(t, Spoken(C.Data), 503), Spoken(C.Data), 503);
    } else {
      PayloadFits(s, c.maxSize);
      PayloadIsCrlf(s, c.maxSize);
      match D.Payload(s, c.maxSize).0
      case Complete(raw) => DispatchedKeeps(c, t, raw);
      case TooLarge(_) => ResetKeeps(c, t, Replied(Reset(t), Spoken(C.Data), 552), Spoken(C.Data), 552);
      case Aborted => ResetKeeps(c, t, Replied(Reset(t), Spoken(C.Data), 354), Spoken(C.Data), 354);
    }
  }

  lemma AuthKeeps(c: Config, t: Talk, mechanism: Text, initial: Option<Text>, s: Text)
    requires Invariant(c, t)
    ensures Invariant(c, AfterAuth(c, t, mechanism, initial, s).talk)
  {
    hide Invariant, Judged, PlainOf, LoginOf, EnvelopeOf;
    var heard := Spoken(C.Auth(mechanism, initial));
    if !c.authAvailable || t.authenticated || t.sender.Some? {
      ReplyKeeps(c, t, Replied(t, heard, 503), heard, 503);
    } else if mechanism == PLAIN {
      JudgedKeeps(c, t, mechanism, initial, PlainOf(c, initial, s).0);
    } else if mechanism == LOGIN {
      JudgedKeeps(c, t, mechanism, initial, LoginOf(c, initial, s).0);
    } else {
      ReplyKeeps(c, t, Replied(t, heard, 504), heard, 504);
    }
  }

  // Greetings and RSET close a transaction; the other commands without one of their
  // own change nothing.
  lemma PlainKeeps(c: Config, t: Talk, command: C.Command, s: Text)
    requires Invariant(c, t)
    requires !command.Auth? && !command.Mail? && !command.Rcpt? && !command.Data?
    ensures Invariant(c, Handled(c, t, command, s).talk)
  {
    hide Invariant, EnvelopeOf;
    var r := Handled(c, t, command, s).talk;
    var code := r.transcript[|t.transcript|].code;
    if command.Ehlo? || command.Helo? || command.Rset? {
      ResetKeeps(c, t, r, Spoken(command), code);
    } else {
      ReplyKeeps(c, t, r, Spoken(command), code);
    }
  }

  lemma HandledKeeps(c: Config, t: Talk, command: C.Command, s: Text)
    requires Invariant(c, t)
    ensures Invariant(c, Handled(c, t, command, s).talk)
  {
    hide Invariant, AfterMail, AfterRcpt, AfterData, AfterAuth;
    match command
    case Auth(mechanism, initial) => AuthKeeps(c, t, mechanism, initial, s);
    case Mail(address, size) => MailKeeps(c, t, address, size);
    case Rcpt(address) => RcptKeeps(c, t, address);
    case Data => DataKeeps(c, t, s);
    case _ => PlainKeeps(c, t, command, s);
  }

  lemma TurnKeeps(c: Config, t: Talk, s: Text)
    requires Invariant(c, t)
    ensures Invariant(c, Turn(c, t, s).talk)
  {
    hide Invariant, Handled, NextLine, C.CommandOf, EnvelopeOf;
    var (next, rest) := NextLine(s, MAX_COMMAND_LINE);
    match next
    case Eof =>
    case TooLong => ReplyKeeps(c, t, Misheard(t, 500, rest).talk, Garbled, 500);
    case Line(line) =>
      match C.CommandOf(line)
      case Err(code) => ReplyKeeps(c, t, Misheard(t, code, rest).talk, Garbled, code);
      case Ok(command) => HandledKeeps(c, t, command, rest);
  }

  lemma {:induction false} ConverseKeeps(c: Config, t: Talk, s: Text)
    requires Invariant(c, t)
    ensures Invariant(c, Converse(c, t, s).0)
    decreases |s|
  {
    hide Invariant, Turn;
    TurnKeeps(c, t, s);
    TurnShrinks(c, t, s);
    if Turn(c, t, s).ended.None? {
      ConverseKeeps(c, Turn(c, t, s).talk, Turn(c, t, s).rest);
    }
  }

  // Whatever bytes a client sends: each message handed on has its recipients, all
  // valid and different and no more than allowed, a valid or null sender, a greeted
  // client, a body within the limit and, where that is required, a user whose
  // password was accepted. Its envelope is what the transcript shows: the last
  // accepted MAIL and the RCPTs accepted since. And the messages handed on are
  // exactly the DATA commands answered as such.
  lemma {:induction false} EveryMessageIsProper(c: Config, s: Text, k: nat)
    requires k < |Converse(c, HELLO, s).0.submitted|
    ensures var t := Converse(c, HELLO, s).0;
      && Proper(c, t.submitted[k]) && Faithful(t.transcript, t.submitted[k])
      && |Places(t.transcript)| == |t.submitted| && Places(t.transcript)[k] == t.submitted[k].place
  {
    hide Converse;
    Initially(c);
    ConverseKeeps(c, HELLO, s);
  }

  // -- every reply is told by the transcript before it ----------------------------------------

  // The name of the last greeting.
  ghost function HeloOf(transcript: seq<Exchange>): Text {
    if transcript == [] then []
    else
      var n := |transcript| - 1;
      match transcript[n].heard
      case Spoken(Ehlo(domain)) => domain
      case Spoken(Helo(domain)) => domain
      case _ => HeloOf(transcript[..n])
  }

  // The client has logged in.
  ghost predicate LoggedOn(transcript: seq<Exchange>) {
    exists k :: 0 <= k < |transcript| && transcript[k].heard.Spoken? && transcript[k].heard.command.Auth?
      && transcript[k].code == 235
  }

  // The code the rules of the protocol call for, told from what was said before: a greeting
  // first, a login where it is required, one transaction at a time, valid addresses, the
  // declared size and the number of recipients within their limits.
  ghost predicate Called(c: Config, before: seq<Exchange>, e: Exchange) {
    var (sender, recipients) := EnvelopeOf(before);
    match e.heard
    case Spoken(Mail(address, size)) =>
      e.code == if HeloOf(before) == [] then 503
                else if c.requireAuth && !LoggedOn(before) then 530
                else if sender.Some? then 503
                else if !GoodSender(address) then 553
                else if size.Some? && size.value > c.maxSize then 552
                else 250
    case Spoken(Rcpt(address)) =>
      e.code == if sender.None? then 503
                else if !M.LooksLikeEmail(address) then 553
                else if |recipients| == c.maxRecipients then 452
                else 250
    case Spoken(Data) => e.code == 503 <==> sender.None? || recipients == []
    case Spoken(Auth(_, _)) => e.code == 503 <==> !c.authAvailable || LoggedOn(before) || sender.Some?
    case Spoken(other) => e.code == FixedCode(other)
    case Garbled => true
  }

  // The reply to a command that is answered alike in every state, by sections 4.2.2 and 4.2.4 of RFC 5321.
  ghost function FixedCode(command: C.Command): nat {
    if command.Ehlo? || command.Helo? || command.Rset? || command.Noop? then 250
    else if command.Quit? then 221
    else if command.Help? then 214
    else if command.Vrfy? then 252
    else if command.StartTls? then 454
    else if command.Expn? || command.Unimplemented? then 502
    else 500
  }

  // The last greeting was an EHLO.
  ghost predicate Extended(transcript: seq<Exchange>) {
    transcript != []
    && var n := |transcript| - 1;
       match transcript[n].heard
       case Spoken(Ehlo(_)) => true
       case Spoken(Helo(_)) => false
       case _ => Extended(transcript[..n])
  }

  ghost predicate AllCalled(c: Config, transcript: seq<Exchange>) {
    forall k :: 0 <= k < |transcript| ==> Called(c, transcript[..k], transcript[k])
  }

  ghost predicate Told(c: Config, t: Talk) {
    && HeloOf(t.transcript) == t.helo && (Extended(t.transcript) <==> t.esmtp)
    && (LoggedOn(t.transcript) <==> t.authenticated)
    && AllCalled(c, t.transcript)
  }

  lemma {:induction false} SaidMore(c: Config, transcript: seq<Exchange>, e: Exchange)
    requires AllCalled(c, transcript) && Called(c, transcript, e)
    ensures AllCalled(c, transcript + [e])
    ensures LoggedOn(transcript + [e]) <==>
      LoggedOn(transcript) || (e.heard.Spoken? && e.heard.command.Auth? && e.code == 235)
    ensures HeloOf(transcript + [e])
      == match e.heard
         case Spoken(Ehlo(domain)) => domain
         case Spoken(Helo(domain)) => domain
         case _ => HeloOf(transcript)
    ensures Extended(transcript + [e])
      <==> match e.heard
           case Spoken(Ehlo(_)) => true
           case Spoken(Helo(_)) => false
           case _ => Extended(transcript)
  {
    hide Called, EnvelopeOf;
    var longer := transcript + [e];
    assert longer[..|transcript|] == transcript;
    assert longer[|transcript|] == e;
    forall k | 0 <= k < |longer|
      ensures Called(c, longer[..k], longer[k])
    {
      if k < |transcript| {
        assert longer[..k] == transcript[..k];
      }
    }
    if LoggedOn(transcript) {
      var k :| 0 <= k < |transcript| && transcript[k].heard.Spoken? && transcript[k].heard.command.Auth?
        && transcript[k].code == 235;
      assert longer[k] == transcript[k];
    }
  }

  // One exchange more, with a reply that was called for.
  ghost predicate Answers(c: Config, t: Talk, r: Talk, e: Exchange) {
    && r.transcript == t.transcript + [e] && Called(c, t.transcript, e)
    && r.helo == (match e.heard
                  case Spoken(Ehlo(domain)) => domain
                  case Spoken(Helo(domain)) => domain
                  case _ => t.helo)
    && (r.esmtp <==> match e.heard
                     case Spoken(Ehlo(_)) => true
                     case Spoken(Helo(_)) => false
                     case _ => t.esmtp)
    && (r.authenticated <==> t.authenticated || (e.heard.Spoken? && e.heard.command.Auth? && e.code == 235))
  }

  lemma {:induction false} AnsweredIsTold(c: Config, t: Talk, r: Talk, e: Exchange)
    requires Told(c, t) && Answers(c, t, r, e)
    ensures Told(c, r)
  {
    hide Called, AllCalled, LoggedOn, HeloOf, Extended;
    SaidMore(c, t.transcript, e);
  }

  lemma AuthAnswers(c: Config, t: Talk, mechanism: Text, initial: Option<Text>, s: Text)
    requires Invariant(c, t) && Told(c, t)
    ensures Told(c, AfterAuth(c, t, mechanism, initial, s).talk)
  {
    hide PlainOf, LoginOf, AllCalled, LoggedOn, HeloOf, Extended, EnvelopeOf, Accounted, GoodRecipients, Trusted;
    var r := AfterAuth(c, t, mechanism, initial, s).talk;
    var e := r.transcript[|t.transcript|];
    assert r.transcript == t.transcript + [e];
    AnsweredIsTold(c, t, r, e);
  }

  lemma DataAnswers(c: Config, t: Talk, s: Text)
    requires Invariant(c, t) && Told(c, t)
    ensures Told(c, AfterData(c, t, s).talk)
  {
    hide D.Payload, AllCalled, LoggedOn, HeloOf, Extended, EnvelopeOf, Accounted, GoodRecipients, Trusted;
    var r := AfterData(c, t, s).talk;
    var e := r.transcript[|t.transcript|];
    assert r.transcript == t.transcript + [e];
    AnsweredIsTold(c, t, r, e);
  }

  lemma EnvelopeAnswers(c: Config, t: Talk, command: C.Command, s: Text)
    requires Invariant(c, t) && Told(c, t) && (command.Mail? || command.Rcpt?)
    ensures Told(c, Handled(c, t, command, s).talk)
  {
    hide AllCalled, LoggedOn, HeloOf, Extended, EnvelopeOf, Accounted, Trusted, M.LooksLikeEmail, Known, Distinct;
    var r := Handled(c, t, command, s).talk;
    var e := r.transcript[|t.transcript|];
    assert r.transcript == t.transcript + [e];
    AnsweredIsTold(c, t, r, e);
  }

  lemma OtherAnswers(c: Config, t: Talk, command: C.Command, s: Text)
    requires Told(c, t) && !command.Auth? && !command.Data? && !command.Mail? && !command.Rcpt?
    ensures Told(c, Handled(c, t, command, s).talk)
  {
    hide AllCalled, LoggedOn, HeloOf, Extended, EnvelopeOf, M.LooksLikeEmail;
    var r := Handled(c, t, command, s).talk;
    var e := r.transcript[|t.transcript|];
    assert r.transcript == t.transcript + [e];
    AnsweredIsTold(c, t, r, e);
  }

  lemma TurnAnswers(c: Config, t: Talk, s: Text)
    requires Invariant(c, t) && Told(c, t)
    ensures Told(c, Turn(c, t, s).talk)
  {
    hide Invariant, Told, Handled, NextLine, C.CommandOf;
    var (next, rest) := NextLine(s, MAX_COMMAND_LINE);
    match next
    case Eof =>
    case TooLong => MisheardAnswers(c, t, 500, rest);
    case Line(line) =>
      match C.CommandOf(line)
      case Err(code) => MisheardAnswers(c, t, code, rest);
      case Ok(command) =>
        hide AfterAuth, AfterData;
        HandledAnswers(c, t, command, rest);
  }

  lemma HandledAnswers(c: Config, t: Talk, command: C.Command, s: Text)
    requires Invariant(c, t) && Told(c, t)
    ensures Told(c, Handled(c, t, command, s).talk)
  {
    hide Invariant, Told, AfterAuth, AfterData;
    match command
    case Auth(mechanism, initial) => AuthAnswers(c, t, mechanism, initial, s);
    case Data => DataAnswers(c, t, s);
    case Mail(_, _) => EnvelopeAnswers(c, t, command, s);
    case Rcpt(_) => EnvelopeAnswers(c, t, command, s);
    case _ => OtherAnswers(c, t, command, s);
  }

  lemma MisheardAnswers(c: Config, t: Talk, code: nat, s: Text)
    requires Told(c, t)
    ensures Told(c, Misheard(t, code, s).talk)
  {
    hide AllCalled, LoggedOn, HeloOf, Extended, EnvelopeOf;
    AnsweredIsTold(c, t, Misheard(t, code, s).talk, Exchange(Garbled, code));
  }

  lemma {:induction false} ConverseAnswers(c: Config, t: Talk, s: Text)
    requires Invariant(c, t) && Told(c, t)
    ensures Told(c, Converse(c, t, s).0)
    decreases |s|
  {
    hide Invariant, Told, Turn;
    TurnAnswers(c, t, s);
    TurnKeeps(c, t, s);
    TurnShrinks(c, t, s);
    if Turn(c, t, s).ended.None? {
      ConverseAnswers(c, Turn(c, t, s).talk, Turn(c, t, s).rest);
    }
  }

  // Whatever a client sends, every command of the session got the code that the exchanges
  // before it call for, and the session is an extended one as the last greeting said.
  lemma {:induction false} EveryReplyIsCalledFor(c: Config, s: Text, k: nat)
    requires k < |Converse(c, HELLO, s).0.transcript|
    ensures var transcript := Converse(c, HELLO, s).0.transcript;
      Called(c, transcript[..k], transcript[k])
    ensures Converse(c, HELLO, s).0.esmtp <==> Extended(Converse(c, HELLO, s).0.transcript)
  {
    hide Converse, Called;
    Initially(c);
    ConverseAnswers(c, HELLO, s);
  }

  // -- the counters ------------------------------------------------------------------------

  predicate TakenOn(e: Exchange) {
    e.heard == Spoken(C.Data) && e.code == 250
  }

  predicate Wrong(e: Exchange) {
    match e.heard
    case Garbled => true
    case Spoken(command) => command.Empty? || command.Unimplemented? || command.Unknown?
  }

  ghost function Counted(transcript: seq<Exchange>): (nat, nat) {
    if transcript == [] then (0, 0)
    else
      var (taken, wrong) := Counted(transcript[..|transcript| - 1]);
      var last := transcript[|transcript| - 1];
      (taken + (if TakenOn(last) then 1 else 0), wrong + (if Wrong(last) then 1 else 0))
  }

  lemma {:induction false} CountedAppends(transcript: seq<Exchange>, e: Exchange)
    ensures var (taken, wrong) := Counted(transcript);
      Counted(transcript + [e]) == (taken + (if TakenOn(e) then 1 else 0), wrong + (if Wrong(e) then 1 else 0))
  {
    assert (transcript + [e])[..|transcript|] == transcript;
  }

  // One exchange more, counted as what it was.
  ghost predicate Tallies(t: Talk, r: Talk, e: Exchange) {
    && r.transcript == t.transcript + [e]
    && r.accepted == t.accepted + (if TakenOn(e) then 1 else 0)
    && r.errors == t.errors + (if Wrong(e) then 1 else 0)
  }

  ghost predicate Tallied(t: Talk, r: Talk, command: C.Command) {
    exists code: nat :: Tallies(t, r, Exchange(Spoken(command), code))
  }

  lemma AuthTallies(c: Config, t: Talk, mechanism: Text, initial: Option<Text>, s: Text)
    ensures Tallied(t, AfterAuth(c, t, mechanism, initial, s).talk, C.Auth(mechanism, initial))
  {
    hide PlainOf, LoginOf;
    var r := AfterAuth(c, t, mechanism, initial, s).talk;
    assert Tallies(t, r, Exchange(Spoken(C.Auth(mechanism, initial)), r.transcript[|t.transcript|].code));
  }

  lemma DataTallies(c: Config, t: Talk, s: Text)
    ensures Tallied(t, AfterData(c, t, s).talk, C.Data)
  {
    hide D.Payload;
    var r := AfterData(c, t, s).talk;
    assert Tallies(t, r, Exchange(Spoken(C.Data), r.transcript[|t.transcript|].code));
  }

  lemma EnvelopeTallies(c: Config, t: Talk, address: Text, size: Option<nat>)
    ensures Tallied(t, AfterMail(c, t, address, size), C.Mail(address, size))
    ensures Tallied(t, AfterRcpt(c, t, address), C.Rcpt(address))
  {
    hide MailCode, RcptCode, Known;
    assert Tallies(t, AfterMail(c, t, address, size),
                   Exchange(Spoken(C.Mail(address, size)), MailCode(c, t, address, size)));
    assert Tallies(t, AfterRcpt(c, t, address), Exchange(Spoken(C.Rcpt(address)), RcptCode(c, t, address)));
  }

  lemma PlainTallies(c: Config, t: Talk, command: C.Command, s: Text)
    requires !command.Auth? && !command.Mail? && !command.Rcpt? && !command.Data?
    ensures Tallied(t, Handled(c, t, command, s).talk, command)
  {
    var r := Handled(c, t, command, s).talk;
    assert Tallies(t, r, Exchange(Spoken(command), r.transcript[|t.transcript|].code));
  }

  lemma HandledTallies(c: Config, t: Talk, command: C.Command, s: Text)
    ensures Tallied(t, Handled(c, t, command, s).talk, command)
  {
    hide Tallied, AfterMail, AfterRcpt, AfterData, AfterAuth;
    match command
    case Auth(mechanism, initial) => AuthTallies(c, t, mechanism, initial, s);
    case Mail(address, size) => EnvelopeTallies(c, t, address, size);
    case Rcpt(address) => EnvelopeTallies(c, t, address, None);
    case Data => DataTallies(c, t, s);
    case _ => PlainTallies(c, t, command, s);
  }

  lemma {:induction false} TurnCounts(c: Config, t: Talk, s: Text)
    requires Counted(t.transcript) == (t.accepted, t.errors)
    ensures var p := Turn(c, t, s);
      && Counted(p.talk.transcript) == (p.talk.accepted, p.talk.errors)
      && (p.ended == Some(ProtocolAbuse) ==> p.talk.errors >= MAX_PROTOCOL_ERRORS)
  {
    hide Handled, NextLine, C.CommandOf, Counted;
    var (next, rest) := NextLine(s, MAX_COMMAND_LINE);
    match next
    case Eof =>
    case TooLong => CountedAppends(t.transcript, Exchange(Garbled, 500));
    case Line(line) =>
      match C.CommandOf(line)
      case Err(code) => CountedAppends(t.transcript, Exchange(Garbled, code));
      case Ok(command) =>
        HandledTallies(c, t, command, rest);
        HandledNeverAbuses(c, t, command, rest);
        var code: nat :| Tallies(t, Handled(c, t, command, rest).talk, Exchange(Spoken(command), code));
        CountedAppends(t.transcript, Exchange(Spoken(command), code));
  }

  lemma HandledNeverAbuses(c: Config, t: Talk, command: C.Command, s: Text)
    ensures Handled(c, t, command, s).ended != Some(ProtocolAbuse)
  {
    hide PlainOf, LoginOf, D.Payload, M.LooksLikeEmail, Known, AfterMail, AfterRcpt, Judged, Dispatched;
  }

  // The two counters are those of the transcript, and a session is ended for abuse only
  // after as many errors as are allowed.
  lemma {:induction false} CountersAreTrue(c: Config, t: Talk, s: Text)
    requires Counted(t.transcript) == (t.accepted, t.errors)
    ensures var (end, why) := Converse(c, t, s);
      && Counted(end.transcript) == (end.accepted, end.errors)
      && (why == ProtocolAbuse ==> end.errors >= MAX_PROTOCOL_ERRORS)
    decreases |s|
  {
    hide Turn, Counted;
    TurnCounts(c, t, s);
    TurnShrinks(c, t, s);
    if Turn(c, t, s).ended.None? {
      CountersAreTrue(c, Turn(c, t, s).talk, Turn(c, t, s).rest);
    }
  }

  // The session should have ended for abuse: its last line was no command at all, and the
  // errors are as many as are allowed.
  ghost predicate Abusive(transcript: seq<Exchange>) {
    transcript != [] && transcript[|transcript| - 1].heard == Garbled && Counted(transcript).1 >= MAX_PROTOCOL_ERRORS
  }

  lemma {:induction false} TurnAbuses(c: Config, t: Talk, s: Text)
    requires Counted(t.transcript) == (t.accepted, t.errors) && !Abusive(t.transcript)
    ensures Turn(c, t, s).ended == Some(ProtocolAbuse) <==> Abusive(Turn(c, t, s).talk.transcript)
  {
    hide Handled, NextLine, C.CommandOf, Counted;
    TurnCounts(c, t, s);
    var (next, rest) := NextLine(s, MAX_COMMAND_LINE);
    match next
    case Eof =>
    case TooLong =>
    case Line(line) =>
      match C.CommandOf(line)
      case Err(code) =>
      case Ok(command) =>
        HandledTallies(c, t, command, rest);
        HandledNeverAbuses(c, t, command, rest);
        var code: nat :| Tallies(t, Handled(c, t, command, rest).talk, Exchange(Spoken(command), code));
  }

  // A session is ended for abuse if and only if it ends on a line that was too long or did
  // not parse, with as many errors counted as are allowed.
  lemma {:induction false} AbusedExactlyWhen(c: Config, t: Talk, s: Text)
    requires Counted(t.transcript) == (t.accepted, t.errors) && !Abusive(t.transcript)
    ensures Converse(c, t, s).1 == ProtocolAbuse <==> Abusive(Converse(c, t, s).0.transcript)
    decreases |s|
  {
    hide Turn, Counted, Abusive;
    TurnCounts(c, t, s);
    TurnAbuses(c, t, s);
    TurnShrinks(c, t, s);
    if Turn(c, t, s).ended.None? {
      AbusedExactlyWhen(c, Turn(c, t, s).talk, Turn(c, t, s).rest);
    }
  }

  ghost predicate Parted(transcript: seq<Exchange>) {
    transcript != [] && transcript[|transcript| - 1].heard == Spoken(C.Quit)
  }

  // Asked for a payload that never came to its end.
  ghost predicate Forsaken(transcript: seq<Exchange>) {
    transcript != [] && transcript[|transcript| - 1] == Exchange(Spoken(C.Data), 354)
  }

  lemma HandledParts(c: Config, t: Talk, command: C.Command, s: Text)
    ensures Handled(c, t, command, s).talk.transcript != []
    ensures Handled(c, t, command, s).ended == Some(ByQuit) <==> Parted(Handled(c, t, command, s).talk.transcript)
    ensures Handled(c, t, command, s).ended == Some(WriteFailed)
      <==> Forsaken(Handled(c, t, command, s).talk.transcript)
  {
    hide AfterAuth, AfterData, AfterMail, AfterRcpt;
    StepParts(c, t, command, s);
  }

  lemma {:induction false} StepParts(c: Config, t: Talk, command: C.Command, s: Text)
    ensures command.Mail? ==> AnsweredOnly(t, command, AfterMail(c, t, command.address, command.size))
    ensures command.Rcpt? ==> AnsweredOnly(t, command, AfterRcpt(c, t, command.address))
    ensures command.Auth? ==>
      var p := AfterAuth(c, t, command.mechanism, command.initial, s);
      AnsweredOnly(t, command, p.talk) && p.ended.None?
    ensures command.Data? ==>
      var p := AfterData(c, t, s);
      && AnsweredOnly(t, command, p.talk) && p.ended != Some(ByQuit)
      && (p.ended == Some(WriteFailed) <==> p.talk.transcript[|t.transcript|].code == 354)
  {
    hide D.Payload, PlainOf, LoginOf, MailCode, RcptCode, Known;
  }

  ghost predicate AnsweredOnly(t: Talk, command: C.Command, r: Talk) {
    && |r.transcript| == |t.transcript| + 1 && r.transcript[|t.transcript|].heard == Spoken(command)
  }

  lemma TurnParts(c: Config, t: Talk, s: Text)
    requires !Parted(t.transcript) && !Forsaken(t.transcript)
    ensures Turn(c, t, s).ended == Some(ByQuit) <==> Parted(Turn(c, t, s).talk.transcript)
    ensures Turn(c, t, s).ended == Some(WriteFailed) <==> Forsaken(Turn(c, t, s).talk.transcript)
  {
    hide Handled, NextLine, C.CommandOf;
    var (next, rest) := NextLine(s, MAX_COMMAND_LINE);
    if next.Line? && C.CommandOf(next.line).Ok? {
      HandledParts(c, t, C.CommandOf(next.line).value, rest);
    }
  }

  // A session ends by QUIT, or in the middle of a payload, if and only if its last exchange
  // was that one: nothing is read behind either.
  lemma {:induction false} EndsAsTold(c: Config, t: Talk, s: Text)
    requires !Parted(t.transcript) && !Forsaken(t.transcript)
    ensures Converse(c, t, s).1 == ByQuit <==> Parted(Converse(c, t, s).0.transcript)
    ensures Converse(c, t, s).1 == WriteFailed <==> Forsaken(Converse(c, t, s).0.transcript)
    decreases |s|
  {
    hide Turn, Parted, Forsaken;
    TurnParts(c, t, s);
    TurnShrinks(c, t, s);
    if Turn(c, t, s).ended.None? {
      EndsAsTold(c, Turn(c, t, s).talk, Turn(c, t, s).rest);
    }
  }

  // A command line of the client.
  function Sent(command: Text): Text {
    command + CRLF
  }

  function Stream(lines: seq<Text>): Text {
    if lines == [] then [] else Sent(lines[0]) + Stream(lines[1..])
  }

  // A line that parses, as a command that counts as an error.
  ghost predicate WrongCommand(line: Text) {
    LF !in line && |line| <= MAX_COMMAND_LINE && C.CommandOf(line).Ok?
    && Wrong(Exchange(Spoken(C.CommandOf(line).value), 500))
  }

  // Empty and unknown commands count as errors but never end a session, however many.
  lemma {:induction false} WrongCommandsNeverEnd(c: Config, t: Talk, lines: seq<Text>)
    requires forall k :: 0 <= k < |lines| ==> WrongCommand(lines[k])
    ensures Converse(c, t, Stream(lines)).1 == ClientClosed
    ensures Converse(c, t, Stream(lines)).0.errors == t.errors + |lines|
    decreases |lines|
  {
    hide C.CommandOf;
    if lines == [] {
    } else {
      var line, more := lines[0], lines[1..];
      assert WrongCommand(line);
      var command := C.CommandOf(line).value;
      var next := Handled(c, t, command, Stream(more)).talk;
      ConverseOn(c, t, line, command, Stream(more), next, Stream(more));
      WrongCommandsNeverEnd(c, next, more);
    }
  }

  const NONSENSE: Text := [88]

  lemma NonsenseIsUnknown()
    ensures C.CommandOf(NONSENSE) == Ok(C.Unknown(NONSENSE)) && WrongCommand(NONSENSE)
  {
    C.AloneIsRead(NONSENSE);
  }

  function Repeated(n: nat): (r: seq<Text>)
    ensures |r| == n && forall k :: 0 <= k < n ==> r[k] == NONSENSE
  {
    if n == 0 then [] else Repeated(n - 1) + [NONSENSE]
  }

  // So for any number of them there is a session with that many errors that the client
  // ended: the limit is none on these.
  lemma ErrorsPassTheLimit(c: Config, n: nat)
    ensures Converse(c, HELLO, Stream(Repeated(n))).1 == ClientClosed
    ensures Converse(c, HELLO, Stream(Repeated(n))).0.errors == n
  {
    hide Converse, WrongCommand;
    NonsenseIsUnknown();
    WrongCommandsNeverEnd(c, HELLO, Repeated(n));
  }

  // -- a transaction sent whole --------------------------------------------------------------

  function RcptLines(recipients: seq<Text>): Text {
    if recipients == [] then [] else Sent(C.Render(C.Rcpt(recipients[0]))) + RcptLines(recipients[1..])
  }

  // A whole transaction, pipelined: nothing waits for a reply.
  function Transaction(sender: Text, recipients: seq<Text>, lines: seq<Text>): Text {
    Sent(C.Render(C.Mail(sender, None))) + (RcptLines(recipients) + (Sent(C.Render(C.Data)) + D.Wire(lines)))
  }

  predicate WireAddress(address: Text) {
    M.LooksLikeEmail(address) && Tight(address)
  }

  lemma WireAddressIsPlain(address: Text)
    requires WireAddress(address)
    ensures C.PlainAddress(address) && LF !in address && 0 < |address| <= 320
  {
    TrimTight(address);
    var at := IndexOf(address, AT);
    forall b | b in address
      ensures b != LF && b != GT
    {
      var k :| 0 <= k < |address| && address[k] == b;
    }
  }

  lemma RenderedLine(verb: Text, keyword: Text, address: Text)
    requires LF !in verb && LF !in keyword && LF !in address
    ensures LF !in C.AddressLine(verb, keyword, address, [])
    ensures |C.AddressLine(verb, keyword, address, [])| == |verb| + |keyword| + |address| + 4
  {
  }

  lemma TurnOn(c: Config, t: Talk, line: Text, command: C.Command, rest: Text)
    requires LF !in line && |line| <= MAX_COMMAND_LINE && C.CommandOf(line) == Ok(command)
    ensures Turn(c, t, Sent(line) + rest) == Handled(c, t, command, rest)
  {
    hide C.CommandOf, Handled, CutLine;
    assert Sent(line) + rest == line + CRLF + rest;
    CutTerminated(line, rest);
  }

  lemma ConverseOn(c: Config, t: Talk, line: Text, command: C.Command, rest: Text, next: Talk, after: Text)
    requires LF !in line && |line| <= MAX_COMMAND_LINE && C.CommandOf(line) == Ok(command)
    requires Handled(c, t, command, rest) == Progress(next, after, None)
    ensures Converse(c, t, Sent(line) + rest) == Converse(c, next, after)
  {
    hide C.CommandOf, Handled, Turn;
    TurnOn(c, t, line, command, rest);
  }

  // The transcript of accepted recipients.
  function Welcomed(recipients: seq<Text>): seq<Exchange> {
    if recipients == [] then []
    else Welcomed(recipients[..|recipients| - 1]) + [Exchange(Spoken(C.Rcpt(recipients[|recipients| - 1])), 250)]
  }

  // After MAIL and the first n recipients.
  function Enveloped(t: Talk, sender: Text, recipients: seq<Text>, n: nat): Talk
    requires n <= |recipients|
  {
    t.(sender := Some(sender), recipients := recipients[..n],
      transcript := t.transcript + [Exchange(Spoken(C.Mail(sender, None)), 250)] + Welcomed(recipients[..n]))
  }

  lemma RcptTurn(c: Config, t: Talk, sender: Text, recipients: seq<Text>, n: nat)
    requires n < |recipients| <= c.maxRecipients && Distinct(recipients) && WireAddress(recipients[n])
    ensures AfterRcpt(c, Enveloped(t, sender, recipients, n), recipients[n]) == Enveloped(t, sender, recipients, n + 1)
  {
    hide M.LooksLikeEmail;
    assert recipients[..n + 1] == recipients[..n] + [recipients[n]];
    assert recipients[..n + 1][..n] == recipients[..n];
    var front := t.transcript + [Exchange(Spoken(C.Mail(sender, None)), 250)];
    var e := Exchange(Spoken(C.Rcpt(recipients[n])), 250);
    assert front + Welcomed(recipients[..n]) + [e] == front + (Welcomed(recipients[..n]) + [e]);
    assert !Known(recipients[..n], recipients[n]);
  }

  lemma {:induction false} RcptsAreTaken(c: Config, t: Talk, sender: Text, recipients: seq<Text>, n: nat, rest: Text)
    requires n <= |recipients| <= c.maxRecipients && Distinct(recipients)
    requires forall k :: 0 <= k < |recipients| ==> WireAddress(recipients[k])
    ensures Converse(c, Enveloped(t, sender, recipients, n), RcptLines(recipients[n..]) + rest)
      == Converse(c, Enveloped(t, sender, recipients, |recipients|), rest)
    decreases |recipients| - n
  {
    hide Converse, Enveloped, Distinct, WireAddress, C.CommandOf, C.Render, AfterRcpt;
    if n == |recipients| {
      assert RcptLines(recipients[n..]) + rest == rest;
    } else {
      var address := recipients[n];
      var line := C.Render(C.Rcpt(address));
      var more := RcptLines(recipients[n + 1..]) + rest;
      assert recipients[n..][0] == address && recipients[n..][1..] == recipients[n + 1..];
      assert RcptLines(recipients[n..]) + rest == Sent(line) + more;
      RcptLine(address);
      RcptTurn(c, t, sender, recipients, n);
      ConverseOn(c, Enveloped(t, sender, recipients, n), line, C.Rcpt(address), more,
                 Enveloped(t, sender, recipients, n + 1), more);
      RcptsAreTaken(c, t, sender, recipients, n + 1, rest);
    }
  }

  lemma {:induction false} RcptLine(address: Text)
    requires WireAddress(address)
    ensures var line := C.Render(C.Rcpt(address));
      LF !in line && |line| <= MAX_COMMAND_LINE && C.CommandOf(line) == Ok(C.Rcpt(address))
  {
    hide C.CommandOf, C.AddressLine, WireAddress;
    WireAddressIsPlain(address);
    RenderedLine(C.RCPT, C.TO, address);
    C.RcptIsRead(address);
  }

  lemma {:induction false} MailLine(sender: Text)
    requires sender == [] || WireAddress(sender)
    ensures var line := C.Render(C.Mail(sender, None));
      LF !in line && |line| <= MAX_COMMAND_LINE && C.CommandOf(line) == Ok(C.Mail(sender, None))
  {
    hide C.CommandOf, C.AddressLine, WireAddress;
    if sender != [] {
      WireAddressIsPlain(sender);
    }
    RenderedLine(C.MAIL, C.FROM, sender);
    C.MailIsRead(sender, None);
  }

  lemma MailTurn(c: Config, t: Talk, sender: Text, recipients: seq<Text>)
    requires t.helo != [] && t.sender.None? && (c.requireAuth ==> t.authenticated)
    requires sender == [] || WireAddress(sender)
    ensures AfterMail(c, t, sender, None) == Enveloped(t, sender, recipients, 0)
  {
    hide M.LooksLikeEmail;
    assert recipients[..0] == [];
    var front := t.transcript + [Exchange(Spoken(C.Mail(sender, None)), 250)];
    assert front + Welcomed([]) == front;
  }

  // A transaction sent as one piece, in whatever chunks it arrives, is one message with
  // exactly its sender, its recipients in order and its lines, dots and all; and the
  // bytes behind it are the next command, never part of the message nor it of them.
  lemma TransactionArrives(c: Config, t: Talk, sender: Text, recipients: seq<Text>, lines: seq<Text>, rest: Text)
    requires t.helo != [] && t.sender.None? && (c.requireAuth ==> t.authenticated)
    requires sender == [] || WireAddress(sender)
    requires 0 < |recipients| <= c.maxRecipients && Distinct(recipients)
    requires forall k :: 0 <= k < |recipients| ==> WireAddress(recipients[k])
    requires (forall k :: 0 <= k < |lines| ==> LF !in lines[k]) && |D.Plain(lines)| <= c.maxSize
    ensures Converse(c, t, Transaction(sender, recipients, lines) + rest)
      == Converse(c, Dispatched(c, Enveloped(t, sender, recipients, |recipients|), D.Plain(lines)), rest)
  {
    hide Converse, Distinct, WireAddress, C.CommandOf, C.Render, AfterMail, Dispatched, D.Wire, D.Plain, D.Payload,
         RcptLines;
    var mail, data := C.Render(C.Mail(sender, None)), C.Render(C.Data);
    var body := D.Wire(lines) + rest;
    var second := RcptLines(recipients) + (Sent(data) + body);
    assert Transaction(sender, recipients, lines) + rest == Sent(mail) + second;
    var ready := Enveloped(t, sender, recipients, |recipients|);
    MailLine(sender);
    MailTurn(c, t, sender, recipients);
    ConverseOn(c, t, mail, C.Mail(sender, None), second, Enveloped(t, sender, recipients, 0), second);
    assert recipients[0..] == recipients;
    RcptsAreTaken(c, t, sender, recipients, 0, Sent(data) + body);
    DataLine();
    assert recipients[..|recipients|] == recipients;
    D.Transparent(lines, rest, c.maxSize);
    ConverseOn(c, ready, data, C.Data, body, Dispatched(c, ready, D.Plain(lines)), rest);
  }

  // -- authentication --------------------------------------------------------------------------

  const NUL: byte := 0

  lemma {:induction false} CutAtNul(front: Text, rest: Text)
    requires NUL !in front
    ensures var s := front + ([NUL] + rest);
      IndexOf(s, NUL) == |front| && s[..|front|] == front && s[|front| + 1..] == rest
  {
    IndexOfIs(front + ([NUL] + rest), NUL, |front|);
  }

  lemma NoNul(s: Text)
    requires NUL !in s
    ensures IndexOf(s, NUL) == |s| && s[..|s|] == s
  {
    IndexOfIs(s, NUL, |s|);
  }

  // Of a response of at least two NULs the parts around the first two are read: an identity
  // nobody looks at, the user, and the password up to a third NUL or the end.
  lemma {:induction false} PlainIsTold(authzid: Text, user: Text, password: Text, more: Option<Text>)
    requires NUL !in authzid && NUL !in user && NUL !in password
    ensures PlainParts(authzid + ([NUL] + (user + ([NUL] + Ended(password, more))))) == Some((user, password))
  {
    hide IndexOf;
    CutAtNul(authzid, user + ([NUL] + Ended(password, more)));
    CutAtNul(user, Ended(password, more));
    match more
    case Some(tail) => CutAtNul(password, tail);
    case None => NoNul(password);
  }

  function Ended(password: Text, more: Option<Text>): Text {
    match more
    case Some(tail) => password + ([NUL] + tail)
    case None => password
  }

  ghost function Nuls(s: Text): nat {
    if s == [] then 0 else Nuls(s[1..]) + if s[0] == NUL then 1 else 0
  }

  lemma {:induction false} NulsBehind(s: Text)
    ensures Nuls(s) == if IndexOf(s, NUL) < |s| then 1 + Nuls(s[IndexOf(s, NUL) + 1..]) else 0
  {
    if s != [] && s[0] != NUL {
      NulsBehind(s[1..]);
      assert IndexOf(s, NUL) == 1 + IndexOf(s[1..], NUL);
      var i := IndexOf(s, NUL);
      assert i < |s| ==> s[1..][i..] == s[i + 1..];
    }
  }

  // With fewer there are no credentials in it.
  lemma {:induction false} PlainNeedsTwoNuls(decoded: Text)
    ensures PlainParts(decoded).Some? <==> Nuls(decoded) >= 2
  {
    hide IndexOf, Nuls;
    NulsBehind(decoded);
    var i := IndexOf(decoded, NUL);
    if i < |decoded| {
      NulsBehind(decoded[i + 1..]);
    }
  }

  // The stream goes on with this line.
  ghost predicate LineComes(s: Text, line: Text, rest: Text) {
    s == Sent(line) + rest && LF !in line && |line| <= MAX_COMMAND_LINE
  }

  // The response is given with the command, or on the line behind it.
  ghost predicate Responds(initial: Option<Text>, s: Text, response: Text, rest: Text) {
    match initial
    case Some(given) => given == response && rest == s
    case None =>
      response != [] && response != STAR && exists line :: LineComes(s, line, rest) && Trim(line) == response
  }

  // A line of one star, or of nothing, comes in its place.
  ghost predicate Cancels(initial: Option<Text>, s: Text, rest: Text) {
    initial.None? && exists line :: LineComes(s, line, rest) && (Trim(line) == STAR || Trim(line) == [])
  }

  lemma {:induction false} AuthLineIs(s: Text, line: Text, rest: Text)
    requires LineComes(s, line, rest)
    ensures AuthLine(s) == (if Trim(line) == STAR || Trim(line) == [] then None else Some(Trim(line)), rest)
  {
    hide CutLine, Trim;
    assert s == line + CRLF + rest;
    CutTerminated(line, rest);
  }

  lemma {:induction false} ResponseIs(initial: Option<Text>, s: Text, response: Text, rest: Text)
    requires Responds(initial, s, response, rest)
    ensures (if initial.Some? then (initial, s) else AuthLine(s)) == (Some(response), rest)
  {
    hide AuthLine, Trim, LineComes;
    if initial.None? {
      var line :| LineComes(s, line, rest) && Trim(line) == response;
      AuthLineIs(s, line, rest);
    }
  }

  // A client may authenticate here.
  ghost predicate MayAuth(c: Config, t: Talk) {
    c.authAvailable && !t.authenticated && t.sender.None?
  }

  // What an accepted or refused login leaves behind.
  ghost function LoggedIn(c: Config, t: Talk, heard: Heard, user: Text, password: Text): Talk {
    if c.accepts(user, password) then
      t.(authenticated := true, authUser := Some(user), transcript := t.transcript + [Exchange(heard, 235)])
    else t.(transcript := t.transcript + [Exchange(heard, 535)])
  }

  // PLAIN authenticates the user between the first two NULs with the password behind them,
  // 235 if the pair is accepted and 535 if not; the bytes behind are the next command.
  lemma {:induction false} PlainDecides(
    c: Config, t: Talk, initial: Option<Text>, s: Text, response: Text, rest: Text,
    authzid: Text, user: Text, password: Text, more: Option<Text>)
    requires MayAuth(c, t) && Responds(initial, s, response, rest)
    requires NUL !in authzid && NUL !in user && NUL !in password
    requires c.decode(response) == Some(authzid + ([NUL] + (user + ([NUL] + Ended(password, more)))))
    ensures AfterAuth(c, t, PLAIN, initial, s)
      == Progress(LoggedIn(c, t, Spoken(C.Auth(PLAIN, initial)), user, password), rest, None)
  {
    hide AuthLine, PlainParts, Responds;
    ResponseIs(initial, s, response, rest);
    PlainIsTold(authzid, user, password, more);
  }

  lemma LoginIsNotPlain()
    ensures LOGIN != PLAIN && STAR != []
  {
    assert LOGIN[0] == 76 && PLAIN[0] == 80;
  }

  // LOGIN takes the user from the first response and the password from the line behind it.
  lemma {:induction false} LoginDecides(
    c: Config, t: Talk, initial: Option<Text>, s: Text, first: Text, middle: Text, second: Text, rest: Text,
    user: Text, password: Text)
    requires MayAuth(c, t) && Responds(initial, s, first, middle) && Responds(None, middle, second, rest)
    requires c.decode(first) == Some(user) && c.decode(second) == Some(password)
    ensures AfterAuth(c, t, LOGIN, initial, s)
      == Progress(LoggedIn(c, t, Spoken(C.Auth(LOGIN, initial)), user, password), rest, None)
  {
    hide AuthLine, Responds;
    LoginIsNotPlain();
    ResponseIs(initial, s, first, middle);
    ResponseIs(None, middle, second, rest);
  }

  // Answered with this code, and nothing else.
  ghost function Refused(t: Talk, heard: Heard, code: nat): Talk {
    t.(transcript := t.transcript + [Exchange(heard, code)])
  }

  // A response that cannot be decoded or holds no credentials is answered 501.
  lemma {:induction false} PlainFails(
    c: Config, t: Talk, initial: Option<Text>, s: Text, response: Text, rest: Text)
    requires MayAuth(c, t) && Responds(initial, s, response, rest)
    requires c.decode(response).Some? ==> Nuls(c.decode(response).value) < 2
    ensures AfterAuth(c, t, PLAIN, initial, s)
      == Progress(Refused(t, Spoken(C.Auth(PLAIN, initial)), 501), rest, None)
  {
    hide AuthLine, PlainParts, Responds;
    ResponseIs(initial, s, response, rest);
    if c.decode(response).Some? {
      PlainNeedsTwoNuls(c.decode(response).value);
    }
  }

  lemma {:induction false} LoginFails(
    c: Config, t: Talk, initial: Option<Text>, s: Text, first: Text, middle: Text, second: Text, rest: Text)
    requires MayAuth(c, t) && Responds(initial, s, first, middle) && Responds(None, middle, second, rest)
    requires c.decode(first).None? || c.decode(second).None?
    ensures AfterAuth(c, t, LOGIN, initial, s)
      == Progress(Refused(t, Spoken(C.Auth(LOGIN, initial)), 501), rest, None)
  {
    hide AuthLine, Responds;
    LoginIsNotPlain();
    ResponseIs(initial, s, first, middle);
    ResponseIs(None, middle, second, rest);
  }

  // And so is an exchange the client calls off, at whichever line.
  lemma {:induction false} CancelledFails(
    c: Config, t: Talk, mechanism: Text, initial: Option<Text>, s: Text, rest: Text)
    requires MayAuth(c, t) && mechanism in {PLAIN, LOGIN} && Cancels(initial, s, rest)
    ensures AfterAuth(c, t, mechanism, initial, s)
      == Progress(Refused(t, Spoken(C.Auth(mechanism, initial)), 501), rest, None)
  {
    hide AuthLine, Trim, LineComes;
    LoginIsNotPlain();
    var line :| LineComes(s, line, rest) && (Trim(line) == STAR || Trim(line) == []);
    AuthLineIs(s, line, rest);
  }

  lemma {:induction false} CancelledPasswordFails(
    c: Config, t: Talk, initial: Option<Text>, s: Text, first: Text, middle: Text, rest: Text)
    requires MayAuth(c, t) && Responds(initial, s, first, middle) && Cancels(None, middle, rest)
    ensures AfterAuth(c, t, LOGIN, initial, s)
      == Progress(Refused(t, Spoken(C.Auth(LOGIN, initial)), 501), rest, None)
  {
    hide AuthLine, Trim, LineComes, Responds;
    LoginIsNotPlain();
    ResponseIs(initial, s, first, middle);
    var line :| LineComes(middle, line, rest) && (Trim(line) == STAR || Trim(line) == []);
    AuthLineIs(middle, line, rest);
  }

  // Where a client may not authenticate it is told 503, and 504 for any other mechanism; the
  // stream is not touched.
  lemma AuthIsRefused(c: Config, t: Talk, mechanism: Text, initial: Option<Text>, s: Text)
    requires !MayAuth(c, t) || mechanism !in {PLAIN, LOGIN}
    ensures AfterAuth(c, t, mechanism, initial, s)
      == Progress(Refused(t, Spoken(C.Auth(mechanism, initial)), if MayAuth(c, t) then 504 else 503), s, None)
  {
  }

  // On the wire: the line AUTH PLAIN with the response logs the client in, and what follows
  // is read as commands of that user.
  lemma {:induction false} PlainLoginArrives(
    c: Config, t: Talk, response: Text, rest: Text, authzid: Text, user: Text, password: Text)
    requires MayAuth(c, t) && C.Word(response) && |response| + 11 <= MAX_COMMAND_LINE
    requires NUL !in authzid && NUL !in user && NUL !in password
    requires c.decode(response) == Some(authzid + ([NUL] + (user + ([NUL] + password))))
    ensures var line := C.AUTH + ([SPACE] + (PLAIN + ([SPACE] + response)));
      Converse(c, t, Sent(line) + rest)
      == Converse(c, LoggedIn(c, t, Spoken(C.Auth(PLAIN, Some(response))), user, password), rest)
  {
    hide Converse, C.CommandOf, AfterAuth;
    var line := C.AUTH + ([SPACE] + (PLAIN + ([SPACE] + response)));
    AuthWords();
    C.AuthIsRead(C.AUTH, PLAIN, Some(response));
    PlainDecides(c, t, Some(response), rest, response, rest, authzid, user, password, None);
    assert LF !in line;
    ConverseOn(c, t, line, C.Auth(PLAIN, Some(response)), rest,
               LoggedIn(c, t, Spoken(C.Auth(PLAIN, Some(response))), user, password), rest);
  }

  lemma AuthWords()
    ensures C.Word(C.AUTH) && C.ToUpper(C.AUTH) == C.AUTH && C.Word(PLAIN) && C.ToUpper(PLAIN) == PLAIN
    ensures C.Word(LOGIN) && C.ToUpper(LOGIN) == LOGIN && |C.AUTH| == 4 && |PLAIN| == 5 && |LOGIN| == 5
    ensures LF !in C.AUTH && LF !in PLAIN && LF !in LOGIN
  {
    assert C.AUTH == [65, 85, 84, 72] && PLAIN == [80, 76, 65, 73, 78] && LOGIN == [76, 79, 71, 73, 78];
  }

  lemma {:induction false} DataLine()
    ensures var line := C.Render(C.Data);
      LF !in line && |line| <= MAX_COMMAND_LINE && C.CommandOf(line) == Ok(C.Data)
  {
    hide C.CommandOf;
    C.VerbsAreRead();
  }
}
