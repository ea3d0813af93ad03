// The header rewrite for a relay's identity (src/message/rewrite.rs). Notes
// for the activity log and the content rotation are not part of it.
module Rewrites {
  import opened Bytes
  import opened Wrappers
  import opened Headers
  import opened Mailboxes
  import opened Messages

  datatype HeaderRule = HeaderRule(name: Text, value: Text)

  datatype Config = Config(
    rewriteFrom: bool, preserveDisplayName: bool,
    injectReplyTo: bool, replyToFallback: Option<Text>,
    stripDkim: bool, stripArc: bool, stripBcc: bool, stripReceived: bool, removeHeaders: seq<Text>,
    ensureDate: bool, ensureMessageId: bool, xMailer: Option<Text>,
    addRelayHeaders: bool, extraHeaders: seq<HeaderRule>, addReceived: bool)

  datatype Relay = Relay(id: Text, fromAddress: Text, fromSameAsUsername: bool, alignEnvelope: bool,
          username: Option<Text>)

  // date is the clock, rendered as a Date header value.
  datatype Context = Context(
    cfg: Config, relay: Relay, hostname: Text, queueId: Text, clientIp: Option<Text>, clientHelo: Text,
    originalSender: Text, date: Text)

  datatype Rewritten = Rewritten(raw: Text, envelopeFrom: Text, fromHeader: Text, replyTo: Option<Text>,
          messageId: Option<Text>)

  const SIGNATURE_HEADERS: seq<Text> :=
    [Ascii("DKIM-Signature"), Ascii("DomainKey-Signature"), Ascii("X-Google-DKIM-Signature")]

  const ARC_HEADERS: seq<Text> := [Ascii("Authentication-Results"), Ascii("X-Original-Authentication-Results")]

  // -- values --------------------------------------------------------------------

  // src/config.rs, effective_from_address
  function Identity(relay: Relay): Text {
    if relay.fromSameAsUsername && relay.username.Some? && LooksLikeEmail(Trim(relay.username.value))
    then Trim(relay.username.value)
    else Trim(relay.fromAddress)
  }

  function NonBlank(value: Option<Text>): Option<Text> {
    if value.Some? && Trim(value.value) != [] then value else None
  }

  function OriginalFrom(headers: seq<Header>): Option<Mailbox> {
    match ValueOf(headers, Ascii("From"))
    case None => None
    case Some(v) => MailboxSpec(v)
  }

  function Bracketed(address: Text): Text {
    [LT] + address + [GT]
  }

  // The Reply-To to inject, when the message has none of its own.
  function ReplyToInjected(headers: seq<Header>, cfg: Config): Option<Text> {
    if NonBlank(ValueOf(headers, Ascii("Reply-To"))).Some? || !cfg.injectReplyTo then None
    else
      var from := OriginalFrom(headers);
      if from.Some? && LooksLikeEmail(from.value.address) then
        Some(MailboxText(from.value.displayName, from.value.address))
      else match cfg.replyToFallback
        case None => None
        case Some(address) => Some(Bracketed(address))
  }

  predicate RewritesFrom(ctx: Context) {
    Identity(ctx.relay) != [] && ctx.cfg.rewriteFrom
  }

  function FromText(original: Option<Mailbox>, ctx: Context): Text {
    var name := if ctx.cfg.preserveDisplayName && original.Some? then original.value.displayName else [];
    MailboxText(name, Identity(ctx.relay))
  }

  // True when MAIL FROM follows the rewritten From.
  predicate Aligns(ctx: Context) {
    RewritesFrom(ctx) && (ctx.relay.alignEnvelope || ctx.relay.fromSameAsUsername)
  }

  function EnvelopeFrom(original: Option<Mailbox>, ctx: Context): Text {
    var identity := Identity(ctx.relay);
    if Aligns(ctx) then identity
    else if ctx.originalSender != [] && LooksLikeEmail(ctx.originalSender) then ctx.originalSender
    else if original.Some? then original.value.address
    else if identity != [] then identity
    else Ascii("noreply@") + ctx.hostname
  }

  function GeneratedMessageId(original: Option<Mailbox>, ctx: Context): Text {
    var identity := Identity(ctx.relay);
    var domain :=
      if identity != [] then AddressDomain(identity)
      else if original.Some? then AddressDomain(original.value.address)
      else if LooksLikeEmail(ctx.originalSender) then AddressDomain(ctx.originalSender)
      else ctx.hostname;
    [LT] + ctx.queueId + [AT] + domain + [GT]
  }

  // The Message-ID a message has, or is given.
  function MessageIdOf(headers: seq<Header>, original: Option<Mailbox>, ctx: Context): Option<Text> {
    var own := NonBlank(ValueOf(headers, Ascii("Message-ID")));
    if own.None? && ctx.cfg.ensureMessageId then Some(GeneratedMessageId(original, ctx)) else own
  }

  function ReceivedFrom(ctx: Context): Text {
    Ascii("from ") + (if ctx.clientHelo == [] then Ascii("unknown") else ctx.clientHelo)
      + match ctx.clientIp
        case Some(ip) => Ascii(" ([") + ip + Ascii("])")
        case None => Ascii(" (local)")
  }

  function ReceivedBy(ctx: Context): Text {
    Ascii("by ") + ctx.hostname + Ascii(" (smtp-relay) with ESMTPA id ") + ctx.queueId
  }

  function ReceivedFor(ctx: Context): Text {
    Ascii("for relay ") + ctx.relay.id + Ascii("; ") + ctx.date
  }

  function ReceivedText(ctx: Context): Text {
    ReceivedFrom(ctx) + CRLF + [TAB] + ReceivedBy(ctx) + CRLF + [TAB] + ReceivedFor(ctx)
  }

  // -- the stages, on header lists ---------------------------------------------------

  function RemoveEach(headers: seq<Header>, names: seq<Text>): seq<Header>
    decreases |names|
  {
    if names == [] then headers else RemoveEach(Without(headers, ToLower(names[0])), names[1..])
  }

  function SetEach(headers: seq<Header>, rules: seq<HeaderRule>): seq<Header>
    decreases |rules|
  {
    if rules == [] then headers
    else
      SetEach(if Trim(rules[0].name) == [] then headers else SetIn(headers, rules[0].name, rules[0].value), rules[1..])
  }

  function SetIfHas(headers: seq<Header>, name: Text, value: Text): seq<Header> {
    if FirstNamed(headers, ToLower(name)).Some? then SetIn(headers, name, value) else headers
  }

  function SetOptional(headers: seq<Header>, name: Text, value: Option<Text>): seq<Header> {
    if value.Some? then SetIn(headers, name, value.value) else headers
  }

  function FromStage(headers: seq<Header>, original: Option<Mailbox>, ctx: Context): seq<Header> {
    if RewritesFrom(ctx) then SetIn(headers, Ascii("From"), FromText(original, ctx)) else headers
  }

  function IdentityStage(headers: seq<Header>, ctx: Context): seq<Header> {
    if !RewritesFrom(ctx) then headers
    else
      var identity := Identity(ctx.relay);
      var h := SetIfHas(headers, Ascii("Sender"), Bracketed(identity));
      var h := SetIfHas(h, Ascii("Return-Path"), Bracketed(identity));
      SetIfHas(h, Ascii("X-Sender"), identity)
  }

  function StripStage(headers: seq<Header>, cfg: Config): seq<Header> {
    var h := if cfg.stripDkim then RemoveEach(headers, SIGNATURE_HEADERS) else headers;
    var h := if cfg.stripArc then RemoveEach(WithoutPrefix(h, ToLower(Ascii("arc-"))), ARC_HEADERS) else h;
    var h := if cfg.stripBcc then Without(h, ToLower(Ascii("Bcc"))) else h;
    var h := if cfg.stripReceived then Without(h, ToLower(Ascii("Received"))) else h;
    RemoveEach(h, cfg.removeHeaders)
  }

  function RequiredStage(headers: seq<Header>, original: Option<Mailbox>, ctx: Context): seq<Header> {
    var h := if ctx.cfg.ensureDate && FirstNamed(headers, ToLower(Ascii("Date"))).None?
             then SetIn(headers, Ascii("Date"), ctx.date) else headers;
    var h := if ctx.cfg.ensureMessageId && NonBlank(ValueOf(h, Ascii("Message-ID"))).None?
             then SetIn(h, Ascii("Message-ID"), GeneratedMessageId(original, ctx)) else h;
    SetOptional(h, Ascii("X-Mailer"), ctx.cfg.xMailer)
  }

  function TraceStage(headers: seq<Header>, original: Option<Mailbox>, ctx: Context): seq<Header> {
    var add := ctx.cfg.addRelayHeaders;
    var h := if add then headers + [Written(Ascii("X-Relay-Node"), ctx.relay.id)] else headers;
    var h := if add then h + [Written(Ascii("X-Relay-Queue-Id"), ctx.queueId)] else h;
    var h := if add && original.Some?
             then h + [Written(Ascii("X-Original-From"),
                               MailboxText(original.value.displayName, original.value.address))]
             else h;
    var h := if add && ctx.originalSender != []
             then h + [Written(Ascii("X-Original-Envelope-From"), ctx.originalSender)] else h;
    var h := SetEach(h, ctx.cfg.extraHeaders);
    if ctx.cfg.addReceived then [Written(Ascii("Received"), ReceivedText(ctx))] + h else h
  }

  function LateStages(headers: seq<Header>, original: Option<Mailbox>, ctx: Context): seq<Header> {
    TraceStage(RequiredStage(StripStage(IdentityStage(headers, ctx), ctx.cfg), original, ctx), original, ctx)
  }

  // The headers as they are when the required ones are looked for.
  function Identified(headers: seq<Header>, ctx: Context): seq<Header> {
    var h := SetOptional(headers, Ascii("Reply-To"), ReplyToInjected(headers, ctx.cfg));
    StripStage(IdentityStage(FromStage(h, OriginalFrom(headers), ctx), ctx), ctx.cfg)
  }

  function RewriteSpec(headers: seq<Header>, ctx: Context): seq<Header> {
    var original := OriginalFrom(headers);
    var h := SetOptional(headers, Ascii("Reply-To"), ReplyToInjected(headers, ctx.cfg));
    LateStages(FromStage(h, original, ctx), original, ctx)
  }

  // -- the rewrite ----------------------------------------------------------------------

  method RemoveNames(message: Message, names: seq<Text>)
    modifies message`headers
    ensures message.headers == RemoveEach(old(message.headers), names)
  {
    var i := 0;
    assert names[0..] == names;
    while i < |names|
      invariant 0 <= i <= |names|
      invariant RemoveEach(message.headers, names[i..]) == RemoveEach(old(message.headers), names)
    {
      assert names[i..][1..] == names[i + 1..];
      message.RemoveAll(names[i]);
      i := i + 1;
    }
  }

  method ApplyRules(message: Message, rules: seq<HeaderRule>)
    modifies message`headers
    ensures message.headers == SetEach(old(message.headers), rules)
  {
    var i := 0;
    assert rules[0..] == rules;
    while i < |rules|
      invariant 0 <= i <= |rules|
      invariant SetEach(message.headers, rules[i..]) == SetEach(old(message.headers), rules)
    {
      assert rules[i..][1..] == rules[i + 1..];
      if Trim(rules[i].name) != [] {
        message.Set(rules[i].name, rules[i].value);
      }
      i := i + 1;
    }
  }

  method SetPresent(message: Message, name: Text, value: Text)
    modifies message`headers
    ensures message.headers == SetIfHas(old(message.headers), name, value)
  {
    if message.Has(name) {
      message.Set(name, value);
    }
  }

  // Sections 1 and 2: Reply-To, while the original From is still there, then From
  // and the headers that follow it.
  method SetIdentity(message: Message, ctx: Context) returns (fromHeader: Text, replyTo: Option<Text>)
    modifies message`headers
    ensures var before := old(message.headers);
      var original := OriginalFrom(before);
      var h := SetOptional(before, Ascii("Reply-To"), ReplyToInjected(before, ctx.cfg));
      && message.headers == IdentityStage(FromStage(h, original, ctx), ctx)
      && fromHeader == (if RewritesFrom(ctx) then FromText(original, ctx)
                        else match ValueOf(before, Ascii("From")) case Some(value) => value case None => [])
      && replyTo == (if ReplyToInjected(before, ctx.cfg).Some? then ReplyToInjected(before, ctx.cfg)
                     else NonBlank(ValueOf(before, Ascii("Reply-To"))))
  {
    hide Identity, ValueOf, SetIn, FromText, OriginalFrom, SetIfHas, ReplyToInjected;
    var originalFromRaw := message.Value(Ascii("From"));
    var original := OriginalFrom(message.headers);
    replyTo := NonBlank(message.Value(Ascii("Reply-To")));
    var injected := ReplyToInjected(message.headers, ctx.cfg);
    if injected.Some? {
      message.Set(Ascii("Reply-To"), injected.value);
      replyTo := injected;
    }
    fromHeader := if originalFromRaw.Some? then originalFromRaw.value else [];
    if RewritesFrom(ctx) {
      var identity := Identity(ctx.relay);
      fromHeader := FromText(original, ctx);
      message.Set(Ascii("From"), fromHeader);
      SetPresent(message, Ascii("Sender"), Bracketed(identity));
      SetPresent(message, Ascii("Return-Path"), Bracketed(identity));
      SetPresent(message, Ascii("X-Sender"), identity);
    }
  }

  // Sections 3 and 4: inherited signatures, privacy and hygiene.
  method StripHeaders(message: Message, cfg: Config)
    modifies message`headers
    ensures message.headers == StripStage(old(message.headers), cfg)
  {
    hide Without, WithoutPrefix, RemoveEach;
    if cfg.stripDkim {
      RemoveNames(message, SIGNATURE_HEADERS);
    }
    if cfg.stripArc {
      message.RemovePrefix(Ascii("arc-"));
      RemoveNames(message, ARC_HEADERS);
    }
    if cfg.stripBcc {
      message.RemoveAll(Ascii("Bcc"));
    }
    if cfg.stripReceived {
      message.RemoveAll(Ascii("Received"));
    }
    RemoveNames(message, cfg.removeHeaders);
  }

  lemma OtherValueStays(headers: seq<Header>, name: Text, value: Text, other: Text)
    requires ToLower(name) != ToLower(other)
    ensures ValueOf(SetIn(headers, name, value), other) == ValueOf(headers, other)
  {
    hide ToLower, SetIn, Keep, Unfolded;
    var needle := ToLower(other);
    var wanted := (n: Text) => n == needle;
    KeepSet(headers, name, value, wanted);
    FirstOfKept(headers, needle, wanted);
    FirstOfKept(SetIn(headers, name, value), needle, wanted);
  }

  lemma DateIsNoId(headers: seq<Header>, date: Text)
    ensures ValueOf(SetIn(headers, Ascii("Date"), date), Ascii("Message-ID")) == ValueOf(headers, Ascii("Message-ID"))
  {
    hide SetIn, ValueOf;
    assert |ToLower(Ascii("Date"))| != |ToLower(Ascii("Message-ID"))|;
    OtherValueStays(headers, Ascii("Date"), date, Ascii("Message-ID"));
  }

  // Section 5: headers every message must have.
  method AddRequired(message: Message, original: Option<Mailbox>, ctx: Context) returns (messageId: Option<Text>)
    modifies message`headers
    ensures message.headers == RequiredStage(old(message.headers), original, ctx)
    ensures messageId == MessageIdOf(old(message.headers), original, ctx)
  {
    hide SetIn, GeneratedMessageId, ValueOf, FirstNamed;
    DateIsNoId(message.headers, ctx.date);
    if ctx.cfg.ensureDate && !message.Has(Ascii("Date")) {
      message.Set(Ascii("Date"), ctx.date);
    }
    messageId := NonBlank(message.Value(Ascii("Message-ID")));
    if ctx.cfg.ensureMessageId && messageId.None? {
      var generated := GeneratedMessageId(original, ctx);
      message.Set(Ascii("Message-ID"), generated);
      messageId := Some(generated);
    }
    if ctx.cfg.xMailer.Some? {
      message.Set(Ascii("X-Mailer"), ctx.cfg.xMailer.value);
    }
  }

  // Sections 6 and 7: diagnostics, configured headers, and the trace on top.
  method AddTrace(message: Message, original: Option<Mailbox>, ctx: Context)
    modifies message`headers
    ensures message.headers == TraceStage(old(message.headers), original, ctx)
  {
    hide SetEach, ReceivedText, MailboxText, Written;
    if ctx.cfg.addRelayHeaders {
      message.Append(Ascii("X-Relay-Node"), ctx.relay.id);
      message.Append(Ascii("X-Relay-Queue-Id"), ctx.queueId);
      if original.Some? {
        message.Append(Ascii("X-Original-From"), MailboxText(original.value.displayName, original.value.address));
      }
      if ctx.originalSender != [] {
        message.Append(Ascii("X-Original-Envelope-From"), ctx.originalSender);
      }
    }
    ApplyRules(message, ctx.cfg.extraHeaders);
    if ctx.cfg.addReceived {
      message.Prepend(Ascii("Received"), ReceivedText(ctx));
    }
  }

  method Rewrite(raw: Text, ctx: Context) returns (r: Result<Rewritten, MessageError>)
    ensures r.Err? <==> raw == []
    ensures r.Ok? ==>
      var before := ParseSpec(raw);
      var original := OriginalFrom(before.headers);
      && r.value.raw == PrintSpec(before.(headers := RewriteSpec(before.headers, ctx)))
      && r.value.envelopeFrom == EnvelopeFrom(original, ctx)
      && r.value.fromHeader == (if RewritesFrom(ctx) then FromText(original, ctx)
                                else match ValueOf(before.headers, Ascii("From")) case Some(v) => v case None => [])
      && r.value.replyTo == (if ReplyToInjected(before.headers, ctx.cfg).Some? then
                               ReplyToInjected(before.headers, ctx.cfg)
                             else NonBlank(ValueOf(before.headers, Ascii("Reply-To"))))
      && r.value.messageId == MessageIdOf(Identified(before.headers, ctx), original, ctx)
  {
    hide MessageIdOf, ValueOf, NonBlank, OriginalFrom, EnvelopeFrom, FromText, IdentityStage, FromStage, StripStage,
         RequiredStage, TraceStage, SetOptional, ReplyToInjected, RewritesFrom, ParseSpec, PrintSpec;
    var parsed := Message.Parse(raw);
    if parsed.Err? {
      return Err(parsed.error);
    }
    var message := parsed.value;
    var original := OriginalFrom(message.headers);
    var fromHeader, replyTo := SetIdentity(message, ctx);
    var envelopeFrom := EnvelopeFrom(original, ctx);
    StripHeaders(message, ctx.cfg);
    var messageId := AddRequired(message, original, ctx);
    AddTrace(message, original, ctx);
    var out := message.ToBytes();
    return Ok(Rewritten(out, envelopeFrom, fromHeader, replyTo, messageId));
  }
}
