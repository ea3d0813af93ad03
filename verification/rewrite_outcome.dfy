// What the rewrite leaves behind: stripped headers are gone, required ones are
// there, replies still reach the original sender (src/message/rewrite.rs).
module RewriteOutcome {
  import opened Bytes
  import opened Wrappers
  import opened Headers
  import opened Mailboxes
  import opened Messages
  import opened Rewrites
  import opened RewriteLaws

  // -- stripped headers ------------------------------------------------------------

  lemma {:induction false} WithoutIsAbsent(headers: seq<Header>, needle: Text, name: Text)
    requires needle == name || Absent(headers, name)
    ensures Absent(Without(headers, needle), name)
  {
    if headers != [] {
      assert Absent(headers, name) ==> Absent(headers[1..], name);
      WithoutIsAbsent(headers[1..], needle, name);
    }
  }

  lemma {:induction false} WithoutPrefixIsAbsent(headers: seq<Header>, prefix: Text, name: Text)
    requires prefix <= name || Absent(headers, name)
    ensures Absent(WithoutPrefix(headers, prefix), name)
  {
    if headers != [] {
      assert Absent(headers, name) ==> Absent(headers[1..], name);
      WithoutPrefixIsAbsent(headers[1..], prefix, name);
    }
  }

  lemma {:induction false} RemoveEachIsAbsent(headers: seq<Header>, names: seq<Text>, name: Text)
    requires Names(names, name) || Absent(headers, name)
    ensures Absent(RemoveEach(headers, names), name)
    decreases |names|
  {
    hide Absent, Without, ToLower;
    if names != [] {
      if ToLower(names[0]) == name || Absent(headers, name) {
        WithoutIsAbsent(headers, ToLower(names[0]), name);
      } else {
        var k :| 0 <= k < |names| && ToLower(names[k]) == name;
        assert names[1..][k - 1] == names[k];
      }
      RemoveEachIsAbsent(Without(headers, ToLower(names[0])), names[1..], name);
    }
  }

  lemma StripStageIsAbsent(headers: seq<Header>, cfg: Config, name: Text)
    requires Strips(cfg, name)
    ensures Absent(StripStage(headers, cfg), name)
  {
    hide Absent, Without, WithoutPrefix, RemoveEach, ToLower, Ascii, Names;
    var h := headers;
    if cfg.stripDkim {
      if Names(SIGNATURE_HEADERS, name) {
        RemoveEachIsAbsent(h, SIGNATURE_HEADERS, name);
      }
      h := RemoveEach(h, SIGNATURE_HEADERS);
    }
    if cfg.stripArc {
      var prefix := ToLower(Ascii("arc-"));
      if prefix <= name || Absent(h, name) {
        WithoutPrefixIsAbsent(h, prefix, name);
      }
      h := WithoutPrefix(h, prefix);
      if Names(ARC_HEADERS, name) || Absent(h, name) {
        RemoveEachIsAbsent(h, ARC_HEADERS, name);
      }
      h := RemoveEach(h, ARC_HEADERS);
    }
    if cfg.stripBcc {
      if name == ToLower(Ascii("Bcc")) || Absent(h, name) {
        WithoutIsAbsent(h, ToLower(Ascii("Bcc")), name);
      }
      h := Without(h, ToLower(Ascii("Bcc")));
    }
    if cfg.stripReceived {
      if name == ToLower(Ascii("Received")) || Absent(h, name) {
        WithoutIsAbsent(h, ToLower(Ascii("Received")), name);
      }
      h := Without(h, ToLower(Ascii("Received")));
    }
    RemoveEachIsAbsent(h, cfg.removeHeaders, name);
  }

  lemma {:induction false} AbsentIsNoneKept(headers: seq<Header>, name: Text, wanted: Text -> bool)
    requires forall n :: wanted(n) <==> n == name
    ensures Absent(headers, name) <==> Keep(headers, wanted) == []
  {
    if headers != [] {
      AbsentIsNoneKept(headers[1..], name, wanted);
      assert Absent(headers, name) <==> headers[0].Lower() != name && Absent(headers[1..], name);
    }
  }

  // The same configuration behind the strip stage: with nothing more to strip, and the
  // identity headers written already.
  function Unstripping(ctx: Context): Context {
    ctx.(cfg := ctx.cfg.(rewriteFrom := false, stripDkim := false, stripArc := false, stripBcc := false,
      stripReceived := false, removeHeaders := []))
  }

  // A header the configuration strips, and does not write afterwards, is nowhere in what
  // goes out, however often the message had it and whether or not the relay's identity was
  // written into it first.
  lemma StrippedIsGone(headers: seq<Header>, ctx: Context, name: Text, wanted: Text -> bool)
    requires Strips(ctx.cfg, name) && (forall n :: wanted(n) <==> n == name)
    requires SparesLate(Unstripping(ctx), wanted)
    ensures Absent(RewriteSpec(headers, ctx), name)
  {
    hide Strips, SparesLate, Absent, Keep, StripStage, IdentityStage, FromStage, GeneratedMessageId, SetIn, SetEach,
         FirstNamed, ValueOf, MailboxText, Written, ReceivedText, Ascii, ToLower, OriginalFrom, ReplyToInjected;
    var original := OriginalFrom(headers);
    var answered := SetOptional(headers, Ascii("Reply-To"), ReplyToInjected(headers, ctx.cfg));
    var h := IdentityStage(FromStage(answered, original, ctx), ctx);
    var stripped := StripStage(h, ctx.cfg);
    StripStageIsAbsent(h, ctx.cfg, name);
    AbsentIsNoneKept(stripped, name, wanted);
    SameLater(stripped, original, ctx);
    var required := RequiredStage(stripped, original, ctx);
    KeepRequiredStage(stripped, original, Unstripping(ctx), wanted);
    SameLater(required, original, ctx);
    KeepTraceStage(required, original, Unstripping(ctx), wanted);
    AbsentIsNoneKept(TraceStage(required, original, ctx), name, wanted);
  }

  lemma SameLater(headers: seq<Header>, original: Option<Mailbox>, ctx: Context)
    ensures RequiredStage(headers, original, Unstripping(ctx)) == RequiredStage(headers, original, ctx)
    ensures TraceStage(headers, original, Unstripping(ctx)) == TraceStage(headers, original, ctx)
  {
    hide SetIn, SetEach, FirstNamed, ValueOf, MailboxText, Written, Ascii, ToLower, Identity, LooksLikeEmail,
         AddressDomain;
  }

  // -- required headers ---------------------------------------------------------------

  lemma {:induction false} FirstNamedIsPresent(headers: seq<Header>, name: Text)
    ensures FirstNamed(headers, name).None? <==> Absent(headers, name)
  {
    if headers != [] {
      FirstNamedIsPresent(headers[1..], name);
      assert Absent(headers, name) <==> headers[0].Lower() != name && Absent(headers[1..], name);
    }
  }

  lemma {:induction false} WithoutKeepsOthers(headers: seq<Header>, needle: Text, name: Text)
    requires needle != name && !Absent(headers, name)
    ensures !Absent(Without(headers, needle), name)
  {
    if headers[0].Lower() == name {
      assert Without(headers, needle)[0] == headers[0];
    } else {
      WithoutKeepsOthers(headers[1..], needle, name);
      var k :| 0 <= k < |Without(headers[1..], needle)| && Without(headers[1..], needle)[k].Lower() == name;
      var kept := if headers[0].Lower() != needle then [headers[0]] else [];
      assert Without(headers, needle)[|kept| + k] == Without(headers[1..], needle)[k];
    }
  }

  lemma SetInIsPresent(headers: seq<Header>, name: Text, value: Text)
    ensures !Absent(SetIn(headers, name, value), ToLower(name))
  {
    hide ToLower, Without;
    var i := Position(headers, ToLower(name));
    assert SetIn(headers, name, value)[i] == Written(name, value);
    assert Written(name, value).Lower() == ToLower(name);
  }

  lemma JoinKeepsPresent(front: seq<Header>, back: seq<Header>, name: Text)
    requires !Absent(front, name) || !Absent(back, name)
    ensures !Absent(front + back, name)
  {
    if !Absent(front, name) {
      var k :| 0 <= k < |front| && front[k].Lower() == name;
      assert (front + back)[k] == front[k];
    } else {
      var k :| 0 <= k < |back| && back[k].Lower() == name;
      assert (front + back)[|front| + k] == back[k];
    }
  }

  // A header that is there stays there, whatever is set.
  lemma SetInKeepsPresent(headers: seq<Header>, name: Text, value: Text, other: Text)
    requires !Absent(headers, other) && ToLower(name) != other
    ensures !Absent(SetIn(headers, name, value), other)
  {
    hide ToLower, Without;
    var needle := ToLower(name);
    var i := Position(headers, needle);
    if i == |headers| {
      JoinKeepsPresent(headers, [Written(name, value)], other);
    } else {
      var k :| 0 <= k < |headers| && headers[k].Lower() == other;
      var front, back := headers[..i] + [Written(name, value)], headers[i + 1..];
      if k < i {
        assert front[k] == headers[k];
      } else {
        assert back[k - i - 1] == headers[k];
        WithoutKeepsOthers(back, needle, other);
      }
      JoinKeepsPresent(front, Without(back, needle), other);
    }
  }

  lemma {:induction false} SetEachKeepsPresent(headers: seq<Header>, rules: seq<HeaderRule>, name: Text)
    requires !Absent(headers, name)
    ensures !Absent(SetEach(headers, rules), name)
    decreases |rules|
  {
    hide Absent, SetIn, Trim;
    if rules != [] {
      SetLeavesPresent(headers, rules[0].name, rules[0].value, name);
      SetEachKeepsPresent(if Trim(rules[0].name) == [] then headers else SetIn(headers, rules[0].name, rules[0].value),
                          rules[1..], name);
    }
  }

  lemma AddedKeepsPresent(headers: seq<Header>, h: Header, name: Text)
    requires !Absent(headers, name)
    ensures !Absent(headers + [h], name) && !Absent([h] + headers, name)
  {
    var k :| 0 <= k < |headers| && headers[k].Lower() == name;
    assert (headers + [h])[k] == headers[k] && ([h] + headers)[k + 1] == headers[k];
  }

  lemma TraceKeepsPresent(headers: seq<Header>, original: Option<Mailbox>, ctx: Context, name: Text)
    requires !Absent(headers, name)
    ensures !Absent(TraceStage(headers, original, ctx), name)
  {
    hide Absent, SetEach, ReceivedText, MailboxText, Written, ToLower, Ascii;
    var h := headers;
    if ctx.cfg.addRelayHeaders {
      AddedKeepsPresent(h, Written(Ascii("X-Relay-Node"), ctx.relay.id), name);
      h := h + [Written(Ascii("X-Relay-Node"), ctx.relay.id)];
      AddedKeepsPresent(h, Written(Ascii("X-Relay-Queue-Id"), ctx.queueId), name);
      h := h + [Written(Ascii("X-Relay-Queue-Id"), ctx.queueId)];
      if original.Some? {
        var from := MailboxText(original.value.displayName, original.value.address);
        AddedKeepsPresent(h, Written(Ascii("X-Original-From"), from), name);
        h := h + [Written(Ascii("X-Original-From"), from)];
      }
      if ctx.originalSender != [] {
        AddedKeepsPresent(h, Written(Ascii("X-Original-Envelope-From"), ctx.originalSender), name);
        h := h + [Written(Ascii("X-Original-Envelope-From"), ctx.originalSender)];
      }
    }
    SetEachKeepsPresent(h, ctx.cfg.extraHeaders, name);
    h := SetEach(h, ctx.cfg.extraHeaders);
    AddedKeepsPresent(h, Written(Ascii("Received"), ReceivedText(ctx)), name);
  }

  lemma {:induction false} RequiredIsPresent(headers: seq<Header>, original: Option<Mailbox>, ctx: Context)
    ensures var h := RequiredStage(headers, original, ctx);
      && (ctx.cfg.ensureDate ==> !Absent(h, ToLower(Ascii("Date"))))
      && (ctx.cfg.ensureMessageId ==> !Absent(h, ToLower(Ascii("Message-ID"))))
  {
    hide Absent, SetIn, FirstNamed, GeneratedMessageId, ToLower, Ascii, Unfolded;
    var date, id := ToLower(Ascii("Date")), ToLower(Ascii("Message-ID"));
    var h := headers;
    FirstNamedIsPresent(h, date);
    SetLeavesPresent(h, Ascii("Date"), ctx.date, date);
    h := if ctx.cfg.ensureDate && FirstNamed(h, date).None? then SetIn(h, Ascii("Date"), ctx.date) else h;
    var value := GeneratedMessageId(original, ctx);
    FirstNamedIsPresent(h, id);
    SetLeavesPresent(h, Ascii("Message-ID"), value, date);
    SetLeavesPresent(h, Ascii("Message-ID"), value, id);
    h := if ctx.cfg.ensureMessageId && NonBlank(ValueOf(h, Ascii("Message-ID"))).None?
         then SetIn(h, Ascii("Message-ID"), value) else h;
    if ctx.cfg.xMailer.Some? {
      SetLeavesPresent(h, Ascii("X-Mailer"), ctx.cfg.xMailer.value, date);
      SetLeavesPresent(h, Ascii("X-Mailer"), ctx.cfg.xMailer.value, id);
    }
  }

  lemma SetLeavesPresent(headers: seq<Header>, name: Text, value: Text, other: Text)
    ensures !Absent(headers, other) || ToLower(name) == other ==> !Absent(SetIn(headers, name, value), other)
  {
    hide Absent, SetIn, ToLower;
    if ToLower(name) == other {
      SetInIsPresent(headers, name, value);
    } else if !Absent(headers, other) {
      SetInKeepsPresent(headers, name, value, other);
    }
  }

  // With the configuration asking for them, what goes out has a Date and a Message-ID
  // whatever else is set or stripped, and its first header is the new Received.
  lemma {:induction false} RequiredGoOut(headers: seq<Header>, ctx: Context)
    ensures var out := RewriteSpec(headers, ctx);
      && (ctx.cfg.ensureDate ==> FirstNamed(out, ToLower(Ascii("Date"))).Some?)
      && (ctx.cfg.ensureMessageId ==> FirstNamed(out, ToLower(Ascii("Message-ID"))).Some?)
      && (ctx.cfg.addReceived ==> out != [] && out[0] == Written(Ascii("Received"), ReceivedText(ctx)))
  {
    hide Absent, StripStage, IdentityStage, FromStage, RequiredStage, FirstNamed, ToLower, Ascii, SetEach, MailboxText,
         Written, ReceivedText, OriginalFrom, ReplyToInjected, SetIn;
    var original := OriginalFrom(headers);
    var answered := SetOptional(headers, Ascii("Reply-To"), ReplyToInjected(headers, ctx.cfg));
    var h := IdentityStage(FromStage(answered, original, ctx), ctx);
    var stripped := StripStage(h, ctx.cfg);
    var required := RequiredStage(stripped, original, ctx);
    var out := RewriteSpec(headers, ctx);
    var date, id := ToLower(Ascii("Date")), ToLower(Ascii("Message-ID"));
    RequiredIsPresent(stripped, original, ctx);
    FirstNamedIsPresent(out, date);
    FirstNamedIsPresent(out, id);
    if ctx.cfg.ensureDate {
      TraceKeepsPresent(required, original, ctx, date);
    }
    if ctx.cfg.ensureMessageId {
      TraceKeepsPresent(required, original, ctx, id);
    }
  }

  // -- replies -------------------------------------------------------------------------------

  // The first field of the name has a value that is more than space.
  ghost predicate Carries(headers: seq<Header>, name: Text) {
    ValueOf(headers, name).Some? && Trim(ValueOf(headers, name).value) != []
  }

  lemma BlankIsMissing(headers: seq<Header>, name: Text)
    ensures NonBlank(ValueOf(headers, name)) == if Carries(headers, name) then ValueOf(headers, name) else None
    ensures NonBlank(ValueOf(headers, name)).Some? <==> Carries(headers, name)
  {
  }

  // A Reply-To the message came with is never replaced; one that is injected is the
  // only one, and is the sender's own mailbox where the message names one, otherwise the
  // configured fallback.
  lemma {:induction false} RepliesFindTheSender(headers: seq<Header>, ctx: Context, wanted: Text -> bool)
    requires (forall n :: wanted(n) <==> n == ToLower(Ascii("Reply-To"))) && SparesLate(ctx, wanted)
    ensures var from := OriginalFrom(headers);
      var own := Carries(headers, Ascii("Reply-To"));
      var out := Keep(RewriteSpec(headers, ctx), wanted);
      && (own || !ctx.cfg.injectReplyTo ==> out == Keep(headers, wanted))
      && (!own && ctx.cfg.injectReplyTo && from.Some? && LooksLikeEmail(from.value.address) ==>
        out == [Written(Ascii("Reply-To"), MailboxText(from.value.displayName, from.value.address))])
      && (!own && ctx.cfg.injectReplyTo && !(from.Some? && LooksLikeEmail(from.value.address)) ==>
        out == match ctx.cfg.replyToFallback
               case Some(address) => [Written(Ascii("Reply-To"), Bracketed(address))]
               case None => Keep(headers, wanted))
  {
    hide Keep, SetIn, LateStages, SparesLate, FromText, ValueOf, NonBlank, Carries, OriginalFrom, LooksLikeEmail,
         MailboxText, Written;
    BlankIsMissing(headers, Ascii("Reply-To"));
    var original := OriginalFrom(headers);
    var injected := ReplyToInjected(headers, ctx.cfg);
    var h := SetOptional(headers, Ascii("Reply-To"), injected);
    if injected.Some? {
      SetLeavesOne(headers, Ascii("Reply-To"), injected.value, wanted);
    }
    assert |Ascii("From")| != |Ascii("Reply-To")|;
    if RewritesFrom(ctx) {
      KeepSet(h, Ascii("From"), FromText(original, ctx), wanted);
    }
    KeepLate(FromStage(h, original, ctx), original, ctx, wanted);
  }

  // -- MAIL FROM ---------------------------------------------------------------------------

  // The relay sends as its login where it is set to and that is an address, and as its
  // configured address otherwise.
  lemma IdentityIs(relay: Relay)
    ensures relay.fromSameAsUsername && relay.username.Some? && LooksLikeEmail(relay.username.value) ==>
      Identity(relay) == Trim(relay.username.value)
    ensures !relay.fromSameAsUsername || relay.username.None? || !LooksLikeEmail(relay.username.value) ==>
      Identity(relay) == Trim(relay.fromAddress)
  {
    if relay.username.Some? {
      TrimIsTight(relay.username.value);
      TrimTight(Trim(relay.username.value));
    }
  }

  // Bounces go to the client's own sender unless the relay is set to align: where alignment
  // or sending as the login is off, or From is not rewritten, or the relay has no identity,
  // a valid sender is MAIL FROM whatever the message says. Without a valid one, or a null
  // one, it is the address of From; then the relay's identity, then a name at this host.
  lemma {:induction false} BouncesGoTo(raw: Text, ctx: Context)
    ensures var relay, sender := ctx.relay, ctx.originalSender;
      var from := OriginalFrom(ParseSpec(raw).headers);
      var identity := Identity(relay);
      var mailFrom := EnvelopeFrom(from, ctx);
      if ctx.cfg.rewriteFrom && identity != [] && (relay.alignEnvelope || relay.fromSameAsUsername) then
        mailFrom == identity
      else
        && (LooksLikeEmail(sender) ==> mailFrom == sender)
        && (!LooksLikeEmail(sender) && from.Some? ==> mailFrom == from.value.address)
        && (!LooksLikeEmail(sender) && from.None? && identity != [] ==> mailFrom == identity)
        && (!LooksLikeEmail(sender) && from.None? && identity == [] ==>
              mailFrom == Ascii("noreply@") + ctx.hostname)
  {
    assert !LooksLikeEmail([]);
    hide LooksLikeEmail, OriginalFrom, ParseSpec, Identity, Ascii;
  }

  // -- what is written, and where nothing is -------------------------------------------------

  // Replacing a header leaves it where it stood, with those behind it in their order.
  lemma {:induction false} SetStaysInPlace(front: seq<Header>, h: Header, back: seq<Header>, name: Text, value: Text)
    requires Absent(front, ToLower(name)) && h.Lower() == ToLower(name)
    ensures SetIn(front + [h] + back, name, value)
      == front + [Written(name, value)] + Without(back, ToLower(name))
  {
    hide Without, ToLower;
    var headers, needle := front + [h] + back, ToLower(name);
    PositionIs(headers, needle, |front|);
    assert headers[..|front|] == front && headers[|front| + 1..] == back;
  }

  lemma {:induction false} PositionIs(headers: seq<Header>, needle: Text, i: nat)
    requires i < |headers| && headers[i].Lower() == needle
    requires forall j :: 0 <= j < i ==> headers[j].Lower() != needle
    ensures Position(headers, needle) == i
  {
    hide ToLower;
    var r := Position(headers, needle);
    assert r <= i;
  }

  lemma SetIfHasKeeps(headers: seq<Header>, name: Text, value: Text, wanted: Text -> bool)
    requires forall n :: wanted(n) <==> n == ToLower(name)
    ensures Keep(SetIfHas(headers, name, value), wanted)
      == if Keep(headers, wanted) == [] then [] else [Written(name, value)]
  {
    hide Keep, SetIn, FirstNamed, ToLower;
    FirstOfKept(headers, ToLower(name), wanted);
    SetLeavesOne(headers, name, value, wanted);
  }

  // The headers that follow the rewritten From.
  ghost function Companion(name: Text, identity: Text): Text
    requires name in {Ascii("Sender"), Ascii("Return-Path"), Ascii("X-Sender")}
  {
    if name == Ascii("X-Sender") then identity else Bracketed(identity)
  }

  lemma CompanionNames()
    ensures ToLower(Ascii("Sender")) != ToLower(Ascii("Return-Path"))
    ensures ToLower(Ascii("Sender")) != ToLower(Ascii("X-Sender"))
    ensures ToLower(Ascii("Return-Path")) != ToLower(Ascii("X-Sender"))
    ensures Ascii("Sender") != Ascii("X-Sender") && Ascii("Return-Path") != Ascii("X-Sender")
    ensures |ToLower(Ascii("From"))| == 4 && |ToLower(Ascii("Reply-To"))| == 8
    ensures |ToLower(Ascii("Sender"))| == 6 && |ToLower(Ascii("Return-Path"))| == 11
    ensures ToLower(Ascii("X-Sender")) != ToLower(Ascii("Reply-To"))
  {
    assert ToLower(Ascii("X-Sender"))[0] == 120;
    assert ToLower(Ascii("Reply-To"))[0] == 114;
  }

  lemma {:induction false} IdentityStageSets(headers: seq<Header>, ctx: Context, name: Text, wanted: Text -> bool)
    requires name in {Ascii("Sender"), Ascii("Return-Path"), Ascii("X-Sender")}
    requires RewritesFrom(ctx) && (forall n :: wanted(n) <==> n == ToLower(name))
    ensures Keep(IdentityStage(headers, ctx), wanted)
      == if Keep(headers, wanted) == [] then [] else [Written(name, Companion(name, Identity(ctx.relay)))]
  {
    CompanionNames();
    hide Keep, SetIfHas, Identity, ToLower, Ascii, Written;
    var identity := Identity(ctx.relay);
    var sender := SetIfHas(headers, Ascii("Sender"), Bracketed(identity));
    var path := SetIfHas(sender, Ascii("Return-Path"), Bracketed(identity));
    if name == Ascii("Sender") {
      SetIfHasKeeps(headers, name, Bracketed(identity), wanted);
    } else {
      KeepSetIfHas(headers, Ascii("Sender"), Bracketed(identity), wanted);
    }
    if name == Ascii("Return-Path") {
      SetIfHasKeeps(sender, name, Bracketed(identity), wanted);
    } else {
      KeepSetIfHas(sender, Ascii("Return-Path"), Bracketed(identity), wanted);
    }
    if name == Ascii("X-Sender") {
      SetIfHasKeeps(path, name, identity, wanted);
    } else {
      KeepSetIfHas(path, Ascii("X-Sender"), identity, wanted);
    }
  }

  // The same configuration with From left alone, as the later stages see it.
  function Unnamed(ctx: Context): Context {
    ctx.(cfg := ctx.cfg.(rewriteFrom := false))
  }

  // When From is rewritten, a Sender, Return-Path or X-Sender the message has becomes the
  // relay's identity, once, and one it has not is not added.
  lemma {:induction false} CompanionsFollow(headers: seq<Header>, ctx: Context, name: Text, wanted: Text -> bool)
    requires name in {Ascii("Sender"), Ascii("Return-Path"), Ascii("X-Sender")}
    requires RewritesFrom(ctx) && (forall n :: wanted(n) <==> n == ToLower(name)) && SparesLate(Unnamed(ctx), wanted)
    ensures Keep(RewriteSpec(headers, ctx), wanted)
      == if Keep(headers, wanted) == [] then [] else [Written(name, Companion(name, Identity(ctx.relay)))]
  {
    CompanionNames();
    hide SparesLate, Keep, StripStage, IdentityStage, RequiredStage, TraceStage, SetIn, MailboxText, Written, Ascii,
         ToLower, OriginalFrom, ReplyToInjected, FromText, Identity, Companion;
    var original := OriginalFrom(headers);
    var injected := ReplyToInjected(headers, ctx.cfg);
    var answered := SetOptional(headers, Ascii("Reply-To"), injected);
    if injected.Some? {
      KeepSet(headers, Ascii("Reply-To"), injected.value, wanted);
    }
    var named := FromStage(answered, original, ctx);
    KeepSet(answered, Ascii("From"), FromText(original, ctx), wanted);
    var h := IdentityStage(named, ctx);
    IdentityStageSets(named, ctx, name, wanted);
    KeepStripStage(h, Unnamed(ctx), wanted);
    var stripped := StripStage(h, ctx.cfg);
    KeepRequiredStage(stripped, original, Unnamed(ctx), wanted);
    var required := RequiredStage(stripped, original, ctx);
    SameUnnamed(h, original, ctx);
    SameUnnamed(stripped, original, ctx);
    SameUnnamed(required, original, ctx);
    KeepTraceStage(required, original, Unnamed(ctx), wanted);
  }

  lemma SameUnnamed(headers: seq<Header>, original: Option<Mailbox>, ctx: Context)
    ensures StripStage(headers, Unnamed(ctx).cfg) == StripStage(headers, ctx.cfg)
    ensures RequiredStage(headers, original, Unnamed(ctx)) == RequiredStage(headers, original, ctx)
    ensures TraceStage(headers, original, Unnamed(ctx)) == TraceStage(headers, original, ctx)
  {
    hide SetIn, SetEach, FirstNamed, ValueOf, MailboxText, Written, Ascii, ToLower, Identity, LooksLikeEmail,
         AddressDomain;
  }

  // The same configuration with nothing required.
  function Undemanding(ctx: Context): Context {
    ctx.(cfg := ctx.cfg.(ensureDate := false, ensureMessageId := false, xMailer := None))
  }

  lemma SameUndemanding(headers: seq<Header>, original: Option<Mailbox>, ctx: Context)
    ensures IdentityStage(headers, Undemanding(ctx)) == IdentityStage(headers, ctx)
    ensures StripStage(headers, Undemanding(ctx).cfg) == StripStage(headers, ctx.cfg)
    ensures TraceStage(headers, original, Undemanding(ctx)) == TraceStage(headers, original, ctx)
  {
    hide SetIn, SetEach, FirstNamed, ValueOf, MailboxText, Written, Ascii, ToLower, Identity, LooksLikeEmail,
         AddressDomain, SetIfHas, Without, WithoutPrefix, RemoveEach;
  }

  // Before the required headers are looked at, one that nothing else touches is as it came.
  lemma {:induction false} ComesToRequired(headers: seq<Header>, ctx: Context, wanted: Text -> bool)
    returns (h: seq<Header>)
    requires SparesLate(Undemanding(ctx), wanted)
    requires !wanted(ToLower(Ascii("Reply-To"))) && !wanted(ToLower(Ascii("From")))
    ensures h == Identified(headers, ctx) && Keep(h, wanted) == Keep(headers, wanted)
    ensures Keep(RewriteSpec(headers, ctx), wanted) == Keep(RequiredStage(h, OriginalFrom(headers), ctx), wanted)
  {
    hide SparesLate, Keep, StripStage, IdentityStage, RequiredStage, TraceStage, SetIn, MailboxText, Written, Ascii,
         ToLower, OriginalFrom, ReplyToInjected, FromText;
    var original := OriginalFrom(headers);
    var injected := ReplyToInjected(headers, ctx.cfg);
    var answered := SetOptional(headers, Ascii("Reply-To"), injected);
    if injected.Some? {
      KeepSet(headers, Ascii("Reply-To"), injected.value, wanted);
    }
    var named := FromStage(answered, original, ctx);
    KeepSet(answered, Ascii("From"), FromText(original, ctx), wanted);
    KeepIdentityStage(named, Undemanding(ctx), wanted);
    SameUndemanding(named, original, ctx);
    var followed := IdentityStage(named, ctx);
    KeepStripStage(followed, Undemanding(ctx), wanted);
    SameUndemanding(followed, original, ctx);
    h := StripStage(followed, ctx.cfg);
    var required := RequiredStage(h, original, ctx);
    KeepTraceStage(required, original, Undemanding(ctx), wanted);
    SameUndemanding(required, original, ctx);
  }

  lemma RequiredNames()
    ensures |ToLower(Ascii("Date"))| == 4 && |ToLower(Ascii("X-Mailer"))| == 8 && |ToLower(Ascii("Message-ID"))| == 10
    ensures |ToLower(Ascii("Reply-To"))| == 8 && |ToLower(Ascii("From"))| == 4
    ensures ToLower(Ascii("Date")) != ToLower(Ascii("From")) && ToLower(Ascii("X-Mailer")) != ToLower(Ascii("Reply-To"))
  {
    assert ToLower(Ascii("Date"))[0] == 100 && ToLower(Ascii("From"))[0] == 102;
    assert ToLower(Ascii("X-Mailer"))[0] == 120 && ToLower(Ascii("Reply-To"))[0] == 114;
  }

  // A Date the message came with stays; with none, the clock's is the only one, if asked
  // for.
  lemma {:induction false} DateGoesOut(headers: seq<Header>, ctx: Context, wanted: Text -> bool)
    requires (forall n :: wanted(n) <==> n == ToLower(Ascii("Date"))) && SparesLate(Undemanding(ctx), wanted)
    ensures Keep(RewriteSpec(headers, ctx), wanted)
      == if Keep(headers, wanted) == [] && ctx.cfg.ensureDate then [Written(Ascii("Date"), ctx.date)]
         else Keep(headers, wanted)
  {
    RequiredNames();
    hide SparesLate, Keep, RewriteSpec, SetIn, Written, Ascii, ToLower, GeneratedMessageId, FirstNamed, ValueOf;
    var h := ComesToRequired(headers, ctx, wanted);
    var original := OriginalFrom(headers);
    FirstOfKept(h, ToLower(Ascii("Date")), wanted);
    SetLeavesOne(h, Ascii("Date"), ctx.date, wanted);
    var dated := if ctx.cfg.ensureDate && FirstNamed(h, ToLower(Ascii("Date"))).None?
                 then SetIn(h, Ascii("Date"), ctx.date) else h;
    var id := GeneratedMessageId(original, ctx);
    KeepSet(dated, Ascii("Message-ID"), id, wanted);
    var identified := if ctx.cfg.ensureMessageId && NonBlank(ValueOf(dated, Ascii("Message-ID"))).None?
                      then SetIn(dated, Ascii("Message-ID"), id) else dated;
    if ctx.cfg.xMailer.Some? {
      KeepSet(identified, Ascii("X-Mailer"), ctx.cfg.xMailer.value, wanted);
    }
  }

  lemma ValueOfKept(headers: seq<Header>, name: Text, wanted: Text -> bool)
    requires forall n :: wanted(n) <==> n == ToLower(name)
    ensures ValueOf(headers, name)
      == if Keep(headers, wanted) == [] then None else Some(Unfolded(Keep(headers, wanted)[0].rawValue))
  {
    hide Keep, ToLower, Unfolded;
    FirstOfKept(headers, ToLower(name), wanted);
  }

  // A Message-ID that is not blank stays; otherwise, if asked for, there is one of the queue's own
  // id at the domain of the relay's identity, or without one of From, or of a valid sender,
  // or this host.
  lemma {:induction false} MessageIdGoesOut(headers: seq<Header>, ctx: Context, wanted: Text -> bool)
    requires (forall n :: wanted(n) <==> n == ToLower(Ascii("Message-ID"))) && SparesLate(Undemanding(ctx), wanted)
    ensures var from := OriginalFrom(headers);
      var identity := Identity(ctx.relay);
      var out := Keep(RewriteSpec(headers, ctx), wanted);
      var made := (domain: Text) =>
        [Written(Ascii("Message-ID"), [LT] + ctx.queueId + [AT] + domain + [GT])];
      if Carries(headers, Ascii("Message-ID")) || !ctx.cfg.ensureMessageId then
        out == Keep(headers, wanted)
      else if identity != [] then out == made(AddressDomain(identity))
      else if from.Some? then out == made(AddressDomain(from.value.address))
      else if LooksLikeEmail(ctx.originalSender) then out == made(AddressDomain(ctx.originalSender))
      else out == made(ctx.hostname)
  {
    RequiredNames();
    hide SparesLate, Keep, RewriteSpec, SetIn, Written, Ascii, ToLower, FirstNamed, ValueOf, Identity, AddressDomain,
         LooksLikeEmail, OriginalFrom, NonBlank, Carries;
    var h := ComesToRequired(headers, ctx, wanted);
    var original := OriginalFrom(headers);
    var name := Ascii("Message-ID");
    BlankIsMissing(headers, name);
    KeepSet(h, Ascii("Date"), ctx.date, wanted);
    var dated := if ctx.cfg.ensureDate && FirstNamed(h, ToLower(Ascii("Date"))).None?
                 then SetIn(h, Ascii("Date"), ctx.date) else h;
    ValueOfKept(headers, name, wanted);
    ValueOfKept(dated, name, wanted);
    var id := GeneratedMessageId(original, ctx);
    SetLeavesOne(dated, name, id, wanted);
    var identified := if ctx.cfg.ensureMessageId && NonBlank(ValueOf(dated, name)).None?
                      then SetIn(dated, name, id) else dated;
    if ctx.cfg.xMailer.Some? {
      KeepSet(identified, Ascii("X-Mailer"), ctx.cfg.xMailer.value, wanted);
    }
  }

  // And the id that is reported for the message is the one it goes out with.
  lemma {:induction false} ReportedIdGoesOut(headers: seq<Header>, ctx: Context, wanted: Text -> bool)
    requires (forall n :: wanted(n) <==> n == ToLower(Ascii("Message-ID"))) && SparesLate(Undemanding(ctx), wanted)
    ensures var name := Ascii("Message-ID");
      var reported := MessageIdOf(Identified(headers, ctx), OriginalFrom(headers), ctx);
      if Carries(headers, name) then reported == ValueOf(headers, name)
      else if ctx.cfg.ensureMessageId then
        reported.Some? && Keep(RewriteSpec(headers, ctx), wanted) == [Written(name, reported.value)]
      else reported == None
  {
    RequiredNames();
    hide SparesLate, Keep, RewriteSpec, SetIn, Written, Ascii, ToLower, FirstNamed, ValueOf, Identity, AddressDomain,
         LooksLikeEmail, OriginalFrom, NonBlank, Carries;
    var h := ComesToRequired(headers, ctx, wanted);
    BlankIsMissing(headers, Ascii("Message-ID"));
    ValueOfKept(headers, Ascii("Message-ID"), wanted);
    ValueOfKept(h, Ascii("Message-ID"), wanted);
    MessageIdGoesOut(headers, ctx, wanted);
  }

  // A configured mailer is the only one.
  lemma {:induction false} MailerGoesOut(headers: seq<Header>, ctx: Context, wanted: Text -> bool)
    requires (forall n :: wanted(n) <==> n == ToLower(Ascii("X-Mailer"))) && SparesLate(Undemanding(ctx), wanted)
    ensures Keep(RewriteSpec(headers, ctx), wanted)
      == match ctx.cfg.xMailer
         case Some(mailer) => [Written(Ascii("X-Mailer"), mailer)]
         case None => Keep(headers, wanted)
  {
    RequiredNames();
    hide SparesLate, Keep, RewriteSpec, SetIn, Written, Ascii, ToLower, GeneratedMessageId, FirstNamed, ValueOf;
    var h := ComesToRequired(headers, ctx, wanted);
    var id := GeneratedMessageId(OriginalFrom(headers), ctx);
    KeepSet(h, Ascii("Date"), ctx.date, wanted);
    var dated := if ctx.cfg.ensureDate && FirstNamed(h, ToLower(Ascii("Date"))).None?
                 then SetIn(h, Ascii("Date"), ctx.date) else h;
    KeepSet(dated, Ascii("Message-ID"), id, wanted);
    var identified := if ctx.cfg.ensureMessageId && NonBlank(ValueOf(dated, Ascii("Message-ID"))).None?
                      then SetIn(dated, Ascii("Message-ID"), id) else dated;
    if ctx.cfg.xMailer.Some? {
      SetLeavesOne(identified, Ascii("X-Mailer"), ctx.cfg.xMailer.value, wanted);
    }
  }

  // The same configuration without diagnostics.
  function Discreet(ctx: Context): Context {
    ctx.(cfg := ctx.cfg.(addRelayHeaders := false))
  }

  // The value of a diagnostic header, where there is one to give.
  ghost function Diagnosis(headers: seq<Header>, ctx: Context, name: Text): Option<Text> {
    if name == Ascii("X-Relay-Node") then Some(ctx.relay.id)
    else if name == Ascii("X-Relay-Queue-Id") then Some(ctx.queueId)
    else if name == Ascii("X-Original-Envelope-From") then
      if ctx.originalSender == [] then None else Some(ctx.originalSender)
    else
      match OriginalFrom(headers)
      case None => None
      case Some(from) => Some(MailboxText(from.displayName, from.address))
  }

  lemma DiagnosticNames()
    ensures |ToLower(Ascii("X-Relay-Node"))| == 12 && |ToLower(Ascii("X-Relay-Queue-Id"))| == 16
    ensures |ToLower(Ascii("X-Original-From"))| == 15 && |ToLower(Ascii("X-Original-Envelope-From"))| == 24
    ensures |Ascii("X-Relay-Node")| == 12 && |Ascii("X-Relay-Queue-Id")| == 16
    ensures |Ascii("X-Original-From")| == 15 && |Ascii("X-Original-Envelope-From")| == 24
    ensures |ToLower(Ascii("From"))| == 4 && |ToLower(Ascii("Reply-To"))| == 8
  {
  }

  lemma AddedIsKept(headers: seq<Header>, name: Text, value: Text, wanted: Text -> bool)
    requires wanted(ToLower(name))
    ensures Keep(headers + [Written(name, value)], wanted) == Keep(headers, wanted) + [Written(name, value)]
  {
    KeepJoin(headers, [Written(name, value)], wanted);
  }

  lemma {:induction false} DiagnosticsAdd(headers: seq<Header>, ctx: Context, name: Text, value: Option<Text>,
          other: Text, wanted: Text -> bool)
    requires forall n :: wanted(n) <==> n == ToLower(name)
    requires name != other ==> ToLower(name) != ToLower(other)
    ensures var h := if value.Some? then headers + [Written(other, value.value)] else headers;
      Keep(h, wanted)
      == Keep(headers, wanted)
         + if name == other && value.Some? then [Written(name, value.value)] else []
  {
    hide Keep, ToLower, Written;
    if value.Some? {
      if name == other {
        AddedIsKept(headers, name, value.value, wanted);
      } else {
        KeepWritten(headers, other, value.value, wanted);
      }
    }
  }

  lemma {:induction false} TraceStageAdds(headers: seq<Header>, before: seq<Header>, ctx: Context, name: Text,
          wanted: Text -> bool)
    requires name in {Ascii("X-Relay-Node"), Ascii("X-Relay-Queue-Id"), Ascii("X-Original-From"),
                      Ascii("X-Original-Envelope-From")}
    requires ctx.cfg.addRelayHeaders
    requires (forall n :: wanted(n) <==> n == ToLower(name)) && SparesLate(Discreet(ctx), wanted)
    ensures Keep(TraceStage(headers, OriginalFrom(before), ctx), wanted)
      == Keep(headers, wanted)
         + match Diagnosis(before, ctx, name) case Some(value) => [Written(name, value)] case None => []
  {
    DiagnosticNames();
    hide Keep, SetEach, ReceivedText, MailboxText, Written, ToLower, Ascii, OriginalFrom;
    var original := OriginalFrom(before);
    var from := match original case None => None case Some(m) => Some(MailboxText(m.displayName, m.address));
    var sender := if ctx.originalSender == [] then None else Some(ctx.originalSender);
    DiagnosticsAdd(headers, ctx, name, Some(ctx.relay.id), Ascii("X-Relay-Node"), wanted);
    var h1 := headers + [Written(Ascii("X-Relay-Node"), ctx.relay.id)];
    DiagnosticsAdd(h1, ctx, name, Some(ctx.queueId), Ascii("X-Relay-Queue-Id"), wanted);
    var h2 := h1 + [Written(Ascii("X-Relay-Queue-Id"), ctx.queueId)];
    DiagnosticsAdd(h2, ctx, name, from, Ascii("X-Original-From"), wanted);
    var h3 := if from.Some? then h2 + [Written(Ascii("X-Original-From"), from.value)] else h2;
    DiagnosticsAdd(h3, ctx, name, sender, Ascii("X-Original-Envelope-From"), wanted);
    var h4 := if sender.Some? then h3 + [Written(Ascii("X-Original-Envelope-From"), sender.value)] else h3;
    KeepSetEach(h4, ctx.cfg.extraHeaders, wanted);
    if ctx.cfg.addReceived {
      KeepWritten(SetEach(h4, ctx.cfg.extraHeaders), Ascii("Received"), ReceivedText(ctx), wanted);
    }
  }

  // With diagnostics on, each diagnostic header goes out behind those of its name that were
  // there: the relay, the queue id, and who the message was from.
  lemma {:induction false} DiagnosticsGoOut(headers: seq<Header>, ctx: Context, name: Text, wanted: Text -> bool)
    requires name in {Ascii("X-Relay-Node"), Ascii("X-Relay-Queue-Id"), Ascii("X-Original-From"),
                      Ascii("X-Original-Envelope-From")}
    requires ctx.cfg.addRelayHeaders
    requires (forall n :: wanted(n) <==> n == ToLower(name)) && SparesLate(Discreet(ctx), wanted)
    ensures Keep(RewriteSpec(headers, ctx), wanted)
      == Keep(headers, wanted)
         + match Diagnosis(headers, ctx, name) case Some(value) => [Written(name, value)] case None => []
  {
    DiagnosticNames();
    hide SparesLate, Keep, StripStage, IdentityStage, RequiredStage, TraceStage, SetIn, MailboxText, Written, Ascii,
         ToLower, OriginalFrom, ReplyToInjected, FromText, Diagnosis;
    var original := OriginalFrom(headers);
    var injected := ReplyToInjected(headers, ctx.cfg);
    var answered := SetOptional(headers, Ascii("Reply-To"), injected);
    if injected.Some? {
      KeepSet(headers, Ascii("Reply-To"), injected.value, wanted);
    }
    var named := FromStage(answered, original, ctx);
    KeepSet(answered, Ascii("From"), FromText(original, ctx), wanted);
    KeepIdentityStage(named, Discreet(ctx), wanted);
    SameDiscreet(named, original, ctx);
    var followed := IdentityStage(named, ctx);
    KeepStripStage(followed, Discreet(ctx), wanted);
    SameDiscreet(followed, original, ctx);
    var stripped := StripStage(followed, ctx.cfg);
    KeepRequiredStage(stripped, original, Discreet(ctx), wanted);
    SameDiscreet(stripped, original, ctx);
    TraceStageAdds(RequiredStage(stripped, original, ctx), headers, ctx, name, wanted);
  }

  lemma SameDiscreet(headers: seq<Header>, original: Option<Mailbox>, ctx: Context)
    ensures IdentityStage(headers, Discreet(ctx)) == IdentityStage(headers, ctx)
    ensures StripStage(headers, Discreet(ctx).cfg) == StripStage(headers, ctx.cfg)
    ensures RequiredStage(headers, original, Discreet(ctx)) == RequiredStage(headers, original, ctx)
  {
    hide SetIn, SetEach, FirstNamed, ValueOf, MailboxText, Written, Ascii, ToLower, Identity, LooksLikeEmail,
         AddressDomain, SetIfHas, Without, WithoutPrefix, RemoveEach;
  }

  // -- configured headers ------------------------------------------------------------------------

  // The last rule that has this name.
  ghost function LastRule(rules: seq<HeaderRule>, name: Text): Option<HeaderRule> {
    if rules == [] then None
    else
      var last := rules[|rules| - 1];
      if Trim(last.name) != [] && ToLower(last.name) == name then Some(last)
      else LastRule(rules[..|rules| - 1], name)
  }

  lemma {:induction false} SetEachAppends(headers: seq<Header>, rules: seq<HeaderRule>)
    requires rules != []
    ensures var n := |rules| - 1;
      var front := SetEach(headers, rules[..n]);
      SetEach(headers, rules)
      == if Trim(rules[n].name) == [] then front else SetIn(front, rules[n].name, rules[n].value)
    decreases |rules|
  {
    hide SetIn, Trim;
    var n := |rules| - 1;
    if n > 0 {
      var next := if Trim(rules[0].name) == [] then headers else SetIn(headers, rules[0].name, rules[0].value);
      assert rules[1..][..n - 1] == rules[..n][1..];
      SetEachAppends(next, rules[1..]);
    }
  }

  // Of several rules for one name the last has its way, whatever the message or the stages
  // before had under it.
  lemma {:induction false} LastRuleHasItsWay(headers: seq<Header>, rules: seq<HeaderRule>, name: Text,
          wanted: Text -> bool)
    requires forall n :: wanted(n) <==> n == name
    ensures Keep(SetEach(headers, rules), wanted)
      == match LastRule(rules, name)
         case Some(rule) => [Written(rule.name, rule.value)]
         case None => Keep(headers, wanted)
  {
    hide SetIn, Keep, ToLower, Written, Trim;
    if rules != [] {
      var n := |rules| - 1;
      var front, last := SetEach(headers, rules[..n]), rules[n];
      SetEachAppends(headers, rules);
      LastRuleHasItsWay(headers, rules[..n], name, wanted);
      if ToLower(last.name) == name {
        SetLeavesOne(front, last.name, last.value, wanted);
      } else {
        KeepSet(front, last.name, last.value, wanted);
      }
    }
  }

  // So it goes out: only Received is written after the rules.
  lemma {:induction false} ConfiguredGoesOut(headers: seq<Header>, ctx: Context, name: Text, wanted: Text -> bool)
    requires (forall n :: wanted(n) <==> n == name) && name != ToLower(Ascii("Received"))
    requires LastRule(ctx.cfg.extraHeaders, name).Some?
    ensures var rule := LastRule(ctx.cfg.extraHeaders, name).value;
      Keep(RewriteSpec(headers, ctx), wanted) == [Written(rule.name, rule.value)]
  {
    hide Keep, StripStage, IdentityStage, RequiredStage, SetEach, FromStage, MailboxText, Written, Ascii, ToLower,
         OriginalFrom, ReplyToInjected, FromText, ReceivedText, LastRule;
    var original := OriginalFrom(headers);
    var required := RequiredStage(Identified(headers, ctx), original, ctx);
    var h := Diagnosed(required, original, ctx);
    LastRuleHasItsWay(h, ctx.cfg.extraHeaders, name, wanted);
    KeepWritten(SetEach(h, ctx.cfg.extraHeaders), Ascii("Received"), ReceivedText(ctx), wanted);
  }

  // The headers the rules are applied to.
  lemma {:induction false} Diagnosed(headers: seq<Header>, original: Option<Mailbox>, ctx: Context)
    returns (h: seq<Header>)
    ensures TraceStage(headers, original, ctx)
      == if ctx.cfg.addReceived then
           [Written(Ascii("Received"), ReceivedText(ctx))] + SetEach(h, ctx.cfg.extraHeaders)
         else SetEach(h, ctx.cfg.extraHeaders)
  {
    hide SetEach, Written, Ascii, MailboxText, ReceivedText;
    h := headers;
    if ctx.cfg.addRelayHeaders {
      h := h + [Written(Ascii("X-Relay-Node"), ctx.relay.id)];
      h := h + [Written(Ascii("X-Relay-Queue-Id"), ctx.queueId)];
      if original.Some? {
        h := h + [Written(Ascii("X-Original-From"), MailboxText(original.value.displayName, original.value.address))];
      }
      if ctx.originalSender != [] {
        h := h + [Written(Ascii("X-Original-Envelope-From"), ctx.originalSender)];
      }
    }
  }

  // -- the trace -------------------------------------------------------------------------------------

  ghost predicate Tells(text: Text, part: Text) {
    exists front, back :: text == front + part + back
  }

  lemma TellsMore(text: Text, part: Text, before: Text, after: Text)
    requires Tells(text, part)
    ensures Tells(before + text + after, part)
  {
    var front, back :| text == front + part + back;
    assert before + text + after == (before + front) + part + (back + after);
  }

  // The new Received tells who handed the message in, and where it went.
  lemma {:induction false} ReceivedTells(ctx: Context)
    ensures var text := ReceivedText(ctx);
      && Tells(text, if ctx.clientHelo == [] then Ascii("unknown") else ctx.clientHelo)
      && Tells(text, match ctx.clientIp case Some(ip) => ip case None => Ascii("local"))
      && Tells(text, ctx.hostname) && Tells(text, ctx.queueId) && Tells(text, ctx.relay.id) && Tells(text, ctx.date)
  {
    var text, helo := ReceivedText(ctx), if ctx.clientHelo == [] then Ascii("unknown") else ctx.clientHelo;
    FromTells(ctx);
    hide Ascii;
    var from, host, to := ReceivedFrom(ctx), ReceivedBy(ctx), ReceivedFor(ctx);
    var fold := CRLF + [TAB];
    assert text == [] + from + (fold + host + fold + to);
    TellsMore(from, helo, [], fold + host + fold + to);
    TellsMore(from, match ctx.clientIp case Some(ip) => ip case None => Ascii("local"), [], fold + host + fold + to);
    assert host == Ascii("by ") + ctx.hostname + (Ascii(" (smtp-relay) with ESMTPA id ") + ctx.queueId);
    assert host == (Ascii("by ") + ctx.hostname + Ascii(" (smtp-relay) with ESMTPA id ")) + ctx.queueId + [];
    assert text == (from + fold) + host + (fold + to);
    TellsMore(host, ctx.hostname, from + fold, fold + to);
    TellsMore(host, ctx.queueId, from + fold, fold + to);
    assert to == Ascii("for relay ") + ctx.relay.id + (Ascii("; ") + ctx.date);
    assert to == (Ascii("for relay ") + ctx.relay.id + Ascii("; ")) + ctx.date + [];
    assert text == (from + fold + host + fold) + to + [];
    TellsMore(to, ctx.relay.id, from + fold + host + fold, []);
    TellsMore(to, ctx.date, from + fold + host + fold, []);
  }

  lemma {:induction false} FromTells(ctx: Context)
    ensures Tells(ReceivedFrom(ctx), if ctx.clientHelo == [] then Ascii("unknown") else ctx.clientHelo)
    ensures Tells(ReceivedFrom(ctx), match ctx.clientIp case Some(ip) => ip case None => Ascii("local"))
  {
    var from, helo := ReceivedFrom(ctx), if ctx.clientHelo == [] then Ascii("unknown") else ctx.clientHelo;
    match ctx.clientIp
    case Some(ip) =>
      assert from == Ascii("from ") + helo + (Ascii(" ([") + ip + Ascii("])"));
      assert from == (Ascii("from ") + helo + Ascii(" ([")) + ip + Ascii("])");
    case None =>
      assert from == Ascii("from ") + helo + Ascii(" (local)");
      assert Ascii(" (local)") == Ascii(" (") + Ascii("local") + Ascii(")");
      assert from == (Ascii("from ") + helo + Ascii(" (")) + Ascii("local") + Ascii(")");
  }
}
