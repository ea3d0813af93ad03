// What the rewrite promises: the body and every header the configuration does
// not name stay as they were, the result is still one well-formed message, and
// the outgoing From agrees with MAIL FROM.
module RewriteLaws {
  import opened Bytes
  import opened Wrappers
  import opened Headers
  import opened Mailboxes
  import opened Messages
  import opened Rewrites

  // -- the names a configuration may touch -------------------------------------------

  // None of the wanted headers has this name.
  ghost predicate Leaves(wanted: Text -> bool, name: Text) {
    !wanted(ToLower(name))
  }

  // The wanted headers are none of those the stages behind From may touch.
  ghost predicate SparesLate(ctx: Context, wanted: Text -> bool) {
    var cfg := ctx.cfg;
    && (RewritesFrom(ctx) ==>
      Leaves(wanted, Ascii("Sender")) && Leaves(wanted, Ascii("Return-Path")) && Leaves(wanted, Ascii("X-Sender")))
    && (cfg.stripDkim ==> forall k :: 0 <= k < |SIGNATURE_HEADERS| ==> Leaves(wanted, SIGNATURE_HEADERS[k]))
    && (cfg.stripArc ==>
      && (forall n :: wanted(n) ==> !(ToLower(Ascii("arc-")) <= n))
      && (forall k :: 0 <= k < |ARC_HEADERS| ==> Leaves(wanted, ARC_HEADERS[k])))
    && (cfg.stripBcc ==> Leaves(wanted, Ascii("Bcc")))
    && (cfg.stripReceived || cfg.addReceived ==> Leaves(wanted, Ascii("Received")))
    && (cfg.ensureDate ==> Leaves(wanted, Ascii("Date")))
    && (cfg.ensureMessageId ==> Leaves(wanted, Ascii("Message-ID")))
    && (cfg.xMailer.Some? ==> Leaves(wanted, Ascii("X-Mailer")))
    && (cfg.addRelayHeaders ==>
      && Leaves(wanted, Ascii("X-Relay-Node")) && Leaves(wanted, Ascii("X-Relay-Queue-Id"))
      && Leaves(wanted, Ascii("X-Original-From")) && Leaves(wanted, Ascii("X-Original-Envelope-From")))
    && (forall k :: 0 <= k < |cfg.removeHeaders| ==> Leaves(wanted, cfg.removeHeaders[k]))
    && (forall k :: 0 <= k < |cfg.extraHeaders| ==> Leaves(wanted, cfg.extraHeaders[k].name))
  }

  ghost predicate Spares(ctx: Context, wanted: Text -> bool) {
    && (ctx.cfg.injectReplyTo ==> Leaves(wanted, Ascii("Reply-To")))
    && (RewritesFrom(ctx) ==> Leaves(wanted, Ascii("From")))
    && SparesLate(ctx, wanted)
  }

  // -- frame ------------------------------------------------------------------------

  lemma {:induction false} KeepRemoveEach(headers: seq<Header>, names: seq<Text>, wanted: Text -> bool)
    requires forall k :: 0 <= k < |names| ==> Leaves(wanted, names[k])
    ensures Keep(RemoveEach(headers, names), wanted) == Keep(headers, wanted)
    decreases |names|
  {
    if names != [] {
      KeepWithout(headers, ToLower(names[0]), wanted);
      KeepRemoveEach(Without(headers, ToLower(names[0])), names[1..], wanted);
    }
  }

  lemma {:induction false} KeepSetEach(headers: seq<Header>, rules: seq<HeaderRule>, wanted: Text -> bool)
    requires forall k :: 0 <= k < |rules| ==> Leaves(wanted, rules[k].name)
    ensures Keep(SetEach(headers, rules), wanted) == Keep(headers, wanted)
    decreases |rules|
  {
    if rules != [] {
      KeepSet(headers, rules[0].name, rules[0].value, wanted);
      KeepSetEach(if Trim(rules[0].name) == [] then headers else SetIn(headers, rules[0].name, rules[0].value),
                  rules[1..], wanted);
    }
  }

  lemma KeepSetIfHas(headers: seq<Header>, name: Text, value: Text, wanted: Text -> bool)
    requires Leaves(wanted, name)
    ensures Keep(SetIfHas(headers, name, value), wanted) == Keep(headers, wanted)
  {
    KeepSet(headers, name, value, wanted);
  }

  lemma KeepIdentityStage(headers: seq<Header>, ctx: Context, wanted: Text -> bool)
    requires SparesLate(ctx, wanted)
    ensures Keep(IdentityStage(headers, ctx), wanted) == Keep(headers, wanted)
  {
    hide Keep, SetIfHas, Identity, ToLower, Ascii;
    if RewritesFrom(ctx) {
      var identity := Identity(ctx.relay);
      KeepSetIfHas(headers, Ascii("Sender"), Bracketed(identity), wanted);
      var h := SetIfHas(headers, Ascii("Sender"), Bracketed(identity));
      KeepSetIfHas(h, Ascii("Return-Path"), Bracketed(identity), wanted);
      h := SetIfHas(h, Ascii("Return-Path"), Bracketed(identity));
      KeepSetIfHas(h, Ascii("X-Sender"), identity, wanted);
    }
  }

  lemma KeepStripStage(headers: seq<Header>, ctx: Context, wanted: Text -> bool)
    requires SparesLate(ctx, wanted)
    ensures Keep(StripStage(headers, ctx.cfg), wanted) == Keep(headers, wanted)
  {
    hide Keep, Without, WithoutPrefix, RemoveEach, ToLower, Ascii;
    var cfg, h := ctx.cfg, headers;
    if cfg.stripDkim {
      KeepRemoveEach(h, SIGNATURE_HEADERS, wanted);
      h := RemoveEach(h, SIGNATURE_HEADERS);
    }
    if cfg.stripArc {
      KeepWithoutPrefix(h, ToLower(Ascii("arc-")), wanted);
      h := WithoutPrefix(h, ToLower(Ascii("arc-")));
      KeepRemoveEach(h, ARC_HEADERS, wanted);
      h := RemoveEach(h, ARC_HEADERS);
    }
    if cfg.stripBcc {
      KeepWithout(h, ToLower(Ascii("Bcc")), wanted);
      h := Without(h, ToLower(Ascii("Bcc")));
    }
    if cfg.stripReceived {
      KeepWithout(h, ToLower(Ascii("Received")), wanted);
      h := Without(h, ToLower(Ascii("Received")));
    }
    KeepRemoveEach(h, cfg.removeHeaders, wanted);
  }

  lemma KeepRequiredStage(headers: seq<Header>, original: Option<Mailbox>, ctx: Context, wanted: Text -> bool)
    requires SparesLate(ctx, wanted)
    ensures Keep(RequiredStage(headers, original, ctx), wanted) == Keep(headers, wanted)
  {
    hide Keep, SetIn, FirstNamed, ValueOf, GeneratedMessageId, ToLower, Ascii;
    var h := headers;
    if ctx.cfg.ensureDate {
      KeepSet(h, Ascii("Date"), ctx.date, wanted);
      h := if FirstNamed(h, ToLower(Ascii("Date"))).None? then SetIn(h, Ascii("Date"), ctx.date) else h;
    }
    if ctx.cfg.ensureMessageId {
      KeepSet(h, Ascii("Message-ID"), GeneratedMessageId(original, ctx), wanted);
      h := if NonBlank(ValueOf(h, Ascii("Message-ID"))).None?
           then SetIn(h, Ascii("Message-ID"), GeneratedMessageId(original, ctx)) else h;
    }
    if ctx.cfg.xMailer.Some? {
      KeepSet(h, Ascii("X-Mailer"), ctx.cfg.xMailer.value, wanted);
    }
  }

  lemma KeepWritten(headers: seq<Header>, name: Text, value: Text, wanted: Text -> bool)
    requires Leaves(wanted, name)
    ensures Keep(headers + [Written(name, value)], wanted) == Keep(headers, wanted)
    ensures Keep([Written(name, value)] + headers, wanted) == Keep(headers, wanted)
  {
    KeepAdded(headers, Written(name, value), wanted);
  }

  lemma KeepTraceStage(headers: seq<Header>, original: Option<Mailbox>, ctx: Context, wanted: Text -> bool)
    requires SparesLate(ctx, wanted)
    ensures Keep(TraceStage(headers, original, ctx), wanted) == Keep(headers, wanted)
  {
    hide Keep, SetEach, ReceivedText, MailboxText, Written, ToLower, Ascii;
    var cfg, h := ctx.cfg, headers;
    if cfg.addRelayHeaders {
      KeepWritten(h, Ascii("X-Relay-Node"), ctx.relay.id, wanted);
      h := h + [Written(Ascii("X-Relay-Node"), ctx.relay.id)];
      KeepWritten(h, Ascii("X-Relay-Queue-Id"), ctx.queueId, wanted);
      h := h + [Written(Ascii("X-Relay-Queue-Id"), ctx.queueId)];
      if original.Some? {
        var from := MailboxText(original.value.displayName, original.value.address);
        KeepWritten(h, Ascii("X-Original-From"), from, wanted);
        h := h + [Written(Ascii("X-Original-From"), from)];
      }
      if ctx.originalSender != [] {
        KeepWritten(h, Ascii("X-Original-Envelope-From"), ctx.originalSender, wanted);
        h := h + [Written(Ascii("X-Original-Envelope-From"), ctx.originalSender)];
      }
    }
    KeepSetEach(h, cfg.extraHeaders, wanted);
    h := SetEach(h, cfg.extraHeaders);
    if cfg.addReceived {
      KeepWritten(h, Ascii("Received"), ReceivedText(ctx), wanted);
    }
  }

  lemma KeepLate(headers: seq<Header>, original: Option<Mailbox>, ctx: Context, wanted: Text -> bool)
    requires SparesLate(ctx, wanted)
    ensures Keep(LateStages(headers, original, ctx), wanted) == Keep(headers, wanted)
  {
    hide Keep, IdentityStage, StripStage, RequiredStage, TraceStage, SparesLate;
    var identified := IdentityStage(headers, ctx);
    KeepIdentityStage(headers, ctx, wanted);
    var stripped := StripStage(identified, ctx.cfg);
    KeepStripStage(identified, ctx, wanted);
    var required := RequiredStage(stripped, original, ctx);
    KeepRequiredStage(stripped, original, ctx, wanted);
    KeepTraceStage(required, original, ctx, wanted);
  }

  // Every header the configuration does not name is still there: same bytes,
  // same order, nothing added among them.
  lemma OtherHeadersKept(headers: seq<Header>, ctx: Context, wanted: Text -> bool)
    requires Spares(ctx, wanted)
    ensures Keep(RewriteSpec(headers, ctx), wanted) == Keep(headers, wanted)
  {
    hide Keep, SetIn, LateStages, SparesLate, FromText, ToLower, Ascii, ReplyToInjected, OriginalFrom;
    var original := OriginalFrom(headers);
    var injected := ReplyToInjected(headers, ctx.cfg);
    var h := SetOptional(headers, Ascii("Reply-To"), injected);
    if injected.Some? {
      InjectsOnlyWhenTold(headers, ctx.cfg);
      KeepSet(headers, Ascii("Reply-To"), injected.value, wanted);
    }
    if RewritesFrom(ctx) {
      KeepSet(h, Ascii("From"), FromText(original, ctx), wanted);
    }
    KeepLate(FromStage(h, original, ctx), original, ctx, wanted);
  }

  lemma InjectsOnlyWhenTold(headers: seq<Header>, cfg: Config)
    ensures ReplyToInjected(headers, cfg).Some? ==> cfg.injectReplyTo
  {
  }

  // -- pass-through -------------------------------------------------------------------

  ghost predicate Absent(headers: seq<Header>, name: Text) {
    forall k :: 0 <= k < |headers| ==> headers[k].Lower() != name
  }

  ghost predicate Names(names: seq<Text>, name: Text) {
    exists k :: 0 <= k < |names| && ToLower(names[k]) == name
  }

  // The names a configuration strips.
  ghost predicate Strips(cfg: Config, name: Text) {
    || (cfg.stripDkim && Names(SIGNATURE_HEADERS, name))
    || (cfg.stripArc && (ToLower(Ascii("arc-")) <= name || Names(ARC_HEADERS, name)))
    || (cfg.stripBcc && name == ToLower(Ascii("Bcc")))
    || (cfg.stripReceived && name == ToLower(Ascii("Received")))
    || Names(cfg.removeHeaders, name)
  }

  lemma {:induction false} NothingWithout(headers: seq<Header>, needle: Text)
    requires Absent(headers, needle)
    ensures Without(headers, needle) == headers
  {
    hide ToLower, Header.Lower;
    if headers != [] {
      var rest := headers[1..];
      assert headers[0].Lower() != needle;
      forall k | 0 <= k < |rest|
        ensures rest[k].Lower() != needle
      {
        assert rest[k] == headers[k + 1];
      }
      NothingWithout(rest, needle);
      assert [headers[0]] + rest == headers;
    }
  }

  lemma {:induction false} NothingWithoutPrefix(headers: seq<Header>, prefix: Text)
    requires forall k :: 0 <= k < |headers| ==> !(prefix <= headers[k].Lower())
    ensures WithoutPrefix(headers, prefix) == headers
  {
    hide ToLower, Header.Lower;
    if headers != [] {
      var rest := headers[1..];
      assert !(prefix <= headers[0].Lower());
      forall k | 0 <= k < |rest|
        ensures !(prefix <= rest[k].Lower())
      {
        assert rest[k] == headers[k + 1];
      }
      NothingWithoutPrefix(rest, prefix);
      assert [headers[0]] + rest == headers;
    }
  }

  lemma {:induction false} NothingRemoved(headers: seq<Header>, names: seq<Text>)
    requires forall k :: 0 <= k < |headers| ==> !Names(names, headers[k].Lower())
    ensures RemoveEach(headers, names) == headers
    decreases |names|
  {
    hide ToLower, Without;
    if names != [] {
      forall k | 0 <= k < |headers|
        ensures headers[k].Lower() != ToLower(names[0]) && !Names(names[1..], headers[k].Lower())
      {
        var name := headers[k].Lower();
        assert !Names(names, name);
        assert forall j :: 0 <= j < |names| - 1 ==> names[1..][j] == names[j + 1];
      }
      NothingWithout(headers, ToLower(names[0]));
      NothingRemoved(headers, names[1..]);
    }
  }

  // No header of the message is one the configuration strips.
  ghost predicate NothingToStrip(headers: seq<Header>, cfg: Config) {
    forall k :: 0 <= k < |headers| ==> !Strips(cfg, headers[k].Lower())
  }

  lemma NothingStripped(headers: seq<Header>, cfg: Config)
    requires NothingToStrip(headers, cfg)
    ensures StripStage(headers, cfg) == headers
  {
    hide ToLower, Ascii, Without, WithoutPrefix, RemoveEach, Names, Header.Lower;
    assert forall k :: 0 <= k < |headers| ==> !Strips(cfg, headers[k].Lower());
    if cfg.stripDkim {
      NothingRemoved(headers, SIGNATURE_HEADERS);
    }
    if cfg.stripArc {
      NothingWithoutPrefix(headers, ToLower(Ascii("arc-")));
      NothingRemoved(headers, ARC_HEADERS);
    }
    if cfg.stripBcc {
      NothingWithout(headers, ToLower(Ascii("Bcc")));
    }
    if cfg.stripReceived {
      NothingWithout(headers, ToLower(Ascii("Received")));
    }
    NothingRemoved(headers, cfg.removeHeaders);
  }

  // The relay has no identity of its own, or From is not rewritten; there is no Reply-To
  // to inject and nothing to strip; the message has what is required, and nothing else is
  // written.
  ghost predicate ChangesNothing(headers: seq<Header>, ctx: Context) {
    var cfg := ctx.cfg;
    && !RewritesFrom(ctx) && ReplyToInjected(headers, cfg).None? && NothingToStrip(headers, cfg)
    && (cfg.ensureDate ==> FirstNamed(headers, ToLower(Ascii("Date"))).Some?)
    && (cfg.ensureMessageId ==> NonBlank(ValueOf(headers, Ascii("Message-ID"))).Some?)
    && cfg.xMailer.None? && !cfg.addRelayHeaders
    && (forall k :: 0 <= k < |cfg.extraHeaders| ==> Trim(cfg.extraHeaders[k].name) == [])
    && !cfg.addReceived
  }

  lemma {:induction false} NothingSet(headers: seq<Header>, rules: seq<HeaderRule>)
    requires forall k :: 0 <= k < |rules| ==> Trim(rules[k].name) == []
    ensures SetEach(headers, rules) == headers
    decreases |rules|
  {
    hide SetIn, Trim;
    if rules != [] {
      NothingSet(headers, rules[1..]);
    }
  }

  // Then the bytes that go out are the bytes that came in.
  lemma PassesThrough(raw: Text, headers: seq<Header>, body: Text, ctx: Context)
    requires Printable(headers) && headers != []
    requires raw == PrintFields(headers, false) + CRLF + body
    requires ChangesNothing(headers, ctx)
    ensures PrintSpec(ParseSpec(raw).(headers := RewriteSpec(ParseSpec(raw).headers, ctx))) == raw
  {
    hide ParseSpec, FirstNamed, ValueOf, NonBlank, OriginalFrom, Ascii, ToLower, Strips, StripStage, ReplyToInjected,
         SetEach, NothingToStrip, RewritesFrom;
    Headers.RoundTrip(headers, body);
    assert raw == PrintSpec(Contents(headers, body, false));
    NothingStripped(headers, ctx.cfg);
    NothingSet(headers, ctx.cfg.extraHeaders);
    assert RewriteSpec(headers, ctx) == headers;
  }

  // -- alignment ----------------------------------------------------------------------

  // What header unfolding makes of a piece of text inside a value, and whether it
  // leaves a space pending.
  ghost function Collapsed(s: Text, pending: bool): (Text, bool) {
    if s == [] then ([], pending)
    else if s[0] in {CR, LF, SPACE, TAB} then Collapsed(s[1..], true)
    else
      var (more, p) := Collapsed(s[1..], false);
      (if pending then [SPACE, s[0]] + more else [s[0]] + more, p)
  }

  predicate IsFolding(b: byte) {
    b == CR || b == LF || b == SPACE || b == TAB
  }

  // How the unfolder and Collapsed read one byte.
  lemma UnfoldByte(b: byte, rest: Text, pending: bool, started: bool)
    ensures IsFolding(b) ==> UnfoldSpec([b] + rest, pending, started) == UnfoldSpec(rest, true, started)
    ensures !IsFolding(b) ==>
      UnfoldSpec([b] + rest, pending, started)
        == (if pending && started then [SPACE, b] else [b]) + UnfoldSpec(rest, false, true)
  {
    assert ([b] + rest)[1..] == rest;
  }

  lemma {:induction false} CollapseByte(b: byte, rest: Text, pending: bool)
    ensures IsFolding(b) ==> Collapsed([b] + rest, pending) == Collapsed(rest, true)
    ensures !IsFolding(b) ==>
      var (more, p) := Collapsed(rest, false);
      Collapsed([b] + rest, pending) == ((if pending then [SPACE, b] else [b]) + more, p)
  {
    assert ([b] + rest)[1..] == rest;
  }

  lemma CollapseEmpty(pending: bool)
    ensures Collapsed([], pending) == ([], pending)
  {
  }

  lemma {:induction false} UnfoldJoins(s: Text, rest: Text, pending: bool)
    ensures UnfoldSpec(s + rest, pending, true)
      == Collapsed(s, pending).0 + UnfoldSpec(rest, Collapsed(s, pending).1, true)
  {
    hide UnfoldSpec, Collapsed;
    if s == [] {
      CollapseEmpty(pending);
      assert s + rest == rest;
    } else {
      var b, tail := s[0], s[1..];
      assert s == [b] + tail && s + rest == [b] + (tail + rest);
      UnfoldByte(b, tail + rest, pending, true);
      CollapseByte(b, tail, pending);
      UnfoldJoins(tail, rest, true);
      UnfoldJoins(tail, rest, false);
    }
  }

  lemma EncloseByte(b: byte, rest: Text, escaped: bool)
    ensures Enclosed([b] + rest, escaped)
      == if escaped then Enclosed(rest, false)
         else if b == BACKSLASH then Enclosed(rest, true)
         else b != DQUOTE && Enclosed(rest, false)
  {
    assert ([b] + rest)[1..] == rest;
  }

  // What becomes of text between quotes, the space it leaves pending included.
  ghost function CollapsedWhole(s: Text, pending: bool): Text {
    Collapsed(s, pending).0 + if Collapsed(s, pending).1 then [SPACE] else []
  }

  lemma CollapsedByte(b: byte, rest: Text, pending: bool)
    ensures IsFolding(b) ==> CollapsedWhole([b] + rest, pending) == CollapsedWhole(rest, true)
    ensures !IsFolding(b) ==>
      CollapsedWhole([b] + rest, pending) == (if pending then [SPACE] else []) + ([b] + CollapsedWhole(rest, false))
  {
    hide Collapsed;
    CollapseByte(b, rest, pending);
    var (more, p) := Collapsed(rest, false);
    var space: Text := if p then [SPACE] else [];
    Assoc([b], more, space);
    Assoc([SPACE, b], more, space);
    assert [SPACE, b] + (more + space) == [SPACE] + ([b] + (more + space));
  }

  // It may still stand between quotes: a backslash in front of folded space escapes the
  // one space that is left of it.
  lemma {:induction false} CollapseEnclosed(s: Text, pending: bool, escaped: bool)
    requires Enclosed(s, escaped && !pending)
    ensures Enclosed(CollapsedWhole(s, pending), escaped)
  {
    hide CollapsedWhole, Enclosed;
    if s == [] {
      NothingEnclosed(pending, escaped);
    } else {
      var b, rest := s[0], s[1..];
      assert s == [b] + rest;
      CollapsedByte(b, rest, pending);
      EncloseByte(b, rest, escaped && !pending);
      if IsFolding(b) {
        CollapseEnclosed(rest, true, escaped);
      } else {
        var next := !(escaped && !pending) && b == BACKSLASH;
        CollapseEnclosed(rest, false, next);
        var tail := CollapsedWhole(rest, false);
        EncloseByte(b, tail, escaped && !pending);
        EncloseByte(SPACE, [b] + tail, escaped);
        assert [] + ([b] + tail) == [b] + tail;
      }
    }
  }

  lemma NothingEnclosed(pending: bool, escaped: bool)
    requires Enclosed([], escaped && !pending)
    ensures Enclosed(CollapsedWhole([], pending), escaped)
  {
    EncloseByte(SPACE, [], escaped);
    assert [SPACE] + [] == [SPACE];
    assert [] + [SPACE] == [SPACE];
  }

  lemma {:induction false} CollapseNothing(s: Text)
    requires forall k :: 0 <= k < |s| ==> !IsSpace(s[k])
    ensures Collapsed(s, false) == (s, false)
  {
    if s == [] {
      CollapseEmpty(false);
    } else {
      CollapseNothing(s[1..]);
      assert s == [s[0]] + s[1..];
    }
  }

  lemma {:induction false} CollapseInert(s: Text, pending: bool)
    requires Inert(s)
    ensures Inert(Collapsed(s, pending).0)
  {
    if s == [] {
      CollapseEmpty(pending);
    } else {
      CollapseInert(s[1..], true);
      CollapseInert(s[1..], false);
    }
  }

  lemma {:induction false} CollapseTight(s: Text, pending: bool)
    requires s != [] && !IsSpace(s[|s| - 1])
    ensures var (c, p) := Collapsed(s, pending);
      !p && c != [] && c[|c| - 1] == s[|s| - 1] && (!IsSpace(s[0]) && !pending ==> c[0] == s[0])
  {
    if |s| > 1 {
      assert s[1..][|s| - 2] == s[|s| - 1];
      CollapseTight(s[1..], true);
      CollapseTight(s[1..], false);
    } else {
      CollapseByte(s[0], [], pending);
      CollapseEmpty(false);
      assert s == [s[0]] + [];
    }
  }

  lemma UnfoldAddress(address: Text)
    requires forall k :: 0 <= k < |address| ==> !IsSpace(address[k])
    ensures UnfoldSpec(address + [GT], false, true) == address + [GT]
  {
    hide UnfoldSpec, Collapsed;
    CollapseNothing(address);
    UnfoldJoins(address, [GT], false);
    UnfoldByte(GT, [], false, true);
    UnfoldEnd(false, true);
    assert [GT] + [] == [GT];
  }

  lemma TailShape(address: Text, rest: Text)
    requires rest == address + [GT]
    ensures [SPACE, LT] + address + [GT] == [SPACE] + ([LT] + rest) == [SPACE, LT] + rest
  {
    Assoc([SPACE, LT], address, [GT]);
    Assoc([SPACE], [LT], rest);
  }

  // The tail of a printed mailbox, behind its display part.
  lemma UnfoldTail(address: Text)
    requires forall k :: 0 <= k < |address| ==> !IsSpace(address[k])
    ensures UnfoldSpec([SPACE, LT] + address + [GT], false, true) == [SPACE, LT] + address + [GT]
  {
    hide UnfoldSpec;
    UnfoldAddress(address);
    var rest := address + [GT];
    TailShape(address, rest);
    UnfoldByte(SPACE, [LT] + rest, false, true);
    UnfoldByte(LT, rest, true, true);
  }

  // A mailbox that went through a header value unfolds to a mailbox text around one
  // display unit again.
  lemma UnfoldShown(display: Text, name: Text, address: Text) returns (seen: Text, inner: Text)
    requires Unit(display, name) && Tight(display)
    requires forall k :: 0 <= k < |address| ==> !IsSpace(address[k])
    ensures Unit(seen, inner) && Tight(seen)
    ensures Unfolded([SPACE] + Shown(display, address)) == Shown(seen, address)
  {
    hide UnfoldSpec, Enclosed, UnescapeSpec;
    UnfoldByte(SPACE, Shown(display, address), false, false);
    if display == [] {
      seen, inner := [], [];
      UnfoldByte(LT, address + [GT], true, false);
      UnfoldAddress(address);
      assert Shown([], address) == [LT] + (address + [GT]);
    } else if Inert(display) && display == name {
      seen, inner := UnfoldInert(display, address);
    } else {
      var quoted :| QuotedUnit(display, quoted, name);
      seen, inner := UnfoldQuoted(quoted, address);
    }
  }

  lemma UnfoldInert(display: Text, address: Text) returns (seen: Text, inner: Text)
    requires display != [] && Inert(display) && Tight(display)
    requires forall k :: 0 <= k < |address| ==> !IsSpace(address[k])
    ensures Unit(seen, inner) && Tight(seen)
    ensures UnfoldSpec(Shown(display, address), true, false) == Shown(seen, address)
  {
    hide Inert, UnfoldSpec, Collapsed, Enclosed;
    var text, tail := Shown(display, address), [SPACE, LT] + address + [GT];
    UnfoldTail(address);
    CollapseInert(display, false);
    CollapseTight(display, false);
    seen := Collapsed(display, false).0;
    inner := seen;
    assert text == display + tail;
    UnfoldFirst(text);
    UnfoldJoins(display, tail, false);
    assert Shown(seen, address) == seen + tail;
  }

  // In front of any output a pending space is dropped.
  lemma UnfoldFirst(text: Text)
    requires text != [] && !IsSpace(text[0])
    ensures UnfoldSpec(text, true, false) == UnfoldSpec(text, false, true)
  {
  }

  lemma UnfoldQuoted(quoted: Text, address: Text) returns (seen: Text, inner: Text)
    requires Enclosed(quoted, false)
    requires forall k :: 0 <= k < |address| ==> !IsSpace(address[k])
    ensures Unit(seen, inner) && Tight(seen)
    ensures UnfoldSpec(Shown(InQuotes(quoted), address), true, false) == Shown(seen, address)
  {
    hide Enclosed, UnescapeSpec, Inert, UnfoldSpec, Collapsed;
    var tail := [SPACE, LT] + address + [GT];
    var closing := [DQUOTE] + tail;
    var text := Shown(InQuotes(quoted), address);
    CollapseEnclosed(quoted, false, false);
    var (c, p) := Collapsed(quoted, false);
    var space: Text := if p then [SPACE] else [];
    var whole := CollapsedWhole(quoted, false);
    inner := UnescapeSpec(whole, false);
    seen := InQuotes(whole);
    assert QuotedUnit(seen, whole, inner);
    assert text == [DQUOTE] + (quoted + closing);
    UnfoldByte(DQUOTE, quoted + closing, true, false);
    UnfoldClosing(tail, address, p);
    UnfoldJoins(quoted, closing, false);
    assert Shown(seen, address) == [DQUOTE] + (c + (space + closing));
  }

  lemma UnfoldClosing(tail: Text, address: Text, p: bool)
    requires forall k :: 0 <= k < |address| ==> !IsSpace(address[k])
    requires tail == [SPACE, LT] + address + [GT]
    ensures UnfoldSpec([DQUOTE] + tail, p, true) == (if p then [SPACE] else []) + ([DQUOTE] + tail)
  {
    hide UnfoldSpec;
    UnfoldTail(address);
    UnfoldByte(DQUOTE, tail, p, true);
    assert [SPACE, DQUOTE] + tail == [SPACE] + ([DQUOTE] + tail);
  }

  // An address that survives being written: it looks like one, is trimmed, and
  // closes its quotes.
  ghost predicate Writable(address: Text) {
    LooksLikeEmail(address) && Trim(address) == address && QuotesClosed(address, false, false)
  }

  // A mailbox written into a header and read back from it keeps its address.
  lemma HeaderKeepsAddress(name: Text, address: Text)
    requires Faithful(name) && Writable(address)
    ensures MailboxSpec(Unfolded([SPACE] + MailboxText(name, address))).Some?
    ensures MailboxSpec(Unfolded([SPACE] + MailboxText(name, address))).value.address == address
  {
    var unit := DisplayIsUnit(name);
    var seen, inner := UnfoldShown(DisplaySpec(name), unit, address);
    ShownIsRead(seen, inner, address);
  }

  // Which configured headers could displace the rewritten From.
  ghost predicate LeavesFrom(cfg: Config) {
    && (forall k :: 0 <= k < |cfg.removeHeaders| ==> ToLower(cfg.removeHeaders[k]) != ToLower(Ascii("From")))
    && (forall k :: 0 <= k < |cfg.extraHeaders| ==> ToLower(cfg.extraHeaders[k].name) != ToLower(Ascii("From")))
  }

  lemma FromIsSpared(ctx: Context, wanted: Text -> bool)
    requires LeavesFrom(ctx.cfg)
    requires forall n :: wanted(n) <==> n == ToLower(Ascii("From"))
    ensures SparesLate(ctx, wanted)
  {
    var from := ToLower(Ascii("From"));
    assert |from| == 4 && from[0] == 102;
    assert ToLower(Ascii("Date"))[0] == 100;
    assert ToLower(Ascii("arc-"))[0] == 97;
  }

  // The display name the rewrite puts in front of the relay's address.
  ghost function KeptName(original: Option<Mailbox>, cfg: Config): Text {
    if cfg.preserveDisplayName && original.Some? then original.value.displayName else []
  }

  // When From is rewritten, the From that goes out reads as the mailbox written into it.
  lemma OutgoingFromIs(headers: seq<Header>, ctx: Context)
    requires RewritesFrom(ctx) && LeavesFrom(ctx.cfg)
    ensures OriginalFrom(RewriteSpec(headers, ctx))
      == MailboxSpec(Unfolded([SPACE] + MailboxText(KeptName(OriginalFrom(headers), ctx.cfg), Identity(ctx.relay))))
  {
    hide Keep, SetIn, LateStages, FromText, ReplyToInjected, SparesLate, Identity, MailboxSpec, MailboxText, Unfolded,
         Ascii, ToLower;
    var from := ToLower(Ascii("From"));
    var wanted := (n: Text) => n == from;
    var original := OriginalFrom(headers);
    var h := SetOptional(headers, Ascii("Reply-To"), ReplyToInjected(headers, ctx.cfg));
    var value := FromText(original, ctx);
    var early := FromStage(h, original, ctx);
    FromIsSpared(ctx, wanted);
    KeepLate(early, original, ctx, wanted);
    SetLeavesOne(h, Ascii("From"), value, wanted);
    FirstOfKept(RewriteSpec(headers, ctx), from, wanted);
    FromTextIsMailbox(original, ctx);
  }

  // It holds exactly the relay's own address, and with alignment on that is also MAIL FROM,
  // if the display name it keeps is faithfully written.
  lemma OutgoingFrom(headers: seq<Header>, ctx: Context)
    requires RewritesFrom(ctx) && LeavesFrom(ctx.cfg)
    requires Writable(Identity(ctx.relay)) && Faithful(KeptName(OriginalFrom(headers), ctx.cfg))
    ensures OriginalFrom(RewriteSpec(headers, ctx)).Some?
    ensures OriginalFrom(RewriteSpec(headers, ctx)).value.address == Identity(ctx.relay)
    ensures Aligns(ctx) ==>
      EnvelopeFrom(OriginalFrom(headers), ctx) == OriginalFrom(RewriteSpec(headers, ctx)).value.address
  {
    hide RewriteSpec, OriginalFrom, Identity, MailboxSpec, MailboxText, Unfolded, Writable, Faithful, KeptName;
    OutgoingFromIs(headers, ctx);
    HeaderKeepsAddress(KeptName(OriginalFrom(headers), ctx.cfg), Identity(ctx.relay));
  }

  // If it is not, another address may be read: this name misleads whatever the relay is.
  lemma MisleadingFrom(headers: seq<Header>, ctx: Context)
    requires RewritesFrom(ctx) && LeavesFrom(ctx.cfg) && KeptName(OriginalFrom(headers), ctx.cfg) == MISLEADING
    ensures OriginalFrom(RewriteSpec(headers, ctx)).Some?
    ensures OriginalFrom(RewriteSpec(headers, ctx)).value.address == MISLEADING[..3]
  {
    hide RewriteSpec, OriginalFrom, Identity, MailboxSpec, Unfolded, KeptName, UnfoldSpec;
    OutgoingFromIs(headers, ctx);
    TrimTight(MISLEADING);
    var rest := [QUESTION, EQUALS, SPACE, LT] + Identity(ctx.relay) + [GT];
    assert [SPACE] + MailboxText(MISLEADING, Identity(ctx.relay))
      == [SPACE] + ([EQUALS] + ([QUESTION] + ([AT] + ([COMMA] + rest))));
    UnfoldMisleading(rest);
    MisleadsReaders(UnfoldSpec(rest, false, true));
  }

  lemma UnfoldMisleading(rest: Text)
    ensures Unfolded([SPACE] + ([EQUALS] + ([QUESTION] + ([AT] + ([COMMA] + rest)))))
      == MISLEADING[..4] + UnfoldSpec(rest, false, true)
  {
    hide UnfoldSpec;
    UnfoldByte(COMMA, rest, false, true);
    UnfoldByte(AT, [COMMA] + rest, false, true);
    UnfoldByte(QUESTION, [AT] + ([COMMA] + rest), false, true);
    UnfoldByte(EQUALS, [QUESTION] + ([AT] + ([COMMA] + rest)), true, false);
    UnfoldByte(SPACE, [EQUALS] + ([QUESTION] + ([AT] + ([COMMA] + rest))), false, false);
  }

  lemma FromTextIsMailbox(original: Option<Mailbox>, ctx: Context)
    ensures FromText(original, ctx) == MailboxText(KeptName(original, ctx.cfg), Identity(ctx.relay))
  {
  }

  // -- framing ---------------------------------------------------------------------------

  // Nothing in the configuration or the session holds a line feed, and the names
  // it writes are field names.
  ghost predicate CleanContext(ctx: Context) {
    && (forall k :: 0 <= k < |ctx.cfg.extraHeaders| ==>
      LF !in ctx.cfg.extraHeaders[k].value
      && (Trim(ctx.cfg.extraHeaders[k].name) != [] ==> FieldName(ctx.cfg.extraHeaders[k].name)))
    && (ctx.cfg.xMailer.Some? ==> LF !in ctx.cfg.xMailer.value)
    && (ctx.cfg.replyToFallback.Some? ==> LF !in ctx.cfg.replyToFallback.value)
    && (ctx.relay.username.Some? ==> LF !in ctx.relay.username.value)
    && (ctx.clientIp.Some? ==> LF !in ctx.clientIp.value)
    && LF !in ctx.relay.id && LF !in ctx.relay.fromAddress && LF !in ctx.hostname && LF !in ctx.queueId
    && LF !in ctx.clientHelo && LF !in ctx.originalSender && LF !in ctx.date
  }

  // Unfolding and mailbox parsing produce only bytes they were given.
  lemma {:induction false} UnfoldInvents(raw: Text, pending: bool, started: bool)
    ensures LF !in UnfoldSpec(raw, pending, started)
  {
    if raw != [] {
      UnfoldInvents(raw[1..], true, started);
      UnfoldInvents(raw[1..], false, true);
    }
  }

  lemma {:induction false} CommentsInvent(s: Text, d: nat, q: bool, e: bool)
    ensures LF !in s ==> LF !in CommentsSpec(s, d, q, e)
  {
    if s != [] {
      CommentsInvent(s[1..], d, q, false);
      CommentsInvent(s[1..], d, q, true);
      CommentsInvent(s[1..], d, !q, false);
      CommentsInvent(s[1..], d + 1, q, false);
      if d > 0 {
        CommentsInvent(s[1..], d - 1, q, false);
      }
    }
  }

  lemma {:induction false} UnescapeInvents(s: Text, e: bool)
    ensures LF !in s ==> LF !in UnescapeSpec(s, e)
  {
    if s != [] {
      UnescapeInvents(s[1..], true);
      UnescapeInvents(s[1..], false);
    }
  }

  lemma UnquoteInvents(s: Text)
    ensures LF !in s ==> LF !in Unquoted(s)
  {
    var trimmed := Trim(s);
    TrimIsTight(s);
    if QuotedShape(trimmed) {
      var inner := trimmed[1..|trimmed| - 1];
      UnescapeInvents(inner, false);
      TrimIsTight(UnescapeSpec(inner, false));
    }
  }

  lemma RouteInvents(s: Text)
    ensures LF !in s ==> LF !in StripSourceRoute(s)
  {
    TrimIsTight(s);
    var trimmed := Trim(s);
    var colon := IndexOf(trimmed, COLON);
    if colon < |trimmed| {
      TrimIsTight(trimmed[colon + 1..]);
    }
  }

  lemma {:induction false} TokenInvents(s: Text, token: Text)
    ensures LF !in token && AddressToken(s, token).Some? ==> LF !in AddressToken(s, token).value
  {
    if s != [] {
      TokenInvents(s[1..], []);
      if !IsSpace(s[0]) {
        TokenInvents(s[1..], token + [s[0]]);
      }
    }
  }

  lemma SingleInvents(entry: Text)
    requires LF !in entry
    ensures SingleSpec(entry).Some?
      ==> LF !in SingleSpec(entry).value.displayName && LF !in SingleSpec(entry).value.address
  {
    hide CommentsSpec, Unquoted, StripSourceRoute, AddressToken, AngleAddr, Trim;
    var text := Trim(entry);
    TrimIsTight(entry);
    AngleBounds(text);
    CommentsInvent(text, 0, false, false);
    if AngleAddr(text).Some? {
      var pair := AngleAddr(text).value;
      var inside, front := text[pair.0 + 1..pair.1], text[..pair.0];
      TrimIsTight(inside);
      RouteInvents(Trim(inside));
      CommentsInvent(front, 0, false, false);
      var display := CommentsSpec(front, 0, false, false);
      TrimIsTight(display);
      UnquoteInvents(Trim(display));
    } else {
      var bare := CommentsSpec(text, 0, false, false);
      TrimIsTight(bare);
      TokenInvents(Trim(bare), []);
      if AddressToken(Trim(bare), []).Some? {
        RouteInvents(AddressToken(Trim(bare), []).value);
      }
      CommentInvents(text);
    }
  }

  lemma CommentInvents(text: Text)
    requires LF !in text
    ensures CommentIn(text).Some? ==> LF !in CommentIn(text).value
  {
    var start, end := IndexOf(text, LPAREN), LastIndexOf(text, RPAREN);
    if start < |text| && end < |text| && end > start + 1 {
      TrimIsTight(text[start + 1..end]);
    }
  }

  lemma {:induction false} PartsInvent(s: Text, current: Text, q: bool, e: bool, a: nat, c: nat)
    requires LF !in s && LF !in current
    ensures forall k :: 0 <= k < |PartsSpec(s, current, q, e, a, c)| ==> LF !in PartsSpec(s, current, q, e, a, c)[k]
  {
    TrimIsTight(current);
    if s != [] {
      var rest, more := s[1..], current + [s[0]];
      if e {
        PartsInvent(rest, more, q, false, a, c);
      } else if s[0] == BACKSLASH {
        PartsInvent(rest, more, q, true, a, c);
      } else if s[0] == DQUOTE {
        PartsInvent(rest, more, !q, false, a, c);
      } else {
        PartsInvent(rest, more, q, false, a, c);
        PartsInvent(rest, more, q, false, a + 1, c);
        PartsInvent(rest, more, q, false, if a > 0 then a - 1 else 0, c);
        PartsInvent(rest, more, q, false, a, c + 1);
        PartsInvent(rest, more, q, false, a, if c > 0 then c - 1 else 0);
        PartsInvent(rest, [], q, false, a, c);
      }
    }
  }

  lemma MailboxInvents(value: Text)
    requires LF !in value
    ensures MailboxSpec(value).Some?
      ==> LF !in MailboxSpec(value).value.displayName && LF !in MailboxSpec(value).value.address
  {
    var trimmed := Trim(value);
    TrimIsTight(value);
    PartsInvent(trimmed, [], false, false, 0, 0);
    var parts := PartsSpec(trimmed, [], false, false, 0, 0);
    SingleInvents(trimmed);
    if parts != [] {
      SingleInvents(parts[0]);
    }
  }

  lemma {:induction false} OriginalFromIsClean(headers: seq<Header>)
    ensures var original := OriginalFrom(headers);
      original.Some? ==> LF !in original.value.displayName && LF !in original.value.address
  {
    hide UnfoldSpec, MailboxSpec;
    match FirstNamed(headers, ToLower(Ascii("From")))
    case None =>
    case Some(h) =>
      UnfoldInvents(h.rawValue, false, false);
      MailboxInvents(Unfolded(h.rawValue));
  }

  lemma {:induction false} EscapeInvents(s: Text)
    ensures LF !in s ==> LF !in Escape(s)
    ensures LF !in NoControls(s)
  {
    if s != [] {
      EscapeInvents(s[1..]);
    }
  }

  lemma LiteralIsClean(s: string)
    requires forall k :: 0 <= k < |s| ==> 32 <= s[k] as int < 128
    ensures LF !in Ascii(s)
  {
  }

  lemma DisplayIsClean(name: Text)
    requires LF !in name
    ensures LF !in DisplaySpec(name)
  {
    var trimmed := Trim(name);
    TrimIsTight(name);
    EscapeInvents(trimmed);
    EscapeInvents(NoControls(trimmed));
    hide Escape, NoControls, Base64, Trim;
    LiteralIsClean("=?UTF-8?B?");
  }

  lemma MailboxTextIsClean(name: Text, address: Text)
    requires LF !in name && LF !in address
    ensures LF !in MailboxText(name, address)
  {
    hide DisplaySpec;
    DisplayIsClean(name);
  }

  // -- every stage keeps the list printable

  lemma WrittenIsPrintable(name: Text, value: Text)
    requires FieldName(name) && LF !in value
    ensures Printable([Written(name, value)])
  {
  }

  lemma {:induction false} WithoutIsPrintable(headers: seq<Header>, needle: Text)
    requires Printable(headers)
    ensures Printable(Without(headers, needle))
  {
    if headers != [] {
      WithoutIsPrintable(headers[1..], needle);
    }
  }

  lemma {:induction false} WithoutPrefixIsPrintable(headers: seq<Header>, prefix: Text)
    requires Printable(headers)
    ensures Printable(WithoutPrefix(headers, prefix))
  {
    if headers != [] {
      WithoutPrefixIsPrintable(headers[1..], prefix);
    }
  }

  lemma SetIsPrintable(headers: seq<Header>, name: Text, value: Text)
    requires Printable(headers) && FieldName(name) && LF !in value
    ensures Printable(SetIn(headers, name, value)) && SetIn(headers, name, value) != []
  {
    var i := Position(headers, ToLower(name));
    WrittenIsPrintable(name, value);
    if i < |headers| {
      WithoutIsPrintable(headers[i + 1..], ToLower(name));
    }
  }

  lemma {:induction false} RemoveEachIsPrintable(headers: seq<Header>, names: seq<Text>)
    requires Printable(headers)
    ensures Printable(RemoveEach(headers, names))
    decreases |names|
  {
    if names != [] {
      WithoutIsPrintable(headers, ToLower(names[0]));
      RemoveEachIsPrintable(Without(headers, ToLower(names[0])), names[1..]);
    }
  }

  lemma {:induction false} SetEachIsPrintable(headers: seq<Header>, rules: seq<HeaderRule>)
    requires Printable(headers)
    requires forall k :: 0 <= k < |rules| ==>
      LF !in rules[k].value && (Trim(rules[k].name) != [] ==> FieldName(rules[k].name))
    ensures Printable(SetEach(headers, rules))
    decreases |rules|
  {
    if rules != [] {
      if Trim(rules[0].name) == [] {
        SetEachIsPrintable(headers, rules[1..]);
      } else {
        SetIsPrintable(headers, rules[0].name, rules[0].value);
        SetEachIsPrintable(SetIn(headers, rules[0].name, rules[0].value), rules[1..]);
      }
    }
  }

  lemma JoinIsPrintable(a: seq<Header>, b: seq<Header>)
    requires Printable(a) && Printable(b)
    ensures Printable(a + b)
  {
  }

  lemma LiteralName(s: string)
    requires s != [] && forall k :: 0 <= k < |s| ==> 33 <= s[k] as int <= 126 && s[k] != ':'
    ensures FieldName(Ascii(s))
  {
  }

  lemma HeaderNames()
    ensures FieldName(Ascii("Reply-To")) && FieldName(Ascii("From")) && FieldName(Ascii("Sender"))
    ensures FieldName(Ascii("Return-Path")) && FieldName(Ascii("X-Sender")) && FieldName(Ascii("Date"))
    ensures FieldName(Ascii("Message-ID")) && FieldName(Ascii("X-Mailer")) && FieldName(Ascii("Received"))
    ensures FieldName(Ascii("X-Relay-Node")) && FieldName(Ascii("X-Relay-Queue-Id"))
    ensures FieldName(Ascii("X-Original-From")) && FieldName(Ascii("X-Original-Envelope-From"))
  {
    LiteralName("Reply-To");
    LiteralName("From");
    LiteralName("Sender");
    LiteralName("Return-Path");
    LiteralName("X-Sender");
    LiteralName("Date");
    LiteralName("Message-ID");
    LiteralName("X-Mailer");
    LiteralName("Received");
    LiteralName("X-Relay-Node");
    LiteralName("X-Relay-Queue-Id");
    LiteralName("X-Original-From");
    LiteralName("X-Original-Envelope-From");
  }

  lemma SetMaybe(headers: seq<Header>, name: Text, value: Text, yes: bool)
    requires Printable(headers) && (yes ==> FieldName(name) && LF !in value)
    ensures Printable(if yes then SetIn(headers, name, value) else headers)
  {
    if yes {
      SetIsPrintable(headers, name, value);
    }
  }

  lemma AddMaybe(headers: seq<Header>, name: Text, value: Text, yes: bool)
    requires Printable(headers) && (yes ==> FieldName(name) && LF !in value)
    ensures Printable(if yes then headers + [Written(name, value)] else headers)
  {
    if yes {
      WrittenIsPrintable(name, value);
    }
  }

  lemma IdentityIsClean(ctx: Context)
    requires CleanContext(ctx)
    ensures LF !in Identity(ctx.relay)
  {
    TrimIsTight(ctx.relay.fromAddress);
    if ctx.relay.username.Some? {
      TrimIsTight(ctx.relay.username.value);
    }
  }

  lemma ReplyToIsClean(headers: seq<Header>, ctx: Context)
    requires CleanContext(ctx)
    ensures ReplyToInjected(headers, ctx.cfg).Some? ==> LF !in ReplyToInjected(headers, ctx.cfg).value
  {
    hide OriginalFrom, LooksLikeEmail, MailboxText, ValueOf;
    OriginalFromIsClean(headers);
    var from := OriginalFrom(headers);
    if from.Some? {
      MailboxTextIsClean(from.value.displayName, from.value.address);
    }
  }

  ghost predicate CleanMailbox(original: Option<Mailbox>) {
    original.Some? ==> LF !in original.value.displayName && LF !in original.value.address
  }

  lemma IdentityStageIsPrintable(headers: seq<Header>, ctx: Context)
    requires Printable(headers) && CleanContext(ctx)
    ensures Printable(IdentityStage(headers, ctx))
  {
    hide Printable, SetIn, Identity, FirstNamed, Ascii, ToLower, CleanContext;
    HeaderNames();
    IdentityIsClean(ctx);
    var identity := Identity(ctx.relay);
    if RewritesFrom(ctx) {
      SetMaybe(headers, Ascii("Sender"), Bracketed(identity), FirstNamed(headers, ToLower(Ascii("Sender"))).Some?);
      var h := SetIfHas(headers, Ascii("Sender"), Bracketed(identity));
      SetMaybe(h, Ascii("Return-Path"), Bracketed(identity), FirstNamed(h, ToLower(Ascii("Return-Path"))).Some?);
      h := SetIfHas(h, Ascii("Return-Path"), Bracketed(identity));
      SetMaybe(h, Ascii("X-Sender"), identity, FirstNamed(h, ToLower(Ascii("X-Sender"))).Some?);
    }
  }

  lemma StripStageIsPrintable(headers: seq<Header>, cfg: Config)
    requires Printable(headers)
    ensures Printable(StripStage(headers, cfg))
  {
    hide Printable, Without, WithoutPrefix, RemoveEach, Ascii, ToLower;
    var h := headers;
    if cfg.stripDkim {
      RemoveEachIsPrintable(h, SIGNATURE_HEADERS);
      h := RemoveEach(h, SIGNATURE_HEADERS);
    }
    if cfg.stripArc {
      WithoutPrefixIsPrintable(h, ToLower(Ascii("arc-")));
      h := WithoutPrefix(h, ToLower(Ascii("arc-")));
      RemoveEachIsPrintable(h, ARC_HEADERS);
      h := RemoveEach(h, ARC_HEADERS);
    }
    if cfg.stripBcc {
      WithoutIsPrintable(h, ToLower(Ascii("Bcc")));
      h := Without(h, ToLower(Ascii("Bcc")));
    }
    if cfg.stripReceived {
      WithoutIsPrintable(h, ToLower(Ascii("Received")));
      h := Without(h, ToLower(Ascii("Received")));
    }
    RemoveEachIsPrintable(h, cfg.removeHeaders);
  }

  lemma MessageIdIsClean(original: Option<Mailbox>, ctx: Context)
    requires CleanContext(ctx) && CleanMailbox(original)
    ensures LF !in GeneratedMessageId(original, ctx)
  {
    IdentityIsClean(ctx);
    LiteralIsClean("localhost");
  }

  lemma RequiredStageIsPrintable(headers: seq<Header>, original: Option<Mailbox>, ctx: Context)
    requires Printable(headers) && CleanContext(ctx) && CleanMailbox(original)
    ensures Printable(RequiredStage(headers, original, ctx))
  {
    hide Printable, SetIn, FirstNamed, ValueOf, NonBlank, GeneratedMessageId, Ascii, ToLower;
    HeaderNames();
    MessageIdIsClean(original, ctx);
    var needsDate := ctx.cfg.ensureDate && FirstNamed(headers, ToLower(Ascii("Date"))).None?;
    SetMaybe(headers, Ascii("Date"), ctx.date, needsDate);
    var h := if needsDate then SetIn(headers, Ascii("Date"), ctx.date) else headers;
    var id := GeneratedMessageId(original, ctx);
    var needsId := ctx.cfg.ensureMessageId && NonBlank(ValueOf(h, Ascii("Message-ID"))).None?;
    SetMaybe(h, Ascii("Message-ID"), id, needsId);
    h := if needsId then SetIn(h, Ascii("Message-ID"), id) else h;
    if ctx.cfg.xMailer.Some? {
      SetMaybe(h, Ascii("X-Mailer"), ctx.cfg.xMailer.value, true);
    }
  }

  // Three folded lines, each without a line feed of its own.
  lemma FoldsAreFolded(a: Text, b: Text, c: Text)
    requires LF !in a && LF !in b && LF !in c
    ensures Folded([SPACE] + (a + CRLF + [TAB] + b + CRLF + [TAB] + c))
  {
    var v := [SPACE] + (a + CRLF + [TAB] + b + CRLF + [TAB] + c);
    var first, second := |a| + 2, |a| + |b| + 5;
    assert v[first - 1] == CR && v[first + 1] == TAB && v[second - 1] == CR && v[second + 1] == TAB;
    forall k | 0 <= k < |v| && v[k] == LF
      ensures k == first || k == second
    {
    }
  }

  lemma ReceivedIsClean(ctx: Context)
    requires CleanContext(ctx)
    ensures LF !in ReceivedFrom(ctx) && LF !in ReceivedBy(ctx) && LF !in ReceivedFor(ctx)
  {
    hide Ascii;
    LiteralIsClean("from ");
    LiteralIsClean("unknown");
    LiteralIsClean(" ([");
    LiteralIsClean("])");
    LiteralIsClean(" (local)");
    LiteralIsClean("by ");
    LiteralIsClean(" (smtp-relay) with ESMTPA id ");
    LiteralIsClean("for relay ");
    LiteralIsClean("; ");
  }

  lemma ReceivedIsPrintable(ctx: Context)
    requires CleanContext(ctx)
    ensures Printable([Written(Ascii("Received"), ReceivedText(ctx))])
  {
    hide Ascii, Folded, FieldName, ReceivedFrom, ReceivedBy, ReceivedFor, CleanContext;
    HeaderNames();
    ReceivedIsClean(ctx);
    FoldsAreFolded(ReceivedFrom(ctx), ReceivedBy(ctx), ReceivedFor(ctx));
  }

  lemma TraceStageIsPrintable(headers: seq<Header>, original: Option<Mailbox>, ctx: Context)
    requires Printable(headers) && CleanContext(ctx) && CleanMailbox(original)
    ensures Printable(TraceStage(headers, original, ctx))
  {
    hide Printable, Written, SetEach, ReceivedText, MailboxText, Ascii, ToLower;
    HeaderNames();
    var add := ctx.cfg.addRelayHeaders;
    AddMaybe(headers, Ascii("X-Relay-Node"), ctx.relay.id, add);
    var h := if add then headers + [Written(Ascii("X-Relay-Node"), ctx.relay.id)] else headers;
    AddMaybe(h, Ascii("X-Relay-Queue-Id"), ctx.queueId, add);
    h := if add then h + [Written(Ascii("X-Relay-Queue-Id"), ctx.queueId)] else h;
    if original.Some? {
      var from := MailboxText(original.value.displayName, original.value.address);
      MailboxTextIsClean(original.value.displayName, original.value.address);
      AddMaybe(h, Ascii("X-Original-From"), from, add);
      h := if add then h + [Written(Ascii("X-Original-From"), from)] else h;
    }
    var known := add && ctx.originalSender != [];
    AddMaybe(h, Ascii("X-Original-Envelope-From"), ctx.originalSender, known);
    h := if known then h + [Written(Ascii("X-Original-Envelope-From"), ctx.originalSender)] else h;
    SetEachIsPrintable(h, ctx.cfg.extraHeaders);
    h := SetEach(h, ctx.cfg.extraHeaders);
    if ctx.cfg.addReceived {
      ReceivedIsPrintable(ctx);
      JoinIsPrintable([Written(Ascii("Received"), ReceivedText(ctx))], h);
    }
  }

  lemma RewriteIsPrintable(headers: seq<Header>, ctx: Context)
    requires Printable(headers) && CleanContext(ctx)
    ensures Printable(RewriteSpec(headers, ctx))
  {
    hide Printable, SetIn, OriginalFrom, ReplyToInjected, Identity, MailboxText, CleanContext, IdentityStage,
         StripStage, RequiredStage, TraceStage, Ascii, ToLower;
    HeaderNames();
    var original := OriginalFrom(headers);
    OriginalFromIsClean(headers);
    ReplyToIsClean(headers, ctx);
    var injected := ReplyToInjected(headers, ctx.cfg);
    var h := SetOptional(headers, Ascii("Reply-To"), injected);
    if injected.Some? {
      SetIsPrintable(headers, Ascii("Reply-To"), injected.value);
    }
    IdentityIsClean(ctx);
    NothingIsClean();
    FromTextIsMailbox(original, ctx);
    MailboxTextIsClean(KeptName(original, ctx.cfg), Identity(ctx.relay));
    SetMaybe(h, Ascii("From"), FromText(original, ctx), RewritesFrom(ctx));
    var early := FromStage(h, original, ctx);
    IdentityStageIsPrintable(early, ctx);
    var identified := IdentityStage(early, ctx);
    StripStageIsPrintable(identified, ctx.cfg);
    var stripped := StripStage(identified, ctx.cfg);
    RequiredStageIsPrintable(stripped, original, ctx);
    TraceStageIsPrintable(RequiredStage(stripped, original, ctx), original, ctx);
  }

  lemma NothingIsClean()
    ensures LF !in []
  {
  }

  // The whole promise, on the bytes that go out: a receiver that parses them finds
  // the same body, byte for byte, the untouched headers in their order and with
  // their bytes, and the rewritten list around them.
  lemma {:induction false} RewriteKeepsMessage(raw: Text, headers: seq<Header>, body: Text, ctx: Context,
          wanted: Text -> bool)
    requires Printable(headers) && headers != []
    requires raw == PrintFields(headers, false) + CRLF + body
    requires CleanContext(ctx) && Spares(ctx, wanted)
    requires RewriteSpec(headers, ctx) != []
    ensures var parsed := ParseSpec(raw);
      var out := PrintSpec(parsed.(headers := RewriteSpec(parsed.headers, ctx)));
      && ParseSpec(out) == Contents(RewriteSpec(headers, ctx), body, false)
      && Keep(ParseSpec(out).headers, wanted) == Keep(headers, wanted)
  {
    hide ParseSpec, PrintSpec, RewriteSpec, Keep, CleanContext, Spares, Printable;
    Headers.RoundTrip(headers, body);
    PrintedAs(raw, headers, body);
    RewriteIsPrintable(headers, ctx);
    Headers.RoundTrip(RewriteSpec(headers, ctx), body);
    OtherHeadersKept(headers, ctx, wanted);
  }

  lemma PrintedAs(raw: Text, headers: seq<Header>, body: Text)
    requires raw == PrintFields(headers, false) + CRLF + body
    ensures raw == PrintSpec(Contents(headers, body, false))
  {
  }
}
