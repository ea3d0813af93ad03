// One delivery round of a message: relays are tried one after the other, each with
// a reserved send slot (src/dispatch.rs, attempt_delivery).
module Dispatch {
  import opened Bytes
  import opened Wrappers
  import opened Selection

  // What the upstream said of an offer.
  datatype Reply = Good | TryLater | Never

  // What one turn of the loop meets: the relays as they are then, whether the slot
  // could still be reserved, whether the message could be rewritten for the relay,
  // and what the relay answered.
  datatype Turn = Turn(relays: seq<RelayView>, granted: bool, rewritable: bool, reply: Reply)

  datatype Policy = Policy(perMessage: nat, fallback: bool, validate: bool)

  datatype Outcome = Delivered(relay: Text) | Deferred | Failed

  // How a relay fared.
  datatype Fate = NoQuota | Unwritable | Accepted | Transient | Permanent

  datatype Trial = Trial(relay: Text, fate: Fate)

  // What is done to a relay's state on the way.
  datatype Act =
    | Reserve(relay: Text)
    | Release(relay: Text)
    | BeginDelivery(relay: Text)
    | EndDelivery(relay: Text)
    | Offer(relay: Text)
    | RecordDelivery(relay: Text)
    | RecordDeferral(relay: Text)
    | RecordPermanentFailure(relay: Text)

  function Rounds(p: Policy): (n: nat)
    ensures n >= 1
  {
    if p.perMessage == 0 then 1 else p.perMessage
  }

  // -- what a trace of trials amounts to -----------------------------------------------

  function IdsOf(trace: seq<Trial>): (r: seq<Text>)
    ensures |r| == |trace| && forall k :: 0 <= k < |trace| ==> r[k] == trace[k].relay
  {
    if trace == [] then [] else IdsOf(trace[..|trace| - 1]) + [trace[|trace| - 1].relay]
  }

  function ActsOf(t: Trial): seq<Act> {
    var r := t.relay;
    match t.fate
    case NoQuota => []
    case Unwritable => [Reserve(r), BeginDelivery(r), Release(r), EndDelivery(r)]
    case Accepted => [Reserve(r), BeginDelivery(r), Offer(r), RecordDelivery(r), EndDelivery(r)]
    case Transient => [Reserve(r), BeginDelivery(r), Offer(r), Release(r), RecordDeferral(r), EndDelivery(r)]
    case Permanent => [Reserve(r), BeginDelivery(r), Offer(r), Release(r), RecordPermanentFailure(r), EndDelivery(r)]
  }

  function ActsOfAll(trace: seq<Trial>): seq<Act> {
    if trace == [] then [] else ActsOfAll(trace[..|trace| - 1]) + ActsOf(trace[|trace| - 1])
  }

  // Ids a message was tried with, new ones behind the old, none twice.
  function Merged(tried: seq<Text>, ids: seq<Text>): seq<Text> {
    if ids == [] then tried
    else
      var before := Merged(tried, ids[..|ids| - 1]);
      if ids[|ids| - 1] in before then before else before + [ids[|ids| - 1]]
  }

  function Kept(recipients: seq<Text>, deliver: Text -> bool): seq<Text> {
    if recipients == [] then []
    else (if deliver(recipients[0]) then [recipients[0]] else []) + Kept(recipients[1..], deliver)
  }

  // The recipients that are let through, in their order and as often as they are listed.
  lemma {:induction false} KeptJoin(recipients: seq<Text>, more: seq<Text>, deliver: Text -> bool)
    ensures Kept(recipients + more, deliver) == Kept(recipients, deliver) + Kept(more, deliver)
    ensures |recipients| == 1 ==> Kept(recipients, deliver) == if deliver(recipients[0]) then recipients else []
  {
    if recipients == [] {
      assert [] + more == more;
    } else {
      KeptJoin(recipients[1..], more, deliver);
      assert (recipients + more)[1..] == recipients[1..] + more;
      var first := if deliver(recipients[0]) then [recipients[0]] else [];
      assert first + (Kept(recipients[1..], deliver) + Kept(more, deliver))
        == (first + Kept(recipients[1..], deliver)) + Kept(more, deliver);
    }
  }

  predicate Goes(p: Policy, t: Trial) {
    t.fate == NoQuota || (t.fate == Transient && p.fallback)
  }

  // Every trial but the last let the loop go on, and the last one, or there being
  // none, explains the outcome.
  ghost predicate Explained(p: Policy, outcome: Outcome, trace: seq<Trial>, nobody: bool) {
    && |trace| <= Rounds(p)
    && (forall k :: 0 <= k < |trace| - 1 ==> Goes(p, trace[k]))
    && (nobody ==> outcome == Failed && trace == [])
    && (outcome.Delivered? ==> trace != [] && trace[|trace| - 1] == Trial(outcome.relay, Accepted))
    && (outcome.Failed? && !nobody ==> trace != [] && trace[|trace| - 1].fate in {Permanent, Unwritable})
    && (outcome.Deferred? ==> trace != [] ==> trace[|trace| - 1].fate in {NoQuota, Transient})
  }

  // A round that was deferred before its turns were up ran out of relays.
  ghost predicate RanOut(p: Policy, router: Router, trace: seq<Trial>, turns: seq<Turn>, request: Request) {
    |trace| < Rounds(p) && |trace| < |turns| && (trace != [] ==> Goes(p, trace[|trace| - 1])) ==>
      Decide(router.details, router.routing, turns[|trace|].relays, request.(exclude := IdsOf(trace))).Refused?
  }

  ghost predicate Distinct(ids: seq<Text>) {
    forall j, k :: 0 <= j < k < |ids| ==> ids[j] != ids[k]
  }

  // -- the message and the round --------------------------------------------------------

  class Message {
    const originalFrom: Text
    const authUser: Option<Text>
    const helo: Text
    var attempts: nat
    var recipients: seq<Text>
    var triedRelays: seq<Text>

    constructor (originalFrom: Text, authUser: Option<Text>, helo: Text, recipients: seq<Text>)
      ensures this.originalFrom == originalFrom && this.authUser == authUser && this.helo == helo
      ensures attempts == 0 && this.recipients == recipients && triedRelays == []
    {
      this.originalFrom, this.authUser, this.helo, this.recipients := originalFrom, authUser, helo, recipients;
      attempts, triedRelays := 0, [];
    }

    function RequestFor(exclude: seq<Text>): Request
      reads this
    {
      Request(originalFrom, recipients, exclude, authUser, helo)
    }
  }

  // Each trial fared as its turn had it.
  ghost predicate Fates(trace: seq<Trial>, turns: seq<Turn>) {
    |trace| <= |turns| && forall k :: 0 <= k < |trace| ==> FateOf(turns[k]) == trace[k].fate
  }

  // What the router may choose: the relay its decision names, and where the strategy decides
  // without a memory of earlier choices, the one it prefers.
  ghost predicate PicksAt(router: Router, relays: seq<RelayView>, request: Request, p: nat) {
    && p < |relays| && Open(relays[p], request)
    && match Decide(router.details, router.routing, relays, request)
       case Refused(_) => false
       case Fixed(route) => p == route.position
       case Hashed(candidates, key) => HashedTo(relays, candidates, router.stableHash(key), p)
       case Strategic(candidates) =>
         && p in candidates && Among(relays, candidates)
         && (router.routing.strategy.LeastUsed? ==> p == LeastUsedOf(relays, candidates))
         && (router.routing.strategy.Failover? ==> p == FirstRanked(relays, candidates))
  }

  ghost predicate Picks(router: Router, relays: seq<RelayView>, request: Request, id: Text) {
    exists p: nat :: p < |relays| && PicksAt(router, relays, request, p) && relays[p].id == id
  }

  // Each relay was the router's choice when its turn came, those before it left out.
  ghost predicate Chosen(router: Router, trace: seq<Trial>, turns: seq<Turn>, request: Request) {
    |trace| <= |turns|
    && forall k :: 0 <= k < |trace| ==>
      Picks(router, turns[k].relays, request.(exclude := IdsOf(trace[..k])), trace[k].relay)
  }

  // The id of the relay the selector chooses.
  method NextRelay(router: Router, relays: seq<RelayView>, request: Request) returns (id: Option<Text>)
    requires router.Shows(relays)
    modifies router`cursor, router.pool`smoothWeights
    ensures id.None? <==> Decide(router.details, router.routing, relays, request).Refused?
    ensures id.Some? ==> id.value !in request.exclude && Picks(router, relays, request, id.value)
  {
    hide Decide, HashedTo, LeastUsedOf, FirstRanked;
    var route := router.Select(relays, request);
    assert route.Ok? ==> PicksAt(router, relays, request, route.value.position);
    id := if route.Ok? then Some(relays[route.value.position].id) else None;
  }

  // deliver tells which recipients the address checks let through.
  method AttemptDelivery(router: Router, message: Message, policy: Policy, turns: seq<Turn>, deliver: Text -> bool)
    returns (outcome: Outcome, trace: seq<Trial>, acts: seq<Act>)
    requires |turns| >= Rounds(policy) && forall k :: 0 <= k < |turns| ==> router.Shows(turns[k].relays)
    modifies message, router`cursor, router.pool`smoothWeights
    ensures message.attempts == old(message.attempts) + 1
    ensures var checked := policy.validate && old(message.attempts) == 0;
      var valid := if checked then Kept(old(message.recipients), deliver) else old(message.recipients);
      && message.recipients == (if checked && valid == [] then old(message.recipients) else valid)
      && Explained(policy, outcome, trace, checked && valid == [])
    ensures Fates(trace, turns) && Distinct(IdsOf(trace)) && acts == ActsOfAll(trace)
    ensures message.triedRelays == Merged(old(message.triedRelays), IdsOf(trace))
    ensures var request := Request(message.originalFrom, message.recipients, [], message.authUser, message.helo);
      && Chosen(router, trace, turns, request)
      && (outcome.Deferred? ==> RanOut(policy, router, trace, turns, request))
  {
    hide Chosen, Merged, IdsOf, ActsOfAll, RanOut, Router.Shows, Distinct, Explained, Fates;
    message.attempts := message.attempts + 1;
    if message.attempts == 1 && policy.validate {
      var valid := Kept(message.recipients, deliver);
      if valid == [] {
        NothingTried(message.triedRelays, turns);
        NothingChosen(router, turns, message.RequestFor([]));
        AllInvalid(policy);
        return Failed, [], [];
      }
      message.recipients := valid;
    }
    outcome, trace, acts := TryRelays(router, message, policy, turns);
  }

  // The loop over relays: at most so many, never one twice.
  method TryRelays(router: Router, message: Message, policy: Policy, turns: seq<Turn>)
    returns (outcome: Outcome, trace: seq<Trial>, acts: seq<Act>)
    requires |turns| >= Rounds(policy) && forall k :: 0 <= k < |turns| ==> router.Shows(turns[k].relays)
    modifies message`triedRelays, router`cursor, router.pool`smoothWeights
    ensures Explained(policy, outcome, trace, false)
    ensures Fates(trace, turns) && Distinct(IdsOf(trace)) && acts == ActsOfAll(trace)
    ensures message.triedRelays == Merged(old(message.triedRelays), IdsOf(trace))
    ensures var request := Request(message.originalFrom, message.recipients, [], message.authUser, message.helo);
      && Chosen(router, trace, turns, request)
      && (outcome.Deferred? ==> RanOut(policy, router, trace, turns, request))
  {
    hide Chosen, Picks, Decide, Merged, IdsOf, ActsOfAll, ActsOf, FateOf, RanOut, Router.Shows, Distinct, Explained,
         Fates, Rounds, OfferedInOrder, Holding, InHand;
    trace, acts := [], [];
    var attempted: seq<Text> := [];
    ghost var tried := message.triedRelays;
    ghost var request := message.RequestFor([]);
    NothingTried(tried, turns);
    NothingChosen(router, turns, request);
    var round := 0;
    while round < Rounds(policy)
      invariant round == |trace| <= Rounds(policy) && attempted == IdsOf(trace) && Distinct(attempted)
      invariant forall k :: 0 <= k < |trace| ==> Goes(policy, trace[k])
      invariant Fates(trace, turns) && Chosen(router, trace, turns, request) && acts == ActsOfAll(trace)
      invariant message.triedRelays == Merged(tried, attempted)
    {
      var turn := turns[round];
      var route := NextRelay(router, turn.relays, message.RequestFor(attempted));
      if route.None? {
        Waits(policy, trace);
        NoRelayLeft(policy, router, trace, turns, request);
        return Deferred, trace, acts;
      }
      var relay := route.value;
      OneMoreId(attempted, relay);
      attempted := attempted + [relay];
      if relay !in message.triedRelays {
        message.triedRelays := message.triedRelays + [relay];
      }
      var fate, more := TryRelay(turn, relay);
      OneMore(trace, tried, turns, Trial(relay, fate));
      OneMoreChosen(router, trace, turns, request, Trial(relay, fate));
      trace, acts := trace + [Trial(relay, fate)], acts + more;
      round := round + 1;
      Explains(policy, trace);
      match fate
      case NoQuota =>
      case Unwritable => return Failed, trace, acts;
      case Accepted => return Delivered(relay), trace, acts;
      case Transient =>
        if !policy.fallback {
          break;
        }
      case Permanent => return Failed, trace, acts;
    }
    Waits(policy, trace);
    Stopped(policy, router, trace, turns, request);
    outcome := Deferred;
  }

  // One turn of the loop with the relay it chose. The slot is taken before anything is
  // sent and given back unless the relay took the message.
  method TryRelay(turn: Turn, relay: Text) returns (fate: Fate, acts: seq<Act>)
    ensures fate == FateOf(turn) && acts == ActsOf(Trial(relay, fate))
    ensures forall i :: 0 <= i < |acts| ==> OfferedInOrder(acts, i)
    ensures forall q :: Holding(acts, q) == (if q == relay && fate == Accepted then 1 else 0) && InHand(acts, q) == 0
  {
    hide OfferedInOrder, Holding, InHand;
    TrialInOrder(Trial(relay, FateOf(turn)));
    if !turn.granted {
      return NoQuota, [];
    }
    acts := [Reserve(relay), BeginDelivery(relay)];
    if !turn.rewritable {
      return Unwritable, acts + [Release(relay), EndDelivery(relay)];
    }
    acts := acts + [Offer(relay)];
    match turn.reply
    case Good => return Accepted, acts + [RecordDelivery(relay), EndDelivery(relay)];
    case TryLater => return Transient, acts + [Release(relay), RecordDeferral(relay), EndDelivery(relay)];
    case Never => return Permanent, acts + [Release(relay), RecordPermanentFailure(relay), EndDelivery(relay)];
  }

  function FateOf(t: Turn): Fate {
    if !t.granted then NoQuota
    else if !t.rewritable then Unwritable
    else match t.reply case Good => Accepted case TryLater => Transient case Never => Permanent
  }

  lemma OneMoreId(ids: seq<Text>, id: Text)
    requires Distinct(ids) && id !in ids
    ensures Distinct(ids + [id])
  {
  }

  lemma AllInvalid(p: Policy)
    ensures Explained(p, Failed, [], true)
  {
  }

  // How the loop may end after a trial that all before it led to.
  lemma {:induction false} Explains(p: Policy, trace: seq<Trial>)
    requires trace != [] && |trace| <= Rounds(p) && forall k :: 0 <= k < |trace| - 1 ==> Goes(p, trace[k])
    ensures var last := trace[|trace| - 1];
      && (last.fate == Accepted ==> Explained(p, Delivered(last.relay), trace, false))
      && (last.fate in {Permanent, Unwritable} ==> Explained(p, Failed, trace, false))
      && (last.fate in {NoQuota, Transient} ==> Explained(p, Deferred, trace, false))
  {
  }

  lemma Waits(p: Policy, trace: seq<Trial>)
    requires |trace| <= Rounds(p) && forall k :: 0 <= k < |trace| - 1 ==> Goes(p, trace[k])
    requires trace != [] ==> trace[|trace| - 1].fate in {NoQuota, Transient}
    ensures Explained(p, Deferred, trace, false)
  {
  }

  lemma NoRelayLeft(p: Policy, router: Router, trace: seq<Trial>, turns: seq<Turn>, request: Request)
    requires |trace| < |turns|
    requires Decide(router.details, router.routing, turns[|trace|].relays, request.(exclude := IdsOf(trace))).Refused?
    ensures RanOut(p, router, trace, turns, request)
  {
  }

  lemma Stopped(p: Policy, router: Router, trace: seq<Trial>, turns: seq<Turn>, request: Request)
    requires |trace| >= Rounds(p) || (trace != [] && !Goes(p, trace[|trace| - 1]))
    ensures RanOut(p, router, trace, turns, request)
  {
  }

  lemma NothingTried(tried: seq<Text>, turns: seq<Turn>)
    ensures Fates([], turns) && Distinct([])
    ensures Merged(tried, []) == tried && IdsOf([]) == [] && ActsOfAll([]) == []
  {
  }

  lemma NothingChosen(router: Router, turns: seq<Turn>, request: Request)
    ensures Chosen(router, [], turns, request)
  {
  }

  lemma OneMoreChosen(router: Router, trace: seq<Trial>, turns: seq<Turn>, request: Request, t: Trial)
    requires Chosen(router, trace, turns, request) && |trace| < |turns|
    requires Picks(router, turns[|trace|].relays, request.(exclude := IdsOf(trace)), t.relay)
    ensures Chosen(router, trace + [t], turns, request)
  {
    hide Picks, IdsOf;
    var longer := trace + [t];
    assert longer[..|trace|] == trace;
    forall k | 0 <= k < |longer|
      ensures Picks(router, turns[k].relays, request.(exclude := IdsOf(longer[..k])), longer[k].relay)
    {
      assert longer[..k] == trace[..k];
      assert k == |trace| ==> trace[..k] == trace;
    }
  }

  // One trial more.
  lemma OneMore(trace: seq<Trial>, tried: seq<Text>, turns: seq<Turn>, t: Trial)
    requires Fates(trace, turns) && |trace| < |turns| && t.fate == FateOf(turns[|trace|])
    ensures Fates(trace + [t], turns)
    ensures IdsOf(trace + [t]) == IdsOf(trace) + [t.relay]
    ensures ActsOfAll(trace + [t]) == ActsOfAll(trace) + ActsOf(t)
    ensures Merged(tried, IdsOf(trace) + [t.relay])
      == if t.relay in Merged(tried, IdsOf(trace)) then Merged(tried, IdsOf(trace))
         else Merged(tried, IdsOf(trace)) + [t.relay]
  {
    hide ActsOf, FateOf;
    assert (trace + [t])[..|trace|] == trace;
    assert (IdsOf(trace) + [t.relay])[..|trace|] == IdsOf(trace);
  }

  // -- what the relays' answers come to ----------------------------------------------------

  // A relay that could be used and said so.
  predicate Answered(t: Turn, reply: Reply) {
    t.granted && t.rewritable && t.reply == reply
  }

  // The answers decide a round. It is delivered exactly by a relay that took the message,
  // the last one tried; it fails for good only by a relay that refused for good or a message
  // that cannot be written for it; a relay that asks to try later never fails the message,
  // and with fallback on leads to the next one.
  lemma {:induction false} AnswersDecide(
    p: Policy, outcome: Outcome, trace: seq<Trial>, turns: seq<Turn>, nobody: bool)
    requires Explained(p, outcome, trace, nobody) && Fates(trace, turns)
    ensures var n := |trace| - 1;
      && (outcome.Delivered? <==> trace != [] && Answered(turns[n], Good))
      && (outcome.Delivered? ==> outcome.relay == trace[n].relay)
      && (outcome.Failed? <==>
            nobody || (trace != [] && (Answered(turns[n], Never) || (turns[n].granted && !turns[n].rewritable))))
      && (forall k :: 0 <= k < n ==> !turns[k].granted || (Answered(turns[k], TryLater) && p.fallback))
  {
  }

  // When a relay asked to try later, or its quota ran out, the round went on to another
  // unless there was none, no turn was left, or fallback is off.
  lemma {:induction false} TriesTheNext(
    p: Policy, router: Router, trace: seq<Trial>, turns: seq<Turn>, request: Request)
    requires Explained(p, Deferred, trace, false) && Fates(trace, turns) && RanOut(p, router, trace, turns, request)
    requires trace != [] ==> !turns[|trace| - 1].granted || p.fallback
    requires |turns| >= Rounds(p)
    ensures |trace| == (if p.perMessage == 0 then 1 else p.perMessage)
         || Decide(router.details, router.routing, turns[|trace|].relays, request.(exclude := IdsOf(trace))).Refused?
  {
    hide Decide, IdsOf;
  }

  // The relay gave this answer in the round.
  ghost predicate Said(trace: seq<Trial>, turns: seq<Turn>, relay: Text, reply: Reply)
    requires |trace| <= |turns|
  {
    exists k :: 0 <= k < |trace| && trace[k].relay == relay && Answered(turns[k], reply)
  }

  lemma {:induction false} SaidStep(trace: seq<Trial>, turns: seq<Turn>, relay: Text, reply: Reply)
    requires trace != [] && |trace| <= |turns|
    ensures var n := |trace| - 1;
      Said(trace, turns, relay, reply)
      <==> Said(trace[..n], turns, relay, reply) || (trace[n].relay == relay && Answered(turns[n], reply))
  {
    var n := |trace| - 1;
    assert forall k :: 0 <= k < n ==> trace[..n][k] == trace[k];
  }

  // The relay had a slot for the message in this part of the round.
  ghost predicate HadSlot(trace: seq<Trial>, turns: seq<Turn>, relay: Text)
    requires |trace| <= |turns|
  {
    exists k :: 0 <= k < |trace| && trace[k].relay == relay && turns[k].granted
  }

  lemma {:induction false} HadSlotStep(trace: seq<Trial>, turns: seq<Turn>, relay: Text)
    requires trace != [] && |trace| <= |turns|
    ensures var n := |trace| - 1;
      HadSlot(trace, turns, relay)
      <==> HadSlot(trace[..n], turns, relay) || (trace[n].relay == relay && turns[n].granted)
  {
    var n := |trace| - 1;
    assert forall k :: 0 <= k < n ==> trace[..n][k] == trace[k];
  }

  // Each answer is told to the relay that gave it, and to no other; a slot is taken from every
  // relay that has one.
  lemma {:induction false} AnswersAreRecorded(trace: seq<Trial>, turns: seq<Turn>, relay: Text)
    requires Fates(trace, turns)
    ensures RecordDelivery(relay) in ActsOfAll(trace) <==> Said(trace, turns, relay, Good)
    ensures RecordDeferral(relay) in ActsOfAll(trace) <==> Said(trace, turns, relay, TryLater)
    ensures RecordPermanentFailure(relay) in ActsOfAll(trace) <==> Said(trace, turns, relay, Never)
    ensures Offer(relay) in ActsOfAll(trace) <==> exists reply :: Said(trace, turns, relay, reply)
    ensures Reserve(relay) in ActsOfAll(trace) <==> HadSlot(trace, turns, relay)
  {
    hide ActsOf, Said, Answered, FateOf, HadSlot;
    NothingSaid(turns, relay);
    if trace != [] {
      var n := |trace| - 1;
      AnswersAreRecorded(trace[..n], turns, relay);
      HadSlotStep(trace, turns, relay);
      TrialIsRecorded(trace[n], turns[n], relay);
      forall reply
        ensures Said(trace, turns, relay, reply)
          <==> Said(trace[..n], turns, relay, reply) || (trace[n].relay == relay && Answered(turns[n], reply))
      {
        SaidStep(trace, turns, relay, reply);
      }
    }
  }

  lemma NothingSaid(turns: seq<Turn>, relay: Text)
    ensures forall reply :: !Said([], turns, relay, reply)
    ensures !HadSlot([], turns, relay)
  {
  }

  lemma TrialIsRecorded(t: Trial, turn: Turn, relay: Text)
    requires t.fate == FateOf(turn)
    ensures RecordDelivery(relay) in ActsOf(t) <==> t.relay == relay && Answered(turn, Good)
    ensures RecordDeferral(relay) in ActsOf(t) <==> t.relay == relay && Answered(turn, TryLater)
    ensures RecordPermanentFailure(relay) in ActsOf(t) <==> t.relay == relay && Answered(turn, Never)
    ensures Offer(relay) in ActsOf(t) <==> exists reply :: t.relay == relay && Answered(turn, reply)
    ensures Reserve(relay) in ActsOf(t) <==> t.relay == relay && turn.granted
  {
  }

  // -- what a round does to the relays ---------------------------------------------------

  ghost function Times(acts: seq<Act>, a: Act): nat {
    multiset(acts)[a]
  }

  // Trials of a relay that fared so.
  ghost function Fared(trace: seq<Trial>, relay: Text, fate: Fate): nat {
    if trace == [] then 0
    else Fared(trace[..|trace| - 1], relay, fate) + if trace[|trace| - 1] == Trial(relay, fate) then 1 else 0
  }

  // What one trial does to a relay, counted.
  lemma {:induction false} SlotsAreCounted(t: Trial, relay: Text)
    ensures var acts := ActsOf(t);
      && Times(acts, Reserve(relay)) == Times(acts, Release(relay)) + (if t == Trial(relay, Accepted) then 1 else 0)
      && Times(acts, BeginDelivery(relay)) == Times(acts, EndDelivery(relay))
  {
    hide Times;
    EachIsCounted(ActsOf(t), Reserve(relay));
    EachIsCounted(ActsOf(t), Release(relay));
    EachIsCounted(ActsOf(t), BeginDelivery(relay));
    EachIsCounted(ActsOf(t), EndDelivery(relay));
  }

  lemma {:induction false} RecordsAreCounted(t: Trial, relay: Text)
    ensures var acts := ActsOf(t);
      && Times(acts, RecordDelivery(relay)) == (if t == Trial(relay, Accepted) then 1 else 0)
      && Times(acts, RecordDeferral(relay)) == (if t == Trial(relay, Transient) then 1 else 0)
      && Times(acts, RecordPermanentFailure(relay)) == (if t == Trial(relay, Permanent) then 1 else 0)
  {
    hide Times;
    EachIsCounted(ActsOf(t), RecordDelivery(relay));
    EachIsCounted(ActsOf(t), RecordDeferral(relay));
    EachIsCounted(ActsOf(t), RecordPermanentFailure(relay));
  }

  function One(b: bool): nat {
    if b then 1 else 0
  }

  // A list of at most six acts, counted one by one.
  lemma EachIsCounted(acts: seq<Act>, a: Act)
    requires |acts| <= 6
    ensures Times(acts, a)
      == One(|acts| > 0 && acts[0] == a) + One(|acts| > 1 && acts[1] == a) + One(|acts| > 2 && acts[2] == a)
         + One(|acts| > 3 && acts[3] == a) + One(|acts| > 4 && acts[4] == a) + One(|acts| > 5 && acts[5] == a)
  {
    if acts != [] {
      var n := |acts| - 1;
      EachIsCounted(acts[..n], a);
      assert acts == acts[..n] + [acts[n]];
      TimesJoin(acts[..n], [acts[n]], a);
    }
  }

  lemma TimesJoin(a: seq<Act>, b: seq<Act>, x: Act)
    ensures Times(a + b, x) == Times(a, x) + Times(b, x)
  {
  }

  lemma {:induction false} TrialsAreCounted(trace: seq<Trial>, relay: Text)
    ensures var acts := ActsOfAll(trace);
      && Times(acts, Reserve(relay)) == Times(acts, Release(relay)) + Fared(trace, relay, Accepted)
      && Times(acts, BeginDelivery(relay)) == Times(acts, EndDelivery(relay))
      && Times(acts, RecordDelivery(relay)) == Fared(trace, relay, Accepted)
      && Times(acts, RecordDeferral(relay)) == Fared(trace, relay, Transient)
      && Times(acts, RecordPermanentFailure(relay)) == Fared(trace, relay, Permanent)
  {
    if trace != [] {
      hide ActsOf, Times;
      var front, last := trace[..|trace| - 1], trace[|trace| - 1];
      TrialsAreCounted(front, relay);
      SlotsAreCounted(last, relay);
      RecordsAreCounted(last, relay);
      var a, b := ActsOfAll(front), ActsOf(last);
      TimesJoin(a, b, Reserve(relay));
      TimesJoin(a, b, Release(relay));
      TimesJoin(a, b, BeginDelivery(relay));
      TimesJoin(a, b, EndDelivery(relay));
      TimesJoin(a, b, RecordDelivery(relay));
      TimesJoin(a, b, RecordDeferral(relay));
      TimesJoin(a, b, RecordPermanentFailure(relay));
    }
  }

  lemma {:induction false} FaredOnce(trace: seq<Trial>, relay: Text, fate: Fate)
    requires Distinct(IdsOf(trace))
    ensures Fared(trace, relay, fate) == if Trial(relay, fate) in trace then 1 else 0
  {
    hide IdsOf;
    if trace != [] {
      var n := |trace| - 1;
      assert trace == trace[..n] + [trace[n]];
      assert forall k :: 0 <= k < n ==> IdsOf(trace)[k] != IdsOf(trace)[n];
      FrontDistinct(trace);
      FaredOnce(trace[..n], relay, fate);
      assert forall t :: t in trace[..n] ==> t.relay != trace[n].relay;
    }
  }

  lemma FrontDistinct(trace: seq<Trial>)
    requires trace != [] && Distinct(IdsOf(trace))
    ensures Distinct(IdsOf(trace[..|trace| - 1]))
  {
    hide IdsOf;
    assert forall k :: 0 <= k < |trace| - 1 ==> IdsOf(trace)[k] == IdsOf(trace[..|trace| - 1])[k];
  }

  // A round keeps one reservation, with the relay that took the message, and every
  // other one is given back; all its concurrency slots come back. Health is told of
  // each relay at most once: of a success only the delivering one, of a failure only
  // those that failed for now, never one that refused the message for good.
  lemma {:induction false} ReservationsAreSettled(p: Policy, outcome: Outcome, trace: seq<Trial>, nobody: bool,
          relay: Text)
    requires Explained(p, outcome, trace, nobody) && Distinct(IdsOf(trace))
    ensures var acts := ActsOfAll(trace);
      var delivered := if outcome == Delivered(relay) then 1 else 0;
      && Times(acts, Reserve(relay)) == Times(acts, Release(relay)) + delivered
      && Times(acts, BeginDelivery(relay)) == Times(acts, EndDelivery(relay))
      && Times(acts, RecordDelivery(relay)) == delivered
      && Times(acts, RecordDeferral(relay)) == (if Trial(relay, Transient) in trace then 1 else 0)
      && (Trial(relay, Permanent) in trace ==> Times(acts, RecordDeferral(relay)) == 0)
  {
    hide Times, ActsOfAll, Distinct, Fared;
    TrialsAreCounted(trace, relay);
    FaredOnce(trace, relay, Accepted);
    FaredOnce(trace, relay, Transient);
    FaredOnce(trace, relay, Permanent);
    AcceptedLast(p, outcome, trace, nobody, relay);
    if Trial(relay, Permanent) in trace && Trial(relay, Transient) in trace {
      OneFate(trace, Trial(relay, Permanent), Trial(relay, Transient));
    }
  }

  // -- the order of things -------------------------------------------------------------

  // At this point of a round the relay holds so many slots and reservations.
  ghost function Holding(acts: seq<Act>, relay: Text): int {
    Times(acts, Reserve(relay)) - Times(acts, Release(relay))
  }

  ghost function InHand(acts: seq<Act>, relay: Text): int {
    Times(acts, BeginDelivery(relay)) - Times(acts, EndDelivery(relay))
  }

  // The message is offered to a relay only with its own slot reserved and its own
  // delivery begun, and with nothing held at any other relay.
  ghost predicate OfferedInOrder(acts: seq<Act>, i: nat)
    requires i < |acts|
  {
    acts[i].Offer? ==>
      forall q :: Holding(acts[..i], q) == (if q == acts[i].relay then 1 else 0)
        && InHand(acts[..i], q) == (if q == acts[i].relay then 1 else 0)
  }

  // Only the first two acts of a trial come before its offer.
  lemma OfferIsThird(t: Trial, j: nat)
    requires j < |ActsOf(t)| && ActsOf(t)[j].Offer?
    ensures j == 2 && ActsOf(t)[j] == Offer(t.relay)
    ensures ActsOf(t)[..j] == [Reserve(t.relay), BeginDelivery(t.relay)]
  {
  }

  lemma {:induction false} HeldBy(front: seq<Act>, r: Text, q: Text)
    ensures var acts := front + [Reserve(r), BeginDelivery(r)];
      && Holding(acts, q) == Holding(front, q) + (if q == r then 1 else 0)
      && InHand(acts, q) == InHand(front, q) + (if q == r then 1 else 0)
  {
    var pair := [Reserve(r), BeginDelivery(r)];
    hide Times;
    TimesJoin(front, pair, Reserve(q));
    TimesJoin(front, pair, Release(q));
    TimesJoin(front, pair, BeginDelivery(q));
    TimesJoin(front, pair, EndDelivery(q));
    EachIsCounted(pair, Reserve(q));
    EachIsCounted(pair, Release(q));
    EachIsCounted(pair, BeginDelivery(q));
    EachIsCounted(pair, EndDelivery(q));
  }

  lemma {:induction false} NoneAccepted(trace: seq<Trial>, relay: Text)
    requires forall k :: 0 <= k < |trace| ==> trace[k].fate != Accepted
    ensures Fared(trace, relay, Accepted) == 0
  {
    if trace != [] {
      NoneAccepted(trace[..|trace| - 1], relay);
    }
  }

  lemma {:induction false} OffersAreInOrder(trace: seq<Trial>, i: nat)
    requires forall k :: 0 <= k < |trace| - 1 ==> trace[k].fate != Accepted
    requires i < |ActsOfAll(trace)|
    ensures OfferedInOrder(ActsOfAll(trace), i)
  {
    hide ActsOf, Times, Holding, InHand, Fared;
    var front, last := trace[..|trace| - 1], trace[|trace| - 1];
    var before, acts := ActsOfAll(front), ActsOfAll(trace);
    assert acts == before + ActsOf(last);
    if i < |before| {
      OffersAreInOrder(front, i);
      assert acts[..i] == before[..i] && acts[i] == before[i];
    } else if acts[i].Offer? {
      var j := i - |before|;
      assert acts[i] == ActsOf(last)[j] && acts[..i] == before + ActsOf(last)[..j];
      OfferIsThird(last, j);
      forall q
        ensures Holding(acts[..i], q) == (if q == last.relay then 1 else 0)
        ensures InHand(acts[..i], q) == (if q == last.relay then 1 else 0)
      {
        HeldBy(before, last.relay, q);
        NothingHeld(front, q);
      }
    }
  }

  // Between two trials nothing is held anywhere.
  lemma NothingHeld(trace: seq<Trial>, relay: Text)
    requires forall k :: 0 <= k < |trace| ==> trace[k].fate != Accepted
    ensures Holding(ActsOfAll(trace), relay) == 0 && InHand(ActsOfAll(trace), relay) == 0
  {
    hide ActsOf, Times, Fared, ActsOfAll;
    TrialsAreCounted(trace, relay);
    NoneAccepted(trace, relay);
  }

  lemma TrialInOrder(t: Trial)
    ensures forall i :: 0 <= i < |ActsOf(t)| ==> OfferedInOrder(ActsOf(t), i)
    ensures forall q :: Holding(ActsOf(t), q) == (if q == t.relay && t.fate == Accepted then 1 else 0)
    ensures forall q :: InHand(ActsOf(t), q) == 0
  {
    hide ActsOf, OfferedInOrder, Times;
    assert [t][..0] == [];
    assert ActsOfAll([t]) == [] + ActsOf(t) == ActsOf(t);
    forall i | 0 <= i < |ActsOf(t)|
      ensures OfferedInOrder(ActsOf(t), i)
    {
      OffersAreInOrder([t], i);
    }
    forall q: Text
      ensures Holding(ActsOf(t), q) == (if q == t.relay && t.fate == Accepted then 1 else 0)
      ensures InHand(ActsOf(t), q) == 0
    {
      SlotsAreCounted(t, q);
    }
  }

  // So throughout a round.
  lemma RoundOffersInOrder(p: Policy, outcome: Outcome, trace: seq<Trial>, nobody: bool)
    requires Explained(p, outcome, trace, nobody)
    ensures forall i :: 0 <= i < |ActsOfAll(trace)| ==> OfferedInOrder(ActsOfAll(trace), i)
  {
    hide ActsOfAll, OfferedInOrder;
    forall i | 0 <= i < |ActsOfAll(trace)|
      ensures OfferedInOrder(ActsOfAll(trace), i)
    {
      OffersAreInOrder(trace, i);
    }
  }

  lemma AcceptedLast(p: Policy, outcome: Outcome, trace: seq<Trial>, nobody: bool, relay: Text)
    requires Explained(p, outcome, trace, nobody)
    ensures Trial(relay, Accepted) in trace <==> outcome == Delivered(relay)
  {
    if Trial(relay, Accepted) in trace {
      var k :| 0 <= k < |trace| && trace[k] == Trial(relay, Accepted);
      assert k == |trace| - 1;
    }
  }

  // No relay fares two ways in one round.
  lemma OneFate(trace: seq<Trial>, a: Trial, b: Trial)
    requires Distinct(IdsOf(trace)) && a in trace && b in trace && a.relay == b.relay
    ensures a == b
  {
    hide IdsOf;
    var j :| 0 <= j < |trace| && trace[j] == a;
    var k :| 0 <= k < |trace| && trace[k] == b;
    assert IdsOf(trace)[j] == IdsOf(trace)[k];
  }

  // The list of relays a message was tried with only grows, by the relays of the round
  // and each of them once.
  lemma {:induction false} TriedGrows(tried: seq<Text>, ids: seq<Text>)
    ensures tried <= Merged(tried, ids)
    ensures forall id :: id in Merged(tried, ids) <==> id in tried || id in ids
    ensures Distinct(tried) ==> Distinct(Merged(tried, ids))
  {
    if ids != [] {
      var n := |ids| - 1;
      TriedGrows(tried, ids[..n]);
      assert ids == ids[..n] + [ids[n]];
    }
  }

  // A deferred round that still had turns left and could fall back has tried every
  // relay that was open to the message at its end.
  lemma {:induction false} NothingOpenLeft(p: Policy, router: Router, trace: seq<Trial>, turns: seq<Turn>,
          request: Request, at: nat)
    requires Explained(p, Deferred, trace, false) && RanOut(p, router, trace, turns, request)
    requires p.fallback && |trace| < Rounds(p) && |trace| < |turns|
    requires Binding(router.details, turns[|trace|].relays, request.(exclude := IdsOf(trace))).None?
    requires !StrictMiss(router.details, router.routing, turns[|trace|].relays, request.(exclude := IdsOf(trace)))
    requires at < |turns[|trace|].relays| && turns[|trace|].relays[at].eligible
    ensures turns[|trace|].relays[at].id in IdsOf(trace)
  {
    hide Decide, Binding, StrictMiss, IdsOf;
    var relays, last := turns[|trace|].relays, request.(exclude := IdsOf(trace));
    if relays[at].id !in IdsOf(trace) {
      AnyOpenRelayIsEnough(router.details, router.routing, relays, last, at);
    }
  }
}
