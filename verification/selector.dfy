// Choosing the relay that carries a message (src/relay/selector.rs) and the pool's
// round-robin cursor (src/relay/pool.rs).
module Selection {
  import opened Bytes
  import opened Wrappers
  import opened Mailboxes
  import SW = SmoothWeights

  // A relay as it looks at the instant of the choice.
  datatype RelayView = RelayView(
    id: Text, eligible: bool, inRotation: bool, detail: Option<Text>, weight: nat, priority: nat, hourCount: nat,
    inFlight: nat)

  datatype Detail = Detail(id: Text, title: Text, hostname: Text, username: Text)

  datatype Override = Override(domain: Text, relayIds: seq<Text>)

  datatype Strategy = RoundRobin | Weighted | LeastUsed | Failover

  datatype StickyMode = NotSticky | Sender | RecipientDomain

  datatype Routing = Routing(strategy: Strategy, sticky: StickyMode, fallback: bool, overrides: seq<Override>)

  datatype Request = Request(sender: Text, recipients: seq<Text>, exclude: seq<Text>, authUser: Option<Text>,
          helo: Text)

  datatype NoRoute = NoRelays | DetailBusy | NoneEligible | OverrideBusy

  datatype Reason = SmtpDetail | DomainOverride | Sticky | ByStrategy

  datatype Route = Route(position: nat, reason: Reason)

  // -- which relays a request may use ------------------------------------------------

  predicate SameText(a: Text, b: Text) {
    ToLower(a) == ToLower(b)
  }

  predicate DetailMatches(d: Detail, request: Request) {
    || (request.authUser.Some? && request.authUser.value != [] && SameText(d.username, request.authUser.value))
    || (d.hostname != [] && request.helo != [] && SameText(d.hostname, request.helo))
    || (d.hostname != [] && AddressDomain(request.sender) != [] && SameText(d.hostname, AddressDomain(request.sender)))
    || (d.title != [] && request.helo != [] && SameText(d.title, request.helo))
  }

  function FindDetail(details: seq<Detail>, request: Request): (r: Option<Detail>)
    ensures r.Some? ==> r.value in details && DetailMatches(r.value, request)
    ensures r.None? ==> forall d :: d in details ==> !DetailMatches(d, request)
  {
    if details == [] then None
    else if DetailMatches(details[0], request) then Some(details[0])
    else FindDetail(details[1..], request)
  }

  predicate LinkedTo(r: RelayView, d: Detail) {
    r.detail.Some?
    && (r.detail.value == d.id || (d.title != [] && r.detail.value == d.title)
        || (d.hostname != [] && r.detail.value == d.hostname))
  }

  // Relays are looked for in a narrow scope first and then in a wider one.
  datatype Scope = Everyone | RotationPool | Linked(d: Detail) | LinkedInRotation(d: Detail)

  predicate InScope(r: RelayView, scope: Scope) {
    match scope
    case Everyone => true
    case RotationPool => r.inRotation && r.detail.None?
    case Linked(d) => LinkedTo(r, d)
    case LinkedInRotation(d) => LinkedTo(r, d) && r.inRotation
  }

  // Eligible, and not tried for this message yet.
  predicate Open(r: RelayView, request: Request) {
    r.eligible && r.id !in request.exclude
  }

  // The first n relays that are open and in scope, in pool order.
  function Offered(relays: seq<RelayView>, request: Request, scope: Scope, n: nat): (r: seq<nat>)
    requires n <= |relays|
    ensures forall k :: 0 <= k < |r| ==> r[k] < n && Open(relays[r[k]], request) && InScope(relays[r[k]], scope)
    ensures forall p :: 0 <= p < n && Open(relays[p], request) && InScope(relays[p], scope) ==> p in r
    ensures forall j, k :: 0 <= j < k < |r| ==> r[j] < r[k]
  {
    if n == 0 then []
    else
      var front := Offered(relays, request, scope, n - 1);
      if Open(relays[n - 1], request) && InScope(relays[n - 1], scope) then front + [n - 1] else front
  }

  function OfferedAll(relays: seq<RelayView>, request: Request, scope: Scope): seq<nat> {
    Offered(relays, request, scope, |relays|)
  }

  predicate AnyLinked(relays: seq<RelayView>, d: Detail) {
    exists p :: 0 <= p < |relays| && LinkedTo(relays[p], d)
  }

  // The linked detail that binds a request to its relays, if there is one.
  function Binding(details: seq<Detail>, relays: seq<RelayView>, request: Request): Option<Detail> {
    match FindDetail(details, request)
    case None => None
    case Some(d) => if AnyLinked(relays, d) then Some(d) else None
  }

  function Preferred(relays: seq<RelayView>, request: Request, narrow: Scope, wide: Scope): seq<nat> {
    var first := OfferedAll(relays, request, narrow);
    if first == [] then OfferedAll(relays, request, wide) else first
  }

  function Candidates(details: seq<Detail>, relays: seq<RelayView>, request: Request): seq<nat> {
    match Binding(details, relays, request)
    case Some(d) => Preferred(relays, request, LinkedInRotation(d), Linked(d))
    case None => Preferred(relays, request, RotationPool, Everyone)
  }

  // -- domain overrides ----------------------------------------------------------------

  const STAR: byte := 42

  function TrimEndDots(s: Text): (r: Text)
    ensures r <= s && (r != [] ==> r[|r| - 1] != DOT)
  {
    if s != [] && s[|s| - 1] == DOT then TrimEndDots(s[..|s| - 1]) else s
  }

  function Needle(domain: Text): Text {
    ToLower(TrimEndDots(Trim(domain)))
  }

  predicate EndsWith(s: Text, suffix: Text) {
    |suffix| <= |s| && s[|s| - |suffix|..] == suffix
  }

  predicate ExactMatch(rule: Override, needle: Text) {
    ToLower(Trim(rule.domain)) == needle
  }

  predicate WildcardMatch(rule: Override, needle: Text) {
    var pattern := ToLower(Trim(rule.domain));
    && |pattern| >= 2 && pattern[..2] == [STAR, DOT]
    && (needle == pattern[2..] || EndsWith(needle, [DOT] + pattern[2..]))
  }

  function FindExact(rules: seq<Override>, needle: Text): (r: Option<nat>)
    ensures r.Some? ==> r.value < |rules| && ExactMatch(rules[r.value], needle)
    ensures r.Some? ==> forall k :: 0 <= k < r.value ==> !ExactMatch(rules[k], needle)
    ensures r.None? ==> forall k :: 0 <= k < |rules| ==> !ExactMatch(rules[k], needle)
  {
    if rules == [] then None
    else if ExactMatch(rules[0], needle) then Some(0)
    else match FindExact(rules[1..], needle) case Some(k) => Some(k + 1) case None => None
  }

  function FindWildcard(rules: seq<Override>, needle: Text): (r: Option<nat>)
    ensures r.Some? ==> r.value < |rules| && WildcardMatch(rules[r.value], needle)
    ensures r.Some? ==> forall k :: 0 <= k < r.value ==> !WildcardMatch(rules[k], needle)
    ensures r.None? ==> forall k :: 0 <= k < |rules| ==> !WildcardMatch(rules[k], needle)
  {
    if rules == [] then None
    else if WildcardMatch(rules[0], needle) then Some(0)
    else match FindWildcard(rules[1..], needle) case Some(k) => Some(k + 1) case None => None
  }

  // An exact rule, wherever it stands, comes before every wildcard.
  function MatchOverride(rules: seq<Override>, domain: Text): (r: Option<nat>)
    ensures r.Some? ==> r.value < |rules|
    ensures r.Some? ==> ExactMatch(rules[r.value], Needle(domain)) || WildcardMatch(rules[r.value], Needle(domain))
    ensures r.None? ==> forall k :: 0 <= k < |rules| ==>
      !ExactMatch(rules[k], Needle(domain)) && !WildcardMatch(rules[k], Needle(domain))
    ensures r.Some? ==> forall k :: 0 <= k < |rules| && ExactMatch(rules[k], Needle(domain)) ==>
      ExactMatch(rules[r.value], Needle(domain)) && r.value <= k
  {
    match FindExact(rules, Needle(domain))
    case Some(k) => Some(k)
    case None => FindWildcard(rules, Needle(domain))
  }

  // The position a relay id stands for in the pool's index.
  function PositionOf(relays: seq<RelayView>, id: Text): (r: Option<nat>)
    ensures r.Some? ==> r.value < |relays| && relays[r.value].id == id
    ensures r.None? ==> forall p :: 0 <= p < |relays| ==> relays[p].id != id
  {
    if relays == [] then None
    else if relays[|relays| - 1].id == id then Some(|relays| - 1)
    else PositionOf(relays[..|relays| - 1], id)
  }

  predicate Listed(relays: seq<RelayView>, candidates: seq<nat>, id: Text) {
    PositionOf(relays, id).Some? && PositionOf(relays, id).value in candidates
  }

  // Listed at place k and nowhere before it.
  ghost predicate FirstAt(ids: seq<Text>, relays: seq<RelayView>, candidates: seq<nat>, k: nat)
    requires k < |ids|
  {
    Listed(relays, candidates, ids[k]) && forall j :: 0 <= j < k ==> !Listed(relays, candidates, ids[j])
  }

  // The rule's own order decides.
  function FirstListed(ids: seq<Text>, relays: seq<RelayView>, candidates: seq<nat>): (r: Option<nat>)
    ensures r.Some? ==>
      exists k :: 0 <= k < |ids| && FirstAt(ids, relays, candidates, k) && PositionOf(relays, ids[k]) == r
    ensures r.Some? ==> r.value in candidates
    ensures r.None? ==> forall k :: 0 <= k < |ids| ==> !Listed(relays, candidates, ids[k])
  {
    if ids == [] then None
    else if Listed(relays, candidates, ids[0]) then
      assert FirstAt(ids, relays, candidates, 0);
      PositionOf(relays, ids[0])
    else
      var later := FirstListed(ids[1..], relays, candidates);
      assert forall k :: 0 <= k < |ids| - 1 && FirstAt(ids[1..], relays, candidates, k) ==>
        FirstAt(ids, relays, candidates, k + 1);
      later
  }

  // -- the stages ---------------------------------------------------------------------------

  function RecipientDomainOf(request: Request): Option<Text> {
    if request.recipients == [] then None else Some(AddressDomain(request.recipients[0]))
  }

  function RuleFor(routing: Routing, request: Request): (r: Option<nat>)
    ensures r.Some? ==> r.value < |routing.overrides|
  {
    match RecipientDomainOf(request)
    case None => None
    case Some(domain) => MatchOverride(routing.overrides, domain)
  }

  function StickyKey(mode: StickyMode, request: Request): Option<Text> {
    var text := match mode
      case NotSticky => []
      case Sender => ToLower(Trim(request.sender))
      case RecipientDomain =>
        match RecipientDomainOf(request) case None => [] case Some(domain) => ToLower(Trim(domain));
    if text == [] then None else Some(text)
  }

  // What the stages before the strategy make of a request.
  datatype Decision =
    | Refused(why: NoRoute)
    | Fixed(route: Route)
    | Hashed(candidates: seq<nat>, key: Text)
    | Strategic(candidates: seq<nat>)

  function Decide(details: seq<Detail>, routing: Routing, relays: seq<RelayView>, request: Request): Decision {
    if relays == [] then Refused(NoRelays)
    else
      var bound := Binding(details, relays, request).Some?;
      var candidates := Candidates(details, relays, request);
      if candidates == [] then Refused(if bound then DetailBusy else NoneEligible)
      else if bound && |candidates| == 1 then Fixed(Route(candidates[0], SmtpDetail))
      else
        match RuleFor(routing, request)
        case None => Unruled(routing, candidates, request)
        case Some(k) =>
          match FirstListed(routing.overrides[k].relayIds, relays, candidates)
          case Some(p) => Fixed(Route(p, DomainOverride))
          case None => if routing.fallback then Unruled(routing, candidates, request) else Refused(OverrideBusy)
  }

  function Unruled(routing: Routing, candidates: seq<nat>, request: Request): Decision {
    if |candidates| > 1 && StickyKey(routing.sticky, request).Some? then
      Hashed(candidates, StickyKey(routing.sticky, request).value)
    else Strategic(candidates)
  }

  // -- strategies ---------------------------------------------------------------------------

  function WeightOf(r: RelayView): (w: nat)
    ensures w >= 1 && (r.weight >= 1 ==> w == r.weight) && (r.weight == 0 ==> w == 1)
  {
    if r.weight == 0 then 1 else r.weight
  }

  // sort_by_key followed by the first element; the position breaks every tie.
  predicate LessUsed(relays: seq<RelayView>, p: nat, q: nat)
    requires p < |relays| && q < |relays|
  {
    || relays[p].hourCount < relays[q].hourCount
    || (relays[p].hourCount == relays[q].hourCount
        && (relays[p].inFlight < relays[q].inFlight || (relays[p].inFlight == relays[q].inFlight && p < q)))
  }

  predicate Ranked(relays: seq<RelayView>, p: nat, q: nat)
    requires p < |relays| && q < |relays|
  {
    relays[p].priority < relays[q].priority || (relays[p].priority == relays[q].priority && p < q)
  }

  predicate Among(relays: seq<RelayView>, candidates: seq<nat>) {
    forall k :: 0 <= k < |candidates| ==> candidates[k] < |relays|
  }

  function LeastUsedOf(relays: seq<RelayView>, candidates: seq<nat>): (r: nat)
    requires candidates != [] && Among(relays, candidates)
    ensures r in candidates && r < |relays|
    ensures forall k :: 0 <= k < |candidates| ==> candidates[k] == r || LessUsed(relays, r, candidates[k])
  {
    if |candidates| == 1 then candidates[0]
    else
      var best := LeastUsedOf(relays, candidates[1..]);
      assert forall k :: 1 <= k < |candidates| ==> candidates[k] == candidates[1..][k - 1];
      if LessUsed(relays, candidates[0], best) then candidates[0] else best
  }

  function FirstRanked(relays: seq<RelayView>, candidates: seq<nat>): (r: nat)
    requires candidates != [] && Among(relays, candidates)
    ensures r in candidates && r < |relays|
    ensures forall k :: 0 <= k < |candidates| ==> candidates[k] == r || Ranked(relays, r, candidates[k])
  {
    if |candidates| == 1 then candidates[0]
    else
      var best := FirstRanked(relays, candidates[1..]);
      assert forall k :: 1 <= k < |candidates| ==> candidates[k] == candidates[1..][k - 1];
      if Ranked(relays, candidates[0], best) then candidates[0] else best
  }

  // Weights of the listed relays, added up.
  ghost function Load(relays: seq<RelayView>, candidates: seq<nat>): nat
    requires Among(relays, candidates)
  {
    if candidates == [] then 0
    else Load(relays, candidates[..|candidates| - 1]) + WeightOf(relays[candidates[|candidates| - 1]])
  }

  // A residue lands on candidate k when it falls into that candidate's stretch.
  ghost predicate Lands(relays: seq<RelayView>, candidates: seq<nat>, target: nat, k: nat)
    requires Among(relays, candidates) && k < |candidates|
  {
    Load(relays, candidates[..k]) <= target < Load(relays, candidates[..k + 1])
  }

  // The candidate a hash is mapped to.
  ghost predicate HashedTo(relays: seq<RelayView>, candidates: seq<nat>, hash: nat, position: nat) {
    Among(relays, candidates) && Load(relays, candidates) > 0
    && var target := hash % Load(relays, candidates);
       exists k :: 0 <= k < |candidates| && position == candidates[k] && Lands(relays, candidates, target, k)
  }

  lemma LoadStep(relays: seq<RelayView>, candidates: seq<nat>, k: nat)
    requires Among(relays, candidates) && k < |candidates|
    ensures Load(relays, candidates[..k + 1]) == Load(relays, candidates[..k]) + WeightOf(relays[candidates[k]])
  {
    assert candidates[..k + 1][..k] == candidates[..k];
  }

  // Maps a hash onto the candidates by weight.
  method WeightedPickByHash(relays: seq<RelayView>, candidates: seq<nat>, hash: nat) returns (position: nat)
    requires candidates != [] && Among(relays, candidates)
    ensures HashedTo(relays, candidates, hash, position)
  {
    hide Load;
    var total := 0;
    LoadNone(relays);
    var i := 0;
    assert candidates[..0] == [];
    while i < |candidates|
      invariant i <= |candidates| && total == Load(relays, candidates[..i]) && (i > 0 ==> total > 0)
    {
      LoadStep(relays, candidates, i);
      total := total + WeightOf(relays[candidates[i]]);
      i := i + 1;
    }
    assert candidates[..|candidates|] == candidates;
    ghost var all := total;

    var target: nat := hash % total;
    i := 0;
    while i < |candidates|
      invariant i <= |candidates| && hash % all == target + Load(relays, candidates[..i])
    {
      var weight := WeightOf(relays[candidates[i]]);
      LoadStep(relays, candidates, i);
      if target < weight {
        assert Lands(relays, candidates, hash % all, i);
        return candidates[i];
      }
      target := target - weight;
      i := i + 1;
    }
    // every residue below the total has landed
    assert false;
  }

  lemma HashedIsListed(relays: seq<RelayView>, candidates: seq<nat>, hash: nat, position: nat)
    requires HashedTo(relays, candidates, hash, position)
    ensures position in candidates
  {
  }

  lemma RoundIsListed(weights: seq<nat>, candidates: seq<nat>, before: seq<int>, chosen: nat, after: seq<int>)
    requires SW.Round(weights, candidates, before, chosen, after)
    ensures chosen in candidates
  {
  }

  lemma LoadNone(relays: seq<RelayView>)
    ensures Load(relays, []) == 0
  {
  }

  // -- the router --------------------------------------------------------------------------------

  const CURSORS: nat := 0x1_0000_0000_0000_0000

  class Router {
    const details: seq<Detail>
    const routing: Routing
    // the hash of stickiness, fixed for the life of the process
    const stableHash: Text -> nat
    const pool: SW.Pool
    var cursor: nat

    constructor (details: seq<Detail>, routing: Routing, stableHash: Text -> nat, pool: SW.Pool)
      ensures this.details == details && this.routing == routing && this.stableHash == stableHash
      ensures this.pool == pool && cursor == 0
    {
      this.details, this.routing, this.stableHash, this.pool, cursor := details, routing, stableHash, pool, 0;
    }

    // The relays shown are those of the pool.
    ghost predicate Shows(relays: seq<RelayView>) {
      |relays| == |pool.weights| && forall p :: 0 <= p < |relays| ==> pool.weights[p] == WeightOf(relays[p])
    }

    // fetch_add wraps around
    method NextCursor(modulo: nat) returns (turn: nat)
      modifies this`cursor
      ensures modulo == 0 ==> turn == 0 && cursor == old(cursor)
      ensures modulo > 0 ==> turn == old(cursor) % modulo && cursor == (old(cursor) + 1) % CURSORS
    {
      if modulo == 0 {
        return 0;
      }
      turn := cursor % modulo;
      cursor := (cursor + 1) % CURSORS;
    }

    // Picks the relay that should carry a message. Only a round-robin choice moves
    // the cursor and only a weighted one the credits; a pinned or sticky message
    // leaves everybody's turn alone.
    method Select(relays: seq<RelayView>, request: Request) returns (r: Result<Route, NoRoute>)
      requires Shows(relays)
      modifies this`cursor, pool`smoothWeights
      ensures r.Ok? ==> r.value.position < |relays| && Open(relays[r.value.position], request)
      ensures var decision := Decide(details, routing, relays, request);
        match decision
        case Refused(why) => r == Err(why) && cursor == old(cursor) && pool.smoothWeights == old(pool.smoothWeights)
        case Fixed(route) => r == Ok(route) && cursor == old(cursor) && pool.smoothWeights == old(pool.smoothWeights)
        case Hashed(candidates, key) =>
          && r.Ok? && r.value.reason == Sticky && cursor == old(cursor) && pool.smoothWeights == old(pool.smoothWeights)
          && HashedTo(relays, candidates, stableHash(key), r.value.position)
        case Strategic(candidates) =>
          && r.Ok? && r.value.reason == ByStrategy && candidates != [] && Among(relays, candidates)
          && match routing.strategy
             case RoundRobin =>
               && r.value.position == candidates[old(cursor) % |candidates|] && cursor == (old(cursor) + 1) % CURSORS
               && pool.smoothWeights == old(pool.smoothWeights)
             case Weighted =>
               var before := SW.Resized(old(pool.smoothWeights), |pool.weights|);
               && SW.Round(pool.weights, candidates, before, r.value.position, pool.smoothWeights)
               && SW.InRange(|pool.weights|, candidates)
               && SW.FirstBest(pool.weights, candidates, before, r.value.position) && cursor == old(cursor)
             case LeastUsed =>
               && r.value.position == LeastUsedOf(relays, candidates)
               && cursor == old(cursor) && pool.smoothWeights == old(pool.smoothWeights)
             case Failover =>
               && r.value.position == FirstRanked(relays, candidates)
               && cursor == old(cursor) && pool.smoothWeights == old(pool.smoothWeights)
    {
      hide Decide, SW.Round, SW.FirstBest, HashedTo, LeastUsedOf, FirstRanked;
      var decision := Decide(details, routing, relays, request);
      DecisionIsSound(details, routing, relays, request);
      match decision
      case Refused(why) => r := Err(why);
      case Fixed(route) => r := Ok(route);
      case Hashed(candidates, key) =>
        var position := WeightedPickByHash(relays, candidates, stableHash(key));
        HashedIsListed(relays, candidates, stableHash(key), position);
        r := Ok(Route(position, Sticky));
      case Strategic(candidates) =>
        var position;
        match routing.strategy {
          case RoundRobin =>
            var turn := NextCursor(|candidates|);
            position := candidates[turn];
          case Weighted =>
            var best := pool.SmoothWeightedPick(candidates);
            position := best.value;
            ghost var before := SW.Resized(old(pool.smoothWeights), |pool.weights|);
            RoundIsListed(pool.weights, candidates, before, position, pool.smoothWeights);
          case LeastUsed => position := LeastUsedOf(relays, candidates);
          case Failover => position := FirstRanked(relays, candidates);
        }
        r := Ok(Route(position, ByStrategy));
    }
  }

  // -- what the stages promise ----------------------------------------------------------------

  // Positions that may be chosen: open ones, in pool order.
  ghost predicate Usable(relays: seq<RelayView>, request: Request, candidates: seq<nat>) {
    && candidates != []
    && (forall k :: 0 <= k < |candidates| ==> candidates[k] < |relays| && Open(relays[candidates[k]], request))
    && (forall j, k :: 0 <= j < k < |candidates| ==> candidates[j] < candidates[k])
  }

  lemma CandidatesAreOpen(details: seq<Detail>, relays: seq<RelayView>, request: Request)
    ensures Candidates(details, relays, request) != [] ==> Usable(relays, request, Candidates(details, relays, request))
  {
    hide Offered, Binding;
  }

  // Whatever the stages leave to choose from, or choose, is eligible and untried.
  lemma {:induction false} DecisionIsSound(details: seq<Detail>, routing: Routing, relays: seq<RelayView>,
          request: Request)
    ensures match Decide(details, routing, relays, request)
      case Refused(_) => true
      case Fixed(route) => route.position < |relays| && Open(relays[route.position], request)
      case Hashed(candidates, _) => Usable(relays, request, candidates) && Among(relays, candidates)
      case Strategic(candidates) => Usable(relays, request, candidates) && Among(relays, candidates)
  {
    hide Candidates, Binding, RuleFor, FirstListed, StickyKey;
    CandidatesAreOpen(details, relays, request);
  }

  // -- when there is no route ------------------------------------------------------------------

  // Nobody in the scope is open to the message.
  ghost predicate NobodyIn(relays: seq<RelayView>, request: Request, scope: Scope) {
    forall r :: r in relays && InScope(r, scope) ==> !Open(r, request)
  }

  // Open to the message and in the narrow scope, or in the wide one while nobody is in
  // the narrow.
  ghost predicate ServedBy(relays: seq<RelayView>, request: Request, r: RelayView, narrow: Scope, wide: Scope) {
    Open(r, request) && (InScope(r, narrow) || (InScope(r, wide) && NobodyIn(relays, request, narrow)))
  }

  // The relays a message may leave by, told from the relays alone.
  ghost predicate Serves(details: seq<Detail>, relays: seq<RelayView>, request: Request, r: RelayView) {
    match Binding(details, relays, request)
    case Some(d) => ServedBy(relays, request, r, LinkedInRotation(d), Linked(d))
    case None => ServedBy(relays, request, r, RotationPool, Everyone)
  }

  lemma OfferedToNobody(relays: seq<RelayView>, request: Request, scope: Scope)
    ensures OfferedAll(relays, request, scope) == [] <==> NobodyIn(relays, request, scope)
  {
    hide Offered, InScope, Open;
    var offered := Offered(relays, request, scope, |relays|);
    if offered != [] {
      assert relays[offered[0]] in relays;
    } else {
      forall r | r in relays && InScope(r, scope)
        ensures !Open(r, request)
      {
        var p :| 0 <= p < |relays| && relays[p] == r;
      }
    }
  }

  lemma {:induction false} PreferredServe(relays: seq<RelayView>, request: Request, narrow: Scope, wide: Scope, p: nat)
    requires forall r :: r in relays && InScope(r, narrow) ==> InScope(r, wide)
    ensures p in Preferred(relays, request, narrow, wide)
      <==> p < |relays| && ServedBy(relays, request, relays[p], narrow, wide)
  {
    hide Offered, InScope, Open;
    OfferedToNobody(relays, request, narrow);
    if p < |relays| {
      assert relays[p] in relays;
    }
  }

  // The candidates are exactly the relays that serve the message.
  lemma {:induction false} CandidatesServe(details: seq<Detail>, relays: seq<RelayView>, request: Request, p: nat)
    ensures p in Candidates(details, relays, request)
      <==> p < |relays| && Serves(details, relays, request, relays[p])
  {
    hide Binding, Preferred, ServedBy, LinkedTo;
    match Binding(details, relays, request)
    case Some(d) => PreferredServe(relays, request, LinkedInRotation(d), Linked(d), p);
    case None => PreferredServe(relays, request, RotationPool, Everyone, p);
  }

  // One relay serves the message and no other.
  ghost predicate OneServes(details: seq<Detail>, relays: seq<RelayView>, request: Request) {
    exists p :: 0 <= p < |relays| && Serves(details, relays, request, relays[p])
      && forall q :: 0 <= q < |relays| && Serves(details, relays, request, relays[q]) ==> q == p
  }

  lemma {:induction false} OneCandidate(details: seq<Detail>, relays: seq<RelayView>, request: Request)
    ensures |Candidates(details, relays, request)| == 1 <==> OneServes(details, relays, request)
  {
    hide Candidates, Serves, Open;
    var candidates := Candidates(details, relays, request);
    forall p: nat
      ensures p in candidates <==> p < |relays| && Serves(details, relays, request, relays[p])
    {
      CandidatesServe(details, relays, request, p);
    }
    CandidatesAreOpen(details, relays, request);
    assert |candidates| > 1 ==> candidates[0] < candidates[1];
    if |candidates| == 1 {
      assert candidates[0] in candidates;
    }
    if OneServes(details, relays, request) {
      var p :| 0 <= p < |relays| && Serves(details, relays, request, relays[p])
        && forall q :: 0 <= q < |relays| && Serves(details, relays, request, relays[q]) ==> q == p;
      assert p in candidates;
      assert forall k :: 0 <= k < |candidates| ==> candidates[k] in candidates && candidates[k] == p;
    }
  }

  // A listed id stands for a relay that serves the message.
  ghost predicate Available(details: seq<Detail>, relays: seq<RelayView>, request: Request, id: Text) {
    PositionOf(relays, id).Some? && Serves(details, relays, request, relays[PositionOf(relays, id).value])
  }

  // The ids of the rule that is matched, if one is.
  ghost function RuleIds(routing: Routing, request: Request): seq<Text> {
    match RuleFor(routing, request)
    case None => []
    case Some(k) => routing.overrides[k].relayIds
  }

  // A message bound to a single relay never gets to the overrides.
  ghost predicate Overridable(details: seq<Detail>, routing: Routing, relays: seq<RelayView>, request: Request) {
    RuleFor(routing, request).Some?
    && !(Binding(details, relays, request).Some? && OneServes(details, relays, request))
  }

  // An override without fallback, none of whose relays serves the message.
  ghost predicate StrictMiss(details: seq<Detail>, routing: Routing, relays: seq<RelayView>, request: Request) {
    !routing.fallback && Overridable(details, routing, relays, request)
    && forall id :: id in RuleIds(routing, request) ==> !Available(details, relays, request, id)
  }

  // No relay is open that the message may use.
  ghost predicate NoneOpen(details: seq<Detail>, relays: seq<RelayView>, request: Request) {
    match Binding(details, relays, request)
    case Some(d) => forall r :: r in relays && LinkedTo(r, d) ==> !Open(r, request)
    case None => forall r :: r in relays ==> !Open(r, request)
  }

  lemma NoCandidates(details: seq<Detail>, relays: seq<RelayView>, request: Request)
    ensures Candidates(details, relays, request) == [] <==> NoneOpen(details, relays, request)
  {
    hide Offered, Binding;
    var candidates := Candidates(details, relays, request);
    if candidates != [] {
      CandidatesAreOpen(details, relays, request);
      assert relays[candidates[0]] in relays && Open(relays[candidates[0]], request);
    } else {
      forall r | r in relays && Open(r, request)
        ensures match Binding(details, relays, request) case Some(d) => !LinkedTo(r, d) case None => false
      {
        var p :| 0 <= p < |relays| && relays[p] == r;
      }
    }
  }

  lemma {:induction false} ListedIsAvailable(details: seq<Detail>, relays: seq<RelayView>, request: Request,
          ids: seq<Text>)
    ensures FirstListed(ids, relays, Candidates(details, relays, request)).None?
      <==> forall id :: id in ids ==> !Available(details, relays, request, id)
  {
    hide Candidates, Serves, PositionOf, FirstListed;
    NoneListed(ids, relays, Candidates(details, relays, request));
    forall id | id in ids
      ensures Listed(relays, Candidates(details, relays, request), id) == Available(details, relays, request, id)
    {
      if PositionOf(relays, id).Some? {
        CandidatesServe(details, relays, request, PositionOf(relays, id).value);
      }
    }
  }

  // Exactly when a message finds no relay: the relays its SMTP detail is linked to are
  // all closed to it; or, with no such link, every relay is; or a strict override has
  // nothing to offer. The reason given says which of these it was.
  lemma {:induction false} RefusedExactlyWhen(
    details: seq<Detail>, routing: Routing, relays: seq<RelayView>, request: Request)
    ensures Decide(details, routing, relays, request).Refused?
      <==> NoneOpen(details, relays, request) || StrictMiss(details, routing, relays, request)
    ensures Decide(details, routing, relays, request).Refused? ==>
      Decide(details, routing, relays, request).why
        == if relays == [] then NoRelays
           else if !NoneOpen(details, relays, request) then OverrideBusy
           else if Binding(details, relays, request).Some? then DetailBusy
           else NoneEligible
  {
    hide Candidates, Binding, RuleFor, FirstListed, StickyKey, Available, OneServes;
    NoCandidates(details, relays, request);
    Bound(details, relays, request);
    OneCandidate(details, relays, request);
    ListedIsAvailable(details, relays, request, RuleIds(routing, request));
  }

  // A binding detail is linked to a relay there is.
  lemma {:induction false} Bound(details: seq<Detail>, relays: seq<RelayView>, request: Request)
    ensures match Binding(details, relays, request)
      case None => true
      case Some(d) => exists r :: r in relays && LinkedTo(r, d)
  {
    match Binding(details, relays, request)
    case None =>
    case Some(d) =>
      var p :| 0 <= p < |relays| && LinkedTo(relays[p], d);
      assert relays[p] in relays;
  }

  lemma NoneListed(ids: seq<Text>, relays: seq<RelayView>, candidates: seq<nat>)
    ensures FirstListed(ids, relays, candidates).None? <==> forall id :: id in ids ==> !Listed(relays, candidates, id)
  {
    hide FirstListed, Listed;
    if FirstListed(ids, relays, candidates).Some? {
      var k :| 0 <= k < |ids| && FirstAt(ids, relays, candidates, k);
      assert ids[k] in ids;
    }
  }

  // So where no detail links and no strict override misses, a message is turned away
  // only when nothing eligible is left untried.
  lemma AnyOpenRelayIsEnough(details: seq<Detail>, routing: Routing, relays: seq<RelayView>, request: Request, p: nat)
    requires Binding(details, relays, request).None? && !StrictMiss(details, routing, relays, request)
    requires p < |relays| && Open(relays[p], request)
    ensures !Decide(details, routing, relays, request).Refused?
  {
    hide Decide, StrictMiss, Binding;
    RefusedExactlyWhen(details, routing, relays, request);
    assert relays[p] in relays;
  }

  // -- which relay is preferred -------------------------------------------------------------------

  ghost predicate Chooses(decision: Decision, p: nat) {
    match decision
    case Refused(_) => false
    case Fixed(route) => route.position == p
    case Hashed(candidates, _) => p in candidates
    case Strategic(candidates) => p in candidates
  }

  lemma ChosenIsCandidate(details: seq<Detail>, routing: Routing, relays: seq<RelayView>, request: Request, p: nat)
    requires Chooses(Decide(details, routing, relays, request), p)
    ensures p in Candidates(details, relays, request)
  {
    hide Candidates, Binding, RuleFor, FirstListed, StickyKey;
  }

  // A message whose detail is linked to relays leaves by one of those and no other; and
  // relays outside the rotation serve only while no relay of the rotation can.
  lemma {:induction false} ScopeIsKept(details: seq<Detail>, routing: Routing, relays: seq<RelayView>,
          request: Request, p: nat, q: nat)
    requires Chooses(Decide(details, routing, relays, request), p)
    requires q < |relays| && Open(relays[q], request)
    ensures p < |relays| && Open(relays[p], request)
    ensures match Binding(details, relays, request)
      case Some(d) =>
        LinkedTo(relays[p], d)
        && (LinkedTo(relays[q], d) && relays[q].inRotation ==> relays[p].inRotation)
      case None => InScope(relays[q], RotationPool) ==> InScope(relays[p], RotationPool)
  {
    hide Decide, Binding, Offered, LinkedTo;
    ChosenIsCandidate(details, routing, relays, request, p);
    CandidatesAreOpen(details, relays, request);
  }

  ghost predicate Overrides(decision: Decision) {
    decision.Fixed? && decision.route.reason == DomainOverride
  }

  ghost predicate AnyAvailable(details: seq<Detail>, relays: seq<RelayView>, request: Request, ids: seq<Text>) {
    exists id :: id in ids && Available(details, relays, request, id)
  }

  // Exactly when an override decides: a listed relay serves the message, which is not
  // bound to a single relay. It then leaves by a listed relay.
  lemma {:induction false} OverrideDecidesExactlyWhen(
    details: seq<Detail>, routing: Routing, relays: seq<RelayView>, request: Request)
    ensures Overrides(Decide(details, routing, relays, request))
      <==> (Overridable(details, routing, relays, request)
            && AnyAvailable(details, relays, request, RuleIds(routing, request)))
    ensures Overrides(Decide(details, routing, relays, request)) ==>
      exists id :: id in RuleIds(routing, request)
        && PositionOf(relays, id) == Some(Decide(details, routing, relays, request).route.position)
  {
    hide Candidates, Binding, RuleFor, FirstListed, StickyKey, Available, OneServes, PositionOf;
    var candidates := Candidates(details, relays, request);
    OneCandidate(details, relays, request);
    ListedIsAvailable(details, relays, request, RuleIds(routing, request));
    if candidates == [] {
      NothingAvailable(details, relays, request, RuleIds(routing, request));
    }
    if Overrides(Decide(details, routing, relays, request)) {
      var ids := RuleIds(routing, request);
      var k :| 0 <= k < |ids| && FirstAt(ids, relays, candidates, k)
        && PositionOf(relays, ids[k]) == FirstListed(ids, relays, candidates);
      assert ids[k] in ids;
    }
  }

  lemma {:induction false} NothingAvailable(details: seq<Detail>, relays: seq<RelayView>, request: Request,
          ids: seq<Text>)
    requires Candidates(details, relays, request) == []
    ensures forall id :: id in ids ==> !Available(details, relays, request, id)
  {
    hide Candidates, Serves, PositionOf;
    forall id | id in ids
      ensures !Available(details, relays, request, id)
    {
      if PositionOf(relays, id).Some? {
        CandidatesServe(details, relays, request, PositionOf(relays, id).value);
      }
    }
  }

  // A listed relay open to the message, in this scope.
  ghost predicate AnyListed(relays: seq<RelayView>, request: Request, ids: seq<Text>, scope: Scope) {
    exists id :: id in ids && PositionOf(relays, id).Some?
      && Open(relays[PositionOf(relays, id).value], request) && InScope(relays[PositionOf(relays, id).value], scope)
  }

  // One in the narrow scope, or one in the wide scope while nobody is in the narrow.
  ghost predicate Reaches(relays: seq<RelayView>, request: Request, ids: seq<Text>, narrow: Scope, wide: Scope) {
    AnyListed(relays, request, ids, narrow)
    || (NobodyIn(relays, request, narrow) && AnyListed(relays, request, ids, wide))
  }

  lemma {:induction false} AvailableInScope(
    details: seq<Detail>, relays: seq<RelayView>, request: Request, ids: seq<Text>, narrow: Scope, wide: Scope)
    requires forall r :: Serves(details, relays, request, r) <==> ServedBy(relays, request, r, narrow, wide)
    ensures AnyAvailable(details, relays, request, ids) <==> Reaches(relays, request, ids, narrow, wide)
  {
    hide Serves, NobodyIn, Open, InScope, PositionOf;
    if AnyAvailable(details, relays, request, ids) {
      var id :| id in ids && Available(details, relays, request, id);
      assert ServedBy(relays, request, relays[PositionOf(relays, id).value], narrow, wide);
    }
    if AnyListed(relays, request, ids, narrow) {
      var id :| id in ids && PositionOf(relays, id).Some? && Open(relays[PositionOf(relays, id).value], request)
        && InScope(relays[PositionOf(relays, id).value], narrow);
      assert Available(details, relays, request, id);
    }
    if NobodyIn(relays, request, narrow) && AnyListed(relays, request, ids, wide) {
      var id :| id in ids && PositionOf(relays, id).Some? && Open(relays[PositionOf(relays, id).value], request)
        && InScope(relays[PositionOf(relays, id).value], wide);
      assert Available(details, relays, request, id);
    }
  }

  // For a message with no linked detail: an override decides if and only if one of its
  // relays is open in the rotation pool, or one is open and nobody is in the pool.
  lemma {:induction false} OverrideOfUnlinked(
    details: seq<Detail>, routing: Routing, relays: seq<RelayView>, request: Request)
    requires Binding(details, relays, request).None?
    ensures Overrides(Decide(details, routing, relays, request))
      <==> Reaches(relays, request, RuleIds(routing, request), RotationPool, Everyone)
  {
    hide Decide, Binding, RuleFor, ServedBy, NobodyIn, AnyListed, Available, OneServes;
    OverrideDecidesExactlyWhen(details, routing, relays, request);
    AvailableInScope(details, relays, request, RuleIds(routing, request), RotationPool, Everyone);
  }

  // For a linked one: among its linked relays those in rotation first, and not at all
  // when a single one serves it.
  lemma {:induction false} OverrideOfLinked(
    details: seq<Detail>, routing: Routing, relays: seq<RelayView>, request: Request, d: Detail)
    requires Binding(details, relays, request) == Some(d)
    ensures Overrides(Decide(details, routing, relays, request))
      <==> !OneServes(details, relays, request)
           && Reaches(relays, request, RuleIds(routing, request), LinkedInRotation(d), Linked(d))
  {
    hide Decide, Binding, RuleFor, ServedBy, NobodyIn, AnyListed, Available, OneServes;
    OverrideDecidesExactlyWhen(details, routing, relays, request);
    AvailableInScope(details, relays, request, RuleIds(routing, request), LinkedInRotation(d), Linked(d));
  }

  // So an override none of whose relays is open in the rotation pool is passed over while
  // somebody is, or fails the message without fallback.
  lemma {:induction false} OverrideStaysInRotation(
    details: seq<Detail>, routing: Routing, relays: seq<RelayView>, request: Request)
    requires Binding(details, relays, request).None? && RuleFor(routing, request).Some?
    requires !NobodyIn(relays, request, RotationPool)
    requires !AnyListed(relays, request, RuleIds(routing, request), RotationPool)
    ensures !Overrides(Decide(details, routing, relays, request))
    ensures Decide(details, routing, relays, request).Refused? <==> !routing.fallback
  {
    hide Decide, RuleFor, ServedBy, NobodyIn, AnyListed, Available, OneServes, Binding;
    OverrideOfUnlinked(details, routing, relays, request);
    RefusedExactlyWhen(details, routing, relays, request);
    AvailableInScope(details, relays, request, RuleIds(routing, request), RotationPool, Everyone);
    SomebodyOpen(details, relays, request);
  }

  lemma {:induction false} SomebodyOpen(details: seq<Detail>, relays: seq<RelayView>, request: Request)
    requires Binding(details, relays, request).None? && !NobodyIn(relays, request, RotationPool)
    ensures !NoneOpen(details, relays, request)
  {
    hide Binding;
  }

  // A domain as it is compared: without outer white space, trailing dots and letter case.
  // A wildcard covers what follows it and everything below that; it is also met word for
  // word, like any other pattern, and no other pattern is met otherwise.
  lemma {:induction false} WildcardCovers(rule: Override, domain: Text, suffix: Text)
    requires ToLower(Trim(rule.domain)) == [STAR, DOT] + suffix
    ensures Matches(rule, domain)
      <==> Needle(domain) == [STAR, DOT] + suffix || Needle(domain) == suffix
           || exists front :: Needle(domain) == front + [DOT] + suffix
  {
    hide Needle, Trim;
    var needle, pattern := Needle(domain), ToLower(Trim(rule.domain));
    assert pattern[..2] == [STAR, DOT] && pattern[2..] == suffix;
    if EndsWith(needle, [DOT] + suffix) {
      var front := needle[..|needle| - |suffix| - 1];
      assert needle == front + ([DOT] + suffix);
      assert needle == front + [DOT] + suffix;
    }
    if front :| needle == front + [DOT] + suffix {
      assert needle[|needle| - |[DOT] + suffix|..] == [DOT] + suffix;
    }
  }

  lemma {:induction false} OtherPatternsAreWords(rule: Override, domain: Text)
    requires !([STAR, DOT] <= ToLower(Trim(rule.domain)))
    ensures Matches(rule, domain) <==> ToLower(Trim(rule.domain)) == Needle(domain)
  {
    hide Needle, Trim;
    var pattern := ToLower(Trim(rule.domain));
    assert |pattern| >= 2 ==> ([STAR, DOT] <= pattern <==> pattern[..2] == [STAR, DOT]);
  }

  // The rule that is looked for is one for the domain of the first recipient.
  lemma {:induction false} RuleIsForFirstRecipient(routing: Routing, request: Request, k: nat)
    ensures RuleFor(routing, request) == Some(k) ==>
      k < |routing.overrides| && request.recipients != []
      && Matches(routing.overrides[k], AddressDomain(request.recipients[0]))
    ensures RuleFor(routing, request).None? && k < |routing.overrides| && request.recipients != [] ==>
      !Matches(routing.overrides[k], AddressDomain(request.recipients[0]))
  {
    hide Needle, ExactMatch, WildcardMatch, AddressDomain;
  }

  lemma WildcardEnds(rule: Override, needle: Text)
    requires WildcardMatch(rule, needle) && |Trim(rule.domain)| > 2
    ensures needle != [] && needle[|needle| - 1] == ToLower(Trim(rule.domain))[|Trim(rule.domain)| - 1]
  {
    var pattern := ToLower(Trim(rule.domain));
    var suffix := [DOT] + pattern[2..];
    if EndsWith(needle, suffix) {
      assert needle[|needle| - |suffix|..][|suffix| - 1] == needle[|needle| - 1];
    }
  }

  // A rule whose domain ends in a dot is never matched: only the recipient's domain is
  // stripped of trailing dots.
  lemma TrailingDotNeverMatches(rule: Override, domain: Text)
    requires EndsInDot(rule)
    ensures !Matches(rule, domain)
  {
    if WildcardMatch(rule, Needle(domain)) {
      WildcardEnds(rule, Needle(domain));
    }
  }

  ghost predicate Matches(rule: Override, domain: Text) {
    ExactMatch(rule, Needle(domain)) || WildcardMatch(rule, Needle(domain))
  }

  ghost predicate EndsInDot(rule: Override) {
    var pattern := ToLower(Trim(rule.domain));
    pattern != [] && pattern[|pattern| - 1] == DOT && pattern != [STAR, DOT]
  }

  lemma LowerKeepsShape(d: Text)
    requires DomainShape(d)
    ensures DomainShape(ToLower(d))
  {
    var lower := ToLower(d);
    forall k | 0 <= k < |d|
      ensures !IsSpace(lower[k]) && lower[k] != LT && lower[k] != GT && lower[k] != COMMA && lower[k] != AT
    {
      assert lower[k] == LowerByte(d[k]);
    }
  }

  lemma {:induction false} NeedleHasShape(address: Text)
    requires LooksLikeEmail(address)
    ensures DomainShape(Needle(AddressDomain(address)))
  {
    hide LooksLikeEmail, AddressDomain, Trim, ToLower;
    var d := Trim(AddressDomain(address));
    DomainHasShape(address);
    assert TrimEndDots(d) == d;
    LowerKeepsShape(d);
  }

  // A pattern whose own text could be a domain, or after its wildcard.
  predicate Meetable(rule: Override) {
    var pattern := ToLower(Trim(rule.domain));
    DomainShape(pattern) || (|pattern| >= 2 && pattern[..2] == [STAR, DOT] && DomainShape(pattern[2..]))
  }

  lemma {:induction false} MetIsMeetable(rule: Override, needle: Text)
    requires DomainShape(needle) && (ExactMatch(rule, needle) || WildcardMatch(rule, needle))
    ensures Meetable(rule)
  {
    var pattern := ToLower(Trim(rule.domain));
    if !ExactMatch(rule, needle) && needle != pattern[2..] {
      var suffix := [DOT] + pattern[2..];
      var n := |needle| - |suffix|;
      assert needle[n..] == suffix;
      assert forall k :: 0 <= k < |suffix| ==> needle[n + k] == suffix[k];
      assert forall k :: 2 <= k < |pattern| ==> pattern[k] == suffix[k - 1];
      assert pattern[0] == STAR && pattern[1] == DOT;
    }
  }

  lemma {:induction false} ShapeIsNeeded(rule: Override, d: Text)
    requires DomainShape(d) && ToLower(d) == d && (ExactMatch(rule, d) || WildcardMatch(rule, d))
    ensures LooksLikeEmail([97, AT] + d) && Matches(rule, AddressDomain([97, AT] + d))
  {
    ShapeIsDomain(d);
    TrimTight(d);
    hide LooksLikeEmail, AddressDomain, Trim, ExactMatch, WildcardMatch;
  }

  // A rule can be met by a recipient that passes the address check if and only if its
  // pattern, or what follows its wildcard, could be a domain itself.
  lemma {:induction false} SomeRecipientMatches(rule: Override)
    ensures (exists a :: LooksLikeEmail(a) && Matches(rule, AddressDomain(a))) <==> Meetable(rule)
  {
    hide LooksLikeEmail, AddressDomain, Needle, DomainShape;
    var pattern := ToLower(Trim(rule.domain));
    assert ToLower(pattern) == pattern;
    if DomainShape(pattern) {
      ShapeIsNeeded(rule, pattern);
    } else if Meetable(rule) {
      assert ToLower(pattern[2..]) == pattern[2..];
      ShapeIsNeeded(rule, pattern[2..]);
    } else {
      forall a | LooksLikeEmail(a)
        ensures !Matches(rule, AddressDomain(a))
      {
        NeedleHasShape(a);
        if Matches(rule, AddressDomain(a)) {
          MetIsMeetable(rule, Needle(AddressDomain(a)));
        }
      }
    }
  }

  // -- what binds a message ------------------------------------------------------------------------

  // Names the client has given: the host it greeted with and the domain it sends from.
  function HostNames(request: Request): set<Text> {
    {ToLower(request.helo), ToLower(AddressDomain(request.sender))}
  }

  // The detail is the client's: it logged in with its user name, or one of its two names is
  // not blank and is given by the client, the title by the greeting only.
  ghost predicate Suits(d: Detail, request: Request) {
    || (request.authUser.Some? && request.authUser.value != []
        && ToLower(d.username) == ToLower(request.authUser.value))
    || (d.hostname != [] && ToLower(d.hostname) in HostNames(request))
    || (d.title != [] && ToLower(d.title) == ToLower(request.helo))
  }

  // Names under which a relay can be linked to the detail.
  ghost function LinkNames(d: Detail): set<Text> {
    {d.id} + ({d.title, d.hostname} - {[]})
  }

  ghost predicate FirstSuits(details: seq<Detail>, request: Request, i: nat) {
    i < |details| && Suits(details[i], request) && forall j :: 0 <= j < i ==> !Suits(details[j], request)
  }

  lemma SuitsIsMatch(d: Detail, request: Request)
    ensures Suits(d, request) <==> DetailMatches(d, request)
  {
  }

  lemma {:induction false} FirstIsFound(details: seq<Detail>, request: Request, i: nat)
    requires FirstSuits(details, request, i)
    ensures FindDetail(details, request) == Some(details[i])
  {
    hide Suits, DetailMatches;
    SuitsIsMatch(details[0], request);
    if i > 0 {
      FirstIsFound(details[1..], request, i - 1);
    }
  }

  lemma {:induction false} FoundIsFirst(details: seq<Detail>, request: Request) returns (i: nat)
    requires FindDetail(details, request).Some?
    ensures FirstSuits(details, request, i)
  {
    hide Suits, DetailMatches;
    SuitsIsMatch(details[0], request);
    i := 0;
    if !DetailMatches(details[0], request) {
      var k := FoundIsFirst(details[1..], request);
      assert forall j :: 1 <= j < k + 1 ==> details[j] == details[1..][j - 1];
      i := k + 1;
    }
  }

  lemma InRange(details: seq<Detail>, request: Request, i: nat)
    requires FirstSuits(details, request, i)
    ensures i < |details|
  {
  }

  lemma LinkedByName(r: RelayView, d: Detail)
    ensures LinkedTo(r, d) <==> r.detail.Some? && r.detail.value in LinkNames(d)
  {
  }

  // A message is bound exactly to the first detail that is the client's, if a relay is
  // linked to that one.
  lemma {:induction false} BoundExactlyWhen(details: seq<Detail>, relays: seq<RelayView>, request: Request, d: Detail)
    ensures Binding(details, relays, request) == Some(d)
      <==> (exists i: nat :: i < |details| && FirstSuits(details, request, i) && details[i] == d)
           && (exists r :: r in relays && r.detail.Some? && r.detail.value in LinkNames(d))
  {
    hide FindDetail, FirstSuits, LinkedTo, LinkNames;
    if i: nat :| i < |details| && FirstSuits(details, request, i) && details[i] == d {
      FirstIsFound(details, request, i);
    }
    if FindDetail(details, request).Some? {
      var i := FoundIsFirst(details, request);
      FirstIsFound(details, request, i);
      InRange(details, request, i);
    }
    forall r: RelayView
      ensures LinkedTo(r, d) <==> r.detail.Some? && r.detail.value in LinkNames(d)
    {
      LinkedByName(r, d);
    }
    if r :| r in relays && LinkedTo(r, d) {
      var p :| 0 <= p < |relays| && relays[p] == r;
    }
  }

  // Eligible now, and not tried for this message yet.
  ghost predicate Free(r: RelayView, request: Request) {
    r.eligible && r.id !in request.exclude
  }

  // A free relay serves a bound message if it is linked to the client's detail, and any other
  // message if it is of the shared rotation; one outside the rotation, or linked to another
  // detail, only while no such relay of the rotation is free.
  lemma {:induction false} ServesExactlyWhen(
      details: seq<Detail>, relays: seq<RelayView>, request: Request, r: RelayView)
    ensures Serves(details, relays, request, r)
      <==> Free(r, request)
           && match Binding(details, relays, request)
              case Some(d) =>
                var names := LinkNames(d);
                r.detail.Some? && r.detail.value in names
                && (r.inRotation
                    || forall q :: q in relays && q.detail.Some? && q.detail.value in names && q.inRotation
                                   ==> !Free(q, request))
              case None =>
                || (r.inRotation && r.detail.None?)
                || forall q :: q in relays && q.inRotation && q.detail.None? ==> !Free(q, request)
  {
    hide Binding;
    forall q: RelayView
      ensures Free(q, request) <==> Open(q, request)
    {
    }
  }

  // -- stickiness ------------------------------------------------------------------------------------

  // More than one relay serves the message.
  ghost predicate SeveralServe(details: seq<Detail>, relays: seq<RelayView>, request: Request) {
    exists p, q :: 0 <= p < q < |relays| && Serves(details, relays, request, relays[p])
      && Serves(details, relays, request, relays[q])
  }

  lemma {:induction false} SeveralCandidates(details: seq<Detail>, relays: seq<RelayView>, request: Request)
    ensures |Candidates(details, relays, request)| > 1 <==> SeveralServe(details, relays, request)
  {
    hide Candidates, Serves, Open;
    var candidates := Candidates(details, relays, request);
    forall p: nat
      ensures p in candidates <==> p < |relays| && Serves(details, relays, request, relays[p])
    {
      CandidatesServe(details, relays, request, p);
    }
    CandidatesAreOpen(details, relays, request);
    if |candidates| > 1 {
      assert candidates[0] in candidates && candidates[1] in candidates;
      assert candidates[0] < candidates[1];
    }
    if SeveralServe(details, relays, request) {
      var p, q :| 0 <= p < q < |relays| && Serves(details, relays, request, relays[p])
        && Serves(details, relays, request, relays[q]);
      assert p in candidates && q in candidates;
    }
  }

  // What a message is held to its relay by.
  ghost predicate HasKey(sticky: StickyMode, request: Request) {
    || (sticky == Sender && Trim(request.sender) != [])
    || (sticky == RecipientDomain && request.recipients != [] && Trim(AddressDomain(request.recipients[0])) != [])
  }

  // An override decides or turns the message away.
  ghost predicate Ruled(details: seq<Detail>, routing: Routing, relays: seq<RelayView>, request: Request) {
    RuleFor(routing, request).Some?
    && (!routing.fallback || AnyAvailable(details, relays, request, RuleIds(routing, request)))
  }

  lemma {:induction false} KeyExactlyWhen(sticky: StickyMode, request: Request)
    ensures StickyKey(sticky, request).Some? <==> HasKey(sticky, request)
    ensures HasKey(Sender, request) ==> StickyKey(Sender, request) == Some(ToLower(Trim(request.sender)))
    ensures HasKey(RecipientDomain, request) ==>
      request.recipients != []
      && StickyKey(RecipientDomain, request) == Some(ToLower(Trim(AddressDomain(request.recipients[0]))))
  {
    hide AddressDomain, Trim;
  }

  // Stickiness decides exactly when several relays serve, no override decides or refuses,
  // and the key it is set to is not blank: the sender, or the domain of the first
  // recipient, without outer white space and letter case. In its place the strategy decides
  // when there is no key, or only one relay.
  lemma {:induction false} SticksExactlyWhen(
    details: seq<Detail>, routing: Routing, relays: seq<RelayView>, request: Request)
    ensures var decision := Decide(details, routing, relays, request);
      && (decision.Hashed? <==>
            SeveralServe(details, relays, request) && !Ruled(details, routing, relays, request)
            && HasKey(routing.sticky, request))
      && (decision.Hashed? ==>
            && decision.candidates == Candidates(details, relays, request)
            && (routing.sticky == Sender ==> decision.key == ToLower(Trim(request.sender)))
            && (routing.sticky == RecipientDomain ==>
                  request.recipients != [] && decision.key == ToLower(Trim(AddressDomain(request.recipients[0])))))
      && (decision.Strategic? <==>
            && !Ruled(details, routing, relays, request) && !NoneOpen(details, relays, request)
            && (SeveralServe(details, relays, request) ==> !HasKey(routing.sticky, request))
            && (OneServes(details, relays, request) ==> Binding(details, relays, request).None?))
      && (decision.Strategic? ==> decision.candidates == Candidates(details, relays, request))
  {
    hide Candidates, Binding, RuleFor, FirstListed, StickyKey, Available, OneServes, SeveralServe, HasKey, Trim,
         AddressDomain;
    KeyExactlyWhen(routing.sticky, request);
    SeveralCandidates(details, relays, request);
    OneCandidate(details, relays, request);
    NoCandidates(details, relays, request);
    Bound(details, relays, request);
    ListedIsAvailable(details, relays, request, RuleIds(routing, request));
    var listed := FirstListed(RuleIds(routing, request), relays, Candidates(details, relays, request));
    assert listed.Some? <==> AnyAvailable(details, relays, request, RuleIds(routing, request));
  }

  // So messages of one sender, however it is written, leave by one relay while the same
  // relays serve them, whatever their recipients are; and with stickiness by domain,
  // messages to one domain do, whoever sends them.
  lemma {:induction false} OneSenderOneRelay(
    details: seq<Detail>, routing: Routing, relays: seq<RelayView>, a: Request, b: Request, hash: Text -> nat,
    p: nat, q: nat)
    requires Candidates(details, relays, a) == Candidates(details, relays, b)
    requires Decide(details, routing, relays, a).Hashed? && Decide(details, routing, relays, b).Hashed?
    requires HashedTo(relays, Decide(details, routing, relays, a).candidates,
                      hash(Decide(details, routing, relays, a).key), p)
    requires HashedTo(relays, Decide(details, routing, relays, b).candidates,
                      hash(Decide(details, routing, relays, b).key), q)
    ensures routing.sticky == Sender && SameText(Trim(a.sender), Trim(b.sender)) ==> p == q
    ensures a.recipients != [] && b.recipients != [] && routing.sticky == RecipientDomain ==>
      SameText(Trim(AddressDomain(a.recipients[0])), Trim(AddressDomain(b.recipients[0]))) ==> p == q
  {
    hide Decide, Candidates, HashedTo, Trim, AddressDomain, SeveralServe, Ruled, HasKey, NoneOpen, OneServes, Binding;
    SticksExactlyWhen(details, routing, relays, a);
    SticksExactlyWhen(details, routing, relays, b);
    var one, other := Decide(details, routing, relays, a), Decide(details, routing, relays, b);
    if one.key == other.key {
      HashIsStable(relays, one.candidates, hash(one.key), p, q);
    }
  }

  // -- the preferred candidate -------------------------------------------------------------------------

  // Least used means fewest sends this hour; among those fewest in flight; among those the
  // first in the pool.
  lemma {:induction false} FewestSends(relays: seq<RelayView>, candidates: seq<nat>, k: nat)
    requires candidates != [] && Among(relays, candidates) && k < |candidates|
    ensures var best, r := LeastUsedOf(relays, candidates), candidates[k];
      && relays[best].hourCount <= relays[r].hourCount
      && (relays[best].hourCount == relays[r].hourCount ==> relays[best].inFlight <= relays[r].inFlight)
      && (relays[best].hourCount == relays[r].hourCount && relays[best].inFlight == relays[r].inFlight ==> best <= r)
  {
  }

  // The failover order is by priority number, and in the pool's order for equal ones.
  lemma {:induction false} LowestPriority(relays: seq<RelayView>, candidates: seq<nat>, k: nat)
    requires candidates != [] && Among(relays, candidates) && k < |candidates|
    ensures var best, r := FirstRanked(relays, candidates), candidates[k];
      && relays[best].priority <= relays[r].priority
      && (relays[best].priority == relays[r].priority ==> best <= r)
  {
  }

  // -- equal turns ----------------------------------------------------------------------------------

  // How many of t picks over n stable candidates fall on candidate j, the first at this
  // cursor.
  ghost function Turns(cursor: nat, n: nat, t: nat, j: nat): nat
    requires n > 0
  {
    if t == 0 then 0
    else Turns(cursor, n, t - 1, j) + if (cursor + t - 1) % CURSORS % n == j then 1 else 0
  }

  // Numbers below x that leave j.
  ghost function Below(x: nat, n: nat, j: nat): nat
    requires j < n
  {
    (x + n - 1 - j) / n
  }

  lemma DivisionIs(x: int, n: int, q: int, r: int)
    requires n > 0 && x == q * n + r && 0 <= r < n
    ensures x / n == q && x % n == r
  {
    var d := x / n - q;
    assert x == n * (x / n) + x % n;
    assert d * n == r - x % n by {
      assert (x / n) * n == n * (x / n);
      assert d * n == (x / n) * n - q * n;
    }
    if d >= 1 {
      MulMonotone(1, d, n);
    } else if d <= -1 {
      MulMonotone(1, -d, n);
    }
  }

  lemma MulMonotone(a: int, b: int, n: int)
    requires a <= b && n > 0
    ensures a * n <= b * n && (-b) * n == -(b * n)
  {
  }

  lemma BelowStep(x: nat, n: nat, j: nat)
    requires j < n
    ensures Below(x + 1, n, j) == Below(x, n, j) + if x % n == j then 1 else 0
  {
    var q, r := x / n, x % n;
    assert x == q * n + r;
    assert (q + 1) * n == q * n + n;
    if r < j {
      DivisionIs(x + n - 1 - j, n, q, r + n - 1 - j);
      DivisionIs(x + n - j, n, q, r + n - j);
    } else if r == j {
      DivisionIs(x + n - 1 - j, n, q, n - 1);
      DivisionIs(x + n - j, n, q + 1, 0);
    } else {
      DivisionIs(x + n - 1 - j, n, q + 1, r - 1 - j);
      DivisionIs(x + n - j, n, q + 1, r - j);
    }
  }

  lemma BelowPeriods(x: nat, n: nat, j: nat, k: nat)
    requires j < n
    ensures Below(x + k * n, n, j) == Below(x, n, j) + k
  {
    var y := x + n - 1 - j;
    assert (y / n + k) * n == (y / n) * n + k * n;
    assert y == (y / n) * n + y % n;
    DivisionIs(y + k * n, n, y / n + k, y % n);
  }

  lemma {:induction false} TurnsCounted(cursor: nat, n: nat, t: nat, j: nat)
    requires j < n
    requires forall i :: cursor <= i < cursor + t ==> i % CURSORS % n == i % n
    ensures Turns(cursor, n, t, j) == Below(cursor + t, n, j) - Below(cursor, n, j)
  {
    hide Below;
    if t > 0 {
      TurnsCounted(cursor, n, t - 1, j);
      BelowStep(cursor + t - 1, n, j);
    }
  }

  // k rounds over n candidates serve each exactly k times, wherever the cursor stands,
  // as long as it does not run over its 64 bits on the way.
  lemma EqualTurns(cursor: nat, n: nat, k: nat, j: nat)
    requires j < n && cursor + k * n <= CURSORS
    ensures Turns(cursor, n, k * n, j) == k
  {
    TurnsCounted(cursor, n, k * n, j);
    BelowPeriods(cursor, n, j, k);
  }

  lemma {:induction false} MoreTurns(cursor: nat, n: nat, t: nat, u: nat, j: nat)
    requires n > 0 && t <= u
    ensures Turns(cursor, n, t, j) <= Turns(cursor, n, u, j)
  {
    if t < u {
      MoreTurns(cursor, n, t, u - 1, j);
    }
  }

  lemma SameResidue(i: nat, n: nat)
    requires n > 0 && CURSORS % n == 0 && i < 2 * CURSORS
    ensures i % CURSORS % n == i % n
  {
    if i >= CURSORS {
      var rest, q := i - CURSORS, CURSORS / n;
      assert CURSORS == q * n;
      assert (rest / n + q) * n == rest / n * n + q * n;
      DivisionIs(i, n, rest / n + q, rest % n);
    }
  }

  lemma TurnsStep(cursor: nat, n: nat, t: nat, j: nat)
    requires n > 0
    ensures Turns(cursor, n, 0, j) == 0
    ensures Turns(cursor, n, t + 1, j) == Turns(cursor, n, t, j) + if (cursor + t) % CURSORS % n == j then 1 else 0
  {
  }

  lemma BeforeTheWrap(m: nat, n: nat, q: nat, r: nat)
    requires n > 0 && m == q * n + r && 0 < r < n
    ensures r <= m && (m - 1) % m == m - 1 && (m - 1) % n == r - 1
  {
    MulMonotone(0, q, n);
    DivisionIs(m - 1, m, 0, m - 1);
    DivisionIs(m - 1, n, q, r - 1);
  }

  lemma AfterTheWrap(m: nat, n: nat, r: nat)
    requires 0 < r < n && r <= m
    ensures (m - 1 + r) % m == r - 1 && (r - 1) % n == r - 1
  {
    DivisionIs(m - 1 + r, m, 1, r - 1);
    DivisionIs(r - 1, n, 0, r - 1);
  }

  // The last pick before the wrap and one soon after it fall on the same candidate.
  lemma AroundTheWrap(n: nat, r: nat)
    requires n > 0 && r == CURSORS % n && r > 0
    ensures (CURSORS - 1 + 0) % CURSORS % n == r - 1 && (CURSORS - 1 + r) % CURSORS % n == r - 1
  {
    var m := CURSORS;
    hide CURSORS;
    BeforeTheWrap(m, n, m / n, r);
    AfterTheWrap(m, n, r);
  }

  lemma UnequalAtTheWrap(n: nat)
    requires n > 0 && CURSORS % n != 0
    ensures Turns(CURSORS - 1, n, n, CURSORS % n - 1) >= 2
  {
    hide Turns;
    var r := CURSORS % n;
    AroundTheWrap(n, r);
    TurnsStep(CURSORS - 1, n, 0, r - 1);
    MoreTurns(CURSORS - 1, n, 1, r, r - 1);
    TurnsStep(CURSORS - 1, n, r, r - 1);
    MoreTurns(CURSORS - 1, n, r + 1, n, r - 1);
  }

  // Over the wrap of the cursor as well, every n picks in a row serve each of n
  // candidates once, if and only if n divides 2^64.
  lemma EqualTurnsAlways(n: nat)
    requires n > 0
    ensures (forall cursor: nat, j: nat :: cursor < CURSORS && j < n ==> Turns(cursor, n, n, j) == 1)
      <==> CURSORS % n == 0
  {
    hide Turns, Below;
    if CURSORS % n == 0 {
      forall cursor: nat, j: nat | cursor < CURSORS && j < n
        ensures Turns(cursor, n, n, j) == 1
      {
        forall i | cursor <= i < cursor + n
          ensures i % CURSORS % n == i % n
        {
          DivisorIsSmall(n);
          SameResidue(i, n);
        }
        TurnsCounted(cursor, n, n, j);
        BelowPeriods(cursor, n, j, 1);
      }
    } else {
      UnequalAtTheWrap(n);
      var j := CURSORS % n - 1;
      assert Turns(CURSORS - 1, n, n, j) != 1;
    }
  }

  lemma DivisorIsSmall(n: nat)
    requires n > 0 && CURSORS % n == 0
    ensures n <= CURSORS
  {
  }

  // -- hashed shares -----------------------------------------------------------------------------------

  lemma {:induction false} LoadGrows(relays: seq<RelayView>, candidates: seq<nat>, j: nat, k: nat)
    requires Among(relays, candidates) && j <= k <= |candidates|
    ensures Load(relays, candidates[..j]) + (k - j) <= Load(relays, candidates[..k])
  {
    hide Load;
    if j < k {
      LoadGrows(relays, candidates, j, k - 1);
      LoadStep(relays, candidates, k - 1);
    }
  }

  // No residue lands on two candidates; that each lands on one is what the method shows.
  lemma LandsOnce(relays: seq<RelayView>, candidates: seq<nat>, target: nat, j: nat, k: nat)
    requires Among(relays, candidates) && j < |candidates| && k < |candidates|
    requires Lands(relays, candidates, target, j) && Lands(relays, candidates, target, k)
    ensures j == k
  {
    hide Load;
    if j < k {
      LoadGrows(relays, candidates, j + 1, k);
    } else if k < j {
      LoadGrows(relays, candidates, k + 1, j);
    }
  }

  // The numbers from a up to b.
  ghost function Stretch(a: nat, b: nat): (r: set<nat>)
    requires a <= b
    ensures forall h: nat :: h in r <==> a <= h < b
    ensures |r| == b - a
  {
    if a == b then {} else Stretch(a, b - 1) + {b - 1}
  }

  // Of the residues of the total weight exactly the candidate's weight land on it.
  lemma HashShares(relays: seq<RelayView>, candidates: seq<nat>, k: nat)
    requires Among(relays, candidates) && k < |candidates|
    ensures |set h: nat | h < Load(relays, candidates) && Lands(relays, candidates, h, k)|
         == WeightOf(relays[candidates[k]])
  {
    hide Load;
    var a, b := Load(relays, candidates[..k]), Load(relays, candidates[..k + 1]);
    LoadStep(relays, candidates, k);
    LoadGrows(relays, candidates, k + 1, |candidates|);
    assert candidates[..|candidates|] == candidates;
    assert (set h: nat | h < Load(relays, candidates) && Lands(relays, candidates, h, k)) == Stretch(a, b);
  }

  // The relay a hash is mapped to is one and the same every time.
  lemma HashIsStable(relays: seq<RelayView>, candidates: seq<nat>, hash: nat, p: nat, q: nat)
    requires HashedTo(relays, candidates, hash, p) && HashedTo(relays, candidates, hash, q)
    ensures p == q
  {
    hide Load, Lands;
    var target := hash % Load(relays, candidates);
    var j :| 0 <= j < |candidates| && p == candidates[j] && Lands(relays, candidates, target, j);
    var k :| 0 <= k < |candidates| && q == candidates[k] && Lands(relays, candidates, target, k);
    LandsOnce(relays, candidates, target, j, k);
  }
}
