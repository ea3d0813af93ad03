// Smooth weighted round-robin: the credits kept by the relay pool and the
// exact shares they produce (src/relay/pool.rs).
module SmoothWeights {
  import opened Wrappers

  // -- vocabulary --------------------------------------------------------

  ghost predicate InRange(n: nat, candidates: seq<nat>) {
    forall k :: 0 <= k < |candidates| ==> candidates[k] < n
  }

  ghost predicate Distinct(candidates: seq<nat>) {
    forall j, k :: 0 <= j < k < |candidates| ==> candidates[j] != candidates[k]
  }

  ghost function Sum(s: seq<int>): int {
    if s == [] then 0 else Sum(s[..|s| - 1]) + s[|s| - 1]
  }

  // Sum of s over the listed positions.
  ghost function SumAt(s: seq<int>, at: seq<nat>): int
    requires InRange(|s|, at)
  {
    if at == [] then 0 else SumAt(s, at[..|at| - 1]) + s[at[|at| - 1]]
  }

  // What relay i earns in one round: its weight once per listing.
  ghost function Earned(weights: seq<nat>, candidates: seq<nat>, i: nat): nat
    requires i < |weights|
  {
    if candidates == [] then 0
    else
      var last := |candidates| - 1;
      Earned(weights, candidates[..last], i) + if candidates[last] == i then weights[i] else 0
  }

  // One round, relay by relay: every candidate earns its weight, the chosen one
  // held the most credit and pays the total.
  ghost predicate Round(weights: seq<nat>, candidates: seq<nat>, before: seq<int>, chosen: nat, after: seq<int>) {
    && |before| == |after| == |weights|
    && InRange(|weights|, candidates)
    && chosen in candidates
    && (forall i :: 0 <= i < |weights| ==>
      after[i] == before[i] + Earned(weights, candidates, i) - if i == chosen then SumAt(weights, candidates) else 0)
    && (forall c :: c in candidates ==>
      before[c] + Earned(weights, candidates, c) <= before[chosen] + Earned(weights, candidates, chosen))
  }

  // Ties go to the relay listed first.
  ghost predicate FirstBest(weights: seq<nat>, candidates: seq<nat>, before: seq<int>, chosen: nat)
    requires |before| == |weights| && InRange(|weights|, candidates)
  {
    exists k :: 0 <= k < |candidates| && candidates[k] == chosen
      && forall j :: 0 <= j < k ==>
        before[candidates[j]] + Earned(weights, candidates, candidates[j])
          < before[chosen] + Earned(weights, candidates, chosen)
  }

  // -- the pool ----------------------------------------------------------

  // Vec::resize(n, 0)
  function Resized(credits: seq<int>, n: nat): (r: seq<int>)
    ensures |r| == n
    ensures |credits| == n ==> r == credits
  {
    if |credits| >= n then credits[..n] else credits + seq(n - |credits|, _ => 0)
  }

  class Pool {
    // config.weight.max(1) of each relay, in pool order
    const weights: seq<nat>
    // credits, indexed like weights
    var smoothWeights: seq<int>

    constructor (configured: seq<nat>)
      ensures |weights| == |configured| == |smoothWeights|
      ensures forall k :: 0 <= k < |configured| ==>
        weights[k] >= 1 && (configured[k] >= 1 ==> weights[k] == configured[k]) && smoothWeights[k] == 0
    {
      weights := seq(|configured|, i requires 0 <= i < |configured| => if configured[i] == 0 then 1 else configured[i]);
      smoothWeights := seq(|configured|, _ => 0);
    }

    method SmoothWeightedPick(candidates: seq<nat>) returns (best: Option<nat>)
      requires InRange(|weights|, candidates)
      modifies this`smoothWeights
      ensures best.None? <==> candidates == []
      ensures best.None? ==> smoothWeights == old(smoothWeights)
      ensures best.Some? ==>
        var before := Resized(old(smoothWeights), |weights|);
        && Round(weights, candidates, before, best.value, smoothWeights)
        && (Distinct(candidates) ==> FirstBest(weights, candidates, before, best.value))
    {
      hide Round, FirstBest, Distinct, Leads, Earned, SumAt;
      if candidates == [] {
        return None;
      }
      if |smoothWeights| != |weights| {
        smoothWeights := Resized(smoothWeights, |weights|);
      }
      ghost var before := smoothWeights;
      var total: int := 0;
      best := None;
      ghost var place := 0;
      var i := 0;
      EarnedNone(weights);
      while i < |candidates|
        invariant 0 <= i <= |candidates|
        invariant |smoothWeights| == |weights|
        invariant total == SumAt(weights, candidates[..i])
        invariant forall j :: 0 <= j < |weights| ==> smoothWeights[j] == before[j] + Earned(weights, candidates[..i], j)
        invariant best.None? <==> i == 0
        invariant best.Some? ==>
          place < i && candidates[place] == best.value && Leads(smoothWeights, candidates, i, place)
      {
        var candidate := candidates[i];
        var weight := weights[candidate];
        total := total + weight;
        EarnedStep(weights, candidates, i);
        LeadsStep(smoothWeights, candidates, i, place, weight);
        smoothWeights := smoothWeights[candidate := smoothWeights[candidate] + weight];
        if best.None? || smoothWeights[candidate] > smoothWeights[best.value] {
          best := Some(candidate);
          place := i;
        }
        i := i + 1;
      }
      assert candidates[..i] == candidates;
      Settle(weights, candidates, before, smoothWeights, place);
      smoothWeights := smoothWeights[best.value := smoothWeights[best.value] - total];
    }
  }

  // The relay at place holds the most credit of the first i candidates, more
  // than any listed before it.
  ghost predicate Leads(raised: seq<int>, candidates: seq<nat>, i: nat, place: nat)
    requires InRange(|raised|, candidates) && place < i <= |candidates|
  {
    && (forall j :: 0 <= j < i ==> raised[candidates[j]] <= raised[candidates[place]])
    && (Distinct(candidates) ==> forall j :: 0 <= j < place ==> raised[candidates[j]] < raised[candidates[place]])
  }

  lemma {:induction false} LeadsStep(raised: seq<int>, candidates: seq<nat>, i: nat, place: nat, weight: nat)
    requires InRange(|raised|, candidates) && i < |candidates|
    requires i > 0 ==> place < i && Leads(raised, candidates, i, place)
    ensures var c := candidates[i];
      var next := raised[c := raised[c] + weight];
      Leads(next, candidates, i + 1, if i == 0 || next[c] > next[candidates[place]] then i else place)
  {
  }

  // The relay at place, best of all and strictly better than those before it, pays.
  lemma {:induction false} Settle(weights: seq<nat>, candidates: seq<nat>, before: seq<int>, raised: seq<int>,
          place: nat)
    requires |before| == |raised| == |weights| && InRange(|weights|, candidates) && place < |candidates|
    requires forall j :: 0 <= j < |weights| ==> raised[j] == before[j] + Earned(weights, candidates, j)
    requires Leads(raised, candidates, |candidates|, place)
    ensures var chosen := candidates[place];
      Round(weights, candidates, before, chosen, raised[chosen := raised[chosen] - SumAt(weights, candidates)])
    ensures Distinct(candidates) ==> FirstBest(weights, candidates, before, candidates[place])
  {
    hide Earned, SumAt;
  }

  lemma EarnedNone(weights: seq<nat>)
    ensures SumAt(weights, []) == 0
    ensures forall j :: 0 <= j < |weights| ==> Earned(weights, [], j) == 0
  {
  }

  lemma EarnedStep(weights: seq<nat>, candidates: seq<nat>, i: nat)
    requires InRange(|weights|, candidates) && i < |candidates|
    ensures InRange(|weights|, candidates[..i]) && InRange(|weights|, candidates[..i + 1])
    ensures SumAt(weights, candidates[..i + 1]) == SumAt(weights, candidates[..i]) + weights[candidates[i]]
    ensures forall j :: 0 <= j < |weights| ==>
      Earned(weights, candidates[..i + 1], j)
        == Earned(weights, candidates[..i], j) + if j == candidates[i] then weights[j] else 0
  {
    assert candidates[..i + 1][..i] == candidates[..i];
  }

  // -- one round over a fixed list of distinct relays --------------------

  ghost predicate Setting(weights: seq<nat>, candidates: seq<nat>) {
    && (forall k :: 0 <= k < |weights| ==> weights[k] >= 1)
    && InRange(|weights|, candidates)
    && Distinct(candidates)
    && candidates != []
  }

  lemma {:induction false} EarnedOnce(weights: seq<nat>, candidates: seq<nat>, i: nat)
    requires Distinct(candidates) && i < |weights|
    ensures Earned(weights, candidates, i) == if i in candidates then weights[i] else 0
  {
    if candidates != [] {
      var last := |candidates| - 1;
      EarnedOnce(weights, candidates[..last], i);
      assert candidates == candidates[..last] + [candidates[last]];
    }
  }

  lemma {:induction false} SumAtPositive(weights: seq<nat>, candidates: seq<nat>)
    requires forall k :: 0 <= k < |weights| ==> weights[k] >= 1
    requires InRange(|weights|, candidates)
    ensures SumAt(weights, candidates) >= |candidates|
  {
    if candidates != [] {
      SumAtPositive(weights, candidates[..|candidates| - 1]);
    }
  }

  lemma {:induction false} SumAtRound(weights: seq<nat>, candidates: seq<nat>, before: seq<int>, chosen: nat,
                                      after: seq<int>, done: seq<nat>)
    requires Setting(weights, candidates) && Round(weights, candidates, before, chosen, after)
    requires InRange(|weights|, done) && Distinct(done)
    requires forall c :: c in done ==> c in candidates
    ensures SumAt(after, done) == SumAt(before, done) + SumAt(weights, done)
      - if chosen in done then SumAt(weights, candidates) else 0
  {
    if done != [] {
      var last := |done| - 1;
      assert done == done[..last] + [done[last]];
      SumAtRound(weights, candidates, before, chosen, after, done[..last]);
      EarnedOnce(weights, candidates, done[last]);
    }
  }

  lemma {:induction false} SumAtBothLow(credits: seq<int>, weights: seq<nat>, at: seq<nat>)
    requires |credits| == |weights| && InRange(|credits|, at)
    requires forall k :: 0 <= k < |at| ==> credits[at[k]] + weights[at[k]] <= 0
    ensures SumAt(credits, at) + SumAt(weights, at) <= 0
  {
    if at != [] {
      SumAtBothLow(credits, weights, at[..|at| - 1]);
    }
  }

  // -- runs --------------------------------------------------------------

  // Picks made from zero credits over one candidate list; credits[t] is what
  // the pool holds after t of them.
  ghost predicate IsRun(weights: seq<nat>, candidates: seq<nat>, picks: seq<nat>, credits: seq<seq<int>>) {
    && Setting(weights, candidates)
    && |credits| == |picks| + 1
    && credits[0] == seq(|weights|, _ => 0)
    && (forall t :: 0 <= t < |picks| ==>
      && Round(weights, candidates, credits[t], picks[t], credits[t + 1])
      && FirstBest(weights, candidates, credits[t], picks[t]))
  }

  ghost function Count(picks: seq<nat>, i: nat): nat {
    if picks == [] then 0
    else Count(picks[..|picks| - 1], i) + if picks[|picks| - 1] == i then 1 else 0
  }

  lemma RunWidth(weights: seq<nat>, candidates: seq<nat>, picks: seq<nat>, credits: seq<seq<int>>, t: nat)
    requires IsRun(weights, candidates, picks, credits) && t <= |picks|
    ensures |credits[t]| == |weights|
  {
    if t > 0 {
      assert Round(weights, candidates, credits[t - 1], picks[t - 1], credits[t - 1 + 1]);
    }
  }

  lemma RunStep(weights: seq<nat>, candidates: seq<nat>, picks: seq<nat>, credits: seq<seq<int>>, t: nat, i: nat)
    requires IsRun(weights, candidates, picks, credits) && t < |picks| && i in candidates
    ensures |credits[t]| == |credits[t + 1]| == |weights|
    ensures credits[t + 1][i] == credits[t][i] + weights[i] - if picks[t] == i then SumAt(weights, candidates) else 0
  {
    assert Round(weights, candidates, credits[t], picks[t], credits[t + 1]);
    EarnedOnce(weights, candidates, i);
  }

  // The credit of a relay is exactly what it is owed: t shares earned, one full
  // total paid per pick.
  lemma {:induction false} CreditIsDebt(weights: seq<nat>, candidates: seq<nat>, picks: seq<nat>,
                                        credits: seq<seq<int>>, t: nat, i: nat)
    requires IsRun(weights, candidates, picks, credits) && t <= |picks| && i in candidates
    ensures |credits[t]| == |weights|
    ensures credits[t][i] == t * weights[i] - SumAt(weights, candidates) * Count(picks[..t], i)
  {
    hide Round, FirstBest, SumAt, Earned, Distinct;
    RunWidth(weights, candidates, picks, credits, t);
    if t > 0 {
      CreditIsDebt(weights, candidates, picks, credits, t - 1, i);
      RunStep(weights, candidates, picks, credits, t - 1, i);
      assert picks[..t][..t - 1] == picks[..t - 1];
      DebtStep(credits[t - 1][i], t, weights[i], SumAt(weights, candidates), Count(picks[..t - 1], i),
               picks[t - 1] == i);
    }
  }

  lemma DebtStep(credit: int, t: nat, w: nat, total: int, p: nat, won: bool)
    requires t > 0 && credit == (t - 1) * w - total * p
    ensures credit + w - (if won then total else 0) == t * w - total * (p + if won then 1 else 0)
  {
    assert t * w == (t - 1) * w + w;
    assert total * (p + 1) == total * p + total;
  }

  lemma {:induction false} CreditsBalance(weights: seq<nat>, candidates: seq<nat>, picks: seq<nat>,
                                          credits: seq<seq<int>>, t: nat)
    requires IsRun(weights, candidates, picks, credits) && t <= |picks|
    ensures |credits[t]| == |weights|
    ensures SumAt(credits[t], candidates) == 0
  {
    RunWidth(weights, candidates, picks, credits, t);
    if t == 0 {
      SumAtAllZero(credits[0], candidates);
    } else {
      CreditsBalance(weights, candidates, picks, credits, t - 1);
      assert Round(weights, candidates, credits[t - 1], picks[t - 1], credits[t - 1 + 1]);
      SumAtRound(weights, candidates, credits[t - 1], picks[t - 1], credits[t], candidates);
    }
  }

  lemma {:induction false} SumAtAllZero(s: seq<int>, at: seq<nat>)
    requires InRange(|s|, at) && forall k :: 0 <= k < |s| ==> s[k] == 0
    ensures SumAt(s, at) == 0
  {
    if at != [] {
      SumAtAllZero(s, at[..|at| - 1]);
    }
  }

  // The winner holds at least one credit before it pays, because the credits of
  // the candidates add up to a positive total.
  lemma {:induction false} CreditFloor(weights: seq<nat>, candidates: seq<nat>, picks: seq<nat>,
                                       credits: seq<seq<int>>, t: nat, i: nat)
    requires IsRun(weights, candidates, picks, credits) && t <= |picks| && i in candidates
    ensures |credits[t]| == |weights|
    ensures credits[t][i] >= 1 - SumAt(weights, candidates)
  {
    SumAtPositive(weights, candidates);
    RunWidth(weights, candidates, picks, credits, t);
    if t > 0 {
      CreditFloor(weights, candidates, picks, credits, t - 1, i);
      var before, chosen := credits[t - 1], picks[t - 1];
      assert Round(weights, candidates, before, chosen, credits[t - 1 + 1]);
      EarnedOnce(weights, candidates, i);
      if i == chosen && before[i] + weights[i] <= 0 {
        forall c | c in candidates
          ensures before[c] + weights[c] <= 0
        {
          EarnedOnce(weights, candidates, c);
        }
        CreditsBalance(weights, candidates, picks, credits, t - 1);
        SumAtBothLow(before, weights, candidates);
        assert false;
      }
    }
  }

  // No relay ever runs ahead of its share by a whole pick:
  // picks <= ceil(t * weight / total).
  lemma ShareIsNeverExceeded(weights: seq<nat>, candidates: seq<nat>, picks: seq<nat>, credits: seq<seq<int>>, t: nat,
          i: nat)
    requires IsRun(weights, candidates, picks, credits) && t <= |picks| && i in candidates
    ensures SumAt(weights, candidates) > 0
    ensures Count(picks[..t], i) <= (t * weights[i] + SumAt(weights, candidates) - 1) / SumAt(weights, candidates)
  {
    hide Round, FirstBest, SumAt, Earned, Distinct, Count;
    SumAtPositive(weights, candidates);
    CreditFloor(weights, candidates, picks, credits, t, i);
    CreditIsDebt(weights, candidates, picks, credits, t, i);
    DivideBound(SumAt(weights, candidates), Count(picks[..t], i), t * weights[i] + SumAt(weights, candidates) - 1);
  }

  lemma DivideBound(d: int, p: int, x: int)
    requires d > 0 && d * p <= x
    ensures p <= x / d
  {
    assert d * (x / d + 1) > x;
    if p >= x / d + 1 {
      MultiplyAtLeast(d, p, x / d + 1);
      assert false;
    }
  }

  lemma MultiplyAtLeast(d: int, a: int, b: int)
    requires d > 0 && a >= b
    ensures d * a >= d * b
  {
  }

  lemma Factor(total: int, w: int, p: int)
    ensures total * w - total * p == total * (w - p)
  {
  }

  lemma MultipleAboveMinusOne(total: int, gap: int)
    requires total > 0 && total * gap >= 1 - total
    ensures gap >= 0 && total * gap >= 0
    ensures total * gap == 0 ==> gap == 0
  {
    if gap <= -1 {
      MultiplyAtLeast(total, -1, gap);
      assert false;
    } else if gap >= 1 {
      MultiplyAtLeast(total, gap, 1);
    }
  }

  lemma {:induction false} ZeroSumOfNaturals(s: seq<int>, at: seq<nat>)
    requires InRange(|s|, at)
    requires forall k :: 0 <= k < |at| ==> s[at[k]] >= 0
    ensures SumAt(s, at) >= 0
    ensures SumAt(s, at) == 0 ==> forall k :: 0 <= k < |at| ==> s[at[k]] == 0
  {
    if at != [] {
      var front := at[..|at| - 1];
      ZeroSumOfNaturals(s, front);
      assert at == front + [at[|at| - 1]];
    }
  }

  // A credit of total * gap above -total leaves no room for a negative gap.
  lemma CycleGap(weights: seq<nat>, candidates: seq<nat>, picks: seq<nat>, credits: seq<seq<int>>, total: nat, i: nat)
    requires IsRun(weights, candidates, picks, credits) && i in candidates
    requires total == SumAt(weights, candidates) && 0 < total <= |picks|
    ensures |credits[total]| == |weights|
    ensures credits[total][i] >= 0 && (credits[total][i] == 0 ==> Count(picks[..total], i) == weights[i])
  {
    hide Round, FirstBest, SumAt, Earned, Distinct, Count;
    CreditIsDebt(weights, candidates, picks, credits, total, i);
    CreditFloor(weights, candidates, picks, credits, total, i);
    var gap := weights[i] - Count(picks[..total], i);
    Factor(total, weights[i], Count(picks[..total], i));
    MultipleAboveMinusOne(total, gap);
  }

  // After as many picks as the weights add up to, every relay has had exactly
  // its weight and all credits are back where they started.
  lemma FullCycle(weights: seq<nat>, candidates: seq<nat>, picks: seq<nat>, credits: seq<seq<int>>, total: nat)
    requires IsRun(weights, candidates, picks, credits)
    requires total == SumAt(weights, candidates) && 0 < total <= |picks|
    ensures credits[total] == credits[0]
    ensures forall i :: i in candidates ==> Count(picks[..total], i) == weights[i]
  {
    var final := credits[total];
    RunWidth(weights, candidates, picks, credits, total);
    forall i | i in candidates
      ensures final[i] >= 0 && (final[i] == 0 ==> Count(picks[..total], i) == weights[i])
    {
      CycleGap(weights, candidates, picks, credits, total, i);
    }
    CreditsBalance(weights, candidates, picks, credits, total);
    ZeroSumOfNaturals(final, candidates);
    forall i | 0 <= i < |weights|
      ensures final[i] == 0
    {
      if i !in candidates {
        BystanderKeepsCredit(weights, candidates, picks, credits, total, i);
      }
    }
  }

  lemma {:induction false} BystanderKeepsCredit(weights: seq<nat>, candidates: seq<nat>, picks: seq<nat>,
                                                credits: seq<seq<int>>, t: nat, i: nat)
    requires IsRun(weights, candidates, picks, credits) && t <= |picks| && i < |weights| && i !in candidates
    ensures |credits[t]| == |weights|
    ensures credits[t][i] == 0
  {
    RunWidth(weights, candidates, picks, credits, t);
    if t > 0 {
      BystanderKeepsCredit(weights, candidates, picks, credits, t - 1, i);
      assert Round(weights, candidates, credits[t - 1], picks[t - 1], credits[t - 1 + 1]);
      EarnedOnce(weights, candidates, i);
    }
  }

  // Equal credits lead to equal picks.
  lemma RoundIsDetermined(weights: seq<nat>, candidates: seq<nat>, before: seq<int>,
                          a: nat, afterA: seq<int>, b: nat, afterB: seq<int>)
    requires Distinct(candidates)
    requires Round(weights, candidates, before, a, afterA) && FirstBest(weights, candidates, before, a)
    requires Round(weights, candidates, before, b, afterB) && FirstBest(weights, candidates, before, b)
    ensures a == b && afterA == afterB
  {
  }

  // Rounds from the same credits are the same round.
  lemma SameCredits(weights: seq<nat>, candidates: seq<nat>, picks: seq<nat>, credits: seq<seq<int>>, s: nat, t: nat)
    requires IsRun(weights, candidates, picks, credits) && s < |picks| && t < |picks| && credits[s] == credits[t]
    ensures picks[s] == picks[t] && credits[s + 1] == credits[t + 1]
  {
    hide Round, FirstBest;
    RoundIsDetermined(weights, candidates, credits[s], picks[s], credits[s + 1], picks[t], credits[t + 1]);
  }

  lemma {:induction false} Periodic(weights: seq<nat>, candidates: seq<nat>, picks: seq<nat>, credits: seq<seq<int>>,
                                    total: nat, t: nat)
    requires IsRun(weights, candidates, picks, credits)
    requires total == SumAt(weights, candidates) && 0 < total && t + total <= |picks|
    ensures credits[t + total] == credits[t]
    ensures t + total < |picks| ==> picks[t + total] == picks[t]
  {
    hide Earned, SumAt, Count, Round, FirstBest, Setting;
    if t == 0 {
      FullCycle(weights, candidates, picks, credits, total);
    } else {
      Periodic(weights, candidates, picks, credits, total, t - 1);
      SameCredits(weights, candidates, picks, credits, t - 1, t - 1 + total);
    }
    if t + total < |picks| {
      SameCredits(weights, candidates, picks, credits, t, t + total);
    }
  }

  // The exact-share theorem: any run of consecutive picks as long as the total
  // weight, wherever it starts, chooses each relay exactly as often as its weight says.
  lemma {:induction false} ExactShares(weights: seq<nat>, candidates: seq<nat>, picks: seq<nat>,
                                       credits: seq<seq<int>>, total: nat, t: nat, i: nat)
    requires IsRun(weights, candidates, picks, credits) && i in candidates
    requires total == SumAt(weights, candidates) && t + total <= |picks|
    ensures 0 < total
    ensures Count(picks[t..t + total], i) == weights[i]
  {
    hide Round, FirstBest, Earned, Count;
    SumAtPositive(weights, candidates);
    if t == 0 {
      FullCycle(weights, candidates, picks, credits, total);
      assert picks[0..total] == picks[..total];
    } else {
      ExactShares(weights, candidates, picks, credits, total, t - 1, i);
      Periodic(weights, candidates, picks, credits, total, t - 1);
      SlideWindow(picks, total, t, i);
    }
  }

  lemma SlideWindow(picks: seq<nat>, total: nat, t: nat, i: nat)
    requires 0 < total && 0 < t && t + total <= |picks| && picks[t - 1] == picks[t - 1 + total]
    ensures Count(picks[t..t + total], i) == Count(picks[t - 1..t - 1 + total], i)
  {
    var window := picks[t - 1..t - 1 + total];
    CountSplit(window, i);
    assert window[1..] == picks[t..t + total][..total - 1];
  }

  lemma {:induction false} CountSplit(picks: seq<nat>, i: nat)
    requires picks != []
    ensures Count(picks, i) == (if picks[0] == i then 1 else 0) + Count(picks[1..], i)
  {
    var last := |picks| - 1;
    if last > 0 {
      CountSplit(picks[..last], i);
      assert picks[..last][1..] == picks[1..][..last - 1];
    }
  }

  // -- changing candidate lists -------------------------------------------

  // Relays drop out and come back between picks.
  ghost predicate IsVaryingRun(weights: seq<nat>, lists: seq<seq<nat>>, picks: seq<nat>, credits: seq<seq<int>>) {
    && |lists| == |picks|
    && |credits| == |picks| + 1
    && |credits[0]| == |weights|
    && (forall t :: 0 <= t < |picks| ==> Round(weights, lists[t], credits[t], picks[t], credits[t + 1]))
  }

  // Whatever the lists are, the credits go on adding up to what they started
  // with, and a relay that was never a candidate keeps its own.
  lemma {:induction false} CreditIsConserved(weights: seq<nat>, lists: seq<seq<nat>>, picks: seq<nat>,
                                             credits: seq<seq<int>>, t: nat, i: nat)
    requires IsVaryingRun(weights, lists, picks, credits) && t <= |picks| && i < |weights|
    ensures |credits[t]| == |weights|
    ensures Sum(credits[t]) == Sum(credits[0])
    ensures (forall k :: 0 <= k < t ==> i !in lists[k]) ==> credits[t][i] == credits[0][i]
  {
    if t > 0 {
      CreditIsConserved(weights, lists, picks, credits, t - 1, i);
      var list, before, chosen, after := lists[t - 1], credits[t - 1], picks[t - 1], credits[t - 1 + 1];
      assert Round(weights, list, before, chosen, after);
      RoundConserves(weights, list, before, chosen, after);
      EarnedNothing(weights, list, i);
    }
  }

  lemma {:induction false} EarnedNothing(weights: seq<nat>, candidates: seq<nat>, i: nat)
    requires i < |weights|
    ensures i !in candidates ==> Earned(weights, candidates, i) == 0
  {
    if candidates != [] {
      EarnedNothing(weights, candidates[..|candidates| - 1], i);
    }
  }

  lemma RoundConserves(weights: seq<nat>, candidates: seq<nat>, before: seq<int>, chosen: nat, after: seq<int>)
    requires Round(weights, candidates, before, chosen, after)
    ensures Sum(after) == Sum(before)
  {
    hide Earned, SumAt;
    var raised := seq(|weights|, i requires 0 <= i < |weights| => before[i] + Earned(weights, candidates, i));
    SumEarned(weights, candidates, before, raised);
    SumUpdate(raised, chosen, raised[chosen] - SumAt(weights, candidates));
    assert after == raised[chosen := raised[chosen] - SumAt(weights, candidates)];
  }

  lemma {:induction false} SumEarned(weights: seq<nat>, candidates: seq<nat>, before: seq<int>, raised: seq<int>)
    requires |before| == |raised| == |weights| && InRange(|weights|, candidates)
    requires forall i :: 0 <= i < |weights| ==> raised[i] == before[i] + Earned(weights, candidates, i)
    ensures Sum(raised) == Sum(before) + SumAt(weights, candidates)
  {
    if candidates == [] {
      assert raised == before;
    } else {
      var last := |candidates| - 1;
      var c := candidates[last];
      var less := raised[c := raised[c] - weights[c]];
      SumEarned(weights, candidates[..last], before, less);
      SumUpdate(raised, c, raised[c] - weights[c]);
    }
  }

  lemma {:induction false} SumUpdate(s: seq<int>, i: nat, v: int)
    requires i < |s|
    ensures Sum(s[i := v]) == Sum(s) - s[i] + v
  {
    var last := |s| - 1;
    if i == last {
      assert s[i := v][..last] == s[..last];
    } else {
      assert s[i := v][..last] == s[..last][i := v];
      SumUpdate(s[..last], i, v);
    }
  }
}
