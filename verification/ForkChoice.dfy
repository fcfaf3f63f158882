/** Choosing between two chains: short-range and long-range fork rules. */
module ForkChoice {
  import opened Prelude

  const GRACE_PERIOD_END: nat := 1440
  const SUB_WINDOWS_PER_WINDOW: nat := 11
  const SLOTS_PER_SUB_WINDOW: nat := 7

  /** The parts of a consensus state the rules read; `vrf` stands for the hashed VRF output. */
  datatype ConsensusState = ConsensusState(
    epochCount: U32,
    slot: U32,
    slotsPerEpoch: U32,
    stakingLock: nat,
    nextLock: nat,
    minWindowDensity: U32,
    subWindowDensities: seq<U32>,
    blockchainLength: U32,
    vrf: nat)

  function Sum(w: seq<nat>): nat {
    if w == [] then 0 else w[0] + Sum(w[1..])
  }

  /** Slot and epoch arithmetic stays in 32 bits, and the window has its eleven parts. */
  predicate WellFormed(s: ConsensusState) {
    && 0 < s.slotsPerEpoch < 0x8000_0000
    && s.epochCount + 1 < U32_SIZE && s.slot + 1 < U32_SIZE
    && |s.subWindowDensities| == SUB_WINDOWS_PER_WINDOW
  }

  type State = s: ConsensusState | WellFormed(s)
    witness ConsensusState(0, 0, 1, 0, 0, 0, [0, 0, 0, 0, 0, 0, 0, 0, 0, 0, 0], 0, 0)

  /** A chain tip: its state and the hash of that state. */
  datatype Tip = Tip(cs: State, hash: nat)

  // ----- Which rule applies

  /** `s1` is one epoch ahead, `s2` is past its seed update range, and they agree on the checkpoint. */
  predicate OneEpochAhead(s1: State, s2: State)
  {
    && s1.epochCount == s2.epochCount + 1
    && s2.slot % s2.slotsPerEpoch >= s2.slotsPerEpoch * 2 / 3
    && s1.stakingLock == s2.nextLock
  }

  predicate IsShortRangeFork(a: State, b: State)
  {
    if a.epochCount == b.epochCount then a.stakingLock == b.stakingLock
    else OneEpochAhead(a, b) || OneEpochAhead(b, a)
  }

  lemma ShortRangeSymmetric(a: State, b: State)
    ensures IsShortRangeFork(a, b) == IsShortRangeFork(b, a)
  {
  }

  /**
   * Tips of different epochs are in short range exactly when the later epoch follows the earlier one,
   * the earlier tip has at most a third of its epoch left, rounded up, and the later one's staking
   * epoch starts from the checkpoint the earlier one locked for its next epoch.
   */
  lemma ShortRangeAcrossEpochsIff(a: State, b: State)
    requires a.epochCount < b.epochCount
    ensures IsShortRangeFork(a, b) <==>
            && b.epochCount - a.epochCount == 1
            && 3 * (a.slotsPerEpoch - a.slot % a.slotsPerEpoch) < a.slotsPerEpoch + 3
            && a.nextLock == b.stakingLock
  {
    LastThird(a.slot % a.slotsPerEpoch, a.slotsPerEpoch);
  }

  lemma LastThird(slot: nat, n: nat)
    requires n > 0
    ensures slot >= n * 2 / 3 <==> 3 * (n - slot) < n + 3
  {
  }

  /** And tips of one epoch exactly when their staking epochs start from one checkpoint. */
  lemma ShortRangeInEpochIff(a: State, b: State)
    requires a.epochCount == b.epochCount
    ensures IsShortRangeFork(a, b) <==> a.stakingLock == b.stakingLock
  {
  }

  // ----- Relative minimum window density

  function RelativeSubWindow(slot: nat): (r: nat)
    ensures r < SUB_WINDOWS_PER_WINDOW
  {
    (slot / SLOTS_PER_SUB_WINDOW) % SUB_WINDOWS_PER_WINDOW
  }

  /** How many steps behind position `start` the ring position `j` comes, from 0. */
  function RingDistance(start: nat, j: nat): nat
    requires start < SUB_WINDOWS_PER_WINDOW && j < SUB_WINDOWS_PER_WINDOW
  {
    (j + SUB_WINDOWS_PER_WINDOW - start - 1) % SUB_WINDOWS_PER_WINDOW
  }

  /** The window with the `n` ring positions behind `start` emptied. */
  function Masked(w: seq<nat>, start: nat, n: nat): seq<nat>
    requires |w| == SUB_WINDOWS_PER_WINDOW && start < SUB_WINDOWS_PER_WINDOW
  {
    seq(|w|, j requires 0 <= j < |w| => if RingDistance(start, j) < n then 0 else w[j])
  }

  function ShiftCount(slot: nat, maxSlot: nat): nat {
    var d := if maxSlot > slot + 1 then maxSlot - slot - 1 else 0;
    if d < SUB_WINDOWS_PER_WINDOW then d else SUB_WINDOWS_PER_WINDOW
  }

  /** The density `b` would have if its chain stood still until `maxSlot`. */
  function DensityAt(b: State, maxSlot: nat): nat
  {
    if maxSlot < GRACE_PERIOD_END then b.minWindowDensity
    else
      var projected :=
        Sum(Masked(b.subWindowDensities, RelativeSubWindow(b.slot), ShiftCount(b.slot, maxSlot) + 1));
      if projected < b.minWindowDensity then projected else b.minWindowDensity
  }

  function Max(a: nat, b: nat): nat {
    if a < b then b else a
  }

  function RelativeDensity(b1: State, b2: State): nat
  {
    DensityAt(b1, Max(b1.slot, b2.slot))
  }

  lemma RingNext(start: nat, t: nat)
    ensures ((start + t) % SUB_WINDOWS_PER_WINDOW + 1) % SUB_WINDOWS_PER_WINDOW ==
            (start + t + 1) % SUB_WINDOWS_PER_WINDOW
  {
  }

  lemma {:induction false} SumMonotone(v: seq<nat>, w: seq<nat>)
    requires |v| == |w| && forall i | 0 <= i < |v| :: v[i] <= w[i]
    ensures Sum(v) <= Sum(w)
  {
    if v != [] {
      SumMonotone(v[1..], w[1..]);
    }
  }

  lemma {:induction false} SumZero(w: seq<nat>)
    requires forall i | 0 <= i < |w| :: w[i] == 0
    ensures Sum(w) == 0
  {
    if w != [] {
      SumZero(w[1..]);
    }
  }

  /** The source's loop: walk the ring and empty one position per step. */
  method RelativeMinWindowDensity(b1: State, b2: State) returns (r: U32)
    requires var maxSlot := Max(b1.slot, b2.slot);
             maxSlot >= GRACE_PERIOD_END ==>
               Sum(Masked(b1.subWindowDensities, RelativeSubWindow(b1.slot), ShiftCount(b1.slot, maxSlot) + 1)) < U32_SIZE
    ensures r == RelativeDensity(b1, b2)
  {
    var maxSlot := if b1.slot < b2.slot then b2.slot else b1.slot;
    if maxSlot < GRACE_PERIOD_END {
      return b1.minWindowDensity;
    }
    var behind := if maxSlot > b1.slot + 1 then maxSlot - (b1.slot + 1) else 0;
    var shiftCount := if behind < SUB_WINDOWS_PER_WINDOW then behind else SUB_WINDOWS_PER_WINDOW;
    var window: seq<nat> := b1.subWindowDensities;
    var start := RelativeSubWindow(b1.slot);
    var i := start;
    assert Masked(b1.subWindowDensities, start, 0) == window;
    for t := 0 to shiftCount + 1
      invariant i == (start + t) % SUB_WINDOWS_PER_WINDOW
      invariant window == Masked(b1.subWindowDensities, start, t)
    {
      i := (i + 1) % SUB_WINDOWS_PER_WINDOW;
      RingNext(start, t);
      MaskStep(b1.subWindowDensities, start, t, i);
      window := window[i := 0];
    }
    var projected: U32 := Density(window);
    r := if projected < b1.minWindowDensity then projected else b1.minWindowDensity;
  }

  lemma MaskStep(w: seq<nat>, start: nat, t: nat, i: nat)
    requires |w| == SUB_WINDOWS_PER_WINDOW && start < SUB_WINDOWS_PER_WINDOW
    requires t <= SUB_WINDOWS_PER_WINDOW && i == (start + t + 1) % SUB_WINDOWS_PER_WINDOW
    ensures Masked(w, start, t)[i := 0] == Masked(w, start, t + 1)
  {
    var before, after := Masked(w, start, t), Masked(w, start, t + 1);
    forall j | 0 <= j < |w| ensures before[i := 0][j] == after[j] {
      NextInRing(start, t, i, j);
    }
  }

  lemma NextInRing(start: nat, t: nat, i: nat, j: nat)
    requires start < SUB_WINDOWS_PER_WINDOW && j < SUB_WINDOWS_PER_WINDOW
    requires t <= SUB_WINDOWS_PER_WINDOW && i == (start + t + 1) % SUB_WINDOWS_PER_WINDOW
    ensures RingDistance(start, j) < t + 1 <==> j == i || RingDistance(start, j) < t
  {
  }

  method Density(window: seq<nat>) returns (r: nat)
    ensures r == Sum(window)
  {
    r := 0;
    for i := 0 to |window|
      invariant r + Sum(window[i..]) == Sum(window)
    {
      assert window[i..][1..] == window[i + 1..];
      r := r + window[i];
    }
  }

  /** A later opponent never raises a chain's relative density, across the grace period too. */
  lemma DensityFallsWithTime(b: State, s1: nat, s2: nat)
    requires s1 <= s2
    ensures DensityAt(b, s2) <= DensityAt(b, s1)
  {
    var w, start := b.subWindowDensities, RelativeSubWindow(b.slot);
    SumMonotone(Masked(w, start, ShiftCount(b.slot, s2) + 1), Masked(w, start, ShiftCount(b.slot, s1) + 1));
  }

  lemma LaterOpponentNeverHelps(b1: State, b2: State, b2': State)
    requires b2.slot <= b2'.slot
    ensures RelativeDensity(b1, b2') <= RelativeDensity(b1, b2)
  {
    DensityFallsWithTime(b1, Max(b1.slot, b2.slot), Max(b1.slot, b2'.slot));
  }

  // ----- What the projection counts

  lemma {:induction false} SumConcat(v: seq<nat>, w: seq<nat>)
    ensures Sum(v + w) == Sum(v) + Sum(w)
  {
    if v == [] {
      assert v + w == w;
    } else {
      assert (v + w)[1..] == v[1..] + w;
      SumConcat(v[1..], w);
    }
  }

  /** The window from position `first` on, around the ring. */
  function FromPosition(w: seq<nat>, first: nat): seq<nat>
    requires first <= |w|
  {
    w[first..] + w[..first]
  }

  lemma {:induction false} SumSwap(v: seq<nat>, w: seq<nat>)
    ensures Sum(v + w) == Sum(w + v)
  {
    SumConcat(v, w);
    SumConcat(w, v);
  }

  lemma {:induction false} SumAround(w: seq<nat>, first: nat)
    requires first <= |w|
    ensures Sum(FromPosition(w, first)) == Sum(w)
  {
    SumSwap(w[first..], w[..first]);
    FrontAndRest(w, first);
  }

  lemma FrontAndRest(w: seq<nat>, n: nat)
    requires n <= |w|
    ensures w[..n] + w[n..] == w
  {
  }

  /** Emptying `n` positions leaves the sum of the others, around the ring. */
  lemma {:induction false} MaskedSum(w: seq<nat>, start: nat, n: nat)
    requires |w| == SUB_WINDOWS_PER_WINDOW && start < SUB_WINDOWS_PER_WINDOW && n <= SUB_WINDOWS_PER_WINDOW
    ensures Sum(Masked(w, start, n)) == Sum(FromPosition(w, (start + 1) % SUB_WINDOWS_PER_WINDOW)[n..])
  {
    var first, m := (start + 1) % SUB_WINDOWS_PER_WINDOW, Masked(w, start, n);
    SumAround(m, first);
    MaskedAround(w, start, n, first);
    SumOfRest(FromPosition(m, first), n);
  }

  lemma {:induction false} MaskedAround(w: seq<nat>, start: nat, n: nat, first: nat)
    requires |w| == SUB_WINDOWS_PER_WINDOW && start < SUB_WINDOWS_PER_WINDOW && n <= SUB_WINDOWS_PER_WINDOW
    requires first == (start + 1) % SUB_WINDOWS_PER_WINDOW
    ensures var around := FromPosition(Masked(w, start, n), first);
            && (forall t | 0 <= t < n :: around[t] == 0)
            && around[n..] == FromPosition(w, first)[n..]
  {
    var around, all := FromPosition(Masked(w, start, n), first), FromPosition(w, first);
    forall t | 0 <= t < |around| ensures around[t] == if t < n then 0 else all[t] {
      RingPosition(start, first, t);
    }
  }

  lemma {:induction false} SumOfRest(v: seq<nat>, n: nat)
    requires n <= |v| && forall t | 0 <= t < n :: v[t] == 0
    ensures Sum(v) == Sum(v[n..])
    decreases n
  {
    if n > 0 {
      SumOfRest(v[1..], n - 1);
      assert v[1..][n - 1..] == v[n..];
    }
  }

  lemma RingPosition(start: nat, first: nat, t: nat)
    requires start < SUB_WINDOWS_PER_WINDOW && first == (start + 1) % SUB_WINDOWS_PER_WINDOW && t < SUB_WINDOWS_PER_WINDOW
    ensures var j := if first + t < SUB_WINDOWS_PER_WINDOW then first + t else first + t - SUB_WINDOWS_PER_WINDOW;
            RingDistance(start, j) == t
  {
  }

  /**
   * From slot 1440 on, a chain is measured by its most recent sub-windows: one is left out at least,
   * and one for every slot by which the other chain is ahead.
   */
  lemma DensityIsRecent(b1: State, b2: State)
    ensures var latest := if b1.slot < b2.slot then b2.slot else b1.slot;
            var oldest := (b1.slot / 7 + 1) % 11;
            var idle := if latest <= b1.slot + 1 then 1 else if latest <= b1.slot + 11 then latest - b1.slot else 11;
            var recent := Sum(FromPosition(b1.subWindowDensities, oldest)[idle..]);
            RelativeDensity(b1, b2) ==
            if latest < 1440 || b1.minWindowDensity <= recent then b1.minWindowDensity else recent
  {
    var latest := Max(b1.slot, b2.slot);
    var w, start, n := b1.subWindowDensities, RelativeSubWindow(b1.slot), ShiftCount(b1.slot, latest) + 1;
    assert (start + 1) % SUB_WINDOWS_PER_WINDOW == (b1.slot / 7 + 1) % 11;
    if n <= SUB_WINDOWS_PER_WINDOW {
      MaskedSum(w, start, n);
    } else {
      assert Masked(w, start, n) == Masked(w, start, SUB_WINDOWS_PER_WINDOW);
      MaskedSum(w, start, SUB_WINDOWS_PER_WINDOW);
    }
  }

  /** A chain that stood still for eleven slots has nothing left in its window. */
  lemma StalledChainHasNoDensity(b: State, maxSlot: nat)
    requires maxSlot >= GRACE_PERIOD_END && maxSlot >= b.slot + SUB_WINDOWS_PER_WINDOW
    ensures DensityAt(b, maxSlot) == 0
  {
    SumZero(Masked(b.subWindowDensities, RelativeSubWindow(b.slot), ShiftCount(b.slot, maxSlot) + 1));
  }

  // ----- The decision

  datatype Reason = SubWindowDensity | ChainLength | Vrf | StateHash

  function ShortRangeForkTake(tip: Tip, candidate: Tip): (bool, Reason) {
    if candidate.cs.blockchainLength > tip.cs.blockchainLength then (true, ChainLength)
    else if candidate.cs.blockchainLength < tip.cs.blockchainLength then (false, ChainLength)
    else if candidate.cs.vrf > tip.cs.vrf then (true, Vrf)
    else if candidate.cs.vrf < tip.cs.vrf then (false, Vrf)
    else (candidate.hash > tip.hash, StateHash)
  }

  function LongRangeForkTake(tip: Tip, candidate: Tip): (bool, Reason)
  {
    var tipDensity := RelativeDensity(tip.cs, candidate.cs);
    var candidateDensity := RelativeDensity(candidate.cs, tip.cs);
    if candidateDensity > tipDensity then (true, SubWindowDensity)
    else if candidateDensity < tipDensity then (false, SubWindowDensity)
    else ShortRangeForkTake(tip, candidate)
  }

  function ConsensusTake(tip: Tip, candidate: Tip): bool
  {
    if IsShortRangeFork(tip.cs, candidate.cs) then ShortRangeForkTake(tip, candidate).0
    else LongRangeForkTake(tip, candidate).0
  }

  /** Of two tips with different hashes exactly one is taken over the other, whichever rule applies. */
  lemma ChoiceIsDecisive(a: Tip, b: Tip)
    ensures a.hash != b.hash ==> ConsensusTake(a, b) == !ConsensusTake(b, a)
    ensures !(ConsensusTake(a, b) && ConsensusTake(b, a))
  {
  }

  lemma ShortRangeTransitive(a: Tip, b: Tip, c: Tip)
    requires ShortRangeForkTake(a, b).0 && ShortRangeForkTake(b, c).0
    ensures ShortRangeForkTake(a, c).0
  {
  }

  /** The longer chain, then the greater VRF output, then the greater hash. */
  predicate Outranks(b: Tip, a: Tip) {
    || b.cs.blockchainLength > a.cs.blockchainLength
    || (b.cs.blockchainLength == a.cs.blockchainLength
        && (b.cs.vrf > a.cs.vrf || (b.cs.vrf == a.cs.vrf && b.hash > a.hash)))
  }

  /** A candidate is taken exactly when it is denser, in long range, or not less dense and outranks the tip. */
  lemma TakenIff(tip: Tip, candidate: Tip)
    ensures ConsensusTake(tip, candidate) <==>
            var short := IsShortRangeFork(tip.cs, candidate.cs);
            var mine, its := RelativeDensity(tip.cs, candidate.cs), RelativeDensity(candidate.cs, tip.cs);
            if !short && its != mine then its > mine else Outranks(candidate, tip)
  {
  }

  /** The reason a decision gives is the first thing in which the tips differ, densities in long range only. */
  lemma ReasonIsFirstDifference(a: Tip, b: Tip)
    ensures var reason := LongRangeForkTake(a, b).1;
            && (reason == SubWindowDensity <==> RelativeDensity(a.cs, b.cs) != RelativeDensity(b.cs, a.cs))
            && (reason != SubWindowDensity ==> reason == ShortRangeForkTake(a, b).1)
    ensures var reason := ShortRangeForkTake(a, b).1;
            && (reason == ChainLength <==> a.cs.blockchainLength != b.cs.blockchainLength)
            && (reason == Vrf <==> a.cs.blockchainLength == b.cs.blockchainLength && a.cs.vrf != b.cs.vrf)
            && (reason == StateHash <==> a.cs.blockchainLength == b.cs.blockchainLength && a.cs.vrf == b.cs.vrf)
  {
  }

  // ----- Folding over candidates

  function Best(tip: Tip, candidates: seq<Tip>): Tip
    decreases |candidates|
  {
    if candidates == [] then tip
    else Best(if ConsensusTake(tip, candidates[0]) then candidates[0] else tip, candidates[1..])
  }

  /** `m` is taken over every other tip. */
  ghost predicate BeatsAll(m: Tip, tips: set<Tip>) {
    m in tips && forall t | t in tips && t != m :: ConsensusTake(t, m)
  }

  ghost predicate DistinctHashes(tips: set<Tip>) {
    forall t, u | t in tips && u in tips && t != u :: t.hash != u.hash
  }

  /** Whatever tip comes first and however the others follow, the rule ends at one tip. */
  ghost predicate OrderFree(tips: set<Tip>) {
    forall a, xs, b, ys | IsOrderOf(a, xs, tips) && IsOrderOf(b, ys, tips) :: Best(a, xs) == Best(b, ys)
  }

  ghost predicate IsOrderOf(a: Tip, xs: seq<Tip>, tips: set<Tip>) {
    NoDuplicates([a] + xs) && Elems([a] + xs) == tips
  }

  lemma BeatsAllUnique(m: Tip, n: Tip, tips: set<Tip>)
    requires BeatsAll(m, tips) && BeatsAll(n, tips)
    ensures m == n
  {
    ChoiceIsDecisive(m, n);
  }

  lemma {:induction false} BestSnoc(tip: Tip, xs: seq<Tip>, x: Tip)
    ensures Best(tip, xs + [x]) == if ConsensusTake(Best(tip, xs), x) then x else Best(tip, xs)
    decreases |xs|
  {
    if xs == [] {
      assert ([] + [x])[1..] == [] && ([] + [x])[0] == x;
    } else {
      assert (xs + [x])[0] == xs[0] && (xs + [x])[1..] == xs[1..] + [x];
      BestSnoc(if ConsensusTake(tip, xs[0]) then xs[0] else tip, xs[1..], x);
    }
  }

  /** A tip that beats all others is found from any start, in any order, even with repetitions. */
  lemma {:induction false} WinnerIsFound(m: Tip, tip: Tip, xs: seq<Tip>)
    requires BeatsAll(m, Elems([tip] + xs))
    ensures Best(tip, xs) == m
    decreases |xs|
  {
    if xs != [] {
      var next := if ConsensusTake(tip, xs[0]) then xs[0] else tip;
      assert tip in [tip] + xs && xs[0] in [tip] + xs;
      assert m in [tip] + xs;
      ChoiceIsDecisive(m, xs[0]);
      assert m in [next] + xs[1..];
      assert Elems([next] + xs[1..]) <= Elems([tip] + xs);
      WinnerIsFound(m, next, xs[1..]);
    } else {
      assert [tip] + xs == [tip];
    }
  }

  lemma {:induction false} Enumerated(tips: set<Tip>) returns (xs: seq<Tip>)
    ensures NoDuplicates(xs) && Elems(xs) == tips
    decreases tips
  {
    xs := [];
    if tips != {} {
      var t :| t in tips;
      var rest := Enumerated(tips - {t});
      xs := [t] + rest;
      ElemsConcat([t], rest);
      assert Elems([t]) == {t} && {t} + (tips - {t}) == tips;
    }
  }

  /** A tip that wins in every order, also when `t` comes last, is taken over `t`. */
  lemma LastIsBeaten(m: Tip, t: Tip, tips: set<Tip>)
    requires OrderFree(tips) && DistinctHashes(tips) && m in tips && t in tips && t != m
    requires exists a, xs :: IsOrderOf(a, xs, tips) && Best(a, xs) == m
    ensures ConsensusTake(t, m)
  {
    var zs := Enumerated(tips - {t});
    assert zs != [] by {
      assert m in tips - {t};
    }
    var b, ys := zs[0], zs[1..] + [t];
    assert [b] + ys == zs + [t];
    ElemsConcat(zs, [t]);
    assert IsOrderOf(b, ys, tips);
    BestSnoc(b, zs[1..], t);
    ChoiceIsDecisive(m, t);
  }

  /**
   * The exact condition under which the order of arrival does not matter, under either rule: some
   * tip is taken over every other.
   */
  lemma OrderFreeIff(tips: set<Tip>)
    requires tips != {} && DistinctHashes(tips)
    ensures OrderFree(tips) <==> exists m :: BeatsAll(m, tips)
  {
    if m :| BeatsAll(m, tips) {
      forall a, xs, b, ys | IsOrderOf(a, xs, tips) && IsOrderOf(b, ys, tips)
        ensures Best(a, xs) == Best(b, ys)
      {
        WinnerIsFound(m, a, xs);
        WinnerIsFound(m, b, ys);
      }
    }
    if OrderFree(tips) {
      var zs := Enumerated(tips);
      var a, xs := zs[0], zs[1..];
      assert [a] + xs == zs;
      assert IsOrderOf(a, xs, tips);
      var m := Best(a, xs);
      BestIsCandidate(a, xs);
      forall t | t in tips && t != m
        ensures ConsensusTake(t, m)
      {
        LastIsBeaten(m, t, tips);
      }
      assert BeatsAll(m, tips);
    }
  }

  lemma {:induction false} BestIsCandidate(tip: Tip, xs: seq<Tip>)
    ensures Best(tip, xs) in Elems([tip] + xs)
    decreases |xs|
  {
    if xs != [] {
      var next := if ConsensusTake(tip, xs[0]) then xs[0] else tip;
      assert tip in [tip] + xs && xs[0] in [tip] + xs;
      BestIsCandidate(next, xs[1..]);
      assert Elems([next] + xs[1..]) <= Elems([tip] + xs);
    }
  }

  // ----- In short range there is always a winner

  /** Tips of which any two are in short range of each other and have different hashes. */
  ghost predicate ShortRangeSet(tips: set<Tip>) {
    DistinctHashes(tips) && forall t, u | t in tips && u in tips && t != u :: IsShortRangeFork(t.cs, u.cs)
  }

  lemma {:induction false} BestBeatsAll(tip: Tip, candidates: seq<Tip>, seen: set<Tip>)
    requires ShortRangeSet(seen + Elems(candidates)) && BeatsAll(tip, seen)
    ensures BeatsAll(Best(tip, candidates), seen + Elems(candidates))
    decreases |candidates|
  {
    if candidates == [] {
      assert seen + Elems(candidates) == seen;
    } else {
      var c, rest := candidates[0], candidates[1..];
      assert c in Elems(candidates) && seen + Elems(candidates) == (seen + {c}) + Elems(rest);
      var winner := if ConsensusTake(tip, c) then c else tip;
      WinnerBeatsAll(tip, c, seen);
      BestBeatsAll(winner, rest, seen + {c});
    }
  }

  lemma WinnerBeatsAll(tip: Tip, c: Tip, seen: set<Tip>)
    requires ShortRangeSet(seen + {c}) && BeatsAll(tip, seen)
    ensures BeatsAll(if ConsensusTake(tip, c) then c else tip, seen + {c})
  {
  }

  /** However the candidates are ordered, following the rule ends at the same tip. */
  lemma OrderDoesNotMatter(a: Tip, xs: seq<Tip>, b: Tip, ys: seq<Tip>)
    requires Elems([a] + xs) == Elems([b] + ys) && ShortRangeSet(Elems([a] + xs))
    ensures Best(a, xs) == Best(b, ys)
  {
    FoldBeatsAll(a, xs);
    FoldBeatsAll(b, ys);
    BeatsAllUnique(Best(a, xs), Best(b, ys), Elems([a] + xs));
  }

  lemma FoldBeatsAll(tip: Tip, candidates: seq<Tip>)
    requires ShortRangeSet(Elems([tip] + candidates))
    ensures BeatsAll(Best(tip, candidates), Elems([tip] + candidates))
  {
    assert Elems([tip] + candidates) == {tip} + Elems(candidates);
    BestBeatsAll(tip, candidates, {tip});
  }

  /**
   * In short range the rule ends at the longest chain; among those at the greatest VRF output, and
   * among those at the greatest hash.
   */
  lemma BestIsGreatest(tip: Tip, candidates: seq<Tip>, t: Tip)
    requires ShortRangeSet(Elems([tip] + candidates)) && t in Elems([tip] + candidates)
    ensures var m := Best(tip, candidates);
            && m in Elems([tip] + candidates)
            && m.cs.blockchainLength >= t.cs.blockchainLength
            && (m.cs.blockchainLength == t.cs.blockchainLength ==> m.cs.vrf >= t.cs.vrf)
            && (m.cs.blockchainLength == t.cs.blockchainLength && m.cs.vrf == t.cs.vrf ==> m.hash >= t.hash)
  {
    var m := Best(tip, candidates);
    FoldBeatsAll(tip, candidates);
    if t != m {
      TakenIff(t, m);
    }
  }

  // ----- Beyond short range there may be none

  /** The tips are taken over one another in a circle. */
  predicate Circle(a: Tip, b: Tip, c: Tip) {
    ConsensusTake(a, b) && ConsensusTake(b, c) && ConsensusTake(c, a)
  }

  /** For three tips the order matters exactly when they form a circle, one way round or the other. */
  lemma TripleOrderFreeIff(a: Tip, b: Tip, c: Tip)
    requires a.hash != b.hash && b.hash != c.hash && a.hash != c.hash
    ensures OrderFree({a, b, c}) <==> !Circle(a, b, c) && !Circle(c, b, a)
  {
    var tips := {a, b, c};
    OrderFreeIff(tips);
    ChoiceIsDecisive(a, b);
    ChoiceIsDecisive(b, c);
    ChoiceIsDecisive(a, c);
    if !Circle(a, b, c) && !Circle(c, b, a) {
      assert BeatsAll(a, tips) || BeatsAll(b, tips) || BeatsAll(c, tips);
    }
  }

  /** The long-range comparison made at a given slot. */
  predicate TakeAt(tip: Tip, candidate: Tip, slot: nat) {
    || DensityAt(candidate.cs, slot) > DensityAt(tip.cs, slot)
    || (DensityAt(candidate.cs, slot) == DensityAt(tip.cs, slot) && ShortRangeForkTake(tip, candidate).0)
  }

  /** At one slot the long-range comparison is a strict order that decides between different hashes. */
  lemma OrderAtOneSlot(a: Tip, b: Tip, c: Tip, slot: nat)
    ensures TakeAt(a, b, slot) && TakeAt(b, c, slot) ==> TakeAt(a, c, slot)
    ensures !(TakeAt(a, b, slot) && TakeAt(b, a, slot))
    ensures a.hash != b.hash ==> TakeAt(a, b, slot) || TakeAt(b, a, slot)
  {
  }

  ghost predicate LongRangeTriple(a: Tip, b: Tip, c: Tip) {
    && a.hash != b.hash && b.hash != c.hash && a.hash != c.hash
    && !IsShortRangeFork(a.cs, b.cs) && !IsShortRangeFork(b.cs, c.cs) && !IsShortRangeFork(a.cs, c.cs)
  }

  lemma LongRangeTakes(a: Tip, b: Tip)
    requires !IsShortRangeFork(a.cs, b.cs)
    ensures ConsensusTake(a, b) == TakeAt(a, b, Max(a.cs.slot, b.cs.slot))
  {
  }

  /**
   * Three long-range tips, `c` the latest, form a circle exactly when waiting from the later slot of
   * `a` and `b` to the slot of `c` reverses the order of `a` and `b`, and `c` stands between them.
   */
  lemma CircleIff(a: Tip, b: Tip, c: Tip)
    requires LongRangeTriple(a, b, c) && a.cs.slot <= c.cs.slot && b.cs.slot <= c.cs.slot
    ensures var early, late := Max(a.cs.slot, b.cs.slot), c.cs.slot;
            (Circle(a, b, c) || Circle(c, b, a)) <==>
            && TakeAt(a, b, early) != TakeAt(a, b, late)
            && ((TakeAt(b, c, late) && TakeAt(c, a, late)) || (TakeAt(a, c, late) && TakeAt(c, b, late)))
  {
    var early, late := Max(a.cs.slot, b.cs.slot), c.cs.slot;
    ShortRangeSymmetric(a.cs, b.cs);
    ShortRangeSymmetric(b.cs, c.cs);
    ShortRangeSymmetric(a.cs, c.cs);
    LongRangeTakes(a, b);
    LongRangeTakes(b, a);
    LongRangeTakes(b, c);
    LongRangeTakes(c, b);
    LongRangeTakes(a, c);
    LongRangeTakes(c, a);
    OrderAtOneSlot(b, c, a, late);
    OrderAtOneSlot(a, c, b, late);
    OrderAtOneSlot(a, b, c, late);
    OrderAtOneSlot(a, b, c, early);
    OrderAtOneSlot(b, a, c, late);
    OrderAtOneSlot(b, a, c, early);
  }

  /** An order is reversed only if one of the two chains loses density in between. */
  lemma ReversalLosesDensity(a: Tip, b: Tip, early: nat, late: nat)
    requires early <= late && TakeAt(a, b, early) != TakeAt(a, b, late)
    ensures DensityAt(a.cs, late) < DensityAt(a.cs, early) || DensityAt(b.cs, late) < DensityAt(b.cs, early)
  {
    DensityFallsWithTime(a.cs, early, late);
    DensityFallsWithTime(b.cs, early, late);
  }

  /** Two tips that share the latest slot leave no room for a circle. */
  lemma NoCircleAtOneSlot(a: Tip, b: Tip, c: Tip)
    requires LongRangeTriple(a, b, c) && Max(a.cs.slot, b.cs.slot) == c.cs.slot
    ensures OrderFree({a, b, c})
  {
    CircleIff(a, b, c);
    TripleOrderFreeIff(a, b, c);
  }

  /** A tip in epoch 5, with a minimum density its own window has reached. */
  function Example(slot: U32, lock: nat, minDensity: U32, densities: seq<U32>, hash: nat): Tip
    requires slot < 100_000 && |densities| == SUB_WINDOWS_PER_WINDOW
  {
    Tip(ConsensusState(5, slot, 7140, lock, 0, minDensity, densities, 20_000, 0), hash)
  }

  /** Few blocks, in sub-windows that last. */
  const LASTING: seq<U32> := seq(11, j => if j >= 6 then 2 else 0)
  /** Many blocks, in the sub-windows that are emptied next. */
  const FADING: seq<U32> := seq(11, j => if 1 <= j < 6 then 4 else 0)
  const SPARSE: seq<U32> := seq(11, j => if j == 10 then 5 else 0)

  /**
   * Three tips that beat each other in a circle: density is judged at the later of the two slots, so
   * a dense chain loses its lead once a third chain is further ahead.
   */
  lemma LongRangeCycle()
    ensures var a, b, c := Example(35726, 1, 10, LASTING, 1), Example(35726, 2, 20, FADING, 2),
                           Example(35732, 3, 5, SPARSE, 3);
            LongRangeTriple(a, b, c) && Circle(a, b, c) && !OrderFree({a, b, c})
  {
    var a, b, c := Example(35726, 1, 10, LASTING, 1), Example(35726, 2, 20, FADING, 2),
                   Example(35732, 3, 5, SPARSE, 3);
    LastingDensity();
    FadingDensity();
    SparseDensity();
    TripleOrderFreeIff(a, b, c);
  }

  lemma LastingDensity()
    ensures var b := Example(35726, 1, 10, LASTING, 1).cs;
            DensityAt(b, 35726) == 10 && DensityAt(b, 35732) == 10
  {
    assert Masked(LASTING, 10, 1) == LASTING;
    assert Masked(LASTING, 10, 6) == LASTING;
    SumElevens(LASTING);
  }

  lemma FadingDensity()
    ensures var b := Example(35726, 2, 20, FADING, 2).cs;
            DensityAt(b, 35726) == 20 && DensityAt(b, 35732) == 0
  {
    assert Masked(FADING, 10, 1) == FADING;
    SumElevens(FADING);
    SumZero(Masked(FADING, 10, 6));
  }

  lemma SparseDensity()
    ensures DensityAt(Example(35732, 3, 5, SPARSE, 3).cs, 35732) == 5
  {
    assert Masked(SPARSE, 0, 1) == SPARSE;
    SumElevens(SPARSE);
  }

  lemma SumElevens(w: seq<nat>)
    requires |w| == SUB_WINDOWS_PER_WINDOW
    ensures Sum(w) == w[0] + w[1] + w[2] + w[3] + w[4] + w[5] + w[6] + w[7] + w[8] + w[9] + w[10]
  {
    assert w[10..][1..] == [];
    forall i | 0 <= i < 10 ensures w[i..][1..] == w[i + 1..] {
    }
    assert Sum(w[10..]) == w[10];
    assert Sum(w[9..]) == w[9] + Sum(w[10..]);
    assert Sum(w[8..]) == w[8] + Sum(w[9..]);
    assert Sum(w[7..]) == w[7] + Sum(w[8..]);
    assert Sum(w[6..]) == w[6] + Sum(w[7..]);
    assert Sum(w[5..]) == w[5] + Sum(w[6..]);
    assert Sum(w[4..]) == w[4] + Sum(w[5..]);
    assert Sum(w[3..]) == w[3] + Sum(w[4..]);
    assert Sum(w[2..]) == w[2] + Sum(w[3..]);
    assert Sum(w[1..]) == w[1] + Sum(w[2..]);
    assert w[0..] == w;
  }
}
