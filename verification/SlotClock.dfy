/** Slots and epochs from wall-clock time: the pool's two-step clock and the node's direct one. */
module SlotClock {
  import opened Prelude
  import opened Arithmetic

  /** The consensus constants the clocks read. */
  datatype Constants = Constants(slotsPerEpoch: U32, slotDurationMs: U64, epochDuration: U64, genesisMs: U64)

  /** `create_primed`: an epoch lasts as long as its slots. */
  function CreatePrimed(slotsPerEpoch: U32, blockWindowDurationMs: U64, genesisMs: U64): (c: Constants)
    requires slotsPerEpoch * blockWindowDurationMs < U64_SIZE
    ensures slotsPerEpoch > 0 && blockWindowDurationMs > 0 ==> Consistent(c)
  {
    Constants(slotsPerEpoch, blockWindowDurationMs, slotsPerEpoch * blockWindowDurationMs, genesisMs)
  }

  ghost predicate Consistent(c: Constants) {
    && c.slotsPerEpoch > 0 && c.slotDurationMs > 0 && c.epochDuration > 0
    && c.epochDuration == c.slotsPerEpoch * c.slotDurationMs
  }

  /** Slots elapsed since genesis, by direct division. */
  function SlotsSinceGenesis(c: Constants, time: U64): nat
    requires c.slotDurationMs > 0 && c.genesisMs <= time
  {
    (time - c.genesisMs) / c.slotDurationMs
  }

  /** The slot number still fits its 32-bit type. */
  ghost predicate InRange(c: Constants, time: U64) {
    c.slotDurationMs > 0 && (c.genesisMs <= time ==> SlotsSinceGenesis(c, time) < U32_SIZE)
  }

  // ----- The pool's clock

  /** What a clock shows: an answer, an error before genesis, or a panic. */
  datatype Reading<T> = Shows(value: T) | BeforeGenesis | Panics

  /** What `+` and `*` on 32-bit numbers do past their range, as the build profile has it. */
  datatype Overflow = Wraps | Checked

  /** The conversion of the epoch to 32 bits is unwrapped. */
  function EpochOfTime(c: Constants, time: U64): Reading<U32>
    requires c.epochDuration > 0
  {
    if time < c.genesisMs then BeforeGenesis
    else Narrow(Whole(time - c.genesisMs, c.epochDuration))
  }

  function Whole(t: nat, d: nat): (n: nat)
    requires d > 0
  {
    t / d
  }

  function Rest(t: nat, d: nat): (n: nat)
    requires d > 0
    ensures n < d
  {
    t % d
  }

  /** A conversion to 32 bits that is unwrapped. */
  function Narrow(n: nat): Reading<U32> {
    if n < U32_SIZE then Shows(n) else Panics
  }

  function StartTime(c: Constants, epoch: U32): nat {
    c.genesisMs + epoch * c.epochDuration
  }

  /** The epoch, and the slot inside it from the time since the epoch started. */
  function EpochAndSlotOfTime(c: Constants, time: U64): Reading<(U32, U32)>
    requires c.epochDuration > 0 && c.slotDurationMs > 0
  {
    match EpochOfTime(c, time)
    case BeforeGenesis => BeforeGenesis
    case Panics => Panics
    case Shows(epoch) =>
      StartsBefore(c, time);
      WithSlot(epoch, Narrow(Whole(time - StartTime(c, epoch), c.slotDurationMs)))
  }

  function WithSlot(epoch: U32, slot: Reading<U32>): Reading<(U32, U32)> {
    match slot
    case BeforeGenesis => BeforeGenesis
    case Panics => Panics
    case Shows(n) => Shows((epoch, n))
  }

  /** `GlobalSlot::create`: a product and a sum of 32-bit numbers. */
  function Create(slotsPerEpoch: U32, epoch: U32, slot: U32, overflow: Overflow): Reading<U32> {
    var product := slotsPerEpoch * epoch;
    match overflow
    case Checked => if product < U32_SIZE && slot + product < U32_SIZE then Shows(slot + product) else Panics
    case Wraps => Shows((slot + product % U32_SIZE) % U32_SIZE)
  }

  function GlobalSlotOfTime(c: Constants, time: U64, overflow: Overflow): Reading<U32>
    requires c.epochDuration > 0 && c.slotDurationMs > 0
  {
    match EpochAndSlotOfTime(c, time)
    case BeforeGenesis => BeforeGenesis
    case Panics => Panics
    case Shows((epoch, slot)) => Create(c.slotsPerEpoch, epoch, slot, overflow)
  }

  lemma StartsBefore(c: Constants, time: U64)
    requires c.epochDuration > 0 && EpochOfTime(c, time).Shows?
    ensures StartTime(c, EpochOfTime(c, time).value) <= time
  {
    Remainder(time - c.genesisMs, c.epochDuration);
  }

  lemma Regroup(s: nat, d: nat, e: nat, slot: nat)
    ensures (s * d) * e + d * slot == d * (slot + s * e)
  {
  }

  /** Dividing by `d` is dividing by `s * d` and then dividing the rest. */
  lemma TwoStepDivision(t: nat, s: nat, d: nat, m: nat, e: nat, rest: nat)
    requires s > 0 && d > 0 && m == s * d && t == e * m + rest && rest < m
    ensures t / d == rest / d + s * e
    ensures rest / d < s
  {
    var slot := rest / d;
    Remainder(rest, d);
    Regroup(s, d, e, slot);
    QuotientUnique(t, d, slot + s * e, rest % d);
    MulGap(d, s, slot);
  }

  /**
   * The two steps taken apart: the epoch counts whole epochs since genesis, the inner slot lies inside
   * its epoch, and together they are the slots since genesis, whatever their number. The clock
   * panics exactly when the epoch does not fit 32 bits.
   */
  lemma TwoStepClockIsDirect(c: Constants, time: U64)
    requires Consistent(c) && c.genesisMs <= time
    ensures var slots, reading := SlotsSinceGenesis(c, time), EpochAndSlotOfTime(c, time);
            && (reading == Panics <==> slots / c.slotsPerEpoch >= U32_SIZE)
            && (reading.Shows? ==> reading.value == (slots / c.slotsPerEpoch, slots % c.slotsPerEpoch))
            && !reading.BeforeGenesis?
  {
    var t, s, d := time - c.genesisMs, c.slotsPerEpoch, c.slotDurationMs;
    var epoch, rest := Whole(t, c.epochDuration), Rest(t, c.epochDuration);
    var slot := Whole(rest, d);
    Remainder(t, c.epochDuration);
    TwoStepDivision(t, s, d, c.epochDuration, epoch, rest);
    QuotientUnique(SlotsSinceGenesis(c, time), s, epoch, slot);
    if epoch < U32_SIZE {
      assert time - StartTime(c, epoch) == rest;
      assert Narrow(Whole(rest, d)) == Shows(slot);
    }
  }

  /**
   * With overflow checks the pool's clock answers if and only if the slot number fits 32 bits, and
   * then with the slots since genesis.
   */
  lemma CheckedClockIff(c: Constants, time: U64)
    requires Consistent(c) && c.genesisMs <= time
    ensures GlobalSlotOfTime(c, time, Checked) ==
            if InRange(c, time) then Shows(SlotsSinceGenesis(c, time)) else Panics
  {
    var slots, s := SlotsSinceGenesis(c, time), c.slotsPerEpoch;
    TwoStepClockIsDirect(c, time);
    Remainder(slots, s);
    EpochBelowSlots(s, slots / s);
    assert s * (slots / s) == (slots / s) * s;
  }

  /** Without them it answers as long as the epoch fits, with the slots since genesis modulo 2^32. */
  lemma WrappingClockIff(c: Constants, time: U64)
    requires Consistent(c) && c.genesisMs <= time
    ensures GlobalSlotOfTime(c, time, Wraps) ==
            if SlotsSinceGenesis(c, time) / c.slotsPerEpoch < U32_SIZE
            then Shows(SlotsSinceGenesis(c, time) % U32_SIZE) else Panics
  {
    var slots, s := SlotsSinceGenesis(c, time), c.slotsPerEpoch;
    TwoStepClockIsDirect(c, time);
    Remainder(slots, s);
    WrapsOnce(slots % s, s * (slots / s));
    assert s * (slots / s) == (slots / s) * s;
  }

  lemma WrapsOnce(a: nat, b: nat)
    ensures (a + b % U32_SIZE) % U32_SIZE == (a + b) % U32_SIZE
  {
  }

  lemma EpochBelowSlots(s: nat, epoch: nat)
    requires s > 0
    ensures epoch <= s * epoch
  {
    MulStep(epoch, 0, s);
    assert epoch * s == s * epoch;
  }

  // ----- The node's clock

  const NS_PER_MS: nat := 1_000_000
  /** The latest time of 64-bit nanoseconds. */
  const MAX_MS: nat := 0xFFFF_FFFF_FFFF_FFFF / NS_PER_MS

  /** `cur_slot`: saturating difference, truncating cast, and an addition that must not overflow. */
  function CurSlot(timeNs: U64, genesisNs: U64, blockWindowDurationMs: U64, initialSlot: U32): Option<U32>
    requires blockWindowDurationMs > 0
  {
    var diffNs := if timeNs > genesisNs then timeNs - genesisNs else 0;
    var slots := diffNs / NS_PER_MS / blockWindowDurationMs;
    var truncated := slots % U32_SIZE;
    if initialSlot + truncated < U32_SIZE then Some(initialSlot + truncated) else None
  }

  /** `current_epoch` and `current_slot`. */
  function CurrentEpochAndSlot(now: U32, slotsPerEpoch: U32): (U32, U32)
    requires slotsPerEpoch > 0
  {
    DivisionShrinks(now, slotsPerEpoch);
    (now / slotsPerEpoch, now % slotsPerEpoch)
  }

  lemma DivisionShrinks(n: nat, d: nat)
    requires d > 0
    ensures 0 <= n / d <= n && 0 <= n % d <= n
  {
    Remainder(n, d);
    EpochBelowSlots(d, n / d);
    assert (n / d) * d == d * (n / d);
  }

  lemma NodeSlots(c: Constants, timeNs: U64)
    requires c.slotDurationMs > 0 && c.genesisMs * NS_PER_MS <= timeNs
    ensures c.genesisMs <= timeNs / NS_PER_MS
    ensures CurSlot(timeNs, c.genesisMs * NS_PER_MS, c.slotDurationMs, 0) ==
            Some(SlotsSinceGenesis(c, timeNs / NS_PER_MS) % U32_SIZE)
  {
  }

  /** The genesis block's own slot is added to what the clock shows without it, and an overflow of that is a panic. */
  lemma InitialSlotShifts(timeNs: U64, genesisNs: U64, blockWindowDurationMs: U64, initialSlot: U32)
    requires blockWindowDurationMs > 0
    ensures var plain := CurSlot(timeNs, genesisNs, blockWindowDurationMs, 0);
            && plain.Some?
            && CurSlot(timeNs, genesisNs, blockWindowDurationMs, initialSlot) ==
               if initialSlot + plain.value < U32_SIZE then Some(initialSlot + plain.value) else None
  {
  }

  /** Before genesis the pool's clock reports an error and the node's stays at the genesis block's slot. */
  lemma BeforeGenesisIff(c: Constants, timeNs: U64, overflow: Overflow, initialSlot: U32)
    requires Consistent(c) && c.genesisMs * NS_PER_MS < U64_SIZE
    ensures GlobalSlotOfTime(c, timeNs / NS_PER_MS, overflow) == BeforeGenesis <==> timeNs < c.genesisMs * NS_PER_MS
    ensures timeNs < c.genesisMs * NS_PER_MS ==>
              CurSlot(timeNs, c.genesisMs * NS_PER_MS, c.slotDurationMs, initialSlot) == Some(initialSlot)
  {
    assert 0 / c.slotDurationMs == 0 by {
      QuotientUnique(0, c.slotDurationMs, 0, 0);
    }
  }

  /**
   * With a common genesis: whenever the pool's clock answers, with or without overflow checks, in
   * range or not, the node shows its slot moved by the genesis block's own, so the same slot exactly
   * when that is 0.
   */
  lemma SlotsAgree(c: Constants, timeNs: U64, overflow: Overflow, initialSlot: U32)
    requires Consistent(c) && c.genesisMs * NS_PER_MS <= timeNs
    ensures var pool := GlobalSlotOfTime(c, timeNs / NS_PER_MS, overflow);
            var node := CurSlot(timeNs, c.genesisMs * NS_PER_MS, c.slotDurationMs, initialSlot);
            pool.Shows? ==>
              && node == (if initialSlot + pool.value < U32_SIZE then Some(initialSlot + pool.value) else None)
              && (node == Some(pool.value) <==> initialSlot == 0)
  {
    NodeSlots(c, timeNs);
    ShownModulo(c, timeNs / NS_PER_MS, overflow);
    InitialSlotShifts(timeNs, c.genesisMs * NS_PER_MS, c.slotDurationMs, initialSlot);
  }

  /** What the pool's clock shows is the slots since genesis modulo 2^32. */
  lemma ShownModulo(c: Constants, time: U64, overflow: Overflow)
    requires Consistent(c) && c.genesisMs <= time
    ensures var pool := GlobalSlotOfTime(c, time, overflow);
            pool.Shows? ==> pool.value == SlotsSinceGenesis(c, time) % U32_SIZE
  {
    match overflow
    case Checked => CheckedClockIff(c, time);
    case Wraps => WrappingClockIff(c, time);
  }

  /** They show the same epoch and slot in it if and only if the slot number fits 32 bits and nothing is added to it. */
  lemma EpochsAgreeIff(c: Constants, timeNs: U64, initialSlot: U32)
    requires Consistent(c) && c.genesisMs * NS_PER_MS <= timeNs
    ensures var node := CurSlot(timeNs, c.genesisMs * NS_PER_MS, c.slotDurationMs, initialSlot);
            (node.Some?
             && EpochAndSlotOfTime(c, timeNs / NS_PER_MS) == Shows(CurrentEpochAndSlot(node.value, c.slotsPerEpoch))) <==>
            InRange(c, timeNs / NS_PER_MS) && initialSlot == 0
  {
    NodeSlots(c, timeNs);
    InitialSlotShifts(timeNs, c.genesisMs * NS_PER_MS, c.slotDurationMs, initialSlot);
    TwoStepClockIsDirect(c, timeNs / NS_PER_MS);
    var slots, s := SlotsSinceGenesis(c, timeNs / NS_PER_MS), c.slotsPerEpoch;
    SameParts(slots, initialSlot + slots % U32_SIZE, s);
    DivisionShrinks(slots, s);
  }

  /** A number is determined by its quotient and its remainder. */
  lemma SameParts(m: nat, n: nat, d: nat)
    requires d > 0
    ensures m / d == n / d && m % d == n % d <==> m == n
  {
    Remainder(m, d);
    Remainder(n, d);
  }

  /**
   * No time of 64-bit nanoseconds is out of range if and only if the latest one is not, which can be
   * told from the genesis and the slot duration.
   */
  lemma AlwaysInRangeIff(c: Constants)
    requires Consistent(c)
    ensures (forall timeNs: U64 :: InRange(c, timeNs / NS_PER_MS)) <==>
            (c.genesisMs <= MAX_MS ==> (MAX_MS - c.genesisMs) / c.slotDurationMs < U32_SIZE)
  {
    var d := c.slotDurationMs;
    var latest: U64 := U64_SIZE - 1;
    assert latest / NS_PER_MS == MAX_MS;
    if forall timeNs: U64 :: InRange(c, timeNs / NS_PER_MS) {
      assert InRange(c, latest / NS_PER_MS);
    }
    if c.genesisMs <= MAX_MS ==> (MAX_MS - c.genesisMs) / d < U32_SIZE {
      forall timeNs: U64
        ensures InRange(c, timeNs / NS_PER_MS)
      {
        if c.genesisMs <= timeNs / NS_PER_MS {
          QuotientAgainst(timeNs / NS_PER_MS - c.genesisMs, d, U32_SIZE);
          QuotientAgainst(MAX_MS - c.genesisMs, d, U32_SIZE);
        }
      }
    }
  }

  /** The least slot duration for which that holds whatever the genesis. */
  const SAFE_DURATION_MS: nat := 4295

  lemma LongSlotsStayInRange(c: Constants)
    requires Consistent(c) && c.slotDurationMs >= SAFE_DURATION_MS
    ensures forall timeNs: U64 :: InRange(c, timeNs / NS_PER_MS)
  {
    if c.genesisMs <= MAX_MS {
      MulLarger(U32_SIZE, U32_SIZE, SAFE_DURATION_MS, c.slotDurationMs);
      QuotientAgainst(MAX_MS - c.genesisMs, c.slotDurationMs, U32_SIZE);
    }
    AlwaysInRangeIff(c);
  }

  lemma QuotientAgainst(t: nat, d: nat, k: nat)
    requires d > 0
    ensures t / d >= k <==> t >= k * d
  {
    Remainder(t, d);
    MulGap(d, t / d, k);
    assert (t / d) * d == d * (t / d) && k * d == d * k;
  }

  lemma MulLarger(a: nat, b: nat, d: nat, e: nat)
    requires a <= b && d <= e
    ensures a * d <= b * e
  {
    assert b * e == a * d + a * (e - d) + (b - a) * e;
  }

  /**
   * One-second slots from a genesis at zero, at 2^32 seconds: both clocks are back at slot 0, or the
   * pool's panics if overflow is checked, while its epoch goes on and the node's starts over.
   */
  lemma ClocksAtWrapAround()
    ensures var c := CreatePrimed(7140, 1000, 0);
            && CurSlot(U32_SIZE * 1000 * NS_PER_MS, 0, 1000, 0) == Some(0)
            && GlobalSlotOfTime(c, U32_SIZE * 1000, Wraps) == Shows(0)
            && GlobalSlotOfTime(c, U32_SIZE * 1000, Checked) == Panics
            && EpochAndSlotOfTime(c, U32_SIZE * 1000) == Shows((601536, 256))
            && CurrentEpochAndSlot(0, 7140) == (0, 0)
  {
  }
}
