/** Reference definitions for backtracking, expiry and eviction on the sender queues. */
module Eviction {
  import opened Prelude
  import opened Commands
  import opened SenderQueues
  import opened Admission
  import opened AdmissionRule
  import opened UpdateLog

  // ----- Backtracking

  /** The queue after a command from an abandoned block comes back in front of it. */
  function Backtracked(at: Slots, q: seq<Command>, c: Command): Result<seq<Command>, CommandError> {
    if PastTxEnd(at) then Failure(AfterSlotTxEnd)
    else if c.validUntil < at.sinceGenesis then Failure(Expired)
    else if CurrencyConsumed(c).Failure? then Failure(InvalidCurrencyConsumed)
    else if q != [] && Succ(c.nonce) != q[0].nonce then Failure(BacktrackNonceMismatch)
    else Success([c] + q)
  }

  /** A command that precedes the queue cannot already be in the pool; pushing it makes it the head. */
  lemma BacktrackRebuilds(qs: Queues, at: Slots, c: Command)
    requires ValidQueues(qs) && |AllCommands(qs)| < U32_SIZE
    requires Backtracked(at, QueueOf(qs, c.sender), c).Success?
    requires TotalConsumed([c] + QueueOf(qs, c.sender)) < U64_SIZE
    ensures var q := QueueOf(qs, c.sender);
            && c !in AllCommands(qs)
            && Chained(c.sender, [c] + q)
            && ValidQueues(WithQueue(qs, c.sender, [c] + q))
            && Contents(WithQueue(qs, c.sender, [c] + q)) ==
               Indexed(AllCommands(qs) + {c}, Heads(qs) - HeadOf(q) + {c})
  {
    var s, q := c.sender, QueueOf(qs, c.sender);
    QueueWithinPool(qs, s);
    PrecedingIsFresh(s, q, c);
    ChainedCons(s, q, c);
    MemberOfOwnQueue(qs, c);
    WithQueueCommands(qs, s, [c] + q);
    WithQueueHeads(qs, s, [c] + q);
    ExchangeAdds(AllCommands(qs), q, c);
  }

  /** A command goes in front exactly when it is timely, its cost fits 64 bits and the nonces then follow one another. */
  lemma BacktrackIff(at: Slots, s: AccountId, q: seq<Command>, c: Command)
    requires Chained(s, q) && |q| < U32_SIZE && c.sender == s
    ensures Backtracked(at, q, c).Success? <==> Timely(at, c) && Cost([c]) < U64_SIZE && Chained(s, [c] + q)
    ensures Backtracked(at, q, c).Success? ==> Backtracked(at, q, c).value == [c] + q
  {
    CostBehind([], c);
    assert [] + [c] == [c];
    if q != [] && Chained(s, [c] + q) {
      assert ([c] + q)[1] == q[0];
    }
    if q == [] || Succ(c.nonce) == q[0].nonce {
      ChainedCons(s, q, c);
    }
  }

  /** Putting back the command that was taken off the front of a queue gives the queue back, of one command too. */
  lemma BacktrackUndoesTake(at: Slots, s: AccountId, q: seq<Command>)
    requires Chained(s, q) && q != [] && Timely(at, q[0]) && Cost([q[0]]) < U64_SIZE
    ensures Backtracked(at, q[1..], q[0]) == Success(q)
  {
    ChainedSlice(s, q, 1, |q|);
    assert q[1..|q|] == q[1..] && [q[0]] + q[1..] == q;
    BacktrackIff(at, s, q[1..], q[0]);
  }

  /** Every refusal of a backtracked command is explained by its error. */
  lemma BacktrackRefusedBecause(at: Slots, q: seq<Command>, c: Command)
    requires Backtracked(at, q, c).Failure?
    ensures match Backtracked(at, q, c).error
            case AfterSlotTxEnd => at.txEnd.Some? && at.txEnd.value <= at.current
            case Expired => c.validUntil < at.sinceGenesis
            case InvalidCurrencyConsumed => Cost([c]) >= U64_SIZE
            case BacktrackNonceMismatch => q != [] && q[0].nonce != (c.nonce + 1) % U32_SIZE
            case _ => false
  {
    CostBehind([], c);
    assert [] + [c] == [c];
  }

  /** The index updates of a backtracked command: the old head gives way to it. */
  function BacktrackLog(q: seq<Command>, c: Command): seq<Update> {
    (if q == [] then [] else [RemoveFromApplicableByFee(q[0].feeRate, q[0])]) + [Add(c, c.feeRate, true)]
  }

  lemma ReplayBacktrack(q: seq<Command>, c: Command, x: Indexed, universe: set<Command>)
    requires c in universe && c !in x.all
    ensures Replayable(BacktrackLog(q, c), x, universe)
    ensures Replay(BacktrackLog(q, c), x) == Indexed(x.all + {c}, x.heads - HeadOf(q) + {c})
  {
    var add := Add(c, c.feeRate, true);
    if q == [] {
      ReplayOne(add, x, universe);
      assert BacktrackLog(q, c) == [add];
      assert x.heads - {} == x.heads;
    } else {
      var cut := RemoveFromApplicableByFee(q[0].feeRate, q[0]);
      ReplayOne(cut, x, universe);
      ReplayOne(add, Effect(cut, x), universe);
      ReplayConcat([cut], [add], x, universe);
    }
  }

  lemma PrecedingIsFresh(s: AccountId, q: seq<Command>, c: Command)
    requires Chained(s, q) && |q| < U32_SIZE
    requires q != [] ==> Succ(c.nonce) == q[0].nonce
    ensures c !in q
  {
  }

  // ----- Cutting queues

  /** Commands that left, each reported once. */
  ghost predicate Accounts(qs: Queues, now: Queues, removed: seq<Command>) {
    && NoDuplicates(removed)
    && AllCommands(now) <= AllCommands(qs)
    && Elems(removed) == AllCommands(qs) - AllCommands(now)
  }

  /** One more removal extends the account of what left. */
  lemma AccountsStep(qs: Queues, now: Queues, next: Queues, removed: seq<Command>, more: seq<Command>)
    requires Accounts(qs, now, removed)
    requires Elems(more) <= AllCommands(now) && NoDuplicates(more)
    requires AllCommands(next) == AllCommands(now) - Elems(more)
    ensures Accounts(qs, next, removed + more)
  {
    NoDuplicatesConcat(removed, more);
    ElemsConcat(removed, more);
  }

  // ----- Expiry

  /** Index of the first expired command, or the length of the queue. */
  function FirstExpired(q: seq<Command>, slot: U32): (i: nat)
    ensures i <= |q|
    ensures forall j | 0 <= j < i :: q[j].validUntil >= slot
    ensures i < |q| ==> q[i].validUntil < slot
  {
    if q == [] || q[0].validUntil < slot then 0 else 1 + FirstExpired(q[1..], slot)
  }

  ghost function ExpiredCommands(qs: Queues, slot: U32): set<Command> {
    set c | c in AllCommands(qs) && c.validUntil < slot
  }

  /** Queues have only been cut, and never in front of their first expired command. */
  ghost predicate CutAtExpired(qs: Queues, now: Queues, slot: U32) {
    forall s: AccountId ::
      QueueOf(now, s) <= QueueOf(qs, s) && FirstExpired(QueueOf(qs, s), slot) <= |QueueOf(now, s)|
  }

  lemma CutAtExpiredStep(qs: Queues, now: Queues, next: Queues, slot: U32, c: Command, i: nat)
    requires ValidQueues(now) && CutAtExpired(qs, now, slot) && c.validUntil < slot
    requires c.sender in now && i < |now[c.sender].queue| && now[c.sender].queue[i] == c
    requires TotalConsumed(now[c.sender].queue[..i]) < U64_SIZE
    requires next == WithQueue(now, c.sender, now[c.sender].queue[..i])
    ensures CutAtExpired(qs, next, slot)
  {
    var q0 := QueueOf(qs, c.sender);
    assert QueueOf(now, c.sender) <= q0;
    assert q0[i] == c;
    forall s: AccountId ensures QueueOf(next, s) <= QueueOf(qs, s)
                                && FirstExpired(QueueOf(qs, s), slot) <= |QueueOf(next, s)| {
      assert QueueOf(now, s) <= QueueOf(qs, s);
      if s != c.sender {
        assert QueueOf(next, s) == QueueOf(now, s);
      } else {
        assert QueueOf(next, s) == QueueOf(now, s)[..i];
      }
    }
  }

  /** Cut queues without an expired command are exactly the longest prefixes without one. */
  lemma CutAtExpiredDone(qs: Queues, now: Queues, slot: U32)
    requires ValidQueues(now) && CutAtExpired(qs, now, slot) && AllCommands(now) <= AllCommands(qs)
    requires ExpiredCommands(qs, slot) !! AllCommands(now)
    ensures forall c | c in AllCommands(now) :: c.validUntil >= slot
    ensures forall s: AccountId :: QueueOf(now, s) == QueueOf(qs, s)[..FirstExpired(QueueOf(qs, s), slot)]
  {
    forall c | c in AllCommands(now)
      ensures c.validUntil >= slot
    {
      assert c !in ExpiredCommands(qs, slot);
    }
    forall s: AccountId ensures QueueOf(now, s) == QueueOf(qs, s)[..FirstExpired(QueueOf(qs, s), slot)] {
      var q, q0 := QueueOf(now, s), QueueOf(qs, s);
      var i := FirstExpired(q0, slot);
      assert q <= q0 && i <= |q|;
      forall j | 0 <= j < |q| ensures q0[j].validUntil >= slot {
        assert s in now && q[j] in now[s].queue;
        assert q[j] in AllCommands(now) && q[j] == q0[j];
      }
    }
  }

  // ----- Eviction by fee

  /** The command evicted first: lowest fee rate, then lowest hash. */
  ghost predicate IsLowest(c: Command, cs: set<Command>) {
    && c in cs
    && forall d | d in cs :: c.feeRate.q < d.feeRate.q || (c.feeRate == d.feeRate && c.hash <= d.hash)
  }

  /** The queue of `c`'s sender loses `c` and everything behind it. */
  ghost predicate CutAt(qs: Queues, c: Command, next: Queues) {
    && c.sender in qs
    && exists i: nat ::
      && i < |qs[c.sender].queue|
      && qs[c.sender].queue[i] == c
      && TotalConsumed(qs[c.sender].queue[..i]) < U64_SIZE
      && next == WithQueue(qs, c.sender, qs[c.sender].queue[..i])
  }

  /** As long as more than `limit` are left, a round cuts a queue at the command that is then lowest. */
  ghost predicate EvictionRounds(states: seq<Queues>, victims: seq<Command>, limit: nat) {
    && |states| == |victims| + 1
    && forall k | 0 <= k < |victims| ::
      && |AllCommands(states[k])| > limit
      && IsLowest(victims[k], AllCommands(states[k]))
      && CutAt(states[k], victims[k], states[k + 1])
  }

  /** Every command that stays outbids every command a round was cut at, or ties with it and has no lower hash. */
  lemma {:induction false} StayersOutbidVictims(states: seq<Queues>, victims: seq<Command>, limit: nat, k: nat, d: Command)
    requires EvictionRounds(states, victims, limit) && k < |victims| && d in AllCommands(states[|victims|])
    ensures var v := victims[k];
            d.feeRate.q > v.feeRate.q || (d.feeRate.q == v.feeRate.q && d.hash >= v.hash)
  {
    StayedAllAlong(states, victims, limit, k, d);
  }

  lemma {:induction false} StayedAllAlong(states: seq<Queues>, victims: seq<Command>, limit: nat, k: nat, d: Command)
    requires EvictionRounds(states, victims, limit) && k <= |victims| && d in AllCommands(states[|victims|])
    ensures d in AllCommands(states[k])
    decreases |victims| - k
  {
    if k < |victims| {
      StayedAllAlong(states, victims, limit, k + 1, d);
      CutLeaves(states[k], victims[k], states[k + 1]);
    }
  }

  lemma CutLeaves(qs: Queues, c: Command, next: Queues)
    requires CutAt(qs, c, next)
    ensures AllCommands(next) <= AllCommands(qs)
  {
    var q := qs[c.sender].queue;
    var i: nat :| i < |q| && TotalConsumed(q[..i]) < U64_SIZE && next == WithQueue(qs, c.sender, q[..i]);
    WithQueueWithin(qs, c.sender, q[..i]);
    assert forall d | d in q[..i] :: d in q;
  }

  lemma EvictionSnoc(states: seq<Queues>, victims: seq<Command>, limit: nat, c: Command, next: Queues)
    requires EvictionRounds(states, victims, limit) && |AllCommands(states[|victims|])| > limit
    requires IsLowest(c, AllCommands(states[|victims|])) && CutAt(states[|victims|], c, next)
    ensures EvictionRounds(states + [next], victims + [c], limit)
    ensures (states + [next])[0] == states[0] && (states + [next])[|victims| + 1] == next
  {
    var ss, vs := states + [next], victims + [c];
    forall k | 0 <= k < |vs|
      ensures |AllCommands(ss[k])| > limit && IsLowest(vs[k], AllCommands(ss[k])) && CutAt(ss[k], vs[k], ss[k + 1]) {
      if k < |victims| {
        assert ss[k] == states[k] && ss[k + 1] == states[k + 1] && vs[k] == victims[k];
      }
    }
  }
}
