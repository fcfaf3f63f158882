/** The indexed transaction pool: five redundant indexes over one set of pending commands. */
module IndexedPools {
  import opened Prelude
  import opened Grouping
  import opened Commands
  import opened SenderQueues
  import opened Admission
  import opened UpdateLog
  import opened Eviction
  import opened Revalidation
  import opened Includable

  /** Commands that have an expiry at all. */
  ghost function Expiring(cs: set<Command>): set<Command> {
    set c | c in cs && c.validUntil != SLOT_MAX
  }

  ghost predicate IsHashIndex(m: map<Hash, Command>, cs: set<Command>) {
    && (forall h | h in m :: m[h] in cs && m[h].hash == h)
    && (forall c | c in cs :: c.hash in m && m[c.hash] == c)
  }

  lemma RegisteredNoCollision(reg: map<Hash, Command>, universe: set<Command>, cs: set<Command>, c: Command)
    requires Registered(reg, universe) && cs <= universe && c in universe
    ensures NoCollision(cs, c)
  {
  }

  lemma RegisterFresh(reg: map<Hash, Command>, cs: set<Command>, c: Command)
    requires IsHashIndex(reg, cs) && NoCollision(cs, c)
    ensures Registered(reg[c.hash := c], cs + {c})
  {
  }

  method HashInsert(m: map<Hash, Command>, c: Command, ghost cs: set<Command>) returns (n: map<Hash, Command>)
    requires IsHashIndex(m, cs) && NoCollision(cs, c)
    ensures IsHashIndex(n, cs + {c})
  {
    n := m[c.hash := c];
  }

  method HashRemove(m: map<Hash, Command>, c: Command, ghost cs: set<Command>) returns (n: map<Hash, Command>)
    requires IsHashIndex(m, cs) && c in cs
    ensures IsHashIndex(n, cs - {c})
  {
    n := m - {c.hash};
  }

  lemma RemoveNext(all: set<Command>, cmds: seq<Command>, i: nat)
    requires i < |cmds| && NoDuplicates(cmds) && Elems(cmds) <= all
    ensures cmds[i] in all - Elems(cmds[..i])
    ensures all - Elems(cmds[..i]) - {cmds[i]} == all - Elems(cmds[..i + 1])
  {
  }

  /** Position of the first queued command with at least the given nonce. */
  function PositionAtOrAbove(q: seq<Command>, n: U32): (r: Option<nat>)
    ensures r.Some? ==> r.value < |q| && q[r.value].nonce >= n
    ensures r.Some? ==> forall j | 0 <= j < r.value :: q[j].nonce < n
    ensures r.None? ==> forall j | 0 <= j < |q| :: q[j].nonce < n
  {
    if q == [] then None
    else if n <= q[0].nonce then Some(0)
    else
      var r := PositionAtOrAbove(q[1..], n);
      if r.None? then None else Some(r.value + 1)
  }

  /** What the result, the private copy of the queue and the log must be for an outcome. */
  ghost predicate Meets(o: Outcome, cmd: Command, r: Result<(Command, seq<Command>), CommandError>,
                        bySender': Option<SenderQueue>, updates: seq<Update>, updates': seq<Update>)
  {
    && (o.Rejected? ==> r == Failure(o.error))
    && (o.Admitted? ==>
          && r == Success((cmd, o.dropped))
          && TotalConsumed(o.queue) < U64_SIZE
          && bySender' == StateOf(o.queue)
          && updates' == updates + o.log)
  }

  lemma MetFromNothing(o: Outcome, cmd: Command, r: Result<(Command, seq<Command>), CommandError>,
                       bySender': Option<SenderQueue>, updates': seq<Update>)
    requires Meets(o, cmd, r, bySender', [], updates')
    ensures o.Rejected? <==> r.Failure?
    ensures o.Admitted? ==> updates' == o.log
  {
    assert o.Admitted? ==> [] + o.log == o.log;
  }

  /**
   * What putting `w[m..]` back behind `w[..m]` must yield when `e` is where it fails first: everything
   * up to there is back, and the fees from there on are taken out of the increment.
   */
  ghost predicate PutBack(w: seq<Command>, m: nat, e: nat, increment: U64,
                          r: Result<(U64, Option<seq<Command>>), CommandError>,
                          bySender': Option<SenderQueue>, updates: seq<Update>, updates': seq<Update>)
    requires m <= e <= |w|
  {
    && (TotalFees(w[e..]) > increment ==> r == Failure(InsufficientReplaceFee))
    && (TotalFees(w[e..]) <= increment ==>
          && r == Success((increment - TotalFees(w[e..]), if e == |w| then None else Some(w[e + 1..])))
          && TotalConsumed(w[..e]) < U64_SIZE
          && bySender' == StateOf(w[..e])
          && updates' == updates + AddAll(w[m..e]))
  }

  /** Everything in front of position `p` is back. */
  ghost predicate Restored(w: seq<Command>, m: nat, e: nat, p: nat, bySender: Option<SenderQueue>,
                           updates: seq<Update>, updates': seq<Update>)
  {
    && m <= p <= e <= |w|
    && TotalConsumed(w[..p]) < U64_SIZE
    && bySender == StateOf(w[..p])
    && updates' == updates + AddAll(w[m..p])
  }

  /** The queue in front of the replaced command holds no nonce at or above it. */
  lemma CutQueue(s: AccountId, q: seq<Command>, c: Command, accountNonce: U32, i: nat)
    requires Chained(s, q) && Replaces(q, c, accountNonce) && i == c.nonce - q[0].nonce
    ensures i < |q| && Chained(s, q[..i]) && AtOrAbove(q[..i], c.nonce) == 0 && AtOrAbove(q, c.nonce) > 0
  {
    ReplacedPosition(s, q, c, accountNonce);
    ChainedSlice(s, q, 0, i);
    assert q[0..i] == q[..i];
    NoneAtOrAbove(q[..i], c.nonce);
    SomeAtOrAbove(q, c.nonce, i);
  }

  /** Once the queue is cut, adding the new command can fail only for its currency, and then just extends. */
  lemma AfterCut(at: Slots, q: seq<Command>, i: nat, c: Command, accountNonce: U32, balance: U64,
                 added: Result<(Command, seq<Command>), CommandError>, bySender': Option<SenderQueue>,
                 updates: seq<Update>, updates': seq<Update>)
    requires Chained(c.sender, q) && Replaces(q, c, accountNonce) && Gate(at, c).None?
    requires i == c.nonce - q[0].nonce && i < |q| && Chained(c.sender, q[..i])
    requires Meets(Admit(at, c.sender, q[..i], c, accountNonce, balance), c, added, bySender',
                   updates + RemovalLog(q, i), updates')
    ensures Unaffordable(q[..i], c, balance).Some? ==> added == Failure(Unaffordable(q[..i], c, balance).value)
    ensures Unaffordable(q[..i], c, balance).None? ==>
              && added == Success((c, []))
              && TotalConsumed(q[..i] + [c]) < U64_SIZE
              && bySender' == StateOf(q[..i] + [c])
              && updates' == updates + (RemovalLog(q, i) + [Add(c, c.feeRate, i == 0)])
  {
    AdmitAtCut(at, c.sender, q, c, accountNonce, balance);
    AppendAssoc(updates, RemovalLog(q, i), [Add(c, c.feeRate, i == 0)]);
  }

  /** The outcome by where putting `w[m..]` back fails first, and the fees from there on. */
  ghost predicate EndsIn(at: Slots, o: Outcome, head: Command, w: seq<Command>, m: nat, increment: nat,
                         log: seq<Update>, balance: U64)
    requires m <= |w|
  {
    var e := m + Reinserted(at, w[..m], w[m..], balance);
    o == if increment < TotalFees(w[e..]) + REPLACE_FEE then Rejected(InsufficientReplaceFee)
         else Admitted(w[..e], [head] + (if e == |w| then [] else w[e + 1..]), log + AddAll(w[m..e]))
  }

  lemma ReplacementEnds(at: Slots, q: seq<Command>, i: nat, c: Command, balance: U64)
    requires i < |q| && q[i].fee <= c.fee && Unaffordable(q[..i], c, balance).None?
    ensures EndsIn(at, Replacement(at, q, i, c, balance), q[i], q[i := c], i + 1, c.fee - q[i].fee,
                   RemovalLog(q, i) + [Add(c, c.feeRate, i == 0)], balance)
  {
    ReplacementOutcome(at, q, i, c, balance);
  }

  /** A queue with the new command in place, in front of and behind it. */
  lemma OverwrittenParts(s: AccountId, q: seq<Command>, i: nat, c: Command)
    requires Unwrapped(s, q) && i < |q| && c.sender == s && c.nonce == q[i].nonce
    ensures var w := q[i := c];
            Unwrapped(s, w) && w[..i + 1] == q[..i] + [c] && q[i..][1..] == w[i + 1..]
  {
    OverwrittenUnwrapped(s, q, i, c);
  }

  /** Where `FinishReplacement` starts: everything in front of the tail is in place, and the outcome is known. */
  ghost predicate ReadyToFinish(at: Slots, c: Command, dropped: seq<Command>, bySender: Option<SenderQueue>,
                                w: seq<Command>, m: nat, log: seq<Update>, o: Outcome, balance: U64)
  {
    && Unwrapped(c.sender, w) && 0 < m <= |w| < U32_SIZE
    && dropped != [] && dropped[1..] == w[m..] && dropped[0].fee <= c.fee
    && TotalConsumed(w[..m]) < U64_SIZE && bySender == StateOf(w[..m])
    && EndsIn(at, o, dropped[0], w, m, c.fee - dropped[0].fee, log, balance)
  }

  lemma ReplacementReady(at: Slots, q: seq<Command>, i: nat, c: Command, balance: U64, dropped: seq<Command>,
                         bySender: Option<SenderQueue>)
    requires Unwrapped(c.sender, q) && i < |q| < U32_SIZE && c.nonce == q[i].nonce
    requires q[i].fee <= c.fee && Unaffordable(q[..i], c, balance).None? && dropped == q[i..]
    requires TotalConsumed(q[..i] + [c]) < U64_SIZE && bySender == StateOf(q[..i] + [c])
    ensures ReadyToFinish(at, c, dropped, bySender, q[i := c], i + 1, RemovalLog(q, i) + [Add(c, c.feeRate, i == 0)],
                          Replacement(at, q, i, c, balance), balance)
  {
    ReplacementEnds(at, q, i, c, balance);
    ReadyByParts(at, q, i, c, balance, dropped, bySender, RemovalLog(q, i) + [Add(c, c.feeRate, i == 0)],
                 Replacement(at, q, i, c, balance));
  }

  lemma ReadyByParts(at: Slots, q: seq<Command>, i: nat, c: Command, balance: U64, dropped: seq<Command>,
                     bySender: Option<SenderQueue>, log: seq<Update>, o: Outcome)
    requires Unwrapped(c.sender, q) && i < |q| < U32_SIZE && c.nonce == q[i].nonce
    requires q[i].fee <= c.fee && dropped == q[i..]
    requires TotalConsumed(q[..i] + [c]) < U64_SIZE && bySender == StateOf(q[..i] + [c])
    requires EndsIn(at, o, q[i], q[i := c], i + 1, c.fee - q[i].fee, log, balance)
    ensures ReadyToFinish(at, c, dropped, bySender, q[i := c], i + 1, log, o, balance)
  {
    OverwrittenParts(c.sender, q, i, c);
  }

  /** The last step of a replacement: the increment that is left must reach the replacement fee. */
  lemma OutcomeMeets(o: Outcome, c: Command, head: Command, w: seq<Command>, m: nat, e: nat, increment: U64,
                     log: seq<Update>, rest: Result<(U64, Option<seq<Command>>), CommandError>,
                     r: Result<(Command, seq<Command>), CommandError>,
                     bySender': Option<SenderQueue>, updates: seq<Update>, updates': seq<Update>)
    requires m <= e <= |w| && PutBack(w, m, e, increment, rest, bySender', updates + log, updates')
    requires o == if increment < TotalFees(w[e..]) + REPLACE_FEE then Rejected(InsufficientReplaceFee)
                  else Admitted(w[..e], [head] + (if e == |w| then [] else w[e + 1..]), log + AddAll(w[m..e]))
    requires r == if rest.Failure? then Failure(rest.error)
                  else if rest.value.0 < REPLACE_FEE then Failure(InsufficientReplaceFee)
                  else Success((c, [head] + if rest.value.1.Some? then rest.value.1.value else []))
    ensures Meets(o, c, r, bySender', updates, updates')
  {
    AppendAssoc(updates, log, AddAll(w[m..e]));
  }

  class IndexedPool {
    var applicableByFee: map<FeeRate, set<Command>>
    var allBySender: Queues
    var allByFee: map<FeeRate, set<Command>>
    var allByHash: map<Hash, Command>
    var transactionsWithExpiration: map<U32, set<Command>>
    var size: nat
    const slotTxEnd: Option<U32>

    /** The indexes describe exactly the commands of `x.all`, and applicability exactly `x.heads`. */
    ghost predicate Indexes(x: Indexed)
      reads this
    {
      && applicableByFee == GroupBy(FeeRateOf, x.heads)
      && allByFee == GroupBy(FeeRateOf, x.all)
      && IsHashIndex(allByHash, x.all)
      && transactionsWithExpiration == GroupBy(ValidUntilOf, Expiring(x.all))
      && size == |x.all|
    }

    ghost predicate Valid()
      reads this
    {
      ValidQueues(allBySender) && Indexes(Contents(allBySender))
    }

    constructor (slotTxEnd: Option<U32>)
      ensures Valid() && allBySender == map[] && this.slotTxEnd == slotTxEnd
    {
      applicableByFee, allBySender, allByFee, allByHash := map[], map[], map[], map[];
      transactionsWithExpiration, size := map[], 0;
      this.slotTxEnd := slotTxEnd;
    }

    // ----- Index maintenance

    method UpdateExpirationMap(cmd: Command, isAdd: bool, ghost all: set<Command>)
      requires transactionsWithExpiration == GroupBy(ValidUntilOf, Expiring(all))
      modifies `transactionsWithExpiration
      ensures transactionsWithExpiration ==
              GroupBy(ValidUntilOf, Expiring(if isAdd then all + {cmd} else all - {cmd}))
    {
      var expiry := cmd.validUntil;
      if expiry == SLOT_MAX {
        assert Expiring(all + {cmd}) == Expiring(all) == Expiring(all - {cmd});
        return;
      }
      if isAdd {
        transactionsWithExpiration := MapSetInsert(transactionsWithExpiration, expiry, cmd, ValidUntilOf, Expiring(all));
        assert Expiring(all + {cmd}) == Expiring(all) + {cmd};
      } else {
        transactionsWithExpiration := MapSetRemove(transactionsWithExpiration, expiry, cmd, ValidUntilOf, Expiring(all));
        assert Expiring(all - {cmd}) == Expiring(all) - {cmd};
      }
    }

    method UpdateAdd(cmd: Command, feePerWu: FeeRate, addToApplicableByFee: bool, ghost x: Indexed)
      requires Indexes(x) && cmd !in x.all && NoCollision(x.all, cmd) && feePerWu == cmd.feeRate
      modifies `applicableByFee, `allByFee, `allByHash, `transactionsWithExpiration, `size
      ensures Indexes(Effect(Add(cmd, feePerWu, addToApplicableByFee), x))
    {
      if addToApplicableByFee {
        applicableByFee := MapSetInsert(applicableByFee, feePerWu, cmd, FeeRateOf, x.heads);
      }
      UpdateAddOne(cmd, feePerWu, Indexed(x.all, if addToApplicableByFee then x.heads + {cmd} else x.heads));
    }

    method UpdateAddOne(cmd: Command, feePerWu: FeeRate, ghost x: Indexed)
      requires Indexes(x) && cmd !in x.all && NoCollision(x.all, cmd) && feePerWu == cmd.feeRate
      modifies `allByFee, `allByHash, `transactionsWithExpiration, `size
      ensures Indexes(x.(all := x.all + {cmd}))
    {
      allByFee := MapSetInsert(allByFee, feePerWu, cmd, FeeRateOf, x.all);
      allByHash := HashInsert(allByHash, cmd, x.all);
      UpdateExpirationMap(cmd, true, x.all);
      size := size + 1;
    }

    method UpdateRemoveOne(cmd: Command, ghost x: Indexed)
      requires Indexes(x) && cmd in x.all
      modifies `allByFee, `allByHash, `transactionsWithExpiration, `size
      ensures Indexes(x.(all := x.all - {cmd}))
    {
      allByFee := MapSetRemove(allByFee, cmd.feeRate, cmd, FeeRateOf, x.all);
      allByHash := HashRemove(allByHash, cmd, x.all);
      UpdateExpirationMap(cmd, false, x.all);
      size := size - 1;
    }

    method UpdateRemoveAllByFeeAndHashAndExpiration(cmds: seq<Command>, ghost x: Indexed)
      requires Indexes(x) && Elems(cmds) <= x.all && NoDuplicates(cmds)
      modifies `allByFee, `allByHash, `transactionsWithExpiration, `size
      ensures Indexes(x.(all := x.all - Elems(cmds)))
    {
      ghost var y := x;
      for i := 0 to |cmds|
        invariant applicableByFee == old(applicableByFee)
        invariant y.heads == x.heads && y.all == x.all - Elems(cmds[..i])
        invariant Indexes(y)
      {
        RemoveNext(x.all, cmds, i);
        UpdateRemoveOne(cmds[i], y);
        y := y.(all := y.all - {cmds[i]});
      }
      assert cmds[..|cmds|] == cmds;
    }

    method RemoveApplicable(cmd: Command, feePerWu: FeeRate, ghost x: Indexed)
      requires Indexes(x) && feePerWu == cmd.feeRate
      modifies `applicableByFee
      ensures Indexes(x.(heads := x.heads - {cmd}))
    {
      applicableByFee := MapSetRemove(applicableByFee, feePerWu, cmd, FeeRateOf, x.heads);
    }

    method ApplyUpdates(updates: seq<Update>, ghost x: Indexed, ghost universe: set<Command>,
                        ghost reg: map<Hash, Command>)
      requires Indexes(x) && Replayable(updates, x, universe)
      requires Registered(reg, universe) && x.all <= universe
      modifies `applicableByFee, `allByFee, `allByHash, `transactionsWithExpiration, `size
      ensures Indexes(Replay(updates, x))
    {
      ghost var y := x;
      for i := 0 to |updates|
        invariant Indexes(y) && y.all <= universe
        invariant Replayable(updates[i..], y, universe)
        invariant Replay(updates[i..], y) == Replay(updates, x)
      {
        assert updates[i..][0] == updates[i] && updates[i..][1..] == updates[i + 1..];
        match updates[i] {
          case Add(command, feePerWu, addToApplicableByFee) =>
            RegisteredNoCollision(reg, universe, y.all, command);
            UpdateAdd(command, feePerWu, addToApplicableByFee, y);
          case RemoveAllByFeeAndHashAndExpiration(commands) =>
            UpdateRemoveAllByFeeAndHashAndExpiration(commands, y);
          case RemoveFromApplicableByFee(feePerWu, command) =>
            RemoveApplicable(command, feePerWu, y);
        }
        y := Effect(updates[i], y);
      }
    }

    method SetSender(sender: AccountId, state: Option<SenderQueue>)
      modifies `allBySender
      ensures state.Some? ==> allBySender == old(allBySender)[sender := state.value]
      ensures state.None? ==> allBySender == old(allBySender) - {sender}
    {
      match state {
        case Some(sq) => allBySender := allBySender[sender := sq];
        case None => allBySender := allBySender - {sender};
      }
    }

    /** Installs the new state of one sender and replays the log that leads to it. */
    method Commit(sender: AccountId, state: Option<SenderQueue>, updates: seq<Update>,
                  ghost qs: Queues, ghost universe: set<Command>, ghost reg: map<Hash, Command>)
      requires Valid() && ValidQueues(qs)
      requires qs == if state.Some? then allBySender[sender := state.value] else allBySender - {sender}
      requires Replayable(updates, Contents(allBySender), universe)
      requires Replay(updates, Contents(allBySender)) == Contents(qs)
      requires Registered(reg, universe) && AllCommands(allBySender) <= universe
      modifies this
      ensures Valid() && allBySender == qs
    {
      ghost var x := Contents(allBySender);
      SetSender(sender, state);
      ApplyUpdates(updates, x, universe, reg);
    }

    // ----- Removal of a command and everything queued behind it

    method RemoveWithDependentsImpl(cmd: Command, bySender: Option<SenderQueue>, updates: seq<Update>, ghost i: nat)
        returns (r: Result<seq<Command>, CommandError>, bySender': Option<SenderQueue>, updates': seq<Update>)
      requires bySender.Some? && ValidQueue(cmd.sender, bySender.value)
      requires i < |bySender.value.queue| && bySender.value.queue[i] == cmd
      ensures var q := bySender.value.queue;
              && r == Success(q[i..])
              && TotalConsumed(q[..i]) < U64_SIZE
              && bySender' == StateOf(q[..i])
              && updates' == updates + RemovalLog(q, i)
    {
      var SenderQueue(senderQueue, reserved) := bySender.value;
      assert senderQueue != [];
      var position := PositionOfNonce(senderQueue, cmd.nonce);
      ChainedDistinct(cmd.sender, senderQueue);
      var cmdIndex := position.value;
      assert cmdIndex == i;
      var dropQueue, keepQueue := senderQueue[cmdIndex..], senderQueue[..cmdIndex];
      assert dropQueue != [];
      TotalConsumedSplit(senderQueue, cmdIndex);
      var currencyToRemove: U64 := SumConsumed(dropQueue);
      var reserved' := reserved - currencyToRemove;
      updates' := updates + [RemoveAllByFeeAndHashAndExpiration(dropQueue)];
      if cmdIndex == 0 {
        updates' := updates' + [RemoveFromApplicableByFee(cmd.feeRate, cmd)];
      }
      if keepQueue != [] {
        bySender' := Some(SenderQueue(keepQueue, reserved'));
      } else {
        assert reserved' == 0;
        bySender' := None;
      }
      r := Success(dropQueue);
    }

    /** The `try_fold` over consumed currency: no step fails when the total fits. */
    static method SumConsumed(cmds: seq<Command>) returns (total: U64)
      requires TotalConsumed(cmds) < U64_SIZE
      ensures total == TotalConsumed(cmds)
    {
      total := 0;
      for j := 0 to |cmds|
        invariant total == TotalConsumed(cmds[..j])
      {
        TotalConsumedSplit(cmds, j);
        assert cmds[j..][0] == cmds[j];
        assert cmds[..j + 1] == cmds[..j] + [cmds[j]];
        TotalConsumedConcat(cmds[..j], [cmds[j]]);
        var consumed := CurrencyConsumed(cmds[j]);
        assert consumed.Success?;
        total := consumed.value + total;
      }
      assert cmds[..|cmds|] == cmds;
    }

    /** Removes a pooled command with everything behind it in its queue. */
    method RemoveWithDependents(cmd: Command) returns (r: Result<seq<Command>, CommandError>, ghost i: nat)
      requires Valid() && cmd in AllCommands(allBySender)
      modifies this
      ensures Valid()
      ensures cmd.sender in old(allBySender)
      ensures i < |old(allBySender)[cmd.sender].queue| && old(allBySender)[cmd.sender].queue[i] == cmd
      ensures r == Success(old(allBySender)[cmd.sender].queue[i..])
      ensures TotalConsumed(old(allBySender)[cmd.sender].queue[..i]) < U64_SIZE
      ensures allBySender == WithQueue(old(allBySender), cmd.sender, old(allBySender)[cmd.sender].queue[..i])
      ensures AllCommands(allBySender) == old(AllCommands(allBySender)) - Elems(r.value)
    {
      var sender := cmd.sender;
      MemberOfOwnQueue(allBySender, cmd);
      var bySender := if sender in allBySender then Some(allBySender[sender]) else None;
      i :| 0 <= i < |bySender.value.queue| && bySender.value.queue[i] == cmd;
      var updates: seq<Update> := [];
      r, bySender, updates := RemoveWithDependentsImpl(cmd, bySender, updates, i);
      assert updates == RemovalLog(allBySender[sender].queue, i);
      RemovalRebuilds(allBySender, sender, i);
      Commit(sender, bySender, updates, WithQueue(allBySender, sender, allBySender[sender].queue[..i]),
             AllCommands(allBySender), allByHash);
    }

    // ----- Gossip

    method CheckExpiry(sinceGenesis: U32, cmd: Command) returns (r: Result<(), CommandError>)
      ensures r == if cmd.validUntil < sinceGenesis then Failure(Expired) else Success(())
    {
      if cmd.validUntil < sinceGenesis {
        return Failure(Expired);
      }
      r := Success(());
    }

    method AddFromGossipImpl(sinceGenesis: U32, current: U32, cmd: Command, currentNonce: U32, balance: U64,
                             bySender: Option<SenderQueue>, updates: seq<Update>)
        returns (r: Result<(Command, seq<Command>), CommandError>,
                 bySender': Option<SenderQueue>, updates': seq<Update>)
      requires ValidState(cmd.sender, bySender) && |StateQueue(bySender)| < U32_SIZE
      ensures Meets(Admit(Slots(slotTxEnd, sinceGenesis, current), cmd.sender, StateQueue(bySender), cmd,
                          currentNonce, balance),
                    cmd, r, bySender', updates, updates')
      decreases AtOrAbove(StateQueue(bySender), cmd.nonce), 1
    {
      bySender', updates' := bySender, updates;
      if slotTxEnd.Some? && !(current < slotTxEnd.value) {
        return Failure(AfterSlotTxEnd), bySender', updates';
      }
      var checked := CheckExpiry(sinceGenesis, cmd);
      if checked.Failure? {
        return Failure(checked.error), bySender', updates';
      }
      var consumedOrError := CurrencyConsumed(cmd);
      if consumedOrError.Failure? {
        return Failure(Overflow), bySender', updates';
      }
      var consumed: U64 := consumedOrError.value;
      if cmd.feeToken != DEFAULT_TOKEN {
        return Failure(UnwantedFeeToken), bySender', updates';
      }
      match bySender {
        case None =>
          if currentNonce != cmd.nonce {
            return Failure(InvalidNonce), bySender', updates';
          }
          if consumed > balance {
            return Failure(InsufficientFunds), bySender', updates';
          }
          bySender' := Some(SenderQueue([cmd], consumed));
          updates' := updates + [Add(cmd, cmd.feeRate, true)];
          r := Success((cmd, []));
        case Some(SenderQueue(queued, reserved)) =>
          assert queued != [];
          var queueNonce := queued[0].nonce;
          var queueTargetNonce := Succ(queued[|queued| - 1].nonce);
          if queueTargetNonce == cmd.nonce {
            if consumed + reserved >= U64_SIZE {
              return Failure(Overflow), bySender', updates';
            }
            var reserved': U64 := consumed + reserved;
            if reserved' > balance {
              return Failure(InsufficientFunds), bySender', updates';
            }
            TotalConsumedConcat(queued, [cmd]);
            bySender' := Some(SenderQueue(queued + [cmd], reserved'));
            updates' := updates + [Add(cmd, cmd.feeRate, false)];
            r := Success((cmd, []));
          } else if queueNonce == currentNonce {
            if !(queueNonce <= cmd.nonce <= queueTargetNonce) {
              return Failure(InvalidNonce), bySender', updates';
            }
            r, bySender', updates' :=
              ReplaceQueued(sinceGenesis, current, cmd, currentNonce, balance, bySender, updates);
          } else {
            r := Failure(InvalidNonce);
          }
      }
    }

    /** The branch of `AddFromGossipImpl` that puts the command in place of a queued one. */
    method ReplaceQueued(sinceGenesis: U32, current: U32, cmd: Command, currentNonce: U32, balance: U64,
                         bySender: Option<SenderQueue>, updates: seq<Update>)
        returns (r: Result<(Command, seq<Command>), CommandError>,
                 bySender': Option<SenderQueue>, updates': seq<Update>)
      requires ValidState(cmd.sender, bySender) && |StateQueue(bySender)| < U32_SIZE
      requires Gate(Slots(slotTxEnd, sinceGenesis, current), cmd).None?
      requires Replaces(StateQueue(bySender), cmd, currentNonce)
      ensures Meets(Admit(Slots(slotTxEnd, sinceGenesis, current), cmd.sender, StateQueue(bySender), cmd,
                          currentNonce, balance),
                    cmd, r, bySender', updates, updates')
      decreases AtOrAbove(StateQueue(bySender), cmd.nonce), 0
    {
      ghost var at, s := Slots(slotTxEnd, sinceGenesis, current), cmd.sender;
      bySender', updates' := bySender, updates;
      var queued := bySender.value.queue;
      ReplacedPosition(s, queued, cmd, currentNonce);
      var position := PositionAtOrAbove(queued, cmd.nonce);
      var i := position.value;
      assert i == cmd.nonce - queued[0].nonce;
      SomeAtOrAbove(queued, cmd.nonce, i);
      assert Admit(at, s, queued, cmd, currentNonce, balance) == Replacement(at, queued, i, cmd, balance);

      var dropQueue := queued[i..];
      var toDrop := dropQueue[0];
      assert cmd.nonce <= toDrop.nonce;
      if cmd.fee < toDrop.fee {
        return Failure(InsufficientReplaceFee), bySender', updates';
      }
      r, bySender', updates' :=
        ReplaceAt(sinceGenesis, current, cmd, toDrop, currentNonce, balance, bySender, updates, i);
    }

    /** The rest of that branch, for a command that offers at least the fee of the one it replaces. */
    method ReplaceAt(sinceGenesis: U32, current: U32, cmd: Command, toDrop: Command, currentNonce: U32, balance: U64,
                     bySender: Option<SenderQueue>, updates: seq<Update>, ghost i: nat)
        returns (r: Result<(Command, seq<Command>), CommandError>,
                 bySender': Option<SenderQueue>, updates': seq<Update>)
      requires ValidState(cmd.sender, bySender) && |StateQueue(bySender)| < U32_SIZE
      requires Gate(Slots(slotTxEnd, sinceGenesis, current), cmd).None?
      requires Replaces(StateQueue(bySender), cmd, currentNonce) && Unwrapped(cmd.sender, StateQueue(bySender))
      requires i == cmd.nonce - StateQueue(bySender)[0].nonce && i < |StateQueue(bySender)|
      requires toDrop == StateQueue(bySender)[i] && toDrop.fee <= cmd.fee
      ensures Meets(Replacement(Slots(slotTxEnd, sinceGenesis, current), StateQueue(bySender), i, cmd, balance),
                    cmd, r, bySender', updates, updates')
      decreases 0, 7
    {
      ghost var at, queued := Slots(slotTxEnd, sinceGenesis, current), StateQueue(bySender);
      var added, dropped;
      added, dropped, bySender', updates' :=
        CutAndAdd(sinceGenesis, current, cmd, toDrop, currentNonce, balance, bySender, updates, i);
      if added.Failure? {
        return Failure(added.error), bySender', updates';
      }
      ReplacementReady(at, queued, i, cmd, balance, dropped, bySender');
      r, bySender', updates' := FinishReplacement(sinceGenesis, current, cmd, currentNonce, balance, dropped,
                                                  bySender', updates', queued[i := cmd], i + 1,
                                                  RemovalLog(queued, i) + [Add(cmd, cmd.feeRate, i == 0)],
                                                  Replacement(at, queued, i, cmd, balance), updates);
    }

    /**
     * Puts the tail behind the replaced command back and checks the fee increment that is left. The
     * ghost parameters are the queue with the new command in place, the start of the tail in it, the
     * log of the cut, and the outcome to be met.
     */
    method FinishReplacement(sinceGenesis: U32, current: U32, cmd: Command, currentNonce: U32, balance: U64,
                             dropped: seq<Command>, bySender: Option<SenderQueue>, updates: seq<Update>,
                             ghost whole: seq<Command>, ghost m: nat, ghost log: seq<Update>, ghost o: Outcome,
                             ghost updates0: seq<Update>)
        returns (r: Result<(Command, seq<Command>), CommandError>,
                 bySender': Option<SenderQueue>, updates': seq<Update>)
      requires ReadyToFinish(Slots(slotTxEnd, sinceGenesis, current), cmd, dropped, bySender, whole, m, log, o, balance)
      requires updates == updates0 + log
      ensures Meets(o, cmd, r, bySender', updates0, updates')
      decreases 0, 6
    {
      var dropHead, dropTail := dropped[0], dropped[1..];
      ghost var e := m + Reinserted(Slots(slotTxEnd, sinceGenesis, current), whole[..m], whole[m..], balance);
      var rest;
      rest, bySender', updates' := ReinsertTail(sinceGenesis, current, cmd.sender, dropTail, cmd.fee - dropHead.fee,
                                                currentNonce, balance, bySender, updates, whole, m);
      r := Conclude(cmd, dropHead, rest);
      OutcomeMeets(o, cmd, dropHead, whole, m, e, cmd.fee - dropHead.fee, log, rest, r, bySender', updates0, updates');
    }

    /** The answer, once the fees of everything dropped are taken out of the increment. */
    static method Conclude(cmd: Command, dropHead: Command, rest: Result<(U64, Option<seq<Command>>), CommandError>)
        returns (r: Result<(Command, seq<Command>), CommandError>)
      ensures r == if rest.Failure? then Failure(rest.error)
                   else if rest.value.0 < REPLACE_FEE then Failure(InsufficientReplaceFee)
                   else Success((cmd, [dropHead] + if rest.value.1.Some? then rest.value.1.value else []))
    {
      if rest.Failure? {
        return Failure(rest.error);
      }
      if rest.value.0 < REPLACE_FEE {
        return Failure(InsufficientReplaceFee);
      }
      r := Success((cmd, [dropHead] + if rest.value.1.Some? then rest.value.1.value else []));
    }

    /** Cuts the queue at the command to drop and adds the new command behind what is left. */
    method CutAndAdd(sinceGenesis: U32, current: U32, cmd: Command, toDrop: Command, currentNonce: U32, balance: U64,
                     bySender: Option<SenderQueue>, updates: seq<Update>, ghost i: nat)
        returns (r: Result<(), CommandError>, dropped: seq<Command>,
                 bySender': Option<SenderQueue>, updates': seq<Update>)
      requires ValidState(cmd.sender, bySender) && |StateQueue(bySender)| < U32_SIZE
      requires Gate(Slots(slotTxEnd, sinceGenesis, current), cmd).None?
      requires Replaces(StateQueue(bySender), cmd, currentNonce)
      requires i == cmd.nonce - StateQueue(bySender)[0].nonce
      requires i < |StateQueue(bySender)| && toDrop == StateQueue(bySender)[i] && toDrop.sender == cmd.sender
      ensures var q := StateQueue(bySender);
              if Unaffordable(q[..i], cmd, balance).Some? then r == Failure(Unaffordable(q[..i], cmd, balance).value)
              else
                && r == Success(())
                && dropped == q[i..]
                && TotalConsumed(q[..i] + [cmd]) < U64_SIZE
                && bySender' == StateOf(q[..i] + [cmd])
                && updates' == updates + (RemovalLog(q, i) + [Add(cmd, cmd.feeRate, i == 0)])
      decreases 0, 2
    {
      ghost var q := StateQueue(bySender);
      CutQueue(cmd.sender, q, cmd, currentNonce, i);
      var removed, added;
      removed, bySender', updates' := RemoveWithDependentsImpl(toDrop, bySender, updates, i);
      dropped := removed.value;
      added, bySender', updates' :=
        AddFromGossipImpl(sinceGenesis, current, cmd, currentNonce, balance, bySender', updates');
      AfterCut(Slots(slotTxEnd, sinceGenesis, current), q, i, cmd, currentNonce, balance, added, bySender', updates,
               updates');
      if added.Failure? {
        return Failure(added.error), dropped, bySender', updates';
      }
      assert added.value.1 == [];
      r := Success(());
    }

    /** One attempt to put a command back; a failure restores the private copy of the queue. */
    method TryReinsert(sinceGenesis: U32, current: U32, cmd: Command, currentNonce: U32, balance: U64,
                       bySender: Option<SenderQueue>, ghost whole: seq<Command>, ghost j: nat)
        returns (added: bool, bySender': Option<SenderQueue>, thisUpdates: seq<Update>)
      requires Unwrapped(cmd.sender, whole) && 0 < j < |whole| < U32_SIZE && cmd == whole[j]
      requires TotalConsumed(whole[..j]) < U64_SIZE && bySender == StateOf(whole[..j])
      ensures added <==> Appendable(Slots(slotTxEnd, sinceGenesis, current), whole[..j], cmd, balance)
      ensures !added ==> bySender' == bySender
      ensures added ==> TotalConsumed(whole[..j + 1]) < U64_SIZE && bySender' == StateOf(whole[..j + 1])
      ensures added ==> thisUpdates == AddAll([cmd])
      decreases 0, 2
    {
      AdmitNext(Slots(slotTxEnd, sinceGenesis, current), cmd.sender, whole, j, currentNonce, balance);
      var bySenderPre := bySender;
      var r;
      r, bySender', thisUpdates := AddFromGossipImpl(sinceGenesis, current, cmd, currentNonce, balance, bySender, []);
      if r.Failure? {
        return false, bySenderPre, [];
      }
      assert r.value.1 == [];
      added := true;
    }

    /**
     * The loop of `ReplaceQueued` up to its first failure: commands go back until then. What is
     * left, the failed command in front, and the list of dropped commands the loop has started.
     */
    method ReinsertWhile(sinceGenesis: U32, current: U32, tail: seq<Command>, currentNonce0: U32, balance: U64,
                         bySender: Option<SenderQueue>, updates: seq<Update>,
                         ghost sender: AccountId, ghost whole: seq<Command>, ghost m: nat, ghost e: nat)
        returns (dropTail: seq<Command>, dropped: Option<seq<Command>>,
                 bySender': Option<SenderQueue>, updates': seq<Update>)
      requires Unwrapped(sender, whole) && 0 < m <= |whole| < U32_SIZE && tail == whole[m..]
      requires FirstMisfit(Slots(slotTxEnd, sinceGenesis, current), whole, m, e, balance)
      requires Restored(whole, m, e, m, bySender, updates, updates)
      ensures e <= |whole| && dropTail == whole[e..] && Restored(whole, m, e, e, bySender', updates, updates')
      ensures dropped == if e < |whole| then Some(whole[e + 1..]) else None
      decreases 0, 4
    {
      var currentNonce := currentNonce0;
      dropTail, dropped, bySender', updates' := tail, None, bySender, updates;
      ghost var p := m;
      while dropTail != [] && dropped.None?
        invariant m <= p <= |whole| && dropTail == whole[p..]
        invariant Restored(whole, m, e, p, bySender', updates, updates')
        invariant dropped.Some? ==> p == e < |whole| && dropped.value == whole[e + 1..]
        decreases |dropTail|, if dropped.None? then 1 else 0
      {
        currentNonce := Succ(currentNonce);
        var added;
        added, bySender', updates' := ReinsertFront(sinceGenesis, current, dropTail[0], currentNonce, balance,
                                                    bySender', updates', whole, m, e, p, updates);
        if added {
          dropTail := dropTail[1..];
          p := p + 1;
        } else {
          dropped := Some(dropTail[1..]);
        }
      }
    }

    /** Puts commands back until one fails, and takes the fees from there on out of the increment. */
    method ReinsertTail(sinceGenesis: U32, current: U32, sender: AccountId, tail: seq<Command>, increment0: U64,
                        currentNonce0: U32, balance: U64, bySender: Option<SenderQueue>, updates: seq<Update>,
                        ghost whole: seq<Command>, ghost m: nat)
        returns (r: Result<(U64, Option<seq<Command>>), CommandError>,
                 bySender': Option<SenderQueue>, updates': seq<Update>)
      requires Unwrapped(sender, whole) && 0 < m <= |whole| < U32_SIZE && tail == whole[m..]
      requires TotalConsumed(whole[..m]) < U64_SIZE && bySender == StateOf(whole[..m])
      ensures PutBack(whole, m,
                      m + Reinserted(Slots(slotTxEnd, sinceGenesis, current), whole[..m], whole[m..], balance),
                      increment0, r, bySender', updates, updates')
      decreases 0, 5
    {
      ghost var at := Slots(slotTxEnd, sinceGenesis, current);
      ghost var e := m + Reinserted(at, whole[..m], whole[m..], balance);
      ReinsertedEnd(at, whole, m, balance);
      var dropTail, dropped;
      dropTail, dropped, bySender', updates' :=
        ReinsertWhile(sinceGenesis, current, tail, currentNonce0, balance, bySender, updates, sender, whole, m, e);
      var increment := ChargeFees(dropTail, increment0);
      r := if increment.Failure? then Failure(increment.error) else Success((increment.value, dropped));
    }

    /** Takes the fees of all commands out of the increment, as long as it covers them. */
    static method ChargeFees(cmds: seq<Command>, increment0: U64) returns (r: Result<U64, CommandError>)
      ensures r == if TotalFees(cmds) > increment0 then Failure(InsufficientReplaceFee)
                   else Success(increment0 - TotalFees(cmds))
    {
      var increment: U64 := increment0;
      for i := 0 to |cmds|
        invariant increment == increment0 - TotalFees(cmds[..i])
      {
        TotalFeesSplit(cmds, i + 1);
        assert cmds[..i + 1] == cmds[..i] + [cmds[i]];
        TotalFeesConcat(cmds[..i], [cmds[i]]);
        if cmds[i].fee > increment {
          return Failure(InsufficientReplaceFee);
        }
        increment := increment - cmds[i].fee;
      }
      assert cmds[..|cmds|] == cmds;
      r := Success(increment);
    }

    /** Tries to put one command back behind the private copy of the queue. */
    method ReinsertFront(sinceGenesis: U32, current: U32, cmd: Command, currentNonce: U32, balance: U64,
                         bySender: Option<SenderQueue>, updates: seq<Update>,
                         ghost whole: seq<Command>, ghost m: nat, ghost e: nat, ghost p: nat,
                         ghost updates0: seq<Update>)
        returns (added: bool, bySender': Option<SenderQueue>, updates': seq<Update>)
      requires 0 < m <= p < |whole| < U32_SIZE && cmd == whole[p] && Unwrapped(cmd.sender, whole)
      requires FirstMisfit(Slots(slotTxEnd, sinceGenesis, current), whole, m, e, balance)
      requires Restored(whole, m, e, p, bySender, updates0, updates)
      ensures added ==> Restored(whole, m, e, p + 1, bySender', updates0, updates')
      ensures !added ==> p == e && bySender' == bySender && updates' == updates
      decreases 0, 3
    {
      var thisUpdates;
      added, bySender', thisUpdates :=
        TryReinsert(sinceGenesis, current, cmd, currentNonce, balance, bySender, whole, p);
      if !added {
        return false, bySender', updates;
      }
      AddAllSnoc(whole, m, p);
      assert updates0 + AddAll(whole[m..p]) + thisUpdates == updates0 + AddAll(whole[m..p + 1]);
      updates' := updates + thisUpdates;
    }

    /** Adds a gossiped command: the queue of its sender becomes what `Admit` says, or nothing changes. */
    method AddFromGossip(sinceGenesis: U32, current: U32, cmd: Command, currentNonce: U32, balance: U64)
        returns (r: Result<(Command, seq<Command>), CommandError>)
      requires Valid() && size < U32_SIZE
      requires NoCollision(AllCommands(allBySender), cmd)
      modifies this
      ensures Valid()
      ensures var o := Admit(Slots(slotTxEnd, sinceGenesis, current), cmd.sender, QueueOf(old(allBySender), cmd.sender),
                             cmd, currentNonce, balance);
              && (o.Rejected? ==> r == Failure(o.error) && unchanged(this))
              && (o.Admitted? ==>
                    && r == Success((cmd, o.dropped))
                    && cmd !in old(AllCommands(allBySender))
                    && TotalConsumed(o.queue) <= balance
                    && allBySender == WithQueue(old(allBySender), cmd.sender, o.queue)
                    && cmd in AllCommands(allBySender)
                    && AllCommands(allBySender) <= old(AllCommands(allBySender)) + {cmd})
    {
      var sender := cmd.sender;
      var bySender := if sender in allBySender then Some(allBySender[sender]) else None;
      var updates: seq<Update> := [];
      QueueWithinPool(allBySender, sender);
      r, bySender, updates :=
        AddFromGossipImpl(sinceGenesis, current, cmd, currentNonce, balance, bySender, updates);
      ghost var o := Admit(Slots(slotTxEnd, sinceGenesis, current), sender, QueueOf(allBySender, sender), cmd,
                           currentNonce, balance);
      MetFromNothing(o, cmd, r, bySender, updates);
      if r.Failure? {
        return;
      }
      CommitAdmission(cmd, bySender, updates, Slots(slotTxEnd, sinceGenesis, current), currentNonce, balance);
    }

    /** Installs an admission in the pool. */
    method CommitAdmission(cmd: Command, bySender: Option<SenderQueue>, updates: seq<Update>,
                           ghost at: Slots, ghost currentNonce: U32, ghost balance: U64)
      requires Valid() && size < U32_SIZE
      requires NoCollision(AllCommands(allBySender), cmd)
      requires var o := Admit(at, cmd.sender, QueueOf(allBySender, cmd.sender), cmd, currentNonce, balance);
               && o.Admitted? && TotalConsumed(o.queue) < U64_SIZE
               && bySender == StateOf(o.queue) && updates == o.log
      modifies this
      ensures Valid()
      ensures cmd !in old(AllCommands(allBySender))
      ensures bySender.Some? && TotalConsumed(bySender.value.queue) <= balance
      ensures allBySender == WithQueue(old(allBySender), cmd.sender, bySender.value.queue)
      ensures cmd in AllCommands(allBySender) && AllCommands(allBySender) <= old(AllCommands(allBySender)) + {cmd}
    {
      AdmissionCommits(allBySender, at, cmd, currentNonce, balance, bySender, updates);
      RegisterFresh(allByHash, AllCommands(allBySender), cmd);
      Commit(cmd.sender, bySender, updates, WithQueue(allBySender, cmd.sender, bySender.value.queue),
             AllCommands(allBySender) + {cmd}, allByHash[cmd.hash := cmd]);
    }

    // ----- Backtracking

    /** Puts a command back in front of its sender's queue. */
    method AddFromBacktrack(sinceGenesis: U32, current: U32, cmd: Command) returns (r: Result<(), CommandError>)
      requires Valid() && size < U32_SIZE
      requires NoCollision(AllCommands(allBySender), cmd)
      requires Backtracked(Slots(slotTxEnd, sinceGenesis, current), QueueOf(allBySender, cmd.sender), cmd).Success? ==>
                 TotalConsumed([cmd] + QueueOf(allBySender, cmd.sender)) < U64_SIZE
      modifies this
      ensures Valid()
      ensures var b := Backtracked(Slots(slotTxEnd, sinceGenesis, current), QueueOf(old(allBySender), cmd.sender), cmd);
              && (b.Failure? ==> r == Failure(b.error) && unchanged(this))
              && (b.Success? ==>
                    && r == Success(())
                    && cmd !in old(AllCommands(allBySender))
                    && allBySender == WithQueue(old(allBySender), cmd.sender, b.value))
    {
      if slotTxEnd.Some? && !(current < slotTxEnd.value) {
        return Failure(AfterSlotTxEnd);
      }
      var checked := CheckExpiry(sinceGenesis, cmd);
      if checked.Failure? {
        return Failure(checked.error);
      }
      var feePayer := cmd.sender;
      var consumed := CurrencyConsumed(cmd);
      if consumed.Failure? {
        return Failure(consumed.error);
      }
      if feePayer in allBySender && Succ(cmd.nonce) != allBySender[feePayer].queue[0].nonce {
        return Failure(BacktrackNonceMismatch);
      }
      PushFront(cmd, consumed.value, Slots(slotTxEnd, sinceGenesis, current));
      r := Success(());
    }

    /** The updates of `AddFromBacktrack` once the command has passed every check. */
    method PushFront(cmd: Command, consumed: U64, ghost at: Slots)
      requires Valid() && size < U32_SIZE && consumed == Consumed(cmd)
      requires NoCollision(AllCommands(allBySender), cmd)
      requires TotalConsumed([cmd] + QueueOf(allBySender, cmd.sender)) < U64_SIZE
      requires Backtracked(at, QueueOf(allBySender, cmd.sender), cmd).Success?
      modifies this
      ensures Valid()
      ensures cmd !in old(AllCommands(allBySender))
      ensures allBySender ==
              WithQueue(old(allBySender), cmd.sender, [cmd] + QueueOf(old(allBySender), cmd.sender))
    {
      BacktrackCommits(allBySender, at, cmd);
      RegisterFresh(allByHash, AllCommands(allBySender), cmd);
      var state, updates := FrontState(allBySender, cmd, consumed);
      Commit(cmd.sender, Some(state), updates,
             WithQueue(allBySender, cmd.sender, [cmd] + QueueOf(allBySender, cmd.sender)),
             AllCommands(allBySender) + {cmd}, allByHash[cmd.hash := cmd]);
    }

    /** The sender's entry and the index updates with the command in front. */
    static method FrontState(qs: Queues, cmd: Command, consumed: U64) returns (state: SenderQueue, updates: seq<Update>)
      requires cmd.sender in qs ==> ValidQueue(cmd.sender, qs[cmd.sender])
      requires consumed == Consumed(cmd) && consumed + TotalConsumed(QueueOf(qs, cmd.sender)) < U64_SIZE
      ensures state.queue == [cmd] + QueueOf(qs, cmd.sender) && state.reserved == TotalConsumed(state.queue)
      ensures updates == BacktrackLog(QueueOf(qs, cmd.sender), cmd)
    {
      ghost var q := QueueOf(qs, cmd.sender);
      assert ([cmd] + q)[1..] == q;
      if cmd.sender !in qs {
        state := SenderQueue([cmd], consumed);
        updates := [Add(cmd, cmd.feeRate, true)];
      } else {
        var SenderQueue(queue, reserved) := qs[cmd.sender];
        state := SenderQueue([cmd] + queue, reserved + consumed);
        updates := [RemoveFromApplicableByFee(queue[0].feeRate, queue[0]), Add(cmd, cmd.feeRate, true)];
      }
    }

    // ----- Expiry and eviction

    method Member(cmd: Command) returns (b: bool)
      requires Valid()
      ensures b <==> exists c | c in AllCommands(allBySender) :: c.hash == cmd.hash
    {
      b := cmd.hash in allByHash;
      if b {
        assert allByHash[cmd.hash] in AllCommands(allBySender);
      }
    }

    /** The commands whose expiry lies before the slot, in some order. */
    method ExpiredByGlobalSlot(slot: U32) returns (r: seq<Command>)
      requires Valid()
      ensures Elems(r) == ExpiredCommands(allBySender, slot)
    {
      r := ValuesBelow(transactionsWithExpiration, slot, Expiring(AllCommands(allBySender)));
    }

    /** Removes every expired command together with everything queued behind it. */
    method RemoveExpired(slot: U32) returns (r: Result<seq<Command>, CommandError>)
      requires Valid()
      modifies this
      ensures Valid() && r.Success?
      ensures forall s: AccountId :: QueueOf(allBySender, s) ==
                QueueOf(old(allBySender), s)[..FirstExpired(QueueOf(old(allBySender), s), slot)]
      ensures forall c | c in AllCommands(allBySender) :: c.validUntil >= slot
      ensures Accounts(old(allBySender), allBySender, r.value)
    {
      ghost var qs := allBySender;
      var expired := ExpiredByGlobalSlot(slot);
      var dropped := ExpireAll(expired, slot);
      CutAtExpiredDone(qs, allBySender, slot);
      r := Success(dropped);
    }

    /** The loop of `RemoveExpired`. */
    method ExpireAll(expired: seq<Command>, slot: U32) returns (dropped: seq<Command>)
      requires Valid() && Elems(expired) == ExpiredCommands(allBySender, slot)
      modifies this
      ensures Valid() && CutAtExpired(old(allBySender), allBySender, slot)
      ensures Accounts(old(allBySender), allBySender, dropped)
      ensures Elems(expired) !! AllCommands(allBySender)
    {
      ghost var qs, reg := allBySender, allByHash;
      dropped := [];
      for i := 0 to |expired|
        invariant Valid()
        invariant CutAtExpired(qs, allBySender, slot)
        invariant Accounts(qs, allBySender, dropped)
        invariant Elems(expired[..i]) !! AllCommands(allBySender)
      {
        assert expired[i] in Elems(expired);
        PrefixSnoc(expired, i);
        ElemsConcat(expired[..i], [expired[i]]);
        dropped := ExpireOne(expired[i], slot, dropped, qs, reg);
      }
      WholePrefix(expired);
    }

    /** One round of `RemoveExpired`: an earlier round may already have taken the command out. */
    method ExpireOne(cmd: Command, slot: U32, dropped: seq<Command>, ghost qs: Queues, ghost reg: map<Hash, Command>)
        returns (dropped': seq<Command>)
      requires Valid() && cmd in AllCommands(qs) && cmd.validUntil < slot && Registered(reg, AllCommands(qs))
      requires CutAtExpired(qs, allBySender, slot) && Accounts(qs, allBySender, dropped)
      modifies this
      ensures Valid()
      ensures CutAtExpired(qs, allBySender, slot) && Accounts(qs, allBySender, dropped')
      ensures cmd !in AllCommands(allBySender) && AllCommands(allBySender) <= old(AllCommands(allBySender))
    {
      var isMember := Member(cmd);
      if !isMember {
        return dropped;
      }
      ghost var now := allBySender;
      assert cmd in AllCommands(now);
      var removed, at := RemoveWithDependents(cmd);
      CutAtExpiredStep(qs, now, allBySender, slot, cmd, at);
      SuffixWithin(now, cmd.sender, at);
      AccountsStep(qs, now, allBySender, dropped, removed.value);
      dropped' := dropped + removed.value;
      assert removed.value[0] == cmd;
    }

    /** Drops the command with the lowest fee rate (then hash) and everything queued behind it. */
    method RemoveLowestFee() returns (r: Result<seq<Command>, CommandError>)
      requires Valid()
      modifies this
      ensures Valid() && r.Success?
      ensures old(size) == 0 ==> r.value == [] && unchanged(this)
      ensures old(size) > 0 ==>
                && r.value != []
                && IsLowest(r.value[0], old(AllCommands(allBySender)))
                && CutAt(old(allBySender), r.value[0], allBySender)
                && NoDuplicates(r.value)
                && Elems(r.value) <= old(AllCommands(allBySender))
                && AllCommands(allBySender) == old(AllCommands(allBySender)) - Elems(r.value)
    {
      var min := LowestIn(allByFee, AllCommands(allBySender));
      if min.None? {
        return Success([]);
      }
      ghost var i;
      r, i := RemoveWithDependents(min.value);
      SuffixWithin(old(allBySender), min.value.sender, i);
    }

    // ----- Revalidation against account states

    /** Drops commands from the end of the queue until the balance covers what is reserved. */
    static method DropUntilSufficientBalance(queue0: seq<Command>, reserved0: U64, balance: U64)
        returns (queue: seq<Command>, reserved: U64, dropped: seq<Command>)
      requires reserved0 == TotalConsumed(queue0)
      ensures queue == queue0[..AffordableLength(queue0, balance)]
      ensures reserved == TotalConsumed(queue)
      ensures dropped == Reversed(queue0[|queue|..])
    {
      queue, reserved, dropped := queue0, reserved0, [];
      while reserved > balance
        invariant queue <= queue0 && reserved == TotalConsumed(queue)
        invariant AffordableLength(queue, balance) == AffordableLength(queue0, balance)
        invariant dropped == Reversed(queue0[|queue|..])
        decreases |queue|
      {
        assert queue != [];
        var last := queue[|queue| - 1];
        var rest := queue[..|queue| - 1];
        assert queue == rest + [last];
        TotalConsumedConcat(rest, [last]);
        var consumed := CurrencyConsumed(last);
        assert consumed.Success?;
        assert queue0[|rest|..] == [last] + queue0[|queue|..];
        ReversedCons(last, queue0[|queue|..]);
        queue, dropped := rest, dropped + [last];
        reserved := reserved - consumed.value;
      }
    }

    /** Takes the currency of dropped commands out of what is reserved. */
    static method SubtractConsumed(cmds: seq<Command>, reserved0: U64) returns (reserved: U64)
      requires TotalConsumed(cmds) <= reserved0
      ensures reserved == reserved0 - TotalConsumed(cmds)
    {
      reserved := reserved0;
      for i := 0 to |cmds|
        invariant reserved == reserved0 - TotalConsumed(cmds[..i])
      {
        TotalConsumedSplit(cmds, i + 1);
        assert cmds[..i + 1] == cmds[..i] + [cmds[i]];
        TotalConsumedConcat(cmds[..i], [cmds[i]]);
        var consumed := CurrencyConsumed(cmds[i]);
        assert consumed.Success?;
        reserved := reserved - consumed.value;
      }
      assert cmds[..|cmds|] == cmds;
    }

    /** Makes the head of what is kept the applicable command of its sender. */
    method UpdateHead(firstCmd: Command, keepQueue: seq<Command>, keepingPrefix: bool, ghost x: Indexed)
      requires Indexes(x) && firstCmd in x.heads
      requires keepingPrefix && keepQueue != [] ==> keepQueue[0] == firstCmd
      modifies `applicableByFee
      ensures Indexes(x.(heads := x.heads - {firstCmd} + HeadOf(keepQueue)))
    {
      if keepQueue == [] {
        RemoveApplicable(firstCmd, firstCmd.feeRate, x);
        assert x.heads - {firstCmd} + {} == x.heads - {firstCmd};
      } else if keepingPrefix {
        assert x.heads - {firstCmd} + {firstCmd} == x.heads;
      } else {
        RemoveApplicable(firstCmd, firstCmd.feeRate, x);
        applicableByFee := MapSetInsert(applicableByFee, keepQueue[0].feeRate, keepQueue[0], FeeRateOf,
                                        x.heads - {firstCmd});
      }
    }

    /** Installs the kept part of a queue and takes the dropped commands out of every index. */
    method InstallKept(sender: AccountId, keepQueue: seq<Command>, reserved: U64, toDrop: seq<Command>,
                       keepingPrefix: bool)
      requires Valid() && sender in allBySender
      requires Chained(sender, keepQueue) && reserved == TotalConsumed(keepQueue)
      requires NoDuplicates(toDrop) && Elems(keepQueue) <= Elems(allBySender[sender].queue)
      requires Elems(toDrop) == Elems(allBySender[sender].queue) - Elems(keepQueue)
      requires keepingPrefix && keepQueue != [] ==> keepQueue[0] == allBySender[sender].queue[0]
      modifies this
      ensures Valid() && allBySender == WithQueue(old(allBySender), sender, keepQueue)
      ensures Elems(toDrop) <= old(AllCommands(allBySender))
      ensures AllCommands(allBySender) == old(AllCommands(allBySender)) - Elems(toDrop)
    {
      ghost var x := Contents(allBySender);
      var firstCmd := allBySender[sender].queue[0];
      KeptRebuilds(allBySender, sender, keepQueue, toDrop);
      UpdateHead(firstCmd, keepQueue, keepingPrefix, x);
      SetSender(sender, if keepQueue == [] then None else Some(SenderQueue(keepQueue, reserved)));
      UpdateRemoveAllByFeeAndHashAndExpiration(toDrop, x.(heads := x.heads - {firstCmd} + HeadOf(keepQueue)));
    }

    /** Revalidates one sender's queue against its account. */
    method RevalidateSender(sender: AccountId, account: Account) returns (toDrop: seq<Command>)
      requires Valid() && sender in allBySender
      modifies this
      ensures Valid()
      ensures TotalConsumed(Kept(old(allBySender)[sender].queue, account)) < U64_SIZE
      ensures allBySender == WithQueue(old(allBySender), sender, Kept(old(allBySender)[sender].queue, account))
      ensures NoDuplicates(toDrop) && Elems(toDrop) <= old(AllCommands(allBySender))
      ensures AllCommands(allBySender) == old(AllCommands(allBySender)) - Elems(toDrop)
    {
      var SenderQueue(queue, reserved) := allBySender[sender];
      var firstCmd := queue[0];
      ChainedDistinct(sender, queue);
      KeptMeaning(sender, queue, account);
      if !(account.canSend && account.canIncrementNonce) || account.nonce < firstCmd.nonce {
        toDrop := DropWholeQueue(sender);
        assert Kept(queue, account) == [];
      } else {
        toDrop := RevalidateNonces(sender, queue, reserved, account);
      }
    }

    method DropWholeQueue(sender: AccountId) returns (dropped: seq<Command>)
      requires Valid() && sender in allBySender
      modifies this
      ensures Valid() && allBySender == WithQueue(old(allBySender), sender, [])
      ensures NoDuplicates(dropped) && Elems(dropped) <= old(AllCommands(allBySender))
      ensures AllCommands(allBySender) == old(AllCommands(allBySender)) - Elems(dropped)
    {
      ghost var qs := allBySender;
      var firstCmd := allBySender[sender].queue[0];
      assert firstCmd in AllCommands(qs) by {
        QueueWithinPool(qs, sender);
        assert firstCmd in Elems(QueueOf(qs, sender));
      }
      var removed, i := RemoveWithDependents(firstCmd);
      ChainedDistinct(sender, qs[sender].queue);
      assert i == 0;
      SuffixWithin(qs, sender, 0);
      dropped := removed.value;
    }

    method RevalidateNonces(sender: AccountId, queue: seq<Command>, reserved: U64, account: Account)
        returns (toDrop: seq<Command>)
      requires Valid() && sender in allBySender && allBySender[sender] == SenderQueue(queue, reserved)
      requires !Abandoned(queue, account)
      modifies this
      ensures Valid()
      ensures TotalConsumed(Kept(queue, account)) < U64_SIZE
      ensures allBySender == WithQueue(old(allBySender), sender, Kept(queue, account))
      ensures NoDuplicates(toDrop) && Elems(toDrop) <= old(AllCommands(allBySender))
      ensures AllCommands(allBySender) == old(AllCommands(allBySender)) - Elems(toDrop)
    {
      var keepQueue, reserved', keepingPrefix;
      keepQueue, reserved', toDrop, keepingPrefix := SplitForAccount(sender, queue, reserved, account);
      KeptMeaning(sender, queue, account);
      InstallKept(sender, keepQueue, reserved', toDrop, keepingPrefix);
    }

    /** Splits a queue into what its account still supports and what it does not. */
    static method SplitForAccount(ghost sender: AccountId, queue: seq<Command>, reserved: U64, account: Account)
        returns (keepQueue: seq<Command>, reserved': U64, toDrop: seq<Command>, keepingPrefix: bool)
      requires ValidQueue(sender, SenderQueue(queue, reserved)) && !Abandoned(queue, account)
      ensures keepQueue == Kept(queue, account) && reserved' == TotalConsumed(keepQueue)
      ensures NoDuplicates(toDrop) && Elems(toDrop) == Elems(queue) - Elems(keepQueue)
      ensures Elems(keepQueue) <= Elems(queue)
      ensures keepingPrefix && keepQueue != [] ==> keepQueue[0] == queue[0]
    {
      var position := PositionOfNonce(queue, account.nonce);
      var i := if position.Some? then position.value else |queue|;
      var retainedForNonce, droppedForNonce := queue[i..], queue[..i];
      TotalConsumedSplit(queue, i);
      var reserved1 := SubtractConsumed(droppedForNonce, reserved);
      var droppedForBalance;
      keepQueue, reserved', droppedForBalance :=
        DropUntilSufficientBalance(retainedForNonce, reserved1, account.balance);
      AccountSplit(sender, queue, account);
      toDrop, keepingPrefix := droppedForNonce + droppedForBalance, droppedForNonce == [];
    }

    /**
     * Revalidates the checked senders of the pool. Success splits the pool into what the accounts
     * still support and exactly the returned commands; failure means an account is missing, and
     * leaves a consistent pool in which all senders but those of `left` are done.
     */
    method Revalidate(kind: RevalidateKind, getAccount: AccountId -> Option<Account>)
        returns (r: Result<seq<Command>, CommandError>, ghost left: set<AccountId>)
      requires Valid()
      modifies this
      ensures Valid()
      ensures r.Success? <==> forall s | s in old(allBySender) && Checked(kind, s) :: getAccount(s).Some?
      ensures PartlyRevalidated(old(allBySender), allBySender, left, kind, getAccount)
      ensures r.Failure? ==> r.error == AccountNotFound
      ensures r.Success? ==>
                && RevalidatedTo(old(allBySender), allBySender, kind, getAccount)
                && Accounts(old(allBySender), allBySender, r.value)
    {
      ghost var qs := allBySender;
      var dropped: seq<Command> := [];
      var senders := allBySender.Keys;
      while senders != {}
        invariant Valid() && senders <= qs.Keys
        invariant PartlyRevalidated(qs, allBySender, senders, kind, getAccount)
        invariant Accounts(qs, allBySender, dropped)
        decreases senders
      {
        var sender :| sender in senders;
        if Checked(kind, sender) && getAccount(sender).None? {
          return Failure(AccountNotFound), senders;
        }
        dropped := RevalidateNext(kind, getAccount, sender, dropped, qs, senders);
        senders := senders - {sender};
      }
      PartlyRevalidatedDone(qs, allBySender, kind, getAccount);
      r, left := Success(dropped), {};
    }

    /** One round of `Revalidate`, for a sender whose account is known or that is not checked. */
    method RevalidateNext(kind: RevalidateKind, getAccount: AccountId -> Option<Account>, sender: AccountId,
                          dropped: seq<Command>, ghost qs: Queues, ghost senders: set<AccountId>)
        returns (dropped': seq<Command>)
      requires Valid() && ValidQueues(qs) && sender in senders && sender in qs
      requires Checked(kind, sender) ==> getAccount(sender).Some?
      requires PartlyRevalidated(qs, allBySender, senders, kind, getAccount)
      requires Accounts(qs, allBySender, dropped)
      modifies this
      ensures Valid()
      ensures PartlyRevalidated(qs, allBySender, senders - {sender}, kind, getAccount)
      ensures Accounts(qs, allBySender, dropped')
    {
      if !Checked(kind, sender) {
        PartlyRevalidatedSkip(qs, allBySender, senders, sender, kind, getAccount);
        return dropped;
      }
      ghost var now := allBySender;
      UntouchedPresent(qs, now, senders, sender, kind, getAccount);
      var toDrop := RevalidateSender(sender, getAccount(sender).value);
      PartlyRevalidatedStep(qs, now, allBySender, senders, sender, kind, getAccount);
      AccountsStep(qs, now, allBySender, dropped, toDrop);
      dropped' := dropped + toDrop;
    }

    // ----- Commands for a block

    /** One round of both listings, on an index of the heads and the queues it belongs to. */
    static method PickNext(applicable: map<FeeRate, set<Command>>, queues: Queues)
        returns (txn: Command, applicable': map<FeeRate, set<Command>>, queues': Queues)
      requires Owned(queues) && applicable == GroupBy(FeeRateOf, Heads(queues)) && applicable != map[]
      ensures IsBest(txn, Heads(queues))
      ensures txn.sender in queues && queues' == Pop(queues, txn.sender)
      ensures Owned(queues') && applicable' == GroupBy(FeeRateOf, Heads(queues'))
    {
      ghost var heads := Heads(queues);
      txn := BestIn(applicable, heads);
      OwnHead(queues, txn);
      PopOwned(queues, txn.sender);
      applicable' := MapSetRemove(applicable, txn.feeRate, txn, FeeRateOf, heads);
      var sender := txn.sender;
      var SenderQueue(senderQueue, amount) := queues[sender];
      var headTxn := senderQueue[0];
      var rest := senderQueue[1..];
      assert txn.hash == headTxn.hash;
      if rest == [] {
        queues' := queues - {sender};
        assert heads - {txn} + {} == heads - {txn};
      } else {
        queues' := queues[sender := SenderQueue(rest, amount)];
        var nextTxn := rest[0];
        applicable' := MapSetInsert(applicable', nextTxn.feeRate, nextTxn, FeeRateOf, heads - {txn});
      }
    }

    /** Lists the commands a block would take, leaving the pool as it is. */
    method ListIncludableTransactions(limit: nat) returns (txns: seq<Command>, ghost states: seq<Queues>)
      requires Valid()
      ensures Exhausted(states, txns, limit) && states[0] == allBySender
      ensures |txns| == if limit <= size then limit else size
    {
      var applicable, queues := applicableByFee, allBySender;
      ValidOwned(queues);
      txns, states := [], [queues];
      while applicable != map[] && |txns| < limit
        invariant Owned(queues) && applicable == GroupBy(FeeRateOf, Heads(queues))
        invariant Picks(states, txns) && states[0] == allBySender && states[|txns|] == queues
        invariant |txns| <= limit
        decreases limit - |txns|
      {
        var txn;
        txn, applicable, queues := PickNext(applicable, queues);
        PicksSnoc(states, txns, txn, queues);
        txns, states := txns + [txn], states + [queues];
      }
      NoHeadsNoQueues(applicable, queues);
      SelectionLength(states, txns, limit);
    }

    /** Takes the same commands out of the queues and the index of heads, and out of nothing else. */
    method Transactions(limit: nat) returns (txns: seq<Command>, ghost states: seq<Queues>)
      requires Valid()
      modifies `applicableByFee, `allBySender
      ensures Exhausted(states, txns, limit) && states[0] == old(allBySender)
      ensures allBySender == states[|txns|] && applicableByFee == GroupBy(FeeRateOf, Heads(allBySender))
      ensures |txns| == if limit <= size then limit else size
    {
      ValidOwned(allBySender);
      txns, states := [], [allBySender];
      while true
        invariant Owned(allBySender) && applicableByFee == GroupBy(FeeRateOf, Heads(allBySender))
        invariant Picks(states, txns) && states[0] == old(allBySender) && states[|txns|] == allBySender
        invariant |txns| <= limit
        decreases limit - |txns|
      {
        if applicableByFee == map[] {
          NoHeadsNoQueues(applicableByFee, allBySender);
          assert allBySender == map[];
          break;
        }
        if |txns| >= limit {
          break;
        }
        var txn;
        txn, applicableByFee, allBySender := PickNext(applicableByFee, allBySender);
        PicksSnoc(states, txns, txn, allBySender);
        txns, states := txns + [txn], states + [allBySender];
      }
      SelectionLength(states, txns, limit);
    }
  }

  /** The copying listing and the draining one hand out the same commands in the same order. */
  method ListTwice(pool: IndexedPool, limit: nat) returns (copied: seq<Command>, drained: seq<Command>)
    requires pool.Valid()
    modifies pool
    ensures copied == drained
  {
    ghost var qs, reg, first, second := pool.allBySender, pool.allByHash, [], [];
    copied, first := pool.ListIncludableTransactions(limit);
    drained, second := pool.Transactions(limit);
    SelectionUnique(first, copied, second, drained, limit, reg);
  }

  /** An empty index of heads means there is no queue. */
  lemma NoHeadsNoQueues(m: map<FeeRate, set<Command>>, qs: Queues)
    requires Owned(qs) && m == GroupBy(FeeRateOf, Heads(qs))
    ensures m == map[] ==> qs == map[]
  {
    GroupByIsGrouping(FeeRateOf, Heads(qs));
    if qs != map[] {
      var s :| s in qs;
      assert qs[s].queue[0] in Heads(qs);
      assert FeeRateOf(qs[s].queue[0]) in m;
    }
  }

  /** The senders of `left` are as they were, all others are revalidated. */
  ghost predicate PartlyRevalidated(qs: Queues, now: Queues, left: set<AccountId>, kind: RevalidateKind,
                                    getAccount: AccountId -> Option<Account>)
  {
    && now.Keys <= qs.Keys
    && (forall s | s in qs ::
          QueueOf(now, s) == if s in left then qs[s].queue else Revalidated(qs[s].queue, s, kind, getAccount))
    && (forall s | s in qs && s !in left :: Checked(kind, s) ==> getAccount(s).Some?)
  }

  lemma PartlyRevalidatedDone(qs: Queues, now: Queues, kind: RevalidateKind,
                              getAccount: AccountId -> Option<Account>)
    requires ValidQueues(qs) && PartlyRevalidated(qs, now, {}, kind, getAccount)
    ensures forall s: AccountId :: QueueOf(now, s) == Revalidated(QueueOf(qs, s), s, kind, getAccount)
  {
  }

  lemma UntouchedPresent(qs: Queues, now: Queues, left: set<AccountId>, s: AccountId, kind: RevalidateKind,
                         getAccount: AccountId -> Option<Account>)
    requires ValidQueues(qs) && PartlyRevalidated(qs, now, left, kind, getAccount) && s in left && s in qs
    ensures s in now && now[s].queue == qs[s].queue
  {
  }

  lemma PartlyRevalidatedStep(qs: Queues, now: Queues, next: Queues, left: set<AccountId>, s: AccountId,
                              kind: RevalidateKind, getAccount: AccountId -> Option<Account>)
    requires PartlyRevalidated(qs, now, left, kind, getAccount) && s in left && s in qs
    requires Checked(kind, s) && getAccount(s).Some?
    requires TotalConsumed(Kept(qs[s].queue, getAccount(s).value)) < U64_SIZE
    requires next == WithQueue(now, s, Kept(qs[s].queue, getAccount(s).value))
    ensures PartlyRevalidated(qs, next, left - {s}, kind, getAccount)
  {
  }

  lemma PartlyRevalidatedSkip(qs: Queues, now: Queues, left: set<AccountId>, s: AccountId, kind: RevalidateKind,
                              getAccount: AccountId -> Option<Account>)
    requires PartlyRevalidated(qs, now, left, kind, getAccount) && s in left && !Checked(kind, s)
    ensures PartlyRevalidated(qs, now, left - {s}, kind, getAccount)
  {
  }

  /** Contents of the pool whose sender keeps only `keep` of its queue. */
  lemma KeptRebuilds(qs: Queues, s: AccountId, keep: seq<Command>, toDrop: seq<Command>)
    requires ValidQueues(qs) && s in qs && Chained(s, keep) && TotalConsumed(keep) < U64_SIZE
    requires Elems(keep) <= Elems(qs[s].queue) && Elems(toDrop) == Elems(qs[s].queue) - Elems(keep)
    ensures var qs' := WithQueue(qs, s, keep);
            && ValidQueues(qs')
            && Contents(qs') == Indexed(AllCommands(qs) - Elems(toDrop), Heads(qs) - {qs[s].queue[0]} + HeadOf(keep))
            && Elems(toDrop) <= AllCommands(qs)
            && qs[s].queue[0] in Heads(qs)
  {
    assert ValidQueue(s, qs[s]);
    WithQueueCommands(qs, s, keep);
    WithQueueHeads(qs, s, keep);
    QueueWithinPool(qs, s);
    HeadOfOwnQueue(qs, qs[s].queue[0]);
    var q := qs[s].queue;
    assert AllCommands(qs) - Elems(q) + Elems(keep) == AllCommands(qs) - Elems(toDrop);
  }

  /** Everything `Commit` needs to install an admission. */
  lemma AdmissionCommits(qs: Queues, at: Slots, c: Command, accountNonce: U32, balance: U64,
                         state: Option<SenderQueue>, updates: seq<Update>)
    requires ValidQueues(qs) && |AllCommands(qs)| < U32_SIZE
    requires var o := Admit(at, c.sender, QueueOf(qs, c.sender), c, accountNonce, balance);
             && o.Admitted? && TotalConsumed(o.queue) < U64_SIZE && state == StateOf(o.queue) && updates == o.log
    ensures state.Some? && TotalConsumed(state.value.queue) <= balance && c !in AllCommands(qs)
    ensures var qs' := WithQueue(qs, c.sender, state.value.queue);
            && qs' == qs[c.sender := state.value] && ValidQueues(qs')
            && c in AllCommands(qs') && AllCommands(qs') <= AllCommands(qs) + {c}
            && Replayable(updates, Contents(qs), AllCommands(qs) + {c})
            && Replay(updates, Contents(qs)) == Contents(qs')
  {
    AdmissionRebuilds(qs, at, c, accountNonce, balance);
  }

  /** Everything `Commit` needs to install a backtracked command. */
  lemma BacktrackCommits(qs: Queues, at: Slots, c: Command)
    requires ValidQueues(qs) && |AllCommands(qs)| < U32_SIZE
    requires Backtracked(at, QueueOf(qs, c.sender), c).Success?
    requires TotalConsumed([c] + QueueOf(qs, c.sender)) < U64_SIZE
    ensures c !in AllCommands(qs)
    ensures var q := QueueOf(qs, c.sender);
            var qs' := WithQueue(qs, c.sender, [c] + q);
            && TotalConsumed([c] + q) == Consumed(c) + TotalConsumed(q)
            && qs' == qs[c.sender := SenderQueue([c] + q, TotalConsumed([c] + q))] && ValidQueues(qs')
            && Replayable(BacktrackLog(q, c), Contents(qs), AllCommands(qs) + {c})
            && Replay(BacktrackLog(q, c), Contents(qs)) == Contents(qs')
  {
    var q := QueueOf(qs, c.sender);
    BacktrackRebuilds(qs, at, c);
    TotalConsumedConcat([c], q);
    ReplayBacktrack(q, c, Contents(qs), AllCommands(qs) + {c});
  }

  /** The suffix of a queue that a removal takes out: pool commands, each once. */
  lemma SuffixWithin(qs: Queues, s: AccountId, i: nat)
    requires ValidQueues(qs) && s in qs && i < |qs[s].queue|
    ensures Elems(qs[s].queue[i..]) <= AllCommands(qs)
    ensures NoDuplicates(qs[s].queue[i..])
  {
    assert ValidQueue(s, qs[s]);
    ChainedDistinct(s, qs[s].queue);
    QueueWithinPool(qs, s);
    assert Elems(qs[s].queue[i..]) <= Elems(qs[s].queue);
  }

  /** The commands in the buckets of `m` below the slot. */
  method ValuesBelow(m: map<U32, set<Command>>, slot: U32, ghost cs: set<Command>) returns (r: seq<Command>)
    requires m == GroupBy(ValidUntilOf, cs)
    ensures Elems(r) == set c | c in cs && c.validUntil < slot
  {
    GroupByIsGrouping(ValidUntilOf, cs);
    r := [];
    var slots := m.Keys;
    while slots != {}
      invariant slots <= m.Keys
      invariant forall c | c in r :: c in cs && ValidUntilOf(c) < slot
      invariant forall c | c in cs && ValidUntilOf(c) < slot :: ValidUntilOf(c) in slots || c in r
      decreases |slots|
    {
      var k :| k in slots;
      if k < slot {
        var bucket := SetToSeq(m[k]);
        forall c ensures c in bucket <==> c in m[k] {
          assert c in Elems(bucket) <==> c in bucket;
        }
        r := r + bucket;
      }
      slots := slots - {k};
    }
  }

  /** The command with the lowest fee rate, and among those the lowest hash. */
  method LowestIn(m: map<FeeRate, set<Command>>, ghost cs: set<Command>) returns (r: Option<Command>)
    requires m == GroupBy(FeeRateOf, cs)
    ensures r.None? ==> cs == {}
    ensures r.Some? ==> IsLowest(r.value, cs)
  {
    GroupByIsGrouping(FeeRateOf, cs);
    if m.Keys == {} {
      assert forall c | c in cs :: FeeRateOf(c) in m.Keys;
      return None;
    }
    var min := MinRate(m.Keys);
    var c := MinHash(m[min]);
    forall d | d in cs ensures c.feeRate.q < d.feeRate.q || (c.feeRate == d.feeRate && c.hash <= d.hash) {
      assert FeeRateOf(d) in m.Keys && d in m[FeeRateOf(d)];
    }
    r := Some(c);
  }

  /** The head with the highest fee rate, and among those the lowest hash. */
  method BestIn(m: map<FeeRate, set<Command>>, ghost cs: set<Command>) returns (c: Command)
    requires m == GroupBy(FeeRateOf, cs) && m != map[]
    ensures IsBest(c, cs)
  {
    GroupByIsGrouping(FeeRateOf, cs);
    assert m.Keys != {};
    var max := MaxRate(m.Keys);
    c := MinHash(m[max]);
    forall d | d in cs ensures d.feeRate.q < c.feeRate.q || (d.feeRate.q == c.feeRate.q && c.hash <= d.hash) {
      assert FeeRateOf(d) in m.Keys && d in m[FeeRateOf(d)];
    }
  }

  method MaxRate(rates: set<FeeRate>) returns (r: FeeRate)
    requires rates != {}
    ensures r in rates && forall x | x in rates :: x.q <= r.q
  {
    r :| r in rates;
    var rest := rates - {r};
    while rest != {}
      invariant rest <= rates && r in rates
      invariant forall x | x in rates && x !in rest :: x.q <= r.q
      decreases |rest|
    {
      var x :| x in rest;
      if r.q < x.q {
        r := x;
      }
      rest := rest - {x};
    }
  }

  method MinRate(rates: set<FeeRate>) returns (r: FeeRate)
    requires rates != {}
    ensures r in rates && forall x | x in rates :: r.q <= x.q
  {
    r :| r in rates;
    var rest := rates - {r};
    while rest != {}
      invariant rest <= rates && r in rates
      invariant forall x | x in rates && x !in rest :: r.q <= x.q
      decreases |rest|
    {
      var x :| x in rest;
      if x.q < r.q {
        r := x;
      }
      rest := rest - {x};
    }
  }

  method MinHash(cs: set<Command>) returns (r: Command)
    requires cs != {}
    ensures r in cs && forall c | c in cs :: r.hash <= c.hash
  {
    r :| r in cs;
    var rest := cs - {r};
    while rest != {}
      invariant rest <= cs && r in cs
      invariant forall c | c in cs - rest :: r.hash <= c.hash
      decreases |rest|
    {
      var c :| c in rest;
      if c.hash < r.hash {
        r := c;
      }
      rest := rest - {c};
    }
  }

  method SetToSeq<T(==)>(s: set<T>) returns (r: seq<T>)
    ensures Elems(r) == s && NoDuplicates(r)
  {
    r := [];
    var rest := s;
    while rest != {}
      invariant rest <= s && Elems(r) == s - rest && NoDuplicates(r)
      decreases |rest|
    {
      var x :| x in rest;
      assert x !in Elems(r);
      ElemsConcat(r, [x]);
      r := r + [x];
      rest := rest - {x};
    }
  }
}
