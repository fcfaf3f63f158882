/** What admitting one gossiped command does to its sender's queue, stated without recursion. */
module Admission {
  import opened Prelude
  import opened Commands
  import opened SenderQueues

  /** The slots an admission is judged at; `txEnd` is the configured end of transactions. */
  datatype Slots = Slots(txEnd: Option<U32>, sinceGenesis: U32, current: U32)

  /** Entries of the deferred log. */
  datatype Update =
    | Add(command: Command, feePerWu: FeeRate, addToApplicableByFee: bool)
    | RemoveAllByFeeAndHashAndExpiration(commands: seq<Command>)
    | RemoveFromApplicableByFee(feePerWu: FeeRate, command: Command)

  datatype Outcome =
    | Rejected(error: CommandError)
    | Admitted(queue: seq<Command>, dropped: seq<Command>, log: seq<Update>)

  predicate PastTxEnd(at: Slots) {
    at.txEnd.Some? && at.current >= at.txEnd.value
  }

  /** Checks that look at the command alone. */
  function Gate(at: Slots, c: Command): Option<CommandError> {
    if PastTxEnd(at) then Some(AfterSlotTxEnd)
    else if c.validUntil < at.sinceGenesis then Some(Expired)
    else if CurrencyConsumed(c).Failure? then Some(Overflow)
    else if c.feeToken != DEFAULT_TOKEN then Some(UnwantedFeeToken)
    else None
  }

  /** Checks that look at the currency reserved by the queue in front of the command. */
  function Unaffordable(q: seq<Command>, c: Command, balance: U64): Option<CommandError> {
    if TotalConsumed(q) + Consumed(c) >= U64_SIZE then Some(Overflow)
    else if TotalConsumed(q) + Consumed(c) > balance then Some(InsufficientFunds)
    else None
  }

  predicate Appendable(at: Slots, q: seq<Command>, c: Command, balance: U64) {
    Gate(at, c).None? && Unaffordable(q, c, balance).None?
  }

  /** How many commands of `tail` can be put back behind `kept` before the first failure. */
  function Reinserted(at: Slots, kept: seq<Command>, tail: seq<Command>, balance: U64): (k: nat)
    ensures k <= |tail|
    decreases |tail|
  {
    if tail == [] || !Appendable(at, kept, tail[0], balance) then 0
    else 1 + Reinserted(at, kept + [tail[0]], tail[1..], balance)
  }

  function AddAll(cs: seq<Command>): seq<Update> {
    seq(|cs|, j requires 0 <= j < |cs| => Add(cs[j], cs[j].feeRate, false))
  }

  function RemovalLog(q: seq<Command>, i: nat): seq<Update>
    requires i < |q|
  {
    [RemoveAllByFeeAndHashAndExpiration(q[i..])] +
    if i == 0 then [RemoveFromApplicableByFee(q[0].feeRate, q[0])] else []
  }

  /** How many commands behind position `i` survive the replacement of `q[i]` by `c`. */
  function Survivors(at: Slots, q: seq<Command>, i: nat, c: Command, balance: U64): (k: nat)
    requires i < |q|
    ensures i + 1 + k <= |q|
  {
    Reinserted(at, q[..i] + [c], q[i + 1..], balance)
  }

  /** Commands that leave when `q[i]` is replaced and `k` commands behind it survive. */
  function Evicted(q: seq<Command>, i: nat, k: nat): seq<Command>
    requires i + 1 + k <= |q|
  {
    [q[i]] + q[i + 1 + k..]
  }

  function Spliced(q: seq<Command>, i: nat, c: Command, k: nat): seq<Command>
    requires i + 1 + k <= |q|
  {
    q[..i] + [c] + q[i + 1..i + 1 + k]
  }

  /** The evicted commands a replacement reports: the first that could not be put back is missing. */
  function Reported(q: seq<Command>, i: nat, k: nat): seq<Command>
    requires i + 1 + k <= |q|
  {
    [q[i]] + if i + 1 + k == |q| then [] else q[i + 2 + k..]
  }

  function ReplacementLog(q: seq<Command>, i: nat, c: Command, k: nat): seq<Update>
    requires i + 1 + k <= |q|
  {
    RemovalLog(q, i) + [Add(c, c.feeRate, i == 0)] + AddAll(q[i + 1..i + 1 + k])
  }

  /** Outcome of putting `c` in place of the `i`-th queued command. */
  function Replacement(at: Slots, q: seq<Command>, i: nat, c: Command, balance: U64): Outcome
    requires i < |q|
  {
    if c.fee < q[i].fee then Rejected(InsufficientReplaceFee)
    else if Unaffordable(q[..i], c, balance).Some? then Rejected(Unaffordable(q[..i], c, balance).value)
    else
      var k := Survivors(at, q, i, c, balance);
      if c.fee < TotalFees(Evicted(q, i, k)) + REPLACE_FEE then Rejected(InsufficientReplaceFee)
      else Admitted(Spliced(q, i, c, k), Reported(q, i, k), ReplacementLog(q, i, c, k))
  }

  /** The command takes the place of a queued one rather than starting or extending the queue. */
  predicate Replaces(q: seq<Command>, c: Command, accountNonce: U32) {
    && q != []
    && c.nonce != Succ(q[|q| - 1].nonce)
    && q[0].nonce == accountNonce
    && q[0].nonce <= c.nonce <= Succ(q[|q| - 1].nonce)
  }

  /** The commands of one sender with nonces that do not wrap. */
  ghost predicate Unwrapped(s: AccountId, q: seq<Command>) {
    && |q| <= U32_SIZE
    && (forall j | 0 <= j < |q| :: q[j].sender == s && q[j].nonce == q[0].nonce + j)
  }

  lemma UnwrappedChained(s: AccountId, q: seq<Command>)
    requires Unwrapped(s, q)
    ensures Chained(s, q)
  {
  }

  /** In a chained queue the replaced command carries the nonce of the new one. */
  lemma ReplacedPosition(s: AccountId, q: seq<Command>, c: Command, accountNonce: U32)
    requires Chained(s, q) && Replaces(q, c, accountNonce)
    ensures 0 <= c.nonce - q[0].nonce < |q|
    ensures q[c.nonce - q[0].nonce].nonce == c.nonce
    ensures Unwrapped(s, q)
  {
  }

  /** `add_from_gossip_exn_impl` on the queue of the command's sender. */
  ghost function Admit(at: Slots, s: AccountId, q: seq<Command>, c: Command, accountNonce: U32, balance: U64): Outcome
    requires Chained(s, q)
  {
    if Gate(at, c).Some? then Rejected(Gate(at, c).value)
    else if q == [] then
      if accountNonce != c.nonce then Rejected(InvalidNonce)
      else if Unaffordable([], c, balance).Some? then Rejected(Unaffordable([], c, balance).value)
      else Admitted([c], [], [Add(c, c.feeRate, true)])
    else if c.nonce == Succ(q[|q| - 1].nonce) then
      if Unaffordable(q, c, balance).Some? then Rejected(Unaffordable(q, c, balance).value)
      else Admitted(q + [c], [], [Add(c, c.feeRate, false)])
    else if !Replaces(q, c, accountNonce) then Rejected(InvalidNonce)
    else
      ReplacedPosition(s, q, c, accountNonce);
      Replacement(at, q, c.nonce - q[0].nonce, c, balance)
  }

  // ----- What the outcome means for the queue

  /** `Reinserted` is the longest run of the tail that fits, and the next command does not. */
  lemma {:induction false} ReinsertedIsLongest(at: Slots, kept: seq<Command>, tail: seq<Command>, balance: U64)
    ensures var k := Reinserted(at, kept, tail, balance);
            && (forall j | 0 <= j < k :: Gate(at, tail[j]).None?)
            && (forall j | 0 < j <= k :: TotalConsumed(kept + tail[..j]) <= balance)
            && (k < |tail| ==> Gate(at, tail[k]).Some? || TotalConsumed(kept + tail[..k + 1]) > balance)
    decreases |tail|
  {
    if tail != [] {
      TotalConsumedConcat(kept, [tail[0]]);
      assert tail[..1] == [tail[0]];
      if Appendable(at, kept, tail[0], balance) {
        var kept', tail' := kept + [tail[0]], tail[1..];
        ReinsertedIsLongest(at, kept', tail', balance);
        var k := Reinserted(at, kept, tail, balance);
        assert k == 1 + Reinserted(at, kept', tail', balance);
        forall j | 1 < j <= |tail| ensures kept' + tail'[..j - 1] == kept + tail[..j] {
        }
        forall j | 0 < j <= k ensures TotalConsumed(kept + tail[..j]) <= balance {
          assert j > 1 ==> kept' + tail'[..j - 1] == kept + tail[..j];
        }
        forall j | 0 <= j < k ensures Gate(at, tail[j]).None? {
          assert j > 0 ==> tail[j] == tail'[j - 1];
        }
        if k < |tail| {
          assert kept' + tail'[..k] == kept + tail[..k + 1];
        }
      }
    }
  }

  lemma SplicedChain(s: AccountId, q: seq<Command>, i: nat, c: Command, k: nat)
    requires Chained(s, q) && i + 1 + k <= |q| && c.sender == s && c.nonce == q[i].nonce
    ensures Chained(s, Spliced(q, i, c, k))
  {
  }

  lemma SplicedAffordable(at: Slots, q: seq<Command>, i: nat, c: Command, balance: U64)
    requires i < |q| && Unaffordable(q[..i], c, balance).None?
    ensures TotalConsumed(Spliced(q, i, c, Survivors(at, q, i, c, balance))) <= balance
  {
    var kept, tail := q[..i] + [c], q[i + 1..];
    var k := Survivors(at, q, i, c, balance);
    ReinsertedIsLongest(at, kept, tail, balance);
    TotalConsumedConcat(q[..i], [c]);
    SliceOfDrop(q, i + 1, k);
    assert k == 0 ==> Spliced(q, i, c, k) == kept;
  }

  lemma ExtendedQueue(s: AccountId, q: seq<Command>, c: Command)
    requires Chained(s, q) && |q| < U32_SIZE && c.sender == s
    requires q != [] ==> c.nonce == Succ(q[|q| - 1].nonce)
    ensures Chained(s, q + [c])
    ensures TotalConsumed(q + [c]) == TotalConsumed(q) + Consumed(c)
    ensures q == [] ==> q + [c] == [c]
  {
    ChainedSnoc(s, q, c);
    TotalConsumedConcat(q, [c]);
  }

  /** An admitted queue is again a chain, and the balance covers all of it. */
  lemma AdmittedQueue(at: Slots, s: AccountId, q: seq<Command>, c: Command, accountNonce: U32, balance: U64)
    requires Chained(s, q) && |q| < U32_SIZE && c.sender == s
    requires Admit(at, s, q, c, accountNonce, balance).Admitted?
    ensures var q' := Admit(at, s, q, c, accountNonce, balance).queue;
            && q' != []
            && c in q'
            && Chained(s, q')
            && TotalConsumed(q') <= balance
  {
    if !Replaces(q, c, accountNonce) {
      ExtendedQueue(s, q, c);
    } else {
      ReplacedPosition(s, q, c, accountNonce);
      var i := c.nonce - q[0].nonce;
      SplicedChain(s, q, i, c, Survivors(at, q, i, c, balance));
      SplicedAffordable(at, q, i, c, balance);
    }
  }

  /** An admission brings in no command but the admitted one. */
  lemma {:induction false} AdmittedElems(at: Slots, s: AccountId, q: seq<Command>, c: Command, accountNonce: U32,
                                         balance: U64)
    requires Chained(s, q)
    requires Admit(at, s, q, c, accountNonce, balance).Admitted?
    ensures var q' := Admit(at, s, q, c, accountNonce, balance).queue;
            c in q' && Elems(q') <= Elems(q) + {c}
  {
    if Replaces(q, c, accountNonce) {
      ReplacedPosition(s, q, c, accountNonce);
      var i := c.nonce - q[0].nonce;
      ReplacedIsSpliced(at, s, q, c, accountNonce, balance, i);
      SplicedWithin(q, i, c, Survivors(at, q, i, c, balance));
    } else {
      AdmittedIsExtended(at, s, q, c, accountNonce, balance);
      ExtendedWithin(q, c);
    }
  }

  lemma {:induction false} ReplacedIsSpliced(at: Slots, s: AccountId, q: seq<Command>, c: Command, accountNonce: U32,
                                             balance: U64, i: nat)
    requires Chained(s, q) && Replaces(q, c, accountNonce) && i == c.nonce - q[0].nonce && i < |q|
    requires Admit(at, s, q, c, accountNonce, balance).Admitted?
    ensures Admit(at, s, q, c, accountNonce, balance).queue == Spliced(q, i, c, Survivors(at, q, i, c, balance))
  {
  }

  lemma {:induction false} AdmittedIsExtended(at: Slots, s: AccountId, q: seq<Command>, c: Command, accountNonce: U32,
                                              balance: U64)
    requires Chained(s, q) && !Replaces(q, c, accountNonce) && Admit(at, s, q, c, accountNonce, balance).Admitted?
    ensures Admit(at, s, q, c, accountNonce, balance).queue == q + [c]
  {
  }

  lemma ExtendedWithin(q: seq<Command>, c: Command)
    ensures c in q + [c] && Elems(q + [c]) <= Elems(q) + {c}
  {
  }

  lemma SplicedWithin(q: seq<Command>, i: nat, c: Command, k: nat)
    requires i + 1 + k <= |q|
    ensures c in Spliced(q, i, c, k) && Elems(Spliced(q, i, c, k)) <= Elems(q) + {c}
  {
  }

  /** Splicing trades the fees of the evicted commands for the fee of the new one. */
  lemma SplicedFees(q: seq<Command>, i: nat, c: Command, k: nat)
    requires i + 1 + k <= |q|
    ensures TotalFees(Spliced(q, i, c, k)) + TotalFees(Evicted(q, i, k)) == TotalFees(q) + c.fee
  {
    var tail := q[i + 1..];
    FeesAround(q, i);
    TotalFeesSplit(tail, k);
    assert tail[..k] == q[i + 1..i + 1 + k] && tail[k..] == q[i + 1 + k..];
    TotalFeesConcat([q[i]], tail[k..]);
    TotalFeesConcat(q[..i] + [c], tail[..k]);
    TotalFeesConcat(q[..i], [c]);
  }

  lemma FeesAround(q: seq<Command>, i: nat)
    requires i < |q|
    ensures TotalFees(q) == TotalFees(q[..i]) + q[i].fee + TotalFees(q[i + 1..])
  {
    TotalFeesSplit(q, i);
    assert q[i..][1..] == q[i + 1..];
  }

  /** A spliced queue and its evicted commands together are the old queue and the new command. */
  lemma SplicedElems(q: seq<Command>, i: nat, c: Command, k: nat)
    requires i + 1 + k <= |q| && NoDuplicates(q) && c !in q
    ensures Elems(q) - Elems(Spliced(q, i, c, k)) == Elems(Evicted(q, i, k))
    ensures Elems(Spliced(q, i, c, k)) == Elems(q) - Elems(Evicted(q, i, k)) + {c}
  {
  }

  /**
   * A successful replacement at `i` keeps the old prefix, puts the new command in and keeps the
   * survivors. Its fee covers the fees of everything it evicts plus the increment, so the fees in
   * the queue strictly rise. The report is the evicted commands without the first that could not
   * be put back.
   */
  lemma ReplacementPays(at: Slots, s: AccountId, q: seq<Command>, c: Command, accountNonce: U32, balance: U64)
      returns (i: nat, k: nat)
    requires Chained(s, q) && Replaces(q, c, accountNonce)
    requires Admit(at, s, q, c, accountNonce, balance).Admitted?
    ensures i + 1 + k <= |q| && q[i].nonce == c.nonce
    ensures k == Survivors(at, q, i, c, balance)
    ensures var o := Admit(at, s, q, c, accountNonce, balance);
            && o.queue == Spliced(q, i, c, k)
            && o.dropped == Reported(q, i, k)
            && o.log == ReplacementLog(q, i, c, k)
            && c.fee >= TotalFees(Evicted(q, i, k)) + REPLACE_FEE
            && TotalFees(o.queue) >= TotalFees(q) + REPLACE_FEE
  {
    ReplacedPosition(s, q, c, accountNonce);
    i := c.nonce - q[0].nonce;
    k := Survivors(at, q, i, c, balance);
    SplicedFees(q, i, c, k);
  }

  lemma EvictedFees(q: seq<Command>, i: nat, k: nat)
    requires i + 1 + k <= |q|
    ensures TotalFees(Evicted(q, i, k)) >= q[i].fee
  {
  }

  lemma QueuedDoesNotExtend(s: AccountId, q: seq<Command>, j: nat)
    requires Chained(s, q) && j < |q| < U32_SIZE
    ensures q[j].nonce != Succ(q[|q| - 1].nonce)
  {
  }

  /** A queued command is never admitted a second time: it would have to outbid itself. */
  lemma QueuedIsRejected(at: Slots, s: AccountId, q: seq<Command>, c: Command, accountNonce: U32, balance: U64)
    requires Chained(s, q) && |q| < U32_SIZE && c in q
    ensures Admit(at, s, q, c, accountNonce, balance).Rejected?
  {
    var j :| 0 <= j < |q| && q[j] == c;
    QueuedDoesNotExtend(s, q, j);
    if Replaces(q, c, accountNonce) {
      ReplacedPosition(s, q, c, accountNonce);
      var i := c.nonce - q[0].nonce;
      assert i == j;
      EvictedFees(q, i, Survivors(at, q, i, c, balance));
    }
  }

  // ----- Why the replacement recursion stops

  /** Queued commands whose nonce is at or above `n`. */
  ghost function AtOrAbove(q: seq<Command>, n: U32): nat {
    if q == [] then 0 else (if q[0].nonce >= n then 1 else 0) + AtOrAbove(q[1..], n)
  }

  lemma {:induction false} NoneAtOrAbove(q: seq<Command>, n: U32)
    requires forall j | 0 <= j < |q| :: q[j].nonce < n
    ensures AtOrAbove(q, n) == 0
  {
    if q != [] {
      NoneAtOrAbove(q[1..], n);
    }
  }

  lemma {:induction false} SomeAtOrAbove(q: seq<Command>, n: U32, i: nat)
    requires i < |q| && q[i].nonce >= n
    ensures AtOrAbove(q, n) > 0
  {
    if i > 0 {
      SomeAtOrAbove(q[1..], n, i - 1);
    }
  }

  /** Putting the next command back behind a shorter queue can only extend that queue. */
  lemma AdmitNext(at: Slots, s: AccountId, q: seq<Command>, j: nat, accountNonce: U32, balance: U64)
    requires Unwrapped(s, q) && 0 < j < |q|
    ensures Chained(s, q[..j]) && AtOrAbove(q[..j], q[j].nonce) == 0
    ensures var o := Admit(at, s, q[..j], q[j], accountNonce, balance);
            && (o.Admitted? <==> Appendable(at, q[..j], q[j], balance))
            && (o.Admitted? ==> o == Admitted(q[..j + 1], [], AddAll([q[j]])))
  {
    UnwrappedChained(s, q[..j]);
    NoneAtOrAbove(q[..j], q[j].nonce);
    assert q[..j][j - 1].nonce == q[0].nonce + (j - 1);
    assert q[..j] + [q[j]] == q[..j + 1];
    assert AddAll([q[j]]) == [Add(q[j], q[j].feeRate, false)];
  }

  /** `q[e]` is the first command from `m` on that does not fit behind the commands before it. */
  ghost predicate FirstMisfit(at: Slots, q: seq<Command>, m: nat, e: nat, balance: U64) {
    && m <= e <= |q|
    && (forall j | m <= j < e :: Appendable(at, q[..j], q[j], balance))
    && (e < |q| ==> !Appendable(at, q[..e], q[e], balance))
  }

  lemma {:induction false} ReinsertedEnd(at: Slots, q: seq<Command>, m: nat, balance: U64)
    requires m <= |q|
    ensures FirstMisfit(at, q, m, m + Reinserted(at, q[..m], q[m..], balance), balance)
    decreases |q| - m
  {
    if m < |q| && Appendable(at, q[..m], q[m], balance) {
      assert q[..m] + [q[m]] == q[..m + 1];
      assert q[m..][1..] == q[m + 1..];
      ReinsertedEnd(at, q, m + 1, balance);
    }
  }

  /** Once the queue is cut at the replaced command, the new command can only extend it. */
  lemma AdmitAtCut(at: Slots, s: AccountId, q: seq<Command>, c: Command, accountNonce: U32, balance: U64)
    requires Chained(s, q) && Replaces(q, c, accountNonce) && Gate(at, c).None?
    ensures var i := c.nonce - q[0].nonce;
            0 <= i < |q| && Chained(s, q[..i])
    ensures var i := c.nonce - q[0].nonce;
            Admit(at, s, q[..i], c, accountNonce, balance) ==
            if Unaffordable(q[..i], c, balance).Some? then Rejected(Unaffordable(q[..i], c, balance).value)
            else Admitted(q[..i] + [c], [], [Add(c, c.feeRate, i == 0)])
  {
    ReplacedPosition(s, q, c, accountNonce);
    var i := c.nonce - q[0].nonce;
    ChainedSlice(s, q, 0, i);
    assert q[0..i] == q[..i];
    if i == 0 {
      assert q[..i] == [] && [] + [c] == [c];
    } else {
      assert q[..i][i - 1].nonce == q[0].nonce + (i - 1);
    }
  }

  /** End of the part of `q[i := c]` that survives when `c` takes position `i`. */
  function SurvivingEnd(at: Slots, q: seq<Command>, i: nat, c: Command, balance: U64): (e: nat)
    requires i < |q|
    ensures e == i + 1 + Survivors(at, q, i, c, balance) <= |q|
  {
    i + 1 + Survivors(at, q, i, c, balance)
  }

  /** The outcome of a replacement in terms of the queue `w` with `c` written over position `i`. */
  lemma ReplacementParts(at: Slots, q: seq<Command>, i: nat, c: Command, balance: U64)
    requires i < |q|
    ensures var w, e := q[i := c], SurvivingEnd(at, q, i, c, balance);
            && q[..i] + [c] == w[..i + 1] && q[i + 1..] == w[i + 1..]
            && e == i + 1 + Reinserted(at, w[..i + 1], w[i + 1..], balance)
            && Spliced(q, i, c, e - i - 1) == w[..e]
            && TotalFees(Evicted(q, i, e - i - 1)) == q[i].fee + TotalFees(w[e..])
            && Reported(q, i, e - i - 1) == [q[i]] + (if e == |w| then [] else w[e + 1..])
            && ReplacementLog(q, i, c, e - i - 1) ==
               RemovalLog(q, i) + [Add(c, c.feeRate, i == 0)] + AddAll(w[i + 1..e])
  {
    var w, e := q[i := c], SurvivingEnd(at, q, i, c, balance);
    assert q[..i] + [c] == w[..i + 1] && q[i + 1..] == w[i + 1..];
    assert w[i + 1..e] == q[i + 1..e] && w[e..] == q[e..];
    assert w[..i + 1] + w[i + 1..e] == w[..e];
    TotalFeesConcat([q[i]], q[e..]);
  }

  /** The outcome of a replacement by what the loop finds: where it ends and the fees from there on. */
  lemma ReplacementOutcome(at: Slots, q: seq<Command>, i: nat, c: Command, balance: U64)
    requires i < |q| && q[i].fee <= c.fee && Unaffordable(q[..i], c, balance).None?
    ensures var w, e := q[i := c], SurvivingEnd(at, q, i, c, balance);
            && e == i + 1 + Reinserted(at, w[..i + 1], w[i + 1..], balance)
            && Replacement(at, q, i, c, balance) ==
               if c.fee - q[i].fee < TotalFees(w[e..]) + REPLACE_FEE then Rejected(InsufficientReplaceFee)
               else Admitted(w[..e], [q[i]] + (if e == |w| then [] else w[e + 1..]),
                             RemovalLog(q, i) + [Add(c, c.feeRate, i == 0)] + AddAll(w[i + 1..e]))
  {
    ReplacementParts(at, q, i, c, balance);
  }

  lemma OverwrittenUnwrapped(s: AccountId, q: seq<Command>, i: nat, c: Command)
    requires Unwrapped(s, q) && i < |q| && c.sender == s && c.nonce == q[i].nonce
    ensures Unwrapped(s, q[i := c])
  {
  }

  lemma AddAllSnoc(cs: seq<Command>, m: nat, n: nat)
    requires m <= n < |cs|
    ensures AddAll(cs[m..n]) + AddAll([cs[n]]) == AddAll(cs[m..n + 1])
  {
  }
}
