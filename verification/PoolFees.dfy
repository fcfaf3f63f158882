/** What a gossip replacement does to the fees in the pool and to what it reports. */
module PoolFees {
  import opened Prelude
  import opened Commands
  import opened SenderQueues
  import opened Admission

  /** Fees of all queued commands. */
  ghost function FeesIn(qs: Queues): nat {
    if qs == map[] then 0
    else
      var s :| s in qs;
      TotalFees(qs[s].queue) + FeesIn(qs - {s})
  }

  lemma {:induction false} FeesAt(qs: Queues, s: AccountId)
    requires s in qs
    ensures FeesIn(qs) == TotalFees(qs[s].queue) + FeesIn(qs - {s})
    decreases |qs|
  {
    var t :| t in qs && FeesIn(qs) == TotalFees(qs[t].queue) + FeesIn(qs - {t});
    if t != s {
      FeesAt(qs - {t}, s);
      assert (qs - {t}) - {s} == (qs - {s}) - {t};
      FeesAt(qs - {s}, t);
    }
  }

  lemma FeesWithQueue(qs: Queues, s: AccountId, q: seq<Command>)
    requires s in qs && q != [] && TotalConsumed(q) < U64_SIZE
    ensures FeesIn(WithQueue(qs, s, q)) + TotalFees(qs[s].queue) == FeesIn(qs) + TotalFees(q)
  {
    var qs' := WithQueue(qs, s, q);
    FeesAt(qs, s);
    FeesAt(qs', s);
    assert qs' - {s} == qs - {s};
  }

  /**
   * Replacing a queued command always pays: the new fee covers the fees of every command that
   * leaves the pool, reported or not, and the fees in the pool rise by at least the increment.
   */
  lemma ReplacementRaisesFees(qs: Queues, at: Slots, c: Command, accountNonce: U32, balance: U64)
    requires ValidQueues(qs) && c.sender in qs && Chained(c.sender, qs[c.sender].queue)
    requires |qs[c.sender].queue| < U32_SIZE
    requires Replaces(qs[c.sender].queue, c, accountNonce)
    requires Admit(at, c.sender, qs[c.sender].queue, c, accountNonce, balance).Admitted?
    ensures var o := Admit(at, c.sender, qs[c.sender].queue, c, accountNonce, balance);
            && TotalConsumed(o.queue) < U64_SIZE
            && FeesIn(WithQueue(qs, c.sender, o.queue)) >= FeesIn(qs) + REPLACE_FEE
  {
    var s, q := c.sender, qs[c.sender].queue;
    var q' := Admit(at, s, q, c, accountNonce, balance).queue;
    AdmittedQueue(at, s, q, c, accountNonce, balance);
    var i, k := ReplacementPays(at, s, q, c, accountNonce, balance);
    FeesWithQueue(qs, s, q');
  }

  /**
   * The commands a replacement evicts are exactly the old queue without the new one, and the report
   * names all of them but the first that could not be put back.
   */
  lemma ReplacementReport(at: Slots, s: AccountId, q: seq<Command>, c: Command, accountNonce: U32, balance: U64)
      returns (i: nat, k: nat)
    requires Chained(s, q) && |q| < U32_SIZE && Replaces(q, c, accountNonce)
    requires Admit(at, s, q, c, accountNonce, balance).Admitted?
    ensures i + 1 + k <= |q| && q[i].nonce == c.nonce && k == Survivors(at, q, i, c, balance)
    ensures NoDuplicates(Admit(at, s, q, c, accountNonce, balance).dropped)
    ensures var o := Admit(at, s, q, c, accountNonce, balance);
            && Elems(q) - Elems(o.queue) == Elems(Evicted(q, i, k))
            && Elems(o.queue) == Elems(q) - Elems(Evicted(q, i, k)) + {c}
            && Elems(o.dropped) ==
               if i + 1 + k == |q| then Elems(Evicted(q, i, k)) else Elems(Evicted(q, i, k)) - {q[i + 1 + k]}
  {
    i, k := ReplacementPays(at, s, q, c, accountNonce, balance);
    ChainedDistinct(s, q);
    if c in q {
      QueuedIsRejected(at, s, q, c, accountNonce, balance);
    }
    SplicedElems(q, i, c, k);
    ReportOmitsFirst(q, i, k);
  }

  /** Everything behind the replaced command goes back exactly when all of it passes the checks and fits. */
  lemma AllSurviveIff(at: Slots, q: seq<Command>, i: nat, c: Command, balance: U64)
    requires i < |q| && Unaffordable(q[..i], c, balance).None?
    ensures i + 1 + Survivors(at, q, i, c, balance) == |q| <==>
            TotalConsumed(q[i := c]) <= balance && forall j | i < j < |q| :: Gate(at, q[j]).None?
  {
    var kept, tail, whole := q[..i] + [c], q[i + 1..], q[i := c];
    var k := Survivors(at, q, i, c, balance);
    ReinsertedIsLongest(at, kept, tail, balance);
    assert kept + tail == whole;
    if k == |tail| {
      SplicedAffordable(at, q, i, c, balance);
      assert Spliced(q, i, c, k) == whole;
      forall j | i < j < |q|
        ensures Gate(at, q[j]).None?
      {
        assert q[j] == tail[j - i - 1];
      }
    } else {
      assert whole[..i + 2 + k] == kept + tail[..k + 1] && tail[k] == q[i + 1 + k];
      TotalConsumedSplit(whole, i + 2 + k);
    }
  }

  lemma ReplacementAffords(at: Slots, s: AccountId, q: seq<Command>, c: Command, accountNonce: U32, balance: U64)
    requires Chained(s, q) && Replaces(q, c, accountNonce)
    requires Admit(at, s, q, c, accountNonce, balance).Admitted?
    ensures var i := c.nonce - q[0].nonce;
            0 <= i < |q| && Unaffordable(q[..i], c, balance).None?
  {
    ReplacedPosition(s, q, c, accountNonce);
  }

  /**
   * The report of a replacement is complete if and only if everything behind the replaced command
   * still passes the checks and the balance covers the queue with the new command in place.
   */
  lemma ReportCompleteIff(at: Slots, s: AccountId, q: seq<Command>, c: Command, accountNonce: U32, balance: U64)
    requires Chained(s, q) && |q| < U32_SIZE && Replaces(q, c, accountNonce)
    requires Admit(at, s, q, c, accountNonce, balance).Admitted?
    ensures 0 <= c.nonce - q[0].nonce < |q|
    ensures var o, i := Admit(at, s, q, c, accountNonce, balance), c.nonce - q[0].nonce;
            Elems(o.dropped) == Elems(q) - Elems(o.queue) <==>
            TotalConsumed(q[i := c]) <= balance && forall j | i < j < |q| :: Gate(at, q[j]).None?
  {
    var i, k := ReportFullIff(at, s, q, c, accountNonce, balance);
    AllSurviveIff(at, q, i, c, balance);
  }

  /** The report is complete exactly when nothing failed to go back. */
  lemma ReportFullIff(at: Slots, s: AccountId, q: seq<Command>, c: Command, accountNonce: U32, balance: U64)
      returns (i: nat, k: nat)
    requires Chained(s, q) && |q| < U32_SIZE && Replaces(q, c, accountNonce)
    requires Admit(at, s, q, c, accountNonce, balance).Admitted?
    ensures i == c.nonce - q[0].nonce && i < |q| && k == Survivors(at, q, i, c, balance)
    ensures Unaffordable(q[..i], c, balance).None?
    ensures var o := Admit(at, s, q, c, accountNonce, balance);
            Elems(o.dropped) == Elems(q) - Elems(o.queue) <==> i + 1 + k == |q|
  {
    i, k := ReplacementReport(at, s, q, c, accountNonce, balance);
    SameNonceSamePosition(s, q, c, accountNonce, i);
    ReplacementAffords(at, s, q, c, accountNonce, balance);
    if i + 1 + k < |q| {
      LastEvicted(q, i, k);
    }
  }

  lemma SameNonceSamePosition(s: AccountId, q: seq<Command>, c: Command, accountNonce: U32, i: nat)
    requires Chained(s, q) && Replaces(q, c, accountNonce) && i < |q| && q[i].nonce == c.nonce
    ensures i == c.nonce - q[0].nonce
  {
    ReplacedPosition(s, q, c, accountNonce);
  }

  lemma LastEvicted(q: seq<Command>, i: nat, k: nat)
    requires i + 1 + k < |q|
    ensures q[i + 1 + k] in Elems(Evicted(q, i, k))
  {
    assert Evicted(q, i, k)[1] == q[i + 1 + k];
  }

  function Sample(hash: Hash, nonce: U32, fee: U64, body: Body): Command {
    Command(hash, 7, nonce, fee, FeeRate(fee as real), body, SLOT_MAX, DEFAULT_TOKEN)
  }

  /** A delegation and a payment; a payment in place of the delegation pushes the other one out unreported. */
  lemma ReportOmitsOne()
    ensures var q := [Sample(1, 0, 1, StakeDelegation), Sample(2, 1, 1, Payment(50))];
            var c := Sample(3, 0, 10, Payment(10));
            && Chained(7, q)
            && (var o := Admit(Slots(None, 0, 0), 7, q, c, 0, 60);
                && o.Admitted? && o.queue == [c] && o.dropped == [q[0]])
  {
    var at := Slots(None, 0, 0);
    var q := [Sample(1, 0, 1, StakeDelegation), Sample(2, 1, 1, Payment(50))];
    var c := Sample(3, 0, 10, Payment(10));
    assert q[..0] == [] && q[1..] == [q[1]] && [] + [c] == [c];
    assert Consumed(c) == 20 && Consumed(q[1]) == 51;
    assert TotalConsumed([c]) == 20;
    assert !Appendable(at, [c], q[1], 60);
    assert Survivors(at, q, 0, c, 60) == 0;
    assert TotalFees(q) == 2;
    assert Evicted(q, 0, 0) == q && Spliced(q, 0, c, 0) == [c] && Reported(q, 0, 0) == [q[0]];
  }

  lemma ReportOmitsFirst(q: seq<Command>, i: nat, k: nat)
    requires i + 1 + k <= |q| && NoDuplicates(q)
    ensures NoDuplicates(Reported(q, i, k))
    ensures Elems(Reported(q, i, k)) ==
            if i + 1 + k == |q| then Elems(Evicted(q, i, k)) else Elems(Evicted(q, i, k)) - {q[i + 1 + k]}
  {
  }
}
