/** The transaction pool that drives the indexed pool: eviction, diffs, and runs of operations. */
module TransactionPools {
  import opened Prelude
  import opened Commands
  import opened SenderQueues
  import opened Admission
  import opened AdmissionRule
  import opened UpdateLog
  import opened Eviction
  import opened Revalidation
  import opened IndexedPools
  import opened PoolFees
  import opened VkRefcounts
  import opened Diffs

  class TransactionPool {
    const pool: IndexedPool
    const poolMaxSize: nat
    const verificationKeyTable: VkRefcountTable
    /** Uses of commands that left the pool without being reported. */
    ghost var leaked: multiset<Use>

    /** The outstanding uses are those of the pooled commands and of those that left unreported. */
    ghost predicate Balanced()
      reads this, pool, verificationKeyTable
    {
      && verificationKeyTable.Valid()
      && multiset(verificationKeyTable.outstanding) == UsesIn(AllCommands(pool.allBySender)) + leaked
    }

    constructor (slotTxEnd: Option<U32>, poolMaxSize: nat)
      ensures pool.Valid() && pool.allBySender == map[] && pool.slotTxEnd == slotTxEnd && this.poolMaxSize == poolMaxSize
      ensures Balanced() && leaked == multiset{}
      ensures fresh(pool) && fresh(verificationKeyTable)
    {
      this.poolMaxSize := poolMaxSize;
      pool := new IndexedPool(slotTxEnd);
      verificationKeyTable := new VkRefcountTable();
      leaked := multiset{};
      new;
      assert AllCommands(pool.allBySender) == {};
    }

    /** A full pool only takes commands that beat its lowest fee rate. */
    method HasSufficientFee(cmd: Command) returns (b: bool)
      requires pool.Valid()
      ensures b <==> (pool.size < poolMaxSize || pool.size == 0
                      || exists c | c in AllCommands(pool.allBySender) ::
                           c.feeRate.q < cmd.feeRate.q && IsLowest(c, AllCommands(pool.allBySender)))
    {
      var min := LowestIn(pool.allByFee, AllCommands(pool.allBySender));
      if min.None? {
        return true;
      }
      if pool.size >= poolMaxSize {
        b := cmd.feeRate.q > min.value.feeRate.q;
      } else {
        b := true;
      }
    }

    /**
     * Evicts the cheapest command, with what is queued behind it, until the pool fits. The ghost
     * results are the pool before and after each round and the command each round was cut at.
     */
    method DropUntilBelowMaxSize()
        returns (r: Result<seq<Command>, CommandError>, ghost states: seq<Queues>, ghost victims: seq<Command>)
      requires pool.Valid()
      modifies pool
      ensures pool.Valid() && r.Success? && pool.size <= poolMaxSize
      ensures EvictionRounds(states, victims, poolMaxSize)
      ensures states[0] == old(pool.allBySender) && states[|victims|] == pool.allBySender
      ensures Accounts(old(pool.allBySender), pool.allBySender, r.value)
    {
      ghost var qs := pool.allBySender;
      var list: seq<Command> := [];
      states, victims := [qs], [];
      while pool.size > poolMaxSize
        invariant pool.Valid()
        invariant EvictionRounds(states, victims, poolMaxSize)
        invariant states[0] == qs && states[|victims|] == pool.allBySender
        invariant Accounts(qs, pool.allBySender, list)
        decreases pool.size
      {
        ghost var now := pool.allBySender;
        var dropped := pool.RemoveLowestFee();
        assert dropped.value != [];
        AccountsStep(qs, now, pool.allBySender, list, dropped.value);
        EvictionSnoc(states, victims, poolMaxSize, dropped.value[0], pool.allBySender);
        RemovedSome(AllCommands(now), AllCommands(pool.allBySender), dropped.value);
        list := list + dropped.value;
        states, victims := states + [pool.allBySender], victims + [dropped.value[0]];
      }
      r := Success(list);
    }

    /** One command of a diff: refused as a duplicate or for its account, else judged by the pool. */
    method AddChecked(sinceGenesis: U32, current: U32, cmd: Command, account: Account, ghost reg: map<Hash, Command>)
        returns (r: Verdict)
      requires pool.Valid() && pool.size < U32_SIZE
      requires Registered(reg, AllCommands(pool.allBySender) + {cmd})
      modifies pool
      ensures pool.Valid()
      ensures Judged(Slots(pool.slotTxEnd, sinceGenesis, current), old(pool.allBySender), cmd, account, r,
                     pool.allBySender)
      ensures AllCommands(pool.allBySender) <= old(AllCommands(pool.allBySender)) + {cmd}
      ensures pool.size <= old(pool.size) + 1
    {
      ghost var qs := pool.allBySender;
      assert cmd in AllCommands(qs) + {cmd};
      var isMember := pool.Member(cmd);
      if isMember {
        return Failure(Duplicate);
      }
      if !(account.canSend && account.canIncrementNonce) {
        return Failure(FeePayerNotPermittedToSend);
      }
      var added := pool.AddFromGossip(sinceGenesis, current, cmd, account.nonce, account.balance);
      SubsetSize(AllCommands(pool.allBySender), AllCommands(qs) + {cmd});
      r := if added.Failure? then Failure(Refused(added.error)) else Success(added.value.1);
    }

    /** Adds the commands of a diff in turn, up to the first command whose fee payer is unknown. */
    method AddDiff(sinceGenesis: U32, current: U32, diff: seq<Command>, accounts: map<AccountId, Account>,
                   ghost reg: map<Hash, Command>)
        returns (results: seq<Verdict>, ghost states: seq<Queues>)
      requires pool.Valid() && pool.size + |diff| <= U32_SIZE
      requires Registered(reg, AllCommands(pool.allBySender) + Elems(diff))
      modifies pool
      ensures pool.Valid()
      ensures |results| <= |diff| && (|results| < |diff| ==> diff[|results|].sender !in accounts)
      ensures JudgedInTurn(Slots(pool.slotTxEnd, sinceGenesis, current), diff[..|results|], accounts, results, states)
      ensures states[0] == old(pool.allBySender) && states[|results|] == pool.allBySender
      ensures AllCommands(pool.allBySender) <= old(AllCommands(pool.allBySender)) + Elems(diff)
    {
      ghost var at, all := Slots(pool.slotTxEnd, sinceGenesis, current), AllCommands(pool.allBySender);
      results, states := [], [pool.allBySender];
      for i := 0 to |diff|
        invariant pool.Valid() && pool.size <= old(pool.size) + i
        invariant AllCommands(pool.allBySender) <= all + Elems(diff)
        invariant |results| == i && JudgedInTurn(at, diff[..i], accounts, results, states)
        invariant states[0] == old(pool.allBySender) && states[i] == pool.allBySender
      {
        if diff[i].sender !in accounts {
          return;
        }
        results, states := AddNext(sinceGenesis, current, diff, i, accounts, results, states, reg, all);
      }
    }

    /** One round of `AddDiff`, for a command whose fee payer is known. */
    method AddNext(sinceGenesis: U32, current: U32, diff: seq<Command>, i: nat, accounts: map<AccountId, Account>,
                   results: seq<Verdict>, ghost states: seq<Queues>, ghost reg: map<Hash, Command>,
                   ghost all: set<Command>)
        returns (results': seq<Verdict>, ghost states': seq<Queues>)
      requires pool.Valid() && pool.size < U32_SIZE && i < |diff| && diff[i].sender in accounts
      requires Registered(reg, all + Elems(diff)) && AllCommands(pool.allBySender) <= all + Elems(diff)
      requires |results| == i && states != [] && states[|states| - 1] == pool.allBySender
      requires JudgedInTurn(Slots(pool.slotTxEnd, sinceGenesis, current), diff[..i], accounts, results, states)
      modifies pool
      ensures pool.Valid() && pool.size <= old(pool.size) + 1 && AllCommands(pool.allBySender) <= all + Elems(diff)
      ensures |results'| == i + 1
      ensures JudgedInTurn(Slots(pool.slotTxEnd, sinceGenesis, current), diff[..i + 1], accounts, results', states')
      ensures states'[0] == states[0] && states'[i + 1] == pool.allBySender
    {
      var cmd := diff[i];
      PrefixSnoc(diff, i);
      assert cmd in Elems(diff);
      var result := AddChecked(sinceGenesis, current, cmd, accounts[cmd.sender], reg);
      JudgedSnoc(Slots(pool.slotTxEnd, sinceGenesis, current), diff[..i], accounts, results, states, cmd, result,
                 pool.allBySender);
      results', states' := results + [result], states + [pool.allBySender];
    }

    /** Counts the keys of what came in and of what was reported as gone. */
    method UpdateTable(added: seq<Command>, dropped: seq<Command>, ghost now: multiset<Use>, ghost more: multiset<Use>)
      requires verificationKeyTable.Valid()
      requires multiset(verificationKeyTable.outstanding) + UsesAll(added) == now + more + UsesAll(dropped)
      modifies verificationKeyTable
      ensures verificationKeyTable.Valid() && multiset(verificationKeyTable.outstanding) == now + more
    {
      verificationKeyTable.IncrementHashed(added);
      BagTakeOut(now + more, UsesAll(dropped), multiset{});
      assert UsesAll(dropped) + multiset{} == UsesAll(dropped);
      verificationKeyTable.DecrementHashed(dropped);
    }

    /**
     * Applies a verified diff: every command in turn, then eviction down to the size limit, then the
     * key counts. An unknown fee payer ends it with the commands before it added and not counted.
     * The ghost results are the answers, the pool before and after each command, and before and
     * after each round of eviction.
     */
    method Apply(sinceGenesis: U32, current: U32, diff: seq<Command>, accounts: map<AccountId, Account>,
                 ghost reg: map<Hash, Command>)
        returns (r: Result<Applied, ()>, ghost results: seq<Verdict>, ghost states: seq<Queues>,
                 ghost rounds: seq<Queues>, ghost victims: seq<Command>, ghost droppedForSize: seq<Command>)
      requires pool.Valid() && pool.size + |diff| <= U32_SIZE && Balanced()
      requires Registered(reg, AllCommands(pool.allBySender) + Elems(diff))
      modifies pool, verificationKeyTable, `leaked
      ensures pool.Valid() && verificationKeyTable.Valid()
      ensures r.Success? <==> |results| == |diff|
      ensures |results| <= |diff| && (|results| < |diff| ==> diff[|results|].sender !in accounts)
      ensures JudgedInTurn(Slots(pool.slotTxEnd, sinceGenesis, current), diff[..|results|], accounts, results, states)
      ensures states[0] == old(pool.allBySender)
      ensures r.Failure? ==>
                pool.allBySender == states[|results|] && unchanged(verificationKeyTable) && leaked == old(leaked)
      ensures r.Success? ==>
                && pool.size <= poolMaxSize
                && EvictionRounds(rounds, victims, poolMaxSize)
                && rounds[0] == states[|diff|] && rounds[|victims|] == pool.allBySender
                && Accounts(states[|diff|], pool.allBySender, droppedForSize)
      ensures r.Failure? ==>
                (Balanced() <==> UsesAll(Added(diff[..|results|], results)) ==
                                 UsesAll(DroppedForAdd(results)) + Leaked(states, results))
      ensures AllCommands(pool.allBySender) <= old(AllCommands(pool.allBySender)) + Elems(diff)
      ensures r.Success? ==> Balanced() && leaked == old(leaked) + Leaked(states, results)
      ensures r.Success? ==> Reports(r.value, diff, results, droppedForSize)
    {
      var added;
      added, states := AddDiff(sinceGenesis, current, diff, accounts, reg);
      results, rounds, victims, droppedForSize := added, [], [], [];
      if |added| < |diff| {
        DiffUses(Slots(pool.slotTxEnd, sinceGenesis, current), diff[..|added|], accounts, added, states);
        BagCancel(UsesIn(AllCommands(old(pool.allBySender))), UsesIn(AllCommands(pool.allBySender)), leaked);
        BagTrade(UsesIn(AllCommands(states[0])), UsesIn(AllCommands(pool.allBySender)),
                    UsesAll(Added(diff[..|added|], added)), UsesAll(DroppedForAdd(added)) + Leaked(states, added));
        return Failure(()), results, states, rounds, victims, droppedForSize;
      }
      WholePrefix(diff);
      var report;
      report, rounds, victims, droppedForSize :=
        Settle(diff, added, accounts, Slots(pool.slotTxEnd, sinceGenesis, current), states);
      r := Success(report);
    }

    /** What follows when every command of a diff has its answer: eviction, key counts and the report. */
    method Settle(diff: seq<Command>, results: seq<Verdict>, ghost accounts: map<AccountId, Account>, ghost at: Slots,
                  ghost states: seq<Queues>)
        returns (report: Applied, ghost rounds: seq<Queues>, ghost victims: seq<Command>,
                 ghost droppedForSize: seq<Command>)
      requires pool.Valid() && JudgedInTurn(at, diff, accounts, results, states) && states[|diff|] == pool.allBySender
      requires verificationKeyTable.Valid()
      requires multiset(verificationKeyTable.outstanding) == UsesIn(AllCommands(states[0])) + leaked
      modifies pool, verificationKeyTable, `leaked
      ensures pool.Valid() && pool.size <= poolMaxSize
      ensures EvictionRounds(rounds, victims, poolMaxSize)
      ensures rounds[0] == states[|diff|] && rounds[|victims|] == pool.allBySender
      ensures Accounts(states[|diff|], pool.allBySender, droppedForSize)
      ensures Balanced() && leaked == old(leaked) + Leaked(states, results)
      ensures Reports(report, diff, results, droppedForSize)
    {
      var evicted;
      evicted, rounds, victims := DropUntilBelowMaxSize();
      droppedForSize := evicted.value;
      var allDropped := DroppedForAdd(results) + evicted.value;
      DiffUses(at, diff, accounts, results, states);
      DiffBalance(AllCommands(states[0]), leaked, multiset(verificationKeyTable.outstanding), states, pool.allBySender,
                  diff, results, evicted.value);
      UpdateTable(Added(diff, results), allDropped, UsesIn(AllCommands(pool.allBySender)),
                  leaked + Leaked(states, results));
      leaked := leaked + Leaked(states, results);
      report := Report(diff, results, allDropped);
    }

    /** Drops what the accounts of a new best tip no longer support. The key table is not told. */
    method OnNewBestTip(accounts: map<AccountId, Account>) returns (dropped: Result<seq<Command>, CommandError>)
      requires pool.Valid() && Balanced()
      modifies pool, `leaked
      ensures pool.Valid() && Balanced() && pool.size <= old(pool.size)
      ensures dropped.Success? && Accounts(old(pool.allBySender), pool.allBySender, dropped.value)
      ensures RevalidatedTo(old(pool.allBySender), pool.allBySender, EntirePool, Supplied(accounts))
      ensures leaked == old(leaked) + UsesAll(dropped.value)
      ensures UsesAll(dropped.value) == multiset{} <==> NoKeyUnsupported(old(pool.allBySender), accounts)
    {
      ghost var before, uses := pool.allBySender, leaked;
      var result, _ := pool.Revalidate(EntirePool, Supplied(accounts));
      dropped := result;
      leaked := leaked + UsesAll(result.value);
      TipUses(before, pool.allBySender, uses, result.value);
      SubsetSize(AllCommands(pool.allBySender), AllCommands(before));
      UnsupportedIff(before, pool.allBySender, accounts, result.value);
    }
  }

  const EMPTY_ACCOUNT := Account(0, 0, true, true)

  /** The account of a sender at the new best tip: the empty one where there is none. */
  function Supplied(accounts: map<AccountId, Account>): AccountId -> Option<Account> {
    (id: AccountId) => Some(if id in accounts then accounts[id] else EMPTY_ACCOUNT)
  }

  /** A sender the best tip does not know keeps its queue's head exactly when that has nonce 0 and costs nothing. */
  lemma UnknownSenderKeepsIff(s: AccountId, q: seq<Command>, accounts: map<AccountId, Account>)
    requires Chained(s, q) && s !in accounts
    ensures Revalidated(q, s, EntirePool, Supplied(accounts)) != [] <==> q != [] && q[0].nonce == 0 && Cost([q[0]]) == 0
  {
    KeptSomeIff(s, q, EMPTY_ACCOUNT);
    if q != [] {
      CostBehind([], q[0]);
      assert [] + [q[0]] == [q[0]];
    }
    if q != [] && q[0].nonce == 0 {
      forall i | 0 <= i < |q| && q[i].nonce == 0 ensures i == 0 {
        ChainedDistinct(s, q);
      }
    }
  }

  /** Whatever the new accounts no longer support installs no key. */
  ghost predicate NoKeyUnsupported(qs: Queues, accounts: map<AccountId, Account>) {
    forall c | c in AllCommands(qs)
               && c !in Revalidated(QueueOf(qs, c.sender), c.sender, EntirePool, Supplied(accounts)) ::
      ExtractVks(c) == []
  }

  lemma TipUses(before: Queues, now: Queues, leaked: multiset<Use>, dropped: seq<Command>)
    requires Accounts(before, now, dropped)
    ensures UsesIn(AllCommands(before)) + leaked == UsesIn(AllCommands(now)) + (leaked + UsesAll(dropped))
  {
    UsesTakenOut(AllCommands(before), dropped);
    assert AllCommands(before) - Elems(dropped) == AllCommands(now);
    BagSwapLast(UsesIn(AllCommands(now)), UsesAll(dropped), leaked);
  }

  lemma BagSwapLast<T>(x: multiset<T>, y: multiset<T>, z: multiset<T>)
    ensures x + y + z == x + (z + y)
  {
  }

  lemma UnsupportedIff(before: Queues, now: Queues, accounts: map<AccountId, Account>, dropped: seq<Command>)
    requires ValidQueues(before) && ValidQueues(now) && Accounts(before, now, dropped)
    requires RevalidatedTo(before, now, EntirePool, Supplied(accounts))
    ensures UsesAll(dropped) == multiset{} <==> NoKeyUnsupported(before, accounts)
  {
    AllUsesIff(dropped);
    forall c: Command
      ensures c in dropped <==>
              c in AllCommands(before)
              && c !in Revalidated(QueueOf(before, c.sender), c.sender, EntirePool, Supplied(accounts))
    {
      assert c in dropped <==> c in Elems(dropped);
      MemberOfOwnQueue(now, c);
      assert QueueOf(now, c.sender) == Revalidated(QueueOf(before, c.sender), c.sender, EntirePool, Supplied(accounts));
    }
  }

  lemma {:induction false} AllUsesIff(cs: seq<Command>)
    ensures UsesAll(cs) == multiset{} <==> forall c | c in cs :: ExtractVks(c) == []
  {
    if cs != [] {
      AllUsesIff(cs[1..]);
      NoUseIff(ExtractVks(cs[0]));
      BagEmptyIff(UsesOf(cs[0]), UsesAll(cs[1..]));
      assert forall c :: c in cs <==> c == cs[0] || c in cs[1..];
    }
  }

  /** The uses before, the new ones and what was reported balance with the uses after and the leaked ones. */
  lemma DiffBalance(before: set<Command>, leaked: multiset<Use>, outstanding: multiset<Use>, states: seq<Queues>,
                    now: Queues, diff: seq<Command>, results: seq<Verdict>, evicted: seq<Command>)
    requires |results| == |diff| && |states| == |diff| + 1 && AllCommands(states[0]) == before
    requires outstanding == UsesIn(before) + leaked
    requires UsesIn(AllCommands(states[|diff|])) + (UsesAll(DroppedForAdd(results)) + Leaked(states, results)) ==
             UsesIn(AllCommands(states[0])) + UsesAll(Added(diff, results))
    requires Accounts(states[|diff|], now, evicted)
    ensures outstanding + UsesAll(Added(diff, results)) ==
            UsesIn(AllCommands(now)) + (leaked + Leaked(states, results)) + UsesAll(DroppedForAdd(results) + evicted)
  {
    var last := AllCommands(states[|diff|]);
    UsesTakenOut(last, evicted);
    assert last - Elems(evicted) == AllCommands(now);
    UsesAllConcat(DroppedForAdd(results), evicted);
    BagBalance(UsesIn(before), leaked, UsesAll(Added(diff, results)), UsesIn(AllCommands(now)), UsesAll(evicted),
               UsesAll(DroppedForAdd(results)), Leaked(states, results));
  }

  lemma BagCancel<T>(x: multiset<T>, y: multiset<T>, z: multiset<T>)
    ensures x + z == y + z <==> x == y
  {
    if x + z == y + z {
      forall e: T {:trigger x[e]} ensures x[e] == y[e] {
        assert (x + z)[e] == (y + z)[e];
      }
    }
  }

  lemma BagTrade<T>(first: multiset<T>, last: multiset<T>, added: multiset<T>, gone: multiset<T>)
    requires last + gone == first + added
    ensures first == last <==> added == gone
  {
    forall e: T {:trigger first[e]} {:trigger added[e]} ensures last[e] + gone[e] == first[e] + added[e] {
      assert (last + gone)[e] == (first + added)[e];
    }
  }

  lemma BagBalance<T>(first: multiset<T>, leaked: multiset<T>, added: multiset<T>, last: multiset<T>,
                      evicted: multiset<T>, dropped: multiset<T>, more: multiset<T>)
    requires last + evicted + (dropped + more) == first + added
    ensures first + leaked + added == last + (leaked + more) + (dropped + evicted)
  {
    forall x: T {:trigger first[x]} ensures (first + leaked + added)[x] == (last + (leaked + more) + (dropped + evicted))[x] {
      assert (last + evicted + (dropped + more))[x] == (first + added)[x];
    }
  }

  // ----- The report of a diff

  function HashesOf(cs: seq<Command>): set<Hash> {
    set c | c in cs :: c.hash
  }

  /** `apply`'s answer, put together from the answers to the commands. */
  method Report(diff: seq<Command>, results: seq<Verdict>, dropped: seq<Command>) returns (r: Applied)
    requires |results| == |diff|
    ensures r.rejected == Refusals(diff, results) && r.dropped == HashesOf(dropped)
    ensures r.accepted == NotDropped(Added(diff, results), r.dropped)
    ensures r.decision == Reject <==> exists i | 0 <= i < |diff| :: results[i].Failure? && GroundsForRejection(results[i].error)
  {
    var rejected := Refusals(diff, results);
    var decision := Accept;
    for i := 0 to |results|
      invariant decision == Reject <==> exists j | 0 <= j < i :: results[j].Failure? && GroundsForRejection(results[j].error)
    {
      if results[i].Failure? && GroundsForRejection(results[i].error) {
        decision := Reject;
      }
    }
    r := Applied(decision, NotDropped(Added(diff, results), HashesOf(dropped)), rejected, HashesOf(dropped));
  }

  /** What the report says about each command of the diff. */
  ghost predicate Reports(a: Applied, diff: seq<Command>, results: seq<Verdict>, droppedForSize: seq<Command>)
    requires |results| == |diff|
  {
    && a.rejected == Refusals(diff, results)
    && a.dropped == HashesOf(DroppedForAdd(results) + droppedForSize)
    && a.accepted == NotDropped(Added(diff, results), a.dropped)
    && (a.decision == Reject <==>
        exists i | 0 <= i < |diff| :: results[i].Failure? && GroundsForRejection(results[i].error))
  }

  /**
   * An accepted command is in the pool afterwards exactly when no command of the diff that comes in
   * after it pushes it out, as the first that no longer fits behind a replacement.
   */
  lemma AcceptedInPoolIff(at: Slots, diff: seq<Command>, accounts: map<AccountId, Account>, results: seq<Verdict>,
                          states: seq<Queues>, now: Queues, droppedForSize: seq<Command>, a: Applied, c: Command)
    requires JudgedInTurn(at, diff, accounts, results, states) && Accounts(states[|diff|], now, droppedForSize)
    requires Reports(a, diff, results, droppedForSize) && c in a.accepted
    ensures c in AllCommands(now) <==>
            || (c in AllCommands(states[0]) && NotPushedOutFrom(at, diff, accounts, states, c, 0))
            || exists i | 0 <= i < |diff| ::
                 EnteredAt(at, diff, accounts, states, c, i) && NotPushedOutFrom(at, diff, accounts, states, c, i + 1)
  {
    var dropped := DroppedForAdd(results) + droppedForSize;
    assert c.hash !in a.dropped;
    assert c !in dropped;
    assert c !in DroppedForAdd(results) && c !in droppedForSize by {
      ElemsConcat(DroppedForAdd(results), droppedForSize);
      assert c !in Elems(dropped);
    }
    PresentByGuardsIff(at, diff, accounts, results, states, c);
    assert c !in Elems(droppedForSize);
  }

  /** The pool that holds one queue of account 7. */
  ghost function OneQueue(q: seq<Command>): Queues
    requires TotalConsumed(q) < U64_SIZE
  {
    WithQueue(map[], 7, q)
  }

  lemma OneQueueHolds(q: seq<Command>)
    requires Chained(7, q) && q != [] && TotalConsumed(q) < U64_SIZE && |q| < 3
    ensures ValidQueues(OneQueue(q)) && QueueOf(OneQueue(q), 7) == q
    ensures AllCommands(OneQueue(q)) == Elems(q) && |AllCommands(OneQueue(q))| < U32_SIZE
  {
    var qs: Queues := map[];
    assert AllCommands(qs) == {};
    WithQueueCommands(qs, 7, q);
    ChainedDistinct(7, q);
    ElemsSize(q);
  }

  /** One queue and the answer to one command on it. */
  lemma {:induction false} JudgedOne(at: Slots, q: seq<Command>, c: Command, a: Account, o: Outcome)
    requires Chained(7, q) && q != [] && TotalConsumed(q) < U64_SIZE && |q| < 3 && c.sender == 7 && c !in q
    requires a.canSend && a.canIncrementNonce && o == Admit(at, 7, q, c, a.nonce, a.balance)
    requires o.Admitted? && o.queue != [] && TotalConsumed(o.queue) < U64_SIZE
    ensures Judged(at, OneQueue(q), c, a, Success(o.dropped), OneQueue(o.queue))
  {
    OneQueueHolds(q);
    assert c !in Elems(q);
    OneQueueReplaced(q, o.queue);
    JudgedBy(at, OneQueue(q), c, a, o);
  }

  lemma OneQueueReplaced(q: seq<Command>, q': seq<Command>)
    requires TotalConsumed(q) < U64_SIZE && TotalConsumed(q') < U64_SIZE && q' != []
    ensures WithQueue(OneQueue(q), 7, q') == OneQueue(q')
  {
  }

  lemma {:induction false} JudgedBy(at: Slots, qs: Queues, c: Command, a: Account, o: Outcome)
    requires ValidQueues(qs) && |AllCommands(qs)| < U32_SIZE && Chained(c.sender, QueueOf(qs, c.sender))
    requires c !in AllCommands(qs) && a.canSend && a.canIncrementNonce
    requires o == Admit(at, c.sender, QueueOf(qs, c.sender), c, a.nonce, a.balance)
    requires o.Admitted? && TotalConsumed(o.queue) < U64_SIZE
    ensures Judged(at, qs, c, a, Success(o.dropped), WithQueue(qs, c.sender, o.queue))
  {
  }

  lemma AnswersSnoc(diff: seq<Command>, results: seq<Verdict>, c: Command, r: Verdict)
    requires |results| == |diff|
    ensures DroppedForAdd(results + [r]) == DroppedForAdd(results) + Outgoing(r)
    ensures Added(diff + [c], results + [r]) == Added(diff, results) + Incoming(c, r)
  {
    assert (results + [r])[..|results|] == results && (diff + [c])[..|diff|] == diff;
  }

  lemma NotDroppedSnoc(cs: seq<Command>, c: Command, dropped: set<Hash>)
    ensures NotDropped(cs + [c], dropped) == NotDropped(cs, dropped) + if c.hash in dropped then [] else [c]
  {
    assert (cs + [c])[..|cs|] == cs;
  }

  /**
   * A pool with a delegation, and a diff of two payments: the second takes the delegation's place,
   * the first is pushed out, and both are reported as accepted.
   */
  lemma {:induction false} AcceptedCanBeGone(a: Command, b: Command, c: Command)
    requires a == Sample(1, 0, 1, StakeDelegation)
    requires b == Sample(2, 1, 1, Payment(50))
    requires c == Sample(3, 0, 10, Payment(10))
    ensures var at, account := Slots(None, 0, 0), Account(0, 60, true, true);
            var results: seq<Verdict> := [Success([]), Success([a])];
            && TotalConsumed([a]) < U64_SIZE && TotalConsumed([a, b]) < U64_SIZE && TotalConsumed([c]) < U64_SIZE
            && Judged(at, OneQueue([a]), b, account, results[0], OneQueue([a, b]))
            && Judged(at, OneQueue([a, b]), c, account, results[1], OneQueue([c]))
            && AllCommands(OneQueue([c])) == {c}
            && NotDropped(Added([b, c], results), HashesOf(DroppedForAdd(results))) == [b, c]
  {
    SampleTotals(a, b, c);
    FirstIsAdded(a, b);
    SecondPushesFirstOut(a, b, c);
    SampleChained(c);
    OneQueueHolds([c]);
    TwoAnswers(a, b, c);
  }

  lemma SampleChained(c: Command)
    requires c == Sample(3, 0, 10, Payment(10))
    ensures Chained(7, [c])
  {
  }

  lemma {:induction false} FirstIsAdded(a: Command, b: Command)
    requires a == Sample(1, 0, 1, StakeDelegation) && b == Sample(2, 1, 1, Payment(50))
    requires TotalConsumed([a]) == 1 && TotalConsumed([a, b]) == 52
    ensures Judged(Slots(None, 0, 0), OneQueue([a]), b, Account(0, 60, true, true), Success([]), OneQueue([a, b]))
  {
    SampleExtends(a, b);
    JudgedOne(Slots(None, 0, 0), [a], b, Account(0, 60, true, true), Admit(Slots(None, 0, 0), 7, [a], b, 0, 60));
  }

  lemma {:induction false} SecondPushesFirstOut(a: Command, b: Command, c: Command)
    requires a == Sample(1, 0, 1, StakeDelegation) && b == Sample(2, 1, 1, Payment(50))
    requires c == Sample(3, 0, 10, Payment(10))
    requires TotalConsumed([a, b]) == 52 && TotalConsumed([c]) == 20
    ensures Judged(Slots(None, 0, 0), OneQueue([a, b]), c, Account(0, 60, true, true), Success([a]), OneQueue([c]))
  {
    ReportOmitsOne();
    JudgedOne(Slots(None, 0, 0), [a, b], c, Account(0, 60, true, true),
              Admit(Slots(None, 0, 0), 7, [a, b], c, 0, 60));
  }

  lemma SampleExtends(a: Command, b: Command)
    requires a == Sample(1, 0, 1, StakeDelegation)
    requires b == Sample(2, 1, 1, Payment(50))
    ensures Chained(7, [a])
    ensures var o := Admit(Slots(None, 0, 0), 7, [a], b, 0, 60);
            o.Admitted? && o.queue == [a, b] && o.dropped == []
  {
    assert TotalConsumed([a]) == 1 && [a] + [b] == [a, b];
  }

  lemma SampleTotals(a: Command, b: Command, c: Command)
    requires a == Sample(1, 0, 1, StakeDelegation)
    requires b == Sample(2, 1, 1, Payment(50))
    requires c == Sample(3, 0, 10, Payment(10))
    ensures TotalConsumed([a]) == 1 && TotalConsumed([a, b]) == 52 && TotalConsumed([c]) == 20
  {
    assert [a, b][0] == a && [a, b][1..] == [b];
    assert TotalConsumed([b]) == 51;
  }

  lemma TwoAnswers(a: Command, b: Command, c: Command)
    requires a.hash != b.hash && a.hash != c.hash
    ensures var results: seq<Verdict> := [Success([]), Success([a])];
            NotDropped(Added([b, c], results), HashesOf(DroppedForAdd(results))) == [b, c]
  {
    var r1: Verdict := Success([]);
    var r2: Verdict := Success([a]);
    AnswersSnoc([], [], b, r1);
    AnswersSnoc([b], [r1], c, r2);
    assert [] + [b] == [b] && [b] + [c] == [b, c] && [] + [r1] == [r1] && [r1] + [r2] == [r1, r2];
    assert DroppedForAdd([r1, r2]) == [a] && Added([b, c], [r1, r2]) == [b, c];
    var dropped := HashesOf([a]);
    assert b.hash !in dropped && c.hash !in dropped;
    NotDroppedSnoc([], b, dropped);
    NotDroppedSnoc([b], c, dropped);
  }

  // ----- A diff that fails

  /** A new pool, and a diff of a command that installs a key and one of an unknown fee payer. */
  method FailedDiffUncounted(vk: VerificationKey) returns (p: TransactionPool)
    ensures fresh(p) && p.pool.Valid() && p.verificationKeyTable.Valid() && !p.Balanced()
  {
    p := new TransactionPool(None, 3000);
    var c, stranger := Sample(1, 0, 1, ZkApp([(7, vk)])), Sample(2, 0, 1, StakeDelegation).(sender := 8);
    var diff := [c, stranger];
    ghost var reg := PairRegistered(c, stranger, p.pool.allBySender);
    ghost var results, states := ApplyPair(p, diff, map[7 := Account(0, 60, true, true)], reg);
    assert diff[..1] == [c];
    FirstIsTaken(c, vk, results, states);
  }

  lemma PairRegistered(c: Command, d: Command, qs: Queues) returns (reg: map<Hash, Command>)
    requires c.hash != d.hash && qs == map[]
    ensures Registered(reg, AllCommands(qs) + Elems([c, d]))
  {
    reg := map[c.hash := c, d.hash := d];
    assert AllCommands(qs) == {};
  }

  /** A diff of two commands, with an account for the first only. */
  method ApplyPair(p: TransactionPool, diff: seq<Command>, accounts: map<AccountId, Account>, ghost reg: map<Hash, Command>)
      returns (ghost results: seq<Verdict>, ghost states: seq<Queues>)
    requires p.pool.Valid() && p.Balanced() && p.pool.size + |diff| <= U32_SIZE
    requires Registered(reg, AllCommands(p.pool.allBySender) + Elems(diff))
    requires |diff| == 2 && diff[0].sender in accounts && diff[1].sender !in accounts
    modifies p.pool, p.verificationKeyTable, p`leaked
    ensures p.pool.Valid() && p.verificationKeyTable.Valid()
    ensures |results| == 1 && |states| == 2 && states[0] == old(p.pool.allBySender)
    ensures Judged(Slots(p.pool.slotTxEnd, 0, 0), states[0], diff[0], accounts[diff[0].sender], results[0], states[1])
    ensures p.Balanced() <==>
            UsesAll(Added(diff[..1], results)) == UsesAll(DroppedForAdd(results)) + Leaked(states, results)
  {
    var _, answers, pools, _, _, _ := p.Apply(0, 0, diff, accounts, reg);
    results, states := answers, pools;
    FirstAnswered(Slots(p.pool.slotTxEnd, 0, 0), diff, accounts, results, states);
  }

  lemma FirstAnswered(at: Slots, diff: seq<Command>, accounts: map<AccountId, Account>, results: seq<Verdict>,
                      states: seq<Queues>)
    requires |diff| == 2 && diff[0].sender in accounts && diff[1].sender !in accounts && |results| <= 2
    requires |results| < 2 ==> diff[|results|].sender !in accounts
    requires JudgedInTurn(at, diff[..|results|], accounts, results, states)
    ensures |results| == 1 && |states| == 2
    ensures Judged(at, states[0], diff[0], accounts[diff[0].sender], results[0], states[1])
  {
    WholePrefix(diff);
    if |results| == 2 {
      assert false;
    }
  }

  lemma {:induction false} FirstIsTaken(c: Command, vk: VerificationKey, results: seq<Verdict>, states: seq<Queues>)
    requires c == Sample(1, 0, 1, ZkApp([(7, vk)])) && |results| == 1 && |states| == 2 && states[0] == map[]
    requires Judged(Slots(None, 0, 0), states[0], c, Account(0, 60, true, true), results[0], states[1])
    ensures UsesAll(Added([c], results)) != UsesAll(DroppedForAdd(results)) + Leaked(states, results)
  {
    OneIsTaken(c, vk, results[0], states[0], states[1]);
    OneAnswer(c, results);
    OneLeaks(states, results);
    AllUsesIff([c]);
  }

  lemma {:induction false} OneAnswer(c: Command, results: seq<Verdict>)
    requires |results| == 1 && results[0] == Success([])
    ensures Added([c], results) == [c] && DroppedForAdd(results) == []
  {
    AnswersSnoc([], [], c, results[0]);
    assert [] + [c] == [c] && [] + [results[0]] == results;
  }

  lemma OneLeaks(states: seq<Queues>, results: seq<Verdict>)
    requires |results| == 1 && |states| == 2 && OmittedAt(states[0], states[1], results[0]) == {}
    ensures Leaked(states, results) == multiset{}
  {
    assert results[..0] == [];
  }

  lemma {:induction false} OneIsTaken(c: Command, vk: VerificationKey, r: Verdict, before: Queues, after: Queues)
    requires c == Sample(1, 0, 1, ZkApp([(7, vk)])) && before == map[]
    requires Judged(Slots(None, 0, 0), before, c, Account(0, 60, true, true), r, after)
    ensures r == Success([]) && OmittedAt(before, after, r) == {}
    ensures TotalConsumed([c]) < U64_SIZE && after == OneQueue([c])
  {
    assert AllCommands(before) == {} && QueueOf(before, 7) == [];
    EmptyAdmits(c, vk);
  }

  lemma EmptyAdmits(c: Command, vk: VerificationKey)
    requires c == Sample(1, 0, 1, ZkApp([(7, vk)]))
    ensures var o := Admit(Slots(None, 0, 0), 7, [], c, 0, 60);
            Chained(7, []) && o.Admitted? && o.dropped == [] && o.queue == [c] && TotalConsumed([c]) == 1
  {
  }

  // ----- Runs of diffs and new best tips


  datatype Event =
    | NewDiff(sinceGenesis: U32, current: U32, diff: seq<Command>, accounts: map<AccountId, Account>)
    | NewBestTip(accounts: map<AccountId, Account>)

  /**
   * An event that was gone through: the pool before and after, and for a diff its answers, the pools
   * between them, the pools between the rounds of eviction and where each round cut.
   */
  datatype Passed = Passed(before: Queues, results: seq<Verdict>, states: seq<Queues>, rounds: seq<Queues>,
                           victims: seq<Command>, after: Queues)

  ghost predicate PassedThrough(txEnd: Option<U32>, maxSize: nat, e: Event, p: Passed) {
    match e
    case NewDiff(sinceGenesis, current, diff, accounts) =>
      && JudgedInTurn(Slots(txEnd, sinceGenesis, current), diff, accounts, p.results, p.states)
      && p.states[0] == p.before && EvictionRounds(p.rounds, p.victims, maxSize)
      && p.rounds[0] == p.states[|diff|] && p.rounds[|p.victims|] == p.after
    case NewBestTip(accounts) => RevalidatedTo(p.before, p.after, EntirePool, Supplied(accounts))
  }

  /** No key gets lost: a replacement pushes out none, and the new accounts support every command with one. */
  ghost predicate LosesNoKey(txEnd: Option<U32>, e: Event, p: Passed) {
    match e
    case NewDiff(sinceGenesis, current, diff, accounts) =>
      |p.states| == |diff| + 1 && NoKeyPushedOut(Slots(txEnd, sinceGenesis, current), diff, accounts, p.states)
    case NewBestTip(accounts) => NoKeyUnsupported(p.before, accounts)
  }

  /** The events were gone through one after another, from the first pool to the last. */
  ghost predicate IsHistory(txEnd: Option<U32>, maxSize: nat, events: seq<Event>, history: seq<Passed>, first: Queues,
                            last: Queues)
    requires |history| <= |events|
  {
    if history == [] then last == first
    else
      var n := |history| - 1;
      && PassedThrough(txEnd, maxSize, events[n], history[n]) && history[n].after == last
      && IsHistory(txEnd, maxSize, events, history[..n], first, history[n].before)
  }

  ghost predicate NoneLosesKey(txEnd: Option<U32>, events: seq<Event>, history: seq<Passed>)
    requires |history| <= |events|
  {
    forall i | 0 <= i < |history| :: LosesNoKey(txEnd, events[i], history[i])
  }

  lemma {:induction false} HistorySnoc(txEnd: Option<U32>, maxSize: nat, events: seq<Event>, history: seq<Passed>,
                                       first: Queues, last: Queues, p: Passed)
    requires |history| < |events| && IsHistory(txEnd, maxSize, events, history, first, last)
    requires PassedThrough(txEnd, maxSize, events[|history|], p) && p.before == last
    ensures IsHistory(txEnd, maxSize, events, history + [p], first, p.after)
    ensures NoneLosesKey(txEnd, events, history + [p]) <==>
            NoneLosesKey(txEnd, events, history) && LosesNoKey(txEnd, events[|history|], p)
  {
    assert (history + [p])[..|history|] == history;
    LosesSnoc(txEnd, events, history, p);
  }

  lemma {:induction false} LosesSnoc(txEnd: Option<U32>, events: seq<Event>, history: seq<Passed>, p: Passed)
    requires |history| < |events|
    ensures NoneLosesKey(txEnd, events, history + [p]) <==>
            NoneLosesKey(txEnd, events, history) && LosesNoKey(txEnd, events[|history|], p)
  {
    var longer := history + [p];
    assert longer[|history|] == p;
    forall i | 0 <= i < |history| ensures longer[i] == history[i] {
    }
  }

  /** One event. Only a diff with an unknown fee payer fails. */
  method PassEvent(pool: TransactionPool, e: Event, ghost reg: map<Hash, Command>, ghost universe: set<Command>)
      returns (passed: bool, ghost p: Passed)
    requires pool.pool.Valid() && pool.Balanced() && pool.pool.size <= pool.poolMaxSize
    requires AllCommands(pool.pool.allBySender) <= universe && Registered(reg, universe)
    requires e.NewDiff? ==> Elems(e.diff) <= universe && pool.poolMaxSize + |e.diff| <= U32_SIZE
    modifies pool.pool, pool.verificationKeyTable, pool`leaked
    ensures pool.pool.Valid() && pool.verificationKeyTable.Valid()
    ensures !passed <==> e.NewDiff? && exists c | c in e.diff :: c.sender !in e.accounts
    ensures passed ==>
              && pool.Balanced() && pool.pool.size <= pool.poolMaxSize
              && AllCommands(pool.pool.allBySender) <= universe
              && PassedThrough(pool.pool.slotTxEnd, pool.poolMaxSize, e, p)
              && p.before == old(pool.pool.allBySender) && p.after == pool.pool.allBySender
              && (pool.leaked == multiset{} <==> old(pool.leaked) == multiset{} && LosesNoKey(pool.pool.slotTxEnd, e, p))
  {
    ghost var before, leaked := pool.pool.allBySender, pool.leaked;
    if e.NewBestTip? {
      var dropped := pool.OnNewBestTip(e.accounts);
      BagEmptyIff(leaked, UsesAll(dropped.value));
      return true, Passed(before, [], [], [], [], pool.pool.allBySender);
    }
    WithinRegistered(reg, universe, AllCommands(before) + Elems(e.diff));
    var r, results, states, rounds, victims, _ := pool.Apply(e.sinceGenesis, e.current, e.diff, e.accounts, reg);
    passed, p := r.Success?, Passed(before, results, states, rounds, victims, pool.pool.allBySender);
    if passed {
      WholePrefix(e.diff);
      LeaksNothingIff(Slots(pool.pool.slotTxEnd, e.sinceGenesis, e.current), e.diff, e.accounts, results, states);
      BagEmptyIff(leaked, Leaked(states, results));
    }
  }

  /**
   * Through any run of diffs and new best tips, up to the first diff that fails, the table counts
   * the keys of the pooled commands, and counts no more than those exactly when no event lost a key.
   */
  method ApplyAll(pool: TransactionPool, events: seq<Event>, ghost reg: map<Hash, Command>, ghost universe: set<Command>)
      returns (applied: nat, ghost history: seq<Passed>)
    requires pool.pool.Valid() && pool.Balanced() && pool.pool.size <= pool.poolMaxSize
    requires AllCommands(pool.pool.allBySender) <= universe && Registered(reg, universe)
    requires forall i | 0 <= i < |events| && events[i].NewDiff? ::
               Elems(events[i].diff) <= universe && pool.poolMaxSize + |events[i].diff| <= U32_SIZE
    modifies pool.pool, pool.verificationKeyTable, pool`leaked
    ensures pool.pool.Valid() && pool.verificationKeyTable.Valid() && applied <= |events|
    ensures applied < |events| ==>
              events[applied].NewDiff? && exists c | c in events[applied].diff :: c.sender !in events[applied].accounts
    ensures applied == |events| ==>
              && |history| == |events| && pool.pool.size <= pool.poolMaxSize
              && IsHistory(pool.pool.slotTxEnd, pool.poolMaxSize, events, history, old(pool.pool.allBySender),
                           pool.pool.allBySender)
              && var used := UsesIn(AllCommands(pool.pool.allBySender));
                 var outstanding := multiset(pool.verificationKeyTable.outstanding);
                 && used <= outstanding
                 && (used == outstanding <==>
                     old(pool.leaked) == multiset{} && NoneLosesKey(pool.pool.slotTxEnd, events, history))
  {
    ghost var first := pool.pool.allBySender;
    applied, history := 0, [];
    while applied < |events|
      invariant applied == |history| <= |events|
      invariant pool.pool.Valid() && pool.Balanced() && pool.pool.size <= pool.poolMaxSize
      invariant AllCommands(pool.pool.allBySender) <= universe
      invariant IsHistory(pool.pool.slotTxEnd, pool.poolMaxSize, events, history, first, pool.pool.allBySender)
      invariant pool.leaked == multiset{} <==>
                old(pool.leaked) == multiset{} && NoneLosesKey(pool.pool.slotTxEnd, events, history)
    {
      ghost var last := pool.pool.allBySender;
      var passed, p := PassEvent(pool, events[applied], reg, universe);
      if !passed {
        return;
      }
      HistorySnoc(pool.pool.slotTxEnd, pool.poolMaxSize, events, history, first, last, p);
      applied, history := applied + 1, history + [p];
    }
    CoveredExactlyIff(pool);
  }

  lemma WithinRegistered(reg: map<Hash, Command>, universe: set<Command>, cs: set<Command>)
    requires Registered(reg, universe) && cs <= universe
    ensures Registered(reg, cs)
  {
  }

  /** The outstanding uses cover those of the pooled commands, and are no more exactly when nothing leaked. */
  lemma CoveredExactlyIff(pool: TransactionPool)
    requires pool.Balanced()
    ensures var used, outstanding := UsesIn(AllCommands(pool.pool.allBySender)), multiset(pool.verificationKeyTable.outstanding);
            used <= outstanding && (used == outstanding <==> pool.leaked == multiset{})
  {
    var used := UsesIn(AllCommands(pool.pool.allBySender));
    forall u: Use ensures (used + pool.leaked)[u] == used[u] + pool.leaked[u] {
    }
  }

  /** Every key that a pooled command installs is in the table. */
  lemma PooledKeysAreKnown(pool: TransactionPool, c: Command, v: (AccountId, VerificationKey))
    requires pool.Balanced() && c in AllCommands(pool.pool.allBySender) && c.body.ZkApp? && v in c.body.vks
    ensures v.1.hash in pool.verificationKeyTable.verificationKeys
  {
    var uses := pool.verificationKeyTable.outstanding;
    ListedIsUsed(ExtractVks(c), v);
    UsesAt(AllCommands(pool.pool.allBySender), c);
    CountIsMultiplicity(uses, UseOf(v));
    UseWithinKey(uses, UseOf(v));
  }

  lemma {:induction false} ListedIsUsed(vks: seq<(AccountId, VerificationKey)>, v: (AccountId, VerificationKey))
    requires v in vks
    ensures UseOf(v) in UsesOfList(vks)
  {
    if vks[0] != v {
      ListedIsUsed(vks[1..], v);
    }
  }

  // ----- A best tip that drops a key

  /** A new pool, a diff of one command that installs a key, and a best tip that does not know its fee payer. */
  method TipLeavesKeyCounted(vk: VerificationKey) returns (p: TransactionPool)
    ensures fresh(p) && p.pool.Valid() && p.Balanced()
    ensures UsesIn(AllCommands(p.pool.allBySender)) != multiset(p.verificationKeyTable.outstanding)
  {
    p := new TransactionPool(None, 3000);
    var c := Sample(1, 0, 1, ZkApp([(7, vk)]));
    AddToEmpty(p, c, Account(0, 60, true, true), vk);
    ghost var before := p.pool.allBySender;
    var dropped := p.OnNewBestTip(map[]);
    UnpaidIsDropped(before, c, vk);
    BagEmptyIff(multiset{}, UsesAll(dropped.value));
    CoveredExactlyIff(p);
  }

  method AddToEmpty(p: TransactionPool, c: Command, account: Account, ghost vk: VerificationKey)
    requires p.pool.Valid() && p.Balanced() && p.pool.allBySender == map[] && p.pool.slotTxEnd == None
    requires p.pool.size == 0 && p.poolMaxSize == 3000 && p.leaked == multiset{}
    requires c == Sample(1, 0, 1, ZkApp([(7, vk)])) && account == Account(0, 60, true, true)
    modifies p.pool, p.verificationKeyTable, p`leaked
    ensures p.pool.Valid() && p.Balanced() && p.leaked == multiset{}
    ensures TotalConsumed([c]) < U64_SIZE && p.pool.allBySender == OneQueue([c])
  {
    var e := NewDiff(0, 0, [c], map[c.sender := account]);
    assert AllCommands(p.pool.allBySender) == {};
    var _, passed := PassEvent(p, e, map[c.hash := c], {c});
    OneIsKept(e, passed, c, vk);
  }

  lemma OneIsKept(e: Event, p: Passed, c: Command, vk: VerificationKey)
    requires e == NewDiff(0, 0, [c], map[c.sender := Account(0, 60, true, true)])
    requires c == Sample(1, 0, 1, ZkApp([(7, vk)])) && p.before == map[] && PassedThrough(None, 3000, e, p)
    ensures LosesNoKey(None, e, p)
    ensures TotalConsumed([c]) < U64_SIZE && p.after == OneQueue([c])
  {
    assert [c][0] == c;
    OneIsTaken(c, vk, p.results[0], p.states[0], p.states[1]);
    OneLeaks(p.states, p.results);
    LeaksNothingIff(Slots(None, 0, 0), [c], e.accounts, p.results, p.states);
    NothingEvicted(c, p.rounds, p.victims);
  }

  lemma NothingEvicted(c: Command, rounds: seq<Queues>, victims: seq<Command>)
    requires Chained(7, [c]) && TotalConsumed([c]) < U64_SIZE
    requires EvictionRounds(rounds, victims, 3000) && rounds[0] == OneQueue([c])
    ensures victims == []
  {
    OneQueueHolds([c]);
    assert Elems([c]) == {c};
  }

  lemma UnpaidIsDropped(qs: Queues, c: Command, vk: VerificationKey)
    requires c == Sample(1, 0, 1, ZkApp([(7, vk)])) && TotalConsumed([c]) < U64_SIZE && qs == OneQueue([c])
    ensures !NoKeyUnsupported(qs, map[])
  {
    assert Chained(7, [c]);
    OneQueueHolds([c]);
    assert c in Elems([c]);
    assert AffordableLength([c], 0) == 0;
    assert Kept([c], EMPTY_ACCOUNT) == [];
  }

  // ----- Runs

  /** The operations that change a pool. */
  datatype Operation =
    | Backtrack(sinceGenesis: U32, current: U32, cmd: Command)
    | Gossip(sinceGenesis: U32, current: U32, cmd: Command, accountNonce: U32, balance: U64)
    | RemoveMember(cmd: Command)
    | Expire(slot: U32)
    | EvictLowest
    | RevalidateAgainst(kind: RevalidateKind, getAccount: AccountId -> Option<Account>)

  /** What an operation makes of the queues, whatever it answers. */
  ghost predicate Moves(txEnd: Option<U32>, qs: Queues, op: Operation, next: Queues) {
    match op
    case Backtrack(sinceGenesis, current, cmd) =>
      var b := Backtracked(Slots(txEnd, sinceGenesis, current), QueueOf(qs, cmd.sender), cmd);
      if b.Failure? then next == qs
      else TotalConsumed(b.value) < U64_SIZE && next == WithQueue(qs, cmd.sender, b.value)
    case Gossip(sinceGenesis, current, cmd, accountNonce, balance) =>
      && Chained(cmd.sender, QueueOf(qs, cmd.sender))
      && (var o := Admit(Slots(txEnd, sinceGenesis, current), cmd.sender, QueueOf(qs, cmd.sender), cmd,
                         accountNonce, balance);
          if o.Rejected? then next == qs
          else TotalConsumed(o.queue) <= balance && next == WithQueue(qs, cmd.sender, o.queue))
    case RemoveMember(cmd) => CutAt(qs, cmd, next)
    case Expire(slot) =>
      forall s: AccountId :: QueueOf(next, s) == QueueOf(qs, s)[..FirstExpired(QueueOf(qs, s), slot)]
    case EvictLowest =>
      if AllCommands(qs) == {} then next == qs
      else exists c :: IsLowest(c, AllCommands(qs)) && CutAt(qs, c, next)
    case RevalidateAgainst(kind, getAccount) =>
      if forall s | s in qs && Checked(kind, s) :: getAccount(s).Some? then RevalidatedTo(qs, next, kind, getAccount)
      else exists left :: PartlyRevalidated(qs, next, left, kind, getAccount)
  }

  /** The operation puts the command in, at a slot that allows it. */
  ghost predicate Brings(txEnd: Option<U32>, op: Operation, c: Command) {
    match op
    case Backtrack(sinceGenesis, current, cmd) =>
      c == cmd && Timely(Slots(txEnd, sinceGenesis, current), c) && Cost([c]) < U64_SIZE
    case Gossip(sinceGenesis, current, cmd, _, _) => c == cmd && Acceptable(Slots(txEnd, sinceGenesis, current), c)
    case _ => false
  }

  lemma EntryWithin(txEnd: Option<U32>, qs: Queues, op: Operation, next: Queues, c: Command)
    requires Moves(txEnd, qs, op, next) && (op.Backtrack? || op.Gossip?) && c in AllCommands(next)
    ensures c in AllCommands(qs) || Brings(txEnd, op, c)
  {
    var cmd := op.cmd;
    var at, q := Slots(txEnd, op.sinceGenesis, op.current), QueueOf(qs, cmd.sender);
    GateIff(at, cmd);
    if op.Backtrack? {
      var b := Backtracked(at, q, cmd);
      if b.Success? {
        CostBehind([], cmd);
        assert [] + [cmd] == [cmd];
        WithQueueWithin(qs, cmd.sender, b.value);
        assert forall d | d in b.value :: d == cmd || d in q;
      }
    } else {
      var o := Admit(at, cmd.sender, q, cmd, op.accountNonce, op.balance);
      if o.Admitted? {
        AdmittedElems(at, cmd.sender, q, cmd, op.accountNonce, op.balance);
        WithQueueWithin(qs, cmd.sender, o.queue);
      }
    }
  }

  lemma ExitWithin(txEnd: Option<U32>, qs: Queues, op: Operation, next: Queues)
    requires Moves(txEnd, qs, op, next) && !op.Backtrack? && !op.Gossip?
    ensures AllCommands(next) <= AllCommands(qs)
  {
    match op {
      case RemoveMember(cmd) => CutLeaves(qs, cmd, next);
      case EvictLowest =>
        if AllCommands(qs) != {} {
          var c :| IsLowest(c, AllCommands(qs)) && CutAt(qs, c, next);
          CutLeaves(qs, c, next);
        }
      case Expire(slot) =>
        ShorterQueues(qs, next);
      case RevalidateAgainst(kind, getAccount) =>
        forall s: AccountId ensures Elems(QueueOf(next, s)) <= Elems(QueueOf(qs, s)) {
        }
        ShorterQueues(qs, next);
    }
  }

  lemma ShorterQueues(qs: Queues, next: Queues)
    requires forall s: AccountId :: Elems(QueueOf(next, s)) <= Elems(QueueOf(qs, s))
    ensures AllCommands(next) <= AllCommands(qs)
  {
    forall c | c in AllCommands(next) ensures c in AllCommands(qs) {
      var s :| s in next && c in next[s].queue;
      assert c in Elems(QueueOf(next, s));
    }
  }

  /**
   * Whatever a run has in its pool, one of its operations put there: before the end of transactions,
   * before the command expired, at a cost that fits 64 bits and, if gossiped, with its fee in the
   * default token.
   */
  lemma {:induction false} PooledWasBrought(txEnd: Option<U32>, ops: seq<Operation>, states: seq<Queues>, k: nat,
                                            c: Command)
    requires IsRun(txEnd, ops, states) && k < |states| && c in AllCommands(states[k])
    ensures exists j | 0 <= j < k :: Brings(txEnd, ops[j], c)
    decreases k
  {
    if k > 0 {
      var op := ops[k - 1];
      if op.Backtrack? || op.Gossip? {
        EntryWithin(txEnd, states[k - 1], op, states[k], c);
      } else {
        ExitWithin(txEnd, states[k - 1], op, states[k]);
      }
      if c in AllCommands(states[k - 1]) {
        PooledWasBrought(txEnd, ops, states, k - 1, c);
      }
    }
  }

  /** The premises of the model: room in the pool, no hash collision, reserved currency within 64 bits, a member. */
  predicate MeetsPremises(pool: IndexedPool, op: Operation)
    requires pool.Valid()
    reads pool
  {
    match op
    case Backtrack(sinceGenesis, current, cmd) =>
      && FitsPremises(pool, cmd)
      && (Backtracked(Slots(pool.slotTxEnd, sinceGenesis, current), QueueOf(pool.allBySender, cmd.sender), cmd).Success? ==>
            TotalConsumed([cmd] + QueueOf(pool.allBySender, cmd.sender)) < U64_SIZE)
    case Gossip(_, _, cmd, _, _) => FitsPremises(pool, cmd)
    case RemoveMember(cmd) => cmd.hash in pool.allByHash && pool.allByHash[cmd.hash] == cmd
    case _ => true
  }

  ghost predicate IsRun(txEnd: Option<U32>, ops: seq<Operation>, states: seq<Queues>) {
    && 0 < |states| <= |ops| + 1
    && states[0] == map[]
    && forall i | 0 <= i < |states| - 1 :: Moves(txEnd, states[i], ops[i], states[i + 1])
  }

  lemma RunSnoc(txEnd: Option<U32>, ops: seq<Operation>, states: seq<Queues>, next: Queues)
    requires IsRun(txEnd, ops, states) && |states| <= |ops|
    requires Moves(txEnd, states[|states| - 1], ops[|states| - 1], next)
    ensures IsRun(txEnd, ops, states + [next])
  {
  }

  /**
   * Any sequence of operations from a new pool keeps it consistent, and takes its queues through
   * the states the operations call for. The run ends early only where a premise of the model fails.
   */
  method Run(slotTxEnd: Option<U32>, ops: seq<Operation>) returns (pool: IndexedPool, ghost states: seq<Queues>)
    ensures fresh(pool) && pool.Valid()
    ensures IsRun(slotTxEnd, ops, states) && states[|states| - 1] == pool.allBySender
    ensures |states| <= |ops| ==> !MeetsPremises(pool, ops[|states| - 1])
  {
    pool := new IndexedPool(slotTxEnd);
    states := [pool.allBySender];
    for i := 0 to |ops|
      invariant fresh(pool) && pool.Valid() && pool.slotTxEnd == slotTxEnd
      invariant |states| == i + 1 && IsRun(slotTxEnd, ops, states) && states[i] == pool.allBySender
    {
      var within;
      within, states := RunStep(slotTxEnd, pool, ops, i, states);
      if !within {
        return;
      }
    }
  }

  method RunStep(ghost slotTxEnd: Option<U32>, pool: IndexedPool, ops: seq<Operation>, i: nat, ghost states: seq<Queues>)
      returns (within: bool, ghost states': seq<Queues>)
    requires pool.Valid() && pool.slotTxEnd == slotTxEnd && i < |ops|
    requires |states| == i + 1 && IsRun(slotTxEnd, ops, states) && states[i] == pool.allBySender
    modifies pool
    ensures pool.Valid() && IsRun(slotTxEnd, ops, states') && states'[|states'| - 1] == pool.allBySender
    ensures |states'| == if within then i + 2 else i + 1
    ensures !within ==> !MeetsPremises(pool, ops[i])
  {
    within := Step(pool, ops[i]);
    states' := states;
    if within {
      RunSnoc(slotTxEnd, ops, states, pool.allBySender);
      states' := states + [pool.allBySender];
    }
  }

  method Step(pool: IndexedPool, op: Operation) returns (within: bool)
    requires pool.Valid()
    modifies pool
    ensures pool.Valid()
    ensures within <==> old(MeetsPremises(pool, op))
    ensures if within then Moves(pool.slotTxEnd, old(pool.allBySender), op, pool.allBySender) else unchanged(pool)
  {
    within := MeetsPremises(pool, op);
    if within {
      if op.Backtrack? || op.Gossip? {
        Enter(pool, op);
      } else {
        Leave(pool, op);
      }
    }
  }

  /** The operations that bring a command in. */
  method Enter(pool: IndexedPool, op: Operation)
    requires pool.Valid() && MeetsPremises(pool, op) && (op.Backtrack? || op.Gossip?)
    modifies pool
    ensures pool.Valid() && Moves(pool.slotTxEnd, old(pool.allBySender), op, pool.allBySender)
  {
    match op {
      case Backtrack(sinceGenesis, current, cmd) =>
        var _ := pool.AddFromBacktrack(sinceGenesis, current, cmd);
      case Gossip(sinceGenesis, current, cmd, accountNonce, balance) =>
        var _ := pool.AddFromGossip(sinceGenesis, current, cmd, accountNonce, balance);
    }
  }

  /** The operations that only take commands out. */
  method Leave(pool: IndexedPool, op: Operation)
    requires pool.Valid() && MeetsPremises(pool, op) && !op.Backtrack? && !op.Gossip?
    modifies pool
    ensures pool.Valid() && Moves(pool.slotTxEnd, old(pool.allBySender), op, pool.allBySender)
  {
    match op {
      case RemoveMember(cmd) =>
        var _, _ := pool.RemoveWithDependents(cmd);
      case Expire(slot) =>
        var _ := pool.RemoveExpired(slot);
      case EvictLowest =>
        var _ := pool.RemoveLowestFee();
      case RevalidateAgainst(kind, getAccount) =>
        var _, _ := pool.Revalidate(kind, getAccount);
    }
  }

  /** There is room for one more command, and no other command has this one's hash. */
  predicate FitsPremises(pool: IndexedPool, cmd: Command)
    requires pool.Valid()
    reads pool
    ensures FitsPremises(pool, cmd) ==> NoCollision(AllCommands(pool.allBySender), cmd)
  {
    pool.size < U32_SIZE && (cmd.hash in pool.allByHash ==> pool.allByHash[cmd.hash] == cmd)
  }

  lemma RemovedSome(all: set<Command>, left: set<Command>, removed: seq<Command>)
    requires removed != [] && Elems(removed) <= all && left == all - Elems(removed)
    ensures |left| < |all|
  {
    assert removed[0] in Elems(removed);
    SubsetSize(left, all - {removed[0]});
  }
}
