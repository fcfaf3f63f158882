/** When a command is admitted, and why not: told from the queue, the account and the command alone. */
module AdmissionRule {
  import opened Prelude
  import opened Commands
  import opened SenderQueues
  import opened Admission

  // ----- What a queue costs

  /** What the payments among the commands move. */
  function TotalAmounts(q: seq<Command>): nat {
    if q == [] then 0 else (if q[0].body.Payment? then q[0].body.amount else 0) + TotalAmounts(q[1..])
  }

  function Cost(q: seq<Command>): nat {
    TotalFees(q) + TotalAmounts(q)
  }

  /** The currency a queue reserves is its fees and what its payments move. */
  lemma {:induction false} ReservedIsCost(q: seq<Command>)
    ensures TotalConsumed(q) == Cost(q)
  {
    if q != [] {
      ReservedIsCost(q[1..]);
    }
  }

  lemma CostBehind(q: seq<Command>, c: Command)
    ensures Cost(q + [c]) == TotalConsumed(q) + Consumed(c)
  {
    ReservedIsCost(q + [c]);
    TotalConsumedConcat(q, [c]);
  }

  /** The balance pays all fees and all payments of an admitted queue. */
  lemma AdmittedIsPaidFor(at: Slots, s: AccountId, q: seq<Command>, c: Command, accountNonce: U32, balance: U64)
    requires Chained(s, q) && |q| < U32_SIZE && c.sender == s
    requires Admit(at, s, q, c, accountNonce, balance).Admitted?
    ensures var q' := Admit(at, s, q, c, accountNonce, balance).queue;
            TotalFees(q') + TotalAmounts(q') <= balance
  {
    AdmittedQueue(at, s, q, c, accountNonce, balance);
    ReservedIsCost(Admit(at, s, q, c, accountNonce, balance).queue);
  }

  // ----- The command alone

  /** Transactions have not ended and the command has not expired. */
  predicate Timely(at: Slots, c: Command) {
    && (at.txEnd.Some? ==> at.current < at.txEnd.value)
    && at.sinceGenesis <= c.validUntil
  }

  /** Timely, of a cost that fits 64 bits, and with its fee in the default token. */
  predicate Acceptable(at: Slots, c: Command) {
    Timely(at, c) && Cost([c]) < U64_SIZE && c.feeToken == 1
  }

  lemma GateIff(at: Slots, c: Command)
    ensures Gate(at, c).None? <==> Acceptable(at, c)
  {
    CostBehind([], c);
    assert [] + [c] == [c];
  }

  /** What passes behind a queue is what is acceptable and paid for together with it. */
  lemma AppendableIff(at: Slots, q: seq<Command>, c: Command, balance: U64)
    ensures Appendable(at, q, c, balance) <==> Acceptable(at, c) && Cost(q + [c]) <= balance
  {
    GateIff(at, c);
    CostBehind(q, c);
  }

  // ----- Its place in the queue

  /**
   * A command replaces one exactly when the queue starts at the account nonce, holds that nonce and
   * does not reach the end of the 32-bit nonces.
   */
  lemma ReplacesIff(s: AccountId, q: seq<Command>, c: Command, accountNonce: U32)
    requires Chained(s, q)
    ensures Replaces(q, c, accountNonce) <==>
            && q != [] && q[0].nonce == accountNonce && q[0].nonce + |q| < U32_SIZE
            && exists i | 0 <= i < |q| :: q[i].nonce == c.nonce
  {
    if Replaces(q, c, accountNonce) {
      ReplacedPosition(s, q, c, accountNonce);
      LastNonce(s, q);
      assert q[c.nonce - q[0].nonce].nonce == c.nonce;
    } else if q != [] && q[0].nonce + |q| < U32_SIZE {
      LastNonce(s, q);
    }
  }

  lemma LastNonce(s: AccountId, q: seq<Command>)
    requires Chained(s, q) && q != []
    ensures Succ(q[|q| - 1].nonce) == NonceAt(q[0].nonce, |q|)
  {
  }

  ghost predicate Starts(q: seq<Command>, c: Command, accountNonce: U32, balance: U64) {
    q == [] && c.nonce == accountNonce && Cost([c]) <= balance
  }

  ghost predicate Extends(q: seq<Command>, c: Command, balance: U64) {
    q != [] && c.nonce == (q[|q| - 1].nonce + 1) % U32_SIZE && Cost(q + [c]) <= balance
  }

  /** The fee is higher than all fees the command pushes out: of `q[i]`, and from the first misfit behind it on. */
  ghost predicate Outbids(at: Slots, q: seq<Command>, i: nat, c: Command, balance: U64)
    requires i < |q|
  {
    exists e: nat :: FirstMisfit(at, q[i := c], i + 1, e, balance) && c.fee > q[i].fee + TotalFees(q[e..])
  }

  ghost predicate TakesOver(at: Slots, q: seq<Command>, c: Command, accountNonce: U32, balance: U64, i: nat) {
    && i < |q| && q[i].nonce == c.nonce && q[0].nonce == accountNonce && q[0].nonce + |q| < U32_SIZE
    && Cost(q[..i] + [c]) <= balance && Outbids(at, q, i, c, balance)
  }

  /**
   * A command is admitted if and only if it is acceptable and starts the queue at the account nonce,
   * extends it, or takes over the place of a queued command, each time within the balance.
   */
  lemma AdmittedIff(at: Slots, s: AccountId, q: seq<Command>, c: Command, accountNonce: U32, balance: U64)
    requires Chained(s, q)
    ensures Admit(at, s, q, c, accountNonce, balance).Admitted? <==>
            && Acceptable(at, c)
            && (Starts(q, c, accountNonce, balance) || Extends(q, c, balance)
                || exists i: nat :: TakesOver(at, q, c, accountNonce, balance, i))
  {
    GateIff(at, c);
    CostBehind(q, c);
    if q == [] {
      assert q + [c] == [c];
    } else {
      ReplacesIff(s, q, c, accountNonce);
      if Replaces(q, c, accountNonce) {
        ReplacedPosition(s, q, c, accountNonce);
        var i := c.nonce - q[0].nonce;
        ReplacementIff(at, q, i, c, balance);
        OnePlace(at, s, q, c, accountNonce, balance, i);
      } else {
        NoPlace(at, s, q, c, accountNonce, balance);
      }
    }
  }

  lemma {:induction false} ReplacementIff(at: Slots, q: seq<Command>, i: nat, c: Command, balance: U64)
    requires i < |q|
    ensures Replacement(at, q, i, c, balance).Admitted? <==>
            Cost(q[..i] + [c]) <= balance && Outbids(at, q, i, c, balance)
  {
    CostBehind(q[..i], c);
    MisfitBehind(at, q, i, c, balance);
    OutbidsAt(at, q, i, c, balance, SurvivingEnd(at, q, i, c, balance));
  }

  /** The survivors end at the first misfit, and the fees pushed out are those of `q[i]` and from there on. */
  lemma {:induction false} MisfitBehind(at: Slots, q: seq<Command>, i: nat, c: Command, balance: U64)
    requires i < |q|
    ensures var e := SurvivingEnd(at, q, i, c, balance);
            && FirstMisfit(at, q[i := c], i + 1, e, balance)
            && TotalFees(Evicted(q, i, Survivors(at, q, i, c, balance))) == q[i].fee + TotalFees(q[e..])
  {
    ReplacementParts(at, q, i, c, balance);
    ReinsertedEnd(at, q[i := c], i + 1, balance);
    BehindOverwritten(q, i, c, SurvivingEnd(at, q, i, c, balance));
  }

  lemma BehindOverwritten(q: seq<Command>, i: nat, c: Command, e: nat)
    requires i < e <= |q|
    ensures q[i := c][e..] == q[e..]
  {
  }

  lemma {:induction false} OutbidsAt(at: Slots, q: seq<Command>, i: nat, c: Command, balance: U64, e: nat)
    requires i < |q| && FirstMisfit(at, q[i := c], i + 1, e, balance)
    ensures Outbids(at, q, i, c, balance) <==> c.fee > q[i].fee + TotalFees(q[e..])
  {
    if f: nat :| FirstMisfit(at, q[i := c], i + 1, f, balance) && c.fee > q[i].fee + TotalFees(q[f..]) {
      MisfitUnique(at, q[i := c], i + 1, e, f, balance);
    }
  }

  lemma MisfitUnique(at: Slots, w: seq<Command>, m: nat, e: nat, e': nat, balance: U64)
    requires FirstMisfit(at, w, m, e, balance) && FirstMisfit(at, w, m, e', balance)
    ensures e == e'
  {
  }

  lemma {:induction false} OnePlace(at: Slots, s: AccountId, q: seq<Command>, c: Command, accountNonce: U32, balance: U64, i: nat)
    requires Chained(s, q) && Replaces(q, c, accountNonce) && i < |q|
    requires q[i].nonce == c.nonce && q[0].nonce + |q| < U32_SIZE
    ensures (exists j: nat :: TakesOver(at, q, c, accountNonce, balance, j)) <==>
            Cost(q[..i] + [c]) <= balance && Outbids(at, q, i, c, balance)
    ensures !Extends(q, c, balance)
  {
    if Cost(q[..i] + [c]) <= balance && Outbids(at, q, i, c, balance) {
      assert TakesOver(at, q, c, accountNonce, balance, i);
    }
    if j: nat :| TakesOver(at, q, c, accountNonce, balance, j) {
      OneNonce(s, q, i, j);
    }
  }

  lemma OneNonce(s: AccountId, q: seq<Command>, i: nat, j: nat)
    requires Chained(s, q) && i < |q| && j < |q| && q[i].nonce == q[j].nonce
    ensures i == j
  {
    ChainedDistinct(s, q);
  }

  lemma NoPlace(at: Slots, s: AccountId, q: seq<Command>, c: Command, accountNonce: U32, balance: U64)
    requires Chained(s, q) && !Replaces(q, c, accountNonce)
    ensures !exists i: nat :: TakesOver(at, q, c, accountNonce, balance, i)
  {
    ReplacesIff(s, q, c, accountNonce);
  }

  // ----- Which follows

  /** A queue that starts at the account nonce, or is empty, starts there after every admission. */
  lemma AdmittedStartsAtAccount(at: Slots, s: AccountId, q: seq<Command>, c: Command, accountNonce: U32, balance: U64)
    requires Chained(s, q) && (q != [] ==> q[0].nonce == accountNonce)
    requires Admit(at, s, q, c, accountNonce, balance).Admitted?
    ensures var q' := Admit(at, s, q, c, accountNonce, balance).queue;
            q' != [] && q'[0].nonce == accountNonce
  {
    if Replaces(q, c, accountNonce) {
      ReplacedPosition(s, q, c, accountNonce);
      ReplacedIsSpliced(at, s, q, c, accountNonce, balance, c.nonce - q[0].nonce);
    } else {
      AdmittedIsExtended(at, s, q, c, accountNonce, balance);
    }
  }

  /** What is wrong with a command that is refused with an error. */
  ghost predicate Explains(at: Slots, q: seq<Command>, c: Command, accountNonce: U32, balance: U64, error: CommandError) {
    match error
    case AfterSlotTxEnd => at.txEnd.Some? && at.txEnd.value <= at.current
    case Expired => c.validUntil < at.sinceGenesis
    case UnwantedFeeToken => c.feeToken != 1
    case Overflow => Cost([c]) >= U64_SIZE || Overflows(q, c)
    case InvalidNonce => Acceptable(at, c) && HasNoPlace(q, c, accountNonce)
    case InsufficientFunds => Acceptable(at, c) && Exceeds(q, c, balance)
    case InsufficientReplaceFee => Acceptable(at, c) && Underbids(at, q, c, balance)
    case _ => false
  }

  /** Every refusal is explained by its error. */
  lemma RefusedBecause(at: Slots, s: AccountId, q: seq<Command>, c: Command, accountNonce: U32, balance: U64)
    requires Chained(s, q) && Admit(at, s, q, c, accountNonce, balance).Rejected?
    ensures Explains(at, q, c, accountNonce, balance, Admit(at, s, q, c, accountNonce, balance).error)
  {
    GateIff(at, c);
    ReplacesIff(s, q, c, accountNonce);
    if Gate(at, c).Some? {
      CostBehind([], c);
      assert [] + [c] == [c];
    } else if Replaces(q, c, accountNonce) {
      ReplacedPosition(s, q, c, accountNonce);
      RefusedReplacement(at, q, c.nonce - q[0].nonce, c, accountNonce, balance);
    } else if Unaffordable(q, c, balance).Some? && (q != [] ==> c.nonce == Succ(q[|q| - 1].nonce)) {
      RefusedAtEnd(q, c, balance);
    }
  }

  lemma RefusedAtEnd(q: seq<Command>, c: Command, balance: U64)
    requires StandsAt(q, c, |q|) && Unaffordable(q, c, balance).Some?
    ensures var error := Unaffordable(q, c, balance).value;
            if error == Overflow then Overflows(q, c) else error == InsufficientFunds && Exceeds(q, c, balance)
  {
    CostBehind(q, c);
    WholePrefix(q);
  }

  /** Position `i` is where the nonce would have the command stand: behind the queue or in a command's place. */
  ghost predicate StandsAt(q: seq<Command>, c: Command, i: nat) {
    && i <= |q|
    && if i < |q| then q[i].nonce == c.nonce else q != [] ==> c.nonce == (q[i - 1].nonce + 1) % U32_SIZE
  }

  ghost predicate Overflows(q: seq<Command>, c: Command) {
    exists i: nat :: StandsAt(q, c, i) && Cost(q[..i] + [c]) >= U64_SIZE
  }

  ghost predicate Exceeds(q: seq<Command>, c: Command, balance: U64) {
    exists i: nat :: StandsAt(q, c, i) && balance < Cost(q[..i] + [c]) < U64_SIZE
  }

  /** The nonce neither starts the queue, nor follows it, nor is in a queue whose commands can be replaced. */
  ghost predicate HasNoPlace(q: seq<Command>, c: Command, accountNonce: U32) {
    if q == [] then c.nonce != accountNonce
    else
      && c.nonce != (q[|q| - 1].nonce + 1) % U32_SIZE
      && (q[0].nonce == accountNonce && q[0].nonce + |q| < U32_SIZE ==>
            forall i | 0 <= i < |q| :: q[i].nonce != c.nonce)
  }

  /** The command would take a queued one's place but does not pay enough for that. */
  ghost predicate Underbids(at: Slots, q: seq<Command>, c: Command, balance: U64) {
    exists i: nat :: i < |q| && q[i].nonce == c.nonce && !Outbids(at, q, i, c, balance)
  }

  lemma {:induction false} RefusedReplacement(at: Slots, q: seq<Command>, i: nat, c: Command, accountNonce: U32,
                                              balance: U64)
    requires i < |q| && q[i].nonce == c.nonce && Acceptable(at, c) && Replacement(at, q, i, c, balance).Rejected?
    ensures Explains(at, q, c, accountNonce, balance, Replacement(at, q, i, c, balance).error)
  {
    ReplacementIff(at, q, i, c, balance);
    CostBehind(q[..i], c);
    assert StandsAt(q, c, i);
  }
}
