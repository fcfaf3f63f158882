/** What revalidating one sender against its account leaves of the queue. */
module Revalidation {
  import opened Prelude
  import opened Commands
  import opened SenderQueues
  import opened Eviction

  /** The parts of an account that revalidation reads; `balance` is the liquid balance at the slot. */
  datatype Account = Account(nonce: U32, balance: U64, canSend: bool, canIncrementNonce: bool)

  /** Position of the first queued command with the given nonce. */
  function PositionOfNonce(q: seq<Command>, n: U32): (r: Option<nat>)
    ensures r.Some? ==> r.value < |q| && q[r.value].nonce == n
    ensures r.Some? ==> forall j | 0 <= j < r.value :: q[j].nonce != n
    ensures r.None? ==> forall j | 0 <= j < |q| :: q[j].nonce != n
  {
    if q == [] then None
    else if q[0].nonce == n then Some(0)
    else
      var r := PositionOfNonce(q[1..], n);
      if r.None? then None else Some(r.value + 1)
  }

  /** Where the commands that are still applicable begin; the end of the queue when there are none. */
  function FirstApplicable(q: seq<Command>, nonce: U32): (i: nat)
    ensures i <= |q|
    ensures i < |q| ==> q[i].nonce == nonce
  {
    var r := PositionOfNonce(q, nonce);
    if r.Some? then r.value else |q|
  }

  /** Length of the longest prefix of the queue that the balance pays for. */
  function AffordableLength(q: seq<Command>, balance: nat): (k: nat)
    ensures k <= |q|
  {
    if TotalConsumed(q) <= balance then |q| else AffordableLength(q[..|q| - 1], balance)
  }

  /** The queue is given up altogether. */
  predicate Abandoned(q: seq<Command>, a: Account)
    requires q != []
  {
    !(a.canSend && a.canIncrementNonce) || a.nonce < q[0].nonce
  }

  /** Start and end of the part of the queue that survives. */
  function KeptStart(q: seq<Command>, a: Account): (i: nat)
    requires q != []
    ensures i <= |q|
  {
    if Abandoned(q, a) then |q| else FirstApplicable(q, a.nonce)
  }

  function KeptEnd(q: seq<Command>, a: Account): (j: nat)
    requires q != []
    ensures KeptStart(q, a) <= j <= |q|
  {
    KeptStart(q, a) + AffordableLength(q[KeptStart(q, a)..], a.balance)
  }

  function Kept(q: seq<Command>, a: Account): seq<Command> {
    if q == [] then [] else q[KeptStart(q, a)..KeptEnd(q, a)]
  }

  /** In a queue that is not given up, the affordable prefix from the account nonce on is kept. */
  lemma KeptSlice(q: seq<Command>, a: Account)
    requires q != [] && !Abandoned(q, a)
    ensures var rest := q[FirstApplicable(q, a.nonce)..];
            Kept(q, a) == rest[..AffordableLength(rest, a.balance)]
  {
    var i := FirstApplicable(q, a.nonce);
    SliceOfDrop(q, i, AffordableLength(q[i..], a.balance));
  }

  /** The affordable prefix fits the balance, and one command more would not. */
  lemma {:induction false} AffordableIsLongest(q: seq<Command>, balance: nat)
    ensures var k := AffordableLength(q, balance);
            && TotalConsumed(q[..k]) <= balance
            && (k < |q| ==> TotalConsumed(q[..k + 1]) > balance)
    decreases |q|
  {
    if TotalConsumed(q) <= balance {
      assert q[..|q|] == q;
    } else {
      var front := q[..|q| - 1];
      AffordableIsLongest(front, balance);
      var k := AffordableLength(front, balance);
      assert front[..k] == q[..k];
      if k < |front| {
        assert front[..k + 1] == q[..k + 1];
      } else {
        assert q[..k + 1] == q;
      }
    }
  }

  /**
   * What survives is a contiguous part of the queue that starts at the account nonce, is covered by
   * the balance, and could not be one command longer.
   */
  lemma KeptMeaning(s: AccountId, q: seq<Command>, a: Account)
    requires Chained(s, q)
    ensures Chained(s, Kept(q, a))
    ensures TotalConsumed(Kept(q, a)) <= a.balance
    ensures Kept(q, a) != [] ==> Kept(q, a)[0].nonce == a.nonce
    ensures q != [] && KeptStart(q, a) < |q| && KeptEnd(q, a) < |q| ==>
              TotalConsumed(q[KeptStart(q, a)..KeptEnd(q, a) + 1]) > a.balance
  {
    if q != [] {
      var i, j := KeptStart(q, a), KeptEnd(q, a);
      ChainedSlice(s, q, i, j);
      AffordableIsLongest(q[i..], a.balance);
      assert q[i..][..j - i] == q[i..j];
      if j < |q| {
        assert q[i..][..j - i + 1] == q[i..j + 1];
      }
    }
  }

  /** Revalidating a second time against the same account keeps everything. */
  lemma KeptIsStable(s: AccountId, q: seq<Command>, a: Account)
    requires Chained(s, q)
    ensures Kept(Kept(q, a), a) == Kept(q, a)
  {
    var r := Kept(q, a);
    if r != [] {
      KeptMeaning(s, q, a);
      assert r[0].nonce == a.nonce;
      assert !Abandoned(r, a);
      assert FirstApplicable(r, a.nonce) == 0;
      assert r[0..] == r;
    }
  }

  // ----- Which commands are kept, told from the queue and the account

  /**
   * The account may send, its nonce is in the queue at or before the command, the queue does not
   * start past it, and the balance pays for everything from there up to the command.
   */
  ghost predicate Supported(q: seq<Command>, c: Command, a: Account) {
    && a.canSend && a.canIncrementNonce
    && q != [] && q[0].nonce <= a.nonce
    && exists i: nat, j: nat :: PaidFrom(q, c, a, i, j)
  }

  ghost predicate PaidFrom(q: seq<Command>, c: Command, a: Account, i: nat, j: nat) {
    i <= j < |q| && q[i].nonce == a.nonce && q[j] == c && TotalConsumed(q[i..j + 1]) <= a.balance
  }

  /** The affordable prefixes are those up to the affordable length. */
  lemma {:induction false} AffordableIff(q: seq<Command>, balance: nat, k: nat)
    requires k <= |q|
    ensures k <= AffordableLength(q, balance) <==> TotalConsumed(q[..k]) <= balance
    decreases |q|
  {
    TotalConsumedConcat(q[..k], q[k..]);
    assert q[..k] + q[k..] == q;
    if TotalConsumed(q) > balance && k < |q| {
      assert q[..|q| - 1][..k] == q[..k];
      AffordableIff(q[..|q| - 1], balance, k);
    } else if k == |q| {
      assert q[..k] == q;
    }
  }

  /** Exactly the supported commands are kept. */
  lemma KeptIff(s: AccountId, q: seq<Command>, a: Account, c: Command)
    requires Chained(s, q)
    ensures c in Kept(q, a) <==> Supported(q, c, a)
  {
    if q != [] && a.canSend && a.canIncrementNonce && q[0].nonce <= a.nonce {
      if c in Kept(q, a) {
        KeptIsSupported(q, a, c);
      }
      if Supported(q, c, a) {
        SupportedIsKept(s, q, a, c);
      }
    }
  }

  lemma KeptIsSupported(q: seq<Command>, a: Account, c: Command)
    requires q != [] && !Abandoned(q, a) && c in Kept(q, a)
    ensures exists i: nat, j: nat :: PaidFrom(q, c, a, i, j)
  {
    var start := FirstApplicable(q, a.nonce);
    var j :| start <= j < KeptEnd(q, a) && q[j] == c;
    KeptUpTo(q, a, start, j);
    assert PaidFrom(q, c, a, start, j);
  }

  lemma SupportedIsKept(s: AccountId, q: seq<Command>, a: Account, c: Command)
    requires Chained(s, q) && q != [] && !Abandoned(q, a) && Supported(q, c, a)
    ensures c in Kept(q, a)
  {
    var i: nat, j: nat :| PaidFrom(q, c, a, i, j);
    SameNonce(s, q, FirstApplicable(q, a.nonce), i, a.nonce);
    KeptUpTo(q, a, i, j);
    assert Kept(q, a)[j - i] == q[j];
  }

  /** In a chained queue the first applicable command is the only one with the account nonce. */
  lemma SameNonce(s: AccountId, q: seq<Command>, start: nat, i: nat, nonce: U32)
    requires Chained(s, q) && i < |q| && q[i].nonce == nonce && start == FirstApplicable(q, nonce)
    ensures start == i
  {
  }

  lemma KeptUpTo(q: seq<Command>, a: Account, start: nat, j: nat)
    requires q != [] && !Abandoned(q, a) && start == FirstApplicable(q, a.nonce) && start <= j < |q|
    ensures j < KeptEnd(q, a) <==> TotalConsumed(q[start..j + 1]) <= a.balance
  {
    AffordableIff(q[start..], a.balance, j + 1 - start);
    assert q[start..][..j + 1 - start] == q[start..j + 1];
  }

  /**
   * Something is kept if and only if the account may send, the queue holds the account nonce and
   * does not start past it, and the balance pays for that command. What is kept starts with it.
   */
  lemma KeptSomeIff(s: AccountId, q: seq<Command>, a: Account)
    requires Chained(s, q)
    ensures Kept(q, a) != [] <==>
            && a.canSend && a.canIncrementNonce && q != [] && q[0].nonce <= a.nonce
            && exists i | 0 <= i < |q| :: q[i].nonce == a.nonce && Consumed(q[i]) <= a.balance
    ensures forall i | 0 <= i < |q| && q[i].nonce == a.nonce && Kept(q, a) != [] :: Kept(q, a)[0] == q[i]
  {
    if q != [] && !Abandoned(q, a) {
      var start := FirstApplicable(q, a.nonce);
      if start < |q| {
        KeptUpTo(q, a, start, start);
        assert q[start..start + 1] == [q[start]];
        assert TotalConsumed([q[start]]) == Consumed(q[start]);
      }
      forall i | 0 <= i < |q| && q[i].nonce == a.nonce ensures i == start {
        SameNonce(s, q, start, i, a.nonce);
      }
    }
  }

  // ----- The whole pool

  datatype RevalidateKind = EntirePool | Subset(ids: set<AccountId>)

  predicate Checked(kind: RevalidateKind, s: AccountId) {
    kind.EntirePool? || s in kind.ids
  }

  /** The queue of a sender after the whole pool was revalidated. */
  function Revalidated(q: seq<Command>, s: AccountId, kind: RevalidateKind, getAccount: AccountId -> Option<Account>)
    : seq<Command>
  {
    if Checked(kind, s) && getAccount(s).Some? then Kept(q, getAccount(s).value) else q
  }

  lemma RevalidatedIsStable(q: seq<Command>, s: AccountId, kind: RevalidateKind,
                            getAccount: AccountId -> Option<Account>)
    requires Chained(s, q)
    ensures var r := Revalidated(q, s, kind, getAccount);
            Revalidated(r, s, kind, getAccount) == r
  {
    if Checked(kind, s) && getAccount(s).Some? {
      KeptIsStable(s, q, getAccount(s).value);
    }
  }

  /** What a revalidation drops of one queue: everything around the kept part. */
  lemma KeptSplit(q: seq<Command>, i: nat, j: nat, front: seq<Command>, back: seq<Command>)
    requires i <= j <= |q| && NoDuplicates(q)
    requires front == q[..i] && Elems(back) == Elems(q[j..]) && |back| == |q| - j
    ensures NoDuplicates(front + back)
    ensures Elems(front + back) == Elems(q) - Elems(q[i..j])
    ensures Elems(q[i..j]) <= Elems(q)
  {
    ThreeParts(q, i, j);
    ElemsConcat(front, back);
    ElemsSize(q[j..]);
    DistinctBySize(back);
    NoDuplicatesConcat(front, back);
  }

  /** The three parts of a queue that is checked against its account, the last one from the back. */
  lemma AccountSplit(s: AccountId, q: seq<Command>, a: Account)
    requires Chained(s, q) && q != [] && !Abandoned(q, a)
    ensures var i := FirstApplicable(q, a.nonce);
            var rest := q[i..];
            var keep := rest[..AffordableLength(rest, a.balance)];
            var drop := q[..i] + Reversed(rest[|keep|..]);
            && keep == Kept(q, a)
            && NoDuplicates(drop) && Elems(drop) == Elems(q) - Elems(keep) && Elems(keep) <= Elems(q)
            && (i == 0 && keep != [] ==> keep[0] == q[0])
  {
    var i := FirstApplicable(q, a.nonce);
    var k := AffordableLength(q[i..], a.balance);
    KeptSlice(q, a);
    ChainedDistinct(s, q);
    SplitAt(q, i, k);
  }

  lemma SplitAt(q: seq<Command>, i: nat, k: nat)
    requires NoDuplicates(q) && i + k <= |q|
    ensures var keep, drop := q[i..][..k], q[..i] + Reversed(q[i..][k..]);
            && NoDuplicates(drop) && Elems(drop) == Elems(q) - Elems(keep) && Elems(keep) <= Elems(q)
  {
    SliceOfDrop(q, i, k);
    assert q[i..][k..] == q[i + k..];
    ReversedElems(q[i + k..]);
    KeptSplit(q, i, i + k, q[..i], Reversed(q[i + k..]));
  }

  lemma ThreeParts(q: seq<Command>, i: nat, j: nat)
    requires i <= j <= |q| && NoDuplicates(q)
    ensures Elems(q) == Elems(q[..i]) + Elems(q[i..j]) + Elems(q[j..])
    ensures Elems(q[..i]) !! Elems(q[i..j]) !! Elems(q[j..])
  {
  }

  /** A sequence with as many distinct elements as entries has no duplicates. */
  lemma {:induction false} DistinctBySize<T>(s: seq<T>)
    requires |Elems(s)| == |s|
    ensures NoDuplicates(s)
  {
    if s != [] {
      var front, last := s[..|s| - 1], s[|s| - 1];
      assert s == front + [last];
      assert Elems(s) == Elems(front) + {last};
      ElemsAtMost(front);
      assert last !in Elems(front);
      DistinctBySize(front);
    }
  }

  lemma {:induction false} ElemsAtMost<T>(s: seq<T>)
    ensures |Elems(s)| <= |s|
  {
    if s != [] {
      var front, last := s[..|s| - 1], s[|s| - 1];
      assert s == front + [last];
      assert Elems(s) == Elems(front) + {last};
      ElemsAtMost(front);
    }
  }

  /** Pools with the same queues hold the same commands. */
  lemma SameQueuesSameCommands(qs: Queues, now: Queues)
    requires ValidQueues(qs) && ValidQueues(now)
    requires forall s: AccountId :: QueueOf(qs, s) == QueueOf(now, s)
    ensures AllCommands(qs) == AllCommands(now)
  {
    forall c: Command ensures c in AllCommands(qs) <==> c in AllCommands(now) {
      MemberOfOwnQueue(qs, c);
      MemberOfOwnQueue(now, c);
    }
  }

  ghost predicate RevalidatedTo(qs: Queues, now: Queues, kind: RevalidateKind,
                                getAccount: AccountId -> Option<Account>) {
    forall s: AccountId :: QueueOf(now, s) == Revalidated(QueueOf(qs, s), s, kind, getAccount)
  }

  /** The pool keeps a command exactly when its sender is not checked or its account still supports it. */
  lemma RevalidatedIff(qs: Queues, now: Queues, kind: RevalidateKind, getAccount: AccountId -> Option<Account>, c: Command)
    requires ValidQueues(qs) && ValidQueues(now) && RevalidatedTo(qs, now, kind, getAccount)
    ensures c in AllCommands(now) <==>
            && c in AllCommands(qs)
            && (|| (kind.Subset? && c.sender !in kind.ids)
                || getAccount(c.sender).None?
                || Supported(QueueOf(qs, c.sender), c, getAccount(c.sender).value))
  {
    MemberOfOwnQueue(qs, c);
    MemberOfOwnQueue(now, c);
    assert QueueOf(now, c.sender) == Revalidated(QueueOf(qs, c.sender), c.sender, kind, getAccount);
    if getAccount(c.sender).Some? {
      KeptIff(c.sender, QueueOf(qs, c.sender), getAccount(c.sender).value, c);
    }
  }

  /** Revalidating a pool again, against the same accounts, drops nothing. */
  lemma SecondRevalidationDropsNothing(qs: Queues, now: Queues, next: Queues, kind: RevalidateKind,
                                       getAccount: AccountId -> Option<Account>, dropped: seq<Command>)
    requires ValidQueues(qs) && ValidQueues(now) && ValidQueues(next)
    requires RevalidatedTo(qs, now, kind, getAccount)
    requires RevalidatedTo(now, next, kind, getAccount) && Accounts(now, next, dropped)
    ensures dropped == []
    ensures forall s: AccountId :: QueueOf(next, s) == QueueOf(now, s)
  {
    forall s: AccountId ensures QueueOf(next, s) == QueueOf(now, s) {
      if s in qs {
        RevalidatedIsStable(QueueOf(qs, s), s, kind, getAccount);
      }
    }
    SameQueuesSameCommands(now, next);
    assert Elems(dropped) == {};
    ElemsSize(dropped);
  }
}
