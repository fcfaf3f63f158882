/** Per-sender nonce queues and the two sets of commands the indexes are built from. */
module SenderQueues {
  import opened Prelude
  import opened Commands

  /** One entry of `all_by_sender`. */
  datatype SenderQueue = SenderQueue(queue: seq<Command>, reserved: U64)

  type Queues = map<AccountId, SenderQueue>

  /** Commands of one sender whose nonces follow each other, wrapping at 32 bits. */
  ghost predicate Chained(sender: AccountId, q: seq<Command>) {
    && |q| <= U32_SIZE
    && (forall i | 0 <= i < |q| :: q[i].sender == sender && q[i].nonce == NonceAt(q[0].nonce, i))
  }

  ghost predicate ValidQueue(sender: AccountId, sq: SenderQueue) {
    && sq.queue != []
    && Chained(sender, sq.queue)
    && sq.reserved == TotalConsumed(sq.queue)
  }

  ghost predicate ValidQueues(qs: Queues) {
    forall s | s in qs :: ValidQueue(s, qs[s])
  }

  /** The queue of a sender, empty when there is none. */
  function QueueOf(qs: Queues, s: AccountId): seq<Command> {
    if s in qs then qs[s].queue else []
  }

  /** The state of one sender: nothing for an empty queue. */
  ghost function StateOf(q: seq<Command>): Option<SenderQueue>
    requires TotalConsumed(q) < U64_SIZE
  {
    if q == [] then None else Some(SenderQueue(q, TotalConsumed(q)))
  }

  function StateQueue(state: Option<SenderQueue>): seq<Command> {
    if state.Some? then state.value.queue else []
  }

  ghost predicate ValidState(sender: AccountId, state: Option<SenderQueue>) {
    state.Some? ==> ValidQueue(sender, state.value)
  }

  ghost function AllCommands(qs: Queues): set<Command> {
    set s, c | s in qs && c in qs[s].queue :: c
  }

  /** The first command of every queue. */
  ghost function Heads(qs: Queues): set<Command> {
    set s | s in qs && qs[s].queue != [] :: qs[s].queue[0]
  }

  ghost function HeadOf(q: seq<Command>): set<Command> {
    if q == [] then {} else {q[0]}
  }

  /** The entry of one sender after its queue became `q`; an empty queue leaves no entry. */
  ghost function WithQueue(qs: Queues, s: AccountId, q: seq<Command>): Queues
    requires TotalConsumed(q) < U64_SIZE
  {
    if q == [] then qs - {s} else qs[s := SenderQueue(q, TotalConsumed(q))]
  }

  lemma MemberOfOwnQueue(qs: Queues, c: Command)
    requires ValidQueues(qs)
    ensures c in AllCommands(qs) <==> c in QueueOf(qs, c.sender)
  {
  }

  lemma WithQueueWithin(qs: Queues, s: AccountId, q: seq<Command>)
    requires TotalConsumed(q) < U64_SIZE
    ensures AllCommands(WithQueue(qs, s, q)) <= AllCommands(qs) + Elems(q)
  {
    var next := WithQueue(qs, s, q);
    forall c | c in AllCommands(next) ensures c in AllCommands(qs) + Elems(q) {
      var t :| t in next && c in next[t].queue;
      if t != s {
        assert t in qs && c in qs[t].queue;
      }
    }
  }

  lemma HeadOfOwnQueue(qs: Queues, c: Command)
    requires ValidQueues(qs)
    ensures c in Heads(qs) <==> c.sender in qs && qs[c.sender].queue[0] == c
  {
  }

  /** Nonces in a chained queue are pairwise distinct. */
  lemma ChainedDistinct(sender: AccountId, q: seq<Command>)
    requires Chained(sender, q)
    ensures forall i, j | 0 <= i < j < |q| :: q[i].nonce != q[j].nonce
    ensures NoDuplicates(q)
  {
  }

  lemma {:induction false} ChainedSlice(sender: AccountId, q: seq<Command>, i: nat, j: nat)
    requires Chained(sender, q) && i <= j <= |q|
    ensures Chained(sender, q[i..j])
  {
    var r := q[i..j];
    forall k | 0 <= k < |r| ensures r[k].sender == sender && r[k].nonce == NonceAt(r[0].nonce, k) {
      assert r[k] == q[i + k] && r[0] == q[i];
      NonceFurther(q[0].nonce, i, k);
    }
  }

  lemma NonceFurther(base: U32, i: nat, k: nat)
    ensures NonceAt(base, i + k) == NonceAt(NonceAt(base, i), k)
  {
  }

  lemma ChainedSnoc(sender: AccountId, q: seq<Command>, c: Command)
    requires Chained(sender, q) && |q| < U32_SIZE && c.sender == sender
    requires q != [] ==> c.nonce == Succ(q[|q| - 1].nonce)
    ensures Chained(sender, q + [c])
  {
  }

  lemma SuccThenAt(n: U32, i: nat)
    ensures NonceAt(Succ(n), i) == NonceAt(n, i + 1)
  {
  }

  lemma ChainedCons(sender: AccountId, q: seq<Command>, c: Command)
    requires Chained(sender, q) && |q| < U32_SIZE && c.sender == sender
    requires q != [] ==> Succ(c.nonce) == q[0].nonce
    ensures Chained(sender, [c] + q)
  {
    var r := [c] + q;
    forall k | 0 <= k < |r| ensures r[k].sender == sender && r[k].nonce == NonceAt(r[0].nonce, k) {
      if k > 0 {
        assert r[k] == q[k - 1];
        SuccThenAt(c.nonce, k - 1);
      }
    }
  }

  /** Replacing one sender's queue replaces exactly that sender's commands. */
  lemma WithQueueCommands(qs: Queues, s: AccountId, q: seq<Command>)
    requires ValidQueues(qs) && Chained(s, q) && TotalConsumed(q) < U64_SIZE
    ensures ValidQueues(WithQueue(qs, s, q))
    ensures AllCommands(WithQueue(qs, s, q)) == AllCommands(qs) - Elems(QueueOf(qs, s)) + Elems(q)
    ensures QueueOf(WithQueue(qs, s, q), s) == q
  {
    var qs' := WithQueue(qs, s, q);
    forall c: Command ensures c in AllCommands(qs') <==>
                              c in AllCommands(qs) - Elems(QueueOf(qs, s)) + Elems(q) {
      MemberOfOwnQueue(qs, c);
      MemberOfOwnQueue(qs', c);
    }
  }

  lemma WithQueueHeads(qs: Queues, s: AccountId, q: seq<Command>)
    requires ValidQueues(qs) && Chained(s, q) && TotalConsumed(q) < U64_SIZE
    ensures Heads(WithQueue(qs, s, q)) ==
            Heads(qs) - HeadOf(QueueOf(qs, s)) + HeadOf(q)
  {
    var qs' := WithQueue(qs, s, q);
    WithQueueCommands(qs, s, q);
    forall c: Command ensures c in Heads(qs') <==> c in Heads(qs) - HeadOf(QueueOf(qs, s)) + HeadOf(q) {
      HeadOfOwnQueue(qs, c);
      HeadOfOwnQueue(qs', c);
      if q != [] { assert q[0].sender == s; }
    }
  }

  lemma HeadsAreMembers(qs: Queues)
    ensures Heads(qs) <= AllCommands(qs)
  {
    forall c | c in Heads(qs) ensures c in AllCommands(qs) {
      var s :| s in qs && qs[s].queue != [] && qs[s].queue[0] == c;
      assert c in qs[s].queue;
    }
  }

  /** A queue is at most as long as the pool, and its commands are pool commands. */
  lemma QueueWithinPool(qs: Queues, s: AccountId)
    requires ValidQueues(qs)
    ensures Elems(QueueOf(qs, s)) <= AllCommands(qs)
    ensures |QueueOf(qs, s)| <= |AllCommands(qs)|
  {
    if s in qs {
      assert ValidQueue(s, qs[s]);
      ChainedDistinct(s, qs[s].queue);
      ElemsSize(qs[s].queue);
      SubsetSize(Elems(qs[s].queue), AllCommands(qs));
    }
  }
}
