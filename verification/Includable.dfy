/** The order in which commands are handed out for a block, defined on the sender queues alone. */
module Includable {
  import opened Prelude
  import opened Commands
  import opened SenderQueues
  import opened UpdateLog

  /** Queues that are non-empty and hold only commands of their sender; the reserved amount is ignored. */
  ghost predicate Owned(qs: Queues) {
    forall s | s in qs :: qs[s].queue != [] && forall c | c in qs[s].queue :: c.sender == s
  }

  /** The head handed out next: highest fee rate, then lowest hash. */
  ghost predicate IsBest(c: Command, cs: set<Command>) {
    && c in cs
    && forall d | d in cs :: d.feeRate.q < c.feeRate.q || (d.feeRate.q == c.feeRate.q && c.hash <= d.hash)
  }

  function Pop(qs: Queues, s: AccountId): Queues
    requires s in qs && qs[s].queue != []
  {
    if |qs[s].queue| == 1 then qs - {s} else qs[s := SenderQueue(qs[s].queue[1..], qs[s].reserved)]
  }

  /** Each pick is the best head of what is left, and leaves the queues without it. */
  ghost predicate Picks(states: seq<Queues>, txns: seq<Command>) {
    && |states| == |txns| + 1
    && forall k | 0 <= k < |txns| ::
      && Owned(states[k])
      && IsBest(txns[k], Heads(states[k]))
      && txns[k].sender in states[k]
      && states[k + 1] == Pop(states[k], txns[k].sender)
  }

  /** Picking goes on until the limit is reached or nothing is left. */
  ghost predicate Exhausted(states: seq<Queues>, txns: seq<Command>, limit: nat) {
    && Picks(states, txns)
    && |txns| <= limit
    && (|txns| == limit || states[|txns|] == map[])
  }

  lemma OwnHead(qs: Queues, c: Command)
    requires Owned(qs)
    ensures c in Heads(qs) <==> c.sender in qs && qs[c.sender].queue[0] == c
  {
  }

  lemma OwnMember(qs: Queues, c: Command)
    requires Owned(qs)
    ensures c in AllCommands(qs) <==> c in QueueOf(qs, c.sender)
  {
  }

  lemma ValidOwned(qs: Queues)
    requires ValidQueues(qs)
    ensures Owned(qs)
  {
  }

  lemma PopOwned(qs: Queues, s: AccountId)
    requires Owned(qs) && s in qs
    ensures Owned(Pop(qs, s))
    ensures Heads(Pop(qs, s)) == Heads(qs) - {qs[s].queue[0]} + HeadOf(qs[s].queue[1..])
  {
    var qs', q := Pop(qs, s), qs[s].queue;
    forall t | t in qs' ensures qs'[t].queue != [] && forall c | c in qs'[t].queue :: c.sender == t {
      if t == s {
        assert forall c | c in q[1..] :: c in q;
      }
    }
    forall c: Command ensures c in Heads(qs') <==> c in Heads(qs) - {q[0]} + HeadOf(q[1..]) {
      OwnHead(qs, c);
      OwnHead(qs', c);
      assert q[0].sender == s;
      if |q| > 1 {
        assert q[1] in q && q[1..][0] == q[1];
      }
    }
  }

  // ----- What a selection contains

  /** The commands of one sender, in order. */
  ghost function OfSender(txns: seq<Command>, s: AccountId): seq<Command> {
    if txns == [] then []
    else OfSender(txns[..|txns| - 1], s) + if txns[|txns| - 1].sender == s then [txns[|txns| - 1]] else []
  }

  lemma PopOwn(qs: Queues, s: AccountId)
    requires s in qs && qs[s].queue != []
    ensures QueueOf(Pop(qs, s), s) == qs[s].queue[1..]
  {
  }

  lemma MoveFirst(picked: seq<Command>, q: seq<Command>)
    requires q != []
    ensures picked + [q[0]] + q[1..] == picked + q
  {
  }

  /**
   * Nothing is lost or reordered: the picked commands of a sender followed by what is left of its
   * queue are its queue. So each sender contributes a prefix in nonce order.
   */
  lemma {:induction false} PicksArePrefixes(states: seq<Queues>, txns: seq<Command>, s: AccountId)
    requires Picks(states, txns)
    ensures OfSender(txns, s) + QueueOf(states[|txns|], s) == QueueOf(states[0], s)
  {
    if txns == [] {
      assert [] + QueueOf(states[0], s) == QueueOf(states[0], s);
    } else {
      var n := |txns| - 1;
      PicksFront(states, txns);
      PicksArePrefixes(states[..n + 1], txns[..n], s);
      assert states[..n + 1][n] == states[n];
      var c := txns[n];
      OwnHead(states[n], c);
      if c.sender == s {
        var q := states[n][s].queue;
        PopOwn(states[n], s);
        MoveFirst(OfSender(txns[..n], s), q);
      } else {
        assert QueueOf(states[n + 1], s) == QueueOf(states[n], s);
        assert OfSender(txns[..n], s) + [] == OfSender(txns[..n], s);
      }
    }
  }

  /** A higher fee rate, or the same rate and a lower hash. */
  predicate Outranks(c: Command, d: Command) {
    c.feeRate.q > d.feeRate.q || (c.feeRate.q == d.feeRate.q && c.hash < d.hash)
  }

  /** The front of a queue after `k` picks was there after `j`, or was behind a command that was and got picked. */
  lemma {:induction false} FrontOrBehind(states: seq<Queues>, txns: seq<Command>, j: nat, k: nat, s: AccountId)
    requires Picks(states, txns) && j <= k <= |txns| && QueueOf(states[k], s) != []
    ensures QueueOf(states[j], s) != []
    ensures || QueueOf(states[k], s)[0] == QueueOf(states[j], s)[0]
            || exists m | j <= m < k :: txns[m].sender == s && txns[m] == QueueOf(states[j], s)[0]
    decreases k
  {
    if j < k {
      PickedFront(states[k - 1], txns[k - 1], s);
      FrontOrBehind(states, txns, j, k - 1, s);
    }
  }

  lemma PickedFront(qs: Queues, c: Command, s: AccountId)
    requires Owned(qs) && IsBest(c, Heads(qs)) && c.sender in qs
    ensures if c.sender == s then QueueOf(qs, s) != [] && QueueOf(qs, s)[0] == c
            else QueueOf(Pop(qs, c.sender), s) == QueueOf(qs, s)
  {
    OwnHead(qs, c);
  }

  /**
   * A command that outranks an earlier pick, and is picked later or still waits at the front, stood
   * behind a command of its own sender that was picked from then on and does not outrank that pick.
   */
  lemma OutOfOrderIsBlocked(states: seq<Queues>, txns: seq<Command>, j: nat, k: nat, s: AccountId)
    requires Picks(states, txns) && j < k <= |txns| && QueueOf(states[k], s) != []
    requires Outranks(QueueOf(states[k], s)[0], txns[j])
    ensures exists m | j <= m < k :: txns[m].sender == s && !Outranks(txns[m], txns[j])
  {
    FrontOrBehind(states, txns, j, k, s);
    var front := QueueOf(states[j], s)[0];
    assert front in Heads(states[j]);
    assert !Outranks(front, txns[j]);
  }

  lemma PicksSnoc(states: seq<Queues>, txns: seq<Command>, c: Command, qs': Queues)
    requires Picks(states, txns)
    requires var qs := states[|txns|];
             && Owned(qs) && IsBest(c, Heads(qs)) && c.sender in qs && qs' == Pop(qs, c.sender)
    ensures Picks(states + [qs'], txns + [c])
    ensures (states + [qs'])[0] == states[0] && (states + [qs'])[|txns| + 1] == qs'
  {
    var ss, ts := states + [qs'], txns + [c];
    forall k | 0 <= k < |ts|
      ensures Owned(ss[k]) && IsBest(ts[k], Heads(ss[k])) && ts[k].sender in ss[k]
              && ss[k + 1] == Pop(ss[k], ts[k].sender) {
      if k < |txns| {
        assert ss[k] == states[k] && ss[k + 1] == states[k + 1] && ts[k] == txns[k];
      }
    }
  }

  lemma PicksFront(states: seq<Queues>, txns: seq<Command>)
    requires Picks(states, txns) && txns != []
    ensures Picks(states[..|txns|], txns[..|txns| - 1])
  {
  }

  /** Number of queued commands. */
  ghost function Count(qs: Queues): nat {
    if qs == map[] then 0
    else
      var s :| s in qs;
      |qs[s].queue| + Count(qs - {s})
  }

  lemma {:induction false} CountAt(qs: Queues, s: AccountId)
    requires s in qs
    ensures Count(qs) == |qs[s].queue| + Count(qs - {s})
    decreases |qs|
  {
    var t :| t in qs && Count(qs) == |qs[t].queue| + Count(qs - {t});
    if t != s {
      CountAt(qs - {t}, s);
      assert (qs - {t}) - {s} == (qs - {s}) - {t};
      CountAt(qs - {s}, t);
    }
  }

  lemma CountPop(qs: Queues, s: AccountId)
    requires s in qs && qs[s].queue != []
    ensures Count(Pop(qs, s)) == Count(qs) - 1
  {
    CountAt(qs, s);
    var qs' := Pop(qs, s);
    if |qs[s].queue| > 1 {
      CountAt(qs', s);
      assert qs' - {s} == qs - {s};
    }
  }

  /** Counting queue by queue is counting commands. */
  lemma {:induction false} CountIsSize(qs: Queues)
    requires ValidQueues(qs)
    ensures Count(qs) == |AllCommands(qs)|
    decreases |qs|
  {
    if qs == map[] {
      assert AllCommands(qs) == {};
    } else {
      var s :| s in qs && Count(qs) == |qs[s].queue| + Count(qs - {s});
      assert ValidQueue(s, qs[s]);
      var rest := qs - {s};
      CountIsSize(rest);
      ChainedDistinct(s, qs[s].queue);
      ElemsSize(qs[s].queue);
      assert TotalConsumed([]) < U64_SIZE;
      WithQueueCommands(qs, s, []);
      QueueWithinPool(qs, s);
      assert AllCommands(rest) == AllCommands(qs) - Elems(qs[s].queue);
    }
  }

  lemma {:induction false} PicksCount(states: seq<Queues>, txns: seq<Command>)
    requires Picks(states, txns)
    ensures |txns| + Count(states[|txns|]) == Count(states[0])
  {
    if txns != [] {
      var n := |txns| - 1;
      PicksFront(states, txns);
      PicksCount(states[..n + 1], txns[..n]);
      OwnHead(states[n], txns[n]);
      CountPop(states[n], txns[n].sender);
    }
  }

  /** A selection has as many commands as the limit and the pool allow. */
  lemma SelectionLength(states: seq<Queues>, txns: seq<Command>, limit: nat)
    requires Exhausted(states, txns, limit) && ValidQueues(states[0])
    ensures |txns| == if limit <= |AllCommands(states[0])| then limit else |AllCommands(states[0])|
  {
    PicksCount(states, txns);
    CountIsSize(states[0]);
  }

  // ----- Two selections from the same queues are the same

  lemma BestUnique(c: Command, d: Command, cs: set<Command>, reg: map<Hash, Command>)
    requires IsBest(c, cs) && IsBest(d, cs) && Registered(reg, cs)
    ensures c == d
  {
  }

  lemma PopShrinks(qs: Queues, s: AccountId)
    requires Owned(qs) && s in qs
    ensures AllCommands(Pop(qs, s)) <= AllCommands(qs)
  {
    PopOwned(qs, s);
    var qs' := Pop(qs, s);
    forall c: Command | c in AllCommands(qs') ensures c in AllCommands(qs) {
      OwnMember(qs, c);
      OwnMember(qs', c);
    }
  }

  lemma {:induction false} PicksAgree(s1: seq<Queues>, t1: seq<Command>, s2: seq<Queues>, t2: seq<Command>, k: nat,
                                      reg: map<Hash, Command>)
    requires Picks(s1, t1) && Picks(s2, t2) && s1[0] == s2[0]
    requires Registered(reg, AllCommands(s1[0])) && k <= |t1| && k <= |t2|
    ensures s1[k] == s2[k] && t1[..k] == t2[..k]
    ensures Registered(reg, AllCommands(s1[k]))
  {
    if k > 0 {
      PicksAgree(s1, t1, s2, t2, k - 1, reg);
      HeadsAreMembers(s1[k - 1]);
      BestUnique(t1[k - 1], t2[k - 1], Heads(s1[k - 1]), reg);
      PopShrinks(s1[k - 1], t1[k - 1].sender);
      PrefixSnoc(t1, k - 1);
      PrefixSnoc(t2, k - 1);
    }
  }

  /** Any two ways of selecting up to the same limit hand out the same commands in the same order. */
  lemma SelectionUnique(s1: seq<Queues>, t1: seq<Command>, s2: seq<Queues>, t2: seq<Command>, limit: nat,
                        reg: map<Hash, Command>)
    requires Exhausted(s1, t1, limit) && Exhausted(s2, t2, limit)
    requires s1[0] == s2[0] && ValidQueues(s1[0]) && Registered(reg, AllCommands(s1[0]))
    ensures t1 == t2
  {
    SelectionLength(s1, t1, limit);
    SelectionLength(s2, t2, limit);
    PicksAgree(s1, t1, s2, t2, |t1|, reg);
    assert t1[..|t1|] == t1 && t2[..|t1|] == t2;
  }
}
