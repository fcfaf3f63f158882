/** What replaying a deferred log does to the set of pooled commands and to the set of queue heads. */
module UpdateLog {
  import opened Prelude
  import opened Commands
  import opened SenderQueues
  import opened Admission

  /** The two sets that determine every index of the pool. */
  datatype Indexed = Indexed(all: set<Command>, heads: set<Command>)

  ghost function Contents(qs: Queues): Indexed {
    Indexed(AllCommands(qs), Heads(qs))
  }

  ghost function Effect(u: Update, x: Indexed): Indexed {
    match u
    case Add(c, _, applicable) => Indexed(x.all + {c}, if applicable then x.heads + {c} else x.heads)
    case RemoveAllByFeeAndHashAndExpiration(cs) => x.(all := x.all - Elems(cs))
    case RemoveFromApplicableByFee(_, c) => x.(heads := x.heads - {c})
  }

  /** The entry adds a command that is absent or removes distinct ones that are present. */
  ghost predicate Enabled(u: Update, x: Indexed, universe: set<Command>) {
    match u
    case Add(c, rate, _) => c in universe && c !in x.all && rate == c.feeRate
    case RemoveAllByFeeAndHashAndExpiration(cs) => Elems(cs) <= x.all && NoDuplicates(cs)
    case RemoveFromApplicableByFee(rate, c) => rate == c.feeRate
  }

  ghost function Replay(log: seq<Update>, x: Indexed): Indexed {
    if log == [] then x else Replay(log[1..], Effect(log[0], x))
  }

  ghost predicate Replayable(log: seq<Update>, x: Indexed, universe: set<Command>) {
    log == [] || (Enabled(log[0], x, universe) && Replayable(log[1..], Effect(log[0], x), universe))
  }

  /** `reg` finds every command of the set by its hash; so no two of them share a hash. */
  ghost predicate Registered(reg: map<Hash, Command>, cs: set<Command>) {
    forall c | c in cs :: c.hash in reg && reg[c.hash] == c
  }

  /** The only command of the set that may share the hash of `c` is `c` itself. */
  ghost predicate NoCollision(cs: set<Command>, c: Command) {
    forall d | d in cs && d.hash == c.hash :: d == c
  }

  lemma {:induction false} ReplayConcat(a: seq<Update>, b: seq<Update>, x: Indexed, universe: set<Command>)
    requires Replayable(a, x, universe) && Replayable(b, Replay(a, x), universe)
    ensures Replayable(a + b, x, universe)
    ensures Replay(a + b, x) == Replay(b, Replay(a, x))
  {
    if a == [] {
      assert a + b == b;
    } else {
      assert (a + b)[0] == a[0];
      assert (a + b)[1..] == a[1..] + b;
      ReplayConcat(a[1..], b, Effect(a[0], x), universe);
    }
  }

  lemma {:induction false} ReplayAddAll(cs: seq<Command>, x: Indexed, universe: set<Command>)
    requires NoDuplicates(cs) && Elems(cs) !! x.all && Elems(cs) <= universe
    ensures Replayable(AddAll(cs), x, universe)
    ensures Replay(AddAll(cs), x) == Indexed(x.all + Elems(cs), x.heads)
  {
    if cs == [] {
      assert x.all + Elems(cs) == x.all;
    } else {
      var x' := Effect(Add(cs[0], cs[0].feeRate, false), x);
      assert AddAll(cs)[0] == Add(cs[0], cs[0].feeRate, false);
      assert AddAll(cs)[1..] == AddAll(cs[1..]);
      assert cs[0] in Elems(cs);
      assert Elems(cs) == {cs[0]} + Elems(cs[1..]);
      ReplayAddAll(cs[1..], x', universe);
      assert x'.all + Elems(cs[1..]) == x.all + Elems(cs);
    }
  }

  lemma ReplayOne(u: Update, x: Indexed, universe: set<Command>)
    requires Enabled(u, x, universe)
    ensures Replayable([u], x, universe)
    ensures Replay([u], x) == Effect(u, x)
  {
  }

  lemma ReplayRemoval(q: seq<Command>, i: nat, x: Indexed, universe: set<Command>)
    requires i < |q| && NoDuplicates(q) && Elems(q) <= x.all
    ensures Replayable(RemovalLog(q, i), x, universe)
    ensures Replay(RemovalLog(q, i), x) ==
            Indexed(x.all - Elems(q[i..]), if i == 0 then x.heads - {q[0]} else x.heads)
  {
    var first := RemoveAllByFeeAndHashAndExpiration(q[i..]);
    assert Elems(q[i..]) <= Elems(q);
    ReplayOne(first, x, universe);
    if i == 0 {
      var second := RemoveFromApplicableByFee(q[0].feeRate, q[0]);
      ReplayOne(second, Effect(first, x), universe);
      ReplayConcat([first], [second], x, universe);
    } else {
      assert RemovalLog(q, i) == [first];
    }
  }

  /** Replaying a removal leaves the contents of the pool whose queue was cut at `i`. */
  lemma RemovalRebuilds(qs: Queues, s: AccountId, i: nat)
    requires ValidQueues(qs) && s in qs && i < |qs[s].queue|
    requires TotalConsumed(qs[s].queue[..i]) < U64_SIZE
    ensures Replayable(RemovalLog(qs[s].queue, i), Contents(qs), AllCommands(qs))
    ensures Replay(RemovalLog(qs[s].queue, i), Contents(qs)) == Contents(WithQueue(qs, s, qs[s].queue[..i]))
    ensures ValidQueues(WithQueue(qs, s, qs[s].queue[..i]))
    ensures AllCommands(WithQueue(qs, s, qs[s].queue[..i])) == AllCommands(qs) - Elems(qs[s].queue[i..])
  {
    var q := qs[s].queue;
    assert ValidQueue(s, qs[s]);
    ChainedDistinct(s, q);
    QueueWithinPool(qs, s);
    ReplayRemoval(q, i, Contents(qs), AllCommands(qs));
    ChainedSlice(s, q, 0, i);
    assert q[0..i] == q[..i];
    WithQueueCommands(qs, s, q[..i]);
    WithQueueHeads(qs, s, q[..i]);
    SplitElems(q, i);
    assert AllCommands(qs) - Elems(q) + Elems(q[..i]) == AllCommands(qs) - Elems(q[i..]);
    if i > 0 {
      HeadOfOwnQueue(qs, q[0]);
      assert Heads(qs) - {q[0]} + {q[..i][0]} == Heads(qs);
    }
  }

  lemma SplitElems(q: seq<Command>, i: nat)
    requires i <= |q| && NoDuplicates(q)
    ensures Elems(q) == Elems(q[..i]) + Elems(q[i..])
    ensures Elems(q[..i]) !! Elems(q[i..])
  {
  }

  lemma SurvivorsAreQueued(q: seq<Command>, i: nat, k: nat)
    requires i + 1 + k <= |q| && NoDuplicates(q)
    ensures Elems(q[i + 1..i + 1 + k]) <= Elems(q[i..])
    ensures NoDuplicates(q[i + 1..i + 1 + k])
  {
  }

  /** Cutting the queue at `i`, then adding `c` and the survivors, swaps the old queue for the new. */
  lemma SplicedSets(q: seq<Command>, i: nat, c: Command, k: nat, all: set<Command>)
    requires i + 1 + k <= |q| && NoDuplicates(q) && Elems(q) <= all
    ensures all - Elems(q[i..]) + {c} + Elems(q[i + 1..i + 1 + k]) == all - Elems(q) + Elems(Spliced(q, i, c, k))
  {
  }

  /** Replaying the log of a replacement swaps the old queue for the spliced one. */
  lemma ReplayReplacement(q: seq<Command>, i: nat, c: Command, k: nat, x: Indexed, universe: set<Command>)
    requires i + 1 + k <= |q| && NoDuplicates(q) && Elems(q) <= x.all && c !in x.all
    requires x.all + {c} <= universe
    ensures Replayable(ReplacementLog(q, i, c, k), x, universe)
    ensures Replay(ReplacementLog(q, i, c, k), x) ==
            Indexed(x.all - Elems(q) + Elems(Spliced(q, i, c, k)),
                    if i == 0 then x.heads - {q[0]} + {c} else x.heads)
  {
    var cut, add, back := RemovalLog(q, i), [Add(c, c.feeRate, i == 0)], AddAll(q[i + 1..i + 1 + k]);
    ReplayRemoval(q, i, x, universe);
    var x1 := Replay(cut, x);
    ReplayOne(add[0], x1, universe);
    ReplayConcat(cut, add, x, universe);
    SurvivorsAreQueued(q, i, k);
    ReplayAddAll(q[i + 1..i + 1 + k], Effect(add[0], x1), universe);
    ReplayConcat(cut + add, back, x, universe);
    SplicedSets(q, i, c, k, x.all);
  }

  /** Starting or extending a queue: the log adds one command, a head exactly when it starts the queue. */
  lemma ExtensionRebuilds(qs: Queues, c: Command)
    requires ValidQueues(qs) && c !in AllCommands(qs)
    requires var q := QueueOf(qs, c.sender) + [c];
             Chained(c.sender, q) && TotalConsumed(q) < U64_SIZE
    ensures var log := [Add(c, c.feeRate, c.sender !in qs)];
            && Replayable(log, Contents(qs), AllCommands(qs) + {c})
            && Replay(log, Contents(qs)) == Contents(WithQueue(qs, c.sender, QueueOf(qs, c.sender) + [c]))
  {
    var s, q := c.sender, QueueOf(qs, c.sender);
    ReplayOne(Add(c, c.feeRate, s !in qs), Contents(qs), AllCommands(qs) + {c});
    WithQueueCommands(qs, s, q + [c]);
    WithQueueHeads(qs, s, q + [c]);
    QueueWithinPool(qs, s);
    ExchangeAdds(AllCommands(qs), q, c);
    if s in qs {
      assert ValidQueue(s, qs[s]);
      SameHead(qs, s, q + [c]);
    }
  }

  lemma ReplacementRebuilds(qs: Queues, c: Command, i: nat, k: nat)
    requires ValidQueues(qs) && c !in AllCommands(qs) && c.sender in qs
    requires i + 1 + k <= |qs[c.sender].queue|
    requires var q := Spliced(qs[c.sender].queue, i, c, k);
             Chained(c.sender, q) && TotalConsumed(q) < U64_SIZE
    ensures var q := qs[c.sender].queue;
            && Replayable(ReplacementLog(q, i, c, k), Contents(qs), AllCommands(qs) + {c})
            && Replay(ReplacementLog(q, i, c, k), Contents(qs)) ==
               Contents(WithQueue(qs, c.sender, Spliced(q, i, c, k)))
  {
    var s, q := c.sender, qs[c.sender].queue;
    assert ValidQueue(s, qs[s]);
    ChainedDistinct(s, q);
    QueueWithinPool(qs, s);
    var q' := Spliced(q, i, c, k);
    WithQueueCommands(qs, s, q');
    WithQueueHeads(qs, s, q');
    ReplayReplacement(q, i, c, k, Contents(qs), AllCommands(qs) + {c});
    if i == 0 {
      assert q'[0] == c;
    } else {
      assert q'[0] == q[0];
      SameHead(qs, s, q');
    }
  }

  /**
   * Replaying the log of an admission gives the contents rebuilt from the queues in which only
   * the sender's queue changed.
   */
  lemma AdmissionRebuilds(qs: Queues, at: Slots, c: Command, accountNonce: U32, balance: U64)
    requires ValidQueues(qs) && |AllCommands(qs)| < U32_SIZE
    requires var q := QueueOf(qs, c.sender);
             Chained(c.sender, q) && Admit(at, c.sender, q, c, accountNonce, balance).Admitted?
    ensures var o := Admit(at, c.sender, QueueOf(qs, c.sender), c, accountNonce, balance);
            && o.queue != [] && TotalConsumed(o.queue) <= balance
            && ValidQueues(WithQueue(qs, c.sender, o.queue))
            && c !in AllCommands(qs)
            && c in AllCommands(WithQueue(qs, c.sender, o.queue))
            && AllCommands(WithQueue(qs, c.sender, o.queue)) <= AllCommands(qs) + {c}
            && Replayable(o.log, Contents(qs), AllCommands(qs) + {c})
            && Replay(o.log, Contents(qs)) == Contents(WithQueue(qs, c.sender, o.queue))
  {
    var s, q := c.sender, QueueOf(qs, c.sender);
    var o := Admit(at, s, q, c, accountNonce, balance);
    QueueWithinPool(qs, s);
    AdmittedQueue(at, s, q, c, accountNonce, balance);
    AdmittedElems(at, s, q, c, accountNonce, balance);
    MemberOfOwnQueue(qs, c);
    if c in q {
      QueuedIsRejected(at, s, q, c, accountNonce, balance);
    }
    WithQueueCommands(qs, s, o.queue);
    if Replaces(q, c, accountNonce) {
      var i, k := ReplacementPays(at, s, q, c, accountNonce, balance);
      ReplacementRebuilds(qs, c, i, k);
    } else {
      assert o.queue == q + [c];
      if s in qs { assert ValidQueue(s, qs[s]); }
      ExtensionRebuilds(qs, c);
    }
  }

  lemma SameHead(qs: Queues, s: AccountId, q: seq<Command>)
    requires ValidQueues(qs) && s in qs && q != [] && q[0] == qs[s].queue[0]
    ensures Heads(qs) - HeadOf(QueueOf(qs, s)) + HeadOf(q) == Heads(qs)
  {
  }
}
