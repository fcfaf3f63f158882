/** What a diff of commands does to the pool, to the counts of verification keys and to the report. */
module Diffs {
  import opened Prelude
  import opened Commands
  import opened SenderQueues
  import opened Admission
  import opened AdmissionRule
  import opened UpdateLog
  import opened PoolFees
  import opened Revalidation
  import opened VkRefcounts

  datatype DiffError = Duplicate | FeePayerNotPermittedToSend | Refused(error: CommandError)

  /** The answer to one command: what it dropped, or why it was refused. */
  type Verdict = Result<seq<Command>, DiffError>

  // ----- One command after the other

  /** What one command of a diff may do to the pool, and the answer it gets. */
  ghost predicate Judged(at: Slots, qs: Queues, c: Command, a: Account, r: Verdict, next: Queues) {
    && ValidQueues(qs) && |AllCommands(qs)| < U32_SIZE
    && Chained(c.sender, QueueOf(qs, c.sender))
    && (if c in AllCommands(qs) then r == Failure(Duplicate) && next == qs
        else if !(a.canSend && a.canIncrementNonce) then r == Failure(FeePayerNotPermittedToSend) && next == qs
        else
          var o := Admit(at, c.sender, QueueOf(qs, c.sender), c, a.nonce, a.balance);
          if o.Rejected? then r == Failure(Refused(o.error)) && next == qs
          else r == Success(o.dropped) && TotalConsumed(o.queue) < U64_SIZE && next == WithQueue(qs, c.sender, o.queue))
  }

  ghost predicate JudgedInTurn(at: Slots, diff: seq<Command>, accounts: map<AccountId, Account>,
                               results: seq<Verdict>, states: seq<Queues>)
  {
    && |results| == |diff| && |states| == |diff| + 1
    && forall i | 0 <= i < |diff| ::
      && diff[i].sender in accounts
      && Judged(at, states[i], diff[i], accounts[diff[i].sender], results[i], states[i + 1])
  }

  lemma JudgedSnoc(at: Slots, diff: seq<Command>, accounts: map<AccountId, Account>,
                   results: seq<Verdict>, states: seq<Queues>, c: Command, r: Verdict, next: Queues)
    requires JudgedInTurn(at, diff, accounts, results, states) && c.sender in accounts
    requires Judged(at, states[|diff|], c, accounts[c.sender], r, next)
    ensures JudgedInTurn(at, diff + [c], accounts, results + [r], states + [next])
    ensures (states + [next])[0] == states[0] && (states + [next])[|diff| + 1] == next
  {
    var ds, rs, ss := diff + [c], results + [r], states + [next];
    forall i | 0 <= i < |ds|
      ensures ds[i].sender in accounts && Judged(at, ss[i], ds[i], accounts[ds[i].sender], rs[i], ss[i + 1]) {
      if i < |diff| {
        assert ss[i] == states[i] && ss[i + 1] == states[i + 1] && ds[i] == diff[i] && rs[i] == results[i];
      }
    }
  }

  lemma JudgedFront(at: Slots, diff: seq<Command>, accounts: map<AccountId, Account>,
                    results: seq<Verdict>, states: seq<Queues>, n: nat)
    requires JudgedInTurn(at, diff, accounts, results, states) && n <= |diff|
    ensures JudgedInTurn(at, diff[..n], accounts, results[..n], states[..n + 1])
  {
  }

  /** An admitted command is new to the pool, comes in alone, and reports only commands that left, each once. */
  lemma AdmittedMoves(at: Slots, qs: Queues, c: Command, a: Account, r: Verdict, next: Queues)
    requires Judged(at, qs, c, a, r, next) && r.Success?
    ensures c !in AllCommands(qs) && c in AllCommands(next) && AllCommands(next) <= AllCommands(qs) + {c}
    ensures NoDuplicates(r.value) && Elems(r.value) <= AllCommands(qs) - AllCommands(next)
  {
    var s, q := c.sender, QueueOf(qs, c.sender);
    var o := Admit(at, s, q, c, a.nonce, a.balance);
    AdmissionRebuilds(qs, at, c, a.nonce, a.balance);
    if Replaces(q, c, a.nonce) {
      QueueWithinPool(qs, s);
      ReportedLeft(at, qs, c, a.nonce, a.balance);
    }
  }

  lemma ReportedLeft(at: Slots, qs: Queues, c: Command, accountNonce: U32, balance: U64)
    requires ValidQueues(qs) && Chained(c.sender, QueueOf(qs, c.sender)) && |QueueOf(qs, c.sender)| < U32_SIZE
    requires Replaces(QueueOf(qs, c.sender), c, accountNonce)
    requires Admit(at, c.sender, QueueOf(qs, c.sender), c, accountNonce, balance).Admitted?
    ensures var o := Admit(at, c.sender, QueueOf(qs, c.sender), c, accountNonce, balance);
            && TotalConsumed(o.queue) < U64_SIZE
            && NoDuplicates(o.dropped)
            && Elems(o.dropped) <= AllCommands(qs) - AllCommands(WithQueue(qs, c.sender, o.queue))
  {
    var s, q := c.sender, QueueOf(qs, c.sender);
    var o := Admit(at, s, q, c, accountNonce, balance);
    AdmittedQueue(at, s, q, c, accountNonce, balance);
    WithQueueCommands(qs, s, o.queue);
    QueueWithinPool(qs, s);
    var i, k := ReplacementReport(at, s, q, c, accountNonce, balance);
  }

  // ----- The answers put together

  /** The commands that were admitted, in order. */
  function Added(diff: seq<Command>, results: seq<Verdict>): seq<Command>
    requires |results| == |diff|
  {
    if diff == [] then []
    else
      var n := |diff| - 1;
      Added(diff[..n], results[..n]) + Incoming(diff[n], results[n])
  }

  /** The commands that were refused, in order, with the reason. */
  function Refusals(diff: seq<Command>, results: seq<Verdict>): seq<(Command, DiffError)>
    requires |results| == |diff|
  {
    if diff == [] then []
    else
      var n := |diff| - 1;
      Refusals(diff[..n], results[..n]) + if results[n].Failure? then [(diff[n], results[n].error)] else []
  }

  /** The commands reported as dropped, in order. */
  function DroppedForAdd(results: seq<Verdict>): seq<Command> {
    if results == [] then []
    else
      var n := |results| - 1;
      DroppedForAdd(results[..n]) + Outgoing(results[n])
  }

  /** What left the pool without being reported. */
  ghost function OmittedAt(before: Queues, after: Queues, r: Verdict): set<Command> {
    if r.Failure? then {} else AllCommands(before) - AllCommands(after) - Elems(r.value)
  }

  // ----- Which command that is, told from the pool before

  /** The command is admitted: the pool does not hold it, its account may send, and the rule takes it. */
  ghost predicate Entering(at: Slots, qs: Queues, d: Command, a: Account) {
    && d !in AllCommands(qs) && a.canSend && a.canIncrementNonce
    && Chained(d.sender, QueueOf(qs, d.sender))
    && Admit(at, d.sender, QueueOf(qs, d.sender), d, a.nonce, a.balance).Admitted?
  }

  /** `c` is the first command behind the one that `d` replaces which no longer fits with `d` in place. */
  ghost predicate PushedOut(at: Slots, q: seq<Command>, d: Command, accountNonce: U32, balance: U64, c: Command) {
    && Replaces(q, d, accountNonce)
    && var i := d.nonce - q[0].nonce;
       0 <= i < |q| && exists p | i < p < |q| :: q[p] == c && FirstMisfit(at, q[i := d], i + 1, p, balance)
  }

  /** `d` comes in and pushes `c` out of its queue without reporting it. */
  ghost predicate PushesOut(at: Slots, qs: Queues, d: Command, a: Account, c: Command) {
    Entering(at, qs, d, a) && PushedOut(at, QueueOf(qs, d.sender), d, a.nonce, a.balance, c)
  }

  /** What a replacement leaves out of its report is the first misfit, if there is one. */
  lemma QueueOmission(at: Slots, s: AccountId, q: seq<Command>, d: Command, accountNonce: U32, balance: U64, c: Command)
    requires Chained(s, q) && |q| < U32_SIZE && Replaces(q, d, accountNonce)
    requires Admit(at, s, q, d, accountNonce, balance).Admitted?
    ensures var o := Admit(at, s, q, d, accountNonce, balance);
            c in Elems(q) - Elems(o.queue) - Elems(o.dropped) <==> PushedOut(at, q, d, accountNonce, balance, c)
  {
    var i := OmissionEnd(at, s, q, d, accountNonce, balance);
    PushedOutAtEnd(at, q, d, accountNonce, balance, c, i);
  }

  lemma OmissionEnd(at: Slots, s: AccountId, q: seq<Command>, d: Command, accountNonce: U32, balance: U64)
      returns (i: nat)
    requires Chained(s, q) && |q| < U32_SIZE && Replaces(q, d, accountNonce)
    requires Admit(at, s, q, d, accountNonce, balance).Admitted?
    ensures i == d.nonce - q[0].nonce && i + 1 + Survivors(at, q, i, d, balance) <= |q|
    ensures var o, e := Admit(at, s, q, d, accountNonce, balance), i + 1 + Survivors(at, q, i, d, balance);
            Elems(q) - Elems(o.queue) - Elems(o.dropped) == if e == |q| then {} else {q[e]}
  {
    var k;
    i, k := ReplacementReport(at, s, q, d, accountNonce, balance);
    Unreported(q, i, k, Elems(q) - Elems(Admit(at, s, q, d, accountNonce, balance).queue),
               Elems(Admit(at, s, q, d, accountNonce, balance).dropped));
    SameNonceSamePosition(s, q, d, accountNonce, i);
  }

  lemma PushedOutAtEnd(at: Slots, q: seq<Command>, d: Command, accountNonce: U32, balance: U64, c: Command, i: nat)
    requires Replaces(q, d, accountNonce) && i == d.nonce - q[0].nonce && i < |q|
    ensures var e := i + 1 + Survivors(at, q, i, d, balance);
            PushedOut(at, q, d, accountNonce, balance, c) <==> e < |q| && q[e] == c
  {
    var e, w := i + 1 + Survivors(at, q, i, d, balance), q[i := d];
    MisfitBehind(at, q, i, d, balance);
    if p :| i < p < |q| && q[p] == c && FirstMisfit(at, w, i + 1, p, balance) {
      MisfitUnique(at, w, i + 1, e, p, balance);
    }
  }

  lemma Unreported(q: seq<Command>, i: nat, k: nat, left: set<Command>, reported: set<Command>)
    requires i + 1 + k <= |q| && left == Elems(Evicted(q, i, k))
    requires reported == if i + 1 + k == |q| then left else left - {q[i + 1 + k]}
    ensures left - reported == if i + 1 + k == |q| then {} else {q[i + 1 + k]}
  {
    if i + 1 + k < |q| {
      LastEvicted(q, i, k);
    }
  }

  /** An answer is positive exactly for a command that is entering, and omits exactly what that pushes out. */
  lemma OmittedIff(at: Slots, qs: Queues, d: Command, a: Account, r: Verdict, next: Queues, c: Command)
    requires Judged(at, qs, d, a, r, next)
    ensures r.Success? <==> Entering(at, qs, d, a)
    ensures c in OmittedAt(qs, next, r) <==> PushesOut(at, qs, d, a, c)
  {
    if r.Success? {
      var s, q := d.sender, QueueOf(qs, d.sender);
      var o := Admit(at, s, q, d, a.nonce, a.balance);
      QueueWithinPool(qs, s);
      AdmittedQueue(at, s, q, d, a.nonce, a.balance);
      WithQueueCommands(qs, s, o.queue);
      LeftOfQueue(AllCommands(qs), Elems(q), Elems(o.queue));
      if Replaces(q, d, a.nonce) {
        QueueOmission(at, s, q, d, a.nonce, a.balance, c);
        NewIsNew(at, qs, d, a);
      } else {
        ExtensionKeeps(at, s, q, d, a.nonce, a.balance);
      }
    }
  }

  lemma NewIsNew(at: Slots, qs: Queues, d: Command, a: Account)
    requires ValidQueues(qs) && |AllCommands(qs)| < U32_SIZE && Entering(at, qs, d, a)
    ensures Elems(Admit(at, d.sender, QueueOf(qs, d.sender), d, a.nonce, a.balance).queue) <=
            Elems(QueueOf(qs, d.sender)) + {d}
  {
    AdmittedElems(at, d.sender, QueueOf(qs, d.sender), d, a.nonce, a.balance);
  }

  /** What leaves the pool when one queue is exchanged for another left that queue. */
  lemma LeftOfQueue<T>(all: set<T>, before: set<T>, after: set<T>)
    requires before <= all
    ensures all - (all - before + after) == before - after
  {
  }

  lemma ExtensionKeeps(at: Slots, s: AccountId, q: seq<Command>, d: Command, accountNonce: U32, balance: U64)
    requires Chained(s, q) && !Replaces(q, d, accountNonce)
    requires Admit(at, s, q, d, accountNonce, balance).Admitted?
    ensures Elems(q) <= Elems(Admit(at, s, q, d, accountNonce, balance).queue)
  {
    ElemsConcat(q, [d]);
  }

  // ----- Uses of verification keys

  ghost function UsesIn(cs: set<Command>): multiset<Use> {
    if cs == {} then multiset{}
    else
      var c :| c in cs;
      UsesOf(c) + UsesIn(cs - {c})
  }

  lemma {:induction false} UsesAt(cs: set<Command>, c: Command)
    requires c in cs
    ensures UsesIn(cs) == UsesOf(c) + UsesIn(cs - {c})
    decreases cs
  {
    var d :| d in cs && UsesIn(cs) == UsesOf(d) + UsesIn(cs - {d});
    if d != c {
      UsesAt(cs - {d}, c);
      assert (cs - {d}) - {c} == (cs - {c}) - {d};
      UsesAt(cs - {c}, d);
      BagSwap(UsesOf(d), UsesOf(c), UsesIn((cs - {c}) - {d}));
    }
  }

  lemma BagSwap<T>(x: multiset<T>, y: multiset<T>, z: multiset<T>)
    ensures x + (y + z) == y + (x + z)
  {
  }

  lemma UsesWith(cs: set<Command>, c: Command)
    requires c !in cs
    ensures UsesIn(cs + {c}) == UsesIn(cs) + UsesOf(c)
  {
    UsesAt(cs + {c}, c);
    assert cs + {c} - {c} == cs;
  }

  /** Commands taken out, each once, take their uses along. */
  lemma {:induction false} UsesTakenOut(cs: set<Command>, out: seq<Command>)
    requires NoDuplicates(out) && Elems(out) <= cs
    ensures UsesIn(cs) == UsesIn(cs - Elems(out)) + UsesAll(out)
    decreases |out|
  {
    if out == [] {
      assert cs - Elems(out) == cs;
    } else {
      var c, rest := out[0], out[1..];
      assert c in Elems(out);
      UsesAt(cs, c);
      ElemsConcat([c], rest);
      assert out == [c] + rest && Elems([c]) == {c};
      assert cs - Elems(out) == (cs - {c}) - Elems(rest);
      UsesTakenOut(cs - {c}, rest);
      BagSwap(UsesOf(c), UsesIn(cs - Elems(out)), UsesAll(rest));
    }
  }

  lemma {:induction false} UsesSplit(cs: set<Command>, part: set<Command>)
    requires part <= cs
    ensures UsesIn(cs) == UsesIn(cs - part) + UsesIn(part)
    decreases part
  {
    if part == {} {
      assert cs - part == cs;
    } else {
      var c :| c in part;
      UsesAt(cs, c);
      UsesAt(part, c);
      assert cs - part == (cs - {c}) - (part - {c});
      UsesSplit(cs - {c}, part - {c});
      BagSwap(UsesOf(c), UsesIn(cs - part), UsesIn(part - {c}));
    }
  }

  /** Uses before an admission, plus its own, are the uses after it, the reported ones and the omitted ones. */
  lemma AdmissionUses(at: Slots, qs: Queues, c: Command, a: Account, r: Verdict, next: Queues)
    requires Judged(at, qs, c, a, r, next) && r.Success?
    ensures UsesIn(AllCommands(next)) + (UsesAll(r.value) + UsesIn(OmittedAt(qs, next, r))) ==
            UsesIn(AllCommands(qs)) + UsesOf(c)
  {
    AdmittedMoves(at, qs, c, a, r, next);
    ExchangedUses(AllCommands(qs), AllCommands(next), c, r.value);
  }

  lemma ExchangedUses(before: set<Command>, after: set<Command>, c: Command, out: seq<Command>)
    requires c !in before && c in after && after <= before + {c}
    requires NoDuplicates(out) && Elems(out) <= before - after
    ensures UsesIn(after) + (UsesAll(out) + UsesIn(before - after - Elems(out))) == UsesIn(before) + UsesOf(c)
  {
    var left := before - after;
    UsesSplit(before, left);
    UsesTakenOut(left, out);
    assert after == (before - left) + {c};
    UsesWith(before - left, c);
    BagExchange(UsesIn(before - left), UsesIn(left - Elems(out)), UsesAll(out), UsesOf(c));
  }

  lemma BagExchange<T>(kept: multiset<T>, omitted: multiset<T>, reported: multiset<T>, added: multiset<T>)
    ensures (kept + added) + (reported + omitted) == (kept + (omitted + reported)) + added
  {
  }

  /** Uses of everything that left without being reported. */
  ghost function Leaked(states: seq<Queues>, results: seq<Verdict>): multiset<Use>
    requires |states| == |results| + 1
  {
    if results == [] then multiset{}
    else
      var n := |results| - 1;
      Leaked(states[..n + 1], results[..n]) + UsesIn(OmittedAt(states[n], states[n + 1], results[n]))
  }

  /** Conservation over a whole diff. */
  lemma {:induction false} DiffUses(at: Slots, diff: seq<Command>, accounts: map<AccountId, Account>,
                                    results: seq<Verdict>, states: seq<Queues>)
    requires JudgedInTurn(at, diff, accounts, results, states)
    ensures UsesIn(AllCommands(states[|diff|])) + (UsesAll(DroppedForAdd(results)) + Leaked(states, results)) ==
            UsesIn(AllCommands(states[0])) + UsesAll(Added(diff, results))
    decreases |diff|
  {
    if diff != [] {
      var n := |diff| - 1;
      JudgedFront(at, diff, accounts, results, states, n);
      DiffUses(at, diff[..n], accounts, results[..n], states[..n + 1]);
      VerdictUses(at, states[n], diff[n], accounts[diff[n].sender], results[n], states[n + 1]);
      DiffUsesStep(diff, results, states);
    }
  }

  lemma DiffUsesStep(diff: seq<Command>, results: seq<Verdict>, states: seq<Queues>)
    requires |results| == |diff| && |states| == |diff| + 1 && diff != []
    requires var n := |diff| - 1;
             UsesIn(AllCommands(states[n])) + (UsesAll(DroppedForAdd(results[..n])) + Leaked(states[..n + 1], results[..n])) ==
             UsesIn(AllCommands(states[0])) + UsesAll(Added(diff[..n], results[..n]))
    requires var n := |diff| - 1;
             UsesIn(AllCommands(states[n + 1])) +
             (UsesAll(Outgoing(results[n])) + UsesIn(OmittedAt(states[n], states[n + 1], results[n]))) ==
             UsesIn(AllCommands(states[n])) + UsesAll(Incoming(diff[n], results[n]))
    ensures UsesIn(AllCommands(states[|diff|])) + (UsesAll(DroppedForAdd(results)) + Leaked(states, results)) ==
            UsesIn(AllCommands(states[0])) + UsesAll(Added(diff, results))
  {
    var n := |diff| - 1;
    LastVerdict(diff, results);
    BagChain(UsesIn(AllCommands(states[n])), UsesIn(AllCommands(states[n + 1])), UsesIn(AllCommands(states[0])),
             UsesAll(DroppedForAdd(results[..n])), Leaked(states[..n + 1], results[..n]),
             UsesAll(Added(diff[..n], results[..n])), UsesAll(Outgoing(results[n])),
             UsesIn(OmittedAt(states[n], states[n + 1], results[n])), UsesAll(Incoming(diff[n], results[n])));
  }

  function Outgoing(r: Verdict): seq<Command> {
    if r.Success? then r.value else []
  }

  function Incoming(c: Command, r: Verdict): seq<Command> {
    if r.Success? then [c] else []
  }

  lemma LastVerdict(diff: seq<Command>, results: seq<Verdict>)
    requires |results| == |diff| && diff != []
    ensures var n := |diff| - 1;
            && UsesAll(DroppedForAdd(results)) == UsesAll(DroppedForAdd(results[..n])) + UsesAll(Outgoing(results[n]))
            && UsesAll(Added(diff, results)) ==
               UsesAll(Added(diff[..n], results[..n])) + UsesAll(Incoming(diff[n], results[n]))
  {
    var n := |diff| - 1;
    UsesAllConcat(DroppedForAdd(results[..n]), Outgoing(results[n]));
    UsesAllConcat(Added(diff[..n], results[..n]), Incoming(diff[n], results[n]));
  }

  lemma VerdictUses(at: Slots, qs: Queues, c: Command, a: Account, r: Verdict, next: Queues)
    requires Judged(at, qs, c, a, r, next)
    ensures UsesIn(AllCommands(next)) + (UsesAll(Outgoing(r)) + UsesIn(OmittedAt(qs, next, r))) ==
            UsesIn(AllCommands(qs)) + UsesAll(Incoming(c, r))
  {
    if r.Success? {
      AdmissionUses(at, qs, c, a, r, next);
      UsesOfOne(c);
    }
  }

  lemma UsesOfOne(c: Command)
    ensures UsesAll([c]) == UsesOf(c)
  {
    assert [c][1..] == [];
  }

  lemma BagChain<T>(mid: multiset<T>, last: multiset<T>, first: multiset<T>, dropped: multiset<T>, leaked: multiset<T>,
                    added: multiset<T>, out: multiset<T>, omitted: multiset<T>, into: multiset<T>)
    requires mid + (dropped + leaked) == first + added
    requires last + (out + omitted) == mid + into
    ensures last + ((dropped + out) + (leaked + omitted)) == first + (added + into)
  {
    forall x: T {:trigger first[x]} ensures (last + ((dropped + out) + (leaked + omitted)))[x] == (first + (added + into))[x] {
      assert (mid + (dropped + leaked))[x] == (first + added)[x];
      assert (last + (out + omitted))[x] == (mid + into)[x];
    }
  }

  // ----- What is reported as accepted

  /** The command was admitted at position `i` of the diff. */
  ghost predicate AddedAt(diff: seq<Command>, results: seq<Verdict>, c: Command, i: nat)
    requires |results| == |diff|
  {
    i < |diff| && diff[i] == c && results[i].Success?
  }

  /** The command leaves at position `j` without being reported. */
  ghost predicate OmittedThere(states: seq<Queues>, results: seq<Verdict>, c: Command, j: nat)
    requires |states| == |results| + 1 && j < |results|
  {
    c in OmittedAt(states[j], states[j + 1], results[j])
  }

  /** From position `i` on the command does not leave without being reported. */
  ghost predicate NotOmittedFrom(states: seq<Queues>, results: seq<Verdict>, c: Command, i: nat)
    requires |states| == |results| + 1
  {
    forall j | i <= j < |results| :: !OmittedThere(states, results, c, j)
  }

  /** A command that is never reported as dropped is there after one verdict, by where it was before. */
  lemma PresenceStep(at: Slots, qs: Queues, d: Command, a: Account, r: Verdict, next: Queues, c: Command)
    requires Judged(at, qs, d, a, r, next) && c !in Outgoing(r)
    ensures c in AllCommands(next) <==>
            (c in AllCommands(qs) && c !in OmittedAt(qs, next, r)) || (c == d && r.Success?)
    ensures c == d && r.Success? ==> c !in OmittedAt(qs, next, r)
  {
    if r.Success? {
      AdmittedMoves(at, qs, d, a, r, next);
    }
  }

  /**
   * A command that is never reported as dropped is in the pool at the end exactly when it was there
   * or was admitted, and was not omitted from a report after that.
   */
  lemma {:induction false} PresentIff(at: Slots, diff: seq<Command>, accounts: map<AccountId, Account>,
                                      results: seq<Verdict>, states: seq<Queues>, c: Command)
    requires JudgedInTurn(at, diff, accounts, results, states) && c !in DroppedForAdd(results)
    ensures c in AllCommands(states[|diff|]) <==>
            || (c in AllCommands(states[0]) && NotOmittedFrom(states, results, c, 0))
            || exists i | 0 <= i < |diff| :: AddedAt(diff, results, c, i) && NotOmittedFrom(states, results, c, i + 1)
    decreases |diff|
  {
    if diff != [] {
      var n := |diff| - 1;
      var ds, rs, ss := diff[..n], results[..n], states[..n + 1];
      JudgedFront(at, diff, accounts, results, states, n);
      PresentIff(at, ds, accounts, rs, ss, c);
      PresenceStep(at, states[n], diff[n], accounts[diff[n].sender], results[n], states[n + 1], c);
      NotOmittedLast(states, results, c);
      forall i | 0 <= i < n
        ensures AddedAt(diff, results, c, i) == AddedAt(ds, rs, c, i)
      {
      }
      if c == diff[n] && results[n].Success? {
        assert AddedAt(diff, results, c, n) && NotOmittedFrom(states, results, c, n + 1);
      }
    }
  }

  lemma NotOmittedLast(states: seq<Queues>, results: seq<Verdict>, c: Command)
    requires |states| == |results| + 1 && results != []
    ensures var n := |results| - 1;
            forall i | 0 <= i <= n ::
              NotOmittedFrom(states, results, c, i) <==>
              NotOmittedFrom(states[..n + 1], results[..n], c, i) && c !in OmittedAt(states[n], states[n + 1], results[n])
  {
    var n := |results| - 1;
    var ss, rs := states[..n + 1], results[..n];
    forall j | 0 <= j < n
      ensures OmittedThere(ss, rs, c, j) == OmittedThere(states, results, c, j)
    {
    }
    assert OmittedThere(states, results, c, n) <==> c in OmittedAt(states[n], states[n + 1], results[n]);
  }

  /** The command of the diff at position `j` pushes `c` out. */
  ghost predicate PushedOutAt(at: Slots, diff: seq<Command>, accounts: map<AccountId, Account>,
                              states: seq<Queues>, c: Command, j: nat)
    requires |states| == |diff| + 1 && j < |diff|
  {
    diff[j].sender in accounts && PushesOut(at, states[j], diff[j], accounts[diff[j].sender], c)
  }

  ghost predicate NotPushedOutFrom(at: Slots, diff: seq<Command>, accounts: map<AccountId, Account>,
                                   states: seq<Queues>, c: Command, i: nat)
    requires |states| == |diff| + 1
  {
    forall j | i <= j < |diff| :: !PushedOutAt(at, diff, accounts, states, c, j)
  }

  /** The command is at position `i` of the diff, and is entering there. */
  ghost predicate EnteredAt(at: Slots, diff: seq<Command>, accounts: map<AccountId, Account>,
                            states: seq<Queues>, c: Command, i: nat)
    requires |states| == |diff| + 1
  {
    i < |diff| && diff[i] == c && c.sender in accounts && Entering(at, states[i], c, accounts[c.sender])
  }

  lemma SameByGuards(at: Slots, diff: seq<Command>, accounts: map<AccountId, Account>,
                     results: seq<Verdict>, states: seq<Queues>, c: Command)
    requires JudgedInTurn(at, diff, accounts, results, states)
    ensures forall i: nat ::
              NotOmittedFrom(states, results, c, i) <==> NotPushedOutFrom(at, diff, accounts, states, c, i)
    ensures forall i | 0 <= i < |diff| ::
              AddedAt(diff, results, c, i) <==> EnteredAt(at, diff, accounts, states, c, i)
  {
    forall j | 0 <= j < |diff|
      ensures OmittedThere(states, results, c, j) <==> PushedOutAt(at, diff, accounts, states, c, j)
      ensures AddedAt(diff, results, c, j) <==> EnteredAt(at, diff, accounts, states, c, j)
    {
      OmittedIff(at, states[j], diff[j], accounts[diff[j].sender], results[j], states[j + 1], c);
    }
  }

  /**
   * A command that is never reported as dropped is in the pool at the end exactly when it was there
   * or was entering, and no command after that pushed it out.
   */
  lemma PresentByGuardsIff(at: Slots, diff: seq<Command>, accounts: map<AccountId, Account>,
                           results: seq<Verdict>, states: seq<Queues>, c: Command)
    requires JudgedInTurn(at, diff, accounts, results, states) && c !in DroppedForAdd(results)
    ensures c in AllCommands(states[|diff|]) <==>
            || (c in AllCommands(states[0]) && NotPushedOutFrom(at, diff, accounts, states, c, 0))
            || exists i | 0 <= i < |diff| ::
                 EnteredAt(at, diff, accounts, states, c, i) && NotPushedOutFrom(at, diff, accounts, states, c, i + 1)
  {
    PresentIff(at, diff, accounts, results, states, c);
    SameByGuards(at, diff, accounts, results, states, c);
  }

  // ----- When no key is leaked

  lemma {:induction false} NoUsesIff(cs: set<Command>)
    ensures UsesIn(cs) == multiset{} <==> forall c | c in cs :: ExtractVks(c) == []
    decreases cs
  {
    if cs != {} {
      var c :| c in cs;
      UsesAt(cs, c);
      NoUsesIff(cs - {c});
      NoUseIff(ExtractVks(c));
      BagEmptyIff(UsesOf(c), UsesIn(cs - {c}));
      assert cs == (cs - {c}) + {c};
    }
  }

  lemma NoUseIff(vks: seq<(AccountId, VerificationKey)>)
    ensures UsesOfList(vks) == multiset{} <==> vks == []
  {
    if vks != [] {
      assert UseOf(vks[0]) in UsesOfList(vks);
    }
  }

  lemma BagEmptyIff<T>(x: multiset<T>, y: multiset<T>)
    ensures x + y == multiset{} <==> x == multiset{} && y == multiset{}
  {
    if x + y == multiset{} {
      forall e: T {:trigger x[e]} ensures x[e] == 0 && y[e] == 0 {
        assert (x + y)[e] == 0;
      }
    }
  }

  ghost predicate NoKeyPushedOutAt(at: Slots, diff: seq<Command>, accounts: map<AccountId, Account>,
                                   states: seq<Queues>, j: nat)
    requires |states| == |diff| + 1 && j < |diff|
  {
    forall c | PushedOutAt(at, diff, accounts, states, c, j) :: ExtractVks(c) == []
  }

  /** Whatever a command of the diff pushes out installs no key. */
  ghost predicate NoKeyPushedOut(at: Slots, diff: seq<Command>, accounts: map<AccountId, Account>, states: seq<Queues>)
    requires |states| == |diff| + 1
  {
    forall j | 0 <= j < |diff| :: NoKeyPushedOutAt(at, diff, accounts, states, j)
  }

  /** Nothing leaks over a diff if and only if every first misfit, where there is one, installs no key. */
  lemma {:induction false} LeaksNothingIff(at: Slots, diff: seq<Command>, accounts: map<AccountId, Account>,
                                           results: seq<Verdict>, states: seq<Queues>)
    requires JudgedInTurn(at, diff, accounts, results, states)
    ensures Leaked(states, results) == multiset{} <==> NoKeyPushedOut(at, diff, accounts, states)
    decreases |diff|
  {
    if diff != [] {
      var n := |diff| - 1;
      var ds, rs, ss := diff[..n], results[..n], states[..n + 1];
      JudgedFront(at, diff, accounts, results, states, n);
      LeaksNothingIff(at, ds, accounts, rs, ss);
      var d, a := diff[n], accounts[diff[n].sender];
      var omitted := OmittedAt(states[n], states[n + 1], results[n]);
      BagEmptyIff(Leaked(ss, rs), UsesIn(omitted));
      NoUsesIff(omitted);
      forall c: Command ensures c in omitted <==> PushedOutAt(at, diff, accounts, states, c, n) {
        OmittedIff(at, states[n], d, a, results[n], states[n + 1], c);
      }
      NoKeyLast(at, diff, accounts, states);
    }
  }

  lemma {:induction false} NoKeyLast(at: Slots, diff: seq<Command>, accounts: map<AccountId, Account>,
                                     states: seq<Queues>)
    requires |states| == |diff| + 1 && diff != []
    ensures var n := |diff| - 1;
            NoKeyPushedOut(at, diff, accounts, states) <==>
            NoKeyPushedOut(at, diff[..n], accounts, states[..n + 1]) && NoKeyPushedOutAt(at, diff, accounts, states, n)
  {
    var n := |diff| - 1;
    var ds, ss := diff[..n], states[..n + 1];
    if NoKeyPushedOut(at, diff, accounts, states) {
      forall j | 0 <= j < n ensures NoKeyPushedOutAt(at, ds, accounts, ss, j) {
        NoKeyFront(at, diff, accounts, states, n, j);
      }
    }
    if NoKeyPushedOut(at, ds, accounts, ss) && NoKeyPushedOutAt(at, diff, accounts, states, n) {
      forall j | 0 <= j < |diff| ensures NoKeyPushedOutAt(at, diff, accounts, states, j) {
        NoKeyAnywhere(at, diff, accounts, states, n, j);
      }
    }
  }

  lemma {:induction false} NoKeyAnywhere(at: Slots, diff: seq<Command>, accounts: map<AccountId, Account>,
                                         states: seq<Queues>, n: nat, j: nat)
    requires |states| == |diff| + 1 && n == |diff| - 1 && j <= n
    requires NoKeyPushedOut(at, diff[..n], accounts, states[..n + 1]) && NoKeyPushedOutAt(at, diff, accounts, states, n)
    ensures NoKeyPushedOutAt(at, diff, accounts, states, j)
  {
    if j < n {
      NoKeyFront(at, diff, accounts, states, n, j);
    }
  }

  lemma {:induction false} NoKeyFront(at: Slots, diff: seq<Command>, accounts: map<AccountId, Account>,
                                      states: seq<Queues>, n: nat, j: nat)
    requires |states| == |diff| + 1 && j < n <= |diff|
    ensures NoKeyPushedOutAt(at, diff[..n], accounts, states[..n + 1], j) <==>
            NoKeyPushedOutAt(at, diff, accounts, states, j)
  {
    var ds, ss := diff[..n], states[..n + 1];
    forall c ensures PushedOutAt(at, ds, accounts, ss, c, j) == PushedOutAt(at, diff, accounts, states, c, j) {
    }
  }

  /** Errors that turn down a whole diff. */
  predicate GroundsForRejection(e: DiffError) {
    e.Refused? && (e.error == Overflow || e.error == UnwantedFeeToken)
  }

  /** Every refusal of a command is explained by its error. */
  lemma AnswerExplained(at: Slots, qs: Queues, c: Command, a: Account, r: Verdict, next: Queues)
    requires Judged(at, qs, c, a, r, next) && r.Failure?
    ensures match r.error
            case Duplicate => c in AllCommands(qs)
            case FeePayerNotPermittedToSend => c !in AllCommands(qs) && !(a.canSend && a.canIncrementNonce)
            case Refused(e) =>
              && c !in AllCommands(qs) && a.canSend && a.canIncrementNonce
              && Explains(at, QueueOf(qs, c.sender), c, a.nonce, a.balance, e)
  {
    if r.error.Refused? {
      RefusedBecause(at, c.sender, QueueOf(qs, c.sender), c, a.nonce, a.balance);
    }
  }

  /**
   * What turns down a whole diff is a wrong fee token or a cost past 64 bits, alone or together with
   * the queue; and a new, timely command of a permitted account with either of the first two does.
   */
  lemma GroundsAreMalformed(at: Slots, qs: Queues, c: Command, a: Account, r: Verdict, next: Queues)
    requires Judged(at, qs, c, a, r, next)
    ensures r.Failure? && GroundsForRejection(r.error) ==>
              c.feeToken != 1 || Cost([c]) >= U64_SIZE || Overflows(QueueOf(qs, c.sender), c)
    ensures c !in AllCommands(qs) && a.canSend && a.canIncrementNonce && Timely(at, c)
            && (c.feeToken != 1 || Cost([c]) >= U64_SIZE) ==>
              r.Failure? && GroundsForRejection(r.error)
  {
    CostBehind([], c);
    assert [] + [c] == [c];
    if r.Failure? {
      AnswerExplained(at, qs, c, a, r, next);
    }
  }

  /** The commands of a list of refusals. */
  function RefusedCommands(refusals: seq<(Command, DiffError)>): seq<Command> {
    if refusals == [] then []
    else RefusedCommands(refusals[..|refusals| - 1]) + [refusals[|refusals| - 1].0]
  }

  lemma RefusedSnoc(refusals: seq<(Command, DiffError)>, c: Command, e: DiffError)
    ensures RefusedCommands(refusals + [(c, e)]) == RefusedCommands(refusals) + [c]
  {
    assert (refusals + [(c, e)])[..|refusals|] == refusals;
  }

  /** Every command of a diff is either admitted or refused, as often as it is there. */
  lemma {:induction false} EveryCommandAnswered(diff: seq<Command>, results: seq<Verdict>)
    requires |results| == |diff|
    ensures multiset(Added(diff, results)) + multiset(RefusedCommands(Refusals(diff, results))) == multiset(diff)
    decreases |diff|
  {
    if diff != [] {
      var n := |diff| - 1;
      EveryCommandAnswered(diff[..n], results[..n]);
      AnswerCounted(Added(diff[..n], results[..n]), Refusals(diff[..n], results[..n]), diff[n], results[n]);
      BagOfFront(diff, n);
    }
  }

  lemma BagOfFront<T>(s: seq<T>, n: nat)
    requires |s| == n + 1
    ensures multiset(s) == multiset(s[..n]) + multiset{s[n]}
  {
    assert s == s[..n] + [s[n]];
  }

  lemma AnswerCounted(added: seq<Command>, refusals: seq<(Command, DiffError)>, c: Command, r: Verdict)
    ensures multiset(added + Incoming(c, r))
            + multiset(RefusedCommands(refusals + if r.Failure? then [(c, r.error)] else [])) ==
            multiset(added) + multiset(RefusedCommands(refusals)) + multiset{c}
  {
    if r.Failure? {
      RefusedSnoc(refusals, c, r.error);
      assert added + [] == added;
    } else {
      assert refusals + [] == refusals;
    }
    BagSnoc(added, RefusedCommands(refusals), c);
  }

  lemma BagSnoc<T>(a: seq<T>, b: seq<T>, x: T)
    ensures multiset(a + [x]) + multiset(b) == multiset(a) + multiset(b) + multiset{x}
    ensures multiset(a) + multiset(b + [x]) == multiset(a) + multiset(b) + multiset{x}
  {
  }

  /** A refusal in the list is that of a command of the diff, with the error of its answer. */
  lemma {:induction false} RefusedSomewhere(diff: seq<Command>, results: seq<Verdict>, c: Command, e: DiffError)
    requires |results| == |diff|
    ensures (c, e) in Refusals(diff, results) <==> exists i | 0 <= i < |diff| :: RefusedAt(diff, results, c, e, i)
    decreases |diff|
  {
    if diff != [] {
      var n := |diff| - 1;
      var ds, rs := diff[..n], results[..n];
      RefusedSomewhere(ds, rs, c, e);
      forall i | 0 <= i < n ensures RefusedAt(diff, results, c, e, i) == RefusedAt(ds, rs, c, e, i) {
      }
      assert RefusedAt(diff, results, c, e, n) <==> results[n].Failure? && (c, e) == (diff[n], results[n].error);
    }
  }

  ghost predicate RefusedAt(diff: seq<Command>, results: seq<Verdict>, c: Command, e: DiffError, i: nat)
    requires |results| == |diff|
  {
    i < |diff| && diff[i] == c && results[i] == Failure(e)
  }

  datatype Decision = Accept | Reject

  datatype Applied = Applied(decision: Decision, accepted: seq<Command>, rejected: seq<(Command, DiffError)>,
                             dropped: set<Hash>)

  /** The admitted commands whose hash is not among the dropped. */
  function NotDropped(cs: seq<Command>, dropped: set<Hash>): (r: seq<Command>)
    ensures forall c :: c in r <==> c in cs && c.hash !in dropped
  {
    if cs == [] then []
    else
      var n := |cs| - 1;
      NotDropped(cs[..n], dropped) + if cs[n].hash in dropped then [] else [cs[n]]
  }

  lemma {:induction false} AddedSomewhere(diff: seq<Command>, results: seq<Verdict>, c: Command)
    requires |results| == |diff|
    ensures c in Added(diff, results) <==> exists i | 0 <= i < |diff| :: AddedAt(diff, results, c, i)
    decreases |diff|
  {
    if diff != [] {
      var n := |diff| - 1;
      var ds, rs := diff[..n], results[..n];
      AddedSomewhere(ds, rs, c);
      forall i | 0 <= i < n
        ensures AddedAt(diff, results, c, i) == AddedAt(ds, rs, c, i)
      {
      }
      if c == diff[n] && results[n].Success? {
        assert AddedAt(diff, results, c, n);
      }
    }
  }
}
