/** A peer polling a distributed pool while the pool changes. */
module PeerSync {
  import opened Prelude
  import opened DistributedPools

  /** The pool, the position the peer asks for next, and the positions it was sent so far. */
  datatype Session<K, P> = Session(log: Log<K, P>, cursor: nat, delivered: seq<nat>)

  datatype Action<!K, !P> =
    | InsertFresh(entry: Entry<K, P>)
    | Update(key: K, entry: Entry<K, P>)
    | SilentUpdate(key: K, entry: Entry<K, P>)
    | Remove(key: K)
    | Retain(verdict: Entry<K, P> -> Option<Entry<K, P>>)
    | Poll(limit: nat, last: nat)

  /** The change does not give the entry a message it did not have. */
  ghost predicate NotNewlyExtractable<K, P, T>(before: Entry<K, P>, after: Entry<K, P>,
                                               extract: Entry<K, P> -> Option<T>)
  {
    extract(after).Some? ==> extract(before).Some?
  }

  /**
   * What callers may do: fresh keys, key-preserving updates, room in the counter, and in-place
   * changes that never make an entry newly extractable. A poll names the last position of its reply.
   */
  ghost predicate Allowed<K(!new), P(!new), T>(s: Session<K, P>, a: Action<K, P>, extract: Entry<K, P> -> Option<T>) {
    match a
    case InsertFresh(e) => e.key !in s.log.byKey && s.log.counter < U64_MAX
    case Update(k, e) => k in s.log.byKey && e.key == k && s.log.counter < U64_MAX
    case SilentUpdate(k, e) =>
      && k in s.log.byKey && s.log.byKey[k] in s.log.list && e.key == k
      && NotNewlyExtractable(s.log.list[s.log.byKey[k]], e, extract)
    case Remove(k) => true
    case Retain(verdict) =>
      forall i | i in s.log.list ::
        var v := verdict(s.log.list[i]);
        v.Some? ==> v.value.key == s.log.list[i].key && NotNewlyExtractable(s.log.list[i], v.value, extract)
    case Poll(limit, last) =>
      var d := Due(s.log, extract, s.cursor, limit);
      limit > 0 && if |d| == limit then last == d[limit - 1] else IsLastIndex(s.log, last)
  }

  ghost function Next<K(!new), P(!new), T>(s: Session<K, P>, a: Action<K, P>, extract: Entry<K, P> -> Option<T>)
    : Session<K, P>
  {
    match a
    case InsertFresh(e) => s.(log := Inserted(s.log, e))
    case Update(k, e) => s.(log := Inserted(Removed(s.log, k), e))
    case SilentUpdate(k, e) => s.(log := Rewritten(s.log, k, e))
    case Remove(k) => s.(log := Removed(s.log, k))
    case Retain(verdict) => s.(log := Retained(s.log, verdict))
    case Poll(limit, last) =>
      var d := Due(s.log, extract, s.cursor, limit);
      if d == [] then s else Session(s.log, last + 1, s.delivered + d)
  }

  /** Every extractable entry the cursor has passed was delivered at its current position. */
  ghost predicate Covered<K, P, T>(s: Session<K, P>, extract: Entry<K, P> -> Option<T>) {
    forall i | i in s.log.list && i < s.cursor && extract(s.log.list[i]).Some? :: i in s.delivered
  }

  ghost predicate Synced<K(!new), P(!new), T>(s: Session<K, P>, extract: Entry<K, P> -> Option<T>) {
    && Sound(s.log)
    && StrictlyIncreasing(s.delivered)
    && (forall j | 0 <= j < |s.delivered| :: s.delivered[j] < s.cursor)
    && s.cursor <= s.log.counter
    && Covered(s, extract)
  }

  lemma ChangeKeepsSynced<K(!new), P(!new), T>(s: Session<K, P>, a: Action<K, P>, extract: Entry<K, P> -> Option<T>)
    requires Synced(s, extract) && Allowed(s, a, extract) && !a.Poll?
    ensures Synced(Next(s, a, extract), extract)
  {
    match a
    case InsertFresh(e) => InsertKeepsSoundIff(s.log, e);
    case Update(k, e) =>
      RemoveKeepsSound(s.log, k);
      InsertKeepsSoundIff(Removed(s.log, k), e);
    case SilentUpdate(k, e) => RewriteKeepsSoundIff(s.log, k, e);
    case Remove(k) => RemoveKeepsSound(s.log, k);
    case Retain(verdict) => RetainKeepsSoundIff(s.log, verdict);
  }

  lemma PollKeepsSynced<K(!new), P(!new), T>(s: Session<K, P>, limit: nat, last: nat, extract: Entry<K, P> -> Option<T>)
    requires Synced(s, extract) && Allowed(s, Poll(limit, last), extract)
    ensures Synced(Next(s, Poll(limit, last), extract), extract)
  {
    var d := Due(s.log, extract, s.cursor, limit);
    DueSound(s.log, extract, s.cursor, limit);
    if d != [] {
      PollLast(s, limit, last, extract);
      IncreasingConcat(s.delivered, d, s.cursor, last);
      PollCoversAll(s, limit, last, extract);
      assert Next(s, Poll(limit, last), extract) == Session(s.log, last + 1, s.delivered + d);
    }
  }

  lemma PollCoversAll<K(!new), P(!new), T>(s: Session<K, P>, limit: nat, last: nat, extract: Entry<K, P> -> Option<T>)
    requires Sound(s.log) && Covered(s, extract) && Allowed(s, Poll(limit, last), extract)
    ensures Covered(Session(s.log, last + 1, s.delivered + Due(s.log, extract, s.cursor, limit)), extract)
  {
    forall i | i in s.log.list && i < last + 1 && extract(s.log.list[i]).Some?
      ensures i in s.delivered + Due(s.log, extract, s.cursor, limit)
    {
      PollCovers(s, limit, last, extract, i);
    }
  }

  /** The last index of a non-empty reply is in use and not before the last position sent. */
  lemma PollLast<K(!new), P(!new), T>(s: Session<K, P>, limit: nat, last: nat, extract: Entry<K, P> -> Option<T>)
    requires Sound(s.log) && Allowed(s, Poll(limit, last), extract)
    requires Due(s.log, extract, s.cursor, limit) != []
    ensures var d := Due(s.log, extract, s.cursor, limit);
            last in s.log.list && d[|d| - 1] <= last < s.log.counter
  {
    DueSound(s.log, extract, s.cursor, limit);
  }

  lemma PollCovers<K(!new), P(!new), T>(s: Session<K, P>, limit: nat, last: nat, extract: Entry<K, P> -> Option<T>,
                                        i: nat)
    requires Sound(s.log) && Covered(s, extract) && Allowed(s, Poll(limit, last), extract)
    requires i in s.log.list && i <= last && extract(s.log.list[i]).Some?
    ensures i in s.delivered + Due(s.log, extract, s.cursor, limit)
  {
    if i >= s.cursor {
      DueComplete(s.log, extract, s.cursor, limit, i);
    }
  }

  lemma IncreasingConcat(a: seq<nat>, b: seq<nat>, m: nat, last: nat)
    requires StrictlyIncreasing(a) && StrictlyIncreasing(b) && b != [] && b[|b| - 1] <= last
    requires forall i | 0 <= i < |a| :: a[i] < m
    requires forall i | 0 <= i < |b| :: m <= b[i]
    ensures StrictlyIncreasing(a + b)
    ensures forall i | 0 <= i < |a + b| :: (a + b)[i] < last + 1
  {
  }

  /** A run of allowed actions. */
  ghost predicate IsRun<K(!new), P(!new), T>(states: seq<Session<K, P>>, actions: seq<Action<K, P>>,
                                             extract: Entry<K, P> -> Option<T>)
  {
    && |states| == |actions| + 1
    && states[0] == Session(Log(0, map[], map[]), 0, [])
    && forall i | 0 <= i < |actions| ::
      Allowed(states[i], actions[i], extract) && states[i + 1] == Next(states[i], actions[i], extract)
  }

  /**
   * Safety over whole runs: whatever the interleaving, positions are delivered in increasing order,
   * so none twice, and nothing extractable is ever left behind the cursor undelivered.
   */
  lemma {:induction false} RunsStaySynced<K(!new), P(!new), T>(states: seq<Session<K, P>>, actions: seq<Action<K, P>>,
                                                               extract: Entry<K, P> -> Option<T>, n: nat)
    requires IsRun(states, actions, extract) && n < |states|
    ensures Synced(states[n], extract)
    ensures NoDuplicates(states[n].delivered)
  {
    if n > 0 {
      RunsStaySynced(states, actions, extract, n - 1);
      var a := actions[n - 1];
      if a.Poll? {
        PollKeepsSynced(states[n - 1], a.limit, a.last, extract);
      } else {
        ChangeKeepsSynced(states[n - 1], a, extract);
      }
    }
  }

  /** A reply below the limit means the peer has caught up with everything extractable. */
  lemma ShortReplyCatchesUp<K(!new), P(!new), T>(s: Session<K, P>, limit: nat, last: nat,
                                                 extract: Entry<K, P> -> Option<T>)
    requires Synced(s, extract) && Allowed(s, Poll(limit, last), extract)
    requires |Due(s.log, extract, s.cursor, limit)| < limit
    ensures var s' := Next(s, Poll(limit, last), extract);
            forall i | i in s'.log.list && extract(s'.log.list[i]).Some? :: i in s'.delivered
  {
    var s' := Next(s, Poll(limit, last), extract);
    forall i | i in s'.log.list && extract(s'.log.list[i]).Some? ensures i in s'.delivered {
      if i >= s.cursor {
        DueComplete(s.log, extract, s.cursor, limit, i);
      }
    }
  }

  /** An in-place change is safe exactly when it does not give a message to a passed, undelivered entry. */
  lemma SilentUpdateSafeIff<K(!new), P(!new), T>(s: Session<K, P>, k: K, e: Entry<K, P>,
                                                 extract: Entry<K, P> -> Option<T>)
    requires Synced(s, extract) && k in s.log.byKey && e.key == k
    ensures Synced(s.(log := Rewritten(s.log, k, e)), extract) <==>
            (s.log.byKey[k] < s.cursor && extract(e).Some? ==> s.log.byKey[k] in s.delivered)
  {
    RewriteKeepsSoundIff(s.log, k, e);
    var i, s' := s.log.byKey[k], s.(log := Rewritten(s.log, k, e));
    assert i in s'.log.list && s'.log.list[i] == e;
  }
}
