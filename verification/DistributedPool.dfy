/** A versioned log of states with a key index, and its synchronisation to a peer through a cursor. */
module DistributedPools {
  import opened Prelude

  const U64_MAX: nat := 0xFFFF_FFFF_FFFF_FFFF

  /** A pooled state; the key is the part the index sees. */
  datatype Entry<K, P> = Entry(key: K, payload: P)

  datatype Log<K, P> = Log(counter: nat, list: map<nat, Entry<K, P>>, byKey: map<K, nat>)

  ghost predicate Inverse<K, P>(p: Log<K, P>) {
    && (forall k | k in p.byKey :: p.byKey[k] in p.list && p.list[p.byKey[k]].key == k)
    && (forall i | i in p.list :: p.list[i].key in p.byKey && p.byKey[p.list[i].key] == i)
  }

  /** The index inverts the list, and every position lies below the counter. */
  ghost predicate Sound<K, P>(p: Log<K, P>) {
    Inverse(p) && (forall i | i in p.list :: i < p.counter) && p.counter <= U64_MAX
  }

  function Inserted<K, P>(p: Log<K, P>, e: Entry<K, P>): Log<K, P> {
    Log(if p.counter < U64_MAX then p.counter + 1 else p.counter,
        p.list[p.counter := e], p.byKey[e.key := p.counter])
  }

  function Removed<K, P>(p: Log<K, P>, k: K): Log<K, P> {
    if k in p.byKey then Log(p.counter, p.list - {p.byKey[k]}, p.byKey - {k}) else p
  }

  function Rewritten<K, P>(p: Log<K, P>, k: K, e: Entry<K, P>): Log<K, P> {
    if k in p.byKey && p.byKey[k] in p.list then p.(list := p.list[p.byKey[k] := e]) else p
  }

  /** Keeps the keys with a verdict, each with the entry its verdict gives. */
  ghost function Retained<K, P>(p: Log<K, P>, verdict: Entry<K, P> -> Option<Entry<K, P>>): Log<K, P>
  {
    Log(p.counter,
        map i | i in p.list && verdict(p.list[i]).Some? :: verdict(p.list[i]).value,
        map k | k in p.byKey && p.byKey[k] in p.list && verdict(p.list[p.byKey[k]]).Some? :: p.byKey[k])
  }

  /**
   * Inserting keeps the index and the list inverse exactly when the key is new, or already sits at
   * the counter, and the counter's position is free or held by that key.
   */
  lemma InsertKeepsInverseIff<K, P>(p: Log<K, P>, e: Entry<K, P>)
    requires Inverse(p)
    ensures Inverse(Inserted(p, e)) <==>
            && (e.key in p.byKey ==> p.byKey[e.key] == p.counter)
            && (p.counter in p.list ==> p.list[p.counter].key == e.key)
  {
    var q := Inserted(p, e);
    if e.key in p.byKey && p.byKey[e.key] != p.counter {
      var j := p.byKey[e.key];
      assert j in q.list && q.list[j].key == e.key && q.byKey[e.key] != j;
    } else if p.counter in p.list && p.list[p.counter].key != e.key {
      var k := p.list[p.counter].key;
      assert k in q.byKey && q.byKey[k] == p.counter && q.list[p.counter].key != k;
    }
  }

  /** Inserting keeps a log sound exactly when the key is new and there is a position left. */
  lemma InsertKeepsSoundIff<K, P>(p: Log<K, P>, e: Entry<K, P>)
    requires Sound(p)
    ensures Sound(Inserted(p, e)) <==> e.key !in p.byKey && p.counter < U64_MAX
  {
    var q := Inserted(p, e);
    assert p.counter in q.list && q.byKey[e.key] == p.counter;
    if e.key in p.byKey {
      assert p.byKey[e.key] in q.list && q.list[p.byKey[e.key]].key == e.key;
    }
  }

  /** A key inserted twice is in the list twice, and the index knows only the second. */
  lemma SecondInsertBreaksInverse<K, P>(k: K, first: P, second: P)
    ensures var p := Inserted(Log(0, map[], map[]), Entry(k, first));
            Sound(p) && !Inverse(Inserted(p, Entry(k, second)))
  {
    var p: Log<K, P> := Inserted(Log(0, map[], map[]), Entry(k, first));
    var q := Inserted(p, Entry(k, second));
    assert 0 in q.list && q.list[0].key == k && q.byKey[k] == 1;
  }

  lemma RemoveKeepsSound<K, P>(p: Log<K, P>, k: K)
    requires Sound(p)
    ensures Sound(Removed(p, k)) && k !in Removed(p, k).byKey
    ensures forall i | i in Removed(p, k).list :: i in p.list && Removed(p, k).list[i] == p.list[i]
  {
  }

  /** Removing what was just inserted leaves the log as it was, one position further. */
  lemma RemoveUndoesInsert<K, P>(p: Log<K, P>, e: Entry<K, P>)
    requires Sound(p) && e.key !in p.byKey && p.counter < U64_MAX
    ensures Removed(Inserted(p, e), e.key) == p.(counter := p.counter + 1)
  {
  }

  /** A change in place keeps a log sound exactly when the entry keeps its key. */
  lemma RewriteKeepsSoundIff<K, P>(p: Log<K, P>, k: K, e: Entry<K, P>)
    requires Sound(p)
    ensures Sound(Rewritten(p, k, e)) <==> (k in p.byKey ==> e.key == k)
  {
    var q := Rewritten(p, k, e);
    if k in p.byKey && e.key != k {
      assert q.byKey[k] == p.byKey[k] && q.list[q.byKey[k]] == e;
    }
  }

  /** The entries that stay keep their keys. */
  ghost predicate KeepsKeys<K, P>(p: Log<K, P>, verdict: Entry<K, P> -> Option<Entry<K, P>>) {
    forall i | i in p.list :: verdict(p.list[i]).Some? ==> verdict(p.list[i]).value.key == p.list[i].key
  }

  lemma RetainKeepsSoundIff<K, P>(p: Log<K, P>, verdict: Entry<K, P> -> Option<Entry<K, P>>)
    requires Sound(p)
    ensures Sound(Retained(p, verdict)) <==> KeepsKeys(p, verdict)
  {
    var q := Retained(p, verdict);
    if i :| i in p.list && verdict(p.list[i]).Some? && verdict(p.list[i]).value.key != p.list[i].key {
      var k := p.list[i].key;
      assert k in q.byKey && q.byKey[k] == i && i in q.list && q.list[i].key != k;
    }
  }

  /** A retain that has not visited the keys in `left` yet. */
  ghost function RetainedBut<K, P>(p: Log<K, P>, verdict: Entry<K, P> -> Option<Entry<K, P>>, left: set<K>): Log<K, P> {
    Log(p.counter,
        map i | i in p.list && (p.list[i].key in left || verdict(p.list[i]).Some?) ::
          if p.list[i].key in left then p.list[i] else verdict(p.list[i]).value,
        map k | k in p.byKey && (k in left || (p.byKey[k] in p.list && verdict(p.list[p.byKey[k]]).Some?)) :: p.byKey[k])
  }

  lemma RetainAll<K, P>(p: Log<K, P>, verdict: Entry<K, P> -> Option<Entry<K, P>>)
    requires Inverse(p)
    ensures RetainedBut(p, verdict, p.byKey.Keys) == p
  {
  }

  lemma RetainNone<K, P>(p: Log<K, P>, verdict: Entry<K, P> -> Option<Entry<K, P>>)
    ensures RetainedBut(p, verdict, {}) == Retained(p, verdict)
  {
  }

  /** Visiting one more key changes its entry and nothing else. */
  lemma RetainStep<K, P>(p: Log<K, P>, verdict: Entry<K, P> -> Option<Entry<K, P>>, left: set<K>, k: K)
    requires Inverse(p) && k in left && k in p.byKey
    ensures var q, r := RetainedBut(p, verdict, left), RetainedBut(p, verdict, left - {k});
            && k in q.byKey && q.byKey[k] in q.list && q.list[q.byKey[k]] == p.list[p.byKey[k]]
            && (var v := verdict(q.list[q.byKey[k]]);
                if v.Some? then r == q.(list := q.list[q.byKey[k] := v.value])
                else r == Log(q.counter, q.list - {q.byKey[k]}, q.byKey - {k}))
  {
  }

  // ----- What a poll delivers

  /** The first `limit` positions from `i` on whose entry has a message. */
  ghost function Due<K, P, T>(p: Log<K, P>, extract: Entry<K, P> -> Option<T>, i: nat, limit: nat): seq<nat>
    decreases p.counter - i
  {
    if i >= p.counter || limit == 0 then []
    else if i in p.list && extract(p.list[i]).Some? then [i] + Due(p, extract, i + 1, limit - 1)
    else Due(p, extract, i + 1, limit)
  }

  ghost predicate StrictlyIncreasing(s: seq<nat>) {
    forall i, j | 0 <= i < j < |s| :: s[i] < s[j]
  }

  /** The due positions are increasing, extractable and within bounds. */
  lemma {:induction false} DueSound<K, P, T>(p: Log<K, P>, extract: Entry<K, P> -> Option<T>, i: nat, limit: nat)
    ensures var d := Due(p, extract, i, limit);
            && |d| <= limit && StrictlyIncreasing(d)
            && forall j | 0 <= j < |d| :: i <= d[j] < p.counter && d[j] in p.list && extract(p.list[d[j]]).Some?
    decreases p.counter - i
  {
    if i < p.counter && limit > 0 {
      if i in p.list && extract(p.list[i]).Some? {
        DueSound(p, extract, i + 1, limit - 1);
      } else {
        DueSound(p, extract, i + 1, limit);
      }
    }
  }

  /** Nothing is skipped: up to the last due position, or altogether when the limit was not reached. */
  lemma {:induction false} DueComplete<K, P, T>(p: Log<K, P>, extract: Entry<K, P> -> Option<T>, i: nat, limit: nat,
                                                k: nat)
    requires i <= k < p.counter && k in p.list && extract(p.list[k]).Some?
    ensures var d := Due(p, extract, i, limit);
            k in d || (|d| == limit && (limit > 0 ==> d[limit - 1] < k))
    decreases p.counter - i
  {
    if limit > 0 {
      if i in p.list && extract(p.list[i]).Some? {
        if k != i {
          DueComplete(p, extract, i + 1, limit - 1, k);
        }
      } else {
        DueComplete(p, extract, i + 1, limit, k);
      }
    }
  }

  /** The messages are those of the entries at the given positions. */
  ghost predicate Sent<K, P, T>(p: Log<K, P>, extract: Entry<K, P> -> Option<T>, d: seq<nat>, messages: seq<T>) {
    && |messages| == |d|
    && forall j | 0 <= j < |d| :: d[j] in p.list && extract(p.list[d[j]]) == Some(messages[j])
  }

  /** The largest position in use, or 0. */
  ghost predicate IsLastIndex<K, P>(p: Log<K, P>, last: nat) {
    if p.list == map[] then last == 0 else last in p.list && forall i | i in p.list :: i <= last
  }

  class DistributedPool<K(==, !new), P(!new)> {
    var counter: nat
    var list: map<nat, Entry<K, P>>
    var byKey: map<K, nat>

    ghost function View(): Log<K, P>
      reads this
    {
      Log(counter, list, byKey)
    }

    constructor ()
      ensures View() == Log(0, map[], map[]) && Sound(View())
    {
      counter, list, byKey := 0, map[], map[];
    }

    method Insert(state: Entry<K, P>)
      modifies this
      ensures View() == Inserted(old(View()), state)
    {
      var key := state.key;
      list := list[counter := state];
      byKey := byKey[key := counter];
      counter := if counter < U64_MAX then counter + 1 else counter;
    }

    method Remove(key: K) returns (r: Option<Entry<K, P>>)
      requires Sound(View())
      modifies this
      ensures Sound(View()) && View() == Removed(old(View()), key)
      ensures r == if key in old(byKey) then Some(old(list)[old(byKey)[key]]) else None
    {
      RemoveKeepsSound(View(), key);
      if key !in byKey {
        return None;
      }
      var index := byKey[key];
      byKey := byKey - {key};
      r := Some(list[index]);
      list := list - {index};
    }

    /**
     * Moves an entry to the end of the log; peers will see it again. The log stays sound exactly
     * when there is a position left and the change does not give the entry another entry's key.
     */
    method Update(key: K, f: Entry<K, P> -> Entry<K, P>) returns (found: bool)
      requires Sound(View())
      modifies this
      ensures found <==> key in old(byKey)
      ensures Sound(View()) <==>
              (found ==>
                 && old(counter) < U64_MAX
                 && (var k := f(old(list)[old(byKey)[key]]).key; k == key || k !in old(byKey)))
      ensures !found ==> View() == old(View())
      ensures found ==> View() == Inserted(Removed(old(View()), key), f(old(list)[old(byKey)[key]]))
    {
      var state := Remove(key);
      if state.None? {
        return false;
      }
      InsertKeepsSoundIff(View(), f(state.value));
      Insert(f(state.value));
      found := true;
    }

    /** Changes an entry in place; peers that passed it will not see the change. */
    method SilentUpdate(key: K, f: Entry<K, P> -> Entry<K, P>) returns (found: bool)
      requires Sound(View())
      modifies this
      ensures found <==> key in old(byKey)
      ensures Sound(View()) <==> (found ==> f(old(list)[old(byKey)[key]]).key == key)
      ensures View() == if found then Rewritten(old(View()), key, f(old(list)[old(byKey)[key]])) else old(View())
    {
      if key !in byKey {
        return false;
      }
      RewriteKeepsSoundIff(View(), key, f(list[byKey[key]]));
      list := list[byKey[key] := f(list[byKey[key]])];
      found := true;
    }

    /** Drops or rewrites every entry; each key is visited once, in some order. */
    method RetainAndUpdate(verdict: Entry<K, P> -> Option<Entry<K, P>>)
      requires Sound(View())
      modifies this
      ensures View() == Retained(old(View()), verdict)
      ensures Sound(View()) <==> KeepsKeys(old(View()), verdict)
    {
      ghost var p := View();
      RetainKeepsSoundIff(p, verdict);
      var keys := byKey.Keys;
      RetainAll(p, verdict);
      while keys != {}
        invariant keys <= p.byKey.Keys
        invariant View() == RetainedBut(p, verdict, keys)
        decreases keys
      {
        var k :| k in keys;
        RetainStep(p, verdict, keys, k);
        var index := byKey[k];
        var v := verdict(list[index]);
        if v.Some? {
          list := list[index := v.value];
        } else {
          list := list - {index};
          byKey := byKey - {k};
        }
        keys := keys - {k};
      }
      RetainNone(p, verdict);
    }

    method LastIndex() returns (last: nat)
      requires Sound(View())
      ensures IsLastIndex(View(), last)
    {
      last := counter;
      while last > 0 && last !in list
        invariant last <= counter
        invariant forall i | i in list :: i <= last
      {
        last := last - 1;
      }
    }

    /**
     * The messages of the next positions from `index` on, with the first and last position they
     * cover. The last position is that of the last message when the limit was reached, else the
     * last position in use.
     */
    method NextMessagesToSend<T>(index: nat, limit: nat, extract: Entry<K, P> -> Option<T>)
        returns (messages: seq<T>, first: nat, last: nat)
      requires Sound(View())
      ensures limit == 0 ==> messages == [] && first == last == if index > 0 then index - 1 else 0
      ensures limit > 0 ==>
                var d := Due(View(), extract, index, limit);
                && Sent(View(), extract, d, messages)
                && (d != [] ==> first == d[0]) && (d == [] ==> first == index)
                && (if |d| == limit then last == d[limit - 1] else IsLastIndex(View(), last))
    {
      if limit == 0 {
        var i := if index > 0 then index - 1 else 0;
        return [], i, i;
      }
      ghost var p := View();
      ghost var done: seq<nat> := [];
      var firstIndex: Option<nat> := None;
      messages := [];
      var i := index;
      assert [] + Due(p, extract, index, limit) == Due(p, extract, index, limit);
      while i < counter
        invariant index <= i && |messages| < limit
        invariant Sent(p, extract, done, messages)
        invariant Due(p, extract, index, limit) == done + Due(p, extract, i, limit - |done|)
        invariant firstIndex == if done == [] then None else Some(done[0])
      {
        if i in list && extract(list[i]).Some? {
          AppendAssoc(done, [i], Due(p, extract, i + 1, limit - |done| - 1));
          firstIndex := if firstIndex.None? then Some(i) else firstIndex;
          messages := messages + [extract(list[i]).value];
          done := done + [i];
          if |messages| >= limit {
            assert done + [] == done;
            return messages, firstIndex.value, i;
          }
        }
        i := i + 1;
      }
      assert done + [] == done;
      first := if firstIndex.Some? then firstIndex.value else index;
      last := LastIndex();
    }

    /** Deserialisation: the key index is rebuilt from the list, whose keys may repeat. */
    constructor Deserialize(counter: nat, list: map<nat, Entry<K, P>>)
      ensures this.counter == counter && this.list == list && IsRebuilt(list, byKey)
      ensures Inverse(View()) <==> DistinctKeys(list)
    {
      this.counter, this.list, byKey := counter, list, map[];
      new;
      var rest := list.Keys;
      while rest != {}
        invariant this.counter == counter && this.list == list && rest <= list.Keys
        invariant forall i, j | i in list && i !in rest && j in rest :: i < j
        invariant forall k | k in byKey :: byKey[k] in list && byKey[k] !in rest && list[byKey[k]].key == k
        invariant forall i | i in list && i !in rest :: list[i].key in byKey && i <= byKey[list[i].key]
        decreases rest
      {
        var index := Least(rest);
        byKey := byKey[list[index].key := index];
        rest := rest - {index};
      }
      RebuiltInverseIff(View());
    }
  }

  ghost predicate DistinctKeys<K(!new), P(!new)>(list: map<nat, Entry<K, P>>) {
    forall i, j | i in list && j in list && list[i].key == list[j].key :: i == j
  }

  /** Every key of the list is indexed, at the last position that holds it. */
  ghost predicate IsRebuilt<K(!new), P(!new)>(list: map<nat, Entry<K, P>>, byKey: map<K, nat>) {
    && (forall k | k in byKey :: byKey[k] in list && list[byKey[k]].key == k)
    && (forall i | i in list :: list[i].key in byKey && i <= byKey[list[i].key])
  }

  lemma RebuiltInverseIff<K(!new), P(!new)>(p: Log<K, P>)
    requires IsRebuilt(p.list, p.byKey)
    ensures Inverse(p) <==> DistinctKeys(p.list)
  {
    if Inverse(p) {
      InverseHasDistinctKeys(p);
    }
  }

  method Least(s: set<nat>) returns (m: nat)
    requires s != {}
    ensures m in s && forall x | x in s :: m <= x
  {
    m :| m in s;
    var rest := s - {m};
    while rest != {}
      invariant m in s && rest <= s
      invariant forall x | x in s && x !in rest :: m <= x
      decreases rest
    {
      var x :| x in rest;
      m := if x < m then x else m;
      rest := rest - {x};
    }
  }

  /** A log whose index inverts its list is determined by the list: rebuilding the index restores it. */
  lemma IndexDetermined<K(!new), P(!new)>(p: Log<K, P>, q: Log<K, P>)
    requires Inverse(p) && Inverse(q) && p.list == q.list
    ensures p.byKey == q.byKey
  {
  }

  lemma InverseHasDistinctKeys<K(!new), P(!new)>(p: Log<K, P>)
    requires Inverse(p)
    ensures DistinctKeys(p.list)
  {
  }

  /** Serialised without its index and read back, a pool is what it was. */
  method ReadBack<K(==, !new), P(!new)>(pool: DistributedPool<K, P>) returns (copy: DistributedPool<K, P>)
    requires Sound(pool.View())
    ensures fresh(copy) && copy.View() == pool.View()
  {
    copy := new DistributedPool<K, P>.Deserialize(pool.counter, pool.list);
    InverseHasDistinctKeys(pool.View());
    IndexDetermined(pool.View(), copy.View());
  }
}
