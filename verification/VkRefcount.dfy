/** Reference counts of verification keys used by pooled and committed commands. */
module VkRefcounts {
  import opened Prelude
  import opened Commands

  /** A use of a key by an account. */
  datatype Use = Use(account: AccountId, key: KeyHash)

  // ----- Outstanding uses

  ghost function KeyCount(uses: seq<Use>, f: KeyHash): nat {
    if uses == [] then 0 else (if uses[0].key == f then 1 else 0) + KeyCount(uses[1..], f)
  }

  ghost function UseCount(uses: seq<Use>, u: Use): nat {
    if uses == [] then 0 else (if uses[0] == u then 1 else 0) + UseCount(uses[1..], u)
  }

  /** The uses without the first occurrence of `u`. */
  ghost function Without(uses: seq<Use>, u: Use): seq<Use> {
    if uses == [] then [] else if uses[0] == u then uses[1..] else [uses[0]] + Without(uses[1..], u)
  }

  lemma {:induction false} UseWithinKey(uses: seq<Use>, u: Use)
    ensures UseCount(uses, u) <= KeyCount(uses, u.key)
  {
    if uses != [] {
      UseWithinKey(uses[1..], u);
    }
  }

  lemma {:induction false} WithoutCounts(uses: seq<Use>, u: Use, v: Use)
    requires UseCount(uses, u) > 0
    ensures UseCount(Without(uses, u), v) == UseCount(uses, v) - if v == u then 1 else 0
    ensures KeyCount(Without(uses, u), v.key) == KeyCount(uses, v.key) - if v.key == u.key then 1 else 0
  {
    if uses[0] != u {
      WithoutCounts(uses[1..], u, v);
      var rest := Without(uses[1..], u);
      assert ([uses[0]] + rest)[1..] == rest;
    }
  }

  // ----- The two-way tables

  type Table<A(==), B(==)> = map<A, map<B, nat>>

  function Lookup<A, B>(t: Table<A, B>, k1: A, k2: B): nat {
    if k1 in t && k2 in t[k1] then t[k1][k2] else 0
  }

  function AddCount<A(!new), B(!new)>(t: Table<A, B>, k1: A, k2: B): (r: Table<A, B>)
    ensures forall a, b :: Lookup(r, a, b) == Lookup(t, a, b) + if a == k1 && b == k2 then 1 else 0
  {
    var inner := if k1 in t then t[k1] else map[];
    t[k1 := inner[k2 := (if k2 in inner then inner[k2] else 0) + 1]]
  }

  /** Drops a count; when it reaches zero, everything under `k1` goes with it. */
  function RemoveCount<A(!new), B(!new)>(t: Table<A, B>, k1: A, k2: B): (r: Table<A, B>)
    ensures forall a, b :: Lookup(r, a, b) ==
                           if a != k1 || Lookup(t, k1, k2) == 0 then Lookup(t, a, b)
                           else if Lookup(t, k1, k2) == 1 then 0
                           else Lookup(t, a, b) - if b == k2 then 1 else 0
  {
    if k1 !in t || k2 !in t[k1] || t[k1][k2] == 0 then t
    else if t[k1][k2] == 1 then t - {k1}
    else t[k1 := t[k1][k2 := t[k1][k2] - 1]]
  }

  /** Every stored count is positive. */
  ghost predicate Positive<A, B>(t: Table<A, B>) {
    forall a, b | a in t && b in t[a] :: t[a][b] > 0
  }

  lemma RemoveKeepsPositive<A(!new), B(!new)>(t: Table<A, B>, k1: A, k2: B)
    requires Positive(t)
    ensures Positive(RemoveCount(t, k1, k2))
  {
  }

  // ----- What each part of the table has to say about the outstanding uses

  type Keys = map<KeyHash, (nat, VerificationKey)>

  /** A key is present exactly when it is used, with the number of its uses. */
  ghost predicate CountsKeys(m: Keys, uses: seq<Use>) {
    && (forall f: KeyHash :: f in m <==> KeyCount(uses, f) > 0)
    && (forall f | f in m :: m[f].0 == KeyCount(uses, f) && m[f].1.hash == f)
  }

  /** No pair is counted more often than it is used. */
  ghost predicate Within(t: Table<AccountId, KeyHash>, uses: seq<Use>) {
    Positive(t) && forall u: Use :: Lookup(t, u.account, u.key) <= UseCount(uses, u)
  }

  ghost predicate WithinTransposed(t: Table<KeyHash, AccountId>, uses: seq<Use>) {
    Positive(t) && forall u: Use :: Lookup(t, u.key, u.account) <= UseCount(uses, u)
  }

  lemma KeysAfterInc(m: Keys, uses: seq<Use>, u: Use, n: Keys, vk: VerificationKey)
    requires CountsKeys(m, uses) && vk.hash == u.key
    requires n == m[u.key := if u.key in m then (m[u.key].0 + 1, m[u.key].1) else (1, vk)]
    ensures CountsKeys(n, [u] + uses)
  {
  }

  lemma KeysAfterDec(m: Keys, uses: seq<Use>, u: Use, n: Keys)
    requires CountsKeys(m, uses) && UseCount(uses, u) > 0 && u.key in m
    requires n == if m[u.key].0 == 1 then m - {u.key} else m[u.key := (m[u.key].0 - 1, m[u.key].1)]
    ensures CountsKeys(n, Without(uses, u))
  {
    forall f: KeyHash ensures KeyCount(Without(uses, u), f) == KeyCount(uses, f) - if f == u.key then 1 else 0 {
      WithoutCounts(uses, u, Use(u.account, f));
    }
  }

  lemma TablesAfterInc(t: Table<AccountId, KeyHash>, t': Table<KeyHash, AccountId>, uses: seq<Use>, u: Use)
    requires Within(t, uses) && WithinTransposed(t', uses)
    ensures Within(AddCount(t, u.account, u.key), [u] + uses)
    ensures WithinTransposed(AddCount(t', u.key, u.account), [u] + uses)
  {
  }

  lemma TablesAfterDec(t: Table<AccountId, KeyHash>, t': Table<KeyHash, AccountId>, uses: seq<Use>, u: Use)
    requires Within(t, uses) && WithinTransposed(t', uses) && UseCount(uses, u) > 0
    ensures Within(RemoveCount(t, u.account, u.key), Without(uses, u))
    ensures WithinTransposed(RemoveCount(t', u.key, u.account), Without(uses, u))
  {
    RemoveKeepsPositive(t, u.account, u.key);
    RemoveKeepsPositive(t', u.key, u.account);
    forall v: Use
      ensures Lookup(RemoveCount(t, u.account, u.key), v.account, v.key) <= UseCount(Without(uses, u), v)
      ensures Lookup(RemoveCount(t', u.key, u.account), v.key, v.account) <= UseCount(Without(uses, u), v) {
      WithoutCounts(uses, u, v);
    }
  }

  /** One use less of a key; the entry goes with the last one. */
  /** The count of a key rises by one; the key first installed under a hash is kept. */
  function KeyAdded(m: Keys, vk: VerificationKey): Keys {
    m[vk.hash := if vk.hash in m then (m[vk.hash].0 + 1, m[vk.hash].1) else (1, vk)]
  }

  function KeyDropped(m: Keys, f: KeyHash): (n: Keys) {
    if f !in m then m else if m[f].0 == 1 then m - {f} else m[f := (Less(m[f].0), m[f].1)]
  }

  function Less(n: nat): nat {
    if n == 0 then 0 else n - 1
  }

  /** A matching use leaves every count as if it had never been there, or lower. */
  lemma MatchedDec(m: Keys, t: Table<AccountId, KeyHash>, t': Table<KeyHash, AccountId>, uses: seq<Use>, u: Use)
    requires CountsKeys(m, uses) && Within(t, uses) && WithinTransposed(t', uses) && UseCount(uses, u) > 0
    ensures u.key in m && CountsKeys(KeyDropped(m, u.key), Without(uses, u))
    ensures Within(RemoveCount(t, u.account, u.key), Without(uses, u))
    ensures WithinTransposed(RemoveCount(t', u.key, u.account), Without(uses, u))
  {
    UseWithinKey(uses, u);
    KeysAfterDec(m, uses, u, KeyDropped(m, u.key));
    TablesAfterDec(t, t', uses, u);
  }

  /** Without a matching use the tables do not change, and a key that is there loses a count it still needs. */
  lemma UnmatchedDec(m: Keys, t: Table<AccountId, KeyHash>, t': Table<KeyHash, AccountId>, uses: seq<Use>, u: Use)
    requires CountsKeys(m, uses) && Within(t, uses) && WithinTransposed(t', uses) && UseCount(uses, u) == 0
    ensures Within(RemoveCount(t, u.account, u.key), uses) && WithinTransposed(RemoveCount(t', u.key, u.account), uses)
    ensures CountsKeys(KeyDropped(m, u.key), uses) <==> u.key !in m
  {
  }

  // ----- The uses of commands

  /** `extract_vks`: the keys a command installs, and where. */
  function ExtractVks(c: Command): seq<(AccountId, VerificationKey)> {
    if c.body.ZkApp? then c.body.vks else []
  }

  function UseOf(v: (AccountId, VerificationKey)): Use {
    Use(v.0, v.1.hash)
  }

  ghost function UsesOfList(vks: seq<(AccountId, VerificationKey)>): multiset<Use> {
    if vks == [] then multiset{} else multiset{UseOf(vks[0])} + UsesOfList(vks[1..])
  }

  ghost function UsesOf(c: Command): multiset<Use> {
    UsesOfList(ExtractVks(c))
  }

  ghost function UsesAll(cs: seq<Command>): multiset<Use> {
    if cs == [] then multiset{} else UsesOf(cs[0]) + UsesAll(cs[1..])
  }

  /** The use of the key at one position of a command's list. */
  function UseAt(vks: seq<(AccountId, VerificationKey)>, k: nat): Use
    requires k < |vks|
  {
    Use(vks[k].0, vks[k].1.hash)
  }

  /** Every key a zkApp command lists is a use, each as often as it is listed; other commands use none. */
  lemma UsesAreListed(c: Command)
    ensures var vks := if c.body.ZkApp? then c.body.vks else [];
            UsesOf(c) == multiset(seq(|vks|, k requires 0 <= k < |vks| => UseAt(vks, k)))
  {
    UsesOfListed(if c.body.ZkApp? then c.body.vks else []);
  }

  lemma {:induction false} UsesOfListed(vks: seq<(AccountId, VerificationKey)>)
    ensures UsesOfList(vks) == multiset(seq(|vks|, k requires 0 <= k < |vks| => UseAt(vks, k)))
  {
    var uses := seq(|vks|, k requires 0 <= k < |vks| => UseAt(vks, k));
    if vks != [] {
      UsesOfListed(vks[1..]);
      var rest := seq(|vks[1..]|, k requires 0 <= k < |vks[1..]| => UseAt(vks[1..], k));
      assert uses == [UseAt(vks, 0)] + rest;
    }
  }

  lemma UsesAllCons(c: Command, cs: seq<Command>)
    ensures UsesAll([c] + cs) == UsesOf(c) + UsesAll(cs)
  {
    assert ([c] + cs)[1..] == cs;
  }

  lemma {:induction false} UsesAllConcat(a: seq<Command>, b: seq<Command>)
    ensures UsesAll(a + b) == UsesAll(a) + UsesAll(b)
  {
    if a == [] {
      assert a + b == b;
      assert multiset{} + UsesAll(b) == UsesAll(b);
    } else {
      UsesAllConcat(a[1..], b);
      UsesAllCons(a[0], a[1..] + b);
      UsesAllCons(a[0], a[1..]);
      HeadFirst(a, b);
      BagAssoc(UsesOf(a[0]), UsesAll(a[1..]), UsesAll(b));
    }
  }

  lemma {:induction false} CountIsMultiplicity(uses: seq<Use>, u: Use)
    ensures UseCount(uses, u) == multiset(uses)[u]
  {
    if uses != [] {
      CountIsMultiplicity(uses[1..], u);
      assert uses == [uses[0]] + uses[1..];
    }
  }

  lemma {:induction false} WithoutIsLess(uses: seq<Use>, u: Use)
    requires u in multiset(uses)
    ensures multiset(Without(uses, u)) == multiset(uses) - multiset{u}
  {
    assert uses == [uses[0]] + uses[1..];
    if uses[0] != u {
      WithoutIsLess(uses[1..], u);
    }
  }

  class VkRefcountTable {
    var verificationKeys: Keys
    var accountIdToVks: Table<AccountId, KeyHash>
    var vkToAccountIds: Table<KeyHash, AccountId>
    /** Increments that no decrement has matched yet. */
    ghost var outstanding: seq<Use>

    ghost predicate Valid()
      reads this
    {
      && CountsKeys(verificationKeys, outstanding)
      && Within(accountIdToVks, outstanding)
      && WithinTransposed(vkToAccountIds, outstanding)
    }

    /** Both tables of pairs count every outstanding use. */
    ghost predicate CountsPairs()
      reads this
    {
      Exact(accountIdToVks, outstanding) && ExactTransposed(vkToAccountIds, outstanding)
    }

    constructor ()
      ensures Valid() && outstanding == [] && CountsPairs()
    {
      verificationKeys, accountIdToVks, vkToAccountIds, outstanding := map[], map[], map[], [];
    }

    method Inc(account: AccountId, vk: VerificationKey)
      requires Valid()
      modifies this
      ensures Valid() && outstanding == [Use(account, vk.hash)] + old(outstanding)
      ensures verificationKeys == KeyAdded(old(verificationKeys), vk)
      ensures accountIdToVks == AddCount(old(accountIdToVks), account, vk.hash)
      ensures vkToAccountIds == AddCount(old(vkToAccountIds), vk.hash, account)
      ensures old(CountsPairs()) ==> CountsPairs()
    {
      ghost var u, keys := Use(account, vk.hash), verificationKeys;
      if vk.hash !in verificationKeys {
        verificationKeys := verificationKeys[vk.hash := (1, vk)];
      } else {
        var (count, kept) := verificationKeys[vk.hash];
        verificationKeys := verificationKeys[vk.hash := (count + 1, kept)];
      }
      KeysAfterInc(keys, outstanding, u, verificationKeys, vk);
      TablesAfterInc(accountIdToVks, vkToAccountIds, outstanding, u);
      PairsAfterInc(accountIdToVks, vkToAccountIds, outstanding, u);
      accountIdToVks := AddCount(accountIdToVks, account, vk.hash);
      vkToAccountIds := AddCount(vkToAccountIds, vk.hash, account);
      outstanding := [u] + outstanding;
    }

    /**
     * A decrement. The table stays valid exactly when it matches an outstanding increment or its key
     * is not there at all. A bug is reported for every unmatched decrement, and for a matched one
     * exactly when its pair has been forgotten by one of the tables.
     */
    method Dec(account: AccountId, vkHash: KeyHash) returns (reported: bool)
      requires Valid()
      modifies this
      ensures UseCount(old(outstanding), Use(account, vkHash)) == 0 ==> reported
      ensures UseCount(old(outstanding), Use(account, vkHash)) > 0 ==>
                (reported <==> Lookup(old(accountIdToVks), account, vkHash) == 0
                               || Lookup(old(vkToAccountIds), vkHash, account) == 0)
      ensures var u := Use(account, vkHash);
              outstanding == if UseCount(old(outstanding), u) > 0 then Without(old(outstanding), u) else old(outstanding)
      ensures Valid() <==> UseCount(old(outstanding), Use(account, vkHash)) > 0 || vkHash !in old(verificationKeys)
      ensures verificationKeys == KeyDropped(old(verificationKeys), vkHash)
      ensures accountIdToVks == RemoveCount(old(accountIdToVks), account, vkHash)
      ensures vkToAccountIds == RemoveCount(old(vkToAccountIds), vkHash, account)
    {
      ghost var u, keys := Use(account, vkHash), verificationKeys;
      UseWithinKey(outstanding, u);
      reported := || vkHash !in verificationKeys
                  || Lookup(accountIdToVks, account, vkHash) == 0
                  || Lookup(vkToAccountIds, vkHash, account) == 0;
      assert Lookup(accountIdToVks, u.account, u.key) <= UseCount(outstanding, u);
      if vkHash in verificationKeys {
        var (count, kept) := verificationKeys[vkHash];
        if count == 1 {
          verificationKeys := verificationKeys - {vkHash};
        } else {
          verificationKeys := verificationKeys[vkHash := (count - 1, kept)];
        }
      }
      assert verificationKeys == KeyDropped(keys, vkHash);
      accountIdToVks := RemoveCount(accountIdToVks, account, vkHash);
      vkToAccountIds := RemoveCount(vkToAccountIds, vkHash, account);
      if UseCount(outstanding, u) > 0 {
        MatchedDec(keys, old(accountIdToVks), old(vkToAccountIds), outstanding, u);
        outstanding := Without(outstanding, u);
      } else {
        UnmatchedDec(keys, old(accountIdToVks), old(vkToAccountIds), outstanding, u);
      }
    }

    /** Counts the keys of one command. */
    method IncrementCommand(c: Command)
      requires Valid()
      modifies this
      ensures Valid() && multiset(outstanding) == multiset(old(outstanding)) + UsesOf(c)
      ensures old(CountsPairs()) ==> CountsPairs()
    {
      var vks := ExtractVks(c);
      for i := 0 to |vks|
        invariant Valid() && (old(CountsPairs()) ==> CountsPairs())
        invariant multiset(outstanding) + UsesOfList(vks[i..]) == multiset(old(outstanding)) + UsesOf(c)
      {
        assert vks[i..][0] == vks[i] && vks[i..][1..] == vks[i + 1..];
        Inc(vks[i].0, vks[i].1);
      }
    }

    method IncrementHashed(cs: seq<Command>)
      requires Valid()
      modifies this
      ensures Valid() && multiset(outstanding) == multiset(old(outstanding)) + UsesAll(cs)
      ensures old(CountsPairs()) ==> CountsPairs()
    {
      for i := 0 to |cs|
        invariant Valid() && (old(CountsPairs()) ==> CountsPairs())
        invariant multiset(outstanding) + UsesAll(cs[i..]) == multiset(old(outstanding)) + UsesAll(cs)
      {
        assert cs[i..][0] == cs[i] && cs[i..][1..] == cs[i + 1..];
        IncrementCommand(cs[i]);
      }
    }

    /** One decrement that matches. */
    method DecMatched(v: (AccountId, VerificationKey))
      requires Valid() && UseOf(v) in multiset(outstanding)
      modifies this
      ensures Valid() && multiset(outstanding) == multiset(old(outstanding)) - multiset{UseOf(v)}
    {
      CountIsMultiplicity(outstanding, UseOf(v));
      WithoutIsLess(outstanding, UseOf(v));
      var _ := Dec(v.0, v.1.hash);
    }

    method DecrementCommand(c: Command)
      requires Valid() && UsesOf(c) <= multiset(outstanding)
      modifies this
      ensures Valid() && multiset(outstanding) == multiset(old(outstanding)) - UsesOf(c)
    {
      var vks := ExtractVks(c);
      ghost var rest := multiset(outstanding) - UsesOf(c);
      BagSplit(multiset(outstanding), UsesOf(c));
      for i := 0 to |vks|
        invariant Valid() && multiset(outstanding) == rest + UsesOfList(vks[i..])
      {
        assert vks[i..][0] == vks[i] && vks[i..][1..] == vks[i + 1..];
        BagTakeOut(rest, multiset{UseOf(vks[i])}, UsesOfList(vks[i + 1..]));
        assert UseOf(vks[i]) in multiset{UseOf(vks[i])};
        DecMatched(vks[i]);
      }
    }

    /** Takes the keys of commands out of the counts; every use must still be outstanding. */
    method DecrementHashed(cs: seq<Command>)
      requires Valid() && UsesAll(cs) <= multiset(outstanding)
      modifies this
      ensures Valid() && multiset(outstanding) == multiset(old(outstanding)) - UsesAll(cs)
    {
      ghost var rest := multiset(outstanding) - UsesAll(cs);
      BagSplit(multiset(outstanding), UsesAll(cs));
      for i := 0 to |cs|
        invariant Valid() && multiset(outstanding) == rest + UsesAll(cs[i..])
      {
        assert cs[i..][0] == cs[i] && cs[i..][1..] == cs[i + 1..];
        BagTakeOut(rest, UsesOf(cs[i]), UsesAll(cs[i + 1..]));
        DecrementCommand(cs[i]);
      }
    }

    /** Every key listed for an account is present: the lookup never comes up empty. */
    method FindVksByAccountId(account: AccountId) returns (vks: set<VerificationKey>)
      requires Valid()
      ensures account !in accountIdToVks ==> vks == {}
      ensures account in accountIdToVks ==>
                forall f | f in accountIdToVks[account] ::
                  f in verificationKeys && verificationKeys[f].1 in vks
      ensures forall vk | vk in vks ::
                && account in accountIdToVks && vk.hash in accountIdToVks[account]
                && vk.hash in verificationKeys && verificationKeys[vk.hash].1 == vk
      ensures forall vk | vk in vks :: KeyCount(outstanding, vk.hash) > 0
    {
      if account !in accountIdToVks {
        return {};
      }
      vks := {};
      var keys := accountIdToVks[account].Keys;
      while keys != {}
        invariant keys <= accountIdToVks[account].Keys
        invariant forall f | f in accountIdToVks[account] && f !in keys ::
                    f in verificationKeys && verificationKeys[f].1 in vks
        invariant forall vk | vk in vks ::
                    && vk.hash in accountIdToVks[account]
                    && vk.hash in verificationKeys && verificationKeys[vk.hash].1 == vk
        invariant forall vk | vk in vks :: KeyCount(outstanding, vk.hash) > 0
        decreases keys
      {
        var f :| f in keys;
        UseWithinKey(outstanding, Use(account, f));
        assert Lookup(accountIdToVks, account, f) <= UseCount(outstanding, Use(account, f));
        assert f in verificationKeys;
        vks := vks + {verificationKeys[f].1};
        keys := keys - {f};
      }
    }
  }

  // ----- When the tables are exact

  ghost predicate Exact(t: Table<AccountId, KeyHash>, uses: seq<Use>) {
    forall u: Use :: Lookup(t, u.account, u.key) == UseCount(uses, u)
  }

  /**
   * A decrement keeps the account table exact if and only if the pair is still used afterwards or
   * the account uses no other key: otherwise the counts of its other keys are lost.
   */
  lemma DecKeepsExactIff(t: Table<AccountId, KeyHash>, uses: seq<Use>, u: Use)
    requires Exact(t, uses) && UseCount(uses, u) > 0
    ensures Exact(RemoveCount(t, u.account, u.key), Without(uses, u)) <==>
            UseCount(uses, u) > 1 || forall g: KeyHash | g != u.key :: UseCount(uses, Use(u.account, g)) == 0
  {
    var t', uses' := RemoveCount(t, u.account, u.key), Without(uses, u);
    assert Lookup(t, u.account, u.key) == UseCount(uses, u);
    forall v: Use ensures UseCount(uses', v) == UseCount(uses, v) - if v == u then 1 else 0 {
      WithoutCounts(uses, u, v);
    }
    if UseCount(uses, u) == 1 {
      if g: KeyHash :| g != u.key && UseCount(uses, Use(u.account, g)) > 0 {
        var v := Use(u.account, g);
        assert Lookup(t', v.account, v.key) == 0 && UseCount(uses', v) > 0;
      }
    }
  }

  /** Two keys used by one account: dropping the first use forgets the second. */
  lemma SecondKeyForgotten(account: AccountId, f: KeyHash, g: KeyHash)
    requires f != g
    ensures var t := AddCount(AddCount(map[], account, f), account, g);
            Lookup(RemoveCount(t, account, f), account, g) == 0 && Lookup(t, account, g) == 1
  {
  }

  /** An increment keeps both tables exact. */
  lemma PairsAfterInc(t: Table<AccountId, KeyHash>, t': Table<KeyHash, AccountId>, uses: seq<Use>, u: Use)
    ensures Exact(t, uses) ==> Exact(AddCount(t, u.account, u.key), [u] + uses)
    ensures ExactTransposed(t', uses) ==> ExactTransposed(AddCount(t', u.key, u.account), [u] + uses)
  {
    assert ([u] + uses)[1..] == uses;
  }

  ghost predicate ExactTransposed(t: Table<KeyHash, AccountId>, uses: seq<Use>) {
    forall u: Use :: Lookup(t, u.key, u.account) == UseCount(uses, u)
  }

  /** The table by key is kept exact if and only if the pair is still used afterwards or no other account uses the key. */
  lemma DecKeepsTransposedExactIff(t: Table<KeyHash, AccountId>, uses: seq<Use>, u: Use)
    requires ExactTransposed(t, uses) && UseCount(uses, u) > 0
    ensures ExactTransposed(RemoveCount(t, u.key, u.account), Without(uses, u)) <==>
            UseCount(uses, u) > 1 || forall b: AccountId | b != u.account :: UseCount(uses, Use(b, u.key)) == 0
  {
    var t', uses' := RemoveCount(t, u.key, u.account), Without(uses, u);
    assert Lookup(t, u.key, u.account) == UseCount(uses, u);
    forall v: Use ensures UseCount(uses', v) == UseCount(uses, v) - if v == u then 1 else 0 {
      WithoutCounts(uses, u, v);
    }
    if UseCount(uses, u) == 1 {
      if b: AccountId :| b != u.account && UseCount(uses, Use(b, u.key)) > 0 {
        var v := Use(b, u.key);
        assert Lookup(t', v.key, v.account) == 0 && UseCount(uses', v) > 0;
      }
    }
  }

  /**
   * Both tables stay exact if and only if the pair is still used afterwards, or its account uses no
   * other key and its key no other account.
   */
  lemma DecKeepsBothExactIff(t: Table<AccountId, KeyHash>, t': Table<KeyHash, AccountId>, uses: seq<Use>, u: Use)
    requires Exact(t, uses) && ExactTransposed(t', uses) && UseCount(uses, u) > 0
    ensures Exact(RemoveCount(t, u.account, u.key), Without(uses, u))
            && ExactTransposed(RemoveCount(t', u.key, u.account), Without(uses, u)) <==>
            || UseCount(uses, u) > 1
            || (forall v: Use | v != u && (v.account == u.account || v.key == u.key) :: UseCount(uses, v) == 0)
  {
    DecKeepsExactIff(t, uses, u);
    DecKeepsTransposedExactIff(t', uses, u);
    if forall v: Use | v != u && (v.account == u.account || v.key == u.key) :: UseCount(uses, v) == 0 {
      forall g: KeyHash | g != u.key ensures UseCount(uses, Use(u.account, g)) == 0 {
      }
      forall b: AccountId | b != u.account ensures UseCount(uses, Use(b, u.key)) == 0 {
      }
    }
    if (forall g: KeyHash | g != u.key :: UseCount(uses, Use(u.account, g)) == 0)
       && (forall b: AccountId | b != u.account :: UseCount(uses, Use(b, u.key)) == 0) {
      forall v: Use | v != u && (v.account == u.account || v.key == u.key) ensures UseCount(uses, v) == 0 {
        assert v == Use(v.account, v.key);
      }
    }
  }

  /** Two accounts that use one key: dropping the first use forgets the second, which is then reported as a bug. */
  lemma SecondAccountForgotten(a: AccountId, b: AccountId, f: KeyHash)
    requires a != b
    ensures var t := AddCount(AddCount(map[], f, a), f, b);
            Lookup(RemoveCount(t, f, a), f, b) == 0 && Lookup(t, f, b) == 1
  {
  }

  /** The same on the table itself: every decrement matches, and the last one is reported. */
  method MatchedYetReported(a: AccountId, b: AccountId, vk: VerificationKey) returns (first: bool, second: bool)
    requires a != b
    ensures !first && second
  {
    var table := new VkRefcountTable();
    table.Inc(a, vk);
    table.Inc(b, vk);
    var u, v := Use(a, vk.hash), Use(b, vk.hash);
    assert table.outstanding == [v, u];
    TwoUses(u, v);
    first := table.Dec(a, vk.hash);
    SecondAccountForgotten(a, b, vk.hash);
    second := table.Dec(b, vk.hash);
  }

  lemma TwoUses(u: Use, v: Use)
    requires u != v
    ensures UseCount([v, u], u) == 1 && UseCount([v, u], v) == 1
    ensures UseCount(Without([v, u], u), v) == 1
  {
    assert [v, u][1..] == [u] && [u][1..] == [];
    assert UseCount([u], u) == 1 && UseCount([u], v) == 0;
    WithoutCounts([v, u], u, v);
  }
}
