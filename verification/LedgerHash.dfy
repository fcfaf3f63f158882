/** The ledger's node hashes, computed through the cache. */
module LedgerHash {
  import opened Prelude
  import opened Arithmetic
  import opened MerkleCache

  /** Leaf hashes of a ledger whose accounts hash as given; other leaves are empty. */
  ghost function LeavesOf<F>(accounts: map<nat, F>, h: Hasher<F>): Address -> F {
    a => if ToIndex(a) in accounts then accounts[ToIndex(a)] else h.emptyAccount
  }

  /** `is_before`: the address comes no later than the one of the same length towards `last`. */
  predicate IsBefore(a: Address, last: Address)
    requires |a| <= |last|
  {
    ToIndex(a) <= ToIndex(last[..|a|])
  }

  /** Comparing two leaves is settled by the first turn on which they differ. */
  lemma {:induction false} PrefixDecides(a: Address, b: Address, k: nat)
    requires |a| == |b| && k <= |a| && ToIndex(a[..k]) > ToIndex(b[..k])
    ensures ToIndex(a) > ToIndex(b)
  {
    if k < |a| {
      var n := |a| - 1;
      assert a[..n][..k] == a[..k] && b[..n][..k] == b[..k];
      PrefixDecides(a[..n], b[..n], k);
    } else {
      assert a[..k] == a && b[..k] == b;
    }
  }

  /** Past the last account every subtree is empty. */
  lemma PastLastIsEmpty<F>(accounts: map<nat, F>, h: Hasher<F>, depth: nat, last: Address, a: Address)
    requires |a| <= depth == |last| && !IsBefore(a, last)
    requires forall i | i in accounts :: i <= ToIndex(last)
    ensures NodeHash(h, depth, LeavesOf(accounts, h), a) == EmptyHash(h, depth - |a|)
  {
    forall b: Address | |b| == depth && a <= b ensures LeavesOf(accounts, h)(b) == h.emptyAccount {
      assert b[..|a|] == a;
      PrefixDecides(b, last, |a|);
    }
    EmptySubtreeHash(h, depth, LeavesOf(accounts, h), a);
  }

  /** The last location is a leaf at or past every account; there is none only in an empty ledger. */
  ghost predicate Covers<F>(last: Option<Address>, accounts: map<nat, F>, depth: nat) {
    && (last.None? ==> accounts == map[])
    && (last.Some? ==> |last.value| == depth && forall i | i in accounts :: i <= ToIndex(last.value))
  }

  /** The location holds an account. */
  ghost predicate Filled<F>(last: Option<Address>, accounts: map<nat, F>) {
    last.Some? ==> ToIndex(last.value) in accounts
  }

  /** The address in front of one of the same length. */
  function Previous(a: Address): Option<Address> {
    if ToIndex(a) == 0 then None else Some(FromIndex(ToIndex(a) - 1, |a|))
  }

  lemma IndexesSnoc(addrs: seq<Address>, i: nat)
    requires i < |addrs|
    ensures (set a | a in addrs[..i + 1] :: ToIndex(a)) == (set a | a in addrs[..i] :: ToIndex(a)) + {ToIndex(addrs[i])}
  {
    PrefixSnoc(addrs, i);
  }

  /** A filled location past all accounts is the last account. */
  lemma FilledIsLast<F>(last: Option<Address>, accounts: map<nat, F>, depth: nat, addr: Address)
    requires Covers(last, accounts, depth) && Filled(last, accounts) && |addr| == depth
    requires ToIndex(addr) in accounts && forall i | i in accounts :: i <= ToIndex(addr)
    ensures last == Some(addr)
  {
    IndexInjective(last.value, addr);
  }

  /** Without the account at `addr` the last location is still filled unless it moves back to an empty one. */
  lemma StillFilledIff<F>(last: Option<Address>, accounts: map<nat, F>, depth: nat, addr: Address)
    requires Covers(last, accounts, depth) && Filled(last, accounts) && |addr| == depth && ToIndex(addr) in accounts
    ensures Filled(if last == Some(addr) then Previous(addr) else last, accounts - {ToIndex(addr)}) <==>
            (last == Some(addr) && ToIndex(addr) > 0 ==> ToIndex(addr) - 1 in accounts)
  {
    var index := ToIndex(addr);
    if last == Some(addr) {
      if index > 0 {
        IndexRoundTrip(index - 1, depth);
      }
    } else if ToIndex(last.value) == index {
      IndexInjective(last.value, addr);
    }
  }

  /** Without the account at `addr` the last location still covers, moved back if it was `addr`. */
  lemma StillCovers<F>(last: Option<Address>, accounts: map<nat, F>, depth: nat, addr: Address)
    requires Covers(last, accounts, depth) && |addr| == depth
    ensures Covers(if last == Some(addr) then Previous(addr) else last, accounts - {ToIndex(addr)}, depth)
  {
    if last == Some(addr) {
      var index := ToIndex(addr);
      if index == 0 {
        assert forall i | i in accounts :: i == 0;
        assert (accounts - {0}).Keys == {};
        assert accounts - {0} == map[];
      } else {
        IndexRoundTrip(index - 1, depth);
      }
    }
  }

  /** Two ledgers that differ at one index differ at one leaf. */
  lemma OneLeafDiffers<F>(accounts: map<nat, F>, accounts': map<nat, F>, h: Hasher<F>, depth: nat, addr: Address)
    requires |addr| == depth && accounts - {ToIndex(addr)} == accounts' - {ToIndex(addr)}
    ensures FromIndex(ToIndex(addr), depth) == addr
    ensures forall b: Address | |b| == depth && b != addr ::
              LeavesOf(accounts', h)(b) == LeavesOf(accounts, h)(b)
  {
    IndexRoundTrip(ToIndex(addr), depth);
    IndexInjective(FromIndex(ToIndex(addr), depth), addr);
    forall b: Address | |b| == depth && b != addr
      ensures LeavesOf(accounts', h)(b) == LeavesOf(accounts, h)(b)
    {
      if ToIndex(b) == ToIndex(addr) {
        IndexInjective(b, addr);
      }
      SameElsewhere(accounts, accounts', ToIndex(addr), ToIndex(b));
    }
  }

  lemma SameElsewhere<F>(m: map<nat, F>, n: map<nat, F>, k: nat, j: nat)
    requires m - {k} == n - {k} && j != k
    ensures j in m <==> j in n
    ensures j in m ==> m[j] == n[j]
  {
    assert j in m <==> j in m - {k};
    assert j in n <==> j in n - {k};
    if j in m {
      assert (m - {k})[j] == (n - {k})[j];
    }
  }

  // ----- Merkle paths

  /** One step towards the root: the sibling to the right of where we come from, or to the left. */
  datatype PathStep<F> = LeftOf(right: F) | RightOf(left: F)

  /** The steps from the node at `addr + path` up to the node at `addr`, the lowest first. */
  ghost function StepsTo<F>(h: Hasher<F>, depth: nat, leaves: Address -> F, addr: Address, path: Address)
    : (steps: seq<PathStep<F>>)
    requires |addr| + |path| <= depth
    ensures |steps| == |path|
    decreases |path|
  {
    if path == [] then []
    else
      StepsTo(h, depth, leaves, addr + [path[0]], path[1..])
      + [if path[0] then RightOf(NodeHash(h, depth, leaves, addr + [false]))
         else LeftOf(NodeHash(h, depth, leaves, addr + [true]))]
  }

  /** The hash a path leads to from a node of the given height. */
  function FoldPath<F>(h: Hasher<F>, height: nat, hash: F, steps: seq<PathStep<F>>): F
    decreases |steps|
  {
    if steps == [] then hash
    else
      var up := match steps[0]
                case LeftOf(right) => h.node(height, hash, right)
                case RightOf(left) => h.node(height, left, hash);
      FoldPath(h, height + 1, up, steps[1..])
  }

  lemma {:induction false} FoldPathSnoc<F>(h: Hasher<F>, height: nat, hash: F, steps: seq<PathStep<F>>, last: PathStep<F>)
    ensures var below := FoldPath(h, height, hash, steps);
            FoldPath(h, height, hash, steps + [last]) ==
            match last
            case LeftOf(right) => h.node(height + |steps|, below, right)
            case RightOf(left) => h.node(height + |steps|, left, below)
    decreases |steps|
  {
    if steps == [] {
      assert ([] + [last])[0] == last && ([] + [last])[1..] == [];
    } else {
      var up := match steps[0]
                case LeftOf(right) => h.node(height, hash, right)
                case RightOf(left) => h.node(height, left, hash);
      assert (steps + [last])[0] == steps[0] && (steps + [last])[1..] == steps[1..] + [last];
      FoldPathSnoc(h, height + 1, up, steps[1..], last);
    }
  }

  /** Folding the steps from a node's hash gives the hash of the node they lead to. */
  lemma {:induction false} PathFolds<F>(h: Hasher<F>, depth: nat, leaves: Address -> F, addr: Address, path: Address)
    requires |addr| + |path| <= depth
    ensures FoldPath(h, depth - |addr| - |path|, NodeHash(h, depth, leaves, addr + path),
                     StepsTo(h, depth, leaves, addr, path)) ==
            NodeHash(h, depth, leaves, addr)
    decreases |path|
  {
    if path == [] {
      assert addr + path == addr;
    } else {
      var child, rest := addr + [path[0]], path[1..];
      assert child + rest == addr + path;
      PathFolds(h, depth, leaves, child, rest);
      var below := StepsTo(h, depth, leaves, child, rest);
      var last := if path[0] then RightOf(NodeHash(h, depth, leaves, addr + [false]))
                  else LeftOf(NodeHash(h, depth, leaves, addr + [true]));
      FoldPathSnoc(h, depth - |addr| - |path|, NodeHash(h, depth, leaves, addr + path), below, last);
    }
  }

  /** The steps, the lowest first, come up on the sides the address names, the highest first. */
  ghost predicate Directed<F>(steps: seq<PathStep<F>>, path: Address) {
    |steps| == |path| && forall k | 0 <= k < |steps| :: steps[k].RightOf? <==> path[|path| - 1 - k]
  }

  lemma {:induction false} StepsDirections<F>(h: Hasher<F>, depth: nat, leaves: Address -> F, addr: Address, path: Address)
    requires |addr| + |path| <= depth
    ensures Directed(StepsTo(h, depth, leaves, addr, path), path)
    decreases |path|
  {
    if path != [] {
      var rest := path[1..];
      var steps, below := StepsTo(h, depth, leaves, addr, path), StepsTo(h, depth, leaves, addr + [path[0]], rest);
      StepsDirections(h, depth, leaves, addr + [path[0]], rest);
      forall k | 0 <= k < |path|
        ensures steps[k].RightOf? <==> path[|path| - 1 - k]
      {
        if k < |path| - 1 {
          assert steps[k] == below[k];
        } else {
          assert steps[k].RightOf? <==> path[0];
        }
      }
    }
  }

  class Ledger<F(!new)> {
    const hashes: HashesMatrix<F>
    const depth: nat
    /** Hash of the account at each filled index. */
    var accounts: map<nat, F>
    var lastLocation: Option<Address>

    /** The cache is consistent and agrees with the accounts, and the last location covers them. */
    ghost predicate Valid()
      reads this, hashes
    {
      && hashes.Valid() && hashes.ledgerDepth == depth && 0 < depth <= 36
      && Coherent(hashes.matrix, hashes.hasher, depth, LeavesOf(accounts, hashes.hasher))
      && (forall i | i in accounts :: i < Pow2(depth))
      && Covers(lastLocation, accounts, depth)
    }

    /** The last location holds an account; as it is past all of them, it is then the last account. */
    ghost predicate LastIsFilled()
      reads this
    {
      Filled(lastLocation, accounts)
    }

    ghost function TrueHash(a: Address): F
      requires |a| <= depth
      reads this
    {
      NodeHash(hashes.hasher, depth, LeavesOf(accounts, hashes.hasher), a)
    }

    constructor (depth: nat, hasher: Hasher<F>)
      requires 0 < depth <= 36
      ensures Valid() && fresh(hashes) && this.depth == depth && hashes.hasher == hasher && accounts == map[]
      ensures lastLocation == None
    {
      this.depth, accounts, lastLocation := depth, map[], None;
      hashes := new HashesMatrix<F>(depth, hasher);
    }

    // ----- Changing accounts

    /** Drops the path of a leaf from the cache, ahead of a change to that leaf alone. */
    method Announce(addr: Address, ghost accounts': map<nat, F>)
      requires Valid() && |addr| == depth && accounts - {ToIndex(addr)} == accounts' - {ToIndex(addr)}
      modifies hashes
      ensures hashes.Valid()
      ensures Coherent(hashes.matrix, hashes.hasher, depth, LeavesOf(accounts', hashes.hasher))
    {
      OneLeafDiffers(accounts, accounts', hashes.hasher, depth, addr);
      InvalidationKeepsCoherence(hashes.matrix, hashes.hasher, depth, LeavesOf(accounts, hashes.hasher),
                                 LeavesOf(accounts', hashes.hasher), addr);
      hashes.InvalidateHashes(ToIndex(addr));
    }

    /** Stores an account at an address, new or not. */
    method Set(addr: Address, account: F)
      requires Valid() && |addr| == depth
      modifies this, hashes
      ensures Valid() && accounts == old(accounts)[ToIndex(addr) := account]
      ensures old(LastIsFilled()) ==> LastIsFilled()
    {
      var index := ToIndex(addr);
      Announce(addr, accounts[index := account]);
      accounts := accounts[index := account];
      if lastLocation.None? || ToIndex(lastLocation.value) < index {
        lastLocation := Some(addr);
      }
    }

    /**
     * Removes the account at one address, if there is one. The last location stays filled exactly
     * unless the last account goes and the location before it is empty.
     */
    method RemoveAt(addr: Address)
      requires Valid() && |addr| == depth
      modifies this, hashes
      ensures Valid() && accounts == old(accounts) - {ToIndex(addr)}
      ensures old(LastIsFilled()) ==>
                (LastIsFilled() <==>
                 (old(lastLocation) == Some(addr) && ToIndex(addr) > 0 ==> ToIndex(addr) - 1 in old(accounts)))
    {
      var index := ToIndex(addr);
      Announce(addr, accounts - {index});
      if index !in accounts {
        assert accounts - {index} == accounts;
        return;
      }
      StillCovers(lastLocation, accounts, depth, addr);
      if LastIsFilled() {
        StillFilledIff(lastLocation, accounts, depth, addr);
      }
      accounts := accounts - {index};
      if lastLocation == Some(addr) {
        lastLocation := Previous(addr);
      }
    }

    /** Removes accounts, whatever the order of their addresses. */
    method RemoveAccounts(addrs: seq<Address>)
      requires Valid() && forall a | a in addrs :: |a| == depth
      modifies this, hashes
      ensures Valid() && accounts == old(accounts) - (set a | a in addrs :: ToIndex(a))
    {
      ghost var done: set<nat> := {};
      for i := 0 to |addrs|
        invariant Valid() && accounts == old(accounts) - done
        invariant done == set a | a in addrs[..i] :: ToIndex(a)
      {
        IndexesSnoc(addrs, i);
        RemoveAt(addrs[i]);
        done := done + {ToIndex(addrs[i])};
      }
      WholePrefix(addrs);
    }

    // ----- Hashes

    /** Stores a true hash in a free slot of the cache. */
    method Remember(addr: Address, hash: F)
      requires Valid() && |addr| <= depth && hash == TrueHash(addr) && ToLinearIndex(addr) !in hashes.matrix
      modifies hashes
      ensures Valid()
    {
      SetKeepsCoherence(hashes.matrix, hashes.hasher, depth, LeavesOf(accounts, hashes.hasher), addr);
      hashes.Set(addr, hash);
    }

    method GetAccountHash(accountIndex: nat) returns (r: Option<F>)
      requires Valid() && accountIndex < Pow2(depth)
      modifies hashes
      ensures Valid()
      ensures r.Some? ==> r.value == TrueHash(FromIndex(accountIndex, depth))
      ensures r.None? ==> accountIndex !in accounts
    {
      var addr := FromIndex(accountIndex, depth);
      IndexRoundTrip(accountIndex, depth);
      var cached := hashes.Get(addr);
      if cached.Some? {
        return cached;
      }
      if accountIndex !in accounts {
        return None;
      }
      var hash := accounts[accountIndex];
      Remember(addr, hash);
      r := Some(hash);
    }

    method LeafHash(addr: Address) returns (hash: F)
      requires Valid() && |addr| == depth
      modifies hashes
      ensures Valid() && hash == TrueHash(addr)
    {
      var index := ToIndex(addr);
      IndexRoundTrip(index, depth);
      IndexInjective(FromIndex(index, depth), addr);
      var r := GetAccountHash(index);
      if r.Some? {
        return r.value;
      }
      hash := hashes.EmptyHashAtHeight(0);
    }

    /** A child is taken from the cache, computed, or known to be empty. */
    method ChildHash(addr: Address, last: Address) returns (hash: F)
      requires Valid() && 0 < |addr| <= depth == |last| && forall i | i in accounts :: i <= ToIndex(last)
      modifies hashes
      ensures Valid() && hash == TrueHash(addr)
      decreases depth - |addr|, 1
    {
      var cached := hashes.Get(addr);
      if cached.Some? {
        return cached.value;
      }
      if IsBefore(addr, last) {
        hash := EmulateTreeRecursive(addr, last);
      } else {
        PastLastIsEmpty(accounts, hashes.hasher, depth, last, addr);
        hash := hashes.EmptyHashAtHeight(depth - |addr|);
      }
    }

    /** The hash computed through the cache is the hash of the node, and the cache stays coherent. */
    method EmulateTreeRecursive(addr: Address, last: Address) returns (hash: F)
      requires Valid() && |addr| <= depth == |last| && forall i | i in accounts :: i <= ToIndex(last)
      modifies hashes
      ensures Valid() && hash == TrueHash(addr)
      decreases depth - |addr|, 0
    {
      var currentDepth := depth - |addr|;
      if currentDepth == 0 {
        hash := LeafHash(addr);
        return;
      }
      var left := ChildHash(addr + [false], last);
      var right := ChildHash(addr + [true], last);
      var cached := hashes.Get(addr);
      match cached {
        case Some(known) =>
          hash := known;
        case None =>
          hash := hashes.hasher.node(currentDepth - 1, left, right);
          Remember(addr, hash);
      }
    }

    /** `merkle_root` and inner hashes: the true hash, whatever the cache holds. */
    method EmulateTreeToGetHashAt(addr: Address) returns (hash: F)
      requires Valid() && |addr| <= depth
      modifies hashes
      ensures Valid() && hash == TrueHash(addr)
    {
      var cached := hashes.Get(addr);
      if cached.Some? {
        return cached.value;
      }
      var last := if lastLocation.Some? then lastLocation.value else seq(depth, _ => false);
      hash := EmulateTreeRecursive(addr, last);
    }

    /**
     * `emulate_tree_to_get_path`: the same hash, with the steps of the path from the node pushed on the
     * way back. Directions are taken off the front of `path`; the calls for siblings find none left.
     */
    method EmulateTreeToGetPath(addr: Address, last: Address, path: Address)
        returns (hash: F, rest: Address, pushed: seq<PathStep<F>>)
      requires Valid() && |addr| + |path| <= depth == |last| && forall i | i in accounts :: i <= ToIndex(last)
      modifies hashes
      ensures Valid() && hash == TrueHash(addr) && rest == []
      ensures pushed == StepsTo(hashes.hasher, depth, LeavesOf(accounts, hashes.hasher), addr, path)
      decreases depth - |addr|, 0
    {
      rest, pushed := path, [];
      if |addr| == depth {
        hash := LeafHash(addr);
        return;
      }
      if path != [] {
        var _, after, below := EmulateTreeToGetPath(addr + [path[0]], last, path[1..]);
        rest, pushed := after, below;
      }
      var left := PathChildHash(addr + [false], last);
      var right := PathChildHash(addr + [true], last);
      if path != [] {
        pushed := pushed + [if path[0] then RightOf(left) else LeftOf(right)];
      }
      var cached := hashes.Get(addr);
      match cached {
        case Some(known) =>
          hash := known;
        case None =>
          hash := hashes.hasher.node(depth - |addr| - 1, left, right);
          Remember(addr, hash);
      }
    }

    /** A child in that computation, once every direction has been taken. */
    method PathChildHash(addr: Address, last: Address) returns (hash: F)
      requires Valid() && 0 < |addr| <= depth == |last| && forall i | i in accounts :: i <= ToIndex(last)
      modifies hashes
      ensures Valid() && hash == TrueHash(addr)
      decreases depth - |addr|, 1
    {
      var cached := hashes.Get(addr);
      if cached.Some? {
        return cached.value;
      }
      if IsBefore(addr, last) {
        var none, nothing;
        hash, none, nothing := EmulateTreeToGetPath(addr, last, []);
      } else {
        PastLastIsEmpty(accounts, hashes.hasher, depth, last, addr);
        hash := hashes.EmptyHashAtHeight(depth - |addr|);
      }
    }

    /** `merkle_path`: the steps from a node to the root; folding them from the node's hash gives the root. */
    method MerklePath(addr: Address) returns (steps: seq<PathStep<F>>)
      requires Valid() && |addr| <= depth
      modifies hashes
      ensures Valid()
      ensures Directed(steps, addr)
      ensures FoldPath(hashes.hasher, depth - |addr|, TrueHash(addr), steps) == TrueHash([])
      ensures steps == StepsTo(hashes.hasher, depth, LeavesOf(accounts, hashes.hasher), [], addr)
    {
      var last := if lastLocation.Some? then lastLocation.value else seq(depth, _ => false);
      var root, none;
      root, none, steps := EmulateTreeToGetPath([], last, addr);
      StepsDirections(hashes.hasher, depth, LeavesOf(accounts, hashes.hasher), [], addr);
      PathFolds(hashes.hasher, depth, LeavesOf(accounts, hashes.hasher), [], addr);
      assert [] + addr == addr;
    }
  }

  // ----- Runs

  datatype Answered<F> = Hash(hash: F) | Steps(steps: seq<PathStep<F>>)

  datatype LedgerStep<F> =
    | SetAccount(addr: Address, account: F)
    | DropAccounts(addrs: seq<Address>)
    | Query(node: Address)
    | Path(from: Address)

  predicate Fits<F>(s: LedgerStep<F>, depth: nat) {
    match s
    case SetAccount(addr, _) => |addr| == depth
    case DropAccounts(addrs) => forall a | a in addrs :: |a| == depth
    case Query(node) => |node| <= depth
    case Path(from) => |from| <= depth
  }

  function AfterStep<F>(s: LedgerStep<F>, accounts: map<nat, F>): map<nat, F> {
    match s
    case SetAccount(addr, account) => accounts[ToIndex(addr) := account]
    case DropAccounts(addrs) => accounts - (set a | a in addrs :: ToIndex(a))
    case Query(_) => accounts
    case Path(_) => accounts
  }

  ghost function Answer<F>(h: Hasher<F>, depth: nat, s: LedgerStep<F>, accounts: map<nat, F>): seq<Answered<F>>
    requires Fits(s, depth)
  {
    if s.Query? then [Hash(NodeHash(h, depth, LeavesOf(accounts, h), s.node))]
    else if s.Path? then [Steps(StepsTo(h, depth, LeavesOf(accounts, h), [], s.from))]
    else []
  }

  /** The answers of a ledger without a cache: every hash and path computed from the accounts of the moment. */
  ghost function Answers<F>(h: Hasher<F>, depth: nat, steps: seq<LedgerStep<F>>, accounts: map<nat, F>): seq<Answered<F>>
    requires forall s | s in steps :: Fits(s, depth)
  {
    if steps == [] then []
    else
      Answer(h, depth, steps[0], accounts) + Answers(h, depth, steps[1..], AfterStep(steps[0], accounts))
  }

  /** One step of a ledger with a cache: its answer, if it is a query, and its accounts. */
  method TakeStep<F(!new)>(ledger: Ledger<F>, s: LedgerStep<F>) returns (answer: seq<Answered<F>>)
    requires ledger.Valid() && Fits(s, ledger.depth)
    modifies ledger, ledger.hashes
    ensures ledger.Valid() && ledger.accounts == AfterStep(s, old(ledger.accounts))
    ensures answer == Answer(ledger.hashes.hasher, ledger.depth, s, old(ledger.accounts))
  {
    answer := [];
    match s {
      case SetAccount(addr, account) => ledger.Set(addr, account);
      case DropAccounts(addrs) => ledger.RemoveAccounts(addrs);
      case Query(node) =>
        var hash := ledger.EmulateTreeToGetHashAt(node);
        answer := [Hash(hash)];
      case Path(from) =>
        var steps := ledger.MerklePath(from);
        answer := [Steps(steps)];
    }
  }

  lemma AnswersStep<F>(h: Hasher<F>, depth: nat, steps: seq<LedgerStep<F>>, i: nat, accounts: map<nat, F>)
    requires (forall s | s in steps :: Fits(s, depth)) && i < |steps|
    ensures steps[i] in steps
    ensures Answers(h, depth, steps[i..], accounts) ==
            Answer(h, depth, steps[i], accounts) + Answers(h, depth, steps[i + 1..], AfterStep(steps[i], accounts))
  {
    assert steps[i..][0] == steps[i] && steps[i..][1..] == steps[i + 1..];
  }

  /** However changes and queries interleave, the cached ledger answers like one without a cache. */
  method TakeSteps<F(!new)>(ledger: Ledger<F>, steps: seq<LedgerStep<F>>) returns (answers: seq<Answered<F>>)
    requires ledger.Valid() && forall s | s in steps :: Fits(s, ledger.depth)
    modifies ledger, ledger.hashes
    ensures ledger.Valid()
    ensures answers == Answers(ledger.hashes.hasher, ledger.depth, steps, old(ledger.accounts))
  {
    ghost var h, depth := ledger.hashes.hasher, ledger.depth;
    answers := [];
    for i := 0 to |steps|
      invariant ledger.Valid()
      invariant answers + Answers(h, depth, steps[i..], ledger.accounts) ==
                Answers(h, depth, steps, old(ledger.accounts))
    {
      AnswersStep(h, depth, steps, i, ledger.accounts);
      var answer := TakeStep(ledger, steps[i]);
      AppendAssoc(answers, answer, Answers(h, depth, steps[i + 1..], ledger.accounts));
      answers := answers + answer;
    }
  }

  /** Two accounts with a gap between them: once the second is removed, the last location is the gap. */
  method LastLocationCanBeEmpty<F(!new)>(hasher: Hasher<F>, account: F) returns (l: Ledger<F>)
    ensures l.Valid() && l.lastLocation.Some? && !l.LastIsFilled()
  {
    l := new Ledger<F>(2, hasher);
    var first, third := [false, false], [true, false];
    assert ToIndex(first) == 0 && ToIndex(third) == 2;
    l.Set(first, account);
    l.Set(third, account);
    FilledIsLast(l.lastLocation, l.accounts, 2, third);
    l.RemoveAt(third);
  }
}
