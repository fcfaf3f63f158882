/** The cache of Merkle node hashes, against the tree it caches. */
module MerkleCache {
  import opened Prelude
  import opened Arithmetic

  /** Left (false) and right (true) turns from the root. */
  type Address = seq<bool>

  // ----- Addresses and their linear index

  /** Position of the address among those of its length. */
  function ToIndex(a: Address): (i: nat)
    ensures i < Pow2(|a|)
  {
    if a == [] then 0 else 2 * ToIndex(a[..|a| - 1]) + Bit(a[|a| - 1])
  }

  function FromIndex(i: nat, length: nat): (a: Address)
    ensures |a| == length
  {
    if length == 0 then [] else FromIndex(i / 2, length - 1) + [i % 2 == 1]
  }

  function ToLinearIndex(a: Address): nat {
    Pow2(|a|) + ToIndex(a) - 1
  }

  /** The address of an account index leads back to that index. */
  lemma {:induction false} IndexRoundTrip(i: nat, length: nat)
    requires i < Pow2(length)
    ensures ToIndex(FromIndex(i, length)) == i
  {
    if length > 0 {
      IndexRoundTrip(i / 2, length - 1);
      var front := FromIndex(i / 2, length - 1);
      assert FromIndex(i, length)[..length - 1] == front;
    }
  }

  lemma {:induction false} IndexInjective(a: Address, b: Address)
    requires |a| == |b| && ToIndex(a) == ToIndex(b)
    ensures a == b
  {
    if a != [] {
      var n := |a| - 1;
      IndexInjective(a[..n], b[..n]);
      assert a == a[..n] + [a[n]] && b == b[..n] + [b[n]];
    }
  }

  /** Distinct addresses, of any lengths, have distinct linear indexes. */
  lemma LinearInjective(a: Address, b: Address)
    requires ToLinearIndex(a) == ToLinearIndex(b)
    ensures a == b
  {
    if |a| < |b| {
      Pow2Monotone(|a| + 1, |b|);
    } else if |b| < |a| {
      Pow2Monotone(|b| + 1, |a|);
    }
    IndexInjective(a, b);
  }

  /** Linear indexes count the nodes level by level: the root is 0, and the children of a node follow one another. */
  lemma LevelOrder(a: Address, right: bool)
    ensures ToLinearIndex([]) == 0
    ensures ToLinearIndex(a + [right]) == 2 * ToLinearIndex(a) + if right then 2 else 1
  {
    assert (a + [right])[..|a|] == a;
  }

  // ----- The tree

  /** Hashing of inner nodes by height, and the hash of the empty account. */
  datatype Hasher<!F> = Hasher(node: (nat, F, F) -> F, emptyAccount: F)

  /** Hash of the node at an address of a tree whose leaf hashes are given. */
  ghost function NodeHash<F>(h: Hasher<F>, depth: nat, leaves: Address -> F, a: Address): F
    requires |a| <= depth
    decreases depth - |a|
  {
    if |a| == depth then leaves(a)
    else h.node(depth - |a| - 1,
                NodeHash(h, depth, leaves, a + [false]),
                NodeHash(h, depth, leaves, a + [true]))
  }

  /** Changing one leaf changes only the nodes on the path to it. */
  lemma {:induction false} OffPathUnchanged<F>(h: Hasher<F>, depth: nat, leaves: Address -> F, leaves': Address -> F,
                                               path: Address, a: Address)
    requires |path| == depth && |a| <= depth && !(a <= path)
    requires forall b: Address | |b| == depth && b != path :: leaves'(b) == leaves(b)
    ensures NodeHash(h, depth, leaves', a) == NodeHash(h, depth, leaves, a)
    decreases depth - |a|
  {
    if |a| < depth {
      assert a <= a + [false] && a <= a + [true];
      OffPathUnchanged(h, depth, leaves, leaves', path, a + [false]);
      OffPathUnchanged(h, depth, leaves, leaves', path, a + [true]);
    }
  }

  /** `V2::empty_hash_at_height`. */
  function EmptyHash<F>(h: Hasher<F>, height: nat): F {
    if height == 0 then h.emptyAccount
    else
      var below := EmptyHash(h, height - 1);
      h.node(height - 1, below, below)
  }

  /** It is the hash of a complete subtree of that height without accounts. */
  lemma {:induction false} EmptySubtreeHash<F>(h: Hasher<F>, depth: nat, leaves: Address -> F, a: Address)
    requires |a| <= depth
    requires forall b: Address | |b| == depth && a <= b :: leaves(b) == h.emptyAccount
    ensures NodeHash(h, depth, leaves, a) == EmptyHash(h, depth - |a|)
    decreases depth - |a|
  {
    if |a| < depth {
      assert a <= a + [false] && a <= a + [true];
      EmptySubtreeHash(h, depth, leaves, a + [false]);
      EmptySubtreeHash(h, depth, leaves, a + [true]);
    }
  }

  // ----- Coherence

  /** Every cached hash is the hash of its node. */
  ghost predicate Coherent<F(!new)>(m: map<nat, F>, h: Hasher<F>, depth: nat, leaves: Address -> F) {
    forall a: Address | |a| <= depth && ToLinearIndex(a) in m ::
      m[ToLinearIndex(a)] == NodeHash(h, depth, leaves, a)
  }

  /** Linear indexes of an address and all its ancestors. */
  function PathIndexes(a: Address): set<nat> {
    {ToLinearIndex(a)} + if a == [] then {} else PathIndexes(a[..|a| - 1])
  }

  lemma {:induction false} PathIndexesExact(path: Address, a: Address)
    ensures ToLinearIndex(a) in PathIndexes(path) <==> a <= path
  {
    if ToLinearIndex(a) == ToLinearIndex(path) {
      LinearInjective(a, path);
    }
    if path != [] {
      var front := path[..|path| - 1];
      PathIndexesExact(front, a);
      assert a <= path <==> a == path || a <= front;
    }
  }

  /**
   * After invalidating a leaf's path, what is left of a coherent cache is coherent with the tree in
   * which that leaf holds anything at all.
   */
  lemma InvalidationKeepsCoherence<F(!new)>(m: map<nat, F>, h: Hasher<F>, depth: nat, leaves: Address -> F,
                                            leaves': Address -> F, path: Address)
    requires Coherent(m, h, depth, leaves) && |path| == depth
    requires forall b: Address | |b| == depth && b != path :: leaves'(b) == leaves(b)
    ensures Coherent(m - PathIndexes(path), h, depth, leaves')
  {
    forall a: Address | |a| <= depth && ToLinearIndex(a) in m - PathIndexes(path)
      ensures m[ToLinearIndex(a)] == NodeHash(h, depth, leaves', a) {
      PathIndexesExact(path, a);
      OffPathUnchanged(h, depth, leaves, leaves', path, a);
    }
  }

  lemma SetKeepsCoherence<F(!new)>(m: map<nat, F>, h: Hasher<F>, depth: nat, leaves: Address -> F, a: Address)
    requires Coherent(m, h, depth, leaves) && |a| <= depth
    ensures Coherent(m[ToLinearIndex(a) := NodeHash(h, depth, leaves, a)], h, depth, leaves)
  {
    forall b: Address | |b| <= depth && ToLinearIndex(b) == ToLinearIndex(a) ensures b == a {
      LinearInjective(a, b);
    }
  }

  /** Emptying a path is emptying its lowest slot and then the rest of the path. */
  lemma PathStep<F(!new)>(m: map<nat, F>, a: Address)
    ensures m - PathIndexes(a) ==
            if a == [] then m - {ToLinearIndex(a)} else m - {ToLinearIndex(a)} - PathIndexes(a[..|a| - 1])
  {
    assert PathIndexes(a) == {ToLinearIndex(a)} + if a == [] then {} else PathIndexes(a[..|a| - 1]);
  }

  class HashesMatrix<F(!new)> {
    var matrix: map<nat, F>
    var emptyHashes: seq<Option<F>>
    const ledgerDepth: nat
    var nhashes: nat
    const hasher: Hasher<F>
    /** The shared table of empty hashes, for heights below 36. */
    const hashEmpties: seq<F>

    /** The count is the number of entries, and the memo holds only empty-subtree hashes. */
    ghost predicate Valid()
      reads this
    {
      && nhashes == |matrix|
      && |emptyHashes| == ledgerDepth
      && |hashEmpties| == 36
      && (forall i | 0 <= i < 36 :: hashEmpties[i] == EmptyHash(hasher, i))
      && (forall i | 0 <= i < |emptyHashes| && emptyHashes[i].Some? :: emptyHashes[i].value == EmptyHash(hasher, i))
    }

    constructor (ledgerDepth: nat, hasher: Hasher<F>)
      ensures Valid() && matrix == map[] && this.ledgerDepth == ledgerDepth && this.hasher == hasher
    {
      matrix, nhashes := map[], 0;
      this.ledgerDepth, this.hasher := ledgerDepth, hasher;
      emptyHashes := seq(ledgerDepth, _ => None);
      hashEmpties := seq(36, i requires 0 <= i => EmptyHash(hasher, i));
    }

    method Get(addr: Address) returns (r: Option<F>)
      ensures r == if ToLinearIndex(addr) in matrix then Some(matrix[ToLinearIndex(addr)]) else None
    {
      var linear := ToLinearIndex(addr);
      r := if linear in matrix then Some(matrix[linear]) else None;
    }

    method Set(addr: Address, hash: F)
      requires Valid() && ToLinearIndex(addr) !in matrix
      modifies `matrix, `nhashes
      ensures Valid() && matrix == old(matrix)[ToLinearIndex(addr) := hash]
    {
      matrix := matrix[ToLinearIndex(addr) := hash];
      nhashes := nhashes + 1;
    }

    method RemoveAtIndex(linear: nat)
      requires Valid()
      modifies `matrix, `nhashes
      ensures Valid() && matrix == old(matrix) - {linear}
    {
      if linear in matrix {
        nhashes := nhashes - 1;
        assert matrix.Keys == (matrix - {linear}).Keys + {linear};
      } else {
        assert matrix - {linear} == matrix;
      }
      matrix := matrix - {linear};
    }

    method Remove(addr: Address)
      requires Valid()
      modifies `matrix, `nhashes
      ensures Valid() && matrix == old(matrix) - {ToLinearIndex(addr)}
    {
      RemoveAtIndex(ToLinearIndex(addr));
    }

    /** Takes over the entries of another cache; its value wins where both have one. */
    method TransferHashes(hashes: map<nat, F>)
      requires Valid()
      modifies `matrix, `nhashes
      ensures Valid() && matrix == old(matrix) + hashes
    {
      var rest := hashes;
      while rest != map[]
        invariant Valid()
        invariant matrix + rest == old(matrix) + hashes
        decreases |rest|
      {
        assert rest.Keys != {};
        var index :| index in rest.Keys;
        ghost var before := matrix;
        if index !in matrix {
          nhashes := nhashes + 1;
        } else {
          assert matrix[index := rest[index]].Keys == matrix.Keys;
        }
        matrix := matrix[index := rest[index]];
        assert matrix + (rest - {index}) == before + rest;
        assert (rest - {index}).Keys == rest.Keys - {index};
        rest := rest - {index};
      }
      assert matrix + rest == matrix;
    }

    /** Drops the cached hashes on the path from a leaf to the root. */
    method InvalidateHashes(accountIndex: nat)
      requires Valid()
      modifies `matrix, `nhashes
      ensures Valid() && matrix == old(matrix) - PathIndexes(FromIndex(accountIndex, ledgerDepth))
    {
      var addr := FromIndex(accountIndex, ledgerDepth);
      while true
        invariant Valid()
        invariant matrix - PathIndexes(addr) == old(matrix) - PathIndexes(FromIndex(accountIndex, ledgerDepth))
        decreases |addr|
      {
        PathStep(matrix, addr);
        RemoveAtIndex(ToLinearIndex(addr));
        if addr == [] {
          break;
        }
        addr := addr[..|addr| - 1];
      }
    }

    method EmptyHashAtHeight(height: nat) returns (hash: F)
      requires Valid() && height < ledgerDepth && height < 36
      modifies `emptyHashes
      ensures Valid() && hash == EmptyHash(hasher, height)
    {
      if emptyHashes[height].Some? {
        return emptyHashes[height].value;
      }
      hash := hashEmpties[height];
      emptyHashes := emptyHashes[height := Some(hash)];
    }

    method Clear()
      requires Valid()
      modifies `matrix, `nhashes, `emptyHashes
      ensures Valid() && matrix == map[]
    {
      matrix, nhashes, emptyHashes := map[], 0, seq(ledgerDepth, _ => None);
    }
  }

  // ----- Runs

  /** What a ledger does to its cache: every step but the last names only the cache. */
  datatype CacheStep<!F> =
    | SetNode(addr: Address)
    | RemoveNode(addr: Address)
    | Transfer(other: map<nat, F>)
    | ClearAll
    | ChangeLeaf(path: Address, leaves: Address -> F)

  /** Entries set are true hashes, transferred caches are coherent, and a leaf change is announced. */
  ghost predicate Proper<F(!new)>(s: CacheStep<F>, h: Hasher<F>, depth: nat, leaves: Address -> F) {
    match s
    case SetNode(a) => |a| <= depth
    case RemoveNode(a) => true
    case Transfer(other) => Coherent(other, h, depth, leaves)
    case ClearAll => true
    case ChangeLeaf(path, leaves') =>
      |path| == depth && forall b: Address | |b| == depth && b != path :: leaves'(b) == leaves(b)
  }

  ghost function AfterStep<F(!new)>(s: CacheStep<F>, h: Hasher<F>, depth: nat, m: map<nat, F>, leaves: Address -> F)
    : (r: (map<nat, F>, Address -> F))
    requires Proper(s, h, depth, leaves)
  {
    match s
    case SetNode(a) => (m[ToLinearIndex(a) := NodeHash(h, depth, leaves, a)], leaves)
    case RemoveNode(a) => (m - {ToLinearIndex(a)}, leaves)
    case Transfer(other) => (m + other, leaves)
    case ClearAll => (map[], leaves)
    case ChangeLeaf(path, leaves') => (m - PathIndexes(path), leaves')
  }

  lemma StepKeepsCoherence<F(!new)>(s: CacheStep<F>, h: Hasher<F>, depth: nat, m: map<nat, F>, leaves: Address -> F)
    requires Coherent(m, h, depth, leaves) && Proper(s, h, depth, leaves)
    ensures var (m', leaves') := AfterStep(s, h, depth, m, leaves);
            Coherent(m', h, depth, leaves')
  {
    match s
    case SetNode(a) => SetKeepsCoherence(m, h, depth, leaves, a);
    case RemoveNode(a) =>
    case Transfer(other) =>
    case ClearAll =>
    case ChangeLeaf(path, leaves') => InvalidationKeepsCoherence(m, h, depth, leaves, leaves', path);
  }

  /** Through any run of proper steps the cache never disagrees with the current tree. */
  lemma {:induction false} RunsStayCoherent<F(!new)>(steps: seq<CacheStep<F>>, h: Hasher<F>, depth: nat,
                                                     states: seq<(map<nat, F>, Address -> F)>, n: nat)
    requires |states| == |steps| + 1 && n < |states| && Coherent(states[0].0, h, depth, states[0].1)
    requires forall i | 0 <= i < |steps| :: Proper(steps[i], h, depth, states[i].1)
    requires forall i | 0 <= i < |steps| ::
               states[i + 1] == AfterStep(steps[i], h, depth, states[i].0, states[i].1)
    ensures Coherent(states[n].0, h, depth, states[n].1)
  {
    if n > 0 {
      RunsStayCoherent(steps, h, depth, states, n - 1);
      StepKeepsCoherence(steps[n - 1], h, depth, states[n - 1].0, states[n - 1].1);
    }
  }
}
