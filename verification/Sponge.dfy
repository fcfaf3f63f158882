/** The Poseidon sponge as a state machine, over an arbitrary permutation and field addition. */
module Sponges {
  import opened Prelude

  const RATE: nat := 2

  /** Three lanes; the third is the capacity. */
  datatype Lanes<F> = Lanes(lane0: F, lane1: F, lane2: F)

  /** The field's zero and addition, and the block cipher. */
  datatype Cipher<!F> = Cipher(zero: F, add: (F, F) -> F, permute: Lanes<F> -> Lanes<F>)

  datatype Mode = Absorbed(count: nat) | Squeezed(count: nat)

  datatype SpongeValue<F> = SpongeValue(lanes: Lanes<F>, mode: Mode)

  /** Lane indexes stay below the rate. */
  predicate ValidMode(m: Mode) {
    m.count <= RATE && (m.Squeezed? ==> m.count > 0)
  }

  function AddTo<F>(c: Cipher<F>, l: Lanes<F>, lane: nat, x: F): Lanes<F>
    requires lane < RATE
  {
    if lane == 0 then l.(lane0 := c.add(l.lane0, x)) else l.(lane1 := c.add(l.lane1, x))
  }

  function AbsorbOne<F>(c: Cipher<F>, s: SpongeValue<F>, x: F): (r: SpongeValue<F>)
    requires ValidMode(s.mode)
    ensures r.mode.Absorbed? && 0 < r.mode.count <= RATE
  {
    match s.mode
    case Absorbed(n) =>
      if n == RATE then SpongeValue(AddTo(c, c.permute(s.lanes), 0, x), Absorbed(1))
      else SpongeValue(AddTo(c, s.lanes, n, x), Absorbed(n + 1))
    case Squeezed(_) => SpongeValue(AddTo(c, s.lanes, 0, x), Absorbed(1))
  }

  /** Absorbing nothing moves on by one lane all the same. */
  function AbsorbNothing<F>(c: Cipher<F>, s: SpongeValue<F>): (r: SpongeValue<F>)
    requires ValidMode(s.mode)
    ensures r.mode.Absorbed? && 0 < r.mode.count <= RATE
  {
    match s.mode
    case Absorbed(n) =>
      if n == RATE then SpongeValue(c.permute(s.lanes), Absorbed(1)) else s.(mode := Absorbed(n + 1))
    case Squeezed(_) => s.(mode := Absorbed(1))
  }

  function AbsorbEach<F>(c: Cipher<F>, s: SpongeValue<F>, xs: seq<F>): (r: SpongeValue<F>)
    requires ValidMode(s.mode)
    ensures ValidMode(r.mode)
    decreases |xs|
  {
    if xs == [] then s else AbsorbEach(c, AbsorbOne(c, s, xs[0]), xs[1..])
  }

  function AbsorbList<F>(c: Cipher<F>, s: SpongeValue<F>, xs: seq<F>): (r: SpongeValue<F>)
    requires ValidMode(s.mode)
    ensures ValidMode(r.mode)
  {
    if xs == [] then AbsorbNothing(c, s) else AbsorbEach(c, s, xs)
  }

  /** The output lane and the state after it. */
  function SqueezeOne<F>(c: Cipher<F>, s: SpongeValue<F>): (r: (F, SpongeValue<F>))
    requires ValidMode(s.mode)
    ensures r.1.mode.Squeezed? && ValidMode(r.1.mode)
  {
    match s.mode
    case Squeezed(n) =>
      if n == RATE then
        var l := c.permute(s.lanes);
        (l.lane0, SpongeValue(l, Squeezed(1)))
      else (s.lanes.lane1, s.(mode := Squeezed(n + 1)))
    case Absorbed(_) =>
      var l := c.permute(s.lanes);
      (l.lane0, SpongeValue(l, Squeezed(1)))
  }

  class Sponge<F> {
    const cipher: Cipher<F>
    var spongeState: Mode
    var state: Lanes<F>

    ghost function View(): SpongeValue<F>
      reads this
    {
      SpongeValue(state, spongeState)
    }

    constructor (cipher: Cipher<F>)
      ensures this.cipher == cipher
      ensures View() == SpongeValue(Lanes(cipher.zero, cipher.zero, cipher.zero), Absorbed(0))
    {
      this.cipher := cipher;
      spongeState, state := Absorbed(0), Lanes(cipher.zero, cipher.zero, cipher.zero);
    }

    /** A sponge that continues from a stored state. */
    constructor From(cipher: Cipher<F>, value: SpongeValue<F>)
      ensures this.cipher == cipher && View() == value
    {
      this.cipher := cipher;
      spongeState, state := value.mode, value.lanes;
    }

    method Absorb(xs: seq<F>)
      requires ValidMode(spongeState)
      modifies this
      ensures ValidMode(spongeState) && View() == AbsorbList(cipher, old(View()), xs)
    {
      if xs == [] {
        match spongeState {
          case Absorbed(n) =>
            if n == RATE {
              state := cipher.permute(state);
              spongeState := Absorbed(1);
            } else {
              spongeState := Absorbed(n + 1);
            }
          case Squeezed(_) =>
            spongeState := Absorbed(1);
        }
        return;
      }
      for i := 0 to |xs|
        invariant ValidMode(spongeState)
        invariant AbsorbEach(cipher, View(), xs[i..]) == AbsorbEach(cipher, old(View()), xs)
      {
        assert xs[i..][0] == xs[i] && xs[i..][1..] == xs[i + 1..];
        match spongeState {
          case Absorbed(n) =>
            if n == RATE {
              state := cipher.permute(state);
              spongeState := Absorbed(1);
              state := AddTo(cipher, state, 0, xs[i]);
            } else {
              spongeState := Absorbed(n + 1);
              state := AddTo(cipher, state, n, xs[i]);
            }
          case Squeezed(_) =>
            state := AddTo(cipher, state, 0, xs[i]);
            spongeState := Absorbed(1);
        }
      }
    }

    method Squeeze() returns (x: F)
      requires ValidMode(spongeState)
      modifies this
      ensures ValidMode(spongeState) && (x, View()) == SqueezeOne(cipher, old(View()))
    {
      match spongeState {
        case Squeezed(n) =>
          if n == RATE {
            state := cipher.permute(state);
            spongeState := Squeezed(1);
            x := state.lane0;
          } else {
            spongeState := Squeezed(n + 1);
            x := state.lane1;
          }
        case Absorbed(_) =>
          state := cipher.permute(state);
          spongeState := Squeezed(1);
          x := state.lane0;
      }
    }
  }

  // ----- The plain block construction

  /** Adds a block of at most two elements, padded with zero. */
  function AddBlock<F>(c: Cipher<F>, l: Lanes<F>, block: seq<F>): Lanes<F>
    requires |block| <= RATE
  {
    Lanes(c.add(l.lane0, if |block| > 0 then block[0] else c.zero),
          c.add(l.lane1, if |block| > 1 then block[1] else c.zero),
          l.lane2)
  }

  /** Block by block: add, then permute. There is always at least one block. */
  function BlockFold<F>(c: Cipher<F>, l: Lanes<F>, xs: seq<F>): Lanes<F>
    decreases |xs|
  {
    if |xs| <= RATE then c.permute(AddBlock(c, l, xs))
    else BlockFold(c, c.permute(AddBlock(c, l, xs[..RATE])), xs[RATE..])
  }

  ghost predicate ZeroIsNeutral<F(!new)>(c: Cipher<F>) {
    forall x :: c.add(x, c.zero) == x
  }

  /** States in which absorbing starts a new block: fresh, or after squeezing. */
  predicate AtBlockStart<F>(s: SpongeValue<F>) {
    s.mode == Absorbed(0) || (s.mode.Squeezed? && ValidMode(s.mode))
  }

  /** A full block is only permuted when more comes; then it is as if a new block started. */
  lemma {:induction false} FullBlockContinues<F>(c: Cipher<F>, l: Lanes<F>, xs: seq<F>)
    requires xs != []
    ensures AbsorbEach(c, SpongeValue(l, Absorbed(RATE)), xs) ==
            AbsorbEach(c, SpongeValue(c.permute(l), Absorbed(0)), xs)
  {
  }

  /** Absorbing a list and squeezing is the block construction, for every list and both kinds of start. */
  lemma {:induction false} SpongeIsBlockFold<F(!new)>(c: Cipher<F>, s: SpongeValue<F>, xs: seq<F>)
    requires ZeroIsNeutral(c) && AtBlockStart(s)
    ensures SqueezeOne(c, AbsorbList(c, s, xs)) ==
            (BlockFold(c, s.lanes, xs).lane0, SpongeValue(BlockFold(c, s.lanes, xs), Squeezed(1)))
    decreases |xs|
  {
    if |xs| == 0 {
      assert AddBlock(c, s.lanes, xs) == s.lanes;
    } else {
      var one := AbsorbOne(c, s, xs[0]);
      assert one == SpongeValue(AddTo(c, s.lanes, 0, xs[0]), Absorbed(1));
      if |xs| == 1 {
        assert AbsorbEach(c, one, xs[1..]) == one;
        assert AddBlock(c, s.lanes, xs) == one.lanes;
      } else {
        var two := AbsorbOne(c, one, xs[1]);
        assert two == SpongeValue(AddBlock(c, s.lanes, xs[..RATE]), Absorbed(RATE));
        assert xs[1..][0] == xs[1] && xs[1..][1..] == xs[2..];
        assert AbsorbEach(c, s, xs) == AbsorbEach(c, two, xs[2..]);
        if |xs| == 2 {
          assert xs[..RATE] == xs && xs[2..] == [];
        } else {
          FullBlockContinues(c, two.lanes, xs[2..]);
          SpongeIsBlockFold(c, SpongeValue(c.permute(two.lanes), Absorbed(0)), xs[2..]);
        }
      }
    }
  }

  /** Absorbing nothing is absorbing a zero. */
  lemma NothingIsZero<F(!new)>(c: Cipher<F>, s: SpongeValue<F>)
    requires ZeroIsNeutral(c) && ValidMode(s.mode)
    ensures AbsorbList(c, s, []) == AbsorbList(c, s, [c.zero])
  {
    assert AbsorbEach(c, s, [c.zero]) == AbsorbEach(c, AbsorbOne(c, s, c.zero), []);
  }

  lemma {:induction false} AbsorbEachConcat<F>(c: Cipher<F>, s: SpongeValue<F>, xs: seq<F>, ys: seq<F>)
    requires ValidMode(s.mode)
    ensures AbsorbEach(c, s, xs + ys) == AbsorbEach(c, AbsorbEach(c, s, xs), ys)
    decreases |xs|
  {
    if xs == [] {
      assert xs + ys == ys;
    } else {
      assert (xs + ys)[1..] == xs[1..] + ys;
      AbsorbEachConcat(c, AbsorbOne(c, s, xs[0]), xs[1..], ys);
    }
  }

  function OrZero<F>(c: Cipher<F>, xs: seq<F>): seq<F> {
    if xs == [] then [c.zero] else xs
  }

  /** Two absorbs are one absorb of the joined lists, where an empty list counts as a zero. */
  lemma AbsorbTwice<F(!new)>(c: Cipher<F>, s: SpongeValue<F>, xs: seq<F>, ys: seq<F>)
    requires ZeroIsNeutral(c) && ValidMode(s.mode)
    ensures AbsorbList(c, AbsorbList(c, s, xs), ys) == AbsorbList(c, s, OrZero(c, xs) + OrZero(c, ys))
  {
    var mid := AbsorbList(c, s, xs);
    NothingIsZero(c, s);
    NothingIsZero(c, mid);
    AbsorbEachConcat(c, s, OrZero(c, xs), OrZero(c, ys));
  }

  /** `hash_with_kimchi`: a fresh sponge primed with a stored state. */
  method HashWithKimchi<F(!new)>(c: Cipher<F>, param: SpongeValue<F>, fields: seq<F>) returns (x: F)
    requires ZeroIsNeutral(c) && AtBlockStart(param)
    ensures x == BlockFold(c, param.lanes, fields).lane0
  {
    var sponge := new Sponge<F>.From(c, param);
    sponge.Absorb(fields);
    x := sponge.Squeeze();
    SpongeIsBlockFold(c, param, fields);
  }

  /** A stored parameter is the state after hashing its name; it starts a block of its own. */
  lemma ParamStartsBlock<F(!new)>(c: Cipher<F>, name: F)
    requires ZeroIsNeutral(c)
    ensures var start := SpongeValue(Lanes(c.zero, c.zero, c.zero), Absorbed(0));
            var (x, param) := SqueezeOne(c, AbsorbList(c, start, [name]));
            && AtBlockStart(param)
            && param.lanes == BlockFold(c, start.lanes, [name])
            && x == param.lanes.lane0
  {
    SpongeIsBlockFold(c, SpongeValue(Lanes(c.zero, c.zero, c.zero), Absorbed(0)), [name]);
  }

  // ----- What comes out

  function Permuted<F>(c: Cipher<F>, l: Lanes<F>, n: nat): Lanes<F>
    decreases n
  {
    if n == 0 then l else Permuted(c, c.permute(l), n - 1)
  }

  function Lane<F>(l: Lanes<F>, i: nat): F
    requires i < RATE
  {
    if i == 0 then l.lane0 else l.lane1
  }

  /** The next `n` squeezes, and the sponge after them. */
  function Stream<F>(c: Cipher<F>, s: SpongeValue<F>, n: nat): (xs: seq<F>)
    requires ValidMode(s.mode)
    ensures |xs| == n
    decreases n
  {
    if n == 0 then [] else
    var (x, s') := SqueezeOne(c, s);
    [x] + Stream(c, s', n - 1)
  }

  function After<F>(c: Cipher<F>, s: SpongeValue<F>, n: nat): SpongeValue<F>
    requires ValidMode(s.mode)
    decreases n
  {
    if n == 0 then s else After(c, SqueezeOne(c, s).1, n - 1)
  }

  /** How many lanes of the current block are used up; absorbing leaves none to squeeze. */
  function UsedLanes(m: Mode): nat {
    match m
    case Absorbed(_) => RATE
    case Squeezed(n) => n
  }

  /** The lanes of a block come out in turn, and the block is permuted after the last of them. */
  lemma {:induction false} StreamIsLanes<F>(c: Cipher<F>, s: SpongeValue<F>, n: nat, k: nat)
    requires ValidMode(s.mode) && k < n
    ensures var p := UsedLanes(s.mode) + k;
            Stream(c, s, n)[k] == Lane(Permuted(c, s.lanes, p / RATE), p % RATE)
    decreases n
  {
    var (x, s') := SqueezeOne(c, s);
    if k > 0 {
      StreamIsLanes(c, s', n - 1, k - 1);
    }
  }

  /** After absorbing a list, squeeze number `k` is lane `k % 2` of the block construction permuted `k / 2` times. */
  lemma SqueezesOfBlockFold<F(!new)>(c: Cipher<F>, s: SpongeValue<F>, xs: seq<F>, n: nat, k: nat)
    requires ZeroIsNeutral(c) && AtBlockStart(s) && k < n
    ensures Stream(c, AbsorbList(c, s, xs), n)[k] == Lane(Permuted(c, BlockFold(c, s.lanes, xs), k / 2), k % 2)
  {
    SpongeIsBlockFold(c, s, xs);
    if k > 0 {
      StreamIsLanes(c, SpongeValue(BlockFold(c, s.lanes, xs), Squeezed(1)), n - 1, k - 1);
    }
  }

  // ----- Squeezing limbs

  datatype BigInt256 = BigInt256(limb0: U64, limb1: U64, limb2: U64, limb3: U64)

  /** The limbs asked for, the limbs kept for later, and the sponge. */
  datatype Squeezing<F> = Squeezing(limbs: seq<U64>, kept: seq<U64>, sponge: SpongeValue<F>)

  function HighEntropyLimbs(x: BigInt256): seq<U64> {
    [x.limb0, x.limb1]
  }

  /** Serves from the buffer, and squeezes two limbs at a time while it is too short. */
  function SqueezeLimbs<F>(c: Cipher<F>, toBigInt: F -> BigInt256, s: SpongeValue<F>, buffer: seq<U64>, n: nat)
    : Squeezing<F>
    requires ValidMode(s.mode)
    decreases if |buffer| < n then n - |buffer| else 0
  {
    if |buffer| >= n then Squeezing(buffer[..n], buffer[n..], s)
    else
      var (x, s') := SqueezeOne(c, s);
      SqueezeLimbs(c, toBigInt, s', buffer + HighEntropyLimbs(toBigInt(x)), n)
  }

  lemma {:induction false} SqueezeLimbsValid<F>(c: Cipher<F>, toBigInt: F -> BigInt256, s: SpongeValue<F>,
                                                buffer: seq<U64>, n: nat)
    requires ValidMode(s.mode)
    ensures var r := SqueezeLimbs(c, toBigInt, s, buffer, n);
            |r.limbs| == n && ValidMode(r.sponge.mode)
    decreases if |buffer| < n then n - |buffer| else 0
  {
    if |buffer| < n {
      var (x, s') := SqueezeOne(c, s);
      SqueezeLimbsValid(c, toBigInt, s', buffer + HighEntropyLimbs(toBigInt(x)), n);
    }
  }

  /** Limbs already in front of the buffer come out first and change nothing else. */
  lemma {:induction false} FrontComesFirst<F>(c: Cipher<F>, toBigInt: F -> BigInt256, s: SpongeValue<F>,
                                              front: seq<U64>, buffer: seq<U64>, n: nat)
    requires ValidMode(s.mode)
    ensures var r := SqueezeLimbs(c, toBigInt, s, buffer, n);
            SqueezeLimbs(c, toBigInt, s, front + buffer, |front| + n) == Squeezing(front + r.limbs, r.kept, r.sponge)
    decreases if |buffer| < n then n - |buffer| else 0
  {
    if |buffer| >= n {
      assert (front + buffer)[..|front| + n] == front + buffer[..n];
      assert (front + buffer)[|front| + n..] == buffer[n..];
    } else {
      var (x, s') := SqueezeOne(c, s);
      var more := HighEntropyLimbs(toBigInt(x));
      assert front + buffer + more == front + (buffer + more);
      FrontComesFirst(c, toBigInt, s', front, buffer + more, n);
    }
  }

  /** One stream: asking for `a` limbs and then `b` is asking for `a + b`. */
  lemma {:induction false} LimbsAreOneStream<F>(c: Cipher<F>, toBigInt: F -> BigInt256, s: SpongeValue<F>,
                                                buffer: seq<U64>, a: nat, b: nat)
    requires ValidMode(s.mode)
    ensures var first := SqueezeLimbs(c, toBigInt, s, buffer, a);
            ValidMode(first.sponge.mode)
    ensures var first := SqueezeLimbs(c, toBigInt, s, buffer, a);
            var second := SqueezeLimbs(c, toBigInt, first.sponge, first.kept, b);
            SqueezeLimbs(c, toBigInt, s, buffer, a + b) ==
            Squeezing(first.limbs + second.limbs, second.kept, second.sponge)
    decreases if |buffer| < a then a - |buffer| else 0
  {
    SqueezeLimbsValid(c, toBigInt, s, buffer, a);
    if |buffer| >= a {
      assert buffer == buffer[..a] + buffer[a..];
      FrontComesFirst(c, toBigInt, s, buffer[..a], buffer[a..], b);
    } else {
      var (x, s') := SqueezeOne(c, s);
      LimbsAreOneStream(c, toBigInt, s', buffer + HighEntropyLimbs(toBigInt(x)), a, b);
    }
  }

  /** The two low limbs of every element, in order. */
  function LowLimbs<F>(toBigInt: F -> BigInt256, xs: seq<F>): seq<U64> {
    seq(2 * |xs|, k requires 0 <= k < 2 * |xs| =>
      if k % 2 == 0 then toBigInt(xs[k / 2]).limb0 else toBigInt(xs[k / 2]).limb1)
  }

  /** How often the sponge is squeezed when `n` limbs are asked for and `held` are buffered. */
  function Squeezes(held: nat, n: nat): nat {
    if held >= n then 0 else (n - held + 1) / 2
  }

  /** The limbs given out and those kept are the buffered ones and the low limbs of the squeezes needed. */
  lemma {:induction false} LimbsAreLowLimbs<F>(c: Cipher<F>, toBigInt: F -> BigInt256, s: SpongeValue<F>,
                                               buffer: seq<U64>, n: nat)
    requires ValidMode(s.mode)
    ensures var r, m := SqueezeLimbs(c, toBigInt, s, buffer, n), Squeezes(|buffer|, n);
            && r.limbs + r.kept == buffer + LowLimbs(toBigInt, Stream(c, s, m))
            && |r.limbs| == n && r.sponge == After(c, s, m)
    decreases if |buffer| < n then n - |buffer| else 0
  {
    if |buffer| >= n {
      assert buffer[..n] + buffer[n..] == buffer + LowLimbs(toBigInt, Stream(c, s, 0));
    } else {
      var (x, s') := SqueezeOne(c, s);
      var m, two := Squeezes(|buffer|, n), HighEntropyLimbs(toBigInt(x));
      LimbsAreLowLimbs(c, toBigInt, s', buffer + two, n);
      LowLimbsFirst(toBigInt, x, Stream(c, s', m - 1));
      AppendAssoc(buffer, two, LowLimbs(toBigInt, Stream(c, s', m - 1)));
    }
  }

  lemma LowLimbsFirst<F>(toBigInt: F -> BigInt256, x: F, xs: seq<F>)
    ensures LowLimbs(toBigInt, [x] + xs) == HighEntropyLimbs(toBigInt(x)) + LowLimbs(toBigInt, xs)
  {
    forall k | 2 <= k < 2 * |xs| + 2 ensures ([x] + xs)[k / 2] == xs[(k - 2) / 2] {
    }
  }

  /** Limb number `k` after an absorb: the low limbs of lane 0, those of lane 1, and on with the next permutation. */
  lemma ChallengeLimb<F>(c: Cipher<F>, toBigInt: F -> BigInt256, s: SpongeValue<F>, n: nat, k: nat)
    requires s.mode.Absorbed? && ValidMode(s.mode) && k < n
    ensures var r := SqueezeLimbs(c, toBigInt, s, [], n);
            var x := toBigInt(Lane(Permuted(c, s.lanes, k / 4 + 1), k / 2 % 2));
            |r.limbs| == n && r.limbs[k] == if k % 2 == 0 then x.limb0 else x.limb1
  {
    var r, m := SqueezeLimbs(c, toBigInt, s, [], n), Squeezes(0, n);
    LimbsAreLowLimbs(c, toBigInt, s, [], n);
    StreamIsLanes(c, s, m, k / 2);
    assert (r.limbs + r.kept)[k] == r.limbs[k];
    assert (2 + k / 2) / 2 == k / 4 + 1;
  }

  class FqSponge<F> {
    const sponge: Sponge<F>
    const toBigInt: F -> BigInt256
    var lastSqueezed: seq<U64>

    constructor (cipher: Cipher<F>, toBigInt: F -> BigInt256)
      ensures fresh(sponge) && sponge.cipher == cipher && this.toBigInt == toBigInt
      ensures ValidMode(sponge.spongeState) && lastSqueezed == []
    {
      sponge := new Sponge<F>(cipher);
      this.toBigInt := toBigInt;
      lastSqueezed := [];
    }

    /** Element by element: unlike `Absorb`, an empty list leaves the sponge alone. */
    method AbsorbFq(xs: seq<F>)
      requires ValidMode(sponge.spongeState)
      modifies this, sponge
      ensures ValidMode(sponge.spongeState) && lastSqueezed == []
      ensures sponge.View() == AbsorbEach(sponge.cipher, old(sponge.View()), xs)
    {
      lastSqueezed := [];
      for i := 0 to |xs|
        invariant ValidMode(sponge.spongeState) && lastSqueezed == []
        invariant AbsorbEach(sponge.cipher, sponge.View(), xs[i..]) ==
                  AbsorbEach(sponge.cipher, old(sponge.View()), xs)
      {
        assert xs[i..][0] == xs[i] && xs[i..][1..] == xs[i + 1..];
        ghost var before := sponge.View();
        sponge.Absorb([xs[i]]);
        assert AbsorbEach(sponge.cipher, before, [xs[i]]) ==
               AbsorbEach(sponge.cipher, AbsorbOne(sponge.cipher, before, xs[i]), []);
      }
    }

    method Squeeze(n: nat) returns (limbs: seq<U64>)
      requires ValidMode(sponge.spongeState)
      modifies this, sponge
      ensures ValidMode(sponge.spongeState)
      ensures Squeezing(limbs, lastSqueezed, sponge.View()) ==
              SqueezeLimbs(sponge.cipher, toBigInt, old(sponge.View()), old(lastSqueezed), n)
      decreases if |lastSqueezed| < n then n - |lastSqueezed| else 0
    {
      if |lastSqueezed| >= n {
        limbs := lastSqueezed[..n];
        lastSqueezed := lastSqueezed[n..];
      } else {
        var x := sponge.Squeeze();
        lastSqueezed := lastSqueezed + HighEntropyLimbs(toBigInt(x));
        limbs := Squeeze(n);
      }
    }
  }
}
