/**
 * The packing of hash inputs into field elements: the in-place four-limb
 * shift, the most-significant-first packer and the legacy
 * least-significant-first one.
 */
module Packing {
  import opened Prelude
  import opened Arithmetic

  /** `2^256`, the number of values four limbs can hold. */
  const U256_SIZE: nat := 0x1_0000_0000_0000_0000_0000_0000_0000_0000_0000_0000_0000_0000_0000_0000_0000_0000

  /** `2^254`: every number below it is a field element. */
  const FIELD_BOUND: nat := 0x4000_0000_0000_0000_0000_0000_0000_0000_0000_0000_0000_0000_0000_0000_0000_0000

  type Limbs = l: seq<U64> | |l| == 4 witness [0, 0, 0, 0]

  /** A low limb under the number that the limbs above it hold. */
  function Above(low: nat, high: nat): (v: nat) {
    low + 0x1_0000_0000_0000_0000 * high
  }

  /** The number held by four 64-bit limbs, least significant first. */
  function Value(l: Limbs): (v: nat)
    ensures v < U256_SIZE
  {
    Above(l[0], Above(l[1], Above(l[2], l[3])))
  }

  // ----- Powers of two and bitwise or -----------------------------------------

  lemma Squared(k: nat, v: nat)
    requires Pow2(k) == v
    ensures Pow2(k + k) == v * v
  {
    Pow2Add(k, k);
  }

  lemma BytePower(n: nat)
    requires n == 8
    ensures Pow2(n) == 0x100
  {
  }

  lemma WordPower(n: nat)
    requires n == 32
    ensures Pow2(n) == 0x1_0000_0000
  {
    BytePower(n / 4);
    Squared(n / 4, 0x100);
    Squared(n / 2, 0x1_0000);
  }

  lemma LimbPower(n: nat)
    requires n == 64
    ensures Pow2(n) == U64_SIZE
  {
    WordPower(n / 2);
    Squared(n / 2, 0x1_0000_0000);
  }

  lemma SixBytePower(n: nat)
    requires n == 48
    ensures Pow2(n) == 0x1_0000_0000_0000
  {
    BytePower(n / 6);
    Squared(n / 6, 0x100);
    WordPower(n - n / 3);
    Pow2Add(n - n / 3, n / 3);
  }

  lemma AllLimbsPower(n: nat)
    requires n == 256
    ensures Pow2(n) == U256_SIZE
  {
    LimbPower(n / 4);
    Squared(n / 4, 0x1_0000_0000_0000_0000);
    Squared(n / 2, 0x1_0000_0000_0000_0000_0000_0000_0000_0000);
  }

  function BitOr(x: nat, y: nat): (z: nat)
    decreases x + y
  {
    if x == 0 && y == 0 then 0
    else 2 * BitOr(x / 2, y / 2) + if x % 2 == 1 || y % 2 == 1 then 1 else 0
  }

  lemma {:induction false} OrZero(x: nat)
    ensures BitOr(0, x) == x && BitOr(x, 0) == x
  {
    if x > 0 {
      OrZero(x / 2);
    }
  }

  lemma {:induction false} OrFits(l: nat, l': nat, n: nat)
    requires l < Pow2(n) && l' < Pow2(n)
    ensures BitOr(l, l') < Pow2(n)
  {
    if n > 0 {
      OrFits(l / 2, l' / 2, n - 1);
      OrHalves(l, l');
    }
  }

  /** Bitwise or works on the high and the low bits apart. */
  lemma {:induction false} OrSplit(h: nat, l: nat, h': nat, l': nat, n: nat)
    requires l < Pow2(n) && l' < Pow2(n)
    ensures BitOr(l, l') < Pow2(n)
    ensures BitOr(Times(h, Pow2(n)) + l, Times(h', Pow2(n)) + l') == Times(BitOr(h, h'), Pow2(n)) + BitOr(l, l')
  {
    OrFits(l, l', n);
    if n == 0 {
      OrUndivided(h, h', l, l', Pow2(n));
    } else {
      OrSplit(h, l / 2, h', l' / 2, n - 1);
      OrNextPower(h, l, h', l', BitOr(h, h'), n);
    }
  }

  lemma OrNextPower(h: nat, l: nat, h': nat, l': nat, either: nat, n: nat)
    requires n > 0
    requires BitOr(Times(h, Pow2(n - 1)) + l / 2, Times(h', Pow2(n - 1)) + l' / 2) ==
             Times(either, Pow2(n - 1)) + BitOr(l / 2, l' / 2)
    ensures BitOr(Times(h, Pow2(n)) + l, Times(h', Pow2(n)) + l') == Times(either, Pow2(n)) + BitOr(l, l')
  {
    TimesNextPower(h, n);
    TimesNextPower(h', n);
    TimesNextPower(either, n);
    OrDoubled(Times(h, Pow2(n - 1)), l, Times(h', Pow2(n - 1)), l', Times(either, Pow2(n - 1)));
  }

  lemma TimesNextPower(h: nat, n: nat)
    requires n > 0
    ensures Times(h, Pow2(n)) == 2 * Times(h, Pow2(n - 1))
  {
    DoubleTimes(h, Pow2(n - 1));
  }

  lemma OrUndivided(h: nat, h': nat, l: nat, l': nat, p: nat)
    requires p == 1 && l == 0 && l' == 0
    ensures BitOr(Times(h, p) + l, Times(h', p) + l') == Times(BitOr(h, h'), p) + BitOr(l, l')
  {
    TimesOne(h);
    TimesOne(h');
    TimesOne(BitOr(h, h'));
  }

  lemma OrDoubled(x: nat, l: nat, y: nat, l': nat, z: nat)
    requires BitOr(x + l / 2, y + l' / 2) == z + BitOr(l / 2, l' / 2)
    ensures BitOr(2 * x + l, 2 * y + l') == 2 * z + BitOr(l, l')
  {
  }

  lemma OrHalves(x: nat, y: nat)
    ensures BitOr(x, y) == 2 * BitOr(x / 2, y / 2) + if x % 2 == 1 || y % 2 == 1 then 1 else 0
  {
  }

  // ----- The shift ------------------------------------------------------------

  function Carry(a: U64, n: nat): (c: nat)
    requires 0 < n < 64
  {
    Quotient(a, Pow2(64 - n))
  }

  function Low(a: U64, n: nat): (r: nat)
    requires 0 < n < 64
  {
    (a * Pow2(n)) % U64_SIZE
  }

  /** Multiplying by one factor of `b` cuts a number below `b` at the other factor. */
  lemma CutAtFactor(a: nat, p: nat, q: nat, b: nat)
    requires p > 0 && q > 0 && p * q == b && a < b
    ensures a * p == Quotient(a, q) * b + (a * p) % b
    ensures Quotient(a, q) < p
    ensures (a * p) % b == (a % q) * p
    ensures (a * p) % b + p <= b
  {
    Remainder(a, q);
    DivisionBySubtraction(a, q);
    var c, r := Quotient(a, q), a % q;
    CutProduct(c, r, p, q);
    FactorRoom(r, p, q);
    QuotientUnique(a * p, b, c, r * p);
    BelowFactor(c, r, p, q);
  }

  lemma FactorRoom(r: nat, p: nat, q: nat)
    requires p > 0 && r < q
    ensures 0 <= r * p && r * p + p <= p * q
  {
    MulStep(p, r, q);
    assert p * r == r * p;
  }

  lemma BelowFactor(c: nat, r: nat, p: nat, q: nat)
    requires c * q + r < p * q
    ensures c < p
  {
  }

  lemma CutProduct(c: nat, r: nat, p: nat, q: nat)
    ensures (c * q + r) * p == p * q * c + r * p
  {
  }

  lemma FactorsOfLimb(n: nat)
    requires 0 < n < 64
    ensures Pow2(n) * Pow2(64 - n) == U64_SIZE
  {
    LimbPower(n + (64 - n));
    Pow2Add(n, 64 - n);
  }

  /** A limb shifted left is its carry and a multiple of `2^n` with room below it. */
  lemma LimbSplit(a: U64, n: nat)
    requires 0 < n < 64
    ensures a * Pow2(n) == Carry(a, n) * U64_SIZE + Low(a, n)
    ensures Carry(a, n) < Pow2(n)
    ensures Low(a, n) == (a % Pow2(64 - n)) * Pow2(n)
    ensures Low(a, n) + Pow2(n) <= U64_SIZE
  {
    FactorsOfLimb(n);
    CutAtFactor(a, Pow2(n), Pow2(64 - n), U64_SIZE);
  }

  lemma LimbOr(a: U64, t: nat, n: nat)
    requires 0 < n < 64 && t < Pow2(n)
    ensures BitOr(Low(a, n), t) == Low(a, n) + t < U64_SIZE
  {
    LimbSplit(a, n);
    TimesIsProduct(a % Pow2(64 - n), Pow2(n));
    OrSplit(a % Pow2(64 - n), 0, 0, t, n);
    OrZero(a % Pow2(64 - n));
    OrZero(t);
  }

  function ShiftedLimb(l: Limbs, n: nat, i: nat): (a: U64)
    requires 0 < n < 64 && i < 4
  {
    LimbSplit(l[i], n);
    if i == 0 then Low(l[0], n)
    else
      LimbSplit(l[i - 1], n);
      Low(l[i], n) + Carry(l[i - 1], n)
  }

  function Shifted(l: Limbs, n: nat): (r: Limbs)
    requires 0 < n < 64
  {
    [ShiftedLimb(l, n, 0), ShiftedLimb(l, n, 1), ShiftedLimb(l, n, 2), ShiftedLimb(l, n, 3)]
  }

  lemma AboveTimes(low: nat, high: nat, p: nat)
    ensures Above(low, high) * p == Above(low * p, high * p)
  {
    assert (low + 0x1_0000_0000_0000_0000 * high) * p == low * p + 0x1_0000_0000_0000_0000 * (high * p);
  }

  lemma ValueTimes(l: Limbs, p: nat)
    ensures Value(l) * p == Above(l[0] * p, Above(l[1] * p, Above(l[2] * p, l[3] * p)))
  {
    AboveTimes(l[2], l[3], p);
    AboveTimes(l[1], Above(l[2], l[3]), p);
    AboveTimes(l[0], Above(l[1], Above(l[2], l[3])), p);
  }

  lemma ShiftedValue(l: Limbs, n: nat)
    requires 0 < n < 64
    ensures Value(Shifted(l, n)) == (Value(l) * Pow2(n)) % U256_SIZE
  {
    ValueTimes(l, Pow2(n));
    LimbSplit(l[0], n);
    LimbSplit(l[1], n);
    LimbSplit(l[2], n);
    LimbSplit(l[3], n);
    QuotientUnique(Value(l) * Pow2(n), U256_SIZE, Carry(l[3], n), Value(Shifted(l, n)));
  }

  lemma MovedValue(l: Limbs)
    ensures Value([0, l[0], l[1], l[2]]) == (Value(l) * U64_SIZE) % U256_SIZE
  {
    QuotientUnique(Value(l) * U64_SIZE, U256_SIZE, l[3], Value([0, l[0], l[1], l[2]]));
  }

  lemma ShiftInTwo(v: nat, n: nat)
    requires n >= 64
    ensures ((v * U64_SIZE) % U256_SIZE * Pow2(n - 64)) % U256_SIZE == (v * Pow2(n)) % U256_SIZE
  {
    LimbPower(n - (n - 64));
    Pow2Add(n - (n - 64), n - 64);
    ModOfProduct(v * U64_SIZE, Pow2(n - 64), U256_SIZE);
    assert v * U64_SIZE * Pow2(n - 64) == v * (U64_SIZE * Pow2(n - 64));
  }

  lemma ShiftedByNone(v: nat, n: nat)
    requires v < U256_SIZE && n == 0
    ensures (v * Pow2(n)) % U256_SIZE == v
  {
    assert v * Pow2(n) == v;
    QuotientUnique(v, U256_SIZE, 0, v);
  }

  lemma ShiftedOut(v: nat, n: nat)
    requires n >= 256
    ensures (v * Pow2(n)) % U256_SIZE == 0
  {
    AllLimbsPower(n - (n - 256));
    Pow2Add(n - (n - 256), n - 256);
    assert v * (U256_SIZE * Pow2(n - 256)) == U256_SIZE * (v * Pow2(n - 256));
    QuotientUnique(v * Pow2(n), U256_SIZE, v * Pow2(n - 256), 0);
  }

  /** One pass of the limb move: every limb takes the value of the one below it. */
  method MoveLimbs(bigint: array<U64>)
    requires bigint.Length == 4
    modifies bigint
    ensures Value(bigint[..]) == (old(Value(bigint[..])) * U64_SIZE) % U256_SIZE
  {
    ghost var was: Limbs := bigint[..];
    var t: U64 := 0;
    for i := 0 to 4
      invariant forall k :: 0 <= k < i ==> bigint[k] == if k == 0 then 0 else was[k - 1]
      invariant forall k :: i <= k < 4 ==> bigint[k] == was[k]
      invariant t == if i == 0 then 0 else was[i - 1]
    {
      t, bigint[i] := bigint[i], t;
    }
    assert bigint[..] == [0, was[0], was[1], was[2]];
    MovedValue(was);
  }

  /** The bit-by-bit part of the shift, carrying from limb to limb. */
  method ShiftBits(bigint: array<U64>, n: nat)
    requires bigint.Length == 4 && 0 < n < 64
    modifies bigint
    ensures Value(bigint[..]) == (old(Value(bigint[..])) * Pow2(n)) % U256_SIZE
  {
    ghost var was: Limbs := bigint[..];
    var t: nat := 0;
    for i := 0 to 4
      invariant forall k :: 0 <= k < i ==> bigint[k] == ShiftedLimb(was, n, k)
      invariant forall k :: i <= k < 4 ==> bigint[k] == was[k]
      invariant t < Pow2(n) && t == if i == 0 then 0 else Carry(was[i - 1], n)
    {
      var a := bigint[i];
      var carried := Quotient(a, Pow2(64 - n));
      LimbOr(a, t, n);
      LimbSplit(a, n);
      bigint[i] := BitOr((a * Pow2(n)) % U64_SIZE, t);
      t := carried;
    }
    assert bigint[..] == Shifted(was, n);
    ShiftedValue(was, n);
  }

  /**
   * Shifting the limbs left by any count multiplies by a power of two modulo
   * `2^256`.
   */
  method Shl(bigint: array<U64>, count: nat)
    requires bigint.Length == 4
    modifies bigint
    ensures Value(bigint[..]) == (old(Value(bigint[..])) * Pow2(count)) % U256_SIZE
  {
    ghost var v := Value(bigint[..]);
    ghost var goal := (v * Pow2(count)) % U256_SIZE;
    if count >= 64 * 4 {
      bigint[0], bigint[1], bigint[2], bigint[3] := 0, 0, 0, 0;
      ShiftedOut(v, count);
      return;
    }
    var n := count;
    while n >= 64
      invariant (Value(bigint[..]) * Pow2(n)) % U256_SIZE == goal
    {
      ShiftInTwo(Value(bigint[..]), n);
      MoveLimbs(bigint);
      n := n - 64;
    }
    if n > 0 {
      ShiftBits(bigint, n);
    } else {
      ShiftedByNone(Value(bigint[..]), n);
    }
  }

  // ----- Items ----------------------------------------------------------------

  type U8 = b: nat | b < 0x100
  type Bytes6 = b: seq<U8> | |b| == 6 witness [0, 0, 0, 0, 0, 0]

  datatype Item =
    | Bool(b: bool)
    | U2(two: U8)
    | Byte(byte: U8)
    | Word(word: U32)
    | U48(bytes: Bytes6)
    | Double(double: U64)

  function NBits(item: Item): (n: nat)
    ensures 0 < n <= 64
  {
    match item
    case Bool(_) => 1
    case U2(_) => 2
    case Byte(_) => 8
    case Word(_) => 32
    case U48(_) => 48
    case Double(_) => 64
  }

  function AboveByte(low: nat, high: nat): (v: nat) {
    low + 0x100 * high
  }

  /** The number an item stands for; six bytes are read little-endian. */
  function AsBigint(item: Item): (v: U64) {
    match item
    case Bool(b) => if b then 1 else 0
    case U2(v) => v
    case Byte(v) => v
    case Word(v) => v
    case U48(b) => AboveByte(b[0], AboveByte(b[1], AboveByte(b[2], AboveByte(b[3], AboveByte(b[4], b[5])))))
    case Double(v) => v
  }

  predicate WithinWidth(item: Item) {
    AsBigint(item) < Pow2(NBits(item))
  }

  lemma SmallPowers(n: nat)
    ensures n == 1 ==> Pow2(n) == 2
    ensures n == 2 ==> Pow2(n) == 4
    ensures n == 8 ==> Pow2(n) == 0x100
    ensures n == 32 ==> Pow2(n) == 0x1_0000_0000
    ensures n == 48 ==> Pow2(n) == 0x1_0000_0000_0000
    ensures n == 64 ==> Pow2(n) == U64_SIZE
  {
    if n == 8 {
      BytePower(n);
    } else if n == 32 {
      WordPower(n);
    } else if n == 48 {
      SixBytePower(n);
    } else if n == 64 {
      LimbPower(n);
    }
  }

  /** Only a two-bit item can be given a number too wide for it. */
  lemma OnlyTwoBitItemsOverflow(item: Item)
    ensures WithinWidth(item) <==> (item.U2? ==> item.two < 4)
  {
    SmallPowers(NBits(item));
  }

  function Values(items: seq<Item>): (v: seq<nat>) {
    seq(|items|, i requires 0 <= i < |items| => AsBigint(items[i]))
  }

  function Widths(items: seq<Item>): (w: seq<nat>) {
    seq(|items|, i requires 0 <= i < |items| => NBits(items[i]))
  }

  // ----- The packer -----------------------------------------------------------

  /** Shift the element left by the item's width and put the item below it. */
  function Append(acc: nat, item: Item): (r: nat) {
    BitOr(Residue(Times(acc, Pow2(NBits(item))), U256_SIZE), AsBigint(item))
  }

  /**
   * The elements for `items` after an open element `acc` of `nbits` bits: an
   * element is closed when the next item would take it to 255 bits.
   */
  function Packed(items: seq<Item>, acc: nat, nbits: nat): (fields: seq<nat>) {
    if items == [] then
      if nbits > 0 then [acc] else []
    else if nbits + NBits(items[0]) < 255 then
      Packed(items[1..], Append(acc, items[0]), nbits + NBits(items[0]))
    else
      [acc] + Packed(items[1..], AsBigint(items[0]), NBits(items[0]))
  }

  lemma OrIntoLimbs(l: Limbs, v: U64)
    ensures BitOr(l[0], v) < U64_SIZE
    ensures Value(l[0 := BitOr(l[0], v)]) == BitOr(Value(l), v)
  {
    var n: nat := 16 * |l|;
    LimbPower(n);
    OrAtBottom(l[0], v, Above(l[1], Above(l[2], l[3])), n);
  }

  lemma OrAtBottom(low: nat, v: nat, high: nat, n: nat)
    requires low < Pow2(n) == U64_SIZE && v < Pow2(n)
    ensures BitOr(low, v) < U64_SIZE
    ensures Above(BitOr(low, v), high) == BitOr(Above(low, high), v)
  {
    OrSplit(high, low, 0, v, n);
    OrZero(high);
    AboveIsTimes(low, high, n);
    AboveIsTimes(BitOr(low, v), high, n);
    AboveIsTimes(v, 0, n);
  }

  lemma AboveIsTimes(low: nat, high: nat, n: nat)
    requires Pow2(n) == U64_SIZE
    ensures Times(high, Pow2(n)) + low == Above(low, high)
  {
    TimesIsProduct(high, Pow2(n));
  }

  /** One item taken into the open element. */
  method AppendItem(current: array<U64>, item: Item)
    requires current.Length == 4
    modifies current
    ensures Held(current) == Append(old(Held(current)), item)
  {
    TimesIsProduct(Value(current[..]), Pow2(NBits(item)));
    DivisionBySubtraction(Value(current[..]) * Pow2(NBits(item)), U256_SIZE);
    Shl(current, NBits(item));
    ghost var shifted: Limbs := current[..];
    OrIntoLimbs(shifted, AsBigint(item));
    current[0] := BitOr(current[0], AsBigint(item));
    assert current[..] == shifted[0 := BitOr(shifted[0], AsBigint(item))];
  }

  /** The element held by the limbs. */
  function Held(limbs: array<U64>): (v: nat)
    requires limbs.Length == 4
    reads limbs
  {
    Value(limbs[..])
  }

  method Restart(limbs: array<U64>, v: U64)
    requires limbs.Length == 4
    modifies limbs
    ensures Held(limbs) == v
  {
    limbs[0], limbs[1], limbs[2], limbs[3] := v, 0, 0, 0;
  }

  lemma PackedStays(rest: seq<Item>, acc: nat, nbits: nat)
    requires rest != [] && nbits + NBits(rest[0]) < 255
    ensures Packed(rest, acc, nbits) == Packed(rest[1..], Append(acc, rest[0]), nbits + NBits(rest[0]))
  {
  }

  lemma PackedCloses(fields: seq<nat>, rest: seq<Item>, acc: nat, nbits: nat)
    requires rest != [] && nbits + NBits(rest[0]) >= 255
    ensures fields + Packed(rest, acc, nbits) ==
            fields + [acc] + Packed(rest[1..], AsBigint(rest[0]), NBits(rest[0]))
  {
  }

  /** Packing with four limbs, whatever the items and the fields already there. */
  method ToFields(before: seq<nat>, packeds: seq<Item>) returns (fields: seq<nat>)
    ensures fields == before + Packed(packeds, 0, 0)
  {
    fields := before;
    var nbits: nat := 0;
    var current := new U64[4];
    Restart(current, 0);
    for i := 0 to |packeds|
      invariant before + Packed(packeds, 0, 0) == fields + Packed(packeds[i..], Held(current), nbits)
    {
      var item := packeds[i];
      assert packeds[i..][0] == item && packeds[i..][1..] == packeds[i + 1..];
      if nbits + NBits(item) < 255 {
        PackedStays(packeds[i..], Held(current), nbits);
        nbits := nbits + NBits(item);
        AppendItem(current, item);
      } else {
        PackedCloses(fields, packeds[i..], Held(current), nbits);
        fields := fields + [Held(current)];
        Restart(current, AsBigint(item));
        nbits := NBits(item);
      }
    }
    if nbits > 0 {
      fields := fields + [Held(current)];
    }
  }

  // ----- Reading packed items back --------------------------------------------

  /** Cut an element back into numbers of the given widths, the last one lowest. */
  function Digits(v: nat, widths: seq<nat>): (d: seq<nat>)
    ensures |d| == |widths|
    decreases |widths|
  {
    if widths == [] then []
    else
      var last := |widths| - 1;
      Digits(Quotient(v, Pow2(widths[last])), widths[..last]) + [Residue(v, Pow2(widths[last]))]
  }

  /** Read numbers of the given widths from packed elements; `open` are the widths of the element at the front. */
  function Unpack(widths: seq<nat>, fields: seq<nat>, open: seq<nat>, nbits: nat): (values: seq<nat>)
    decreases |widths|
  {
    if widths == [] then
      if fields == [] then [] else Digits(fields[0], open)
    else if nbits + widths[0] < 255 then
      Unpack(widths[1..], fields, open + [widths[0]], nbits + widths[0])
    else if fields == [] then []
    else Digits(fields[0], open) + Unpack(widths[1..], fields[1..], [widths[0]], widths[0])
  }

  lemma DigitsLast(v: nat, open: seq<nat>, w: nat)
    ensures Digits(v, open + [w]) == Digits(Quotient(v, Pow2(w)), open) + [Residue(v, Pow2(w))]
  {
  }

  lemma SmallResidue(v: nat, m: nat)
    requires v < m
    ensures Residue(v, m) == v
  {
  }

  /** An element of at most 254 bits is a field element. */
  lemma BitsFitField(bits: nat)
    requires bits < 255
    ensures Pow2(bits) <= FIELD_BOUND
  {
    var most := bits + (254 - bits);
    Pow2Monotone(bits, most);
    assert Pow2(most + 2) == 2 * Pow2(most + 1) && Pow2(most + 1) == 2 * Pow2(most);
    AllLimbsPower(most + 2);
  }

  lemma PositionalFits(acc: nat, nbits: nat, v: nat, w: nat)
    requires v < Pow2(w) && acc < Pow2(nbits) && nbits + w < 255
    ensures Times(acc, Pow2(w)) + v < Pow2(nbits + w) <= FIELD_BOUND
  {
    TimesPow2(nbits, w);
    RoomAbove(acc, v, Pow2(w), Pow2(nbits));
    BitsFitField(nbits + w);
  }

  lemma OrBelow(acc: nat, v: nat, w: nat)
    requires v < Pow2(w)
    ensures BitOr(Times(acc, Pow2(w)), v) == Times(acc, Pow2(w)) + v
  {
    OrSplit(acc, 0, 0, v, w);
    assert Times(0, Pow2(w)) == 0;
    OrZero(acc);
    OrZero(v);
  }

  /**
   * Putting an item that fits below an element with room for it is
   * `acc * 2^w + v`, from which both can be read back.
   */
  lemma AppendIsPositional(acc: nat, nbits: nat, item: Item)
    requires WithinWidth(item) && acc < Pow2(nbits) && nbits + NBits(item) < 255
    ensures Append(acc, item) == Times(acc, Pow2(NBits(item))) + AsBigint(item) < Pow2(nbits + NBits(item))
    ensures Quotient(Append(acc, item), Pow2(NBits(item))) == acc
    ensures Residue(Append(acc, item), Pow2(NBits(item))) == AsBigint(item)
  {
    var w, v := NBits(item), AsBigint(item);
    PositionalFits(acc, nbits, v, w);
    SmallResidue(Times(acc, Pow2(w)), U256_SIZE);
    OrBelow(acc, v, w);
    DivideBack(acc, v, Pow2(w));
  }

  lemma AppendDigits(acc: nat, nbits: nat, item: Item, open: seq<nat>)
    requires WithinWidth(item) && acc < Pow2(nbits) && nbits + NBits(item) < 255
    ensures Append(acc, item) < Pow2(nbits + NBits(item))
    ensures Digits(Append(acc, item), open + [NBits(item)]) == Digits(acc, open) + [AsBigint(item)]
  {
    AppendIsPositional(acc, nbits, item);
    DigitsLast(Append(acc, item), open, NBits(item));
  }

  /** Every element stays below `2^254`, so it is a field element as it stands. */
  lemma {:induction false} PackedFits(items: seq<Item>, acc: nat, nbits: nat)
    requires forall i | i in items :: WithinWidth(i)
    requires acc < Pow2(nbits) && nbits < 255
    ensures forall f | f in Packed(items, acc, nbits) :: f < FIELD_BOUND
  {
    BitsFitField(nbits);
    if items != [] {
      var w, rest := NBits(items[0]), items[1..];
      assert WithinWidth(items[0]);
      if nbits + w < 255 {
        AppendDigits(acc, nbits, items[0], []);
        PackedStays(items, acc, nbits);
        PackedFits(rest, Append(acc, items[0]), nbits + w);
      } else {
        PackedFits(rest, AsBigint(items[0]), w);
        PackedCloses([], items, acc, nbits);
        assert Packed(items, acc, nbits) == [acc] + Packed(rest, AsBigint(items[0]), w);
      }
    }
  }

  lemma UnpackStays(items: seq<Item>, fields: seq<nat>, open: seq<nat>, nbits: nat)
    requires items != [] && nbits + NBits(items[0]) < 255
    ensures Unpack(Widths(items), fields, open, nbits) ==
            Unpack(Widths(items[1..]), fields, open + [NBits(items[0])], nbits + NBits(items[0]))
  {
    assert Widths(items)[1..] == Widths(items[1..]);
  }

  lemma UnpackCloses(items: seq<Item>, acc: nat, fields: seq<nat>, open: seq<nat>, nbits: nat)
    requires items != [] && nbits + NBits(items[0]) >= 255
    ensures Unpack(Widths(items), [acc] + fields, open, nbits) ==
            Digits(acc, open) + Unpack(Widths(items[1..]), fields, [NBits(items[0])], NBits(items[0]))
  {
    assert Widths(items)[1..] == Widths(items[1..]);
    assert ([acc] + fields)[1..] == fields;
  }

  /** `Unpack` gives back the numbers of the open element and of the items after it. */
  ghost predicate ReadsBack(items: seq<Item>, acc: nat, nbits: nat, open: seq<nat>) {
    Unpack(Widths(items), Packed(items, acc, nbits), open, nbits) == Digits(acc, open) + Values(items)
  }

  lemma ValuesCons(items: seq<Item>)
    requires items != []
    ensures Values(items) == [AsBigint(items[0])] + Values(items[1..])
  {
  }

  lemma ReadsBackStays(items: seq<Item>, acc: nat, nbits: nat, open: seq<nat>)
    requires items != [] && WithinWidth(items[0])
    requires acc < Pow2(nbits) && nbits + NBits(items[0]) < 255
    requires ReadsBack(items[1..], Append(acc, items[0]), nbits + NBits(items[0]), open + [NBits(items[0])])
    ensures ReadsBack(items, acc, nbits, open)
  {
    AppendDigits(acc, nbits, items[0], open);
    PackedStays(items, acc, nbits);
    UnpackStays(items, Packed(items, acc, nbits), open, nbits);
    ValuesCons(items);
    assert Digits(acc, open) + [AsBigint(items[0])] + Values(items[1..]) == Digits(acc, open) + Values(items);
  }

  lemma ReadsBackCloses(items: seq<Item>, acc: nat, nbits: nat, open: seq<nat>)
    requires items != [] && WithinWidth(items[0]) && nbits + NBits(items[0]) >= 255
    requires ReadsBack(items[1..], AsBigint(items[0]), NBits(items[0]), [NBits(items[0])])
    ensures ReadsBack(items, acc, nbits, open)
  {
    var w, v := NBits(items[0]), AsBigint(items[0]);
    DigitsLast(v, [], w);
    assert [] + [w] == [w];
    UnpackCloses(items, acc, Packed(items[1..], v, w), open, nbits);
    ValuesCons(items);
  }

  /** Reading back what was packed after an open element. */
  lemma {:induction false} UnpackPacked(items: seq<Item>, acc: nat, nbits: nat, open: seq<nat>)
    requires forall i | i in items :: WithinWidth(i)
    requires acc < Pow2(nbits) && nbits < 255 && (open == [] <==> nbits == 0)
    ensures ReadsBack(items, acc, nbits, open)
  {
    if items != [] {
      var w := NBits(items[0]);
      assert WithinWidth(items[0]);
      if nbits + w < 255 {
        AppendDigits(acc, nbits, items[0], open);
        UnpackPacked(items[1..], Append(acc, items[0]), nbits + w, open + [w]);
        ReadsBackStays(items, acc, nbits, open);
      } else {
        UnpackPacked(items[1..], AsBigint(items[0]), w, [w]);
        ReadsBackCloses(items, acc, nbits, open);
      }
    }
  }

  /** What is read back fits the widths it is read with. */
  lemma {:induction false} DigitsFit(v: nat, widths: seq<nat>)
    ensures forall i | 0 <= i < |widths| :: Digits(v, widths)[i] < Pow2(widths[i])
    decreases |widths|
  {
    if widths != [] {
      var last := |widths| - 1;
      DigitsFit(Quotient(v, Pow2(widths[last])), widths[..last]);
    }
  }

  ghost predicate Fit(values: seq<nat>, widths: seq<nat>) {
    |values| == |widths| ==> forall i | 0 <= i < |widths| :: values[i] < Pow2(widths[i])
  }

  lemma FitConcat(a: seq<nat>, v: seq<nat>, b: seq<nat>, w: seq<nat>)
    requires |a| == |v| && Fit(a, v) && Fit(b, w)
    ensures Fit(a + b, v + w)
  {
    if |b| == |w| {
      forall i | 0 <= i < |v + w|
        ensures (a + b)[i] < Pow2((v + w)[i])
      {
        assert i >= |v| ==> (a + b)[i] == b[i - |v|] && (v + w)[i] == w[i - |v|];
      }
    }
  }

  lemma {:induction false} UnpackFits(widths: seq<nat>, fields: seq<nat>, open: seq<nat>, nbits: nat)
    ensures |Unpack(widths, fields, open, nbits)| <= |open| + |widths|
    ensures Fit(Unpack(widths, fields, open, nbits), open + widths)
    decreases |widths|
  {
    if fields != [] {
      DigitsFit(fields[0], open);
    }
    if widths == [] {
      assert open + widths == open;
    } else if nbits + widths[0] < 255 {
      assert open + widths == open + [widths[0]] + widths[1..];
      UnpackFits(widths[1..], fields, open + [widths[0]], nbits + widths[0]);
    } else if fields != [] {
      UnpackFits(widths[1..], fields[1..], [widths[0]], widths[0]);
      assert [widths[0]] + widths[1..] == widths;
      FitConcat(Digits(fields[0], open), open, Unpack(widths[1..], fields[1..], [widths[0]], widths[0]), widths);
    }
  }

  /**
   * Packing can be undone, given the widths, exactly when every item fits its
   * width.
   */
  lemma PackingReversibleIff(items: seq<Item>)
    ensures Unpack(Widths(items), Packed(items, 0, 0), [], 0) == Values(items)
       <==> forall i | i in items :: WithinWidth(i)
  {
    if forall i | i in items :: WithinWidth(i) {
      UnpackPacked(items, 0, 0, []);
      assert [] + Values(items) == Values(items);
    }
    UnpackFits(Widths(items), Packed(items, 0, 0), [], 0);
    assert [] + Widths(items) == Widths(items);
    if Unpack(Widths(items), Packed(items, 0, 0), [], 0) == Values(items) {
      forall i | i in items
        ensures WithinWidth(i)
      {
        var k :| 0 <= k < |items| && items[k] == i;
        assert Values(items)[k] < Pow2(Widths(items)[k]);
      }
    }
  }

  ghost predicate SameKind(a: Item, b: Item) {
    && a.Bool? == b.Bool?
    && a.U2? == b.U2?
    && a.Byte? == b.Byte?
    && a.Word? == b.Word?
    && a.U48? == b.U48?
    && a.Double? == b.Double?
  }

  lemma LowByte(low: U8, high: nat, low': U8, high': nat)
    requires AboveByte(low, high) == AboveByte(low', high')
    ensures low == low' && high == high'
  {
  }

  lemma ItemDetermined(a: Item, b: Item)
    requires SameKind(a, b) && AsBigint(a) == AsBigint(b)
    ensures a == b
  {
    if a.U48? {
      var s, t := a.bytes, b.bytes;
      LowByte(s[0], AboveByte(s[1], AboveByte(s[2], AboveByte(s[3], AboveByte(s[4], s[5])))),
              t[0], AboveByte(t[1], AboveByte(t[2], AboveByte(t[3], AboveByte(t[4], t[5])))));
      LowByte(s[1], AboveByte(s[2], AboveByte(s[3], AboveByte(s[4], s[5]))),
              t[1], AboveByte(t[2], AboveByte(t[3], AboveByte(t[4], t[5]))));
      LowByte(s[2], AboveByte(s[3], AboveByte(s[4], s[5])), t[2], AboveByte(t[3], AboveByte(t[4], t[5])));
      LowByte(s[3], AboveByte(s[4], s[5]), t[3], AboveByte(t[4], t[5]));
      LowByte(s[4], s[5], t[4], t[5]);
      assert s == t;
    }
  }

  /** Two item lists of the same shape that pack to the same elements are the same list. */
  lemma {:induction false} PackingInjective(xs: seq<Item>, ys: seq<Item>)
    requires |xs| == |ys| && forall i | 0 <= i < |xs| :: SameKind(xs[i], ys[i])
    requires forall i | i in xs + ys :: WithinWidth(i)
    requires Packed(xs, 0, 0) == Packed(ys, 0, 0)
    ensures xs == ys
  {
    assert forall i | i in xs :: i in xs + ys;
    assert forall i | i in ys :: i in xs + ys;
    PackingReversibleIff(xs);
    PackingReversibleIff(ys);
    assert Widths(xs) == Widths(ys);
    ItemsDetermined(xs, ys);
  }

  lemma {:induction false} ItemsDetermined(xs: seq<Item>, ys: seq<Item>)
    requires |xs| == |ys| && forall i | 0 <= i < |xs| :: SameKind(xs[i], ys[i])
    requires Values(xs) == Values(ys)
    ensures xs == ys
  {
    forall i | 0 <= i < |xs|
      ensures xs[i] == ys[i]
    {
      assert Values(xs)[i] == Values(ys)[i];
      ItemDetermined(xs[i], ys[i]);
    }
  }

  /** A two-bit item of 4 runs into the item before it and is lost there. */
  lemma WideTwoBitItemCollides()
    ensures Packed([Bool(true), U2(4)], 0, 0) == Packed([Bool(true), U2(0)], 0, 0)
  {
  }

  // ----- The legacy packer ----------------------------------------------------

  const LEGACY_BITS: nat := 254

  /** The number whose binary digits, lowest first, are `bits`. */
  function LittleEndian(bits: seq<bool>): (v: nat) {
    if bits == [] then 0 else Bit(bits[0]) + 2 * LittleEndian(bits[1..])
  }

  lemma {:induction false} LittleEndianSnoc(bits: seq<bool>, b: bool)
    ensures LittleEndian(bits + [b]) == LittleEndian(bits) + Times(Bit(b), Pow2(|bits|))
  {
    if bits == [] {
      assert bits + [b] == [b];
      assert Pow2(|bits|) == 1;
    } else {
      LittleEndianSnoc(bits[1..], b);
      assert (bits + [b])[1..] == bits[1..] + [b];
      DoubleTimes(Bit(b), Pow2(|bits| - 1));
    }
  }

  function FirstChunk(bits: seq<bool>): (n: nat)
    ensures n <= |bits| && n <= LEGACY_BITS && (bits != [] ==> n > 0)
  {
    if |bits| < LEGACY_BITS then |bits| else LEGACY_BITS
  }

  function LegacyPacked(bits: seq<bool>): (fields: seq<nat>) {
    if bits == [] then []
    else [LittleEndian(bits[..FirstChunk(bits)])] + LegacyPacked(bits[FirstChunk(bits)..])
  }

  /** Raising one limb raises the value by that much times the limb's weight. */
  lemma RaiseLimb(l: Limbs, k: nat, d: nat)
    requires k < 4 && l[k] + d < U64_SIZE
    ensures Value(l[k := l[k] + d]) == Value(l) + Times(Pow2(64 * k), d)
  {
    TimesIsProduct(Pow2(64 * k), d);
    LimbWeight(k);
    RaiseByWeight(l, k, d);
  }

  /** What a limb counts for. */
  function Weight(k: nat): nat
    requires k < 4
  {
    if k == 0 then 1
    else if k == 1 then 0x1_0000_0000_0000_0000
    else if k == 2 then 0x1_0000_0000_0000_0000_0000_0000_0000_0000
    else 0x1_0000_0000_0000_0000_0000_0000_0000_0000_0000_0000_0000_0000
  }

  lemma LimbWeight(k: nat)
    requires k < 4
    ensures Pow2(64 * k) == Weight(k)
  {
    if k > 0 {
      LimbWeight(k - 1);
      Pow2Add(64 * (k - 1), 64 * k - 64 * (k - 1));
      LimbPower(64 * k - 64 * (k - 1));
    }
  }

  lemma RaiseByWeight(l: Limbs, k: nat, d: nat)
    requires k < 4 && l[k] + d < U64_SIZE
    ensures Value(l[k := l[k] + d]) == Value(l) + Weight(k) * d
  {
    var r: Limbs := l[k := l[k] + d];
    if k == 0 {
      assert Value(r) == Above(l[0] + d, Above(l[1], Above(l[2], l[3])));
    } else if k == 1 {
      assert Value(r) == Above(l[0], Above(l[1] + d, Above(l[2], l[3])));
    } else if k == 2 {
      assert Value(r) == Above(l[0], Above(l[1], Above(l[2] + d, l[3])));
    } else {
      assert Value(r) == Above(l[0], Above(l[1], Above(l[2], l[3] + d)));
    }
  }

  /** Setting a bit above all the bits of a limb so far adds its weight. */
  lemma SetBit(limb: nat, b: bool, n: nat)
    requires n < 64 && limb < Pow2(n)
    ensures BitOr(limb, Times(Bit(b), Pow2(n))) == limb + Times(Bit(b), Pow2(n)) < Pow2(n + 1) <= U64_SIZE
  {
    BitAbove(limb, b, n);
    RoomForBit(limb, b, n);
  }

  lemma BitAbove(limb: nat, b: bool, n: nat)
    requires limb < Pow2(n)
    ensures BitOr(limb, Times(Bit(b), Pow2(n))) == limb + Times(Bit(b), Pow2(n))
  {
    OrSplit(0, limb, Bit(b), 0, n);
    OrZero(limb);
    OrZero(Bit(b));
  }

  lemma RoomForBit(limb: nat, b: bool, n: nat)
    requires n < 64 && limb < Pow2(n)
    ensures limb + Times(Bit(b), Pow2(n)) < Pow2(n + 1) <= U64_SIZE
  {
    LimbPower(n + (64 - n));
    Pow2Monotone(n + 1, n + (64 - n));
  }

  /** The weight of bit `index` as a bit of its limb. */
  lemma BitWeight(index: nat, b: bool)
    ensures Times(Pow2(64 * (index / 64)), Times(Bit(b), Pow2(index % 64))) == Times(Bit(b), Pow2(index))
  {
    var high, low := Pow2(64 * (index / 64)), Pow2(index % 64);
    TimesPow2(64 * (index / 64), index % 64);
    TimesIsProduct(high, Times(Bit(b), low));
    TimesIsProduct(high, low);
    assert b ==> Times(Bit(b), low) == low;
    assert 64 * (index / 64) + index % 64 == index;
  }

  /** The limbs hold the bits placed so far and nothing above them. */
  ghost predicate Filled(l: Limbs, placed: seq<bool>) {
    && Value(l) == LittleEndian(placed)
    && forall k :: 0 <= k < 4 ==> l[k] < Pow2(FilledBits(|placed|, k))
  }

  lemma PlaceBit(l: Limbs, placed: seq<bool>, b: bool, limb: nat, weight: nat)
    requires |placed| < LEGACY_BITS && Filled(l, placed)
    requires limb == |placed| / 64 && weight == Times(Bit(b), Pow2(|placed| % 64))
    ensures BitOr(l[limb], weight) == l[limb] + weight < U64_SIZE
    ensures Filled(l[limb := l[limb] + weight], placed + [b])
  {
    var n := |placed| % 64;
    assert FilledBits(|placed|, limb) == n && FilledBits(|placed| + 1, limb) == n + 1;
    SetBit(l[limb], b, n);
    RaisedFilled(l, placed, b, limb, weight, l[limb := l[limb] + weight]);
  }

  lemma RaisedFilled(l: Limbs, placed: seq<bool>, b: bool, limb: nat, weight: nat, raised: Limbs)
    requires |placed| < LEGACY_BITS && Filled(l, placed)
    requires limb == |placed| / 64 && weight == Times(Bit(b), Pow2(|placed| % 64))
    requires l[limb] + weight < U64_SIZE && raised == l[limb := l[limb] + weight]
    requires raised[limb] < Pow2(FilledBits(|placed| + 1, limb))
    ensures Filled(raised, placed + [b])
  {
    PlacedValue(l, placed, b, limb, weight);
    StillBelow(raised, |placed|, limb, l);
  }

  lemma PlacedValue(l: Limbs, placed: seq<bool>, b: bool, limb: nat, weight: nat)
    requires limb == |placed| / 64 < 4 && weight == Times(Bit(b), Pow2(|placed| % 64))
    requires Value(l) == LittleEndian(placed) && l[limb] + weight < U64_SIZE
    ensures Value(l[limb := l[limb] + weight]) == LittleEndian(placed + [b])
  {
    RaiseLimb(l, limb, weight);
    BitWeight(|placed|, b);
    LittleEndianSnoc(placed, b);
  }

  lemma StillBelow(l: Limbs, index: nat, limb: nat, was: Limbs)
    requires limb == index / 64 < 4 && l[limb] < Pow2(FilledBits(index + 1, limb))
    requires forall k :: 0 <= k < 4 ==> was[k] < Pow2(FilledBits(index, k))
    requires forall k :: 0 <= k < 4 && k != limb ==> l[k] == was[k]
    ensures forall k :: 0 <= k < 4 ==> l[k] < Pow2(FilledBits(index + 1, k))
  {
  }

  /** Placing one bit above those already in the limbs. */
  method SetBitAt(limbs: array<U64>, index: nat, b: bool, ghost placed: seq<bool>)
    requires limbs.Length == 4 && index == |placed| < LEGACY_BITS && Filled(limbs[..], placed)
    modifies limbs
    ensures Filled(limbs[..], placed + [b])
  {
    var limb := index / 64;
    var weight := Times(Bit(b), Pow2(index % 64));
    ghost var was: Limbs := limbs[..];
    PlaceBit(was, placed, b, limb, weight);
    limbs[limb] := BitOr(limbs[limb], weight);
    assert limbs[..] == was[limb := was[limb] + weight];
  }

  lemma NothingFilled(l: Limbs)
    requires l == [0, 0, 0, 0]
    ensures Filled(l, [])
  {
  }

  /** Placing bits one by one into the limbs, lowest first. */
  method PackChunk(bits: seq<bool>) returns (field: nat)
    requires |bits| <= LEGACY_BITS
    ensures field == LittleEndian(bits)
  {
    var limbs := new U64[4](_ => 0);
    NothingFilled(limbs[..]);
    for index := 0 to |bits|
      invariant Filled(limbs[..], bits[..index])
    {
      assert bits[..index + 1] == bits[..index] + [bits[index]];
      SetBitAt(limbs, index, bits[index], bits[..index]);
    }
    assert bits[..|bits|] == bits;
    field := Held(limbs);
  }

  /** How many bits of limb `k` are filled when `index` bits have been placed. */
  function FilledBits(index: nat, k: nat): (n: nat) {
    if index <= 64 * k then 0 else if index >= 64 * (k + 1) then 64 else index - 64 * k
  }

  method LegacyToFields(before: seq<nat>, bits: seq<bool>) returns (fields: seq<nat>)
    ensures fields == before + LegacyPacked(bits)
  {
    fields := before;
    var rest := bits;
    while rest != []
      invariant before + LegacyPacked(bits) == fields + LegacyPacked(rest)
      decreases |rest|
    {
      var n := FirstChunk(rest);
      var field := PackChunk(rest[..n]);
      fields := fields + [field];
      rest := rest[n..];
    }
  }

  function BitsOf(v: nat, n: nat): (bits: seq<bool>)
    ensures |bits| == n
  {
    if n == 0 then [] else [v % 2 == 1] + BitsOf(v / 2, n - 1)
  }

  function LegacyUnpack(fields: seq<nat>, n: nat): (bits: seq<bool>) {
    if fields == [] then []
    else if n <= LEGACY_BITS then BitsOf(fields[0], n)
    else BitsOf(fields[0], LEGACY_BITS) + LegacyUnpack(fields[1..], n - LEGACY_BITS)
  }

  lemma {:induction false} BitsOfLittleEndian(bits: seq<bool>)
    ensures BitsOf(LittleEndian(bits), |bits|) == bits
    ensures LittleEndian(bits) < Pow2(|bits|)
  {
    if bits != [] {
      BitsOfLittleEndian(bits[1..]);
      assert bits == [bits[0]] + bits[1..];
    }
  }

  /** The legacy packing is undone by reading 254 bits from each element, all of which fit a field element. */
  lemma {:induction false} LegacyRoundTrip(bits: seq<bool>)
    ensures LegacyUnpack(LegacyPacked(bits), |bits|) == bits
    ensures forall f | f in LegacyPacked(bits) :: f < FIELD_BOUND
  {
    if bits != [] {
      var n := FirstChunk(bits);
      BitsOfLittleEndian(bits[..n]);
      BitsFitField(n);
      LegacyRoundTrip(bits[n..]);
      assert bits == bits[..n] + bits[n..];
    }
  }

  /** 254 bits go into each element but the last. */
  lemma {:induction false} LegacyLength(bits: seq<bool>)
    ensures |LegacyPacked(bits)| == (|bits| + 253) / 254
  {
    if bits != [] {
      LegacyLength(bits[FirstChunk(bits)..]);
    }
  }

  // ----- The two packers agree on one item -----------------------------------

  /** The bits an item stands for, lowest first; bytes come in their order. */
  function BitString(item: Item): (bits: seq<bool>) {
    match item
    case Bool(b) => [b]
    case U2(v) => BitsOf(v, 2)
    case Byte(v) => BitsOf(v, 8)
    case Word(v) => BitsOf(v, 32)
    case U48(b) =>
      BitsOf(b[0], 8) + (BitsOf(b[1], 8) + (BitsOf(b[2], 8) + (BitsOf(b[3], 8) + (BitsOf(b[4], 8) + BitsOf(b[5], 8)))))
    case Double(v) => BitsOf(v, 64)
  }

  lemma {:induction false} BitsBelow(v: nat, n: nat, rest: seq<bool>)
    requires v < Pow2(n)
    ensures LittleEndian(BitsOf(v, n) + rest) == v + Times(LittleEndian(rest), Pow2(n))
    decreases n
  {
    if n == 0 {
      assert BitsOf(v, n) + rest == rest;
      TimesOne(LittleEndian(rest));
    } else {
      BitsBelow(v / 2, n - 1, rest);
      var bits := BitsOf(v, n) + rest;
      assert bits[0] == (v % 2 == 1) && bits[1..] == BitsOf(v / 2, n - 1) + rest;
      DoubleTimes(LittleEndian(rest), Pow2(n - 1));
    }
  }

  lemma LittleEndianBits(v: nat, n: nat)
    requires v < Pow2(n)
    ensures LittleEndian(BitsOf(v, n)) == v
  {
    BitsBelow(v, n, []);
    assert BitsOf(v, n) + [] == BitsOf(v, n);
    TimesIsProduct(0, Pow2(n));
  }

  lemma ByteBelow(v: U8, rest: seq<bool>)
    ensures LittleEndian(BitsOf(v, 8) + rest) == AboveByte(v, LittleEndian(rest))
  {
    SmallPowers(8);
    BitsBelow(v, 8, rest);
    TimesIsProduct(LittleEndian(rest), 0x100);
  }

  /** Width and number of an item that fits are those of its bits. */
  lemma ItemIsItsBits(item: Item)
    ensures |BitString(item)| == NBits(item)
    ensures WithinWidth(item) ==> AsBigint(item) == LittleEndian(BitString(item))
  {
    SmallPowers(8);
    match item
    case Bool(b) =>
      assert [b][1..] == [];
    case U48(b) =>
      SixBytes(b);
    case U2(v) => if WithinWidth(item) { LittleEndianBits(v, 2); }
    case Byte(v) => LittleEndianBits(v, 8);
    case Word(v) =>
      SmallPowers(32);
      LittleEndianBits(v, 32);
    case Double(v) =>
      SmallPowers(64);
      LittleEndianBits(v, 64);
  }

  lemma SixBytes(b: Bytes6)
    ensures AsBigint(U48(b)) == LittleEndian(BitString(U48(b)))
  {
    var b5 := BitsOf(b[5], 8);
    var b4 := BitsOf(b[4], 8) + b5;
    var b3 := BitsOf(b[3], 8) + b4;
    var b2 := BitsOf(b[2], 8) + b3;
    SmallPowers(8);
    LittleEndianBits(b[5], 8);
    ByteBelow(b[4], b5);
    ByteBelow(b[3], b4);
    ByteBelow(b[2], b3);
    ByteBelow(b[1], b2);
    ByteBelow(b[0], BitsOf(b[1], 8) + b2);
  }

  /** An item that fits is packed alone as the legacy packer packs its bits. */
  lemma PackersAgree(item: Item)
    requires WithinWidth(item)
    ensures Packed([item], 0, 0) == LegacyPacked(BitString(item))
  {
    ItemIsItsBits(item);
    var bits := BitString(item);
    assert bits[..|bits|] == bits && bits[|bits|..] == [];
    assert LegacyPacked(bits) == [LittleEndian(bits)];
    TimesIsProduct(0, Pow2(NBits(item)));
    OrZero(AsBigint(item));
    assert Append(0, item) == AsBigint(item);
    assert [item][1..] == [];
  }

  // ----- When one element is enough ------------------------------------------

  function TotalWidth(items: seq<Item>): (n: nat) {
    if items == [] then 0 else NBits(items[0]) + TotalWidth(items[1..])
  }

  /** One element takes items of up to 254 bits, and no items take none. */
  lemma {:induction false} OneElementIff(items: seq<Item>, acc: nat, nbits: nat)
    requires nbits < 255
    ensures |Packed(items, acc, nbits)| <= 1 <==> nbits + TotalWidth(items) <= 254
    ensures Packed(items, acc, nbits) == [] <==> items == [] && nbits == 0
    decreases |items|
  {
    if items != [] {
      if nbits + NBits(items[0]) < 255 {
        OneElementIff(items[1..], Append(acc, items[0]), nbits + NBits(items[0]));
      } else {
        OneElementIff(items[1..], AsBigint(items[0]), NBits(items[0]));
      }
    }
  }
}
