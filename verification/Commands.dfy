/** User commands as the pool sees them. */
module Commands {
  import opened Prelude

  type Hash = nat
  type AccountId = nat

  /** Fee per weight unit. */
  datatype FeeRate = FeeRate(q: real)

  const SLOT_MAX: U32 := 0xFFFF_FFFF
  const DEFAULT_TOKEN: nat := 1
  const REPLACE_FEE: nat := 1

  datatype KeyHash = KeyHash(value: nat)

  datatype VerificationKey = VerificationKey(hash: KeyHash, data: nat)

  /** What a command does; a zkApp command names the keys its account updates install. */
  datatype Body = Payment(amount: U64) | StakeDelegation | ZkApp(vks: seq<(AccountId, VerificationKey)>)

  datatype Command = Command(
    hash: Hash,
    sender: AccountId,
    nonce: U32,
    fee: U64,
    feeRate: FeeRate,
    body: Body,
    validUntil: U32,
    feeToken: nat)

  datatype CommandError =
    | InvalidNonce
    | InsufficientFunds
    | InsufficientReplaceFee
    | Overflow
    | Expired
    | UnwantedFeeToken
    | AfterSlotTxEnd
    | BacktrackNonceMismatch
    | InvalidCurrencyConsumed
    | AccountNotFound

  function FeeRateOf(c: Command): FeeRate { c.feeRate }

  function ValidUntilOf(c: Command): U32 { c.validUntil }

  /** Currency a command takes from its fee payer, before the width check. */
  function Consumed(c: Command): nat {
    c.fee + if c.body.Payment? then c.body.amount else 0
  }

  /** `currency_consumed`: fails when the sum leaves 64 bits. */
  function CurrencyConsumed(c: Command): (r: Result<U64, CommandError>)
    ensures r.Success? <==> Consumed(c) < U64_SIZE
    ensures r.Success? ==> r.value == Consumed(c)
  {
    if Consumed(c) < U64_SIZE then Success(Consumed(c)) else Failure(InvalidCurrencyConsumed)
  }

  /** `Nonce::succ` wraps at 32 bits. */
  function Succ(n: U32): U32 {
    (n + 1) % U32_SIZE
  }

  function NonceAt(base: U32, i: nat): U32 {
    (base + i) % U32_SIZE
  }

  function TotalConsumed(q: seq<Command>): nat {
    if q == [] then 0 else Consumed(q[0]) + TotalConsumed(q[1..])
  }

  function TotalFees(q: seq<Command>): nat {
    if q == [] then 0 else q[0].fee + TotalFees(q[1..])
  }

  lemma {:induction false} TotalConsumedConcat(a: seq<Command>, b: seq<Command>)
    ensures TotalConsumed(a + b) == TotalConsumed(a) + TotalConsumed(b)
  {
    if a == [] {
      assert a + b == b;
    } else {
      TotalConsumedConcat(a[1..], b);
      assert (a + b)[1..] == a[1..] + b;
    }
  }

  lemma {:induction false} TotalFeesConcat(a: seq<Command>, b: seq<Command>)
    ensures TotalFees(a + b) == TotalFees(a) + TotalFees(b)
  {
    if a == [] {
      assert a + b == b;
    } else {
      TotalFeesConcat(a[1..], b);
      assert (a + b)[1..] == a[1..] + b;
    }
  }

  lemma TotalConsumedSplit(q: seq<Command>, i: nat)
    requires i <= |q|
    ensures TotalConsumed(q) == TotalConsumed(q[..i]) + TotalConsumed(q[i..])
  {
    assert q == q[..i] + q[i..];
    TotalConsumedConcat(q[..i], q[i..]);
  }

  lemma TotalFeesSplit(q: seq<Command>, i: nat)
    requires i <= |q|
    ensures TotalFees(q) == TotalFees(q[..i]) + TotalFees(q[i..])
  {
    assert q == q[..i] + q[i..];
    TotalFeesConcat(q[..i], q[i..]);
  }
}
