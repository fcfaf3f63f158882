# A verified model of the Mina Rust node's core

This project models, in Dafny, the parts of the node in which several pieces
of state have to stay in step, and proves what they promise:

* the **transaction pool**: pending commands held in per-sender nonce queues
  and in five redundant indexes, with a recursive replace-by-fee admission, a
  deferred update log, expiry, eviction by fee and revalidation against
  account states (`Commands`, `SenderQueues`, `Admission`, `AdmissionRule`,
  `UpdateLog`, `Grouping`, `Eviction`, `Revalidation`, `Includable`, `PoolFees`,
  `IndexedPool`, `Diffs`, `TransactionPool`), and the verification-key reference
  counts kept beside it (`VkRefcount`);
* the **distributed pool**: the indexed log from which peers are sent what
  they have not seen (`DistributedPool`, `PeerSync`);
* the **fork choice** with its ring-buffer density projection (`ForkChoice`),
  and the two **slot clocks** (`SlotClock`);
* the **hash inputs and the sponge**: packing values into field elements with
  four-limb arithmetic (`Packing`), the duplex sponge (`Sponge`);
* the **hash cache of the ledger** and the lazy tree hashing that fills it
  (`MerkleCache`, `LedgerHash`).

Objects whose methods update fields are classes; loops are loops; each
state-changing method is tied to a function or predicate over plain values,
and the properties that span operations are lemmas about those.

## How to read it

The pool is specified twice. `Admission.Admit` says without recursion what a
gossiped command does to its sender's queue, `Eviction.Backtracked`,
`Eviction.CutAtExpired`, `Revalidation.Kept` and `Includable.Picks` do the
same for the other operations, and `UpdateLog.Contents` is the content of
every index as rebuilt from the queues. `IndexedPools.IndexedPool` is the
source's code: private copies, mutual recursion, a log replayed afterwards,
five maps updated by hand. Each of its methods is proved to reach the
specified queues with every index equal to its rebuilt form;
`TransactionPools.Run` then chains the operations from a new pool. What the
specifications themselves mean is stated from the commands, the account and the
queue alone: `AdmissionRule.AdmittedIff` and `RefusedBecause`,
`Eviction.BacktrackIff`, `Revalidation.KeptIff`, `Eviction.StayersOutbidVictims`
and `Includable.OutOfOrderIsBlocked`.

Premises, where the source relies on them: fewer than 2^32 commands in the
pool when one is added (nonces wrap at 2^32); no two different commands with
one hash; the currency reserved by a queue fits 64 bits when a command is put
back in front of it; a distributed-pool counter that has not saturated during
a peer's session; epoch and slot numbers of a tip whose arithmetic stays in 32
bits; a field addition with a neutral zero. `TransactionPools.MeetsPremises`
spells the pool's premises out as an executable condition.

## What the code does that its description does not say

* The list of dropped commands that a replacement returns leaves out the first
  command that could not be put back (`PoolFees.ReplacementReport`,
  `ReportOmitsOne`); it is complete exactly when everything behind the replaced
  command still passes and fits (`ReportCompleteIff`). The fees of the omitted
  command are paid for all the same, but its verification keys stay counted,
  and `apply` may report it as accepted (`TransactionPools.AcceptedCanBeGone`).
  `Diffs.OmittedIff` tells from the pool before an admission which command that
  is, if any: the first one behind the replaced command that no longer fits with
  the new command in place. `AcceptedInPoolIff` and `Diffs.LeaksNothingIff` say
  in these terms when an accepted command is in the pool and when no key stays
  counted.
* A diff with an unknown fee payer fails after the commands before it were
  added, and their keys are not counted (`TransactionPools.FailedDiffUncounted`);
  `TransactionPool.Apply` says exactly when the counts still balance.
* A new best tip drops commands without taking their keys out of the table
  (`TransactionPools.TipLeavesKeyCounted`); `ApplyAll` says for every run of
  diffs and best tips when the table counts no more than the pool uses.
* Decrementing the last use of a key by an account forgets the other keys of
  that account in the table by account (`VkRefcounts.SecondKeyForgotten`), and
  the other accounts of that key in the table by key (`SecondAccountForgotten`).
  `DecKeepsExactIff`, `DecKeepsTransposedExactIff` and `DecKeepsBothExactIff` say
  exactly when the counts of the one, the other and both tables stay exact. They
  never become too large. A later, matched decrement of a pair that either table
  forgot is reported as a bug (`MatchedYetReported`).
* Inserting a key that is already in the log breaks the inverse of list and
  index (`DistributedPools.SecondInsertBreaksInverse`); `InsertKeepsInverseIff`
  and `InsertKeepsSoundIff` give the exact conditions.
* The long-range fork rule is not transitive: `ForkChoice.LongRangeCycle` gives
  three tips that beat one another in a circle. `OrderFreeIff` says exactly when
  the order of arrival does not matter, `CircleIff` exactly when three tips
  form a circle. The short-range rule is always transitive.
* A command replaces nothing in a queue that reaches the end of the 32-bit nonces
  (`AdmissionRule.ReplacesIff`).
* After the last account is removed the last location may be an empty one
  (`LedgerHash.LastLocationCanBeEmpty`); `Ledger.RemoveAt` says exactly when.
* A chain loses one sub-window per slot by which another tip is ahead, not one per
  seven slots (`ForkChoice.DensityIsRecent`).
* A two-bit item with a value above 3 is packed over its neighbour
  (`Packing.WideTwoBitItemCollides`); packing is reversible exactly when no item
  is too wide.
* Both clocks count slots in 32 bits. The pool's either panics or shows the slots
  since genesis modulo 2^32, depending on whether arithmetic overflow is checked
  (`SlotClock.CheckedClockIff`, `WrappingClockIff`); whenever it answers, the node
  shows that slot moved by the genesis block's own (`SlotsAgree`). Their epochs
  agree exactly when that is 0 and the slot number fits (`EpochsAgreeIff`,
  `ClocksAtWrapAround`). Whether it always
  fits can be told from the genesis and the slot duration (`AlwaysInRangeIff`);
  slots of at least 4295 ms are long enough for any genesis
  (`LongSlotsStayInRange`).

## Model

| member | source | states |
|---|---|---|
| `Grouping.GroupByIsGrouping` | crates/ledger/src/transaction_pool.rs:591-607 | an index has one bucket per key in use, none empty, each with exactly the values of that key |
| `Grouping.GroupingUnique` | crates/ledger/src/transaction_pool.rs:591-607 | an index is determined by what it indexes |
| `Grouping.MapSetInsert` | crates/ledger/src/transaction_pool.rs:685-692 | the index of a set becomes the index of the set with the value added |
| `Grouping.MapSetRemove` | crates/ledger/src/transaction_pool.rs:695-708 | the index of a set becomes the index of the set without the value; no empty bucket stays behind |
| `SenderQueues.ChainedDistinct` | crates/ledger/src/transaction_pool.rs:591-607 | wrapping consecutive nonces never repeat inside a queue |
| `SenderQueues.WithQueueCommands` | crates/ledger/src/transaction_pool.rs:956-967 | replacing one sender's queue exchanges exactly that sender's commands and keeps every queue valid |
| `SenderQueues.WithQueueHeads` | crates/ledger/src/transaction_pool.rs:956-967 | and exchanges exactly that sender's head among the applicable commands |
| `Admission.ReinsertedIsLongest` | crates/ledger/src/transaction_pool.rs:1148-1193 | what is put back is the longest run of the tail that passes the checks and fits the balance; the next command does not |
| `Admission.AdmittedQueue` | crates/ledger/src/transaction_pool.rs:1000-1215 | an admitted queue has consecutive nonces, holds the new command and is covered by the supplied balance |
| `Admission.AdmittedElems` | crates/ledger/src/transaction_pool.rs:1000-1215 | an admission brings in no command but the admitted one |
| `Admission.SplicedFees` | crates/ledger/src/transaction_pool.rs:1093-1205 | conservation: fees after a replacement plus fees evicted are fees before plus the new fee |
| `Admission.SplicedElems` | crates/ledger/src/transaction_pool.rs:1093-1205 | conservation of commands: the new queue and the evicted ones partition the old queue and the new command |
| `Admission.ReplacementPays` | crates/ledger/src/transaction_pool.rs:1093-1205 | a successful replacement at i leaves prefix, new command and the surviving tail; its fee is at least the fees of everything evicted plus the replacement fee |
| `Admission.QueuedIsRejected` | crates/ledger/src/transaction_pool.rs:1093-1205 | a command that is already queued is never admitted again, so nothing replaces itself |
| `Admission.AdmitNext` | crates/ledger/src/transaction_pool.rs:1148-1193 | the inner call for a tail command can only append: it drops nothing, and no queued nonce is at or above its own |
| `Admission.AdmitAtCut` | crates/ledger/src/transaction_pool.rs:1126-1147 | the inner call for the new command after the cut can only append or start the queue |
| `Admission.ReplacedPosition` | crates/ledger/src/transaction_pool.rs:1093-1125 | in a chained queue the command at the replaced position has the new command's nonce |
| `AdmissionRule.ReservedIsCost` | crates/ledger/src/transaction_pool.rs:1524-1544 | the currency a queue reserves is the sum of its fees and of what its payments move |
| `AdmissionRule.AdmittedIff` | crates/ledger/src/transaction_pool.rs:1000-1215 | a command is admitted if and only if it is timely, in the default fee token and of a cost within 64 bits, and starts an empty queue at the account nonce, extends the queue, or takes the place of a queued command whose fee and the fees from the first misfit on it exceeds, each time within the balance |
| `AdmissionRule.ReplacesIff` | crates/ledger/src/transaction_pool.rs:1093-1110 | a command stands for replacement exactly when the queue starts at the account nonce, holds the command's nonce and does not reach the end of the 32-bit nonces |
| `AdmissionRule.AppendableIff` | crates/ledger/src/transaction_pool.rs:1009-1072 | what passes behind a queue is what is acceptable by itself and paid for together with the queue |
| `AdmissionRule.AdmittedStartsAtAccount` | crates/ledger/src/transaction_pool.rs:1036-1205 | a queue that is empty or starts at the account nonce starts there after every admission |
| `AdmissionRule.AdmittedIsPaidFor` | crates/ledger/src/transaction_pool.rs:1036-1205 | the balance pays all fees and payments of an admitted queue |
| `AdmissionRule.RefusedBecause` | crates/ledger/src/transaction_pool.rs:1000-1215 | every refusal is explained by its error: end of transactions, expiry, fee token, overflow, no place for the nonce, too little balance, or a replacement that does not outbid what it pushes out |
| `UpdateLog.ReplayConcat` | crates/ledger/src/transaction_pool.rs:937-954 | replaying two logs in turn is replaying their concatenation |
| `UpdateLog.RemovalRebuilds` | crates/ledger/src/transaction_pool.rs:877-935 | replaying the log of a removal gives the indexes rebuilt from the cut queue |
| `UpdateLog.ExtensionRebuilds` | crates/ledger/src/transaction_pool.rs:1036-1092 | the log of a command that starts or extends a queue rebuilds the indexes, with a new head exactly when it starts one |
| `UpdateLog.ReplacementRebuilds` | crates/ledger/src/transaction_pool.rs:1093-1205 | the log of a replacement rebuilds the indexes of the spliced queue |
| `UpdateLog.AdmissionRebuilds` | crates/ledger/src/transaction_pool.rs:937-998 | for every admission, replaying its log equals rebuilding every index from the new queues |
| `PoolFees.ReplacementRaisesFees` | crates/ledger/src/transaction_pool.rs:1093-1205 | every replacement raises the fees held by the whole pool by at least the replacement fee |
| `PoolFees.ReplacementReport` | crates/ledger/src/transaction_pool.rs:1185-1203 | the report is exactly the commands that left, minus the first one that failed re-insertion |
| `PoolFees.ReportCompleteIff` | crates/ledger/src/transaction_pool.rs:1148-1203 | the report names everything that left if and only if every command behind the replaced one still passes the checks and the balance covers the queue with the new command in place |
| `PoolFees.ReportOmitsOne` | crates/ledger/src/transaction_pool.rs:1185-1203 | a queue of two and a replacement that is admitted, pushes the second command out and does not report it |
| `IndexedPools.IndexedPool.constructor` | crates/ledger/src/transaction_pool.rs:636-649 | a new pool is empty and consistent |
| `IndexedPools.IndexedPool.UpdateExpirationMap` | crates/ledger/src/transaction_pool.rs:710-721 | the expiry index stays the grouping of the commands that expire at all |
| `IndexedPools.IndexedPool.UpdateAdd` | crates/ledger/src/transaction_pool.rs:816-832 | every index and the size gain exactly the command |
| `IndexedPools.IndexedPool.UpdateRemoveAllByFeeAndHashAndExpiration` | crates/ledger/src/transaction_pool.rs:836-848 | every index and the size lose exactly the commands |
| `IndexedPools.IndexedPool.RemoveApplicable` | crates/ledger/src/transaction_pool.rs:733-736 | the index of heads loses exactly the command |
| `IndexedPools.IndexedPool.ApplyUpdates` | crates/ledger/src/transaction_pool.rs:937-954 | the indexes end where replaying the log on plain sets ends |
| `IndexedPools.IndexedPool.Commit` | crates/ledger/src/transaction_pool.rs:956-998 | installing one sender's new entry and replaying its log leads from one consistent pool to the next |
| `IndexedPools.IndexedPool.RemoveWithDependentsImpl` | crates/ledger/src/transaction_pool.rs:877-935 | cuts the private queue at the command, adjusts the reserved currency and logs the removal |
| `IndexedPools.IndexedPool.RemoveWithDependents` | crates/ledger/src/transaction_pool.rs:858-875 | the pool loses the command and everything behind it, returns exactly those, and stays consistent |
| `IndexedPools.IndexedPool.AddFromGossipImpl` | crates/ledger/src/transaction_pool.rs:1000-1092 | the recursion terminates on the number of queued nonces at or above the command's, and its queue, answer and log are those of the non-recursive rule |
| `IndexedPools.IndexedPool.ReplaceQueued` | crates/ledger/src/transaction_pool.rs:1093-1205 | the replacement branch meets the same rule, errors included |
| `IndexedPools.IndexedPool.CutAndAdd` | crates/ledger/src/transaction_pool.rs:1126-1147 | cutting and adding gives prefix and new command, and the inner call never drops anything |
| `IndexedPools.IndexedPool.TryReinsert` | crates/ledger/src/transaction_pool.rs:1148-1193 | a command goes back exactly when it passes the checks behind the restored queue; a failure leaves the private copy as it was |
| `IndexedPools.IndexedPool.ReinsertTail` | crates/ledger/src/transaction_pool.rs:1148-1193 | commands go back up to the first failure, and every fee from there on is taken out of the increment, which must cover it |
| `IndexedPools.IndexedPool.ChargeFees` | crates/ledger/src/transaction_pool.rs:1148-1193 | fails exactly when the fees exceed the increment, else leaves the difference |
| `IndexedPools.IndexedPool.AddFromGossip` | crates/ledger/src/transaction_pool.rs:969-998 | a rejected command changes nothing; an admitted one was not in the pool, its sender's queue becomes the admitted one, within balance, and all indexes follow |
| `IndexedPools.IndexedPool.AddFromBacktrack` | crates/ledger/src/transaction_pool.rs:742-814 | a command that precedes the queue was not in the pool and becomes its head in every index; every refusal changes nothing |
| `Eviction.BacktrackRebuilds` | crates/ledger/src/transaction_pool.rs:742-814 | the indexes rebuilt after putting a command in front gain it as the only new head |
| `Eviction.BacktrackIff` | crates/ledger/src/transaction_pool.rs:742-814 | a command goes in front exactly when it is timely, its cost fits 64 bits and the nonces then follow one another, before an empty queue too |
| `Eviction.BacktrackUndoesTake` | crates/ledger/src/transaction_pool.rs:742-814 | putting back the command taken off the front gives the queue back |
| `Eviction.BacktrackRefusedBecause` | crates/ledger/src/transaction_pool.rs:742-795 | every refusal is explained by its error |
| `IndexedPools.IndexedPool.Member` | crates/ledger/src/transaction_pool.rs:659-661 | true exactly when a pooled command has the hash |
| `IndexedPools.IndexedPool.ExpiredByGlobalSlot` | crates/ledger/src/transaction_pool.rs:1217-1223 | exactly the pooled commands whose expiry lies before the slot |
| `IndexedPools.IndexedPool.RemoveExpired` | crates/ledger/src/transaction_pool.rs:1229-1241 | although the loop walks a stale snapshot, every queue ends as its longest prefix without an expired command, no expired command is left, and each removed command is returned once |
| `IndexedPools.IndexedPool.RemoveLowestFee` | crates/ledger/src/transaction_pool.rs:1243-1255 | removes the suffix that starts at a command of lowest fee rate in the whole pool, and returns exactly that |
| `IndexedPools.LowestIn` | crates/ledger/src/transaction_pool.rs:655-657 | the lowest fee rate, then the lowest hash, among all commands of the index |
| `IndexedPools.IndexedPool.DropUntilSufficientBalance` | crates/ledger/src/transaction_pool.rs:1259-1281 | keeps the longest affordable prefix and its exact reserved currency, returns the rest from the back, and never pops an empty queue |
| `Revalidation.AffordableIsLongest` | crates/ledger/src/transaction_pool.rs:1259-1281 | the affordable prefix fits the balance and one command more would not |
| `Revalidation.KeptMeaning` | crates/ledger/src/transaction_pool.rs:1283-1385 | what survives starts at the account nonce, has consecutive nonces, fits the balance and could not be longer |
| `Revalidation.KeptIff` | crates/ledger/src/transaction_pool.rs:1299-1380 | a command is kept if and only if the account may send, the queue does not start past the account nonce and holds it at or before the command, and the balance pays for everything from there up to the command |
| `Revalidation.KeptSomeIff` | crates/ledger/src/transaction_pool.rs:1311-1341 | something is kept if and only if the balance pays for the queued command with the account nonce, which then comes first |
| `Revalidation.RevalidatedIff` | crates/ledger/src/transaction_pool.rs:1283-1385 | the pool keeps a command if and only if its sender is not checked or its account supports it |
| `Revalidation.KeptIsStable` | crates/ledger/src/transaction_pool.rs:1283-1385 | revalidating what was kept keeps all of it |
| `Revalidation.SecondRevalidationDropsNothing` | crates/ledger/src/transaction_pool.rs:1283-1385 | a second revalidation of the pool with the same accounts returns nothing and changes no queue |
| `IndexedPools.IndexedPool.RevalidateSender` | crates/ledger/src/transaction_pool.rs:1300-1380 | one sender's queue becomes its kept part in every index, and exactly the rest is returned |
| `IndexedPools.IndexedPool.Revalidate` | crates/ledger/src/transaction_pool.rs:1283-1385 | succeeds exactly when every checked account is known; then the pool splits into kept and returned commands and unchecked senders are untouched; a failure leaves a consistent pool in which each queue is either done or untouched |
| `Includable.PicksArePrefixes` | crates/ledger/src/transaction_pool.rs:1389-1503 | a sender's picked commands followed by what is left of its queue are its queue: a prefix in nonce order |
| `Includable.SelectionLength` | crates/ledger/src/transaction_pool.rs:1389-1503 | a selection has min(limit, size) commands |
| `Includable.SelectionUnique` | crates/ledger/src/transaction_pool.rs:1389-1503 | the copying and the draining listing hand out the same commands in the same order |
| `Includable.OutOfOrderIsBlocked` | crates/ledger/src/transaction_pool.rs:1396-1437 | a command that outranks an earlier pick, by fee rate and then hash, stood behind a command of its own sender that does not |
| `IndexedPools.IndexedPool.PickNext` | crates/ledger/src/transaction_pool.rs:1396-1437 | takes the head of highest fee rate and leaves an index of exactly the new heads; the malformed-queue branch is not reached |
| `IndexedPools.IndexedPool.ListIncludableTransactions` | crates/ledger/src/transaction_pool.rs:1389-1440 | each pick is the best remaining head, min(limit, size) of them, with the pool unchanged |
| `IndexedPools.IndexedPool.Transactions` | crates/ledger/src/transaction_pool.rs:1445-1503 | the same picks, taken out of the queues and the index of heads |
| `IndexedPools.ListTwice` | crates/ledger/src/transaction_pool.rs:1389-1503 | listing and then draining a pool gives one and the same list |
| `IndexedPools.NoHeadsNoQueues` | crates/ledger/src/transaction_pool.rs:1448-1451 | when the index of heads is used up no queue is left, as the final assertion demands |
| `TransactionPools.TransactionPool.HasSufficientFee` | crates/ledger/src/transaction_pool.rs:1669-1680 | a full pool accepts exactly what beats its lowest fee rate |
| `TransactionPools.TransactionPool.DropUntilBelowMaxSize` | crates/ledger/src/transaction_pool.rs:1682-1695 | ends within the limit; each round cuts one queue at the command that is then globally cheapest, and only while the pool is too large; returns exactly what left |
| `Eviction.StayersOutbidVictims` | crates/ledger/src/transaction_pool.rs:1682-1695 | every command that stays after an eviction outbids every command it was cut at, or ties with it |
| `TransactionPools.TransactionPool.AddChecked` | crates/ledger/src/transaction_pool.rs:1937-1990 | one command of a diff: refused as a duplicate or for its account, else judged by the admission rule |
| `TransactionPools.TransactionPool.Apply` | crates/ledger/src/transaction_pool.rs:1901-2054 | every command is judged in turn on the pool the previous ones left, then the cheapest are evicted round by round to the limit, then the key counts are updated, and the report lists admitted, refused and dropped commands and rejects a diff exactly for the errors that are grounds; it fails exactly at the first unknown fee payer, with the commands before it added, nothing evicted and nothing counted, and the key counts then still balance if and only if those commands brought in exactly the keys they pushed out |
| `Diffs.AdmissionUses` | crates/ledger/src/transaction_pool.rs:1944-1999 | key uses before an admission and its own equal those after it, those reported and those of the omitted command |
| `Diffs.AnswerExplained` | crates/ledger/src/transaction_pool.rs:1920-1972 | a refusal in a diff is explained by its error: pooled already, account not permitted, or what the admission rule says |
| `Diffs.GroundsAreMalformed` | crates/ledger/src/transaction_pool.rs:222-240 | a whole diff is turned down only for a wrong fee token or a cost past 64 bits, and always for a new, timely command of a permitted account with a wrong token or such a cost |
| `Diffs.EveryCommandAnswered` | crates/ledger/src/transaction_pool.rs:1974-2041 | the admitted and the refused commands together are the diff, with repetitions |
| `Diffs.RefusedSomewhere` | crates/ledger/src/transaction_pool.rs:2025-2041 | the report lists a refusal exactly when a command of the diff was answered with it |
| `Diffs.DiffUses` | crates/ledger/src/transaction_pool.rs:1944-1999 | conservation of key uses over a whole diff |
| `Diffs.OmittedIff` | crates/ledger/src/transaction_pool.rs:1093-1205 | told from the pool before: a command is admitted exactly when it is not pooled, its account may send and the rule takes it, and what then leaves unreported is exactly the first command behind the replaced one that no longer fits with the new one in place |
| `Diffs.PresentByGuardsIff` | crates/ledger/src/transaction_pool.rs:1944-1990 | a command never reported as dropped is in the pool exactly when it was there or came in and no later command of the diff pushed it out as its first misfit |
| `Diffs.LeaksNothingIff` | crates/ledger/src/transaction_pool.rs:1944-1999 | a diff leaves no key counted for a command that is gone if and only if no replacement of it has a first misfit that installs a key |
| `TransactionPools.AcceptedInPoolIff` | crates/ledger/src/transaction_pool.rs:2023-2041 | a command reported as accepted is in the pool exactly when, after it was there or came in, no replacement of the diff has it as the first command that no longer fits |
| `TransactionPools.AcceptedCanBeGone` | crates/ledger/src/transaction_pool.rs:2023-2041 | a pool of one command and a diff of two that reports both as accepted and keeps only the second |
| `TransactionPools.FailedDiffUncounted` | crates/ledger/src/transaction_pool.rs:1944-1972 | for any key: a new pool and a diff that fails after adding a command with that key, which the table does not count |
| `TransactionPools.TransactionPool.OnNewBestTip` | crates/ledger/src/transaction_pool.rs:1628-1667 | drops exactly what the accounts of the tip, or empty ones, no longer support; the key counts exceed those of the pool by exactly the keys of what was dropped, which is nothing if and only if every unsupported command installs no key |
| `TransactionPools.UnknownSenderKeepsIff` | crates/ledger/src/transaction_pool.rs:1628-1645 | a sender without an account at the tip keeps commands exactly when its first has nonce 0 and costs nothing |
| `TransactionPools.TipLeavesKeyCounted` | crates/ledger/src/transaction_pool.rs:1628-1667 | for any key: a diff and a best tip after which the table counts a key that no pooled command uses |
| `TransactionPools.PassEvent` | crates/ledger/src/transaction_pool.rs:1628-2054 | one diff or best tip: it fails exactly for an unknown fee payer, and leaves no key behind exactly when no replacement pushes out and no tip drops a command with a key |
| `TransactionPools.ApplyAll` | crates/ledger/src/transaction_pool.rs:1628-2054 | over any run of diffs and best tips, up to a failing diff, the key counts cover the pooled commands, and are no larger if and only if no event of the run lost a key |
| `TransactionPools.PooledKeysAreKnown` | crates/ledger/src/transaction_pool.rs:1995-1999 | every key a pooled command installs is in the table |
| `TransactionPools.Run` | crates/ledger/src/transaction_pool.rs:590-1385 | every run of the six mutators from a new pool keeps all indexes consistent and takes the queues through the states their rules call for |
| `TransactionPools.PooledWasBrought` | crates/ledger/src/transaction_pool.rs:742-1092 | whatever any run has in its pool, one of its operations put there: before the end of transactions, before the command expired, at a cost within 64 bits and, if gossiped, in the default fee token |
| `VkRefcounts.AddCount` | crates/ledger/src/transaction_pool.rs:407-416 | one pair's count rises by one and no other count changes |
| `VkRefcounts.RemoveCount` | crates/ledger/src/transaction_pool.rs:437-464 | a count above one falls by one; when it was one, every count under the outer key is lost |
| `VkRefcounts.UsesAreListed` | crates/ledger/src/scan_state/transaction_logic/mod.rs:796-801 | every key a zkApp command lists is a use, as often as it is listed; other commands use none |
| `VkRefcounts.VkRefcountTable.Inc` | crates/ledger/src/transaction_pool.rs:394-417 | keeps key counts equal to outstanding uses and the key first installed under its hash; pair counts rise for the pair alone and stay exact if they were |
| `VkRefcounts.VkRefcountTable.IncrementHashed` | crates/ledger/src/transaction_pool.rs:500-510 | the outstanding uses grow by the keys of the commands, and exact pair counts stay exact |
| `VkRefcounts.VkRefcountTable.DecrementHashed` | crates/ledger/src/transaction_pool.rs:488-498 | the outstanding uses shrink by the keys of the commands, all of which must be outstanding |
| `VkRefcounts.VkRefcountTable.Dec` | crates/ledger/src/transaction_pool.rs:419-478 | the table stays valid exactly when the decrement matches an outstanding use or its key is absent; a bug is reported for every unmatched decrement and for a matched one exactly when its pair was forgotten |
| `VkRefcounts.VkRefcountTable.FindVksByAccountId` | crates/ledger/src/transaction_pool.rs:383-392 | exactly the keys listed for the account, each of them present: the malformed case is not reached |
| `VkRefcounts.MatchedDec` | crates/ledger/src/transaction_pool.rs:419-478 | after a matched decrement key counts equal the remaining uses, a key is there exactly while it is used, and no pair is counted too often |
| `VkRefcounts.UnmatchedDec` | crates/ledger/src/transaction_pool.rs:419-478 | an unmatched decrement leaves both tables alone but miscounts a key that is there |
| `VkRefcounts.DecKeepsExactIff` | crates/ledger/src/transaction_pool.rs:437-464 | a decrement keeps the counts by account exact if and only if the pair is still used or the account uses no other key |
| `VkRefcounts.DecKeepsTransposedExactIff` | crates/ledger/src/transaction_pool.rs:437-478 | it keeps the counts by key exact if and only if the pair is still used or no other account uses the key |
| `VkRefcounts.DecKeepsBothExactIff` | crates/ledger/src/transaction_pool.rs:437-478 | and both if and only if the pair is still used or nothing else is by this account or of this key |
| `VkRefcounts.SecondKeyForgotten` | crates/ledger/src/transaction_pool.rs:437-464 | for any account and two keys, dropping the first use forgets the second |
| `VkRefcounts.MatchedYetReported` | crates/ledger/src/transaction_pool.rs:419-478 | for any key of two accounts, undoing both increments in turn reports a bug the second time |
| `DistributedPools.InsertKeepsInverseIff` | crates/core/src/distributed_pool.rs:60-65 | inserting keeps list and index inverse if and only if neither the key nor the position collides |
| `DistributedPools.InsertKeepsSoundIff` | crates/core/src/distributed_pool.rs:60-65 | an insert keeps a sound log sound if and only if the key is new and a position is left |
| `DistributedPools.SecondInsertBreaksInverse` | crates/core/src/distributed_pool.rs:60-65 | any key inserted twice breaks the inverse |
| `DistributedPools.RemoveUndoesInsert` | crates/core/src/distributed_pool.rs:60-88 | removing what was inserted restores list and index |
| `DistributedPools.RewriteKeepsSoundIff` | crates/core/src/distributed_pool.rs:78-83 | a change in place keeps the log sound if and only if the entry keeps its key |
| `DistributedPools.RetainKeepsSoundIff` | crates/core/src/distributed_pool.rs:97-113 | a retain keeps the log sound if and only if every entry that stays keeps its key |
| `DistributedPools.DistributedPool.Insert` | crates/core/src/distributed_pool.rs:60-65 | the entry takes the counter's position, the counter saturates |
| `DistributedPools.DistributedPool.Remove` | crates/core/src/distributed_pool.rs:85-88 | returns the entry of the key, if any, and leaves a sound log without it |
| `DistributedPools.DistributedPool.Update` | crates/core/src/distributed_pool.rs:67-75 | the entry moves to the end of the log with its new value, an unknown key changes nothing, and the log stays sound exactly when a position is left and the change takes no other entry's key |
| `DistributedPools.DistributedPool.SilentUpdate` | crates/core/src/distributed_pool.rs:78-83 | the entry changes at its position, an unknown key changes nothing, and the log stays sound if and only if the entry keeps its key |
| `DistributedPools.DistributedPool.RetainAndUpdate` | crates/core/src/distributed_pool.rs:97-113 | in whatever order keys are visited, the log ends as the pointwise filter of its entries, sound if and only if those that stay keep their keys |
| `DistributedPools.DueSound` | crates/core/src/distributed_pool.rs:125-157 | the positions due are increasing, in the log, extractable and at most the limit |
| `DistributedPools.DueComplete` | crates/core/src/distributed_pool.rs:125-157 | nothing extractable is skipped before the last position due, nor at all below the limit |
| `DistributedPools.DistributedPool.NextMessagesToSend` | crates/core/src/distributed_pool.rs:125-157 | exactly the messages due from the index on, and the first and last position they cover, limit zero included |
| `DistributedPools.DistributedPool.LastIndex` | crates/core/src/distributed_pool.rs:56-58 | the greatest position in use, or zero |
| `DistributedPools.DistributedPool.Deserialize` | crates/core/src/distributed_pool.rs:185-206 | each key is indexed at its last position, and the index is inverse to the list if and only if no key repeats |
| `DistributedPools.IndexDetermined` | crates/core/src/distributed_pool.rs:185-206 | an inverse index is determined by the list, so the rebuild restores it |
| `DistributedPools.ReadBack` | crates/core/src/distributed_pool.rs:185-206 | a sound pool serialised without its index and read back is what it was |
| `PeerSync.RunsStaySynced` | crates/core/src/distributed_pool.rs:60-157 | in every interleaving of log changes and polls, positions are delivered in strictly increasing order, none twice, and nothing extractable behind the cursor is undelivered |
| `PeerSync.PollKeepsSynced` | crates/p2p/src/channels/snark/p2p_channels_snark_reducer.rs:185 | moving the cursor past the last index of a reply leaves nothing behind |
| `PeerSync.ShortReplyCatchesUp` | crates/core/src/distributed_pool.rs:125-157 | a reply below the limit means the peer has everything extractable |
| `PeerSync.SilentUpdateSafeIff` | crates/core/src/distributed_pool.rs:77-83 | an in-place change is safe if and only if it gives no message to an entry the peer has passed without receiving |
| `ForkChoice.ShortRangeSymmetric` | crates/core/src/consensus.rs:45-72 | whether two tips form a short-range fork does not depend on their order |
| `ForkChoice.ShortRangeInEpochIff` | crates/core/src/consensus.rs:62-67 | tips of one epoch are in short range exactly when their staking epochs start from one checkpoint |
| `ForkChoice.ShortRangeAcrossEpochsIff` | crates/core/src/consensus.rs:46-71 | tips of different epochs are exactly when the later epoch follows the earlier, the earlier tip has at most a third of its epoch left, rounded up, and its next lock checkpoint is the later one's staking one |
| `ForkChoice.RelativeMinWindowDensity` | crates/core/src/consensus.rs:77-112 | the ring loop computes the sum of the sub-windows not among the min(k+1, 11) positions after the chain's own, capped by its minimum density |
| `ForkChoice.Density` | crates/core/src/consensus.rs:114-116 | the sum of the window |
| `ForkChoice.DensityIsRecent` | crates/core/src/consensus.rs:77-120 | from slot 1440 on, a chain is measured by the sum of its most recent sub-windows, capped by its minimum density: of the eleven, around the ring from the one after its own, as many are left out as the other tip is slots ahead, at least one |
| `ForkChoice.DensityFallsWithTime` | crates/core/src/consensus.rs:77-120 | a later comparison slot never raises a density, across the grace period too |
| `ForkChoice.LaterOpponentNeverHelps` | crates/core/src/consensus.rs:77-120 | raising the opponent's slot never raises a chain's relative density |
| `ForkChoice.StalledChainHasNoDensity` | crates/core/src/consensus.rs:77-120 | past the grace period a chain that stood still for eleven slots has density zero: one sub-window is emptied per slot |
| `ForkChoice.ChoiceIsDecisive` | crates/core/src/consensus.rs:126-201 | of two tips with different hashes exactly one is taken over the other, under both rules |
| `ForkChoice.TakenIff` | crates/core/src/consensus.rs:126-201 | a candidate is taken if and only if it is denser in long range, or at equal density or in short range is longer, then of greater VRF output, then of greater hash |
| `ForkChoice.ReasonIsFirstDifference` | crates/core/src/consensus.rs:126-188 | the reason given is the first thing in which the tips differ |
| `ForkChoice.ShortRangeTransitive` | crates/core/src/consensus.rs:126-152 | the short-range rule is transitive |
| `ForkChoice.OrderDoesNotMatter` | crates/core/src/consensus.rs:126-201 | for a pairwise short-range set, following the rule in any order and from any start ends at one tip |
| `ForkChoice.FoldBeatsAll` | crates/core/src/consensus.rs:190-201 | and that tip beats every other |
| `ForkChoice.BestIsGreatest` | crates/core/src/consensus.rs:126-152 | in short range that tip is the longest chain, among those of the greatest VRF output, among those of the greatest hash |
| `ForkChoice.OrderFreeIff` | crates/core/src/consensus.rs:126-201 | for any tips with distinct hashes, under either rule, the order of arrival does not matter if and only if some tip is taken over every other |
| `ForkChoice.WinnerIsFound` | crates/core/src/consensus.rs:190-201 | such a tip is found from any start, in any order, even with repetitions |
| `ForkChoice.TripleOrderFreeIff` | crates/core/src/consensus.rs:126-201 | for three tips the order matters exactly when they are taken over one another in a circle |
| `ForkChoice.CircleIff` | crates/core/src/consensus.rs:154-188 | three long-range tips form a circle if and only if waiting for the latest one reverses the order of the other two and it stands between them |
| `ForkChoice.ReversalLosesDensity` | crates/core/src/consensus.rs:77-188 | an order is reversed only if one of the two chains loses density in between |
| `ForkChoice.NoCircleAtOneSlot` | crates/core/src/consensus.rs:154-188 | when two of three long-range tips share the latest slot the order does not matter |
| `ForkChoice.LongRangeCycle` | crates/core/src/consensus.rs:154-188 | three tips of one epoch, with densities their windows can reach, that beat one another in a circle |
| `SlotClock.TwoStepClockIsDirect` | crates/ledger/src/transaction_pool.rs:121-183 | the epoch and the slot in it are the quotient and remainder of (time - genesis) / slot duration by the slots per epoch, and the clock panics exactly when the epoch does not fit 32 bits |
| `SlotClock.CheckedClockIff` | crates/ledger/src/transaction_pool.rs:121-183 | with overflow checks the recombined slot is (time - genesis) / slot duration if that fits 32 bits, and a panic if and only if it does not |
| `SlotClock.WrappingClockIff` | crates/ledger/src/transaction_pool.rs:121-183 | without them it is that number modulo 2^32, and a panic if and only if the epoch does not fit |
| `SlotClock.InitialSlotShifts` | crates/node/src/state.rs:333-346 | the node's clock adds the genesis block's own slot, and panics exactly when that leaves 32 bits |
| `SlotClock.BeforeGenesisIff` | crates/ledger/src/transaction_pool.rs:121-183 | the pool's clock reports an error exactly before genesis, when the node's stays at the genesis block's slot |
| `SlotClock.SlotsAgree` | crates/node/src/state.rs:333-352 | with a common genesis, whenever the pool's clock answers the node shows that slot moved by the genesis block's own, in range or not, so the same one exactly when that is 0 |
| `SlotClock.EpochsAgreeIff` | crates/node/src/state.rs:354-374 | they show the same epoch and slot in it if and only if the slot number fits 32 bits and the genesis block's own slot is 0 |
| `SlotClock.AlwaysInRangeIff` | crates/node/src/state.rs:333-345 | no 64-bit time is out of range if and only if the latest is not: (latest - genesis) / slot duration < 2^32 |
| `SlotClock.LongSlotsStayInRange` | crates/node/src/state.rs:333-345 | slots of at least 4295 ms stay in range from any genesis |
| `SlotClock.ClocksAtWrapAround` | crates/node/src/state.rs:333-374 | with one-second slots, at 2^32 seconds: both clocks are back at slot 0, or the pool's panics, and the epochs differ |
| `Packing.MoveLimbs` | poseidon/src/hash.rs:82-88 | one pass multiplies by 2^64 modulo 2^256 |
| `Packing.ShiftBits` | poseidon/src/hash.rs:89-98 | carrying from limb to limb multiplies by 2^n modulo 2^256 |
| `Packing.Shl` | poseidon/src/hash.rs:77-99 | shifting by any count multiplies by that power of two modulo 2^256 |
| `Packing.OnlyTwoBitItemsOverflow` | poseidon/src/hash.rs:29-54 | only a two-bit item can carry a number too wide for it |
| `Packing.ItemIsItsBits` | poseidon/src/hash.rs:29-54 | the width and number of an item are those of its bits, lowest first, six bytes in their order |
| `Packing.AppendItem` | poseidon/src/hash.rs:157-164 | one item goes below the element held by the limbs |
| `Packing.ToFields` | poseidon/src/hash.rs:150-175 | the limb loop emits, after the fields already there, the elements of the greedy 254-bit packing of any items |
| `Packing.AppendIsPositional` | poseidon/src/hash.rs:157-164 | for an item within its width the shift-and-or is v·2^n + item, and both can be read back |
| `Packing.PackedFits` | poseidon/src/hash.rs:150-175 | every element is below 2^254 |
| `Packing.OneElementIff` | poseidon/src/hash.rs:150-175 | items fit one element if and only if they have at most 254 bits together, and none takes no element |
| `Packing.PackingReversibleIff` | poseidon/src/hash.rs:150-175 | a decoder that knows only the widths gives all numbers back, across field boundaries, if and only if every item fits its width |
| `Packing.PackingInjective` | poseidon/src/hash.rs:150-175 | item lists of one shape that pack alike are equal |
| `Packing.WideTwoBitItemCollides` | poseidon/src/hash.rs:150-175 | two lists with a too wide item that pack alike |
| `Packing.PackChunk` | poseidon/src/hash.rs:498-504 | setting bits limb by limb gives the little-endian number of the chunk |
| `Packing.LegacyToFields` | poseidon/src/hash.rs:492-506 | emits the little-endian numbers of the 254-bit chunks after the fields already there |
| `Packing.LegacyRoundTrip` | poseidon/src/hash.rs:492-506 | reading 254 bits from each element gives the bits back, and every element is below 2^254 |
| `Packing.LegacyLength` | poseidon/src/hash.rs:492-506 | as many elements as 254-bit chunks, the last one rounded up |
| `Packing.PackersAgree` | poseidon/src/hash.rs:150-175 | an item that fits is packed alone as the legacy packer packs its bits |
| `Sponges.AbsorbOne` | poseidon/src/lib.rs:190-207 | after absorbing, between one and rate lanes are filled: lane indexes never leave the rate |
| `Sponges.Sponge.Absorb` | poseidon/src/lib.rs:172-208 | the in-place loop computes the absorption of the whole list, the empty list included |
| `Sponges.Sponge.Squeeze` | poseidon/src/lib.rs:210-228 | returns the next lane, permuting when none is left |
| `Sponges.SpongeIsBlockFold` | poseidon/src/lib.rs:172-228 | from a fresh or squeezed state, absorb and squeeze is adding zero-padded pairs with one permutation after each block |
| `Sponges.StreamIsLanes` | poseidon/src/lib.rs:210-228 | squeezes give the lanes of a block in turn, with one permutation after the last of them: squeeze k after an absorb is lane k % 2 after k / 2 + 1 permutations |
| `Sponges.SqueezesOfBlockFold` | poseidon/src/lib.rs:172-228 | after absorbing a list, squeeze k is lane k % 2 of the block construction permuted k / 2 times more |
| `Sponges.AbsorbTwice` | poseidon/src/lib.rs:172-208 | absorbing x then y is absorbing their concatenation, an empty list counting as a zero |
| `Sponges.NothingIsZero` | poseidon/src/lib.rs:172-189 | absorbing nothing is absorbing a zero |
| `Sponges.HashWithKimchi` | poseidon/src/hash.rs:208-223 | the hash is lane 0 of the block construction started from the stored parameter |
| `Sponges.ParamStartsBlock` | poseidon/src/hash.rs:258-272 | a stored parameter starts a block of its own |
| `Sponges.FqSponge.AbsorbFq` | poseidon/src/lib.rs:258-263 | absorbs element by element and forgets buffered limbs; an empty list leaves the sponge alone |
| `Sponges.FqSponge.Squeeze` | poseidon/src/lib.rs:265-282 | terminates, and takes the requested limbs off the front of the buffered stream |
| `Sponges.SqueezeLimbsValid` | poseidon/src/lib.rs:265-282 | exactly as many limbs as requested |
| `Sponges.LimbsAreLowLimbs` | poseidon/src/lib.rs:265-282 | limbs given out and kept are the buffered ones followed by the two low limbs of each squeeze needed, and no more is squeezed than needed |
| `Sponges.ChallengeLimb` | poseidon/src/lib.rs:265-282 | limb k after an absorb is low limb k % 2 of lane k / 2 % 2 after k / 4 + 1 permutations |
| `Sponges.LimbsAreOneStream` | poseidon/src/lib.rs:265-282 | asking for a limbs and then b gives the output, buffer and state of asking for a + b |
| `MerkleCache.IndexRoundTrip` | crates/ledger/src/address/raw.rs:407-418 | the address of an index leads back to it |
| `MerkleCache.LinearInjective` | crates/ledger/src/address/raw.rs:169-173 | addresses of any lengths have distinct linear indexes |
| `MerkleCache.LevelOrder` | crates/ledger/src/address/raw.rs:169-173 | nodes are numbered level by level from the root at 0 |
| `MerkleCache.EmptySubtreeHash` | crates/ledger/src/tree_version.rs:34-38 | the folded empty hash is the hash of a complete subtree without accounts |
| `MerkleCache.OffPathUnchanged` | crates/ledger/src/tree_version.rs:25-28 | changing a leaf changes no node off the path to it |
| `MerkleCache.InvalidationKeepsCoherence` | crates/ledger/src/tree.rs:95-106 | after invalidating a path the cache is right for the tree with that leaf replaced by anything |
| `MerkleCache.RunsStayCoherent` | crates/ledger/src/tree.rs:54-128 | through any run of sets of true hashes, removals, transfers, clears and invalidated leaf changes the cache agrees with the current tree |
| `MerkleCache.HashesMatrix.Set` | crates/ledger/src/tree.rs:59-64 | fills a free slot and keeps the entry count |
| `MerkleCache.HashesMatrix.Remove` | crates/ledger/src/tree.rs:74-84 | empties the slot and keeps the entry count, whether or not it was filled |
| `MerkleCache.HashesMatrix.TransferHashes` | crates/ledger/src/tree.rs:86-93 | takes over every entry of the other cache and keeps the entry count |
| `MerkleCache.HashesMatrix.InvalidateHashes` | crates/ledger/src/tree.rs:95-106 | the loop empties exactly the slots of the addresses on the path, root included |
| `MerkleCache.PathIndexesExact` | crates/ledger/src/tree.rs:95-106 | a slot is on the path exactly when its address is a prefix of the leaf's |
| `MerkleCache.HashesMatrix.EmptyHashAtHeight` | crates/ledger/src/tree.rs:108-118 | the memo answers with the folded empty hash of that height |
| `MerkleCache.HashesMatrix.Clear` | crates/ledger/src/tree.rs:120-128 | empties the cache and its count |
| `LedgerHash.PastLastIsEmpty` | crates/ledger/src/address/raw.rs:447-456 | a subtree that does not come before the last account is empty |
| `LedgerHash.Ledger.Set` | crates/ledger/src/database/database_impl.rs:536-579 | storing an account keeps the cache in agreement with the accounts and the last location past all of them, and filled if it was |
| `LedgerHash.FilledIsLast` | crates/ledger/src/database/database_impl.rs:569-577 | a filled last location is that of the last account |
| `LedgerHash.Ledger.RemoveAt` | crates/ledger/src/database/database_impl.rs:634-666 | removing one account keeps the cache in agreement, and the last location filled exactly unless the last account goes and the location before it is empty |
| `LedgerHash.LastLocationCanBeEmpty` | crates/ledger/src/database/database_impl.rs:657-666 | two accounts with a gap and a removal after which the last location holds no account |
| `LedgerHash.Ledger.RemoveAccounts` | crates/ledger/src/database/database_impl.rs:626-668 | removing accounts, in whatever order, does too |
| `LedgerHash.Ledger.GetAccountHash` | crates/ledger/src/database/database_impl.rs:505-518 | answers with the true leaf hash, from the cache or computed and stored, and with nothing only for an account that is not there |
| `LedgerHash.Ledger.EmulateTreeRecursive` | crates/ledger/src/database/database_impl.rs:132-165 | the lazily computed, cached hash is the hash of the node, and the cache stays coherent |
| `LedgerHash.Ledger.EmulateTreeToGetHashAt` | crates/ledger/src/database/database_impl.rs:120-130 | any inner hash or root asked for is the true one, whatever the cache holds |
| `LedgerHash.PathFolds` | crates/ledger/src/account/account.rs:1813-1827 | folding the sibling hashes from a leaf upwards gives the root hash |
| `LedgerHash.Ledger.EmulateTreeToGetPath` | crates/ledger/src/database/database_impl.rs:166-225 | the recursion appends exactly the sibling hashes on the way, lowest first, returns the true hash, and the cache stays coherent |
| `LedgerHash.Ledger.MerklePath` | crates/ledger/src/database/database_impl.rs:608-622 | one step per bit of the address, on its side, and folding them over the true hash there gives the true root, whatever the cache holds |
| `LedgerHash.TakeSteps` | crates/ledger/src/database/database_impl.rs:120-225 | however stores, removals and queries for hashes and paths interleave, the cached ledger answers like one that computes every hash from its accounts |

## Left out

- `handle_transition_frontier_diff` (re-adding locally generated commands, committing to best-tip changes): after it no size bound holds, because re-added commands are not followed by an eviction.
- `prevalidate`, `convert_diff_to_verifiable`, proof verification, command hashing and account permissions: calls into code outside the modelled files; the hash, fee rate and permission bits are fields of the model.
- Apply: leaves out rebroadcast, the tables of locally generated commands and the logging.
- OnNewBestTip: leaves out the tables of locally generated commands and the logging; an account's liquid balance at the slot is its `balance`.
- Error payloads: error variants are modelled without the values they carry.
- Iteration order of hash maps and hash sets: an arbitrary choice of the next key, so every statement holds for any order.
- The weight behind a fee rate: the rate is a field of the command, a real number, compared exactly.
- `append_*` of the hash inputs: they push one item; the packers take the item list.
- `HashesMatrix.take` and use of the matrix after it: it leaves the count and the memo out of step with the emptied matrix.
- `create_account`, account identifiers and token owners: accounts are stored and removed by address.
- The Poseidon permutation and the Pasta field: an uninterpreted permutation and addition with a zero.
- Peers in `PeerSync`: one peer and one cursor; network, time-outs and the other channels are not modelled.
- Wire codecs, reducers and effects, key storage, command line, web front end: input and output around the modelled logic.
- AddFromBacktrack: assumes that the reserved currency fits 64 bits, where the source unwraps a checked addition; its index changes are written as a log and replayed, where the source makes them one by one.
- DecrementHashed: requires that every use is still outstanding, where the source reports a bug and carries on; `Dec` says what happens to a single unmatched decrement.
