# IRI tip selection and gossip node, modelled in Dafny

This project models two parts of the IOTA reference implementation (IRI).

The first is the tip-selection engine, `TipsManager.transactionToApprove`.
It runs in these steps:

- Confirm everything the latest solid milestone approves, or everything a
  supplied tip approves. This is a breadth-first walk over trunk and branch
  edges that folds every confirmed bundle into a copy of the snapshot
  ledger.
- When a tip is supplied, make `depth` trunk chases back from the
  milestone, keeping the tip from before the last one: the start tip ends
  up `depth - 1` tails back.
- Collect the tails that approve the start tip, moving tails without
  approvers to the end.
- Rate each candidate by the extra transactions it would confirm. A
  candidate is rejected if its walk meets a placeholder, if a bundle
  arrived too early, if the bundles do not cover the extra set exactly
  once, or if the ledger goes negative.
- Draw one of the best-rated tails with odds proportional to the squared
  rating.

The bit addressing of `setAnalyzedTransactionFlag` and the clamp in
`setRATING_THRESHOLD` are modelled with it.

The second part is the pure logic of the UDP gossip node (`Node`):

- the priority order of the broadcast queue and its bound of 1000 entries;
- the broadcaster taking the first entry;
- one pass of the receiver loop: the timestamp floor, storing and queueing
  a new transaction, the reply schedule for tip requests, and the
  condition for sending a reply;
- the stalled-neighbour sweep;
- duplicate-free neighbour insertion and removal;
- the filter that turns the configured neighbour string into udp
  neighbours.

Modules, one per concept:

| file | module | what it holds |
|---|---|---|
| common.dfy | `Common` | `Option`, Java `byte`/`int` ranges and the `(int)` cast, `Distinct`, `Filter` |
| tangle.dfy | `Tangle` | transactions, the store, bundle lists, arrival times |
| ledger.dfy | `Ledger` | folding transaction values into balances |
| traversal.dfy | `Traversal` | the breadth-first walk with a visited set, and the reachable set it computes |
| trunkchain.dfy | `TrunkChain` | the `depth` walk back along the trunk chain |
| rating.dfy | `Rating` | the bundle check and the rating of one candidate |
| lottery.dfy | `Lottery` | the rating map, the threshold filter and the weighted draw |
| flags.dfy | `AnalyzedFlags` | the analysed-transaction bitset |
| tips.dfy | `TipsManager` | the selection call itself |
| broadcast.dfy | `Broadcast` | the queue comparator, the bounded queue, `pollFirst` |
| neighbors.dfy | `Neighbors` | neighbours, add/remove, the stalled sweep, the configuration filter |
| receiver.dfy | `Receiver` | the receiver and broadcaster loop bodies |

Inputs the code reads from elsewhere are parameters of the model:

- Storage is a map from pointers to transactions. A pointer that is not in
  the map loads as a zero-filled placeholder.
- Bundle parsing is a map from bundle keys to bundle lists.
- The approver index is a map from pointers to approving pointers.
- Trit decoding has already happened: transactions carry their decoded
  timestamp and milestone index.
- The random draws are the `hit` and `tipChoice` parameters.
- Storing a received transaction is the `stored` pointer that storage
  returns.

## Model

| member | source | states |
|---|---|---|
| TipsManager.SetRatingThreshold | src/main/java/com/iota/iri/service/TipsManager.java:62-66 | the stored threshold is a percentage in [0, 100] no farther from the requested value than any other percentage; an in-range value is kept as is |
| Tangle.ArrivalOf | src/main/java/com/iota/iri/service/TipsManager.java:155-159 | a recorded arrival time is used as is; a zero one falls back to the declared timestamp narrowed to a Java `int` |
| TipsManager.EarliestArrival | src/main/java/com/iota/iri/service/TipsManager.java:146-165 | the critical time is at most the arrival time of every coordinator tail whose milestone index is recent enough, and is one of those times or `Long.MAX_VALUE` when none is |
| Traversal.Walk | src/main/java/com/iota/iri/service/TipsManager.java:174-244 | the walk visits each pointer at most once and never a blocked one; it visits only reachable pointers; it stops exactly at the first offender it visits; a walk that does not stop visits the least set closed under the edges |
| Traversal.HaltsIffReachableOffender | src/main/java/com/iota/iri/service/TipsManager.java:177-225 | a walk stops exactly when the reachable set holds an offender, and otherwise its visit order enumerates the reachable set |
| TipsManager.Confirm | src/main/java/com/iota/iri/service/TipsManager.java:167-250 | the call gives up exactly when the reachable set from the start holds a placeholder or a tail that heads no bundle list; otherwise every reachable pointer is confirmed once, and the ledger is the snapshot plus the values of the confirmed bundles, with new entries only for addresses that received a non-zero value |
| Tangle.FindGroup | src/main/java/com/iota/iri/service/TipsManager.java:201-220 | the bundle list found starts at the tail and belongs to the bundle, and no earlier list starts at the tail, as the loop breaks at the first match; none is found exactly when no list starts at the tail |
| Ledger.Accumulate | src/main/java/com/iota/iri/service/TipsManager.java:207-216 | the balances gain keys only for addresses with a non-zero value, and every balance ends as its seeded value plus the values moved to that address |
| Ledger.UntouchedKeepSeed | src/main/java/com/iota/iri/service/TipsManager.java:207-216 | an address that no non-zero value reaches keeps its seeded balance, and gains no entry if it had none |
| Ledger.AccumulateOrderFree | src/main/java/com/iota/iri/service/TipsManager.java:444-456 | the balances do not depend on the order in which the transactions are folded in, so the hash set's iteration order does not matter |
| TrunkChain.NextTail | src/main/java/com/iota/iri/service/TipsManager.java:287-292 | the inner loop stops at the first tail strictly below the pointer on its trunk chain; when it never stops, no pointer on that chain is a tail |
| TrunkChain.WalkBack | src/main/java/com/iota/iri/service/TipsManager.java:278-294 | the start tip is the milestone, the pointer reached, or a tail; a non-positive depth or a start at the first cell leaves the milestone |
| TrunkChain.WalkBackNone | src/main/java/com/iota/iri/service/TipsManager.java:284-293 | the walk gives no tip exactly when, before any earlier tip was the first cell, one of its at most `depth` trunk chases never reaches a tail |
| TrunkChain.WalkBackStopsOneShort | src/main/java/com/iota/iri/service/TipsManager.java:284-293 | because `tip` is assigned before the trunk chase, `depth` iterations end on the tail `depth - 1` steps back, not `depth` |
| TipsManager.MoveLeavesLast | src/main/java/com/iota/iri/service/TipsManager.java:328-329 | after `removeAll`/`addAll`, no tail with approvers follows a tail without them |
| TipsManager.MoveLeavesLastPermutes | src/main/java/com/iota/iri/service/TipsManager.java:328-329 | the reordering is a permutation of the tails found |
| TipsManager.DiscoverTails | src/main/java/com/iota/iri/service/TipsManager.java:296-329 | the candidates are duplicate-free and are exactly the tails reachable from the start tip over approver edges, with the tails that have no approvers last |
| TipsManager.DropCovered | src/main/java/com/iota/iri/service/TipsManager.java:331-347 | with a supplied tip, the candidates kept are exactly those the confirmation walk did not visit, still duplicate-free |
| AnalyzedFlags.SetFlag | src/main/java/com/iota/iri/service/TipsManager.java:527-538 | the array access fails exactly when the byte index is outside the array; otherwise the result is true exactly when the pointer's bit was clear, the bit is set afterwards, and every other byte is unchanged |
| AnalyzedFlags.SetFlagKeepsOtherBits | src/main/java/com/iota/iri/service/TipsManager.java:531-533 | within the pointer's byte, every other bit keeps its value |
| AnalyzedFlags.SecondVisitReportsFalse | src/main/java/com/iota/iri/service/TipsManager.java:527-538 | setting the same pointer again returns false and changes nothing |
| AnalyzedFlags.SetFlagInsertsSlot | src/main/java/com/iota/iri/service/TipsManager.java:527-538 | after a set, the marked pointers are the ones marked before plus exactly those sharing the set pointer's slot |
| AnalyzedFlags.CellSlotsAreDistinct | src/main/java/com/iota/iri/service/TipsManager.java:529-533 | distinct cell pointers within the array's reach get distinct bits, so on cells the bitset is a set of pointers |
| Rating.RemoveMembers | src/main/java/com/iota/iri/service/TipsManager.java:415-430 | one bundle list passes exactly when every member arrived no earlier than the critical time, no member repeats, and every member is still in the copy; the copy then loses exactly those members |
| Rating.CheckBundles | src/main/java/com/iota/iri/service/TipsManager.java:396-440 | over all extra transactions, the bundle check passes exactly when the members of all the tails' bundles are fresh, pairwise distinct, and inside the extra set |
| Rating.Rate | src/main/java/com/iota/iri/service/TipsManager.java:396-482 | a candidate is rated exactly when its extra set is non-empty, the bundle members of its tails are fresh, pairwise distinct and make up the extra set exactly, and the ledger with the extra values is nowhere negative; the rating is the size of the extra set |
| Rating.RateOrderFree | src/main/java/com/iota/iri/service/TipsManager.java:396-466 | the rating depends only on the extra set, not on the hash set's iteration order |
| TipsManager.RateCandidate | src/main/java/com/iota/iri/service/TipsManager.java:366-482 | a candidate gets a positive rating exactly when the walk below the confirmed set reaches no placeholder and the extra set it collects passes `Rate`; otherwise it gets none |
| TipsManager.RateAll | src/main/java/com/iota/iri/service/TipsManager.java:357-485 | the loop over the candidates, last first, gives every candidate its rating and leaves the rating map and `bestRating` as their tally |
| TipsManager.TallyBest | src/main/java/com/iota/iri/service/TipsManager.java:475-481 | `bestRating` is zero exactly when the map is empty, and otherwise is a rating some candidate received |
| TipsManager.TallyCovers | src/main/java/com/iota/iri/service/TipsManager.java:475-481 | every rated candidate's hash is a key of the map, and no rating exceeds `bestRating` |
| TipsManager.TallyKeys | src/main/java/com/iota/iri/service/TipsManager.java:475-477 | the map's keys are unique, and each holds the rating of a candidate with that hash |
| TipsManager.TallyExact | src/main/java/com/iota/iri/service/TipsManager.java:475-477 | with distinct candidate hashes, the map holds each rated candidate's own rating and nothing for an unrated one |
| Lottery.Put | src/main/java/com/iota/iri/service/TipsManager.java:475-477 | `put` stores the value under its key and leaves every other key's value alone |
| Lottery.Threshold | src/main/java/com/iota/iri/service/TipsManager.java:498 | `bestRating * RATING_THRESHOLD / 100` is the floor of the product's hundredth whenever the product fits in an `int` |
| Lottery.BestClearsThreshold | src/main/java/com/iota/iri/service/TipsManager.java:498 | the best rating always clears the threshold, because the percentage is at most 100 |
| Lottery.Eligible | src/main/java/com/iota/iri/service/TipsManager.java:494-503 | the filtered map holds exactly the entries whose rating reaches the threshold |
| Lottery.Draw | src/main/java/com/iota/iri/service/TipsManager.java:505-513 | the subtraction loop returns entry `k` when the draw lies below the prefix sum through `k` and at or above every earlier prefix sum; it returns nothing exactly when the draw is at least the total |
| Lottery.DrawPicksSlice | src/main/java/com/iota/iri/service/TipsManager.java:505-513 | a non-negative draw picks entry `k` exactly when it lies in `k`'s slice of the prefix sums |
| Lottery.DrawAlwaysWins | src/main/java/com/iota/iri/service/TipsManager.java:504-519 | a draw in [0, total) always returns an entry, so the exception at the end is unreachable |
| Lottery.DrawOdds | src/main/java/com/iota/iri/service/TipsManager.java:505-513 | among the draws in [0, total), exactly the square of entry `k`'s rating pick entry `k` |
| TipsManager.Pick | src/main/java/com/iota/iri/service/TipsManager.java:488-519 | the milestone is returned exactly when the total is zero; otherwise a drawn hash is an entry picked by the draw; the exception is thrown exactly when the draw is at least a positive total |
| TipsManager.TransactionToApprove | src/main/java/com/iota/iri/service/TipsManager.java:138-525 | the call returns null exactly when the confirmation walk gives up; otherwise the result is the draw over the eligible ratings of the candidates, each rated as `RateCandidate` says, or the call diverges exactly when the depth walk does |
| TipsManager.Select | src/main/java/com/iota/iri/service/TipsManager.java:275-519 | after a successful confirmation walk, the call never returns null and its result is the draw described above |
| TipsManager.DrawnTailQualifies | src/main/java/com/iota/iri/service/TipsManager.java:494-513 | a returned hash belongs to a rated candidate whose rating is the one the map holds and clears the threshold |
| TipsManager.MilestoneIffNothingRated | src/main/java/com/iota/iri/service/TipsManager.java:488-519 | with distinct candidate hashes, the milestone is returned exactly when no candidate was rated, with or without a supplied tip, and a draw in [0, total) always returns a tail |
| TipsManager.EmptyIffNothingRated | src/main/java/com/iota/iri/service/TipsManager.java:488-504 | with distinct candidate hashes, the squared ratings that clear the threshold sum to zero exactly when no candidate was rated |
| Broadcast.HashDiffMeans | src/main/java/com/iota/iri/service/Node.java:377-383 | the byte loop returns zero exactly for equal hashes, and a negative value exactly when the first differing signed byte of the first hash is larger |
| Broadcast.CompareMeans | src/main/java/com/iota/iri/service/Node.java:375-387 | the comparator returns zero exactly for equal entries, and puts `a` first exactly when it is heavier or, at equal weight, has the larger hash at the first differing byte |
| Broadcast.BeforeIsStrictTotal | src/main/java/com/iota/iri/service/Node.java:375-387 | the intended order (heavier first, then larger hash first) is irreflexive, asymmetric, transitive and total |
| Broadcast.PrecedesIsStrictTotal | src/main/java/com/iota/iri/service/Node.java:375-387 | the order the comparator induces is a strict total order |
| Broadcast.InsertFacts | src/main/java/com/iota/iri/service/Node.java:390 | the skip-list `add` keeps the queue sorted, adds the entry exactly when no equal entry is present, and changes nothing else |
| Broadcast.EnqueueFacts | src/main/java/com/iota/iri/service/Node.java:389-394 | `broadcast` keeps the queue sorted and within 1000 entries; below the bound the entry is added; at the bound exactly one entry of the enlarged queue leaves, the one every remaining entry precedes |
| Broadcast.PollFirstTakesBest | src/main/java/com/iota/iri/service/Node.java:324 | `pollFirst` returns nothing exactly on an empty queue; otherwise it removes the entry that precedes every remaining one, and nothing else |
| Receiver.ScheduleFacts | src/main/java/com/iota/iri/service/Node.java:245-273 | the reply schedule repeats every 240 requests, and a reply is chosen exactly on the multiples of 24 and of 60 |
| Receiver.LastSecond | src/main/java/com/iota/iri/service/Node.java:255-265 | when some bundle list has a second transaction, the milestone sibling is the second transaction of such a list after which no list has one (the loop keeps overwriting); it stays the milestone when no list has one |
| Receiver.IndexOf | src/main/java/com/iota/iri/service/Node.java:213-214 | the neighbour matched has the sender's address and no earlier neighbour has it, as the loop breaks at the first match; there is none exactly when no neighbour has the address |
| Receiver.Receive | src/main/java/com/iota/iri/service/Node.java:205-307 | a reply goes out only for a real cell and only for a full-length packet from a neighbour whose transaction is valid and above the timestamp floor; such a transaction is queued and summarised exactly when storage did not have it; the counter advances exactly on a tip request that does not throw, and the reply then follows the schedule; any other accepted request is answered with the requested transaction; a known sender stays a neighbour; an unknown sender of a full-length packet is added under its rebuilt address, and when the rebuild throws the node is unchanged; no other address joins or leaves |
| Receiver.ReceiveCounts | src/main/java/com/iota/iri/service/Node.java:211-303 | a known sender's first record counts every full-length packet, counts it as new exactly when it is accepted and stored, and as invalid exactly when it does not parse or its tip choice throws, keeping its last-check count; every other record is unchanged; an unknown sender only appends fresh records |
| Receiver.SenderSurvivesSweep | src/main/java/com/iota/iri/service/Node.java:124-128 | a neighbour whose last-check count is not ahead of its count, as a sweep leaves it, is kept by the next sweep once it has sent a full-length packet |
| Receiver.ReceiveKeepsGood | src/main/java/com/iota/iri/service/Node.java:205-307 | a receive step keeps neighbour addresses unique, the queue sorted and bounded, and the counter positive |
| Receiver.BroadcastStepFacts | src/main/java/com/iota/iri/service/Node.java:321-340 | a broadcaster pass keeps those facts, and sends the queued transaction that precedes every other, which leaves the queue |
| Neighbors.AddNeighbor | src/main/java/com/iota/iri/service/Node.java:415-421 | `addNeighbor` returns true exactly when the address was absent; afterwards it is present, other addresses are unaffected, the list only grows at its end, and unique addresses stay unique |
| Neighbors.RemoveNeighbor | src/main/java/com/iota/iri/service/Node.java:411-413 | `removeNeighbor` returns true exactly when the address was present and removes one entry; other addresses are unaffected, and with unique addresses the address is gone |
| Neighbors.AddThenRemove | src/main/java/com/iota/iri/service/Node.java:411-421 | adding a new address and then removing it restores the list |
| Neighbors.Sweep | src/main/java/com/iota/iri/service/Node.java:124-159 | after a sweep, every neighbour's last-check count equals its count, and the neighbours kept are exactly the ones that were not stalled (a positive count equal to the last-check count) |
| Neighbors.IdleTwiceLeavesSilent | src/main/java/com/iota/iri/service/Node.java:124-129 | after two sweeps with no traffic between them, only neighbours that never received anything remain, and all of them do |
| Neighbors.JoinPieces | src/main/java/com/iota/iri/service/Node.java:86-87 | the pieces between spaces join back to the configured string |
| Neighbors.SplitKeepsWords | src/main/java/com/iota/iri/service/Node.java:86-87 | dropping trailing empty strings, as `split` does, loses no non-empty piece |
| Neighbors.Dedup | src/main/java/com/iota/iri/service/Node.java:88 | `distinct` leaves a duplicate-free list of the same strings |
| Neighbors.Words | src/main/java/com/iota/iri/service/Node.java:86-89 | the configured words are duplicate-free and are exactly the non-empty pieces between spaces |
| Neighbors.Feed | src/main/java/com/iota/iri/service/Node.java:89-102 | the lazy stream keeps the neighbours already present, fails exactly when some word fails, and adds only fresh neighbours from udp words |
| Neighbors.FeedAppends | src/main/java/com/iota/iri/service/Node.java:89-102 | the lazy stream appends exactly the udp neighbours of the words before the first failing word, in word order |
| Neighbors.FeedOk | src/main/java/com/iota/iri/service/Node.java:89-102 | the stream completes exactly when no word fails |
| Neighbors.FeedIsPrefix | src/main/java/com/iota/iri/service/Node.java:89-102 | what a failed stream leaves is a prefix of the list a completed one would leave |
| Neighbors.FeedKeepsUnique | src/main/java/com/iota/iri/service/Node.java:89-102 | the appended list has unique addresses when the udp words' endpoints are new and pairwise distinct; the code checks neither |
| Neighbors.SameEndpointTwice | src/main/java/com/iota/iri/service/Node.java:89-102 | two words naming one udp endpoint leave two neighbours with the same address |
| Neighbors.ConfigureAppends | src/main/java/com/iota/iri/service/Node.java:86-102 | a completed `init` has appended the udp neighbours of the distinct non-empty words, in order, and nothing else |
| Neighbors.ConfigureAddsEvery | src/main/java/com/iota/iri/service/Node.java:86-102 | a completed `init` has a neighbour for every non-empty configured word whose URI has the udp scheme |
| Neighbors.ConfigureAddsUdp | src/main/java/com/iota/iri/service/Node.java:86-102 | every neighbour `init` adds is fresh and comes from a non-empty configured word whose URI parses with the udp scheme and gives that address |
| Neighbors.ConfigureOk | src/main/java/com/iota/iri/service/Node.java:86-102 | `init` keeps the existing neighbours and completes exactly when no non-empty word fails to parse or to make a socket address |

The code and the intended design disagree in one place. With a supplied
tip and no rated candidate, the code does not take the early return at
TipsManager.java:488-492. It still returns the milestone, at line 516,
because the total is zero. `TipsManager.Pick` follows the code: the outcome
is the milestone exactly when the total is zero, whether or not a tip was
supplied.

The confirmation walk does not apply the critical-time cutoff, which is
commented out at TipsManager.java:228-238. It expands every trunk and
branch edge, as the code does.

## Left out

- Sockets, datagrams, threads, sleeps and shutdown flags: the model is one pass of each loop body.
- The milestone-tracker thread (TipsManager.java:97-135) and the summary-loading loop in `init`: they feed the inputs; the store is the summary table.
- DNS resolution, the IP cache and the changed-IP re-adding (Node.java:130-156): these are I/O. The sweep model removes the stalled neighbours found before them.
- The tip-requester thread (Node.java:350-373): it only sends packets.
- Bundle parsing, trit decoding, Curl hashing, `Milestone` and `Snapshot`: these collaborators' source is not part of this model. They are abstract inputs.
- `numberOfConfirmedTransactions`: the count the confirmation walk stores is the length of `confirmed`, which the model returns but does not store.
- Logging, timing and metrics.
- The `bundleTable` cache (TipsManager.java:60, filled at 196-200 and 406-410): `env.bundles` is its content for one call. A cached `Bundle` can be stale against storage; the model does not show that. The eviction at 222-224 when a bundle has no list starting at the tail is not modelled either, as it only affects later calls.
- `java.util.HashMap`/`HashSet` iteration order: the rating map iterates in first-insertion order. The leaves that `MoveLeavesLast` puts at the end come in discovery order, where the code appends its `HashSet<Long>` of leaves in hash-set order. The draw lemmas hold for any order, and the rating and ledger results are proved order-free.
- `long` overflow of balances, of `totalSquaredRating` and of the reply counter: these are unbounded integers here. The code's `int` casts and the threshold product are modelled.
- TipsManager.TransactionToApprove: the walks keep their visited marks as a set of pointers. They assume every pointer walked is a cell within the flag array's reach. `AnalyzedFlags.SetFlag` models the range check, and `AnalyzedFlags.CellSlotsAreDistinct` shows that on such cells the bitset is a set of pointers. A pointer outside the array, such as 0 for a hash storage does not know, would make the code throw `ArrayIndexOutOfBoundsException`. The model does not show that exception.
- TipsManager.MilestoneIffNothingRated: assumes the candidate tails have distinct hashes, as storage keeps one cell per hash. With a repeated hash, a later `put` could overwrite the best rating so that nothing clears the threshold.
- TipsManager.EmptyIffNothingRated: assumes distinct candidate hashes for the same reason. With two tails of one hash rated 1 and then 100, the map keeps 1 against a best rating of 100, so nothing clears the threshold although a candidate was rated.
- Broadcast.CompareMeans: like the other order and queue lemmas (`PrecedesIsStrictTotal`, `InsertFacts`, `EnqueueFacts`), it assumes non-negative weight magnitudes, which count trailing zero trits. With negative weights the comparator's `int` subtraction can wrap; `Compare` models that wrap.
- Neighbors.EndpointOf: an address is its host string and port, compared as written. `InetSocketAddress.equals` compares resolved IP addresses, or unresolved host names without regard to case, so the code takes `localhost:14600` and `127.0.0.1:14600` (or `Host` and `host`) to be one neighbour where the model sees two. Matching a sender, `contains` in `addNeighbor` and the receive step, `remove`, and `UniqueAddresses` all inherit this; name resolution is I/O and not part of this model.
- Neighbors.Sweep: filters the stalled entries out directly. The code calls `neighbors.remove(n)`, which removes the first neighbour equal to `n`. Neighbour equality is taken to be address equality, because `Neighbor` is not part of this model. The two agree only on a list with unique addresses. `AddNeighbor` and the receive step keep addresses unique, but `init` appends without a presence check, so two configured words naming one endpoint leave a duplicate (`SameEndpointTwice`; `FeedKeepsUnique` states when it does not happen). From such a list, `remove(n)` may drop the duplicate that is not stalled. `Receiver.Good` and `Receiver.ReceiveKeepsGood` likewise describe the node only from a duplicate-free list.
- Receiver.Receive: the rebuilding of an unknown sender's address through a `udp:/` URI made from its printed form is the `rebuild` input. Whether it throws, say for an IPv6 literal, depends on `InetSocketAddress.toString` and `URI`, which are not part of this model.
- Receiver.Receive: the random-tip reply looks the tip up by the bytes of its printed hash, as the code does. Those keys are the `tipKeys` input.
- Neighbors.Feed: URI parsing is the `parse` input.
