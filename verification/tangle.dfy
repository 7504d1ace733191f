/** The tangle as the tip-selection engine sees it: storage cells addressed
    by pointers, the approver index, and the parsed bundles. */
module Tangle {
  import opened Common

  /** Bytes of a transaction hash. The receive packet is the transaction
      (1604 bytes) followed by one hash, 1650 bytes in all. */
  const HASH_SIZE: nat := 46

  type Hash = h: seq<Byte> | |h| == HASH_SIZE witness NullHash()

  function NullHash(): seq<Byte> { seq(HASH_SIZE, _ => 0) }

  /** A logical storage pointer (a Java `long`). */
  type Ptr = int
  type Address = Hash
  type BundleKey = seq<Byte>

  /** One storage cell. `timestamp` is the transaction's self-declared
      timestamp as the trit decoder returns it, before any narrowing cast;
      `milestoneIndex` is the index decoded from the tag. */
  datatype Tx = Tx(
    prefilled: bool,
    hash: Hash,
    address: Address,
    value: int,
    trunk: Ptr,
    branch: Ptr,
    currentIndex: int,
    bundle: BundleKey,
    arrivalTime: int,
    timestamp: int,
    milestoneIndex: int)

  type Store = map<Ptr, Tx>

  /** One reconstructed bundle: its transactions' pointers, tail first. The
      bundle parser always starts a list at a tail, so a list is never empty. */
  type Group = g: seq<Ptr> | |g| > 0 witness [0]

  /** Ledger balances by address. */
  type State = map<Address, int>

  /** A percentage in [0, 100]. */
  type Percent = x: int | 0 <= x <= 100

  /** Everything one selection call reads.
      - `approvers`: a pointer is a key iff the approver index has an entry
        for its hash; the value lists the approving transactions.
      - `bundles`: what parsing the bundle with that key yields; an absent
        key parses to no lists.
      - `coordinatorTxs`: the pointers stored under the coordinator address.
      - `milestoneHash`/`milestonePtr`: the latest solid milestone and its cell.
      - `base`: the pointer of the first cell. */
  datatype Env = Env(
    store: Store,
    approvers: map<Ptr, seq<Ptr>>,
    bundles: map<BundleKey, seq<Group>>,
    coordinatorTxs: seq<Ptr>,
    initialState: State,
    milestoneHash: Hash,
    milestonePtr: Ptr,
    solidIndex: int,
    base: int,
    ratingThreshold: Percent)

  /** A cell never written holds zeros; it reads as a placeholder slot. */
  function Placeholder(): Tx {
    Tx(true, NullHash(), NullHash(), 0, 0, 0, 0, [], 0, 0, 0)
  }

  function Load(store: Store, p: Ptr): (tx: Tx)
    ensures p !in store ==> tx.prefilled
  {
    if p in store then store[p] else Placeholder()
  }

  /** No summary exists for the pointer: never stored, or a placeholder for a
      referenced transaction that has not arrived. */
  predicate Missing(store: Store, p: Ptr) {
    Load(store, p).prefilled
  }

  predicate IsTail(store: Store, p: Ptr) {
    Load(store, p).currentIndex == 0
  }

  function GroupsOf(env: Env, key: BundleKey): seq<Group> {
    if key in env.bundles then env.bundles[key] else []
  }

  /** The first list of the bundle whose first transaction is `tail`. */
  function FindGroup(groups: seq<Group>, tail: Ptr): (r: Option<Group>)
    ensures r.Some? ==> r.value in groups && r.value[0] == tail
    ensures r.None? <==> forall i :: 0 <= i < |groups| ==> groups[i][0] != tail
    ensures r.Some? ==> exists i :: && 0 <= i < |groups| && groups[i] == r.value
                                    && forall k :: 0 <= k < i ==> groups[k][0] != tail
  {
    if |groups| == 0 then None
    else if groups[0][0] == tail then Some(groups[0])
    else FindGroup(groups[1..], tail)
  }

  /** The bundle list starting at the tail stored at `p`, if any. */
  function TailGroup(env: Env, p: Ptr): Option<Group> {
    FindGroup(GroupsOf(env, Load(env.store, p).bundle), p)
  }

  /** Arrival time, falling back to the declared timestamp, which is first
      narrowed by an `(int)` cast, when no arrival was recorded. */
  function ArrivalOf(tx: Tx): (t: int)
    ensures tx.arrivalTime != 0 ==> t == tx.arrivalTime
    ensures tx.arrivalTime == 0 ==> INT_MIN <= t <= INT_MAX && (t - tx.timestamp) % 0x1_0000_0000 == 0
  {
    if tx.arrivalTime == 0 then ToInt32(tx.timestamp) else tx.arrivalTime
  }
}
