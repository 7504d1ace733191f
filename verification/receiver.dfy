/** One pass of the gossip node's receiver loop, and one pass of its
    broadcaster loop. A full-length packet from a known neighbour is
    counted; when its timestamp clears the floor, a transaction not stored
    before is stored and queued for broadcast, and the packet's request is
    answered. A packet from an unknown sender makes the sender a
    neighbour. */
module Receiver {
  import opened Common
  import opened Tangle
  import opened Broadcast
  import opened Neighbors

  /** A transaction (1604 bytes) followed by a requested hash. */
  const TRANSACTION_PACKET_SIZE: nat := 1650

  // ---------------------------------------------------------------------
  // The reply schedule for tip requests

  datatype Reply = LatestMilestone | MilestoneSibling | RandomTip | NoReply

  /** What a tip request is answered with, by the value of the counter. */
  function Scheduled(counter: int): Reply {
    if counter % 60 == 0 then LatestMilestone
    else if counter % 48 == 0 then MilestoneSibling
    else if counter % 24 == 0 then RandomTip
    else NoReply
  }

  /** The schedule repeats every 240 requests (the least common multiple
      of 60, 48 and 24), and some reply is chosen exactly on the multiples
      of 24 and of 60. */
  lemma ScheduleFacts(counter: int)
    ensures Scheduled(counter + 240) == Scheduled(counter)
    ensures Scheduled(counter) != NoReply <==> counter % 24 == 0 || counter % 60 == 0
  {
    assert (counter + 240) % 60 == counter % 60;
    assert (counter + 240) % 48 == counter % 48;
    assert (counter + 240) % 24 == counter % 24;
    if counter % 48 == 0 {
      assert counter % 24 == 0 by {
        assert counter == 48 * (counter / 48);
        assert counter == 24 * (2 * (counter / 48));
      }
    }
  }

  // ---------------------------------------------------------------------
  // The receive step

  /** What a receive step reads besides the node and the packet.
      - `threshold`: `TIMESTAMP_THRESHOLD`.
      - `latestIndex`, `solidIndex`: the latest and the latest solid
        milestone indices; `latestMilestone`: the latest milestone's hash.
      - `pointers`: `transactionPointer` by lookup key; a key that is not
        present gives 0.
      - `lists`: the bundle lists parsed from the bundle of the
        transaction at a pointer.
      - `tipKeys`: the lookup key made from each stored tip: the bytes of
        the tip hash's printed form.
      - `tipChoice`: what `nextInt(tips.length)` returns.
      - `stored`: what `storeTransaction` returns for the packet's
        transaction, 0 when it was stored before.
      - `base`: `CELLS_OFFSET - SUPER_GROUPS_OFFSET`.
      - `rebuild`: the address an unknown sender is added under, made by
        printing the packet's socket address after "udp:/", parsing that
        as a URI and building a socket address from its host and port;
        None when one of these throws, which the receive loop swallows. */
  datatype World = World(
    threshold: int,
    latestIndex: int,
    solidIndex: int,
    latestMilestone: Hash,
    pointers: map<seq<Byte>, Ptr>,
    lists: map<Ptr, seq<seq<Ptr>>>,
    tipKeys: seq<seq<Byte>>,
    tipChoice: int,
    stored: Ptr,
    base: int,
    rebuild: Endpoint -> Option<Endpoint>)

  /** A received datagram. When it has the full length: `valid` is false
      when building the transaction from it throws; `tx` is what the queue
      orders it by; `timestamp` is the decoded timestamp before the `(int)`
      cast; `requested` is the hash after the transaction. */
  datatype Packet = Packet(
    length: int,
    from: Endpoint,
    valid: bool,
    tx: Queued,
    timestamp: int,
    requested: Hash)

  /** The node's state that the loops change. `summaries` holds the
      pointers given a transaction summary. */
  datatype Peer = Peer(
    neighbors: seq<Neighbor>,
    queue: seq<Queued>,
    counter: int,
    summaries: set<Ptr>)

  function PointerOf(w: World, key: seq<Byte>): Ptr {
    if key in w.pointers then w.pointers[key] else 0
  }

  /** The second transaction of the last bundle list that has one, or
      `fallback` when none has. */
  function LastSecond(lists: seq<seq<Ptr>>, fallback: Ptr): (p: Ptr)
    ensures p == fallback || exists i :: 0 <= i < |lists| && |lists[i]| > 1 && p == lists[i][1]
    ensures (forall i :: 0 <= i < |lists| ==> |lists[i]| <= 1) ==> p == fallback
    ensures (exists i :: 0 <= i < |lists| && |lists[i]| > 1) ==>
              exists i :: && 0 <= i < |lists| && |lists[i]| > 1 && p == lists[i][1]
                          && forall k :: i < k < |lists| ==> |lists[k]| <= 1
  {
    if |lists| == 0 then fallback
    else
      var last := lists[|lists| - 1];
      if |last| > 1 then last[1]
      else
        var front := lists[..|lists| - 1];
        var p := LastSecond(front, fallback);
        assert forall i :: 0 <= i < |front| ==> front[i] == lists[i];
        assert (exists i :: 0 <= i < |lists| && |lists[i]| > 1) ==> exists i :: 0 <= i < |front| && |front[i]| > 1;
        p
  }

  /** The first known neighbour with the sender's address. */
  function IndexOf(ns: seq<Neighbor>, a: Endpoint): (r: Option<nat>)
    ensures r.None? <==> !Has(ns, a)
    ensures r.Some? ==> r.value < |ns| && ns[r.value].address == a
    ensures r.Some? ==> forall k :: 0 <= k < r.value ==> ns[k].address != a
  {
    if |ns| == 0 then None
    else if ns[0].address == a then Some(0)
    else
      var r := IndexOf(ns[1..], a);
      assert forall i :: 0 < i < |ns| ==> ns[i] == ns[1..][i - 1];
      if r.None? then None else Some(r.value + 1)
  }

  /** A request for tips: the null hash while the node is caught up with
      the milestones. */
  predicate TipRequest(w: World, pkt: Packet) {
    pkt.requested == NullHash() && w.latestIndex > 0 && w.latestIndex == w.solidIndex
  }

  /** Choosing a random tip from an empty list throws. */
  predicate ChoiceThrows(w: World, counter: int) {
    Scheduled(counter) == RandomTip && |w.tipKeys| == 0
  }

  /** The pointer a tip request is answered with, 0 for none. */
  function ScheduledPointer(w: World, counter: int): Ptr
    requires !ChoiceThrows(w, counter)
    requires 0 <= w.tipChoice < |w.tipKeys| || |w.tipKeys| == 0
  {
    match Scheduled(counter)
    case LatestMilestone =>
      if w.latestMilestone == NullHash() then 0 else PointerOf(w, w.latestMilestone)
    case MilestoneSibling =>
      if w.latestMilestone == NullHash() then 0
      else
        var m := PointerOf(w, w.latestMilestone);
        LastSecond(if m in w.lists then w.lists[m] else [], m)
    case RandomTip => PointerOf(w, w.tipKeys[w.tipChoice])
    case NoReply => 0
  }

  /** A pointer is answered only when it is a real cell. */
  predicate Sendable(w: World, p: Ptr) {
    p != 0 && p > w.base
  }

  function Answer(w: World, p: Ptr): (r: Option<Ptr>)
    ensures r.Some? <==> Sendable(w, p)
    ensures r.Some? ==> r.value == p
  {
    if Sendable(w, p) then Some(p) else None
  }

  function Update(ns: seq<Neighbor>, i: nat, n: Neighbor): (r: seq<Neighbor>)
    requires i < |ns| && n.address == ns[i].address
    ensures |r| == |ns| && r[i] == n
    ensures forall j :: 0 <= j < |ns| && j != i ==> r[j] == ns[j]
    ensures forall j :: 0 <= j < |ns| ==> r[j].address == ns[j].address
  {
    ns[i := n]
  }

  /** The transaction passed the floor: store it when new, then answer. */
  function Accept(p: Peer, w: World, pkt: Packet, i: nat, n: Neighbor): (r: (Peer, Option<Ptr>))
    requires i < |p.neighbors| && n.address == p.neighbors[i].address
    requires 0 <= w.tipChoice < |w.tipKeys| || |w.tipKeys| == 0
    ensures |r.0.neighbors| == |p.neighbors|
    ensures forall j :: 0 <= j < |p.neighbors| && j != i ==> r.0.neighbors[j] == p.neighbors[j]
    ensures r.0.neighbors[i] == n.(newTx := n.newTx + (if w.stored != 0 then 1 else 0),
                                   invalid := n.invalid + (if TipRequest(w, pkt) && ChoiceThrows(w, p.counter) then 1 else 0))
  {
    var isNew := w.stored != 0;
    var n := if isNew then n.(newTx := n.newTx + 1) else n;
    var q := if isNew then Enqueue(p.queue, pkt.tx) else p.queue;
    var sums := if isNew then p.summaries + {w.stored} else p.summaries;
    if !TipRequest(w, pkt) then
      (Peer(Update(p.neighbors, i, n), q, p.counter, sums), Answer(w, PointerOf(w, pkt.requested)))
    else if ChoiceThrows(w, p.counter) then
      (Peer(Update(p.neighbors, i, n.(invalid := n.invalid + 1)), q, p.counter, sums), None)
    else
      (Peer(Update(p.neighbors, i, n), q, p.counter + 1, sums), Answer(w, ScheduledPointer(w, p.counter)))
  }

  /** The step passes the timestamp floor and reaches the request. */
  predicate Accepted(p: Peer, w: World, pkt: Packet) {
    && pkt.length == TRANSACTION_PACKET_SIZE && Has(p.neighbors, pkt.from)
    && pkt.valid && ToInt32(pkt.timestamp) > w.threshold
  }

  /** One receive step: the new node state and the pointer whose
      transaction is sent back to the sender, if any.
      - Only a real cell is sent, and only for an accepted transaction; a
        transaction at or below the timestamp floor is not stored, queued
        or answered.
      - The queue and the summaries change only for an accepted transaction
        the store did not have, which is then queued and summarised.
      - The counter advances by one exactly on an accepted tip request whose
        choice does not throw, and the reply then follows the schedule; any
        other accepted request is answered with the requested transaction.
      - A known sender of a full-length packet stays a neighbour. An
        unknown one is added under its rebuilt address, when rebuilding
        does not throw; nothing else joins or leaves. */
  function Receive(p: Peer, w: World, pkt: Packet): (r: (Peer, Option<Ptr>))
    requires 0 <= w.tipChoice < |w.tipKeys| || |w.tipKeys| == 0
    ensures r.1.Some? ==> Sendable(w, r.1.value) && Accepted(p, w, pkt)
    ensures if Accepted(p, w, pkt) && w.stored != 0
            then r.0.queue == Enqueue(p.queue, pkt.tx) && r.0.summaries == p.summaries + {w.stored}
            else r.0.queue == p.queue && r.0.summaries == p.summaries
    ensures r.0.counter == if Accepted(p, w, pkt) && TipRequest(w, pkt) && !ChoiceThrows(w, p.counter)
                           then p.counter + 1 else p.counter
    ensures Accepted(p, w, pkt) && TipRequest(w, pkt) && !ChoiceThrows(w, p.counter) ==>
              r.1 == Answer(w, ScheduledPointer(w, p.counter))
    ensures Accepted(p, w, pkt) && !TipRequest(w, pkt) ==> r.1 == Answer(w, PointerOf(w, pkt.requested))
    ensures Has(p.neighbors, pkt.from) ==> Has(r.0.neighbors, pkt.from)
    ensures pkt.length == TRANSACTION_PACKET_SIZE && !Has(p.neighbors, pkt.from) ==>
              match w.rebuild(pkt.from)
              case None => r.0 == p
              case Some(e) => Has(r.0.neighbors, e) && forall b :: b != e ==> (Has(r.0.neighbors, b) <==> Has(p.neighbors, b))
    ensures pkt.length != TRANSACTION_PACKET_SIZE || Has(p.neighbors, pkt.from) ==>
              forall b :: Has(r.0.neighbors, b) <==> Has(p.neighbors, b)
    ensures pkt.length != TRANSACTION_PACKET_SIZE ==> r.0 == p
  {
    if pkt.length != TRANSACTION_PACKET_SIZE then (p, None)
    else match IndexOf(p.neighbors, pkt.from)
      case None =>
        if w.rebuild(pkt.from).None? then (p, None)
        else (p.(neighbors := AddNeighbor(p.neighbors, w.rebuild(pkt.from).value).1), None)
      case Some(i) =>
        var n := p.neighbors[i].(all := p.neighbors[i].all + 1);
        if !pkt.valid then
          (p.(neighbors := Update(p.neighbors, i, n.(invalid := n.invalid + 1))), None)
        else if ToInt32(pkt.timestamp) <= w.threshold then
          (p.(neighbors := Update(p.neighbors, i, n)), None)
        else
          var r := Accept(p, w, pkt, i, n);
          assert r.0.neighbors[i].address == pkt.from;
          r
  }

  /** What a receive step does to the neighbour records. A known
      sender's record (the first with its address) counts the packet,
      counts it as new when it is accepted and stored, and as invalid when
      it does not parse or its tip choice throws; its last-check count and
      every other record stay as they were. An unknown sender leaves the
      records as they were, with at most fresh ones after them. */
  lemma ReceiveCounts(p: Peer, w: World, pkt: Packet)
    requires 0 <= w.tipChoice < |w.tipKeys| || |w.tipKeys| == 0
    ensures var ns := Receive(p, w, pkt).0.neighbors;
      && |p.neighbors| <= |ns|
      && (!Has(p.neighbors, pkt.from) ==>
            && ns[..|p.neighbors|] == p.neighbors
            && forall j :: |p.neighbors| <= j < |ns| ==> ns[j] == Fresh(ns[j].address))
    ensures pkt.length == TRANSACTION_PACKET_SIZE && Has(p.neighbors, pkt.from) ==>
              var ns := Receive(p, w, pkt).0.neighbors;
              var i := IndexOf(p.neighbors, pkt.from).value;
              && |ns| == |p.neighbors|
              && (forall j :: 0 <= j < |p.neighbors| && j != i ==> ns[j] == p.neighbors[j])
              && ns[i].address == p.neighbors[i].address && ns[i].lastCheck == p.neighbors[i].lastCheck
              && ns[i].all == p.neighbors[i].all + 1
              && ns[i].newTx == p.neighbors[i].newTx + (if Accepted(p, w, pkt) && w.stored != 0 then 1 else 0)
              && ns[i].invalid == p.neighbors[i].invalid +
                   (if !pkt.valid || (Accepted(p, w, pkt) && TipRequest(w, pkt) && ChoiceThrows(w, p.counter)) then 1 else 0)
  {
  }

  /** What the node keeps true between steps: neighbours have distinct
      addresses, the queue is sorted, within its bound, and holds counted
      entries, and the counter (which starts at 1) is positive. */
  predicate Good(p: Peer) {
    && UniqueAddresses(p.neighbors)
    && Sorted(p.queue) && AllCounted(p.queue) && |p.queue| <= QUEUE_SIZE
    && p.counter > 0
  }

  /** The receive step keeps the node good. */
  lemma ReceiveKeepsGood(p: Peer, w: World, pkt: Packet)
    requires 0 <= w.tipChoice < |w.tipKeys| || |w.tipKeys| == 0
    requires Good(p) && Counted(pkt.tx)
    ensures Good(Receive(p, w, pkt).0)
  {
    var p' := Receive(p, w, pkt).0;
    EnqueueFacts(p.queue, pkt.tx);
    var q := Enqueue(p.queue, pkt.tx);
    assert AllCounted(q) by {
      InsertFacts(p.queue, pkt.tx);
      forall k | 0 <= k < |q| ensures Counted(q[k]) {
        assert q[k] in Elems(q);
        if q[k] != pkt.tx {
          var j :| 0 <= j < |p.queue| && p.queue[j] == q[k];
        }
      }
    }
    if pkt.length == TRANSACTION_PACKET_SIZE && Has(p.neighbors, pkt.from) {
      var i := IndexOf(p.neighbors, pkt.from).value;
      forall a, b | 0 <= a < b < |p'.neighbors| ensures p'.neighbors[a].address != p'.neighbors[b].address {
        assert p'.neighbors[a].address == p.neighbors[a].address;
        assert p'.neighbors[b].address == p.neighbors[b].address;
      }
    }
  }

  /** A neighbour whose last-check count is not ahead of its count, as
      every sweep leaves it, survives the next sweep once it has sent a
      full-length packet: its count has moved past the last check. */
  lemma SenderSurvivesSweep(p: Peer, w: World, pkt: Packet)
    requires 0 <= w.tipChoice < |w.tipKeys| || |w.tipKeys| == 0
    requires forall j :: 0 <= j < |p.neighbors| ==> p.neighbors[j].lastCheck <= p.neighbors[j].all
    requires pkt.length == TRANSACTION_PACKET_SIZE && Has(p.neighbors, pkt.from)
    ensures Has(Sweep(Receive(p, w, pkt).0.neighbors), pkt.from)
  {
    ReceiveCounts(p, w, pkt);
    var ns := Receive(p, w, pkt).0.neighbors;
    var i := IndexOf(p.neighbors, pkt.from).value;
    assert ns[i].address == pkt.from && !Stalled(ns[i]);
  }

  // ---------------------------------------------------------------------
  // The broadcast step

  /** One broadcaster pass: take the first queued transaction, which is
      then sent to every neighbour. */
  function BroadcastStep(p: Peer): (r: (Peer, Option<Queued>))
    ensures r.0.neighbors == p.neighbors && r.0.counter == p.counter && r.0.summaries == p.summaries
  {
    var (x, rest) := PollFirst(p.queue);
    (p.(queue := rest), x)
  }

  /** The broadcaster keeps the node good and sends the queued transaction
      that precedes every other, which leaves the queue. */
  lemma BroadcastStepFacts(p: Peer)
    requires Good(p)
    ensures Good(BroadcastStep(p).0)
    ensures var (p', x) := BroadcastStep(p);
      && (x.None? <==> |p.queue| == 0)
      && (x.Some? ==> Elems(p'.queue) == Elems(p.queue) - {x.value} &&
                      forall y :: y in p'.queue ==> Precedes(x.value, y))
  {
    PollFirstTakesBest(p.queue);
    if |p.queue| > 0 {
      AllCountedTail(p.queue);
    }
  }
}
