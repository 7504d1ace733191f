/** `TipsManager.transactionToApprove`: confirm what the reference
    milestone (or the supplied tip) approves, collect the candidate tails
    above the start tip, rate each by the extra transactions it would
    confirm, and draw one of the best with odds weighted by the squared
    rating. */
module TipsManager {
  import opened Common
  import opened Tangle
  import opened Ledger
  import opened Traversal
  import opened TrunkChain
  import opened Rating
  import opened Lottery

  /** The initial value of `RATING_THRESHOLD`. */
  const DEFAULT_RATING_THRESHOLD: Percent := 75

  function Distance(a: int, b: int): nat {
    if a <= b then b - a else a - b
  }

  /** `setRATING_THRESHOLD`: the stored threshold is the percentage nearest
      to the requested value. */
  function SetRatingThreshold(value: int): (r: Percent)
    ensures forall p: Percent :: Distance(r, value) <= Distance(p, value)
    ensures 0 <= value <= 100 ==> r == value
  {
    if value < 0 then 0 else if value > 100 then 100 else value
  }

  // ---------------------------------------------------------------------
  // Critical arrival time

  /** `latestSolidSubtangleMilestoneIndex - depth` in `int` arithmetic. */
  function OldestAcceptable(env: Env, depth: int): int {
    ToInt32(env.solidIndex - depth)
  }

  /** A coordinator transaction that counts: a tail whose tag, read as an
      `int`, names a milestone index no older than the oldest acceptable. */
  predicate Counts(env: Env, oldest: int, p: Ptr) {
    IsTail(env.store, p) && ToInt32(Load(env.store, p).milestoneIndex) >= oldest
  }

  /** The loop over the coordinator's transactions keeping the earliest
      arrival time seen, starting from `acc`. */
  function EarliestArrival(env: Env, oldest: int, ps: seq<Ptr>, acc: int): (t: int)
    ensures t <= acc
    ensures forall i :: 0 <= i < |ps| && Counts(env, oldest, ps[i]) ==> t <= ArrivalOf(Load(env.store, ps[i]))
    ensures t == acc || exists i :: 0 <= i < |ps| && Counts(env, oldest, ps[i]) && t == ArrivalOf(Load(env.store, ps[i]))
  {
    if |ps| == 0 then acc
    else
      var a := ArrivalOf(Load(env.store, ps[0]));
      var next := if Counts(env, oldest, ps[0]) && a < acc then a else acc;
      var t := EarliestArrival(env, oldest, ps[1..], next);
      assert forall i :: 0 < i < |ps| ==> ps[i] == ps[1..][i - 1];
      t
  }

  /** `criticalArrivalTime`: the earliest arrival among the counting
      coordinator transactions, `Long.MAX_VALUE` when none counts. */
  function CriticalArrivalTime(env: Env, depth: int): int {
    EarliestArrival(env, OldestAcceptable(env, depth), env.coordinatorTxs, LONG_MAX)
  }

  // ---------------------------------------------------------------------
  // Confirmation walk

  /** The walk from the milestone, or from the supplied tip when there is one. */
  function ConfirmStart(env: Env, extraTip: Option<Ptr>): Ptr {
    if extraTip.Some? then extraTip.value else env.milestonePtr
  }

  /** Every complete confirmation walk meets a placeholder or a tail with no
      bundle list: the call returns null. */
  ghost predicate ConfirmFails(env: Env, start: Ptr) {
    forall R :: Least(env, Backward, start, {}, R) ==>
      exists p :: p in R && Halts(env, AtMissingOrOrphanTail, p)
  }

  /** `confirmed` is a complete confirmation walk that met no offender. */
  ghost predicate Confirmed(env: Env, start: Ptr, confirmed: seq<Ptr>) {
    && Distinct(confirmed)
    && Least(env, Backward, start, {}, Elems(confirmed))
    && forall i :: 0 <= i < |confirmed| ==> !Halts(env, AtMissingOrOrphanTail, confirmed[i])
  }

  /** The first phase: walk trunk and branch from `start`, giving up at a
      placeholder or at a tail that heads no bundle list, and fold the values
      of every confirmed bundle into the snapshot's balances. */
  method Confirm(env: Env, start: Ptr) returns (ok: bool, confirmed: seq<Ptr>, state: State)
    ensures ok ==> Confirmed(env, start, confirmed)
    ensures !ok <==> ConfirmFails(env, start)
    ensures ok ==> state == Accumulate(env.store, env.initialState, Members(env, confirmed))
    ensures ok ==> state.Keys == env.initialState.Keys + Touched(env.store, Members(env, confirmed))
    ensures ok ==> forall a :: a in state ==>
      state[a] == Balance(env.initialState, a) + SumAt(env.store, Members(env, confirmed), a)
  {
    var order, halted := Walk(env, Backward, start, {}, AtMissingOrOrphanTail);
    forall R | Least(env, Backward, start, {}, R)
      ensures halted <==> exists p :: p in R && Halts(env, AtMissingOrOrphanTail, p)
    {
      HaltsIffReachableOffender(env, Backward, start, {}, AtMissingOrOrphanTail, order, halted, R);
    }
    ok := !halted;
    if halted {
      confirmed, state := [], env.initialState;
    } else {
      confirmed := order;
      state := Accumulate(env.store, env.initialState, Members(env, order));
    }
  }

  // ---------------------------------------------------------------------
  // Candidate tails

  /** No approver index entry for the transaction's hash. */
  predicate IsLeaf(env: Env, p: Ptr) {
    p !in env.approvers
  }

  function Leaf(env: Env): Ptr -> bool { p => IsLeaf(env, p) }
  function Inner(env: Env): Ptr -> bool { p => !IsLeaf(env, p) }
  function TailIn(env: Env): Ptr -> bool { p => IsTail(env.store, p) }
  function Uncovered(covered: set<Ptr>): Ptr -> bool { p => p !in covered }

  /** `removeAll` then `addAll` of the tails without approvers: the others
      keep their order, the leaves follow. */
  function MoveLeavesLast(env: Env, ps: seq<Ptr>): (r: seq<Ptr>)
    ensures forall i, j :: 0 <= i < j < |r| && IsLeaf(env, r[i]) ==> IsLeaf(env, r[j])
  {
    var inner := Filter(ps, Inner(env));
    var leaves := Filter(ps, Leaf(env));
    assert forall i :: |inner| <= i < |inner + leaves| ==> (inner + leaves)[i] == leaves[i - |inner|];
    inner + leaves
  }

  /** Moving the leaves reorders the tails and nothing more. */
  lemma MoveLeavesLastPermutes(env: Env, ps: seq<Ptr>)
    ensures multiset(MoveLeavesLast(env, ps)) == multiset(ps)
  {
    FilterPartition(ps, Inner(env), Leaf(env));
  }

  /** A permutation of a duplicate-free sequence is duplicate-free and has
      the same elements. */
  lemma PermutationFacts(a: seq<Ptr>, b: seq<Ptr>)
    requires Distinct(a) && multiset(a) == multiset(b)
    ensures Distinct(b)
    ensures forall p :: p in a <==> p in b
  {
    DistinctIffSingleCounts(a);
    DistinctIffSingleCounts(b);
    forall p ensures p in a <==> p in b {
      assert p in a <==> p in multiset(a);
      assert p in b <==> p in multiset(b);
    }
  }

  /** The second phase: walk the approvers from the start tip, collect the
      tails met in discovery order, then move those no transaction approves
      to the end. */
  method DiscoverTails(env: Env, tip: Ptr) returns (tails: seq<Ptr>)
    ensures Distinct(tails)
    ensures exists F :: (Least(env, Forward, tip, {}, F) &&
                         forall p :: p in tails <==> p in F && IsTail(env.store, p))
    ensures forall i, j :: 0 <= i < j < |tails| && IsLeaf(env, tails[i]) ==> IsLeaf(env, tails[j])
  {
    var order, _ := Walk(env, Forward, tip, {}, Never);
    var found := Filter(order, TailIn(env));
    FilterKeepsDistinct(order, TailIn(env));
    tails := MoveLeavesLast(env, found);
    MoveLeavesLastPermutes(env, found);
    PermutationFacts(found, tails);
    assert Least(env, Forward, tip, {}, Elems(order));
  }

  /** With a supplied tip, tails the confirmation walk already covered are
      dropped. */
  function DropCovered(ps: seq<Ptr>, covered: set<Ptr>): (r: seq<Ptr>)
    ensures forall p :: p in r <==> p in ps && p !in covered
    ensures Distinct(ps) ==> Distinct(r)
  {
    var r := Filter(ps, Uncovered(covered));
    if Distinct(ps) then FilterKeepsDistinct(ps, Uncovered(covered)); r else r
  }

  // ---------------------------------------------------------------------
  // Rating the candidates

  /** The walk from tail `t` below the covered set reaches no placeholder,
      and the extra transactions it collects rate `n`. */
  ghost predicate RatedAs(env: Env, state: State, crit: int, covered: set<Ptr>, t: Ptr, n: nat) {
    exists extra: seq<Ptr> ::
      && Distinct(extra)
      && Least(env, Backward, t, covered, Elems(extra))
      && (forall i :: 0 <= i < |extra| ==> !Missing(env.store, extra[i]))
      && Rate(env, state, crit, extra) == Some(n)
  }

  ghost predicate Ratable(env: Env, state: State, crit: int, covered: set<Ptr>, t: Ptr) {
    exists n :: RatedAs(env, state, crit, covered, t, n)
  }

  lemma LeastIsUnique(env: Env, dir: Direction, start: Ptr, blocked: set<Ptr>, R1: set<Ptr>, R2: set<Ptr>)
    requires Least(env, dir, start, blocked, R1) && Least(env, dir, start, blocked, R2)
    ensures R1 == R2
  {
  }

  /** One iteration of the rating loop: the walk below the covered set,
      cleared when it meets a placeholder, then `Rate`. */
  method RateCandidate(env: Env, state: State, crit: int, covered: set<Ptr>, t: Ptr) returns (r: Option<nat>)
    ensures r.Some? ==> r.value > 0 && RatedAs(env, state, crit, covered, t, r.value)
    ensures r.None? <==> !Ratable(env, state, crit, covered, t)
  {
    var order, halted := Walk(env, Backward, t, covered, AtMissing);
    if halted {
      r := None;
      forall extra: seq<Ptr> | Distinct(extra) && Least(env, Backward, t, covered, Elems(extra))
        ensures exists i :: 0 <= i < |extra| && Missing(env.store, extra[i])
      {
        HaltsIffReachableOffender(env, Backward, t, covered, AtMissing, order, halted, Elems(extra));
        var p :| p in Elems(extra) && Missing(env.store, p);
        var i :| 0 <= i < |extra| && extra[i] == p;
      }
    } else {
      r := Rate(env, state, crit, order);
      if r.Some? {
        assert forall i :: 0 <= i < |order| ==> !Missing(env.store, order[i]);
        assert RatedAs(env, state, crit, covered, t, r.value);
      } else {
        forall extra: seq<Ptr> | Distinct(extra) && Least(env, Backward, t, covered, Elems(extra))
          ensures Rate(env, state, crit, extra).None?
        {
          LeastIsUnique(env, Backward, t, covered, Elems(order), Elems(extra));
          RateOrderFree(env, state, crit, order, extra);
        }
      }
    }
  }

  /** The hash each tail is rated under. */
  function HashOf(env: Env, t: Ptr): Hash {
    Load(env.store, t).hash
  }

  predicate UniqueHashes(env: Env, ts: seq<Ptr>) {
    forall i, j :: 0 <= i < j < |ts| ==> HashOf(env, ts[i]) != HashOf(env, ts[j])
  }

  /** The rating map and `bestRating` as the loop leaves them. */
  datatype Tally = Tally(ratings: Ratings, best: nat)

  /** One loop iteration's effect: a rated tail is put under its hash and
      raises `bestRating` when it beats it. */
  function Record(env: Env, tally: Tally, t: Ptr, r: Option<nat>): Tally {
    match r
    case None => tally
    case Some(n) => Tally(Put(tally.ratings, HashOf(env, t), n), if n > tally.best then n else tally.best)
  }

  /** The loop over `ts` run from the last element to the first, where
      `rs[j]` is what rating `ts[j]` gave. */
  function TallyOf(env: Env, ts: seq<Ptr>, rs: seq<Option<nat>>): Tally
    requires |ts| == |rs|
  {
    if |ts| == 0 then Tally([], 0) else Record(env, TallyOf(env, ts[1..], rs[1..]), ts[0], rs[0])
  }

  predicate Positive(rs: seq<Option<nat>>) {
    forall j :: 0 <= j < |rs| && rs[j].Some? ==> rs[j].value > 0
  }

  lemma PositiveTail(rs: seq<Option<nat>>)
    requires |rs| > 0 && Positive(rs)
    ensures Positive(rs[1..])
  {
    forall j | 0 <= j < |rs| - 1 && rs[1..][j].Some? ensures rs[1..][j].value > 0 {
      assert rs[1..][j] == rs[j + 1];
    }
  }

  /** The tally's keys are unique, and each is the hash of a tail stored
      with a rating that tail received. */
  lemma {:induction false} TallyKeys(env: Env, ts: seq<Ptr>, rs: seq<Option<nat>>)
    requires |ts| == |rs|
    ensures var tl := TallyOf(env, ts, rs);
      && KeysDistinct(tl.ratings)
      && (forall h :: Lookup(tl.ratings, h).Some? ==>
            exists j :: 0 <= j < |ts| && HashOf(env, ts[j]) == h && rs[j] == Lookup(tl.ratings, h))
  {
    if |ts| > 0 {
      var ts', rs' := ts[1..], rs[1..];
      TallyKeys(env, ts', rs');
      var prev := TallyOf(env, ts', rs');
      var tl := TallyOf(env, ts, rs);
      if rs[0].Some? {
        PutKeepsKeysDistinct(prev.ratings, HashOf(env, ts[0]), rs[0].value);
        forall h | Lookup(tl.ratings, h).Some?
          ensures exists j :: 0 <= j < |ts| && HashOf(env, ts[j]) == h && rs[j] == Lookup(tl.ratings, h)
        {
          if h != HashOf(env, ts[0]) {
            var j :| 0 <= j < |ts'| && HashOf(env, ts'[j]) == h && rs'[j] == Lookup(prev.ratings, h);
            assert ts[j + 1] == ts'[j] && rs[j + 1] == rs'[j];
          }
        }
      } else {
        forall h | Lookup(tl.ratings, h).Some?
          ensures exists j :: 0 <= j < |ts| && HashOf(env, ts[j]) == h && rs[j] == Lookup(tl.ratings, h)
        {
          var j :| 0 <= j < |ts'| && HashOf(env, ts'[j]) == h && rs'[j] == Lookup(prev.ratings, h);
          assert ts[j + 1] == ts'[j] && rs[j + 1] == rs'[j];
        }
      }
    }
  }

  /** Every rated tail's hash is a key, and `bestRating` bounds every
      rating received. */
  lemma {:induction false} TallyCovers(env: Env, ts: seq<Ptr>, rs: seq<Option<nat>>)
    requires |ts| == |rs|
    ensures var tl := TallyOf(env, ts, rs);
      forall j :: 0 <= j < |ts| && rs[j].Some? ==>
        Lookup(tl.ratings, HashOf(env, ts[j])).Some? && rs[j].value <= tl.best
  {
    if |ts| > 0 {
      var ts', rs' := ts[1..], rs[1..];
      TallyCovers(env, ts', rs');
      forall j | 0 < j < |ts| ensures ts[j] == ts'[j - 1] && rs[j] == rs'[j - 1] {
      }
    }
  }

  /** `bestRating` is zero exactly when nothing was rated, and otherwise a
      rating some tail received. */
  lemma {:induction false} TallyBest(env: Env, ts: seq<Ptr>, rs: seq<Option<nat>>)
    requires |ts| == |rs| && Positive(rs)
    ensures var tl := TallyOf(env, ts, rs);
      && (tl.best > 0 <==> |tl.ratings| > 0)
      && (tl.best > 0 ==> exists j :: 0 <= j < |ts| && rs[j] == Some(tl.best))
  {
    if |ts| > 0 {
      var ts', rs' := ts[1..], rs[1..];
      PositiveTail(rs);
      TallyBest(env, ts', rs');
      var prev := TallyOf(env, ts', rs');
      var tl := TallyOf(env, ts, rs);
      if tl.best > 0 && tl.best == prev.best {
        var j :| 0 <= j < |ts'| && rs'[j] == Some(prev.best);
        assert rs[j + 1] == rs'[j];
      }
    }
  }

  /** With distinct hashes nothing is overwritten: each rated tail's own
      rating is what the map holds for it. */
  lemma {:induction false} TallyExact(env: Env, ts: seq<Ptr>, rs: seq<Option<nat>>)
    requires |ts| == |rs| && UniqueHashes(env, ts)
    ensures forall j :: 0 <= j < |ts| && rs[j].Some? ==> Lookup(TallyOf(env, ts, rs).ratings, HashOf(env, ts[j])) == rs[j]
    ensures forall j :: 0 <= j < |ts| && rs[j].None? ==> Lookup(TallyOf(env, ts, rs).ratings, HashOf(env, ts[j])).None?
  {
    if |ts| > 0 {
      var ts', rs' := ts[1..], rs[1..];
      assert UniqueHashes(env, ts') by {
        forall i, j | 0 <= i < j < |ts'| ensures HashOf(env, ts'[i]) != HashOf(env, ts'[j]) {
          assert ts'[i] == ts[i + 1] && ts'[j] == ts[j + 1];
        }
      }
      TallyExact(env, ts', rs');
      forall j | 0 < j < |ts| ensures HashOf(env, ts[j]) != HashOf(env, ts[0]) && ts[j] == ts'[j - 1] && rs[j] == rs'[j - 1] {
      }
      assert Lookup(TallyOf(env, ts', rs').ratings, HashOf(env, ts[0])).None? by {
        TallyKeysFromTails(env, ts', rs', HashOf(env, ts[0]));
      }
    }
  }

  /** A key of the tally is the hash of some tail that was rated. */
  lemma {:induction false} TallyKeysFromTails(env: Env, ts: seq<Ptr>, rs: seq<Option<nat>>, h: Hash)
    requires |ts| == |rs|
    requires forall j :: 0 <= j < |ts| ==> HashOf(env, ts[j]) != h
    ensures Lookup(TallyOf(env, ts, rs).ratings, h).None?
  {
    if |ts| > 0 {
      assert forall j :: 0 <= j < |ts[1..]| ==> ts[1..][j] == ts[j + 1];
      TallyKeysFromTails(env, ts[1..], rs[1..], h);
    }
  }

  /** `r` is what rating candidate `t` gives. */
  ghost predicate RatingOf(env: Env, state: State, crit: int, covered: set<Ptr>, t: Ptr, r: Option<nat>) {
    && (r.Some? ==> r.value > 0 && RatedAs(env, state, crit, covered, t, r.value))
    && (r.None? <==> !Ratable(env, state, crit, covered, t))
  }

  /** `rs[j]` is what rating `ts[j]` gives, for every `j`. */
  ghost predicate RatingsOf(env: Env, state: State, crit: int, covered: set<Ptr>, ts: seq<Ptr>, rs: seq<Option<nat>>) {
    |ts| == |rs| && forall j :: 0 <= j < |ts| ==> RatingOf(env, state, crit, covered, ts[j], rs[j])
  }

  lemma RatingsOfCons(env: Env, state: State, crit: int, covered: set<Ptr>, ts: seq<Ptr>, rs: seq<Option<nat>>,
                      t: Ptr, r: Option<nat>)
    requires RatingsOf(env, state, crit, covered, ts, rs) && RatingOf(env, state, crit, covered, t, r)
    ensures RatingsOf(env, state, crit, covered, [t] + ts, [r] + rs)
  {
    var ts', rs' := [t] + ts, [r] + rs;
    forall j | 0 <= j < |ts'| ensures RatingOf(env, state, crit, covered, ts'[j], rs'[j]) {
      if j > 0 {
        assert ts'[j] == ts[j - 1] && rs'[j] == rs[j - 1];
      }
    }
  }

  /** Ratings are positive. */
  lemma RatingsArePositive(env: Env, state: State, crit: int, covered: set<Ptr>, ts: seq<Ptr>, rs: seq<Option<nat>>)
    requires RatingsOf(env, state, crit, covered, ts, rs)
    ensures Positive(rs)
  {
    forall j | 0 <= j < |rs| && rs[j].Some? ensures rs[j].value > 0 {
      assert RatingOf(env, state, crit, covered, ts[j], rs[j]);
    }
  }

  /** The rating loop, last candidate first. `results[j]` is what candidate
      `tails[j]` rated; the map and `bestRating` are their tally. */
  method RateAll(env: Env, state: State, crit: int, covered: set<Ptr>, tails: seq<Ptr>)
    returns (tally: Tally, results: seq<Option<nat>>)
    ensures RatingsOf(env, state, crit, covered, tails, results)
    ensures tally == TallyOf(env, tails, results)
  {
    tally, results := Tally([], 0), [];
    var i := |tails|;
    while i > 0
      invariant 0 <= i <= |tails|
      invariant RatingsOf(env, state, crit, covered, tails[i..], results)
      invariant tally == TallyOf(env, tails[i..], results)
    {
      i := i - 1;
      var r := RateCandidate(env, state, crit, covered, tails[i]);
      RatingsOfCons(env, state, crit, covered, tails[i + 1..], results, tails[i], r);
      assert tails[i..] == [tails[i]] + tails[i + 1..];
      assert ([r] + results)[1..] == results;
      tally := Record(env, tally, tails[i], r);
      results := [r] + results;
    }
    assert tails[0..] == tails;
  }

  // ---------------------------------------------------------------------
  // The whole call

  /** What `transactionToApprove` does: return the milestone, return a
      drawn tail's hash, return null, throw "Must never be reached!", or
      (when the depth walk meets a cycle of non-tails) never return. */
  datatype Outcome = Milestone | Drawn(tail: Hash) | Null | Threw | Diverges

  /** The intermediate results of one call. */
  datatype Trace = Trace(
    confirmed: seq<Ptr>,
    state: State,
    crit: int,
    tip: Ptr,
    tails: seq<Ptr>,
    results: seq<Option<nat>>,
    tally: Tally,
    eligible: Ratings,
    total: nat)

  /** The tip the candidate search starts from: the milestone, or with a
      supplied tip the milestone walked back `depth` times. */
  function StartTip(env: Env, extraTip: Option<Ptr>, depth: int): Option<Ptr> {
    if extraTip.Some? then WalkBack(env.store, env.milestonePtr, env.milestonePtr, depth, env.base)
    else Some(env.milestonePtr)
  }

  /** `hit` stands for `nextLong(totalSquaredRating)`; a genuine draw lies
      in [0, total). */
  method TransactionToApprove(env: Env, extraTip: Option<Ptr>, depth: int, hit: int)
    returns (out: Outcome, tr: Trace)
    ensures out.Null? <==> ConfirmFails(env, ConfirmStart(env, extraTip))
    ensures !out.Null? ==> Chosen(env, extraTip, depth, hit, out, tr)
  {
    var ok, confirmed, state := Confirm(env, ConfirmStart(env, extraTip));
    if !ok {
      out, tr := Null, Trace(confirmed, state, 0, 0, [], [], Tally([], 0), [], 0);
    } else {
      out, tr := Select(env, extraTip, depth, hit, confirmed, state);
    }
  }

  /** What a call whose confirmation walk succeeded guarantees. The walk
      confirmed `tr.confirmed` and folded their bundles into `tr.state`. It
      diverges exactly when the depth walk does. Otherwise the candidates
      are the tails approving the start tip (less the confirmed ones, with a
      supplied tip), each rated as `RatingsOf` says, the eligible ratings
      are those clearing the threshold, and the outcome is their draw. */
  ghost predicate Chosen(env: Env, extraTip: Option<Ptr>, depth: int, hit: int, out: Outcome, tr: Trace) {
    && Confirmed(env, ConfirmStart(env, extraTip), tr.confirmed)
    && tr.state == Accumulate(env.store, env.initialState, Members(env, tr.confirmed))
    && (out.Diverges? <==> StartTip(env, extraTip, depth).None?)
    && (!out.Diverges? ==>
      && Some(tr.tip) == StartTip(env, extraTip, depth)
      && tr.crit == CriticalArrivalTime(env, depth)
      && Distinct(tr.tails)
      && (exists F :: (Least(env, Forward, tr.tip, {}, F) &&
            forall p :: p in tr.tails <==>
              p in F && IsTail(env.store, p) && (extraTip.Some? ==> p !in Elems(tr.confirmed))))
      && RatingsOf(env, tr.state, tr.crit, Elems(tr.confirmed), tr.tails, tr.results)
      && tr.tally == TallyOf(env, tr.tails, tr.results)
      && tr.eligible == Eligible(tr.tally.ratings, Threshold(tr.tally.best, env.ratingThreshold))
      && tr.total == SumSquares(tr.eligible)
      && out == Pick(tr.eligible, hit))
  }

  /** Everything after a successful confirmation walk. */
  method Select(env: Env, extraTip: Option<Ptr>, depth: int, hit: int, confirmed: seq<Ptr>, state: State)
    returns (out: Outcome, tr: Trace)
    requires Confirmed(env, ConfirmStart(env, extraTip), confirmed)
    requires state == Accumulate(env.store, env.initialState, Members(env, confirmed))
    ensures !out.Null? && Chosen(env, extraTip, depth, hit, out, tr)
  {
    var crit := CriticalArrivalTime(env, depth);
    var from := StartTip(env, extraTip, depth);
    if from.None? {
      out, tr := Diverges, Trace(confirmed, state, crit, 0, [], [], Tally([], 0), [], 0);
    } else {
      var tip := from.value;
      var tails := Candidates(env, tip, if extraTip.Some? then Some(Elems(confirmed)) else None);
      var tally, results := RateAll(env, state, crit, Elems(confirmed), tails);
      var eligible := Eligible(tally.ratings, Threshold(tally.best, env.ratingThreshold));
      tr := Trace(confirmed, state, crit, tip, tails, results, tally, eligible, SumSquares(eligible));
      out := Pick(eligible, hit);
    }
  }

  /** A drawn hash is that of a candidate tail which was rated, whose
      rating is the one the map holds for the hash, and which cleared the
      threshold. */
  lemma DrawnTailQualifies(env: Env, extraTip: Option<Ptr>, depth: int, hit: int, out: Outcome, tr: Trace)
    requires Chosen(env, extraTip, depth, hit, out, tr) && out.Drawn?
    ensures exists j :: && 0 <= j < |tr.tails| && HashOf(env, tr.tails[j]) == out.tail
                        && tr.results[j].Some? && Lookup(tr.tally.ratings, out.tail) == tr.results[j]
                        && tr.results[j].value >= Threshold(tr.tally.best, env.ratingThreshold)
  {
    var k :| Draw(tr.eligible, hit) == Some(k) && out.tail == tr.eligible[k].tail;
    var e := tr.eligible[k];
    assert e in tr.eligible;
    TallyKeys(env, tr.tails, tr.results);
    LookupOfEntry(tr.tally.ratings, e);
  }

  /** With distinct candidate hashes, the call returns the milestone
      exactly when no candidate was rated, and a draw from [0, total)
      always picks a tail. */
  lemma MilestoneIffNothingRated(env: Env, extraTip: Option<Ptr>, depth: int, hit: int, out: Outcome, tr: Trace)
    requires Chosen(env, extraTip, depth, hit, out, tr) && !out.Diverges?
    requires UniqueHashes(env, tr.tails)
    ensures out.Milestone? <==> forall j :: 0 <= j < |tr.results| ==> tr.results[j].None?
    ensures 0 <= hit < tr.total ==> out.Drawn?
  {
    RatingsArePositive(env, tr.state, tr.crit, Elems(tr.confirmed), tr.tails, tr.results);
    EmptyIffNothingRated(env, tr.tails, tr.results, env.ratingThreshold);
  }

  /** The eligible ratings have a positive total exactly when some tail
      was rated. */
  lemma EmptyIffNothingRated(env: Env, ts: seq<Ptr>, rs: seq<Option<nat>>, pct: Percent)
    requires |ts| == |rs| && Positive(rs) && UniqueHashes(env, ts)
    ensures var tl := TallyOf(env, ts, rs);
      SumSquares(Eligible(tl.ratings, Threshold(tl.best, pct))) == 0 <==> forall j :: 0 <= j < |rs| ==> rs[j].None?
  {
    var tl := TallyOf(env, ts, rs);
    var eligible := Eligible(tl.ratings, Threshold(tl.best, pct));
    TallyBest(env, ts, rs);
    if exists j :: 0 <= j < |rs| && rs[j].Some? {
      var j :| 0 <= j < |rs| && rs[j].Some?;
      TallyCovers(env, ts, rs);
      assert tl.best > 0;
      var i :| 0 <= i < |ts| && rs[i] == Some(tl.best);
      TallyExact(env, ts, rs);
      var e := Entry(HashOf(env, ts[i]), tl.best);
      BestClearsThreshold(tl.best, pct);
      assert e in eligible;
      SumSquaresPositive(eligible, e);
    } else {
      assert |tl.ratings| == 0;
      assert |eligible| == 0;
    }
  }

  /** The candidate tails above `tip`; with a supplied tip, less those the
      confirmation walk covered. */
  method Candidates(env: Env, tip: Ptr, drop: Option<set<Ptr>>) returns (tails: seq<Ptr>)
    ensures Distinct(tails)
    ensures exists F :: (Least(env, Forward, tip, {}, F) &&
      forall p :: p in tails <==> p in F && IsTail(env.store, p) && (drop.Some? ==> p !in drop.value))
  {
    tails := DiscoverTails(env, tip);
    if drop.Some? {
      tails := DropCovered(tails, drop.value);
    }
  }

  /** The end of the call: the milestone when no candidate is eligible,
      otherwise the draw over the eligible ratings, which falls through to
      the exception when `hit` lies beyond the total. */
  function Pick(eligible: Ratings, hit: int): (out: Outcome)
    ensures out.Milestone? || out.Drawn? || out.Threw?
    ensures out.Milestone? <==> SumSquares(eligible) == 0
    ensures out.Drawn? ==> exists k :: Draw(eligible, hit) == Some(k) && out.tail == eligible[k].tail
    ensures out.Threw? <==> SumSquares(eligible) > 0 && hit >= SumSquares(eligible)
  {
    if SumSquares(eligible) == 0 then Milestone
    else
      match Draw(eligible, hit)
      case Some(k) => Drawn(eligible[k].tail)
      case None => Threw
  }
}
