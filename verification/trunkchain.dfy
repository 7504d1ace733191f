/** Walking back along trunk references from tail to tail, as the
    selection does before its forward walk when it extends a given tip. */
module TrunkChain {
  import opened Common
  import opened Tangle

  /** The pointer reached after `n` trunk steps from `p`. */
  function Trunks(store: Store, p: Ptr, n: nat): Ptr
    decreases n
  {
    if n == 0 then p else Trunks(store, Load(store, p).trunk, n - 1)
  }

  lemma {:induction false} TrunksAdd(store: Store, p: Ptr, a: nat, n: nat)
    ensures Trunks(store, p, a + n) == Trunks(store, Trunks(store, p, a), n)
    decreases a
  {
    if a > 0 {
      TrunksAdd(store, Load(store, p).trunk, a - 1, n);
    }
  }

  /** Result of a trunk chase: the first tail strictly below the start and
      the number of trunk steps to it, or a chase that never ends. */
  datatype Hop = Reached(tail: Ptr, steps: nat) | Cycle

  /** `do transaction = load(transaction.trunk) while (currentIndex != 0)`:
      the first tail strictly below `p` on its trunk chain. A chase that
      returns to a non-tail it already passed repeats forever. */
  function NextTail(store: Store, p: Ptr): (h: Hop)
    ensures h.Reached? ==>
      && h.steps >= 1
      && Trunks(store, p, h.steps) == h.tail
      && IsTail(store, h.tail)
      && forall j :: 1 <= j < h.steps ==> !IsTail(store, Trunks(store, p, j))
    ensures h.Cycle? ==> forall k :: k >= 1 ==> !IsTail(store, Trunks(store, p, k))
  {
    Chase(store, p, {}, p, 0)
  }

  /** Trunk pointers from `p0` after 1..m steps. */
  ghost function Passed(store: Store, p0: Ptr, m: nat): set<Ptr> {
    set j | 1 <= j <= m :: Trunks(store, p0, j)
  }

  /** One step of the chase from `p`, the pointer `m` steps below `p0`,
      having passed the non-tails in `seen`. */
  function Chase(store: Store, p: Ptr, seen: set<Ptr>, ghost p0: Ptr, m: nat): (h: Hop)
    requires p == Trunks(store, p0, m)
    requires seen == Passed(store, p0, m)
    requires forall j :: 1 <= j <= m ==> !IsTail(store, Trunks(store, p0, j))
    ensures h.Reached? ==>
      && h.steps > m
      && Trunks(store, p0, h.steps) == h.tail
      && IsTail(store, h.tail)
      && forall j :: 1 <= j < h.steps ==> !IsTail(store, Trunks(store, p0, j))
    ensures h.Cycle? ==> forall k :: k >= 1 ==> !IsTail(store, Trunks(store, p0, k))
    decreases |store.Keys - seen|
  {
    var q := Load(store, p).trunk;
    TrunksAdd(store, p0, m, 1);
    if IsTail(store, q) then Reached(q, m + 1)
    else if q in seen then
      CycleHasNoTail(store, p0, m);
      Cycle
    else
      assert q in store;
      assert store.Keys - (seen + {q}) == (store.Keys - seen) - {q};
      PassedGrows(store, p0, m);
      Chase(store, q, seen + {q}, p0, m + 1)
  }

  lemma PassedGrows(store: Store, p0: Ptr, m: nat)
    ensures Passed(store, p0, m + 1) == Passed(store, p0, m) + {Trunks(store, p0, m + 1)}
  {
  }

  /** The chain came back to a non-tail it passed after `i` steps: from
      there on it cycles through the same non-tails forever. */
  lemma CycleHasNoTail(store: Store, p0: Ptr, m: nat)
    requires Trunks(store, p0, m + 1) in Passed(store, p0, m)
    requires forall j :: 1 <= j <= m + 1 ==> !IsTail(store, Trunks(store, p0, j))
    ensures forall k :: k >= 1 ==> !IsTail(store, Trunks(store, p0, k))
  {
    var i :| 1 <= i <= m && Trunks(store, p0, i) == Trunks(store, p0, m + 1);
    forall k | k >= 1
      ensures !IsTail(store, Trunks(store, p0, k))
    {
      NoTailAt(store, p0, i, m, k);
    }
  }

  lemma {:induction false} NoTailAt(store: Store, p0: Ptr, i: nat, m: nat, k: nat)
    requires 1 <= i <= m && Trunks(store, p0, i) == Trunks(store, p0, m + 1)
    requires forall j :: 1 <= j <= m + 1 ==> !IsTail(store, Trunks(store, p0, j))
    requires k >= 1
    ensures !IsTail(store, Trunks(store, p0, k))
    decreases k
  {
    if k > m + 1 {
      var d := m + 1 - i;
      TrunksAdd(store, p0, m + 1, k - (m + 1));
      TrunksAdd(store, p0, i, k - (m + 1));
      assert Trunks(store, p0, k) == Trunks(store, p0, k - d);
      NoTailAt(store, p0, i, m, k - d);
    }
  }

  /** The tail `k` tail-hops below `p`, or None if a chase on the way
      never ends. */
  function TailsBack(store: Store, p: Ptr, k: nat): Option<Ptr>
    decreases k
  {
    if k == 0 then Some(p)
    else match NextTail(store, p)
      case Cycle => None
      case Reached(t, _) => TailsBack(store, t, k - 1)
  }

  /** `while (depth-- > 0 && tip != first cell) { tip = current; current =
      next tail below current; }`: the reference tip for the forward walk
      when an extra tip is given. None means a trunk chase never ends. */
  function WalkBack(store: Store, cur: Ptr, tip: Ptr, depth: int, base: Ptr): (r: Option<Ptr>)
    ensures r.Some? ==> r.value == tip || r.value == cur || IsTail(store, r.value)
    ensures depth <= 0 || tip == base ==> r == Some(tip)
    decreases if depth > 0 then depth else 0
  {
    if depth > 0 && tip != base then
      match NextTail(store, cur)
      case Cycle => None
      case Reached(t, _) => WalkBack(store, t, cur, depth - 1, base)
    else Some(tip)
  }

  /** The loop performs `depth` chases but keeps the tip from before the
      last one: it settles `depth - 1` tails below the start, provided no
      earlier tip is the first cell and every chase ends. */
  lemma {:induction false} WalkBackStopsOneShort(store: Store, cur: Ptr, tip: Ptr, depth: int, base: Ptr)
    requires depth >= 1 && tip != base
    requires TailsBack(store, cur, depth).Some?
    requires forall k :: 0 <= k < depth - 1 ==> TailsBack(store, cur, k) != Some(base)
    ensures WalkBack(store, cur, tip, depth, base) == TailsBack(store, cur, depth - 1)
    decreases depth
  {
    var t := NextTail(store, cur).tail;
    if depth > 1 {
      assert TailsBack(store, cur, 0) == Some(cur);
      forall k | 0 <= k < depth - 2
        ensures TailsBack(store, t, k) != Some(base)
      {
        assert TailsBack(store, cur, k + 1) == TailsBack(store, t, k);
      }
      WalkBackStopsOneShort(store, t, cur, depth - 1, base);
    }
  }

  /** The walk stops at some chase within `depth`, before any earlier tip
      was the first cell, that never ends. */
  predicate Diverges(store: Store, cur: Ptr, tip: Ptr, depth: int, base: Ptr) {
    && tip != base
    && exists k :: && 1 <= k <= depth && TailsBack(store, cur, k).None?
                   && forall j :: 0 <= j < k - 1 ==> TailsBack(store, cur, j) != Some(base)
  }

  /** The walk gives no tip exactly when one of its chases never ends. */
  lemma {:induction false} WalkBackNone(store: Store, cur: Ptr, tip: Ptr, depth: int, base: Ptr)
    ensures WalkBack(store, cur, tip, depth, base).None? <==> Diverges(store, cur, tip, depth, base)
    decreases if depth > 0 then depth else 0
  {
    if depth > 0 && tip != base {
      match NextTail(store, cur)
      case Cycle =>
        assert TailsBack(store, cur, 1).None?;
      case Reached(t, _) =>
        WalkBackNone(store, t, cur, depth - 1, base);
        assert TailsBack(store, cur, 0) == Some(cur);
        assert TailsBack(store, cur, 1) == Some(t) by {
          assert TailsBack(store, t, 0) == Some(t);
        }
        if Diverges(store, t, cur, depth - 1, base) {
          var k :| && 1 <= k <= depth - 1 && TailsBack(store, t, k).None?
                   && forall j :: 0 <= j < k - 1 ==> TailsBack(store, t, j) != Some(base);
          assert TailsBack(store, cur, k + 1) == TailsBack(store, t, k);
          forall j | 0 <= j < k ensures TailsBack(store, cur, j) != Some(base) {
            if j > 0 {
              assert TailsBack(store, cur, j) == TailsBack(store, t, j - 1);
            }
          }
        }
        if Diverges(store, cur, tip, depth, base) {
          var k :| && 1 <= k <= depth && TailsBack(store, cur, k).None?
                   && forall j :: 0 <= j < k - 1 ==> TailsBack(store, cur, j) != Some(base);
          assert k >= 2;
          assert TailsBack(store, cur, k) == TailsBack(store, t, k - 1);
          assert TailsBack(store, cur, 0) != Some(base);
          forall j | 0 <= j < k - 2 ensures TailsBack(store, t, j) != Some(base) {
            assert TailsBack(store, cur, j + 1) == TailsBack(store, t, j);
          }
        }
    }
  }
}
