/** Ledger bookkeeping: balances by address, and the folding of transaction
    values into them. */
module Ledger {
  import opened Common
  import opened Tangle

  /** A missing address reads as no entry; callers treat it as balance 0. */
  function Balance(state: State, a: Address): int {
    if a in state then state[a] else 0
  }

  /** `state.put(a, old == null ? v : old + v)`. */
  function Credit(state: State, a: Address, v: int): (r: State)
    ensures r.Keys == state.Keys + {a}
    ensures r[a] == Balance(state, a) + v
    ensures forall b :: b in state && b != a ==> r[b] == state[b]
  {
    state[a := Balance(state, a) + v]
  }

  /** Sum of the values the given transactions move at address `a`. */
  function SumAt(store: Store, ptrs: seq<Ptr>, a: Address): int {
    if |ptrs| == 0 then 0
    else
      var tx := Load(store, ptrs[0]);
      (if tx.address == a then tx.value else 0) + SumAt(store, ptrs[1..], a)
  }

  /** Addresses of the transactions that carry a non-zero value. */
  function Touched(store: Store, ptrs: seq<Ptr>): set<Address> {
    set i | 0 <= i < |ptrs| && Load(store, ptrs[i]).value != 0 :: Load(store, ptrs[i]).address
  }

  /** Folds the transactions' values into the state in order, skipping
      zero-valued ones: an address gains an entry only through a non-zero
      value, and every entry ends as its seed plus what was moved there. */
  function Accumulate(store: Store, state: State, ptrs: seq<Ptr>): (r: State)
    ensures r.Keys == state.Keys + Touched(store, ptrs)
    ensures forall a :: a in r ==> r[a] == Balance(state, a) + SumAt(store, ptrs, a)
    decreases |ptrs|
  {
    if |ptrs| == 0 then state
    else
      var tx := Load(store, ptrs[0]);
      var next := if tx.value != 0 then Credit(state, tx.address, tx.value) else state;
      TouchedCons(store, ptrs);
      Accumulate(store, next, ptrs[1..])
  }

  lemma TouchedCons(store: Store, ptrs: seq<Ptr>)
    requires |ptrs| > 0
    ensures Touched(store, ptrs) ==
      (if Load(store, ptrs[0]).value != 0 then {Load(store, ptrs[0]).address} else {})
      + Touched(store, ptrs[1..])
  {
    var rest := ptrs[1..];
    forall a | a in Touched(store, ptrs)
      ensures a in (if Load(store, ptrs[0]).value != 0 then {Load(store, ptrs[0]).address} else {}) + Touched(store, rest)
    {
      var i :| 0 <= i < |ptrs| && Load(store, ptrs[i]).value != 0 && Load(store, ptrs[i]).address == a;
      if i > 0 {
        assert rest[i - 1] == ptrs[i];
      }
    }
    forall a | a in Touched(store, rest)
      ensures a in Touched(store, ptrs)
    {
      var i :| 0 <= i < |rest| && Load(store, rest[i]).value != 0 && Load(store, rest[i]).address == a;
      assert ptrs[i + 1] == rest[i];
    }
  }

  /** An address no value-carrying transaction touches moves by nothing. */
  lemma {:induction false} UntouchedSumsToZero(store: Store, ptrs: seq<Ptr>, a: Address)
    requires a !in Touched(store, ptrs)
    ensures SumAt(store, ptrs, a) == 0
  {
    if |ptrs| > 0 {
      TouchedCons(store, ptrs);
      UntouchedSumsToZero(store, ptrs[1..], a);
    }
  }

  /** Addresses not touched keep their seeded entries (or stay absent). */
  lemma UntouchedKeepSeed(store: Store, state: State, ptrs: seq<Ptr>, a: Address)
    requires a !in Touched(store, ptrs)
    ensures a in Accumulate(store, state, ptrs) <==> a in state
    ensures a in state ==> Accumulate(store, state, ptrs)[a] == state[a]
  {
    UntouchedSumsToZero(store, ptrs, a);
  }

  lemma {:induction false} SumAtConcat(store: Store, x: seq<Ptr>, y: seq<Ptr>, a: Address)
    ensures SumAt(store, x + y, a) == SumAt(store, x, a) + SumAt(store, y, a)
    decreases |x|
  {
    if |x| > 0 {
      assert (x + y)[0] == x[0] && (x + y)[1..] == x[1..] + y;
      SumAtConcat(store, x[1..], y, a);
    } else {
      assert x + y == y;
    }
  }

  /** A sum does not depend on the order of its terms. */
  lemma {:induction false} SumAtOrderFree(store: Store, x: seq<Ptr>, y: seq<Ptr>, a: Address)
    requires multiset(x) == multiset(y)
    ensures SumAt(store, x, a) == SumAt(store, y, a)
    decreases |x|
  {
    if |x| > 0 {
      assert x[0] in multiset(y);
      var j := SplitAt(y, x[0]);
      assert x == [x[0]] + x[1..];
      assert multiset(x[1..]) == multiset(x) - multiset{x[0]};
      SumAtOrderFree(store, x[1..], y[..j] + y[j + 1..], a);
      SumAtConcat(store, y[..j], y[j + 1..], a);
      SumAtConcat(store, y[..j] + [x[0]], y[j + 1..], a);
      SumAtConcat(store, y[..j], [x[0]], a);
      assert [x[0]][1..] == [];
    } else {
      assert |y| == |multiset(y)| == 0;
    }
  }

  lemma TouchedOrderFree(store: Store, x: seq<Ptr>, y: seq<Ptr>)
    requires Elems(x) == Elems(y)
    ensures Touched(store, x) == Touched(store, y)
  {
    forall a | a in Touched(store, x) ensures a in Touched(store, y) {
      var i :| 0 <= i < |x| && Load(store, x[i]).value != 0 && Load(store, x[i]).address == a;
      assert x[i] in Elems(y);
      var j :| 0 <= j < |y| && y[j] == x[i];
    }
    forall a | a in Touched(store, y) ensures a in Touched(store, x) {
      var i :| 0 <= i < |y| && Load(store, y[i]).value != 0 && Load(store, y[i]).address == a;
      assert y[i] in Elems(x);
      var j :| 0 <= j < |x| && x[j] == y[i];
    }
  }

  /** Folding the same transactions in another order gives the same state:
      the result of iterating a hash set does not depend on its order. */
  lemma AccumulateOrderFree(store: Store, state: State, x: seq<Ptr>, y: seq<Ptr>)
    requires multiset(x) == multiset(y)
    ensures Accumulate(store, state, x) == Accumulate(store, state, y)
  {
    SameBagSameElems(x, y);
    TouchedOrderFree(store, x, y);
    var rx, ry := Accumulate(store, state, x), Accumulate(store, state, y);
    assert rx.Keys == ry.Keys;
    forall a | a in rx ensures rx[a] == ry[a] {
      SumAtOrderFree(store, x, y, a);
    }
  }

  predicate NoNegative(state: State) {
    forall a :: a in state ==> state[a] >= 0
  }
}
