/** Rating one candidate tail: the bundle-completeness check over the
    transactions only it would approve, and the ledger check on top of the
    confirmed state. */
module Rating {
  import opened Common
  import opened Tangle
  import opened Ledger

  /** Every listed transaction arrived no earlier than the critical time. */
  predicate AllFresh(store: Store, crit: int, g: seq<Ptr>) {
    forall i :: 0 <= i < |g| ==> ArrivalOf(Load(store, g[i])) >= crit
  }

  lemma AllFreshConcat(store: Store, crit: int, a: seq<Ptr>, b: seq<Ptr>)
    ensures AllFresh(store, crit, a + b) <==> AllFresh(store, crit, a) && AllFresh(store, crit, b)
  {
    if AllFresh(store, crit, a + b) {
      forall i | 0 <= i < |a| ensures ArrivalOf(Load(store, a[i])) >= crit {
        assert (a + b)[i] == a[i];
      }
      forall i | 0 <= i < |b| ensures ArrivalOf(Load(store, b[i])) >= crit {
        assert (a + b)[|a| + i] == b[i];
      }
    }
    if AllFresh(store, crit, a) && AllFresh(store, crit, b) {
      forall i | 0 <= i < |a + b| ensures ArrivalOf(Load(store, (a + b)[i])) >= crit {
        if i < |a| {
          assert (a + b)[i] == a[i];
        } else {
          assert (a + b)[i] == b[i - |a|];
        }
      }
    }
  }

  /** Walks one bundle list removing each member from `copy`; gives up
      (null) at a member older than the critical time or one not (or no
      longer) in `copy`. */
  function RemoveMembers(store: Store, crit: int, g: seq<Ptr>, copy: set<Ptr>): (r: Option<set<Ptr>>)
    ensures r == if AllFresh(store, crit, g) && Distinct(g) && Elems(g) <= copy
                 then Some(copy - Elems(g)) else None
  {
    if |g| == 0 then
      assert Elems(g) == {} && copy - Elems(g) == copy;
      assert AllFresh(store, crit, g) && Distinct(g);
      Some(copy)
    else if ArrivalOf(Load(store, g[0])) < crit then None
    else if g[0] !in copy then None
    else
      var rest := RemoveMembers(store, crit, g[1..], copy - {g[0]});
      assert g == [g[0]] + g[1..];
      DistinctConcat([g[0]], g[1..]);
      AllFreshConcat(store, crit, [g[0]], g[1..]);
      assert AllFresh(store, crit, [g[0]]);
      assert Elems([g[0]]) == {g[0]};
      assert Elems(g) == {g[0]} + Elems(g[1..]);
      assert copy - {g[0]} - Elems(g[1..]) == copy - Elems(g);
      assert Distinct(g) && Elems(g) <= copy <==>
             Distinct(g[1..]) && Elems(g[1..]) <= copy - {g[0]};
      rest
  }

  /** The bundle list a transaction contributes: its own when it is a tail
      that heads one, otherwise nothing. */
  function Own(env: Env, p: Ptr): seq<Ptr> {
    if IsTail(env.store, p) && TailGroup(env, p).Some? then TailGroup(env, p).value else []
  }

  /** The members of the bundle lists of the tails among `es`, in order. */
  function Members(env: Env, es: seq<Ptr>): seq<Ptr> {
    if |es| == 0 then [] else Own(env, es[0]) + Members(env, es[1..])
  }

  lemma {:induction false} MembersConcat(env: Env, x: seq<Ptr>, y: seq<Ptr>)
    ensures Members(env, x + y) == Members(env, x) + Members(env, y)
    decreases |x|
  {
    if |x| > 0 {
      assert (x + y)[0] == x[0] && (x + y)[1..] == x[1..] + y;
      MembersConcat(env, x[1..], y);
    } else {
      assert x + y == y;
    }
  }

  /** Taking one transaction out of the list takes its own bundle list out
      of the members. */
  lemma MembersSplit(env: Env, y: seq<Ptr>, j: nat)
    requires j < |y|
    ensures multiset(Members(env, y)) == multiset(Own(env, y[j])) + multiset(Members(env, y[..j] + y[j + 1..]))
  {
    var y1, x, y2 := y[..j], y[j], y[j + 1..];
    var m1, mx, m2 := Members(env, y1), Own(env, x), Members(env, y2);
    assert y == (y1 + [x]) + y2;
    MembersConcat(env, y1 + [x], y2);
    MembersConcat(env, y1, [x]);
    assert Members(env, [x]) == mx by {
      assert [x][1..] == [];
    }
    MembersConcat(env, y1, y2);
    assert Members(env, y) == m1 + mx + m2;
    assert multiset(m1 + mx + m2) == multiset(mx) + multiset(m1 + m2);
  }

  /** Reordering the tails reorders the members and nothing more. */
  lemma {:induction false} MembersOrderFree(env: Env, x: seq<Ptr>, y: seq<Ptr>)
    requires multiset(x) == multiset(y)
    ensures multiset(Members(env, x)) == multiset(Members(env, y))
    decreases |x|
  {
    if |x| > 0 {
      assert x[0] in multiset(y);
      var j := SplitAt(y, x[0]);
      assert multiset(x[1..]) == multiset(x) - multiset{x[0]} by {
        assert x == [x[0]] + x[1..];
      }
      MembersOrderFree(env, x[1..], y[..j] + y[j + 1..]);
      MembersSplit(env, y, j);
    } else {
      assert |y| == |multiset(y)| == 0;
    }
  }

  lemma AllFreshOrderFree(store: Store, crit: int, x: seq<Ptr>, y: seq<Ptr>)
    requires multiset(x) == multiset(y)
    ensures AllFresh(store, crit, x) <==> AllFresh(store, crit, y)
  {
    forall p ensures p in x <==> p in y {
      assert p in x <==> p in multiset(x);
      assert p in y <==> p in multiset(y);
    }
    if AllFresh(store, crit, x) {
      forall i | 0 <= i < |y| ensures ArrivalOf(Load(store, y[i])) >= crit {
        assert y[i] in x;
      }
    }
    if AllFresh(store, crit, y) {
      forall i | 0 <= i < |x| ensures ArrivalOf(Load(store, x[i])) >= crit {
        assert x[i] in y;
      }
    }
  }

  /** The loop over the extra transactions: for each tail, remove its
      bundle list's members from `copy`; null as soon as one list fails. The
      outcome is order-free: it succeeds iff all bundle members are fresh,
      no member is listed twice, and all are in `copy`. */
  function CheckBundles(env: Env, crit: int, es: seq<Ptr>, copy: set<Ptr>): (r: Option<set<Ptr>>)
    ensures var m := Members(env, es);
            r == if AllFresh(env.store, crit, m) && Distinct(m) && Elems(m) <= copy
                 then Some(copy - Elems(m)) else None
  {
    if |es| == 0 then
      var m := Members(env, es);
      assert m == [] && Elems(m) == {} && copy - Elems(m) == copy;
      assert AllFresh(env.store, crit, m) && Distinct(m);
      Some(copy)
    else
      var e := es[0];
      if IsTail(env.store, e) && TailGroup(env, e).Some? then
        var g := TailGroup(env, e).value;
        var rest := Members(env, es[1..]);
        DistinctConcat(g, rest);
        AllFreshConcat(env.store, crit, g, rest);
        assert Elems(g + rest) == Elems(g) + Elems(rest);
        assert Members(env, es) == g + rest;
        match RemoveMembers(env.store, crit, g, copy)
        case None => None
        case Some(c) =>
          assert copy - Elems(g) - Elems(rest) == copy - Elems(g + rest);
          assert Elems(rest) <= copy - Elems(g) <==>
                 Elems(rest) <= copy && Elems(g) !! Elems(rest);
          CheckBundles(env, crit, es[1..], c)
      else
        assert Members(env, es) == Members(env, es[1..]);
        CheckBundles(env, crit, es[1..], copy)
  }

  lemma NothingLeftMeansCovered<T>(all: set<T>, covered: set<T>)
    requires covered <= all
    ensures all - covered == {} <==> covered == all
  {
    if all - covered == {} {
      forall x | x in all ensures x in covered {
        assert x !in all - covered;
      }
    }
  }

  /** The rating of a candidate whose backward walk collected `extra`: its
      size, given when `extra` is non-empty, its tails' bundle lists cover
      every extra transaction exactly once with fresh members, and adding the
      extra values to the confirmed state leaves no balance negative. */
  function Rate(env: Env, state: State, crit: int, extra: seq<Ptr>): (r: Option<nat>)
    requires Distinct(extra)
    ensures r.Some? ==> r.value == |extra| > 0
    ensures var m := Members(env, extra);
      r.Some? <==>
        && |extra| > 0
        && AllFresh(env.store, crit, m)
        && Distinct(m)
        && Elems(m) == Elems(extra)
        && NoNegative(Accumulate(env.store, state, extra))
  {
    if |extra| == 0 then None
    else
      var m := Members(env, extra);
      match CheckBundles(env, crit, extra, Elems(extra))
      case Some(left) =>
        assert left == Elems(extra) - Elems(m) && Elems(m) <= Elems(extra);
        NothingLeftMeansCovered(Elems(extra), Elems(m));
        if left == {} && NoNegative(Accumulate(env.store, state, extra)) then Some(|extra|) else None
      case None => None
  }

  /** The rating does not depend on the order in which the extra
      transactions are iterated. */
  lemma RateOrderFree(env: Env, state: State, crit: int, x: seq<Ptr>, y: seq<Ptr>)
    requires Distinct(x) && Distinct(y) && Elems(x) == Elems(y)
    ensures Rate(env, state, crit, x) == Rate(env, state, crit, y)
  {
    SameElemsSameBag(x, y);
    assert |x| == |multiset(x)| == |multiset(y)| == |y|;
    var mx, my := Members(env, x), Members(env, y);
    MembersOrderFree(env, x, y);
    AllFreshOrderFree(env.store, crit, mx, my);
    DistinctIffSingleCounts(mx);
    DistinctIffSingleCounts(my);
    SameBagSameElems(mx, my);
    AccumulateOrderFree(env.store, state, x, y);
  }
}
