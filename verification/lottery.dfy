/** The final draw: ratings keyed by tail hash, the rating threshold, and a
    lottery in which a candidate wins with odds proportional to the square of
    its rating. */
module Lottery {
  import opened Common
  import opened Tangle

  /** One recorded rating. */
  datatype Entry = Entry(tail: Hash, rating: nat)

  /** The rating map in iteration order; each key at most once. */
  type Ratings = seq<Entry>

  predicate KeysDistinct(rs: Ratings) {
    forall i, j :: 0 <= i < j < |rs| ==> rs[i].tail != rs[j].tail
  }

  /** The value stored under `h`, if any. */
  function Lookup(rs: Ratings, h: Hash): (r: Option<nat>)
    ensures r.Some? <==> exists i :: 0 <= i < |rs| && rs[i].tail == h
    ensures r.Some? ==> Entry(h, r.value) in rs
  {
    if |rs| == 0 then None
    else if rs[0].tail == h then Some(rs[0].rating)
    else Lookup(rs[1..], h)
  }

  /** A map `put`: overwrite the value of an existing key where it stands,
      otherwise append a new key. */
  function Put(rs: Ratings, h: Hash, n: nat): (r: Ratings)
    ensures Lookup(r, h) == Some(n)
    ensures forall k :: k != h ==> Lookup(r, k) == Lookup(rs, k)
    ensures |r| == if Lookup(rs, h).Some? then |rs| else |rs| + 1
  {
    if |rs| == 0 then [Entry(h, n)]
    else if rs[0].tail == h then
      assert ([Entry(h, n)] + rs[1..])[1..] == rs[1..];
      [Entry(h, n)] + rs[1..]
    else
      var rest := Put(rs[1..], h, n);
      assert ([rs[0]] + rest)[1..] == rest;
      [rs[0]] + rest
  }

  /** With unique keys, an entry's key looks up that entry's value. */
  lemma {:induction false} LookupOfEntry(rs: Ratings, e: Entry)
    requires KeysDistinct(rs) && e in rs
    ensures Lookup(rs, e.tail) == Some(e.rating)
  {
    if rs[0] != e {
      HeadKeyNotInTail(rs);
      assert e in rs[1..];
      assert KeysDistinct(rs[1..]) by {
        forall i, j | 0 <= i < j < |rs[1..]| ensures rs[1..][i].tail != rs[1..][j].tail {
          assert rs[1..][i] == rs[i + 1] && rs[1..][j] == rs[j + 1];
        }
      }
      LookupOfEntry(rs[1..], e);
    }
  }

  /** With unique keys, the first key does not occur again. */
  lemma HeadKeyNotInTail(rs: Ratings)
    requires KeysDistinct(rs) && |rs| > 0
    ensures Lookup(rs[1..], rs[0].tail).None?
  {
    forall i | 0 <= i < |rs[1..]| ensures rs[1..][i].tail != rs[0].tail {
      assert rs[1..][i] == rs[i + 1];
    }
  }

  /** The keys stay unique under `Put`. */
  lemma {:induction false} PutKeepsKeysDistinct(rs: Ratings, h: Hash, n: nat)
    requires KeysDistinct(rs)
    ensures KeysDistinct(Put(rs, h, n))
  {
    var r := Put(rs, h, n);
    if |rs| > 0 && rs[0].tail != h {
      PutKeepsKeysDistinct(rs[1..], h, n);
      var rest := Put(rs[1..], h, n);
      assert r == [rs[0]] + rest;
      HeadKeyNotInTail(rs);
      assert Lookup(rest, rs[0].tail).None?;
      forall i, j | 0 <= i < j < |r| ensures r[i].tail != r[j].tail {
        assert r[j] == rest[j - 1];
        if i > 0 {
          assert r[i] == rest[i - 1];
        }
      }
    } else if |rs| > 0 {
      forall i, j | 0 <= i < j < |r| ensures r[i].tail != r[j].tail {
        assert r[j] == rs[j];
        if i > 0 {
          assert r[i] == rs[i];
        }
      }
    }
  }

  /** `rating >= bestRating * RATING_THRESHOLD / 100` in Java `int`
      arithmetic: the product wraps to 32 bits before the truncating
      division. */
  function Threshold(best: nat, pct: Percent): (t: int)
    ensures best * pct <= INT_MAX ==> t * 100 <= best * pct < t * 100 + 100
    ensures t <= INT_MAX / 100
  {
    JavaDiv(ToInt32(best * pct), 100)
  }

  /** The best rating always clears the threshold, even when the product
      wraps around: a percentage never exceeds 100. */
  lemma BestClearsThreshold(best: nat, pct: Percent)
    ensures Threshold(best, pct) <= best
  {
    ScaleAtMostWhole(best, pct);
    if best * pct <= INT_MAX {
      assert Threshold(best, pct) * 100 <= best * 100;
    }
  }

  /** A percentage of a count is at most the whole count, scaled by 100. */
  lemma {:induction false} ScaleAtMostWhole(n: nat, pct: Percent)
    ensures n * pct <= n * 100
  {
    if n > 0 {
      ScaleAtMostWhole(n - 1, pct);
      assert n * pct == (n - 1) * pct + pct;
      assert n * 100 == (n - 1) * 100 + 100;
    }
  }

  /** The entries that clear the threshold, in iteration order. */
  function Eligible(rs: Ratings, t: int): (r: Ratings)
    ensures forall e :: e in r <==> e in rs && e.rating >= t
    ensures |r| <= |rs|
  {
    if |rs| == 0 then []
    else
      var rest := Eligible(rs[1..], t);
      assert forall e :: e in rs <==> e == rs[0] || e in rs[1..];
      if rs[0].rating >= t then
        assert forall i :: 0 < i < |[rs[0]] + rest| ==> ([rs[0]] + rest)[i] == rest[i - 1];
        [rs[0]] + rest
      else rest
  }

  function Square(e: Entry): nat { e.rating * e.rating }

  /** `totalSquaredRating`. */
  function SumSquares(cs: Ratings): nat {
    if |cs| == 0 then 0 else Square(cs[0]) + SumSquares(cs[1..])
  }

  /** One positive rating makes the total positive. */
  lemma {:induction false} SumSquaresPositive(cs: Ratings, e: Entry)
    requires e in cs && e.rating > 0
    ensures SumSquares(cs) > 0
  {
    if cs[0] != e {
      assert e in cs[1..];
      SumSquaresPositive(cs[1..], e);
    }
  }

  /** The squared ratings of the first `k` entries. */
  function Prefix(cs: Ratings, k: nat): nat
    requires k <= |cs|
  {
    SumSquares(cs[..k])
  }

  lemma PrefixStep(cs: Ratings, k: nat)
    requires 0 < |cs| && k < |cs|
    ensures Prefix(cs, k + 1) == Square(cs[0]) + Prefix(cs[1..], k)
  {
    assert cs[..k + 1][1..] == cs[1..][..k];
  }

  lemma {:induction false} PrefixMonotone(cs: Ratings, j: nat, k: nat)
    requires j <= k <= |cs|
    ensures Prefix(cs, j) <= Prefix(cs, k)
    decreases k
  {
    if j < k {
      PrefixMonotone(cs, j, k - 1);
      PrefixLast(cs, k - 1);
    }
  }

  lemma {:induction false} PrefixLast(cs: Ratings, k: nat)
    requires k < |cs|
    ensures Prefix(cs, k + 1) == Prefix(cs, k) + Square(cs[k])
    decreases k
  {
    if k == 0 {
      assert cs[..1][1..] == [];
    } else {
      PrefixStep(cs, k);
      PrefixStep(cs, k - 1);
      PrefixLast(cs[1..], k - 1);
    }
  }

  lemma PrefixAll(cs: Ratings)
    ensures Prefix(cs, |cs|) == SumSquares(cs)
  {
    assert cs[..|cs|] == cs;
  }

  /** The walk over the eligible entries, subtracting each squared rating
      from `hit` and stopping at the first that makes it negative. None means
      the loop ran out, which ends in "Must never be reached!". */
  function Draw(cs: Ratings, hit: int): (r: Option<nat>)
    ensures r.Some? ==> r.value < |cs| && hit < Prefix(cs, r.value + 1)
    ensures r.Some? ==> forall j :: 0 < j <= r.value ==> Prefix(cs, j) <= hit
    ensures r.None? <==> |cs| == 0 || hit >= SumSquares(cs)
  {
    if |cs| == 0 then None
    else if hit - Square(cs[0]) < 0 then
      assert cs[..1][1..] == [];
      Some(0)
    else
      match Draw(cs[1..], hit - Square(cs[0]))
      case None => None
      case Some(k) =>
        PrefixStep(cs, k + 1);
        forall j | 0 < j <= k + 1 ensures Prefix(cs, j) <= hit {
          PrefixStep(cs, j - 1);
          if j == 1 {
            assert cs[..1][1..] == [];
          }
        }
        Some(k + 1)
  }

  /** For a genuine random draw in [0, total) the winner is exactly the
      entry whose slice of the prefix sums contains the draw. */
  lemma DrawPicksSlice(cs: Ratings, hit: int, k: nat)
    requires 0 <= hit
    ensures Draw(cs, hit) == Some(k) <==> k < |cs| && Prefix(cs, k) <= hit < Prefix(cs, k + 1)
  {
    if Draw(cs, hit) == Some(k) && k > 0 {
      assert Prefix(cs, k) <= hit;
    }
    if k < |cs| && Prefix(cs, k) <= hit < Prefix(cs, k + 1) {
      var d := Draw(cs, hit);
      if d.None? {
        PrefixMonotone(cs, k + 1, |cs|);
        PrefixAll(cs);
      } else if d.value < k {
        PrefixMonotone(cs, d.value + 1, k);
      }
    }
  }

  /** The draw never falls through when it is taken from [0, total). */
  lemma DrawAlwaysWins(cs: Ratings, hit: int)
    requires 0 <= hit < SumSquares(cs)
    ensures Draw(cs, hit).Some?
  {
  }

  /** The integers in [lo, hi). */
  function Range(lo: int, hi: int): (r: set<int>)
    ensures forall x :: x in r <==> lo <= x < hi
    ensures |r| == if lo <= hi then hi - lo else 0
    decreases hi - lo
  {
    if lo >= hi then {} else {lo} + Range(lo + 1, hi)
  }

  /** The draws in [0, total) that pick entry `k`. */
  function Wins(cs: Ratings, k: nat): set<int> {
    set hit | hit in Range(0, SumSquares(cs)) && Draw(cs, hit) == Some(k)
  }

  /** Those draws are exactly entry `k`'s slice of the prefix sums. */
  lemma WinsAreSlice(cs: Ratings, k: nat)
    requires k < |cs|
    ensures Wins(cs, k) == Range(Prefix(cs, k), Prefix(cs, k + 1))
  {
    PrefixMonotone(cs, k + 1, |cs|);
    PrefixAll(cs);
    forall hit | 0 <= hit {
      DrawPicksSlice(cs, hit, k);
    }
  }

  /** Of the `total` equally likely draws, exactly `rating^2` pick entry
      `k`: the odds are proportional to the squared rating. */
  lemma DrawOdds(cs: Ratings, k: nat)
    requires k < |cs|
    ensures |Wins(cs, k)| == Square(cs[k])
  {
    PrefixLast(cs, k);
    WinsAreSlice(cs, k);
  }
}
