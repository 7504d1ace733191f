/** Small shared vocabulary: optional values, duplicate-free sequences and
    Java's fixed-width integer behaviour, written out explicitly. */
module Common {

  datatype Option<+T> = None | Some(value: T)

  /** A Java `byte`: signed, eight bits. */
  type Byte = x: int | -128 <= x < 128

  const INT_MIN: int := -0x8000_0000
  const INT_MAX: int := 0x7fff_ffff
  const LONG_MAX: int := 0x7fff_ffff_ffff_ffff

  /** No element occurs twice. */
  predicate Distinct<T(==)>(s: seq<T>) {
    forall i, j :: 0 <= i < j < |s| ==> s[i] != s[j]
  }

  /** Concatenation is duplicate-free iff both parts are and they share
      nothing. */
  lemma DistinctConcat<T>(a: seq<T>, b: seq<T>)
    ensures Distinct(a + b) <==> Distinct(a) && Distinct(b) && Elems(a) !! Elems(b)
  {
    if Distinct(a + b) {
      forall i, j | 0 <= i < j < |a| ensures a[i] != a[j] {
        assert (a + b)[i] == a[i] && (a + b)[j] == a[j];
      }
      forall i, j | 0 <= i < j < |b| ensures b[i] != b[j] {
        assert (a + b)[|a| + i] == b[i] && (a + b)[|a| + j] == b[j];
      }
      forall i, j | 0 <= i < |a| && 0 <= j < |b| ensures a[i] != b[j] {
        assert (a + b)[i] == a[i] && (a + b)[|a| + j] == b[j];
      }
    }
    if Distinct(a) && Distinct(b) && Elems(a) !! Elems(b) {
      forall i, j | 0 <= i < j < |a + b| ensures (a + b)[i] != (a + b)[j] {
        if j < |a| {
          assert (a + b)[i] == a[i] && (a + b)[j] == a[j];
        } else if i >= |a| {
          assert (a + b)[i] == b[i - |a|] && (a + b)[j] == b[j - |a|];
        } else {
          assert (a + b)[i] == a[i] && a[i] in Elems(a);
          assert (a + b)[j] == b[j - |a|] && b[j - |a|] in Elems(b);
        }
      }
    }
  }

  /** The set of a sequence's elements. */
  function Elems<T>(s: seq<T>): set<T> {
    set x | x in s
  }

  /** Duplicate-free means every element is counted once. */
  lemma {:induction false} DistinctIffSingleCounts<T>(s: seq<T>)
    ensures Distinct(s) <==> forall x :: multiset(s)[x] <= 1
  {
    if |s| > 0 {
      DistinctIffSingleCounts(s[1..]);
      assert s == [s[0]] + s[1..];
      DistinctConcat([s[0]], s[1..]);
      assert Elems([s[0]]) == {s[0]};
      var rest := s[1..];
      assert multiset(s) == multiset{s[0]} + multiset(rest);
      if Distinct(s) {
        forall x ensures multiset(s)[x] <= 1 {
          if x == s[0] {
            assert x !in Elems(rest);
            assert multiset(rest)[x] == 0;
          }
        }
      }
      if forall x :: multiset(s)[x] <= 1 {
        assert multiset(s)[s[0]] <= 1;
        assert s[0] !in rest;
        assert s[0] !in Elems(rest);
        forall x ensures multiset(rest)[x] <= 1 {
          assert multiset(rest)[x] <= multiset(s)[x];
        }
      }
    }
  }

  /** Two duplicate-free orderings of the same elements are permutations of
      each other. */
  lemma SameElemsSameBag<T>(a: seq<T>, b: seq<T>)
    requires Distinct(a) && Distinct(b) && Elems(a) == Elems(b)
    ensures multiset(a) == multiset(b)
  {
    DistinctIffSingleCounts(a);
    DistinctIffSingleCounts(b);
    forall x ensures multiset(a)[x] == multiset(b)[x] {
      assert x in a <==> x in Elems(a);
      assert x in b <==> x in Elems(b);
    }
  }

  lemma SameBagSameElems<T>(a: seq<T>, b: seq<T>)
    requires multiset(a) == multiset(b)
    ensures Elems(a) == Elems(b)
  {
    forall x ensures x in Elems(a) <==> x in Elems(b) {
      assert x in a <==> x in multiset(a);
      assert x in b <==> x in multiset(b);
    }
  }

  /** Splits a sequence around one occurrence of an element. */
  lemma SplitAt<T>(b: seq<T>, x: T) returns (j: nat)
    requires x in multiset(b)
    ensures j < |b| && b[j] == x
    ensures b == b[..j] + [x] + b[j + 1..]
    ensures multiset(b[..j] + b[j + 1..]) == multiset(b) - multiset{x}
  {
    assert x in b;
    j :| 0 <= j < |b| && b[j] == x;
    assert b == b[..j] + [x] + b[j + 1..];
    calc {
      multiset(b);
      multiset(b[..j] + [x] + b[j + 1..]);
      multiset(b[..j]) + multiset{x} + multiset(b[j + 1..]);
    }
  }

  /** The elements satisfying `keep`, in their original order. */
  function Filter<T(!new)>(s: seq<T>, keep: T -> bool): (r: seq<T>)
    ensures forall x :: x in r <==> x in s && keep(x)
    ensures forall i :: 0 <= i < |r| ==> keep(r[i])
  {
    if |s| == 0 then []
    else
      var rest := Filter(s[1..], keep);
      if keep(s[0]) then [s[0]] + rest else rest
  }

  /** Filtering keeps each kept element's count and drops the rest. */
  lemma {:induction false} FilterCounts<T(!new)>(s: seq<T>, keep: T -> bool)
    ensures forall x :: multiset(Filter(s, keep))[x] == if keep(x) then multiset(s)[x] else 0
  {
    if |s| > 0 {
      FilterCounts(s[1..], keep);
      assert s == [s[0]] + s[1..];
    }
  }

  lemma FilterKeepsDistinct<T(!new)>(s: seq<T>, keep: T -> bool)
    requires Distinct(s)
    ensures Distinct(Filter(s, keep))
  {
    FilterCounts(s, keep);
    DistinctIffSingleCounts(s);
    DistinctIffSingleCounts(Filter(s, keep));
  }

  /** The kept elements followed by the others are a permutation. */
  lemma FilterPartition<T(!new)>(s: seq<T>, keep: T -> bool, drop: T -> bool)
    requires forall x :: drop(x) == !keep(x)
    ensures multiset(Filter(s, keep) + Filter(s, drop)) == multiset(s)
  {
    FilterCounts(s, keep);
    FilterCounts(s, drop);
  }

  /** Java's `(int)` cast of an integral value: keep the low 32 bits and
      read them as two's complement. */
  function ToInt32(x: int): (r: int)
    ensures INT_MIN <= r <= INT_MAX
    ensures (r - x) % 0x1_0000_0000 == 0
    ensures INT_MIN <= x <= INT_MAX ==> r == x
  {
    var m := x % 0x1_0000_0000;
    if m <= INT_MAX then m else m - 0x1_0000_0000
  }

  /** Java's integer division, which truncates toward zero (Dafny's `/`
      is Euclidean). */
  function JavaDiv(a: int, b: int): (q: int)
    requires b > 0
    ensures a >= 0 ==> q * b <= a < q * b + b
    ensures a < 0 ==> q * b - b < a <= q * b
  {
    if a >= 0 then a / b else -((-a) / b)
  }
}
