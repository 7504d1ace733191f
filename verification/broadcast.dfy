/** The broadcast queue of the gossip node: transactions waiting to be sent
    to every neighbour, kept in the order of `weightQueue`'s comparator,
    at most `QUEUE_SIZE` of them. The queue is a sorted set; it is modelled
    as the sequence of its elements in iteration order. */
module Broadcast {
  import opened Common
  import opened Tangle

  const QUEUE_SIZE: nat := 1000

  /** A Java `int`. */
  type Int32 = x: int | INT_MIN <= x <= INT_MAX

  /** What the comparator reads of a transaction. */
  datatype Queued = Queued(weightMagnitude: Int32, hash: Hash)

  /** The byte loop of the comparator from index `i` on:
      `y[k] - x[k]` at the first index `k` where the hashes differ, 0 when
      they agree from `i` to the end. Bytes are signed and the difference
      is taken in `int`, so it never wraps. */
  function HashDiff(x: Hash, y: Hash, i: nat): int
    requires i <= HASH_SIZE
    decreases HASH_SIZE - i
  {
    if i == HASH_SIZE then 0
    else if x[i] != y[i] then y[i] - x[i]
    else HashDiff(x, y, i + 1)
  }

  /** The comparator: negative when `a` is polled before `b`. Unequal
      weights compare by `b.weightMagnitude - a.weightMagnitude`, an `int`
      subtraction that wraps. */
  function Compare(a: Queued, b: Queued): int {
    if a.weightMagnitude == b.weightMagnitude then HashDiff(a.hash, b.hash, 0)
    else ToInt32(b.weightMagnitude - a.weightMagnitude)
  }

  /** `a` sorts strictly before `b` in the queue. */
  predicate Precedes(a: Queued, b: Queued) {
    Compare(a, b) < 0
  }

  // ---------------------------------------------------------------------
  // The intended order, stated independently

  /** `i` is the first index at which the hashes differ. */
  ghost predicate FirstDiffAt(x: Hash, y: Hash, i: int) {
    0 <= i < HASH_SIZE && x[..i] == y[..i] && x[i] != y[i]
  }

  /** At the first byte where they differ, `x`'s (signed) byte is larger. */
  ghost predicate HashAbove(x: Hash, y: Hash) {
    exists i :: FirstDiffAt(x, y, i) && x[i] > y[i]
  }

  /** Heavier transactions first; among equal weights, the hash that is
      larger at the first differing byte. */
  ghost predicate Before(a: Queued, b: Queued) {
    a.weightMagnitude > b.weightMagnitude ||
    (a.weightMagnitude == b.weightMagnitude && HashAbove(a.hash, b.hash))
  }

  /** Weight magnitudes count trailing zero trits, so they are never
      negative; then the weight subtraction cannot wrap. */
  predicate Counted(a: Queued) {
    a.weightMagnitude >= 0
  }

  lemma FirstDiffUnique(x: Hash, y: Hash, i: int, j: int)
    requires FirstDiffAt(x, y, i) && FirstDiffAt(x, y, j)
    ensures i == j
  {
  }

  lemma FirstDiffSymmetric(x: Hash, y: Hash, i: int)
    requires FirstDiffAt(x, y, i)
    ensures FirstDiffAt(y, x, i)
  {
  }

  lemma {:induction false} HashDiffSelf(x: Hash, i: nat)
    requires i <= HASH_SIZE
    ensures HashDiff(x, x, i) == 0
    decreases HASH_SIZE - i
  {
    if i < HASH_SIZE {
      HashDiffSelf(x, i + 1);
    }
  }

  /** A non-zero byte loop result is the difference at the first
      differing index; a zero one means the hashes are equal. */
  lemma {:induction false} HashDiffFinds(x: Hash, y: Hash, i: nat)
    requires i <= HASH_SIZE && x[..i] == y[..i]
    ensures HashDiff(x, y, i) == 0 ==> x == y
    ensures HashDiff(x, y, i) != 0 ==> exists k :: FirstDiffAt(x, y, k) && HashDiff(x, y, i) == y[k] as int - x[k] as int
    decreases HASH_SIZE - i
  {
    if i == HASH_SIZE {
      assert x == x[..i] && y == y[..i];
    } else if x[i] != y[i] {
      assert FirstDiffAt(x, y, i);
    } else {
      assert x[..i + 1] == x[..i] + [x[i]] && y[..i + 1] == y[..i] + [y[i]];
      HashDiffFinds(x, y, i + 1);
    }
  }

  /** The byte loop decides `HashAbove`. */
  lemma HashDiffMeans(x: Hash, y: Hash)
    ensures HashDiff(x, y, 0) == 0 <==> x == y
    ensures HashDiff(x, y, 0) < 0 <==> HashAbove(x, y)
  {
    assert x[..0] == y[..0];
    HashDiffFinds(x, y, 0);
    HashDiffSelf(x, 0);
    if HashAbove(x, y) {
      var i :| FirstDiffAt(x, y, i) && x[i] > y[i];
      var k :| FirstDiffAt(x, y, k) && HashDiff(x, y, 0) == y[k] as int - x[k] as int;
      FirstDiffUnique(x, y, i, k);
    }
  }

  lemma CompareSelf(a: Queued)
    ensures Compare(a, a) == 0
  {
    HashDiffSelf(a.hash, 0);
  }

  /** On counted entries the weight subtraction does not wrap. */
  lemma CompareCounted(a: Queued, b: Queued)
    requires Counted(a) && Counted(b)
    ensures a.weightMagnitude != b.weightMagnitude ==> Compare(a, b) == b.weightMagnitude - a.weightMagnitude
  {
  }

  /** The comparator decides exactly the intended order, and is zero only
      on identical entries. */
  lemma CompareMeans(a: Queued, b: Queued)
    requires Counted(a) && Counted(b)
    ensures Compare(a, b) == 0 <==> a == b
    ensures Precedes(a, b) <==> Before(a, b)
  {
    CompareCounted(a, b);
    HashDiffMeans(a.hash, b.hash);
  }

  lemma HashAboveTransitive(x: Hash, y: Hash, z: Hash)
    requires HashAbove(x, y) && HashAbove(y, z)
    ensures HashAbove(x, z)
  {
    var i :| FirstDiffAt(x, y, i) && x[i] > y[i];
    var j :| FirstDiffAt(y, z, j) && y[j] > z[j];
    if i < j {
      assert y[..j][i] == z[..j][i];
      assert y[..j][..i] == z[..j][..i];
      assert FirstDiffAt(x, z, i);
    } else if j < i {
      assert x[..i][j] == y[..i][j];
      assert x[..i][..j] == y[..i][..j];
      assert FirstDiffAt(x, z, j);
    } else {
      assert FirstDiffAt(x, z, i);
    }
  }

  lemma HashAboveAsymmetric(x: Hash, y: Hash)
    ensures !(HashAbove(x, y) && HashAbove(y, x))
  {
    if HashAbove(x, y) && HashAbove(y, x) {
      var i :| FirstDiffAt(x, y, i) && x[i] > y[i];
      var j :| FirstDiffAt(y, x, j) && y[j] > x[j];
      FirstDiffSymmetric(y, x, j);
      FirstDiffUnique(x, y, i, j);
    }
  }

  /** `Before` is a strict total order. */
  lemma BeforeIsStrictTotal(a: Queued, b: Queued, c: Queued)
    ensures !Before(a, a)
    ensures Before(a, b) ==> !Before(b, a)
    ensures Before(a, b) && Before(b, c) ==> Before(a, c)
    ensures a != b ==> Before(a, b) || Before(b, a)
  {
    HashAboveAsymmetric(a.hash, a.hash);
    HashAboveAsymmetric(a.hash, b.hash);
    if Before(a, b) && Before(b, c) && a.weightMagnitude == b.weightMagnitude == c.weightMagnitude {
      HashAboveTransitive(a.hash, b.hash, c.hash);
    }
    if a != b && a.weightMagnitude == b.weightMagnitude {
      HashDiffMeans(a.hash, b.hash);
      HashDiffMeans(b.hash, a.hash);
      if HashDiff(a.hash, b.hash, 0) > 0 {
        var k :| FirstDiffAt(a.hash, b.hash, k) && HashDiff(a.hash, b.hash, 0) == b.hash[k] as int - a.hash[k] as int by {
          assert a.hash[..0] == b.hash[..0];
          HashDiffFinds(a.hash, b.hash, 0);
        }
        FirstDiffSymmetric(a.hash, b.hash, k);
        assert HashAbove(b.hash, a.hash);
      }
    }
  }

  /** The comparator, on counted entries, is a strict total order whose
      ties are exactly equal entries. */
  lemma PrecedesIsStrictTotal(a: Queued, b: Queued, c: Queued)
    requires Counted(a) && Counted(b) && Counted(c)
    ensures !Precedes(a, a)
    ensures Precedes(a, b) ==> !Precedes(b, a)
    ensures Precedes(a, b) && Precedes(b, c) ==> Precedes(a, c)
    ensures a != b ==> Precedes(a, b) || Precedes(b, a)
  {
    CompareMeans(a, a);
    CompareMeans(a, b);
    CompareMeans(b, a);
    CompareMeans(b, c);
    CompareMeans(a, c);
    BeforeIsStrictTotal(a, b, c);
  }

  // ---------------------------------------------------------------------
  // The queue

  /** Strictly increasing in the comparator's order. */
  predicate Sorted(q: seq<Queued>) {
    forall i, j :: 0 <= i < j < |q| ==> Precedes(q[i], q[j])
  }

  predicate AllCounted(q: seq<Queued>) {
    forall i :: 0 <= i < |q| ==> Counted(q[i])
  }

  /** The skip-list `add`: an entry comparing equal to one present is not
      added; otherwise it goes before the first entry it precedes. */
  function Insert(q: seq<Queued>, t: Queued): seq<Queued> {
    if |q| == 0 then [t]
    else if Compare(t, q[0]) == 0 then q
    else if Compare(t, q[0]) < 0 then [t] + q
    else [q[0]] + Insert(q[1..], t)
  }

  lemma SortedTail(q: seq<Queued>)
    requires |q| > 0 && Sorted(q)
    ensures Sorted(q[1..])
    ensures forall y :: y in q[1..] ==> Precedes(q[0], y)
  {
    forall i, j | 0 <= i < j < |q| - 1 ensures Precedes(q[1..][i], q[1..][j]) {
      assert q[1..][i] == q[i + 1] && q[1..][j] == q[j + 1];
    }
    forall y | y in q[1..] ensures Precedes(q[0], y) {
      var j :| 0 <= j < |q[1..]| && q[1..][j] == y;
      assert q[j + 1] == y;
    }
  }

  lemma AllCountedTail(q: seq<Queued>)
    requires |q| > 0 && AllCounted(q)
    ensures AllCounted(q[1..])
  {
    forall i | 0 <= i < |q| - 1 ensures Counted(q[1..][i]) {
      assert q[1..][i] == q[i + 1];
    }
  }

  lemma SortedCons(x: Queued, q: seq<Queued>)
    requires Sorted(q) && forall y :: y in q ==> Precedes(x, y)
    ensures Sorted([x] + q)
  {
    var r := [x] + q;
    forall i, j | 0 <= i < j < |r| ensures Precedes(r[i], r[j]) {
      assert r[j] == q[j - 1];
      if i > 0 {
        assert r[i] == q[i - 1];
      }
    }
  }

  /** An entry that precedes the head goes in front and was not present. */
  lemma InsertFront(q: seq<Queued>, t: Queued)
    requires |q| > 0 && Sorted(q) && AllCounted(q) && Counted(t) && Precedes(t, q[0])
    ensures Sorted([t] + q) && t !in q
  {
    SortedTail(q);
    forall y | y in q ensures Precedes(t, y) && y != t {
      var j :| 0 <= j < |q| && q[j] == y;
      PrecedesIsStrictTotal(t, q[0], y);
      PrecedesIsStrictTotal(y, t, y);
    }
    SortedCons(t, q);
  }

  /** Insertion keeps the queue sorted and adds exactly `t`; an entry
      already present leaves the queue as it was. */
  lemma {:induction false} InsertFacts(q: seq<Queued>, t: Queued)
    requires Sorted(q) && AllCounted(q) && Counted(t)
    ensures Sorted(Insert(q, t))
    ensures Elems(Insert(q, t)) == Elems(q) + {t}
    ensures t in q <==> Insert(q, t) == q
    ensures |Insert(q, t)| == if t in q then |q| else |q| + 1
    decreases |q|, 1
  {
    if |q| > 0 {
      CompareMeans(t, q[0]);
      if Compare(t, q[0]) < 0 {
        InsertFront(q, t);
      } else if Compare(t, q[0]) > 0 {
        InsertLater(q, t);
      }
    }
  }

  /** An entry the head precedes goes into the rest of the queue. */
  lemma {:induction false} InsertLater(q: seq<Queued>, t: Queued)
    requires |q| > 0 && Sorted(q) && AllCounted(q) && Counted(t) && Compare(t, q[0]) > 0
    ensures Sorted(Insert(q, t))
    ensures Elems(Insert(q, t)) == Elems(q) + {t}
    ensures t in q <==> Insert(q, t) == q
    ensures |Insert(q, t)| == if t in q then |q| else |q| + 1
    decreases |q|, 0
  {
    var rest := q[1..];
    SortedTail(q);
    AllCountedTail(q);
    InsertFacts(rest, t);
    var ins := Insert(rest, t);
    assert Insert(q, t) == [q[0]] + ins;
    PrecedesIsStrictTotal(t, q[0], t);
    CompareMeans(t, q[0]);
    CompareMeans(q[0], t);
    forall y | y in ins ensures Precedes(q[0], y) {
      assert y in Elems(ins);
    }
    SortedCons(q[0], ins);
    assert q == [q[0]] + rest;
    assert Elems(q) == {q[0]} + Elems(rest);
    assert t in q <==> t in rest;
    if t !in q {
      assert Insert(q, t) != q by {
        assert |Insert(q, t)| == |q| + 1;
      }
    }
  }

  /** `broadcast`: add, then drop the last entry when the queue grew past
      its bound. */
  function Enqueue(q: seq<Queued>, t: Queued): seq<Queued> {
    var r := Insert(q, t);
    if |r| > QUEUE_SIZE then r[..|r| - 1] else r
  }

  /** A queue within its bound stays within it and sorted. Without
      overflow it gains exactly `t`; on overflow exactly one entry of the
      enlarged queue goes, the one every remaining entry precedes, which
      may be `t` itself. */
  lemma EnqueueFacts(q: seq<Queued>, t: Queued)
    requires Sorted(q) && AllCounted(q) && Counted(t) && |q| <= QUEUE_SIZE
    ensures Sorted(Enqueue(q, t)) && |Enqueue(q, t)| <= QUEUE_SIZE
    ensures |q| < QUEUE_SIZE || t in q ==> Elems(Enqueue(q, t)) == Elems(q) + {t}
    ensures |q| == QUEUE_SIZE && t !in q ==>
      exists m :: && m in Elems(q) + {t}
                  && m !in Enqueue(q, t)
                  && Elems(Enqueue(q, t)) == Elems(q) + {t} - {m}
                  && forall y :: y in Enqueue(q, t) ==> Precedes(y, m)
  {
    InsertFacts(q, t);
    var r := Insert(q, t);
    if |r| > QUEUE_SIZE {
      var m := r[|r| - 1];
      var kept := r[..|r| - 1];
      assert r == kept + [m];
      forall y | y in kept ensures Precedes(y, m) && y != m {
        var j :| 0 <= j < |kept| && kept[j] == y;
        assert r[j] == y;
        CompareSelf(y);
      }
      assert Elems(kept) == Elems(r) - {m};
      assert Sorted(kept) by {
        forall i, j | 0 <= i < j < |kept| ensures Precedes(kept[i], kept[j]) {
          assert kept[i] == r[i] && kept[j] == r[j];
        }
      }
    }
  }

  /** `pollFirst`: the broadcaster takes the first entry, if any. */
  function PollFirst(q: seq<Queued>): (Option<Queued>, seq<Queued>) {
    if |q| == 0 then (None, q) else (Some(q[0]), q[1..])
  }

  /** The entry taken precedes every entry left, and nothing else leaves. */
  lemma PollFirstTakesBest(q: seq<Queued>)
    requires Sorted(q)
    ensures PollFirst(q).0.None? <==> |q| == 0
    ensures PollFirst(q).0.Some? ==>
      var (x, rest) := PollFirst(q);
      && Sorted(rest)
      && Elems(rest) == Elems(q) - {x.value}
      && forall y :: y in rest ==> Precedes(x.value, y)
  {
    if |q| > 0 {
      SortedTail(q);
      assert q == [q[0]] + q[1..];
      forall y | y in q[1..] ensures Precedes(q[0], y) && y != q[0] {
        var j :| 0 <= j < |q[1..]| && q[1..][j] == y;
        assert q[j + 1] == y;
        CompareSelf(y);
      }
    }
  }
}
