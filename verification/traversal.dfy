/** The breadth-first walks of tip selection. All three share one shape: a
    FIFO worklist, a visited set that may start non-empty (a restored
    snapshot), and a rule that stops the walk at the first offending
    transaction it visits. */
module Traversal {
  import opened Common
  import opened Tangle

  /** Backward follows trunk and branch; Forward follows the approver index. */
  datatype Direction = Backward | Forward

  /** When a walk gives up: never, at a placeholder slot, or (for the
      confirmation walk) also at a tail whose bundle has no list starting
      at it. */
  datatype Halt = Never | AtMissing | AtMissingOrOrphanTail

  function Succ(env: Env, dir: Direction, p: Ptr): seq<Ptr> {
    match dir
    case Backward =>
      if Missing(env.store, p) then [] else [Load(env.store, p).trunk, Load(env.store, p).branch]
    case Forward =>
      if p in env.approvers then env.approvers[p] else []
  }

  predicate Halts(env: Env, halt: Halt, p: Ptr) {
    match halt
    case Never => false
    case AtMissing => Missing(env.store, p)
    case AtMissingOrOrphanTail =>
      Missing(env.store, p) || (IsTail(env.store, p) && TailGroup(env, p).None?)
  }

  /** Every pointer some edge leads to; finite, so walks terminate. */
  function AllSucc(env: Env, dir: Direction): (all: set<Ptr>)
    ensures forall p, q :: q in Succ(env, dir, p) ==> q in all
  {
    match dir
    case Backward =>
      (set p | p in env.store && !env.store[p].prefilled :: env.store[p].trunk)
      + (set p | p in env.store && !env.store[p].prefilled :: env.store[p].branch)
    case Forward =>
      set p, i | p in env.approvers && 0 <= i < |env.approvers[p]| :: env.approvers[p][i]
  }

  /** `S` contains the start (unless it was already visited) and is closed
      under the edges that lead outside the already-visited set. */
  ghost predicate Closed(env: Env, dir: Direction, start: Ptr, blocked: set<Ptr>, S: set<Ptr>) {
    && (start !in blocked ==> start in S)
    && forall p, q :: p in S && q in Succ(env, dir, p) && q !in blocked ==> q in S
  }

  /** `R` is the smallest such set: what a complete walk reaches. */
  ghost predicate Least(env: Env, dir: Direction, start: Ptr, blocked: set<Ptr>, R: set<Ptr>) {
    && Closed(env, dir, start, blocked, R)
    && forall S :: Closed(env, dir, start, blocked, S) ==> R <= S
  }

  /** Breadth-first walk from `start` with the visited set seeded by
      `blocked`. Returns the visit order; `halted` says the walk stopped at
      its last visited pointer. Each pointer is visited (and counted) once,
      nothing already visited is revisited, only what is reachable is
      visited, and a walk that did not halt visited everything reachable. */
  method Walk(env: Env, dir: Direction, start: Ptr, blocked: set<Ptr>, halt: Halt)
    returns (order: seq<Ptr>, halted: bool)
    ensures Distinct(order)
    ensures forall i :: 0 <= i < |order| ==> order[i] !in blocked
    ensures forall S :: Closed(env, dir, start, blocked, S) ==> Elems(order) <= S
    ensures halted ==> |order| > 0 && Halts(env, halt, order[|order| - 1])
    ensures forall i :: 0 <= i < |order| && (i < |order| - 1 || !halted) ==> !Halts(env, halt, order[i])
    ensures !halted ==> Least(env, dir, start, blocked, Elems(order))
  {
    var dom := {start} + AllSucc(env, dir);
    var w := Frontier([], {}, blocked, [start], false);
    StartInv(env, dir, start, blocked, halt, dom);
    while |w.queue| > 0 && !w.halted
      invariant Inv(env, dir, start, blocked, halt, dom, w)
      decreases |dom - w.visited|, |w.queue|
    {
      StepKeepsInv(env, dir, start, blocked, halt, dom, w);
      w := Step(env, dir, halt, w);
    }
    Finish(env, dir, start, blocked, halt, dom, w);
    order, halted := w.order, w.halted;
  }

  lemma StartInv(env: Env, dir: Direction, start: Ptr, blocked: set<Ptr>, halt: Halt, dom: set<Ptr>)
    requires dom == {start} + AllSucc(env, dir)
    ensures Inv(env, dir, start, blocked, halt, dom, Frontier([], {}, blocked, [start], false))
  {
    assert Elems<Ptr>([]) == {};
  }

  /** When the loop ends, the ensures of `Walk` hold. */
  lemma Finish(env: Env, dir: Direction, start: Ptr, blocked: set<Ptr>, halt: Halt, dom: set<Ptr>, w: Frontier)
    requires Inv(env, dir, start, blocked, halt, dom, w)
    requires |w.queue| == 0 || w.halted
    ensures Distinct(w.order)
    ensures forall i :: 0 <= i < |w.order| ==> w.order[i] !in blocked
    ensures forall S :: Closed(env, dir, start, blocked, S) ==> Elems(w.order) <= S
    ensures w.halted ==> |w.order| > 0 && Halts(env, halt, w.order[|w.order| - 1])
    ensures forall i :: 0 <= i < |w.order| && (i < |w.order| - 1 || !w.halted) ==> !Halts(env, halt, w.order[i])
    ensures !w.halted ==> Least(env, dir, start, blocked, Elems(w.order))
  {
    if !w.halted {
      assert w.queue == [];
      WalkDone(env, dir, start, blocked, halt, dom, w.order, w.reached, w.visited);
    }
  }

  /** The walk's state: visit order, the pointers it visited itself, the
      visited set (seeded with the blocked ones), the worklist, and whether
      it stopped. */
  datatype Frontier = Frontier(order: seq<Ptr>, reached: set<Ptr>, visited: set<Ptr>, queue: seq<Ptr>, halted: bool)

  /** One poll of the worklist: skip a visited pointer; otherwise visit it,
      and either stop there or queue its successors. */
  function Step(env: Env, dir: Direction, halt: Halt, w: Frontier): Frontier
    requires |w.queue| > 0
  {
    var p := w.queue[0];
    if p in w.visited then w.(queue := w.queue[1..])
    else if Halts(env, halt, p) then Frontier(w.order + [p], w.reached + {p}, w.visited + {p}, w.queue[1..], true)
    else Frontier(w.order + [p], w.reached + {p}, w.visited + {p}, w.queue[1..] + Succ(env, dir, p), false)
  }

  /** What a walk that stopped at its last pointer guarantees. */
  ghost predicate HaltedAtLast(env: Env, dir: Direction, start: Ptr, blocked: set<Ptr>, halt: Halt, order: seq<Ptr>) {
    && Distinct(order)
    && (forall i :: 0 <= i < |order| ==> order[i] !in blocked)
    && (forall S :: Closed(env, dir, start, blocked, S) ==> Elems(order) <= S)
    && |order| > 0 && Halts(env, halt, order[|order| - 1])
    && (forall i :: 0 <= i < |order| - 1 ==> !Halts(env, halt, order[i]))
  }

  ghost predicate Inv(env: Env, dir: Direction, start: Ptr, blocked: set<Ptr>, halt: Halt, dom: set<Ptr>, w: Frontier) {
    if w.halted then HaltedAtLast(env, dir, start, blocked, halt, w.order)
    else WalkInv(env, dir, start, blocked, halt, dom, w.order, w.reached, w.visited, w.queue)
  }

  /** A step keeps the invariant and shrinks the unvisited part of the
      domain, or keeps it and shortens the worklist. */
  lemma StepKeepsInv(env: Env, dir: Direction, start: Ptr, blocked: set<Ptr>, halt: Halt, dom: set<Ptr>, w: Frontier)
    requires Inv(env, dir, start, blocked, halt, dom, w)
    requires |w.queue| > 0 && !w.halted
    ensures Inv(env, dir, start, blocked, halt, dom, Step(env, dir, halt, w))
    ensures var w' := Step(env, dir, halt, w);
      |dom - w'.visited| < |dom - w.visited| || (w'.visited == w.visited && |w'.queue| < |w.queue|)
  {
    var p := w.queue[0];
    if p in w.visited {
      SkipPreservesInv(env, dir, start, blocked, halt, dom, w.order, w.reached, w.visited, w.queue);
    } else {
      VisitFacts(env, dir, start, blocked, halt, dom, w.order, w.reached, w.visited, w.queue);
      if !Halts(env, halt, p) {
        VisitKeepsInv(env, dir, start, blocked, halt, dom, w.order, w.reached, w.visited, w.queue);
      } else {
        var o := w.order + [p];
        assert o[|o| - 1] == p;
        assert forall i :: 0 <= i < |o| - 1 ==> o[i] == w.order[i];
      }
    }
  }

  /** An empty worklist: the reached set is closed, hence the least one. */
  lemma WalkDone(env: Env, dir: Direction, start: Ptr, blocked: set<Ptr>, halt: Halt, dom: set<Ptr>,
                 order: seq<Ptr>, reached: set<Ptr>, visited: set<Ptr>)
    requires WalkInv(env, dir, start, blocked, halt, dom, order, reached, visited, [])
    ensures Distinct(order)
    ensures forall i :: 0 <= i < |order| ==> order[i] !in blocked
    ensures forall S :: Closed(env, dir, start, blocked, S) ==> Elems(order) <= S
    ensures forall i :: 0 <= i < |order| ==> !Halts(env, halt, order[i])
    ensures Least(env, dir, start, blocked, Elems(order))
  {
    forall i | 0 <= i < |order| ensures order[i] !in blocked && !Halts(env, halt, order[i]) {
      assert order[i] in reached;
    }
    forall p, q | p in reached && q in Succ(env, dir, p) && q !in blocked
      ensures q in reached
    {
      assert q in visited || q in [];
    }
    assert Closed(env, dir, start, blocked, reached);
  }

  /** The loop invariant of `Walk`. */
  ghost predicate WalkInv(env: Env, dir: Direction, start: Ptr, blocked: set<Ptr>, halt: Halt, dom: set<Ptr>,
                          order: seq<Ptr>, reached: set<Ptr>, visited: set<Ptr>, queue: seq<Ptr>) {
    && dom == {start} + AllSucc(env, dir)
    && visited == blocked + reached
    && reached == Elems(order)
    && (forall i :: 0 <= i < |order| ==> order[i] in reached)
    && Distinct(order)
    && reached !! blocked
    && (forall x :: x in reached ==> !Halts(env, halt, x))
    && (forall q :: q in queue ==> q in dom)
    && (forall p, q :: p in reached && q in Succ(env, dir, p) ==> q in visited || q in queue)
    && (start in visited || start in queue)
    && (forall S :: Closed(env, dir, start, blocked, S) ==>
          reached <= S && (forall q :: q in queue && q !in blocked ==> q in S))
  }

  lemma SkipPreservesInv(env: Env, dir: Direction, start: Ptr, blocked: set<Ptr>, halt: Halt, dom: set<Ptr>,
                         order: seq<Ptr>, reached: set<Ptr>, visited: set<Ptr>, queue: seq<Ptr>)
    requires WalkInv(env, dir, start, blocked, halt, dom, order, reached, visited, queue)
    requires |queue| > 0 && queue[0] in visited
    ensures WalkInv(env, dir, start, blocked, halt, dom, order, reached, visited, queue[1..])
  {
    var p, rest := queue[0], queue[1..];
    assert queue == [p] + rest;
    FrontierStep(env, dir, reached, visited, p, rest);
    forall S | Closed(env, dir, start, blocked, S)
      ensures forall q :: q in rest && q !in blocked ==> q in S
    {
      forall q | q in rest && q !in blocked
        ensures q in S
      {
        assert q in [p] + rest;
      }
    }
    forall q | q in rest ensures q in dom {
      assert q in [p] + rest;
    }
  }

  /** What visiting a fresh `p` establishes whether or not it stops the
      walk. */
  lemma VisitFacts(env: Env, dir: Direction, start: Ptr, blocked: set<Ptr>, halt: Halt, dom: set<Ptr>,
                   order: seq<Ptr>, reached: set<Ptr>, visited: set<Ptr>, queue: seq<Ptr>)
    requires WalkInv(env, dir, start, blocked, halt, dom, order, reached, visited, queue)
    requires |queue| > 0 && queue[0] !in visited
    ensures var p := queue[0]; |dom - (visited + {p})| < |dom - visited|
    ensures var p := queue[0]; Distinct(order + [p])
    ensures var p := queue[0]; forall i :: 0 <= i < |order + [p]| ==> (order + [p])[i] !in blocked
    ensures var p := queue[0]; forall S :: Closed(env, dir, start, blocked, S) ==> Elems(order + [p]) <= S
    ensures var p := queue[0]; forall i :: 0 <= i < |order| ==> !Halts(env, halt, (order + [p])[i])
  {
    var p, rest := queue[0], queue[1..];
    assert queue == [p] + rest;
    assert p in [p] + rest;
    assert dom - (visited + {p}) == (dom - visited) - {p};
    forall i | 0 <= i < |order + [p]| ensures (order + [p])[i] in reached + {p} {
      if i < |order| {
        assert (order + [p])[i] == order[i];
      }
    }
    WalkStep(env, dir, start, blocked, reached, p, rest);
  }

  lemma VisitKeepsInv(env: Env, dir: Direction, start: Ptr, blocked: set<Ptr>, halt: Halt, dom: set<Ptr>,
                      order: seq<Ptr>, reached: set<Ptr>, visited: set<Ptr>, queue: seq<Ptr>)
    requires WalkInv(env, dir, start, blocked, halt, dom, order, reached, visited, queue)
    requires |queue| > 0 && queue[0] !in visited && !Halts(env, halt, queue[0])
    ensures var p := queue[0];
      WalkInv(env, dir, start, blocked, halt, dom, order + [p], reached + {p}, visited + {p}, queue[1..] + Succ(env, dir, p))
  {
    var p, rest := queue[0], queue[1..];
    assert queue == [p] + rest;
    assert p in [p] + rest;
    assert Elems(order + [p]) == reached + {p};
    forall i | 0 <= i < |order + [p]| ensures (order + [p])[i] in reached + {p} {
      if i < |order| {
        assert (order + [p])[i] == order[i];
      }
    }
    WalkStep(env, dir, start, blocked, reached, p, rest);
    FrontierStep(env, dir, reached, visited, p, rest);
    forall q | q in rest + Succ(env, dir, p) ensures q in dom {
      if q in rest {
        assert q in [p] + rest;
      }
    }
    if start !in visited && start !in rest {
      assert start == p;
    }
  }

  /** Popping `p`: every edge out of the reached set still ends in the
      visited set or the worklist, once `p` is visited and its successors
      are queued. */
  lemma FrontierStep(env: Env, dir: Direction, reached: set<Ptr>, visited: set<Ptr>, p: Ptr, rest: seq<Ptr>)
    requires forall p0, q :: p0 in reached && q in Succ(env, dir, p0) ==> q in visited || q in [p] + rest
    ensures p in visited ==>
      forall p0, q :: p0 in reached && q in Succ(env, dir, p0) ==> q in visited || q in rest
    ensures forall p0, q :: p0 in reached + {p} && q in Succ(env, dir, p0) ==> q in visited + {p} || q in rest + Succ(env, dir, p)
  {
  }

  /** Visiting `p` from the head of the worklist keeps every closed set
      containing what has been reached and what is queued. */
  lemma WalkStep(env: Env, dir: Direction, start: Ptr, blocked: set<Ptr>, reached: set<Ptr>, p: Ptr, rest: seq<Ptr>)
    requires p !in blocked
    requires forall S :: Closed(env, dir, start, blocked, S) ==> reached <= S && (forall q :: q in [p] + rest && q !in blocked ==> q in S)
    ensures forall S :: Closed(env, dir, start, blocked, S) ==>
      reached + {p} <= S && (forall q :: q in rest + Succ(env, dir, p) && q !in blocked ==> q in S)
  {
    forall S | Closed(env, dir, start, blocked, S)
      ensures reached + {p} <= S && (forall q :: q in rest + Succ(env, dir, p) && q !in blocked ==> q in S)
    {
      assert p in [p] + rest;
      forall q | q in rest + Succ(env, dir, p) && q !in blocked
        ensures q in S
      {
        if q in rest {
          assert q in [p] + rest;
        }
      }
    }
  }

  /** A walk's outcome is decided by the least reachable set alone: it
      halts iff that set contains a pointer the rule stops at. */
  lemma HaltsIffReachableOffender(env: Env, dir: Direction, start: Ptr, blocked: set<Ptr>, halt: Halt,
                                  order: seq<Ptr>, halted: bool, R: set<Ptr>)
    requires forall S :: Closed(env, dir, start, blocked, S) ==> Elems(order) <= S
    requires halted ==> |order| > 0 && Halts(env, halt, order[|order| - 1])
    requires forall i :: 0 <= i < |order| && (i < |order| - 1 || !halted) ==> !Halts(env, halt, order[i])
    requires !halted ==> Least(env, dir, start, blocked, Elems(order))
    requires Least(env, dir, start, blocked, R)
    ensures halted <==> exists p :: p in R && Halts(env, halt, p)
    ensures !halted ==> R == Elems(order)
  {
    if halted {
      var last := order[|order| - 1];
      assert last in Elems(order);
      assert Elems(order) <= R;
    } else {
      assert R <= Elems(order) && Elems(order) <= R;
      forall p | p in R
        ensures !Halts(env, halt, p)
      {
        assert p in Elems(order);
        var i :| 0 <= i < |order| && order[i] == p;
      }
    }
  }
}
