/**
 * The level-order argument behind the optimality and completeness of the
 * queue-based maze searches. A search's queue is seen as a sequence of
 * (position, number of actions) items; every expanded position has the
 * number of actions with which it was first expanded, its level.
 */
module Frontier {
  import opened MazeEnv
  import opened Bag

  /** Some queue item stands at `n` with at most `bound` actions. */
  ghost predicate Within(items: seq<(Pos, nat)>, n: Pos, bound: nat) {
    exists k :: 0 <= k < |items| && items[k].0 == n && items[k].1 <= bound
  }

  /**
   * Every open neighbour of an expanded position is either expanded at most
   * one level later, or waiting in the queue at most one level later.
   */
  ghost predicate Closed(g: Grid, visited: set<Pos>, level: map<Pos, nat>, items: seq<(Pos, nat)>)
    requires visited <= level.Keys
  {
    forall v, a :: v in visited && IsAction(a) && Neighbour(v, a) in OpenCells(g) ==>
      (Neighbour(v, a) in visited && level[Neighbour(v, a)] <= level[v] + 1)
      || (Neighbour(v, a) !in visited && Within(items, Neighbour(v, a), level[v] + 1))
  }

  /** The start is expanded at level 0, or it is still waiting with no actions. */
  ghost predicate Rooted(start: Pos, visited: set<Pos>, level: map<Pos, nat>, items: seq<(Pos, nat)>)
    requires visited <= level.Keys
  {
    (start in visited && level[start] == 0) || (start !in visited && Within(items, start, 0))
  }

  lemma ReplayStep(s: Situation, acts: seq<int>, j: nat)
    requires AllActions(acts) && 0 < j <= |acts|
    ensures Replay(s, acts[..j]).position == Neighbour(Replay(s, acts[..j - 1]).position, acts[j - 1])
  {
    assert acts[..j][..j - 1] == acts[..j - 1];
    assert Replay(s, acts[..j]) == MakeMove(Replay(s, acts[..j - 1]), acts[j - 1]);
  }

  lemma StepIsOpen(s: Situation, acts: seq<int>, j: nat)
    requires AllActions(acts) && ValidWalk(s, acts) && 0 < j <= |acts|
    ensures Replay(s, acts[..j]).position in OpenCells(s.maze)
  {
    ValidIsOpen(Replay(s, acts[..j]));
    ReplayKeepsMaze(s, acts[..j]);
  }

  /** Along a route whose first `j + 1` positions are all expanded, position `j` has level at most `j`. */
  lemma {:induction false} LevelsAlong(s: Situation, acts: seq<int>, j: nat,
                                       visited: set<Pos>, level: map<Pos, nat>, items: seq<(Pos, nat)>)
    requires AllActions(acts) && ValidWalk(s, acts) && j <= |acts|
    requires visited <= level.Keys
    requires Closed(s.maze, visited, level, items) && Rooted(s.position, visited, level, items)
    requires forall i :: 0 <= i <= j ==> Replay(s, acts[..i]).position in visited
    ensures level[Replay(s, acts[..j]).position] <= j
  {
    if j == 0 {
      assert acts[..0] == [];
    } else {
      LevelsAlong(s, acts, j - 1, visited, level, items);
      ReplayStep(s, acts, j);
      StepIsOpen(s, acts, j);
      assert Replay(s, acts[..j - 1]).position in visited;
    }
  }

  lemma {:induction false} Scan(s: Situation, acts: seq<int>, j: nat,
                                visited: set<Pos>, level: map<Pos, nat>, items: seq<(Pos, nat)>)
    requires AllActions(acts) && ValidWalk(s, acts) && j <= |acts|
    requires visited <= level.Keys
    requires Closed(s.maze, visited, level, items) && Rooted(s.position, visited, level, items)
    requires forall i :: 0 <= i < j ==> Replay(s, acts[..i]).position in visited
    requires Replay(s, acts).position !in visited
    ensures exists k :: 0 <= k < |items| && items[k].1 <= |acts|
    decreases |acts| - j
  {
    var p := Replay(s, acts[..j]).position;
    if p !in visited {
      if j == 0 {
        assert acts[..0] == [];
      } else {
        FirstUnexpandedWaits(s, acts, j, visited, level, items);
      }
    } else {
      assert acts[..|acts|] == acts;
      Scan(s, acts, j + 1, visited, level, items);
    }
  }

  /** The first unexpanded position along a route, after the start, waits in the queue within its index. */
  lemma FirstUnexpandedWaits(s: Situation, acts: seq<int>, j: nat,
                             visited: set<Pos>, level: map<Pos, nat>, items: seq<(Pos, nat)>)
    requires AllActions(acts) && ValidWalk(s, acts) && 0 < j <= |acts|
    requires visited <= level.Keys
    requires Closed(s.maze, visited, level, items) && Rooted(s.position, visited, level, items)
    requires forall i :: 0 <= i < j ==> Replay(s, acts[..i]).position in visited
    requires Replay(s, acts[..j]).position !in visited
    ensures exists k :: 0 <= k < |items| && items[k].1 <= j
  {
    LevelsAlong(s, acts, j - 1, visited, level, items);
    ReplayStep(s, acts, j);
    StepIsOpen(s, acts, j);
    var v := Replay(s, acts[..j - 1]).position;
    assert v in visited;
    assert Within(items, Neighbour(v, acts[j - 1]), level[v] + 1);
  }

  /**
   * A route whose end has not been expanded passes through a waiting queue
   * item with no more actions than the route has.
   */
  lemma RouteMeetsFrontier(s: Situation, acts: seq<int>,
                           visited: set<Pos>, level: map<Pos, nat>, items: seq<(Pos, nat)>)
    requires AllActions(acts) && ValidWalk(s, acts)
    requires visited <= level.Keys
    requires Closed(s.maze, visited, level, items) && Rooted(s.position, visited, level, items)
    requires Replay(s, acts).position !in visited
    ensures exists k :: 0 <= k < |items| && items[k].1 <= |acts|
  {
    Scan(s, acts, 0, visited, level, items);
  }

  lemma WithinWithout(items: seq<(Pos, nat)>, m: nat, n: Pos, bound: nat)
    requires m < |items| && Within(items, n, bound) && items[m].0 != n
    ensures Within(Without(items, m), n, bound)
  {
    var k :| 0 <= k < |items| && items[k].0 == n && items[k].1 <= bound;
    if k < m {
      assert Without(items, m)[k] == items[k];
    } else {
      assert Without(items, m)[k - 1] == items[k];
    }
  }

  lemma WithinConcat(items: seq<(Pos, nat)>, more: seq<(Pos, nat)>, n: Pos, bound: nat)
    requires Within(items, n, bound)
    ensures Within(items + more, n, bound)
  {
    var k :| 0 <= k < |items| && items[k].0 == n && items[k].1 <= bound;
    assert (items + more)[k] == items[k];
  }

  /** Successor `a` of `s` is pushed when it is valid and its position has not been visited. */
  predicate Admissible(s: Situation, visited: set<Pos>, a: int)
    requires IsAction(a)
  {
    Valid(MakeMove(s, a)) && MakeMove(s, a).position !in visited
  }

  /** Every open neighbour of an expanded position is expanded or waiting. */
  ghost predicate Covered(g: Grid, visited: set<Pos>, waiting: seq<Pos>) {
    forall v, a :: v in visited && IsAction(a) && Neighbour(v, a) in OpenCells(g) ==>
      Neighbour(v, a) in visited || Neighbour(v, a) in waiting
  }

  lemma {:induction false} ScanWaiting(s: Situation, acts: seq<int>, j: nat, visited: set<Pos>, waiting: seq<Pos>)
    requires AllActions(acts) && ValidWalk(s, acts) && j <= |acts|
    requires Covered(s.maze, visited, waiting) && (s.position in visited || s.position in waiting)
    requires forall i :: 0 <= i < j ==> Replay(s, acts[..i]).position in visited
    requires Replay(s, acts).position !in visited
    ensures exists i :: 0 <= i <= |acts| && Replay(s, acts[..i]).position in waiting
    decreases |acts| - j
  {
    var p := Replay(s, acts[..j]).position;
    if p !in visited {
      if j == 0 {
        assert acts[..0] == [];
      } else {
        ReplayStep(s, acts, j);
        StepIsOpen(s, acts, j);
        assert Replay(s, acts[..j - 1]).position in visited;
      }
    } else {
      assert acts[..|acts|] == acts;
      ScanWaiting(s, acts, j + 1, visited, waiting);
    }
  }

  /**
   * A walk whose end has not been expanded passes through a waiting
   * position, so the search cannot have run out of work.
   */
  lemma RouteMeetsWaiting(s: Situation, acts: seq<int>, visited: set<Pos>, waiting: seq<Pos>)
    requires AllActions(acts) && ValidWalk(s, acts)
    requires Covered(s.maze, visited, waiting) && (s.position in visited || s.position in waiting)
    requires Replay(s, acts).position !in visited
    ensures waiting != []
  {
    ScanWaiting(s, acts, 0, visited, waiting);
  }

  /** Every position a search from `s` can hold: the open cells and the start, which is never checked. */
  function Universe(s: Situation): set<Pos> {
    OpenCells(s.maze) + {s.position}
  }

  /** A valid walk extended by a move to a valid situation is a valid walk to an open cell of the start's maze. */
  lemma WalkSnoc(init: Situation, acts: seq<int>, a: int)
    requires AllActions(acts) && IsAction(a) && ValidWalk(init, acts)
    requires Valid(MakeMove(Replay(init, acts), a))
    ensures AllActions(acts + [a])
    ensures Replay(init, acts + [a]) == MakeMove(Replay(init, acts), a)
    ensures ValidWalk(init, acts + [a])
    ensures Replay(init, acts + [a]).position in Universe(init)
  {
    var acts' := acts + [a];
    ReplayAppend(init, acts, a);
    ReplayKeepsMaze(init, acts');
    ValidIsOpen(Replay(init, acts'));
    forall i | 1 <= i <= |acts'| ensures Valid(Replay(init, acts'[..i])) {
      if i < |acts'| {
        assert acts'[..i] == acts[..i];
      } else {
        assert acts'[..i] == acts';
      }
    }
  }
}
