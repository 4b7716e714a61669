/**
 * Uniform-cost search over the maze (solvers/ucs.py). The heap is a bag
 * from which some entry of least cost is popped; a situation is marked
 * visited when popped, and successors are pushed with cost one more.
 */
module Ucs {
  import opened Wrappers
  import opened Bag
  import opened MazeEnv
  import opened Frontier

  /** A heap entry: the cost so far, the situation, the actions from the start. */
  datatype Entry = Entry(cost: nat, situation: Situation, actions: seq<int>)

  function Items(q: seq<Entry>): (items: seq<(Pos, nat)>)
    ensures |items| == |q|
    ensures forall k :: 0 <= k < |q| ==> items[k] == (q[k].situation.position, q[k].cost)
  {
    seq(|q|, k requires 0 <= k < |q| => (q[k].situation.position, q[k].cost))
  }

  function Positions(q: seq<Entry>): (ps: seq<Pos>)
    ensures |ps| == |q|
    ensures forall k :: 0 <= k < |q| ==> ps[k] == q[k].situation.position
  {
    seq(|q|, k requires 0 <= k < |q| => q[k].situation.position)
  }

  /** An entry's cost is the length of its actions, which walk validly from the start to its situation. */
  ghost predicate EntryOk(init: Situation, e: Entry) {
    && e.cost == |e.actions|
    && AllActions(e.actions)
    && e.situation == Replay(init, e.actions)
    && ValidWalk(init, e.actions)
    && e.situation.position in Universe(init)
  }

  /** The loop invariant of `ucs`, with the ghost level of each visited position and the last popped cost. */
  ghost predicate Inv(init: Situation, q: seq<Entry>, visited: set<Pos>, level: map<Pos, nat>, depth: nat) {
    && visited == level.Keys
    && visited <= Universe(init)
    && init.goal !in visited
    && (forall k :: 0 <= k < |q| ==> EntryOk(init, q[k]))
    && (forall k :: 0 <= k < |q| ==> depth <= q[k].cost)
    && (forall v :: v in visited ==> level[v] <= depth)
    && Closed(init.maze, visited, level, Items(q))
    && Rooted(init.position, visited, level, Items(q))
  }

  /** Index `m` holds an entry of least cost. */
  predicate Cheapest(q: seq<Entry>, m: nat) {
    m < |q| && forall k :: 0 <= k < |q| ==> q[m].cost <= q[k].cost
  }

  lemma {:induction false} CheapestExists(q: seq<Entry>)
    requires q != []
    ensures exists m: nat :: Cheapest(q, m)
    decreases |q|
  {
    if |q| == 1 {
      assert Cheapest(q, 0);
    } else {
      CheapestExists(q[1..]);
      var m: nat :| Cheapest(q[1..], m);
      assert forall k :: 1 <= k < |q| ==> q[1..][k - 1] == q[k];
      if q[0].cost <= q[m + 1].cost {
        assert Cheapest(q, 0);
      } else {
        assert Cheapest(q, m + 1);
      }
    }
  }

  /** The successors pushed for actions `0 .. upto - 1`, in action order. */
  function Pushes(s: Situation, visited: set<Pos>, cost: nat, actions: seq<int>, upto: nat): seq<Entry>
    requires upto <= 4
  {
    if upto == 0 then []
    else
      Pushes(s, visited, cost, actions, upto - 1)
        + (if Admissible(s, visited, upto - 1)
           then [Entry(cost + 1, MakeMove(s, upto - 1), actions + [upto - 1])] else [])
  }

  /** Every admissible successor is pushed, with cost one more and its action appended. */
  lemma {:induction false} PushesHas(s: Situation, visited: set<Pos>, cost: nat, actions: seq<int>, upto: nat, a: int)
    requires upto <= 4 && 0 <= a < upto && Admissible(s, visited, a)
    ensures Entry(cost + 1, MakeMove(s, a), actions + [a]) in Pushes(s, visited, cost, actions, upto)
  {
    var e := Entry(cost + 1, MakeMove(s, a), actions + [a]);
    if a < upto - 1 {
      PushesHas(s, visited, cost, actions, upto - 1, a);
    } else {
      assert Pushes(s, visited, cost, actions, upto) == Pushes(s, visited, cost, actions, upto - 1) + [e];
    }
  }

  /** Every pushed entry is a valid, unvisited successor of the popped one that replays from the start. */
  lemma {:induction false} PushesOk(init: Situation, e: Entry, visited: set<Pos>, upto: nat)
    requires EntryOk(init, e) && upto <= 4
    ensures forall x :: x in Pushes(e.situation, visited, e.cost, e.actions, upto) ==>
      EntryOk(init, x) && x.cost == e.cost + 1 && x.situation.position !in visited
  {
    if upto > 0 {
      PushesOk(init, e, visited, upto - 1);
      var a := upto - 1;
      if Admissible(e.situation, visited, a) {
        var acts := e.actions + [a];
        var x := Entry(e.cost + 1, MakeMove(e.situation, a), acts);
        WalkSnoc(init, e.actions, a);
        assert EntryOk(init, x);
      }
    }
  }

  /** The state after popping entry `m` and pushing its successors. */
  ghost predicate Stepped(init: Situation, q: seq<Entry>, m: nat, visited: set<Pos>, level: map<Pos, nat>, depth: nat)
    requires m < |q|
  {
    var e := q[m];
    var p := e.situation.position;
    var visited' := visited + {p};
    var level' := if p in visited then level else level[p := e.cost];
    Inv(init, Without(q, m) + Pushes(e.situation, visited', e.cost, e.actions, 4), visited', level', e.cost)
  }

  lemma ItemsSplit(q: seq<Entry>, m: nat, more: seq<Entry>)
    requires m < |q|
    ensures Items(Without(q, m) + more) == Without(Items(q), m) + Items(more)
    ensures Positions(Without(q, m) + more) == Without(Positions(q), m) + Positions(more)
  {
  }

  /** A waiting position other than the popped one is still waiting, whatever is pushed. */
  lemma StillWithin(q: seq<Entry>, m: nat, more: seq<Entry>, n: Pos, bound: nat)
    requires m < |q| && Within(Items(q), n, bound) && n != q[m].situation.position
    ensures Within(Items(Without(q, m) + more), n, bound)
  {
    ItemsSplit(q, m, more);
    WithinWithout(Items(q), m, n, bound);
    WithinConcat(Without(Items(q), m), Items(more), n, bound);
  }

  /** An open, unvisited neighbour of the popped entry is pushed at one more than its cost. */
  lemma PushedWithin(init: Situation, q: seq<Entry>, m: nat, visited': set<Pos>, a: int)
    requires m < |q| && EntryOk(init, q[m]) && IsAction(a)
    requires Neighbour(q[m].situation.position, a) in OpenCells(init.maze)
    requires Neighbour(q[m].situation.position, a) !in visited'
    ensures var e := q[m];
      Within(Items(Without(q, m) + Pushes(e.situation, visited', e.cost, e.actions, 4)),
             Neighbour(e.situation.position, a), e.cost + 1)
  {
    var e := q[m];
    var pushes := Pushes(e.situation, visited', e.cost, e.actions, 4);
    var items' := Items(Without(q, m) + pushes);
    ReplayKeepsMaze(init, e.actions);
    OpenIsValid(MakeMove(e.situation, a));
    PushesHas(e.situation, visited', e.cost, e.actions, 4, a);
    var k :| 0 <= k < |pushes| && pushes[k] == Entry(e.cost + 1, MakeMove(e.situation, a), e.actions + [a]);
    assert items'[|q| - 1 + k] == (Neighbour(e.situation.position, a), e.cost + 1);
  }

  lemma ExpandClosed(init: Situation, q: seq<Entry>, m: nat, visited: set<Pos>, level: map<Pos, nat>, depth: nat)
    requires Inv(init, q, visited, level, depth) && Cheapest(q, m)
    ensures var e := q[m];
      var p := e.situation.position;
      var visited' := visited + {p};
      var level' := if p in visited then level else level[p := e.cost];
      Closed(init.maze, visited', level', Items(Without(q, m) + Pushes(e.situation, visited', e.cost, e.actions, 4)))
  {
    assert EntryOk(init, q[m]);
    ClosedAfterPop(init, q, m, visited, level);
  }

  /**
   * Popping a cheapest entry, whose cost is no less than any visited level,
   * and pushing its successors keeps every open neighbour of a visited
   * position visited or waiting one level later.
   */
  lemma ClosedAfterPop(init: Situation, q: seq<Entry>, m: nat, visited: set<Pos>, level: map<Pos, nat>)
    requires Cheapest(q, m) && EntryOk(init, q[m]) && visited == level.Keys
    requires forall v :: v in visited ==> level[v] <= q[m].cost
    requires Closed(init.maze, visited, level, Items(q))
    ensures var e := q[m];
      var p := e.situation.position;
      var visited' := visited + {p};
      var level' := if p in visited then level else level[p := e.cost];
      Closed(init.maze, visited', level', Items(Without(q, m) + Pushes(e.situation, visited', e.cost, e.actions, 4)))
  {
    var e := q[m];
    var p := e.situation.position;
    var d := e.cost;
    var visited' := visited + {p};
    var level' := if p in visited then level else level[p := d];
    var pushes := Pushes(e.situation, visited', d, e.actions, 4);
    var items' := Items(Without(q, m) + pushes);
    forall v, a | v in visited' && IsAction(a) && Neighbour(v, a) in OpenCells(init.maze)
      ensures (Neighbour(v, a) in visited' && level'[Neighbour(v, a)] <= level'[v] + 1)
        || (Neighbour(v, a) !in visited' && Within(items', Neighbour(v, a), level'[v] + 1))
    {
      var n := Neighbour(v, a);
      if v == p && p !in visited {
        if n !in visited' {
          PushedWithin(init, q, m, visited', a);
        }
      } else if n !in visited {
        if n != p {
          StillWithin(q, m, pushes, n, level[v] + 1);
        } else if p !in visited {
          var k :| 0 <= k < |Items(q)| && Items(q)[k].0 == n && Items(q)[k].1 <= level[v] + 1;
          assert d <= q[k].cost;
        }
      }
    }
  }

  lemma ExpandRooted(init: Situation, q: seq<Entry>, m: nat, visited: set<Pos>, level: map<Pos, nat>, depth: nat)
    requires Inv(init, q, visited, level, depth) && Cheapest(q, m)
    ensures var e := q[m];
      var p := e.situation.position;
      var visited' := visited + {p};
      var level' := if p in visited then level else level[p := e.cost];
      Rooted(init.position, visited', level', Items(Without(q, m) + Pushes(e.situation, visited', e.cost, e.actions, 4)))
  {
    var e := q[m];
    var p := e.situation.position;
    var visited' := visited + {p};
    var pushes := Pushes(e.situation, visited', e.cost, e.actions, 4);
    ItemsSplit(q, m, pushes);
    if init.position !in visited {
      // the start waits at cost 0, so the cheapest entry is the start itself
      var k :| 0 <= k < |Items(q)| && Items(q)[k].0 == init.position && Items(q)[k].1 <= 0;
      assert e.cost <= q[k].cost;
      assert e.actions == [];
    }
  }

  /** Popping a cheapest entry that is not finished and pushing its successors keeps the invariant. */
  lemma ExpandStep(init: Situation, q: seq<Entry>, m: nat, visited: set<Pos>, level: map<Pos, nat>, depth: nat)
    requires Inv(init, q, visited, level, depth) && Cheapest(q, m)
    requires !Finished(q[m].situation)
    ensures Stepped(init, q, m, visited, level, depth)
  {
    var e := q[m];
    var p := e.situation.position;
    var visited' := visited + {p};
    var pushes := Pushes(e.situation, visited', e.cost, e.actions, 4);
    var q' := Without(q, m) + pushes;
    ReplayKeepsMaze(init, e.actions);
    PushesOk(init, e, visited', 4);
    forall k | 0 <= k < |q'| ensures EntryOk(init, q'[k]) && e.cost <= q'[k].cost {
      if k >= |q| - 1 {
        assert q'[k] in pushes;
      }
    }
    ExpandClosed(init, q, m, visited, level, depth);
    ExpandRooted(init, q, m, visited, level, depth);
  }

  /** When a cheapest entry is finished, no route from the start is shorter than its actions. */
  lemma GoalOptimal(init: Situation, q: seq<Entry>, m: nat, visited: set<Pos>, level: map<Pos, nat>, depth: nat)
    requires Inv(init, q, visited, level, depth) && Cheapest(q, m)
    ensures forall acts :: AllActions(acts) && Route(init, acts) ==> |q[m].actions| <= |acts|
  {
    forall acts | AllActions(acts) && Route(init, acts)
      ensures |q[m].actions| <= |acts|
    {
      ReplayKeepsMaze(init, acts);
      RouteMeetsFrontier(init, acts, visited, level, Items(q));
      var k :| 0 <= k < |Items(q)| && Items(q)[k].1 <= |acts|;
    }
  }

  /** With the heap empty, no route from the start reaches the goal. */
  lemma EmptyStep(init: Situation, visited: set<Pos>, level: map<Pos, nat>, depth: nat)
    requires Inv(init, [], visited, level, depth)
    ensures forall acts :: AllActions(acts) ==> !Route(init, acts)
  {
    forall acts | AllActions(acts) && Route(init, acts) ensures false {
      ReplayKeepsMaze(init, acts);
      RouteMeetsFrontier(init, acts, visited, level, Items([]));
    }
  }

  /** Popping an already visited entry leaves fewer visited entries in the heap. */
  lemma RevisitShrinks(q: seq<Entry>, m: nat, pushes: seq<Entry>, visited: set<Pos>)
    requires m < |q| && q[m].situation.position in visited
    requires forall x :: x in pushes ==> x.situation.position !in visited
    ensures CountIn(Positions(Without(q, m) + pushes), visited) < CountIn(Positions(q), visited)
  {
    ItemsSplit(q, m, pushes);
    CountInConcat(Without(Positions(q), m), Positions(pushes), visited);
    CountInWithout(Positions(q), m, visited);
    assert forall k :: 0 <= k < |pushes| ==> pushes[k] in pushes;
    CountInOutside(Positions(pushes), visited);
  }

  /** The inner loop of `ucs`: push the admissible successors of `e` in action order. */
  method PushSuccessors(queue: seq<Entry>, e: Entry, visited: set<Pos>) returns (queue': seq<Entry>)
    ensures queue' == queue + Pushes(e.situation, visited, e.cost, e.actions, 4)
  {
    queue' := queue;
    for action := 0 to 4
      invariant queue' == queue + Pushes(e.situation, visited, e.cost, e.actions, action)
    {
      var next := MakeMove(e.situation, action);
      if Valid(next) && next.position !in visited {
        queue' := queue' + [Entry(e.cost + 1, next, e.actions + [action])];
      }
    }
  }

  /**
   * `ucs(initial_state)`: the actions of a shortest route from the start to
   * the goal, or None when there is none. The start itself is not checked.
   */
  method Ucs(init: Situation) returns (r: Option<seq<int>>)
    ensures r.Some? ==> AllActions(r.value) && Route(init, r.value)
    ensures r.Some? ==> forall acts :: AllActions(acts) && Route(init, acts) ==> |r.value| <= |acts|
    ensures r.None? ==> forall acts :: AllActions(acts) ==> !Route(init, acts)
  {
    var queue := [Entry(0, init, [])];
    var visited: set<Pos> := {};
    ghost var level: map<Pos, nat> := map[];
    ghost var depth: nat := 0;
    assert Items(queue)[0] == (init.position, 0);
    assert ValidWalk(init, []);
    while queue != []
      invariant Inv(init, queue, visited, level, depth)
      decreases Universe(init) - visited, CountIn(Positions(queue), visited)
    {
      CheapestExists(queue);
      var m: nat :| Cheapest(queue, m);
      var e := queue[m];
      if Finished(e.situation) {
        GoalOptimal(init, queue, m, visited, level, depth);
        return Some(e.actions);
      }
      ExpandStep(init, queue, m, visited, level, depth);
      var position := e.situation.position;
      assert EntryOk(init, e);
      ghost var before := queue;
      ghost var visitedBefore := visited;
      if position !in visited {
        level := level[position := e.cost];
      }
      visited := visited + {position};
      depth := e.cost;
      queue := PushSuccessors(Without(queue, m), e, visited);
      if position in visitedBefore {
        assert visited == visitedBefore;
        PushesOk(init, e, visited, 4);
        RevisitShrinks(before, m, Pushes(e.situation, visited, e.cost, e.actions, 4), visitedBefore);
      }
    }
    EmptyStep(init, visited, level, depth);
    return None;
  }
}
