/**
 * The "branch and bound" search over the maze (solvers/bnb.py): a heap
 * keyed by the heuristic value of each situation, a visited set filled on
 * pop, and two statistics counters.
 */
module Bnb {
  import opened Wrappers
  import opened Bag
  import opened MazeEnv
  import opened Frontier

  /** The record returned with a solution: its length, the depth bound reached, the number of expansions. */
  datatype Statistic = Statistic(solutionLength: nat, maxDepth: nat, generated: nat)

  /** A heap entry: the heuristic priority, the situation, the actions from the start and their number. */
  datatype Entry = Entry(priority: int, situation: Situation, actions: seq<int>, depth: nat)

  function Positions(q: seq<Entry>): (ps: seq<Pos>)
    ensures |ps| == |q|
    ensures forall k :: 0 <= k < |q| ==> ps[k] == q[k].situation.position
  {
    seq(|q|, k requires 0 <= k < |q| => q[k].situation.position)
  }

  /** The largest element, or 0 for none: the running value of `max_depth`. */
  function MaxOf(xs: seq<nat>): (r: nat)
    ensures forall k :: 0 <= k < |xs| ==> xs[k] <= r
    ensures xs != [] ==> r in xs
    ensures xs == [] ==> r == 0
  {
    if xs == [] then 0
    else
      var m := MaxOf(xs[..|xs| - 1]);
      assert xs == xs[..|xs| - 1] + [xs[|xs| - 1]];
      if m < xs[|xs| - 1] then xs[|xs| - 1] else m
  }

  /** An entry's priority is the heuristic of its situation, its depth the length of its valid walk from the start. */
  ghost predicate EntryOk(init: Situation, heuristic: Situation -> int, e: Entry) {
    && e.priority == heuristic(e.situation)
    && e.depth == |e.actions|
    && AllActions(e.actions)
    && e.situation == Replay(init, e.actions)
    && ValidWalk(init, e.actions)
    && e.situation.position in Universe(init)
  }

  /**
   * The loop invariant of `bnb`. `expanded` lists the depths of the popped,
   * unfinished entries; the counters summarise it.
   */
  ghost predicate Inv(init: Situation, heuristic: Situation -> int, q: seq<Entry>, visited: set<Pos>,
                      expanded: seq<nat>, maxDepth: nat, generated: nat) {
    && visited <= Universe(init)
    && init.goal !in visited
    && generated == |expanded|
    && maxDepth == MaxOf(expanded)
    && (forall k :: 0 <= k < |q| ==> EntryOk(init, heuristic, q[k]))
    && (forall k :: 0 <= k < |q| ==> q[k].depth <= generated && q[k].depth <= maxDepth + 1)
    && Covered(init.maze, visited, Positions(q))
    && (init.position in visited || init.position in Positions(q))
  }

  /** Index `m` holds an entry of least priority. */
  predicate Least(q: seq<Entry>, m: nat) {
    m < |q| && forall k :: 0 <= k < |q| ==> q[m].priority <= q[k].priority
  }

  lemma {:induction false} LeastExists(q: seq<Entry>)
    requires q != []
    ensures exists m: nat :: Least(q, m)
    decreases |q|
  {
    if |q| == 1 {
      assert Least(q, 0);
    } else {
      LeastExists(q[1..]);
      var m: nat :| Least(q[1..], m);
      assert forall k :: 1 <= k < |q| ==> q[1..][k - 1] == q[k];
      if q[0].priority <= q[m + 1].priority {
        assert Least(q, 0);
      } else {
        assert Least(q, m + 1);
      }
    }
  }

  /** The successors pushed for actions `0 .. upto - 1`, in action order, one level deeper. */
  function Pushes(s: Situation, heuristic: Situation -> int, visited: set<Pos>,
                  actions: seq<int>, depth: nat, upto: nat): seq<Entry>
    requires upto <= 4
  {
    if upto == 0 then []
    else
      var next := MakeMove(s, upto - 1);
      Pushes(s, heuristic, visited, actions, depth, upto - 1)
        + (if Admissible(s, visited, upto - 1)
           then [Entry(heuristic(next), next, actions + [upto - 1], depth + 1)] else [])
  }

  /** Every admissible successor is pushed, keyed by its heuristic value. */
  lemma {:induction false} PushesHas(s: Situation, heuristic: Situation -> int, visited: set<Pos>,
                                     actions: seq<int>, depth: nat, upto: nat, a: int)
    requires upto <= 4 && 0 <= a < upto && Admissible(s, visited, a)
    ensures MakeMove(s, a).position in Positions(Pushes(s, heuristic, visited, actions, depth, upto))
  {
    var r := Pushes(s, heuristic, visited, actions, depth, upto);
    if a < upto - 1 {
      PushesHas(s, heuristic, visited, actions, depth, upto - 1, a);
      var r' := Pushes(s, heuristic, visited, actions, depth, upto - 1);
      var k :| 0 <= k < |r'| && Positions(r')[k] == MakeMove(s, a).position;
      assert Positions(r)[k] == Positions(r')[k];
    } else {
      assert Positions(r)[|r| - 1] == MakeMove(s, a).position;
    }
  }

  /** Every pushed entry is a valid, unvisited successor one level below the popped one. */
  lemma {:induction false} PushesOk(init: Situation, heuristic: Situation -> int, e: Entry, visited: set<Pos>, upto: nat)
    requires EntryOk(init, heuristic, e) && upto <= 4
    ensures forall x :: x in Pushes(e.situation, heuristic, visited, e.actions, e.depth, upto) ==>
      EntryOk(init, heuristic, x) && x.depth == e.depth + 1 && x.situation.position !in visited
  {
    if upto > 0 {
      PushesOk(init, heuristic, e, visited, upto - 1);
      var a := upto - 1;
      if Admissible(e.situation, visited, a) {
        var acts := e.actions + [a];
        var next := MakeMove(e.situation, a);
        WalkSnoc(init, e.actions, a);
        assert EntryOk(init, heuristic, Entry(heuristic(next), next, acts, e.depth + 1));
      }
    }
  }

  lemma PositionsSplit(q: seq<Entry>, m: nat, more: seq<Entry>)
    requires m < |q|
    ensures Positions(Without(q, m) + more) == Without(Positions(q), m) + Positions(more)
  {
  }

  /** The state after popping entry `m`, counting it and pushing its successors. */
  function Next(q: seq<Entry>, m: nat, heuristic: Situation -> int, visited: set<Pos>): seq<Entry>
    requires m < |q|
  {
    var e := q[m];
    Without(q, m) + Pushes(e.situation, heuristic, visited + {e.situation.position}, e.actions, e.depth, 4)
  }

  lemma ExpandEntries(init: Situation, heuristic: Situation -> int, q: seq<Entry>, m: nat, visited: set<Pos>,
                      expanded: seq<nat>, maxDepth: nat, generated: nat)
    requires Inv(init, heuristic, q, visited, expanded, maxDepth, generated) && Least(q, m)
    ensures var q' := Next(q, m, heuristic, visited);
      var expanded' := expanded + [q[m].depth];
      forall k :: 0 <= k < |q'| ==>
        && EntryOk(init, heuristic, q'[k])
        && q'[k].depth <= generated + 1 && q'[k].depth <= MaxOf(expanded') + 1
  {
    var e := q[m];
    var visited' := visited + {e.situation.position};
    var expanded' := expanded + [e.depth];
    var pushes := Pushes(e.situation, heuristic, visited', e.actions, e.depth, 4);
    var q' := Next(q, m, heuristic, visited);
    PushesOk(init, heuristic, e, visited', 4);
    assert MaxOf(expanded') >= e.depth && MaxOf(expanded') >= maxDepth by {
      assert expanded'[|expanded|] == e.depth;
      if expanded != [] {
        var k :| 0 <= k < |expanded| && expanded[k] == maxDepth;
        assert expanded'[k] == maxDepth;
      }
    }
    forall k | 0 <= k < |q'|
      ensures EntryOk(init, heuristic, q'[k])
      ensures q'[k].depth <= generated + 1 && q'[k].depth <= MaxOf(expanded') + 1
    {
      if k >= |q| - 1 {
        assert q'[k] in pushes;
      }
    }
  }

  lemma ExpandCovered(init: Situation, heuristic: Situation -> int, q: seq<Entry>, m: nat, visited: set<Pos>,
                      expanded: seq<nat>, maxDepth: nat, generated: nat)
    requires Inv(init, heuristic, q, visited, expanded, maxDepth, generated) && Least(q, m)
    ensures var visited' := visited + {q[m].situation.position};
      var q' := Next(q, m, heuristic, visited);
      && Covered(init.maze, visited', Positions(q'))
      && (init.position in visited' || init.position in Positions(q'))
  {
    assert EntryOk(init, heuristic, q[m]);
    CoveredAfterPop(init, heuristic, q, m, visited);
  }

  /**
   * Popping any entry of a walk from the start and pushing its successors
   * keeps every open neighbour of a visited position visited or queued, and
   * the start visited or queued.
   */
  lemma CoveredAfterPop(init: Situation, heuristic: Situation -> int, q: seq<Entry>, m: nat, visited: set<Pos>)
    requires m < |q| && EntryOk(init, heuristic, q[m])
    requires Covered(init.maze, visited, Positions(q))
    requires init.position in visited || init.position in Positions(q)
    ensures var visited' := visited + {q[m].situation.position};
      var q' := Next(q, m, heuristic, visited);
      && Covered(init.maze, visited', Positions(q'))
      && (init.position in visited' || init.position in Positions(q'))
  {
    var e := q[m];
    var p := e.situation.position;
    var visited' := visited + {p};
    var pushes := Pushes(e.situation, heuristic, visited', e.actions, e.depth, 4);
    var q' := Next(q, m, heuristic, visited);
    ReplayKeepsMaze(init, e.actions);
    forall v, a | v in visited' && IsAction(a) && Neighbour(v, a) in OpenCells(init.maze)
      ensures Neighbour(v, a) in visited' || Neighbour(v, a) in Positions(q')
    {
      var n := Neighbour(v, a);
      if n !in visited' {
        if v == p {
          OpenIsValid(MakeMove(e.situation, a));
          PushesHas(e.situation, heuristic, visited', e.actions, e.depth, 4, a);
          PushedQueued(q, m, pushes, n);
        } else {
          StillQueued(q, m, pushes, n);
        }
      }
    }
    if init.position !in visited' {
      StillQueued(q, m, pushes, init.position);
    }
  }

  /** A queued position other than the popped one stays queued, whatever is pushed. */
  lemma StillQueued(q: seq<Entry>, m: nat, more: seq<Entry>, n: Pos)
    requires m < |q| && n in Positions(q) && n != q[m].situation.position
    ensures n in Positions(Without(q, m) + more)
  {
    PositionsSplit(q, m, more);
    var k :| 0 <= k < |q| && Positions(q)[k] == n;
    if k < m {
      assert Without(Positions(q), m)[k] == n;
    } else {
      assert Without(Positions(q), m)[k - 1] == n;
    }
  }

  /** A pushed position is queued after the pop. */
  lemma PushedQueued(q: seq<Entry>, m: nat, more: seq<Entry>, n: Pos)
    requires m < |q| && n in Positions(more)
    ensures n in Positions(Without(q, m) + more)
  {
    PositionsSplit(q, m, more);
    var k :| 0 <= k < |more| && Positions(more)[k] == n;
    assert (Without(Positions(q), m) + Positions(more))[|q| - 1 + k] == n;
  }

  /** Popping a least entry that is not finished, counting it and pushing its successors keeps the invariant. */
  lemma ExpandStep(init: Situation, heuristic: Situation -> int, q: seq<Entry>, m: nat, visited: set<Pos>,
                   expanded: seq<nat>, maxDepth: nat, generated: nat)
    requires Inv(init, heuristic, q, visited, expanded, maxDepth, generated) && Least(q, m)
    requires !Finished(q[m].situation)
    ensures var e := q[m];
      var expanded' := expanded + [e.depth];
      Inv(init, heuristic, Next(q, m, heuristic, visited),
          visited + {e.situation.position}, expanded', MaxOf(expanded'), generated + 1)
  {
    assert EntryOk(init, heuristic, q[m]);
    ReplayKeepsMaze(init, q[m].actions);
    ExpandEntries(init, heuristic, q, m, visited, expanded, maxDepth, generated);
    ExpandCovered(init, heuristic, q, m, visited, expanded, maxDepth, generated);
  }

  /** When a least entry is finished, its actions are a route and its depth is within both counters. */
  lemma GoalStep(init: Situation, heuristic: Situation -> int, q: seq<Entry>, m: nat, visited: set<Pos>,
                 expanded: seq<nat>, maxDepth: nat, generated: nat)
    requires Inv(init, heuristic, q, visited, expanded, maxDepth, generated) && Least(q, m)
    requires Finished(q[m].situation)
    ensures AllActions(q[m].actions) && Route(init, q[m].actions)
    ensures |q[m].actions| <= generated && |q[m].actions| <= maxDepth + 1
  {
    assert EntryOk(init, heuristic, q[m]);
  }

  /** With the heap empty, no route from the start reaches the goal. */
  lemma EmptyStep(init: Situation, heuristic: Situation -> int, visited: set<Pos>,
                  expanded: seq<nat>, maxDepth: nat, generated: nat)
    requires Inv(init, heuristic, [], visited, expanded, maxDepth, generated)
    ensures forall acts :: AllActions(acts) ==> !Route(init, acts)
  {
    forall acts | AllActions(acts) && Route(init, acts) ensures false {
      ReplayKeepsMaze(init, acts);
      RouteMeetsWaiting(init, acts, visited, Positions([]));
    }
  }

  lemma RevisitShrinks(q: seq<Entry>, m: nat, pushes: seq<Entry>, visited: set<Pos>)
    requires m < |q| && q[m].situation.position in visited
    requires forall x :: x in pushes ==> x.situation.position !in visited
    ensures CountIn(Positions(Without(q, m) + pushes), visited) < CountIn(Positions(q), visited)
  {
    PositionsSplit(q, m, pushes);
    CountInConcat(Without(Positions(q), m), Positions(pushes), visited);
    CountInWithout(Positions(q), m, visited);
    assert forall k :: 0 <= k < |pushes| ==> pushes[k] in pushes;
    CountInOutside(Positions(pushes), visited);
  }

  /**
   * Each expansion either visits a new position of the finite universe or
   * leaves fewer already-visited entries in the heap.
   */
  lemma Progress(init: Situation, heuristic: Situation -> int, q: seq<Entry>, m: nat, visited: set<Pos>)
    requires m < |q| && EntryOk(init, heuristic, q[m])
    ensures var e := q[m];
      var visited' := visited + {e.situation.position};
      || Universe(init) - visited' < Universe(init) - visited
      || (visited' == visited && CountIn(Positions(Next(q, m, heuristic, visited)), visited') < CountIn(Positions(q), visited))
  {
    var e := q[m];
    var visited' := visited + {e.situation.position};
    if e.situation.position in visited {
      assert visited' == visited;
      PushesOk(init, heuristic, e, visited', 4);
      RevisitShrinks(q, m, Pushes(e.situation, heuristic, visited', e.actions, e.depth, 4), visited);
    }
  }

  /** `max_depth = max(max_depth, depth)` keeps `max_depth` the largest expanded depth. */
  lemma MaxUpdate(expanded: seq<nat>, d: nat)
    ensures MaxOf(expanded + [d]) == if MaxOf(expanded) < d then d else MaxOf(expanded)
  {
    assert (expanded + [d])[..|expanded|] == expanded;
  }

  /** The inner loop of `bnb`: push the admissible successors of `e` in action order. */
  method PushSuccessors(queue: seq<Entry>, heuristic: Situation -> int, e: Entry, visited: set<Pos>)
    returns (queue': seq<Entry>)
    ensures queue' == queue + Pushes(e.situation, heuristic, visited, e.actions, e.depth, 4)
  {
    queue' := queue;
    for action := 0 to 4
      invariant queue' == queue + Pushes(e.situation, heuristic, visited, e.actions, e.depth, action)
    {
      var next := MakeMove(e.situation, action);
      if Valid(next) && next.position !in visited {
        queue' := queue' + [Entry(heuristic(next), next, e.actions + [action], e.depth + 1)];
      }
    }
  }

  /**
   * `bnb(initial_situation)`: a route to the goal with its statistics, or
   * None when no route exists. The heap pops some entry of least heuristic
   * value; nothing bounds the search by cost.
   */
  method Bnb(init: Situation, heuristic: Situation -> int) returns (r: Option<(seq<int>, Statistic)>)
    ensures r.Some? ==> var (acts, stat) := r.value;
      && AllActions(acts) && Route(init, acts)
      && stat.solutionLength == |acts|
      && |acts| <= stat.generated && |acts| <= stat.maxDepth
      && 1 <= stat.maxDepth
    ensures r.None? ==> forall acts :: AllActions(acts) ==> !Route(init, acts)
  {
    var queue := [Entry(heuristic(init), init, [], 0)];
    var visited: set<Pos> := {};
    var maxDepth: nat := 0;
    var allGenerated: nat := 0;
    ghost var expanded: seq<nat> := [];
    assert Positions(queue)[0] == init.position;
    assert ValidWalk(init, []);
    while queue != []
      invariant Inv(init, heuristic, queue, visited, expanded, maxDepth, allGenerated)
      decreases Universe(init) - visited, CountIn(Positions(queue), visited)
    {
      LeastExists(queue);
      var m: nat :| Least(queue, m);
      var e := queue[m];
      if Finished(e.situation) {
        GoalStep(init, heuristic, queue, m, visited, expanded, maxDepth, allGenerated);
        return Some((e.actions, Statistic(|e.actions|, maxDepth + 1, allGenerated)));
      }
      ExpandStep(init, heuristic, queue, m, visited, expanded, maxDepth, allGenerated);
      Progress(init, heuristic, queue, m, visited);
      visited := visited + {e.situation.position};
      allGenerated := allGenerated + 1;
      MaxUpdate(expanded, e.depth);
      expanded := expanded + [e.depth];
      maxDepth := if maxDepth < e.depth then e.depth else maxDepth;
      queue := PushSuccessors(Without(queue, m), heuristic, e, visited);
    }
    EmptyStep(init, heuristic, visited, expanded, maxDepth, allGenerated);
    return None;
  }
}
