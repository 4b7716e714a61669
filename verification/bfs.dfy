/**
 * Breadth-first search over the maze (solvers/bfs.py). A FIFO queue of
 * (situation, ancestor positions, actions); an entry is filtered only when
 * it is popped, and each position is expanded at most once.
 */
module Bfs {
  import opened Wrappers
  import opened MazeEnv
  import opened Frontier

  /** A queue entry: the situation, the positions expanded before it on its branch, the actions from the start. */
  datatype Entry = Entry(situation: Situation, path: seq<Pos>, actions: seq<int>)

  /** The queue seen as (position, number of actions) items. */
  function Items(q: seq<Entry>): (items: seq<(Pos, nat)>)
    ensures |items| == |q|
    ensures forall k :: 0 <= k < |q| ==> items[k] == (q[k].situation.position, |q[k].actions|)
  {
    seq(|q|, k requires 0 <= k < |q| => (q[k].situation.position, |q[k].actions|))
  }

  /**
   * An entry replays from the start to its situation, its path lists the
   * positions of its valid, expanded, pairwise distinct ancestors.
   */
  ghost predicate EntryOk(init: Situation, e: Entry, visited: set<Pos>) {
    && AllActions(e.actions)
    && e.situation == Replay(init, e.actions)
    && e.path == Trail(init, e.actions)[..|e.actions|]
    && (forall j :: 0 <= j < |e.actions| ==> Valid(Replay(init, e.actions[..j])))
    && Distinct(e.path)
    && (forall j :: 0 <= j < |e.path| ==> e.path[j] in visited)
  }

  /** FIFO order: action counts never decrease along the queue and span two consecutive levels. */
  ghost predicate Sorted(q: seq<Entry>, depth: nat) {
    && (forall i, j :: 0 <= i < j < |q| ==> |q[i].actions| <= |q[j].actions|)
    && (forall k :: 0 <= k < |q| ==> depth <= |q[k].actions| <= depth + 1)
  }

  /** The loop invariant of `bfs`, with the ghost level of each expanded position. */
  ghost predicate Inv(init: Situation, q: seq<Entry>, visited: set<Pos>, level: map<Pos, nat>, depth: nat) {
    && visited == level.Keys
    && visited <= OpenCells(init.maze)
    && init.goal !in visited
    && (forall k :: 0 <= k < |q| ==> EntryOk(init, q[k], visited))
    && Sorted(q, depth)
    && (forall v :: v in visited ==> level[v] <= depth)
    && Closed(init.maze, visited, level, Items(q))
    && (Valid(init) ==> Rooted(init.position, visited, level, Items(q)))
  }

  /** The four successors of a popped entry, enqueued for actions `0 .. upto - 1`. */
  function Successors(s: Situation, path: seq<Pos>, actions: seq<int>, upto: nat): (r: seq<Entry>)
    requires upto <= 4
    ensures |r| == upto
    ensures forall a :: 0 <= a < upto ==> r[a] == Entry(MakeMove(s, a), path, actions + [a])
  {
    seq(upto, a requires 0 <= a < upto => Entry(MakeMove(s, a), path, actions + [a]))
  }

  lemma EntryOkMono(init: Situation, e: Entry, v1: set<Pos>, v2: set<Pos>)
    requires EntryOk(init, e, v1) && v1 <= v2
    ensures EntryOk(init, e, v2)
  {
  }

  lemma TrailPrefix(s: Situation, acts: seq<int>, a: int)
    requires AllActions(acts) && IsAction(a)
    ensures AllActions(acts + [a])
    ensures Trail(s, acts + [a])[..|acts| + 1] == Trail(s, acts)
  {
    assert AllActions(acts + [a]);
    forall j | 0 <= j <= |acts| ensures Trail(s, acts + [a])[j] == Trail(s, acts)[j] {
      assert (acts + [a])[..j] == acts[..j];
    }
  }

  lemma SuccessorOk(init: Situation, e: Entry, visited: set<Pos>, a: int)
    requires EntryOk(init, e, visited) && Valid(e.situation) && IsAction(a)
    requires e.situation.position !in visited
    ensures var p := e.situation.position;
      EntryOk(init, Entry(MakeMove(e.situation, a), e.path + [p], e.actions + [a]), visited + {p})
  {
    var p := e.situation.position;
    var acts := e.actions;
    ReplayAppend(init, acts, a);
    PathThenPosition(init, e);
    TrailPrefix(init, acts, a);
    ValidUpTo(init, acts);
    ValidAlongSnoc(init, acts, a);
    DistinctSnoc(e.path, p, visited);
  }

  /** An entry's path followed by its own position is the trail of its actions. */
  lemma PathThenPosition(init: Situation, e: Entry)
    requires AllActions(e.actions) && e.situation == Replay(init, e.actions)
    requires e.path == Trail(init, e.actions)[..|e.actions|]
    ensures e.path + [e.situation.position] == Trail(init, e.actions)
  {
    var acts := e.actions;
    var t := Trail(init, acts);
    assert acts[..|acts|] == acts;
    assert t[|acts|] == e.situation.position;
    assert t == t[..|acts|] + [t[|acts|]];
  }

  /** Valid strict prefixes and a valid end make a walk valid all along. */
  lemma ValidUpTo(init: Situation, acts: seq<int>)
    requires AllActions(acts)
    requires forall j :: 0 <= j < |acts| ==> Valid(Replay(init, acts[..j]))
    requires Valid(Replay(init, acts))
    ensures ValidAlong(init, acts)
  {
    assert acts[..|acts|] == acts;
  }

  /** The strict prefixes of a walk extended by one action are the prefixes of the walk. */
  lemma ValidAlongSnoc(init: Situation, acts: seq<int>, a: int)
    requires AllActions(acts) && IsAction(a) && ValidAlong(init, acts)
    ensures AllActions(acts + [a])
    ensures forall j :: 0 <= j < |acts + [a]| ==> Valid(Replay(init, (acts + [a])[..j]))
  {
    forall j | 0 <= j < |acts + [a]| ensures Valid(Replay(init, (acts + [a])[..j])) {
      assert (acts + [a])[..j] == acts[..j];
    }
  }

  /** Appending a position outside a set that holds a distinct path keeps it distinct. */
  lemma DistinctSnoc(path: seq<Pos>, p: Pos, visited: set<Pos>)
    requires Distinct(path) && p !in visited
    requires forall j :: 0 <= j < |path| ==> path[j] in visited
    ensures Distinct(path + [p])
  {
    forall i, j | 0 <= i < j < |path| + 1 ensures (path + [p])[i] != (path + [p])[j] {
      if j == |path| {
        assert path[i] in visited;
      }
    }
  }

  lemma WithinTail(q: seq<Entry>, n: Pos, b: nat)
    requires q != [] && Within(Items(q), n, b) && q[0].situation.position != n
    ensures Within(Items(q[1..]), n, b)
  {
    var k :| 0 <= k < |q| && Items(q)[k].0 == n && Items(q)[k].1 <= b;
    assert Items(q[1..])[k - 1] == Items(q)[k];
  }

  lemma WithinAppend(q: seq<Entry>, more: seq<Entry>, n: Pos, b: nat)
    requires Within(Items(q), n, b)
    ensures Within(Items(q + more), n, b)
  {
    var k :| 0 <= k < |q| && Items(q)[k].0 == n && Items(q)[k].1 <= b;
    assert Items(q + more)[k] == Items(q)[k];
  }

  /** The queue's front sits in the maze the search started in. */
  lemma FrontInMaze(init: Situation, q: seq<Entry>, visited: set<Pos>)
    requires q != [] && EntryOk(init, q[0], visited)
    ensures q[0].situation.maze == init.maze && q[0].situation.goal == init.goal
  {
    ReplayKeepsMaze(init, q[0].actions);
  }

  /** Popping an entry that is invalid or already expanded keeps the invariant. */
  lemma SkipStep(init: Situation, q: seq<Entry>, visited: set<Pos>, level: map<Pos, nat>, depth: nat)
    requires Inv(init, q, visited, level, depth) && q != []
    requires !Valid(q[0].situation) || q[0].situation.position in visited
    ensures Inv(init, q[1..], visited, level, depth)
  {
    FrontInMaze(init, q, visited);
    var p := q[0].situation.position;
    assert p in visited || p !in OpenCells(init.maze);
    forall v, a | v in visited && IsAction(a) && Neighbour(v, a) in OpenCells(init.maze)
      ensures (Neighbour(v, a) in visited && level[Neighbour(v, a)] <= level[v] + 1)
        || (Neighbour(v, a) !in visited && Within(Items(q[1..]), Neighbour(v, a), level[v] + 1))
    {
      var n := Neighbour(v, a);
      if n !in visited {
        WithinTail(q, n, level[v] + 1);
      }
    }
    if Valid(init) && init.position !in visited {
      ValidIsOpen(init);
      WithinTail(q, init.position, 0);
    }
  }

  /** The precondition shared by the steps that expand the front entry. */
  ghost predicate Expandable(init: Situation, q: seq<Entry>, visited: set<Pos>, level: map<Pos, nat>, depth: nat) {
    && Inv(init, q, visited, level, depth) && q != []
    && Valid(q[0].situation) && q[0].situation.position !in visited
  }

  function Expanded(q: seq<Entry>): seq<Entry>
    requires q != []
  {
    var e := q[0];
    q[1..] + Successors(e.situation, e.path + [e.situation.position], e.actions, 4)
  }

  lemma ExpandEntries(init: Situation, q: seq<Entry>, visited: set<Pos>, level: map<Pos, nat>, depth: nat)
    requires Expandable(init, q, visited, level, depth)
    ensures var p := q[0].situation.position;
      forall k :: 0 <= k < |Expanded(q)| ==> EntryOk(init, Expanded(q)[k], visited + {p})
    ensures Sorted(Expanded(q), |q[0].actions|)
  {
    var e := q[0];
    var p := e.situation.position;
    var rest := q[1..];
    var q' := Expanded(q);
    forall k | 0 <= k < |q'| ensures EntryOk(init, q'[k], visited + {p}) {
      if k < |rest| {
        assert q'[k] == q[k + 1];
        EntryOkMono(init, q[k + 1], visited, visited + {p});
      } else {
        assert q'[k] == Entry(MakeMove(e.situation, k - |rest|), e.path + [p], e.actions + [k - |rest|]);
        SuccessorOk(init, e, visited, k - |rest|);
      }
    }
    ExpandSorted(q, depth);
  }

  /** The expanded queue spans the front's level and the next one, in order. */
  lemma ExpandSorted(q: seq<Entry>, depth: nat)
    requires q != [] && Sorted(q, depth)
    ensures Sorted(Expanded(q), |q[0].actions|)
  {
    var e := q[0];
    var rest := q[1..];
    var q' := Expanded(q);
    forall k | 0 <= k < |q'|
      ensures |e.actions| <= |q'[k].actions| <= |e.actions| + 1
      ensures k < |rest| ==> q'[k] == q[k + 1]
      ensures k >= |rest| ==> |q'[k].actions| == |e.actions| + 1
    {
      if k < |rest| {
        assert q'[k] == q[k + 1];
      }
    }
  }

  lemma ExpandClosed(init: Situation, q: seq<Entry>, visited: set<Pos>, level: map<Pos, nat>, depth: nat)
    requires Expandable(init, q, visited, level, depth)
    ensures var e := q[0];
      var p := e.situation.position;
      Closed(init.maze, visited + {p}, level[p := |e.actions|], Items(Expanded(q)))
  {
    forall k | 0 <= k < |q| ensures |q[0].actions| <= |q[k].actions| {
      if k > 0 {
        assert |q[0].actions| <= |q[k].actions|;
      }
    }
    ClosedAfterExpand(init.maze, q, visited, level);
  }

  /**
   * Expanding the front entry, which has the fewest actions, no fewer than
   * any expanded level, and an unexpanded position, keeps every open neighbour of an expanded
   * position expanded or waiting one level later.
   */
  lemma ClosedAfterExpand(g: Grid, q: seq<Entry>, visited: set<Pos>, level: map<Pos, nat>)
    requires q != [] && visited == level.Keys && q[0].situation.position !in visited
    requires Closed(g, visited, level, Items(q))
    requires forall k :: 0 <= k < |q| ==> |q[0].actions| <= |q[k].actions|
    requires forall v :: v in visited ==> level[v] <= |q[0].actions|
    ensures var e := q[0];
      var p := e.situation.position;
      Closed(g, visited + {p}, level[p := |e.actions|], Items(Expanded(q)))
  {
    var e := q[0];
    var p := e.situation.position;
    var d := |e.actions|;
    var q' := Expanded(q);
    var visited' := visited + {p};
    var level' := level[p := d];
    forall v, a | v in visited' && IsAction(a) && Neighbour(v, a) in OpenCells(g)
      ensures (Neighbour(v, a) in visited' && level'[Neighbour(v, a)] <= level'[v] + 1)
        || (Neighbour(v, a) !in visited' && Within(Items(q'), Neighbour(v, a), level'[v] + 1))
    {
      if v == p {
        FrontNeighbour(q, a);
      } else if Neighbour(v, a) !in visited {
        WaitingStays(q, Neighbour(v, a), level[v] + 1);
      }
    }
  }

  /** Successor `a` of the front entry waits at the end of the expanded queue, one level deeper. */
  lemma FrontNeighbour(q: seq<Entry>, a: int)
    requires q != [] && IsAction(a)
    ensures var e := q[0];
      Within(Items(Expanded(q)), Neighbour(e.situation.position, a), |e.actions| + 1)
  {
    var e := q[0];
    assert Items(Expanded(q))[|q| - 1 + a] == (Neighbour(e.situation.position, a), |e.actions| + 1);
  }

  /** A waiting position is the expanded front itself, or still waits after the expansion. */
  lemma WaitingStays(q: seq<Entry>, n: Pos, b: nat)
    requires q != [] && Within(Items(q), n, b)
    requires forall k :: 0 <= k < |q| ==> |q[0].actions| <= |q[k].actions|
    ensures (n == q[0].situation.position && |q[0].actions| <= b) || Within(Items(Expanded(q)), n, b)
  {
    var e := q[0];
    if n != e.situation.position {
      WithinTail(q, n, b);
      WithinAppend(q[1..], Successors(e.situation, e.path + [e.situation.position], e.actions, 4), n, b);
    } else {
      var k :| 0 <= k < |q| && Items(q)[k].0 == n && Items(q)[k].1 <= b;
    }
  }

  lemma ExpandRooted(init: Situation, q: seq<Entry>, visited: set<Pos>, level: map<Pos, nat>, depth: nat)
    requires Expandable(init, q, visited, level, depth) && Valid(init)
    ensures var e := q[0];
      var p := e.situation.position;
      Rooted(init.position, visited + {p}, level[p := |e.actions|], Items(Expanded(q)))
  {
    var e := q[0];
    if e.actions == [] {
      assert e.situation == Replay(init, []) == init;
    }
    forall k | 0 <= k < |q| ensures |q[0].actions| <= |q[k].actions| {
      if k > 0 {
        assert |q[0].actions| <= |q[k].actions|;
      }
    }
    RootedAfterExpand(init.position, q, visited, level);
  }

  /**
   * Expanding the front entry, which has the fewest actions and stands at
   * the start when it has none, keeps the start expanded at level 0 or
   * waiting with no actions.
   */
  lemma RootedAfterExpand(start: Pos, q: seq<Entry>, visited: set<Pos>, level: map<Pos, nat>)
    requires q != [] && visited == level.Keys && q[0].situation.position !in visited
    requires Rooted(start, visited, level, Items(q))
    requires forall k :: 0 <= k < |q| ==> |q[0].actions| <= |q[k].actions|
    requires q[0].actions == [] ==> q[0].situation.position == start
    ensures var e := q[0];
      var p := e.situation.position;
      Rooted(start, visited + {p}, level[p := |e.actions|], Items(Expanded(q)))
  {
    if start !in visited {
      var k :| 0 <= k < |q| && Items(q)[k].0 == start && Items(q)[k].1 <= 0;
      assert |q[0].actions| <= |q[k].actions|;
    }
  }

  /** Expanding the front entry and enqueueing its four successors keeps the invariant. */
  lemma ExpandStep(init: Situation, q: seq<Entry>, visited: set<Pos>, level: map<Pos, nat>, depth: nat)
    requires Expandable(init, q, visited, level, depth)
    requires !Finished(q[0].situation)
    ensures var e := q[0];
      var p := e.situation.position;
      Inv(init, Expanded(q), visited + {p}, level[p := |e.actions|], |e.actions|)
  {
    var e := q[0];
    var p := e.situation.position;
    FrontInMaze(init, q, visited);
    ValidIsOpen(e.situation);
    ExpandEntries(init, q, visited, level, depth);
    ExpandClosed(init, q, visited, level, depth);
    if Valid(init) {
      ExpandRooted(init, q, visited, level, depth);
    }
  }

  /** When the front entry reaches the goal, its path and actions form a simple route from a valid start. */
  lemma GoalSound(init: Situation, q: seq<Entry>, visited: set<Pos>, level: map<Pos, nat>, depth: nat)
    requires Expandable(init, q, visited, level, depth)
    requires Finished(q[0].situation)
    ensures var e := q[0];
      && Valid(init) && Route(init, e.actions)
      && e.path + [e.situation.position] == Trail(init, e.actions)
      && Distinct(e.path + [e.situation.position])
  {
    var e := q[0];
    var acts := e.actions;
    assert EntryOk(init, e, visited);
    PathThenPosition(init, e);
    ValidUpTo(init, acts);
    assert Valid(init) by { assert acts[..0] == []; }
    DistinctSnoc(e.path, e.situation.position, visited);
  }

  /** When the front entry reaches the goal, no route from the start is shorter. */
  lemma GoalOptimal(init: Situation, q: seq<Entry>, visited: set<Pos>, level: map<Pos, nat>, depth: nat)
    requires Inv(init, q, visited, level, depth) && q != []
    ensures forall acts :: AllActions(acts) && Valid(init) && Route(init, acts) ==> |q[0].actions| <= |acts|
  {
    forall acts | AllActions(acts) && Valid(init) && Route(init, acts)
      ensures |q[0].actions| <= |acts|
    {
      ReplayKeepsMaze(init, acts);
      RouteMeetsFrontier(init, acts, visited, level, Items(q));
      var k :| 0 <= k < |Items(q)| && Items(q)[k].1 <= |acts|;
      assert |q[0].actions| <= |q[k].actions|;
    }
  }

  /** With the queue empty, no route from the start reaches the goal. */
  lemma EmptyStep(init: Situation, visited: set<Pos>, level: map<Pos, nat>, depth: nat)
    requires Inv(init, [], visited, level, depth)
    ensures forall acts :: AllActions(acts) && Valid(init) ==> !Route(init, acts)
  {
    forall acts | AllActions(acts) && Valid(init) && Route(init, acts) ensures false {
      ReplayKeepsMaze(init, acts);
      RouteMeetsFrontier(init, acts, visited, level, Items([]));
    }
  }

  /**
   * `bfs(state)`: the positions and actions of a shortest route from a
   * valid start to the goal, or None when no route exists.
   */
  /** The inner loop of `bfs`: enqueue all four successors, valid or not, in action order. */
  method EnqueueSuccessors(queue: seq<Entry>, current: Situation, path: seq<Pos>, actions: seq<int>)
    returns (queue': seq<Entry>)
    ensures queue' == queue + Successors(current, path, actions, 4)
  {
    queue' := queue;
    for action := 0 to 4
      invariant queue' == queue + Successors(current, path, actions, action)
    {
      queue' := queue' + [Entry(MakeMove(current, action), path, actions + [action])];
    }
  }

  method Bfs(init: Situation) returns (r: Option<(seq<Pos>, seq<int>)>)
    ensures r.Some? ==> var (path, acts) := r.value;
      && AllActions(acts) && Valid(init) && Route(init, acts)
      && path == Trail(init, acts) && Distinct(path)
    ensures r.Some? ==>
      forall acts :: AllActions(acts) && Valid(init) && Route(init, acts) ==> |r.value.1| <= |acts|
    ensures r.None? ==> forall acts :: AllActions(acts) && Valid(init) ==> !Route(init, acts)
  {
    var queue := [Entry(init, [], [])];
    var visited: set<Pos> := {};
    ghost var level: map<Pos, nat> := map[];
    ghost var depth: nat := 0;
    assert Items(queue)[0] == (init.position, 0);
    while queue != []
      invariant Inv(init, queue, visited, level, depth)
      decreases OpenCells(init.maze) - visited, |queue|
    {
      var e := queue[0];
      var current := e.situation;
      var position := current.position;
      if !Valid(current) || position in visited {
        SkipStep(init, queue, visited, level, depth);
        queue := queue[1..];
        continue;
      }
      var path := e.path + [position];
      if Finished(current) {
        GoalSound(init, queue, visited, level, depth);
        GoalOptimal(init, queue, visited, level, depth);
        return Some((path, e.actions));
      }
      ExpandStep(init, queue, visited, level, depth);
      assert position in OpenCells(init.maze) by {
        FrontInMaze(init, queue, visited);
        ValidIsOpen(current);
      }
      var rest := queue[1..];
      visited := visited + {position};
      level := level[position := |e.actions|];
      depth := |e.actions|;
      queue := EnqueueSuccessors(rest, current, path, e.actions);
    }
    EmptyStep(init, visited, level, depth);
    return None;
  }
}
