/**
 * Bidirectional breadth-first search over the maze
 * (solvers/bidirectional_search.py). Each side owns a FIFO queue and a map
 * from the positions it has reached to the actions that reach them from
 * its origin; the two sides expand in strict alternation.
 */
module Bidirectional {
  import opened Wrappers
  import opened MazeEnv
  import opened Frontier

  /** A queue entry: a situation and the actions from this side's origin. */
  datatype Entry = Entry(situation: Situation, path: seq<int>)

  /** `reversed(p)`, an action list read backwards. */
  function Reverse(p: seq<int>): (r: seq<int>)
    ensures |r| == |p| && forall i :: 0 <= i < |p| ==> r[i] == p[|p| - 1 - i]
  {
    seq(|p|, i requires 0 <= i < |p| => p[|p| - 1 - i])
  }

  /** Reading a list backwards twice gives it back. */
  lemma ReverseReverse(p: seq<int>)
    ensures Reverse(Reverse(p)) == p
  {
  }

  /** `(p + q)[::-1]` is `q[::-1] + p[::-1]`. */
  lemma ReverseConcat(p: seq<int>, q: seq<int>)
    ensures Reverse(p + q) == Reverse(q) + Reverse(p)
  {
    assert |Reverse(p + q)| == |Reverse(q) + Reverse(p)|;
    forall i | 0 <= i < |p| + |q| ensures Reverse(p + q)[i] == (Reverse(q) + Reverse(p))[i] {
      if i < |q| {
        assert (p + q)[|p| + |q| - 1 - i] == q[|q| - 1 - i];
      } else {
        assert (p + q)[|p| + |q| - 1 - i] == p[|p| - 1 - (i - |q|)];
      }
    }
  }

  /** The inverting join maps `3 - x` over the reversed list: the two joins differ only in that inversion and in their order. */
  lemma InvertReversedIsInvertedReverse(p: seq<int>)
    requires AllActions(p)
    ensures AllActions(Reverse(p))
    ensures |InvertReversed(p)| == |Reverse(p)|
    ensures forall i :: 0 <= i < |p| ==> InvertReversed(p)[i] == 3 - Reverse(p)[i]
  {
  }

  /** The join returned by the side that started from the goal argument: its path, then the other path undone. */
  function BackwardJoin(path: seq<int>, other: seq<int>): seq<int>
    requires AllActions(other)
  {
    path + InvertReversed(other)
  }

  /** The join returned by the side that started from the initial argument: the other path reversed, not inverted, then its path. */
  function ForwardJoin(path: seq<int>, other: seq<int>): seq<int> {
    Reverse(other) + path
  }

  /** `j` joins a walk from `goal` and a walk from `initial` that meet, in the backward formula. */
  ghost predicate BackwardJoined(initial: Situation, goal: Situation, j: seq<int>) {
    exists path, other ::
      AllActions(path) && AllActions(other)
      && ValidWalk(goal, path) && ValidWalk(initial, other)
      && Replay(goal, path).position == Replay(initial, other).position
      && j == BackwardJoin(path, other)
  }

  /** `j` joins a walk from `initial` and a walk from `goal` that meet, in the forward formula. */
  ghost predicate ForwardJoined(initial: Situation, goal: Situation, j: seq<int>) {
    exists path, other ::
      AllActions(path) && AllActions(other)
      && ValidWalk(initial, path) && ValidWalk(goal, other)
      && Replay(initial, path).position == Replay(goal, other).position
      && j == ForwardJoin(path, other)
  }

  /** A replay's position depends only on the starting position. */
  lemma {:induction false} ReplayPosition(s: Situation, t: Situation, p: seq<int>)
    requires AllActions(p) && s.position == t.position
    ensures Replay(s, p).position == Replay(t, p).position
    decreases |p|
  {
    if p != [] {
      var q := p[..|p| - 1];
      var a := p[|p| - 1];
      ReplayPosition(s, t, q);
      assert Replay(s, p) == MakeMove(Replay(s, q), a);
      assert Replay(t, p) == MakeMove(Replay(t, q), a);
    }
  }

  /**
   * The backward join leads from the goal argument to the initial
   * argument's position. When the initial situation is valid and both share
   * the maze, it is a walk: every cell it enters is open.
   */
  lemma BackwardJoinReaches(initial: Situation, goal: Situation, j: seq<int>)
    requires BackwardJoined(initial, goal, j)
    ensures AllActions(j) && Replay(goal, j).position == initial.position
    ensures Valid(initial) && initial.maze == goal.maze ==> ValidWalk(goal, j)
  {
    var path, other :| AllActions(path) && AllActions(other)
      && ValidWalk(goal, path) && ValidWalk(initial, other)
      && Replay(goal, path).position == Replay(initial, other).position
      && j == BackwardJoin(path, other);
    var inv := InvertReversed(other);
    ReplayConcat(goal, path, inv);
    ReplayPosition(Replay(goal, path), Replay(initial, other), inv);
    InvertReversedUndoes(initial, other);
    if Valid(initial) && initial.maze == goal.maze {
      ReplayKeepsMaze(goal, path);
      InvertedWalk(Replay(goal, path), initial, other);
      ValidWalkConcat(goal, path, inv);
    }
  }

  /**
   * Undoing a walk from a valid start, from any situation on its end cell
   * in the same maze, retraces the walk's cells backwards, so it is a walk.
   */
  lemma {:induction false} InvertedWalk(t: Situation, initial: Situation, other: seq<int>)
    requires AllActions(other) && ValidWalk(initial, other) && Valid(initial)
    requires t.position == Replay(initial, other).position && t.maze == initial.maze
    ensures ValidWalk(t, InvertReversed(other))
    decreases |other|
  {
    if other != [] {
      var q, a := other[..|other| - 1], other[|other| - 1];
      assert other == q + [a];
      var back := Replay(initial, q);
      assert ValidWalk(initial, q) by {
        forall i | 1 <= i <= |q| ensures Valid(Replay(initial, q[..i])) {
          assert q[..i] == other[..i];
        }
      }
      assert Valid(back) by {
        if q != [] {
          assert other[..|q|] == q;
        }
      }
      var t' := MakeMove(t, 3 - a);
      OppositeAction(a);
      ReplayKeepsMaze(initial, q);
      assert t'.position == back.position;
      InvertedWalk(t', initial, q);
      InvertReversedAppend(q, a);
      assert ValidWalk(t, [3 - a]) by {
        assert [3 - a][..1] == [3 - a];
        assert Replay(t, [3 - a]) == t' by {
          assert [3 - a][..0] == [];
        }
      }
      assert Replay(t, [3 - a]) == t' by {
        assert [3 - a][..0] == [];
      }
      ValidWalkConcat(t, [3 - a], InvertReversed(q));
    }
  }

  lemma OneStep(s: Situation, a: int)
    requires IsAction(a)
    ensures Replay(s, [a]).position == Neighbour(s.position, a)
  {
    ReplayAppend(s, [], a);
  }

  lemma TwoSteps(s: Situation, a: int, b: int)
    requires IsAction(a) && IsAction(b)
    ensures Replay(s, [a, b]).position == Neighbour(Neighbour(s.position, a), b)
  {
    OneStep(s, a);
    ReplayAppend(s, [a], b);
    assert [a] + [b] == [a, b];
  }

  /**
   * The forward join, written without inverting the other path, need not
   * lead from the goal argument to the initial one. Put the initial
   * argument two steps of action `a` away from the goal argument, in the
   * same maze, with the cell between them open: the two sides meet there,
   * by the walk [3 - a] from the initial side and [a] from the goal side. The forward join [a, 3 - a] walks there and back,
   * ending where it started and not at the initial argument.
   */
  lemma ForwardJoinCanMiss(initial: Situation, goal: Situation, a: int)
    requires IsAction(a)
    requires initial.position == Neighbour(Neighbour(goal.position, a), a)
    requires initial.maze == goal.maze && Valid(MakeMove(goal, a))
    ensures ForwardJoined(initial, goal, [a, 3 - a])
    ensures Replay(goal, [a, 3 - a]).position == goal.position != initial.position
  {
    SidesMeet(initial, goal, a);
    assert ForwardJoin([3 - a], [a]) == [a, 3 - a];
    TwoSteps(goal, a, 3 - a);
    MoveThenOpposite(goal, a);
    TwoStepsAway(goal.position, a);
  }

  /** Two steps the same way never return to the start. */
  lemma TwoStepsAway(p: Pos, a: int)
    requires IsAction(a)
    ensures Neighbour(Neighbour(p, a), a) != p
  {
  }

  /** From two steps away, the inverse action meets the goal side's single step on the open middle cell. */
  lemma SidesMeet(initial: Situation, goal: Situation, a: int)
    requires IsAction(a)
    requires initial.position == Neighbour(Neighbour(goal.position, a), a)
    requires initial.maze == goal.maze && Valid(MakeMove(goal, a))
    ensures AllActions([3 - a]) && AllActions([a])
    ensures ValidWalk(initial, [3 - a]) && ValidWalk(goal, [a])
    ensures Replay(initial, [3 - a]).position == Replay(goal, [a]).position
  {
    OneStep(initial, 3 - a);
    OneStep(goal, a);
    OppositeAction(a);
    assert [3 - a][..1] == [3 - a] && [a][..1] == [a];
    assert Replay(goal, [a]) == MakeMove(goal, a) by {
      assert [a][..0] == [];
    }
    assert Replay(initial, [3 - a]) == MakeMove(initial, 3 - a) by {
      assert [3 - a][..0] == [];
    }
  }

  /** On the same paths the backward formula gives [a, a], which arrives. */
  lemma BackwardJoinArrivesWhereForwardMisses(initial: Situation, goal: Situation, a: int)
    requires IsAction(a)
    requires initial.position == Neighbour(Neighbour(goal.position, a), a)
    ensures BackwardJoin([a], [3 - a]) == [a, a]
    ensures Replay(goal, [a, a]).position == initial.position
  {
    OppositeAction(a);
    assert InvertReversed([3 - a]) == [a];
    TwoSteps(goal, a, a);
  }

  /** Record successor `a` of `s` in the map and the queue when it is valid and its position is not yet a key. */
  function Record(s: Situation, path: seq<int>, side: (map<Pos, seq<int>>, seq<Entry>), a: int)
    : (r: (map<Pos, seq<int>>, seq<Entry>))
    requires IsAction(a)
  {
    var next := MakeMove(s, a);
    if Admissible(s, side.0.Keys, a)
    then (side.0[next.position := path + [a]], side.1 + [Entry(next, path + [a])])
    else side
  }

  /** The successors recorded for actions `0 .. upto - 1`, in action order. */
  function Expansion(s: Situation, path: seq<int>, visited: map<Pos, seq<int>>, queue: seq<Entry>, upto: nat)
    : (r: (map<Pos, seq<int>>, seq<Entry>))
    requires upto <= 4
  {
    if upto == 0 then (visited, queue)
    else Record(s, path, Expansion(s, path, visited, queue, upto - 1), upto - 1)
  }

  /**
   * One side's state: every key is reached from `origin` by its recorded
   * path, a walk over open cells, and every queued entry carries the path
   * recorded for its position.
   */
  ghost predicate SideOk(origin: Situation, visited: map<Pos, seq<int>>, queue: seq<Entry>) {
    KeysReached(origin, visited) && QueueRecorded(origin, visited, queue) && visited.Keys <= Universe(origin)
  }

  ghost predicate KeysReached(origin: Situation, visited: map<Pos, seq<int>>) {
    forall p :: p in visited ==>
      AllActions(visited[p]) && ValidWalk(origin, visited[p]) && Replay(origin, visited[p]).position == p
  }

  ghost predicate QueueRecorded(origin: Situation, visited: map<Pos, seq<int>>, queue: seq<Entry>) {
    forall k :: 0 <= k < |queue| ==>
      && AllActions(queue[k].path)
      && queue[k].situation == Replay(origin, queue[k].path)
      && queue[k].situation.position in visited
      && visited[queue[k].situation.position] == queue[k].path
  }

  /** The number of positions still to be reached plus the queue length: what every expansion lowers. */
  function Measure(origin: Situation, visited: map<Pos, seq<int>>, queue: seq<Entry>): nat {
    |Universe(origin) - visited.Keys| + |queue|
  }

  lemma AddKey(u: set<Pos>, keys: set<Pos>, p: Pos)
    requires p in u && p !in keys
    ensures |u - (keys + {p})| + 1 == |u - keys|
  {
    assert u - keys == (u - (keys + {p})) + {p};
  }

  /** Recording one successor of a situation reached from `origin` keeps the side consistent and its measure. */
  lemma RecordOk(origin: Situation, s: Situation, path: seq<int>, v: map<Pos, seq<int>>, q: seq<Entry>, a: int)
    requires IsAction(a) && AllActions(path) && ValidWalk(origin, path) && s == Replay(origin, path)
    requires SideOk(origin, v, q)
    ensures var r := Record(s, path, (v, q), a);
      && SideOk(origin, r.0, r.1)
      && Measure(origin, r.0, r.1) == Measure(origin, v, q)
  {
    if Admissible(s, v.Keys, a) {
      RecordAdmissible(origin, s, path, v, q, a);
    }
  }

  /** An admissible successor is recorded as a new key with its walk, and queued. */
  lemma RecordAdmissible(origin: Situation, s: Situation, path: seq<int>, v: map<Pos, seq<int>>, q: seq<Entry>, a: int)
    requires IsAction(a) && AllActions(path) && ValidWalk(origin, path) && s == Replay(origin, path)
    requires SideOk(origin, v, q) && Admissible(s, v.Keys, a)
    ensures var next, acts := MakeMove(s, a), path + [a];
      && SideOk(origin, v[next.position := acts], q + [Entry(next, acts)])
      && Measure(origin, v[next.position := acts], q + [Entry(next, acts)]) == Measure(origin, v, q)
  {
    var next, acts := MakeMove(s, a), path + [a];
    WalkSnoc(origin, path, a);
    RecordedKeys(origin, v, next.position, acts);
    RecordedQueue(origin, v, q, next, acts);
    assert v[next.position := acts].Keys == v.Keys + {next.position};
    AddKey(Universe(origin), v.Keys, next.position);
  }

  /** A new key recorded with a path that reaches it keeps every key reached by its path. */
  lemma RecordedKeys(origin: Situation, v: map<Pos, seq<int>>, p: Pos, acts: seq<int>)
    requires KeysReached(origin, v)
    requires AllActions(acts) && ValidWalk(origin, acts) && Replay(origin, acts).position == p
    ensures KeysReached(origin, v[p := acts])
  {
  }

  /** Enqueueing an entry together with its new key keeps every queued entry consistent with the map. */
  lemma RecordedQueue(origin: Situation, v: map<Pos, seq<int>>, q: seq<Entry>, next: Situation, acts: seq<int>)
    requires QueueRecorded(origin, v, q)
    requires next.position !in v && AllActions(acts) && next == Replay(origin, acts)
    ensures QueueRecorded(origin, v[next.position := acts], q + [Entry(next, acts)])
  {
    var v', q' := v[next.position := acts], q + [Entry(next, acts)];
    forall k | 0 <= k < |q'|
      ensures && AllActions(q'[k].path)
              && q'[k].situation == Replay(origin, q'[k].path)
              && q'[k].situation.position in v'
              && v'[q'[k].situation.position] == q'[k].path
    {
      if k < |q| {
        assert q'[k] == q[k];
      }
    }
  }

  /**
   * Recording the successors of a situation reached from `origin` keeps the
   * side consistent, and each new queue entry comes with one new key.
   */
  lemma {:induction false} ExpansionOk(origin: Situation, s: Situation, path: seq<int>,
                                       visited: map<Pos, seq<int>>, queue: seq<Entry>, upto: nat)
    requires upto <= 4 && AllActions(path) && ValidWalk(origin, path) && s == Replay(origin, path)
    requires SideOk(origin, visited, queue)
    ensures var r := Expansion(s, path, visited, queue, upto);
      && SideOk(origin, r.0, r.1)
      && Measure(origin, r.0, r.1) == Measure(origin, visited, queue)
  {
    if upto > 0 {
      ExpansionOk(origin, s, path, visited, queue, upto - 1);
      var r := Expansion(s, path, visited, queue, upto - 1);
      RecordOk(origin, s, path, r.0, r.1, upto - 1);
    }
  }

  /** One search side: the deque and the map of the Python code, updated in place. */
  class Side {
    var queue: seq<Entry>
    var visited: map<Pos, seq<int>>
    ghost const origin: Situation

    ghost predicate Sound()
      reads this
    {
      SideOk(origin, visited, queue)
    }

    /** A side that starts from `origin`, reached by no actions. */
    constructor (origin: Situation)
      ensures this.origin == origin
      ensures queue == [Entry(origin, [])] && visited == map[origin.position := []]
      ensures Sound()
    {
      this.origin := origin;
      queue := [Entry(origin, [])];
      visited := map[origin.position := []];
    }

    /**
     * `expand_front`: pop the oldest entry; if the other side has reached its
     * position, return the join, otherwise record and enqueue its new
     * successors and return None. The other side is only read.
     */
    method ExpandFront(other: Side, reversePath: bool) returns (result: Option<seq<int>>)
      requires other != this && queue != []
      requires Sound() && other.Sound()
      modifies this
      ensures Sound()
      ensures Measure(origin, visited, queue) < old(Measure(origin, visited, queue))
      ensures var e := old(queue[0]);
        if e.situation.position in other.visited then
          && result == Some(if reversePath then BackwardJoin(e.path, other.visited[e.situation.position])
                            else ForwardJoin(e.path, other.visited[e.situation.position]))
          && queue == old(queue[1..]) && visited == old(visited)
        else
          && result == None
          && (visited, queue) == Expansion(e.situation, e.path, old(visited), old(queue[1..]), 4)
      ensures result.Some? && reversePath ==> BackwardJoined(other.origin, origin, result.value)
      ensures result.Some? && !reversePath ==> ForwardJoined(origin, other.origin, result.value)
    {
      var e := queue[0];
      queue := queue[1..];
      var current := e.situation;
      var path := e.path;
      assert AllActions(path) && ValidWalk(origin, path) && current == Replay(origin, path);
      if current.position in other.visited {
        var otherPath := other.visited[current.position];
        if reversePath {
          result := Some(BackwardJoin(path, otherPath));
        } else {
          result := Some(ForwardJoin(path, otherPath));
        }
        return;
      }
      ghost var visited0 := visited;
      ghost var rest := queue;
      ExpansionOk(origin, current, path, visited, queue, 4);
      for action := 0 to 4
        invariant (visited, queue) == Expansion(current, path, visited0, rest, action)
      {
        var next := MakeMove(current, action);
        if Valid(next) && next.position !in visited {
          visited := visited[next.position := path + [action]];
          queue := queue + [Entry(next, path + [action])];
        }
      }
      result := None;
    }
  }

  /**
   * `bidirectional_search(initial_situation, goal_situation)`: alternate one
   * expansion from each side while both queues are non-empty. An empty join
   * counts as no result, as an empty list is false in the source. A result
   * from the backward side leads from `goal` to `initial`'s position, and
   * when `initial` is valid and shares the maze, over open cells only; a
   * result from the forward side joins two walks that meet. With equal
   * origins both first joins are empty and the result is None.
   */
  method BidirectionalSearch(initial: Situation, goal: Situation) returns (r: Option<seq<int>>)
    ensures r.Some? ==> r.value != []
    ensures initial.position == goal.position ==> r == None
    ensures r.Some? ==>
      || (&& AllActions(r.value) && Replay(goal, r.value).position == initial.position
          && (Valid(initial) && initial.maze == goal.maze ==> ValidWalk(goal, r.value)))
      || ForwardJoined(initial, goal, r.value)
  {
    var front := new Side(initial);
    var back := new Side(goal);
    while front.queue != [] && back.queue != []
      invariant front != back
      invariant front.origin == initial && back.origin == goal
      invariant front.Sound() && back.Sound()
      invariant initial.position == goal.position ==>
        front.queue == [] || (front.queue == [Entry(initial, [])] && back.queue == [Entry(goal, [])]
          && front.visited == map[initial.position := []] && back.visited == map[goal.position := []])
      decreases Measure(initial, front.visited, front.queue) + Measure(goal, back.visited, back.queue)
    {
      var result := front.ExpandFront(back, false);
      if result.Some? && result.value != [] {
        return result;
      }
      result := back.ExpandFront(front, true);
      if result.Some? && result.value != [] {
        BackwardJoinReaches(initial, goal, result.value);
        return result;
      }
    }
    return None;
  }
}
