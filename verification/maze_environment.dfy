/**
 * The grid-maze domain: a situation is a position in a 0/1 grid (1 is a
 * wall) together with the goal position. Moves come from a fixed
 * four-entry displacement table.
 */
module MazeEnv {

  /** A cell coordinate, in the (row, column) order numpy indexes with. */
  datatype Pos = Pos(row: int, col: int)

  /** A numpy 2D array is rectangular: every row has the first row's length. */
  predicate Rectangular(g: seq<seq<int>>) {
    forall i :: 0 <= i < |g| ==> |g[i]| == |g[0]|
  }

  type Grid = g: seq<seq<int>> | Rectangular(g) witness []

  /** The two components of `maze.shape`. */
  function Rows(g: Grid): nat { |g| }
  function Cols(g: Grid): nat { if |g| == 0 then 0 else |g[0]| }

  /** Reference definition of "inside the maze". */
  predicate InBounds(g: Grid, p: Pos) {
    0 <= p.row < Rows(g) && 0 <= p.col < Cols(g)
  }

  /** A `Situation`: the shared maze, the current position and the goal. */
  datatype Situation = Situation(maze: Grid, position: Pos, goal: Pos)

  /** 1 when `x` is counted by one of the list comprehensions, else 0. */
  function Indicator(b: bool): nat { if b then 1 else 0 }

  /**
   * The number of coordinates out of range, counted as the source does:
   * the negative coordinates, plus the coordinates where the matching
   * shape component minus the coordinate is not positive.
   */
  function OutsideCount(g: Grid, p: Pos): nat {
    Indicator(p.row < 0) + Indicator(p.col < 0)
    + Indicator(Rows(g) - p.row <= 0) + Indicator(Cols(g) - p.col <= 0)
  }

  /** True when `p` lies outside the maze. */
  predicate CheckBoundaries(s: Situation, p: Pos)
    ensures CheckBoundaries(s, p) <==> !InBounds(s.maze, p)
  {
    OutsideCount(s.maze, p) > 0
  }

  /** True when the in-bounds cell `p` is a wall: exactly when it is not one of the open cells. */
  predicate CheckWalls(s: Situation, p: Pos)
    requires InBounds(s.maze, p)
    ensures CheckWalls(s, p) <==> p !in OpenCells(s.maze)
  {
    assert Pos(p.row, p.col) == p;
    s.maze[p.row][p.col] == 1
  }

  /** A situation is valid when its position is inside the maze and not a wall. */
  predicate Valid(s: Situation)
    ensures Valid(s) <==>
      InBounds(s.maze, s.position) && s.maze[s.position.row][s.position.col] != 1
  {
    if CheckBoundaries(s, s.position) then false
    else if CheckWalls(s, s.position) then false
    else true
  }

  /** The goal test compares the two coordinates elementwise. */
  predicate Finished(s: Situation)
    ensures Finished(s) <==>
      s.position.row == s.goal.row && s.position.col == s.goal.col
  {
    s.position == s.goal
  }

  function SqDist(p: Pos, q: Pos): nat {
    (p.row - q.row) * (p.row - q.row) + (p.col - q.col) * (p.col - q.col)
  }

  /**
   * `a < b`: a is nearer to its goal than b is to its own. Euclidean norms
   * are compared through their squares, which orders them the same way.
   */
  predicate Less(a: Situation, b: Situation) {
    SqDist(a.position, a.goal) < SqDist(b.position, b.goal)
  }

  lemma LessIsStrictOrder(a: Situation, b: Situation, c: Situation)
    ensures !Less(a, a)
    ensures Less(a, b) ==> !Less(b, a)
    ensures Less(a, b) && Less(b, c) ==> Less(a, c)
  {
  }

  /** The four action identifiers of the displacement table. */
  predicate IsAction(a: int) { 0 <= a < 4 }

  predicate AllActions(acts: seq<int>) {
    forall i :: 0 <= i < |acts| ==> IsAction(acts[i])
  }

  /** `action_map`: the displacement of each action, as (row, column). */
  function ActionMap(a: int): Pos
    requires IsAction(a)
  {
    if a == 0 then Pos(0, 1)
    else if a == 1 then Pos(1, 0)
    else if a == 2 then Pos(-1, 0)
    else Pos(0, -1)
  }

  /** Every displacement is one cell along exactly one axis. */
  lemma ActionMapIsUnit(a: int)
    requires IsAction(a)
    ensures var d := ActionMap(a);
      (d.row == 0 && (d.col == 1 || d.col == -1)) || (d.col == 0 && (d.row == 1 || d.row == -1))
  {
  }

  /** Action `3 - a` undoes action `a`, and `a |-> 3 - a` is an involution. */
  lemma OppositeAction(a: int)
    requires IsAction(a)
    ensures IsAction(3 - a) && 3 - (3 - a) == a
    ensures ActionMap(3 - a) == Pos(-ActionMap(a).row, -ActionMap(a).col)
  {
  }

  function Add(p: Pos, d: Pos): Pos { Pos(p.row + d.row, p.col + d.col) }

  /**
   * `make_move`: a new situation one step away, sharing the maze and goal.
   * Only the four keys of the table are defined (a dictionary lookup).
   */
  function MakeMove(s: Situation, action: int): (r: Situation)
    requires IsAction(action)
    ensures r.maze == s.maze && r.goal == s.goal
    ensures r.position != s.position
  {
    Situation(s.maze, Add(s.position, ActionMap(action)), s.goal)
  }

  /** Every move covers exactly one cell along one axis. */
  lemma MoveIsUnitStep(s: Situation, action: int)
    requires IsAction(action)
    ensures SqDist(MakeMove(s, action).position, s.position) == 1
  {
    var d := ActionMap(action);
    assert MakeMove(s, action).position == Add(s.position, d);
    assert SqDist(Add(s.position, d), s.position) == d.row * d.row + d.col * d.col;
  }

  /** Moving along `a` and then along `3 - a` comes back to the same situation. */
  lemma MoveThenOpposite(s: Situation, a: int)
    requires IsAction(a)
    ensures IsAction(3 - a) && MakeMove(MakeMove(s, a), 3 - a) == s
  {
    OppositeAction(a);
  }

  /** The situation reached by applying `acts` in order from `s`. */
  function Replay(s: Situation, acts: seq<int>): Situation
    requires AllActions(acts)
    decreases |acts|
  {
    if acts == [] then s
    else MakeMove(Replay(s, acts[..|acts| - 1]), acts[|acts| - 1])
  }

  lemma {:induction false} ReplayKeepsMaze(s: Situation, acts: seq<int>)
    requires AllActions(acts)
    ensures Replay(s, acts).maze == s.maze && Replay(s, acts).goal == s.goal
    decreases |acts|
  {
    if acts != [] {
      ReplayKeepsMaze(s, acts[..|acts| - 1]);
    }
  }

  lemma ReplayAppend(s: Situation, acts: seq<int>, a: int)
    requires AllActions(acts) && IsAction(a)
    ensures AllActions(acts + [a])
    ensures Replay(s, acts + [a]) == MakeMove(Replay(s, acts), a)
  {
    assert (acts + [a])[..|acts|] == acts;
  }

  /** Replaying a concatenation replays its two parts one after the other. */
  lemma {:induction false} ReplayConcat(s: Situation, x: seq<int>, y: seq<int>)
    requires AllActions(x) && AllActions(y)
    ensures AllActions(x + y)
    ensures Replay(s, x + y) == Replay(Replay(s, x), y)
    decreases |y|
  {
    if y == [] {
      assert x + y == x;
    } else {
      var y' := y[..|y| - 1];
      var a := y[|y| - 1];
      assert y == y' + [a];
      assert x + y == (x + y') + [a];
      ReplayConcat(s, x, y');
      ReplayAppend(s, x + y', a);
      ReplayAppend(Replay(s, x), y', a);
    }
  }

  /** `[3 - x for x in p[::-1]]`: the inverse of a route. */
  function InvertReversed(p: seq<int>): (r: seq<int>)
    requires AllActions(p)
    ensures |r| == |p| && AllActions(r)
  {
    seq(|p|, i requires 0 <= i < |p| => 3 - p[|p| - 1 - i])
  }

  lemma InvertReversedAppend(p: seq<int>, a: int)
    requires AllActions(p) && IsAction(a)
    ensures AllActions(p + [a])
    ensures InvertReversed(p + [a]) == [3 - a] + InvertReversed(p)
  {
    var l := InvertReversed(p + [a]);
    var r := [3 - a] + InvertReversed(p);
    assert |l| == |r|;
    forall i | 0 <= i < |l| ensures l[i] == r[i] {
      if i > 0 {
        assert l[i] == 3 - (p + [a])[|p| - i];
      }
    }
  }

  /** Replaying the inverted reversed route undoes the route. */
  lemma {:induction false} InvertReversedUndoes(s: Situation, p: seq<int>)
    requires AllActions(p)
    ensures Replay(Replay(s, p), InvertReversed(p)) == s
    decreases |p|
  {
    if p != [] {
      var q := p[..|p| - 1];
      var a := p[|p| - 1];
      assert p == q + [a];
      InvertReversedAppend(q, a);
      ReplayAppend(s, q, a);
      ReplayConcat(Replay(s, p), [3 - a], InvertReversed(q));
      assert Replay(Replay(s, p), [3 - a]) == MakeMove(Replay(s, p), 3 - a) by {
        assert [3 - a][..0] == [];
      }
      MoveThenOpposite(Replay(s, q), a);
      InvertReversedUndoes(s, q);
    }
  }

  /** Every situation reached after the first step of `acts` is valid. */
  ghost predicate ValidWalk(s: Situation, acts: seq<int>)
    requires AllActions(acts)
  {
    forall i :: 1 <= i <= |acts| ==> Valid(Replay(s, acts[..i]))
  }

  /** A walk followed by a walk from where it ends is a walk. */
  lemma ValidWalkConcat(s: Situation, x: seq<int>, y: seq<int>)
    requires AllActions(x) && AllActions(y)
    requires ValidWalk(s, x) && ValidWalk(Replay(s, x), y)
    ensures AllActions(x + y) && ValidWalk(s, x + y)
  {
    forall i | 1 <= i <= |x + y| ensures Valid(Replay(s, (x + y)[..i])) {
      if i <= |x| {
        assert (x + y)[..i] == x[..i];
      } else {
        assert (x + y)[..i] == x + y[..i - |x|];
        ReplayConcat(s, x, y[..i - |x|]);
      }
    }
  }

  /**
   * `__eq__` and `__hash__` look only at the position. For situations
   * reached from one origin this is equality of the whole situation, as
   * maze and goal are shared, so keying maps by position loses nothing.
   */
  lemma ReachedEqualIffSamePosition(s: Situation, x: seq<int>, y: seq<int>)
    requires AllActions(x) && AllActions(y)
    ensures Replay(s, x) == Replay(s, y) <==> Replay(s, x).position == Replay(s, y).position
  {
    ReplayKeepsMaze(s, x);
    ReplayKeepsMaze(s, y);
  }

  /** The in-bounds cells that are not walls. */
  function OpenCells(g: Grid): set<Pos> {
    set r, c | 0 <= r < Rows(g) && 0 <= c < Cols(g) && g[r][c] != 1 :: Pos(r, c)
  }

  lemma ValidIsOpen(s: Situation)
    requires Valid(s)
    ensures s.position in OpenCells(s.maze)
  {
    var p := s.position;
    assert Pos(p.row, p.col) == p;
  }

  /** The cell one step from `p` along action `a`. */
  function Neighbour(p: Pos, a: int): Pos
    requires IsAction(a)
  {
    Add(p, ActionMap(a))
  }

  lemma OpenIsValid(s: Situation)
    requires s.position in OpenCells(s.maze)
    ensures Valid(s)
  {
  }

  /** A route from `s`: every situation after the first step valid, the last one finished. */
  ghost predicate Route(s: Situation, acts: seq<int>)
    requires AllActions(acts)
  {
    ValidWalk(s, acts) && Finished(Replay(s, acts))
  }

  /** The positions of the situations met by replaying `acts` from `s`, `s` included. */
  function Trail(s: Situation, acts: seq<int>): (t: seq<Pos>)
    requires AllActions(acts)
    ensures |t| == |acts| + 1
  {
    seq(|acts| + 1, i requires 0 <= i <= |acts| => Replay(s, acts[..i]).position)
  }

  /** Every situation met along `acts` from `s`, `s` included, is valid. */
  ghost predicate ValidAlong(s: Situation, acts: seq<int>)
    requires AllActions(acts)
  {
    forall i :: 0 <= i <= |acts| ==> Valid(Replay(s, acts[..i]))
  }

  ghost predicate Distinct(t: seq<Pos>) {
    forall i, j :: 0 <= i < j < |t| ==> t[i] != t[j]
  }

  /** A trail starts at `s`, ends where the replay ends and follows each action's displacement. */
  lemma TrailSteps(s: Situation, acts: seq<int>)
    requires AllActions(acts)
    ensures var t := Trail(s, acts);
      && t[0] == s.position && t[|acts|] == Replay(s, acts).position
      && forall i :: 0 <= i < |acts| ==> t[i + 1] == Add(t[i], ActionMap(acts[i]))
  {
    var t := Trail(s, acts);
    assert acts[..0] == [];
    assert acts[..|acts|] == acts;
    forall i | 0 <= i < |acts| ensures t[i + 1] == Add(t[i], ActionMap(acts[i])) {
      assert acts[..i + 1][..i] == acts[..i];
      assert Replay(s, acts[..i + 1]) == MakeMove(Replay(s, acts[..i]), acts[i]);
    }
  }

  lemma ValidAlongIsOpen(s: Situation, acts: seq<int>)
    requires AllActions(acts) && ValidAlong(s, acts)
    ensures forall i :: 0 <= i < |Trail(s, acts)| ==> Trail(s, acts)[i] in OpenCells(s.maze)
  {
    forall i | 0 <= i <= |acts| ensures Trail(s, acts)[i] in OpenCells(s.maze) {
      ValidIsOpen(Replay(s, acts[..i]));
      ReplayKeepsMaze(s, acts[..i]);
    }
  }
}
