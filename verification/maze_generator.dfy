/**
 * Random maze generation by depth-first carving (maze/generator.py). The
 * grid has `h` rows and `w` columns, 1 for a wall and 0 for an open cell,
 * and is indexed `maze[y, x]`. The random choices are parameters: the
 * shuffled direction list drawn at each step of a carving loop, numbered
 * by a running draw counter, and the start cell of each carved path.
 */
module MazeGenerator {
  import opened Wrappers

  /** `dx`, `dy`: up, right, down, left. */
  const Dx: seq<int> := [0, 1, 0, -1]
  const Dy: seq<int> := [-1, 0, 1, 0]

  /** `random.sample(range(4), 4)`: the four directions in some order. */
  predicate IsShuffle(dirs: seq<int>) {
    && |dirs| == 4
    && (forall i :: 0 <= i < 4 ==> 0 <= dirs[i] < 4)
    && (forall i, j :: 0 <= i < j < 4 ==> dirs[i] != dirs[j])
  }

  predicate InBounds(maze: array2<int>, x: int, y: int) {
    0 <= x < maze.Length1 && 0 <= y < maze.Length0
  }

  /** Every cell is 0 (open) or 1 (wall). */
  ghost predicate Binary(maze: array2<int>)
    reads maze
  {
    forall y, x :: 0 <= y < maze.Length0 && 0 <= x < maze.Length1 ==> maze[y, x] == 0 || maze[y, x] == 1
  }

  /** The walls, as (row, column) pairs. */
  ghost function Walls(maze: array2<int>): set<(int, int)>
    reads maze
  {
    set y, x | 0 <= y < maze.Length0 && 0 <= x < maze.Length1 && maze[y, x] == 1 :: (y, x)
  }

  /** The open cells, as (row, column) pairs. */
  ghost function OpenSet(maze: array2<int>): set<(int, int)>
    reads maze
  {
    set y, x | 0 <= y < maze.Length0 && 0 <= x < maze.Length1 && maze[y, x] == 0 :: (y, x)
  }

  /** `maze[y][x] = 0`: open one cell and leave every other cell as it was. */
  method OpenCell(maze: array2<int>, y: int, x: int)
    requires 0 <= y < maze.Length0 && 0 <= x < maze.Length1
    modifies maze
    ensures maze[y, x] == 0
    ensures forall i, j :: 0 <= i < maze.Length0 && 0 <= j < maze.Length1 && (i, j) != (y, x) ==>
      maze[i, j] == old(maze[i, j])
    ensures old(Binary(maze)) ==> Binary(maze)
    ensures OpenSet(maze) == old(OpenSet(maze)) + {(y, x)}
    ensures Walls(maze) == old(Walls(maze)) - {(y, x)}
  {
    maze[y, x] := 0;
    forall c | c in OpenSet(maze) ensures c in old(OpenSet(maze)) + {(y, x)} {
    }
    forall c | c in old(OpenSet(maze)) + {(y, x)} ensures c in OpenSet(maze) {
    }
    forall c | c in Walls(maze) ensures c in old(Walls(maze)) - {(y, x)} {
    }
    forall c | c in old(Walls(maze)) - {(y, x)} ensures c in Walls(maze) {
    }
  }

  function Elems(cells: seq<(int, int)>): set<(int, int)> {
    set c | c in cells
  }

  lemma ElemsSnoc(cells: seq<(int, int)>, c: (int, int))
    ensures Elems(cells + [c]) == Elems(cells) + {c}
  {
    forall e | e in Elems(cells + [c]) ensures e in Elems(cells) + {c} {
      var i :| 0 <= i < |cells + [c]| && (cells + [c])[i] == e;
      if i < |cells| {
        assert cells[i] == e;
      }
    }
    forall e | e in Elems(cells) ensures e in Elems(cells + [c]) {
      var i :| 0 <= i < |cells| && cells[i] == e;
      assert (cells + [c])[i] == e;
    }
  }

  /** Neighbour `j` of the cell (y, x) lies in an `h`-by-`w` grid and in `open`. */
  predicate OpenIn(open: set<(int, int)>, h: int, w: int, y: int, x: int, j: int)
    requires 0 <= j < 4
  {
    0 <= y + Dy[j] < h && 0 <= x + Dx[j] < w && (y + Dy[j], x + Dx[j]) in open
  }

  /** Exactly one of the four neighbours of (y, x) lies in the grid and in `open`. */
  ghost predicate OneOpenNeighbour(open: set<(int, int)>, h: int, w: int, y: int, x: int) {
    exists j :: 0 <= j < 4 && OpenIn(open, h, w, y, x, j)
      && forall i :: 0 <= i < 4 && i != j ==> !OpenIn(open, h, w, y, x, i)
  }

  /**
   * The carving rule, for cells carved in order starting from the open
   * cells `base`: each carved cell lies in the grid, is not open yet, and
   * has exactly one open neighbour in the grid at the moment it is carved,
   * among `base` and the cells carved before it.
   */
  ghost predicate CarvedByRule(base: set<(int, int)>, carved: seq<(int, int)>, h: int, w: int) {
    forall i :: 0 <= i < |carved| ==>
      && 0 <= carved[i].0 < h && 0 <= carved[i].1 < w
      && carved[i] !in base + Elems(carved[..i])
      && OneOpenNeighbour(base + Elems(carved[..i]), h, w, carved[i].0, carved[i].1)
  }

  /** Carving one more cell by the rule extends a carving by the rule. */
  lemma {:induction false} CarvedSnoc(base: set<(int, int)>, carved: seq<(int, int)>, c: (int, int), h: int, w: int)
    requires CarvedByRule(base, carved, h, w)
    requires 0 <= c.0 < h && 0 <= c.1 < w && c !in base + Elems(carved)
    requires OneOpenNeighbour(base + Elems(carved), h, w, c.0, c.1)
    ensures CarvedByRule(base, carved + [c], h, w)
    ensures Elems(carved + [c]) == Elems(carved) + {c}
  {
    var carved' := carved + [c];
    forall i | 0 <= i < |carved'|
      ensures && 0 <= carved'[i].0 < h && 0 <= carved'[i].1 < w
              && carved'[i] !in base + Elems(carved'[..i])
              && OneOpenNeighbour(base + Elems(carved'[..i]), h, w, carved'[i].0, carved'[i].1)
    {
      if i < |carved| {
        assert carved'[..i] == carved[..i];
      } else {
        assert carved'[..i] == carved;
      }
    }
    ElemsSnoc(carved, c);
  }

  /** The cells `a` and `b`, as (row, column) pairs, share a side. */
  predicate Adjacent(a: (int, int), b: (int, int)) {
    || (a.0 == b.0 && (a.1 - b.1 == 1 || b.1 - a.1 == 1))
    || (a.1 == b.1 && (a.0 - b.0 == 1 || b.0 - a.0 == 1))
  }

  /** Moving one step in direction `d` from (y, x) reaches an adjacent cell. */
  lemma StepAdjacent(y: int, x: int, d: int)
    requires 0 <= d < 4
    ensures Adjacent((y, x), (y + Dy[d], x + Dx[d]))
  {
  }

  /** The `i`-th carved cell is adjacent to the start or to a cell carved before it. */
  ghost predicate Attached(start: (int, int), carved: seq<(int, int)>, i: int)
    requires 0 <= i < |carved|
  {
    Adjacent(start, carved[i]) || exists j :: 0 <= j < i && Adjacent(carved[j], carved[i])
  }

  /** Every carved cell is attached: a carving grows one tree of cells from its start cell. */
  ghost predicate GrownFrom(start: (int, int), carved: seq<(int, int)>) {
    forall i :: 0 <= i < |carved| ==> Attached(start, carved, i)
  }

  /** Carving a cell next to the start or a carved cell keeps the carving grown from the start. */
  lemma {:induction false} GrownSnoc(start: (int, int), carved: seq<(int, int)>, c: (int, int), p: (int, int))
    requires GrownFrom(start, carved)
    requires p in {start} + Elems(carved) && Adjacent(p, c)
    ensures GrownFrom(start, carved + [c])
  {
    var carved' := carved + [c];
    forall i | 0 <= i < |carved'|
      ensures Attached(start, carved', i)
    {
      if i < |carved| {
        assert Attached(start, carved, i);
        if !Adjacent(start, carved[i]) {
          var j :| 0 <= j < i && Adjacent(carved[j], carved[i]);
          assert carved'[j] == carved[j];
        }
      } else if p != start {
        var j :| 0 <= j < |carved| && carved[j] == p;
        assert carved'[j] == p;
      }
    }
  }

  /** Every stack entry (x, y) is the start cell or a carved cell. */
  ghost predicate StackOnPath(stack: seq<(int, int)>, start: (int, int), carved: seq<(int, int)>) {
    forall k :: 0 <= k < |stack| ==> (stack[k].1, stack[k].0) in {start} + Elems(carved)
  }

  /** Among the neighbours of (x, y) in the first `n` directions, how many are in bounds and open. */
  function OpenAmong(maze: array2<int>, x: int, y: int, n: nat): nat
    requires n <= 4
    reads maze
  {
    if n == 0 then 0
    else
      var ex, ey := x + Dx[n - 1], y + Dy[n - 1];
      OpenAmong(maze, x, y, n - 1) + (if InBounds(maze, ex, ey) && maze[ey, ex] == 0 then 1 else 0)
  }

  /** Neighbour `j` of (x, y) is in bounds and open. */
  predicate OpenNeighbour(maze: array2<int>, x: int, y: int, j: int)
    requires 0 <= j < 4
    reads maze
  {
    InBounds(maze, x + Dx[j], y + Dy[j]) && maze[y + Dy[j], x + Dx[j]] == 0
  }

  /**
   * The count is at most the number of directions looked at, and it is 0
   * exactly when none of them leads to an open cell.
   */
  lemma {:induction false} OpenAmongCounts(maze: array2<int>, x: int, y: int, n: nat)
    requires n <= 4
    ensures OpenAmong(maze, x, y, n) <= n
    ensures OpenAmong(maze, x, y, n) == 0 <==> forall j :: 0 <= j < n ==> !OpenNeighbour(maze, x, y, j)
  {
    if n > 0 {
      OpenAmongCounts(maze, x, y, n - 1);
      assert OpenAmong(maze, x, y, n) == OpenAmong(maze, x, y, n - 1) + (if OpenNeighbour(maze, x, y, n - 1) then 1 else 0);
    }
  }

  /** A count of one names exactly one open neighbour. */
  lemma {:induction false} OpenAmongOne(maze: array2<int>, x: int, y: int, n: nat) returns (j: nat)
    requires n <= 4 && OpenAmong(maze, x, y, n) == 1
    ensures j < n && OpenNeighbour(maze, x, y, j)
    ensures forall i :: 0 <= i < n && i != j ==> !OpenNeighbour(maze, x, y, i)
  {
    OpenAmongCounts(maze, x, y, n - 1);
    assert OpenAmong(maze, x, y, n) == OpenAmong(maze, x, y, n - 1) + (if OpenNeighbour(maze, x, y, n - 1) then 1 else 0);
    if OpenNeighbour(maze, x, y, n - 1) {
      j := n - 1;
    } else {
      j := OpenAmongOne(maze, x, y, n - 1);
    }
  }

  /**
   * Direction `i` from (x, y) may be carved: the neighbour is in bounds,
   * still a wall, and has exactly one open in-bounds neighbour.
   */
  predicate Eligible(maze: array2<int>, x: int, y: int, i: int)
    requires 0 <= i < 4
    reads maze
  {
    var nx, ny := x + Dx[i], y + Dy[i];
    InBounds(maze, nx, ny) && maze[ny, nx] == 1 && OpenAmong(maze, nx, ny, 4) == 1
  }

  /** A wall with exactly one open neighbour, as counted on the grid, has exactly one neighbour among the open cells. */
  lemma EligibleByRule(maze: array2<int>, nx: int, ny: int)
    requires OpenAmong(maze, nx, ny, 4) == 1
    ensures OneOpenNeighbour(OpenSet(maze), maze.Length0, maze.Length1, ny, nx)
  {
    var j := OpenAmongOne(maze, nx, ny, 4);
    forall i | 0 <= i < 4
      ensures OpenIn(OpenSet(maze), maze.Length0, maze.Length1, ny, nx, i) <==> OpenNeighbour(maze, nx, ny, i)
    {
    }
  }

  /** The `wall_count` loop: count the open in-bounds neighbours of (nx, ny). */
  method CountOpen(maze: array2<int>, nx: int, ny: int) returns (wallCount: nat)
    ensures wallCount == OpenAmong(maze, nx, ny, 4)
    ensures wallCount <= 4
  {
    wallCount := 0;
    for j := 0 to 4
      invariant wallCount == OpenAmong(maze, nx, ny, j)
    {
      var ex, ey := nx + Dx[j], ny + Dy[j];
      if 0 <= ex < maze.Length1 && 0 <= ey < maze.Length0 && maze[ey, ex] == 0 {
        wallCount := wallCount + 1;
      }
    }
    OpenAmongCounts(maze, nx, ny, 4);
  }

  /**
   * The `for i in directions` loop up to its `break`: the position of the
   * first eligible direction, or `|dirs|` when the loop ends without a
   * break (its `else` branch).
   */
  method FirstEligible(maze: array2<int>, x: int, y: int, dirs: seq<int>) returns (k: nat)
    requires forall i :: 0 <= i < |dirs| ==> 0 <= dirs[i] < 4
    ensures k <= |dirs|
    ensures k < |dirs| ==> Eligible(maze, x, y, dirs[k])
    ensures forall i :: 0 <= i < k ==> !Eligible(maze, x, y, dirs[i])
  {
    k := 0;
    while k < |dirs|
      invariant k <= |dirs|
      invariant forall i :: 0 <= i < k ==> !Eligible(maze, x, y, dirs[i])
    {
      var nx, ny := x + Dx[dirs[k]], y + Dy[dirs[k]];
      if 0 <= nx < maze.Length1 && 0 <= ny < maze.Length0 && maze[ny, nx] == 1 {
        var wallCount := CountOpen(maze, nx, ny);
        if wallCount == 1 {
          return;
        }
      }
      k := k + 1;
    }
  }

  /**
   * `maze[ny][nx] = 0` for an eligible wall: the cell is carved by the rule
   * and appended to the cells carved so far.
   */
  method Carve(maze: array2<int>, nx: int, ny: int, ghost base: set<(int, int)>, ghost carved: seq<(int, int)>)
    returns (ghost carved': seq<(int, int)>)
    requires 0 <= ny < maze.Length0 && 0 <= nx < maze.Length1 && maze[ny, nx] == 1
    requires OpenAmong(maze, nx, ny, 4) == 1
    requires OpenSet(maze) == base + Elems(carved) && CarvedByRule(base, carved, maze.Length0, maze.Length1)
    modifies maze
    ensures carved' == carved + [(ny, nx)] && Elems(carved') == Elems(carved) + {(ny, nx)}
    ensures old(Binary(maze)) ==> Binary(maze)
    ensures OpenSet(maze) == base + Elems(carved')
    ensures CarvedByRule(base, carved', maze.Length0, maze.Length1)
    ensures Walls(maze) < old(Walls(maze))
  {
    EligibleByRule(maze, nx, ny);
    assert (ny, nx) in Walls(maze);
    CarvedSnoc(base, carved, (ny, nx), maze.Length0, maze.Length1);
    OpenCell(maze, ny, nx);
    carved' := carved + [(ny, nx)];
  }

  /**
   * Carving the neighbour in direction `d` of a path cell (y, x), such as
   * the stack top, and pushing it keeps the carving grown from the start
   * and every stack entry on the path.
   */
  lemma StackPush(stack: seq<(int, int)>, start: (int, int), carved: seq<(int, int)>, x: int, y: int, d: int)
    requires 0 <= d < 4 && (y, x) in {start} + Elems(carved)
    requires GrownFrom(start, carved) && StackOnPath(stack, start, carved)
    ensures GrownFrom(start, carved + [(y + Dy[d], x + Dx[d])])
    ensures StackOnPath(stack + [(x + Dx[d], y + Dy[d])], start, carved + [(y + Dy[d], x + Dx[d])])
  {
    var c := (y + Dy[d], x + Dx[d]);
    StepAdjacent(y, x, d);
    GrownSnoc(start, carved, c, (y, x));
    var stack', carved' := stack + [(x + Dx[d], y + Dy[d])], carved + [c];
    ElemsSnoc(carved, c);
    forall k | 0 <= k < |stack'| ensures (stack'[k].1, stack'[k].0) in {start} + Elems(carved') {
      if k < |stack| {
        assert stack'[k] == stack[k];
        assert (stack[k].1, stack[k].0) in {start} + Elems(carved);
      }
    }
  }

  /** Popping the stack keeps every remaining entry on the path. */
  lemma StackPop(stack: seq<(int, int)>, start: (int, int), carved: seq<(int, int)>)
    requires stack != [] && StackOnPath(stack, start, carved)
    ensures StackOnPath(stack[..|stack| - 1], start, carved)
  {
  }

  /**
   * While the path from `start` is carved, every stack entry (x, y) is an
   * in-bounds open cell of the grid.
   */
  lemma StackCellsOpen(maze: array2<int>, stack: seq<(int, int)>, base: set<(int, int)>, start: (int, int),
                       carved: seq<(int, int)>)
    requires StackOnPath(stack, start, carved) && OpenSet(maze) == base + {start} + Elems(carved)
    ensures forall k :: 0 <= k < |stack| ==> InBounds(maze, stack[k].0, stack[k].1) && maze[stack[k].1, stack[k].0] == 0
  {
    forall k | 0 <= k < |stack| ensures InBounds(maze, stack[k].0, stack[k].1) && maze[stack[k].1, stack[k].0] == 0 {
      assert (stack[k].1, stack[k].0) in OpenSet(maze);
    }
  }

  /**
   * One extension of the path: carve the eligible neighbour in direction
   * `d` of the stack top (x, y), a cell of the path grown from `start`, and
   * push it. The carving stays by the rule and grown from the start, and
   * every stack entry stays on the path.
   */
  method Extend(maze: array2<int>, x: int, y: int, d: int, ghost open0: set<(int, int)>, ghost start: (int, int),
                stack: seq<(int, int)>, ghost carved: seq<(int, int)>)
    returns (stack': seq<(int, int)>, ghost carved': seq<(int, int)>)
    requires 0 <= d < 4 && Eligible(maze, x, y, d) && (y, x) in {start} + Elems(carved)
    requires OpenSet(maze) == open0 + {start} + Elems(carved)
    requires CarvedByRule(open0 + {start}, carved, maze.Length0, maze.Length1)
    requires GrownFrom(start, carved) && StackOnPath(stack, start, carved)
    modifies maze
    ensures carved' == carved + [(y + Dy[d], x + Dx[d])]
    ensures old(Binary(maze)) ==> Binary(maze)
    ensures OpenSet(maze) == open0 + {start} + Elems(carved')
    ensures CarvedByRule(open0 + {start}, carved', maze.Length0, maze.Length1)
    ensures stack' == stack + [(x + Dx[d], y + Dy[d])]
    ensures GrownFrom(start, carved') && StackOnPath(stack', start, carved')
    ensures Walls(maze) < old(Walls(maze))
  {
    StackPush(stack, start, carved, x, y, d);
    carved' := Carve(maze, x + Dx[d], y + Dy[d], open0 + {start}, carved);
    stack' := stack + [(x + Dx[d], y + Dy[d])];
  }

  /**
   * `carve_path`: open the start cell, then repeatedly extend the path from
   * the top of the stack into the first eligible direction of a fresh
   * shuffle, or pop when there is none. Draws `order(t0)`, `order(t0 + 1)`,
   * ... and returns the number of the next unused draw. The ghost result
   * `carved` lists the cells opened after the start, in order: the cells
   * opened are exactly the start and those, and each was carved by the
   * rule. Every cell stays 0 or 1.
   */
  method CarvePath(maze: array2<int>, cx: int, cy: int, order: nat -> seq<int>, t0: nat)
    returns (t: nat, ghost carved: seq<(int, int)>)
    requires InBounds(maze, cx, cy) && Binary(maze)
    requires forall s: nat :: IsShuffle(order(s))
    modifies maze
    ensures Binary(maze)
    ensures maze[cy, cx] == 0
    ensures forall y, x :: 0 <= y < maze.Length0 && 0 <= x < maze.Length1 && old(maze[y, x]) == 0 ==> maze[y, x] == 0
    ensures OpenSet(maze) == old(OpenSet(maze)) + {(cy, cx)} + Elems(carved)
    ensures CarvedByRule(old(OpenSet(maze)) + {(cy, cx)}, carved, maze.Length0, maze.Length1)
    ensures GrownFrom((cy, cx), carved)
    ensures t >= t0
  {
    ghost var open0 := OpenSet(maze);
    var stack := [(cx, cy)];
    OpenCell(maze, cy, cx);
    carved := [];
    t := t0;
    while stack != []
      invariant Binary(maze)
      invariant OpenSet(maze) == open0 + {(cy, cx)} + Elems(carved)
      invariant CarvedByRule(open0 + {(cy, cx)}, carved, maze.Length0, maze.Length1)
      invariant GrownFrom((cy, cx), carved) && StackOnPath(stack, (cy, cx), carved)
      invariant t >= t0
      decreases Walls(maze), |stack|
    {
      var (x, y) := stack[|stack| - 1];
      var directions := order(t);
      t := t + 1;
      var k := FirstEligible(maze, x, y, directions);
      if k < |directions| {
        stack, carved := Extend(maze, x, y, directions[k], open0, (cy, cx), stack, carved);
      } else {
        StackPop(stack, (cy, cx), carved);
        stack := stack[..|stack| - 1];
      }
    }
    assert (cy, cx) in OpenSet(maze);
    forall y, x | 0 <= y < maze.Length0 && 0 <= x < maze.Length1 && old(maze[y, x]) == 0
      ensures maze[y, x] == 0
    {
      assert (y, x) in OpenSet(maze);
    }
  }

  /**
   * The cells opened by the first `k` carved paths: each path's start cell,
   * as (row, column), and the cells carved from it.
   */
  ghost function Opened(starts: seq<(int, int)>, logs: seq<seq<(int, int)>>, k: nat): set<(int, int)>
    requires k <= |starts| && k <= |logs|
  {
    if k == 0 then {}
    else Opened(starts, logs, k - 1) + {(starts[k - 1].1, starts[k - 1].0)} + Elems(logs[k - 1])
  }

  lemma {:induction false} OpenedPrefix(starts: seq<(int, int)>, logs: seq<seq<(int, int)>>, c: seq<(int, int)>, k: nat)
    requires k <= |starts| && k <= |logs|
    ensures Opened(starts, logs + [c], k) == Opened(starts, logs, k)
  {
    if k > 0 {
      OpenedPrefix(starts, logs, c, k - 1);
      assert (logs + [c])[k - 1] == logs[k - 1];
    }
  }

  /** Each of the first `n` paths was carved by the rule from the cells opened before it and its start cell. */
  ghost predicate PathsByRule(starts: seq<(int, int)>, logs: seq<seq<(int, int)>>, n: nat, h: int, w: int)
    requires n <= |starts| && n <= |logs|
  {
    forall k :: 0 <= k < n ==>
      && CarvedByRule(Opened(starts, logs, k) + {(starts[k].1, starts[k].0)}, logs[k], h, w)
      && GrownFrom((starts[k].1, starts[k].0), logs[k])
  }

  /** One more path carved by the rule from the cells opened so far extends the paths carved by the rule. */
  lemma {:induction false} PathsSnoc(starts: seq<(int, int)>, logs: seq<seq<(int, int)>>, c: seq<(int, int)>, h: int, w: int)
    requires |logs| < |starts| && PathsByRule(starts, logs, |logs|, h, w)
    requires CarvedByRule(Opened(starts, logs, |logs|) + {(starts[|logs|].1, starts[|logs|].0)}, c, h, w)
    requires GrownFrom((starts[|logs|].1, starts[|logs|].0), c)
    ensures PathsByRule(starts, logs + [c], |logs| + 1, h, w)
    ensures Opened(starts, logs + [c], |logs| + 1)
      == Opened(starts, logs, |logs|) + {(starts[|logs|].1, starts[|logs|].0)} + Elems(c)
  {
    var logs' := logs + [c];
    forall k | 0 <= k <= |logs|
      ensures CarvedByRule(Opened(starts, logs', k) + {(starts[k].1, starts[k].0)}, logs'[k], h, w)
      ensures GrownFrom((starts[k].1, starts[k].0), logs'[k])
    {
      OpenedPrefix(starts, logs, c, k);
      if k < |logs| {
        assert logs'[k] == logs[k];
        assert CarvedByRule(Opened(starts, logs, k) + {(starts[k].1, starts[k].0)}, logs[k], h, w);
      } else {
        assert logs'[k] == c;
      }
    }
    OpenedPrefix(starts, logs, c, |logs|);
  }

  /** `maze[0][0] = 0` and `maze[w - 1][h - 1] = 0`, on a square grid. */
  method OpenCorners(maze: array2<int>, w: int, h: int)
    requires w == h >= 1 && maze.Length0 == h && maze.Length1 == w
    modifies maze
    ensures old(Binary(maze)) ==> Binary(maze)
    ensures maze[0, 0] == 0 && maze[h - 1, w - 1] == 0
    ensures OpenSet(maze) == old(OpenSet(maze)) + {(0, 0), (h - 1, w - 1)}
  {
    OpenCell(maze, 0, 0);
    OpenCell(maze, w - 1, h - 1);
  }

  /** Every start cell of the first `n` paths is among the cells they opened. */
  lemma {:induction false} StartsOpened(starts: seq<(int, int)>, logs: seq<seq<(int, int)>>, n: nat)
    requires n <= |starts| && n <= |logs|
    ensures forall k :: 0 <= k < n ==> (starts[k].1, starts[k].0) in Opened(starts, logs, n)
  {
    if n > 0 {
      StartsOpened(starts, logs, n - 1);
    }
  }

  /** A grid of walls has no open cell. */
  lemma NoneOpen(maze: array2<int>)
    requires forall y, x :: 0 <= y < maze.Length0 && 0 <= x < maze.Length1 ==> maze[y, x] == 1
    ensures OpenSet(maze) == {}
  {
    forall c | c in OpenSet(maze) ensures false {
    }
  }

  /**
   * `generate`: start from all walls, carve one path from each start cell,
   * then open the corners (0, 0) and (w - 1, h - 1). The result exists
   * exactly when both corner assignments are in range, that is when
   * `w == h >= 1`; otherwise the source raises an error, modelled as None:
   * with `w < 1` or `h < 1` the first `random.randint` of a path raises a
   * value error, and with no paths the corner assignment an index error.
   * The start cells are `random.randint` draws, hence in range when the
   * grid is not empty. The ghost result `logs` holds each path's carved
   * cells: the open cells are exactly the corners, the start cells and
   * those, each path carved by the rule from the cells opened before it.
   */
  method Generate(w: int, h: int, starts: seq<(int, int)>, order: nat -> seq<int>)
    returns (r: Option<array2<int>>, ghost logs: seq<seq<(int, int)>>)
    requires forall s: nat :: IsShuffle(order(s))
    requires w >= 1 && h >= 1 ==> forall k :: 0 <= k < |starts| ==> 0 <= starts[k].0 < w && 0 <= starts[k].1 < h
    ensures r.Some? <==> w == h >= 1
    ensures r.Some? ==> var maze := r.value;
      && fresh(maze) && maze.Length0 == h && maze.Length1 == w
      && Binary(maze) && maze[0, 0] == 0 && maze[h - 1, w - 1] == 0
      && (forall k :: 0 <= k < |starts| ==> maze[starts[k].1, starts[k].0] == 0)
      && |logs| == |starts|
      && OpenSet(maze) == Opened(starts, logs, |starts|) + {(0, 0), (h - 1, w - 1)}
      && PathsByRule(starts, logs, |starts|, h, w)
  {
    logs := [];
    if w < 1 || h < 1 {
      return None, logs;
    }
    var maze := new int[h, w]((y, x) => 1);
    NoneOpen(maze);
    var t := 0;
    for i := 0 to |starts|
      invariant |logs| == i
      invariant Binary(maze)
      invariant OpenSet(maze) == Opened(starts, logs, i)
      invariant PathsByRule(starts, logs, i, h, w)
    {
      ghost var carved;
      t, carved := CarvePath(maze, starts[i].0, starts[i].1, order, t);
      PathsSnoc(starts, logs, carved, h, w);
      logs := logs + [carved];
    }
    if w != h {
      return None, logs;
    }
    OpenCorners(maze, w, h);
    StartsOpened(starts, logs, |starts|);
    forall k | 0 <= k < |starts| ensures maze[starts[k].1, starts[k].0] == 0 {
      assert (starts[k].1, starts[k].0) in OpenSet(maze);
    }
    return Some(maze), logs;
  }
}
