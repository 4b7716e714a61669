/**
 * Recursive depth-first search over the maze (solvers/dfs.py). The list
 * of positions on the current branch is one shared, mutable list: it is
 * appended to on the way down and popped when a branch fails.
 */
module Dfs {
  import opened Wrappers
  import opened MazeEnv

  /** The open cells not yet on the branch: shrinks with every nested call. */
  function Unexplored(g: Grid, path: seq<Pos>): set<Pos> {
    OpenCells(g) - (set p | p in path)
  }

  ghost predicate Avoids(t: seq<Pos>, avoid: seq<Pos>) {
    forall i :: 0 <= i < |t| ==> t[i] !in avoid
  }

  /**
   * A route from `s` that never repeats a position, never enters `avoid`,
   * meets only valid situations and ends in the goal.
   */
  ghost predicate SimpleRoute(s: Situation, acts: seq<int>, avoid: seq<Pos>)
    requires AllActions(acts)
  {
    && ValidAlong(s, acts)
    && Avoids(Trail(s, acts), avoid)
    && Distinct(Trail(s, acts))
    && Finished(Replay(s, acts))
  }

  /**
   * The value of `dfs(s, path, actions)`: None, or the path list and the
   * actions when the goal is found. On None the list is back to `path`.
   */
  function Search(s: Situation, path: seq<Pos>, actions: seq<int>): Option<(seq<Pos>, seq<int>)>
    requires AllActions(actions)
    decreases Unexplored(s.maze, path), 1, 0
  {
    if !Valid(s) || s.position in path then None
    else if Finished(s) then Some((path + [s.position], actions))
    else TryFrom(s, path + [s.position], actions, 0)
  }

  /** The loop over actions `a`, `a + 1`, ..., 3: the first success wins. */
  function TryFrom(s: Situation, path: seq<Pos>, actions: seq<int>, a: nat): Option<(seq<Pos>, seq<int>)>
    requires AllActions(actions) && a <= 4
    requires Valid(s) && |path| > 0 && path[|path| - 1] == s.position
    requires s.position !in path[..|path| - 1]
    decreases Unexplored(s.maze, path[..|path| - 1]), 0, 4 - a
  {
    if a == 4 then None
    else
      var next := MakeMove(s, a);
      assert AllActions(actions + [a]);
      assert Unexplored(next.maze, path) < Unexplored(s.maze, path[..|path| - 1]) by {
        ValidIsOpen(s);
        assert path == path[..|path| - 1] + [s.position];
        assert s.position in Unexplored(s.maze, path[..|path| - 1]);
      }
      var r := Search(next, path, actions + [a]);
      if r.Some? then r else TryFrom(s, path, actions, a + 1)
  }

  lemma TrailCons(s: Situation, a: int, x: seq<int>)
    requires IsAction(a) && AllActions(x)
    ensures AllActions([a] + x)
    ensures Trail(s, [a] + x) == [s.position] + Trail(MakeMove(s, a), x)
    ensures forall i :: 0 <= i <= |x| ==> Replay(s, ([a] + x)[..i + 1]) == Replay(MakeMove(s, a), x[..i])
  {
    forall i | 0 <= i <= |x|
      ensures Replay(s, ([a] + x)[..i + 1]) == Replay(MakeMove(s, a), x[..i])
    {
      assert ([a] + x)[..i + 1] == [a] + x[..i];
      ReplayCons(s, a, x[..i]);
    }
    assert Replay(s, ([a] + x)[..0]) == s;
  }

  /** Replaying `[a] + x` is replaying `x` after the move `a`. */
  lemma {:induction false} ReplayCons(s: Situation, a: int, x: seq<int>)
    requires IsAction(a) && AllActions(x)
    ensures AllActions([a] + x)
    ensures Replay(s, [a] + x) == Replay(MakeMove(s, a), x)
    decreases |x|
  {
    if x == [] {
      assert ([a] + x)[..0] == [];
    } else {
      var y := x[..|x| - 1];
      ReplayCons(s, a, y);
      assert ([a] + x)[..|x|] == [a] + y;
    }
  }

  lemma ValidAlongCons(s: Situation, a: int, x: seq<int>)
    requires IsAction(a) && AllActions(x)
    ensures AllActions([a] + x)
    ensures ValidAlong(s, [a] + x) <==> Valid(s) && ValidAlong(MakeMove(s, a), x)
  {
    TrailCons(s, a, x);
    assert Replay(s, ([a] + x)[..0]) == s;
    if ValidAlong(s, [a] + x) {
      forall i | 0 <= i <= |x| ensures Valid(Replay(MakeMove(s, a), x[..i])) {
        assert Valid(Replay(s, ([a] + x)[..i + 1]));
      }
    }
    if Valid(s) && ValidAlong(MakeMove(s, a), x) {
      forall i | 0 <= i <= |[a] + x| ensures Valid(Replay(s, ([a] + x)[..i])) {
        if i > 0 {
          assert Valid(Replay(MakeMove(s, a), x[..i - 1]));
        }
      }
    }
  }

  lemma AvoidsDistinctCons(p: Pos, t: seq<Pos>, avoid: seq<Pos>)
    ensures Avoids([p] + t, avoid) && Distinct([p] + t) <==>
      p !in avoid && Avoids(t, avoid + [p]) && Distinct(t)
  {
    var u := [p] + t;
    if Avoids(u, avoid) && Distinct(u) {
      forall i | 0 <= i < |t| ensures t[i] !in avoid + [p] {
        assert t[i] == u[i + 1];
        assert u[0] != u[i + 1];
      }
      forall i, j | 0 <= i < j < |t| ensures t[i] != t[j] {
        assert t[i] == u[i + 1] && t[j] == u[j + 1];
      }
      assert u[0] == p;
    }
    if p !in avoid && Avoids(t, avoid + [p]) && Distinct(t) {
      forall i | 0 <= i < |u| ensures u[i] !in avoid {
        if i > 0 { assert u[i] == t[i - 1]; }
      }
      forall i, j | 0 <= i < j < |u| ensures u[i] != u[j] {
        assert u[j] == t[j - 1];
        if i > 0 { assert u[i] == t[i - 1]; }
        else { assert t[j - 1] !in avoid + [p]; }
      }
    }
  }

  /** A simple route either stops at `s` or takes one step and continues with `s` avoided. */
  lemma SimpleRouteCons(s: Situation, a: int, x: seq<int>, avoid: seq<Pos>)
    requires IsAction(a) && AllActions(x)
    ensures AllActions([a] + x)
    ensures SimpleRoute(s, [a] + x, avoid) <==>
      Valid(s) && s.position !in avoid && SimpleRoute(MakeMove(s, a), x, avoid + [s.position])
  {
    TrailCons(s, a, x);
    ValidAlongCons(s, a, x);
    AvoidsDistinctCons(s.position, Trail(MakeMove(s, a), x), avoid);
    ReplayConcat(s, [a], x);
    assert Replay(s, [a]) == MakeMove(s, a) by { assert [a][..0] == []; }
  }

  lemma SimpleRouteEmpty(s: Situation, avoid: seq<Pos>)
    ensures SimpleRoute(s, [], avoid) <==> Valid(s) && s.position !in avoid && Finished(s)
  {
    var e: seq<int> := [];
    assert e[..0] == e;
    assert Replay(s, e) == s;
    var t := Trail(s, e);
    assert t == [s.position];
    assert ValidAlong(s, e) <==> Valid(s);
    assert Avoids(t, avoid) <==> s.position !in avoid by {
      assert t[0] == s.position;
    }
    assert Distinct(t);
  }

  /** A simple route that takes a step cannot start at the goal: the goal comes only at its end. */
  lemma SimpleRouteStartsAway(s: Situation, x: seq<int>, avoid: seq<Pos>)
    requires AllActions(x) && x != [] && SimpleRoute(s, x, avoid)
    ensures !Finished(s)
  {
    var t := Trail(s, x);
    assert x[..0] == [];
    assert x[..|x|] == x;
    assert t[0] == s.position;
    ReplayKeepsMaze(s, x);
    assert t[|x|] == Replay(s, x).position == s.goal;
  }

  /** What a successful search promises about its result, relative to its arguments. */
  ghost predicate Found(s: Situation, path: seq<Pos>, actions: seq<int>, res: (seq<Pos>, seq<int>)) {
    var (p, acts) := res;
    && |acts| >= |actions| && acts[..|actions|] == actions && AllActions(acts)
    && var suffix := acts[|actions|..];
       p == path + Trail(s, suffix) && SimpleRoute(s, suffix, path)
  }

  /**
   * A successful search extends `actions` with a simple route to the goal
   * and leaves the list extended with that route's positions.
   */
  lemma {:induction false} SearchSound(s: Situation, path: seq<Pos>, actions: seq<int>)
    requires AllActions(actions)
    ensures Search(s, path, actions).Some? ==> Found(s, path, actions, Search(s, path, actions).value)
    decreases Unexplored(s.maze, path), 1, 0
  {
    if Valid(s) && s.position !in path {
      if Finished(s) {
        SimpleRouteEmpty(s, path);
        assert actions[|actions|..] == [];
        assert Trail(s, []) == [s.position];
      } else {
        TryFromSound(s, path + [s.position], actions, 0);
        assert (path + [s.position])[..|path|] == path;
      }
    }
  }

  lemma {:induction false} TryFromSound(s: Situation, path: seq<Pos>, actions: seq<int>, a: nat)
    requires AllActions(actions) && a <= 4
    requires Valid(s) && |path| > 0 && path[|path| - 1] == s.position
    requires s.position !in path[..|path| - 1]
    ensures TryFrom(s, path, actions, a).Some? ==>
      Found(s, path[..|path| - 1], actions, TryFrom(s, path, actions, a).value)
    decreases Unexplored(s.maze, path[..|path| - 1]), 0, 4 - a
  {
    if a < 4 {
      var next := MakeMove(s, a);
      assert AllActions(actions + [a]);
      assert Unexplored(next.maze, path) < Unexplored(s.maze, path[..|path| - 1]) by {
        ValidIsOpen(s);
        assert path == path[..|path| - 1] + [s.position];
        assert s.position in Unexplored(s.maze, path[..|path| - 1]);
      }
      var r := Search(next, path, actions + [a]);
      if r.Some? {
        SearchSound(next, path, actions + [a]);
        var (p, acts) := r.value;
        var prev := path[..|path| - 1];
        assert path == prev + [s.position];
        var x := acts[|actions| + 1..];
        assert acts[..|actions| + 1] == actions + [a];
        assert acts[|actions|..] == [a] + x;
        assert acts[..|actions|] == actions;
        SimpleRouteCons(s, a, x, prev);
        TrailCons(s, a, x);
      } else {
        TryFromSound(s, path, actions, a + 1);
      }
    }
  }

  /** A failed search means no simple route to the goal avoids `path`. */
  lemma {:induction false} SearchComplete(s: Situation, path: seq<Pos>, actions: seq<int>, x: seq<int>)
    requires AllActions(actions) && AllActions(x)
    requires Search(s, path, actions) == None
    ensures !SimpleRoute(s, x, path)
    decreases Unexplored(s.maze, path), 1, 0
  {
    if x == [] {
      SimpleRouteEmpty(s, path);
      return;
    }
    var a, x' := x[0], x[1..];
    assert x == [a] + x';
    SimpleRouteCons(s, a, x', path);
    if !Valid(s) || s.position in path {
      return;
    }
    if Finished(s) {
      if SimpleRoute(s, x, path) {
        SimpleRouteStartsAway(s, x, path);
      }
    } else {
      assert TryFrom(s, path + [s.position], actions, 0) == None;
      TryFromComplete(s, path + [s.position], actions, 0, a, x');
    }
  }

  lemma {:induction false} TryFromComplete(s: Situation, path: seq<Pos>, actions: seq<int>, a: nat,
                                           b: int, x: seq<int>)
    requires AllActions(actions) && a <= 4
    requires Valid(s) && |path| > 0 && path[|path| - 1] == s.position
    requires s.position !in path[..|path| - 1]
    requires TryFrom(s, path, actions, a) == None
    requires a <= b < 4 && AllActions(x)
    ensures !SimpleRoute(MakeMove(s, b), x, path)
    decreases Unexplored(s.maze, path[..|path| - 1]), 0, 4 - a
  {
    var next := MakeMove(s, a);
    assert AllActions(actions + [a]);
    assert Unexplored(next.maze, path) < Unexplored(s.maze, path[..|path| - 1]) by {
      ValidIsOpen(s);
      assert path == path[..|path| - 1] + [s.position];
      assert s.position in Unexplored(s.maze, path[..|path| - 1]);
    }
    if b == a {
      SearchComplete(next, path, actions + [a], x);
    } else {
      TryFromComplete(s, path, actions, a + 1, b, x);
    }
  }

  /** The shared `path` list. */
  class PathList {
    var items: seq<Pos>

    constructor (items: seq<Pos>)
      ensures this.items == items
    {
      this.items := items;
    }
  }

  /**
   * `dfs(state, path, actions)`: returns the search result; on failure
   * `path` is restored, on success it is the returned path.
   */
  method DfsSearch(s: Situation, path: PathList, actions: seq<int>) returns (r: Option<(seq<Pos>, seq<int>)>)
    requires AllActions(actions)
    modifies path
    ensures r == Search(s, old(path.items), actions)
    ensures r.None? ==> path.items == old(path.items)
    ensures r.Some? ==> path.items == r.value.0
    decreases Unexplored(s.maze, path.items), 1
  {
    var position := s.position;
    if !Valid(s) || position in path.items {
      return None;
    }
    path.items := path.items + [position];
    if Finished(s) {
      return Some((path.items, actions));
    }
    assert path.items[..|path.items| - 1] == old(path.items);
    for action := 0 to 4
      invariant path.items == old(path.items) + [position]
      invariant Search(s, old(path.items), actions) == TryFrom(s, path.items, actions, action)
    {
      var next := MakeMove(s, action);
      assert AllActions(actions + [action]);
      assert Unexplored(next.maze, path.items) < Unexplored(s.maze, old(path.items)) by {
        ValidIsOpen(s);
        assert position in Unexplored(s.maze, old(path.items));
      }
      var result := DfsSearch(next, path, actions + [action]);
      if result.Some? {
        return result;
      }
    }
    path.items := path.items[..|path.items| - 1];
    return None;
  }

  /**
   * A top-level call with empty `path` and `actions`: on success the path
   * has one more position than there are actions, starts at the start,
   * follows each action's displacement, ends at the goal, meets only
   * valid cells and never repeats a position.
   */
  lemma TopLevelResult(s: Situation)
    requires Search(s, [], []).Some?
    ensures var (p, acts) := Search(s, [], []).value;
      && AllActions(acts)
      && |p| == |acts| + 1 && p[0] == s.position && p[|p| - 1] == s.goal
      && (forall i :: 0 <= i < |acts| ==> p[i + 1] == Add(p[i], ActionMap(acts[i])))
      && (forall i, j :: 0 <= i < j < |p| ==> p[i] != p[j])
      && (forall i :: 0 <= i < |p| ==> p[i] in OpenCells(s.maze))
  {
    SearchSound(s, [], []);
    var (p, acts) := Search(s, [], []).value;
    assert acts[0..] == acts;
    assert p == Trail(s, acts);
    TrailSteps(s, acts);
    ValidAlongIsOpen(s, acts);
    ReplayKeepsMaze(s, acts);
  }

  /**
   * Actions are tried in the order 0, 1, 2, 3: the route found begins with
   * the first action whose nested search succeeds.
   */
  lemma {:induction false} FirstSuccessWins(s: Situation, path: seq<Pos>, actions: seq<int>, a: nat)
    requires AllActions(actions) && a <= 4
    requires Valid(s) && |path| > 0 && path[|path| - 1] == s.position
    requires s.position !in path[..|path| - 1]
    requires TryFrom(s, path, actions, a).Some?
    ensures var r := TryFrom(s, path, actions, a).value;
      && |r.1| > |actions|
      && var b := r.1[|actions|];
         a <= b < 4 && AllActions(actions + [b])
         && Search(MakeMove(s, b), path, actions + [b]) == Some(r)
         && forall c :: a <= c < b ==> AllActions(actions + [c]) && Search(MakeMove(s, c), path, actions + [c]) == None
    decreases 4 - a
  {
    var next := MakeMove(s, a);
    assert AllActions(actions + [a]);
    var r := Search(next, path, actions + [a]);
    if r.Some? {
      SearchSound(next, path, actions + [a]);
      assert r.value.1[..|actions| + 1] == actions + [a];
      assert r.value.1[|actions|] == (actions + [a])[|actions|];
    } else {
      FirstSuccessWins(s, path, actions, a + 1);
    }
  }
}
