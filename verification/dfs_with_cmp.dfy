/**
 * Depth-first search with ordered successors over the river crossing
 * (solvers/dfs_with_cmp.py). A stack holds (state, actions) pairs; a state
 * is marked visited when it is popped; the seven actions are sorted with
 * the comparator `cmp`, and the valid, unvisited successors are pushed in
 * that order, so the last one pushed is explored first.
 */
module DfsWithCmp {
  import opened Wrappers
  import opened Bag
  import opened RiverCrossing

  /** `range(n)`. */
  function Range(n: nat): (r: seq<nat>)
    ensures |r| == n
    ensures forall i :: 0 <= i < n ==> r[i] == i
  {
    seq(n, i requires 0 <= i < n => i)
  }

  // ---------------------------------------------------------------------
  // The comparator and the order it induces
  // ---------------------------------------------------------------------

  /** `cmp(a, b)` as written, for the successors of `s` under actions `a` and `b`. */
  function Cmp(s: State, a: nat, b: nat): int {
    var sa := MakeMove(s, a);
    var sb := MakeMove(s, b);
    if sa.None? then 1
    else if sb.None? then -1
    else if sa.value == sb.value then 0
    else if Less(sa.value, sb.value) then -1
    else 1
  }

  /** The sort key `cmp` induces: -1 without a successor, else the flag value of the successor's right bank. */
  function Rank(s: State, a: nat): int {
    match MakeMove(s, a)
    case None => -1
    case Some(t) => Mask(t.right)
  }

  /**
   * `cmp(a, b) < 0`, the only question the sort asks through `cmp_to_key`,
   * holds exactly when `a` ranks strictly higher than `b`.
   */
  lemma CmpLessIffRank(s: State, a: nat, b: nat)
    ensures Cmp(s, a, b) < 0 <==> Rank(s, a) > Rank(s, b)
  {
  }

  /** `cmp` answers 0 only for two actions with the same successor, and otherwise -1 or 1. */
  lemma CmpZero(s: State, a: nat, b: nat)
    ensures Cmp(s, a, b) == 0 <==> MakeMove(s, a).Some? && MakeMove(s, a) == MakeMove(s, b)
    ensures -1 <= Cmp(s, a, b) <= 1
  {
  }

  /**
   * `cmp` is not antisymmetric: two different actions of equal rank (two
   * without a successor, or two whose successors differ but have the same
   * right bank) each compare greater than the other. Since the sort only
   * asks `<`, it treats them as equal.
   */
  lemma CmpNotAntisymmetric(s: State, a: nat, b: nat)
    requires Rank(s, a) == Rank(s, b)
    requires !(MakeMove(s, a).Some? && MakeMove(s, a) == MakeMove(s, b))
    ensures Cmp(s, a, b) > 0 && Cmp(s, b, a) > 0
  {
  }

  // ---------------------------------------------------------------------
  // `next_actions.sort(key=cmp_to_key(cmp))`: a stable sort by rank
  // ---------------------------------------------------------------------

  /** Keys never increase along `r`. */
  predicate KeySorted(key: nat -> int, r: seq<nat>) {
    forall i, j :: 0 <= i < j < |r| ==> key(r[i]) >= key(r[j])
  }

  /** Elements of equal key stay in ascending order, which is their order in `range(7)`. */
  predicate Stable(key: nat -> int, r: seq<nat>) {
    forall i, j :: 0 <= i < j < |r| && key(r[i]) == key(r[j]) ==> r[i] < r[j]
  }

  predicate Increasing(xs: seq<nat>) {
    forall i, j :: 0 <= i < j < |xs| ==> xs[i] < xs[j]
  }

  /** Insert `a` after every element whose key is at least as high: the step of a stable insertion sort. */
  function Insert(key: nat -> int, a: nat, ys: seq<nat>): (r: seq<nat>)
    ensures multiset(r) == multiset(ys) + multiset{a}
    ensures |r| == |ys| + 1
    ensures forall j :: 0 <= j < |r| ==> r[j] == a || r[j] in ys
    decreases |ys|
  {
    if ys == [] then [a]
    else if key(ys[0]) < key(a) then [a] + ys
    else
      assert ys == [ys[0]] + ys[1..];
      [ys[0]] + Insert(key, a, ys[1..])
  }

  /** A stable sort of `xs` by key, high to low, inserting the elements one by one in order. */
  function SortBy(key: nat -> int, xs: seq<nat>): (r: seq<nat>)
    ensures multiset(r) == multiset(xs)
    decreases |xs|
  {
    if xs == [] then []
    else
      assert xs == xs[..|xs| - 1] + [xs[|xs| - 1]];
      Insert(key, xs[|xs| - 1], SortBy(key, xs[..|xs| - 1]))
  }

  lemma {:induction false} InsertSorted(key: nat -> int, a: nat, ys: seq<nat>)
    requires KeySorted(key, ys) && Stable(key, ys)
    requires forall k :: 0 <= k < |ys| ==> ys[k] < a
    ensures KeySorted(key, Insert(key, a, ys)) && Stable(key, Insert(key, a, ys))
    decreases |ys|
  {
    if ys == [] {
    } else if key(ys[0]) < key(a) {
      assert Insert(key, a, ys) == [a] + ys;
      FrontSorted(key, a, ys);
    } else {
      assert Insert(key, a, ys) == [ys[0]] + Insert(key, a, ys[1..]);
      TailSorted(key, ys);
      InsertSorted(key, a, ys[1..]);
      ConsSorted(key, ys, Insert(key, a, ys[1..]), a);
    }
  }

  /** An element of higher key than the head of a sorted, stable list can go in front. */
  lemma FrontSorted(key: nat -> int, a: nat, ys: seq<nat>)
    requires ys != [] && KeySorted(key, ys) && Stable(key, ys) && key(ys[0]) < key(a)
    ensures KeySorted(key, [a] + ys) && Stable(key, [a] + ys)
  {
    var r := [a] + ys;
    assert forall j :: 1 <= j < |r| ==> r[j] == ys[j - 1] && key(r[j]) <= key(ys[0]);
  }

  /** The tail of a sorted, stable list is sorted and stable. */
  lemma TailSorted(key: nat -> int, ys: seq<nat>)
    requires ys != [] && KeySorted(key, ys) && Stable(key, ys)
    ensures KeySorted(key, ys[1..]) && Stable(key, ys[1..])
  {
    assert forall j :: 0 <= j < |ys[1..]| ==> ys[1..][j] == ys[j + 1];
  }

  /** Putting the head of `ys` before a sorted, stable `rest` of its tail and `a` keeps it sorted and stable. */
  lemma ConsSorted(key: nat -> int, ys: seq<nat>, rest: seq<nat>, a: nat)
    requires ys != [] && KeySorted(key, ys) && Stable(key, ys)
    requires forall k :: 0 <= k < |ys| ==> ys[k] < a
    requires key(ys[0]) >= key(a)
    requires KeySorted(key, rest) && Stable(key, rest)
    requires forall j :: 0 <= j < |rest| ==> rest[j] == a || rest[j] in ys[1..]
    ensures KeySorted(key, [ys[0]] + rest) && Stable(key, [ys[0]] + rest)
  {
    var r := [ys[0]] + rest;
    forall j | 0 <= j < |rest|
      ensures key(ys[0]) >= key(rest[j])
      ensures key(ys[0]) == key(rest[j]) ==> ys[0] < rest[j]
    {
      if rest[j] != a {
        var k :| 0 <= k < |ys[1..]| && ys[1..][k] == rest[j];
        assert ys[k + 1] == rest[j];
      }
    }
    assert forall j :: 1 <= j < |r| ==> r[j] == rest[j - 1];
  }

  lemma {:induction false} SortBySorted(key: nat -> int, xs: seq<nat>)
    requires Increasing(xs)
    ensures KeySorted(key, SortBy(key, xs)) && Stable(key, SortBy(key, xs))
    decreases |xs|
  {
    if xs != [] {
      var init, last := xs[..|xs| - 1], xs[|xs| - 1];
      SortBySorted(key, init);
      var r := SortBy(key, init);
      forall k | 0 <= k < |r| ensures r[k] < last {
        assert r[k] in multiset(init);
      }
      InsertSorted(key, last, r);
    }
  }

  /** The key `cmp` induces on the actions from `s`, as a function. */
  function RankOf(s: State): nat -> int {
    (a: nat) => Rank(s, a)
  }

  /** The order in which the successors of `s` are tried: `range(7)` sorted with `cmp`. */
  function SortActions(s: State): seq<nat> {
    SortBy(RankOf(s), Range(Actions(s)))
  }

  /** The sorted actions are a permutation of 0..6. */
  lemma SortActionsPermutes(s: State)
    ensures |SortActions(s)| == 7
    ensures forall a: nat :: a in SortActions(s) <==> a < 7
  {
    var r := SortActions(s);
    var xs := Range(7);
    assert |r| == 7 by {
      assert |multiset(r)| == |multiset(xs)|;
    }
    forall a: nat ensures a in r <==> a < 7 {
      assert a in r <==> a in multiset(xs);
      if a < 7 {
        assert xs[a] == a;
      }
    }
  }

  /**
   * No action compares below an earlier one under `cmp`, actions of equal
   * rank keep their numeric order, and the actions without a successor
   * come last.
   */
  lemma SortActionsOrdered(s: State)
    ensures var r := SortActions(s);
      && (forall i, j :: 0 <= i < j < |r| ==> Cmp(s, r[j], r[i]) >= 0)
      && (forall i, j :: 0 <= i < j < |r| && Rank(s, r[i]) == Rank(s, r[j]) ==> r[i] < r[j])
      && (forall i, j :: 0 <= i < j < |r| && MakeMove(s, r[i]).None? ==> MakeMove(s, r[j]).None?)
  {
    var r := SortActions(s);
    SortBySorted(RankOf(s), Range(7));
    forall i, j | 0 <= i < j < |r|
      ensures Cmp(s, r[j], r[i]) >= 0
      ensures Rank(s, r[i]) == Rank(s, r[j]) ==> r[i] < r[j]
      ensures MakeMove(s, r[i]).None? ==> MakeMove(s, r[j]).None?
    {
      assert RankOf(s)(r[i]) >= RankOf(s)(r[j]);
      CmpLessIffRank(s, r[j], r[i]);
    }
  }

  // ---------------------------------------------------------------------
  // The search
  // ---------------------------------------------------------------------

  /** A stack entry: a state and the actions that reach it from the initial state. */
  datatype Entry = Entry(state: State, path: seq<nat>)

  function States(stack: seq<Entry>): (r: seq<State>)
    ensures |r| == |stack|
    ensures forall k :: 0 <= k < |stack| ==> r[k] == stack[k].state
  {
    seq(|stack|, k requires 0 <= k < |stack| => stack[k].state)
  }

  lemma StatesConcat(xs: seq<Entry>, ys: seq<Entry>)
    ensures States(xs + ys) == States(xs) + States(ys)
  {
  }

  /** Action `a` leads from `s` to a valid state. */
  predicate ValidStep(s: State, a: nat) {
    MakeMove(s, a).Some? && Valid(MakeMove(s, a).value)
  }

  /** `next_state and next_state.valid and next_state not in visited`. */
  predicate Pushable(s: State, a: nat, visited: set<State>) {
    ValidStep(s, a) && MakeMove(s, a).value !in visited
  }

  /** The entries pushed for the actions of `order`, in that order. */
  function Pushes(e: Entry, order: seq<nat>, visited: set<State>): seq<Entry>
    decreases |order|
  {
    if order == [] then []
    else
      var a := order[|order| - 1];
      Pushes(e, order[..|order| - 1], visited)
        + (if Pushable(e.state, a, visited) then [Entry(MakeMove(e.state, a).value, e.path + [a])] else [])
  }

  /** An entry's actions replay from the initial state to its state, through valid states only. */
  ghost predicate EntryOk(init: State, e: Entry) {
    Run(init, e.path) == Some(e.state) && ValidRun(init, e.path)
  }

  /** Every valid successor of a visited state is visited or waiting on the stack. */
  ghost predicate Closed(visited: set<State>, stack: seq<Entry>) {
    forall v, a: nat :: v in visited && ValidStep(v, a) ==>
      MakeMove(v, a).value in visited || MakeMove(v, a).value in States(stack)
  }

  /** The loop invariant of `dfs_with_cmp`. */
  ghost predicate Inv(init: State, stack: seq<Entry>, visited: set<State>) {
    && (forall k :: 0 <= k < |stack| ==> EntryOk(init, stack[k]))
    && (forall v :: v in visited ==> !Finished(v))
    && (init in visited || init in States(stack))
    && Closed(visited, stack)
  }

  /** Every pushed entry is an unvisited valid successor whose actions replay from the initial state. */
  lemma {:induction false} PushesOk(init: State, e: Entry, order: seq<nat>, visited: set<State>)
    requires EntryOk(init, e)
    ensures forall x :: x in Pushes(e, order, visited) ==> EntryOk(init, x) && x.state !in visited
    decreases |order|
  {
    if order != [] {
      var a := order[|order| - 1];
      PushesOk(init, e, order[..|order| - 1], visited);
      if Pushable(e.state, a, visited) {
        var t := MakeMove(e.state, a).value;
        var acts := e.path + [a];
        RunAppend(init, e.path, a, e.state);
        forall i | 1 <= i <= |acts| ensures Run(init, acts[..i]).Some? && Valid(Run(init, acts[..i]).value) {
          if i < |acts| {
            assert acts[..i] == e.path[..i];
          } else {
            assert acts[..i] == acts;
          }
        }
        assert EntryOk(init, Entry(t, acts));
      }
    }
  }

  /** Only states outside `visited` are pushed. */
  lemma {:induction false} PushesFresh(e: Entry, order: seq<nat>, visited: set<State>)
    ensures forall k :: 0 <= k < |Pushes(e, order, visited)| ==> Pushes(e, order, visited)[k].state !in visited
    decreases |order|
  {
    if order != [] {
      PushesFresh(e, order[..|order| - 1], visited);
    }
  }

  /** Every pushable action of `order` has its successor pushed. */
  lemma {:induction false} PushesHas(e: Entry, order: seq<nat>, visited: set<State>, a: nat)
    requires a in order && Pushable(e.state, a, visited)
    ensures MakeMove(e.state, a).value in States(Pushes(e, order, visited))
    decreases |order|
  {
    var init := order[..|order| - 1];
    var rest := Pushes(e, init, visited);
    var last := order[|order| - 1];
    var more := if Pushable(e.state, last, visited) then [Entry(MakeMove(e.state, last).value, e.path + [last])] else [];
    StatesConcat(rest, more);
    if a != last {
      assert order == init + [last];
      PushesHas(e, init, visited, a);
    } else {
      assert States(more)[0] == MakeMove(e.state, a).value;
    }
  }

  /** Popping the top entry and pushing its successors keeps every entry well formed. */
  lemma StepEntries(init: State, stack: seq<Entry>, visited: set<State>)
    requires Inv(init, stack, visited) && stack != []
    ensures var e := stack[|stack| - 1];
      var visited' := visited + {e.state};
      var stack' := stack[..|stack| - 1] + Pushes(e, SortActions(e.state), visited');
      forall k :: 0 <= k < |stack'| ==> EntryOk(init, stack'[k]) && (k >= |stack| - 1 ==> stack'[k].state !in visited')
  {
    var e := stack[|stack| - 1];
    var visited' := visited + {e.state};
    var pushes := Pushes(e, SortActions(e.state), visited');
    PushesOk(init, e, SortActions(e.state), visited');
    var stack' := stack[..|stack| - 1] + pushes;
    forall k | |stack| - 1 <= k < |stack'| ensures EntryOk(init, stack'[k]) && stack'[k].state !in visited' {
      assert stack'[k] == pushes[k - (|stack| - 1)];
    }
  }

  /** Popping the top entry and pushing its successors keeps the visited states closed. */
  lemma StepClosed(init: State, stack: seq<Entry>, visited: set<State>)
    requires Closed(visited, stack) && (init in visited || init in States(stack)) && stack != []
    ensures var e := stack[|stack| - 1];
      var visited' := visited + {e.state};
      var stack' := stack[..|stack| - 1] + Pushes(e, SortActions(e.state), visited');
      Closed(visited', stack') && (init in visited' || init in States(stack'))
  {
    var n := |stack| - 1;
    var e := stack[n];
    var visited' := visited + {e.state};
    var order := SortActions(e.state);
    var pushes := Pushes(e, order, visited');
    var stack' := stack[..n] + pushes;
    forall v, a: nat | v in visited' && ValidStep(v, a)
      ensures MakeMove(v, a).value in visited' || MakeMove(v, a).value in States(stack')
    {
      var t := MakeMove(v, a).value;
      if t !in visited' {
        if v == e.state {
          assert a < 7;
          SortActionsPermutes(e.state);
          PushesHas(e, order, visited', a);
          StatesConcat(stack[..n], pushes);
        } else {
          StillStacked(stack, pushes, t);
        }
      }
    }
    if init !in visited' {
      StillStacked(stack, pushes, init);
    }
  }

  /** A stacked state other than the top one stays stacked after the pop, whatever is pushed. */
  lemma StillStacked(stack: seq<Entry>, more: seq<Entry>, t: State)
    requires stack != [] && t in States(stack) && t != stack[|stack| - 1].state
    ensures t in States(stack[..|stack| - 1] + more)
  {
    var n := |stack| - 1;
    StatesConcat(stack[..n], more);
    var k :| 0 <= k < |stack| && States(stack)[k] == t;
    assert k < n && States(stack[..n])[k] == t;
  }

  /** Expanding a popped entry that is not finished preserves the invariant. */
  lemma ExpandStep(init: State, stack: seq<Entry>, visited: set<State>)
    requires Inv(init, stack, visited) && stack != [] && !Finished(stack[|stack| - 1].state)
    ensures var e := stack[|stack| - 1];
      var visited' := visited + {e.state};
      Inv(init, stack[..|stack| - 1] + Pushes(e, SortActions(e.state), visited'), visited')
  {
    StepEntries(init, stack, visited);
    StepClosed(init, stack, visited);
  }

  /**
   * Each expansion either visits a new state of the finite universe or
   * leaves fewer entries of visited states on the stack.
   */
  lemma Progress(stack: seq<Entry>, visited: set<State>)
    requires stack != []
    ensures var e := stack[|stack| - 1];
      var visited' := visited + {e.state};
      var stack' := stack[..|stack| - 1] + Pushes(e, SortActions(e.state), visited');
      || AllStates - visited' < AllStates - visited
      || (visited' == visited && CountIn(States(stack'), visited') < CountIn(States(stack), visited))
  {
    var n := |stack| - 1;
    var e := stack[n];
    var visited' := visited + {e.state};
    var pushes := Pushes(e, SortActions(e.state), visited');
    StateListed(e.state);
    if e.state in visited {
      PushesFresh(e, SortActions(e.state), visited');
      StatesConcat(stack[..n], pushes);
      CountInOutside(States(pushes), visited');
      CountInConcat(States(stack[..n]), States(pushes), visited');
      assert States(stack)[..n] == States(stack[..n]);
    }
  }

  /** Once the stack is empty, every state reached by a valid run is visited. */
  lemma {:induction false} ReachedIsVisited(init: State, visited: set<State>, acts: seq<nat>)
    requires Closed(visited, []) && init in visited
    requires ValidRun(init, acts) && Run(init, acts).Some?
    ensures Run(init, acts).value in visited
    decreases |acts|
  {
    if acts != [] {
      var prefix, a := acts[..|acts| - 1], acts[|acts| - 1];
      forall i | 1 <= i <= |prefix| ensures Run(init, prefix[..i]).Some? && Valid(Run(init, prefix[..i]).value) {
        assert prefix[..i] == acts[..i];
      }
      ReachedIsVisited(init, visited, prefix);
      assert acts[..|acts|] == acts;
      assert ValidStep(Run(init, prefix).value, a);
    }
  }

  /** With the stack empty, no valid run from the initial state finishes. */
  lemma EmptyStep(init: State, visited: set<State>)
    requires Inv(init, [], visited)
    ensures forall acts :: ValidRun(init, acts) && Run(init, acts).Some? ==> !Finished(Run(init, acts).value)
  {
    forall acts | ValidRun(init, acts) && Run(init, acts).Some? ensures !Finished(Run(init, acts).value) {
      ReachedIsVisited(init, visited, acts);
    }
  }

  /** The inner loop: push the pushable successors of `e` in the order of `order`. */
  method PushSuccessors(stack: seq<Entry>, e: Entry, order: seq<nat>, visited: set<State>)
    returns (stack': seq<Entry>)
    ensures stack' == stack + Pushes(e, order, visited)
  {
    stack' := stack;
    for i := 0 to |order|
      invariant stack' == stack + Pushes(e, order[..i], visited)
    {
      var action := order[i];
      assert order[..i + 1][..i] == order[..i];
      var next := MakeMove(e.state, action);
      if next.Some? && Valid(next.value) && next.value !in visited {
        stack' := stack' + [Entry(next.value, e.path + [action])];
      }
    }
    assert order[..|order|] == order;
  }

  /**
   * `dfs_with_cmp`: the actions of a valid run to the finished state, or
   * None when no valid run from the initial state finishes.
   */
  method DfsWithCmp(init: State) returns (r: Option<seq<nat>>)
    ensures r.Some? ==> ValidRun(init, r.value) && Run(init, r.value).Some? && Finished(Run(init, r.value).value)
    ensures r.None? ==> forall acts :: ValidRun(init, acts) && Run(init, acts).Some? ==> !Finished(Run(init, acts).value)
  {
    var visited: set<State> := {};
    var stack := [Entry(init, [])];
    assert States(stack)[0] == init;
    while stack != []
      invariant Inv(init, stack, visited)
      decreases AllStates - visited, CountIn(States(stack), visited)
    {
      ghost var stack0, visited0 := stack, visited;
      var e := stack[|stack| - 1];
      stack := stack[..|stack| - 1];
      if Finished(e.state) {
        return Some(e.path);
      }
      ExpandStep(init, stack0, visited0);
      Progress(stack0, visited0);
      visited := visited + {e.state};
      var order := SortActions(e.state);
      stack := PushSuccessors(stack, e, order, visited);
    }
    EmptyStep(init, visited);
    return None;
  }
}
