/**
 * The wolf/goat/cabbage river crossing. A state records who is on the
 * left bank, on the right bank and in the boat, and which bank the boat
 * is at. Seven actions: load one of the three from the left bank (0-2),
 * load one of them from the right bank (3-5), cross the river (6).
 */
module RiverCrossing {
  import opened Wrappers

  datatype Entity = Wolf | Goat | Cabbage
  datatype Coast = Left | Right

  datatype State = State(left: set<Entity>, right: set<Entity>, boat: set<Entity>, coast: Coast)

  /** `entities`: the order in which actions name the three passengers. */
  const Entities: seq<Entity> := [Wolf, Goat, Cabbage]

  const Everyone: set<Entity> := {Wolf, Goat, Cabbage}

  /** `check_danger`: true when `side` is safe given the bank the boat is at. */
  predicate CheckDanger(side: set<Entity>, boatSide: set<Entity>) {
    if Wolf in side && Goat in side && Goat !in boatSide then false
    else if Goat in side && Cabbage in side && Goat !in boatSide then false
    else true
  }

  /** The bank at which the boat is moored. */
  function BoatBank(s: State): set<Entity> {
    if s.coast == Left then s.left else s.right
  }

  /** The bank the boat is not at. */
  function FarBank(s: State): set<Entity> {
    if s.coast == Left then s.right else s.left
  }

  predicate Valid(s: State) {
    CheckDanger(s.left, BoatBank(s)) && CheckDanger(s.right, BoatBank(s))
  }

  /** The three places are disjoint and together hold all three passengers. */
  predicate Partition(s: State) {
    s.left !! s.right && s.left !! s.boat && s.right !! s.boat
    && s.left + s.right + s.boat == Everyone
  }

  /** A bank where the goat is left with the wolf or with the cabbage. */
  predicate Unattended(bank: set<Entity>) {
    (Wolf in bank && Goat in bank) || (Goat in bank && Cabbage in bank)
  }

  /**
   * Under the partition invariant a state is invalid exactly when the bank
   * the boat is not at holds wolf and goat, or goat and cabbage.
   */
  lemma ValidIffFarBankSafe(s: State)
    requires Partition(s)
    ensures Valid(s) <==> !Unattended(FarBank(s))
  {
  }

  predicate Finished(s: State) {
    s.left == {} && s.boat == {} && s.coast == Right
  }

  /** Under the partition invariant the goal is: everyone on the right bank, boat there too. */
  lemma FinishedIffAllRight(s: State)
    requires Partition(s)
    ensures Finished(s) <==> s.right == Everyone && s.coast == Right
  {
    if s.right == Everyone {
      assert forall e :: e in s.left ==> e in Everyone;
      assert forall e :: e in s.boat ==> e in Everyone;
    }
  }

  /** `get_key`: the 4-tuple that equality and hashing are both computed from. */
  function Key(s: State): (set<Entity>, set<Entity>, set<Entity>, Coast) {
    (s.left, s.right, s.boat, s.coast)
  }

  /** Equal keys mean equal states, so the model's datatype equality is `__eq__`. */
  lemma KeyDeterminesState(s: State, t: State)
    ensures Key(s) == Key(t) <==> s == t
  {
  }

  /** The value of an `Entity` flag combination: wolf 1, goat 2, cabbage 4. */
  function Mask(x: set<Entity>): (m: nat)
    ensures m < 8
  {
    (if Wolf in x then 1 else 0) + (if Goat in x then 2 else 0) + (if Cabbage in x then 4 else 0)
  }

  /** Distinct flag combinations have distinct values. */
  lemma MaskInjective(x: set<Entity>, y: set<Entity>)
    requires Mask(x) == Mask(y)
    ensures x == y
  {
    assert Wolf in x <==> Wolf in y;
    assert Goat in x <==> Goat in y;
    assert Cabbage in x <==> Cabbage in y;
    forall e ensures e in x <==> e in y {
      match e
      case Wolf =>
      case Goat =>
      case Cabbage =>
    }
  }

  /** `s < t`: s has more on the right bank, by flag value. */
  predicate Less(s: State, t: State) {
    Mask(s.right) > Mask(t.right)
  }

  lemma LessIsStrictOrder(s: State, t: State, u: State)
    ensures !Less(s, s)
    ensures Less(s, t) ==> !Less(t, s)
    ensures Less(s, t) && Less(t, u) ==> Less(s, u)
  {
  }

  /** `actions`: seven action identifiers are always offered. */
  function Actions(s: State): nat { 7 }

  /**
   * `make_move`: the successor for `action`, or None when the action does
   * not apply. The receiver is a value, so it is never changed.
   */
  function MakeMove(s: State, action: nat): (r: Option<State>)
    ensures action < 3 ==>
      (r.Some? <==> s.coast == Left && s.boat == {} && Entities[action] in s.left)
    ensures 3 <= action < 6 ==>
      (r.Some? <==> s.coast == Right && s.boat == {} && Entities[action - 3] in s.right)
    ensures action == 6 ==> r.Some?
    ensures action > 6 ==> r == None
  {
    if action < 3 then
      var e := Entities[action];
      if s.coast == Left && e in s.left && s.boat == {} then
        Some(s.(left := s.left - {e}, boat := {e}))
      else None
    else if action < 6 then
      var e := Entities[action % 3];
      if s.coast == Right && e in s.right && s.boat == {} then
        Some(s.(right := s.right - {e}, boat := {e}))
      else None
    else if action == 6 then
      if s.coast == Left then Some(s.(coast := Right, right := s.right + s.boat, boat := {}))
      else Some(s.(coast := Left, left := s.left + s.boat, boat := {}))
    else None
  }

  /** A loading action moves its passenger from the boat's bank into the boat and changes nothing else. */
  lemma LoadMovesOne(s: State, action: nat, t: State)
    requires action < 6 && MakeMove(s, action) == Some(t)
    ensures var e := Entities[action % 3];
      t.boat == {e} && t.coast == s.coast && e !in BoatBank(t)
      && BoatBank(t) + {e} == BoatBank(s) && FarBank(t) == FarBank(s)
  {
  }

  /** Crossing flips the coast, unloads the boat onto the arrival bank and leaves the other bank alone. */
  lemma CrossUnloads(s: State, t: State)
    requires MakeMove(s, 6) == Some(t)
    ensures t.coast != s.coast && t.boat == {}
    ensures BoatBank(t) == FarBank(s) + s.boat && FarBank(t) == BoatBank(s)
  {
  }

  /** Every successor keeps the three places disjoint and all three passengers present. */
  lemma MakeMovePreservesPartition(s: State, action: nat, t: State)
    requires Partition(s) && MakeMove(s, action) == Some(t)
    ensures Partition(t)
  {
  }

  /** The state reached by applying `acts` in order, or None once an action does not apply. */
  function Run(s: State, acts: seq<nat>): Option<State>
    decreases |acts|
  {
    if acts == [] then Some(s)
    else match Run(s, acts[..|acts| - 1])
      case None => None
      case Some(t) => MakeMove(t, acts[|acts| - 1])
  }

  /** Every state reached after the first step of `acts` exists and is valid. */
  ghost predicate ValidRun(s: State, acts: seq<nat>) {
    forall i :: 1 <= i <= |acts| ==> Run(s, acts[..i]).Some? && Valid(Run(s, acts[..i]).value)
  }

  lemma RunAppend(s: State, acts: seq<nat>, a: nat, t: State)
    requires Run(s, acts) == Some(t)
    ensures Run(s, acts + [a]) == MakeMove(t, a)
  {
    assert (acts + [a])[..|acts|] == acts;
  }

  /** The eight flag combinations. */
  const Subsets: set<set<Entity>> := {
    {}, {Wolf}, {Goat}, {Cabbage}, {Wolf, Goat}, {Wolf, Cabbage}, {Goat, Cabbage}, {Wolf, Goat, Cabbage}
  }

  lemma SubsetListed(x: set<Entity>)
    ensures x in Subsets
  {
    var y: set<Entity>;
    if Wolf in x {
      if Goat in x {
        if Cabbage in x { y := {Wolf, Goat, Cabbage}; } else { y := {Wolf, Goat}; }
      } else {
        if Cabbage in x { y := {Wolf, Cabbage}; } else { y := {Wolf}; }
      }
    } else {
      if Goat in x {
        if Cabbage in x { y := {Goat, Cabbage}; } else { y := {Goat}; }
      } else {
        if Cabbage in x { y := {Cabbage}; } else { y := {}; }
      }
    }
    MaskInjective(x, y);
  }

  /** All 1024 states: a finite universe for the termination of searches. */
  const AllStates: set<State> :=
    set l, r, b, c | l in Subsets && r in Subsets && b in Subsets && c in {Left, Right} :: State(l, r, b, c)

  lemma StateListed(s: State)
    ensures s in AllStates
  {
    SubsetListed(s.left);
    SubsetListed(s.right);
    SubsetListed(s.boat);
    assert s.coast in {Left, Right} by {
      if s.coast == Left { assert Left in {Left, Right}; } else { assert Right in {Left, Right}; }
    }
    assert State(s.left, s.right, s.boat, s.coast) == s;
  }
}
