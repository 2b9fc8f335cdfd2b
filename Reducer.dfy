/**
 * The reduction passes.  Each pass first marks states, then deletes the
 * marked ones in a batch, then renumbers the ids.
 */
module Reducer {
  import opened AutomatonModel
  import opened Reachability
  import opened Equivalence

  /** Depth-first visit from `current`: adds to `visited` everything reachable
      from `current` through states not visited before.  The new states are
      all reachable from `current`, and every transition that leaves a new
      state ends in the result. */
  method VisitNodes(a: Automaton, current: State, visited: set<State>) returns (result: set<State>)
    requires a.Valid() && current in a.transitions
    ensures visited + {current} <= result
    ensures forall v :: v in result && v !in visited ==> Reachable(a.transitions, current, v)
    ensures forall u, k ::
      (u in result && u !in visited && u in a.transitions && k in a.transitions[u] && a.transitions[u][k] != null)
      ==> a.transitions[u][k] in result
    decreases a.transitions.Keys - visited - {current}
  {
    ghost var T := a.transitions;
    result := visited + {current};
    ReachableRefl(T, current);
    var row := a.GetTransitionsFor(current);
    var key := 0;
    while key < a.alphabetRange
      invariant 0 <= key <= if a.alphabetRange < 0 then 0 else a.alphabetRange
      invariant visited + {current} <= result
      invariant forall v :: v in result && v !in visited ==> Reachable(T, current, v)
      invariant forall u, k ::
        (u in result && u !in visited && u != current && u in T && k in T[u] && T[u][k] != null)
        ==> T[u][k] in result
      invariant forall k :: k in row && k < key && row[k] != null ==> row[k] in result
    {
      var next := a.GetNextState(current, key);
      if next != null && next !in result {
        ghost var before := result;
        result := VisitNodes(a, next, result);
        forall v | v in result && v !in before ensures Reachable(T, current, v) {
          ReachablePrepend(T, current, key, v);
        }
      }
      key := key + 1;
    }
  }

  /** A depth-first visit from scratch yields exactly the states `s` reaches. */
  lemma VisitFromScratch(T: Table, s: State, R: set<State>)
    requires TableClosed(T) && s in T && s in R
    requires forall v :: v in R ==> Reachable(T, s, v)
    requires forall u, k :: u in R && u in T && k in T[u] && T[u][k] != null ==> T[u][k] in R
    ensures R == ReachSet(T, s)
  {
    ReachSetIsLeastClosed(T, s, R);
    forall v | v in R ensures v in ReachSet(T, s) {
      ReachStaysInTable(T, s, v);
    }
  }

  /** Deletes every state of `toRemove`, one at a time and in any order; the
      result is the same as deleting them all at once. */
  method RemoveAll(a: Automaton, toRemove: set<State>)
    requires a.Valid()
    modifies a
    ensures a.Valid()
    ensures a.states == Drop(old(a.states), toRemove)
    ensures a.transitions == Prune(old(a.transitions), toRemove)
    ensures a.initialState == old(a.initialState) && a.alphabetRange == old(a.alphabetRange)
  {
    var pending := toRemove;
    ghost var done: set<State> := {};
    DropNothing(a.states);
    PruneNothing(a.transitions);
    while pending != {}
      invariant a.Valid()
      invariant pending + done == toRemove
      invariant a.states == Drop(old(a.states), done)
      invariant a.transitions == Prune(old(a.transitions), done)
      invariant a.initialState == old(a.initialState) && a.alphabetRange == old(a.alphabetRange)
      decreases pending
    {
      var s :| s in pending;
      a.Remove(s);
      DropDrop(old(a.states), done, {s});
      PrunePrune(old(a.transitions), done, {s});
      pending, done := pending - {s}, done + {s};
    }
  }

  /** Reachability pass: deletes every state the initial state does not reach.
      The surviving rows are untouched, the initial state survives and the ids
      are dense again. */
  method RemoveUnreachableStates(a: Automaton)
    requires a.Valid()
    requires a.initialState != null && a.initialState in a.transitions
    modifies a, a.StateSet()
    ensures a.Valid() && a.DenseIds()
    ensures a.initialState == old(a.initialState) && a.alphabetRange == old(a.alphabetRange)
    ensures a.transitions == AfterUnreachable(old(a.transitions), a.initialState)
    ensures a.states == Drop(old(a.states), old(a.StateSet()) - ReachSet(old(a.transitions), a.initialState))
    ensures a.StateSet() == ReachSet(old(a.transitions), a.initialState)
    ensures a.initialState in a.StateSet()
    ensures forall s :: s in a.transitions ==> a.transitions[s] == old(a.transitions)[s]
  {
    var visited := VisitNodes(a, a.initialState, {});
    VisitFromScratch(a.transitions, a.initialState, visited);
    UnreachablePassKeepsRows(a.transitions, a.initialState);
    ReachSetIsLeastClosed(a.transitions, a.initialState, {});
    var statesToRemove := a.StateSet() - visited;
    RemoveAll(a, statesToRemove);
    a.NormalizeIds();
  }

  /** True when some state of `visited` is accepting. */
  method AnyAccepting(visited: set<State>) returns (canGoToAcceptance: bool)
    ensures canGoToAcceptance <==> exists s :: s in visited && s.isAcceptance
  {
    canGoToAcceptance := false;
    var pending := visited;
    while pending != {}
      invariant pending <= visited
      invariant canGoToAcceptance <==> exists s :: s in visited - pending && s.isAcceptance
      decreases pending
    {
      var s :| s in pending;
      if s.isAcceptance {
        canGoToAcceptance := true;
      }
      pending := pending - {s};
    }
  }

  /** The useless states a nested walk marks, added to those the walk
      marked so far, are the useless states among all it has visited. */
  lemma MarksCompose(T: Table, X0: set<State>, X1: set<State>, X2: set<State>,
                     A: set<State>, B: set<State>, C: set<State>, current: State, next: State)
    requires A + {current} <= B <= C && next !in B
    requires X1 == X0 + set v | v in B && (v !in A || v == current) && Useless(T, v)
    requires X2 == X1 + set v | v in C && (v !in B || v == next) && Useless(T, v)
    ensures X2 == X0 + set v | v in C && (v !in A || v == current) && Useless(T, v)
  {
  }

  /** Depth-first walk from `current` that marks, among `current` and the
      states it visits for the first time, exactly the useless ones. */
  method CheckIfIsUseless(a: Automaton, current: State, superVisited: set<State>, toRemove: set<State>)
    returns (superVisited': set<State>, toRemove': set<State>)
    requires a.Valid() && current in a.transitions
    ensures superVisited + {current} <= superVisited'
    ensures forall v :: v in superVisited' && v !in superVisited ==> Reachable(a.transitions, current, v)
    ensures forall u, k ::
      (u in superVisited' && u !in superVisited && u in a.transitions && k in a.transitions[u]
       && a.transitions[u][k] != null)
      ==> a.transitions[u][k] in superVisited'
    ensures toRemove' == toRemove + set v | v in superVisited' && (v !in superVisited || v == current)
      && Useless(a.transitions, v)
    decreases a.transitions.Keys - superVisited - {current}
  {
    ghost var T := a.transitions;
    superVisited' := superVisited + {current};
    ReachableRefl(T, current);
    var visited := VisitNodes(a, current, {});
    VisitFromScratch(T, current, visited);
    UselessIffNoAcceptingReached(T, current);
    var canGoToAcceptanceFromHere := AnyAccepting(visited);
    toRemove' := toRemove;
    if !canGoToAcceptanceFromHere {
      toRemove' := toRemove' + {current};
    }
    var row := a.GetTransitionsFor(current);
    var key := 0;
    while key < a.alphabetRange
      invariant 0 <= key <= if a.alphabetRange < 0 then 0 else a.alphabetRange
      invariant superVisited + {current} <= superVisited'
      invariant forall v :: v in superVisited' && v !in superVisited ==> Reachable(T, current, v)
      invariant forall u, k ::
        (u in superVisited' && u !in superVisited && u != current && u in T && k in T[u] && T[u][k] != null)
        ==> T[u][k] in superVisited'
      invariant forall k :: k in row && k < key && row[k] != null ==> row[k] in superVisited'
      invariant toRemove' == toRemove + set v | v in superVisited' && (v !in superVisited || v == current)
        && Useless(T, v)
    {
      var next := a.GetNextState(current, key);
      ghost var before := superVisited';
      if next != null && next !in superVisited' {
        ghost var marked := toRemove';
        superVisited', toRemove' := CheckIfIsUseless(a, next, superVisited', toRemove');
        MarksCompose(T, toRemove, marked, toRemove', superVisited, before, superVisited', current, next);
        forall v | v in superVisited' && v !in before ensures Reachable(T, current, v) {
          ReachablePrepend(T, current, key, v);
        }
        forall u, k | u in superVisited' && u !in superVisited && u != current && u in T && k in T[u] && T[u][k] != null
          ensures T[u][k] in superVisited'
        {
          if u in before {
            assert T[u][k] in before;
          }
        }
      }
      forall k | k in row && k <= key && row[k] != null ensures row[k] in superVisited' {
        if k < key {
          assert row[k] in before;
        }
      }
      key := key + 1;
    }
  }

  /** Usefulness pass: deletes every state that the initial state reaches and
      from which no accepting state can be reached.  The initial state itself
      may go; states the initial state does not reach are kept. */
  method RemoveUselessStates(a: Automaton)
    requires a.Valid()
    requires a.initialState != null && a.initialState in a.transitions
    modifies a, a.StateSet()
    ensures a.Valid() && a.DenseIds()
    ensures a.initialState == old(a.initialState) && a.alphabetRange == old(a.alphabetRange)
    ensures a.states == Drop(old(a.states), UselessSet(old(a.transitions), a.initialState))
    ensures a.transitions == AfterUseless(old(a.transitions), a.initialState)
  {
    var superVisited, toRemove := CheckIfIsUseless(a, a.initialState, {}, {});
    VisitFromScratch(a.transitions, a.initialState, superVisited);
    assert toRemove == UselessSet(a.transitions, a.initialState);
    RemoveAll(a, toRemove);
    a.NormalizeIds();
  }

  /** The equivalence test (`checkStatesForEquivalence`): a simultaneous
      depth-first walk from `state1` and `state2` that threads one visited set
      per side through all its recursive calls. */
  method CheckStatesForEquivalence(a: Automaton, state1: State?, state2: State?,
                                   visited1: set<State>, visited2: set<State>)
    returns (equivalent: bool, visited1': set<State>, visited2': set<State>)
    requires a.Valid()
    requires state1 == null || state1 in a.transitions
    requires state2 == null || state2 in a.transitions
    ensures (equivalent, visited1', visited2')
         == Equivalent(a.transitions, a.alphabetRange, state1, state2, visited1, visited2)
    ensures state1 == state2 ==> equivalent
    ensures (state1 == null) != (state2 == null) ==> !equivalent
    ensures state1 != null && state2 != null && state1.isAcceptance != state2.isAcceptance ==> !equivalent
    decreases a.transitions.Keys - Add(visited1, state1), a.transitions.Keys - Add(visited2, state2),
      if state1 != null && state2 != null && state1 != state2 then 2 else 0, 0
  {
    visited1', visited2' := visited1, visited2;
    if state1 != null {
      visited1' := visited1' + {state1};
    }
    if state2 != null {
      visited2' := visited2' + {state2};
    }
    if state1 == state2 {
      return true, visited1', visited2';
    }
    if state1 == null || state2 == null {
      return false, visited1', visited2';
    }
    if state1.isAcceptance != state2.isAcceptance {
      return false, visited1', visited2';
    }
    ghost var T, n := a.transitions, a.alphabetRange;
    var key := 0;
    while key < a.alphabetRange
      invariant 0 <= key <= if n < 0 then 0 else n
      invariant Add(visited1, state1) <= visited1' && Add(visited2, state2) <= visited2'
      invariant Equivalent(T, n, state1, state2, visited1, visited2)
             == CheckKeys(T, n, state1, state2, key, visited1', visited2')
    {
      var newState1 := a.GetNextState(state1, key);
      var newState2 := a.GetNextState(state2, key);
      if !((newState1 != null && newState1 in visited1') || (newState2 != null && newState2 in visited2')) {
        var childrenAreEquivalent;
        childrenAreEquivalent, visited1', visited2' :=
          CheckStatesForEquivalence(a, newState1, newState2, visited1', visited2');
        if !childrenAreEquivalent {
          return false, visited1', visited2';
        }
      }
      key := key + 1;
    }
    return true, visited1', visited2';
  }

  /** The test, started from scratch, accepts the states at positions `i`
      and `j` of `S`. */
  ghost predicate Passes(T: Table, n: int, S: seq<State>, i: int, j: int)
  {
    && 0 <= i < |S| && 0 <= j < |S| && TableClosed(T) && S[i] in T && S[j] in T
    && Equivalent(T, n, S[i], S[j], {}, {}).0
  }

  /** `j` is the last position after `i` whose state passes the test with the
      state at `i`. */
  ghost predicate LastPartner(T: Table, n: int, S: seq<State>, i: int, j: int)
  {
    i < j && Passes(T, n, S, i, j) && forall j' :: j < j' < |S| ==> !Passes(T, n, S, i, j')
  }

  /** Some later position holds a state that passes the test with the state
      at `i`. */
  ghost predicate HasPartner(T: Table, n: int, S: seq<State>, i: int)
  {
    exists j :: i < j < |S| && Passes(T, n, S, i, j)
  }

  /** The states the merge pass folds away: those with a later partner. */
  ghost function MergedAway(T: Table, n: int, S: seq<State>): set<State>
  {
    set i | 0 <= i < |S| && HasPartner(T, n, S, i) :: S[i]
  }

  /** The states the merge pass folds others into: last partners. */
  ghost function Appointed(T: Table, n: int, S: seq<State>): set<State>
  {
    set i, j | 0 <= i < |S| && 0 <= j < |S| && LastPartner(T, n, S, i, j) :: S[j]
  }

  /** The merge pass folds `x` into `y`: `y` is the last partner of `x`. */
  ghost predicate FoldsInto(T: Table, n: int, S: seq<State>, x: State, y: State)
  {
    exists i, j :: LastPartner(T, n, S, i, j) && S[i] == x && S[j] == y
  }

  /** One pass of the inner pair loop: tests the state at `i` against every
      later state and records the LAST one that passes, since a later `put`
      overwrites an earlier one. */
  method RecordPartner(a: Automaton, i: int, toReplace: map<State, State>) returns (r: map<State, State>)
    requires a.Valid() && 0 <= i < |a.states| && a.states[i] !in toReplace
    ensures r.Keys == toReplace.Keys + (if HasPartner(a.transitions, a.alphabetRange, a.states, i) then {a.states[i]} else {})
    ensures forall x :: x in toReplace ==> r[x] == toReplace[x]
    ensures a.states[i] in r ==> FoldsInto(a.transitions, a.alphabetRange, a.states, a.states[i], r[a.states[i]])
  {
    ghost var T, n, S := a.transitions, a.alphabetRange, a.states;
    r := toReplace;
    var j := i + 1;
    while j < |a.states|
      invariant i + 1 <= j <= |S|
      invariant r.Keys - {S[i]} == toReplace.Keys
      invariant S[i] in r <==> exists j' :: i < j' < j && Passes(T, n, S, i, j')
      invariant forall x :: x in toReplace ==> r[x] == toReplace[x]
      invariant S[i] in r ==>
        exists j' :: i < j' < j && Passes(T, n, S, i, j') && r[S[i]] == S[j']
          && forall j'' :: j' < j'' < j ==> !Passes(T, n, S, i, j'')
    {
      var equivalent, _, _ := CheckStatesForEquivalence(a, a.GetState(i), a.GetState(j), {}, {});
      assert equivalent <==> Passes(T, n, S, i, j);
      if equivalent {
        r := r[a.GetState(i) := a.GetState(j)];
      }
      j := j + 1;
    }
    if S[i] in r {
      var j' :| i < j' < |S| && Passes(T, n, S, i, j') && r[S[i]] == S[j']
        && forall j'' :: j' < j'' < |S| ==> !Passes(T, n, S, i, j'');
      assert LastPartner(T, n, S, i, j');
    }
  }

  /** The states among the first `i` positions that have a later partner. */
  ghost function MarkedBefore(T: Table, n: int, S: seq<State>, i: int): set<State>
  {
    set i' | 0 <= i' < i && i' < |S| && HasPartner(T, n, S, i') :: S[i']
  }

  /** Moving past position `i` adds the state at `i` when it has a partner,
      and that state was not marked before. */
  lemma MarkedBeforeStep(T: Table, n: int, S: seq<State>, i: int)
    requires Distinct(S) && 0 <= i < |S|
    ensures S[i] !in MarkedBefore(T, n, S, i)
    ensures MarkedBefore(T, n, S, i + 1)
         == MarkedBefore(T, n, S, i) + (if HasPartner(T, n, S, i) then {S[i]} else {})
  {
  }

  /** Past the next-to-last position, every marked state has been seen. */
  lemma MarkedBeforeAll(T: Table, n: int, S: seq<State>, i: int)
    requires |S| - 1 <= i
    ensures MarkedBefore(T, n, S, i) == MergedAway(T, n, S)
  {
  }

  /** The pair loop of the merge pass: every state with a later partner is
      mapped to its last partner, and no other state is mapped. */
  method FindEquivalentPairs(a: Automaton) returns (toReplace: map<State, State>)
    requires a.Valid()
    ensures toReplace.Keys == MergedAway(a.transitions, a.alphabetRange, a.states)
    ensures forall x :: x in toReplace ==> FoldsInto(a.transitions, a.alphabetRange, a.states, x, toReplace[x])
  {
    ghost var T, n, S := a.transitions, a.alphabetRange, a.states;
    toReplace := map[];
    var i := 0;
    while i < |a.states| - 1
      invariant 0 <= i <= |S|
      invariant toReplace.Keys == MarkedBefore(T, n, S, i)
      invariant forall x :: x in toReplace ==> FoldsInto(T, n, S, x, toReplace[x])
    {
      MarkedBeforeStep(T, n, S, i);
      toReplace := RecordPartner(a, i, toReplace);
      i := i + 1;
    }
    MarkedBeforeAll(T, n, S, i);
  }

  /** A state with a later partner has a last one. */
  lemma {:induction false} LastPartnerExists(T: Table, n: int, S: seq<State>, i: int, j0: int)
    requires i < j0 && Passes(T, n, S, i, j0)
    ensures exists j :: LastPartner(T, n, S, i, j)
    decreases |S| - j0
  {
    if exists j' :: j0 < j' < |S| && Passes(T, n, S, i, j') {
      var j' :| j0 < j' < |S| && Passes(T, n, S, i, j');
      LastPartnerExists(T, n, S, i, j');
    } else {
      assert LastPartner(T, n, S, i, j0);
    }
  }

  /** The state the merge pass folds `x` into. */
  ghost function FoldTarget(T: Table, n: int, S: seq<State>, x: State): (y: State)
    requires x in MergedAway(T, n, S)
    ensures FoldsInto(T, n, S, x, y)
  {
    var i :| 0 <= i < |S| && HasPartner(T, n, S, i) && S[i] == x;
    var j0 :| i < j0 < |S| && Passes(T, n, S, i, j0);
    LastPartnerExists(T, n, S, i, j0);
    var j :| LastPartner(T, n, S, i, j);
    assert FoldsInto(T, n, S, x, S[j]);
    var y :| FoldsInto(T, n, S, x, y);
    y
  }

  /** The replacement map the pair loop builds, as a function of the rows
      and the list: each state with a later partner to its last partner. */
  ghost function FoldMap(T: Table, n: int, S: seq<State>): (R: map<State, State>)
    ensures R.Keys == MergedAway(T, n, S)
  {
    map x | x in MergedAway(T, n, S) :: FoldTarget(T, n, S, x)
  }

  /** On a list without duplicates a state is folded into one state only. */
  lemma FoldsIntoUnique(T: Table, n: int, S: seq<State>, x: State, y: State, y': State)
    requires Distinct(S) && FoldsInto(T, n, S, x, y) && FoldsInto(T, n, S, x, y')
    ensures y == y'
  {
  }

  /** A map with the keys and targets the pair loop promises is `FoldMap`. */
  lemma FoldMapIs(T: Table, n: int, S: seq<State>, R: map<State, State>)
    requires Distinct(S) && R.Keys == MergedAway(T, n, S)
    requires forall x :: x in R ==> FoldsInto(T, n, S, x, R[x])
    ensures R == FoldMap(T, n, S)
  {
    var F := FoldMap(T, n, S);
    forall x | x in R ensures x in F && R[x] == F[x] {
      FoldsIntoUnique(T, n, S, x, R[x], F[x]);
    }
    SameMap(R, F);
  }

  lemma SameMap(R: map<State, State>, F: map<State, State>)
    requires R.Keys == F.Keys && forall x :: x in R ==> R[x] == F[x]
    ensures R == F
  {
  }

  /** Every state a state is folded into is a last partner. */
  lemma FoldMapAppointed(T: Table, n: int, S: seq<State>)
    ensures FoldMap(T, n, S).Values <= Appointed(T, n, S)
  {
  }

  /** `a` after following the replacement map `R` `steps` times, stopping
      at the first state that is not replaced. */
  function Follow(R: map<State, State>, a: State, steps: nat): State
    decreases steps
  {
    if steps == 0 || a !in R then a else Follow(R, R[a], steps - 1)
  }

  /** `b` lies on the fold chain of `a`: `a`, `R[a]`, `R[R[a]]`, ... */
  ghost predicate OnChain(R: map<State, State>, a: State, b: State?)
  {
    exists steps: nat :: Follow(R, a, steps) == b
  }

  lemma {:induction false} FollowNext(R: map<State, State>, a: State, steps: nat)
    ensures Follow(R, a, steps + 1) == if Follow(R, a, steps) in R then R[Follow(R, a, steps)] else Follow(R, a, steps)
    decreases steps
  {
    if steps != 0 && a in R {
      FollowNext(R, R[a], steps - 1);
    }
  }

  /** A chain stays at its end. */
  lemma {:induction false} FollowStays(R: map<State, State>, a: State, steps: nat, more: nat)
    requires Follow(R, a, steps) !in R
    ensures Follow(R, a, steps + more) == Follow(R, a, steps)
    decreases more
  {
    if more != 0 {
      FollowStays(R, a, steps, more - 1);
      FollowNext(R, a, steps + more - 1);
    }
  }

  /** Replacing a state on the chain of `a` gives the next state on it. */
  lemma ChainStep(R: map<State, State>, a: State, b: State)
    requires OnChain(R, a, b) && b in R
    ensures OnChain(R, a, R[b])
  {
    var steps: nat :| Follow(R, a, steps) == b;
    FollowNext(R, a, steps);
  }

  /** A chain has at most one state that is not replaced: its end. */
  lemma ChainEnd(R: map<State, State>, a: State, b: State, c: State)
    requires OnChain(R, a, b) && OnChain(R, a, c) && b !in R && c !in R
    ensures b == c
  {
    var m: nat :| Follow(R, a, m) == b;
    var k: nat :| Follow(R, a, k) == c;
    if m <= k {
      FollowStays(R, a, m, k - m);
    } else {
      FollowStays(R, a, k, m - k);
    }
  }

  /** When the state `x` is folded into is not folded itself, the end of the
      chain of `x` is exactly that state. */
  lemma ChainEndIsPartner(R: map<State, State>, x: State, y: State)
    requires x in R && R[x] !in R && OnChain(R, x, y) && y !in R
    ensures y == R[x]
  {
    assert Follow(R, x, 1) == R[x];
    ChainEnd(R, x, y, R[x]);
  }

  /** The rewrite of one entry of the replacement map: every entry of every
      row that leads to `removed` now leads to `appointed`. */
  method Redirect(a: Automaton, removed: State, appointed: State)
    requires a.Valid() && appointed in a.transitions
    modifies a
    ensures a.Valid()
    ensures a.states == old(a.states) && a.initialState == old(a.initialState)
    ensures a.alphabetRange == old(a.alphabetRange)
    ensures a.transitions.Keys == old(a.transitions).Keys
    ensures forall s :: s in a.transitions ==> a.transitions[s].Keys == old(a.transitions)[s].Keys
    ensures forall s, k :: s in a.transitions && k in a.transitions[s] ==>
      a.transitions[s][k] == if old(a.transitions)[s][k] == removed then appointed else old(a.transitions)[s][k]
  {
    var table := a.transitions;
    var pending := table.Keys;
    while pending != {}
      modifies {}
      invariant pending <= table.Keys == a.transitions.Keys
      invariant forall s :: s in table ==> table[s].Keys == a.transitions[s].Keys
      invariant forall s, k :: s in table && k in table[s] ==>
        table[s][k] == if s in pending || a.transitions[s][k] != removed then a.transitions[s][k] else appointed
      decreases pending
    {
      var s :| s in pending;
      var transition := table[s];
      var keysToReplace := Automaton.KeysTargeting(transition, removed, a.alphabetRange);
      var updated := map k | k in transition :: if k in keysToReplace then appointed else transition[k];
      table := table[s := updated];
      pending := pending - {s};
    }
    a.transitions := table;
  }

  /** Partway through the rewrite loop: rows and keys are those of `T0`;
      an entry into a replaced state lies on that state's chain, and is
      either untouched with the state still waiting in `pending` or leads
      to an appointed state; all remaining entries are as in `T0`. */
  ghost predicate RedirectedSoFar(T0: Table, T: Table, R: map<State, State>, pending: set<State>)
  {
    && T.Keys == T0.Keys
    && (forall s :: s in T ==> T[s].Keys == T0[s].Keys)
    && forall s, k :: s in T && k in T[s] ==>
         if T0[s][k] != null && T0[s][k] in R then
           && OnChain(R, T0[s][k], T[s][k])
           && ((T[s][k] == T0[s][k] && T0[s][k] in pending) || T[s][k] in R.Values)
         else T[s][k] == T0[s][k]
  }

  /** Redirecting one more entry of the replacement map keeps the rewrite
      on track with one state fewer pending. */
  lemma RedirectStep(T0: Table, T: Table, T': Table, R: map<State, State>, pending: set<State>, removed: State)
    requires RedirectedSoFar(T0, T, R, pending) && removed in pending && removed in R
    requires T'.Keys == T.Keys && forall s :: s in T' ==> T'[s].Keys == T[s].Keys
    requires forall s, k :: s in T' && k in T'[s] ==> T'[s][k] == if T[s][k] == removed then R[removed] else T[s][k]
    ensures RedirectedSoFar(T0, T', R, pending - {removed})
  {
    forall s, k | s in T' && k in T'[s] && T0[s][k] != null && T0[s][k] in R && T[s][k] == removed
      ensures OnChain(R, T0[s][k], T'[s][k])
    {
      ChainStep(R, T0[s][k], removed);
    }
  }

  /** The rewrite loop of the merge pass, over the replacement map in any
      order.  Entries that lead to a state that is not replaced are kept;
      every other entry ends up on the chain of its old target, at some
      appointed state (which one, before the replaced states are deleted,
      depends on the order). */
  method RedirectAll(a: Automaton, toReplace: map<State, State>)
    requires a.Valid()
    requires forall x :: x in toReplace ==> toReplace[x] in a.transitions
    modifies a
    ensures a.Valid()
    ensures a.states == old(a.states) && a.initialState == old(a.initialState)
    ensures a.alphabetRange == old(a.alphabetRange)
    ensures a.transitions.Keys == old(a.transitions).Keys
    ensures forall s :: s in a.transitions ==> a.transitions[s].Keys == old(a.transitions)[s].Keys
    ensures forall s, k :: s in a.transitions && k in a.transitions[s] ==>
      var was := old(a.transitions)[s][k];
      if was != null && was in toReplace then
        a.transitions[s][k] in toReplace.Values && OnChain(toReplace, was, a.transitions[s][k])
      else a.transitions[s][k] == was
  {
    var pending := toReplace.Keys;
    forall s, k | s in a.transitions && k in a.transitions[s] && a.transitions[s][k] != null
      ensures OnChain(toReplace, a.transitions[s][k], a.transitions[s][k])
    {
      assert Follow(toReplace, a.transitions[s][k], 0) == a.transitions[s][k];
    }
    while pending != {}
      invariant pending <= toReplace.Keys
      invariant a.Valid() && a.transitions.Keys == old(a.transitions).Keys
      invariant a.states == old(a.states) && a.initialState == old(a.initialState)
      invariant a.alphabetRange == old(a.alphabetRange)
      invariant RedirectedSoFar(old(a.transitions), a.transitions, toReplace, pending)
      decreases pending
    {
      var removed :| removed in pending;
      var appointed := toReplace[removed];
      ghost var before := a.transitions;
      Redirect(a, removed, appointed);
      RedirectStep(old(a.transitions), before, a.transitions, toReplace, pending, removed);
      pending := pending - {removed};
    }
  }

  /** The rows after the merge pass with replacement map `R`, against the
      rows `T0` before it: the replaced states are gone; an entry that did
      not lead to a replaced state is kept; an entry that did is gone, or
      leads to the end of that state's chain, an appointed state that is not
      replaced itself; no entry leads to a replaced state. */
  ghost predicate MergedRows(T0: Table, T: Table, R: map<State, State>)
  {
    && T.Keys == T0.Keys - R.Keys
    && (forall s, k :: s in T && k in T0[s] && (T0[s][k] == null || T0[s][k] !in R) ==>
          k in T[s] && T[s][k] == T0[s][k])
    && (forall s, k :: s in T && k in T[s] ==>
          && k in T0[s]
          && (T[s][k] == null || T[s][k] !in R)
          && (T0[s][k] != null && T0[s][k] in R ==> T[s][k] in R.Values && OnChain(R, T0[s][k], T[s][k])))
  }

  /** Redirecting the entries into replaced states along their chains and
      then deleting the replaced states gives the rows the merge pass
      promises. */
  lemma RedirectThenPrune(T: Table, T': Table, R: map<State, State>)
    requires T'.Keys == T.Keys
    requires forall s :: s in T' ==> T'[s].Keys == T[s].Keys
    requires forall s, k :: s in T' && k in T'[s] ==>
      if T[s][k] != null && T[s][k] in R then T'[s][k] in R.Values && OnChain(R, T[s][k], T'[s][k])
      else T'[s][k] == T[s][k]
    ensures MergedRows(T, Prune(T', R.Keys), R)
  {
  }

  /** Merge pass: folds every state that passes the test with a later state
      into the last such state, rewriting the transitions into it, deletes
      the folded states and renumbers the ids. */
  method MergeEquivalentStates(a: Automaton)
    requires a.Valid()
    modifies a, a.StateSet()
    ensures a.Valid() && a.DenseIds()
    ensures a.initialState == old(a.initialState) && a.alphabetRange == old(a.alphabetRange)
    ensures a.states == Drop(old(a.states), MergedAway(old(a.transitions), a.alphabetRange, old(a.states)))
    ensures MergedRows(old(a.transitions), a.transitions, FoldMap(old(a.transitions), a.alphabetRange, old(a.states)))
  {
    ghost var T, n, S := a.transitions, a.alphabetRange, a.states;
    var toReplace := FindEquivalentPairs(a);
    FoldMapIs(T, n, S, toReplace);
    forall x | x in toReplace ensures toReplace[x] in a.transitions {
      var i, j :| LastPartner(T, n, S, i, j) && S[i] == x && S[j] == toReplace[x];
    }
    RedirectAll(a, toReplace);
    RedirectThenPrune(T, a.transitions, toReplace);
    RemoveAll(a, toReplace.Keys);
    a.NormalizeIds();
  }

  /** The whole reduction (`reduceAutomaton`): reachability, usefulness and
      merge passes, in that order.  The list and rows left by the first two
      passes (`S2`, `T2`) are those of the specification functions; the
      merge pass then deletes the states of `S2` with a later partner and
      sends the entries into them to the ends of their chains, as
      `MergedRows` says for the map `FoldMap`.  What is left was
      reachable from the initial state and useful after the first two
      passes, and nothing is left when the initial state itself was
      useless. */
  method ReduceAutomaton(a: Automaton)
    requires a.Valid()
    requires a.initialState != null && a.initialState in a.transitions
    modifies a, a.StateSet()
    ensures a.Valid() && a.DenseIds()
    ensures a.initialState == old(a.initialState) && a.alphabetRange == old(a.alphabetRange)
    ensures var init := a.initialState;
      var T1 := AfterUnreachable(old(a.transitions), init);
      var S1 := Drop(old(a.states), old(a.StateSet()) - ReachSet(old(a.transitions), init));
      var T2, S2 := AfterUseless(T1, init), Drop(S1, UselessSet(T1, init));
      && a.states == Drop(S2, MergedAway(T2, a.alphabetRange, S2))
      && MergedRows(T2, a.transitions, FoldMap(T2, a.alphabetRange, S2))
    ensures a.StateSet() <= AfterUseless(AfterUnreachable(old(a.transitions), a.initialState), a.initialState).Keys
    ensures AfterUseless(AfterUnreachable(old(a.transitions), a.initialState), a.initialState) == map[] ==> a.states == []
  {
    RemoveUnreachableStates(a);
    RemoveUselessStates(a);
    MergeEquivalentStates(a);
  }

  /** The rows of the example below: start `r` goes to `p` on 0 and to `q`
      on 1; `p` loops on 0; `q` has no transitions. */
  function ExampleTable(r: State, p: State, q: State): Table
  {
    map[r := map[0 := p, 1 := q], p := map[0 := p, 1 := null], q := map[0 := null, 1 := null]]
  }

  /** In the example `r` reaches every state. */
  lemma ExampleReachesAll(r: State, p: State, q: State)
    requires r != p && r != q && p != q
    ensures ReachSet(ExampleTable(r, p, q), r) == {r, p, q}
  {
    var T := ExampleTable(r, p, q);
    assert Run(T, r, []) == r;
    assert Run(T, r, [0]) == p by { assert Next(T, r, 0) == p && [0][1..] == []; }
    assert Run(T, r, [1]) == q by { assert Next(T, r, 1) == q && [1][1..] == []; }
  }

  /** In the example no state `r` reaches is useless. */
  lemma ExampleAllUseful(r: State, p: State, q: State)
    requires r != p && r != q && p != q
    requires p.isAcceptance && q.isAcceptance
    ensures UselessSet(ExampleTable(r, p, q), r) == {}
  {
    var T := ExampleTable(r, p, q);
    ExampleReachesAll(r, p, q);
    assert !Useless(T, r) by {
      assert Run(T, r, [0]) == p by { assert Next(T, r, 0) == p && [0][1..] == []; }
    }
    assert !Useless(T, p) by { assert Run(T, p, []) == p; }
    assert !Useless(T, q) by { assert Run(T, q, []) == q; }
  }

  /** In the example the first two passes keep every state and every row. */
  lemma ExampleKeepsAll(r: State, p: State, q: State)
    requires r != p && r != q && p != q
    requires p.isAcceptance && q.isAcceptance
    ensures var T := ExampleTable(r, p, q);
      && AfterUnreachable(T, r) == T && AfterUseless(T, r) == T
      && Drop(Drop([r, p, q], {r, p, q} - ReachSet(T, r)), UselessSet(T, r)) == [r, p, q]
  {
    var T := ExampleTable(r, p, q);
    ExampleReachesAll(r, p, q);
    ExampleAllUseful(r, p, q);
    assert T.Keys == {r, p, q};
    assert T.Keys - ReachSet(T, r) == {} && {r, p, q} - ReachSet(T, r) == {};
    PruneNothing(T);
    DropNothing([r, p, q]);
  }

  /** In the example the test passes `p` with `q` and nothing else. */
  lemma ExamplePartners(r: State, p: State, q: State)
    requires r != p && r != q && p != q
    requires !r.isAcceptance && p.isAcceptance && q.isAcceptance
    ensures var T, S := ExampleTable(r, p, q), [r, p, q];
      MergedAway(T, 2, S) == {p} && Appointed(T, 2, S) == {q} && FoldsInto(T, 2, S, p, q)
  {
    var T, S := ExampleTable(r, p, q), [r, p, q];
    assert TableClosed(T);
    assert !Passes(T, 2, S, 0, 1) && !Passes(T, 2, S, 0, 2);
    assert Passes(T, 2, S, 1, 2) by {
      assert Add({}, p) == {p} && Add({}, q) == {q};
      assert Next(T, p, 1) == null && Next(T, q, 1) == null;
      assert CheckKeys(T, 2, p, q, 1, {p}, {q}).0 by {
        assert Equivalent(T, 2, null, null, {p}, {q}) == (true, {p}, {q});
        assert CheckKeys(T, 2, p, q, 2, {p}, {q}).0;
      }
      assert Next(T, p, 0) == p;
      assert CheckKeys(T, 2, p, q, 0, {p}, {q}).0;
    }
    assert !HasPartner(T, 2, S, 0) && HasPartner(T, 2, S, 1) && !HasPartner(T, 2, S, 2);
    assert LastPartner(T, 2, S, 1, 2);
  }

  /** In the example the merge pass replaces `p` by `q`. */
  lemma ExampleFoldMap(r: State, p: State, q: State)
    requires r != p && r != q && p != q
    requires !r.isAcceptance && p.isAcceptance && q.isAcceptance
    ensures FoldMap(ExampleTable(r, p, q), 2, [r, p, q]) == map[p := q]
  {
    var T, S := ExampleTable(r, p, q), [r, p, q];
    ExamplePartners(r, p, q);
    FoldsIntoUnique(T, 2, S, p, q, FoldMap(T, 2, S)[p]);
  }

  /** In the example `r` accepts [0, 0] before the merge pass and, in every
      table the merge pass may leave when it folds `p` into `q`, not after. */
  lemma ExampleWord(r: State, p: State, q: State)
    requires r != p && r != q && p != q
    requires p.isAcceptance
    ensures Accepts(ExampleTable(r, p, q), r, [0, 0])
    ensures forall T' :: MergedRows(ExampleTable(r, p, q), T', map[p := q]) ==> !Accepts(T', r, [0, 0])
  {
  }

  /** The reduction can change the language.  Started from `r` on the list
      `[r, p, q]` over two symbols, the first two passes keep everything; the
      test passes `p` with `q` (symbol 0 is skipped because `p` is already
      visited), so the merge pass folds `p` into `q`, and `r`, which accepts
      [0, 0] before, does not accept it in any table the reduction may
      leave. */
  lemma ReductionLosesWord(r: State, p: State, q: State)
    requires r != p && r != q && p != q
    requires !r.isAcceptance && p.isAcceptance && q.isAcceptance
    ensures var T, S := ExampleTable(r, p, q), [r, p, q];
      var T1 := AfterUnreachable(T, r);
      var S1 := Drop(S, {r, p, q} - ReachSet(T, r));
      var T2, S2 := AfterUseless(T1, r), Drop(S1, UselessSet(T1, r));
      && Accepts(T, r, [0, 0])
      && Drop(S2, MergedAway(T2, 2, S2)) == [r, q]
      && FoldMap(T2, 2, S2) == map[p := q]
      && forall T' :: MergedRows(T2, T', FoldMap(T2, 2, S2)) ==> !Accepts(T', r, [0, 0])
  {
    ExampleKeepsAll(r, p, q);
    ExamplePartners(r, p, q);
    ExampleFoldMap(r, p, q);
    ExampleWord(r, p, q);
    ExampleDrop(r, p, q);
  }

  lemma ExampleDrop(r: State, p: State, q: State)
    requires r != p && r != q && p != q
    ensures Drop([r, p, q], {p}) == [r, q]
  {
    assert Drop([q], {p}) == [q] by { assert Drop([], {p}) == []; }
    assert Drop([p, q], {p}) == Drop([q], {p});
  }
}
