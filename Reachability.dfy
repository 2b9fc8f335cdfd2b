/**
 * Words through the transition table, and the two notions the reduction
 * passes decide: reachability from a state, and usefulness (some accepting
 * state can be reached).  "No transition" is a dead end, never a self-loop.
 */
module Reachability {
  import opened AutomatonModel

  /** The state reached from `s` by reading the symbols of `w`, `null` once a
      symbol has no transition. */
  function Run(T: Table, s: State, w: seq<int>): (r: State?)
    decreases |w|
  {
    if w == [] then s
    else if s !in T then null
    else
      var n := Next(T, s, w[0]);
      if n == null then null else Run(T, n, w[1..])
  }

  /** `v` can be reached from `s` by following zero or more transitions. */
  ghost predicate Reachable(T: Table, s: State, v: State)
  {
    exists w :: Run(T, s, w) == v
  }

  /** The states with a row that `s` reaches. */
  ghost function ReachSet(T: Table, s: State): set<State>
  {
    set v | v in T && Reachable(T, s, v)
  }

  /** Every transition that leaves a state of `V` ends in `V`. */
  ghost predicate Closed(T: Table, V: set<State>)
  {
    forall u, k :: u in V && u in T && k in T[u] && T[u][k] != null ==> T[u][k] in V
  }

  /** No state that `s` reaches is accepting, `s` itself included. */
  ghost predicate Useless(T: Table, s: State)
  {
    forall w :: Run(T, s, w) != null ==> !Run(T, s, w).isAcceptance
  }

  lemma ReachableRefl(T: Table, s: State)
    ensures Reachable(T, s, s)
  {
    assert Run(T, s, []) == s;
  }

  /** A run can be extended by one more transition at its start. */
  lemma ReachablePrepend(T: Table, s: State, k: int, v: State)
    requires s in T && k in T[s] && T[s][k] != null && Reachable(T, T[s][k], v)
    ensures Reachable(T, s, v)
  {
    var w :| Run(T, T[s][k], w) == v;
    assert Run(T, s, [k] + w) == v by {
      assert ([k] + w)[1..] == w;
    }
  }

  /** Reading `u` then `w` from `s` is reading `w` from the state `u` leads to. */
  lemma {:induction false} RunAppend(T: Table, s: State, u: seq<int>, w: seq<int>)
    requires Run(T, s, u) != null
    ensures Run(T, s, u + w) == Run(T, Run(T, s, u), w)
    decreases |u|
  {
    if u != [] {
      assert (u + w)[0] == u[0] && (u + w)[1..] == u[1..] + w;
      RunAppend(T, Next(T, s, u[0]), u[1..], w);
    } else {
      assert u + w == w;
    }
  }

  /** Reachability is transitive. */
  lemma ReachableTrans(T: Table, s: State, u: State, v: State)
    requires Reachable(T, s, u) && Reachable(T, u, v)
    ensures Reachable(T, s, v)
  {
    var a :| Run(T, s, a) == u;
    var b :| Run(T, u, b) == v;
    RunAppend(T, s, a, b);
  }

  /** A run can be extended by one more transition at its end. */
  lemma ReachableStep(T: Table, s: State, u: State, k: int)
    requires Reachable(T, s, u) && u in T && k in T[u] && T[u][k] != null
    ensures Reachable(T, s, T[u][k])
  {
    ReachableRefl(T, T[u][k]);
    ReachablePrepend(T, u, k, T[u][k]);
    ReachableTrans(T, s, u, T[u][k]);
  }

  /** A closed set that holds `s` holds everything `s` reaches. */
  lemma {:induction false} ClosedHoldsRun(T: Table, V: set<State>, s: State, w: seq<int>)
    requires Closed(T, V) && s in V && Run(T, s, w) != null
    ensures Run(T, s, w) in V
    decreases |w|
  {
    if w != [] {
      ClosedHoldsRun(T, V, Next(T, s, w[0]), w[1..]);
    }
  }

  lemma ClosedHoldsReach(T: Table, V: set<State>, s: State, v: State)
    requires Closed(T, V) && s in V && Reachable(T, s, v)
    ensures v in V
  {
    var w :| Run(T, s, w) == v;
    ClosedHoldsRun(T, V, s, w);
  }

  /** In a table without dangling targets, whatever a state with a row reaches
      has a row too. */
  lemma ReachStaysInTable(T: Table, s: State, v: State)
    requires TableClosed(T) && s in T && Reachable(T, s, v)
    ensures v in T
  {
    ClosedHoldsReach(T, T.Keys, s, v);
  }

  /** The states that `s` reaches form the least closed set that holds `s`. */
  lemma ReachSetIsLeastClosed(T: Table, s: State, V: set<State>)
    requires TableClosed(T) && s in T
    ensures s in ReachSet(T, s) && Closed(T, ReachSet(T, s))
    ensures Closed(T, V) && s in V ==> ReachSet(T, s) <= V
  {
    ReachableRefl(T, s);
    forall u, k | u in ReachSet(T, s) && u in T && k in T[u] && T[u][k] != null
      ensures T[u][k] in ReachSet(T, s)
    {
      ReachableStep(T, s, u, k);
    }
    if Closed(T, V) && s in V {
      forall v | v in ReachSet(T, s) ensures v in V {
        ClosedHoldsReach(T, V, s, v);
      }
    }
  }

  /** `Useless` holds exactly when no state that `s` reaches is accepting. */
  lemma UselessIffNoAcceptingReached(T: Table, s: State)
    requires TableClosed(T) && s in T
    ensures Useless(T, s) <==> forall v :: v in ReachSet(T, s) ==> !v.isAcceptance
  {
    if !Useless(T, s) {
      var w :| Run(T, s, w) != null && Run(T, s, w).isAcceptance;
      ReachStaysInTable(T, s, Run(T, s, w));
      assert Run(T, s, w) in ReachSet(T, s);
    }
    if exists v :: v in ReachSet(T, s) && v.isAcceptance {
      var v :| v in ReachSet(T, s) && v.isAcceptance;
      var w :| Run(T, s, w) == v;
    }
  }

  /** A state from which a useful state can be reached is useful. */
  lemma UsefulBackwards(T: Table, s: State, w: seq<int>)
    requires Run(T, s, w) != null && !Useless(T, Run(T, s, w))
    ensures !Useless(T, s)
  {
    var v := Run(T, s, w);
    var w' :| Run(T, v, w') != null && Run(T, v, w').isAcceptance;
    RunAppend(T, s, w, w');
  }

  /** The table after the reachability pass: everything `init` does not reach
      is deleted. */
  ghost function AfterUnreachable(T: Table, init: State): Table
  {
    Prune(T, T.Keys - ReachSet(T, init))
  }

  /** The states the usefulness pass deletes: those `init` reaches that are
      useless.  States `init` does not reach are not looked at. */
  ghost function UselessSet(T: Table, init: State): set<State>
  {
    set v | v in ReachSet(T, init) && Useless(T, v)
  }

  /** The table after the usefulness pass. */
  ghost function AfterUseless(T: Table, init: State): Table
  {
    Prune(T, UselessSet(T, init))
  }

  /** A run that stays inside a closed set whose rows two tables share is the
      same run in both tables. */
  lemma {:induction false} RunAgrees(T: Table, T': Table, V: set<State>, s: State, w: seq<int>)
    requires Closed(T, V) && s in V
    requires forall u :: u in V && u in T ==> u in T' && T'[u] == T[u]
    requires forall u :: u in V && u in T' ==> u in T
    ensures Run(T', s, w) == Run(T, s, w)
    decreases |w|
  {
    if w != [] && s in T {
      var n := Next(T, s, w[0]);
      if n != null {
        RunAgrees(T, T', V, n, w[1..]);
      }
    }
  }

  /** The reachability pass deletes no edge of a surviving state: the rows it
      keeps are the original rows, and it keeps exactly what `init` reaches. */
  lemma UnreachablePassKeepsRows(T: Table, init: State)
    requires TableClosed(T) && init in T
    ensures AfterUnreachable(T, init).Keys == ReachSet(T, init)
    ensures forall s :: s in AfterUnreachable(T, init) ==> AfterUnreachable(T, init)[s] == T[s]
    ensures TableClosed(AfterUnreachable(T, init))
  {
    var R := ReachSet(T, init);
    var T1 := AfterUnreachable(T, init);
    ReachSetIsLeastClosed(T, init, {});
    forall s | s in T1 ensures T1[s] == T[s] {
      forall k | k in T[s] ensures k in T1[s] {
        assert T[s][k] == null || T[s][k] in R;
      }
    }
  }

  /** After the reachability pass every surviving state can be reached from
      `init` in the new table. */
  lemma {:induction false} UnreachablePassLeavesReachable(T: Table, init: State)
    requires TableClosed(T) && init in T
    ensures init in AfterUnreachable(T, init)
    ensures forall s :: s in AfterUnreachable(T, init) ==> Reachable(AfterUnreachable(T, init), init, s)
  {
    var R := ReachSet(T, init);
    var T1 := AfterUnreachable(T, init);
    UnreachablePassKeepsRows(T, init);
    ReachSetIsLeastClosed(T, init, {});
    forall s | s in T1 ensures Reachable(T1, init, s) {
      var w :| Run(T, init, w) == s;
      RunAgrees(T, T1, R, init, w);
    }
  }

  /** A run that ends in a useful state survives the deletion of useless
      states unchanged. */
  lemma {:induction false} UsefulRunSurvives(T: Table, D: set<State>, s: State, w: seq<int>)
    requires forall v :: v in D ==> Useless(T, v)
    requires Run(T, s, w) != null && !Useless(T, Run(T, s, w))
    ensures Run(Prune(T, D), s, w) == Run(T, s, w)
    decreases |w|
  {
    UsefulBackwards(T, s, w);
    if w != [] {
      var n := Next(T, s, w[0]);
      assert (w[0..1] + w[1..]) == w;
      RunAppend(T, s, w[0..1], w[1..]);
      assert Run(T, s, w[0..1]) == n;
      UsefulRunSurvives(T, D, n, w[1..]);
      UsefulBackwards(T, n, w[1..]);
      assert n !in D;
      assert Next(Prune(T, D), s, w[0]) == n;
    }
  }

  /** After the reachability and usefulness passes, either nothing is left
      (the initial state was useless), or the initial state is left and every
      remaining state can be reached from it and can reach an accepting
      state. */
  lemma TwoPassesLeaveReachableUsefulStates(T: Table, init: State)
    requires TableClosed(T) && init in T
    ensures var T2 := AfterUseless(AfterUnreachable(T, init), init);
      || T2 == map[]
      || (&& init in T2
          && forall s :: s in T2 ==> Reachable(T2, init, s) && !Useless(T2, s))
  {
    var T1 := AfterUnreachable(T, init);
    var U := UselessSet(T1, init);
    var T2 := AfterUseless(T1, init);
    UnreachablePassKeepsRows(T, init);
    UnreachablePassLeavesReachable(T, init);
    forall s | s in T1 ensures s in ReachSet(T1, init) {
    }
    if init in U {
      forall s | s in T1 ensures s in U {
        if !Useless(T1, s) {
          var w :| Run(T1, init, w) == s;
          UsefulBackwards(T1, init, w);
        }
      }
      assert T2.Keys == {};
    } else {
      forall s | s in T2 ensures Reachable(T2, init, s) && !Useless(T2, s) {
        assert !Useless(T1, s);
        var w :| Run(T1, init, w) == s;
        UsefulRunSurvives(T1, U, init, w);
        var w' :| Run(T1, s, w') != null && Run(T1, s, w').isAcceptance;
        ReachableRefl(T1, Run(T1, s, w'));
        assert !Useless(T1, Run(T1, s, w')) by {
          assert Run(T1, Run(T1, s, w'), []) == Run(T1, s, w');
        }
        UsefulRunSurvives(T1, U, s, w');
      }
    }
  }
}
