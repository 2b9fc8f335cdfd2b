/**
 * The automaton's data model: states compared by reference, the transition
 * table keyed by state, and the two structural mutators `NormalizeIds` and
 * `Remove` that every reduction pass relies on.
 */
module AutomatonModel {

  /** A state of the automaton.  Identity is the object reference; `id` is only
      a position that is renumbered after every destructive pass.  The
      acceptance flag is set once, when the loader creates the state. */
  class State {
    var id: int
    const isAcceptance: bool

    constructor (id: int, isAcceptance: bool)
      ensures this.id == id && this.isAcceptance == isAcceptance
    {
      this.id := id;
      this.isAcceptance := isAcceptance;
    }
  }

  /** The transition table: state -> symbol -> successor.  "No transition" is
      either a stored `null` or a missing symbol; `Next` reads both as `null`. */
  type Table = map<State, map<int, State?>>

  /** The successor of `s` on `key`, `null` when there is none. */
  function Next(T: Table, s: State, key: int): (r: State?)
    requires s in T
    ensures r != null ==> r in T[s].Values
    ensures key !in T[s] ==> r == null
  {
    if key in T[s] then T[s][key] else null
  }

  /** No transition leads to a state that has no row: no dangling targets. */
  ghost predicate TableClosed(T: Table)
  {
    forall u, k :: u in T && k in T[u] && T[u][k] != null ==> T[u][k] in T
  }

  /** Every symbol of every row lies in `0 .. range - 1`. */
  ghost predicate SymbolsInRange(T: Table, range: int)
  {
    forall s, k :: s in T && k in T[s] ==> 0 <= k < range
  }

  /** The elements of `xs` that are not in `D`, in their original order. */
  function Drop(xs: seq<State>, D: set<State>): (r: seq<State>)
    ensures |r| <= |xs|
    ensures forall x :: x in r ==> x in xs && x !in D
    ensures forall x :: x in xs && x !in D ==> x in r
  {
    if xs == [] then []
    else if xs[0] in D then Drop(xs[1..], D)
    else [xs[0]] + Drop(xs[1..], D)
  }

  /** A row with every entry that leads into `D` deleted (null entries stay). */
  function RowWithout(row: map<int, State?>, D: set<State>): (r: map<int, State?>)
    ensures r.Keys <= row.Keys && r.Values <= row.Values
    ensures forall k :: k in r ==> r[k] == row[k] && (r[k] == null || r[k] !in D)
    ensures forall k :: k in row && (row[k] == null || row[k] !in D) ==> k in r
  {
    map k | k in row && (row[k] == null || row[k] !in D) :: row[k]
  }

  /** The table after deleting the states of `D`: their rows, and every edge
      that leads into one of them. */
  function Prune(T: Table, D: set<State>): (r: Table)
    ensures r.Keys == T.Keys - D
    ensures forall s :: s in r ==> r[s] == RowWithout(T[s], D)
  {
    map s | s in T && s !in D :: RowWithout(T[s], D)
  }

  /** No reference occurs twice in `xs`. */
  ghost predicate Distinct(xs: seq<State>)
  {
    forall i, j :: 0 <= i < j < |xs| ==> xs[i] != xs[j]
  }

  lemma {:induction false} DropDistinct(xs: seq<State>, D: set<State>)
    requires Distinct(xs)
    ensures Distinct(Drop(xs, D))
  {
    if xs != [] {
      DropDistinct(xs[1..], D);
      assert Distinct(xs[1..]) by {
        forall i, j | 0 <= i < j < |xs[1..]| ensures xs[1..][i] != xs[1..][j] {
          assert xs[1..][i] == xs[i + 1] && xs[1..][j] == xs[j + 1];
        }
      }
    }
  }

  /** Deleting `A` and then `B` is deleting `A + B`, in one go. */
  lemma {:induction false} DropDrop(xs: seq<State>, A: set<State>, B: set<State>)
    ensures Drop(Drop(xs, A), B) == Drop(xs, A + B)
  {
    if xs != [] {
      DropDrop(xs[1..], A, B);
    }
  }

  lemma {:induction false} DropNothing(xs: seq<State>)
    ensures Drop(xs, {}) == xs
  {
    if xs != [] {
      DropNothing(xs[1..]);
    }
  }

  lemma PruneNothing(T: Table)
    ensures Prune(T, {}) == T
  {
    forall s | s in T ensures Prune(T, {})[s] == T[s] {
      assert RowWithout(T[s], {}).Keys == T[s].Keys;
    }
  }

  /** Pruning `A` and then `B` is pruning `A + B`, whatever the order. */
  lemma PrunePrune(T: Table, A: set<State>, B: set<State>)
    ensures Prune(Prune(T, A), B) == Prune(T, A + B)
  {
    var L, R := Prune(Prune(T, A), B), Prune(T, A + B);
    assert L.Keys == R.Keys;
    forall s | s in L ensures L[s] == R[s] {
      var row := T[s];
      assert RowWithout(RowWithout(row, A), B).Keys == RowWithout(row, A + B).Keys;
    }
  }

  /** The automaton.  `states` is the list in id order, `transitions` the table
      with one row per listed state, `initialState` the start state and
      `alphabetRange` the number of symbols `0 .. alphabetRange - 1`. */
  class Automaton {
    var states: seq<State>
    var transitions: Table
    var initialState: State?
    var alphabetRange: int

    constructor ()
      ensures states == [] && transitions == map[] && initialState == null && alphabetRange == 0
    {
      states := [];
      transitions := map[];
      initialState := null;
      alphabetRange := 0;
    }

    /** The listed states, as a set. */
    function StateSet(): (r: set<State>)
      reads this
      ensures forall s :: s in r ==> s in states
      ensures forall s :: s in states ==> s in r
    {
      set s | s in states
    }

    /** The structural invariant: every state listed once, exactly the listed
        states have a row, and every transition leads to a listed state. */
    ghost predicate Valid()
      reads this
    {
      && Distinct(states)
      && transitions.Keys == StateSet()
      && TableClosed(transitions)
      && SymbolsInRange(transitions, alphabetRange)
    }

    /** Ids are dense: the state at position `i` has id `i`. */
    ghost predicate DenseIds()
      reads this, StateSet()
    {
      forall i :: 0 <= i < |states| ==> states[i].id == i
    }

    /** The state at position `id` of the list (`getState`). */
    function GetState(id: int): (r: State)
      reads this
      requires Valid()
      requires 0 <= id < |states|
      ensures r in transitions
      ensures forall i :: 0 <= i < |states| && states[i] == r ==> i == id
    {
      states[id]
    }

    /** The row of `s` (`getTransitionsFor`). */
    function GetTransitionsFor(s: State): (r: map<int, State?>)
      reads this
      requires Valid()
      requires s in transitions
      ensures forall k :: k in r && r[k] != null ==> r[k] in states
    {
      transitions[s]
    }

    /** The successor of `s` on `key` (`getNextState`); a missing key and a
        stored `null` both read as `null`. */
    function GetNextState(s: State, key: int): (r: State?)
      reads this
      requires Valid()
      requires s in transitions
      ensures r != null ==> r in states
      ensures key !in transitions[s] ==> r == null
    {
      Next(transitions, s, key)
    }

    /** Renumbers the listed states so that the state at position `i` has id
        `i`; the list itself and the table are left alone. */
    method NormalizeIds()
      requires Valid()
      modifies StateSet()
      ensures DenseIds() && unchanged(this)
    {
      var i := 0;
      while i < |states|
        invariant 0 <= i <= |states|
        invariant forall j :: 0 <= j < i ==> states[j].id == j
      {
        states[i].id := i;
        i := i + 1;
      }
    }

    /** The symbols whose entry in `row` is `target`; every symbol of the row
        lies in `0 .. range - 1`. */
    static method KeysTargeting(row: map<int, State?>, target: State, range: int) returns (keys: set<int>)
      requires forall k :: k in row ==> 0 <= k < range
      ensures forall k :: k in keys <==> k in row && row[k] == target
    {
      keys := {};
      var key := 0;
      while key < range
        invariant 0 <= key <= if range < 0 then 0 else range
        invariant forall k :: k in keys <==> k in row && k < key && row[k] == target
      {
        if key in row && row[key] == target {
          keys := keys + {key};
        }
        key := key + 1;
      }
    }

    /** Deletes `state`: it leaves the list, its row goes, and every entry of
        another row that leads to it is deleted.  Nothing else changes. */
    method Remove(state: State)
      requires Valid()
      modifies this
      ensures Valid()
      ensures states == Drop(old(states), {state})
      ensures transitions == Prune(old(transitions), {state})
      ensures initialState == old(initialState) && alphabetRange == old(alphabetRange)
    {
      var table := transitions - {state};
      var pending := table.Keys;
      while pending != {}
        invariant pending <= table.Keys == old(transitions).Keys - {state}
        modifies {}
        invariant forall s :: s in table ==>
          table[s] == if s in pending then old(transitions)[s] else RowWithout(old(transitions)[s], {state})
        decreases pending
      {
        var s :| s in pending;
        var row := table[s];
        var keys := KeysTargeting(row, state, alphabetRange);
        assert row - keys == RowWithout(row, {state});
        table := table[s := row - keys];
        pending := pending - {s};
      }
      DropDistinct(states, {state});
      states, transitions := Drop(states, {state}), table;
      assert transitions == Prune(old(transitions), {state});
    }
  }
}
