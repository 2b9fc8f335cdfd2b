/**
 * The file format, at the level of integer tokens: `n k init`, then `n`
 * acceptance flags, then an `n` by `k` matrix of target ids with `-1` for
 * "no transition".  `Parse` and `Render` are the format as functions;
 * `Load` and `Dump` build and read the automaton the way the loader and the
 * dumper do.
 */
module Loader {
  import opened AutomatonModel

  /** Why loading stops: the tokens ran out, the initial id names no state,
      or a matrix cell names no state. */
  datatype LoadError = MissingToken | InitialOutOfRange | TargetOutOfRange

  datatype Result<T> = Ok(value: T) | Err(error: LoadError)

  /** An automaton as the file lists it: ids instead of references. */
  datatype Listing = Listing(alphabetRange: int, initial: int, accepting: seq<bool>, delta: seq<seq<int>>)

  /** How many times a counting loop `for (i = 0; i < x; i++)` runs. */
  function Width(x: int): (r: nat)
    ensures x <= 0 ==> r == 0
    ensures 0 <= x ==> r == x
  {
    if x < 0 then 0 else x
  }

  /** A matrix cell the loader accepts with `n` states: `-1` or an id. */
  predicate ValidTarget(c: int, n: int)
  {
    c == -1 || 0 <= c < n
  }

  /** `xs` in front of a successful result; an error stays as it is. */
  function Prepend<X>(xs: seq<X>, r: Result<seq<X>>): Result<seq<X>>
  {
    match r
    case Ok(ys) => Ok(xs + ys)
    case Err(e) => Err(e)
  }

  lemma PrependNothing<X>(r: Result<seq<X>>)
    ensures Prepend([], r) == r
  {
    if r.Ok? {
      assert [] + r.value == r.value;
    }
  }

  lemma PrependPrepend<X>(xs: seq<X>, ys: seq<X>, r: Result<seq<X>>)
    ensures Prepend(xs, Prepend(ys, r)) == Prepend(xs + ys, r)
  {
    if r.Ok? {
      assert xs + (ys + r.value) == xs + ys + r.value;
    }
  }

  /** Reads `count` matrix cells, one token each; the first missing token or
      the first cell that names no state stops it. */
  function ParseCells(t: seq<int>, n: int, count: nat): (r: Result<seq<int>>)
    ensures r.Ok? ==> count <= |t| && r.value == t[..count]
    ensures r.Ok? ==> forall p :: 0 <= p < count ==> ValidTarget(t[p], n)
    ensures r != Err(InitialOutOfRange)
    decreases count
  {
    if count == 0 then Ok([])
    else if t == [] then Err(MissingToken)
    else if !ValidTarget(t[0], n) then Err(TargetOutOfRange)
    else Prepend([t[0]], ParseCells(t[1..], n, count - 1))
  }

  /** Which way reading cells ends: it succeeds exactly when `count` tokens
      are there and all are valid, and it reports a bad target exactly when
      one comes before the tokens run out. */
  lemma {:induction false} ParseCellsOutcome(t: seq<int>, n: int, count: nat)
    ensures ParseCells(t, n, count).Ok? <==> count <= |t| && forall p :: 0 <= p < count ==> ValidTarget(t[p], n)
    ensures ParseCells(t, n, count) == Err(TargetOutOfRange) <==>
      exists p :: 0 <= p < count && p < |t| && !ValidTarget(t[p], n)
    decreases count
  {
    if count != 0 && t != [] && ValidTarget(t[0], n) {
      ParseCellsOutcome(t[1..], n, count - 1);
      if exists p :: 0 <= p < count && p < |t| && !ValidTarget(t[p], n) {
        var p :| 0 <= p < count && p < |t| && !ValidTarget(t[p], n);
        assert t[1..][p - 1] == t[p];
      }
      if count <= |t| && forall p :: 0 <= p < count ==> ValidTarget(t[p], n) {
        assert forall p :: 0 <= p < count - 1 ==> t[1..][p] == t[p + 1];
      }
    }
  }

  /** Reads `rows` rows of `width` cells each. */
  function ParseRows(t: seq<int>, n: int, rows: nat, width: nat): (r: Result<seq<seq<int>>>)
    ensures r.Ok? ==> |r.value| == rows
    ensures r.Ok? ==> forall i :: 0 <= i < rows ==>
      |r.value[i]| == width && forall j :: 0 <= j < width ==> ValidTarget(r.value[i][j], n)
    ensures r != Err(InitialOutOfRange)
    decreases rows
  {
    if rows == 0 then Ok([])
    else match ParseCells(t, n, width)
      case Err(e) => Err(e)
      case Ok(row) => Prepend([row], ParseRows(t[width..], n, rows - 1, width))
  }

  /** Which way reading the matrix ends: it succeeds exactly when
      `rows * width` tokens are there and all are valid cells, and it
      reports a bad target exactly when one comes before the tokens run
      out; otherwise the tokens ran out. */
  lemma ParseRowsOutcome(t: seq<int>, n: int, rows: nat, width: nat)
    ensures ParseRows(t, n, rows, width).Ok? <==>
      rows * width <= |t| && forall p :: 0 <= p < rows * width ==> ValidTarget(t[p], n)
    ensures ParseRows(t, n, rows, width) == Err(TargetOutOfRange) <==>
      exists p :: 0 <= p < rows * width && p < |t| && !ValidTarget(t[p], n)
  {
    SpanIsProduct(rows, width);
    ParseRowsOk(t, n, rows, width);
    ParseRowsBadTarget(t, n, rows, width);
  }

  /** The number of cells in `rows` rows of `width` cells, counted row by row. */
  function Span(rows: nat, width: nat): (r: nat)
  {
    if rows == 0 then 0 else width + Span(rows - 1, width)
  }

  lemma {:induction false} SpanIsProduct(rows: nat, width: nat)
    ensures Span(rows, width) == rows * width
  {
    if rows != 0 {
      SpanIsProduct(rows - 1, width);
      assert rows * width == width + (rows - 1) * width;
    }
  }

  lemma {:induction false} ParseRowsOk(t: seq<int>, n: int, rows: nat, width: nat)
    ensures ParseRows(t, n, rows, width).Ok? <==>
      Span(rows, width) <= |t| && forall p :: 0 <= p < Span(rows, width) ==> ValidTarget(t[p], n)
    decreases rows
  {
    if rows != 0 {
      ParseCellsOutcome(t, n, width);
      if ParseCells(t, n, width).Ok? {
        ParseRowsOk(t[width..], n, rows - 1, width);
        RowsShift(t, n, width, Span(rows - 1, width));
      }
    }
  }

  lemma {:induction false} ParseRowsBadTarget(t: seq<int>, n: int, rows: nat, width: nat)
    ensures ParseRows(t, n, rows, width) == Err(TargetOutOfRange) <==>
      exists p :: 0 <= p < Span(rows, width) && p < |t| && !ValidTarget(t[p], n)
    decreases rows
  {
    if rows != 0 {
      ParseCellsOutcome(t, n, width);
      var c := ParseCells(t, n, width);
      if c.Ok? {
        ParseRowsBadTarget(t[width..], n, rows - 1, width);
        RowsShift(t, n, width, Span(rows - 1, width));
      } else if c == Err(TargetOutOfRange) {
        var p :| 0 <= p < width && p < |t| && !ValidTarget(t[p], n);
        assert p < Span(rows, width);
      }
    }
  }

  /** The tokens after the first `width` valid ones are valid cells (or hold
      a bad one) exactly when the tokens themselves are, shifted by `width`. */
  lemma RowsShift(t: seq<int>, n: int, width: nat, more: nat)
    requires width <= |t| && forall p :: 0 <= p < width ==> ValidTarget(t[p], n)
    ensures (more <= |t[width..]| && forall p :: 0 <= p < more ==> ValidTarget(t[width..][p], n)) <==>
      (width + more <= |t| && forall p :: 0 <= p < width + more ==> ValidTarget(t[p], n))
    ensures (exists p :: 0 <= p < more && p < |t[width..]| && !ValidTarget(t[width..][p], n)) <==>
      (exists p :: 0 <= p < width + more && p < |t| && !ValidTarget(t[p], n))
  {
  }

  /** Which way loading ends, in terms of the tokens: the header and the
      flags must be there and the initial id must name a state (else the
      error is `MissingToken` or `InitialOutOfRange`); then loading succeeds
      exactly when the whole matrix is there and every cell is `-1` or an
      id, and fails with `TargetOutOfRange` exactly when a bad cell comes
      before the tokens run out. */
  lemma ParseOutcome(t: seq<int>)
    ensures Parse(t).Ok? <==>
      3 <= |t| && 0 <= t[2] < t[0] &&
      var N, K := Width(t[0]), Width(t[1]);
      3 + N + N * K <= |t| && forall p :: 3 + N <= p < 3 + N + N * K ==> ValidTarget(t[p], N)
    ensures Parse(t) == Err(TargetOutOfRange) <==>
      3 <= |t| && 3 + Width(t[0]) <= |t| && 0 <= t[2] < t[0] &&
      var N, K := Width(t[0]), Width(t[1]);
      exists p :: 3 + N <= p < 3 + N + N * K && p < |t| && !ValidTarget(t[p], N)
  {
    if 3 <= |t| && 3 + Width(t[0]) <= |t| && 0 <= t[2] < t[0] {
      var N, K := Width(t[0]), Width(t[1]);
      var m := t[3 + N..];
      ParseRowsOutcome(m, N, N, K);
      assert forall p :: 0 <= p < |m| ==> m[p] == t[3 + N + p];
      if 3 + N + N * K <= |t| && forall p :: 3 + N <= p < 3 + N + N * K ==> ValidTarget(t[p], N) {
        forall p | 0 <= p < N * K && p < |m| ensures ValidTarget(m[p], N) {
          assert m[p] == t[3 + N + p];
        }
      }
      if exists p :: 3 + N <= p < 3 + N + N * K && p < |t| && !ValidTarget(t[p], N) {
        var p :| 3 + N <= p < 3 + N + N * K && p < |t| && !ValidTarget(t[p], N);
        assert !ValidTarget(m[p - (3 + N)], N);
      }
    }
  }

  /** The acceptance flags as the loader reads them: only `1` is accepting. */
  function Flags(t: seq<int>): (r: seq<bool>)
    ensures |r| == |t| && forall i :: 0 <= i < |t| ==> (r[i] <==> t[i] == 1)
  {
    seq(|t|, i requires 0 <= i < |t| => t[i] == 1)
  }

  /** The acceptance flags as the dumper writes them. */
  function FlagTokens(acc: seq<bool>): (r: seq<int>)
    ensures |r| == |acc| && forall i :: 0 <= i < |acc| ==> r[i] == if acc[i] then 1 else 0
  {
    seq(|acc|, i requires 0 <= i < |acc| => if acc[i] then 1 else 0)
  }

  /** A listing the loader accepts and the dumper writes in full: the initial
      id names a state, one row per state, `k` cells per row, every cell `-1`
      or an id. */
  ghost predicate WellFormed(d: Listing)
  {
    && 0 <= d.initial < |d.accepting|
    && |d.delta| == |d.accepting|
    && forall i :: 0 <= i < |d.delta| ==>
         |d.delta[i]| == Width(d.alphabetRange)
         && forall j :: 0 <= j < |d.delta[i]| ==> ValidTarget(d.delta[i][j], |d.accepting|)
  }

  /** The loader as a function of the token stream.  Tokens after the matrix
      are never read. */
  function Parse(t: seq<int>): (r: Result<Listing>)
    ensures r.Ok? ==> 3 <= |t| && WellFormed(r.value) && |r.value.accepting| == t[0] && r.value.alphabetRange == t[1]
    ensures r == Err(InitialOutOfRange) <==>
      3 <= |t| && 3 + Width(t[0]) <= |t| && !(0 <= t[2] < t[0])
  {
    if |t| < 3 then Err(MissingToken)
    else
      var n, k, init := t[0], t[1], t[2];
      var count := Width(n);
      if |t| < 3 + count then Err(MissingToken)
      else if !(0 <= init < count) then Err(InitialOutOfRange)
      else match ParseRows(t[3 + count..], count, count, Width(k))
        case Err(e) => Err(e)
        case Ok(delta) => Ok(Listing(k, init, Flags(t[3..3 + count]), delta))
  }

  /** The rows one after the other. */
  function Flatten(rows: seq<seq<int>>): (r: seq<int>)
    decreases |rows|
  {
    if rows == [] then [] else rows[0] + Flatten(rows[1..])
  }

  lemma {:induction false} FlattenSnoc(rows: seq<seq<int>>, row: seq<int>)
    ensures Flatten(rows + [row]) == Flatten(rows) + row
    decreases |rows|
  {
    if rows == [] {
      assert [row][1..] == [];
    } else {
      assert (rows + [row])[1..] == rows[1..] + [row];
      FlattenSnoc(rows[1..], row);
    }
  }

  /** The dumper as a function of the listing. */
  function Render(d: Listing): (r: seq<int>)
    ensures |r| >= 3 + |d.accepting|
    ensures r[..3] == [|d.accepting|, d.alphabetRange, d.initial]
    ensures r[3..3 + |d.accepting|] == FlagTokens(d.accepting)
  {
    [|d.accepting|, d.alphabetRange, d.initial] + FlagTokens(d.accepting) + Flatten(d.delta)
  }

  /** Reading back what the dumper wrote for rows of `width` valid cells
      gives the rows. */
  lemma {:induction false} ParseFlatten(rows: seq<seq<int>>, n: int, width: nat)
    requires forall i :: 0 <= i < |rows| ==>
      |rows[i]| == width && forall j :: 0 <= j < width ==> ValidTarget(rows[i][j], n)
    ensures ParseRows(Flatten(rows), n, |rows|, width) == Ok(rows)
    decreases |rows|
  {
    if rows != [] {
      var t := Flatten(rows);
      ParseCellsOutcome(t, n, width);
      assert t[..width] == rows[0] && t[width..] == Flatten(rows[1..]);
      ParseFlatten(rows[1..], n, width);
      assert [rows[0]] + rows[1..] == rows;
    }
  }

  /** Whatever rows the loader reads, written back, are the tokens it read. */
  lemma {:induction false} FlattenParsed(t: seq<int>, n: int, rows: nat, width: nat)
    requires ParseRows(t, n, rows, width).Ok?
    ensures Flatten(ParseRows(t, n, rows, width).value) <= t
    decreases rows
  {
    if rows != 0 {
      var rest := ParseRows(t[width..], n, rows - 1, width).value;
      FlattenParsed(t[width..], n, rows - 1, width);
      var all := ParseRows(t, n, rows, width).value;
      assert all == [t[..width]] + rest;
      assert Flatten(all) == t[..width] + Flatten(rest) by {
        assert all[0] == t[..width] && all[1..] == rest;
      }
      PrefixAfter(t[..width], Flatten(rest), t[width..]);
      assert t[..width] + t[width..] == t;
    }
  }

  /** A common front keeps one sequence a prefix of another. */
  lemma PrefixAfter(x: seq<int>, y: seq<int>, z: seq<int>)
    requires y <= z
    ensures x + y <= x + z
  {
  }

  /** Dumping a well-formed listing and loading the result gives the listing
      back. */
  lemma LoadAfterDump(d: Listing)
    requires WellFormed(d)
    ensures Parse(Render(d)) == Ok(d)
  {
    var t := Render(d);
    var n := |d.accepting|;
    assert t[3 + n..] == Flatten(d.delta);
    ParseFlatten(d.delta, n, Width(d.alphabetRange));
    assert Flags(t[3..3 + n]) == d.accepting;
  }

  /** Loading tokens whose flags are all `0` or `1` and dumping the result
      writes the tokens the loader read, which are all of them when nothing
      follows the matrix. */
  lemma DumpAfterLoad(t: seq<int>)
    requires Parse(t).Ok?
    requires forall i :: 3 <= i < 3 + t[0] ==> t[i] == 0 || t[i] == 1
    ensures Render(Parse(t).value) <= t
  {
    var d := Parse(t).value;
    var n := t[0];
    var head, rest := t[..3 + n], t[3 + n..];
    assert d.delta == ParseRows(rest, n, n, Width(t[1])).value;
    FlattenParsed(rest, n, n, Width(t[1]));
    LoadedHeader(t);
    PrefixAfter(head, Flatten(d.delta), rest);
    assert head + rest == t;
  }

  /** What the dumper writes before the matrix, for a listing the loader
      read from tokens with 0/1 flags, is what the loader read there. */
  lemma LoadedHeader(t: seq<int>)
    requires Parse(t).Ok?
    requires forall i :: 3 <= i < 3 + t[0] ==> t[i] == 0 || t[i] == 1
    ensures Render(Parse(t).value) == t[..3 + t[0]] + Flatten(Parse(t).value.delta)
  {
  }

  /** The id the dumper writes for a matrix cell. */
  function CellId(c: State?): (r: int)
    reads c
    ensures c == null ==> r == -1
  {
    if c == null then -1 else c.id
  }

  /** The cells the dumper writes for the row of `s`. */
  function RowIds(T: Table, s: State, width: nat): (r: seq<int>)
    reads T.Keys
    requires TableClosed(T) && s in T
    ensures |r| == width
    ensures forall j :: 0 <= j < width ==> r[j] == CellId(Next(T, s, j))
  {
    seq(width, j requires 0 <= j < width reads T.Keys => CellId(Next(T, s, j)))
  }

  /** The rows the dumper writes for the states of `S`, in list order. */
  function RowsOf(T: Table, S: seq<State>, width: nat): (r: seq<seq<int>>)
    reads T.Keys
    requires TableClosed(T) && forall s :: s in S ==> s in T
    ensures |r| == |S| && forall i :: 0 <= i < |S| ==> r[i] == RowIds(T, S[i], width)
  {
    seq(|S|, i requires 0 <= i < |S| && S[i] in T && TableClosed(T) reads T.Keys => RowIds(T, S[i], width))
  }

  /** The acceptance flags of the states of `S`, in list order. */
  function FlagsOf(S: seq<State>): (r: seq<bool>)
    ensures |r| == |S| && forall i :: 0 <= i < |S| ==> r[i] == S[i].isAcceptance
  {
    seq(|S|, i requires 0 <= i < |S| => S[i].isAcceptance)
  }

  /** The automaton as the dumper lists it. */
  function ListingOf(a: Automaton): (d: Listing)
    reads a, a.StateSet(), a.initialState
    requires a.Valid() && a.initialState != null
    ensures d.alphabetRange == a.alphabetRange && d.initial == a.initialState.id
    ensures d.accepting == FlagsOf(a.states)
    ensures d.delta == RowsOf(a.transitions, a.states, Width(a.alphabetRange))
  {
    Listing(a.alphabetRange, a.initialState.id, FlagsOf(a.states),
            RowsOf(a.transitions, a.states, Width(a.alphabetRange)))
  }

  /** An automaton with dense ids whose initial state is still listed dumps
      to a well-formed listing, which the loader reads back unchanged. */
  lemma DumpIsLoadable(a: Automaton)
    requires a.Valid() && a.DenseIds() && a.initialState != null && a.initialState in a.transitions
    ensures WellFormed(ListingOf(a))
    ensures Parse(Render(ListingOf(a))) == Ok(ListingOf(a))
  {
    var d := ListingOf(a);
    var S, T, W := a.states, a.transitions, Width(a.alphabetRange);
    forall s | s in T ensures 0 <= s.id < |S| && S[s.id] == s {
      var i :| 0 <= i < |S| && S[i] == s;
    }
    forall i, j | 0 <= i < |S| && 0 <= j < W ensures ValidTarget(d.delta[i][j], |S|) {
      var c := Next(T, S[i], j);
      assert c == null || c in T;
    }
    LoadAfterDump(d);
  }

  /** The cells of the row of `s`, as the dumper writes them. */
  method DumpRow(a: Automaton, s: State) returns (cells: seq<int>)
    requires a.Valid() && s in a.transitions
    ensures cells == RowIds(a.transitions, s, Width(a.alphabetRange))
  {
    var transitions := a.GetTransitionsFor(s);
    cells := [];
    var j := 0;
    while j < a.alphabetRange
      invariant 0 <= j <= Width(a.alphabetRange) && |cells| == j
      invariant forall k :: 0 <= k < j ==> cells[k] == CellId(Next(a.transitions, s, k))
    {
      var nextState := if j in transitions then transitions[j] else null;
      cells := cells + [if nextState != null then nextState.id else -1];
      j := j + 1;
    }
  }

  /** The flag line, as the dumper writes it. */
  method DumpFlags(a: Automaton) returns (flags: seq<int>)
    requires a.Valid()
    ensures flags == FlagTokens(FlagsOf(a.states))
  {
    flags := [];
    var i := 0;
    while i < |a.states|
      invariant 0 <= i <= |a.states| && |flags| == i
      invariant forall j :: 0 <= j < i ==> flags[j] == if a.states[j].isAcceptance then 1 else 0
    {
      flags := flags + [if a.GetState(i).isAcceptance then 1 else 0];
      i := i + 1;
    }
  }

  /** The transition matrix, as the dumper writes it. */
  method DumpMatrix(a: Automaton) returns (cells: seq<int>)
    requires a.Valid()
    ensures cells == Flatten(RowsOf(a.transitions, a.states, Width(a.alphabetRange)))
  {
    ghost var rows := RowsOf(a.transitions, a.states, Width(a.alphabetRange));
    cells := [];
    var i := 0;
    while i < |a.states|
      invariant 0 <= i <= |a.states|
      invariant cells == Flatten(rows[..i])
    {
      var row := DumpRow(a, a.GetState(i));
      FlattenSnoc(rows[..i], row);
      assert rows[..i + 1] == rows[..i] + [row];
      cells := cells + row;
      i := i + 1;
    }
    assert rows[..i] == rows;
  }

  /** Writes the automaton (`dumpIntoFile`): the header with the id of the
      initial state, the flags in list order, then one row per listed state
      with the id of each target and `-1` for no transition. */
  method Dump(a: Automaton) returns (out: seq<int>)
    requires a.Valid() && a.initialState != null
    ensures out == Render(ListingOf(a))
  {
    var flags := DumpFlags(a);
    var matrix := DumpMatrix(a);
    out := [|a.states|, a.alphabetRange, a.initialState.id] + flags + matrix;
  }

  /** The state a matrix cell names: `null` for `-1`, else the state at that
      position. */
  function Target(S: seq<State>, c: int): (r: State?)
    requires ValidTarget(c, |S|)
    ensures r == null <==> c == -1
    ensures r != null ==> r in S
  {
    if c == -1 then null else S[c]
  }

  /** The row the loader builds from a line of valid cells. */
  ghost function RowFor(S: seq<State>, cells: seq<int>): (row: map<int, State?>)
    requires forall k :: 0 <= k < |cells| ==> ValidTarget(cells[k], |S|)
    ensures forall k :: k in row <==> 0 <= k < |cells|
  {
    map k | 0 <= k < |cells| :: Target(S, cells[k])
  }

  lemma RowForSnoc(S: seq<State>, cells: seq<int>, c: int)
    requires forall k :: 0 <= k < |cells| ==> ValidTarget(cells[k], |S|)
    requires ValidTarget(c, |S|)
    ensures RowFor(S, cells + [c]) == RowFor(S, cells)[|cells| := Target(S, c)]
  {
  }

  /** Reads one row of the matrix from position `pos` (the inner loop of
      `loadFromFile`): `alphabetRange` cells, each `-1` or the position of a
      state of `S`. */
  method ReadRow(t: seq<int>, pos: nat, S: seq<State>, alphabetRange: int)
    returns (r: Result<map<int, State?>>, pos': nat)
    requires pos <= |t|
    ensures ParseCells(t[pos..], |S|, Width(alphabetRange)).Err? ==>
      r == Err(ParseCells(t[pos..], |S|, Width(alphabetRange)).error)
    ensures ParseCells(t[pos..], |S|, Width(alphabetRange)).Ok? ==>
      && pos' == pos + Width(alphabetRange) <= |t|
      && r == Ok(RowFor(S, t[pos..pos']))
  {
    var row: map<int, State?> := map[];
    ghost var W := Width(alphabetRange);
    PrependNothing(ParseCells(t[pos..], |S|, W));
    pos' := pos;
    ghost var cells: seq<int> := [];
    var symbol := 0;
    while symbol < alphabetRange
      invariant 0 <= symbol <= W && pos' == pos + symbol <= |t|
      invariant cells == t[pos..pos']
      invariant ParseCells(t[pos..], |S|, W) == Prepend(cells, ParseCells(t[pos'..], |S|, W - symbol))
      invariant forall k :: 0 <= k < |cells| ==> ValidTarget(cells[k], |S|)
      invariant row == RowFor(S, cells)
    {
      if pos' >= |t| {
        return Err(MissingToken), pos';
      }
      var nextStateId := t[pos'];
      if nextStateId != -1 && !(0 <= nextStateId < |S|) {
        return Err(TargetOutOfRange), pos';
      }
      var nextState := if nextStateId == -1 then null else S[nextStateId];
      RowForSnoc(S, cells, nextStateId);
      row := row[symbol := nextState];
      PrependPrepend(cells, [nextStateId], ParseCells(t[pos' + 1..], |S|, W - symbol - 1));
      assert t[pos'..][1..] == t[pos' + 1..];
      cells := cells + [nextStateId];
      pos' := pos' + 1;
      symbol := symbol + 1;
    }
    PrependNothing<int>(Ok([]));
    r := Ok(row);
  }

  /** An automaton laid out as the loader lays it out (states in id order,
      one row per state built from valid cells, `k` symbols a row) is
      valid. */
  lemma LoadedValid(a: Automaton, rows: seq<seq<int>>)
    requires Distinct(a.states) && |rows| == |a.states|
    requires forall s :: s in a.transitions <==> s in a.states
    requires forall i :: 0 <= i < |a.states| ==>
      && |rows[i]| == Width(a.alphabetRange)
      && (forall k :: 0 <= k < |rows[i]| ==> ValidTarget(rows[i][k], |a.states|))
      && a.transitions[a.states[i]] == RowFor(a.states, rows[i])
    ensures a.Valid()
    ensures forall s, k :: s in a.transitions ==> (k in a.transitions[s] <==> 0 <= k < a.alphabetRange)
  {
  }

  /** The dumper lists such an automaton, ids dense, as the listing it was
      built from. */
  lemma LoadedListing(a: Automaton, d: Listing)
    requires a.Valid() && a.initialState != null
    requires forall j :: 0 <= j < |a.states| ==> a.states[j].id == j
    requires d.alphabetRange == a.alphabetRange
    requires 0 <= d.initial < |a.states| && a.initialState == a.states[d.initial]
    requires d.accepting == FlagsOf(a.states) && |d.delta| == |a.states|
    requires forall i :: 0 <= i < |a.states| ==>
      && |d.delta[i]| == Width(a.alphabetRange)
      && (forall k :: 0 <= k < |d.delta[i]| ==> ValidTarget(d.delta[i][k], |a.states|))
      && a.transitions[a.states[i]] == RowFor(a.states, d.delta[i])
    ensures ListingOf(a) == d
  {
    var S, T, W := a.states, a.transitions, Width(a.alphabetRange);
    var rows := RowsOf(T, S, W);
    forall i | 0 <= i < |S| ensures rows[i] == d.delta[i] {
      forall j | 0 <= j < W ensures rows[i][j] == d.delta[i][j] {
        assert Next(T, S[i], j) == Target(S, d.delta[i][j]);
      }
    }
  }

  /** The flag loop of `loadFromFile`: one fresh state per flag, with id
      `i` and accepting exactly when the flag is `1`; it fails when the
      tokens run out. */
  method LoadStates(a: Automaton, t: seq<int>, statesCount: int) returns (status: Result<()>)
    requires a.states == [] && 3 <= |t|
    modifies a
    ensures a.transitions == old(a.transitions) && a.initialState == old(a.initialState)
    ensures a.alphabetRange == old(a.alphabetRange)
    ensures status.Ok? <==> 3 + Width(statesCount) <= |t|
    ensures status.Err? ==> status.error == MissingToken
    ensures status.Ok? ==>
      && |a.states| == Width(statesCount) && Distinct(a.states)
      && (forall j :: 0 <= j < |a.states| ==> fresh(a.states[j]) && a.states[j].id == j)
      && FlagsOf(a.states) == Flags(t[3..3 + Width(statesCount)])
  {
    var pos := 3;
    var i := 0;
    while i < statesCount
      invariant 0 <= i <= Width(statesCount) && pos == 3 + i <= |t|
      invariant |a.states| == i && Distinct(a.states)
      invariant forall j :: 0 <= j < i ==>
        fresh(a.states[j]) && a.states[j].id == j && (a.states[j].isAcceptance <==> t[3 + j] == 1)
      invariant a.transitions == old(a.transitions) && a.initialState == old(a.initialState)
      invariant a.alphabetRange == old(a.alphabetRange)
    {
      if pos >= |t| {
        return Err(MissingToken);
      }
      var state := new State(i, t[pos] == 1);
      a.states := a.states + [state];
      pos := pos + 1;
      i := i + 1;
    }
    status := Ok(());
  }

  /** The matrix loop of `loadFromFile`, from position `start`: one row per
      listed state, in list order; it stops at the first bad or missing
      cell with the error `ParseRows` reports. */
  method LoadMatrix(a: Automaton, t: seq<int>, start: nat) returns (status: Result<()>)
    requires start <= |t| && Distinct(a.states) && a.transitions == map[]
    modifies a
    ensures a.states == old(a.states) && a.initialState == old(a.initialState)
    ensures a.alphabetRange == old(a.alphabetRange)
    ensures var parsed := ParseRows(t[start..], |a.states|, |a.states|, Width(a.alphabetRange));
      && (parsed.Err? ==> status == Err(parsed.error))
      && (parsed.Ok? ==>
            && status.Ok?
            && (forall s :: s in a.transitions <==> s in a.states)
            && forall i :: 0 <= i < |a.states| ==> a.transitions[a.states[i]] == RowFor(a.states, parsed.value[i]))
  {
    ghost var S, n, W := a.states, |a.states|, Width(a.alphabetRange);
    var pos := start;
    ghost var done: seq<seq<int>> := [];
    PrependNothing(ParseRows(t[pos..], n, n, W));
    var i := 0;
    while i < |a.states|
      invariant 0 <= i <= n && start <= pos <= |t|
      invariant a.states == S && a.initialState == old(a.initialState) && a.alphabetRange == old(a.alphabetRange)
      invariant |done| == i
      invariant ParseRows(t[start..], n, n, W) == Prepend(done, ParseRows(t[pos..], n, n - i, W))
      invariant forall j :: 0 <= j < n ==> (S[j] in a.transitions <==> j < i)
      invariant forall s :: s in a.transitions ==> s in S
      invariant Built(a.transitions, S, done)
    {
      var row, next := ReadRow(t, pos, a.states, a.alphabetRange);
      if row.Err? {
        return Err(row.error);
      }
      ParseRowsStep(t, pos, next, n, n - i, W, done);
      BuiltStep(a.transitions, S, done, t[pos..next]);
      a.transitions := a.transitions[a.states[i] := row.value];
      forall j | 0 <= j < n ensures S[j] in a.transitions <==> j < i + 1 {
        if j != i {
          assert S[j] != S[i];
        }
      }
      done := done + [t[pos..next]];
      pos := next;
      i := i + 1;
    }
    PrependNothing<seq<int>>(Ok([]));
    assert done + [] == done;
    status := Ok(());
  }

  /** The rows built so far: the state at position `j` has the row read
      from the `j`-th list of cells, and every cell read is `-1` or an id. */
  ghost predicate Built(T: Table, S: seq<State>, done: seq<seq<int>>)
  {
    forall j :: 0 <= j < |done| ==>
      && j < |S|
      && (forall k :: 0 <= k < |done[j]| ==> ValidTarget(done[j][k], |S|))
      && S[j] in T && T[S[j]] == RowFor(S, done[j])
  }

  /** Giving the next state its row extends what is built. */
  lemma BuiltStep(T: Table, S: seq<State>, done: seq<seq<int>>, cells: seq<int>)
    requires Distinct(S) && |done| < |S| && Built(T, S, done)
    requires forall k :: 0 <= k < |cells| ==> ValidTarget(cells[k], |S|)
    ensures Built(T[S[|done|] := RowFor(S, cells)], S, done + [cells])
  {
  }

  /** Reading one more row of the matrix moves it from what is left to read
      onto the rows read so far. */
  lemma ParseRowsStep(t: seq<int>, pos: nat, next: nat, n: int, left: nat, W: nat, done: seq<seq<int>>)
    requires pos <= |t| && 0 < left
    requires ParseCells(t[pos..], n, W).Ok? && next == pos + W <= |t|
    ensures forall k :: 0 <= k < |t[pos..next]| ==> ValidTarget(t[pos..next][k], n)
    ensures Prepend(done, ParseRows(t[pos..], n, left, W))
         == Prepend(done + [t[pos..next]], ParseRows(t[next..], n, left - 1, W))
  {
    assert forall k :: 0 <= k < W ==> t[pos..next][k] == t[pos..][k];
    assert t[pos..][W..] == t[next..] && t[pos..][..W] == t[pos..next];
    PrependPrepend(done, [t[pos..next]], ParseRows(t[next..], n, left - 1, W));
  }

  /** Builds the automaton from the tokens (`loadFromFile`), reading them in
      order: the header, one fresh state per flag, then the matrix row by
      row.  It fails exactly where the tokens run out or an id names no
      state, with the error `Parse` reports. */
  method Load(t: seq<int>) returns (r: Result<Automaton>)
    ensures Parse(t).Err? ==> r == Err(Parse(t).error)
    ensures Parse(t).Ok? ==>
      && r.Ok? && fresh(r.value)
      && r.value.Valid() && r.value.DenseIds()
      && r.value.initialState != null && r.value.initialState in r.value.transitions
      && (forall s, k :: s in r.value.transitions ==> (k in r.value.transitions[s] <==> 0 <= k < r.value.alphabetRange))
      && ListingOf(r.value) == Parse(t).value
  {
    if |t| < 3 {
      return Err(MissingToken);
    }
    var statesCount, alphabetRange, initialState := t[0], t[1], t[2];
    var a := new Automaton();
    a.alphabetRange := alphabetRange;
    var status := LoadStates(a, t, statesCount);
    if status.Err? {
      assert Parse(t) == Err(MissingToken);
      return Err(status.error);
    }
    if !(0 <= initialState < |a.states|) {
      assert Parse(t) == Err(InitialOutOfRange);
      return Err(InitialOutOfRange);
    }
    a.initialState := a.states[initialState];
    var n := |a.states|;
    ghost var parsed := ParseRows(t[3 + n..], n, n, Width(alphabetRange));
    status := LoadMatrix(a, t, 3 + n);
    if status.Err? {
      assert Parse(t) == Err(parsed.error);
      return Err(status.error);
    }
    ghost var d := Listing(alphabetRange, initialState, Flags(t[3..3 + n]), parsed.value);
    assert Parse(t) == Ok(d);
    LoadedValid(a, d.delta);
    LoadedListing(a, d);
    r := Ok(a);
  }
}
