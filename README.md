# DFA reducer (`minimiza`) — a Dafny model

`minimiza` reads a deterministic finite automaton from a transition table,
reduces it, and writes it back in the same format. The reduction is three
destructive passes in a fixed order:

1. it deletes the states the initial state does not reach;
2. it deletes the reached states from which no accepting state can be reached;
3. it folds states that pass a pairwise equivalence test into a later state.

Every pass first marks states, then deletes them in a batch with
`Automaton.remove`, and then renumbers the ids with `normalizeIds`.

This project models that core in Dafny and proves what each step does:

- **`AutomatonModel`** (`Automaton.dfy`) is the data model.
  - States are objects compared by reference.
  - The automaton is a class with the state list, the transition table `state -> symbol -> state-or-null`, the initial state and the alphabet size.
  - It has two mutators:
    - `NormalizeIds` makes the ids dense.
    - `Remove` deletes a state, its row and every entry that leads to it.
  - `Remove` is proved equal to the table function `Prune` and the list function `Drop`.
- **`Reachability`** (`Reachability.dfy`) defines runs of words, reachability and usefulness over the table. It states what the first two passes compute as ghost functions (`AfterUnreachable`, `AfterUseless`) and proves that:
  - after both passes, every remaining state is reachable from the initial state and useful;
  - or else nothing is left.
- **`Equivalence`** (`Equivalence.dfy`) is the pairwise test as a pair of mutually recursive functions. It proves two things about the test:
  - it never rejects states related by a bisimulation;
  - it is *not* language equivalence: a concrete pair of states with different languages passes it.
- **`Reducer`** (`Reducer.dfy`) holds the passes as methods. Each method is tied to the functions above by its postcondition:
  - depth-first visits;
  - the usefulness walk;
  - the equivalence test;
  - the pair loop, which maps each state to its *last* partner;
  - the rewrite and removal loops;
  - `ReduceAutomaton`, whose postcondition composes the three passes: the list and rows after the first two are the specification functions' results, and the merge pass then folds away exactly the states of that list with a later partner. Each entry that led to a folded state is deleted or leads to the end of that state's fold chain (the state, its last partner, that partner's last partner, and so on).
- **`Loader`** (`Loader.dfy`) is the file format over a sequence of integer tokens.
  - `Parse` and `Render` are the format as functions, with round trips proved in both directions.
  - `Load` and `Dump` build and read the automaton the way the loader and the dumper do, and are proved equal to `Parse` and `Render`.

The comment on `mergeEquivalentStates` (minimiza.java:155-159) says that
two states passing the test are equivalent and can be merged as one state,
so the reduction would keep the language. The code does not do this, and
the model follows the code.
`Equivalence.SkippedSymbolHidesDifference` exhibits the gap in the test.
An accepting state that loops on symbol 0, and an accepting state without
transitions, pass the test:

- the loop's successor is already in the visited set;
- so symbol 0 is skipped.

Yet only the first state accepts the word `[0]`.

`Reducer.ReductionLosesWord` carries this through the whole reduction.
Take the list `[r, p, q]` over two symbols, with `r` initial:

- `r` is not accepting, and goes to `p` on 0 and to `q` on 1;
- `p` is accepting and loops on 0;
- `q` is accepting and has no transitions.

Here the lemma proves that:

- the first two passes keep every state and every row;
- the test passes `p` with `q` and no other pair, so the merge pass leaves `[r, q]`;
- `r` accepts `[0, 0]` before the reduction;
- in every table the reduction may leave, `r` does not accept `[0, 0]`.

## Model

| member | source | states |
|---|---|---|
| AutomatonModel.Next | minimiza.java:58-61 | the successor is a value of the state's row; a symbol missing from the row reads as no transition (`null`) |
| AutomatonModel.Automaton.GetState | minimiza.java:46-48 | the state at a position of the list has a row, and no other position holds it |
| AutomatonModel.Automaton.GetTransitionsFor | minimiza.java:54-56 | every target in a listed state's row is itself listed |
| AutomatonModel.Automaton.GetNextState | minimiza.java:58-61 | the successor is null or a listed state; null when the symbol has no entry |
| AutomatonModel.Automaton.NormalizeIds | minimiza.java:63-68 | afterwards the state at position `i` has id `i`; the list, the table and the flags are untouched |
| AutomatonModel.Automaton.KeysTargeting | minimiza.java:79-83 | the collected keys are exactly the symbols whose entry is the given state |
| AutomatonModel.Automaton.Remove | minimiza.java:70-87 | the state leaves the list (`Drop`); its row goes; every other row loses exactly the entries into it (`Prune`); the invariant holds; nothing else changes |
| AutomatonModel.Drop | minimiza.java:72 | the kept elements are exactly those of the list outside the deleted set |
| AutomatonModel.RowWithout | minimiza.java:79-85 | a row loses exactly its entries into the deleted set, and its other entries keep their targets |
| AutomatonModel.Prune | minimiza.java:70-87 | the table after deleting a set of states has exactly the other states as keys, each with its row minus the entries into the set |
| AutomatonModel.DropDistinct | minimiza.java:72 | deleting from a duplicate-free list leaves it duplicate-free |
| AutomatonModel.DropDrop | minimiza.java:108-110 | deleting one set and then another equals deleting their union, so the one-by-one removal loop is order-independent |
| AutomatonModel.PrunePrune | minimiza.java:108-110 | the same for the table: pruning `A` then `B` is pruning `A + B` |
| Reachability.RunAppend | minimiza.java:115-121 | reading `u` then `w` is reading `w` from where `u` leads |
| Reachability.ReachableTrans | minimiza.java:115-121 | reachability is transitive |
| Reachability.ReachSetIsLeastClosed | minimiza.java:115-121 | the reachable set holds the start, is closed under transitions, and lies in every closed set that holds the start |
| Reachability.UselessIffNoAcceptingReached | minimiza.java:139-146 | a state is useless exactly when no state it reaches, itself included, is accepting |
| Reachability.UsefulBackwards | minimiza.java:134-153 | a state that reaches a useful state is useful |
| Reachability.UnreachablePassKeepsRows | minimiza.java:100-112 | after the reachability pass the states left are exactly the reachable ones, their rows are untouched, and no edge dangles |
| Reachability.UnreachablePassLeavesReachable | minimiza.java:100-112 | after the reachability pass the initial state is left and reaches every remaining state |
| Reachability.UsefulRunSurvives | minimiza.java:124-132 | deleting useless states changes no run that ends in a useful state |
| Reachability.TwoPassesLeaveReachableUsefulStates | minimiza.java:93-96 | after the first two passes either nothing is left, or the initial state is left and every remaining state is reachable from it and useful |
| Equivalence.Equivalent | minimiza.java:198-227 | the test's verdict and the visited sets it leaves, which only grow, with the state just tested added |
| Equivalence.CheckKeys | minimiza.java:213-225 | the symbol loop of the test; visited sets only grow |
| Equivalence.BisimilarPairPasses | minimiza.java:198-227 | the test accepts every pair related by a bisimulation, whatever the visited sets it starts from |
| Equivalence.BisimilarKeysPass | minimiza.java:213-225 | the symbol loop never rejects a bisimilar pair |
| Equivalence.SkippedSymbolHidesDifference | minimiza.java:217-218 | two states with different languages pass the test because a symbol is skipped |
| Reducer.VisitNodes | minimiza.java:115-121 | the visited set grows by `current` and only by states reachable from it, and every transition leaving a new state ends inside it |
| Reducer.VisitFromScratch | minimiza.java:101-103 | a visit from an empty set yields exactly the reachable set |
| Reducer.RemoveAll | minimiza.java:108-110 | deleting a set one state at a time, in any order, leaves `Drop` and `Prune` of the whole set |
| Reducer.RemoveUnreachableStates | minimiza.java:100-112 | exactly the unreachable states are deleted, rows of survivors are untouched, the initial state survives, ids are dense |
| Reducer.AnyAccepting | minimiza.java:141-144 | true exactly when some visited state is accepting |
| Reducer.CheckIfIsUseless | minimiza.java:134-153 | the walk marks exactly the useless states among `current` and the states it visits first |
| Reducer.RemoveUselessStates | minimiza.java:124-132 | exactly the reachable useless states are deleted (the initial state included when useless), ids are dense |
| Reducer.CheckStatesForEquivalence | minimiza.java:198-227 | returns exactly the test function's verdict and visited sets: true for the same reference, false when one side is null or the flags differ |
| Reducer.RecordPartner | minimiza.java:164-169 | the state at `i` is mapped iff some later state passes the test with it, and then to the last such state; other entries are kept |
| Reducer.FindEquivalentPairs | minimiza.java:162-170 | the map's keys are exactly the states with a later partner, each mapped to its last partner |
| Reducer.LastPartnerExists | minimiza.java:163-169 | a state with some later partner has a last one, the one the final `put` stores |
| Reducer.FoldTarget | minimiza.java:163-169 | names the last partner of a state that has a later partner |
| Reducer.FoldMap | minimiza.java:162-170 | the replacement map as a function of the rows and the list; its keys are exactly the states with a later partner |
| Reducer.FoldsIntoUnique | minimiza.java:163-169 | on a list without duplicates each state has one last partner |
| Reducer.FoldMapIs | minimiza.java:162-170 | any map with those keys that sends each key to its last partner is `FoldMap`, so the map the pair loop builds is determined |
| Reducer.FoldMapAppointed | minimiza.java:162-170 | every value of `FoldMap` is a last partner (an appointed state) |
| Reducer.ChainStep | minimiza.java:177-187 | rewriting the entries into a state on a fold chain moves them to the next state of the same chain |
| Reducer.ChainEnd | minimiza.java:173-192 | a fold chain has only one state that is not replaced itself, so an entry that survives the deletion of the replaced states lies at that end |
| Reducer.ChainEndIsPartner | minimiza.java:173-192 | when a state's last partner is not replaced itself, the end of the state's chain is that partner |
| Reducer.Redirect | minimiza.java:177-187 | every entry into `removed` now leads to `appointed`; all other entries and all keys are unchanged |
| Reducer.RedirectAll | minimiza.java:173-188 | an entry into a replaced state ends up at an appointed state on the fold chain of its old target; all other entries and all keys are unchanged |
| Reducer.RedirectStep | minimiza.java:173-188 | one more pass of the rewrite loop keeps every entry into a replaced state on its old target's chain, either still pending or already at an appointed state, and leaves every other entry alone |
| Reducer.RedirectThenPrune | minimiza.java:173-192 | after redirecting along the chains and deleting the replaced states, the rows are as `MergedRows` says for the replacement map |
| Reducer.MergeEquivalentStates | minimiza.java:161-194 | exactly the states with a later partner are deleted, and the rows are as `MergedRows` says for `FoldMap`: no transition leads to a deleted state; an entry that led to a deleted state is gone or leads to the end of that state's fold chain, an appointed state that was kept; other entries are kept; ids are dense |
| Reducer.ReduceAutomaton | minimiza.java:93-97 | the result is valid with dense ids; after the reachability and usefulness passes leave list `S2` and rows `T2`, the states left are `S2` without the states that have a later partner, and the rows are `T2` merged by `FoldMap(T2, n, S2)` (`MergedRows`): each entry into a deleted state is gone or leads to the end of that state's fold chain; every state left survived the first two passes; nothing is left when those passes left nothing |
| Reducer.ReductionLosesWord | minimiza.java:93-97 | on a three-state automaton the first two passes keep everything, the merge pass folds the looping accepting state into the state without transitions (its replacement map is exactly that pair), and the initial state accepts `[0, 0]` before the reduction but not after it |
| Loader.ParseCells | minimiza.java:259-263 | on success the cells are the next tokens, all `-1` or a state position |
| Loader.ParseCellsOutcome | minimiza.java:259-263 | reading cells succeeds iff enough tokens are there and all are valid, and reports a bad target iff one comes before the tokens run out |
| Loader.ParseRows | minimiza.java:256-264 | on success one row per state, each of `k` valid cells; never reports a bad initial id |
| Loader.ParseRowsOutcome | minimiza.java:256-264 | reading the matrix succeeds iff all `rows * k` cells are there and each is `-1` or a state position, and fails with a bad target iff a bad cell comes before the tokens run out (otherwise with a missing token) |
| Loader.ParseOutcome | minimiza.java:234-268 | once the header, the flags and a valid initial id are there, loading succeeds iff the whole `n * k` matrix is there with every cell `-1` or in `0 .. n-1`, and fails with a bad target iff a bad cell comes before the tokens run out |
| Loader.Parse | minimiza.java:234-268 | on success the listing is well formed with `n` states and `k` symbols; fails with a bad initial id iff the header and flags are there and `init` is outside `0 .. n-1` |
| Loader.Flags | minimiza.java:245-250 | a state is accepting iff its flag is `1` |
| Loader.FlagTokens | minimiza.java:278-282 | the dumper writes `1` for accepting and `0` otherwise |
| Loader.Render | minimiza.java:271-296 | the dump starts with `n k init`, followed by the flags |
| Loader.ParseFlatten | minimiza.java:256-264 | reading back dumped rows of valid cells gives the rows |
| Loader.FlattenParsed | minimiza.java:285-295 | the rows the loader read, written back, are a prefix of the tokens |
| Loader.LoadAfterDump | minimiza.java:234-296 | loading what the dumper wrote for a well-formed listing gives the listing back |
| Loader.DumpAfterLoad | minimiza.java:234-296 | dumping what was loaded from tokens with 0/1 flags writes exactly the tokens the loader read |
| Loader.ListingOf | minimiza.java:271-296 | what the dumper lists: the alphabet size, the initial state's id, the flags and the rows of the listed states in list order |
| Loader.RowIds | minimiza.java:287-293 | each cell is the target's id, or `-1` for no transition |
| Loader.DumpIsLoadable | minimiza.java:271-296 | an automaton with dense ids whose initial state is still listed dumps to a well-formed listing that loads back unchanged |
| Loader.DumpRow | minimiza.java:287-293 | the cells written for one row are `RowIds` of that row |
| Loader.DumpFlags | minimiza.java:278-282 | the flag line is `FlagTokens` of the states' flags |
| Loader.DumpMatrix | minimiza.java:285-295 | the matrix is the rows of the listed states, one after the other |
| Loader.Dump | minimiza.java:271-296 | the output is exactly `Render(ListingOf(a))` |
| Loader.ReadRow | minimiza.java:259-263 | reads a row exactly as `ParseCells` does and fails with its error |
| Loader.LoadStates | minimiza.java:245-250 | one fresh state per flag, with id `i`, accepting iff the flag is `1`; fails iff the tokens run out |
| Loader.LoadMatrix | minimiza.java:256-264 | builds one row per state exactly as `ParseRows` reads it, and fails with its error |
| Loader.LoadedValid | minimiza.java:234-268 | the automaton the loader lays out satisfies the structural invariant, with symbols `0 .. k-1` in every row |
| Loader.LoadedListing | minimiza.java:234-268 | the dumper lists the loaded automaton as the listing it was built from |
| Loader.Load | minimiza.java:234-268 | fails iff `Parse` fails, with the same error; otherwise yields a valid automaton with dense ids that the dumper lists as `Parse`'s listing |

## Left out

- The `main` method of `minimiza.java` (lines 303-314). It opens and closes files and reads the command line, so it is I/O only.
- `Scanner` and `PrintWriter` handling. The loader and the dumper work on a sequence of integer tokens.
  - `nextLine` calls and line breaks are not modelled.
  - Tokens that are not integers, or that overflow a Java `int`, are not modelled. In Java these make `nextInt` throw.
- `State.toString` (debug text) and `d_9778515_9779141.java`. The latter is a debug copy of the loader that prints what it reads, and it is not part of this model.
- Hash-table iteration order.
  - The rewrite loop over the replacement map, and the batch removal loops, pick their next element arbitrarily (`:|`).
  - The depth-first walks visit a row's successors in symbol order instead of `HashMap` value order. Their proved results are sets, which do not depend on that order.
- `Reducer.RedirectAll`: states only that a redirected entry leads to an appointed state on its old target's fold chain, not to which one. When one folded state is the partner of another, that state depends on the order in which the map is iterated; after the replaced states are deleted the order no longer matters (`Reducer.ChainEnd`).
- `Reducer.MergeEquivalentStates` and `Reducer.ReduceAutomaton`: language preservation and minimality are not stated. The pairwise test does not give them. `Equivalence.SkippedSymbolHidesDifference` shows this for the test, and `Reducer.ReductionLosesWord` shows it for the whole reduction.
- `Reducer.ReduceAutomaton`: nothing protects the initial state from the usefulness and merge passes, and the model does not invent a fix.
  - When the initial state is deleted, it stays `initialState` but is no longer listed.
  - The dumper then writes its stale id, and `Loader.DumpIsLoadable` does not apply.
- Recursion depth: the Java walks are recursive and can overflow the stack on large inputs.
- `isAcceptance` is a constant field. The Java code writes it only once, right after creating the state.
