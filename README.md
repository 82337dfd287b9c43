# BabySAT and its trace checker, in Dafny

This project models two parts of the BabySAT teaching repository:

- the trace checker `check_solver.py`. It reads a CNF formula in DIMACS
  form, then replays a solver's debug log of `assign`, `decide`, `unassign`
  and `conflict` lines against a trail of the literals currently true. It
  stops at the first move the formula does not justify.
- the sequential machinery of three BabySAT solvers. Each has a values
  array indexed by literal, a trail, a control stack of trail heights, a
  decision level and an occurrence matrix.
  - `babysat-dpll.cpp` is recursive DPLL with unit propagation by clause
    scan.
  - `babysat-cdcl.cpp` is CDCL without its conflict analysis. It has a
    fixed trail with `assigned`/`propagated` cursors, per-variable levels
    and reasons, and a `searched` cursor for decisions.
  - `babysat-watches.cpp` adds watch fields and watch lists to each
    clause, and a 1-UIP conflict analysis with per-conflict stamps.

Files:

| file | module | what it holds |
|---|---|---|
| `literals.dfy` | `Literals` | literals, distinct-variable trails, ascending control stacks |
| `clauses.dfy` | `Clauses` | how a trail reads a clause; models, implied and refuted trails |
| `occurrences.dfy` | `Occurrences` | the occurrence matrix and `connect_literal` |
| `trails.dfy` | `Trails` | the `levels` and `reasons` arrays read against the trail |
| `dimacs.dfy` | `DimacsTokens` | the shared DIMACS token loop of the C++ `parse` |
| `checker_text.dfy` | `PyText` | Python's `split("\n")`, `split()`, `int` and `str` |
| `checker.dfy` | `TraceChecker` | `parse_dimacs`, the three predicates and the replay |
| `dpll.dfy` | `Dpll` | `DpllSolver`, a class over the values and levels arrays |
| `cdcl.dfy` | `Cdcl` | `CdclSolver`, a class over a fixed trail array |
| `watches.dfy` | `Watches` | `WatchSolver`, with watches, stamps and `analyze` |

Conventions:

- A literal is a non-zero `int`. A trail is the `seq<int>` of true
  literals, oldest first.
- `values[lit]` of the C++ code is the array entry `lit + variables`, as the
  source's pointer offset makes it.
- Every solver class keeps `Valid()`: the values array reads exactly as
  the trail, and the trail holds distinct variables. In the two CDCL
  solvers `Valid()` also says that the levels agree with the control stack
  and that every recorded reason forces its literal under the literals
  before it.
- Clauses are held by value in a `seq`, and the matrix holds positions in
  that list. The source holds pointers to heap clauses.
- The log of the trace checker is a sequence of `Event` values:
  `Assign v`, `Decide v`, `Unassign v` and `Conflict`.

What is proved, in short:

- The trace checker: each predicate is equivalent to its logical meaning.
  Each kind of log line has an exact step lemma. The replay fails at the
  first fault. `parse_dimacs` reads back the rendering of any formula.
- The DPLL solver:
  - propagation and its scans are proved equal to their specification
    functions;
  - propagation is sound;
  - `unsatisfiable` means no model exists, and `satisfiable` comes with a
    model;
  - the `break` in `propagate` loses completeness (see Findings).
- The CDCL solver:
  - propagation is sound, and records each literal it forces at the
    current level with the forcing clause as its reason;
  - propagation is complete: a full run without a conflict leaves every
    clause with a false literal satisfied or with two unassigned literals;
  - the answers of `solve` are correct.
- The watches solver: `add_clause` keeps the watch lists in step with the
  watch fields. `analyze` finds the unique implication point and collects
  the lower-level literals. Backjumping to the highest of their levels
  leaves a clause that forces `-uip`. The stamps are exactly a resolution
  of the conflicting clause with reasons of stamped literals, so the
  learned clause holds in every model of the formula that makes the
  root-level literals true, when every current-level literal above the
  decision has a reason.

## Model

| member | source | states |
|---|---|---|
| PyText.SplitLines | check_solver.py:24 | `split("\n")` yields one piece more than the text has line breaks |
| PyText.SplitJoinLines | check_solver.py:24 | splitting lines joined by line breaks gives those lines back |
| PyText.Words | check_solver.py:29 | `split()` yields non-empty words without white space |
| PyText.WordsUnwords | check_solver.py:29 | splitting words joined by single spaces gives the words back |
| PyText.ParseShow | check_solver.py:29 | `int` reads the decimal text of every integer, negative ones included, back as that integer |
| TraceChecker.ParseWords | check_solver.py:29 | every word is read as the integer it spells, in order; otherwise the error names a word `int` rejects |
| TraceChecker.ClauseLines | check_solver.py:24-25 | clause lines exist exactly when the text has a line break; there are two fewer of them than pieces (the header and the piece after the last break) |
| TraceChecker.ParseLines | check_solver.py:28-29 | a successful read gives exactly one clause per line |
| TraceChecker.ParseLinesErrorSticks | check_solver.py:28-29 | once some line fails to parse, the whole formula fails with that line's error |
| TraceChecker.ParseDimacs | check_solver.py:17-30 | the loop over the lines returns what `DimacsOf` defines for the text |
| TraceChecker.ClauseLineRoundTrip | check_solver.py:26-29 | a clause written as its literals and " 0" has no line break, and cutting the last two characters reads the clause back |
| TraceChecker.DimacsRoundTrip | check_solver.py:24-29 | reading the text of any formula, after any one-line header, gives the formula back |
| TraceChecker.IsImplied | check_solver.py:33-42 | true exactly when some clause contains the literal and has every other literal's negation on the trail |
| TraceChecker.UnitClauseImplies | check_solver.py:37-41 | a unit clause `[v]` justifies `v` under every trail |
| TraceChecker.ClausePropagationForces | check_solver.py:51-59 | a clause reports `lit` exactly when it is the single literal `lit` not on the trail, even if `-lit` is on it, or when `lit` is its one unassigned position and every other position is falsified |
| TraceChecker.CountingFindsUnit | check_solver.py:54-59 | passing the counting test means one unassigned position holding the reported literal, with all other positions falsified |
| TraceChecker.UnitPassesCounting | check_solver.py:54-59 | conversely, such a clause passes the counting test and reports that literal |
| TraceChecker.Propagations | check_solver.py:45-60 | a literal is reported exactly when some clause forces it; every reported literal occurs in a clause; at most one literal per clause |
| TraceChecker.PossiblePropagations | check_solver.py:45-60 | the append loop returns exactly `Propagations` |
| TraceChecker.CheckConflict | check_solver.py:63-73 | true exactly when some clause has the negation of each of its literals on the trail |
| TraceChecker.FalsifiedIsAssigned | check_solver.py:68-69 | a wholly false clause is wholly assigned, so the assignment test hides no conflict |
| TraceChecker.EmptyClauseConflicts | check_solver.py:67-70 | an empty clause is a conflict under every trail |
| TraceChecker.FirstIndex | check_solver.py:117 | `index` gives the first position holding the literal |
| TraceChecker.CheckSatSolver | check_solver.py:76-122 | the loop over the log with a mutable trail and flag returns the verdict of the replay, or the format error of the formula |
| TraceChecker.DecideGate | check_solver.py:93-102 | a decision fails exactly when some clause forces a literal, reporting all forced literals; otherwise it appends the literal and sets the flag |
| TraceChecker.AssignAfterDecision | check_solver.py:104-106 | with the flag set, an assignment clears it and changes nothing else, whatever its literal |
| TraceChecker.AssignNeedsJustification | check_solver.py:107-111 | with the flag clear, an assignment is appended when some clause forces it and fails otherwise |
| TraceChecker.UnassignRemovesFirst | check_solver.py:112-117 | unassigning a literal not on the trail fails the assertion; otherwise exactly its first occurrence is removed, the rest keeps its order, and the flag is kept |
| TraceChecker.ConflictNeedsFalsifiedClause | check_solver.py:118-121 | a conflict line is accepted, with the state unchanged, exactly when some clause is wholly false |
| TraceChecker.RunAppend | check_solver.py:85-122 | replaying two logs in turn is replaying their concatenation; a fault ends the replay |
| TraceChecker.FirstFaultDecides | check_solver.py:96-121 | log lines after a fault do not change the verdict |
| TraceChecker.DecisionPair | check_solver.py:93-106 | a decision and its restating assignment add the literal once and clear the flag, with no justification asked |
| TraceChecker.ExampleSpuriousAfterPropagation | check_solver.py:118-121 | on `[[1,2],[-1]]`, assign -1, assign 2, conflict: both assignments pass and the conflict is spurious |
| TraceChecker.ExampleLegalDecision | check_solver.py:93-102 | on `[[1,2]]`, decide 1 is legal |
| TraceChecker.ExampleForcedBeforeDecision | check_solver.py:93-100 | on `[[-1]]`, decide 1 fails with -1 reported as forced |
| TraceChecker.ExampleUnforcedAssign | check_solver.py:108-110 | on `[[1,2]]`, assign 1 fails before any later line is read |
| TraceChecker.ExampleDuplicateAssign | check_solver.py:108-111 | on `[[1]]`, assigning 1 twice passes and leaves 1 on the trail twice |
| DimacsTokens.ReadClause | babysat-cdcl.cpp:406-417 | literals over the variables followed by 0 close exactly one clause holding those literals |
| DimacsTokens.ParseEncode | babysat-cdcl.cpp:406-420 | the token loop reads back every formula over the variables written with its clause count |
| DimacsTokens.ParsedIsEncoding | babysat-cdcl.cpp:406-420 | accepted tokens are exactly the writing of the formula read: as many clauses as the header says, every literal within the variables, each clause closed by 0 |
| DimacsTokens.UnterminatedRejected | babysat-cdcl.cpp:419 | tokens whose last one is not 0 are rejected |
| Clauses.NotSatisfiedVerdict | babysat-dpll.cpp:429-447 | a clause without a true literal is false when no literal is unassigned, and forces its one unassigned literal when there is exactly one |
| Clauses.FullTrail | babysat-cdcl.cpp:309-312 | a trail over distinct variables has `variables` literals exactly when every variable is assigned |
| Clauses.AddKeepsImplied | babysat-dpll.cpp:342-354 | adding a clause keeps every implied trail implied, and a unit clause implies its literal |
| Clauses.FalsifiedRefutes | babysat-dpll.cpp:528 | no model makes a trail true when a clause is false under it |
| Clauses.WitnessIsModel | babysat-dpll.cpp:519 | a trail satisfying every clause, with unassigned variables taken positively, is a model |
| Clauses.JustifiedAgrees | babysat-dpll.cpp:443 | a model of a prefix of the trail makes true every later literal forced under the literals before it |
| Occurrences.ConnectLists | babysat-dpll.cpp:338 | connecting a clause only appends its position, and appends it to the list of each of its literals |
| Occurrences.ConnectKeepsIndex | babysat-dpll.cpp:334-338 | after the clause is stored and connected, every clause is still listed under each of its literals and the matrix holds only clause positions |
| Trails.LeveledAssign | babysat-cdcl.cpp:314-326 | assigning at the current level keeps the levels in step with the control stack |
| Trails.LeveledDecide | babysat-cdcl.cpp:465-469 | opening a level at the trail height keeps the levels in step with the control stack |
| Trails.LeveledCut | babysat-cdcl.cpp:483-490 | cutting the trail at the control entry of a lower level leaves exactly the literals assigned up to that level |
| Trails.UnassignedAbove | babysat-cdcl.cpp:486 | a literal above the cut is unassigned, with its negation, under the cut trail |
| Trails.ReasonedAssign | babysat-watches.cpp:324-336 | recording a reason that forces the literal keeps every reason forcing its literal |
| Trails.ReasonedCut | babysat-watches.cpp:537-544 | a prefix of the trail keeps its reasons |
| Trails.ForcedPush | babysat-cdcl.cpp:314-326 | assigning a new variable at the current level with a reason extends what propagation recorded, and the literals before keep their levels and reasons |
| Trails.ForcedChain | babysat-cdcl.cpp:432-455 | two stretches of propagation, the second starting where the first ended, record as one |
| Dpll.ScanMeaning | babysat-dpll.cpp:422-449 | a forced literal is unassigned and forced by a scanned clause; a conflict is a scanned clause that is false |
| Dpll.RoundShape | babysat-dpll.cpp:420-449 | a round appends at most one literal, and none on a conflict |
| Dpll.RoundMeaning | babysat-dpll.cpp:420-449 | a conflict of a round is a false clause; an appended literal is forced by a clause |
| Dpll.PropagateShape | babysat-dpll.cpp:414-461 | propagation only extends the trail over distinct variables, and without a conflict propagates all of it |
| Dpll.PropagateJustified | babysat-dpll.cpp:414-461 | every literal propagation appends is forced by a clause under the literals before it |
| Dpll.PropagateConflict | babysat-dpll.cpp:439-441 | a reported conflict leaves a clause false |
| Dpll.PropagateKeepsModels | babysat-dpll.cpp:414-461 | a model of the trail is a model of the propagated trail, and then no conflict is reported |
| Dpll.FlipDecision | babysat-dpll.cpp:521-523 | when the decision is refuted, every model of the trail makes the negated decision true |
| Dpll.ConflictRefutes | babysat-dpll.cpp:518 | a conflict refutes every trail that entails the trail propagated from |
| Dpll.PropagateEntails | babysat-dpll.cpp:414-461 | propagation without a conflict keeps what the starting trail entails |
| Dpll.BreakMissesConflict | babysat-dpll.cpp:448 | with clauses `[-1,2],[-2,3],[-1,-2]` and decision 1, propagation assigns 2 and 3 and reports no conflict, yet `[-1,-2]` is false |
| Dpll.DpllSolver.constructor | babysat-dpll.cpp:242-263 | every literal unassigned, no clause, empty trail and control stack, level 0 |
| Dpll.DpllSolver.Assign | babysat-dpll.cpp:296-311 | the trail grows by exactly the literal, which becomes true and its negation false, at the current level; `fixed` grows only at level 0 |
| Dpll.DpllSolver.Unassign | babysat-dpll.cpp:485-490 | the literal and its negation become unassigned, and no other value changes |
| Dpll.DpllSolver.SatisfiedClause | babysat-dpll.cpp:282-286 | true exactly when some literal of the clause is true |
| Dpll.DpllSolver.SatisfiedAll | babysat-dpll.cpp:290-294 | true exactly when every clause is satisfied |
| Dpll.DpllSolver.CountUnassigned | babysat-dpll.cpp:429-436 | the count of unassigned literals of the clause, and the last of them |
| Dpll.DpllSolver.ScanLiteral | babysat-dpll.cpp:422-449 | the scan of the occurrence list, with the `break`, returns what `ScanOccurrences` defines |
| Dpll.DpllSolver.PropagateNext | babysat-dpll.cpp:419-449 | one round leaves the state `PropagateOne` defines and counts a conflict |
| Dpll.DpllSolver.Propagate | babysat-dpll.cpp:414-461 | the loop leaves the trail and cursor `PropagateFrom` defines, returns false exactly on its conflict, and counts it |
| Dpll.DpllSolver.ConnectLiterals | babysat-dpll.cpp:338 | the matrix becomes `Connect` of the old matrix |
| Dpll.DpllSolver.AddClause | babysat-dpll.cpp:318-357 | the clause is stored and connected; an unassigned unit is assigned; an empty or false unit clause is recorded; an implied trail stays implied |
| Dpll.DpllSolver.AddShortClause | babysat-dpll.cpp:342-354 | an empty clause is recorded, an unassigned unit assigned, a false unit recorded, and a true unit left alone |
| Dpll.DpllSolver.Dpll | babysat-dpll.cpp:516-525 | unsatisfiable means no model makes the starting trail true, returning at the same level; satisfiable means the trail satisfies every clause; a failed decision means all variables are assigned with a clause unsatisfied |
| Dpll.DpllSolver.Branch | babysat-dpll.cpp:520-523 | a refuted decision is flipped: the trail grows by one literal entailed by the old trail |
| Dpll.DpllSolver.Solve | babysat-dpll.cpp:527-530 | from an implied trail, unsatisfiable means the formula has no model, and satisfiable gives a model |
| Dpll.DpllSolver.FirstUnassigned | babysat-dpll.cpp:469-474 | the smallest unassigned variable, or 0 exactly when every variable is assigned |
| Dpll.DpllSolver.Decide | babysat-dpll.cpp:465-483 | the smallest unassigned variable becomes true on a new level, with the old trail height pushed on the control stack |
| Dpll.DpllSolver.PopTrail | babysat-dpll.cpp:499-503 | the trail is cut at the height and every popped literal becomes unassigned |
| Dpll.DpllSolver.Backtrack | babysat-dpll.cpp:492-508 | the level drops by one, the trail returns to the popped control height, every popped literal becomes unassigned, and the whole trail counts as propagated |
| Cdcl.ClassifyMeaning | babysat-cdcl.cpp:437-449 | a clause is reported conflicting exactly when it is false; a forced literal is unassigned and forced by the clause |
| Cdcl.SweepShape | babysat-cdcl.cpp:437-453 | the scan of an occurrence list only appends literals, over distinct variables |
| Cdcl.SweepMeaning | babysat-cdcl.cpp:437-453 | every appended literal is forced under the literals before it; a returned clause is false |
| Cdcl.SweepCalm | babysat-cdcl.cpp:437-453 | a scan without a conflict leaves every visited clause satisfied, with two unassigned literals, or due for another visit |
| Cdcl.PropagateShape | babysat-cdcl.cpp:431-456 | propagation only extends the trail, and without a conflict propagates all of it |
| Cdcl.PropagateMeaning | babysat-cdcl.cpp:431-456 | every appended literal is forced by a clause; a returned clause is false |
| Cdcl.RoundQuiet | babysat-cdcl.cpp:434-453 | a round without a conflict extends the part of the trail whose false literals left no clause to revisit by one literal |
| Cdcl.PropagateQuiet | babysat-cdcl.cpp:431-456 | propagation without a conflict leaves no clause with a false literal to revisit |
| Cdcl.QuietNoFalse | babysat-cdcl.cpp:445-448 | then no non-empty clause is false |
| Cdcl.QuietFull | babysat-cdcl.cpp:309-312 | then, with every variable assigned, every non-empty clause is satisfied |
| Cdcl.FullScanMissesNoConflict | babysat-cdcl.cpp:431-456 | propagation from the start of any trail that reports no conflict leaves no non-empty clause false |
| Cdcl.ExampleFindsConflict | babysat-cdcl.cpp:437-449 | on the DPLL counterexample the full scan returns `[-1,-2]` as conflicting |
| Cdcl.QuietDecide | babysat-cdcl.cpp:462-469 | a decision on a fully propagated trail keeps the trail below it settled |
| Cdcl.ImpliedExtends | babysat-cdcl.cpp:431-456 | literals forced under an implied trail are implied |
| Cdcl.ImpliedConflict | babysat-cdcl.cpp:594-595 | a false clause under an implied trail leaves the formula without a model |
| Cdcl.QuietModel | babysat-cdcl.cpp:597-598 | a full, settled trail satisfies every clause and gives a model |
| Cdcl.CdclSolver.constructor | babysat-cdcl.cpp:259-281 | every literal unassigned, no clause, empty trail, level 0, `searched` at 1 |
| Cdcl.CdclSolver.Assign | babysat-cdcl.cpp:314-326 | the literal is pushed at `assigned` and becomes true; its level and reason are recorded, and nothing else in those arrays changes |
| Cdcl.CdclSolver.Push | babysat-cdcl.cpp:319-324 | the writes of `assign`, with the trail array holding the new literal |
| Cdcl.CdclSolver.Unassign | babysat-cdcl.cpp:473-481 | the literal and its negation become unassigned; `searched` drops to the variable when smaller |
| Cdcl.CdclSolver.Satisfied | babysat-cdcl.cpp:309-312 | with the trail propagated, true exactly when every variable is assigned |
| Cdcl.CdclSolver.Inspect | babysat-cdcl.cpp:438-444 | the loop over a clause's literals returns what `Classify` defines |
| Cdcl.CdclSolver.Visit | babysat-cdcl.cpp:438-451 | the verdict on one clause is `Classify`'s; a forced literal is appended, at the current level with the clause as its reason, and otherwise the trail, levels and reasons are unchanged |
| Cdcl.CdclSolver.Sweep | babysat-cdcl.cpp:436-453 | appended literals are forced and recorded at the current level with a reason, while the literals already on the trail keep their levels and reasons; a returned clause is false and counted; without a conflict every visited clause is settled, and clauses quiet up to the position of `lit` are quiet one position further |
| Cdcl.CdclSolver.SweepStep | babysat-cdcl.cpp:437-452 | one clause of the scan: it is false, or it is settled and the trail, still forced and recorded at the current level, grows by its forced literal if any |
| Cdcl.CdclSolver.Round | babysat-cdcl.cpp:432-453 | one literal more is propagated; appended literals are forced and recorded at the current level with a reason, older ones keep theirs; the trail below it stays settled when there is no conflict |
| Cdcl.CdclSolver.Advance | babysat-cdcl.cpp:434 | `propagated++`: one literal more counts as propagated, and the invariant is kept |
| Cdcl.CdclSolver.Propagate | babysat-cdcl.cpp:431-456 | appended literals are forced and recorded at the current level with a reason, older ones keep theirs; a returned clause is false and counted; without one the whole trail is propagated and settled |
| Cdcl.CdclSolver.ConnectLiterals | babysat-cdcl.cpp:355 | the matrix becomes `Connect` of the old matrix |
| Cdcl.CdclSolver.AddClause | babysat-cdcl.cpp:333-374 | the clause is stored and connected; an unassigned unit is assigned without reason; an empty or false unit clause is recorded; an implied trail stays implied |
| Cdcl.CdclSolver.Store | babysat-cdcl.cpp:346-355 | the clause at the end of the list, connected in the matrix |
| Cdcl.CdclSolver.AddShortClause | babysat-cdcl.cpp:359-371 | an empty clause is recorded, an unassigned unit assigned, a false unit recorded, and a true unit left alone |
| Cdcl.CdclSolver.Parse | babysat-cdcl.cpp:403-420 | rejects the tokens exactly as `ParseTokens` does, and otherwise adds the clauses it reads, in order |
| Cdcl.CdclSolver.Decide | babysat-cdcl.cpp:462-471 | the smallest unassigned variable becomes true on a new level, with the trail end pushed on the control stack |
| Cdcl.CdclSolver.OpenLevel | babysat-cdcl.cpp:465-467 | a new level whose control entry is the trail height, with the levels still in step with the control stack |
| Cdcl.CdclSolver.Search | babysat-cdcl.cpp:464 | `searched` moves to an unassigned variable, with every variable below it assigned |
| Cdcl.CdclSolver.Pop | babysat-cdcl.cpp:486 | the last trail literal is removed and unassigned |
| Cdcl.CdclSolver.PopTrail | babysat-cdcl.cpp:486 | the trail is cut at the height; popped literals become unassigned; `searched` drops to the smallest of its old value and the popped variables |
| Cdcl.CdclSolver.Backtrack | babysat-cdcl.cpp:483-490 | the trail returns to `control[newLevel]`, the control stack is cut to `newLevel`, the trail counts as propagated, and the level is `newLevel` |
| Cdcl.CdclSolver.Solve | babysat-cdcl.cpp:590-604 | unsatisfiable means no model; satisfiable means every clause satisfied and a model; unknown means the conflict limit was reached; a conflict above level 0 goes to `analyze` with a false clause |
| Cdcl.CdclSolver.Step | babysat-cdcl.cpp:593-602 | one round of the loop gives one of those answers, or decides on a longer settled trail |
| Watches.Register | babysat-watches.cpp:388-389 | the clause position is pushed on the list of each of its first two literals |
| Watches.WatchAddFits | babysat-watches.cpp:384-395 | the watch fields given a new clause name two of its literals when it has more than one, and its first literal as blocker |
| Watches.WatchAdd | babysat-watches.cpp:384-389 | a clause on both of its watch lists, and every list entry watching that list's literal, stays so after adding a clause |
| Watches.CountedStart | babysat-watches.cpp:579-581 | before the first stamp of a conflict both counters are zero |
| Watches.MarkOne | babysat-watches.cpp:558-565 | stamping a variable adds one to the counter of its side of the current level |
| Watches.PassStamped | babysat-watches.cpp:592-600 | walking past a stamped current-level literal leaves one fewer below the walk |
| Watches.PassOther | babysat-watches.cpp:589-592 | walking past any other literal changes no counter |
| Watches.WalkLevel | babysat-watches.cpp:588-602 | while a stamped current-level literal lies below the walk, the walk stays within the current level |
| Watches.CollectedMeaning | babysat-watches.cpp:611-626 | the collected literals are exactly the negations of the stamped literals passed |
| Watches.CollectedBelowJump | babysat-watches.cpp:611-626 | the collected literals are false on the trail cut for the backjump |
| Watches.GatherEnd | babysat-watches.cpp:611-626 | at the end of the walk the collected literals and level cover the whole trail below the unique implication point |
| Watches.LearnedJustifies | babysat-watches.cpp:650-661 | the learned clause forces `-uip` on the trail left after the backjump |
| Watches.ResolutionStart | babysat-watches.cpp:583 | stamping the conflicting clause starts a resolution at the top of the trail |
| Watches.ResolutionPass | babysat-watches.cpp:588-594 | walking past a position that is unstamped or has no reason keeps the resolution |
| Watches.ResolutionStep | babysat-watches.cpp:592-600 | resolving a stamped position with its reason, which stamps the reason's variables and no other, keeps the resolution from that position |
| Watches.ResolutionSkip | babysat-watches.cpp:605 | walking past unstamped positions keeps the resolution |
| Watches.ReasonBelow | babysat-watches.cpp:596-597 | a variable of the clause forcing the literal at a position is assigned at or below that position, never above it |
| Watches.StampedTrue | babysat-watches.cpp:588-602 | a model of the formula that makes the root-level literals and the stamped literals up to the unique implication point true makes every stamped literal true |
| Watches.LearnedImplied | babysat-watches.cpp:568-626 | every model of the formula making the root-level literals true makes a literal of the learned clause true, when every current-level literal above the decision has a reason |
| Watches.DerivedImplies | babysat-watches.cpp:568-626 | the clause derived from the stamps is implied in that sense |
| Watches.WatchSolver.constructor | babysat-watches.cpp:263-288 | every literal unassigned, no clause, empty watch lists, no stamp, level 0 |
| Watches.WatchSolver.Assign | babysat-watches.cpp:324-336 | the literal is pushed and becomes true, its level and reason recorded, and the levels and reasons stay consistent |
| Watches.WatchSolver.Push | babysat-watches.cpp:329-334 | the writes of `assign` |
| Watches.WatchSolver.Unassign | babysat-watches.cpp:527-535 | the literal and its negation become unassigned; `searched` drops to the variable when smaller |
| Watches.WatchSolver.AddClause | babysat-watches.cpp:343-400 | the clause is stored with its first two literals watched and its first literal as blocker, and pushed on both watch lists; unit and empty clauses are handled as by the other solvers |
| Watches.WatchSolver.AddShortClause | babysat-watches.cpp:369-381 | an empty clause is recorded, an unassigned unit assigned, a false unit recorded, and a true unit left alone |
| Watches.WatchSolver.Store | babysat-watches.cpp:361-395 | the clause, its watch fields and its watch-list entries, with the lists kept in step with the fields |
| Watches.WatchSolver.Decide | babysat-watches.cpp:516-525 | the smallest unassigned variable becomes true on a new level with its stamp cleared |
| Watches.WatchSolver.OpenLevel | babysat-watches.cpp:519-522 | a new level at the trail height, and the decided variable's stamp cleared |
| Watches.WatchSolver.Search | babysat-watches.cpp:518 | `searched` moves to an unassigned variable, with every variable below it assigned |
| Watches.WatchSolver.Pop | babysat-watches.cpp:540 | the last trail literal is removed and unassigned |
| Watches.WatchSolver.PopTrail | babysat-watches.cpp:540 | the trail is cut at the height, every popped literal unassigned |
| Watches.WatchSolver.Backtrack | babysat-watches.cpp:537-544 | the trail returns to `control[newLevel]`, the control stack is cut, the trail counts as propagated, the level is `newLevel`, and levels and reasons stay consistent |
| Watches.WatchSolver.AnalyzeLiteral | babysat-watches.cpp:546-566 | a level-0 or already stamped variable is ignored; otherwise it is stamped with `conflicts` and counted as current or lower level |
| Watches.WatchSolver.StampConflict | babysat-watches.cpp:583 | every variable of the conflicting clause ends stamped or at level 0, no other variable gets a new stamp, and the counters count the stamped trail positions |
| Watches.WatchSolver.StampReason | babysat-watches.cpp:596-597 | every variable of the reason ends stamped or at level 0 and no other variable gets a new stamp; the counters stay exact and `current` never drops |
| Watches.WatchSolver.Resolve | babysat-watches.cpp:588-602 | the walk stops with exactly one stamped current-level literal at or below it; every stamped literal above the walk with a reason has all the variables of that reason stamped or at level 0, and every new stamp is a variable of the conflicting clause or of the reason of a stamped literal above the walk |
| Watches.WatchSolver.FindUip | babysat-watches.cpp:605-608 | the literal found is stamped, at the current level, the only such literal at or below it, and no literal between it and the start of the search is stamped |
| Watches.WatchSolver.CollectLower | babysat-watches.cpp:611-626 | the negations of all stamped lower-level literals, and the highest of their levels (0 if none), below the current level |
| Watches.WatchSolver.StampResolve | babysat-watches.cpp:583-602 | stamping and resolving leave one stamped current-level literal below the walk, and the stamps form a resolution of the conflicting clause with the reasons of the stamped literals passed |
| Watches.WatchSolver.Derive | babysat-watches.cpp:583-626 | the unique implication point, the collected literals and the backjump level; the stamps form a resolution of the conflicting clause down to the unique implication point, and the collected literals with `-uip` hold in every model of the formula making the root-level literals true, when every current-level literal above the decision has a reason |
| Watches.WatchSolver.Learn | babysat-watches.cpp:650-661 | backjump, then `-uip` last: a clause of more than one literal is stored and is the reason of `-uip`, otherwise `-uip` has no reason |
| Watches.WatchSolver.LearnClause | babysat-watches.cpp:656-659 | the learned clause is stored and its last literal assigned with it as reason |
| Watches.WatchSolver.Analyze | babysat-watches.cpp:568-665 | the unique implication point of the current level is found, the lower-level stamped literals collected, and the solver backjumps to the highest of their levels and assigns `-uip`, which the learned clause forces; the stamps form a resolution of the conflicting clause, and the learned clause holds in every model of the formula making the root-level literals true, when every current-level literal above the decision has a reason |

## Left out

- File reading, the `c` comment lines and the `p cnf` header of the C++ `parse`: the model starts from the header's two numbers and the integers `fscanf` returns.
- The trace checker's text classification and regex extraction of log lines (check_solver.py:86-92, 113-118): the log is a sequence of `Event` values. The pattern `[-]*` admits `--5`, which `int` rejects; the model cannot produce such a line.
- `main`, arguments, messages, `report`, debug logging, signal handlers, `print_model` and `check_model`: input/output and process control.
- Timing, `average`, `percent` and the statistics counters other than `conflicts` and `fixed` (`added`, `decisions`, `propagations`, `reports`, `backjumps`): they do not affect the search.
- `propagate` of babysat-watches.cpp (457-510): it erases entries from the watch list it is iterating over, which has no defined behaviour. So `solve` of the watches solver is left out too.
- The minimisation loop of `analyze` in babysat-watches.cpp (629-647): it erases from `learned` inside a range-for over `learned`. The model learns the clause without it.
- `analyze` of babysat-cdcl.cpp (497-581): it is marked as not working and reads `control[level]`, one past the end. `Cdcl.CdclSolver.Solve` returns `Analyze(c)` where the source would call it.
- The `stamped` array of babysat-cdcl.cpp and the clearing of its entry in `decide` (468): only the left-out `analyze` of that file reads it.
- The occurrence matrix of the watches solver: it is only read by the watches `propagate`.
- Watch fields of clauses of at most one literal: the source allocates clauses with `new char[]`, so they are never initialised, and the blocker of an empty clause reads past the end. The model has no watch pair for these clauses and no blocker for an empty clause.
- Clause memory, the `literals[]` flexible array and the pointer offset for negative indices: clauses are values in a list and the matrix holds list positions.
- Dpll.DpllSolver.Decide: with every variable assigned, the source still increments `level`, pushes the control height and calls `assign(0)`, whose assertion fails. The model returns 0 and changes nothing, and `Dpll` then reports `DecisionFailed`.
- Watches.WatchSolver.Analyze: it requires that no stamp reaches `conflicts` before the analysis starts, and that the conflicting clause has a literal at the current level. Both hold in the source's solve loop, which is left out. That the learned clause holds in every model making the root-level literals true is proved under the hypothesis that every current-level literal above the decision has a reason: the watches `propagate`, which would keep it, is left out.
- Dpll.DpllSolver.Solve: the contract states soundness only. It cannot promise completeness, because the `break` in `propagate` can end the search in `DecisionFailed` (see Findings).
- Cdcl.CdclSolver.Solve: `limit` is a parameter, not read from the command line. With `analyze` left out, a conflict above level 0 ends the model's run with the `Analyze` answer instead of learning and going on.
- C integer widths: `variables` is kept below `INT_MAX` as the header check demands. `conflicts`, `fixed` and the trail heights are unbounded, because the trail never holds more than `variables` literals.
- PyText.ParseInt: reads an optional sign and ASCII digits only. Python's `int` also accepts underscores between digits (`1_0` is 10) and the decimal digits of other scripts; the model rejects such words, because Unicode digit classes are outside the model.
- TraceChecker.ParseWords: through `PyText.ParseInt`, a word with an underscore between digits or with non-ASCII decimal digits gives `BadLiteral` where the checker would read a number.
- The trace checker keeps no invariant that its trail is free of duplicates: a literal forced by a unit clause can be assigned twice (`TraceChecker.ExampleDuplicateAssign`). The model follows the code here.

## Findings

| source | as written | input that shows it | evidently intended | confidence | as-written member | corrected member |
|---|---|---|---|---|---|---|
| babysat-dpll.cpp:448 | after assigning a forced literal, `propagate` leaves the occurrence list of `-lit` and never returns to the rest of it | clauses `[-1,2]`, `[-2,3]`, `[-1,-2]` and decision 1: propagation assigns 2 and 3 and reports no conflict although `[-1,-2]` is false; every variable is then assigned, and `decide` calls `assign(0)` | propagation that reports no conflict leaves no clause false, as the full scan of babysat-cdcl.cpp:437-453 does | high (proved; not executed) | Dpll.BreakMissesConflict | Cdcl.FullScanMissesNoConflict |

The DPLL model keeps the `break`, because the source has it.
`Dpll.DpllSolver.Solve` is still proved sound; the `break` only costs
completeness. The corrected scan is the CDCL solver's propagation.
`Cdcl.FullScanMissesNoConflict` proves the intended property of it for
every formula and trail. `Cdcl.ExampleFindsConflict` shows that it returns
`[-1,-2]` on the same input.
