/** The DPLL solver of BabySAT (babysat-dpll.cpp): an occurrence matrix,
    unit propagation over it, decisions on the smallest unassigned
    variable, chronological backtracking and the recursive search. */
module Dpll {
  import opened Literals
  import opened Clauses
  import opened Occurrences

  /** The answers of `solve`: the exit codes 10 and 20, and the point where
      `decide` finds no unassigned variable although a clause is still
      unsatisfied, where the source calls `assign(0)` and its assertion
      fails. */
  datatype Outcome = Satisfiable | Unsatisfiable | DecisionFailed

  /** What the scan of one occurrence list finds: a clause without
      non-false literals, the first clause with exactly one unassigned
      literal (where the scan stops), or neither. */
  datatype Scan = Conflict | Forced(lit: int) | Exhausted

  /** The state `propagate` leaves: the trail, how much of it is propagated,
      and whether it returned `false`. */
  datatype Propagation = Propagation(trail: seq<int>, propagated: nat, conflict: bool)

  /** The loop over one occurrence list of `propagate`, from position `j`:
      satisfied clauses are skipped; a clause with no unassigned literal is a
      conflict, one with a single unassigned literal forces it and ends the
      loop (the `break` after `assign`), and the others are skipped. */
  ghost function ScanFrom(clauses: Cnf, occ: seq<nat>, j: nat, trail: seq<int>): Scan
    requires forall i :: 0 <= i < |occ| ==> occ[i] < |clauses|
    requires j <= |occ|
    decreases |occ| - j
  {
    if j == |occ| then Exhausted
    else
      var c := clauses[occ[j]];
      if Satisfied(c, trail) then ScanFrom(clauses, occ, j + 1, trail)
      else
        var free := UnassignedLits(c, trail);
        if |free| == 0 then Conflict
        else if |free| == 1 then Forced(free[0])
        else ScanFrom(clauses, occ, j + 1, trail)
  }

  /** What the scan reports is so: a forced literal is unassigned and forced
      by one of the clauses scanned, a conflict is a false clause among
      them. */
  lemma {:induction false} ScanMeaning(clauses: Cnf, occ: seq<nat>, j: nat, trail: seq<int>)
    requires forall i :: 0 <= i < |occ| ==> occ[i] < |clauses|
    requires j <= |occ|
    ensures var s := ScanFrom(clauses, occ, j, trail);
      s.Forced? ==> Unassigned(s.lit, trail) && exists i :: j <= i < |occ| && Justifies(clauses[occ[i]], s.lit, trail)
    ensures ScanFrom(clauses, occ, j, trail).Conflict? ==>
      exists i :: j <= i < |occ| && Falsified(clauses[occ[i]], trail)
    decreases |occ| - j
  {
    if j < |occ| {
      var c := clauses[occ[j]];
      if !Satisfied(c, trail) {
        NotSatisfiedVerdict(c, trail);
      }
      ScanMeaning(clauses, occ, j + 1, trail);
    }
  }

  /** Unfolding `ScanFrom` at a clause the loop skips. */
  lemma ScanSkip(clauses: Cnf, occ: seq<nat>, j: nat, trail: seq<int>)
    requires forall i :: 0 <= i < |occ| ==> occ[i] < |clauses|
    requires j < |occ|
    requires Satisfied(clauses[occ[j]], trail) || |UnassignedLits(clauses[occ[j]], trail)| >= 2
    ensures ScanFrom(clauses, occ, j, trail) == ScanFrom(clauses, occ, j + 1, trail)
  {
  }

  /** Unfolding `ScanFrom` at a clause that ends the loop. */
  lemma ScanStop(clauses: Cnf, occ: seq<nat>, j: nat, trail: seq<int>)
    requires forall i :: 0 <= i < |occ| ==> occ[i] < |clauses|
    requires j < |occ|
    requires !Satisfied(clauses[occ[j]], trail) && |UnassignedLits(clauses[occ[j]], trail)| <= 1
    ensures var free := UnassignedLits(clauses[occ[j]], trail);
      ScanFrom(clauses, occ, j, trail) == if |free| == 0 then Conflict else Forced(free[0])
  {
  }

  /** The whole occurrence list. */
  ghost function ScanOccurrences(clauses: Cnf, occ: seq<nat>, trail: seq<int>): Scan
    requires forall i :: 0 <= i < |occ| ==> occ[i] < |clauses|
  {
    ScanFrom(clauses, occ, 0, trail)
  }

  /** One round of the outer loop of `propagate`: the literal at position
      `propagated` is taken, the clauses containing its negation are
      scanned, and a forced literal is appended to the trail. */
  ghost function PropagateOne(n: nat, clauses: Cnf, matrix: seq<seq<nat>>, trail: seq<int>, propagated: nat): (r: Propagation)
    requires Setting(n, clauses, matrix) && TrailOk(trail, n) && propagated < |trail|
    ensures TrailOk(r.trail, n) && r.propagated == propagated + 1 <= |r.trail|
  {
    var lit := trail[propagated];
    match ScanOccurrences(clauses, matrix[n - lit], trail)
    case Conflict => Propagation(trail, propagated + 1, true)
    case Exhausted => Propagation(trail, propagated + 1, false)
    case Forced(unit) =>
      ForcedExtends(n, clauses, matrix[n - lit], trail);
      Propagation(trail + [unit], propagated + 1, false)
  }

  /** A round by what the scan of its literal finds. */
  lemma RoundByScan(n: nat, clauses: Cnf, matrix: seq<seq<nat>>, trail: seq<int>, propagated: nat)
    requires Setting(n, clauses, matrix) && TrailOk(trail, n) && propagated < |trail|
    ensures var s := ScanOccurrences(clauses, matrix[n - trail[propagated]], trail);
      PropagateOne(n, clauses, matrix, trail, propagated)
      == Propagation(if s.Forced? then trail + [s.lit] else trail, propagated + 1, s.Conflict?)
  {
  }

  /** A round appends at most one literal, and none when it finds a
      conflict. */
  lemma RoundShape(n: nat, clauses: Cnf, matrix: seq<seq<nat>>, trail: seq<int>, propagated: nat)
    requires Setting(n, clauses, matrix) && TrailOk(trail, n) && propagated < |trail|
    ensures var r := PropagateOne(n, clauses, matrix, trail, propagated);
      |trail| <= |r.trail| <= |trail| + 1 && r.trail[..|trail|] == trail
      && (r.conflict ==> r.trail == trail)
  {
    RoundByScan(n, clauses, matrix, trail, propagated);
    var s := ScanOccurrences(clauses, matrix[n - trail[propagated]], trail);
    if s.Forced? {
      assert (trail + [s.lit])[..|trail|] == trail;
    }
  }

  /** What one round finds is so: a conflict is a clause false under the
      trail, and a literal the round appends is forced by a clause. */
  lemma RoundMeaning(n: nat, clauses: Cnf, matrix: seq<seq<nat>>, trail: seq<int>, propagated: nat)
    requires Setting(n, clauses, matrix) && TrailOk(trail, n) && propagated < |trail|
    ensures var r := PropagateOne(n, clauses, matrix, trail, propagated);
      r.conflict ==> exists k :: 0 <= k < |clauses| && Falsified(clauses[k], trail)
    ensures var r := PropagateOne(n, clauses, matrix, trail, propagated);
      |r.trail| > |trail| ==> exists k :: 0 <= k < |clauses| && Justifies(clauses[k], r.trail[|trail|], trail)
  {
    var occ := matrix[n - trail[propagated]];
    var s := ScanOccurrences(clauses, occ, trail);
    ScanMeaning(clauses, occ, 0, trail);
    if s.Conflict? {
      var i :| 0 <= i < |occ| && Falsified(clauses[occ[i]], trail);
      assert occ[i] < |clauses|;
    } else if s.Forced? {
      var i :| 0 <= i < |occ| && Justifies(clauses[occ[i]], s.lit, trail);
      assert occ[i] < |clauses|;
      assert PropagateOne(n, clauses, matrix, trail, propagated).trail == trail + [s.lit];
    }
  }

  /** `propagate` from the trail and the propagated index it starts with:
      rounds until a conflict or until the whole trail is propagated. */
  ghost function PropagateFrom(n: nat, clauses: Cnf, matrix: seq<seq<nat>>, trail: seq<int>, propagated: nat): Propagation
    requires Setting(n, clauses, matrix) && TrailOk(trail, n) && propagated <= |trail|
    decreases n - propagated
  {
    TrailBound(trail, n);
    if propagated == |trail| then Propagation(trail, propagated, false)
    else
      var r := PropagateOne(n, clauses, matrix, trail, propagated);
      if r.conflict then r else PropagateFrom(n, clauses, matrix, r.trail, r.propagated)
  }

  /** Propagation only extends the trail, keeps it over distinct
      variables, and without a conflict propagates all of it. */
  lemma {:induction false} PropagateShape(n: nat, clauses: Cnf, matrix: seq<seq<nat>>, trail: seq<int>, propagated: nat)
    requires Setting(n, clauses, matrix) && TrailOk(trail, n) && propagated <= |trail|
    ensures var r := PropagateFrom(n, clauses, matrix, trail, propagated);
      |trail| <= |r.trail| && r.trail[..|trail|] == trail
      && TrailOk(r.trail, n)
      && propagated <= r.propagated <= |r.trail|
      && (!r.conflict ==> r.propagated == |r.trail|)
    decreases n - propagated
  {
    if propagated < |trail| {
      PropagateStep(n, clauses, matrix, trail, propagated);
      RoundShape(n, clauses, matrix, trail, propagated);
      var r := PropagateOne(n, clauses, matrix, trail, propagated);
      if !r.conflict {
        PropagateShape(n, clauses, matrix, r.trail, r.propagated);
        var f := PropagateFrom(n, clauses, matrix, r.trail, r.propagated);
        assert f.trail[..|trail|] == f.trail[..|r.trail|][..|trail|];
      }
    }
  }

  /** One step of `PropagateFrom`: a round that ends in a conflict ends
      propagation, any other round is followed by the rest. */
  lemma PropagateStep(n: nat, clauses: Cnf, matrix: seq<seq<nat>>, trail: seq<int>, propagated: nat)
    requires Setting(n, clauses, matrix) && TrailOk(trail, n) && propagated < |trail|
    ensures propagated < n
    ensures var r := PropagateOne(n, clauses, matrix, trail, propagated);
      PropagateFrom(n, clauses, matrix, trail, propagated)
      == if r.conflict then r else PropagateFrom(n, clauses, matrix, r.trail, r.propagated)
  {
    TrailBound(trail, n);
  }

  /** With every literal of the trail propagated, propagation stops. */
  lemma PropagateDone(n: nat, clauses: Cnf, matrix: seq<seq<nat>>, trail: seq<int>)
    requires Setting(n, clauses, matrix) && TrailOk(trail, n)
    ensures PropagateFrom(n, clauses, matrix, trail, |trail|) == Propagation(trail, |trail|, false)
  {
  }

  /** Unfolding `PropagateFrom` past a literal whose scan finds nothing. */
  lemma PropagateExhausted(n: nat, clauses: Cnf, matrix: seq<seq<nat>>, trail: seq<int>, propagated: nat)
    requires Setting(n, clauses, matrix) && TrailOk(trail, n) && propagated < |trail|
    requires ScanOccurrences(clauses, matrix[n - trail[propagated]], trail).Exhausted?
    ensures PropagateFrom(n, clauses, matrix, trail, propagated)
            == PropagateFrom(n, clauses, matrix, trail, propagated + 1)
  {
  }

  /** Unfolding `PropagateFrom` past a literal whose scan forces a unit. */
  lemma PropagateForced(n: nat, clauses: Cnf, matrix: seq<seq<nat>>, trail: seq<int>, propagated: nat, unit: int)
    requires Setting(n, clauses, matrix) && TrailOk(trail, n) && propagated < |trail|
    requires ScanOccurrences(clauses, matrix[n - trail[propagated]], trail) == Forced(unit)
    requires TrailOk(trail + [unit], n)
    ensures PropagateFrom(n, clauses, matrix, trail, propagated)
            == PropagateFrom(n, clauses, matrix, trail + [unit], propagated + 1)
  {
  }

  /** A forced literal is an unassigned literal over the variables. */
  lemma ForcedLit(n: nat, clauses: Cnf, occ: seq<nat>, trail: seq<int>)
    requires forall j :: 0 <= j < |occ| ==> occ[j] < |clauses|
    requires forall k, i :: 0 <= k < |clauses| && 0 <= i < |clauses[k]| ==> IsLit(clauses[k][i], n)
    requires ScanOccurrences(clauses, occ, trail).Forced?
    ensures IsLit(ScanOccurrences(clauses, occ, trail).lit, n)
    ensures Unassigned(ScanOccurrences(clauses, occ, trail).lit, trail)
  {
    var unit := ScanOccurrences(clauses, occ, trail).lit;
    ScanMeaning(clauses, occ, 0, trail);
    var j :| 0 <= j < |occ| && Justifies(clauses[occ[j]], unit, trail);
    var c := clauses[occ[j]];
    var i :| 0 <= i < |c| && c[i] == unit;
  }

  /** A forced literal extends the trail over distinct variables. */
  lemma ForcedExtends(n: nat, clauses: Cnf, occ: seq<nat>, trail: seq<int>)
    requires forall j :: 0 <= j < |occ| ==> occ[j] < |clauses|
    requires forall k, i :: 0 <= k < |clauses| && 0 <= i < |clauses[k]| ==> IsLit(clauses[k][i], n)
    requires TrailOk(trail, n)
    requires ScanOccurrences(clauses, occ, trail).Forced?
    ensures TrailOk(trail + [ScanOccurrences(clauses, occ, trail).lit], n)
  {
    ForcedLit(n, clauses, occ, trail);
    AppendDistinct(trail, ScanOccurrences(clauses, occ, trail).lit);
  }

  /** Every literal propagation adds is forced by a clause under the trail
      before it. */
  lemma {:induction false} PropagateJustified(n: nat, clauses: Cnf, matrix: seq<seq<nat>>, trail: seq<int>, propagated: nat)
    requires Setting(n, clauses, matrix) && TrailOk(trail, n) && propagated <= |trail|
    ensures JustifiedFrom(clauses, PropagateFrom(n, clauses, matrix, trail, propagated).trail, |trail|)
    decreases n - propagated
  {
    if propagated < |trail| {
      PropagateStep(n, clauses, matrix, trail, propagated);
      RoundShape(n, clauses, matrix, trail, propagated);
      var r := PropagateOne(n, clauses, matrix, trail, propagated);
      if !r.conflict {
        PropagateJustified(n, clauses, matrix, r.trail, r.propagated);
        if |r.trail| > |trail| {
          RoundMeaning(n, clauses, matrix, trail, propagated);
          var unit := r.trail[|trail|];
          assert r.trail == trail + [unit];
          PropagateShape(n, clauses, matrix, r.trail, r.propagated);
          ExtendJustified(clauses, trail, unit, PropagateFrom(n, clauses, matrix, r.trail, r.propagated).trail);
        }
      }
    }
  }

  /** A conflict reported by propagation leaves a clause false. */
  lemma {:induction false} PropagateConflict(n: nat, clauses: Cnf, matrix: seq<seq<nat>>, trail: seq<int>, propagated: nat)
    requires Setting(n, clauses, matrix) && TrailOk(trail, n) && propagated <= |trail|
    ensures var r := PropagateFrom(n, clauses, matrix, trail, propagated);
      r.conflict ==> exists k :: 0 <= k < |clauses| && Falsified(clauses[k], r.trail)
    decreases n - propagated
  {
    if propagated < |trail| {
      PropagateStep(n, clauses, matrix, trail, propagated);
      var r := PropagateOne(n, clauses, matrix, trail, propagated);
      RoundMeaning(n, clauses, matrix, trail, propagated);
      if !r.conflict {
        PropagateConflict(n, clauses, matrix, r.trail, r.propagated);
      }
    }
  }

  /** What propagation means for the search: every model making the trail
      true makes the propagated trail true, and when propagation reports a
      conflict no model makes the trail true. */
  lemma PropagateKeepsModels(n: nat, clauses: Cnf, matrix: seq<seq<nat>>, trail: seq<int>, propagated: nat, m: set<int>)
    requires Setting(n, clauses, matrix) && TrailOk(trail, n) && propagated <= |trail|
    requires IsModel(m, clauses, n) && Agrees(m, trail)
    ensures Agrees(m, PropagateFrom(n, clauses, matrix, trail, propagated).trail)
    ensures !PropagateFrom(n, clauses, matrix, trail, propagated).conflict
  {
    var r := PropagateFrom(n, clauses, matrix, trail, propagated);
    PropagateJustified(n, clauses, matrix, trail, propagated);
    PropagateConflict(n, clauses, matrix, trail, propagated);
    PropagateShape(n, clauses, matrix, trail, propagated);
    JustifiedAgrees(m, clauses, n, r.trail, |trail|);
    if r.conflict {
      var k :| 0 <= k < |clauses| && Falsified(clauses[k], r.trail);
      FalsifiedRefutes(m, clauses, n, clauses[k], r.trail);
    }
  }

  /** The case split of `dpll` after a refuted decision: every model making
      the trail true makes the negated decision true. */
  lemma FlipDecision(cnf: Cnf, n: nat, from: seq<int>, t: seq<int>, x: int)
    requires IsLit(x, n)
    requires Entails(cnf, n, from, t) && Refuted(cnf, n, t + [x])
    ensures Entails(cnf, n, from, t + [-x])
  {
    forall m | IsModel(m, cnf, n) && Agrees(m, from)
      ensures Agrees(m, t + [-x])
    {
      assert Agrees(m, t) && !Agrees(m, t + [x]);
      var i :| 0 <= i < |t| + 1 && (t + [x])[i] !in m;
      assert i == |t|;
      var v: int := Abs(x);
      assert v in m || -v in m;
    }
  }

  /** A conflict found by propagation refutes every trail that entails the
      trail propagation started from. */
  lemma ConflictRefutes(n: nat, clauses: Cnf, matrix: seq<seq<nat>>, trail: seq<int>, propagated: nat, from: seq<int>)
    requires Setting(n, clauses, matrix) && TrailOk(trail, n) && propagated <= |trail|
    requires Entails(clauses, n, from, trail)
    requires PropagateFrom(n, clauses, matrix, trail, propagated).conflict
    ensures Refuted(clauses, n, from)
  {
    forall m | IsModel(m, clauses, n)
      ensures !Agrees(m, from)
    {
      if Agrees(m, from) {
        PropagateKeepsModels(n, clauses, matrix, trail, propagated, m);
      }
    }
  }

  /** Propagation without a conflict keeps what the trail it started from
      entails. */
  lemma PropagateEntails(n: nat, clauses: Cnf, matrix: seq<seq<nat>>, trail: seq<int>, propagated: nat, from: seq<int>)
    requires Setting(n, clauses, matrix) && TrailOk(trail, n) && propagated <= |trail|
    requires Entails(clauses, n, from, trail)
    ensures Entails(clauses, n, from, PropagateFrom(n, clauses, matrix, trail, propagated).trail)
  {
    forall m | IsModel(m, clauses, n) && Agrees(m, from)
      ensures Agrees(m, PropagateFrom(n, clauses, matrix, trail, propagated).trail)
    {
      PropagateKeepsModels(n, clauses, matrix, trail, propagated, m);
    }
  }

  /** The clauses [-1, 2], [-2, 3], [-1, -2] over three variables, added in
      this order, and the matrix `add_clause` builds for them (clauses with
      -3, -2, -1, none, 1, 2, 3). */
  const ExampleClauses: Cnf := [[-1, 2], [-2, 3], [-1, -2]]
  const ExampleMatrix: seq<seq<nat>> := [[], [1, 2], [0, 2], [], [], [0], [1]]

  lemma ExampleFirstScan()
    ensures ScanOccurrences(ExampleClauses, [0, 2], [1]) == Forced(2)
  {
    assert !Satisfied([-1, 2], [1]);
    assert UnassignedLits([-1, 2], [1]) == [2];
    ScanStop(ExampleClauses, [0, 2], 0, [1]);
  }

  lemma ExampleSecondScan()
    ensures ScanOccurrences(ExampleClauses, [1, 2], [1, 2]) == Forced(3)
  {
    assert !Satisfied([-2, 3], [1, 2]);
    assert UnassignedLits([-2, 3], [1, 2]) == [3];
    ScanStop(ExampleClauses, [1, 2], 0, [1, 2]);
  }

  lemma ExampleSetting()
    ensures Setting(3, ExampleClauses, ExampleMatrix)
    ensures TrailOk([1], 3) && TrailOk([1, 2], 3) && TrailOk([1, 2, 3], 3)
  {
  }

  lemma ExampleSteps()
    requires Setting(3, ExampleClauses, ExampleMatrix)
    requires TrailOk([1], 3) && TrailOk([1, 2], 3) && TrailOk([1, 2, 3], 3)
    ensures PropagateFrom(3, ExampleClauses, ExampleMatrix, [1], 0)
            == PropagateFrom(3, ExampleClauses, ExampleMatrix, [1, 2], 1)
    ensures PropagateFrom(3, ExampleClauses, ExampleMatrix, [1, 2], 1)
            == PropagateFrom(3, ExampleClauses, ExampleMatrix, [1, 2, 3], 2)
  {
    ExampleFirstScan();
    assert [1] + [2] == [1, 2];
    PropagateForced(3, ExampleClauses, ExampleMatrix, [1], 0, 2);
    ExampleSecondScan();
    assert [1, 2] + [3] == [1, 2, 3];
    PropagateForced(3, ExampleClauses, ExampleMatrix, [1, 2], 1, 3);
  }

  /** The effect of the `break` in `propagate`: with the example clauses and
      the decision 1 on the trail, propagation assigns 2 and 3 and reports no
      conflict, although the clause [-1, -2] is false.  After forcing 2 from
      the first clause the scan of the clauses containing -1 stops before
      reaching [-1, -2], and after forcing 3 the scan of the clauses
      containing -2 stops too. */
  lemma BreakMissesConflict()
    ensures Setting(3, ExampleClauses, ExampleMatrix) && TrailOk([1], 3)
    ensures PropagateFrom(3, ExampleClauses, ExampleMatrix, [1], 0) == Propagation([1, 2, 3], 3, false)
    ensures Falsified(ExampleClauses[2], [1, 2, 3])
  {
    ExampleSetting();
    ExampleSteps();
    PropagateExhausted(3, ExampleClauses, ExampleMatrix, [1, 2, 3], 2);
  }

  class DpllSolver {
    /** The number of variables of the header. */
    const variables: nat
    /** `values[lit + variables]`: 1, -1 or 0 for true, false, unassigned. */
    const values: array<int>
    /** `levels[v]`: the decision level variable v was assigned at. */
    const levels: array<nat>
    /** `matrix[lit + variables]`: the clauses containing lit, as positions in
        `clauses`, once per occurrence. */
    var matrix: seq<seq<nat>>
    var clauses: Cnf
    /** An empty clause, or a unit clause false on arrival. */
    var emptyClause: Option<nat>
    var trail: seq<int>
    /** The trail height at each decision. */
    var control: seq<nat>
    var level: nat
    var propagated: nat
    /** The number of root-level assignments. */
    var fixed: nat
    var conflicts: nat

    ghost predicate Shape() {
      values.Length == 2 * variables + 1
      && levels.Length == variables + 1 && variables < IntMax
    }

    /** The value of a literal as `values[lit]` holds it. */
    function Val(lit: int): int
      reads values
      requires values.Length == 2 * variables + 1 && -(variables as int) <= lit <= variables
    {
      values[lit + variables]
    }

    /** The values array is the trail read as an assignment. */
    ghost predicate ValuesMatch()
      reads this`trail, values
      requires Shape()
    {
      forall lit {:trigger Val(lit)} :: IsLit(lit, variables) ==> Val(lit) == ValueOf(trail, lit)
    }

    /** The control stack holds, one per decision level, non-decreasing
        heights within the trail. */
    ghost predicate ControlOk()
      reads this`control, this`level, this`trail, this`fixed
    {
      |control| == level
      && (forall k :: 0 <= k < |control| ==> control[k] <= |trail|)
      && Ascending(control)
      && fixed == (if level == 0 then |trail| else control[0])
    }

    ghost predicate MatrixOk()
      reads this`clauses, this`matrix
      requires Setting(variables, clauses, matrix)
    {
      Indexed(variables, clauses, matrix)
    }

    ghost predicate Readable()
      reads this`clauses, this`trail, this`matrix, values
    {
      Shape()
      && Setting(variables, clauses, matrix)
      && TrailOk(trail, variables)
      && ValuesMatch()
    }

    ghost predicate Valid()
      reads this`clauses, this`trail, this`control, this`level, this`propagated, this`fixed
      reads this`matrix, values
    {
      Readable()
      && MatrixOk()
      && propagated <= |trail|
      && ControlOk()
    }

    /** An empty clause recorded while adding clauses is false under the
        trail. */
    ghost predicate EmptyRefuted()
      reads this
    {
      emptyClause.Some? ==> emptyClause.value < |clauses| && Falsified(clauses[emptyClause.value], trail)
    }

    /** `initialize`: every literal unassigned, no clause, level 0. */
    constructor (n: nat)
      requires n < IntMax
      ensures Valid() && EmptyRefuted() && Implied(clauses, variables, trail)
      ensures variables == n && clauses == [] && emptyClause == None
      ensures trail == [] && control == [] && level == 0 && propagated == 0
      ensures fixed == 0 && conflicts == 0
    {
      variables := n;
      values := new int[2 * n + 1](_ => 0);
      levels := new nat[n + 1](_ => 0);
      matrix := seq(2 * n + 1, _ => []);
      clauses := [];
      emptyClause := None;
      trail := [];
      control := [];
      level := 0;
      propagated := 0;
      fixed := 0;
      conflicts := 0;
    }

    /** `assign`: make an unassigned literal true at the current level. */
    method Assign(lit: int)
      requires Valid() && IsLit(lit, variables)
      requires Val(lit) == 0 && Val(-lit) == 0
      modifies this`trail, this`fixed, values, levels
      ensures Valid()
      ensures trail == old(trail) + [lit]
      ensures Val(lit) == 1 && Val(-lit) == -1
      ensures levels[Abs(lit)] == level
      ensures forall v :: 0 <= v < levels.Length && v != Abs(lit) ==> levels[v] == old(levels[v])
      ensures fixed == old(fixed) + (if level == 0 then 1 else 0)
      ensures clauses == old(clauses) && emptyClause == old(emptyClause) && matrix == old(matrix) && control == old(control)
      ensures level == old(level) && propagated == old(propagated) && conflicts == old(conflicts)
    {
      ghost var before := trail;
      assert Unassigned(lit, before) by {
        assert ValueOf(before, lit) == 0;
      }
      values[lit + variables] := 1;
      values[-lit + variables] := -1;
      levels[Abs(lit)] := level;
      trail := trail + [lit];
      if level == 0 {
        fixed := fixed + 1;
      }
      AppendDistinct(before, lit);
      forall l | IsLit(l, variables)
        ensures Val(l) == ValueOf(trail, l)
      {
        if l != lit && l != -lit {
          assert Val(l) == old(Val(l)) == ValueOf(before, l);
          assert (l in trail <==> l in before) && (-l in trail <==> -l in before);
        }
      }
    }

    /** `unassign`: clear the values of a literal and its negation, and
        nothing else. */
    method Unassign(lit: int)
      requires Shape() && IsLit(lit, variables)
      modifies values
      ensures Val(lit) == 0 && Val(-lit) == 0
      ensures forall l :: -(variables as int) <= l <= variables && l != lit && l != -lit ==> Val(l) == old(Val(l))
    {
      values[lit + variables] := 0;
      values[-lit + variables] := 0;
    }

    /** `satisfied(c)`: some literal of the clause is true. */
    method SatisfiedClause(k: nat) returns (r: bool)
      requires Readable() && k < |clauses|
      ensures r <==> Satisfied(clauses[k], trail)
    {
      var c := clauses[k];
      for i := 0 to |c|
        invariant forall j :: 0 <= j < i ==> c[j] !in trail
      {
        assert IsLit(c[i], variables) && Val(c[i]) == ValueOf(trail, c[i]);
        if values[c[i] + variables] > 0 {
          return true;
        }
      }
      return false;
    }

    /** `satisfied()`: every clause has a true literal. */
    method SatisfiedAll() returns (r: bool)
      requires Readable()
      ensures r <==> forall k :: 0 <= k < |clauses| ==> Satisfied(clauses[k], trail)
    {
      for k := 0 to |clauses|
        invariant forall j :: 0 <= j < k ==> Satisfied(clauses[j], trail)
      {
        var s := SatisfiedClause(k);
        if !s {
          return false;
        }
      }
      return true;
    }

    /** The counting loop of `propagate`: how many literals of the clause
        are unassigned, and the last of them. */
    method CountUnassigned(k: nat) returns (count: nat, last: int)
      requires Readable() && k < |clauses|
      ensures count == |UnassignedLits(clauses[k], trail)|
      ensures count > 0 ==> last == UnassignedLits(clauses[k], trail)[count - 1]
    {
      var c := clauses[k];
      count, last := 0, 0;
      for i := 0 to |c|
        invariant count == |UnassignedLits(c[..i], trail)|
        invariant count > 0 ==> last == UnassignedLits(c[..i], trail)[count - 1]
      {
        UnassignedLitsSnoc(c, trail, i);
        assert IsLit(c[i], variables);
        assert Val(c[i]) == ValueOf(trail, c[i]);
        if values[c[i] + variables] == 0 {
          count := count + 1;
          last := c[i];
        }
      }
      assert c[..|c|] == c;
    }

    /** The loop of `propagate` over the clauses containing `-lit`:
        satisfied clauses are skipped, a false clause is a conflict, and the
        first clause with one unassigned literal ends the loop (the `break`
        after `assign`). */
    method ScanLiteral(lit: int, ghost t: seq<int>, ghost cs: Cnf, ghost m: seq<seq<nat>>) returns (s: Scan)
      requires Readable() && IsLit(lit, variables)
      requires t == trail && cs == clauses && m == matrix
      ensures s == ScanOccurrences(cs, m[variables - lit], t)
    {
      var occurrences := matrix[-lit + variables];
      var j := 0;
      while j < |occurrences|
        invariant j <= |occurrences|
        invariant ScanFrom(clauses, occurrences, j, trail) == ScanFrom(clauses, occurrences, 0, trail)
      {
        var k := occurrences[j];
        var sat := SatisfiedClause(k);
        if !sat {
          var count, unit := CountUnassigned(k);
          if count <= 1 {
            ScanStop(clauses, occurrences, j, trail);
            return if count == 0 then Conflict else Forced(unit);
          }
        }
        ScanSkip(clauses, occurrences, j, trail);
        j := j + 1;
      }
      return Exhausted;
    }

    /** One round of the outer loop of `propagate`: take the next literal
        to propagate, scan the clauses containing its negation, count a
        conflict or assign the forced literal. */
    method PropagateNext() returns (ok: bool)
      requires Valid() && propagated < |trail|
      modifies this`trail, this`fixed, this`propagated, this`conflicts, values, levels
      ensures Propagation(trail, propagated, !ok)
              == PropagateOne(variables, old(clauses), old(matrix), old(trail), old(propagated))
      ensures Valid()
      ensures conflicts == old(conflicts) + (if ok then 0 else 1)
      ensures clauses == old(clauses) && emptyClause == old(emptyClause) && matrix == old(matrix)
      ensures control == old(control) && level == old(level)
    {
      ghost var t, cs, m := trail, clauses, matrix;
      RoundByScan(variables, cs, m, t, propagated);
      var lit := trail[propagated];
      propagated := propagated + 1;
      var s := ScanLiteral(lit, t, cs, m);
      match s {
        case Conflict =>
          conflicts := conflicts + 1;
          return false;
        case Exhausted =>
          return true;
        case Forced(unit) =>
          ForcedLit(variables, cs, m[variables - lit], t);
          assert Val(unit) == ValueOf(t, unit) && Val(-unit) == ValueOf(t, -unit);
          Assign(unit);
          return true;
      }
    }

    /** `propagate`: propagate the trail literal by literal; stop at the
        first conflict. */
    method Propagate() returns (ok: bool)
      requires Valid()
      modifies this, values, levels
      ensures Valid()
      ensures var r := PropagateFrom(variables, old(clauses), old(matrix), old(trail), old(propagated));
        trail == r.trail && propagated == r.propagated && ok == !r.conflict
      ensures conflicts == old(conflicts) + (if ok then 0 else 1)
      ensures clauses == old(clauses) && emptyClause == old(emptyClause) && matrix == old(matrix)
      ensures control == old(control) && level == old(level)
    {
      ghost var goal := PropagateFrom(variables, clauses, matrix, trail, propagated);
      ok := true;
      while ok && propagated < |trail|
        invariant Valid()
        invariant ok ==> PropagateFrom(variables, clauses, matrix, trail, propagated) == goal
        invariant !ok ==> goal == Propagation(trail, propagated, true)
        invariant clauses == old(clauses) && emptyClause == old(emptyClause) && matrix == old(matrix)
        invariant control == old(control) && level == old(level)
        invariant conflicts == old(conflicts) + (if ok then 0 else 1)
        decreases variables - propagated, if ok then 1 else 0
      {
        PropagateStep(variables, clauses, matrix, trail, propagated);
        ok := PropagateNext();
      }
      if ok {
        PropagateDone(variables, clauses, matrix, trail);
      }
    }

    /** The loop of `add_clause` over the literals of the clause at
        position `k`: `connect_literal` for each. */
    method ConnectLiterals(literals: seq<int>, k: nat)
      requires |matrix| == 2 * variables + 1
      requires forall i :: 0 <= i < |literals| ==> IsLit(literals[i], variables)
      modifies this`matrix
      ensures matrix == Connect(old(matrix), literals, k, variables)
    {
      var i := 0;
      while i < |literals|
        invariant i <= |literals| && |matrix| == 2 * variables + 1
        invariant Connect(matrix, literals[i..], k, variables) == Connect(old(matrix), literals, k, variables)
      {
        assert literals[i..][1..] == literals[i + 1..];
        assert IsLit(literals[i], variables);
        var x := literals[i] + variables;
        matrix := matrix[x := matrix[x] + [k]];
        i := i + 1;
      }
      assert literals[i..] == [];
    }

    /** `add_clause`: store the clause, connect it in the matrix, then
        record an empty clause, assign an unassigned unit, or record a unit
        that is already false. */
    method AddClause(literals: seq<int>) returns (k: nat)
      requires Valid() && EmptyRefuted()
      requires forall i :: 0 <= i < |literals| ==> IsLit(literals[i], variables)
      modifies this, values, levels
      ensures k == |old(clauses)| && clauses == old(clauses) + [literals]
      ensures matrix == Connect(old(matrix), literals, k, variables)
      ensures trail == old(trail) + (if |literals| == 1 && Unassigned(literals[0], old(trail)) then [literals[0]] else [])
      ensures emptyClause == (if |literals| == 0 || (|literals| == 1 && -literals[0] in old(trail)) then Some(k) else old(emptyClause))
      ensures old(Implied(clauses, variables, trail)) ==> Implied(clauses, variables, trail)
      ensures control == old(control) && level == old(level) && propagated == old(propagated) && conflicts == old(conflicts)
      ensures Valid() && EmptyRefuted()
    {
      k := |clauses|;
      ConnectKeepsIndex(variables, clauses, matrix, literals);
      ghost var implied := Implied(clauses, variables, trail);
      if implied {
        AddKeepsImplied(clauses, variables, trail, literals);
      }
      clauses := clauses + [literals];
      ConnectLiterals(literals, k);
      assert Valid();
      if |literals| <= 1 {
        AddShortClause(k);
      }
    }

    /** The special case of `add_clause` for the clause just stored at
        position `k` when it has at most one literal: an empty clause is
        recorded, an unassigned unit assigned, a false unit recorded, and a
        true unit left alone. */
    method AddShortClause(k: nat)
      requires Valid() && EmptyRefuted()
      requires k == |clauses| - 1 && |clauses[k]| <= 1
      modifies this, values, levels
      ensures clauses == old(clauses) && matrix == old(matrix)
      ensures trail == old(trail) + (if |clauses[k]| == 1 && Unassigned(clauses[k][0], old(trail)) then [clauses[k][0]] else [])
      ensures emptyClause == (if |clauses[k]| == 0 || -clauses[k][0] in old(trail) then Some(k) else old(emptyClause))
      ensures control == old(control) && level == old(level) && propagated == old(propagated) && conflicts == old(conflicts)
      ensures Valid() && EmptyRefuted()
    {
      if |clauses[k]| == 0 {
        emptyClause := Some(k);
      } else {
        var unit := clauses[k][0];
        assert IsLit(unit, variables);
        assert Val(unit) == ValueOf(trail, unit) && Val(-unit) == ValueOf(trail, -unit);
        var value := values[unit + variables];
        if value == 0 {
          Assign(unit);
        } else if value < 0 {
          emptyClause := Some(k);
        } else {
          NoClash(trail, unit);
        }
      }
    }

    /** `dpll`: propagate; a conflict answers unsatisfiable, all clauses
        satisfied answers satisfiable; otherwise branch on a decision and
        go round again.  Unsatisfiable means no model makes the trail of the
        call true, and the call returns at its own level with that trail as
        a prefix; satisfiable means the trail satisfies every clause;
        `DecisionFailed` means every variable is assigned while a clause is
        not satisfied. */
    method Dpll() returns (r: Outcome)
      requires Valid()
      modifies this, values, levels
      ensures Valid()
      ensures clauses == old(clauses) && emptyClause == old(emptyClause) && matrix == old(matrix)
      ensures r == Unsatisfiable ==>
        Refuted(clauses, variables, old(trail))
        && level == old(level) && control == old(control)
        && |old(trail)| <= |trail| && trail[..|old(trail)|] == old(trail)
      ensures r == Satisfiable ==> forall k :: 0 <= k < |clauses| ==> Satisfied(clauses[k], trail)
      ensures r == DecisionFailed ==>
        (forall v :: 1 <= v <= variables ==> !Unassigned(v, trail))
        && exists k :: 0 <= k < |clauses| && !Satisfied(clauses[k], trail)
      decreases variables - |trail|, 1
    {
      TrailBound(trail, variables);
      while true
        invariant Valid()
        invariant clauses == old(clauses) && emptyClause == old(emptyClause) && matrix == old(matrix)
        invariant level == old(level) && control == old(control)
        invariant |old(trail)| <= |trail| && trail[..|old(trail)|] == old(trail)
        invariant Entails(clauses, variables, old(trail), trail)
        decreases variables - |trail|
      {
        ghost var start := trail;
        ghost var p0 := propagated;
        PropagateShape(variables, clauses, matrix, trail, propagated);
        PropagateEntails(variables, clauses, matrix, trail, propagated, old(trail));
        var ok := Propagate();
        assert trail[..|old(trail)|] == old(trail) by {
          assert trail[..|old(trail)|] == trail[..|start|][..|old(trail)|];
        }
        if !ok {
          ConflictRefutes(variables, clauses, matrix, start, p0, old(trail));
          r := Unsatisfiable;
          break;
        }
        var sat := SatisfiedAll();
        if sat {
          r := Satisfiable;
          break;
        }
        ghost var decided := trail;
        TrailBound(trail, variables);
        var next := Branch();
        if next.Some? {
          r := next.value;
          break;
        }
        EntailsTrans(clauses, variables, old(trail), decided, trail);
        assert trail[..|old(trail)|] == old(trail) by {
          assert trail[..|old(trail)|] == trail[..|decided|][..|old(trail)|];
        }
        TrailBound(trail, variables);
      }
    }

    /** The rest of a round of `dpll` once the trail is propagated and a
        clause is not satisfied: decide, search below the decision, and when
        that search is refuted backtrack and assign the negated decision.
        `None` stands for the loop going round again: the trail has grown by
        one literal that every model making it true makes true. */
    method Branch() returns (r: Option<Outcome>)
      requires Valid()
      requires exists k :: 0 <= k < |clauses| && !Satisfied(clauses[k], trail)
      modifies this, values, levels
      ensures Valid()
      ensures clauses == old(clauses) && emptyClause == old(emptyClause) && matrix == old(matrix)
      ensures r == None ==>
        level == old(level) && control == old(control)
        && |trail| == |old(trail)| + 1 && trail[..|old(trail)|] == old(trail)
        && Entails(clauses, variables, old(trail), trail)
      ensures r != Some(Unsatisfiable)
      ensures r == Some(Satisfiable) ==> forall k :: 0 <= k < |clauses| ==> Satisfied(clauses[k], trail)
      ensures r == Some(DecisionFailed) ==>
        (forall v :: 1 <= v <= variables ==> !Unassigned(v, trail))
        && exists k :: 0 <= k < |clauses| && !Satisfied(clauses[k], trail)
      decreases variables - |trail|, 0
    {
      TrailBound(trail, variables);
      ghost var decided := trail;
      var x := Decide();
      if x == 0 {
        return Some(DecisionFailed);
      }
      TrailBound(trail, variables);
      var sub := Dpll();
      if sub != Unsatisfiable {
        return Some(sub);
      }
      Backtrack();
      assert trail == decided by {
        assert trail == (decided + [x])[..|decided|];
      }
      FlipDecision(clauses, variables, decided, decided, x);
      assert Val(x) == ValueOf(trail, x) && Val(-x) == ValueOf(trail, -x);
      Assign(-x);
      assert trail[..|decided|] == decided;
      return None;
    }

    /** `solve`: an empty clause found while adding clauses answers
        unsatisfiable; otherwise the search decides.  Starting from a trail
        the formula implies, unsatisfiable means the formula has no model,
        and satisfiable means the trail, completed with positive values for
        unassigned variables, is a model. */
    method Solve() returns (r: Outcome)
      requires Valid() && EmptyRefuted() && Implied(clauses, variables, trail)
      modifies this, values, levels
      ensures r == Unsatisfiable ==> !Clauses.Satisfiable(clauses, variables)
      ensures r == Satisfiable ==> IsModel(Witness(trail, variables), clauses, variables)
      ensures r == DecisionFailed ==> exists k :: 0 <= k < |clauses| && !Satisfied(clauses[k], trail)
    {
      if emptyClause.Some? {
        forall m | IsModel(m, clauses, variables)
          ensures false
        {
          FalsifiedRefutes(m, clauses, variables, clauses[emptyClause.value], trail);
        }
        return Unsatisfiable;
      }
      r := Dpll();
      if r == Satisfiable {
        WitnessIsModel(clauses, variables, trail);
      }
    }

    /** The loop of `decide`: the smallest unassigned variable, 0 when
        every variable is assigned. */
    method FirstUnassigned() returns (res: int)
      requires Valid()
      ensures res == 0 <==> forall v :: 1 <= v <= variables ==> !Unassigned(v, trail)
      ensures res != 0 ==>
        1 <= res <= variables && Unassigned(res, trail)
        && forall v :: 1 <= v < res ==> !Unassigned(v, trail)
    {
      res := 0;
      var i := 1;
      while i <= variables
        invariant 1 <= i <= variables + 1
        invariant forall v :: 1 <= v < i ==> !Unassigned(v, trail)
      {
        assert Val(i) == ValueOf(trail, i);
        if values[i + variables] == 0 {
          return i;
        }
        i := i + 1;
      }
    }

    /** `decide`: the smallest unassigned variable becomes true on a new
        decision level.  When every variable is assigned there is nothing to
        pick; the model returns 0 and changes nothing. */
    method Decide() returns (res: int)
      requires Valid()
      modifies this`trail, this`fixed, this`level, this`control, values, levels
      ensures Valid()
      ensures res == 0 <==> forall v :: 1 <= v <= variables ==> !Unassigned(v, old(trail))
      ensures res == 0 ==> trail == old(trail) && level == old(level) && control == old(control)
      ensures res != 0 ==>
        1 <= res <= variables && Unassigned(res, old(trail))
        && (forall v :: 1 <= v < res ==> !Unassigned(v, old(trail)))
        && trail == old(trail) + [res]
        && level == old(level) + 1 && control == old(control) + [|old(trail)|]
      ensures propagated == old(propagated) && conflicts == old(conflicts)
      ensures clauses == old(clauses) && emptyClause == old(emptyClause) && matrix == old(matrix)
    {
      res := FirstUnassigned();
      if res == 0 {
        return;
      }
      assert Val(res) == ValueOf(trail, res) && Val(-res) == ValueOf(trail, -res);
      level := level + 1;
      AscendingPush(control, |trail|);
      control := control + [|trail|];
      Assign(res);
    }

    /** The loop of `backtrack`: pop and unassign trail literals down to
        `height`. */
    method PopTrail(height: nat)
      requires Shape() && TrailOk(trail, variables) && ValuesMatch() && height <= |trail|
      modifies this`trail, values
      ensures trail == old(trail)[..height]
      ensures TrailOk(trail, variables) && ValuesMatch()
      ensures forall i :: height <= i < |old(trail)| ==> Unassigned(old(trail)[i], trail)
    {
      while |trail| > height
        invariant height <= |trail| <= |old(trail)| && trail == old(trail)[..|trail|]
        invariant TrailOk(trail, variables) && ValuesMatch()
      {
        var last := trail[|trail| - 1];
        var rest := trail[..|trail| - 1];
        assert Unassigned(last, rest) by {
          assert trail == rest + [last];
          forall i | 0 <= i < |rest|
            ensures rest[i] != last && rest[i] != -last
          {
            assert Differ(trail, i, |trail| - 1);
          }
        }
        DistinctPrefix(trail, |trail| - 1);
        Unassign(last);
        trail := rest;
        forall l | IsLit(l, variables)
          ensures Val(l) == ValueOf(trail, l)
        {
          if l != last && l != -last {
            assert (l in rest <==> l in rest + [last]) && (-l in rest <==> -l in rest + [last]);
          }
        }
      }
      forall i | height <= i < |old(trail)|
        ensures Unassigned(old(trail)[i], trail)
      {
        forall j | 0 <= j < |trail|
          ensures trail[j] != old(trail)[i] && trail[j] != -old(trail)[i]
        {
          assert Differ(old(trail), j, i);
        }
      }
    }

    /** `backtrack`: undo the assignments of the current decision level. */
    method Backtrack()
      requires Valid() && level > 0
      modifies this, values
      ensures Valid()
      ensures level == old(level) - 1 && control == old(control)[..level]
      ensures trail == old(trail)[..old(control)[level]] && propagated == |trail|
      ensures forall i :: |trail| <= i < |old(trail)| ==> Unassigned(old(trail)[i], trail)
      ensures clauses == old(clauses) && emptyClause == old(emptyClause) && matrix == old(matrix)
      ensures fixed == old(fixed) && conflicts == old(conflicts)
    {
      AscendingBelow(control, |control| - 1);
      var oldHeight := control[|control| - 1];
      control := control[..|control| - 1];
      PopTrail(oldHeight);
      propagated := |trail|;
      level := level - 1;
    }
  }
}
