/** The CDCL solver of BabySAT (babysat-cdcl.cpp) without its conflict
    analysis: a fixed-size trail with `assigned` and `propagated` cursors,
    levels and reasons per variable, a `searched` cursor for decisions,
    propagation by a full scan of the occurrence lists that returns the
    conflicting clause, and backtracking to any lower level. */
module Cdcl {
  import opened Literals
  import opened Clauses
  import opened Occurrences
  import opened Trails
  import opened DimacsTokens
  import Dpll

  /** The answers of `solve`: the exit codes 10, 20 and 0, and the point
      where a conflict above level 0 hands the conflicting clause to
      `analyze`, which is not part of this model. */
  datatype Outcome = Satisfiable | Unsatisfiable | Unknown | Analyze(clause: nat)

  /** What the loop over the literals of one clause in `propagate`
      decides: skip the clause, report it as conflicting, or assign its
      single non-false literal. */
  datatype Verdict = Skipped | Conflicting | Unit(lit: int)

  /** The verdict on a clause under a trail: a clause with a true literal
      or with two unassigned literals is skipped; otherwise it conflicts
      when no literal is unassigned and forces the one that is. */
  ghost function Classify(c: Clause, t: seq<int>): Verdict {
    if Satisfied(c, t) then Skipped
    else
      var free := UnassignedLits(c, t);
      if |free| == 0 then Conflicting
      else if |free| == 1 then Unit(free[0])
      else Skipped
  }

  /** Under a trail over distinct variables a clause conflicts exactly when
      it is false, and a unit verdict names an unassigned literal the clause
      forces. */
  lemma ClassifyMeaning(n: nat, c: Clause, t: seq<int>)
    requires DistinctVars(t)
    requires forall i :: 0 <= i < |c| ==> IsLit(c[i], n)
    ensures Classify(c, t) == Conflicting <==> Falsified(c, t)
    ensures Classify(c, t).Unit? ==>
      IsLit(Classify(c, t).lit, n) && Unassigned(Classify(c, t).lit, t) && Justifies(c, Classify(c, t).lit, t)
  {
    if Satisfied(c, t) {
      var i :| 0 <= i < |c| && c[i] in t;
      NoClash(t, c[i]);
      assert c[i] in c;
    } else {
      NotSatisfiedVerdict(c, t);
      var free := UnassignedLits(c, t);
      if |free| > 0 {
        var i :| 0 <= i < |c| && c[i] == free[0];
      }
    }
  }

  /** The clauses are over the variables 1 .. n and `occ` lists positions
      in the clause list. */
  ghost predicate Listed(n: nat, clauses: Cnf, occ: seq<nat>) {
    (forall k, i :: 0 <= k < |clauses| && 0 <= i < |clauses[k]| ==> IsLit(clauses[k][i], n))
    && (forall j :: 0 <= j < |occ| ==> occ[j] < |clauses|)
  }

  /** A unit verdict extends the trail over distinct variables. */
  lemma UnitExtends(n: nat, c: Clause, t: seq<int>)
    requires TrailOk(t, n) && Classify(c, t).Unit?
    requires forall i :: 0 <= i < |c| ==> IsLit(c[i], n)
    ensures TrailOk(t + [Classify(c, t).lit], n)
  {
    ClassifyMeaning(n, c, t);
    AppendDistinct(t, Classify(c, t).lit);
  }

  /** The trail and the conflicting clause, if any, the scan of one
      occurrence list leaves. */
  datatype Sweep = Sweep(trail: seq<int>, conflict: Option<nat>)

  /** The loop of `propagate` over an occurrence list from position `j`:
      each clause is classified under the trail as it is at that point; a
      conflicting clause ends the scan, a forced literal is assigned and the
      scan goes on. */
  ghost function SweepFrom(n: nat, clauses: Cnf, occ: seq<nat>, j: nat, t: seq<int>): Sweep
    requires Listed(n, clauses, occ) && TrailOk(t, n) && j <= |occ|
    decreases |occ| - j
  {
    if j == |occ| then Sweep(t, None)
    else
      var c := clauses[occ[j]];
      match Classify(c, t)
      case Conflicting => Sweep(t, Some(occ[j]))
      case Skipped => SweepFrom(n, clauses, occ, j + 1, t)
      case Unit(u) =>
        UnitExtends(n, c, t);
        SweepFrom(n, clauses, occ, j + 1, t + [u])
  }

  /** `t'` extends `t`. */
  ghost predicate Extends(t: seq<int>, t': seq<int>) {
    |t| <= |t'| && t'[..|t|] == t
  }

  /** The scan only appends literals, over distinct variables. */
  lemma {:induction false} SweepShape(n: nat, clauses: Cnf, occ: seq<nat>, j: nat, t: seq<int>)
    requires Listed(n, clauses, occ) && TrailOk(t, n) && j <= |occ|
    ensures Extends(t, SweepFrom(n, clauses, occ, j, t).trail)
    ensures TrailOk(SweepFrom(n, clauses, occ, j, t).trail, n)
    decreases |occ| - j
  {
    if j < |occ| {
      var c := clauses[occ[j]];
      match Classify(c, t)
      case Conflicting =>
      case Skipped =>
        SweepShape(n, clauses, occ, j + 1, t);
      case Unit(u) =>
        UnitExtends(n, c, t);
        SweepShape(n, clauses, occ, j + 1, t + [u]);
        var r := SweepFrom(n, clauses, occ, j + 1, t + [u]).trail;
        assert r[..|t|] == r[..|t| + 1][..|t|];
    }
  }

  /** What the scan finds is so: each literal it appends is forced by a
      clause under the literals before it, and the clause it reports is
      false under the trail it leaves. */
  lemma {:induction false} SweepMeaning(n: nat, clauses: Cnf, occ: seq<nat>, j: nat, t: seq<int>)
    requires Listed(n, clauses, occ) && TrailOk(t, n) && j <= |occ|
    ensures JustifiedFrom(clauses, SweepFrom(n, clauses, occ, j, t).trail, |t|)
    ensures var r := SweepFrom(n, clauses, occ, j, t);
      r.conflict.Some? ==> r.conflict.value < |clauses| && Falsified(clauses[r.conflict.value], r.trail)
    decreases |occ| - j
  {
    if j < |occ| {
      var c := clauses[occ[j]];
      ClassifyMeaning(n, c, t);
      match Classify(c, t)
      case Conflicting =>
      case Skipped =>
        SweepMeaning(n, clauses, occ, j + 1, t);
      case Unit(u) =>
        UnitExtends(n, c, t);
        SweepMeaning(n, clauses, occ, j + 1, t + [u]);
        SweepShape(n, clauses, occ, j + 1, t + [u]);
        assert occ[j] < |clauses|;
        ExtendJustified(clauses, t, u, SweepFrom(n, clauses, occ, j + 1, t + [u]).trail);
    }
  }

  /** A clause propagation need not revisit: it has a true literal, or two
      unassigned ones, or one of its literals became false at position `q`
      or later, so that propagating that position visits it again. */
  ghost predicate Calm(c: Clause, t: seq<int>, q: nat) {
    Satisfied(c, t) || |UnassignedLits(c, t)| >= 2 || exists i :: q <= i < |t| && -t[i] in c
  }

  /** A calm clause stays calm as the trail grows. */
  lemma CalmGrow(c: Clause, t: seq<int>, t': seq<int>, q: nat)
    requires Calm(c, t, q) && q <= |t| && Extends(t, t')
    ensures Calm(c, t', q)
  {
    assert forall p :: 0 <= p < |t| ==> t'[p] == t[p];
    assert forall x :: x in t ==> x in t' by {
      forall x | x in t
        ensures x in t'
      {
        var p :| 0 <= p < |t| && t[p] == x;
        assert t'[p] == x;
      }
    }
    if Satisfied(c, t) {
      var i :| 0 <= i < |c| && c[i] in t;
      assert c[i] in t';
    } else if exists i :: q <= i < |t| && -t[i] in c {
      var i :| q <= i < |t| && -t[i] in c;
      assert t'[i] == t[i];
    } else if exists i :: 0 <= i < |c| && Unassigned(c[i], t) && !Unassigned(c[i], t') {
      var i :| 0 <= i < |c| && Unassigned(c[i], t) && !Unassigned(c[i], t');
      if c[i] !in t' {
        var p :| 0 <= p < |t'| && t'[p] == -c[i];
        assert -t'[p] in c;
      }
    } else {
      UnassignedLitsSame(c, t, t');
    }
  }

  /** A scan that finds no conflict leaves every clause it visited calm
      from the trail height it started at. */
  lemma {:induction false} SweepCalm(n: nat, clauses: Cnf, occ: seq<nat>, j: nat, t: seq<int>)
    requires Listed(n, clauses, occ) && TrailOk(t, n) && j <= |occ|
    requires SweepFrom(n, clauses, occ, j, t).conflict.None?
    ensures forall i :: j <= i < |occ| ==> Calm(clauses[occ[i]], SweepFrom(n, clauses, occ, j, t).trail, |t|)
    decreases |occ| - j
  {
    if j < |occ| {
      var c := clauses[occ[j]];
      var r := SweepFrom(n, clauses, occ, j, t).trail;
      var t1 := t;
      if Classify(c, t).Unit? {
        var u := Classify(c, t).lit;
        UnitExtends(n, c, t);
        t1 := t + [u];
        var i :| 0 <= i < |c| && c[i] == u;
        assert c[i] in t1;
      }
      assert SweepFrom(n, clauses, occ, j, t) == SweepFrom(n, clauses, occ, j + 1, t1);
      SweepCalm(n, clauses, occ, j + 1, t1);
      SweepShape(n, clauses, occ, j + 1, t1);
      assert Calm(c, t1, |t|);
      CalmGrow(c, t1, r, |t|);
      forall i | j + 1 <= i < |occ|
        ensures Calm(clauses[occ[i]], r, |t|)
      {
        assert Calm(clauses[occ[i]], r, |t1|);
      }
    }
  }

  /** The clauses at positions below `j` of an occurrence list are calm. */
  ghost predicate CalmUpTo(clauses: Cnf, occ: seq<nat>, j: nat, t: seq<int>, q: nat) {
    forall i :: 0 <= i < j && i < |occ| ==> occ[i] < |clauses| && Calm(clauses[occ[i]], t, q)
  }

  lemma CalmUpToGrow(clauses: Cnf, occ: seq<nat>, j: nat, t: seq<int>, t': seq<int>, q: nat)
    requires CalmUpTo(clauses, occ, j, t, q) && q <= |t| && Extends(t, t')
    ensures CalmUpTo(clauses, occ, j, t', q)
  {
    forall i | 0 <= i < j && i < |occ|
      ensures Calm(clauses[occ[i]], t', q)
    {
      CalmGrow(clauses[occ[i]], t, t', q);
    }
  }

  /** Appending a literal a clause forces keeps a trail an extension by
      justified literals. */
  lemma ExtendsByForced(clauses: Cnf, t0: seq<int>, t: seq<int>, x: int, k: nat)
    requires Extends(t0, t) && JustifiedFrom(clauses, t, |t0|)
    requires k < |clauses| && Justifies(clauses[k], x, t)
    ensures Extends(t0, t + [x]) && JustifiedFrom(clauses, t + [x], |t0|)
  {
    var t' := t + [x];
    assert t'[..|t|] == t;
    ExtendsChain(clauses, t0, t, t');
  }

  /** One clause of the scan, as the loop of `propagate` sees it: when the
      clause does not conflict, the trail after it (with its forced
      literal, if any) still extends the start by justified literals, and
      every clause visited so far, this one included, is calm from the
      height the scan started at. */
  lemma SweepVisit(n: nat, clauses: Cnf, occ: seq<nat>, j: nat, t0: seq<int>, t: seq<int>)
    requires Listed(n, clauses, occ) && j < |occ| && TrailOk(t, n)
    requires Extends(t0, t) && JustifiedFrom(clauses, t, |t0|)
    requires CalmUpTo(clauses, occ, j, t, |t0|)
    requires Classify(clauses[occ[j]], t) != Conflicting
    ensures var v := Classify(clauses[occ[j]], t);
      var t' := t + (if v.Unit? then [v.lit] else []);
      Extends(t0, t') && JustifiedFrom(clauses, t', |t0|)
      && CalmUpTo(clauses, occ, j + 1, t', |t0|)
  {
    var c := clauses[occ[j]];
    var v := Classify(c, t);
    ClassifyMeaning(n, c, t);
    if v.Unit? {
      var t' := t + [v.lit];
      ExtendsByForced(clauses, t0, t, v.lit, occ[j]);
      assert Extends(t, t') by {
        assert t'[..|t|] == t;
      }
      CalmUpToGrow(clauses, occ, j, t, t', |t0|);
      var m :| 0 <= m < |c| && c[m] == v.lit;
      assert c[m] in t';
      assert Calm(c, t', |t0|);
    } else {
      assert t + [] == t;
      assert Calm(c, t, |t0|);
    }
  }

  /** The state `propagate` leaves: the trail, how much of it is
      propagated, and the clause it returns, if any. */
  datatype Propagation = Propagation(trail: seq<int>, propagated: nat, conflict: Option<nat>)

  /** One round of the outer loop of `propagate`: the literal at position
      `p` is taken and the clauses containing its negation are scanned. */
  ghost function PropagateOne(n: nat, clauses: Cnf, matrix: seq<seq<nat>>, t: seq<int>, p: nat): Propagation
    requires Setting(n, clauses, matrix) && TrailOk(t, n) && p < |t|
  {
    var s := SweepFrom(n, clauses, matrix[n - t[p]], 0, t);
    Propagation(s.trail, p + 1, s.conflict)
  }

  /** A round only appends literals, over distinct variables. */
  lemma RoundShape(n: nat, clauses: Cnf, matrix: seq<seq<nat>>, t: seq<int>, p: nat)
    requires Setting(n, clauses, matrix) && TrailOk(t, n) && p < |t|
    ensures var r := PropagateOne(n, clauses, matrix, t, p);
      Extends(t, r.trail) && TrailOk(r.trail, n) && r.propagated == p + 1
  {
    SweepShape(n, clauses, matrix[n - t[p]], 0, t);
  }

  /** `propagate` from the trail and the propagated index it starts with:
      rounds until a conflict or until the whole trail is propagated. */
  ghost function PropagateFrom(n: nat, clauses: Cnf, matrix: seq<seq<nat>>, t: seq<int>, p: nat): Propagation
    requires Setting(n, clauses, matrix) && TrailOk(t, n) && p <= |t|
    decreases n - p
  {
    TrailBound(t, n);
    if p == |t| then Propagation(t, p, None)
    else
      var r := PropagateOne(n, clauses, matrix, t, p);
      RoundShape(n, clauses, matrix, t, p);
      if r.conflict.Some? then r else PropagateFrom(n, clauses, matrix, r.trail, r.propagated)
  }

  /** One step of `PropagateFrom`. */
  lemma PropagateStep(n: nat, clauses: Cnf, matrix: seq<seq<nat>>, t: seq<int>, p: nat)
    requires Setting(n, clauses, matrix) && TrailOk(t, n) && p < |t|
    ensures p < n
    ensures var r := PropagateOne(n, clauses, matrix, t, p);
      TrailOk(r.trail, n) && r.propagated <= |r.trail|
      && PropagateFrom(n, clauses, matrix, t, p)
         == if r.conflict.Some? then r else PropagateFrom(n, clauses, matrix, r.trail, r.propagated)
  {
    TrailBound(t, n);
    RoundShape(n, clauses, matrix, t, p);
  }

  /** With every literal of the trail propagated, propagation stops. */
  lemma PropagateDone(n: nat, clauses: Cnf, matrix: seq<seq<nat>>, t: seq<int>)
    requires Setting(n, clauses, matrix) && TrailOk(t, n)
    ensures PropagateFrom(n, clauses, matrix, t, |t|) == Propagation(t, |t|, None)
  {
  }

  /** Propagation only extends the trail, keeps it over distinct
      variables, and without a conflict propagates all of it. */
  lemma {:induction false} PropagateShape(n: nat, clauses: Cnf, matrix: seq<seq<nat>>, t: seq<int>, p: nat)
    requires Setting(n, clauses, matrix) && TrailOk(t, n) && p <= |t|
    ensures var r := PropagateFrom(n, clauses, matrix, t, p);
      Extends(t, r.trail) && TrailOk(r.trail, n)
      && p <= r.propagated <= |r.trail|
      && (r.conflict.None? ==> r.propagated == |r.trail|)
    decreases n - p
  {
    if p < |t| {
      PropagateStep(n, clauses, matrix, t, p);
      RoundShape(n, clauses, matrix, t, p);
      var r := PropagateOne(n, clauses, matrix, t, p);
      if r.conflict.None? {
        PropagateShape(n, clauses, matrix, r.trail, r.propagated);
        var f := PropagateFrom(n, clauses, matrix, r.trail, r.propagated);
        assert f.trail[..|t|] == f.trail[..|r.trail|][..|t|];
      }
    }
  }

  /** What propagation finds is so: every literal it appends is forced by a
      clause under the literals before it, and the clause it returns is
      false. */
  lemma {:induction false} PropagateMeaning(n: nat, clauses: Cnf, matrix: seq<seq<nat>>, t: seq<int>, p: nat)
    requires Setting(n, clauses, matrix) && TrailOk(t, n) && p <= |t|
    ensures JustifiedFrom(clauses, PropagateFrom(n, clauses, matrix, t, p).trail, |t|)
    ensures var r := PropagateFrom(n, clauses, matrix, t, p);
      r.conflict.Some? ==> r.conflict.value < |clauses| && Falsified(clauses[r.conflict.value], r.trail)
    decreases n - p
  {
    if p < |t| {
      PropagateStep(n, clauses, matrix, t, p);
      RoundShape(n, clauses, matrix, t, p);
      SweepMeaning(n, clauses, matrix[n - t[p]], 0, t);
      var r := PropagateOne(n, clauses, matrix, t, p);
      if r.conflict.None? {
        PropagateMeaning(n, clauses, matrix, r.trail, r.propagated);
        PropagateShape(n, clauses, matrix, r.trail, r.propagated);
        var f := PropagateFrom(n, clauses, matrix, r.trail, r.propagated).trail;
        forall i | |t| <= i < |f|
          ensures JustifiedAt(clauses, f, i)
        {
          if i < |r.trail| {
            assert f[..i] == r.trail[..i] && f[i] == r.trail[i] by {
              assert f[..|r.trail|] == r.trail;
            }
            assert JustifiedAt(clauses, r.trail, i);
          }
        }
      }
    }
  }

  /** Every clause with a literal made false before position `q` is calm:
      propagating the trail up to `q` has left nothing to force or to
      report in it. */
  ghost predicate Quiet(clauses: Cnf, t: seq<int>, q: nat) {
    forall k, i {:trigger QuietAt(clauses, t, q, k, i)} :: QuietAt(clauses, t, q, k, i)
  }

  /** Clause k is calm if it holds the negation of the literal at trail
      position i below `q`.  `Quiet` is quantified over this predicate
      only, so that a proof names the clause and position it needs. */
  ghost predicate QuietAt(clauses: Cnf, t: seq<int>, q: nat, k: int, i: int) {
    0 <= k < |clauses| && 0 <= i < q && i < |t| && -t[i] in clauses[k] ==> Calm(clauses[k], t, q)
  }

  /** One clause after a round on the literal at position `q`: calm from
      the round if it contains the negation of that literal, calm from
      before otherwise. */
  lemma CalmRound(c: Clause, t: seq<int>, r: seq<int>, q: nat)
    requires q < |t| && Extends(t, r)
    requires -t[q] in c ==> Calm(c, r, |t|)
    requires -t[q] !in c ==> Calm(c, t, q)
    ensures Calm(c, r, q + 1)
  {
    assert r[q] == t[q] by {
      assert r[..|t|][q] == t[q];
    }
    if -t[q] in c {
      if !Satisfied(c, r) && |UnassignedLits(c, r)| < 2 {
        var p :| |t| <= p < |r| && -r[p] in c;
        assert q + 1 <= p;
      }
    } else {
      CalmGrow(c, t, r, q);
      if !Satisfied(c, r) && |UnassignedLits(c, r)| < 2 {
        var p :| q <= p < |r| && -r[p] in c;
        assert p != q;
      }
    }
  }

  /** The clauses a round on position `q` visits, all calm from the
      height the round started at. */
  ghost predicate Visited(n: nat, clauses: Cnf, matrix: seq<seq<nat>>, t: seq<int>, r: seq<int>, q: nat)
    requires Setting(n, clauses, matrix) && TrailOk(t, n) && q < |t|
  {
    var occ := matrix[n - t[q]];
    CalmUpTo(clauses, occ, |occ|, r, |t|)
  }

  /** One clause after a round: calm, or without a literal made false at
      or before position `q`. */
  lemma RoundClause(n: nat, clauses: Cnf, matrix: seq<seq<nat>>, t: seq<int>, r: seq<int>, q: nat, k: nat)
    requires Setting(n, clauses, matrix) && Indexed(n, clauses, matrix)
    requires TrailOk(t, n) && q < |t| && Quiet(clauses, t, q) && k < |clauses|
    requires Extends(t, r) && Visited(n, clauses, matrix, t, r, q)
    ensures Calm(clauses[k], r, q + 1) || forall i :: 0 <= i <= q && i < |r| ==> -r[i] !in clauses[k]
  {
    var occ := matrix[n - t[q]];
    var c := clauses[k];
    if -t[q] in c {
      var j :| 0 <= j < |c| && c[j] == -t[q];
      assert k in matrix[c[j] + n];
      var m :| 0 <= m < |occ| && occ[m] == k;
      assert Calm(clauses[occ[m]], r, |t|);
      CalmRound(c, t, r, q);
    } else if exists i :: 0 <= i < q && -t[i] in c {
      var i :| 0 <= i < q && -t[i] in c;
      assert QuietAt(clauses, t, q, k, i);
      CalmRound(c, t, r, q);
    } else {
      forall i | 0 <= i <= q && i < |r|
        ensures -r[i] !in c
      {
        assert r[..|t|][i] == t[i];
      }
    }
  }

  /** A round without a conflict moves the quiet part up by one literal:
      the clauses containing the negation of the propagated literal are
      exactly the ones the round visits. */
  lemma RoundQuiet(n: nat, clauses: Cnf, matrix: seq<seq<nat>>, t: seq<int>, r: seq<int>, q: nat)
    requires Setting(n, clauses, matrix) && Indexed(n, clauses, matrix)
    requires TrailOk(t, n) && q < |t| && Quiet(clauses, t, q)
    requires Extends(t, r) && Visited(n, clauses, matrix, t, r, q)
    ensures Quiet(clauses, r, q + 1)
  {
    var q' := q + 1;
    forall k, i
      ensures QuietAt(clauses, r, q', k, i)
    {
      if 0 <= k < |clauses| {
        RoundClause(n, clauses, matrix, t, r, q, k);
      }
    }
  }

  /** Two extensions by justified literals make one. */
  lemma ExtendsChain(clauses: Cnf, t0: seq<int>, t: seq<int>, t': seq<int>)
    requires Extends(t0, t) && JustifiedFrom(clauses, t, |t0|)
    requires Extends(t, t') && JustifiedFrom(clauses, t', |t|)
    ensures Extends(t0, t') && JustifiedFrom(clauses, t', |t0|)
  {
    assert t'[..|t0|] == t'[..|t|][..|t0|];
    forall i | |t0| <= i < |t'|
      ensures JustifiedAt(clauses, t', i)
    {
      if i < |t| {
        assert t'[..i] == t[..i] && t'[i] == t[i] by {
          assert t'[..|t|] == t;
        }
        assert JustifiedAt(clauses, t, i);
      }
    }
  }

  /** Propagation without a conflict leaves every clause with a false
      literal calm. */
  lemma {:induction false} PropagateQuiet(n: nat, clauses: Cnf, matrix: seq<seq<nat>>, t: seq<int>, p: nat)
    requires Setting(n, clauses, matrix) && Indexed(n, clauses, matrix)
    requires TrailOk(t, n) && p <= |t| && Quiet(clauses, t, p)
    requires PropagateFrom(n, clauses, matrix, t, p).conflict.None?
    ensures var r := PropagateFrom(n, clauses, matrix, t, p); Quiet(clauses, r.trail, |r.trail|)
    decreases n - p
  {
    if p < |t| {
      PropagateStep(n, clauses, matrix, t, p);
      var r := PropagateOne(n, clauses, matrix, t, p);
      SweepCalm(n, clauses, matrix[n - t[p]], 0, t);
      SweepShape(n, clauses, matrix[n - t[p]], 0, t);
      RoundQuiet(n, clauses, matrix, t, r.trail, p);
      PropagateQuiet(n, clauses, matrix, r.trail, r.propagated);
    }
  }

  /** Under a fully quiet trail no clause with a literal is false. */
  lemma QuietNoFalse(n: nat, clauses: Cnf, t: seq<int>)
    requires TrailOk(t, n) && Quiet(clauses, t, |t|)
    ensures forall k :: 0 <= k < |clauses| && |clauses[k]| > 0 ==> !Falsified(clauses[k], t)
  {
    forall k | 0 <= k < |clauses| && |clauses[k]| > 0
      ensures !Falsified(clauses[k], t)
    {
      var c := clauses[k];
      if -c[0] in t {
        var i :| 0 <= i < |t| && t[i] == -c[0];
        assert -t[i] in c;
        assert QuietAt(clauses, t, |t|, k, i);
        if Satisfied(c, t) {
          var j :| 0 <= j < |c| && c[j] in t;
          NoClash(t, c[j]);
          assert c[j] in c;
        } else {
          var free := UnassignedLits(c, t);
          assert free[0] in c && -free[0] !in t;
        }
      } else {
        assert c[0] in c;
      }
    }
  }

  /** With every variable assigned, a fully quiet trail satisfies every
      clause with a literal. */
  lemma QuietFull(n: nat, clauses: Cnf, t: seq<int>)
    requires TrailOk(t, n) && |t| == n && Quiet(clauses, t, |t|)
    requires forall k, i :: 0 <= k < |clauses| && 0 <= i < |clauses[k]| ==> IsLit(clauses[k][i], n)
    ensures forall k :: 0 <= k < |clauses| && |clauses[k]| > 0 ==> Satisfied(clauses[k], t)
  {
    QuietNoFalse(n, clauses, t);
    FullTrail(t, n);
    forall k | 0 <= k < |clauses| && |clauses[k]| > 0
      ensures Satisfied(clauses[k], t)
    {
      var c := clauses[k];
      var x :| x in c && -x !in t;
      var i :| 0 <= i < |c| && c[i] == x;
      assert IsLit(x, n);
      var v: int := Abs(x);
      assert !Unassigned(v, t);
    }
  }

  /** The intended property of propagation that the `break` in the DPLL
      solver loses, as the full scan here has it: propagation from the
      start of a trail that reports no conflict leaves no clause with a
      literal false. */
  lemma FullScanMissesNoConflict(n: nat, clauses: Cnf, matrix: seq<seq<nat>>, t: seq<int>)
    requires Setting(n, clauses, matrix) && Indexed(n, clauses, matrix) && TrailOk(t, n)
    ensures var r := PropagateFrom(n, clauses, matrix, t, 0);
      r.conflict.None? ==> forall k :: 0 <= k < |clauses| && |clauses[k]| > 0 ==> !Falsified(clauses[k], r.trail)
  {
    var r := PropagateFrom(n, clauses, matrix, t, 0);
    if r.conflict.None? {
      PropagateQuiet(n, clauses, matrix, t, 0);
      PropagateShape(n, clauses, matrix, t, 0);
      QuietNoFalse(n, clauses, r.trail);
    }
  }

  /** On the example where the DPLL scan misses the conflict, the full scan
      assigns 2 from [-1, 2] and then returns [-1, -2] as conflicting. */
  lemma ExampleFindsConflict()
    ensures Setting(3, Dpll.ExampleClauses, Dpll.ExampleMatrix) && TrailOk([1], 3)
    ensures PropagateFrom(3, Dpll.ExampleClauses, Dpll.ExampleMatrix, [1], 0) == Propagation([1, 2], 1, Some(2))
  {
    Dpll.ExampleSetting();
    var cs, m := Dpll.ExampleClauses, Dpll.ExampleMatrix;
    assert m[3 - 1] == [0, 2];
    assert !Satisfied(cs[0], [1]) && UnassignedLits(cs[0], [1]) == [2];
    assert Classify(cs[0], [1]) == Unit(2);
    assert [1] + [2] == [1, 2];
    assert !Satisfied(cs[2], [1, 2]) && UnassignedLits(cs[2], [1, 2]) == [];
    assert Classify(cs[2], [1, 2]) == Conflicting;
    assert SweepFrom(3, cs, [0, 2], 1, [1, 2]) == Sweep([1, 2], Some(2));
    assert SweepFrom(3, cs, [0, 2], 0, [1]) == Sweep([1, 2], Some(2));
    assert PropagateOne(3, cs, m, [1], 0) == Propagation([1, 2], 1, Some(2));
  }

  /** A decision on a fully propagated trail leaves the clauses quiet up to
      the decision, which is what `propagate` starts from. */
  lemma QuietDecide(clauses: Cnf, t: seq<int>, x: int)
    requires Quiet(clauses, t, |t|)
    ensures Quiet(clauses, t + [x], |t|)
  {
    var t' := t + [x];
    assert t'[..|t|] == t;
    forall k, i
      ensures QuietAt(clauses, t', |t|, k, i)
    {
      if 0 <= k < |clauses| && 0 <= i < |t| && -t'[i] in clauses[k] {
        assert t'[i] == t[i] && QuietAt(clauses, t, |t|, k, i);
        CalmGrow(clauses[k], t, t', |t|);
      }
    }
  }

  /** Literals forced under an implied trail are implied too. */
  lemma ImpliedExtends(clauses: Cnf, n: nat, t: seq<int>, t': seq<int>)
    requires Implied(clauses, n, t) && Extends(t, t') && JustifiedFrom(clauses, t', |t|)
    ensures Implied(clauses, n, t')
  {
    forall m | IsModel(m, clauses, n)
      ensures Agrees(m, t')
    {
      assert t'[..|t|] == t;
      JustifiedAgrees(m, clauses, n, t', |t|);
    }
  }

  /** A clause false under a trail the formula implies leaves the formula
      without a model. */
  lemma ImpliedConflict(clauses: Cnf, n: nat, t: seq<int>, k: nat)
    requires Implied(clauses, n, t) && k < |clauses| && Falsified(clauses[k], t)
    ensures !Clauses.Satisfiable(clauses, n)
  {
    forall m | IsModel(m, clauses, n)
      ensures false
    {
      FalsifiedRefutes(m, clauses, n, clauses[k], t);
    }
  }

  /** A full, fully quiet trail satisfies every clause when none is empty,
      and gives a model. */
  lemma QuietModel(n: nat, clauses: Cnf, t: seq<int>)
    requires TrailOk(t, n) && |t| == n && Quiet(clauses, t, |t|)
    requires forall k, i :: 0 <= k < |clauses| && 0 <= i < |clauses[k]| ==> IsLit(clauses[k][i], n)
    requires forall k :: 0 <= k < |clauses| ==> |clauses[k]| > 0
    ensures forall k :: 0 <= k < |clauses| ==> Clauses.Satisfied(clauses[k], t)
    ensures IsModel(Witness(t, n), clauses, n)
  {
    QuietFull(n, clauses, t);
    WitnessIsModel(clauses, n, t);
  }

  class CdclSolver {
    /** The number of variables of the header. */
    const variables: nat
    /** `values[lit + variables]`: 1, -1 or 0 for true, false, unassigned. */
    const values: array<int>
    /** `levels[v]`: the decision level variable v was assigned at. */
    const levels: array<nat>
    /** `reasons[v]`: the position of the clause that forced v, none for a
        decision or a unit clause. */
    const reasons: array<Option<nat>>
    /** The fixed-size trail; its literals are those below `assignedEnd`. */
    const trail: array<int>
    /** The end of the assigned literals on the trail (`assigned`). */
    var assignedEnd: nat
    /** The assigned literals, oldest first: `trail[..assignedEnd]`. */
    ghost var onTrail: seq<int>
    var propagated: nat
    /** `matrix[lit + variables]`: the clauses containing lit, as positions in
        `clauses`, once per occurrence. */
    var matrix: seq<seq<nat>>
    var clauses: Cnf
    /** An empty clause, or a unit clause false on arrival. */
    var emptyClause: Option<nat>
    /** The trail height at each decision. */
    var control: seq<nat>
    var level: nat
    /** The number of root-level assignments. */
    var fixed: nat
    var conflicts: nat
    /** The variable `decide` starts looking from: all below it are
        assigned. */
    var searched: nat

    ghost predicate Shape() {
      values.Length == 2 * variables + 1 && levels.Length == variables + 1
      && reasons.Length == variables + 1 && trail.Length == variables + 1
      && values != trail && variables < IntMax
    }


    /** The value of a literal as `values[lit]` holds it. */
    function Val(lit: int): int
      reads values
      requires values.Length == 2 * variables + 1 && -(variables as int) <= lit <= variables
    {
      values[lit + variables]
    }

    /** The values array is the trail read as an assignment. */
    ghost predicate ValuesMatch()
      reads this`onTrail, values
      requires Shape()
    {
      forall lit {:trigger Val(lit)} :: IsLit(lit, variables) ==> Val(lit) == ValueOf(onTrail, lit)
    }

    ghost predicate Readable()
      reads this`clauses, this`assignedEnd, this`onTrail, this`matrix, trail, values
    {
      Shape() && assignedEnd <= variables
      && assignedEnd == |onTrail| && trail[..assignedEnd] == onTrail
      && Setting(variables, clauses, matrix)
      && TrailOk(onTrail, variables)
      && ValuesMatch()
    }

    /** The control stack holds, one per decision level, non-decreasing
        heights within the trail; the root-level assignments are those
        below the first. */
    ghost predicate ControlOk()
      reads this`control, this`level, this`assignedEnd, this`fixed
    {
      |control| == level
      && (forall k :: 0 <= k < |control| ==> control[k] <= assignedEnd)
      && Ascending(control)
      && fixed == (if level == 0 then assignedEnd else control[0])
    }

    /** Every variable below `searched` is assigned. */
    ghost predicate SearchedOk()
      reads this`searched, this`onTrail
    {
      1 <= searched <= variables + 1
      && forall v :: 1 <= v < searched ==> !Unassigned(v, onTrail)
    }

    /** The levels agree with the control stack and every reason forces
        its literal. */
    ghost predicate Recorded()
      reads this`onTrail, this`control, this`level, this`clauses, levels, reasons
    {
      Leveled(onTrail, levels[..], control, level) && Reasoned(onTrail, reasons[..], clauses)
    }

    ghost predicate Valid()
      reads this, trail, values, levels, reasons
    {
      Readable()
      && Indexed(variables, clauses, matrix)
      && propagated <= assignedEnd
      && ControlOk()
      && SearchedOk()
      && Recorded()
    }

    /** A recorded empty clause is false under the trail; without one no
        clause is empty. */
    ghost predicate EmptyRecorded()
      reads this
    {
      (emptyClause.Some? ==> emptyClause.value < |clauses| && Falsified(clauses[emptyClause.value], onTrail))
      && (emptyClause.None? ==> forall k :: 0 <= k < |clauses| ==> |clauses[k]| > 0)
    }

    /** `initialize`: every literal unassigned, no clause, level 0. */
    constructor (n: nat)
      requires n < IntMax
      ensures Valid() && EmptyRecorded() && Implied(clauses, variables, onTrail)
      ensures variables == n && clauses == [] && emptyClause == None && onTrail == []
      ensures control == [] && level == 0 && propagated == 0 && searched == 1
      ensures fixed == 0 && conflicts == 0
    {
      variables := n;
      values := new int[2 * n + 1](_ => 0);
      levels := new nat[n + 1](_ => 0);
      reasons := new Option<nat>[n + 1](_ => None);
      trail := new int[n + 1](_ => 0);
      assignedEnd := 0;
      onTrail := [];
      propagated := 0;
      matrix := seq(2 * n + 1, _ => []);
      clauses := [];
      emptyClause := None;
      control := [];
      level := 0;
      fixed := 0;
      conflicts := 0;
      searched := 1;
    }

    /** `assign`: make an unassigned literal true at the current level with
        the given reason, pushing it at the end of the trail. */
    method Assign(lit: int, reason: Option<nat>)
      requires Valid() && IsLit(lit, variables)
      requires Val(lit) == 0 && Val(-lit) == 0
      requires reason.Some? ==> reason.value < |clauses| && Justifies(clauses[reason.value], lit, onTrail)
      modifies this`assignedEnd, this`onTrail, this`fixed, values, levels, reasons, trail
      ensures Valid()
      ensures onTrail == old(onTrail) + [lit] && assignedEnd == old(assignedEnd) + 1
      ensures Val(lit) == 1 && Val(-lit) == -1
      ensures levels[..] == old(levels[..])[Abs(lit) := level]
      ensures reasons[..] == old(reasons[..])[Abs(lit) := reason]
      ensures fixed == old(fixed) + (if level == 0 then 1 else 0)
    {
      ghost var before := onTrail;
      assert Unassigned(lit, before) by {
        assert ValueOf(before, lit) == 0;
      }
      AppendDistinct(before, lit);
      TrailBound(before + [lit], variables);
      LeveledAssign(before, levels[..], control, level, lit);
      ReasonedAssign(before, reasons[..], clauses, lit, reason);
      Push(lit, reason);
      if level == 0 {
        fixed := fixed + 1;
      }
      forall v | 1 <= v < searched
        ensures !Unassigned(v, onTrail)
      {
        assert !Unassigned(v, before);
      }
    }

    /** The writes of `assign`: the two values, the level and the reason of
        the variable, and the literal at the end of the trail. */
    method Push(lit: int, reason: Option<nat>)
      requires Readable() && IsLit(lit, variables) && Unassigned(lit, onTrail) && assignedEnd < variables
      modifies this`assignedEnd, this`onTrail, values, levels, reasons, trail
      ensures onTrail == old(onTrail) + [lit] && assignedEnd == old(assignedEnd) + 1
      ensures Readable() && Val(lit) == 1 && Val(-lit) == -1
      ensures levels[..] == old(levels[..])[Abs(lit) := level]
      ensures reasons[..] == old(reasons[..])[Abs(lit) := reason]
    {
      ghost var before := onTrail;
      values[lit + variables] := 1;
      values[-lit + variables] := -1;
      levels[Abs(lit)] := level;
      reasons[Abs(lit)] := reason;
      trail[assignedEnd] := lit;
      assignedEnd := assignedEnd + 1;
      onTrail := onTrail + [lit];
      AppendDistinct(before, lit);
      assert trail[..assignedEnd] == old(trail[..assignedEnd]) + [lit];
      forall l | IsLit(l, variables)
        ensures Val(l) == ValueOf(onTrail, l)
      {
        if l != lit && l != -lit {
          assert Val(l) == old(Val(l)) == ValueOf(before, l);
          assert (l in onTrail <==> l in before) && (-l in onTrail <==> -l in before);
        }
      }
      assert levels[..] == old(levels[..])[Abs(lit) := level];
      assert reasons[..] == old(reasons[..])[Abs(lit) := reason];
    }

    /** `unassign`: clear the values of a literal and its negation, and
        lower `searched` to its variable when that is smaller. */
    method Unassign(lit: int)
      requires Shape() && IsLit(lit, variables)
      modifies values, this`searched
      ensures Val(lit) == 0 && Val(-lit) == 0
      ensures forall l :: -(variables as int) <= l <= variables && l != lit && l != -lit ==> Val(l) == old(Val(l))
      ensures searched == if Abs(lit) < old(searched) then Abs(lit) else old(searched)
    {
      values[lit + variables] := 0;
      values[-lit + variables] := 0;
      var tmp := Abs(lit);
      if tmp < searched {
        searched := tmp;
      }
    }

    /** `satisfied()`: with the trail propagated, the search is done when
        every variable is assigned. */
    method Satisfied() returns (r: bool)
      requires Readable() && propagated == assignedEnd
      ensures r <==> forall v :: 1 <= v <= variables ==> !Unassigned(v, onTrail)
    {
      FullTrail(onTrail, variables);
      r := assignedEnd == variables;
    }

    /** The loop of `propagate` over the literals of one clause: a true
        literal, or a second non-false one, skips the clause; otherwise it
        is conflicting, or forces its one non-false literal. */
    method Inspect(c: Clause, ghost t: seq<int>) returns (v: Verdict)
      requires values.Length == 2 * variables + 1
      requires forall j :: 0 <= j < |c| ==> IsLit(c[j], variables) && Val(c[j]) == ValueOf(t, c[j])
      ensures v == Classify(c, t)
    {
      var unit := 0;
      var i := 0;
      while i < |c|
        invariant i <= |c|
        invariant forall j :: 0 <= j < i ==> c[j] !in t
        invariant |UnassignedLits(c[..i], t)| <= 1
        invariant unit == if |UnassignedLits(c[..i], t)| == 1 then UnassignedLits(c[..i], t)[0] else 0
      {
        UnassignedLitsSnoc(c, t, i);
        assert Val(c[i]) == ValueOf(t, c[i]);
        var value := values[c[i] + variables];
        if value > 0 || (value == 0 && unit != 0) {
          if value == 0 {
            UnassignedLitsAppend(c[..i + 1], c[i + 1..], t);
            assert c[..i + 1] + c[i + 1..] == c;
          }
          return Skipped;
        }
        if value == 0 {
          unit := c[i];
        }
        i := i + 1;
      }
      assert c[..i] == c;
      if unit == 0 {
        return Conflicting;
      }
      return Unit(unit);
    }

    /** One clause of the scan in `propagate`: inspect it and, when it
        forces a literal, assign that literal with the clause as reason. */
    method Visit(k: nat) returns (v: Verdict)
      requires Valid() && k < |clauses|
      modifies this`assignedEnd, this`onTrail, this`fixed, values, levels, reasons, trail
      ensures Valid()
      ensures v == Classify(clauses[k], old(onTrail))
      ensures onTrail == old(onTrail) + (if v.Unit? then [v.lit] else [])
      ensures v.Unit? ==> levels[..] == old(levels[..])[Abs(v.lit) := level] && reasons[..] == old(reasons[..])[Abs(v.lit) := Some(k)]
      ensures !v.Unit? ==> levels[..] == old(levels[..]) && reasons[..] == old(reasons[..])
    {
      ghost var t := onTrail;
      var c := clauses[k];
      assert forall j :: 0 <= j < |c| ==> IsLit(c[j], variables) && Val(c[j]) == ValueOf(t, c[j]);
      v := Inspect(c, t);
      if v.Unit? {
        var unit := v.lit;
        ClassifyMeaning(variables, c, t);
        assert Val(unit) == ValueOf(t, unit) && Val(-unit) == ValueOf(t, -unit);
        Assign(unit, Some(k));
      }
    }

    /** The loop of `propagate` over the clauses containing `-lit`: a
        conflicting clause is counted and returned, a forced literal is
        assigned with the clause as its reason, and the scan goes on.  The
        literals it assigns are forced, a returned clause is false, and
        without a conflict every clause it visited is calm, so that when
        `lit` is the trail literal at position `p` and the clauses were
        quiet up to `p`, they are quiet up to `p + 1`. */
    method Sweep(lit: int, ghost p: nat) returns (conflict: Option<nat>)
      requires Valid() && p < |onTrail| && lit == onTrail[p]
      modifies this`assignedEnd, this`onTrail, this`fixed, this`conflicts, values, levels, reasons, trail
      ensures Valid()
      ensures Extends(old(onTrail), onTrail) && JustifiedFrom(clauses, onTrail, old(|onTrail|))
      ensures conflict.Some? ==> conflict.value < |clauses| && Falsified(clauses[conflict.value], onTrail)
      ensures conflict.None? ==> CalmUpTo(clauses, matrix[variables - lit], |matrix[variables - lit]|, onTrail, old(|onTrail|))
      ensures conflict.None? && old(Quiet(clauses, onTrail, p)) ==> Quiet(clauses, onTrail, p + 1)
      ensures conflicts == old(conflicts) + (if conflict.Some? then 1 else 0)
      ensures ForcedSince(old(|onTrail|), old(levels[..]), old(reasons[..]), onTrail, levels[..], reasons[..], level)
    {
      ghost var quiet := Quiet(clauses, onTrail, p);
      assert Setting(variables, clauses, matrix) && Indexed(variables, clauses, matrix) && TrailOk(onTrail, variables);
      var occurrences := matrix[-lit + variables];
      assert Listed(variables, clauses, occurrences);
      ghost var t0 := onTrail;
      ghost var lv0, rs0 := levels[..], reasons[..];
      ForcedNone(t0, lv0, rs0, level);
      var j := 0;
      while j < |occurrences|
        invariant j <= |occurrences| && Valid()
        invariant conflicts == old(conflicts)
        invariant Extends(t0, onTrail) && JustifiedFrom(clauses, onTrail, |t0|)
        invariant CalmUpTo(clauses, occurrences, j, onTrail, |t0|)
        invariant ForcedSince(|t0|, lv0, rs0, onTrail, levels[..], reasons[..], level)
      {
        var conflicting := SweepStep(occurrences, j, t0, lv0, rs0);
        if conflicting {
          conflicts := conflicts + 1;
          return Some(occurrences[j]);
        }
        j := j + 1;
      }
      if quiet {
        RoundQuiet(variables, clauses, matrix, t0, onTrail, p);
      }
      return None;
    }

    /** One iteration of the loop of `propagate` over the clauses
        containing `-lit`: visit the clause at `occurrences[j]`; it is
        false, or it is calm and the trail keeps the loop's properties. */
    method SweepStep(occurrences: seq<nat>, j: nat, ghost t0: seq<int>, ghost lv0: seq<nat>, ghost rs0: seq<Option<nat>>)
        returns (conflicting: bool)
      requires Valid() && Listed(variables, clauses, occurrences) && j < |occurrences|
      requires Extends(t0, onTrail) && JustifiedFrom(clauses, onTrail, |t0|)
      requires CalmUpTo(clauses, occurrences, j, onTrail, |t0|)
      requires ForcedSince(|t0|, lv0, rs0, onTrail, levels[..], reasons[..], level)
      modifies this`assignedEnd, this`onTrail, this`fixed, values, levels, reasons, trail
      ensures Valid()
      ensures Extends(t0, onTrail) && JustifiedFrom(clauses, onTrail, |t0|)
      ensures ForcedSince(|t0|, lv0, rs0, onTrail, levels[..], reasons[..], level)
      ensures conflicting ==> Falsified(clauses[occurrences[j]], onTrail)
      ensures !conflicting ==> CalmUpTo(clauses, occurrences, j + 1, onTrail, |t0|)
    {
      ghost var t, lv, rs := onTrail, levels[..], reasons[..];
      var k := occurrences[j];
      var v := Visit(k);
      if v.Unit? {
        ForcedPush(|t0|, lv0, rs0, t, lv, rs, level, v.lit, k);
      }
      if v == Conflicting {
        assert onTrail == t;
        ClassifyMeaning(variables, clauses[k], t);
        return true;
      }
      SweepVisit(variables, clauses, occurrences, j, t0, t);
      return false;
    }

    /** One round of `propagate`: take the next trail literal and scan
        the clauses containing its negation.  The scan does not read
        `propagated`, so its increment is made after the scan here. */
    method Round() returns (conflict: Option<nat>)
      requires Valid() && propagated < assignedEnd
      modifies this`assignedEnd, this`onTrail, this`fixed, this`conflicts, this`propagated, values, levels, reasons, trail
      ensures Valid() && propagated == old(propagated) + 1
      ensures Extends(old(onTrail), onTrail) && JustifiedFrom(clauses, onTrail, old(|onTrail|))
      ensures conflict.Some? ==> conflict.value < |clauses| && Falsified(clauses[conflict.value], onTrail)
      ensures conflict.None? && old(Quiet(clauses, onTrail, propagated)) ==> Quiet(clauses, onTrail, propagated)
      ensures conflicts == old(conflicts) + (if conflict.Some? then 1 else 0)
      ensures ForcedSince(old(|onTrail|), old(levels[..]), old(reasons[..]), onTrail, levels[..], reasons[..], level)
    {
      var lit := trail[propagated];
      conflict := Sweep(lit, propagated);
      Advance();
    }

    /** `propagated++`: the next trail literal is taken. */
    method Advance()
      requires Valid() && propagated < assignedEnd
      modifies this`propagated
      ensures Valid() && propagated == old(propagated) + 1
    {
      propagated := propagated + 1;
    }

    /** `propagate`: propagate the trail literal by literal; return the
        first conflicting clause. The literals it assigns are forced, a
        returned clause is false, and without a conflict the whole trail
        is propagated and, when the clauses were quiet up to the old
        propagated position, they are quiet up to the end of the trail. */
    method Propagate() returns (conflict: Option<nat>)
      requires Valid()
      modifies this`assignedEnd, this`onTrail, this`fixed, this`conflicts, this`propagated, values, levels, reasons, trail
      ensures Valid()
      ensures Extends(old(onTrail), onTrail) && JustifiedFrom(clauses, onTrail, old(|onTrail|))
      ensures old(propagated) <= propagated
      ensures conflict.Some? ==> conflict.value < |clauses| && Falsified(clauses[conflict.value], onTrail)
      ensures conflict.None? ==> propagated == assignedEnd
      ensures conflict.None? && old(Quiet(clauses, onTrail, propagated)) ==> Quiet(clauses, onTrail, |onTrail|)
      ensures conflicts == old(conflicts) + (if conflict.Some? then 1 else 0)
      ensures ForcedSince(old(|onTrail|), old(levels[..]), old(reasons[..]), onTrail, levels[..], reasons[..], level)
    {
      ghost var t0 := onTrail;
      ghost var lv0, rs0 := levels[..], reasons[..];
      ghost var quiet := Quiet(clauses, onTrail, propagated);
      ForcedNone(t0, lv0, rs0, level);
      conflict := None;
      while propagated != assignedEnd
        invariant Valid() && conflict == None && conflicts == old(conflicts)
        invariant Extends(t0, onTrail) && JustifiedFrom(clauses, onTrail, |t0|)
        invariant old(propagated) <= propagated
        invariant quiet ==> Quiet(clauses, onTrail, propagated)
        invariant ForcedSince(|t0|, lv0, rs0, onTrail, levels[..], reasons[..], level)
        decreases variables - propagated
      {
        ghost var t, lv, rs := onTrail, levels[..], reasons[..];
        conflict := Round();
        ExtendsChain(clauses, t0, t, onTrail);
        ForcedChain(|t0|, lv0, rs0, t, lv, rs, onTrail, levels[..], reasons[..], level);
        if conflict.Some? {
          return;
        }
      }
    }

    /** The loop of `add_clause` over the literals of the clause at
        position `k`: `connect_literal` for each. */
    method ConnectLiterals(literals: seq<int>, k: nat)
      requires |matrix| == 2 * variables + 1
      requires forall i :: 0 <= i < |literals| ==> IsLit(literals[i], variables)
      modifies this`matrix
      ensures matrix == Connect(old(matrix), literals, k, variables)
    {
      var i := 0;
      while i < |literals|
        invariant i <= |literals| && |matrix| == 2 * variables + 1
        invariant Connect(matrix, literals[i..], k, variables) == Connect(old(matrix), literals, k, variables)
      {
        assert literals[i..][1..] == literals[i + 1..];
        assert IsLit(literals[i], variables);
        var x := literals[i] + variables;
        matrix := matrix[x := matrix[x] + [k]];
        i := i + 1;
      }
      assert literals[i..] == [];
    }

    /** `add_clause`: store the clause, connect it in the matrix, then
        record an empty clause, assign an unassigned unit without a
        reason, or record a unit that is already false.  A formula that
        implied the trail still implies it. */
    method AddClause(literals: seq<int>) returns (k: nat)
      requires Valid() && EmptyRecorded()
      requires forall i :: 0 <= i < |literals| ==> IsLit(literals[i], variables)
      modifies this`clauses, this`matrix, this`emptyClause, this`assignedEnd, this`onTrail, this`fixed
      modifies values, levels, reasons, trail
      ensures k == |old(clauses)| && clauses == old(clauses) + [literals]
      ensures matrix == Connect(old(matrix), literals, k, variables)
      ensures onTrail == old(onTrail) + (if |literals| == 1 && Unassigned(literals[0], old(onTrail)) then [literals[0]] else [])
      ensures emptyClause == (if |literals| == 0 || (|literals| == 1 && -literals[0] in old(onTrail)) then Some(k) else old(emptyClause))
      ensures old(Implied(clauses, variables, onTrail)) ==> Implied(clauses, variables, onTrail)
      ensures Valid() && EmptyRecorded()
    {
      ghost var cs, t := clauses, onTrail;
      k := Store(literals);
      if |literals| <= 1 {
        AddShortClause(k);
      }
      if Implied(cs, variables, t) {
        AddKeepsImplied(cs, variables, t, literals);
      }
    }

    /** The first part of `add_clause`: push the clause on the clause list
        and connect its literals. */
    method Store(literals: seq<int>) returns (k: nat)
      requires Valid()
      requires forall i :: 0 <= i < |literals| ==> IsLit(literals[i], variables)
      modifies this`clauses, this`matrix
      ensures k == |old(clauses)| && clauses == old(clauses) + [literals]
      ensures matrix == Connect(old(matrix), literals, k, variables)
      ensures Valid()
    {
      k := |clauses|;
      ConnectKeepsIndex(variables, clauses, matrix, literals);
      ReasonedGrow(onTrail, reasons[..], clauses, literals);
      clauses := clauses + [literals];
      ConnectLiterals(literals, k);
    }

    /** The special case of `add_clause` for the clause just stored at
        position `k` when it has at most one literal: an empty clause is
        recorded, an unassigned unit assigned, a false unit recorded, and a
        true unit left alone. */
    method AddShortClause(k: nat)
      requires Valid() && k == |clauses| - 1 && |clauses[k]| <= 1
      requires emptyClause.Some? ==> emptyClause.value < k && Falsified(clauses[emptyClause.value], onTrail)
      requires emptyClause.None? ==> forall j :: 0 <= j < k ==> |clauses[j]| > 0
      modifies this`emptyClause, this`assignedEnd, this`onTrail, this`fixed, values, levels, reasons, trail
      ensures onTrail == old(onTrail) + (if |clauses[k]| == 1 && Unassigned(clauses[k][0], old(onTrail)) then [clauses[k][0]] else [])
      ensures emptyClause == (if |clauses[k]| == 0 || -clauses[k][0] in old(onTrail) then Some(k) else old(emptyClause))
      ensures Valid() && EmptyRecorded()
    {
      if |clauses[k]| == 0 {
        emptyClause := Some(k);
      } else {
        var unit := clauses[k][0];
        assert IsLit(unit, variables);
        assert Val(unit) == ValueOf(onTrail, unit) && Val(-unit) == ValueOf(onTrail, -unit);
        var value := values[unit + variables];
        if value == 0 {
          Assign(unit, None);
        } else if value < 0 {
          emptyClause := Some(k);
          assert clauses[k] == [unit];
        } else {
          NoClash(onTrail, unit);
        }
      }
    }

    /** The token loop of `parse`, after the header: each 0 closes the
        clause read so far and adds it.  It rejects the tokens exactly as
        `ParseTokens` does, and otherwise adds the clauses `ParseTokens`
        reads, in order. */
    method Parse(expected: int, tokens: seq<int>) returns (error: Option<ParseError>)
      requires Valid() && EmptyRecorded()
      modifies this`clauses, this`matrix, this`emptyClause, this`assignedEnd, this`onTrail, this`fixed
      modifies values, levels, reasons, trail
      ensures Valid() && EmptyRecorded()
      ensures old(Implied(clauses, variables, onTrail)) ==> Implied(clauses, variables, onTrail)
      ensures match ParseTokens(variables, expected, tokens)
        case Ok(cnf) => error == None && clauses == old(clauses) + cnf
        case Err(e) => error == Some(e)
    {
      ghost var implied := Implied(clauses, variables, onTrail);
      ghost var done: Cnf := [];
      var clause: seq<int> := [];
      var lit := 0;
      var parsed := 0;
      var i := 0;
      while i < |tokens|
        invariant i <= |tokens| && parsed == |done|
        invariant Valid() && EmptyRecorded()
        invariant implied ==> Implied(clauses, variables, onTrail)
        invariant clauses == old(clauses) + done
        invariant forall j :: 0 <= j < |clause| ==> IsLit(clause[j], variables)
        invariant Tokens(variables, expected, tokens[i..], done, clause, lit) == ParseTokens(variables, expected, tokens)
      {
        assert tokens[i..][0] == tokens[i] && tokens[i..][1..] == tokens[i + 1..];
        lit := tokens[i];
        if parsed == expected {
          return Some(TooManyClauses);
        }
        if lit == -IntMax - 1 || Abs(lit) > variables {
          return Some(InvalidLiteral(lit));
        }
        if lit != 0 {
          clause := clause + [lit];
        } else {
          var _ := AddClause(clause);
          done := done + [clause];
          clause := [];
          parsed := parsed + 1;
        }
        i := i + 1;
      }
      if lit != 0 {
        return Some(TerminatingZeroMissing);
      }
      if parsed != expected {
        return Some(ClauseMissing);
      }
      return None;
    }

    /** `decide`: from `searched` on, the first unassigned variable becomes
        true on a new decision level, the trail height before it pushed on
        the control stack.  Every variable below it is assigned, so it is
        the smallest unassigned one. */
    method Decide()
      requires Valid() && assignedEnd < variables
      modifies this`searched, this`level, this`control, this`assignedEnd, this`onTrail, this`fixed
      modifies values, levels, reasons, trail
      ensures Valid()
      ensures 1 <= searched <= variables && Unassigned(searched, old(onTrail))
      ensures forall v :: 1 <= v < searched ==> !Unassigned(v, old(onTrail))
      ensures onTrail == old(onTrail) + [searched]
      ensures level == old(level) + 1 && control == old(control) + [old(assignedEnd)]
    {
      Search();
      assert Val(searched) == ValueOf(onTrail, searched) && Val(-(searched as int)) == ValueOf(onTrail, -(searched as int));
      OpenLevel();
      Assign(searched, None);
    }

    /** The middle of `decide`: a new level whose control entry is the
        trail height. */
    method OpenLevel()
      requires Valid()
      modifies this`level, this`control
      ensures Valid()
      ensures level == old(level) + 1 && control == old(control) + [assignedEnd]
    {
      LeveledDecide(onTrail, levels[..], control, level);
      level := level + 1;
      AscendingPush(control, assignedEnd);
      control := control + [assignedEnd];
    }

    /** The loop of `decide`: move `searched` past assigned variables to
        the first unassigned one, which exists as the trail is not full. */
    method Search()
      requires Readable() && SearchedOk() && assignedEnd < variables
      modifies this`searched
      ensures SearchedOk() && searched <= variables && Unassigned(searched, onTrail)
    {
      FullTrail(onTrail, variables);
      while (assert IsLit(searched, variables); Val(searched) != 0)
        invariant Readable() && SearchedOk()
        invariant exists v :: searched <= v <= variables && Unassigned(v, onTrail)
        decreases variables - searched
      {
        assert Val(searched) == ValueOf(onTrail, searched);
        ghost var w :| searched <= w <= variables && Unassigned(w, onTrail);
        assert w != searched;
        searched := searched + 1;
      }
      assert Val(searched) == ValueOf(onTrail, searched);
    }

    /** One step of the loop of `backtrack`: `unassign(*--assigned)`. */
    method Pop() returns (lit: int)
      requires Readable() && SearchedOk() && assignedEnd > 0
      modifies this`assignedEnd, this`onTrail, this`searched, values
      ensures Readable() && SearchedOk()
      ensures lit == old(onTrail)[|old(onTrail)| - 1] && onTrail == old(onTrail)[..|old(onTrail)| - 1]
      ensures searched == if Abs(lit) < old(searched) then Abs(lit) else old(searched)
    {
      ghost var t := onTrail;
      assignedEnd := assignedEnd - 1;
      lit := trail[assignedEnd];
      ghost var rest := t[..assignedEnd];
      assert t == rest + [lit];
      assert Unassigned(lit, rest) by {
        forall i | 0 <= i < |rest|
          ensures rest[i] != lit && rest[i] != -lit
        {
          assert Differ(t, i, |t| - 1);
        }
      }
      DistinctPrefix(t, assignedEnd);
      Unassign(lit);
      onTrail := rest;
      assert trail[..assignedEnd] == rest;
      forall l | IsLit(l, variables)
        ensures Val(l) == ValueOf(onTrail, l)
      {
        if l != lit && l != -lit {
          assert (l in rest <==> l in t) && (-l in rest <==> -l in t);
        }
      }
      forall v | 1 <= v < searched
        ensures !Unassigned(v, onTrail)
      {
        assert !Unassigned(v, t);
      }
    }

    /** The loop of `backtrack`: pop and unassign trail literals down to
        `height`.  Every popped literal is unassigned, and `searched` ends
        at the smallest of its old value and the popped variables. */
    method PopTrail(height: nat)
      requires Readable() && SearchedOk() && height <= assignedEnd
      modifies this`assignedEnd, this`onTrail, this`searched, values
      ensures Readable() && SearchedOk()
      ensures onTrail == old(onTrail)[..height]
      ensures forall i :: height <= i < |old(onTrail)| ==> Unassigned(old(onTrail)[i], onTrail)
      ensures searched <= old(searched)
      ensures forall i :: height <= i < |old(onTrail)| ==> searched <= Abs(old(onTrail)[i])
      ensures searched == old(searched) || exists i :: height <= i < |old(onTrail)| && searched == Abs(old(onTrail)[i])
    {
      while assignedEnd != height
        invariant height <= assignedEnd <= old(assignedEnd) && onTrail == old(onTrail)[..assignedEnd]
        invariant Readable() && SearchedOk()
        invariant searched <= old(searched)
        invariant forall i :: assignedEnd <= i < |old(onTrail)| ==> searched <= Abs(old(onTrail)[i])
        invariant searched == old(searched) || exists i :: assignedEnd <= i < |old(onTrail)| && searched == Abs(old(onTrail)[i])
        decreases assignedEnd
      {
        var lit := Pop();
        assert lit == old(onTrail)[assignedEnd];
      }
      forall i | height <= i < |old(onTrail)|
        ensures Unassigned(old(onTrail)[i], onTrail)
      {
        forall j | 0 <= j < |onTrail|
          ensures onTrail[j] != old(onTrail)[i] && onTrail[j] != -old(onTrail)[i]
        {
          assert Differ(old(onTrail), j, i);
        }
      }
    }

    /** `backtrack`: undo every assignment above the trail height at which
        level `newLevel + 1` was decided, and return to level `newLevel`
        with that height propagated. */
    method Backtrack(newLevel: nat)
      requires Valid() && newLevel < level
      modifies this`assignedEnd, this`onTrail, this`searched, this`control, this`propagated, this`level, values
      ensures Valid()
      ensures onTrail == old(onTrail)[..old(control)[newLevel]]
      ensures control == old(control)[..newLevel] && level == newLevel && propagated == assignedEnd
      ensures forall i :: assignedEnd <= i < |old(onTrail)| ==> Unassigned(old(onTrail)[i], onTrail)
      ensures searched <= old(searched)
      ensures forall i :: assignedEnd <= i < |old(onTrail)| ==> searched <= Abs(old(onTrail)[i])
    {
      var before := control[newLevel];
      AscendingBelow(control, newLevel);
      AscendingPrefix(control, newLevel);
      LeveledCut(onTrail, levels[..], control, level, newLevel);
      ReasonedCut(onTrail, reasons[..], clauses, before);
      PopTrail(before);
      control := control[..newLevel];
      propagated := before;
      level := newLevel;
    }

    /** `solve`: an empty clause found while adding clauses answers
        unsatisfiable; otherwise the loop goes round until a round gives an
        answer.  Starting from a trail the formula implies, unsatisfiable
        means the formula has no model; satisfiable means every clause is
        satisfied by the trail, which is then a model. */
    method Solve(limit: nat) returns (r: Outcome)
      requires Valid() && EmptyRecorded() && level == 0
      requires Implied(clauses, variables, onTrail) && Quiet(clauses, onTrail, propagated)
      modifies this`assignedEnd, this`onTrail, this`fixed, this`conflicts, this`propagated, this`searched
      modifies this`level, this`control, values, levels, reasons, trail
      ensures r == Unsatisfiable ==> !Clauses.Satisfiable(clauses, variables)
      ensures r == Satisfiable ==>
        (forall k :: 0 <= k < |clauses| ==> Clauses.Satisfied(clauses[k], onTrail))
        && IsModel(Witness(onTrail, variables), clauses, variables)
      ensures r == Unknown ==> conflicts >= limit
      ensures r.Analyze? ==> level > 0 && r.clause < |clauses| && Falsified(clauses[r.clause], onTrail)
    {
      if emptyClause.Some? {
        ImpliedConflict(clauses, variables, onTrail, emptyClause.value);
        return Unsatisfiable;
      }
      while true
        invariant Valid()
        invariant forall k :: 0 <= k < |clauses| ==> |clauses[k]| > 0
        invariant level == 0 ==> Implied(clauses, variables, onTrail)
        invariant Quiet(clauses, onTrail, propagated)
        decreases variables - assignedEnd
      {
        var answer := Step(limit);
        if answer.Some? {
          return answer.value;
        }
      }
    }

    /** One round of the loop of `solve`: propagate; a conflict answers
        unsatisfiable at level 0 and goes to `analyze` above it; a full
        trail answers satisfiable; reaching the conflict limit gives up;
        otherwise decide, and the loop goes round again (`None`) on a
        longer trail. */
    method Step(limit: nat) returns (r: Option<Outcome>)
      requires Valid() && forall k :: 0 <= k < |clauses| ==> |clauses[k]| > 0
      requires level == 0 ==> Implied(clauses, variables, onTrail)
      requires Quiet(clauses, onTrail, propagated)
      modifies this`assignedEnd, this`onTrail, this`fixed, this`conflicts, this`propagated, this`searched
      modifies this`level, this`control, values, levels, reasons, trail
      ensures Valid()
      ensures r == None ==>
        old(assignedEnd) < assignedEnd && level > 0 && Quiet(clauses, onTrail, propagated)
      ensures r == Some(Unsatisfiable) ==> !Clauses.Satisfiable(clauses, variables)
      ensures r == Some(Satisfiable) ==>
        (forall k :: 0 <= k < |clauses| ==> Clauses.Satisfied(clauses[k], onTrail))
        && IsModel(Witness(onTrail, variables), clauses, variables)
      ensures r == Some(Unknown) ==> conflicts >= limit
      ensures r.Some? && r.value.Analyze? ==>
        level > 0 && r.value.clause < |clauses| && Falsified(clauses[r.value.clause], onTrail)
    {
      ghost var t := onTrail;
      var conflict := Propagate();
      if conflict.Some? {
        if level == 0 {
          ImpliedExtends(clauses, variables, t, onTrail);
          ImpliedConflict(clauses, variables, onTrail, conflict.value);
          return Some(Unsatisfiable);
        }
        return Some(Analyze(conflict.value));
      }
      var sat := Satisfied();
      FullTrail(onTrail, variables);
      if sat {
        QuietModel(variables, clauses, onTrail);
        return Some(Satisfiable);
      }
      if conflicts >= limit {
        return Some(Unknown);
      }
      ghost var before := onTrail;
      Decide();
      QuietDecide(clauses, before, searched);
      return None;
    }
  }
}
