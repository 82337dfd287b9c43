/** Clauses and formulas over literals, how a trail of true literals reads
    them, and what a total assignment satisfying them (a model) is.  The
    trace checker and the three solvers all read clauses this way. */
module Clauses {
  import opened Literals

  /** A clause is a disjunction of literals; a formula a conjunction of
      clauses; a trail the literals currently true, oldest first. */
  type Clause = seq<int>
  type Cnf = seq<Clause>

  /** Neither `lit` nor its negation is on the trail. */
  predicate Unassigned(lit: int, trail: seq<int>) {
    lit !in trail && -lit !in trail
  }

  /** The value of `lit` under the trail: 1 true, -1 false, 0 unassigned,
      as the solvers' `values` array holds it. */
  function ValueOf(trail: seq<int>, lit: int): (v: int)
    ensures v == 0 <==> Unassigned(lit, trail)
    ensures -1 <= v <= 1
  {
    if lit in trail then 1 else if -lit in trail then -1 else 0
  }

  /** Some literal of the clause is on the trail. */
  ghost predicate Satisfied(clause: Clause, trail: seq<int>) {
    exists i :: 0 <= i < |clause| && clause[i] in trail
  }

  /** Every literal of the clause has its negation on the trail. */
  ghost predicate Falsified(clause: Clause, trail: seq<int>) {
    forall x :: x in clause ==> -x in trail
  }

  /** `clause` forces `lit` under `trail`: it contains `lit` and the
      negation of each of its other literals is on the trail. */
  ghost predicate Justifies(clause: Clause, lit: int, trail: seq<int>) {
    lit in clause && forall y :: y in clause && y != lit ==> -y in trail
  }

  /** The literals of the clause whose negation is on the trail, in clause
      order. */
  function FalsifiedLits(clause: Clause, trail: seq<int>): (r: seq<int>)
    ensures |r| <= |clause|
  {
    if |clause| == 0 then []
    else (if -clause[0] in trail then [clause[0]] else []) + FalsifiedLits(clause[1..], trail)
  }

  /** The unassigned literals of the clause, in clause order (a literal
      occurring twice is listed twice). */
  function UnassignedLits(clause: Clause, trail: seq<int>): (r: seq<int>)
    ensures |r| <= |clause|
    ensures forall i :: 0 <= i < |r| ==> r[i] in clause && Unassigned(r[i], trail)
    ensures forall i :: 0 <= i < |clause| && Unassigned(clause[i], trail) ==> clause[i] in r
  {
    if |clause| == 0 then []
    else (if Unassigned(clause[0], trail) then [clause[0]] else []) + UnassignedLits(clause[1..], trail)
  }

  /** Reading one more literal of the clause extends the list of its
      unassigned literals by that literal when it is unassigned. */
  lemma UnassignedLitsSnoc(clause: Clause, trail: seq<int>, i: nat)
    requires i < |clause|
    ensures UnassignedLits(clause[..i + 1], trail)
            == UnassignedLits(clause[..i], trail) + (if Unassigned(clause[i], trail) then [clause[i]] else [])
  {
    assert clause[..i + 1] == clause[..i] + [clause[i]];
    UnassignedLitsAppend(clause[..i], [clause[i]], trail);
    assert [clause[i]][1..] == [];
  }

  /** The unassigned literals of a concatenation. */
  lemma {:induction false} UnassignedLitsAppend(a: Clause, b: Clause, trail: seq<int>)
    ensures UnassignedLits(a + b, trail) == UnassignedLits(a, trail) + UnassignedLits(b, trail)
  {
    if |a| > 0 {
      assert (a + b)[1..] == a[1..] + b;
      UnassignedLitsAppend(a[1..], b, trail);
    } else {
      assert a + b == b;
    }
  }

  /** Two trails on which the literals of the clause are unassigned alike
      give the same unassigned literals. */
  lemma {:induction false} UnassignedLitsSame(c: Clause, t: seq<int>, t': seq<int>)
    requires forall i :: 0 <= i < |c| ==> (Unassigned(c[i], t) <==> Unassigned(c[i], t'))
    ensures UnassignedLits(c, t) == UnassignedLits(c, t')
  {
    if |c| > 0 {
      assert Unassigned(c[0], t) <==> Unassigned(c[0], t');
      UnassignedLitsSame(c[1..], t, t');
    }
  }

  /** A trail over distinct variables 1 .. n is as long as n exactly when
      it assigns every variable. */
  lemma FullTrail(t: seq<int>, n: nat)
    requires TrailOk(t, n)
    ensures |t| == n <==> forall v :: 1 <= v <= n ==> !Unassigned(v, t)
  {
    TrailBound(t, n);
    var vs := Vars(n);
    if |t| == n {
      DistinctVarsBound(t, vs);
      forall v | 1 <= v <= n
        ensures !Unassigned(v, t)
      {
        assert v in VarsOf(t);
        var i :| 0 <= i < |t| && Abs(t[i]) == v;
        assert t[i] == v || t[i] == -v;
      }
    } else if forall v :: 1 <= v <= n ==> !Unassigned(v, t) {
      assert vs <= VarsOf(t) by {
        forall v | v in vs
          ensures v in VarsOf(t)
        {
          assert !Unassigned(v, t);
          var i :| 0 <= i < |t| && (t[i] == v || t[i] == -v);
          assert Abs(t[i]) == v;
        }
      }
      VarsOfBound(t);
      SubsetSize(vs, VarsOf(t));
      assert false;
    }
  }

  /** A clause without a true literal is false when none of its literals is
      unassigned, and forces its only unassigned literal when there is
      exactly one. */
  lemma NotSatisfiedVerdict(c: Clause, trail: seq<int>)
    requires !Satisfied(c, trail)
    ensures |UnassignedLits(c, trail)| == 0 ==> Falsified(c, trail)
    ensures |UnassignedLits(c, trail)| == 1 ==> Justifies(c, UnassignedLits(c, trail)[0], trail)
  {
    var free := UnassignedLits(c, trail);
    forall y | y in c && y !in free
      ensures -y in trail
    {
      var i :| 0 <= i < |c| && c[i] == y;
      assert c[i] !in trail;
    }
  }

  // ---------------------------------------------------------------------
  // Models

  /** A total, consistent assignment of the variables 1 .. n, given as the
      set of its true literals. */
  ghost predicate IsAssignment(m: set<int>, n: int) {
    (forall v :: 1 <= v <= n ==> v in m || -v in m)
    && (forall l :: l in m ==> -l !in m)
  }

  /** `m` satisfies every clause of the formula. */
  ghost predicate IsModel(m: set<int>, cnf: Cnf, n: int) {
    IsAssignment(m, n) && forall c :: c in cnf ==> exists l :: l in c && l in m
  }

  /** `m` makes every literal of the trail true. */
  ghost predicate Agrees(m: set<int>, trail: seq<int>) {
    forall i :: 0 <= i < |trail| ==> trail[i] in m
  }

  ghost predicate Satisfiable(cnf: Cnf, n: int) {
    exists m :: IsModel(m, cnf, n)
  }

  /** Every model of the formula makes the trail true. */
  ghost predicate Implied(cnf: Cnf, n: int, trail: seq<int>) {
    forall m :: IsModel(m, cnf, n) ==> Agrees(m, trail)
  }

  /** Every model of the formula making `from` true makes `to` true. */
  ghost predicate Entails(cnf: Cnf, n: int, from: seq<int>, to: seq<int>) {
    forall m :: IsModel(m, cnf, n) && Agrees(m, from) ==> Agrees(m, to)
  }

  /** No model of the formula makes the trail true. */
  ghost predicate Refuted(cnf: Cnf, n: int, trail: seq<int>) {
    forall m :: IsModel(m, cnf, n) ==> !Agrees(m, trail)
  }

  lemma EntailsTrans(cnf: Cnf, n: int, a: seq<int>, b: seq<int>, c: seq<int>)
    requires Entails(cnf, n, a, b) && Entails(cnf, n, b, c)
    ensures Entails(cnf, n, a, c)
  {
  }

  /** Adding a clause keeps every implied trail implied, and a unit clause
      implies its literal. */
  lemma AddKeepsImplied(cnf: Cnf, n: int, trail: seq<int>, c: Clause)
    requires Implied(cnf, n, trail)
    ensures Implied(cnf + [c], n, trail)
    ensures |c| == 1 ==> Implied(cnf + [c], n, trail + [c[0]])
  {
    forall m | IsModel(m, cnf + [c], n)
      ensures Agrees(m, trail)
      ensures |c| == 1 ==> Agrees(m, trail + [c[0]])
    {
      assert IsModel(m, cnf, n) by {
        forall d | d in cnf
          ensures exists l :: l in d && l in m
        {
          assert d in cnf + [c];
        }
      }
      assert c in cnf + [c];
    }
  }

  /** A model making the premises of a forcing clause true makes the forced
      literal true. */
  lemma JustifiedInModel(m: set<int>, cnf: Cnf, n: int, c: Clause, lit: int, prefix: seq<int>)
    requires IsModel(m, cnf, n) && c in cnf && Agrees(m, prefix)
    requires Justifies(c, lit, prefix)
    ensures lit in m
  {
    forall y | y in c && y != lit
      ensures y !in m
    {
      var i :| 0 <= i < |prefix| && prefix[i] == -y;
      assert -y in m;
    }
    var l :| l in c && l in m;
  }

  /** No model makes true a trail under which a clause of the formula is
      false. */
  lemma FalsifiedRefutes(m: set<int>, cnf: Cnf, n: int, c: Clause, trail: seq<int>)
    requires IsModel(m, cnf, n) && c in cnf
    requires Falsified(c, trail)
    ensures !Agrees(m, trail)
  {
    var l :| l in c && l in m;
    var i :| 0 <= i < |trail| && trail[i] == -l;
  }

  /** A trail of literals over distinct variables in which every clause has
      a true literal gives a model: its literals, and every variable it
      leaves unassigned taken positively (as the solvers print their
      witness). */
  ghost function Witness(trail: seq<int>, n: nat): set<int> {
    set l: int | -(n as int) <= l <= n && WitnessLit(trail, l)
  }

  ghost predicate WitnessLit(trail: seq<int>, l: int) {
    l != 0 && (l in trail || (l > 0 && -l !in trail))
  }

  lemma WitnessIsModel(cnf: Cnf, n: nat, trail: seq<int>)
    requires DistinctVars(trail)
    requires forall i :: 0 <= i < |trail| ==> IsLit(trail[i], n)
    requires forall k :: 0 <= k < |cnf| ==> Satisfied(cnf[k], trail)
    ensures IsModel(Witness(trail, n), cnf, n)
  {
    var m := Witness(trail, n);
    forall l | l in m
      ensures -l !in m
    {
      if l in trail {
        NoClash(trail, l);
      }
    }
    forall c | c in cnf
      ensures exists l :: l in c && l in m
    {
      var k :| 0 <= k < |cnf| && cnf[k] == c;
      var i :| 0 <= i < |c| && c[i] in trail;
      var t :| 0 <= t < |trail| && trail[t] == c[i];
      assert IsLit(trail[t], n);
      assert c[i] in m;
    }
  }

  /** Each literal of `t` from position `from` on is forced by a clause
      under the literals before it. */
  ghost predicate JustifiedFrom(clauses: Cnf, t: seq<int>, from: nat) {
    forall i {:trigger JustifiedAt(clauses, t, i)} :: from <= i ==> JustifiedAt(clauses, t, i)
  }

  /** The literal at position i of `t`, if any, is forced by a clause
      under the literals before it.  `JustifiedFrom` is quantified over
      this predicate only, so that a proof names the positions it needs. */
  ghost predicate JustifiedAt(clauses: Cnf, t: seq<int>, i: int) {
    0 <= i < |t| ==> exists k :: 0 <= k < |clauses| && Justifies(clauses[k], t[i], t[..i])
  }

  lemma ExtendJustified(clauses: Cnf, trail: seq<int>, unit: int, t: seq<int>)
    requires exists k :: 0 <= k < |clauses| && Justifies(clauses[k], unit, trail)
    requires |trail| < |t| && t[..|trail| + 1] == trail + [unit]
    requires JustifiedFrom(clauses, t, |trail| + 1)
    ensures JustifiedFrom(clauses, t, |trail|)
  {
    assert t[..|trail|] == trail && t[|trail|] == unit by {
      assert t[..|trail|] == t[..|trail| + 1][..|trail|];
    }
    assert JustifiedAt(clauses, t, |trail|);
  }

  /** A model making a prefix true makes true every literal after it that is
      forced under the literals before it. */
  lemma JustifiedAgrees(m: set<int>, clauses: Cnf, n: nat, t: seq<int>, from: nat)
    requires IsModel(m, clauses, n) && from <= |t| && Agrees(m, t[..from])
    requires JustifiedFrom(clauses, t, from)
    ensures Agrees(m, t)
  {
    var i := from;
    while i < |t|
      invariant from <= i <= |t|
      invariant Agrees(m, t[..i])
    {
      assert JustifiedAt(clauses, t, i);
      var k :| 0 <= k < |clauses| && Justifies(clauses[k], t[i], t[..i]);
      JustifiedInModel(m, clauses, n, clauses[k], t[i], t[..i]);
      assert t[..i + 1] == t[..i] + [t[i]];
      i := i + 1;
    }
    assert t[..|t|] == t;
  }
}
