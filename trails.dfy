/** What the `levels` and `reasons` arrays of the CDCL solvers of BabySAT
    (babysat-cdcl.cpp and babysat-watches.cpp) record about the trail:
    each assigned variable's decision level, consistent with the control
    stack, and for a forced literal the clause that forced it.  Stated over
    the trail as a sequence and the arrays as sequences indexed by
    variable, with the lemmas `assign`, `decide` and `backtrack` need. */
module Trails {
  import opened Literals
  import opened Clauses

  /** `lv[v]` is the level of each variable v on the trail: at most the
      current level, and for each entry of the control stack, the trail
      positions below that entry are exactly those at levels up to its
      index. */
  ghost predicate Leveled(t: seq<int>, lv: seq<nat>, control: seq<nat>, level: nat) {
    (forall i :: 0 <= i < |t| ==> Abs(t[i]) < |lv| && lv[Abs(t[i])] <= level)
    && forall i {:trigger LevelAt(t, lv, control, i)} :: LevelAt(t, lv, control, i)
  }

  /** The literal at trail position i, if any, lies below the control
      entry of each level at or above its own, and only of those.
      `Leveled` is quantified over this predicate only, so that a proof
      names the positions it needs. */
  ghost predicate LevelAt(t: seq<int>, lv: seq<nat>, control: seq<nat>, i: int) {
    0 <= i < |t| && Abs(t[i]) < |lv| ==>
      forall l :: 0 <= l < |control| ==> (i < control[l] <==> lv[Abs(t[i])] <= l)
  }

  /** A literal assigned at the current level above every control entry
      keeps the levels consistent. */
  lemma LeveledAssign(t: seq<int>, lv: seq<nat>, control: seq<nat>, level: nat, lit: int)
    requires Leveled(t, lv, control, level) && |control| == level
    requires forall l :: 0 <= l < |control| ==> control[l] <= |t|
    requires lit != 0 && Abs(lit) < |lv| && Unassigned(lit, t)
    ensures Leveled(t + [lit], lv[Abs(lit) := level], control, level)
  {
    var t', lv' := t + [lit], lv[Abs(lit) := level];
    forall i
      ensures LevelAt(t', lv', control, i)
    {
      if 0 <= i < |t| {
        assert LevelAt(t, lv, control, i);
        assert t[i] != lit && t[i] != -lit;
        assert lv'[Abs(t'[i])] == lv[Abs(t[i])];
      }
    }
  }

  /** A decision opens a level whose control entry is the trail height. */
  lemma LeveledDecide(t: seq<int>, lv: seq<nat>, control: seq<nat>, level: nat)
    requires Leveled(t, lv, control, level) && |control| == level
    ensures Leveled(t, lv, control + [|t|], level + 1)
  {
    var control', level' := control + [|t|], level + 1;
    forall i
      ensures LevelAt(t, lv, control', i)
    {
      if 0 <= i < |t| {
        assert LevelAt(t, lv, control, i);
        forall l | 0 <= l < |control'|
          ensures i < control'[l] <==> lv[Abs(t[i])] <= l
        {
          if l < |control| {
            assert control'[l] == control[l];
          }
        }
      }
    }
  }

  /** Cutting the trail at the control entry of a lower level leaves the
      variables assigned up to that level. */
  lemma LeveledCut(t: seq<int>, lv: seq<nat>, control: seq<nat>, level: nat, newLevel: nat)
    requires Leveled(t, lv, control, level)
    requires newLevel < |control| && control[newLevel] <= |t|
    ensures Leveled(t[..control[newLevel]], lv, control[..newLevel], newLevel)
  {
    var t', control' := t[..control[newLevel]], control[..newLevel];
    forall i
      ensures LevelAt(t', lv, control', i)
      ensures 0 <= i < |t'| ==> Abs(t'[i]) < |lv| && lv[Abs(t'[i])] <= newLevel
    {
      if 0 <= i < |t'| {
        assert LevelAt(t, lv, control, i);
        assert t'[i] == t[i];
        forall l | 0 <= l < |control'|
          ensures i < control'[l] <==> lv[Abs(t'[i])] <= l
        {
          assert control'[l] == control[l];
        }
      }
    }
  }

  /** A literal above the height h of a trail over distinct variables is
      unassigned under the trail cut at h. */
  lemma UnassignedAbove(t: seq<int>, h: nat, p: nat)
    requires DistinctVars(t) && h <= p < |t|
    ensures Unassigned(t[p], t[..h]) && Unassigned(-t[p], t[..h])
  {
    forall j | 0 <= j < h
      ensures t[..h][j] != t[p] && t[..h][j] != -t[p]
    {
      assert t[..h][j] == t[j] && Differ(t, j, p);
    }
  }

  /** `rs[v]`, when set, is a clause that forces the literal of v on the
      trail under the literals before it. */
  ghost predicate Reasoned(t: seq<int>, rs: seq<Option<nat>>, clauses: Cnf) {
    forall i {:trigger ReasonAt(t, rs, clauses, i)} :: ReasonAt(t, rs, clauses, i)
  }

  /** The reason recorded for the literal at trail position i, if any,
      forces it under the literals before it.  `Reasoned` is quantified
      over this predicate only, so that a proof names the positions it
      needs. */
  ghost predicate ReasonAt(t: seq<int>, rs: seq<Option<nat>>, clauses: Cnf, i: int) {
    0 <= i < |t| ==>
      Abs(t[i]) < |rs|
      && (rs[Abs(t[i])].Some? ==>
            rs[Abs(t[i])].value < |clauses| && Justifies(clauses[rs[Abs(t[i])].value], t[i], t[..i]))
  }

  /** Assigning a literal with a reason that forces it (or none). */
  lemma ReasonedAssign(t: seq<int>, rs: seq<Option<nat>>, clauses: Cnf, lit: int, reason: Option<nat>)
    requires Reasoned(t, rs, clauses)
    requires lit != 0 && Abs(lit) < |rs| && Unassigned(lit, t)
    requires reason.Some? ==> reason.value < |clauses| && Justifies(clauses[reason.value], lit, t)
    ensures Reasoned(t + [lit], rs[Abs(lit) := reason], clauses)
  {
    var t', rs' := t + [lit], rs[Abs(lit) := reason];
    forall i
      ensures ReasonAt(t', rs', clauses, i)
    {
      if 0 <= i < |t| {
        assert ReasonAt(t, rs, clauses, i);
        assert t[i] != lit && t[i] != -lit;
        assert t'[..i] == t[..i];
      } else if i == |t| {
        assert t'[..i] == t;
      }
    }
  }

  /** A prefix of the trail keeps its reasons. */
  lemma ReasonedCut(t: seq<int>, rs: seq<Option<nat>>, clauses: Cnf, h: nat)
    requires Reasoned(t, rs, clauses) && h <= |t|
    ensures Reasoned(t[..h], rs, clauses)
  {
    forall i
      ensures ReasonAt(t[..h], rs, clauses, i)
    {
      if 0 <= i < h {
        assert ReasonAt(t, rs, clauses, i);
        assert t[..h][..i] == t[..i];
      }
    }
  }

  /** Adding a clause keeps the reasons. */
  lemma ReasonedGrow(t: seq<int>, rs: seq<Option<nat>>, clauses: Cnf, c: Clause)
    requires Reasoned(t, rs, clauses)
    ensures Reasoned(t, rs, clauses + [c])
  {
    forall i
      ensures ReasonAt(t, rs, clauses + [c], i)
    {
      assert ReasonAt(t, rs, clauses, i);
      if 0 <= i < |t| && rs[Abs(t[i])].Some? {
        assert (clauses + [c])[rs[Abs(t[i])].value] == clauses[rs[Abs(t[i])].value];
      }
    }
  }

  /** What propagation does to the levels and reasons: the variables of
      the first `from` trail literals keep the level and reason they had
      in `lv0` and `rs0`, and every literal from position `from` on was
      assigned at `level` with a reason. */
  ghost predicate ForcedSince(from: nat, lv0: seq<nat>, rs0: seq<Option<nat>>, t: seq<int>, lv: seq<nat>, rs: seq<Option<nat>>, level: nat) {
    from <= |t| && |lv| == |lv0| && |rs| == |rs0|
    && forall i {:trigger ForcedAt(from, lv0, rs0, t, lv, rs, level, i)} :: ForcedAt(from, lv0, rs0, t, lv, rs, level, i)
  }

  /** The trail literal at position i, if any, as `ForcedSince` states it.
      `ForcedSince` is quantified over this predicate only. */
  ghost predicate ForcedAt(from: nat, lv0: seq<nat>, rs0: seq<Option<nat>>, t: seq<int>, lv: seq<nat>, rs: seq<Option<nat>>, level: nat, i: int) {
    0 <= i < |t| ==>
      Abs(t[i]) < |lv| && Abs(t[i]) < |rs|
      && (i < from ==> Abs(t[i]) < |lv0| && Abs(t[i]) < |rs0| && lv[Abs(t[i])] == lv0[Abs(t[i])] && rs[Abs(t[i])] == rs0[Abs(t[i])])
      && (from <= i ==> lv[Abs(t[i])] == level && rs[Abs(t[i])].Some?)
  }

  /** Before propagation assigns anything, everything is kept. */
  lemma ForcedNone(t: seq<int>, lv: seq<nat>, rs: seq<Option<nat>>, level: nat)
    requires forall i :: 0 <= i < |t| ==> Abs(t[i]) < |lv| && Abs(t[i]) < |rs|
    ensures ForcedSince(|t|, lv, rs, t, lv, rs, level)
  {
    forall i
      ensures ForcedAt(|t|, lv, rs, t, lv, rs, level, i)
    {
    }
  }

  /** Assigning a new variable at `level` with reason `r` keeps the
      property. */
  lemma ForcedPush(from: nat, lv0: seq<nat>, rs0: seq<Option<nat>>, t: seq<int>, lv: seq<nat>, rs: seq<Option<nat>>, level: nat, lit: int, r: nat)
    requires ForcedSince(from, lv0, rs0, t, lv, rs, level)
    requires DistinctVars(t + [lit]) && Abs(lit) < |lv| && Abs(lit) < |rs|
    ensures ForcedSince(from, lv0, rs0, t + [lit], lv[Abs(lit) := level], rs[Abs(lit) := Some(r)], level)
  {
    var t', lv', rs' := t + [lit], lv[Abs(lit) := level], rs[Abs(lit) := Some(r)];
    forall i
      ensures ForcedAt(from, lv0, rs0, t', lv', rs', level, i)
    {
      if 0 <= i < |t| {
        assert ForcedAt(from, lv0, rs0, t, lv, rs, level, i);
        assert Differ(t', i, |t|);
      }
    }
  }

  /** Two stretches of propagation, the second extending the trail the
      first ended on, make one. */
  lemma ForcedChain(from: nat, lv0: seq<nat>, rs0: seq<Option<nat>>, t: seq<int>, lv: seq<nat>, rs: seq<Option<nat>>,
                    t': seq<int>, lv': seq<nat>, rs': seq<Option<nat>>, level: nat)
    requires ForcedSince(from, lv0, rs0, t, lv, rs, level)
    requires ForcedSince(|t|, lv, rs, t', lv', rs', level) && t'[..|t|] == t
    ensures ForcedSince(from, lv0, rs0, t', lv', rs', level)
  {
    forall i
      ensures ForcedAt(from, lv0, rs0, t', lv', rs', level, i)
    {
      assert ForcedAt(|t|, lv, rs, t', lv', rs', level, i);
      if 0 <= i < |t| {
        assert t'[i] == t[i];
        assert ForcedAt(from, lv0, rs0, t, lv, rs, level, i);
      }
    }
  }
}
