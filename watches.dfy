/** The two-watched-literal solver of BabySAT (babysat-watches.cpp): the
    same trail, levels, reasons, control stack and `searched` cursor as
    the clause-scanning CDCL solver, plus the watch fields of each clause
    and the watch lists `add_clause` initialises, and the 1-UIP conflict
    analysis with its per-conflict stamps.

    The analysis is stated over the trail positions whose variable carries
    the stamp of the current conflict: `analyze_literal` keeps `current`
    the number of such positions at the current level not yet passed by
    the walk down the trail, and `lower` the number at lower levels. */
module Watches {
  import opened Literals
  import opened Clauses
  import opened Trails

  /** The watch fields of a stored clause: the two watched literals, which
      `add_clause` writes for a clause of more than one literal, and the
      blocking literal, which it writes for a non-empty clause.  The fields
      it does not write are `None`. */
  datatype Watch = Watch(pair: Option<(int, int)>, blocker: Option<int>)

  /** The watch fields `add_clause` gives a new clause: its first two
      literals watched, its first literal as blocker. */
  function Initial(c: Clause): Watch {
    Watch(if |c| > 1 then Some((c[0], c[1])) else None, if |c| > 0 then Some(c[0]) else None)
  }

  /** The watch fields of a clause name literals of the clause, and a
      clause of more than one literal watches two. */
  ghost predicate Fits(c: Clause, w: Watch) {
    (w.pair.Some? <==> |c| > 1)
    && (w.pair.Some? ==> w.pair.value.0 in c && w.pair.value.1 in c)
    && (w.blocker.Some? ==> w.blocker.value in c)
  }

  /** Clause k watches `lit`. */
  ghost predicate Watching(watches: seq<Watch>, k: nat, lit: int) {
    k < |watches| && watches[k].pair.Some? && (watches[k].pair.value.0 == lit || watches[k].pair.value.1 == lit)
  }

  /** The watch lists, indexed by `lit + n`, agree with the watch fields:
      a clause watching two literals is on the list of each, and every
      entry of a list is a clause watching that list's literal. */
  ghost predicate WatchLists(n: nat, clauses: Cnf, watches: seq<Watch>, watched: seq<seq<nat>>) {
    |watched| == 2 * n + 1 && |watches| == |clauses|
    && (forall k :: 0 <= k < |watches| ==> Fits(clauses[k], watches[k]))
    && (forall k :: 0 <= k < |watches| && watches[k].pair.Some? ==>
          IsLit(watches[k].pair.value.0, n) && IsLit(watches[k].pair.value.1, n)
          && k in watched[watches[k].pair.value.0 + n] && k in watched[watches[k].pair.value.1 + n])
    && (forall x, j :: 0 <= x < |watched| && 0 <= j < |watched[x]| ==> Watching(watches, watched[x][j], x - n))
  }

  /** The watch lists after clause k, of more than one literal, is pushed
      on the list of its first literal and then on that of its second. */
  function Register(watched: seq<seq<nat>>, c: Clause, k: nat, n: nat): (r: seq<seq<nat>>)
    requires |watched| == 2 * n + 1 && |c| > 1 && IsLit(c[0], n) && IsLit(c[1], n)
    ensures |r| == |watched|
    ensures forall x :: 0 <= x < |r| ==>
      r[x] == watched[x] + (if x == c[0] + n then [k] else []) + (if x == c[1] + n then [k] else [])
  {
    var a := watched[c[0] + n := watched[c[0] + n] + [k]];
    a[c[1] + n := a[c[1] + n] + [k]]
  }

  /** A clause stored with the watch fields of `add_clause` fits. */
  lemma WatchAddFits(clauses: Cnf, watches: seq<Watch>, c: Clause)
    requires |watches| == |clauses| && forall k :: 0 <= k < |watches| ==> Fits(clauses[k], watches[k])
    ensures forall k :: 0 <= k < |watches| + 1 ==> Fits((clauses + [c])[k], (watches + [Initial(c)])[k])
  {
    forall k | 0 <= k < |watches| + 1
      ensures Fits((clauses + [c])[k], (watches + [Initial(c)])[k])
    {
      if k == |watches| {
        assert |c| > 1 ==> c[0] in c && c[1] in c;
      }
    }
  }

  /** After registering, each clause watching two literals is on both of
      their lists. */
  lemma WatchAddListed(n: nat, clauses: Cnf, watches: seq<Watch>, watched: seq<seq<nat>>, c: Clause, watched': seq<seq<nat>>)
    requires WatchLists(n, clauses, watches, watched)
    requires forall i :: 0 <= i < |c| ==> IsLit(c[i], n)
    requires |c| <= 1 ==> watched' == watched
    requires |c| > 1 ==> watched' == Register(watched, c, |clauses|, n)
    ensures forall k :: 0 <= k < |watches| + 1 && (watches + [Initial(c)])[k].pair.Some? ==>
      var w := (watches + [Initial(c)])[k].pair.value;
      IsLit(w.0, n) && IsLit(w.1, n) && k in watched'[w.0 + n] && k in watched'[w.1 + n]
  {
    var ws := watches + [Initial(c)];
    forall k | 0 <= k < |ws| && ws[k].pair.Some?
      ensures IsLit(ws[k].pair.value.0, n) && IsLit(ws[k].pair.value.1, n)
      ensures k in watched'[ws[k].pair.value.0 + n] && k in watched'[ws[k].pair.value.1 + n]
    {
      if k < |watches| {
        assert ws[k] == watches[k];
        var a, b := watches[k].pair.value.0 + n, watches[k].pair.value.1 + n;
        assert watched[a] <= watched'[a] && watched[b] <= watched'[b];
      } else {
        assert IsLit(c[0], n) && IsLit(c[1], n);
        assert k in watched'[c[0] + n] && k in watched'[c[1] + n];
      }
    }
  }

  /** After registering, every list entry is a clause watching the list's
      literal. */
  lemma WatchAddEntries(n: nat, clauses: Cnf, watches: seq<Watch>, watched: seq<seq<nat>>, c: Clause, watched': seq<seq<nat>>)
    requires WatchLists(n, clauses, watches, watched)
    requires forall i :: 0 <= i < |c| ==> IsLit(c[i], n)
    requires |c| <= 1 ==> watched' == watched
    requires |c| > 1 ==> watched' == Register(watched, c, |clauses|, n)
    ensures forall x, j :: 0 <= x < |watched'| && 0 <= j < |watched'[x]| ==>
      Watching(watches + [Initial(c)], watched'[x][j], x - n)
  {
    forall x, j | 0 <= x < |watched'| && 0 <= j < |watched'[x]|
      ensures Watching(watches + [Initial(c)], watched'[x][j], x - n)
    {
      if j < |watched[x]| {
        assert watched[x] <= watched'[x];
        assert watched'[x][j] == watched[x][j];
      } else {
        assert watched'[x][j] == |clauses| && |c| > 1;
      }
    }
  }

  /** Storing a clause with the watch fields of `add_clause`, and putting
      it on the list of each watched literal, keeps the lists in step with
      the fields. */
  lemma WatchAdd(n: nat, clauses: Cnf, watches: seq<Watch>, watched: seq<seq<nat>>, c: Clause, watched': seq<seq<nat>>)
    requires WatchLists(n, clauses, watches, watched)
    requires forall i :: 0 <= i < |c| ==> IsLit(c[i], n)
    requires |c| <= 1 ==> watched' == watched
    requires |c| > 1 ==> watched' == Register(watched, c, |clauses|, n)
    ensures WatchLists(n, clauses + [c], watches + [Initial(c)], watched')
  {
    WatchAddFits(clauses, watches, c);
    WatchAddListed(n, clauses, watches, watched, c, watched');
    WatchAddEntries(n, clauses, watches, watched, c, watched');
  }

  /** Appending a clause over the variables keeps every clause over them. */
  lemma LitsGrow(n: nat, clauses: Cnf, c: Clause)
    requires forall k, i :: 0 <= k < |clauses| && 0 <= i < |clauses[k]| ==> IsLit(clauses[k][i], n)
    requires forall i :: 0 <= i < |c| ==> IsLit(c[i], n)
    ensures forall k, i :: 0 <= k < |clauses| + 1 && 0 <= i < |(clauses + [c])[k]| ==> IsLit((clauses + [c])[k][i], n)
  {
    forall k, i | 0 <= k < |clauses| + 1 && 0 <= i < |(clauses + [c])[k]|
      ensures IsLit((clauses + [c])[k][i], n)
    {
      if k < |clauses| {
        assert (clauses + [c])[k] == clauses[k];
      }
    }
  }

  // ---------------------------------------------------------------------
  // Stamps during the analysis of one conflict

  /** The variable at trail position j carries the stamp `s`. */
  ghost predicate Marked(t: seq<int>, st: seq<nat>, s: nat, j: int) {
    0 <= j < |t| && Abs(t[j]) < |st| && st[Abs(t[j])] == s
  }

  /** The positions below `i` whose variable carries the stamp, at level
      `L` when `here` holds and at another level otherwise. */
  ghost function StampedBelow(t: seq<int>, st: seq<nat>, s: nat, lv: seq<nat>, L: nat, i: int, here: bool): set<nat> {
    set j: nat | j < i && Marked(t, st, s, j) && Abs(t[j]) < |lv| && (lv[Abs(t[j])] == L) == here
  }

  /** The counters of `analyze` during the walk, which has not yet passed
      the positions below `i`: `current` counts the stamped positions of
      level `L` below `i`, `lower` the stamped positions of lower levels on
      the whole trail; no stamped variable is at level 0. */
  ghost predicate Counted(t: seq<int>, st: seq<nat>, s: nat, lv: seq<nat>, L: nat, i: int, current: int, lower: int) {
    current == |StampedBelow(t, st, s, lv, L, i, true)|
    && lower == |StampedBelow(t, st, s, lv, L, |t|, false)|
    && forall j :: Marked(t, st, s, j) ==> Abs(t[j]) < |lv| && lv[Abs(t[j])] > 0
  }

  /** Before the first stamp of a conflict both counters are zero. */
  lemma CountedStart(t: seq<int>, st: seq<nat>, s: nat, lv: seq<nat>, L: nat, i: int)
    requires forall v :: 0 <= v < |st| ==> st[v] < s
    ensures Counted(t, st, s, lv, L, i, 0, 0)
  {
    assert StampedBelow(t, st, s, lv, L, i, true) == {};
    assert StampedBelow(t, st, s, lv, L, |t|, false) == {};
  }

  /** Stamping the variable at position p, below `i`, adds one to the
      counter of its side of the current level. */
  lemma MarkOne(t: seq<int>, st: seq<nat>, s: nat, lv: seq<nat>, L: nat, i: int, current: int, lower: int, p: nat)
    requires DistinctVars(t) && Counted(t, st, s, lv, L, i, current, lower)
    requires p < i && p < |t| && Abs(t[p]) < |st| && Abs(t[p]) < |lv|
    requires st[Abs(t[p])] != s && lv[Abs(t[p])] > 0
    ensures Counted(t, st[Abs(t[p]) := s], s, lv, L, i,
                    current + (if lv[Abs(t[p])] == L then 1 else 0),
                    lower + (if lv[Abs(t[p])] == L then 0 else 1))
  {
    var v := Abs(t[p]);
    var st' := st[v := s];
    forall j | 0 <= j < |t| && j != p
      ensures Marked(t, st', s, j) == Marked(t, st, s, j)
    {
      if j < p {
        assert Differ(t, j, p);
      } else {
        assert Differ(t, p, j);
      }
    }
    var here, other := StampedBelow(t, st, s, lv, L, i, true), StampedBelow(t, st, s, lv, L, |t|, false);
    if lv[v] == L {
      assert StampedBelow(t, st', s, lv, L, i, true) == here + {p};
      assert StampedBelow(t, st', s, lv, L, |t|, false) == other;
    } else {
      assert StampedBelow(t, st', s, lv, L, i, true) == here;
      assert StampedBelow(t, st', s, lv, L, |t|, false) == other + {p};
    }
  }

  /** Moving the walk past position i removes i from the positions below
      it. */
  lemma StampedStep(t: seq<int>, st: seq<nat>, s: nat, lv: seq<nat>, L: nat, i: nat, here: bool)
    ensures i !in StampedBelow(t, st, s, lv, L, i, here)
    ensures StampedBelow(t, st, s, lv, L, i + 1, here)
         == StampedBelow(t, st, s, lv, L, i, here)
            + (if Marked(t, st, s, i) && Abs(t[i]) < |lv| && (lv[Abs(t[i])] == L) == here then {i} else {})
  {
  }

  /** Moving the walk down past a stamped position of the current level
      leaves one fewer below it. */
  lemma PassStamped(t: seq<int>, st: seq<nat>, s: nat, lv: seq<nat>, L: nat, i: nat, current: int, lower: int)
    requires Counted(t, st, s, lv, L, i + 1, current, lower)
    requires Marked(t, st, s, i) && Abs(t[i]) < |lv| && lv[Abs(t[i])] == L
    ensures Counted(t, st, s, lv, L, i, current - 1, lower)
  {
    StampedStep(t, st, s, lv, L, i, true);
  }

  /** Moving the walk down past any other position changes no count. */
  lemma PassOther(t: seq<int>, st: seq<nat>, s: nat, lv: seq<nat>, L: nat, i: nat, current: int, lower: int)
    requires Counted(t, st, s, lv, L, i + 1, current, lower)
    requires !(Marked(t, st, s, i) && Abs(t[i]) < |lv| && lv[Abs(t[i])] == L)
    ensures Counted(t, st, s, lv, L, i, current, lower)
  {
    StampedStep(t, st, s, lv, L, i, true);
  }

  /** While a stamped position of the current level lies below `i`, the
      position just below `i` is on the trail at the current level: the
      walk never leaves the current level's part of the trail. */
  lemma WalkLevel(t: seq<int>, st: seq<nat>, s: nat, lv: seq<nat>, control: seq<nat>, L: nat, i: int)
    requires Leveled(t, lv, control, L) && |control| == L > 0 && i <= |t|
    requires |StampedBelow(t, st, s, lv, L, i, true)| > 0
    ensures 0 < i && control[L - 1] <= i - 1 && lv[Abs(t[i - 1])] == L
  {
    var q :| q in StampedBelow(t, st, s, lv, L, i, true);
    assert LevelAt(t, lv, control, q);
    assert !(q < control[L - 1]);
    var h := i - 1;
    assert LevelAt(t, lv, control, h);
    assert !(h < control[L - 1]);
  }

  /** The negations of the stamped literals at positions `lo` .. `hi - 1`
      of the trail, from the highest position down: the literals the walk
      adds to the learned clause. */
  ghost function Collected(t: seq<int>, st: seq<nat>, s: nat, lo: nat, hi: nat): seq<int>
    decreases hi - lo
  {
    if lo >= hi then []
    else Collected(t, st, s, lo + 1, hi) + (if Marked(t, st, s, lo) then [-t[lo]] else [])
  }

  /** The collected literals are exactly the negations of the stamped
      literals in the range. */
  lemma {:induction false} CollectedMeaning(t: seq<int>, st: seq<nat>, s: nat, lo: nat, hi: nat)
    ensures forall y :: y in Collected(t, st, s, lo, hi) <==>
      exists j :: lo <= j < hi && Marked(t, st, s, j) && y == -t[j]
    decreases hi - lo
  {
    if lo < hi {
      CollectedMeaning(t, st, s, lo + 1, hi);
    }
  }

  /** Without stamped positions below `i`, collecting from 0 or from `i`
      gives the same literals. */
  lemma {:induction false} CollectedSkip(t: seq<int>, st: seq<nat>, s: nat, lo: nat, i: nat, hi: nat)
    requires lo <= i <= hi
    requires forall j :: lo <= j < i ==> !Marked(t, st, s, j)
    ensures Collected(t, st, s, lo, hi) == Collected(t, st, s, i, hi)
    decreases i - lo
  {
    if lo < i {
      CollectedSkip(t, st, s, lo + 1, i, hi);
    }
  }

  /** With every stamped literal below `p` at a level at most `jump`, below
      the current level, the collected literals are false under the trail
      cut at the control entry of level `jump + 1`. */
  lemma CollectedBelowJump(n: nat, t: seq<int>, st: seq<nat>, s: nat, lv: seq<nat>, control: seq<nat>, L: nat, p: nat, jump: nat)
    requires TrailOk(t, n) && Leveled(t, lv, control, L) && |control| == L && jump < L
    requires forall l :: 0 <= l < |control| ==> control[l] <= |t|
    requires forall j :: 0 <= j < p && Marked(t, st, s, j) ==> lv[Abs(t[j])] <= jump
    ensures forall y :: y in Collected(t, st, s, 0, p) ==> IsLit(y, n) && -y in t[..control[jump]]
  {
    CollectedMeaning(t, st, s, 0, p);
    forall y | y in Collected(t, st, s, 0, p)
      ensures IsLit(y, n) && -y in t[..control[jump]]
    {
      var j :| 0 <= j < p && Marked(t, st, s, j) && y == -t[j];
      assert LevelAt(t, lv, control, j);
      assert j < control[jump];
      assert t[..control[jump]][j] == t[j];
    }
  }

  /** Above the control entry of the current level every position is at
      the current level, so the stamped positions of lower levels all lie
      below it. */
  lemma LowerBelow(t: seq<int>, st: seq<nat>, s: nat, lv: seq<nat>, control: seq<nat>, L: nat, p: nat)
    requires Leveled(t, lv, control, L) && |control| == L > 0 && control[L - 1] <= p <= |t|
    ensures StampedBelow(t, st, s, lv, L, |t|, false) == StampedBelow(t, st, s, lv, L, p, false)
  {
    forall j | p <= j < |t|
      ensures lv[Abs(t[j])] == L
    {
      assert LevelAt(t, lv, control, j);
      assert !(j < control[L - 1]);
    }
  }

  /** Once no stamped position of the current level lies below `p` and
      none of another level below `i`, no stamped position lies below `i`. */
  lemma NoneStamped(t: seq<int>, st: seq<nat>, s: nat, lv: seq<nat>, L: nat, i: nat, p: nat)
    requires i <= p && forall j :: 0 <= j < |t| ==> Abs(t[j]) < |lv|
    requires StampedBelow(t, st, s, lv, L, p, true) == {}
    requires StampedBelow(t, st, s, lv, L, i, false) == {}
    ensures forall j :: 0 <= j < i ==> !Marked(t, st, s, j)
  {
    forall j | 0 <= j < i
      ensures !Marked(t, st, s, j)
    {
      assert j !in StampedBelow(t, st, s, lv, L, p, true);
      assert j !in StampedBelow(t, st, s, lv, L, i, false);
    }
  }

  /** The state of the walk below the unique implication point p, at
      position i: `learned` holds the negations of the stamped literals
      from i to p, all of lower levels, and `jump` the highest of their
      levels, or 0. */
  ghost predicate Gathered(t: seq<int>, st: seq<nat>, s: nat, lv: seq<nat>, L: nat, i: nat, p: nat, learned: seq<int>, jump: nat) {
    i <= p <= |t| && (forall j :: 0 <= j < |t| ==> Abs(t[j]) < |lv| && lv[Abs(t[j])] <= L)
    && learned == Collected(t, st, s, i, p) && jump < L
    && (forall j :: i <= j < p && Marked(t, st, s, j) ==> lv[Abs(t[j])] <= jump)
    && (jump == 0 || exists j :: i <= j < p && Marked(t, st, s, j) && lv[Abs(t[j])] == jump)
  }

  /** One step of the walk below the unique implication point, past the
      stamped position i: its negation is collected and its level taken
      into the maximum. */
  lemma GatherMarked(t: seq<int>, st: seq<nat>, s: nat, lv: seq<nat>, L: nat, i: nat, p: nat, learned: seq<int>, jump: nat, learned': seq<int>, jump': nat)
    requires Gathered(t, st, s, lv, L, i, p, learned, jump) && 0 < i
    requires StampedBelow(t, st, s, lv, L, p, true) == {}
    requires Marked(t, st, s, i - 1) && learned' == learned + [-t[i - 1]]
    requires jump' == if lv[Abs(t[i - 1])] > jump then lv[Abs(t[i - 1])] else jump
    ensures Gathered(t, st, s, lv, L, i - 1, p, learned', jump')
  {
    assert i - 1 !in StampedBelow(t, st, s, lv, L, p, true);
  }

  /** One step of the walk below the unique implication point, past the
      unstamped position i. */
  lemma GatherOther(t: seq<int>, st: seq<nat>, s: nat, lv: seq<nat>, L: nat, i: nat, p: nat, learned: seq<int>, jump: nat)
    requires Gathered(t, st, s, lv, L, i, p, learned, jump) && 0 < i && !Marked(t, st, s, i - 1)
    ensures Gathered(t, st, s, lv, L, i - 1, p, learned, jump)
  {
  }

  /** At the end of the walk, with no stamped position below i, the
      gathered literals and level are those of the whole trail below p. */
  lemma GatherEnd(t: seq<int>, st: seq<nat>, s: nat, lv: seq<nat>, L: nat, i: nat, p: nat, learned: seq<int>, jump: nat)
    requires Gathered(t, st, s, lv, L, i, p, learned, jump)
    requires forall j :: 0 <= j < i ==> !Marked(t, st, s, j)
    ensures learned == Collected(t, st, s, 0, p)
    ensures forall j :: 0 <= j < p && Marked(t, st, s, j) ==> lv[Abs(t[j])] <= jump
    ensures jump == 0 || exists j :: 0 <= j < p && Marked(t, st, s, j) && lv[Abs(t[j])] == jump
  {
    CollectedSkip(t, st, s, 0, i, p);
  }

  /** What the walk of `analyze` derives from the stamps `st` of the
      conflict `s` on trail t at level L: position p holds the unique
      implication point, stamped and at level L with no stamped position
      of level L below it; `collected` holds the negations of the stamped
      literals below p, and `jump` is the highest of their levels, or 0,
      below L. */
  ghost predicate Derived(t: seq<int>, st: seq<nat>, s: nat, lv: seq<nat>, L: nat, p: nat, collected: seq<int>, jump: nat) {
    p < |t| && Abs(t[p]) < |lv| && lv[Abs(t[p])] == L && Marked(t, st, s, p)
    && StampedBelow(t, st, s, lv, L, p, true) == {}
    && collected == Collected(t, st, s, 0, p)
    && jump < L
    && (forall j :: 0 <= j < p && Marked(t, st, s, j) ==> Abs(t[j]) < |lv| && lv[Abs(t[j])] <= jump)
    && (jump == 0 || exists j :: 0 <= j < p && Marked(t, st, s, j) && Abs(t[j]) < |lv| && lv[Abs(t[j])] == jump)
  }

  /** The clause `analyze` learns, the collected literals and `-uip`,
      forces `-uip` on the trail that remains after the backjump: the
      collected literals are all false there. */
  lemma LearnedJustifies(n: nat, t: seq<int>, st: seq<nat>, s: nat, lv: seq<nat>, control: seq<nat>, L: nat, p: nat, collected: seq<int>, jump: nat)
    requires TrailOk(t, n) && Leveled(t, lv, control, L) && |control| == L
    requires forall l :: 0 <= l < |control| ==> control[l] <= |t|
    requires Derived(t, st, s, lv, L, p, collected, jump)
    ensures Justifies(collected + [-t[p]], -t[p], t[..control[jump]])
    ensures forall y :: y in collected + [-t[p]] ==> IsLit(y, n)
  {
    CollectedBelowJump(n, t, st, s, lv, control, L, p, jump);
  }

  /** A stamped position of the current level below `i` makes `current`
      positive. */
  lemma CountedPositive(t: seq<int>, st: seq<nat>, s: nat, lv: seq<nat>, L: nat, i: int, current: int, lower: int, q: nat)
    requires Counted(t, st, s, lv, L, i, current, lower)
    requires q < i && Marked(t, st, s, q) && Abs(t[q]) < |lv| && lv[Abs(t[q])] == L
    ensures current >= 1
  {
    assert q in StampedBelow(t, st, s, lv, L, i, true);
  }

  // ---------------------------------------------------------------------
  // Which variables the analysis of one conflict stamps

  /** Every variable of clause c not at level 0 carries the stamp s: what
      `analyze_literal` on each literal of c leaves. */
  ghost predicate ClauseStamped(c: Clause, st: seq<nat>, s: nat, lv: seq<nat>) {
    forall lit :: lit in c ==> Abs(lit) < |st| && Abs(lit) < |lv| && (lv[Abs(lit)] == 0 || st[Abs(lit)] == s)
  }

  /** `st` is `st0` with some variables of `vs` stamped s, and no other
      change. */
  ghost predicate StampedOnly(st0: seq<nat>, st: seq<nat>, s: nat, vs: set<nat>) {
    |st| == |st0| && forall v :: 0 <= v < |st| && st[v] != st0[v] ==> st[v] == s && v in vs
  }

  /** The literal at trail position j has a reason, clause `rs[..]`. */
  ghost predicate HasReason(t: seq<int>, rs: seq<Option<nat>>, cs: Cnf, j: int) {
    0 <= j < |t| && Abs(t[j]) < |rs| && rs[Abs(t[j])].Some? && rs[Abs(t[j])].value < |cs|
  }

  /** Variable v occurs in the reason of the literal at trail position j. */
  ghost predicate InReason(t: seq<int>, rs: seq<Option<nat>>, cs: Cnf, j: int, v: nat) {
    HasReason(t, rs, cs, j) && v in VarsOf(cs[rs[Abs(t[j])].value])
  }

  /** Every stamped position at or above i that has a reason has been
      resolved: the non-root variables of its reason are stamped. */
  ghost predicate ResolvedFrom(t: seq<int>, st: seq<nat>, s: nat, lv: seq<nat>, rs: seq<Option<nat>>, cs: Cnf, i: int) {
    forall j {:trigger ResolvedAt(t, st, s, lv, rs, cs, j)} :: i <= j ==> ResolvedAt(t, st, s, lv, rs, cs, j)
  }

  /** Position j, when stamped and with a reason, has been resolved.
      `ResolvedFrom` is quantified over this predicate only, so that a
      proof names the positions it needs. */
  ghost predicate ResolvedAt(t: seq<int>, st: seq<nat>, s: nat, lv: seq<nat>, rs: seq<Option<nat>>, cs: Cnf, j: int) {
    Marked(t, st, s, j) && HasReason(t, rs, cs, j) ==> ClauseStamped(cs[rs[Abs(t[j])].value], st, s, lv)
  }

  /** Every stamp set since `st0` is on a variable of the conflicting
      clause k or of the reason of a stamped position at or above i. */
  ghost predicate Sourced(t: seq<int>, st0: seq<nat>, st: seq<nat>, s: nat, rs: seq<Option<nat>>, cs: Cnf, k: nat, i: int) {
    k < |cs| && |st| == |st0|
    && forall v {:trigger SourcedAt(t, st0, st, s, rs, cs, k, i, v)} :: SourcedAt(t, st0, st, s, rs, cs, k, i, v)
  }

  /** The stamp of variable v, when set since `st0`, comes from clause k
      or from the reason of a stamped position at or above i. */
  ghost predicate SourcedAt(t: seq<int>, st0: seq<nat>, st: seq<nat>, s: nat, rs: seq<Option<nat>>, cs: Cnf, k: nat, i: int, v: int) {
    k < |cs| && 0 <= v < |st| && v < |st0| && st[v] != st0[v] ==>
      st[v] == s && (v in VarsOf(cs[k]) || exists j :: i <= j && Marked(t, st, s, j) && InReason(t, rs, cs, j, v))
  }

  /** The stamps `st` that resolution leaves, from `st0`, on the conflict
      with clause k after walking the trail down to position i: the
      conflicting clause stamped, every stamped position at or above i
      resolved with its reason, and nothing else stamped. */
  ghost predicate Resolution(t: seq<int>, st0: seq<nat>, st: seq<nat>, s: nat, lv: seq<nat>, rs: seq<Option<nat>>, cs: Cnf, k: nat, i: int) {
    k < |cs| && ClauseStamped(cs[k], st, s, lv)
    && ResolvedFrom(t, st, s, lv, rs, cs, i)
    && Sourced(t, st0, st, s, rs, cs, k, i)
  }

  /** Stamping the conflicting clause starts the resolution at the top of
      the trail. */
  lemma ResolutionStart(t: seq<int>, st0: seq<nat>, st: seq<nat>, s: nat, lv: seq<nat>, rs: seq<Option<nat>>, cs: Cnf, k: nat)
    requires k < |cs| && ClauseStamped(cs[k], st, s, lv)
    requires StampedOnly(st0, st, s, VarsOf(cs[k]))
    ensures Resolution(t, st0, st, s, lv, rs, cs, k, |t|)
  {
    forall j
      ensures |t| <= j ==> ResolvedAt(t, st, s, lv, rs, cs, j)
    {
    }
    forall v
      ensures SourcedAt(t, st0, st, s, rs, cs, k, |t|, v)
    {
    }
  }

  /** Walking past position i, unstamped or without a reason, keeps the
      resolution. */
  lemma ResolutionPass(t: seq<int>, st0: seq<nat>, st: seq<nat>, s: nat, lv: seq<nat>, rs: seq<Option<nat>>, cs: Cnf, k: nat, i: int)
    requires Resolution(t, st0, st, s, lv, rs, cs, k, i + 1)
    requires !(Marked(t, st, s, i) && HasReason(t, rs, cs, i))
    ensures Resolution(t, st0, st, s, lv, rs, cs, k, i)
  {
    forall j
      ensures i <= j ==> ResolvedAt(t, st, s, lv, rs, cs, j)
    {
      if i < j {
        assert ResolvedAt(t, st, s, lv, rs, cs, j);
      }
    }
    forall v
      ensures SourcedAt(t, st0, st, s, rs, cs, k, i, v)
    {
      assert SourcedAt(t, st0, st, s, rs, cs, k, i + 1, v);
    }
  }

  /** The variables of a clause forcing the literal at position i lie at
      positions up to i, so none is the variable of a position above i. */
  lemma ReasonBelow(t: seq<int>, c: Clause, i: nat, v: nat)
    requires DistinctVars(t) && i < |t| && Justifies(c, t[i], t[..i]) && v in VarsOf(c)
    ensures forall j :: i < j < |t| ==> Abs(t[j]) != v
  {
    var x :| 0 <= x < |c| && Abs(c[x]) == v;
    assert c[x] in c;
    var q := i;
    if c[x] != t[i] {
      q :| 0 <= q < i && t[..i][q] == -c[x];
    }
    assert Abs(t[q]) == v;
    forall j | i < j < |t|
      ensures Abs(t[j]) != v
    {
      assert Differ(t, q, j);
    }
  }

  /** Resolving the stamped position i with its reason r, which stamps
      the non-root variables of r and nothing else, keeps the resolution,
      now from i. */
  lemma ResolutionStep(t: seq<int>, st0: seq<nat>, st: seq<nat>, st': seq<nat>, s: nat, lv: seq<nat>, rs: seq<Option<nat>>, cs: Cnf, k: nat, i: nat)
    requires DistinctVars(t) && i < |t|
    requires Resolution(t, st0, st, s, lv, rs, cs, k, i + 1)
    requires Marked(t, st, s, i) && HasReason(t, rs, cs, i)
    requires Justifies(cs[rs[Abs(t[i])].value], t[i], t[..i])
    requires StampedOnly(st, st', s, VarsOf(cs[rs[Abs(t[i])].value]))
    requires ClauseStamped(cs[rs[Abs(t[i])].value], st', s, lv)
    ensures Resolution(t, st0, st', s, lv, rs, cs, k, i)
  {
    var r := rs[Abs(t[i])].value;
    // stamps only grow
    forall v | 0 <= v < |st| && st[v] == s
      ensures st'[v] == s
    {
    }
    // no position above i is newly stamped
    forall j | i < j < |t|
      ensures Marked(t, st', s, j) == Marked(t, st, s, j)
    {
      var v := Abs(t[j]);
      if v < |st| && v in VarsOf(cs[r]) {
        ReasonBelow(t, cs[r], i, v);
      }
    }
    assert Marked(t, st', s, i);
    forall j
      ensures i <= j ==> ResolvedAt(t, st', s, lv, rs, cs, j)
    {
      if i < j {
        assert ResolvedAt(t, st, s, lv, rs, cs, j);
        if Marked(t, st', s, j) && HasReason(t, rs, cs, j) {
          assert ClauseStamped(cs[rs[Abs(t[j])].value], st, s, lv);
        }
      }
    }
    forall v
      ensures SourcedAt(t, st0, st', s, rs, cs, k, i, v)
    {
      assert SourcedAt(t, st0, st, s, rs, cs, k, i + 1, v);
      if 0 <= v < |st'| && st'[v] != st0[v] && v !in VarsOf(cs[k]) {
        if st'[v] != st[v] {
          assert InReason(t, rs, cs, i, v);
        } else {
          var j :| i + 1 <= j && Marked(t, st, s, j) && InReason(t, rs, cs, j, v);
          assert Marked(t, st', s, j);
        }
      }
    }
    assert ClauseStamped(cs[k], st', s, lv);
  }

  /** Walking past positions p + 1 .. i - 1, none stamped, keeps the
      resolution. */
  lemma ResolutionSkip(t: seq<int>, st0: seq<nat>, st: seq<nat>, s: nat, lv: seq<nat>, rs: seq<Option<nat>>, cs: Cnf, k: nat, p: int, i: int)
    requires Resolution(t, st0, st, s, lv, rs, cs, k, i) && p < i
    requires forall j :: p < j < i ==> !Marked(t, st, s, j)
    ensures Resolution(t, st0, st, s, lv, rs, cs, k, p + 1)
  {
    var from := p + 1;
    forall j
      ensures from <= j ==> ResolvedAt(t, st, s, lv, rs, cs, j)
    {
      if i <= j {
        assert ResolvedAt(t, st, s, lv, rs, cs, j);
      }
    }
    forall v
      ensures SourcedAt(t, st0, st, s, rs, cs, k, from, v)
    {
      assert SourcedAt(t, st0, st, s, rs, cs, k, i, v);
    }
  }

  /** A literal of a total assignment that is not true is false. */
  lemma AssignmentFlip(m: set<int>, n: int, y: int)
    requires IsAssignment(m, n) && IsLit(y, n) && y !in m
    ensures -y in m
  {
    var v: int := Abs(y);
    assert v in m || -v in m;
  }

  /** Under a model of the formula that makes the root-level literals and
      the stamped literals up to p true, every stamped literal above p is
      true too: each has a reason, whose other variables are at level 0 or
      stamped below it. */
  lemma {:induction false} StampedTrue(n: nat, t: seq<int>, st: seq<nat>, s: nat, lv: seq<nat>, rs: seq<Option<nat>>, cs: Cnf, control: seq<nat>, L: nat, p: nat, m: set<int>, j: nat)
    requires TrailOk(t, n) && Leveled(t, lv, control, L) && |control| == L > 0 && Reasoned(t, rs, cs)
    requires control[0] <= |t| && ResolvedFrom(t, st, s, lv, rs, cs, p + 1)
    requires forall q :: p < q < |t| && Marked(t, st, s, q) ==> HasReason(t, rs, cs, q)
    requires IsModel(m, cs, n) && Agrees(m, t[..control[0]])
    requires forall q :: 0 <= q <= p && Marked(t, st, s, q) ==> t[q] in m
    requires Marked(t, st, s, j)
    ensures t[j] in m
    decreases j
  {
    if j > p {
      var r := rs[Abs(t[j])].value;
      assert ReasonAt(t, rs, cs, j) && ResolvedAt(t, st, s, lv, rs, cs, j);
      var c := cs[r];
      forall y | y in c && y != t[j]
        ensures y !in m
      {
        var q :| 0 <= q < j && t[..j][q] == -y;
        assert t[q] == -y && Abs(t[q]) == Abs(y);
        if lv[Abs(y)] == 0 {
          assert LevelAt(t, lv, control, q);
          assert q < control[0];
          assert t[..control[0]][q] == t[q];
        } else {
          assert Marked(t, st, s, q);
          StampedTrue(n, t, st, s, lv, rs, cs, control, L, p, m, q);
        }
      }
      assert c in cs;
      var l :| l in c && l in m;
      assert l == t[j];
    }
  }

  /** The clause `analyze` learns is implied: when every literal of the
      current level above its decision has a reason, every model of the
      formula that makes the root-level literals true satisfies the
      collected literals and `-uip`.  A model falsifying them would make
      every stamped literal true, and so every literal of the conflicting
      clause false. */
  lemma LearnedImplied(n: nat, t: seq<int>, st0: seq<nat>, st: seq<nat>, s: nat, lv: seq<nat>, rs: seq<Option<nat>>, cs: Cnf, control: seq<nat>, L: nat, k: nat, p: nat, collected: seq<int>, jump: nat, m: set<int>)
    requires TrailOk(t, n) && Leveled(t, lv, control, L) && |control| == L > 0 && Reasoned(t, rs, cs)
    requires k < |cs| && Falsified(cs[k], t) && control[0] <= |t|
    requires Derived(t, st, s, lv, L, p, collected, jump) && control[L - 1] <= p
    requires Resolution(t, st0, st, s, lv, rs, cs, k, p + 1)
    requires forall j :: control[L - 1] < j < |t| ==> HasReason(t, rs, cs, j)
    requires IsModel(m, cs, n) && Agrees(m, t[..control[0]])
    ensures exists y :: y in collected + [-t[p]] && y in m
  {
    var learned := collected + [-t[p]];
    if forall y :: y in learned ==> y !in m {
      CollectedMeaning(t, st, s, 0, p);
      forall q | 0 <= q <= p && Marked(t, st, s, q)
        ensures t[q] in m
      {
        var y := -t[q];
        assert y in learned;
        AssignmentFlip(m, n, y);
      }
      assert cs[k] in cs;
      forall y | y in cs[k]
        ensures y !in m
      {
        var q :| 0 <= q < |t| && t[q] == -y;
        assert Abs(t[q]) == Abs(y);
        if lv[Abs(y)] == 0 {
          assert LevelAt(t, lv, control, q);
          assert q < control[0];
          assert t[..control[0]][q] == t[q];
        } else {
          assert Marked(t, st, s, q);
          StampedTrue(n, t, st, s, lv, rs, cs, control, L, p, m, q);
        }
      }
      assert false;
    }
  }

  /** The clause derived from the stamps of a resolution is implied, in
      the sense of `Implies`. */
  lemma DerivedImplies(n: nat, t: seq<int>, st0: seq<nat>, st: seq<nat>, s: nat, lv: seq<nat>, rs: seq<Option<nat>>, cs: Cnf, control: seq<nat>, L: nat, k: nat, p: nat, collected: seq<int>, jump: nat)
    requires TrailOk(t, n) && Leveled(t, lv, control, L) && |control| == L > 0 && Reasoned(t, rs, cs)
    requires k < |cs| && Falsified(cs[k], t) && control[0] <= |t|
    requires Derived(t, st, s, lv, L, p, collected, jump) && control[L - 1] <= p
    requires Resolution(t, st0, st, s, lv, rs, cs, k, p + 1)
    ensures Implies(n, t, rs, cs, control, collected + [-t[p]])
  {
    if forall j :: control[L - 1] < j < |t| ==> HasReason(t, rs, cs, j) {
      forall m | IsModel(m, cs, n) && Agrees(m, t[..control[0]])
        ensures exists y :: y in collected + [-t[p]] && y in m
      {
        LearnedImplied(n, t, st0, st, s, lv, rs, cs, control, L, k, p, collected, jump, m);
      }
    }
  }

  /** When every literal of the current level above its decision has a
      reason, every model of the formula making the root-level literals
      true satisfies `learned`. */
  ghost predicate Implies(n: nat, t: seq<int>, rs: seq<Option<nat>>, cs: Cnf, control: seq<nat>, learned: seq<int>) {
    0 < |control| && control[0] <= |t|
    && ((forall j :: control[|control| - 1] < j < |t| ==> HasReason(t, rs, cs, j)) ==>
          forall m :: IsModel(m, cs, n) && Agrees(m, t[..control[0]]) ==> exists y :: y in learned && y in m)
  }

  class WatchSolver {
    /** The number of variables of the header. */
    const variables: nat
    /** `values[lit + variables]`: 1, -1 or 0 for true, false, unassigned. */
    const values: array<int>
    /** `levels[v]`: the decision level variable v was assigned at. */
    const levels: array<nat>
    /** `reasons[v]`: the position of the clause that forced v, none for a
        decision or a unit clause. */
    const reasons: array<Option<nat>>
    /** `stamped[v]`: the conflict count at which v was last analyzed. */
    const stamped: array<nat>
    /** The fixed-size trail; its literals are those below `assignedEnd`. */
    const trail: array<int>
    /** The end of the assigned literals on the trail (`assigned`). */
    var assignedEnd: nat
    /** The assigned literals, oldest first: `trail[..assignedEnd]`. */
    ghost var onTrail: seq<int>
    var propagated: nat
    var clauses: Cnf
    /** The watch fields of each clause, in the order of `clauses`. */
    var watches: seq<Watch>
    /** `watched[lit + variables]`: the clauses watching lit. */
    var watched: seq<seq<nat>>
    /** An empty clause, or a unit clause false on arrival. */
    var emptyClause: Option<nat>
    /** The trail height at each decision. */
    var control: seq<nat>
    var level: nat
    /** The number of root-level assignments. */
    var fixed: nat
    var conflicts: nat
    /** The variable `decide` starts looking from: all below it are
        assigned. */
    var searched: nat

    ghost predicate Shape() {
      values.Length == 2 * variables + 1 && levels.Length == variables + 1
      && reasons.Length == variables + 1 && stamped.Length == variables + 1
      && trail.Length == variables + 1
      && values != trail && levels != stamped
      && variables < IntMax
    }

    /** The value of a literal as `values[lit]` holds it. */
    function Val(lit: int): int
      reads values
      requires values.Length == 2 * variables + 1 && -(variables as int) <= lit <= variables
    {
      values[lit + variables]
    }

    /** The values array is the trail read as an assignment. */
    ghost predicate ValuesMatch()
      reads this`onTrail, values
      requires Shape()
    {
      forall lit {:trigger Val(lit)} :: IsLit(lit, variables) ==> Val(lit) == ValueOf(onTrail, lit)
    }

    ghost predicate Readable()
      reads this`assignedEnd, this`onTrail, trail, values
    {
      Shape() && assignedEnd <= variables
      && assignedEnd == |onTrail| && trail[..assignedEnd] == onTrail
      && TrailOk(onTrail, variables)
      && ValuesMatch()
    }

    /** The clauses are over the variables. */
    ghost predicate ClausesOk()
      reads this`clauses
    {
      forall k, i :: 0 <= k < |clauses| && 0 <= i < |clauses[k]| ==> IsLit(clauses[k][i], variables)
    }

    /** The control stack holds, one per decision level, non-decreasing
        heights within the trail; the root-level assignments are those
        below the first. */
    ghost predicate ControlOk()
      reads this`control, this`level, this`assignedEnd, this`fixed
    {
      |control| == level
      && (forall k :: 0 <= k < |control| ==> control[k] <= assignedEnd)
      && Ascending(control)
      && fixed == (if level == 0 then assignedEnd else control[0])
    }

    /** Every variable below `searched` is assigned. */
    ghost predicate SearchedOk()
      reads this`searched, this`onTrail
    {
      1 <= searched <= variables + 1
      && forall v :: 1 <= v < searched ==> !Unassigned(v, onTrail)
    }

    /** The levels agree with the control stack and every reason forces
        its literal. */
    ghost predicate Recorded()
      reads this`onTrail, this`control, this`level, this`clauses, levels, reasons
    {
      Leveled(onTrail, levels[..], control, level) && Reasoned(onTrail, reasons[..], clauses)
    }

    /** The invariant every operation keeps.  The agreement of the watch
        lists with the watch fields, `WatchLists`, is kept by the operations
        that change either. */
    ghost predicate Valid()
      reads this, trail, values, levels, reasons
    {
      Readable() && ClausesOk() && propagated <= assignedEnd
      && ControlOk() && SearchedOk() && Recorded()
    }

    /** The trail array holds the assigned literals. */
    ghost predicate TrailRead()
      reads this, trail
    {
      Shape() && assignedEnd <= variables && assignedEnd == |onTrail| && trail[..assignedEnd] == onTrail
    }

    /** What the conflict analysis reads: the trail, the levels and
        reasons recorded for it, and clauses over the variables. */
    ghost predicate Analyzable()
      reads this, trail, levels, reasons
    {
      TrailRead() && TrailOk(onTrail, variables) && ClausesOk() && |control| == level && Recorded()
    }

    /** `initialize`: every literal unassigned, no clause, no stamp, level
        0. */
    constructor (n: nat)
      requires n < IntMax
      ensures Valid() && WatchLists(variables, clauses, watches, watched)
      ensures variables == n && clauses == [] && watches == [] && emptyClause == None && onTrail == []
      ensures forall x :: 0 <= x < |watched| ==> watched[x] == []
      ensures control == [] && level == 0 && propagated == 0 && searched == 1
      ensures fixed == 0 && conflicts == 0
      ensures forall v :: 0 <= v < stamped.Length ==> stamped[v] == 0
    {
      variables := n;
      values := new int[2 * n + 1](_ => 0);
      levels := new nat[n + 1](_ => 0);
      reasons := new Option<nat>[n + 1](_ => None);
      stamped := new nat[n + 1](_ => 0);
      trail := new int[n + 1](_ => 0);
      assignedEnd := 0;
      onTrail := [];
      propagated := 0;
      clauses := [];
      watches := [];
      watched := seq(2 * n + 1, _ => []);
      emptyClause := None;
      control := [];
      level := 0;
      fixed := 0;
      conflicts := 0;
      searched := 1;
    }

    /** `assign`: make an unassigned literal true at the current level with
        the given reason, pushing it at the end of the trail.  The levels
        stay in step with the control stack and the reasons keep forcing
        their literals. */
    method Assign(lit: int, reason: Option<nat>)
      requires Valid() && IsLit(lit, variables)
      requires Val(lit) == 0 && Val(-lit) == 0
      requires reason.Some? ==> reason.value < |clauses| && Justifies(clauses[reason.value], lit, onTrail)
      modifies this`assignedEnd, this`onTrail, this`fixed, values, levels, reasons, trail
      ensures Valid()
      ensures onTrail == old(onTrail) + [lit] && assignedEnd == old(assignedEnd) + 1
      ensures Val(lit) == 1 && Val(-lit) == -1
      ensures levels[..] == old(levels[..])[Abs(lit) := level]
      ensures reasons[..] == old(reasons[..])[Abs(lit) := reason]
      ensures fixed == old(fixed) + (if level == 0 then 1 else 0)
    {
      ghost var before := onTrail;
      assert Unassigned(lit, before) by {
        assert ValueOf(before, lit) == 0;
      }
      AppendDistinct(before, lit);
      TrailBound(before + [lit], variables);
      LeveledAssign(before, levels[..], control, level, lit);
      ReasonedAssign(before, reasons[..], clauses, lit, reason);
      Push(lit, reason);
      if level == 0 {
        fixed := fixed + 1;
      }
      forall v | 1 <= v < searched
        ensures !Unassigned(v, onTrail)
      {
        assert !Unassigned(v, before);
      }
    }

    /** The writes of `assign`: the two values, the level and the reason of
        the variable, and the literal at the end of the trail. */
    method Push(lit: int, reason: Option<nat>)
      requires Readable() && IsLit(lit, variables) && Unassigned(lit, onTrail) && assignedEnd < variables
      modifies this`assignedEnd, this`onTrail, values, levels, reasons, trail
      ensures onTrail == old(onTrail) + [lit] && assignedEnd == old(assignedEnd) + 1
      ensures Readable() && Val(lit) == 1 && Val(-lit) == -1
      ensures levels[..] == old(levels[..])[Abs(lit) := level]
      ensures reasons[..] == old(reasons[..])[Abs(lit) := reason]
    {
      ghost var before := onTrail;
      values[lit + variables] := 1;
      values[-lit + variables] := -1;
      levels[Abs(lit)] := level;
      reasons[Abs(lit)] := reason;
      trail[assignedEnd] := lit;
      assignedEnd := assignedEnd + 1;
      onTrail := onTrail + [lit];
      AppendDistinct(before, lit);
      assert trail[..assignedEnd] == old(trail[..assignedEnd]) + [lit];
      forall l | IsLit(l, variables)
        ensures Val(l) == ValueOf(onTrail, l)
      {
        if l != lit && l != -lit {
          assert Val(l) == old(Val(l)) == ValueOf(before, l);
          assert (l in onTrail <==> l in before) && (-l in onTrail <==> -l in before);
        }
      }
      assert levels[..] == old(levels[..])[Abs(lit) := level];
      assert reasons[..] == old(reasons[..])[Abs(lit) := reason];
    }

    /** `unassign`: clear the values of a literal and its negation, and
        lower `searched` to its variable when that is smaller. */
    method Unassign(lit: int)
      requires Shape() && IsLit(lit, variables)
      modifies values, this`searched
      ensures Val(lit) == 0 && Val(-lit) == 0
      ensures forall l :: -(variables as int) <= l <= variables && l != lit && l != -lit ==> Val(l) == old(Val(l))
      ensures searched == if Abs(lit) < old(searched) then Abs(lit) else old(searched)
    {
      values[lit + variables] := 0;
      values[-lit + variables] := 0;
      var tmp := Abs(lit);
      if tmp < searched {
        searched := tmp;
      }
    }

    /** `add_clause`: store the clause with its watch fields and put it on
        the watch lists of its two watched literals, then record an empty
        clause, assign an unassigned unit without a reason, or record a
        unit that is already false. */
    method AddClause(literals: seq<int>) returns (k: nat)
      requires Valid() && WatchLists(variables, clauses, watches, watched)
      requires forall i :: 0 <= i < |literals| ==> IsLit(literals[i], variables)
      modifies this`clauses, this`watches, this`watched, this`emptyClause, this`assignedEnd, this`onTrail, this`fixed
      modifies values, levels, reasons, trail
      ensures k == |old(clauses)| && clauses == old(clauses) + [literals]
      ensures watches == old(watches) + [Initial(literals)]
      ensures |literals| <= 1 ==> watched == old(watched)
      ensures |literals| > 1 ==> |watched| == |old(watched)| && forall x :: 0 <= x < |watched| ==>
        watched[x] == old(watched)[x] + (if x == literals[0] + variables then [k] else [])
                                      + (if x == literals[1] + variables then [k] else [])
      ensures onTrail == old(onTrail) + (if |literals| == 1 && Unassigned(literals[0], old(onTrail)) then [literals[0]] else [])
      ensures emptyClause == (if |literals| == 0 || (|literals| == 1 && -literals[0] in old(onTrail)) then Some(k) else old(emptyClause))
      ensures Valid() && WatchLists(variables, clauses, watches, watched)
    {
      k := Store(literals);
      if |literals| <= 1 {
        AddShortClause(k);
      }
    }

    /** The special case of `add_clause` for the clause just stored at
        position `k` when it has at most one literal: an empty clause is
        recorded, an unassigned unit assigned, a false unit recorded, and a
        true unit left alone. */
    method AddShortClause(k: nat)
      requires Valid() && k == |clauses| - 1 && |clauses[k]| <= 1
      modifies this`emptyClause, this`assignedEnd, this`onTrail, this`fixed, values, levels, reasons, trail
      ensures onTrail == old(onTrail) + (if |clauses[k]| == 1 && Unassigned(clauses[k][0], old(onTrail)) then [clauses[k][0]] else [])
      ensures emptyClause == (if |clauses[k]| == 0 || -clauses[k][0] in old(onTrail) then Some(k) else old(emptyClause))
      ensures Valid()
    {
      if |clauses[k]| == 0 {
        emptyClause := Some(k);
      } else {
        var unit := clauses[k][0];
        assert IsLit(unit, variables);
        assert Val(unit) == ValueOf(onTrail, unit) && Val(-unit) == ValueOf(onTrail, -unit);
        var value := values[unit + variables];
        if value == 0 {
          Assign(unit, None);
        } else if value < 0 {
          emptyClause := Some(k);
        } else {
          NoClash(onTrail, unit);
        }
      }
    }

    /** The writes of `add_clause` to the clause list and the watches: the
        clause at the end of the list, its first two literals watched and
        its first literal as blocker, and its position pushed on the watch
        list of each watched literal. */
    method Store(literals: seq<int>) returns (k: nat)
      requires ClausesOk() && WatchLists(variables, clauses, watches, watched) && Recorded()
      requires forall i :: 0 <= i < |literals| ==> IsLit(literals[i], variables)
      modifies this`clauses, this`watches, this`watched
      ensures k == |old(clauses)| && clauses == old(clauses) + [literals]
      ensures watches == old(watches) + [Initial(literals)]
      ensures |literals| <= 1 ==> watched == old(watched)
      ensures |literals| > 1 ==> |watched| == |old(watched)| && forall x :: 0 <= x < |watched| ==>
        watched[x] == old(watched)[x] + (if x == literals[0] + variables then [k] else [])
                                      + (if x == literals[1] + variables then [k] else [])
      ensures ClausesOk() && WatchLists(variables, clauses, watches, watched) && Recorded()
    {
      k := |clauses|;
      var w := Initial(literals);
      if |literals| > 1 {
        var a, b := literals[0] + variables, literals[1] + variables;
        watched := watched[a := watched[a] + [k]];
        watched := watched[b := watched[b] + [k]];
        assert watched == Register(old(watched), literals, k, variables);
      }
      WatchAdd(variables, clauses, watches, old(watched), literals, watched);
      ReasonedGrow(onTrail, reasons[..], clauses, literals);
      LitsGrow(variables, clauses, literals);
      clauses := clauses + [literals];
      watches := watches + [w];
    }

    /** `decide`: move `searched` to the first unassigned variable, open a
        new level whose control entry is the trail height, clear the
        variable's stamp and assign it positively without a reason. */
    method Decide()
      requires Valid() && assignedEnd < variables
      modifies this`searched, this`level, this`control, this`assignedEnd, this`onTrail, this`fixed
      modifies values, levels, reasons, trail, stamped
      ensures Valid()
      ensures 1 <= searched <= variables && Unassigned(searched, old(onTrail))
      ensures forall v :: 1 <= v < searched ==> !Unassigned(v, old(onTrail))
      ensures onTrail == old(onTrail) + [searched]
      ensures level == old(level) + 1 && control == old(control) + [old(assignedEnd)]
      ensures stamped[..] == old(stamped[..])[searched := 0]
    {
      Search();
      assert Val(searched) == ValueOf(onTrail, searched) && Val(-(searched as int)) == ValueOf(onTrail, -(searched as int));
      OpenLevel();
      Assign(searched, None);
    }

    /** The middle of `decide`: a new level whose control entry is the
        trail height, and the stamp of the decided variable cleared. */
    method OpenLevel()
      requires Valid() && 1 <= searched <= variables
      modifies this`level, this`control, stamped
      ensures Valid()
      ensures level == old(level) + 1 && control == old(control) + [assignedEnd]
      ensures stamped[..] == old(stamped[..])[searched := 0]
    {
      LeveledDecide(onTrail, levels[..], control, level);
      level := level + 1;
      AscendingPush(control, assignedEnd);
      control := control + [assignedEnd];
      stamped[searched] := 0;
    }

    /** The loop of `decide`: move `searched` past assigned variables to
        the first unassigned one, which exists as the trail is not full. */
    method Search()
      requires Readable() && SearchedOk() && assignedEnd < variables
      modifies this`searched
      ensures SearchedOk() && searched <= variables && Unassigned(searched, onTrail)
    {
      FullTrail(onTrail, variables);
      while (assert IsLit(searched, variables); Val(searched) != 0)
        invariant Readable() && SearchedOk()
        invariant exists v :: searched <= v <= variables && Unassigned(v, onTrail)
        decreases variables - searched
      {
        assert Val(searched) == ValueOf(onTrail, searched);
        ghost var w :| searched <= w <= variables && Unassigned(w, onTrail);
        assert w != searched;
        searched := searched + 1;
      }
      assert Val(searched) == ValueOf(onTrail, searched);
    }

    /** One step of the loop of `backtrack`: `unassign(*--assigned)`. */
    method Pop() returns (lit: int)
      requires Readable() && SearchedOk() && assignedEnd > 0
      modifies this`assignedEnd, this`onTrail, this`searched, values
      ensures Readable() && SearchedOk()
      ensures lit == old(onTrail)[|old(onTrail)| - 1] && onTrail == old(onTrail)[..|old(onTrail)| - 1]
      ensures searched == if Abs(lit) < old(searched) then Abs(lit) else old(searched)
    {
      ghost var t := onTrail;
      assignedEnd := assignedEnd - 1;
      lit := trail[assignedEnd];
      ghost var rest := t[..assignedEnd];
      assert t == rest + [lit];
      assert Unassigned(lit, rest) by {
        forall i | 0 <= i < |rest|
          ensures rest[i] != lit && rest[i] != -lit
        {
          assert Differ(t, i, |t| - 1);
        }
      }
      DistinctPrefix(t, assignedEnd);
      Unassign(lit);
      onTrail := rest;
      assert trail[..assignedEnd] == rest;
      forall l | IsLit(l, variables)
        ensures Val(l) == ValueOf(onTrail, l)
      {
        if l != lit && l != -lit {
          assert (l in rest <==> l in t) && (-l in rest <==> -l in t);
        }
      }
      forall v | 1 <= v < searched
        ensures !Unassigned(v, onTrail)
      {
        assert !Unassigned(v, t);
      }
    }

    /** The loop of `backtrack`: pop and unassign trail literals down to
        `height`.  Every popped literal is unassigned, and `searched` ends
        at the smallest of its old value and the popped variables. */
    method PopTrail(height: nat)
      requires Readable() && SearchedOk() && height <= assignedEnd
      modifies this`assignedEnd, this`onTrail, this`searched, values
      ensures Readable() && SearchedOk()
      ensures onTrail == old(onTrail)[..height]
      ensures forall i :: height <= i < |old(onTrail)| ==> Unassigned(old(onTrail)[i], onTrail)
      ensures searched <= old(searched)
      ensures forall i :: height <= i < |old(onTrail)| ==> searched <= Abs(old(onTrail)[i])
      ensures searched == old(searched) || exists i :: height <= i < |old(onTrail)| && searched == Abs(old(onTrail)[i])
    {
      while assignedEnd != height
        invariant height <= assignedEnd <= old(assignedEnd) && onTrail == old(onTrail)[..assignedEnd]
        invariant Readable() && SearchedOk()
        invariant searched <= old(searched)
        invariant forall i :: assignedEnd <= i < |old(onTrail)| ==> searched <= Abs(old(onTrail)[i])
        invariant searched == old(searched) || exists i :: assignedEnd <= i < |old(onTrail)| && searched == Abs(old(onTrail)[i])
        decreases assignedEnd
      {
        var lit := Pop();
        assert lit == old(onTrail)[assignedEnd];
      }
      forall i | height <= i < |old(onTrail)|
        ensures Unassigned(old(onTrail)[i], onTrail)
      {
        forall j | 0 <= j < |onTrail|
          ensures onTrail[j] != old(onTrail)[i] && onTrail[j] != -old(onTrail)[i]
        {
          assert Differ(old(onTrail), j, i);
        }
      }
    }

    /** `backtrack`: undo every assignment above the trail height at which
        level `newLevel + 1` was decided, and return to level `newLevel`
        with that height propagated.  The levels and reasons of the
        literals left on the trail stay as they were. */
    method Backtrack(newLevel: nat)
      requires Valid() && newLevel < level
      modifies this`assignedEnd, this`onTrail, this`searched, this`control, this`propagated, this`level, values
      ensures Valid()
      ensures onTrail == old(onTrail)[..old(control)[newLevel]]
      ensures control == old(control)[..newLevel] && level == newLevel && propagated == assignedEnd
      ensures forall i :: assignedEnd <= i < |old(onTrail)| ==> Unassigned(old(onTrail)[i], onTrail)
      ensures searched <= old(searched)
      ensures forall i :: assignedEnd <= i < |old(onTrail)| ==> searched <= Abs(old(onTrail)[i])
    {
      var before := control[newLevel];
      AscendingBelow(control, newLevel);
      AscendingPrefix(control, newLevel);
      LeveledCut(onTrail, levels[..], control, level, newLevel);
      ReasonedCut(onTrail, reasons[..], clauses, before);
      PopTrail(before);
      control := control[..newLevel];
      propagated := before;
      level := newLevel;
    }

    // -------------------------------------------------------------------
    // Conflict analysis

    /** `analyze_literal`: a variable at level 0 or already stamped for
        this conflict is ignored; otherwise it is stamped with `conflicts`
        and counted as of the current level or of a lower one.  The
        literal is false below `bound`, or its variable already stamped. */
    method AnalyzeLiteral(lit: int, current: int, lower: int, ghost bound: nat) returns (current': int, lower': int)
      requires Analyzable() && IsLit(lit, variables) && bound <= |onTrail|
      requires stamped[Abs(lit)] == conflicts || -lit in onTrail[..bound]
      requires Counted(onTrail, stamped[..], conflicts, levels[..], level, bound, current, lower)
      modifies stamped
      ensures Counted(onTrail, stamped[..], conflicts, levels[..], level, bound, current', lower')
      ensures levels[Abs(lit)] == 0 || old(stamped[Abs(lit)]) == conflicts ==>
        stamped[..] == old(stamped[..]) && current' == current && lower' == lower
      ensures levels[Abs(lit)] != 0 && old(stamped[Abs(lit)]) != conflicts ==>
        stamped[..] == old(stamped[..])[Abs(lit) := conflicts]
        && current' == current + (if levels[Abs(lit)] == level then 1 else 0)
        && lower' == lower + (if levels[Abs(lit)] == level then 0 else 1)
    {
      var v := Abs(lit);
      var lvl := levels[v];
      current', lower' := current, lower;
      if lvl == 0 || stamped[v] == conflicts {
        return;
      }
      ghost var p :| 0 <= p < bound && onTrail[p] == -lit;
      MarkOne(onTrail, stamped[..], conflicts, levels[..], level, bound, current, lower, p);
      stamped[v] := conflicts;
      if lvl == level {
        current' := current + 1;
      } else {
        lower' := lower + 1;
      }
    }

    /** The first loop of `analyze`: `analyze_literal` on every literal of
        the conflicting clause, which is false under the trail.  Each of its
        variables ends stamped or at level 0. */
    method StampConflict(k: nat) returns (current: int, lower: int)
      requires Analyzable() && k < |clauses| && Falsified(clauses[k], onTrail)
      requires forall v :: 0 <= v < stamped.Length ==> stamped[v] < conflicts
      modifies stamped
      ensures Counted(onTrail, stamped[..], conflicts, levels[..], level, |onTrail|, current, lower)
      ensures ClauseStamped(clauses[k], stamped[..], conflicts, levels[..])
      ensures StampedOnly(old(stamped[..]), stamped[..], conflicts, VarsOf(clauses[k]))
    {
      var c := clauses[k];
      CountedStart(onTrail, stamped[..], conflicts, levels[..], level, |onTrail|);
      current, lower := 0, 0;
      var i := 0;
      while i < |c|
        invariant i <= |c|
        invariant Counted(onTrail, stamped[..], conflicts, levels[..], level, |onTrail|, current, lower)
        invariant forall j :: 0 <= j < i ==> levels[Abs(c[j])] == 0 || stamped[Abs(c[j])] == conflicts
        invariant StampedOnly(old(stamped[..]), stamped[..], conflicts, VarsOf(c))
      {
        assert c[i] in c && IsLit(c[i], variables) && Abs(c[i]) in VarsOf(c);
        assert onTrail[..|onTrail|] == onTrail;
        current, lower := AnalyzeLiteral(c[i], current, lower, |onTrail|);
        i := i + 1;
      }
      forall lit | lit in c
        ensures levels[Abs(lit)] == 0 || stamped[Abs(lit)] == conflicts
      {
        var j :| 0 <= j < |c| && c[j] == lit;
      }
    }

    /** The resolution step of `analyze` on the stamped literal at trail
        position i: `analyze_literal` on every literal of its reason, whose
        other literals are false below i. */
    method StampReason(r: nat, i: nat, current: int, lower: int) returns (current': int, lower': int)
      requires Analyzable() && r < |clauses| && i < |onTrail|
      requires Justifies(clauses[r], onTrail[i], onTrail[..i])
      requires Marked(onTrail, stamped[..], conflicts, i)
      requires Counted(onTrail, stamped[..], conflicts, levels[..], level, i + 1, current, lower)
      modifies stamped
      ensures Counted(onTrail, stamped[..], conflicts, levels[..], level, i + 1, current', lower')
      ensures current' >= current && Marked(onTrail, stamped[..], conflicts, i)
      ensures ClauseStamped(clauses[r], stamped[..], conflicts, levels[..])
      ensures StampedOnly(old(stamped[..]), stamped[..], conflicts, VarsOf(clauses[r]))
    {
      var c := clauses[r];
      current', lower' := current, lower;
      var j := 0;
      while j < |c|
        invariant j <= |c| && current' >= current
        invariant Counted(onTrail, stamped[..], conflicts, levels[..], level, i + 1, current', lower')
        invariant Marked(onTrail, stamped[..], conflicts, i)
        invariant forall x :: 0 <= x < j ==> levels[Abs(c[x])] == 0 || stamped[Abs(c[x])] == conflicts
        invariant StampedOnly(old(stamped[..]), stamped[..], conflicts, VarsOf(c))
      {
        assert c[j] in c && IsLit(c[j], variables) && Abs(c[j]) in VarsOf(c);
        if c[j] != onTrail[i] {
          assert onTrail[..i] <= onTrail[..i + 1];
        }
        current', lower' := AnalyzeLiteral(c[j], current', lower', i + 1);
        j := j + 1;
      }
      forall lit | lit in c
        ensures levels[Abs(lit)] == 0 || stamped[Abs(lit)] == conflicts
      {
        var x :| 0 <= x < |c| && c[x] == lit;
      }
    }

    /** The second loop of `analyze`: walk the trail down from its end,
        resolving each stamped literal of the current level with its
        reason, until one stamped literal of the current level is left
        below the walk.  The stamps, from `st0` before the conflict with
        clause k, stay those of `Resolution` down to the walk. */
    method Resolve(current0: int, lower0: int, ghost k: nat, ghost st0: seq<nat>) returns (i: nat, lower: int)
      requires Analyzable() && level > 0 && current0 >= 1
      requires Counted(onTrail, stamped[..], conflicts, levels[..], level, |onTrail|, current0, lower0)
      requires Resolution(onTrail, st0, stamped[..], conflicts, levels[..], reasons[..], clauses, k, |onTrail|)
      modifies stamped
      ensures i <= |onTrail|
      ensures Counted(onTrail, stamped[..], conflicts, levels[..], level, i, 1, lower)
      ensures Resolution(onTrail, st0, stamped[..], conflicts, levels[..], reasons[..], clauses, k, i)
    {
      i, lower := assignedEnd, lower0;
      var current := current0;
      while current > 1
        invariant i <= |onTrail| && current >= 1
        invariant Counted(onTrail, stamped[..], conflicts, levels[..], level, i, current, lower)
        invariant Resolution(onTrail, st0, stamped[..], conflicts, levels[..], reasons[..], clauses, k, i)
        decreases i
      {
        WalkLevel(onTrail, stamped[..], conflicts, levels[..], control, level, i);
        i := i - 1;
        var lit := trail[i];
        assert lit == onTrail[i];
        if stamped[Abs(lit)] == conflicts {
          var reason := reasons[Abs(lit)];
          if reason.Some? {
            assert ReasonAt(onTrail, reasons[..], clauses, i);
            ghost var before := stamped[..];
            current, lower := StampReason(reason.value, i, current, lower);
            ResolutionStep(onTrail, st0, before, stamped[..], conflicts, levels[..], reasons[..], clauses, k, i);
          } else {
            ResolutionPass(onTrail, st0, stamped[..], conflicts, levels[..], reasons[..], clauses, k, i);
          }
          PassStamped(onTrail, stamped[..], conflicts, levels[..], level, i, current, lower);
          current := current - 1;
        } else {
          ResolutionPass(onTrail, st0, stamped[..], conflicts, levels[..], reasons[..], clauses, k, i);
          PassOther(onTrail, stamped[..], conflicts, levels[..], level, i, current, lower);
        }
      }
    }

    /** The third loop of `analyze`: skip the unstamped literals below the
        walk; the stamped one it stops at is the unique implication point,
        the only stamped literal of the current level at or below it. */
    method FindUip(i: nat, ghost lower: int, ghost t: seq<int>, ghost st: seq<nat>, ghost lv: seq<nat>, ghost ctl: seq<nat>) returns (p: nat)
      requires TrailRead() && t == onTrail && st == stamped[..] && lv == levels[..] && ctl == control
      requires Leveled(t, lv, ctl, level) && |ctl| == level > 0 && i <= |t|
      requires Counted(t, st, conflicts, lv, level, i, 1, lower)
      ensures p < i && Marked(t, st, conflicts, p)
      ensures lv[Abs(t[p])] == level && ctl[level - 1] <= p
      ensures StampedBelow(t, st, conflicts, lv, level, p, true) == {}
      ensures Counted(t, st, conflicts, lv, level, p, 0, lower)
      ensures forall j :: p < j < i ==> !Marked(t, st, conflicts, j)
    {
      var j := i;
      WalkLevel(t, st, conflicts, lv, ctl, level, j);
      while stamped[Abs(trail[j - 1])] != conflicts
        invariant 0 < j <= i && ctl[level - 1] <= j - 1 && lv[Abs(t[j - 1])] == level
        invariant Counted(t, st, conflicts, lv, level, j, 1, lower)
        invariant forall q :: j <= q < i ==> !Marked(t, st, conflicts, q)
        decreases j
      {
        assert trail[j - 1] == t[j - 1];
        PassOther(t, st, conflicts, lv, level, j - 1, 1, lower);
        j := j - 1;
        WalkLevel(t, st, conflicts, lv, ctl, level, j);
      }
      p := j - 1;
      assert trail[p] == t[p];
      PassStamped(t, st, conflicts, lv, level, p, 1, lower);
    }

    /** The fourth loop of `analyze`: continue the walk below the unique
        implication point at position p until every stamped literal of a
        lower level is met, collecting their negations and the highest of
        their levels, which is the backjump level (0 when there are none). */
    method CollectLower(p: nat, lower: int, ghost t: seq<int>, ghost st: seq<nat>, ghost lv: seq<nat>) returns (learned: seq<int>, jump: nat)
      requires TrailRead() && t == onTrail && st == stamped[..] && lv == levels[..] && level > 0 && p < |t|
      requires forall j :: 0 <= j < |t| ==> Abs(t[j]) < |lv| && lv[Abs(t[j])] <= level
      requires StampedBelow(t, st, conflicts, lv, level, p, true) == {}
      requires lower == |StampedBelow(t, st, conflicts, lv, level, p, false)|
      ensures learned == Collected(t, st, conflicts, 0, p)
      ensures jump < level
      ensures forall j :: 0 <= j < p && Marked(t, st, conflicts, j) ==> lv[Abs(t[j])] <= jump
      ensures jump == 0 || exists j :: 0 <= j < p && Marked(t, st, conflicts, j) && lv[Abs(t[j])] == jump
    {
      learned, jump := [], 0;
      var i: nat, rest := p, lower;
      while rest > 0
        invariant Gathered(t, st, conflicts, lv, level, i, p, learned, jump)
        invariant rest == |StampedBelow(t, st, conflicts, lv, level, i, false)|
        invariant StampedBelow(t, st, conflicts, lv, level, p, true) == {}
        decreases i
      {
        ghost var q :| q in StampedBelow(t, st, conflicts, lv, level, i, false);
        ghost var above := i;
        i := i - 1;
        var lit := trail[i];
        assert lit == t[i] && Abs(lit) < stamped.Length;
        StampedStep(t, st, conflicts, lv, level, i, false);
        if stamped[Abs(lit)] == conflicts {
          assert Marked(t, st, conflicts, i);
          ghost var before, jumpBefore := learned, jump;
          learned := learned + [-lit];
          var lvl := levels[Abs(lit)];
          assert lvl == lv[Abs(t[i])];
          if lvl > jump {
            jump := lvl;
          }
          GatherMarked(t, st, conflicts, lv, level, above, p, before, jumpBefore, learned, jump);
          rest := rest - 1;
        } else {
          GatherOther(t, st, conflicts, lv, level, above, p, learned, jump);
        }
      }
      NoneStamped(t, st, conflicts, lv, level, i, p);
      GatherEnd(t, st, conflicts, lv, level, i, p, learned, jump);
    }

    /** The end of `analyze`: add `-uip` to the collected literals, which
        are false below the control entry of level `jump + 1`, backtrack to
        `jump`, and learn the clause. */
    method Learn(collected: seq<int>, uip: int, jump: nat) returns (learned: seq<int>)
      requires Valid() && WatchLists(variables, clauses, watches, watched) && jump < level
      requires IsLit(uip, variables) && Unassigned(-uip, onTrail[..control[jump]])
      requires forall y :: y in collected ==> IsLit(y, variables) && -y in onTrail[..control[jump]]
      modifies this`assignedEnd, this`onTrail, this`searched, this`control, this`propagated, this`level, this`fixed
      modifies this`clauses, this`watches, this`watched, this`emptyClause, values, levels, reasons, trail
      ensures Valid() && WatchLists(variables, clauses, watches, watched)
      ensures learned == collected + [-uip]
      ensures level == jump && control == old(control)[..jump]
      ensures onTrail == old(onTrail)[..old(control)[jump]] + [-uip]
      ensures clauses == old(clauses) + (if |learned| > 1 then [learned] else [])
      ensures reasons[Abs(-uip)] == if |learned| > 1 then Some(|old(clauses)|) else None
    {
      learned := collected + [-uip];
      Backtrack(jump);
      LearnAfter(collected, -uip, old(onTrail)[..old(control)[jump]], old(clauses));
    }

    /** Storing the learned clause `rest + [lit]` and assigning `lit`:
        with reason the stored clause when `rest` is not empty, without a
        reason otherwise. */
    method LearnAfter(rest: seq<int>, lit: int, ghost cut: seq<int>, ghost cs: Cnf)
      requires Valid() && WatchLists(variables, clauses, watches, watched)
      requires onTrail == cut && clauses == cs
      requires forall y :: y in rest ==> IsLit(y, variables) && -y in cut
      requires IsLit(lit, variables) && Unassigned(lit, cut)
      modifies this`assignedEnd, this`onTrail, this`fixed
      modifies this`clauses, this`watches, this`watched, this`emptyClause, values, levels, reasons, trail
      ensures Valid() && WatchLists(variables, clauses, watches, watched)
      ensures onTrail == cut + [lit]
      ensures clauses == cs + (if |rest| > 0 then [rest + [lit]] else [])
      ensures reasons[Abs(lit)] == if |rest| > 0 then Some(|cs|) else None
    {
      if |rest| > 0 {
        forall i | 0 <= i < |rest|
          ensures IsLit(rest[i], variables)
        {
          assert rest[i] in rest;
        }
        LearnClause(rest, lit);
      } else {
        assert Val(lit) == ValueOf(onTrail, lit) && Val(-lit) == ValueOf(onTrail, -lit);
        Assign(lit, None);
        assert reasons[..][Abs(lit)] == None;
      }
    }

    /** The last step of `analyze` for a clause of more than one literal:
        the learned clause `rest + [lit]`, whose last literal is unassigned
        and whose other literals are false, is stored and its last literal
        assigned with it as reason. */
    method LearnClause(rest: seq<int>, lit: int)
      requires Valid() && WatchLists(variables, clauses, watches, watched) && |rest| > 0
      requires forall i :: 0 <= i < |rest| ==> IsLit(rest[i], variables)
      requires IsLit(lit, variables) && Unassigned(lit, onTrail)
      requires Justifies(rest + [lit], lit, onTrail)
      modifies this`assignedEnd, this`onTrail, this`fixed
      modifies this`clauses, this`watches, this`watched, this`emptyClause, values, levels, reasons, trail
      ensures Valid() && WatchLists(variables, clauses, watches, watched)
      ensures onTrail == old(onTrail) + [lit]
      ensures clauses == old(clauses) + [rest + [lit]]
      ensures reasons[Abs(lit)] == Some(|old(clauses)|)
    {
      var learned := rest + [lit];
      forall i | 0 <= i < |learned|
        ensures IsLit(learned[i], variables)
      {
        if i < |rest| {
          assert learned[i] == rest[i];
        }
      }
      // `add_clause` on more than one literal only stores the clause
      var k := Store(learned);
      assert Val(lit) == ValueOf(onTrail, lit) && Val(-lit) == ValueOf(onTrail, -lit);
      Assign(lit, Some(k));
      assert reasons[..][Abs(lit)] == Some(k);
    }

    /** The first half of the walk of `analyze`: stamp the conflicting
        clause and resolve down the trail until one stamped literal of the
        current level remains at or below position i. */
    method StampResolve(k: nat, ghost t: seq<int>, ghost lv: seq<nat>) returns (i: nat, lower: int)
      requires Analyzable() && level > 0 && k < |clauses| && Falsified(clauses[k], onTrail)
      requires exists i :: 0 <= i < |clauses[k]| && levels[Abs(clauses[k][i])] == level
      requires forall v :: 0 <= v < stamped.Length ==> stamped[v] < conflicts
      requires t == onTrail && lv == levels[..]
      modifies stamped
      ensures i <= |t| && Counted(t, stamped[..], conflicts, lv, level, i, 1, lower)
      ensures Resolution(t, old(stamped[..]), stamped[..], conflicts, lv, reasons[..], clauses, k, i)
    {
      var current;
      ghost var st0 := stamped[..];
      current, lower := StampConflict(k);
      ResolutionStart(onTrail, st0, stamped[..], conflicts, levels[..], reasons[..], clauses, k);
      ghost var q :| 0 <= q < |clauses[k]| && levels[Abs(clauses[k][q])] == level;
      assert clauses[k][q] in clauses[k];
      ghost var at :| 0 <= at < |onTrail| && onTrail[at] == -clauses[k][q];
      CountedPositive(onTrail, stamped[..], conflicts, levels[..], level, |onTrail|, current, lower, at);
      i, lower := Resolve(current, lower, k, st0);
    }

    /** The walk of `analyze` before learning: stamp the conflicting
        clause, resolve down the trail to the unique implication point
        `uip` at position p of the current level, and collect the stamped
        literals of lower levels and the backjump level.  The collected
        literals are false, and `-uip` unassigned, on the trail that
        remains after the backjump. */
    method Derive(k: nat) returns (collected: seq<int>, jump: nat, p: nat, uip: int, ghost stamps: seq<nat>)
      requires Analyzable() && level > 0 && k < |clauses| && Falsified(clauses[k], onTrail)
      requires exists i :: 0 <= i < |clauses[k]| && levels[Abs(clauses[k][i])] == level
      requires forall v :: 0 <= v < stamped.Length ==> stamped[v] < conflicts
      requires Ascending(control) && forall l :: 0 <= l < |control| ==> control[l] <= |onTrail|
      modifies stamped
      ensures stamped[..] == stamps && control[level - 1] <= p
      ensures Derived(onTrail, stamps, conflicts, levels[..], level, p, collected, jump)
      ensures Resolution(onTrail, old(stamped[..]), stamps, conflicts, levels[..], reasons[..], clauses, k, p + 1)
      ensures Implies(variables, onTrail, reasons[..], clauses, control, collected + [-uip])
      ensures uip == onTrail[p] && IsLit(uip, variables) && Unassigned(-uip, onTrail[..control[jump]])
      ensures forall y :: y in collected ==> IsLit(y, variables) && -y in onTrail[..control[jump]]
    {
      ghost var t, lv, ctl := onTrail, levels[..], control;
      assert Leveled(t, lv, ctl, level);
      var i, lower := StampResolve(k, t, lv);
      stamps := stamped[..];
      p := FindUip(i, lower, t, stamps, lv, ctl);
      ResolutionSkip(t, old(stamped[..]), stamps, conflicts, lv, reasons[..], clauses, k, p, i);
      LowerBelow(t, stamps, conflicts, lv, ctl, level, p);
      collected, jump := CollectLower(p, lower, t, stamps, lv);
      uip := trail[p];
      assert uip == t[p] && IsLit(uip, variables);
      CollectedBelowJump(variables, t, stamps, conflicts, lv, ctl, level, p, jump);
      AscendingBelow(ctl, level - 1);
      UnassignedAbove(t, ctl[jump], p);
      DerivedImplies(variables, t, old(stamped[..]), stamps, conflicts, lv, reasons[..], clauses, ctl, level, k, p, collected, jump);
    }

    /** `analyze` without its minimisation: derive the unique implication
        point and the collected literals, then learn the clause of their
        negations and `-uip`, backjumping to the highest level among them.
        The stamps are those of resolving the conflicting clause with the
        reasons of the stamped literals above the unique implication point;
        the learned clause forces `-uip` on the trail that remains after
        the backjump, and is implied by the formula. */
    method Analyze(k: nat) returns (learned: seq<int>, jump: nat, uip: int, ghost p: nat, ghost stamps: seq<nat>)
      requires Valid() && WatchLists(variables, clauses, watches, watched)
      requires level > 0 && k < |clauses| && Falsified(clauses[k], onTrail)
      requires exists i :: 0 <= i < |clauses[k]| && levels[Abs(clauses[k][i])] == level
      requires forall v :: 0 <= v < stamped.Length ==> stamped[v] < conflicts
      modifies this`assignedEnd, this`onTrail, this`searched, this`control, this`propagated, this`level, this`fixed
      modifies this`clauses, this`watches, this`watched, this`emptyClause, values, levels, reasons, trail, stamped
      ensures Valid() && WatchLists(variables, clauses, watches, watched)
      ensures stamped[..] == stamps && |learned| > 0
      ensures Derived(old(onTrail), stamps, conflicts, old(levels[..]), old(level), p, learned[..|learned| - 1], jump)
      ensures Resolution(old(onTrail), old(stamped[..]), stamps, conflicts, old(levels[..]), old(reasons[..]), old(clauses), k, p + 1)
      ensures Implies(variables, old(onTrail), old(reasons[..]), old(clauses), old(control), learned)
      ensures uip == old(onTrail)[p] && learned[|learned| - 1] == -uip
      ensures level == jump && control == old(control)[..jump]
      ensures onTrail == old(onTrail)[..old(control)[jump]] + [-uip]
      ensures clauses == old(clauses) + (if |learned| > 1 then [learned] else [])
      ensures reasons[Abs(-uip)] == if |learned| > 1 then Some(|old(clauses)|) else None
    {
      var collected;
      collected, jump, p, uip, stamps := Derive(k);
      learned := Learn(collected, uip, jump);
      assert learned[..|learned| - 1] == collected;
    }
  }
}
