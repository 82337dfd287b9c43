/** Literals as the solvers and the trace checker use them: a non-zero
    integer whose absolute value is the variable and whose sign is the
    polarity.  Shared by all modules. */
module Literals {

  datatype Option<T> = None | Some(value: T)

  /** Largest value of a C `int` (INT_MAX); INT_MIN is -IntMax - 1. */
  const IntMax: int := 0x7fff_ffff

  function Abs(x: int): nat {
    if x < 0 then -x else x
  }

  /** `lit` is a literal over the variables 1 .. n. */
  predicate IsLit(lit: int, n: int) {
    lit != 0 && -n <= lit <= n
  }

  /** Positions i < j of t hold different variables. */
  ghost predicate Differ(t: seq<int>, i: int, j: int) {
    0 <= i < j < |t| ==> Abs(t[i]) != Abs(t[j])
  }

  /** No variable occurs twice on the sequence, whatever its sign.  The
      pairs are compared through `Differ`, which only the proofs that need
      a pair instantiate, so that a trail carried through many states does
      not have every pair of its positions compared. */
  ghost predicate DistinctVars(t: seq<int>) {
    forall i, j {:trigger Differ(t, i, j)} :: Differ(t, i, j)
  }

  /** On a sequence over distinct variables a literal and its negation
      never both occur. */
  lemma NoClash(t: seq<int>, l: int)
    requires DistinctVars(t)
    requires l in t && l != 0
    ensures -l !in t
  {
    var i :| 0 <= i < |t| && t[i] == l;
    forall j | 0 <= j < |t| && j != i
      ensures t[j] != -l
    {
      if i < j {
        assert Differ(t, i, j);
      } else {
        assert Differ(t, j, i);
      }
    }
  }

  /** Appending a literal whose variable is not yet on the sequence keeps
      the variables distinct. */
  lemma AppendDistinct(t: seq<int>, l: int)
    requires DistinctVars(t)
    requires l !in t && -l !in t
    ensures DistinctVars(t + [l])
  {
    forall i, j
      ensures Differ(t + [l], i, j)
    {
      if 0 <= i < j < |t| {
        assert Differ(t, i, j);
      } else if 0 <= i < j == |t| {
        assert t[i] != l && t[i] != -l;
      }
    }
  }

  /** The variables 1 .. n. */
  ghost function Vars(n: nat): (s: set<nat>)
    ensures forall v :: v in s <==> 1 <= v <= n
    ensures |s| == n
  {
    if n == 0 then {} else
      var s := Vars(n - 1);
      assert n !in s;
      s + {n}
  }

  /** The variables a sequence of literals mentions. */
  ghost function VarsOf(t: seq<int>): set<nat> {
    set i | 0 <= i < |t| :: Abs(t[i])
  }

  /** A sequence of literals over distinct variables drawn from `s` is at
      most as long as `s`, and when it is exactly as long it mentions every
      variable of `s`. */
  lemma {:induction false} DistinctVarsBound(t: seq<int>, s: set<nat>)
    requires DistinctVars(t)
    requires forall i :: 0 <= i < |t| ==> Abs(t[i]) in s
    ensures |t| <= |s|
    ensures |t| == |s| ==> s <= VarsOf(t)
  {
    if |t| > 0 {
      var last := Abs(t[|t| - 1]);
      var front := t[..|t| - 1];
      forall i | 0 <= i < |front|
        ensures Abs(front[i]) in s - {last}
      {
        assert front[i] == t[i] && Differ(t, i, |t| - 1);
      }
      DistinctPrefix(t, |t| - 1);
      DistinctVarsBound(front, s - {last});
      assert |s - {last}| == |s| - 1;
      if |t| == |s| {
        forall v | v in s
          ensures v in VarsOf(t)
        {
          if v == last {
            assert Abs(t[|t| - 1]) == v;
          } else {
            assert v in VarsOf(front);
            var i :| 0 <= i < |front| && Abs(front[i]) == v;
            assert Abs(t[i]) == v;
          }
        }
      }
    }
  }

  /** The entries never decrease, as the heights on a control stack: each
      entry is at most the next. */
  ghost predicate Ascending(s: seq<nat>) {
    |s| <= 1 || (s[|s| - 2] <= s[|s| - 1] && Ascending(s[..|s| - 1]))
  }

  /** On an ascending sequence every entry is at most every later one. */
  lemma {:induction false} AscendingBelow(s: seq<nat>, j: nat)
    requires Ascending(s) && j < |s|
    ensures forall i :: 0 <= i <= j ==> s[i] <= s[j]
  {
    if |s| > 1 {
      var front := s[..|s| - 1];
      if j == |s| - 1 {
        AscendingBelow(front, j - 1);
        assert forall i :: 0 <= i < j ==> s[i] == front[i];
      } else {
        AscendingBelow(front, j);
        assert forall i :: 0 <= i <= j ==> s[i] == front[i];
      }
    }
  }

  /** Pushing a height at least the last keeps the stack ascending. */
  lemma AscendingPush(s: seq<nat>, h: nat)
    requires Ascending(s) && (|s| == 0 || s[|s| - 1] <= h)
    ensures Ascending(s + [h])
  {
    assert (s + [h])[..|s|] == s;
  }

  /** A sequence mentions at most as many variables as it is long. */
  lemma {:induction false} VarsOfBound(t: seq<int>)
    ensures |VarsOf(t)| <= |t|
  {
    if |t| > 0 {
      var front := t[..|t| - 1];
      VarsOfBound(front);
      assert VarsOf(t) == VarsOf(front) + {Abs(t[|t| - 1])} by {
        forall v | v in VarsOf(t)
          ensures v in VarsOf(front) + {Abs(t[|t| - 1])}
        {
          var i :| 0 <= i < |t| && Abs(t[i]) == v;
          if i < |t| - 1 {
            assert Abs(front[i]) == v;
          }
        }
        forall v | v in VarsOf(front)
          ensures v in VarsOf(t)
        {
          var i :| 0 <= i < |front| && Abs(front[i]) == v;
          assert Abs(t[i]) == v;
        }
      }
    }
  }

  /** A subset is no larger than the set containing it. */
  lemma {:induction false} SubsetSize(a: set<nat>, b: set<nat>)
    requires a <= b
    ensures |a| <= |b|
    decreases |a|
  {
    if a != {} {
      var x :| x in a;
      SubsetSize(a - {x}, b - {x});
    }
  }

  /** A prefix of an ascending sequence is ascending. */
  lemma {:induction false} AscendingPrefix(s: seq<nat>, k: nat)
    requires Ascending(s) && k <= |s|
    ensures Ascending(s[..k])
  {
    if k < |s| {
      AscendingPrefix(s[..|s| - 1], k);
      assert s[..|s| - 1][..k] == s[..k];
    } else {
      assert s[..k] == s;
    }
  }

  /** A trail over the variables 1 .. n: literals over those variables,
      no variable twice. */
  ghost predicate TrailOk(t: seq<int>, n: int) {
    DistinctVars(t) && forall i :: 0 <= i < |t| ==> IsLit(t[i], n)
  }

  /** A trail over the variables 1 .. n holds at most n literals. */
  lemma TrailBound(t: seq<int>, n: nat)
    requires DistinctVars(t)
    requires forall i :: 0 <= i < |t| ==> IsLit(t[i], n)
    ensures |t| <= n
  {
    DistinctVarsBound(t, Vars(n));
  }

  /** A prefix of a sequence over distinct variables is one too. */
  lemma DistinctPrefix(t: seq<int>, h: nat)
    requires DistinctVars(t) && h <= |t|
    ensures DistinctVars(t[..h])
  {
    forall i, j
      ensures Differ(t[..h], i, j)
    {
      assert Differ(t, i, j);
    }
  }
}
