/** The occurrence matrix the BabySAT solvers keep beside their clause
    list: for each literal, the positions of the clauses containing it,
    indexed by `lit + n` as the solvers index their arrays after shifting
    the pointer by the number of variables.  `add_clause` fills it through
    `connect_literal`, the same way in all three solvers. */
module Occurrences {
  import opened Literals
  import opened Clauses

  /** The clauses, over the variables 1 .. n, and the occurrence matrix,
      indexed by `lit + n`, whose entries are positions in the clause list. */
  ghost predicate Setting(n: nat, clauses: Cnf, matrix: seq<seq<nat>>) {
    |matrix| == 2 * n + 1
    && (forall k, i :: 0 <= k < |clauses| && 0 <= i < |clauses[k]| ==> IsLit(clauses[k][i], n))
    && (forall x, j :: 0 <= x < |matrix| && 0 <= j < |matrix[x]| ==> matrix[x][j] < |clauses|)
  }

  /** `connect_literal` for each literal of a clause in turn: the clause's
      position `k` is appended to the occurrence list of each literal. */
  function Connect(matrix: seq<seq<nat>>, c: Clause, k: nat, n: nat): (r: seq<seq<nat>>)
    requires |matrix| == 2 * n + 1
    requires forall i :: 0 <= i < |c| ==> IsLit(c[i], n)
    ensures |r| == |matrix|
    decreases |c|
  {
    if |c| == 0 then matrix
    else
      assert IsLit(c[0], n);
      Connect(matrix[c[0] + n := matrix[c[0] + n] + [k]], c[1..], k, n)
  }

  /** Connecting only appends `k`, and appends it to the list of every
      literal of the clause. */
  lemma {:induction false} ConnectLists(matrix: seq<seq<nat>>, c: Clause, k: nat, n: nat)
    requires |matrix| == 2 * n + 1
    requires forall i :: 0 <= i < |c| ==> IsLit(c[i], n)
    ensures var r := Connect(matrix, c, k, n);
      forall x :: 0 <= x < |r| ==>
        |matrix[x]| <= |r[x]| && r[x][..|matrix[x]|] == matrix[x]
        && forall j :: |matrix[x]| <= j < |r[x]| ==> r[x][j] == k
    ensures forall i :: 0 <= i < |c| ==> k in Connect(matrix, c, k, n)[c[i] + n]
    decreases |c|
  {
    if |c| > 0 {
      var m' := matrix[c[0] + n := matrix[c[0] + n] + [k]];
      ConnectLists(m', c[1..], k, n);
      var r := Connect(matrix, c, k, n);
      assert r == Connect(m', c[1..], k, n);
      forall x | 0 <= x < |r|
        ensures |matrix[x]| <= |r[x]| && r[x][..|matrix[x]|] == matrix[x]
        ensures forall j :: |matrix[x]| <= j < |r[x]| ==> r[x][j] == k
      {
        assert r[x][..|matrix[x]|] == r[x][..|m'[x]|][..|matrix[x]|];
        if x == c[0] + n {
          assert m'[x] == matrix[x] + [k];
        }
      }
      forall i | 0 <= i < |c|
        ensures k in r[c[i] + n]
      {
        if i == 0 {
          assert r[c[0] + n][|matrix[c[0] + n]|] == m'[c[0] + n][|matrix[c[0] + n]|] == k;
        } else {
          assert c[i] == c[1..][i - 1];
        }
      }
    }
  }

  /** Each clause is listed in the matrix under each of its literals. */
  ghost predicate Indexed(n: nat, clauses: Cnf, matrix: seq<seq<nat>>)
    requires Setting(n, clauses, matrix)
  {
    forall k, i :: 0 <= k < |clauses| && 0 <= i < |clauses[k]| ==> k in matrix[clauses[k][i] + n]
  }

  /** Storing a clause at the end of the list and connecting its literals
      keeps the matrix entries positions of clauses. */
  lemma ConnectKeepsSetting(n: nat, clauses: Cnf, matrix: seq<seq<nat>>, c: Clause)
    requires Setting(n, clauses, matrix)
    requires forall i :: 0 <= i < |c| ==> IsLit(c[i], n)
    ensures Setting(n, clauses + [c], Connect(matrix, c, |clauses|, n))
  {
    var k := |clauses|;
    var cs := clauses + [c];
    var m := Connect(matrix, c, k, n);
    ConnectLists(matrix, c, k, n);
    forall x, j | 0 <= x < |m| && 0 <= j < |m[x]|
      ensures m[x][j] < |cs|
    {
      if j < |matrix[x]| {
        assert m[x][j] == m[x][..|matrix[x]|][j] == matrix[x][j];
      }
    }
    forall k', i | 0 <= k' < |cs| && 0 <= i < |cs[k']|
      ensures IsLit(cs[k'][i], n)
    {
      if k' < k {
        assert cs[k'] == clauses[k'];
      }
    }
  }

  /** Storing a clause at the end of the list and connecting its literals
      keeps the matrix an index of the clauses. */
  lemma ConnectKeepsIndex(n: nat, clauses: Cnf, matrix: seq<seq<nat>>, c: Clause)
    requires Setting(n, clauses, matrix) && Indexed(n, clauses, matrix)
    requires forall i :: 0 <= i < |c| ==> IsLit(c[i], n)
    ensures Setting(n, clauses + [c], Connect(matrix, c, |clauses|, n))
    ensures Indexed(n, clauses + [c], Connect(matrix, c, |clauses|, n))
  {
    var k := |clauses|;
    var cs := clauses + [c];
    var m := Connect(matrix, c, k, n);
    ConnectKeepsSetting(n, clauses, matrix, c);
    ConnectLists(matrix, c, k, n);
    forall k', i | 0 <= k' < |cs| && 0 <= i < |cs[k']|
      ensures k' in m[cs[k'][i] + n]
    {
      if k' < k {
        var x := clauses[k'][i] + n;
        assert cs[k'] == clauses[k'];
        var j :| 0 <= j < |matrix[x]| && matrix[x][j] == k';
        assert m[x][j] == m[x][..|matrix[x]|][j] == k';
      }
    }
  }
}
