/** The clause section of a DIMACS file as the BabySAT solvers read it:
    after the header `p cnf <variables> <clauses>`, a stream of integers in
    which each 0 closes one clause.  The three solvers share this loop
    word for word; the header, comment lines and the reading of characters
    are not part of this model, so the input here is the sequence of
    integers `fscanf("%d")` delivers. */
module DimacsTokens {
  import opened Literals
  import opened Clauses

  /** The four ways the token loop rejects its input. */
  datatype ParseError =
    | TooManyClauses
    | InvalidLiteral(lit: int)
    | TerminatingZeroMissing
    | ClauseMissing

  datatype Parsed = Ok(clauses: Cnf) | Err(error: ParseError)

  /** A value of a C `int`. */
  predicate IsCInt(x: int) {
    -IntMax - 1 <= x <= IntMax
  }

  /** A literal the loop accepts: not INT_MIN and within the variables
      (0 included, as the clause terminator). */
  predicate Admissible(lit: int, variables: int) {
    lit != -IntMax - 1 && Abs(lit) <= variables
  }

  /** The token loop from an intermediate state: the clauses closed so far,
      the literals of the clause being read, and the last token read.  A
      token is first checked against the clause count of the header, then
      against the variable range; at the end of the input a non-zero last
      token means a missing terminator, and then the count must match. */
  function Tokens(variables: int, expected: int, tokens: seq<int>, done: Cnf, current: Clause, last: int): Parsed
    decreases |tokens|
  {
    if |tokens| == 0 then
      if last != 0 then Err(TerminatingZeroMissing)
      else if |done| != expected then Err(ClauseMissing)
      else Ok(done)
    else
      var lit := tokens[0];
      if |done| == expected then Err(TooManyClauses)
      else if !Admissible(lit, variables) then Err(InvalidLiteral(lit))
      else if lit != 0 then Tokens(variables, expected, tokens[1..], done, current + [lit], lit)
      else Tokens(variables, expected, tokens[1..], done + [current], [], lit)
  }

  /** The whole loop, from no clause and the initial `lit = 0`. */
  function ParseTokens(variables: int, expected: int, tokens: seq<int>): Parsed {
    Tokens(variables, expected, tokens, [], [], 0)
  }

  /** The integers a DIMACS writer emits for a formula: each clause's
      literals followed by 0. */
  function Encode(cnf: Cnf): seq<int> {
    if |cnf| == 0 then [] else cnf[0] + [0] + Encode(cnf[1..])
  }

  /** Every literal of every clause is a literal over the variables. */
  ghost predicate WellFormed(cnf: Cnf, variables: int) {
    forall k, i :: 0 <= k < |cnf| && 0 <= i < |cnf[k]| ==> IsLit(cnf[k][i], variables)
  }

  lemma {:induction false} ReadClause(variables: int, expected: int, c: Clause, rest: seq<int>, done: Cnf, current: Clause, last: int)
    requires |done| < expected && 0 <= variables
    requires forall i :: 0 <= i < |c| ==> IsLit(c[i], variables) && c[i] != -IntMax - 1
    ensures Tokens(variables, expected, c + [0] + rest, done, current, last)
            == Tokens(variables, expected, rest, done + [current + c], [], 0)
  {
    if |c| == 0 {
      assert ([0] + rest)[1..] == rest;
      assert current + c == current;
    } else {
      assert (c + [0] + rest)[1..] == c[1..] + [0] + rest;
      ReadClause(variables, expected, c[1..], rest, done, current + [c[0]], c[0]);
      assert current + [c[0]] + c[1..] == current + c;
    }
  }

  lemma {:induction false} ReadAll(variables: int, expected: int, cnf: Cnf, done: Cnf)
    requires |done| + |cnf| == expected
    requires WellFormed(cnf, variables) && 0 <= variables <= IntMax
    ensures Tokens(variables, expected, Encode(cnf), done, [], 0) == Ok(done + cnf)
  {
    if |cnf| == 0 {
      assert done + cnf == done;
    } else {
      var first := cnf[0];
      var rest := cnf[1..];
      forall i | 0 <= i < |first|
        ensures IsLit(first[i], variables) && first[i] != -IntMax - 1
      {
        assert IsLit(cnf[0][i], variables);
      }
      forall k, i | 0 <= k < |rest| && 0 <= i < |rest[k]|
        ensures IsLit(rest[k][i], variables)
      {
        assert rest[k] == cnf[k + 1];
      }
      assert Encode(cnf) == first + [0] + Encode(rest);
      ReadClause(variables, expected, first, Encode(rest), done, [], 0);
      assert [] + first == first;
      ReadAll(variables, expected, rest, done + [first]);
      assert done + [first] + rest == done + cnf;
    }
  }

  /** Round trip: the loop reads back every well-formed formula with the
      clause count its header announces. */
  lemma ParseEncode(variables: int, cnf: Cnf)
    requires 0 <= variables <= IntMax
    requires WellFormed(cnf, variables)
    ensures ParseTokens(variables, |cnf|, Encode(cnf)) == Ok(cnf)
  {
    ReadAll(variables, |cnf|, cnf, []);
    assert [] + cnf == cnf;
  }

  lemma {:induction false} EncodeAppend(a: Cnf, b: Cnf)
    ensures Encode(a + b) == Encode(a) + Encode(b)
  {
    if |a| > 0 {
      assert (a + b)[1..] == a[1..] + b;
      EncodeAppend(a[1..], b);
    } else {
      assert a + b == b;
    }
  }

  lemma {:induction false} TokensOk(variables: int, expected: int, tokens: seq<int>, done: Cnf, current: Clause, last: int, r: Cnf)
    requires (current == []) == (last == 0)
    requires forall i :: 0 <= i < |current| ==> IsLit(current[i], variables)
    requires Tokens(variables, expected, tokens, done, current, last) == Ok(r)
    ensures |r| == expected && |done| <= |r| && r[..|done|] == done
    ensures WellFormed(r[|done|..], variables)
    ensures Encode(r[|done|..]) == current + tokens
    decreases |tokens|
  {
    if |tokens| == 0 {
      assert r == done;
      assert r[|done|..] == [];
    } else {
      var lit := tokens[0];
      if lit != 0 {
        TokensOk(variables, expected, tokens[1..], done, current + [lit], lit, r);
        assert current + [lit] + tokens[1..] == current + tokens;
      } else {
        var done' := done + [current];
        TokensOk(variables, expected, tokens[1..], done', [], 0, r);
        assert r[..|done|] == done'[..|done|] == done;
        assert r[|done|..] == [current] + r[|done'|..];
        EncodeAppend([current], r[|done'|..]);
        assert Encode([current]) == current + [0] + Encode([]);
        assert tokens == [0] + tokens[1..];
        forall k, i | 0 <= k < |r[|done|..]| && 0 <= i < |r[|done|..][k]|
          ensures IsLit(r[|done|..][k][i], variables)
        {
          if k > 0 {
            assert r[|done|..][k] == r[|done'|..][k - 1];
          }
        }
      }
    }
  }

  /** Conversely, input the loop accepts is exactly the encoding of the
      formula it returns: as many clauses as announced, every literal
      within the variables, each clause closed by 0. */
  lemma ParsedIsEncoding(variables: int, expected: int, tokens: seq<int>, cnf: Cnf)
    requires ParseTokens(variables, expected, tokens) == Ok(cnf)
    ensures |cnf| == expected
    ensures WellFormed(cnf, variables)
    ensures tokens == Encode(cnf)
  {
    TokensOk(variables, expected, tokens, [], [], 0, cnf);
    assert cnf[0..] == cnf;
  }

  /** Input that does not end in 0 is rejected (by the first error the loop
      meets, which is at the latest the missing terminator). */
  lemma UnterminatedRejected(variables: int, expected: int, tokens: seq<int>)
    requires |tokens| > 0 && tokens[|tokens| - 1] != 0
    ensures ParseTokens(variables, expected, tokens).Err?
  {
    if ParseTokens(variables, expected, tokens).Ok? {
      ParsedIsEncoding(variables, expected, tokens, ParseTokens(variables, expected, tokens).clauses);
      EncodeEndsInZero(ParseTokens(variables, expected, tokens).clauses);
    }
  }

  lemma {:induction false} EncodeEndsInZero(cnf: Cnf)
    ensures |Encode(cnf)| == 0 || Encode(cnf)[|Encode(cnf)| - 1] == 0
  {
    if |cnf| > 0 {
      EncodeEndsInZero(cnf[1..]);
    }
  }
}
