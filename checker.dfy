/** The trace checker (check_solver.py): it reads a CNF formula and replays
    a solver's log of assignments, decisions, unassignments and conflicts
    against a trail of the literals currently true, halting at the first
    move that the formula does not justify. */
module TraceChecker {
  import opened Literals
  import opened Clauses
  import opened PyText

  datatype FormatError =
    | MissingHeader        // `pop(0)` on an empty list of lines
    | BadLiteral(word: string)  // `int(word)` raises ValueError

  datatype Result<T> = Ok(value: T) | Err(error: FormatError)

  // =====================================================================
  // Reading the formula (parse_dimacs)

  /** `x[:-2]`: the line without its last two characters (" 0"). */
  function DropLastTwo(x: string): string {
    if |x| >= 2 then x[..|x| - 2] else ""
  }

  /** `list(map(int, words))`: the first word `int` rejects is the error. */
  function ParseWords(ws: seq<string>): (r: Result<Clause>)
    ensures r.Ok? ==> |r.value| == |ws| && forall i :: 0 <= i < |ws| ==> ParseInt(ws[i]) == Some(r.value[i])
    ensures r.Err? ==> exists i :: 0 <= i < |ws| && ParseInt(ws[i]).None? && r.error == BadLiteral(ws[i])
  {
    if |ws| == 0 then Ok([])
    else match ParseInt(ws[0])
      case None => Err(BadLiteral(ws[0]))
      case Some(n) =>
        match ParseWords(ws[1..])
        case Err(e) => Err(e)
        case Ok(rest) => Ok([n] + rest)
  }

  /** One clause line: cut " 0" off the end and read the rest as integers. */
  function ParseClauseLine(line: string): Result<Clause> {
    ParseWords(Words(DropLastTwo(line)))
  }

  /** The clause lines of a CNF text: everything between the header line and
      the piece after the final line break; `None` when there is no line
      break at all (the header cannot be popped). */
  function ClauseLines(content: string): (r: Option<seq<string>>)
    ensures r.Some? <==> '\n' in content
    ensures r.Some? ==> |r.value| == |SplitLines(content)| - 2
  {
    var lines := SplitLines(content);
    if |lines| < 2 then
      CountZero(content, '\n');
      None
    else
      CountPositive(content, '\n');
      Some(lines[1..|lines| - 1])
  }

  lemma {:induction false} CountZero(s: string, c: char)
    requires Count(s, c) == 0
    ensures c !in s
  {
    if |s| > 0 {
      CountZero(s[1..], c);
    }
  }

  lemma {:induction false} CountPositive(s: string, c: char)
    requires Count(s, c) > 0
    ensures c in s
  {
    if s[0] != c {
      CountPositive(s[1..], c);
    }
  }

  /** Every clause line read as a clause, in order; the first failing line
      gives the error. */
  function ParseLines(lines: seq<string>): (r: Result<Cnf>)
    ensures r.Ok? ==> |r.value| == |lines|
  {
    if |lines| == 0 then Ok([])
    else match ParseLines(lines[..|lines| - 1])
      case Err(e) => Err(e)
      case Ok(front) =>
        match ParseClauseLine(lines[|lines| - 1])
        case Err(e) => Err(e)
        case Ok(c) => Ok(front + [c])
  }

  /** What `parse_dimacs` returns for the text of a CNF file. */
  function DimacsOf(content: string): Result<Cnf> {
    match ClauseLines(content)
    case None => Err(MissingHeader)
    case Some(lines) => ParseLines(lines)
  }

  /** `parse_dimacs`: drop the header line and the piece after the last line
      break, cut the last two characters of each line, read the rest as
      integers, one clause per line. */
  method ParseDimacs(content: string) returns (r: Result<Cnf>)
    ensures r == DimacsOf(content)
  {
    var lines := SplitLines(content)[..|SplitLines(content)| - 1];
    if |lines| == 0 {
      return Err(MissingHeader);
    }
    lines := lines[1..];
    assert ClauseLines(content) == Some(lines);
    var cnf: Cnf := [];
    var i := 0;
    while i < |lines|
      invariant 0 <= i <= |lines|
      invariant ParseLines(lines[..i]) == Ok(cnf)
    {
      assert lines[..i + 1][..i] == lines[..i];
      match ParseClauseLine(lines[i]) {
      case Err(e) =>
        ParseLinesErrorSticks(lines, i + 1);
        return Err(e);
      case Ok(c) =>
        cnf := cnf + [c];
      }
      i := i + 1;
    }
    assert lines[..i] == lines;
    r := Ok(cnf);
  }

  /** Once a prefix of the lines fails to parse, so do all the lines. */
  lemma {:induction false} ParseLinesErrorSticks(lines: seq<string>, k: nat)
    requires k <= |lines|
    requires ParseLines(lines[..k]).Err?
    ensures ParseLines(lines) == ParseLines(lines[..k])
    decreases |lines| - k
  {
    if k < |lines| {
      assert lines[..k + 1][..k] == lines[..k];
      ParseLinesErrorSticks(lines, k + 1);
    } else {
      assert lines[..k] == lines;
    }
  }

  /** The text a DIMACS writer produces: a header line, one line per clause
      with its literals and a terminating " 0", and a final line break. */
  function ClauseLine(c: Clause): string {
    Unwords(ShowAll(c)) + " 0"
  }

  function ShowAll(c: Clause): (ws: seq<string>)
    ensures |ws| == |c|
    ensures forall i :: 0 <= i < |c| ==> ws[i] == Show(c[i])
  {
    if |c| == 0 then [] else [Show(c[0])] + ShowAll(c[1..])
  }

  function ClauseLinesOf(cnf: Cnf): (ls: seq<string>)
    ensures |ls| == |cnf|
    ensures forall i :: 0 <= i < |cnf| ==> ls[i] == ClauseLine(cnf[i])
  {
    if |cnf| == 0 then [] else [ClauseLine(cnf[0])] + ClauseLinesOf(cnf[1..])
  }

  function Render(header: string, cnf: Cnf): string {
    JoinLines([header] + ClauseLinesOf(cnf) + [""])
  }

  lemma ShowHasNoBreak(n: int)
    ensures '\n' !in Show(n)
  {
    assert IsSpace('\n');
  }

  lemma {:induction false} UnwordsHasNoBreak(ws: seq<string>)
    requires forall i :: 0 <= i < |ws| ==> '\n' !in ws[i]
    ensures '\n' !in Unwords(ws)
  {
    if |ws| > 1 {
      UnwordsHasNoBreak(ws[1..]);
    }
  }

  /** Reading one rendered clause line gives the clause back. */
  lemma ClauseLineRoundTrip(c: Clause)
    ensures '\n' !in ClauseLine(c)
    ensures ParseClauseLine(ClauseLine(c)) == Ok(c)
  {
    var ws := ShowAll(c);
    forall i | 0 <= i < |ws|
      ensures '\n' !in ws[i]
    {
      ShowHasNoBreak(c[i]);
    }
    UnwordsHasNoBreak(ws);
    var line := ClauseLine(c);
    assert DropLastTwo(line) == Unwords(ws);
    WordsUnwords(ws);
    ParseWordsShown(c);
  }

  /** `parse_dimacs` reads a line's words as the clause whose literals
      they spell, one by one. */
  lemma {:induction false} ParseWordsEach(ws: seq<string>, c: Clause)
    requires |ws| == |c| && forall i :: 0 <= i < |ws| ==> ParseInt(ws[i]) == Some(c[i])
    ensures ParseWords(ws) == Ok(c)
  {
    if |ws| > 0 {
      ParseWordsEach(ws[1..], c[1..]);
      assert [c[0]] + c[1..] == c;
    }
  }

  lemma ParseWordsShown(c: Clause)
    ensures ParseWords(ShowAll(c)) == Ok(c)
  {
    var ws := ShowAll(c);
    forall i | 0 <= i < |ws|
      ensures ParseInt(ws[i]) == Some(c[i])
    {
      ParseShow(c[i]);
    }
    ParseWordsEach(ws, c);
  }

  /** The clause lines are read line by line, each as the clause it
      spells. */
  lemma {:induction false} ParseLinesEach(ls: seq<string>, cnf: Cnf)
    requires |ls| == |cnf| && forall i :: 0 <= i < |ls| ==> ParseClauseLine(ls[i]) == Ok(cnf[i])
    ensures ParseLines(ls) == Ok(cnf)
  {
    if |ls| > 0 {
      var front := cnf[..|cnf| - 1];
      ParseLinesEach(ls[..|ls| - 1], front);
      assert front + [cnf[|cnf| - 1]] == cnf;
    }
  }

  lemma ParseLinesRendered(cnf: Cnf)
    ensures ParseLines(ClauseLinesOf(cnf)) == Ok(cnf)
  {
    var ls := ClauseLinesOf(cnf);
    forall i | 0 <= i < |ls|
      ensures ParseClauseLine(ls[i]) == Ok(cnf[i])
    {
      ClauseLineRoundTrip(cnf[i]);
    }
    ParseLinesEach(ls, cnf);
  }

  /** Round trip: reading the rendering of any formula gives that formula,
      whatever the header line says. */
  lemma DimacsRoundTrip(header: string, cnf: Cnf)
    requires '\n' !in header
    ensures DimacsOf(Render(header, cnf)) == Ok(cnf)
  {
    var ls := [header] + ClauseLinesOf(cnf) + [""];
    forall i | 0 <= i < |ls|
      ensures '\n' !in ls[i]
    {
      if 0 < i < |ls| - 1 {
        ClauseLineRoundTrip(cnf[i - 1]);
      }
    }
    SplitJoinLines(ls);
    assert ls[1..|ls| - 1] == ClauseLinesOf(cnf);
    ParseLinesRendered(cnf);
  }

  // =====================================================================
  // The three legality predicates

  /** `is_implied(var, cnf, assignments)`: some clause containing `v`
      has every other literal falsified by the trail.  A unit clause [v]
      justifies v vacuously. */
  function IsImplied(v: int, cnf: Cnf, trail: seq<int>): (r: bool)
    ensures r <==> exists c :: c in cnf && Justifies(c, v, trail)
  {
    if |cnf| == 0 then false
    else if v !in cnf[0] then
      assert forall c :: c in cnf ==> c == cnf[0] || c in cnf[1..];
      IsImplied(v, cnf[1..], trail)
    else if forall y :: y in cnf[0] && y != v ==> -y in trail then
      assert cnf[0] in cnf && Justifies(cnf[0], v, trail);
      true
    else
      assert forall c :: c in cnf ==> c == cnf[0] || c in cnf[1..];
      IsImplied(v, cnf[1..], trail)
  }

  /** A unit clause [v] always justifies assigning v. */
  lemma UnitClauseImplies(v: int, cnf: Cnf, trail: seq<int>)
    requires [v] in cnf
    ensures IsImplied(v, cnf, trail)
  {
    assert Justifies([v], v, trail);
  }

  /** The literal one clause contributes to `possible_propagations`. */
  function ClausePropagation(clause: Clause, trail: seq<int>): Option<int> {
    if |clause| == 1 && clause[0] !in trail then Some(clause[0])
    else
      var opposite := FalsifiedLits(clause, trail);
      var unassigned := UnassignedLits(clause, trail);
      if |opposite| == |clause| - 1 && |unassigned| == 1 then Some(unassigned[0])
      else None
  }

  /** What `clause` forces under `trail`, stated without counting: either it
      is a single literal not on the trail (even one whose negation is on
      the trail), or `lit` sits at one position, is unassigned, and the
      literal at every other position is falsified. */
  ghost predicate Forces(clause: Clause, trail: seq<int>, lit: int) {
    (|clause| == 1 && clause[0] == lit && lit !in trail)
    || (exists k :: 0 <= k < |clause| && clause[k] == lit && Unassigned(lit, trail)
          && forall j :: 0 <= j < |clause| && j != k ==> -clause[j] in trail)
  }

  lemma {:induction false} CountsDisjoint(clause: Clause, trail: seq<int>)
    ensures |FalsifiedLits(clause, trail)| + |UnassignedLits(clause, trail)| <= |clause|
  {
    if |clause| > 0 {
      CountsDisjoint(clause[1..], trail);
    }
  }

  lemma {:induction false} AllFalsified(clause: Clause, trail: seq<int>)
    requires |FalsifiedLits(clause, trail)| == |clause|
    ensures forall j :: 0 <= j < |clause| ==> -clause[j] in trail
  {
    if |clause| > 0 {
      AllFalsified(clause[1..], trail);
      forall j | 0 < j < |clause| ensures -clause[j] in trail {
        assert clause[j] == clause[1..][j - 1];
      }
    }
  }

  /** The counting test of `possible_propagations` finds exactly one
      unassigned position with every other position falsified. */
  lemma {:induction false} CountingFindsUnit(clause: Clause, trail: seq<int>)
    requires |FalsifiedLits(clause, trail)| == |clause| - 1
    requires |UnassignedLits(clause, trail)| == 1
    ensures exists k :: 0 <= k < |clause| && clause[k] == UnassignedLits(clause, trail)[0]
              && Unassigned(clause[k], trail)
              && forall j :: 0 <= j < |clause| && j != k ==> -clause[j] in trail
  {
    var a := clause[0];
    var rest := clause[1..];
    if -a in trail {
      assert !Unassigned(a, trail);
      CountingFindsUnit(rest, trail);
      var k :| 0 <= k < |rest| && rest[k] == UnassignedLits(rest, trail)[0]
               && Unassigned(rest[k], trail)
               && forall j :: 0 <= j < |rest| && j != k ==> -rest[j] in trail;
      assert clause[k + 1] == rest[k];
      forall j | 0 <= j < |clause| && j != k + 1
        ensures -clause[j] in trail
      {
        if j > 0 { assert clause[j] == rest[j - 1]; }
      }
    } else if Unassigned(a, trail) {
      AllFalsified(rest, trail);
      forall j | 0 < j < |clause|
        ensures -clause[j] in trail
      {
        assert clause[j] == rest[j - 1];
      }
    } else {
      CountsDisjoint(rest, trail);
    }
  }

  /** Conversely, a clause with one unassigned position and every other
      position falsified passes the counting test with that literal. */
  lemma {:induction false} UnitPassesCounting(clause: Clause, trail: seq<int>, k: nat)
    requires k < |clause| && Unassigned(clause[k], trail)
    requires forall j :: 0 <= j < |clause| && j != k ==> -clause[j] in trail
    ensures |FalsifiedLits(clause, trail)| == |clause| - 1
    ensures UnassignedLits(clause, trail) == [clause[k]]
  {
    var rest := clause[1..];
    if k == 0 {
      AllFalsifiedCounted(rest, trail);
    } else {
      assert -clause[0] in trail;
      forall j | 0 <= j < |rest| && j != k - 1
        ensures -rest[j] in trail
      {
        assert rest[j] == clause[j + 1];
      }
      UnitPassesCounting(rest, trail, k - 1);
    }
  }

  lemma {:induction false} AllFalsifiedCounted(clause: Clause, trail: seq<int>)
    requires forall j :: 0 <= j < |clause| ==> -clause[j] in trail
    ensures FalsifiedLits(clause, trail) == clause
    ensures UnassignedLits(clause, trail) == []
  {
    if |clause| > 0 {
      AllFalsifiedCounted(clause[1..], trail);
      assert [clause[0]] + clause[1..] == clause;
    }
  }

  /** A clause contributes `lit` to `possible_propagations` exactly when it
      forces `lit` in the sense of `Forces`. */
  lemma ClausePropagationForces(clause: Clause, trail: seq<int>, lit: int)
    ensures ClausePropagation(clause, trail) == Some(lit) <==> Forces(clause, trail, lit)
  {
    var opposite := FalsifiedLits(clause, trail);
    var unassigned := UnassignedLits(clause, trail);
    if |opposite| == |clause| - 1 && |unassigned| == 1 {
      CountingFindsUnit(clause, trail);
    }
    if exists k :: 0 <= k < |clause| && clause[k] == lit && Unassigned(lit, trail)
         && forall j :: 0 <= j < |clause| && j != k ==> -clause[j] in trail {
      var k :| 0 <= k < |clause| && clause[k] == lit && Unassigned(lit, trail)
               && forall j :: 0 <= j < |clause| && j != k ==> -clause[j] in trail;
      UnitPassesCounting(clause, trail, k);
    }
  }

  /** `possible_propagations(cnf, assignments)` as a value: each clause's
      contribution, in clause order.  A literal is reported exactly when
      some clause forces it, and every reported literal is in some
      clause. */
  function Propagations(cnf: Cnf, trail: seq<int>): (r: seq<int>)
    ensures |r| <= |cnf|
    ensures forall lit :: lit in r <==> exists c :: c in cnf && Forces(c, trail, lit)
    ensures forall lit :: lit in r ==> exists c :: c in cnf && lit in c
  {
    if |cnf| == 0 then []
    else
      var front := cnf[..|cnf| - 1];
      var last := cnf[|cnf| - 1];
      assert cnf == front + [last];
      assert forall c :: c in cnf <==> c in front || c == last;
      var out := match ClausePropagation(last, trail)
        case None => []
        case Some(lit) => [lit];
      forall lit
        ensures lit in out <==> Forces(last, trail, lit)
      {
        ClausePropagationForces(last, trail, lit);
      }
      assert forall lit :: lit in out ==> lit in last by {
        forall lit | lit in out ensures lit in last {
          assert Forces(last, trail, lit);
        }
      }
      Propagations(front, trail) + out
  }

  /** `possible_propagations`: the loop over the clauses appending each
      clause's contribution. */
  method PossiblePropagations(cnf: Cnf, trail: seq<int>) returns (props: seq<int>)
    ensures props == Propagations(cnf, trail)
  {
    props := [];
    var i := 0;
    while i < |cnf|
      invariant 0 <= i <= |cnf|
      invariant props == Propagations(cnf[..i], trail)
    {
      assert cnf[..i + 1][..i] == cnf[..i];
      var out := ClausePropagation(cnf[i], trail);
      if out.Some? {
        props := props + [out.value];
      }
      i := i + 1;
    }
    assert cnf[..i] == cnf;
  }

  /** Every literal of `clause` has its variable on the trail. */
  predicate AllAssigned(clause: Clause, trail: seq<int>) {
    forall lit :: lit in clause ==> exists x :: x in trail && Abs(x) == Abs(lit)
  }

  /** `check_conflict(cnf, assignments)`: some clause is wholly assigned and
      wholly false.  Being assigned follows from being false, and an empty
      clause is false. */
  function CheckConflict(cnf: Cnf, trail: seq<int>): (r: bool)
    ensures r <==> exists c :: c in cnf && Falsified(c, trail)
  {
    if |cnf| == 0 then false
    else
      assert forall c :: c in cnf ==> c == cnf[0] || c in cnf[1..];
      FalsifiedIsAssigned(cnf[0], trail);
      if AllAssigned(cnf[0], trail) then
        if forall x :: x in cnf[0] ==> -x in trail then
          assert cnf[0] in cnf && Falsified(cnf[0], trail);
          true
        else CheckConflict(cnf[1..], trail)
      else
        CheckConflict(cnf[1..], trail)
  }

  /** A wholly false clause is wholly assigned, so the assignment test of
      `check_conflict` never hides a conflict. */
  lemma FalsifiedIsAssigned(clause: Clause, trail: seq<int>)
    ensures Falsified(clause, trail) ==> AllAssigned(clause, trail)
  {
    if Falsified(clause, trail) {
      forall lit | lit in clause
        ensures exists x :: x in trail && Abs(x) == Abs(lit)
      {
        assert -lit in trail && Abs(-lit) == Abs(lit);
      }
    }
  }

  /** An empty clause is a conflict under every trail. */
  lemma EmptyClauseConflicts(cnf: Cnf, trail: seq<int>)
    requires [] in cnf
    ensures CheckConflict(cnf, trail)
  {
    assert Falsified([], trail);
  }

  // =====================================================================
  // The replay state machine (check_sat_solver)

  /** One log line, classified. */
  datatype Event =
    | Assign(lit: int)
    | Decide(lit: int)
    | Unassign(lit: int)
    | Conflict

  /** The outcome of a check: no fault, one of the three solver faults, an
      `unassign` of a literal not on the trail (the assertion), or an
      unreadable formula. */
  datatype Verdict =
    | NoFault
    | UnjustifiedDecision(lit: int, forced: seq<int>)
    | UnjustifiedPropagation(lit: int)
    | SpuriousConflict
    | UnassignNotOnTrail(lit: int)
    | MalformedFormula(error: FormatError)

  /** The trail and the "just decided" flag. */
  datatype ReplayState = ReplayState(trail: seq<int>, decision: bool)

  datatype StepResult = Continue(state: ReplayState) | Halt(verdict: Verdict)

  const Initial := ReplayState([], false)

  /** Index of the first occurrence of `v` (`list.index`). */
  function FirstIndex(t: seq<int>, v: int): (k: nat)
    requires v in t
    ensures k < |t| && t[k] == v && v !in t[..k]
  {
    if t[0] == v then 0
    else
      assert t[1..][..FirstIndex(t[1..], v)] == t[..FirstIndex(t[1..], v) + 1][1..];
      1 + FirstIndex(t[1..], v)
  }

  /** `t.pop(t.index(v))`. */
  function RemoveFirst(t: seq<int>, v: int): seq<int>
    requires v in t
  {
    var k := FirstIndex(t, v);
    t[..k] + t[k + 1..]
  }

  /** One event of the log applied to the state. */
  function Step(cnf: Cnf, st: ReplayState, e: Event): StepResult {
    match e
    case Decide(v) =>
      var props := Propagations(cnf, st.trail);
      if |props| > 0 then Halt(UnjustifiedDecision(v, props))
      else Continue(ReplayState(st.trail + [v], true))
    case Assign(v) =>
      if st.decision then Continue(ReplayState(st.trail, false))
      else if !IsImplied(v, cnf, st.trail) then Halt(UnjustifiedPropagation(v))
      else Continue(ReplayState(st.trail + [v], false))
    case Unassign(v) =>
      if v !in st.trail then Halt(UnassignNotOnTrail(v))
      else Continue(ReplayState(RemoveFirst(st.trail, v), st.decision))
    case Conflict =>
      if !CheckConflict(cnf, st.trail) then Halt(SpuriousConflict)
      else Continue(st)
  }

  /** The events applied in order, stopping at the first fault. */
  function Run(cnf: Cnf, events: seq<Event>, st: ReplayState): StepResult
    decreases |events|
  {
    if |events| == 0 then Continue(st)
    else match Step(cnf, st, events[0])
      case Halt(v) => Halt(v)
      case Continue(next) => Run(cnf, events[1..], next)
  }

  /** The verdict on a whole log: an exhausted log is fault free. */
  function CheckLog(cnf: Cnf, events: seq<Event>): Verdict {
    match Run(cnf, events, Initial)
    case Halt(v) => v
    case Continue(_) => NoFault
  }

  /** `check_sat_solver`: read the formula, then replay the log with a
      mutable trail and decision flag. */
  method CheckSatSolver(content: string, events: seq<Event>) returns (verdict: Verdict)
    ensures verdict == match DimacsOf(content)
                       case Err(e) => MalformedFormula(e)
                       case Ok(cnf) => CheckLog(cnf, events)
  {
    var parsed := ParseDimacs(content);
    if parsed.Err? {
      return MalformedFormula(parsed.error);
    }
    var cnf := parsed.value;
    var assignments: seq<int> := [];
    var decision := false;
    var i := 0;
    while i < |events|
      invariant 0 <= i <= |events|
      invariant Run(cnf, events, Initial) == Run(cnf, events[i..], ReplayState(assignments, decision))
    {
      assert events[i..][1..] == events[i + 1..];
      match events[i] {
      case Decide(v) =>
        var propagations := PossiblePropagations(cnf, assignments);
        if |propagations| > 0 {
          return UnjustifiedDecision(v, propagations);
        }
        assignments := assignments + [v];
        decision := true;
      case Assign(v) =>
        if decision {
          decision := false;
        } else {
          if !IsImplied(v, cnf, assignments) {
            return UnjustifiedPropagation(v);
          }
          assignments := assignments + [v];
        }
      case Unassign(v) =>
        if v !in assignments {
          return UnassignNotOnTrail(v);
        }
        var k := FirstIndex(assignments, v);
        assignments := assignments[..k] + assignments[k + 1..];
      case Conflict =>
        if !CheckConflict(cnf, assignments) {
          return SpuriousConflict;
        }
      }
      i := i + 1;
    }
    verdict := NoFault;
  }

  // =====================================================================
  // Properties of the replay

  /** A decision halts the replay exactly when some clause forces a literal
      not yet propagated; otherwise the literal is appended and the flag
      set. */
  lemma DecideGate(cnf: Cnf, st: ReplayState, v: int)
    ensures Step(cnf, st, Decide(v)).Halt?
            <==> exists c, lit :: c in cnf && Forces(c, st.trail, lit)
    ensures Step(cnf, st, Decide(v)).Halt? ==>
              Step(cnf, st, Decide(v)) == Halt(UnjustifiedDecision(v, Propagations(cnf, st.trail)))
    ensures Step(cnf, st, Decide(v)).Continue? ==>
              Step(cnf, st, Decide(v)) == Continue(ReplayState(st.trail + [v], true))
  {
    var props := Propagations(cnf, st.trail);
    if exists c, lit :: c in cnf && Forces(c, st.trail, lit) {
      var c, lit :| c in cnf && Forces(c, st.trail, lit);
      assert lit in props;
    }
    if |props| > 0 {
      assert props[0] in props;
    }
  }

  /** The `assign` line that restates a decision clears the flag and
      changes nothing else, whatever its literal. */
  lemma AssignAfterDecision(cnf: Cnf, trail: seq<int>, v: int)
    ensures Step(cnf, ReplayState(trail, true), Assign(v)) == Continue(ReplayState(trail, false))
  {
  }

  /** Without a pending decision, an assignment is accepted exactly when
      some clause forces it, and then it is appended. */
  lemma AssignNeedsJustification(cnf: Cnf, trail: seq<int>, v: int)
    ensures Step(cnf, ReplayState(trail, false), Assign(v))
            == if exists c :: c in cnf && Justifies(c, v, trail)
               then Continue(ReplayState(trail + [v], false))
               else Halt(UnjustifiedPropagation(v))
  {
    var implied := IsImplied(v, cnf, trail);
    var st := ReplayState(trail, false);
    assert !st.decision;
    if implied {
      assert Step(cnf, st, Assign(v)) == Continue(ReplayState(trail + [v], false));
    } else {
      assert Step(cnf, st, Assign(v)) == Halt(UnjustifiedPropagation(v));
    }
  }

  /** An unassignment removes exactly one occurrence of its literal, the
      first, and keeps the order of the rest; a literal not on the trail
      stops the replay. */
  lemma UnassignRemovesFirst(cnf: Cnf, st: ReplayState, v: int)
    ensures v !in st.trail ==> Step(cnf, st, Unassign(v)) == Halt(UnassignNotOnTrail(v))
    ensures v in st.trail ==>
              Step(cnf, st, Unassign(v)).Continue?
              && var t := Step(cnf, st, Unassign(v)).state.trail;
              && Step(cnf, st, Unassign(v)).state.decision == st.decision
              && |t| == |st.trail| - 1
              && multiset(t) == multiset(st.trail) - multiset{v}
              && exists k :: 0 <= k < |st.trail| && st.trail[k] == v && v !in st.trail[..k]
                   && t == st.trail[..k] + st.trail[k + 1..]
  {
    if v in st.trail {
      var k := FirstIndex(st.trail, v);
      var t := st.trail;
      assert t == t[..k] + [v] + t[k + 1..];
      assert multiset(t) == multiset(t[..k]) + multiset{v} + multiset(t[k + 1..]);
    }
  }

  /** A declared conflict is accepted exactly when some clause is wholly
      false; the state is unchanged. */
  lemma ConflictNeedsFalsifiedClause(cnf: Cnf, st: ReplayState)
    ensures Step(cnf, st, Conflict)
            == if exists c :: c in cnf && Falsified(c, st.trail)
               then Continue(st) else Halt(SpuriousConflict)
  {
  }

  /** Replaying two logs one after the other is replaying their
      concatenation: the first fault ends the replay. */
  lemma {:induction false} RunAppend(cnf: Cnf, a: seq<Event>, b: seq<Event>, st: ReplayState)
    ensures Run(cnf, a + b, st) == match Run(cnf, a, st)
                                   case Halt(v) => Halt(v)
                                   case Continue(s) => Run(cnf, b, s)
    decreases |a|
  {
    if |a| == 0 {
      assert a + b == b;
    } else {
      assert (a + b)[0] == a[0];
      assert (a + b)[1..] == a[1..] + b;
      match Step(cnf, st, a[0])
      case Halt(v) =>
      case Continue(next) =>
        RunAppend(cnf, a[1..], b, next);
    }
  }

  /** Whatever follows a fault in the log does not change the verdict. */
  lemma FirstFaultDecides(cnf: Cnf, a: seq<Event>, b: seq<Event>)
    requires CheckLog(cnf, a) != NoFault
    ensures CheckLog(cnf, a + b) == CheckLog(cnf, a)
  {
    RunAppend(cnf, a, b, Initial);
  }

  /** A decision and its restating `assign` add the literal once and leave
      the flag clear, without asking for a justification. */
  lemma DecisionPair(cnf: Cnf, trail: seq<int>, v: int)
    requires Propagations(cnf, trail) == []
    ensures Run(cnf, [Decide(v), Assign(v)], ReplayState(trail, false))
            == Continue(ReplayState(trail + [v], false))
  {
    var st := ReplayState(trail, false);
    var mid := ReplayState(trail + [v], true);
    assert Step(cnf, st, Decide(v)) == Continue(mid);
    assert [Decide(v), Assign(v)][1..] == [Assign(v)];
    assert Step(cnf, mid, Assign(v)) == Continue(ReplayState(trail + [v], false));
    assert Run(cnf, [Assign(v)], mid) == Run(cnf, [], ReplayState(trail + [v], false));
  }

  // Worked examples.

  /** [[1,2],[-1]] with assign -1, assign 2, conflict: both assignments are
      justified, but no clause is false, so the conflict is spurious. */
  lemma ExampleSpuriousAfterPropagation()
    ensures CheckLog([[1, 2], [-1]], [Assign(-1), Assign(2), Conflict]) == SpuriousConflict
  {
    assert Justifies([-1], -1, []);
    assert Justifies([1, 2], 2, [-1]);
    assert !Falsified([1, 2], [-1, 2]);
    assert !Falsified([-1], [-1, 2]);
  }

  /** [[1,2]] with decide 1: nothing is forced, the decision is legal. */
  lemma ExampleLegalDecision()
    ensures CheckLog([[1, 2]], [Decide(1)]) == NoFault
  {
  }

  /** [[-1]] with decide 1: the unit clause forces -1 first. */
  lemma ExampleForcedBeforeDecision()
    ensures CheckLog([[-1]], [Decide(1)]) == UnjustifiedDecision(1, [-1])
  {
  }

  /** [[1,2]] with assign 1: nothing forces 1, so the replay stops there,
      before any later conflict line is read. */
  lemma ExampleUnforcedAssign()
    ensures CheckLog([[1, 2]], [Assign(1), Assign(-2), Conflict]) == UnjustifiedPropagation(1)
  {
    assert 2 in [1, 2] && -2 !in [];
    assert !Justifies([1, 2], 1, []);
    assert forall c :: c in [[1, 2]] ==> c == [1, 2];
  }

  /** The trail is not kept free of duplicates: a literal forced by a unit
      clause may be assigned twice and then sits on the trail twice. */
  lemma ExampleDuplicateAssign()
    ensures Run([[1]], [Assign(1), Assign(1)], Initial) == Continue(ReplayState([1, 1], false))
  {
    assert Justifies([1], 1, []);
    assert Justifies([1], 1, [1]);
  }
}
