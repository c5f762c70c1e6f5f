/** The DPLL solver of sudoku.py (`sat_solver`): unit propagation to a
    fixpoint, then branching on the first literal of the first clause, its own
    polarity first and its negation second. */
module Solver {
  import opened Cnf
  import opened Substitution

  /** `[c[0] for c in formula if len(c) == 1]`: the literals of the unit clauses, in order. */
  function UnitLiterals(f: Formula): seq<Literal>
  {
    if f == [] then []
    else (if |f[0]| == 1 then [f[0][0]] else []) + UnitLiterals(f[1..])
  }

  /** A literal is listed as a unit exactly when it forms a unit clause of the formula. */
  lemma {:induction false} UnitLiteralsMember(f: Formula, u: Literal)
    ensures u in UnitLiterals(f) <==> [u] in f
  {
    if f != [] {
      UnitLiteralsMember(f[1..], u);
      assert f == [f[0]] + f[1..];
      assert |f[0]| == 1 ==> f[0] == [f[0][0]];
    }
  }

  /** Propagation stops exactly when no clause is a unit clause. */
  lemma {:induction false} UnitLiteralsEmpty(f: Formula)
    ensures UnitLiterals(f) == [] <==> forall c :: c in f ==> |c| != 1
  {
    if f != [] {
      UnitLiteralsEmpty(f[1..]);
      assert f == [f[0]] + f[1..];
    }
  }

  /** The literal `sat_solver` branches on: the first literal of the first
      non-empty clause. */
  function BranchLiteral(f: Formula): (l: Literal)
    requires exists c :: c in f && c != []
    ensures exists i :: 0 <= i < |f| && f[i] != [] && l == f[i][0] &&
                        forall j :: 0 <= j < i ==> f[j] == []
  {
    if f[0] != [] then f[0][0]
    else
      assert f == [f[0]] + f[1..];
      var l := BranchLiteral(f[1..]);
      assert forall j :: 0 <= j < |f[1..]| ==> f[1..][j] == f[j + 1];
      l
  }

  /** The partial state `(base, f)` of the solver has exactly the models of the
      initial problem `(base0, f0)`. */
  ghost predicate SameModels(base0: Assignment, f0: Formula, base: Assignment, f: Formula)
  {
    forall a :: Models(a, base0, f0) <==> Models(a, base, f)
  }

  /** Every model of the initial problem makes every unit literal of the
      current formula true. */
  lemma UnitsForced(base0: Assignment, f0: Formula, base: Assignment, f: Formula)
    requires SameModels(base0, f0, base, f)
    ensures forall a, u :: Models(a, base0, f0) && u in UnitLiterals(f) ==> Holds(a, u)
    ensures forall u :: u in UnitLiterals(f) ==> u.variable in Vars(f)
  {
    forall a, u | Models(a, base0, f0) && u in UnitLiterals(f)
      ensures Holds(a, u)
    {
      UnitLiteralsMember(f, u);
      assert ClauseSat(a, [u]);
    }
    forall u | u in UnitLiterals(f)
      ensures u.variable in Vars(f)
    {
      UnitLiteralsMember(f, u);
      VarsMember(f, u.variable);
      assert u in [u];
    }
  }

  /** One step of unit propagation (`assignment[var] = val` and
      `update_formula`) keeps the models of the initial problem. */
  lemma PropagateUnit(base0: Assignment, f0: Formula, base: Assignment, f: Formula,
                      u: Literal, g: Formula)
    requires SameModels(base0, f0, base, f)
    requires forall a :: Models(a, base0, f0) ==> Holds(a, u)
    requires u.variable in base ==> base[u.variable] == u.value
    requires Substitute(f, u) == Some(g)
    ensures SameModels(base0, f0, base[u.variable := u.value], g)
  {
    forall a
      ensures Models(a, base0, f0) <==> Models(a, base[u.variable := u.value], g)
    {
      if Holds(a, u) {
        SubstituteSat(f, u, a);
      }
    }
  }

  /** A forced unit whose substitution empties a clause leaves the initial
      problem without a model. */
  lemma PropagateFail(base0: Assignment, f0: Formula, base: Assignment, f: Formula, u: Literal)
    requires SameModels(base0, f0, base, f)
    requires forall a :: Models(a, base0, f0) ==> Holds(a, u)
    requires Substitute(f, u).None?
    ensures forall a :: !Models(a, base0, f0)
  {
    forall a
      ensures !Models(a, base0, f0)
    {
      if Holds(a, u) {
        SubstituteSat(f, u, a);
      }
    }
  }

  /** The model a branch sees: `a`, or `a` with the branch variable set to
      `l`'s polarity when `a` leaves it open. */
  function Completed(a: Assignment, l: Literal): (b: Assignment)
    ensures Extends(b, a) && l.variable in b
  {
    if l.variable in a then a else a[l.variable := l.value]
  }

  /** Trying `l` and then its negation covers every model: a model of `(base, f)`
      yields a model of one of the two branches. */
  lemma BranchComplete(base: Assignment, f: Formula, l: Literal, g1: Formula, g2: Formula)
    requires Substitute(f, l) == Some(g1)
    requires Substitute(f, Negate(l)) == Some(g2)
    ensures forall a :: Models(a, base, f) ==>
              Models(Completed(a, l), base[l.variable := l.value], g1) ||
              Models(Completed(a, l), base[l.variable := !l.value], g2)
  {
    forall a | Models(a, base, f)
      ensures Models(Completed(a, l), base[l.variable := l.value], g1) ||
              Models(Completed(a, l), base[l.variable := !l.value], g2)
    {
      var b := Completed(a, l);
      if l.variable !in a {
        SatUnassigned(a, f, l.variable, l.value);
      }
      if Holds(b, l) {
        SubstituteSat(f, l, b);
      } else {
        SubstituteSat(f, Negate(l), b);
      }
    }
  }

  /** A forced unit that contradicts the assignment leaves the initial problem
      without a model. */
  lemma PropagateConflict(base0: Assignment, f0: Formula, base: Assignment, f: Formula, u: Literal)
    requires SameModels(base0, f0, base, f)
    requires forall a :: Models(a, base0, f0) ==> Holds(a, u)
    requires u.variable in base && base[u.variable] != u.value
    ensures forall a :: !Models(a, base0, f0)
  {
  }

  /** A model of a branch is a model of the initial problem. */
  lemma BranchSound(base0: Assignment, f0: Formula, base: Assignment, f: Formula,
                    l: Literal, g: Formula, a: Assignment)
    requires SameModels(base0, f0, base, f)
    requires l.variable !in base
    requires Substitute(f, l) == Some(g)
    requires Models(a, base[l.variable := l.value], g)
    ensures Models(a, base0, f0)
  {
    SubstituteSat(f, l, a);
  }

  lemma BranchKeys(keys: set<int>, base: Assignment, l: Literal, g: Formula, bound: set<int>)
    requires keys <= base[l.variable := l.value].Keys + Vars(g)
    requires base.Keys <= bound && l.variable in bound && Vars(g) <= bound
    ensures keys <= bound
  {
  }

  /** When neither branch has a model, the initial problem has none. */
  lemma BranchesFail(base0: Assignment, f0: Formula, base: Assignment, f: Formula,
                     l: Literal, base1: Assignment, g1: Formula, base2: Assignment, g2: Formula)
    requires SameModels(base0, f0, base, f)
    requires base1 == base[l.variable := l.value] && Substitute(f, l) == Some(g1)
    requires base2 == base[l.variable := !l.value] && Substitute(f, Negate(l)) == Some(g2)
    requires forall a :: !Models(a, base1, g1)
    requires forall a :: !Models(a, base2, g2)
    ensures forall a :: !Models(a, base0, f0)
  {
    BranchComplete(base, f, l, g1, g2);
  }

  /** A formula with an empty clause has no model. */
  lemma EmptyClauseFails(base0: Assignment, f0: Formula, base: Assignment, f: Formula, i: int)
    requires SameModels(base0, f0, base, f)
    requires 0 <= i < |f| && f[i] == []
    ensures forall a :: !Models(a, base0, f0)
  {
    assert f[i] in f;
  }

  lemma SubsetSmaller(s: set<int>, t: set<int>, x: int)
    requires s <= t - {x} && x in t
    ensures |s| < |t|
  {
    var u := t - {x};
    assert u == s + (u - s);
    assert s * (u - s) == {};
    assert t == u + {x};
    assert u * {x} == {};
  }

  /** One step of unit propagation keeps the loop's invariants: the models,
      the absence of repeated literals, and the variables left to decide. */
  lemma PropagateStep(base0: Assignment, f0: Formula, base: Assignment, f: Formula,
                      u: Literal, g: Formula)
    requires SameModels(base0, f0, base, f)
    requires DuplicateFree(f)
    requires forall a :: Models(a, base0, f0) ==> Holds(a, u)
    requires u.variable in base ==> base[u.variable] == u.value
    requires Substitute(f, u) == Some(g)
    ensures SameModels(base0, f0, base[u.variable := u.value], g)
    ensures DuplicateFree(g)
    ensures Vars(g) <= Vars(f) - {u.variable}
  {
    PropagateUnit(base0, f0, base, f, u, g);
    SubstituteVars(f, u);
    SubstituteDuplicateFree(f, u);
  }

  /** Once propagation is done and no clause is empty, every clause has two
      or more literals, so a branch literal exists. */
  lemma NoShortClauses(f: Formula)
    requires UnitLiterals(f) == []
    requires forall i :: 0 <= i < |f| ==> |f[i]| != 0
    ensures forall c :: c in f ==> |c| >= 2
  {
    UnitLiteralsEmpty(f);
  }

  /** Both branches on `lit` substitute successfully, keep the clauses free of
      repeated literals, and leave strictly fewer variables to decide. */
  lemma BranchReady(f0: Formula, base: Assignment, f: Formula, lit: Literal)
    requires DuplicateFree(f)
    requires Vars(f) <= Vars(f0)
    requires base.Keys !! Vars(f)
    requires forall c :: c in f ==> |c| >= 2
    requires f != []
    requires exists c :: c in f && c != []
    requires lit == BranchLiteral(f)
    ensures lit.variable in Vars(f0) && lit.variable !in base
    ensures Substitute(f, lit).Some? && Substitute(f, Negate(lit)).Some?
    ensures DuplicateFree(Substitute(f, lit).value)
    ensures DuplicateFree(Substitute(f, Negate(lit)).value)
    ensures Vars(Substitute(f, lit).value) <= Vars(f) - {lit.variable}
    ensures Vars(Substitute(f, Negate(lit)).value) <= Vars(f) - {lit.variable}
    ensures |Vars(Substitute(f, lit).value)| < |Vars(f0)|
    ensures |Vars(Substitute(f, Negate(lit)).value)| < |Vars(f0)|
  {
    var i :| 0 <= i < |f| && f[i] != [] && lit == f[i][0];
    assert f[i] in f;
    VarsMember(f, lit.variable);
    SubstituteWide(f, lit);
    SubstituteWide(f, Negate(lit));
    SubstituteVars(f, lit);
    SubstituteVars(f, Negate(lit));
    SubstituteDuplicateFree(f, lit);
    SubstituteDuplicateFree(f, Negate(lit));
    SubsetSmaller(Vars(Substitute(f, lit).value), Vars(f0), lit.variable);
    SubsetSmaller(Vars(Substitute(f, Negate(lit)).value), Vars(f0), lit.variable);
  }

  /** The unit-propagation phase of `sat_solver`: repeatedly collect the unit
      clauses and substitute each of them, until none is left. `None` means a
      conflict or an emptied clause, and then the problem has no model; otherwise
      the returned assignment and formula have exactly the models of the problem,
      no unit clause, and only variables the assignment leaves open. */
  method PropagateUnits(input: Formula, initial: Assignment)
    returns (result: Option<(Assignment, Formula)>)
    requires DuplicateFree(input)
    requires initial.Keys !! Vars(input)
    ensures result.None? ==> forall a :: !Models(a, initial, input)
    ensures result.Some? ==>
              var (assignment, formula) := result.value;
              SameModels(initial, input, assignment, formula) &&
              UnitLiterals(formula) == [] &&
              DuplicateFree(formula) &&
              Vars(formula) <= Vars(input) &&
              assignment.Keys !! Vars(formula) &&
              assignment.Keys <= initial.Keys + Vars(input)
  {
    var formula := input;
    var assignment := initial;
    while true
      invariant DuplicateFree(formula)
      invariant Vars(formula) <= Vars(input)
      invariant assignment.Keys !! Vars(formula)
      invariant assignment.Keys <= initial.Keys + Vars(input)
      invariant SameModels(initial, input, assignment, formula)
      decreases |Vars(formula)|
    {
      var units := UnitLiterals(formula);
      if units == [] {
        return Some((assignment, formula));
      }
      ghost var start := formula;
      UnitsForced(initial, input, assignment, formula);
      var k := 0;
      while k < |units|
        invariant 0 <= k <= |units|
        invariant DuplicateFree(formula)
        invariant Vars(formula) <= Vars(start)
        invariant k > 0 ==> units[0].variable !in Vars(formula)
        invariant assignment.Keys !! Vars(formula)
        invariant assignment.Keys <= initial.Keys + Vars(input)
        invariant SameModels(initial, input, assignment, formula)
      {
        var unit := units[k];
        assert units[k] in units;
        if unit.variable in assignment && assignment[unit.variable] != unit.value {
          PropagateConflict(initial, input, assignment, formula, unit);
          return None;  // the unit contradicts a value already assigned
        }
        ghost var before := assignment;
        assignment := assignment[unit.variable := unit.value];
        var next := UpdateFormula(formula, unit);
        if next.None? {
          PropagateFail(initial, input, before, formula, unit);
          return None;
        }
        PropagateStep(initial, input, before, formula, unit, next.value);
        formula := next.value;
        k := k + 1;
      }
      SubsetSmaller(Vars(formula), Vars(start), units[0].variable);
    }
  }

  /** `sat_solver(formula, assignment)`. A returned assignment is a model of
      the formula that extends the given assignment and adds only variables of
      the formula; `None` means that no such model exists. */
  method SatSolver(input: Formula, initial: Assignment) returns (result: Option<Assignment>)
    requires DuplicateFree(input)
    requires initial.Keys !! Vars(input)
    ensures result.Some? ==> Models(result.value, initial, input)
    ensures result.Some? ==> result.value.Keys <= initial.Keys + Vars(input)
    ensures result.None? ==> forall a :: !Models(a, initial, input)
    decreases |Vars(input)|
  {
    // propagate the unit clauses to a fixpoint
    var propagated := PropagateUnits(input, initial);
    if propagated.None? {
      return None;
    }
    var (assignment, formula) := propagated.value;
    // no clause left: the assignment is a model
    if formula == [] {
      return Some(assignment);
    }
    // an empty clause has no model
    if exists i :: 0 <= i < |formula| && |formula[i]| == 0 {
      ghost var i :| 0 <= i < |formula| && |formula[i]| == 0;
      EmptyClauseFails(initial, input, assignment, formula, i);
      return None;
    }
    // split on the first literal of the first non-empty clause
    NoShortClauses(formula);
    assert formula[0] in formula;
    var lit := BranchLiteral(formula);
    BranchReady(input, assignment, formula, lit);
    ghost var g1 := Substitute(formula, lit).value;
    ghost var g2 := Substitute(formula, Negate(lit)).value;
    // Try the literal's own polarity
    ghost var base1 := assignment[lit.variable := lit.value];
    ghost var base2 := assignment[lit.variable := !lit.value];
    var newAssignment := assignment[lit.variable := lit.value];
    var newFormula := UpdateFormula(formula, lit);
    var result1 := SatSolver(newFormula.value, newAssignment);
    if result1.Some? {
      BranchSound(initial, input, assignment, formula, lit, g1, result1.value);
      BranchKeys(result1.value.Keys, assignment, lit, g1, initial.Keys + Vars(input));
      return result1;
    }
    // Try its negation
    newAssignment := assignment[lit.variable := !lit.value];
    newFormula := UpdateFormula(formula, Negate(lit));
    var result2 := SatSolver(newFormula.value, newAssignment);
    if result2.Some? {
      BranchSound(initial, input, assignment, formula, Negate(lit), g2, result2.value);
      BranchKeys(result2.value.Keys, assignment, Negate(lit), g2, initial.Keys + Vars(input));
      return result2;
    }
    BranchesFail(initial, input, assignment, formula, lit, base1, g1, base2, g2);
    return None;
  }
}
