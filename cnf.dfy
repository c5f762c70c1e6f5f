/** Formulas in conjunctive normal form, as the Sudoku solver builds them:
    a literal is a variable with a polarity, a clause is a list of literals
    (a disjunction), a formula is a list of clauses (a conjunction), and an
    assignment maps variables to Boolean values. */
module Cnf {

  datatype Option<T> = None | Some(value: T)

  /** A literal `(variable, value)`: it holds when `variable` is assigned `value`. */
  datatype Literal = Literal(variable: int, value: bool)

  type Clause = seq<Literal>

  type Formula = seq<Clause>

  type Assignment = map<int, bool>

  /** The literal of the same variable with the opposite polarity. */
  function Negate(l: Literal): Literal
  {
    Literal(l.variable, !l.value)
  }

  predicate Holds(a: Assignment, l: Literal)
  {
    l.variable in a && a[l.variable] == l.value
  }

  /** A clause is satisfied when one of its literals holds; an empty clause never is. */
  predicate ClauseSat(a: Assignment, c: Clause)
  {
    exists l :: l in c && Holds(a, l)
  }

  /** A formula is satisfied when all of its clauses are. */
  predicate Sat(a: Assignment, f: Formula)
  {
    forall c :: c in f ==> ClauseSat(a, c)
  }

  /** `a` agrees with every entry of `base`. */
  predicate Extends(a: Assignment, base: Assignment)
  {
    forall v :: v in base ==> v in a && a[v] == base[v]
  }

  /** `a` is a model of `f` that extends the partial assignment `base`. */
  predicate Models(a: Assignment, base: Assignment, f: Formula)
  {
    Extends(a, base) && Sat(a, f)
  }

  /** The variables mentioned by a clause, in either polarity. */
  function ClauseVars(c: Clause): set<int>
  {
    set l | l in c :: l.variable
  }

  /** The variables mentioned by a formula, in either polarity. */
  function Vars(f: Formula): set<int>
  {
    if f == [] then {} else ClauseVars(f[0]) + Vars(f[1..])
  }

  /** No literal occurs twice in the clause. */
  predicate NoDuplicates(c: Clause)
  {
    forall i, j :: 0 <= i < j < |c| ==> c[i] != c[j]
  }

  /** No clause of the formula repeats a literal. */
  predicate DuplicateFree(f: Formula)
  {
    forall c :: c in f ==> NoDuplicates(c)
  }

  /** A variable is mentioned by a formula exactly when one of its clauses holds
      a literal of that variable. */
  lemma {:induction false} VarsMember(f: Formula, v: int)
    ensures v in Vars(f) <==> exists c, l :: c in f && l in c && l.variable == v
  {
    if f != [] {
      VarsMember(f[1..], v);
      assert f == [f[0]] + f[1..];
      if v in ClauseVars(f[0]) {
        var l :| l in f[0] && l.variable == v;
        assert f[0] in f;
      }
    }
  }

  /** Every assignment extends the empty one, so a formula without a model
      extending it has no model at all. */
  lemma NoModels(f: Formula)
    requires forall a :: !Models(a, map[], f)
    ensures forall a :: !Sat(a, f)
  {
    forall a
      ensures !Sat(a, f)
    {
      assert Extends(a, map[]) && !Models(a, map[], f);
    }
  }

  /** A formula is satisfied exactly when both halves of a concatenation are. */
  lemma SatAppend(a: Assignment, f: Formula, g: Formula)
    ensures Sat(a, f + g) <==> Sat(a, f) && Sat(a, g)
  {
    assert forall c :: c in f + g <==> c in f || c in g;
  }

  /** Giving a value to a variable the assignment leaves open keeps every
      clause it satisfies satisfied. */
  lemma SatUnassigned(a: Assignment, f: Formula, v: int, b: bool)
    requires v !in a
    requires Sat(a, f)
    ensures Sat(a[v := b], f)
  {
    forall c | c in f
      ensures ClauseSat(a[v := b], c)
    {
      var l :| l in c && Holds(a, l);
      assert Holds(a[v := b], l);
    }
  }
}
