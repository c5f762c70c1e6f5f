/** Substituting a literal into a formula (`update_formula` in sudoku.py):
    clauses that contain the literal are satisfied and dropped, every
    occurrence of its negation is deleted from the other clauses, and the
    substitution fails as soon as a clause is left empty. */
module Substitution {
  import opened Cnf

  /** The clause with every occurrence of `x` deleted, the rest in order. */
  function Without(c: Clause, x: Literal): Clause
  {
    if c == [] then []
    else if c[0] == x then Without(c[1..], x)
    else [c[0]] + Without(c[1..], x)
  }

  lemma {:induction false} WithoutMember(c: Clause, x: Literal, y: Literal)
    ensures y in Without(c, x) <==> y in c && y != x
  {
    if c != [] {
      WithoutMember(c[1..], x, y);
      assert c == [c[0]] + c[1..];
    }
  }

  lemma {:induction false} WithoutAbsent(c: Clause, x: Literal)
    requires x !in c
    ensures Without(c, x) == c
  {
    if c != [] {
      assert c == [c[0]] + c[1..];
      WithoutAbsent(c[1..], x);
    }
  }

  lemma {:induction false} WithoutNoDuplicates(c: Clause, x: Literal)
    requires NoDuplicates(c)
    ensures NoDuplicates(Without(c, x))
  {
    if c != [] {
      WithoutNoDuplicates(c[1..], x);
      if c[0] != x {
        WithoutMember(c[1..], x, c[0]);
        assert c[0] !in c[1..] by {
          forall k | 0 <= k < |c[1..]| ensures c[1..][k] != c[0] {
            assert c[1..][k] == c[k + 1];
          }
        }
      }
    }
  }

  /** The position of the first occurrence of `x`. */
  function IndexOf(s: Clause, x: Literal): (k: nat)
    requires x in s
    ensures k < |s| && s[k] == x && x !in s[..k]
  {
    if s[0] == x then 0
    else
      assert s == [s[0]] + s[1..];
      var k := IndexOf(s[1..], x);
      assert s[..k + 1] == [s[0]] + s[1..][..k];
      k + 1
  }

  /** Python's `list.remove`: delete the first occurrence of `x`, and only it. */
  function RemoveFirst(s: Clause, x: Literal): (r: Clause)
    requires x in s
    ensures multiset(r) == multiset(s) - multiset{x}
  {
    var k := IndexOf(s, x);
    assert s == s[..k] + [x] + s[k + 1..];
    s[..k] + s[k + 1..]
  }

  lemma {:induction false} WithoutAppend(s: Clause, t: Clause, x: Literal)
    ensures Without(s + t, x) == Without(s, x) + Without(t, x)
  {
    if s == [] {
      assert s + t == t;
    } else {
      assert (s + t)[1..] == s[1..] + t;
      WithoutAppend(s[1..], t, x);
    }
  }

  /** Deleting the first occurrence of `x` does not change the clause with all
      occurrences of `x` deleted, which is what makes the deletion loop correct. */
  lemma RemoveFirstWithout(s: Clause, x: Literal)
    requires x in s
    ensures Without(RemoveFirst(s, x), x) == Without(s, x)
    ensures |RemoveFirst(s, x)| == |s| - 1
  {
    var k := IndexOf(s, x);
    assert s == s[..k] + s[k..];
    assert s[k..][1..] == s[k + 1..];
    WithoutAppend(s[..k], s[k..], x);
    WithoutAppend(s[..k], s[k + 1..], x);
  }

  /** The `while (var, not val) in clause_copy: clause_copy.remove(...)` loop
      of `update_formula`. */
  method RemoveAll(c: Clause, x: Literal) returns (r: Clause)
    ensures r == Without(c, x)
    ensures x !in r
  {
    r := c;
    while x in r
      invariant Without(r, x) == Without(c, x)
      decreases |r|
    {
      RemoveFirstWithout(r, x);
      r := RemoveFirst(r, x);
    }
    WithoutAbsent(r, x);
  }

  /** The result of `update_formula`, clause by clause in list order: a clause
      holding `l` is dropped, any other clause loses every `Negate(l)`, and the
      whole substitution is `None` at the first clause left empty. */
  function Substitute(f: Formula, l: Literal): Option<Formula>
  {
    if f == [] then Some([])
    else if l in f[0] then Substitute(f[1..], l)
    else
      var c := Without(f[0], Negate(l));
      if c == [] then None
      else match Substitute(f[1..], l)
        case None => None
        case Some(rest) => Some([c] + rest)
  }

  /** The clauses of `f` that do not contain `l`, in their order. */
  function Kept(f: Formula, l: Literal): Formula
  {
    if f == [] then []
    else if l in f[0] then Kept(f[1..], l)
    else [f[0]] + Kept(f[1..], l)
  }

  /** Prepends the clauses already built to the outcome for the rest of the formula. */
  ghost function Prefixed(done: Formula, rest: Option<Formula>): Option<Formula>
  {
    match rest
    case None => None
    case Some(r) => Some(done + r)
  }

  method UpdateFormula(f: Formula, l: Literal) returns (r: Option<Formula>)
    ensures r == Substitute(f, l)
  {
    var built: Formula := [];
    var i := 0;
    assert f[0..] == f;
    match Substitute(f, l) {
      case None =>
      case Some(r) => assert [] + r == r;
    }
    while i < |f|
      invariant 0 <= i <= |f|
      invariant Substitute(f, l) == Prefixed(built, Substitute(f[i..], l))
    {
      assert f[i..][1..] == f[i + 1..];
      var clause := f[i];
      if l in clause {
        i := i + 1;
        continue;
      }
      var copy := RemoveAll(clause, Negate(l));
      if copy == [] {
        return None;
      }
      match Substitute(f[i + 1..], l) {
        case None =>
        case Some(rest) => assert built + ([copy] + rest) == (built + [copy]) + rest;
      }
      built := built + [copy];
      i := i + 1;
    }
    assert built + [] == built;
    return Some(built);
  }

  /** `update_formula` returns `None` exactly when some clause without `l`
      consists only of copies of `Negate(l)`. */
  lemma {:induction false} SubstituteNone(f: Formula, l: Literal)
    ensures Substitute(f, l).None? <==>
            exists i :: 0 <= i < |f| && l !in f[i] && Without(f[i], Negate(l)) == []
  {
    if f != [] {
      SubstituteNone(f[1..], l);
      if exists i :: 0 <= i < |f[1..]| && l !in f[1..][i] && Without(f[1..][i], Negate(l)) == [] {
        var i :| 0 <= i < |f[1..]| && l !in f[1..][i] && Without(f[1..][i], Negate(l)) == [];
        assert f[i + 1] == f[1..][i];
      }
      if exists i :: 0 <= i < |f| && l !in f[i] && Without(f[i], Negate(l)) == [] {
        var i :| 0 <= i < |f| && l !in f[i] && Without(f[i], Negate(l)) == [];
        if i > 0 {
          assert f[1..][i - 1] == f[i];
        }
      }
    }
  }

  /** When it succeeds, `update_formula` keeps exactly the clauses without `l`,
      in order, each with every `Negate(l)` deleted. */
  lemma {:induction false} SubstituteSome(f: Formula, l: Literal)
    requires Substitute(f, l).Some?
    ensures |Substitute(f, l).value| == |Kept(f, l)|
    ensures forall k :: 0 <= k < |Kept(f, l)| ==>
              Substitute(f, l).value[k] == Without(Kept(f, l)[k], Negate(l))
  {
    if f != [] {
      SubstituteSome(f[1..], l);
    }
  }

  /** `Kept` holds the clauses of the formula that do not contain `l`, and only those. */
  lemma {:induction false} KeptMember(f: Formula, l: Literal, c: Clause)
    ensures c in Kept(f, l) <==> c in f && l !in c
  {
    if f != [] {
      KeptMember(f[1..], l, c);
      assert f == [f[0]] + f[1..];
    }
  }

  /** A successful substitution mentions the literal's variable in neither
      polarity, and no variable that the formula did not mention. */
  lemma {:induction false} SubstituteVars(f: Formula, l: Literal)
    requires Substitute(f, l).Some?
    ensures Vars(Substitute(f, l).value) <= Vars(f) - {l.variable}
  {
    if f != [] {
      SubstituteVars(f[1..], l);
      if l !in f[0] {
        var c := Without(f[0], Negate(l));
        var rest := Substitute(f[1..], l).value;
        assert ([c] + rest)[1..] == rest;
        forall y | y in c
          ensures y.variable in ClauseVars(f[0]) && y.variable != l.variable
        {
          WithoutMember(f[0], Negate(l), y);
          assert y.variable == l.variable ==> y == l || y == Negate(l);
        }
      }
    }
  }

  /** Under an assignment that makes `l` true, substituting `l` neither gains
      nor loses models: a successful result is satisfied exactly when the
      formula is, and a failure means the formula is not satisfied. */
  lemma {:induction false} SubstituteSat(f: Formula, l: Literal, a: Assignment)
    requires Holds(a, l)
    ensures Substitute(f, l).Some? ==> (Sat(a, Substitute(f, l).value) <==> Sat(a, f))
    ensures Substitute(f, l).None? ==> !Sat(a, f)
  {
    if f != [] {
      SubstituteSat(f[1..], l, a);
      assert f == [f[0]] + f[1..];
      SatAppend(a, [f[0]], f[1..]);
      if l !in f[0] {
        var c := Without(f[0], Negate(l));
        assert ClauseSat(a, c) <==> ClauseSat(a, f[0]) by {
          forall y ensures y in c <==> y in f[0] && y != Negate(l) {
            WithoutMember(f[0], Negate(l), y);
          }
        }
        match Substitute(f[1..], l) {
          case None =>
          case Some(rest) => SatAppend(a, [c], rest);
        }
      }
    }
  }

  /** Substitution keeps every clause free of repeated literals. */
  lemma {:induction false} SubstituteDuplicateFree(f: Formula, l: Literal)
    requires DuplicateFree(f)
    requires Substitute(f, l).Some?
    ensures DuplicateFree(Substitute(f, l).value)
  {
    if f != [] {
      assert f[0] in f;
      assert forall c :: c in f[1..] ==> c in f;
      SubstituteDuplicateFree(f[1..], l);
      if l !in f[0] {
        WithoutNoDuplicates(f[0], Negate(l));
      }
    }
  }

  /** If every clause has two or more distinct literals, no substitution fails. */
  lemma {:induction false} SubstituteWide(f: Formula, l: Literal)
    requires forall c :: c in f ==> |c| >= 2 && NoDuplicates(c)
    ensures Substitute(f, l).Some?
  {
    if f != [] {
      assert f[0] in f;
      assert forall c :: c in f[1..] ==> c in f;
      SubstituteWide(f[1..], l);
      var c := f[0];
      if l !in c {
        assert c[0] != c[1];
        var y := if c[0] != Negate(l) then c[0] else c[1];
        WithoutMember(c, Negate(l), y);
      }
    }
  }
}
