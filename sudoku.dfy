/** The top level of sudoku.py: `solve_sudoku` adds one unit clause per given
    cell to the rule formula and hands the result to the SAT solver. What the
    formula means (a filled grid that obeys the rules and keeps the givens),
    and what the board decoded from a model looks like, are proved here. */
module Sudoku {
  import opened Cnf
  import opened Encoder
  import opened Rules
  import opened Solver
  import opened Decoder

  /** One unit clause `[l]` per literal. */
  function Singletons(ls: seq<Literal>): Formula
  {
    seq(|ls|, i requires 0 <= i < |ls| => [ls[i]])
  }

  /** The formula `solve_sudoku` gives the solver: the rule formula followed
      by the unit clauses of the given cells. */
  function SudokuFormula(board: seq<seq<int>>): Formula
  {
    SudokuConstraints() + Singletons(CanonicalToCnfLiterals(board))
  }

  /** The model places every given digit in its cell. */
  ghost predicate KeepsGivens(a: Assignment, board: seq<seq<int>>)
  {
    forall r, c :: 0 <= r < |board| && 0 <= c < |board[r]| && board[r][c] != 0 ==>
      Holds(a, GivenLiteral(r, c, board[r][c]))
  }

  /** The formula has the 11988 rule clauses and one clause per given cell. */
  lemma SudokuFormulaLength(board: seq<seq<int>>)
    ensures |SudokuFormula(board)| == 11988 + |CanonicalToCnfLiterals(board)|
  {
    SudokuConstraintsLength();
  }

  /** No clause of the formula repeats a literal, so the solver's precondition holds. */
  lemma SudokuFormulaDuplicateFree(board: seq<seq<int>>)
    ensures DuplicateFree(SudokuFormula(board))
  {
    RulesDuplicateFree();
    var units := Singletons(CanonicalToCnfLiterals(board));
    assert forall cl :: cl in units ==> |cl| == 1;
    assert forall cl :: cl in SudokuFormula(board) ==> cl in SudokuConstraints() || cl in units;
  }

  /** On a well-formed board every variable of the formula is a cell-digit
      variable, so every model the solver returns can be decoded. */
  lemma SudokuFormulaVars(board: seq<seq<int>>)
    requires WellFormed(board)
    ensures forall v :: v in Vars(SudokuFormula(board)) ==> ValidVar(v)
  {
    var f := SudokuFormula(board);
    forall v | v in Vars(f)
      ensures ValidVar(v)
    {
      VarsMember(f, v);
      var cl, l :| cl in f && l in cl && l.variable == v;
      if cl in SudokuConstraints() {
        RuleClauses(cl);
      } else {
        GivenClauseVars(board, cl, l);
      }
    }
  }

  /** The variable of a given cell's unit clause is a cell-digit variable. */
  lemma GivenClauseVars(board: seq<seq<int>>, cl: Clause, l: Literal)
    requires WellFormed(board)
    requires cl in Singletons(CanonicalToCnfLiterals(board)) && l in cl
    ensures ValidVar(l.variable)
  {
    var givens := CanonicalToCnfLiterals(board);
    var i :| 0 <= i < |givens| && Singletons(givens)[i] == cl;
    assert l == givens[i];
    GivenLiteralsMember(board, l);
    var r, c :| 0 <= r < |board| && 0 <= c < |board[r]| && board[r][c] != 0 &&
                l == GivenLiteral(r, c, board[r][c]);
    VarDecode(r + 1, c + 1, board[r][c]);
    assert l.variable == Var(r + 1, c + 1, board[r][c]);
  }

  /** The unit clauses hold exactly when the model keeps the givens: this
      direction from the clauses to the givens. */
  lemma GivensSound(a: Assignment, board: seq<seq<int>>)
    requires Sat(a, Singletons(CanonicalToCnfLiterals(board)))
    ensures KeepsGivens(a, board)
  {
    var givens := CanonicalToCnfLiterals(board);
    forall r, c | 0 <= r < |board| && 0 <= c < |board[r]| && board[r][c] != 0
      ensures Holds(a, GivenLiteral(r, c, board[r][c]))
    {
      var l := GivenLiteral(r, c, board[r][c]);
      GivenLiteralsMember(board, l);
      var i :| 0 <= i < |givens| && givens[i] == l;
      assert Singletons(givens)[i] == [l];
      assert ClauseSat(a, [l]);
    }
  }

  /** The other direction: a model that keeps the givens satisfies their clauses. */
  lemma GivensComplete(a: Assignment, board: seq<seq<int>>)
    requires KeepsGivens(a, board)
    ensures Sat(a, Singletons(CanonicalToCnfLiterals(board)))
  {
    var givens := CanonicalToCnfLiterals(board);
    forall cl | cl in Singletons(givens)
      ensures ClauseSat(a, cl)
    {
      var i :| 0 <= i < |givens| && Singletons(givens)[i] == cl;
      var l := givens[i];
      GivenLiteralsMember(board, l);
      assert l in cl;
    }
  }

  /** A model of the formula is a filled Sudoku grid that keeps the givens. */
  lemma FormulaMeaning(board: seq<seq<int>>, a: Assignment)
    ensures Sat(a, SudokuFormula(board)) ==> SudokuModel(a) && KeepsGivens(a, board)
  {
    if Sat(a, SudokuFormula(board)) {
      SatAppend(a, SudokuConstraints(), Singletons(CanonicalToCnfLiterals(board)));
      RulesMeaning(a);
      GivensSound(a, board);
    }
  }

  /** Conversely, a total assignment that is a filled Sudoku grid keeping the
      givens is a model of the formula. */
  lemma FormulaComplete(board: seq<seq<int>>, a: Assignment)
    ensures Total(a) && SudokuModel(a) && KeepsGivens(a, board) ==> Sat(a, SudokuFormula(board))
  {
    if Total(a) && SudokuModel(a) && KeepsGivens(a, board) {
      RulesComplete(a);
      GivensComplete(a, board);
      SatAppend(a, SudokuConstraints(), Singletons(CanonicalToCnfLiterals(board)));
    }
  }

  /** A formula without a model leaves the puzzle without a solution. */
  lemma Unsolvable(board: seq<seq<int>>)
    requires forall a :: !Sat(a, SudokuFormula(board))
    ensures forall a :: !(Total(a) && SudokuModel(a) && KeepsGivens(a, board))
  {
    forall a
      ensures !(Total(a) && SudokuModel(a) && KeepsGivens(a, board))
    {
      FormulaComplete(board, a);
    }
  }

  /** Two equal givens in one row leave the formula without a model. */
  lemma ClashingGivens(board: seq<seq<int>>, r: int, c1: int, c2: int)
    requires WellFormed(board)
    requires 0 <= r < 9 && 0 <= c1 < c2 < 9 && board[r][c1] == board[r][c2] != 0
    ensures forall a :: !Sat(a, SudokuFormula(board))
  {
    forall a
      ensures !Sat(a, SudokuFormula(board))
    {
      FormulaMeaning(board, a);
      ClashAt(a, board, r, c1, c2);
    }
  }

  /** No filled grid keeps two equal givens of one row. */
  lemma ClashAt(a: Assignment, board: seq<seq<int>>, r: int, c1: int, c2: int)
    requires WellFormed(board)
    requires 0 <= r < 9 && 0 <= c1 < c2 < 9 && board[r][c1] == board[r][c2] != 0
    ensures !(SudokuModel(a) && KeepsGivens(a, board))
  {
    var x := board[r][c1];
    assert InRange(x);
    assert GivenLiteral(r, c1, x) == Literal(Var(r + 1, c1 + 1, x), true);
    assert GivenLiteral(r, c2, x) == Literal(Var(r + 1, c2 + 1, x), true);
    assert KeepsGivens(a, board) ==> Placed(a, r + 1, c1 + 1, x) && Placed(a, r + 1, c2 + 1, x);
    assert SudokuModel(a) ==> OncePerRow(a, x);
    assert OncePerRow(a, x) ==> RowSingle(a, x, r + 1);
    RowPair(a, x, r + 1, c1 + 1, c2 + 1);
  }

  /** The loop of `solve_sudoku` that appends `[literal]` for every given
      literal, in order. */
  method AppendUnits(formula: Formula, givens: seq<Literal>) returns (result: Formula)
    ensures result == formula + Singletons(givens)
  {
    result := formula;
    for i := 0 to |givens|
      invariant result == formula + Singletons(givens[..i])
    {
      assert Singletons(givens[..i + 1]) == Singletons(givens[..i]) + [[givens[i]]];
      result := result + [[givens[i]]];
    }
    assert givens[..|givens|] == givens;
  }

  /** `solve_sudoku(canonical)`: the rule formula, one unit clause per given
      cell, then the solver. */
  method SolveSudoku(board: seq<seq<int>>) returns (result: Option<Assignment>)
    ensures result.Some? ==> Sat(result.value, SudokuFormula(board))
    ensures result.Some? ==> SudokuModel(result.value) && KeepsGivens(result.value, board)
    ensures result.Some? ==> result.value.Keys <= Vars(SudokuFormula(board))
    ensures result.None? ==> forall a :: !Sat(a, SudokuFormula(board))
  {
    var formula := AppendUnits(SudokuConstraints(), CanonicalToCnfLiterals(board));
    SudokuFormulaDuplicateFree(board);
    result := SatSolver(formula, map[]);
    if result.Some? {
      FormulaMeaning(board, result.value);
    } else {
      NoModels(formula);
    }
  }

  /** Every entry of the grid is a digit. */
  ghost predicate Digits(g: array2<int>)
    reads g
  {
    forall r, c :: 0 <= r < g.Length0 && 0 <= c < g.Length1 ==> InRange(g[r, c])
  }

  /** No digit repeats within a row. */
  ghost predicate RowsDistinct(g: array2<int>)
    reads g
  {
    forall r, c1, c2 :: 0 <= r < g.Length0 && 0 <= c1 < c2 < g.Length1 ==> g[r, c1] != g[r, c2]
  }

  /** No digit repeats within a column. */
  ghost predicate ColumnsDistinct(g: array2<int>)
    reads g
  {
    forall r1, r2, c :: 0 <= r1 < r2 < g.Length0 && 0 <= c < g.Length1 ==> g[r1, c] != g[r2, c]
  }

  /** No digit repeats within a 3x3 square. */
  ghost predicate BoxesDistinct(g: array2<int>)
    reads g
  {
    forall r1, c1, r2, c2 ::
      (0 <= r1 < g.Length0 && 0 <= c1 < g.Length1 && 0 <= r2 < g.Length0 && 0 <= c2 < g.Length1 &&
       r1 / 3 == r2 / 3 && c1 / 3 == c2 / 3 && (r1 != r2 || c1 != c2)) ==> g[r1, c1] != g[r2, c2]
  }

  /** The grid agrees with every given cell of `board`. */
  ghost predicate KeepsBoard(g: array2<int>, board: seq<seq<int>>)
    reads g
  {
    forall r, c ::
      (0 <= r < g.Length0 && 0 <= c < g.Length1 && r < |board| && c < |board[r]| && board[r][c] != 0) ==>
        g[r, c] == board[r][c]
  }

  /** The cells of a 9x9 grid that `cnf_to_canonical` decodes from `a`. */
  ghost predicate DecodedFrom(g: array2<int>, a: Assignment)
    reads g
  {
    g.Length0 == 9 && g.Length1 == 9 &&
    forall r, c :: 0 <= r < 9 && 0 <= c < 9 ==> CellDecodes(a, r, c, g[r, c])
  }

  /** In a grid decoded from a Sudoku model, every cell holds the digit the
      model places there. */
  lemma DecodedCells(g: array2<int>, a: Assignment)
    requires DecodedFrom(g, a) && OneDigitPerCell(a)
    ensures Digits(g)
    ensures forall r, c :: 0 <= r < 9 && 0 <= c < 9 ==> Placed(a, r + 1, c + 1, g[r, c])
  {
    forall r, c | 0 <= r < 9 && 0 <= c < 9
      ensures InRange(g[r, c]) && Placed(a, r + 1, c + 1, g[r, c])
    {
      assert CellFilled(a, r + 1, c + 1);
      assert CellDecodes(a, r, c, g[r, c]);
    }
  }

  /** In a row where `d` occurs at most once, two cells do not both hold `d`. */
  lemma RowPair(a: Assignment, d: int, r: int, c1: int, c2: int)
    requires InRange(c1) && InRange(c2) && c1 != c2
    ensures !(RowSingle(a, d, r) && Placed(a, r, c1, d) && Placed(a, r, c2, d))
  {
  }

  /** In a column where `d` occurs at most once, two cells do not both hold `d`. */
  lemma ColumnPair(a: Assignment, d: int, r1: int, r2: int, c: int)
    requires InRange(r1) && InRange(r2) && r1 != r2
    ensures !(ColumnSingle(a, d, c) && Placed(a, r1, c, d) && Placed(a, r2, c, d))
  {
  }

  lemma DecodedRows(g: array2<int>, a: Assignment)
    requires g.Length0 == 9 && g.Length1 == 9 && forall d :: 1 <= d <= 9 ==> OncePerRow(a, d)
    requires forall r, c :: 0 <= r < 9 && 0 <= c < 9 ==> InRange(g[r, c]) && Placed(a, r + 1, c + 1, g[r, c])
    ensures RowsDistinct(g)
  {
    forall r, c1, c2 | 0 <= r < 9 && 0 <= c1 < c2 < 9
      ensures g[r, c1] != g[r, c2]
    {
      assert OncePerRow(a, g[r, c1]);
      RowPair(a, g[r, c1], r + 1, c1 + 1, c2 + 1);
    }
  }

  lemma DecodedColumns(g: array2<int>, a: Assignment)
    requires g.Length0 == 9 && g.Length1 == 9 && forall d :: 1 <= d <= 9 ==> OncePerColumn(a, d)
    requires forall r, c :: 0 <= r < 9 && 0 <= c < 9 ==> InRange(g[r, c]) && Placed(a, r + 1, c + 1, g[r, c])
    ensures ColumnsDistinct(g)
  {
    forall r1, r2, c | 0 <= r1 < r2 < 9 && 0 <= c < 9
      ensures g[r1, c] != g[r2, c]
    {
      assert OncePerColumn(a, g[r1, c]);
      ColumnPair(a, g[r1, c], r1 + 1, r2 + 1, c + 1);
    }
  }

  lemma DecodedBoxes(g: array2<int>, a: Assignment)
    requires g.Length0 == 9 && g.Length1 == 9 && forall d :: 1 <= d <= 9 ==> OncePerBox(a, d)
    requires forall r, c :: 0 <= r < 9 && 0 <= c < 9 ==> InRange(g[r, c]) && Placed(a, r + 1, c + 1, g[r, c])
    ensures BoxesDistinct(g)
  {
    forall r1, c1, r2, c2 |
        0 <= r1 < 9 && 0 <= c1 < 9 && 0 <= r2 < 9 && 0 <= c2 < 9 &&
        r1 / 3 == r2 / 3 && c1 / 3 == c2 / 3 && (r1 != r2 || c1 != c2)
      ensures g[r1, c1] != g[r2, c2]
    {
      assert Box(r1 + 1, c1 + 1) == Box(r2 + 1, c2 + 1);
      assert OncePerBox(a, g[r1, c1]);
    }
  }

  lemma DecodedGivens(g: array2<int>, a: Assignment, board: seq<seq<int>>)
    requires g.Length0 == 9 && g.Length1 == 9 && WellFormed(board)
    requires OneDigitPerCell(a) && KeepsGivens(a, board)
    requires forall r, c :: 0 <= r < 9 && 0 <= c < 9 ==> InRange(g[r, c]) && Placed(a, r + 1, c + 1, g[r, c])
    ensures KeepsBoard(g, board)
  {
    forall r, c | 0 <= r < 9 && 0 <= c < 9 && board[r][c] != 0
      ensures g[r, c] == board[r][c]
    {
      assert GivenLiteral(r, c, board[r][c]) == Literal(Var(r + 1, c + 1, board[r][c]), true);
      assert Holds(a, GivenLiteral(r, c, board[r][c]));
      assert InRange(board[r][c]) && Placed(a, r + 1, c + 1, board[r][c]);
      assert CellSingle(a, r + 1, c + 1);
    }
  }

  /** The board `cnf_to_canonical` decodes from a model of the formula is a
      solved Sudoku: every cell a digit, no digit twice in a row, column or
      square, and every given cell unchanged. */
  lemma DecodedSolution(g: array2<int>, a: Assignment, board: seq<seq<int>>)
    requires WellFormed(board) && Sat(a, SudokuFormula(board)) && DecodedFrom(g, a)
    ensures Digits(g) && RowsDistinct(g) && ColumnsDistinct(g) && BoxesDistinct(g)
    ensures KeepsBoard(g, board)
  {
    FormulaMeaning(board, a);
    DecodedCells(g, a);
    DecodedRows(g, a);
    DecodedColumns(g, a);
    DecodedBoxes(g, a);
    DecodedGivens(g, a, board);
  }
}
