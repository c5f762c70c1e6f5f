/** What the fixed rule formula of sudoku.py says: its clauses are
    well-formed (no repeated literal, every variable in the 1..9 domain), and
    a model of it places exactly one digit in every cell and each digit
    exactly once in every row, column and 3x3 square. */
module Rules {
  import opened Cnf
  import opened Encoder

  /** A model places `digit` at (`row`, `col`). */
  predicate Placed(a: Assignment, row: int, col: int, digit: int)
  {
    Holds(a, Literal(Var(row, col, digit), true))
  }

  /** The nine variables of a group are distinct and in the domain. */
  predicate GroupVariables(vs: seq<int>)
  {
    |vs| == 9 && Distinct(vs) && forall i :: 0 <= i < 9 ==> ValidVar(vs[i])
  }

  /** The k-th variable of the group of square (sr, sc) is that of the cell
      3(sr-1) + k/3 + 1, 3(sc-1) + k%3 + 1. */
  lemma SquareVariablesAt(digit: int, sr: int, sc: int, k: int)
    requires 1 <= sr <= 3 && 1 <= sc <= 3 && 0 <= k < 9
    ensures (sr, sc) in SQUARES && |SquareVariables(digit, (sr, sc))| == 9
    ensures SquareVariables(digit, (sr, sc))[k] ==
            Var(3 * (sr - 1) + k / 3 + 1, 3 * (sc - 1) + k % 3 + 1, digit)
  {
    SquareTable(sr, sc, k);
  }

  lemma RowGroup(digit: int, row: int)
    requires InRange(digit) && InRange(row)
    ensures GroupVariables(RowVariables(digit, row))
  {
    var vs := RowVariables(digit, row);
    forall i | 0 <= i < 9
      ensures vs[i] == Var(row, i + 1, digit) && ValidVar(vs[i])
    {
      VarDecode(row, i + 1, digit);
    }
    forall i, j | 0 <= i < j < 9
      ensures vs[i] != vs[j]
    {
      VarDecode(row, i + 1, digit);
      VarDecode(row, j + 1, digit);
    }
  }

  lemma ColumnGroup(digit: int, column: int)
    requires InRange(digit) && InRange(column)
    ensures GroupVariables(ColumnVariables(digit, column))
  {
    var vs := ColumnVariables(digit, column);
    forall i | 0 <= i < 9
      ensures vs[i] == Var(i + 1, column, digit) && ValidVar(vs[i])
    {
      VarDecode(i + 1, column, digit);
    }
    forall i, j | 0 <= i < j < 9
      ensures vs[i] != vs[j]
    {
      VarDecode(i + 1, column, digit);
      VarDecode(j + 1, column, digit);
    }
  }

  lemma CellGroup(row: int, col: int)
    requires InRange(row) && InRange(col)
    ensures GroupVariables(CellVariables(row, col))
  {
    var vs := CellVariables(row, col);
    forall i | 0 <= i < 9
      ensures vs[i] == Var(row, col, i + 1) && ValidVar(vs[i])
    {
      VarDecode(row, col, i + 1);
    }
    forall i, j | 0 <= i < j < 9
      ensures vs[i] != vs[j]
    {
      VarDecode(row, col, i + 1);
      VarDecode(row, col, j + 1);
    }
  }

  /** Distinct cells or digits in the domain give distinct variables. */
  lemma VarDistinct(r1: int, c1: int, d1: int, r2: int, c2: int, d2: int)
    requires InRange(r1) && InRange(c1) && InRange(d1)
    requires InRange(r2) && InRange(c2) && InRange(d2)
    requires r1 != r2 || c1 != c2 || d1 != d2
    ensures Var(r1, c1, d1) != Var(r2, c2, d2)
  {
    VarDecode(r1, c1, d1);
    VarDecode(r2, c2, d2);
  }

  /** Two positions of a square's group name two different cells. */
  lemma SquarePair(digit: int, sr: int, sc: int, i: int, j: int)
    requires InRange(digit) && 1 <= sr <= 3 && 1 <= sc <= 3 && 0 <= i < j < 9
    ensures (sr, sc) in SQUARES && |SquareVariables(digit, (sr, sc))| == 9
    ensures SquareVariables(digit, (sr, sc))[i] != SquareVariables(digit, (sr, sc))[j]
  {
    SquareVariablesAt(digit, sr, sc, i);
    SquareVariablesAt(digit, sr, sc, j);
    var r1, c1 := 3 * (sr - 1) + i / 3 + 1, 3 * (sc - 1) + i % 3 + 1;
    var r2, c2 := 3 * (sr - 1) + j / 3 + 1, 3 * (sc - 1) + j % 3 + 1;
    assert i / 3 != j / 3 || i % 3 != j % 3;
    VarDistinct(r1, c1, digit, r2, c2, digit);
  }

  lemma SquareGroup(digit: int, sr: int, sc: int)
    requires InRange(digit) && 1 <= sr <= 3 && 1 <= sc <= 3
    ensures (sr, sc) in SQUARES && GroupVariables(SquareVariables(digit, (sr, sc)))
  {
    SquareVariablesAt(digit, sr, sc, 0);
    var vs := SquareVariables(digit, (sr, sc));
    forall i | 0 <= i < 9
      ensures ValidVar(vs[i])
    {
      SquareVariablesAt(digit, sr, sc, i);
      VarDecode(3 * (sr - 1) + i / 3 + 1, 3 * (sc - 1) + i % 3 + 1, digit);
    }
    forall i, j | 0 <= i < j < 9
      ensures vs[i] != vs[j]
    {
      SquarePair(digit, sr, sc, i, j);
    }
  }

  /** A clause of a group of distinct domain variables is well-formed. */
  lemma GroupClause(vs: seq<int>, cl: Clause)
    requires GroupVariables(vs) && cl in ExactlyOne(vs)
    ensures NoDuplicates(cl) && forall l :: l in cl ==> ValidVar(l.variable)
  {
    ExactlyOneClauses(vs, cl);
  }

  /** A clause of one of the 27 groups of `digit_constraints(digit)` is well-formed. */
  lemma DigitConstraintsClause(digit: int, cl: Clause)
    requires InRange(digit) && cl in DigitConstraints(digit)
    ensures NoDuplicates(cl) && forall l :: l in cl ==> ValidVar(l.variable)
  {
    DigitConstraintsMember(digit, cl);
    if exists i :: 1 <= i <= 9 && cl in ExactlyOne(RowVariables(digit, i)) {
      var i :| 1 <= i <= 9 && cl in ExactlyOne(RowVariables(digit, i));
      RowGroup(digit, i);
      GroupClause(RowVariables(digit, i), cl);
    } else if exists i :: 1 <= i <= 9 && cl in ExactlyOne(ColumnVariables(digit, i)) {
      var i :| 1 <= i <= 9 && cl in ExactlyOne(ColumnVariables(digit, i));
      ColumnGroup(digit, i);
      GroupClause(ColumnVariables(digit, i), cl);
    } else {
      var k :| 0 <= k < 9 && SquareAt(k) in SQUARES && cl in ExactlyOne(SquareVariables(digit, SquareAt(k)));
      SquareGroup(digit, k / 3 + 1, k % 3 + 1);
      GroupClause(SquareVariables(digit, SquareAt(k)), cl);
    }
  }

  /** Every clause of `sudoku_constraints()` repeats no literal and mentions
      only variables whose row, column and digit are in 1..9. */
  lemma RuleClauses(cl: Clause)
    requires cl in SudokuConstraints()
    ensures NoDuplicates(cl)
    ensures forall l :: l in cl ==> ValidVar(l.variable)
  {
    if cl in DigitPart() {
      DigitPartMember(cl);
      var d :| 1 <= d <= 9 && cl in DigitConstraints(d);
      DigitConstraintsClause(d, cl);
    } else {
      CellPartMember(cl);
      var r, c :| 1 <= r <= 9 && 1 <= c <= 9 && cl in ExactlyOne(CellVariables(r, c));
      CellGroup(r, c);
      GroupClause(CellVariables(r, c), cl);
    }
  }

  /** No clause of `sudoku_constraints()` repeats a literal. */
  lemma RulesDuplicateFree()
    ensures DuplicateFree(SudokuConstraints())
  {
    forall cl | cl in SudokuConstraints()
      ensures NoDuplicates(cl)
    {
      RuleClauses(cl);
    }
  }

  /** What one satisfied group says: some variable of it is true, and no two
      positions hold true variables. */
  lemma GroupMeaning(a: Assignment, vs: seq<int>)
    requires Sat(a, ExactlyOne(vs))
    ensures exists i :: 0 <= i < |vs| && Holds(a, Literal(vs[i], true))
    ensures forall i, j ::
              (0 <= i < |vs| && 0 <= j < |vs| &&
               Holds(a, Literal(vs[i], true)) && Holds(a, Literal(vs[j], true))) ==> i == j
  {
    ExactlyOneSat(a, vs);
  }

  /** The square, numbered (1..3, 1..3), that holds a cell. */
  function Box(row: int, col: int): (int, int)
  {
    ((row - 1) / 3 + 1, (col - 1) / 3 + 1)
  }

  /** The position of a cell within its square's group. */
  function BoxPosition(row: int, col: int): int
  {
    3 * ((row - 1) % 3) + (col - 1) % 3
  }

  lemma BoxPositionAt(digit: int, row: int, col: int)
    requires InRange(row) && InRange(col)
    ensures 1 <= Box(row, col).0 <= 3 && 1 <= Box(row, col).1 <= 3
    ensures 0 <= BoxPosition(row, col) < 9
    ensures Box(row, col) in SQUARES &&
            SquareVariables(digit, Box(row, col))[BoxPosition(row, col)] == Var(row, col, digit)
  {
    var m := BoxPosition(row, col);
    assert m / 3 == (row - 1) % 3 && m % 3 == (col - 1) % 3;
    SquareVariablesAt(digit, Box(row, col).0, Box(row, col).1, m);
  }

  /** Within one square, a cell is determined by its position. */
  lemma BoxPositionInjective(r1: int, c1: int, r2: int, c2: int)
    requires InRange(r1) && InRange(c1) && InRange(r2) && InRange(c2)
    requires Box(r1, c1) == Box(r2, c2) && BoxPosition(r1, c1) == BoxPosition(r2, c2)
    ensures r1 == r2 && c1 == c2
  {
    var m := BoxPosition(r1, c1);
    assert (r1 - 1) % 3 == m / 3 == (r2 - 1) % 3;
    assert (c1 - 1) % 3 == m % 3 == (c2 - 1) % 3;
  }

  /** Every cell holds exactly one digit. */
  ghost predicate OneDigitPerCell(a: Assignment)
  {
    forall r, c :: 1 <= r <= 9 && 1 <= c <= 9 ==> CellFilled(a, r, c) && CellSingle(a, r, c)
  }

  /** Cell (r, c) holds some digit. */
  ghost predicate CellFilled(a: Assignment, r: int, c: int)
  {
    exists d :: InRange(d) && Placed(a, r, c, d)
  }

  /** Cell (r, c) holds at most one digit. */
  ghost predicate CellSingle(a: Assignment, r: int, c: int)
  {
    forall d1, d2 ::
      (InRange(d1) && InRange(d2) && Placed(a, r, c, d1) && Placed(a, r, c, d2)) ==> d1 == d2
  }

  /** `digit` occurs exactly once in every row. */
  ghost predicate OncePerRow(a: Assignment, digit: int)
  {
    forall r :: 1 <= r <= 9 ==> RowFilled(a, digit, r) && RowSingle(a, digit, r)
  }

  /** Some cell of row `r` holds `digit`. */
  ghost predicate RowFilled(a: Assignment, digit: int, r: int)
  {
    exists c :: InRange(c) && Placed(a, r, c, digit)
  }

  /** No two cells of row `r` both hold `digit`. */
  ghost predicate RowSingle(a: Assignment, digit: int, r: int)
  {
    forall c1, c2 ::
      (InRange(c1) && InRange(c2) && Placed(a, r, c1, digit) && Placed(a, r, c2, digit)) ==> c1 == c2
  }

  /** `digit` occurs exactly once in every column. */
  ghost predicate OncePerColumn(a: Assignment, digit: int)
  {
    forall c :: 1 <= c <= 9 ==> ColumnFilled(a, digit, c) && ColumnSingle(a, digit, c)
  }

  /** Some cell of column `c` holds `digit`. */
  ghost predicate ColumnFilled(a: Assignment, digit: int, c: int)
  {
    exists r :: InRange(r) && Placed(a, r, c, digit)
  }

  /** No two cells of column `c` both hold `digit`. */
  ghost predicate ColumnSingle(a: Assignment, digit: int, c: int)
  {
    forall r1, r2 ::
      (InRange(r1) && InRange(r2) && Placed(a, r1, c, digit) && Placed(a, r2, c, digit)) ==> r1 == r2
  }

  /** `digit` occurs in every 3x3 square. */
  ghost predicate InEveryBox(a: Assignment, digit: int)
  {
    forall sr, sc :: 1 <= sr <= 3 && 1 <= sc <= 3 ==> BoxFilled(a, digit, sr, sc)
  }

  /** No two cells of one 3x3 square both hold `digit`. */
  ghost predicate NoBoxRepeats(a: Assignment, digit: int)
  {
    forall r1, c1, r2, c2 ::
      (InRange(r1) && InRange(c1) && InRange(r2) && InRange(c2) && Box(r1, c1) == Box(r2, c2) &&
       Placed(a, r1, c1, digit) && Placed(a, r2, c2, digit)) ==> r1 == r2 && c1 == c2
  }

  /** `digit` occurs exactly once in every 3x3 square. */
  ghost predicate OncePerBox(a: Assignment, digit: int)
  {
    InEveryBox(a, digit) && NoBoxRepeats(a, digit)
  }

  /** The assignment describes a filled grid that obeys the rules of Sudoku. */
  ghost predicate SudokuModel(a: Assignment)
  {
    OneDigitPerCell(a) &&
    forall d :: 1 <= d <= 9 ==> OncePerRow(a, d) && OncePerColumn(a, d) && OncePerBox(a, d)
  }

  /** A model of the rule formula is a filled Sudoku grid: every cell holds
      exactly one digit, and every digit occurs exactly once in every row,
      every column and every 3x3 square. */
  lemma RulesMeaning(a: Assignment)
    requires Sat(a, SudokuConstraints())
    ensures SudokuModel(a)
  {
    SatAppend(a, DigitPart(), CellPart());
    DigitPartSat(a);
    CellPartSat(a);
    CellsMeaning(a);
    DigitsMeaning(a);
  }

  /** A model of `digit_constraints` of every digit places each digit once
      per row, column and square. */
  lemma DigitsMeaning(a: Assignment)
    requires forall d :: 1 <= d <= 9 ==> Sat(a, DigitConstraints(d))
    ensures forall d :: 1 <= d <= 9 ==> OncePerRow(a, d) && OncePerColumn(a, d) && OncePerBox(a, d)
  {
    forall d | InRange(d)
      ensures OncePerRow(a, d) && OncePerColumn(a, d) && OncePerBox(a, d)
    {
      DigitMeaning(a, d);
    }
  }

  /** A model of `digit_constraints(d)` places `d` once per row, column and square. */
  lemma DigitMeaning(a: Assignment, d: int)
    requires Sat(a, DigitConstraints(d))
    ensures OncePerRow(a, d) && OncePerColumn(a, d) && OncePerBox(a, d)
  {
    DigitConstraintsSat(a, d);
    RowsMeaning(a, d);
    ColumnsMeaning(a, d);
    SquaresMeaning(a, d);
  }

  lemma CellsMeaning(a: Assignment)
    requires forall r, c :: 1 <= r <= 9 && 1 <= c <= 9 ==> Sat(a, ExactlyOne(CellVariables(r, c)))
    ensures OneDigitPerCell(a)
  {
    forall r, c | InRange(r) && InRange(c)
      ensures CellFilled(a, r, c) && CellSingle(a, r, c)
    {
      var vs := CellVariables(r, c);
      GroupMeaning(a, vs);
      var i :| 0 <= i < 9 && Holds(a, Literal(vs[i], true));
      assert Placed(a, r, c, i + 1);
      forall d1, d2 | InRange(d1) && InRange(d2) && Placed(a, r, c, d1) && Placed(a, r, c, d2)
        ensures d1 == d2
      {
        assert vs[d1 - 1] == Var(r, c, d1) && vs[d2 - 1] == Var(r, c, d2);
      }
    }
  }

  lemma RowsMeaning(a: Assignment, d: int)
    requires RowsSat(a, d)
    ensures OncePerRow(a, d)
  {
    forall r | InRange(r)
      ensures RowFilled(a, d, r) && RowSingle(a, d, r)
    {
      var vs := RowVariables(d, r);
      GroupMeaning(a, vs);
      var i :| 0 <= i < 9 && Holds(a, Literal(vs[i], true));
      assert Placed(a, r, i + 1, d);
      forall c1, c2 | InRange(c1) && InRange(c2) && Placed(a, r, c1, d) && Placed(a, r, c2, d)
        ensures c1 == c2
      {
        assert vs[c1 - 1] == Var(r, c1, d) && vs[c2 - 1] == Var(r, c2, d);
      }
    }
  }

  lemma ColumnsMeaning(a: Assignment, d: int)
    requires ColumnsSat(a, d)
    ensures OncePerColumn(a, d)
  {
    forall c | InRange(c)
      ensures ColumnFilled(a, d, c) && ColumnSingle(a, d, c)
    {
      var vs := ColumnVariables(d, c);
      GroupMeaning(a, vs);
      var i :| 0 <= i < 9 && Holds(a, Literal(vs[i], true));
      assert Placed(a, i + 1, c, d);
      forall r1, r2 | InRange(r1) && InRange(r2) && Placed(a, r1, c, d) && Placed(a, r2, c, d)
        ensures r1 == r2
      {
        assert vs[r1 - 1] == Var(r1, c, d) && vs[r2 - 1] == Var(r2, c, d);
      }
    }
  }

  /** Some cell of square (sr, sc) holds `digit`. */
  ghost predicate BoxFilled(a: Assignment, digit: int, sr: int, sc: int)
  {
    exists r, c :: InRange(r) && InRange(c) && Box(r, c) == (sr, sc) && Placed(a, r, c, digit)
  }

  /** No two cells of square (sr, sc) both hold `digit`. */
  ghost predicate BoxSingle(a: Assignment, digit: int, sr: int, sc: int)
  {
    forall r1, c1, r2, c2 ::
      (InRange(r1) && InRange(c1) && InRange(r2) && InRange(c2) &&
       Box(r1, c1) == (sr, sc) && Box(r2, c2) == (sr, sc) &&
       Placed(a, r1, c1, digit) && Placed(a, r2, c2, digit)) ==> r1 == r2 && c1 == c2
  }

  /** A satisfied square group places its digit exactly once in the square. */
  lemma BoxMeaning(a: Assignment, d: int, sr: int, sc: int)
    requires 1 <= sr <= 3 && 1 <= sc <= 3
    requires (sr, sc) in SQUARES && Sat(a, ExactlyOne(SquareVariables(d, (sr, sc))))
    ensures BoxFilled(a, d, sr, sc) && BoxSingle(a, d, sr, sc)
  {
    var vs := SquareVariables(d, (sr, sc));
    GroupMeaning(a, vs);
    var m :| 0 <= m < |vs| && Holds(a, Literal(vs[m], true));
    var r, c := BoxCell(d, sr, sc, m);
    assert Placed(a, r, c, d);
    forall r1, c1, r2, c2 |
        InRange(r1) && InRange(c1) && InRange(r2) && InRange(c2) &&
        Box(r1, c1) == (sr, sc) && Box(r2, c2) == (sr, sc) &&
        Placed(a, r1, c1, d) && Placed(a, r2, c2, d)
      ensures r1 == r2 && c1 == c2
    {
      BoxPositionAt(d, r1, c1);
      BoxPositionAt(d, r2, c2);
      BoxPositionInjective(r1, c1, r2, c2);
    }
  }

  /** The cell at position `m` of square (sr, sc). */
  lemma BoxCell(d: int, sr: int, sc: int, m: int) returns (r: int, c: int)
    requires 1 <= sr <= 3 && 1 <= sc <= 3 && 0 <= m < 9
    ensures InRange(r) && InRange(c) && Box(r, c) == (sr, sc)
    ensures (sr, sc) in SQUARES && |SquareVariables(d, (sr, sc))| == 9
    ensures SquareVariables(d, (sr, sc))[m] == Var(r, c, d)
  {
    SquareVariablesAt(d, sr, sc, m);
    r, c := 3 * (sr - 1) + m / 3 + 1, 3 * (sc - 1) + m % 3 + 1;
  }

  lemma SquaresMeaning(a: Assignment, d: int)
    requires SquaresSat(a, d)
    ensures OncePerBox(a, d)
  {
    forall sr, sc | 1 <= sr <= 3 && 1 <= sc <= 3
      ensures BoxFilled(a, d, sr, sc) && BoxSingle(a, d, sr, sc)
    {
      SquareAtBox(sr, sc);
      BoxMeaning(a, d, sr, sc);
    }
    BoxesOnce(a, d);
  }

  /** Exactly once in each of the nine squares is exactly once per square. */
  lemma BoxesOnce(a: Assignment, d: int)
    requires forall sr, sc :: 1 <= sr <= 3 && 1 <= sc <= 3 ==>
               BoxFilled(a, d, sr, sc) && BoxSingle(a, d, sr, sc)
    ensures OncePerBox(a, d)
  {
    forall r1, c1, r2, c2 |
        InRange(r1) && InRange(c1) && InRange(r2) && InRange(c2) && Box(r1, c1) == Box(r2, c2) &&
        Placed(a, r1, c1, d) && Placed(a, r2, c2, d)
      ensures r1 == r2 && c1 == c2
    {
      assert BoxSingle(a, d, Box(r1, c1).0, Box(r1, c1).1);
    }
  }

  /** Square (sr, sc) is the ((sr-1)*3 + (sc-1))-th of `digit_constraints`. */
  lemma SquareAtBox(sr: int, sc: int)
    requires 1 <= sr <= 3 && 1 <= sc <= 3
    ensures 0 <= (sr - 1) * 3 + (sc - 1) < 9 && SquareAt((sr - 1) * 3 + (sc - 1)) == (sr, sc)
  {
  }

  /** Every variable of the 9x9x9 domain has a value. */
  ghost predicate Total(a: Assignment)
  {
    forall r, c, d :: 1 <= r <= 9 && 1 <= c <= 9 && 1 <= d <= 9 ==> Var(r, c, d) in a
  }

  /** The converse of `GroupMeaning`, for an assignment that gives every
      variable of the group a value. */
  lemma GroupComplete(a: Assignment, vs: seq<int>)
    requires forall k :: 0 <= k < |vs| ==> vs[k] in a
    requires exists k :: 0 <= k < |vs| && Holds(a, Literal(vs[k], true))
    requires forall k1, k2 :: 0 <= k1 < k2 < |vs| ==>
               !(Holds(a, Literal(vs[k1], true)) && Holds(a, Literal(vs[k2], true)))
    ensures Sat(a, ExactlyOne(vs))
  {
    ExactlyOneSat(a, vs);
  }

  /** The converse of `RowsMeaning` for one row: a total assignment that
      places `d` exactly once in row `i` satisfies that row's group. */
  lemma RowComplete(a: Assignment, d: int, i: int)
    requires Total(a) && RowFilled(a, d, i) && RowSingle(a, d, i)
    requires InRange(d) && InRange(i)
    ensures Sat(a, ExactlyOne(RowVariables(d, i)))
  {
    var vs := RowVariables(d, i);
    var c :| InRange(c) && Placed(a, i, c, d);
    assert vs[c - 1] == Var(i, c, d);
    forall k1, k2 | 0 <= k1 < k2 < 9
      ensures !(Holds(a, Literal(vs[k1], true)) && Holds(a, Literal(vs[k2], true)))
    {
      assert vs[k1] == Var(i, k1 + 1, d) && vs[k2] == Var(i, k2 + 1, d);
      assert !(Placed(a, i, k1 + 1, d) && Placed(a, i, k2 + 1, d));
    }
    forall k | 0 <= k < 9
      ensures vs[k] in a
    {
      assert vs[k] == Var(i, k + 1, d);
    }
    GroupComplete(a, vs);
  }

  /** The same for column `i`. */
  lemma ColumnComplete(a: Assignment, d: int, i: int)
    requires Total(a) && ColumnFilled(a, d, i) && ColumnSingle(a, d, i)
    requires InRange(d) && InRange(i)
    ensures Sat(a, ExactlyOne(ColumnVariables(d, i)))
  {
    var vs := ColumnVariables(d, i);
    var r :| InRange(r) && Placed(a, r, i, d);
    assert vs[r - 1] == Var(r, i, d);
    forall k1, k2 | 0 <= k1 < k2 < 9
      ensures !(Holds(a, Literal(vs[k1], true)) && Holds(a, Literal(vs[k2], true)))
    {
      assert vs[k1] == Var(k1 + 1, i, d) && vs[k2] == Var(k2 + 1, i, d);
      assert !(Placed(a, k1 + 1, i, d) && Placed(a, k2 + 1, i, d));
    }
    forall k | 0 <= k < 9
      ensures vs[k] in a
    {
      assert vs[k] == Var(k + 1, i, d);
    }
    GroupComplete(a, vs);
  }

  /** The same for the group of cell (r, c). */
  lemma CellComplete(a: Assignment, r: int, c: int)
    requires Total(a) && CellFilled(a, r, c) && CellSingle(a, r, c)
    requires InRange(r) && InRange(c)
    ensures Sat(a, ExactlyOne(CellVariables(r, c)))
  {
    var vs := CellVariables(r, c);
    var d :| InRange(d) && Placed(a, r, c, d);
    assert vs[d - 1] == Var(r, c, d);
    forall k1, k2 | 0 <= k1 < k2 < 9
      ensures !(Holds(a, Literal(vs[k1], true)) && Holds(a, Literal(vs[k2], true)))
    {
      assert vs[k1] == Var(r, c, k1 + 1) && vs[k2] == Var(r, c, k2 + 1);
      assert !(Placed(a, r, c, k1 + 1) && Placed(a, r, c, k2 + 1));
    }
    forall k | 0 <= k < 9
      ensures vs[k] in a
    {
      assert vs[k] == Var(r, c, k + 1);
    }
    GroupComplete(a, vs);
  }

  /** The same for the group of square (sr, sc). */
  lemma SquareComplete(a: Assignment, d: int, sr: int, sc: int)
    requires Total(a) && BoxFilled(a, d, sr, sc) && BoxSingle(a, d, sr, sc)
    requires InRange(d) && 1 <= sr <= 3 && 1 <= sc <= 3
    ensures (sr, sc) in SQUARES && Sat(a, ExactlyOne(SquareVariables(d, (sr, sc))))
  {
    var vs := SquareVariables(d, (sr, sc));
    var r, c :| InRange(r) && InRange(c) && Box(r, c) == (sr, sc) && Placed(a, r, c, d);
    BoxPositionAt(d, r, c);
    forall k1, k2 | 0 <= k1 < k2 < 9
      ensures !(Holds(a, Literal(vs[k1], true)) && Holds(a, Literal(vs[k2], true)))
    {
      var r1, c1 := BoxCell(d, sr, sc, k1);
      var r2, c2 := BoxCell(d, sr, sc, k2);
      SquarePair(d, sr, sc, k1, k2);
      assert !(Placed(a, r1, c1, d) && Placed(a, r2, c2, d));
    }
    forall k | 0 <= k < 9
      ensures vs[k] in a
    {
      var r1, c1 := BoxCell(d, sr, sc, k);
    }
    GroupComplete(a, vs);
  }

  /** `digit_constraints(d)` holds in a total assignment that places `d`
      once per row, column and square. */
  lemma DigitComplete(a: Assignment, d: int)
    requires Total(a) && OncePerRow(a, d) && OncePerColumn(a, d) && OncePerBox(a, d)
    requires InRange(d)
    ensures Sat(a, DigitConstraints(d))
  {
    RowsComplete(a, d);
    ColumnsComplete(a, d);
    SquaresComplete(a, d);
    DigitConstraintsFromGroups(a, d);
  }

  /** The converse of `RowsMeaning`, for a total assignment. */
  lemma RowsComplete(a: Assignment, d: int)
    requires Total(a) && OncePerRow(a, d) && InRange(d)
    ensures RowsSat(a, d)
  {
    forall i | 1 <= i <= 9
      ensures Sat(a, ExactlyOne(RowVariables(d, i)))
    {
      RowComplete(a, d, i);
    }
  }

  /** The converse of `ColumnsMeaning`, for a total assignment. */
  lemma ColumnsComplete(a: Assignment, d: int)
    requires Total(a) && OncePerColumn(a, d) && InRange(d)
    ensures ColumnsSat(a, d)
  {
    forall i | 1 <= i <= 9
      ensures Sat(a, ExactlyOne(ColumnVariables(d, i)))
    {
      ColumnComplete(a, d, i);
    }
  }

  /** The converse of `SquaresMeaning`, for a total assignment. */
  lemma SquaresComplete(a: Assignment, d: int)
    requires Total(a) && OncePerBox(a, d) && InRange(d)
    ensures SquaresSat(a, d)
  {
    forall k | 0 <= k < 9
      ensures SquareAt(k) in SQUARES && Sat(a, ExactlyOne(SquareVariables(d, SquareAt(k))))
    {
      BoxRepeats(a, d, k / 3 + 1, k % 3 + 1);
      SquareComplete(a, d, k / 3 + 1, k % 3 + 1);
    }
  }

  /** `NoBoxRepeats` restricted to one square. */
  lemma BoxRepeats(a: Assignment, d: int, sr: int, sc: int)
    requires NoBoxRepeats(a, d)
    ensures BoxSingle(a, d, sr, sc)
  {
  }

  /** The digit half of the rule formula holds in a total Sudoku model. */
  lemma DigitPartComplete(a: Assignment)
    requires Total(a)
    requires forall d :: 1 <= d <= 9 ==> OncePerRow(a, d) && OncePerColumn(a, d) && OncePerBox(a, d)
    ensures Sat(a, DigitPart())
  {
    forall d | 1 <= d <= 9
      ensures Sat(a, DigitConstraints(d))
    {
      DigitComplete(a, d);
    }
    DigitPartFromDigits(a);
  }

  /** The cell half of the rule formula holds in a total Sudoku model. */
  lemma CellPartComplete(a: Assignment)
    requires Total(a) && OneDigitPerCell(a)
    ensures Sat(a, CellPart())
  {
    forall cl | cl in CellPart()
      ensures ClauseSat(a, cl)
    {
      CellPartMember(cl);
      var r, c :| 1 <= r <= 9 && 1 <= c <= 9 && cl in ExactlyOne(CellVariables(r, c));
      CellComplete(a, r, c);
    }
  }

  /** The converse of `RulesMeaning`: an assignment that gives every variable
      a value and describes a filled Sudoku grid satisfies the rule formula. */
  lemma RulesComplete(a: Assignment)
    requires Total(a) && SudokuModel(a)
    ensures Sat(a, SudokuConstraints())
  {
    DigitPartComplete(a);
    CellPartComplete(a);
    SatAppend(a, DigitPart(), CellPart());
  }
}
