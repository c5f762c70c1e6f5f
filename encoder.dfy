/** The CNF encoding of Sudoku in sudoku.py: variables, the literals of the
    given cells, the pairwise at-most-one clauses, the exactly-one groups for
    rows, columns, 3x3 squares and cells, and the fixed rule formula. */
module Encoder {
  import opened Cnf

  predicate InRange(x: int)
  {
    1 <= x <= 9
  }

  /** The variable "digit `digit` is in row `row`, column `col`", each counted from 1. */
  function Var(row: int, col: int, digit: int): int
  {
    row * 100 + col * 10 + digit
  }

  /** A variable whose three decimal digits (row, column, digit) are all in 1..9. */
  predicate ValidVar(v: int)
  {
    0 <= v && InRange(v / 100) && InRange(v / 10 % 10) && InRange(v % 10)
  }

  /** On the domain 1..9 a variable splits back into its row, column and digit,
      and every valid variable is built that way: the encoding is a bijection. */
  lemma VarDecode(row: int, col: int, digit: int)
    requires InRange(row) && InRange(col) && InRange(digit)
    ensures Var(row, col, digit) / 100 == row
    ensures Var(row, col, digit) / 10 % 10 == col
    ensures Var(row, col, digit) % 10 == digit
    ensures ValidVar(Var(row, col, digit))
  {
    var v := Var(row, col, digit);
    assert v / 10 == row * 10 + col;
    assert v / 100 == row;
  }

  lemma VarEncode(v: int)
    requires ValidVar(v)
    ensures Var(v / 100, v / 10 % 10, v % 10) == v
  {
    assert v / 10 % 10 == v / 10 - (v / 100) * 10;
  }

  /** `canonical_to_cnf_literals` on the cells of one row, `r` and `c` being
      the 0-based indices of the row and of the first of `cells`. */
  function RowLiterals(cells: seq<int>, r: int, c: int): seq<Literal>
  {
    if cells == [] then []
    else (if cells[0] != 0 then [Literal((r + 1) * 100 + (c + 1) * 10 + cells[0], true)] else [])
         + RowLiterals(cells[1..], r, c + 1)
  }

  /** `canonical_to_cnf_literals` on the rows from 0-based index `r` on. */
  function BoardLiterals(rows: seq<seq<int>>, r: int): seq<Literal>
  {
    if rows == [] then [] else RowLiterals(rows[0], r, 0) + BoardLiterals(rows[1..], r + 1)
  }

  /** `canonical_to_cnf_literals(canonical)`: a positive literal for every non-zero
      cell, in row-major order. */
  function CanonicalToCnfLiterals(board: seq<seq<int>>): seq<Literal>
  {
    BoardLiterals(board, 0)
  }

  /** The literal the given cell at 0-based `(r, c)` with value `x` yields. */
  function GivenLiteral(r: int, c: int, x: int): Literal
  {
    Literal((r + 1) * 100 + (c + 1) * 10 + x, true)
  }

  lemma {:induction false} RowLiteralsSound(cells: seq<int>, r: int, c0: int, l: Literal)
    requires l in RowLiterals(cells, r, c0)
    ensures exists c :: 0 <= c < |cells| && cells[c] != 0 && l == GivenLiteral(r, c0 + c, cells[c])
  {
    if cells[0] != 0 && l == GivenLiteral(r, c0, cells[0]) {
    } else {
      RowLiteralsSound(cells[1..], r, c0 + 1, l);
      var c :| 0 <= c < |cells[1..]| && cells[1..][c] != 0 &&
               l == GivenLiteral(r, c0 + 1 + c, cells[1..][c]);
      assert cells[c + 1] == cells[1..][c];
    }
  }

  lemma {:induction false} RowLiteralsComplete(cells: seq<int>, r: int, c0: int, c: int)
    requires 0 <= c < |cells| && cells[c] != 0
    ensures GivenLiteral(r, c0 + c, cells[c]) in RowLiterals(cells, r, c0)
  {
    if c > 0 {
      assert cells[1..][c - 1] == cells[c];
      RowLiteralsComplete(cells[1..], r, c0 + 1, c - 1);
    }
  }

  lemma {:induction false} BoardLiteralsSound(rows: seq<seq<int>>, r0: int, l: Literal)
    requires l in BoardLiterals(rows, r0)
    ensures exists r, c :: 0 <= r < |rows| && 0 <= c < |rows[r]| && rows[r][c] != 0 &&
                           l == GivenLiteral(r0 + r, c, rows[r][c])
  {
    if l in RowLiterals(rows[0], r0, 0) {
      RowLiteralsSound(rows[0], r0, 0, l);
      var c :| 0 <= c < |rows[0]| && rows[0][c] != 0 && l == GivenLiteral(r0, c, rows[0][c]);
      assert 0 <= 0 < |rows| && l == GivenLiteral(r0 + 0, c, rows[0][c]);
    } else {
      BoardLiteralsSound(rows[1..], r0 + 1, l);
      var r, c :| 0 <= r < |rows[1..]| && 0 <= c < |rows[1..][r]| && rows[1..][r][c] != 0 &&
                  l == GivenLiteral(r0 + 1 + r, c, rows[1..][r][c]);
      assert rows[r + 1] == rows[1..][r];
    }
  }

  lemma {:induction false} BoardLiteralsComplete(rows: seq<seq<int>>, r0: int, r: int, c: int)
    requires 0 <= r < |rows| && 0 <= c < |rows[r]| && rows[r][c] != 0
    ensures GivenLiteral(r0 + r, c, rows[r][c]) in BoardLiterals(rows, r0)
  {
    if r == 0 {
      RowLiteralsComplete(rows[0], r0, 0, c);
    } else {
      assert rows[1..][r - 1] == rows[r];
      BoardLiteralsComplete(rows[1..], r0 + 1, r - 1, c);
    }
  }

  /** The given-cell literals are exactly the literals
      `((r+1)*100 + (c+1)*10 + cell, True)` of the non-zero cells. */
  lemma GivenLiteralsMember(board: seq<seq<int>>, l: Literal)
    ensures l in CanonicalToCnfLiterals(board) <==>
            exists r, c :: 0 <= r < |board| && 0 <= c < |board[r]| && board[r][c] != 0 &&
                           l == GivenLiteral(r, c, board[r][c])
  {
    if l in CanonicalToCnfLiterals(board) {
      BoardLiteralsSound(board, 0, l);
    }
    if exists r, c :: 0 <= r < |board| && 0 <= c < |board[r]| && board[r][c] != 0 &&
                      l == GivenLiteral(r, c, board[r][c]) {
      var r, c :| 0 <= r < |board| && 0 <= c < |board[r]| && board[r][c] != 0 &&
                  l == GivenLiteral(r, c, board[r][c]);
      BoardLiteralsComplete(board, 0, r, c);
    }
  }

  /** A 9x9 board whose cells hold 0 (blank) or a digit. */
  predicate WellFormed(board: seq<seq<int>>)
  {
    |board| == 9 && forall r :: 0 <= r < 9 ==> |board[r]| == 9 && forall c :: 0 <= c < 9 ==> 0 <= board[r][c] <= 9
  }

  /** On a row of at most nine cells holding 0..9, every literal is positive
      with a valid variable inside the row's band, and the variables increase. */
  lemma {:induction false} RowLiteralsBounds(cells: seq<int>, r: int, c0: int)
    requires 0 <= r < 9
    requires 0 <= c0 && c0 + |cells| <= 9
    requires forall c :: 0 <= c < |cells| ==> 0 <= cells[c] <= 9
    ensures forall i :: 0 <= i < |RowLiterals(cells, r, c0)| ==>
              RowLiterals(cells, r, c0)[i].value && ValidVar(RowLiterals(cells, r, c0)[i].variable)
    ensures forall i :: 0 <= i < |RowLiterals(cells, r, c0)| ==>
              (r + 1) * 100 + (c0 + 1) * 10 < RowLiterals(cells, r, c0)[i].variable < (r + 1) * 100 + (c0 + |cells| + 1) * 10
    ensures forall i, j :: 0 <= i < j < |RowLiterals(cells, r, c0)| ==>
              RowLiterals(cells, r, c0)[i].variable < RowLiterals(cells, r, c0)[j].variable
  {
    if cells != [] {
      if cells[0] != 0 {
        VarDecode(r + 1, c0 + 1, cells[0]);
      }
      RowLiteralsBounds(cells[1..], r, c0 + 1);
    }
  }

  /** The same for the rows from 0-based index `r0` on, in row-major order. */
  lemma {:induction false} BoardLiteralsBounds(rows: seq<seq<int>>, r0: int)
    requires 0 <= r0 && r0 + |rows| <= 9
    requires forall r :: 0 <= r < |rows| ==> |rows[r]| <= 9 && forall c :: 0 <= c < |rows[r]| ==> 0 <= rows[r][c] <= 9
    ensures forall i :: 0 <= i < |BoardLiterals(rows, r0)| ==>
              BoardLiterals(rows, r0)[i].value && ValidVar(BoardLiterals(rows, r0)[i].variable)
    ensures forall i :: 0 <= i < |BoardLiterals(rows, r0)| ==>
              (r0 + 1) * 100 < BoardLiterals(rows, r0)[i].variable < (r0 + |rows| + 1) * 100
    ensures forall i, j :: 0 <= i < j < |BoardLiterals(rows, r0)| ==>
              BoardLiterals(rows, r0)[i].variable < BoardLiterals(rows, r0)[j].variable
  {
    if rows != [] {
      RowLiteralsBounds(rows[0], r0, 0);
      BoardLiteralsBounds(rows[1..], r0 + 1);
    }
  }

  /** On a well-formed board the given-cell literals are positive, have valid
      variables, and have strictly increasing variables, so no cell yields two
      literals and no literal is repeated. */
  lemma GivenLiteralsIncreasing(board: seq<seq<int>>)
    requires WellFormed(board)
    ensures forall i :: 0 <= i < |CanonicalToCnfLiterals(board)| ==>
              CanonicalToCnfLiterals(board)[i].value && ValidVar(CanonicalToCnfLiterals(board)[i].variable)
    ensures forall i, j :: 0 <= i < j < |CanonicalToCnfLiterals(board)| ==>
              CanonicalToCnfLiterals(board)[i].variable < CanonicalToCnfLiterals(board)[j].variable
  {
    BoardLiteralsBounds(board, 0);
  }

  /** `max_one` for one first variable: `[(x, False), (y, False)]` for each later `y`. */
  function Pairs(x: int, rest: seq<int>): Formula
  {
    seq(|rest|, k requires 0 <= k < |rest| => [Literal(x, false), Literal(rest[k], false)])
  }

  /** `max_one(variables)`: one clause "not both" per pair of positions i < j,
      ordered by i, then by j. */
  function MaxOne(vs: seq<int>): Formula
  {
    if vs == [] then [] else Pairs(vs[0], vs[1..]) + MaxOne(vs[1..])
  }

  /** The position of the clause for the pair (i, j) in `MaxOne` on n variables. */
  function PairIndex(n: int, i: int, j: int): int
  {
    i * n - i * (i + 1) / 2 + (j - i - 1)
  }

  /** `max_one` on n variables returns n(n-1)/2 clauses. */
  lemma {:induction false} MaxOneLength(vs: seq<int>)
    ensures |MaxOne(vs)| == |vs| * (|vs| - 1) / 2
  {
    if vs != [] {
      MaxOneLength(vs[1..]);
      var n := |vs|;
      assert n * (n - 1) == (n - 1) * (n - 2) + 2 * (n - 1);
    }
  }

  lemma PairIndexStep(n: int, i: int, j: int)
    ensures PairIndex(n, i, j) == (n - 1) + PairIndex(n - 1, i - 1, j - 1)
  {
    var p := (i - 1) * i;
    assert i * (i + 1) == p + 2 * i;
    assert (p + 2 * i) / 2 == p / 2 + i;
    assert i * n == (i - 1) * (n - 1) + (n - 1) + i;
  }

  /** The clause at `PairIndex(n, i, j)` is `[(vs[i], False), (vs[j], False)]`. */
  lemma {:induction false} MaxOneAt(vs: seq<int>, i: int, j: int)
    requires 0 <= i < j < |vs|
    ensures 0 <= PairIndex(|vs|, i, j) < |MaxOne(vs)|
    ensures MaxOne(vs)[PairIndex(|vs|, i, j)] == [Literal(vs[i], false), Literal(vs[j], false)]
  {
    var n := |vs|;
    if i == 0 {
      assert PairIndex(n, i, j) == j - 1;
    } else {
      MaxOneAt(vs[1..], i - 1, j - 1);
      PairIndexStep(n, i, j);
    }
  }

  /** Every clause of `max_one` is a "not both" clause for a pair i < j. */
  lemma {:induction false} MaxOneClauses(vs: seq<int>, cl: Clause)
    requires cl in MaxOne(vs)
    ensures exists i, j :: 0 <= i < j < |vs| && cl == [Literal(vs[i], false), Literal(vs[j], false)]
  {
    if cl in Pairs(vs[0], vs[1..]) {
      var k :| 0 <= k < |vs[1..]| && Pairs(vs[0], vs[1..])[k] == cl;
      assert cl == [Literal(vs[0], false), Literal(vs[k + 1], false)];
    } else {
      MaxOneClauses(vs[1..], cl);
      var i, j :| 0 <= i < j < |vs[1..]| && cl == [Literal(vs[1..][i], false), Literal(vs[1..][j], false)];
      assert cl == [Literal(vs[i + 1], false), Literal(vs[j + 1], false)];
    }
  }

  /** `[(var, True) for var in variables]`: at least one of them is true. */
  function AtLeastOne(vs: seq<int>): Clause
  {
    seq(|vs|, k requires 0 <= k < |vs| => Literal(vs[k], true))
  }

  /** The clauses every constraint group of sudoku.py is made of: `max_one`
      followed by the at-least-one clause. */
  function ExactlyOne(vs: seq<int>): Formula
  {
    MaxOne(vs) + [AtLeastOne(vs)]
  }

  /** No two positions hold the same variable. */
  predicate Distinct(vs: seq<int>)
  {
    forall i, j :: 0 <= i < j < |vs| ==> vs[i] != vs[j]
  }

  /** A group on n variables has n(n-1)/2 + 1 clauses, and its last one lists
      every variable positively. */
  lemma ExactlyOneLength(vs: seq<int>)
    ensures |ExactlyOne(vs)| == |vs| * (|vs| - 1) / 2 + 1
    ensures ExactlyOne(vs)[|ExactlyOne(vs)| - 1] == AtLeastOne(vs)
    ensures forall k :: 0 <= k < |vs| ==> AtLeastOne(vs)[k] == Literal(vs[k], true)
  {
    MaxOneLength(vs);
  }

  /** Every clause of a group mentions only the group's variables, and repeats
      no literal when the variables are distinct. */
  lemma ExactlyOneClauses(vs: seq<int>, cl: Clause)
    requires cl in ExactlyOne(vs)
    ensures forall l :: l in cl ==> l.variable in vs
    ensures Distinct(vs) ==> NoDuplicates(cl)
  {
    if cl in MaxOne(vs) {
      MaxOneClauses(vs, cl);
    }
  }

  /** What a group means under an assignment: satisfying it makes exactly one
      of the variables true; for an assignment that gives every variable of
      the group a value, the converse holds as well. */
  lemma ExactlyOneSat(a: Assignment, vs: seq<int>)
    ensures Sat(a, ExactlyOne(vs)) ==>
              (exists i :: 0 <= i < |vs| && Holds(a, Literal(vs[i], true))) &&
              (forall i, j :: 0 <= i < j < |vs| ==>
                 !(Holds(a, Literal(vs[i], true)) && Holds(a, Literal(vs[j], true))))
    ensures (forall i :: 0 <= i < |vs| ==> vs[i] in a) ==>
              (exists i :: 0 <= i < |vs| && Holds(a, Literal(vs[i], true))) &&
              (forall i, j :: 0 <= i < j < |vs| ==>
                 !(Holds(a, Literal(vs[i], true)) && Holds(a, Literal(vs[j], true)))) ==>
              Sat(a, ExactlyOne(vs))
  {
    var f := ExactlyOne(vs);
    assert AtLeastOne(vs) in f;
    if Sat(a, f) {
      assert ClauseSat(a, AtLeastOne(vs));
      var l :| l in AtLeastOne(vs) && Holds(a, l);
      var k :| 0 <= k < |vs| && AtLeastOne(vs)[k] == l;
      forall i, j | 0 <= i < j < |vs|
        ensures !(Holds(a, Literal(vs[i], true)) && Holds(a, Literal(vs[j], true)))
      {
        MaxOneAt(vs, i, j);
        assert MaxOne(vs)[PairIndex(|vs|, i, j)] in f;
      }
    }
    if (forall i :: 0 <= i < |vs| ==> vs[i] in a) &&
       (exists i :: 0 <= i < |vs| && Holds(a, Literal(vs[i], true))) &&
       (forall i, j :: 0 <= i < j < |vs| ==> !(Holds(a, Literal(vs[i], true)) && Holds(a, Literal(vs[j], true))))
    {
      forall cl | cl in f
        ensures ClauseSat(a, cl)
      {
        if cl in MaxOne(vs) {
          MaxOneClauses(vs, cl);
          var i, j :| 0 <= i < j < |vs| && cl == [Literal(vs[i], false), Literal(vs[j], false)];
          if !a[vs[i]] {
            assert Holds(a, cl[0]);
          } else {
            assert Holds(a, cl[1]);
          }
        } else {
          var i :| 0 <= i < |vs| && Holds(a, Literal(vs[i], true));
          assert AtLeastOne(vs)[i] in cl;
        }
      }
    }
  }

  /** The variables of `one_digit_this_row(digit, row)`: the column varies. */
  function RowVariables(digit: int, row: int): seq<int>
  {
    seq(9, k requires 0 <= k < 9 => row * 100 + (k + 1) * 10 + digit)
  }

  /** The variables of `one_digit_this_column(digit, column)`: the row varies. */
  function ColumnVariables(digit: int, column: int): seq<int>
  {
    seq(9, k requires 0 <= k < 9 => (k + 1) * 100 + column * 10 + digit)
  }

  /** The `SQUARES` table of `one_digit_this_square`: the variables, less the
      digit, of each 3x3 square, keyed by (square row, square column) in 1..3. */
  const SQUARES: map<(int, int), seq<int>> := map[
    (1, 1) := [110, 120, 130, 210, 220, 230, 310, 320, 330],
    (1, 2) := [140, 150, 160, 240, 250, 260, 340, 350, 360],
    (1, 3) := [170, 180, 190, 270, 280, 290, 370, 380, 390],
    (2, 1) := [410, 420, 430, 510, 520, 530, 610, 620, 630],
    (2, 2) := [440, 450, 460, 540, 550, 560, 640, 650, 660],
    (2, 3) := [470, 480, 490, 570, 580, 590, 670, 680, 690],
    (3, 1) := [710, 720, 730, 810, 820, 830, 910, 920, 930],
    (3, 2) := [740, 750, 760, 840, 850, 860, 940, 950, 960],
    (3, 3) := [770, 780, 790, 870, 880, 890, 970, 980, 990]
  ]

  /** The table holds exactly the nine squares, and entry k of square (sr, sc)
      is the cell at row 3(sr-1) + k/3 + 1, column 3(sc-1) + k%3 + 1. */
  lemma SquareTable(sr: int, sc: int, k: int)
    requires 1 <= sr <= 3 && 1 <= sc <= 3 && 0 <= k < 9
    ensures (sr, sc) in SQUARES && |SQUARES[(sr, sc)]| == 9
    ensures SQUARES[(sr, sc)][k] == Var(3 * (sr - 1) + k / 3 + 1, 3 * (sc - 1) + k % 3 + 1, 0)
  {
    assert k == 0 || k == 1 || k == 2 || k == 3 || k == 4 || k == 5 || k == 6 || k == 7 || k == 8;
  }

  lemma SquareKeys(square: (int, int))
    ensures square in SQUARES <==> 1 <= square.0 <= 3 && 1 <= square.1 <= 3
  {
  }

  /** The variables of `one_digit_this_square(digit, square)`. */
  function SquareVariables(digit: int, square: (int, int)): seq<int>
    requires square in SQUARES
  {
    var base := SQUARES[square];
    seq(|base|, k requires 0 <= k < |base| => base[k] + digit)
  }

  function OneDigitThisRow(digit: int, row: int): Formula
  {
    ExactlyOne(RowVariables(digit, row))
  }

  function OneDigitThisColumn(digit: int, column: int): Formula
  {
    ExactlyOne(ColumnVariables(digit, column))
  }

  function OneDigitThisSquare(digit: int, square: (int, int)): Formula
    requires square in SQUARES
  {
    ExactlyOne(SquareVariables(digit, square))
  }

  /** The variables of one cell in `sudoku_constraints`: the digit varies. */
  function CellVariables(row: int, col: int): seq<int>
  {
    seq(9, k requires 0 <= k < 9 => row * 100 + col * 10 + (k + 1))
  }

  /** The concatenation of a list of formulas (a run of `extend` calls). */
  function Flatten(fs: seq<Formula>): Formula
  {
    if fs == [] then [] else fs[0] + Flatten(fs[1..])
  }

  /** The square `(k/3 + 1, k%3 + 1)` is the k-th of the loop
      `for square_row in range(1, 4): for square_col in range(1, 4)`. */
  function SquareAt(k: int): (int, int)
  {
    (k / 3 + 1, k % 3 + 1)
  }

  /** `digit_constraints(digit)`: the groups of the nine rows, then of the nine
      columns, then of the nine squares. */
  function DigitConstraints(digit: int): Formula
  {
    Flatten(seq(9, k requires 0 <= k < 9 => OneDigitThisRow(digit, k + 1))) +
    Flatten(seq(9, k requires 0 <= k < 9 => OneDigitThisColumn(digit, k + 1))) +
    Flatten(seq(9, k requires 0 <= k < 9 => SquareKeys(SquareAt(k)); OneDigitThisSquare(digit, SquareAt(k))))
  }

  lemma {:induction false} FlattenLength(fs: seq<Formula>, n: int)
    requires forall k :: 0 <= k < |fs| ==> |fs[k]| == n
    ensures |Flatten(fs)| == n * |fs|
  {
    if fs != [] {
      FlattenLength(fs[1..], n);
    }
  }

  lemma {:induction false} FlattenMember(fs: seq<Formula>, cl: Clause)
    ensures cl in Flatten(fs) <==> exists k :: 0 <= k < |fs| && cl in fs[k]
  {
    if fs != [] {
      FlattenMember(fs[1..], cl);
      if exists k :: 0 <= k < |fs[1..]| && cl in fs[1..][k] {
        var k :| 0 <= k < |fs[1..]| && cl in fs[1..][k];
        assert fs[k + 1] == fs[1..][k];
      }
      if exists k :: 0 <= k < |fs| && cl in fs[k] {
        var k :| 0 <= k < |fs| && cl in fs[k];
        if k > 0 {
          assert fs[1..][k - 1] == fs[k];
        }
      }
    }
  }

  lemma {:induction false} FlattenSat(a: Assignment, fs: seq<Formula>)
    ensures Sat(a, Flatten(fs)) <==> forall k :: 0 <= k < |fs| ==> Sat(a, fs[k])
  {
    if fs != [] {
      FlattenSat(a, fs[1..]);
      SatAppend(a, fs[0], Flatten(fs[1..]));
      assert forall k :: 0 <= k < |fs[1..]| ==> fs[1..][k] == fs[k + 1];
    }
  }

  /** Each of the four kinds of group has nine variables, 37 clauses. */
  lemma GroupLength(vs: seq<int>)
    requires |vs| == 9
    ensures |ExactlyOne(vs)| == 37
  {
    ExactlyOneLength(vs);
  }

  /** `digit_constraints` returns 27 groups of 37 clauses. */
  lemma DigitConstraintsLength(digit: int)
    ensures |DigitConstraints(digit)| == 999
  {
    var rows := seq(9, k requires 0 <= k < 9 => OneDigitThisRow(digit, k + 1));
    var columns := seq(9, k requires 0 <= k < 9 => OneDigitThisColumn(digit, k + 1));
    var squares := seq(9, k requires 0 <= k < 9 => SquareKeys(SquareAt(k)); OneDigitThisSquare(digit, SquareAt(k)));
    forall k | 0 <= k < 9
      ensures |rows[k]| == 37 && |columns[k]| == 37 && |squares[k]| == 37
    {
      GroupLength(RowVariables(digit, k + 1));
      GroupLength(ColumnVariables(digit, k + 1));
      SquareTable(SquareAt(k).0, SquareAt(k).1, 0);
      GroupLength(SquareVariables(digit, SquareAt(k)));
    }
    FlattenLength(rows, 37);
    FlattenLength(columns, 37);
    FlattenLength(squares, 37);
  }

  /** A clause of `digit_constraints(digit)` comes from the group of a row,
      a column or a square. */
  lemma DigitConstraintsMember(digit: int, cl: Clause)
    requires cl in DigitConstraints(digit)
    ensures (exists i :: 1 <= i <= 9 && cl in ExactlyOne(RowVariables(digit, i))) ||
            (exists i :: 1 <= i <= 9 && cl in ExactlyOne(ColumnVariables(digit, i))) ||
            (exists k :: 0 <= k < 9 && SquareAt(k) in SQUARES && cl in ExactlyOne(SquareVariables(digit, SquareAt(k))))
  {
    var rows := seq(9, k requires 0 <= k < 9 => OneDigitThisRow(digit, k + 1));
    var columns := seq(9, k requires 0 <= k < 9 => OneDigitThisColumn(digit, k + 1));
    var squares := seq(9, k requires 0 <= k < 9 => SquareKeys(SquareAt(k)); OneDigitThisSquare(digit, SquareAt(k)));
    if cl in Flatten(rows) {
      FlattenMember(rows, cl);
      var k :| 0 <= k < 9 && cl in rows[k];
      assert cl in ExactlyOne(RowVariables(digit, k + 1));
    } else if cl in Flatten(columns) {
      FlattenMember(columns, cl);
      var k :| 0 <= k < 9 && cl in columns[k];
      assert cl in ExactlyOne(ColumnVariables(digit, k + 1));
    } else {
      FlattenMember(squares, cl);
      var k :| 0 <= k < 9 && cl in squares[k];
      SquareKeys(SquareAt(k));
      assert cl in ExactlyOne(SquareVariables(digit, SquareAt(k)));
    }
  }

  /** The nine row groups of `digit` are satisfied. */
  predicate RowsSat(a: Assignment, digit: int)
  {
    forall i :: 1 <= i <= 9 ==> Sat(a, ExactlyOne(RowVariables(digit, i)))
  }

  /** The nine column groups of `digit` are satisfied. */
  predicate ColumnsSat(a: Assignment, digit: int)
  {
    forall i :: 1 <= i <= 9 ==> Sat(a, ExactlyOne(ColumnVariables(digit, i)))
  }

  /** The nine square groups of `digit` are satisfied. */
  predicate SquaresSat(a: Assignment, digit: int)
  {
    forall k :: 0 <= k < 9 ==>
      SquareAt(k) in SQUARES && Sat(a, ExactlyOne(SquareVariables(digit, SquareAt(k))))
  }

  /** A model of `digit_constraints(digit)` satisfies each of its 27 groups. */
  lemma DigitConstraintsSat(a: Assignment, digit: int)
    requires Sat(a, DigitConstraints(digit))
    ensures RowsSat(a, digit)
    ensures ColumnsSat(a, digit)
    ensures SquaresSat(a, digit)
  {
    var rows := seq(9, k requires 0 <= k < 9 => OneDigitThisRow(digit, k + 1));
    var columns := seq(9, k requires 0 <= k < 9 => OneDigitThisColumn(digit, k + 1));
    var squares := seq(9, k requires 0 <= k < 9 => SquareKeys(SquareAt(k)); OneDigitThisSquare(digit, SquareAt(k)));
    SatAppend(a, Flatten(rows) + Flatten(columns), Flatten(squares));
    SatAppend(a, Flatten(rows), Flatten(columns));
    FlattenSat(a, rows);
    FlattenSat(a, columns);
    FlattenSat(a, squares);
    assert forall i :: 1 <= i <= 9 ==> rows[i - 1] == ExactlyOne(RowVariables(digit, i));
    assert forall i :: 1 <= i <= 9 ==> columns[i - 1] == ExactlyOne(ColumnVariables(digit, i));
    forall k | 0 <= k < 9
      ensures SquareAt(k) in SQUARES && Sat(a, ExactlyOne(SquareVariables(digit, SquareAt(k))))
    {
      SquareKeys(SquareAt(k));
      assert squares[k] == ExactlyOne(SquareVariables(digit, SquareAt(k)));
    }
  }

  /** The converse of `DigitConstraintsSat`: satisfying the 27 groups
      satisfies `digit_constraints(digit)`. */
  lemma DigitConstraintsFromGroups(a: Assignment, digit: int)
    requires RowsSat(a, digit)
    requires ColumnsSat(a, digit)
    requires SquaresSat(a, digit)
    ensures Sat(a, DigitConstraints(digit))
  {
    var rows := seq(9, k requires 0 <= k < 9 => OneDigitThisRow(digit, k + 1));
    var columns := seq(9, k requires 0 <= k < 9 => OneDigitThisColumn(digit, k + 1));
    var squares := seq(9, k requires 0 <= k < 9 => SquareKeys(SquareAt(k)); OneDigitThisSquare(digit, SquareAt(k)));
    assert forall k :: 0 <= k < 9 ==> rows[k] == ExactlyOne(RowVariables(digit, k + 1));
    assert forall k :: 0 <= k < 9 ==> columns[k] == ExactlyOne(ColumnVariables(digit, k + 1));
    assert forall k :: 0 <= k < 9 ==> squares[k] == ExactlyOne(SquareVariables(digit, SquareAt(k)));
    FlattenSat(a, rows);
    FlattenSat(a, columns);
    FlattenSat(a, squares);
    SatAppend(a, Flatten(rows), Flatten(columns));
    SatAppend(a, Flatten(rows) + Flatten(columns), Flatten(squares));
  }

  /** The clauses the digit loop of `sudoku_constraints` adds for digits
      `d` to 9. */
  function DigitsFrom(d: int): Formula
    decreases 10 - d
  {
    if d > 9 then [] else DigitConstraints(d) + DigitsFrom(d + 1)
  }

  /** The per-digit part of `sudoku_constraints`. */
  function DigitPart(): Formula
  {
    DigitsFrom(1)
  }

  lemma {:induction false} DigitsFromLength(d: int)
    requires 1 <= d <= 10
    ensures |DigitsFrom(d)| == 999 * (10 - d)
    decreases 10 - d
  {
    if d <= 9 {
      DigitConstraintsLength(d);
      DigitsFromLength(d + 1);
    }
  }

  lemma {:induction false} DigitsFromMember(d: int, cl: Clause)
    requires cl in DigitsFrom(d)
    ensures exists e :: d <= e <= 9 && cl in DigitConstraints(e)
    decreases 10 - d
  {
    if d <= 9 && cl !in DigitConstraints(d) {
      DigitsFromMember(d + 1, cl);
    }
  }

  lemma {:induction false} DigitsFromSound(a: Assignment, d: int)
    requires Sat(a, DigitsFrom(d))
    ensures forall e :: d <= e <= 9 ==> Sat(a, DigitConstraints(e))
    decreases 10 - d
  {
    if d <= 9 {
      SatAppend(a, DigitConstraints(d), DigitsFrom(d + 1));
      DigitsFromSound(a, d + 1);
      forall e | d <= e <= 9
        ensures Sat(a, DigitConstraints(e))
      {
        assert e == d || d + 1 <= e <= 9;
      }
    }
  }

  lemma {:induction false} DigitsFromComplete(a: Assignment, d: int)
    requires forall e :: d <= e <= 9 ==> Sat(a, DigitConstraints(e))
    ensures Sat(a, DigitsFrom(d))
    decreases 10 - d
  {
    if d <= 9 {
      DigitsFromComplete(a, d + 1);
      SatAppend(a, DigitConstraints(d), DigitsFrom(d + 1));
    }
  }

  /** The per-cell part of `sudoku_constraints`. */
  function CellPart(): Formula
  {
    Flatten(seq(81, k requires 0 <= k < 81 => ExactlyOne(CellVariables(k / 9 + 1, k % 9 + 1))))
  }

  lemma DigitPartLength()
    ensures |DigitPart()| == 8991
  {
    DigitsFromLength(1);
  }

  lemma CellPartLength()
    ensures |CellPart()| == 2997
  {
    var cells := seq(81, k requires 0 <= k < 81 => ExactlyOne(CellVariables(k / 9 + 1, k % 9 + 1)));
    forall k | 0 <= k < 81
      ensures |cells[k]| == 37
    {
      GroupLength(CellVariables(k / 9 + 1, k % 9 + 1));
    }
    FlattenLength(cells, 37);
  }

  lemma DigitPartMember(cl: Clause)
    requires cl in DigitPart()
    ensures exists d :: 1 <= d <= 9 && cl in DigitConstraints(d)
  {
    DigitsFromMember(1, cl);
  }

  lemma CellPartMember(cl: Clause)
    requires cl in CellPart()
    ensures exists r, c :: 1 <= r <= 9 && 1 <= c <= 9 && cl in ExactlyOne(CellVariables(r, c))
  {
    var cells := seq(81, k requires 0 <= k < 81 => ExactlyOne(CellVariables(k / 9 + 1, k % 9 + 1)));
    FlattenMember(cells, cl);
    var k :| 0 <= k < 81 && cl in cells[k];
    assert cl in ExactlyOne(CellVariables(k / 9 + 1, k % 9 + 1));
  }

  lemma DigitPartSat(a: Assignment)
    requires Sat(a, DigitPart())
    ensures forall d :: 1 <= d <= 9 ==> Sat(a, DigitConstraints(d))
  {
    DigitsFromSound(a, 1);
  }

  lemma CellPartSat(a: Assignment)
    requires Sat(a, CellPart())
    ensures forall r, c :: 1 <= r <= 9 && 1 <= c <= 9 ==> Sat(a, ExactlyOne(CellVariables(r, c)))
  {
    var cells := seq(81, k requires 0 <= k < 81 => ExactlyOne(CellVariables(k / 9 + 1, k % 9 + 1)));
    FlattenSat(a, cells);
    forall r, c | 1 <= r <= 9 && 1 <= c <= 9
      ensures Sat(a, ExactlyOne(CellVariables(r, c)))
    {
      var k := (r - 1) * 9 + (c - 1);
      assert k / 9 + 1 == r && k % 9 + 1 == c;
      assert cells[k] == ExactlyOne(CellVariables(r, c));
    }
  }

  /** The converse of `DigitPartSat`. */
  lemma DigitPartFromDigits(a: Assignment)
    requires forall d :: 1 <= d <= 9 ==> Sat(a, DigitConstraints(d))
    ensures Sat(a, DigitPart())
  {
    DigitsFromComplete(a, 1);
  }

  /** `sudoku_constraints()`: the digit constraints of digits 1..9, then the
      group of every cell in row-major order. */
  function SudokuConstraints(): Formula
  {
    DigitPart() + CellPart()
  }

  /** The rule formula has 9 * 27 * 37 + 81 * 37 = 11988 clauses. */
  lemma SudokuConstraintsLength()
    ensures |SudokuConstraints()| == 11988
  {
    DigitPartLength();
    CellPartLength();
  }
}
