/** Decoding a model back into a board (`cnf_to_canonical` in sudoku.py):
    every true variable writes its digit into its cell of a fresh 9x9 board of
    zeros; false variables are skipped. */
module Decoder {
  import opened Cnf
  import opened Encoder
  import opened Rules

  /** What cell `(r, c)` (0-based) of the decoded board may hold: 0 when the
      assignment places no digit there, otherwise one of the digits it places. */
  ghost predicate CellDecodes(a: Assignment, r: int, c: int, x: int)
  {
    (x == 0 && forall d :: InRange(d) ==> !Placed(a, r + 1, c + 1, d)) ||
    (InRange(x) && Placed(a, r + 1, c + 1, x))
  }

  /** The loop invariant of the decoder, for one cell, after the variables in
      `done` have been visited: 0 when none of them places a digit there. */
  ghost predicate CellSoFar(a: Assignment, done: set<int>, r: int, c: int, x: int)
  {
    (x == 0 && forall d :: InRange(d) && Var(r + 1, c + 1, d) in done ==> !Placed(a, r + 1, c + 1, d)) ||
    (InRange(x) && Placed(a, r + 1, c + 1, x))
  }

  /** Visiting variable `v` leaves every other cell's invariant intact. */
  lemma OtherCell(a: Assignment, done: set<int>, v: int, r: int, c: int, x: int)
    requires ValidVar(v) && 0 <= r < 9 && 0 <= c < 9
    requires CellSoFar(a, done, r, c, x)
    requires v in a
    requires !a[v] || r != v / 100 - 1 || c != v / 10 % 10 - 1
    ensures CellSoFar(a, done + {v}, r, c, x)
  {
    if x == 0 {
      forall d | InRange(d) && Var(r + 1, c + 1, d) in done + {v}
        ensures !Placed(a, r + 1, c + 1, d)
      {
        VarDecode(r + 1, c + 1, d);
      }
    }
  }

  /** `cnf_to_canonical(cnf)`. A map records no order, so `keys` lists the
      assignment's variables in the order the dictionary yields them; when the
      assignment places two digits in one cell, the board holds one of them. */
  method CnfToCanonical(a: Assignment, keys: seq<int>) returns (board: array2<int>)
    requires forall v :: v in a <==> v in keys
    requires forall v :: v in a ==> ValidVar(v)
    ensures fresh(board) && board.Length0 == 9 && board.Length1 == 9
    ensures forall r, c :: 0 <= r < 9 && 0 <= c < 9 ==> CellDecodes(a, r, c, board[r, c])
  {
    board := new int[9, 9]((_, _) => 0);
    var i := 0;
    while i < |keys|
      invariant 0 <= i <= |keys|
      invariant forall r, c :: 0 <= r < 9 && 0 <= c < 9 ==>
                  CellSoFar(a, set j | 0 <= j < i :: keys[j], r, c, board[r, c])
    {
      ghost var done := set j | 0 <= j < i :: keys[j];
      assert (set j | 0 <= j < i + 1 :: keys[j]) == done + {keys[i]};
      var variable := keys[i];
      if a[variable] {
        var value := variable % 10;  // the units digit names the digit
        var column := (variable / 10) % 10 - 1;
        var row := variable / 100 - 1;
        VarEncode(variable);
        forall r, c | 0 <= r < 9 && 0 <= c < 9 && (r != row || c != column)
          ensures CellSoFar(a, done + {variable}, r, c, board[r, c])
        {
          OtherCell(a, done, variable, r, c, board[r, c]);
        }
        board[row, column] := value;
      } else {
        forall r, c | 0 <= r < 9 && 0 <= c < 9
          ensures CellSoFar(a, done + {variable}, r, c, board[r, c])
        {
          OtherCell(a, done, variable, r, c, board[r, c]);
        }
      }
      i := i + 1;
    }
    ghost var done := set j | 0 <= j < |keys| :: keys[j];
    forall r, c | 0 <= r < 9 && 0 <= c < 9
      ensures CellDecodes(a, r, c, board[r, c])
    {
      assert CellSoFar(a, done, r, c, board[r, c]);
      forall d | InRange(d) && Placed(a, r + 1, c + 1, d)
        ensures Var(r + 1, c + 1, d) in done
      {
        var k :| 0 <= k < |keys| && keys[k] == Var(r + 1, c + 1, d);
      }
    }
  }
}
