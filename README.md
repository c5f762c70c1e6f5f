# Sudoku as SAT, in Dafny

This project models the core of a small Sudoku solver, `sudoku.py`. The solver
works in three steps:

- It encodes the puzzle as a propositional formula in conjunctive normal form
  (CNF). Variable `100 * row + 10 * column + digit` means "this digit is in this
  cell". Rows, columns and digits count from 1.
- It solves the formula with a recursive DPLL procedure that does unit
  propagation and then branches on a literal.
- It decodes the satisfying assignment back into a 9×9 board.

The modules follow the source's functions:

- `Cnf`: literals, clauses, formulas, partial assignments (`map<int, bool>`) and their meaning.
  - `Sat(a, f)`: every clause has a literal that `a` makes true.
  - `Models(a, base, f)`: `a` extends `base` and satisfies `f`.
- `Encoder`: pure functions.
  - `canonical_to_cnf_literals` is `CanonicalToCnfLiterals`.
  - `max_one` is `MaxOne`.
  - `one_digit_this_row`, `one_digit_this_column` and `one_digit_this_square` are `OneDigitThisRow`, `OneDigitThisColumn` and `OneDigitThisSquare`, with the literal `SQUARES` table.
  - `digit_constraints` is `DigitConstraints`.
  - `sudoku_constraints` is `SudokuConstraints`.
  - These are proved correct by clause count, by membership and by satisfaction.
- `Rules`: what satisfying the encoding means for a Sudoku, in both directions.
  - The statement is `SudokuModel`: one digit per cell, and each digit once per row, column and box.
  - Every clause has no repeated literal and only valid variables.
- `Substitution`: `update_formula`.
  - `Substitute` is the reference definition.
  - `UpdateFormula` is the clause loop, proved equal to it.
  - `RemoveAll` is the inner `while … remove` loop.
- `Solver`: `sat_solver` as a recursive method.
  - `PropagateUnits` is its propagation loop.
  - It is proved sound: a returned assignment extends the initial one and satisfies the formula.
  - It is proved complete: `None` only when no assignment does.
- `Decoder`: `cnf_to_canonical`, writing into a fresh `array2<int>`.
- `Sudoku`: `solve_sudoku`, and the end-to-end facts about the board the decoder produces.

## Model

| member | source | states |
|---|---|---|
| Cnf.VarsMember | sudoku.py:215-224 | a variable occurs in a formula iff some literal of some clause mentions it |
| Cnf.SatAppend | sudoku.py:281-282 | an assignment satisfies `f + g` iff it satisfies both parts, so appending clauses only adds constraints |
| Cnf.SatUnassigned | sudoku.py:261-262 | giving a value to a variable that was unassigned keeps every satisfied formula satisfied |
| Cnf.NoModels | sudoku.py:225-226 | when no assignment extends the empty initial one `{}` and satisfies `f`, then no assignment at all satisfies `f` |
| Encoder.VarDecode | sudoku.py:47-49 | for row, column and digit in 1..9, `v // 100`, `v // 10 % 10` and `v % 10` recover the row, column and digit of the variable |
| Encoder.VarEncode | sudoku.py:47-49 | every valid variable is the encoding of its own three decimal digits |
| Encoder.RowLiteralsSound | sudoku.py:63-65 | every literal produced for a row comes from a non-zero cell at its column |
| Encoder.RowLiteralsComplete | sudoku.py:63-65 | every non-zero cell of a row produces its literal |
| Encoder.BoardLiteralsSound | sudoku.py:62-65 | every literal produced for the board comes from a non-zero cell |
| Encoder.BoardLiteralsComplete | sudoku.py:62-65 | every non-zero cell of the board produces its literal |
| Encoder.CanonicalToCnfLiterals | sudoku.py:52-66 | the literals of the given cells in row-major order; what they are is stated by `GivenLiteralsMember` (exactly the non-zero cells) and `GivenLiteralsIncreasing` (positive, valid, strictly increasing) |
| Encoder.GivenLiteralsMember | sudoku.py:52-66 | a literal is yielded iff it is `((r+1)*100 + (c+1)*10 + cell, True)` for a non-zero cell at `(r, c)` |
| Encoder.RowLiteralsBounds | sudoku.py:63-65 | on row 0..8, for at most 9 cells with values 0..9, every literal is positive with a valid variable inside the row's band, and the variables strictly increase |
| Encoder.BoardLiteralsBounds | sudoku.py:62-65 | the same for rows starting at index `r0` and ending by row 8, in row-major order: every literal positive with a valid variable, variables strictly increasing |
| Encoder.GivenLiteralsIncreasing | sudoku.py:52-66 | on a well-formed 9×9 board the yielded literals are positive, with valid and strictly increasing variables, hence distinct |
| Encoder.MaxOne | sudoku.py:69-86 | the pairwise at-most-one clauses; `MaxOneLength`, `MaxOneAt` and `MaxOneClauses` state their count, order and shape |
| Encoder.MaxOneLength | sudoku.py:81-86 | `max_one` of n variables has n(n-1)/2 clauses |
| Encoder.MaxOneAt | sudoku.py:82-84 | for every pair i < j, the clause `[(vs[i], False), (vs[j], False)]` sits at its place in the output order |
| Encoder.MaxOneClauses | sudoku.py:82-84 | every clause of `max_one` is `[(vs[i], False), (vs[j], False)]` for some i < j |
| Encoder.ExactlyOne | sudoku.py:99-103 | the body shared by the three group functions and the cell loop: `max_one` followed by the all-positive clause; `ExactlyOneSat`, `GroupMeaning` and `GroupComplete` state that it holds iff exactly one variable is true |
| Encoder.OneDigitThisRow | sudoku.py:88-103 | the group formula of the nine variables of a row for a digit; `RowsMeaning` and `RowComplete` state its meaning |
| Encoder.OneDigitThisColumn | sudoku.py:105-120 | the group formula of a column; `ColumnsMeaning` and `ColumnComplete` state its meaning |
| Encoder.OneDigitThisSquare | sudoku.py:122-149 | the group formula of a square, read from the `SQUARES` table; `BoxMeaning` and `SquareComplete` state its meaning |
| Encoder.ExactlyOneLength | sudoku.py:99-103 | a group formula is the n(n-1)/2 pair clauses followed by the all-positive clause, whose literals are the variables in order |
| Encoder.ExactlyOneClauses | sudoku.py:99-103 | every clause of a group formula mentions only the group's variables, and has no repeated literal when those are distinct |
| Encoder.ExactlyOneSat | sudoku.py:99-103 | a group formula is satisfied iff (when its variables are assigned) exactly one of the group's variables is true |
| Encoder.SquareTable | sudoku.py:134-144 | entry k of `SQUARES[(sr, sc)]` is row `3(sr-1) + k//3 + 1` and column `3(sc-1) + k%3 + 1` with digit 0 |
| Encoder.SquareKeys | sudoku.py:134-144 | the table's keys are exactly the nine pairs in 1..3 × 1..3 |
| Encoder.FlattenLength | sudoku.py:160-169 | concatenating `extend`-style formulas of equal length n gives n times their count |
| Encoder.FlattenMember | sudoku.py:160-169 | a clause is in the concatenation iff it is in one of the parts |
| Encoder.FlattenSat | sudoku.py:160-169 | the concatenation is satisfied iff every part is |
| Encoder.GroupLength | sudoku.py:99-103 | a 9-variable group gives 37 clauses |
| Encoder.DigitConstraints | sudoku.py:151-170 | the row, column and square groups for one digit, in the source's order; `DigitConstraintsLength`, `DigitConstraintsMember`, `DigitConstraintsSat` and `DigitConstraintsFromGroups` state its count, content and meaning |
| Encoder.DigitConstraintsLength | sudoku.py:151-170 | `digit_constraints` has 999 clauses: 27 groups of 37 |
| Encoder.DigitConstraintsMember | sudoku.py:151-170 | every clause of `digit_constraints(d)` belongs to the group formula of a row, a column or a square for d |
| Encoder.DigitConstraintsSat | sudoku.py:151-170 | satisfying `digit_constraints(d)` satisfies every row, column and square group for d |
| Encoder.DigitConstraintsFromGroups | sudoku.py:151-170 | conversely, satisfying every row, column and square group for d satisfies `digit_constraints(d)` |
| Encoder.DigitsFrom | sudoku.py:180-181 | the digit loop of `sudoku_constraints` from digit d on; the four `DigitsFrom` lemmas below state it |
| Encoder.DigitsFromLength | sudoku.py:180-181 | the digit loop from d to 9 appends 999 clauses per digit |
| Encoder.DigitsFromMember | sudoku.py:180-181 | every clause it appends comes from `digit_constraints(e)` for some e in d..9 |
| Encoder.DigitsFromSound | sudoku.py:180-181 | satisfying its output satisfies each `digit_constraints(e)` for e in d..9 |
| Encoder.DigitsFromComplete | sudoku.py:180-181 | satisfying each `digit_constraints(e)` for e in d..9 satisfies its output |
| Encoder.CellPart | sudoku.py:184-188 | the cell loop of `sudoku_constraints`: one group per cell over its nine digits; `CellPartLength`, `CellPartMember`, `CellPartSat` and `CellPartComplete` state it |
| Encoder.DigitPartLength | sudoku.py:179-181 | the digit part of `sudoku_constraints` has 8991 clauses |
| Encoder.CellPartLength | sudoku.py:184-188 | the cell part has 2997 clauses: 81 cells of 37 |
| Encoder.DigitPartMember | sudoku.py:179-181 | every clause of the digit part belongs to `digit_constraints(d)` for some d in 1..9 |
| Encoder.CellPartMember | sudoku.py:184-188 | every clause of the cell part belongs to the group formula of some cell |
| Encoder.DigitPartSat | sudoku.py:179-181 | satisfying the digit part satisfies every `digit_constraints(d)` |
| Encoder.CellPartSat | sudoku.py:184-188 | satisfying the cell part satisfies every cell's group formula |
| Encoder.DigitPartFromDigits | sudoku.py:179-181 | satisfying every `digit_constraints(d)` satisfies the digit part |
| Encoder.SudokuConstraints | sudoku.py:172-190 | the fixed rule formula; `RulesMeaning` and `RulesComplete` state that its total models are exactly the solved Sudoku grids |
| Encoder.SudokuConstraintsLength | sudoku.py:172-190 | `sudoku_constraints()` has 11988 clauses |
| Rules.SquareVariablesAt | sudoku.py:145 | entry k of a square's variable list for digit d is the variable of its k-th cell and d |
| Rules.RowGroup | sudoku.py:99 | a row's variables are nine distinct valid variables |
| Rules.ColumnGroup | sudoku.py:116 | a column's variables are nine distinct valid variables |
| Rules.CellGroup | sudoku.py:186 | a cell's variables are nine distinct valid variables |
| Rules.VarDistinct | sudoku.py:47-49 | distinct triples in 1..9 have distinct variables |
| Rules.SquarePair | sudoku.py:145 | two positions of a square's variable list hold different variables |
| Rules.SquareGroup | sudoku.py:145 | a square's variables are nine distinct valid variables |
| Rules.GroupClause | sudoku.py:99-103 | every clause of a group over distinct valid variables has no repeated literal and only valid variables |
| Rules.DigitConstraintsClause | sudoku.py:151-170 | the same for every clause of `digit_constraints(d)`, d in 1..9 |
| Rules.RuleClauses | sudoku.py:172-190 | the same for every clause of `sudoku_constraints()` |
| Rules.RulesDuplicateFree | sudoku.py:172-190 | no clause of `sudoku_constraints()` repeats a literal |
| Rules.GroupMeaning | sudoku.py:99-103 | a satisfied group formula puts exactly one true variable in the group: at least one is true, and no two true variables sit at different positions |
| Rules.BoxPositionAt | sudoku.py:134-145 | every cell lies in a square in 1..3 × 1..3, and its square's list holds the cell's variable at its box position |
| Rules.BoxPositionInjective | sudoku.py:134-145 | two cells with the same square and box position are the same cell |
| Rules.RulesMeaning | sudoku.py:172-190 | every assignment satisfying `sudoku_constraints()` is a Sudoku: one digit per cell, each digit once per row, column and box |
| Rules.DigitsMeaning | sudoku.py:179-181 | satisfying every `digit_constraints(d)` puts each digit once in each row, column and box |
| Rules.DigitMeaning | sudoku.py:151-170 | satisfying `digit_constraints(d)` puts d once in each row, column and box |
| Rules.CellsMeaning | sudoku.py:184-188 | satisfying every cell group puts exactly one digit in each cell |
| Rules.RowsMeaning | sudoku.py:160-162 | satisfying the row groups for d puts d exactly once in each row |
| Rules.ColumnsMeaning | sudoku.py:163-165 | satisfying the column groups for d puts d exactly once in each column |
| Rules.BoxMeaning | sudoku.py:122-149 | a satisfied square group puts d in some cell of that box and in no two of its cells |
| Rules.BoxCell | sudoku.py:134-145 | every entry of a square's list is the variable of a cell lying in that box |
| Rules.SquaresMeaning | sudoku.py:166-169 | satisfying the square groups for d puts d exactly once in each box |
| Rules.BoxesOnce | sudoku.py:166-169 | the per-box facts for all nine boxes give `OncePerBox` |
| Rules.SquareAtBox | sudoku.py:167-169 | square `(sr, sc)` is visited at position `3(sr-1) + (sc-1)` of the square loop |
| Rules.GroupComplete | sudoku.py:99-103 | conversely, an assignment that assigns every group variable and makes exactly one true satisfies the group formula |
| Rules.RowComplete | sudoku.py:88-103 | a total assignment with d exactly once in row i satisfies the row's group |
| Rules.ColumnComplete | sudoku.py:105-120 | a total assignment with d exactly once in column i satisfies the column's group |
| Rules.CellComplete | sudoku.py:184-188 | a total assignment with exactly one digit in a cell satisfies that cell's group |
| Rules.SquareComplete | sudoku.py:122-149 | a total assignment with d exactly once in a box satisfies that square's group |
| Rules.DigitComplete | sudoku.py:151-170 | a total assignment with d once per row, column and box satisfies `digit_constraints(d)` |
| Rules.RowsComplete | sudoku.py:160-162 | a total assignment with d once per row satisfies every row group for d |
| Rules.ColumnsComplete | sudoku.py:163-165 | a total assignment with d once per column satisfies every column group for d |
| Rules.SquaresComplete | sudoku.py:166-169 | a total assignment with d once per box satisfies every square group for d |
| Rules.BoxRepeats | sudoku.py:122-149 | "no repeats in any box" gives "at most once" for each square |
| Rules.DigitPartComplete | sudoku.py:179-181 | a total Sudoku assignment satisfies the digit part |
| Rules.CellPartComplete | sudoku.py:184-188 | a total assignment with one digit per cell satisfies the cell part |
| Rules.RulesComplete | sudoku.py:172-190 | every total assignment that is a Sudoku satisfies `sudoku_constraints()`: with `RulesMeaning`, the encoding is exact |
| Substitution.WithoutMember | sudoku.py:208-209 | removing every copy of x keeps exactly the other literals |
| Substitution.WithoutAbsent | sudoku.py:208-209 | removing a literal that is absent changes nothing |
| Substitution.WithoutNoDuplicates | sudoku.py:208-209 | removing a literal keeps a clause free of repeated literals |
| Substitution.IndexOf | sudoku.py:209 | `list.remove` acts on the first occurrence: an index holding x with no x before it |
| Substitution.WithoutAppend | sudoku.py:208-209 | removing x from a concatenation removes it from each part |
| Substitution.RemoveFirst | sudoku.py:209 | `list.remove` deletes exactly one copy of the literal: the result's multiset is the clause's minus that one literal |
| Substitution.RemoveFirstWithout | sudoku.py:208-209 | one `remove` shortens the clause by one and leaves the same result once every x is gone |
| Substitution.RemoveAll | sudoku.py:208-209 | the `while … remove` loop ends with every x removed and the other literals kept in order |
| Substitution.Substitute | sudoku.py:192-213 | the reference definition of `update_formula`, clause by clause; `SubstituteNone`, `SubstituteSome`, `SubstituteVars` and `SubstituteSat` state its outcome |
| Substitution.UpdateFormula | sudoku.py:192-213 | the clause loop computes `Substitute`: clauses holding the literal are dropped, the others lose its negation, and the result is `None` at the first clause left empty |
| Substitution.SubstituteNone | sudoku.py:204-212 | `update_formula` returns `None` iff some clause without the literal consists only of its negation |
| Substitution.SubstituteSome | sudoku.py:204-212 | otherwise the result keeps, in order, each clause without the literal, with every negation removed |
| Substitution.KeptMember | sudoku.py:206-207 | a clause is kept iff it is in the formula and does not contain the literal |
| Substitution.SubstituteVars | sudoku.py:204-212 | the result no longer mentions the substituted variable and mentions no new one |
| Substitution.SubstituteSat | sudoku.py:192-213 | under an assignment making the literal true, the result is satisfied iff the old formula is, and a `None` result means the old formula is unsatisfied |
| Substitution.SubstituteDuplicateFree | sudoku.py:204-212 | substitution keeps every clause free of repeated literals |
| Substitution.SubstituteWide | sudoku.py:204-212 | when every clause has two or more distinct literals, substitution never returns `None` |
| Solver.UnitLiterals | sudoku.py:229 | the first literals of the one-literal clauses, in order; `UnitLiteralsMember` and `UnitLiteralsEmpty` state which literals these are |
| Solver.UnitLiteralsMember | sudoku.py:229 | a literal is collected as a unit iff the one-literal clause holding it is in the formula |
| Solver.UnitLiteralsEmpty | sudoku.py:229-231 | propagation stops exactly when no clause has length 1 |
| Solver.BranchLiteral | sudoku.py:248-251 | the branch literal is the first literal of the first non-empty clause |
| Solver.UnitsForced | sudoku.py:229-233 | every unit literal is forced: it holds in every model of the problem |
| Solver.PropagateUnit | sudoku.py:237-238 | recording a forced unit and substituting it keeps exactly the problem's models |
| Solver.PropagateFail | sudoku.py:238-240 | when substituting a forced unit gives `None`, the problem has no model |
| Solver.PropagateConflict | sudoku.py:234-236 | a forced unit that contradicts the assignment means the problem has no model |
| Solver.Completed | sudoku.py:254-262 | any model can be extended so that the branch variable is assigned |
| Solver.BranchComplete | sudoku.py:253-264 | every model of the current state is a model of the true branch or of the false branch |
| Solver.BranchSound | sudoku.py:254-259 | a model of a branch is a model of the problem |
| Solver.BranchesFail | sudoku.py:260-267 | when neither branch has a model, the problem has none |
| Solver.EmptyClauseFails | sudoku.py:245-246 | an empty clause means the problem has no model |
| Solver.PropagateStep | sudoku.py:237-238 | one propagation step keeps the models, keeps clauses free of repeats, and removes the unit's variable |
| Solver.NoShortClauses | sudoku.py:229-231 | after propagation with no empty clause, every clause has at least two literals |
| Solver.BranchReady | sudoku.py:248-263 | the branch variable is unassigned, and both branch substitutions succeed and have strictly fewer variables |
| Solver.PropagateUnits | sudoku.py:228-240 | propagation returns `None` only when the problem has no model; otherwise it leaves no unit clause and keeps exactly the problem's models |
| Solver.SatSolver | sudoku.py:215-267 | a returned assignment extends the initial one, satisfies the formula and assigns only its variables; `None` means no assignment extending the initial one satisfies it |
| Decoder.OtherCell | sudoku.py:297-302 | an entry whose variable is false, or names another cell, does not change what a cell must hold |
| Decoder.CnfToCanonical | sudoku.py:285-304 | returns a fresh 9×9 board; each cell holds 0 when no true variable names it, and otherwise a digit whose variable is true |
| Sudoku.SudokuFormula | sudoku.py:279-282 | the solver's input: the rules followed by one unit clause per given; `FormulaMeaning` and `FormulaComplete` state what its models are |
| Sudoku.SudokuFormulaLength | sudoku.py:280-282 | the solved formula has 11988 rule clauses plus one per given |
| Sudoku.SudokuFormulaDuplicateFree | sudoku.py:280-282 | no clause of the solved formula repeats a literal, as `sat_solver` needs |
| Sudoku.SudokuFormulaVars | sudoku.py:280-282 | on a well-formed board every variable of the formula is a valid cell/digit variable, so decoding stays inside the board |
| Sudoku.GivenClauseVars | sudoku.py:281-282 | each given's unit clause mentions a valid variable |
| Sudoku.GivensSound | sudoku.py:281-282 | satisfying the givens' unit clauses puts each given digit in its cell |
| Sudoku.GivensComplete | sudoku.py:281-282 | putting each given digit in its cell satisfies the givens' unit clauses |
| Sudoku.FormulaMeaning | sudoku.py:280-282 | every model of the solved formula is a Sudoku that keeps the givens |
| Sudoku.FormulaComplete | sudoku.py:280-282 | every total assignment that is a Sudoku and keeps the givens is a model of the solved formula |
| Sudoku.Unsolvable | sudoku.py:270-283 | when the formula has no model, no completed Sudoku keeps the givens |
| Sudoku.ClashingGivens | sudoku.py:270-283 | a board with the same given digit twice in a row has no solution |
| Sudoku.ClashAt | sudoku.py:281-282 | no Sudoku assignment keeps two equal givens in one row |
| Sudoku.AppendUnits | sudoku.py:281-282 | the append loop yields the rules followed by one unit clause per given, in order |
| Sudoku.SolveSudoku | sudoku.py:270-283 | a returned assignment satisfies the formula, is a Sudoku, keeps the givens and assigns only formula variables; `None` means no assignment satisfies the formula |
| Sudoku.DecodedCells | sudoku.py:295-302 | decoding a Sudoku assignment fills every cell with a digit 1..9 placed there |
| Sudoku.RowPair | sudoku.py:88-103 | in a row where a digit occurs at most once, it is not true at two different columns |
| Sudoku.ColumnPair | sudoku.py:105-120 | in a column where a digit occurs at most once, it is not true at two different rows |
| Sudoku.DecodedRows | sudoku.py:295-302 | the decoded board has distinct digits in each row |
| Sudoku.DecodedColumns | sudoku.py:295-302 | the decoded board has distinct digits in each column |
| Sudoku.DecodedBoxes | sudoku.py:295-302 | the decoded board has distinct digits in each box |
| Sudoku.DecodedGivens | sudoku.py:295-302 | the decoded board keeps every given digit |
| Sudoku.DecodedSolution | sudoku.py:270-304 | decoding any model of the solved formula gives a filled 9×9 board with distinct digits in each row, column and box that keeps every given |

## Left out

- Printing (`dump_board`, `print_solved_sudoku`), the doctests, `main.py` and `ui.py` are not part of this model: they are I/O.
- Sudoku.SolveSudoku and the `Sudoku`/`Rules` facts: the board is a `seq<seq<int>>`.
  - The decoder and the end-to-end lemmas assume a well-formed board (`WellFormed`: 9 rows of 9 cells, values 0..9).
  - The source does not check this. It would build wrong variables, or index out of range in `cnf_to_canonical`, on other input.
- Solver.SatSolver: requires that no clause repeat a literal (`DuplicateFree`).
  - Every formula `solve_sudoku` builds meets this.
  - Without it, a branch substitution can return `None`, and the source would then fail on `None` at the next propagation round. That path is not modelled.
- Solver.SatSolver: the assignment dictionary is a `map` value rather than a dict updated in place.
  - In the source, propagation writes into the dictionary it was passed, while each branch works on a copy. No caller observes the difference.
- Decoder.CnfToCanonical: the dictionary's iteration order is a parameter, the sequence `keys` of the assignment's keys.
  - The contract holds for every order.
  - When two true variables name the same cell, which one wins depends on that order; the contract says only that the cell holds one of them.
- Rules.RulesComplete and Sudoku.FormulaComplete: the converse direction needs a total assignment, one that assigns all 729 variables.
  - The solver may leave variables unassigned.
- Sudoku.SolveSudoku: does not promise that a `Some` result is total.
  - The source does not promise it either.
- Solver.SatSolver: does not state which model is returned when there are several. That depends on the search order; only soundness and completeness are stated.
- Performance is not stated.
