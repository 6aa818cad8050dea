# dnc-smt: a Dafny model of the cube-and-conquer SMT driver

dnc-smt solves an SMT-LIB query by divide and conquer. A node of the
search (`solve_cube` in `smt.py`) does three things:

1. It merges the base query with its cube into an instance file. Every
   query line without `check-sat` is kept, then comes `(assert <cube>)`,
   then one final `(check-sat)`.
2. Unless initial splits are requested, it runs cvc4 on that instance under
   a timeout.
3. On a timeout, or when initial splits are requested, it asks a
   partitioner (`split.py`) for cubes. It then solves one child per
   non-blank cube line and folds the children's answers with a
   SAT-dominant `merge`.

`solve` starts the recursion at the trivial cube `true`. The benchmark
runner `runner.py` adds small helpers: exit-code and output
classification, flag spelling, flag parsing, and painless's worker
strategy.

The model is four modules:

- `Text` (`text.dfy`) models the Python string operations the scripts use:
  `str.strip()` with Python's whitespace set, the substring test `t in s`,
  `readlines()`, ASCII `lower()` and single-character `replace`.
- `Split` (`split.dfy`) models `split.py`'s loop that writes the cubes
  file.
- `Smt` (`smt.dfy`) models `merge_query_and_cube`, the answer
  classification of `base_solve`, `solve_cube`, `solve` and `merge`:
  - The gg thunk framework becomes direct recursion.
  - The solver is a parameter `Oracle` from instance and timeout to a
    process outcome.
  - The partitioner is a parameter `Partitioner` from instance and cube
    count to the cubes file, or `None` when it fails.
  - The recursion carries a `fuel` bound, and running out of fuel is its
    own outcome, `OutOfFuel`.
- `Runner` (`runner.dfy`) models the pure helpers of `runner.py`.

The two loops that build state step by step are methods proved against the
functions that specify them:

- `MergeQueryAndCube` is the write loop of `merge_query_and_cube`.
- `BuildChildren` is the `subsolves.append` loop of `solve_cube`.

`WriteCubes` is `split.py`'s write loop, likewise.

Three points where the code differs from what its names, option help or
neighbouring scripts suggest; the model follows the code:

- Nothing merges the query's own assertions with the cube, despite the
  name `merge_query_and_cube` (smt.py:28). The cube is added as one more
  `(assert …)`, and status and `(exit)` lines stay in the instance.
- The `--timeout-factor` option is described as multiplying the timeout
  "by each split" (runner.py:18). smt.py:84 multiplies it only when a node
  split without attempting (`initial_splits != 0`), and children always
  get `initial_splits = 0` (smt.py:102). `TimeoutEscalatesOnce` proves the
  consequence: every node below the root has one and the same timeout.
- Answers are the upper-case names `SAT`/`UNSAT` in `smt.py`. In
  `runner.py`, `returncode_to_result` and `run_solver` report the lower-case
  `sat`/`unsat` (runner.py:63-69, 241-244), while `run_lambda` stores the
  stripped text of its output file unchanged as its result, and that text is
  the upper-case answer `smt.py` prints (runner.py:223-225).

## Model

| member | source | states |
|---|---|---|
| Smt.MergeQueryAndCube | smt.py:28-40 | the instance written is the query's lines without those containing `check-sat`, then `(assert ` + stripped cube + `)\n`, then `(check-sat)` |
| Smt.KeptLinesExact | smt.py:32-34 | a line is kept iff it is a query line without `check-sat`, and the kept lines keep their original order (a subsequence) |
| Smt.KeptLinesCount | smt.py:32-34 | every copy of a line without `check-sat` is kept and no copy of a line with it; with the order above this determines the kept lines completely |
| Smt.DirectivesKept | smt.py:32-34 | a status line `(set-info :status w)` for any status word w without a `c` (sat, unsat, unknown) and an `(exit)` line are never dropped, with or without their newline |
| Smt.InstanceQueryPartFree | smt.py:31-39 | the part copied from the query contains no `check-sat` anywhere, even across line boundaries; the instance is that part, the assertion of the cube and one `(check-sat)` |
| Smt.AnchoredSearchExact | smt.py:15-16 | `re.search("^w$", o)` without MULTILINE succeeds iff the output is exactly w or w followed by one newline |
| Smt.BaseSolveClassification | smt.py:49-62 | SAT iff exit code 0 and the output is `sat` (optionally newline-terminated); UNSAT likewise for `unsat`; TIMEOUT iff the run timed out; a non-zero exit code is an error with that code; every other run is an error |
| Smt.BuildChildren | smt.py:90-107 | the loop yields one child per non-blank stripped cube line, in file order |
| Smt.NonBlankLines | smt.py:93-95 | every line a child is built from is non-empty and carries no surrounding whitespace, and there are at most as many as cube lines |
| Smt.NonBlankExact | smt.py:93-96 | the lines children are built from are the stripped cube lines with the empty ones dropped: in file order, each as often as it occurs, and as many as the lines that are not blank |
| Smt.NonBlankMembers | smt.py:93-96 | every non-blank stripped cube line gives a child's line, and every child's line is some cube line stripped |
| Smt.ChildrenInherit | smt.py:83-105 | every child has no initial splits, the parent's `splits` and `timeout_factor`, and the timeout `timeout` if the parent had no initial splits else `timeout * timeout_factor`; its cube, stripped, is `(and <stripped parent cube> <line>)` |
| Smt.MergeOnVerdicts | smt.py:129-138 | on SAT/UNSAT answers merge is satisfiability disjunction: it returns a verdict, is SAT iff either side is, is commutative and associative, and has UNSAT as its unit |
| Smt.MergeKeepsFirst | smt.py:132-138 | for all arguments, merge returns its first argument unchanged when neither stripped side is `SAT`, whatever the second argument is, and `SAT` otherwise; so it is not symmetric outside the verdicts (`UNSAT` then `garbage` gives `UNSAT`, the other order `garbage`) |
| Smt.FoldMerge | smt.py:109 | reduce over no children is an error; the fold is an answer iff every child answered; if every answer is a verdict, so is the result |
| Smt.FoldMergeSat | smt.py:109-138 | when every child answered and some child's stripped answer is SAT, the fold strips to SAT, and is exactly `SAT` once two or more children were merged |
| Smt.FoldMergeNoSat | smt.py:109-138 | when every child answered and no child's stripped answer is SAT, the fold is the first child's answer |
| Smt.SolveCube | smt.py:65-111 | whatever a completed node answers is `SAT` or `UNSAT`, never `TIMEOUT` |
| Smt.SolveAll | smt.py:97-109 | one evaluation per child, and each completed one is a verdict |
| Smt.Solve | smt.py:114-126 | solve evaluates the root node with cube `true\n`, and a completed solve answers `SAT` or `UNSAT` |
| Smt.AttemptAnswers | smt.py:78-81 | with no initial splits the solver is called on the node's instance with the node's own timeout, and a non-timeout answer is the node's answer whatever the partitioner |
| Smt.NoAttemptWithInitialSplits | smt.py:78 | with initial splits (of either sign) the solver is not consulted on the node's instance |
| Smt.SplitNodeVerdict | smt.py:86-109 | a node that split into at least one child, all of which finished, answers SAT iff some child answered SAT, and UNSAT iff all of them answered UNSAT (a node with no children fails instead, see `SplitPyNoCubesFails`) |
| Smt.FoldMergeExtends | smt.py:109 | once the fold over xs has finished, every ys that agrees with xs on xs's finished children has the same fold |
| Smt.FuelMonotone | smt.py:65-111 | a finished evaluation is the same under any larger fuel bound, so the bound only cuts off the recursion and never changes an answer |
| Smt.SolveAllMonotone | smt.py:97-109 | with more fuel every finished child evaluation stays the same |
| Smt.SpawnAllUniform | smt.py:83-106 | the children of nodes sharing a next timeout, split count and factor all share that timeout, split count and factor, and have no initial splits |
| Smt.TimeoutEscalatesOnce | smt.py:84-104 | at every depth below the root, every node has no initial splits, the root's `splits` and factor, and the timeout `timeout` (root attempted) or `timeout * timeout_factor` (root split first): the factor is applied at most once on any path |
| Smt.SplitPyChildren | smt.py:83-107 | with split.py as partitioner a splitting node has exactly `splits_now` children (none if it is not positive), child i for the cube of i + 1 `true`s |
| Smt.SplitPyNoCubesFails | smt.py:93-109 | with split.py and `splits_now <= 0`, a node that reaches the split phase has no children and fails with the empty reduce |
| Split.WriteCubes | split.py:18-23 | the file written is the concatenation of the cube lines for i in range(n), and depends on n alone |
| Split.CubeLineShape | split.py:23 | line i is `(and` followed by i + 1 space-separated `true` tokens and `)\n`, of length 5i + 11 |
| Split.CubeLineWellFormed | split.py:23 | every line is a complete newline-terminated line, and stripped it is the non-empty cube |
| Split.CubeLinesDistinct | split.py:22-23 | no two lines are the same text |
| Split.CubesFileLines | split.py:20-23 | reading the file back gives exactly max(n, 0) lines, the ones written, each newline-terminated |
| Text.StripSpec | smt.py:37 | strip returns the middle of s with whitespace on both sides cut off, and its result has no whitespace at either end |
| Text.StripPadded | smt.py:133-134 | a trimmed string surrounded by whitespace strips back to itself |
| Text.ReadLines | smt.py:32 | readlines splits the text into lines whose concatenation is the text; every line but the last ends in its newline |
| Text.ReadLinesOfConcat | smt.py:90-93 | reading back a text made of complete lines gives exactly those lines |
| Text.NotContainedAcrossNewline | smt.py:33 | a newline-free word cannot occur across a line boundary |
| Runner.ReturncodeToResult | runner.py:63-69 | `sat` iff exit code 10, `unsat` iff exit code 20, and no result for every other code |
| Runner.Argize | runner.py:89 | the flag is `--` followed by the name with `_` turned into `-`: two characters longer, and without underscores |
| Runner.ArgizeRoundTrip | runner.py:87-89 | for a name without dashes the field name can be read back from its flag |
| Runner.ArgizeInjective | runner.py:87-89 | distinct dash-free names get distinct flags |
| Runner.ArgizeAsWrittenAcceptsAll | runner.py:87-89 | the assertion accepts every name; `a-b` gets the flag `--a-b`, which reads back as `a_b` |
| Runner.ArgizeChecked | runner.py:88-89 | with a full match, argize succeeds iff the name is made of `[a-z0-9_]`, and then the flag reads back as the name |
| Runner.Parse | runner.py:92-103 | a str field is the text itself; a type other than str/int/float/bool is an "Unparsable type" error; a bool field is a boolean or an "Invalid boolean" error about the given text |
| Runner.ParseBool | runner.py:95-101 | a bool field is true iff the text spells `true` up to letter case, false iff it spells `false`, and an error otherwise |
| Runner.ParseBoolIgnoresCase | runner.py:96-99 | two texts equal up to case parse to the same boolean |
| Runner.ParseShow | runner.py:92-101 | parse undoes `str()`: every string and boolean value comes back from its own text (`True`, `False`) |
| Runner.UnsatContainsSat | runner.py:241-244 | every output containing `unsat` contains `sat` |
| Runner.ClassifyRunSpec | runner.py:237-249 | `TIMEOUT` iff the solver was killed at the timeout; `unsat` iff the output contains `unsat`; `sat` iff it contains `sat` but not `unsat`; unparsable iff it contains no `sat` |
| Runner.ClassifyAgreesWithBaseSolve | runner.py:241-246 | on every output base_solve accepts, the runner reports the same verdict in lower case |
| Runner.PainlessModeFlag | runner.py:269 | the flag is `-wkr-strat=` and one digit, `4` iff the mode is `dnc` and `1` for every other mode |

## Left out

- The gg/pygg thunk framework is not modelled: no `gg.install`, thunks, `gg.str_value`, memoization or distributed execution. Thunks are direct recursive calls, and the children are evaluated left to right.
- Subprocess execution, the solver binary, `time.sleep(1)`, the printing, and the creation and removal of `merged.cnf` and `cubes` are left out. The solver and the partitioner are function parameters, and files are their contents as strings.
- cvc4 itself is a black box behind `Oracle`.
- Termination is not modelled: `solve_cube` has no depth bound, and the model bounds the recursion with `fuel` (`OutOfFuel`). `FuelMonotone` shows the bound never changes a finished answer.
- Exceptions are values (`Fail`). When several children fail, the model reports the first one from the left. Under gg, whichever forced thunk fails first wins.
- Timeouts are `real`. Float rounding of `timeout * timeout_factor` is not modelled.
- Text.Lower: folds only ASCII letters, not all of Python's Unicode case mappings.
- Text.ReadLines: splits on `\n` only. Universal-newline translation of `\r` and `\r\n` by `open()` is not modelled.
- Runner.Parse: the `int` and `float` branches (runner.py:93-94) are not modelled. The numeric string conversions are outside the model, so `FieldType` has only str, bool and other types, and `OtherType` stands only for types outside str, int, float and bool (`OtherType("int")` is not what the source's int branch does).
- Runner.Parse: an error records the type's name and the text, not the exact message string.
- In runner.py, `main`, docopt, `search`, `run_lambda` and the `run` branches are not modelled. The same goes for the `CncInput`/`CncOutput` constructors and the `exp` module (`Runner`, `Observation`, `Input`, `SDict`, `safe_str`): they do I/O or rely on code that is not part of this model. Several `run` branches use names (`PLINGELING_PATH`, `CADICAL_PATH`, `PAINLESS_PATH`, `run_cnc_lingeling`, `run_parac`) that are not defined in the files modelled.
- The `.bz2` decompression of painless inputs (runner.py:270-273) is left out: it is a shell command.
- split.py's argument parsing is not modelled. Its `query` argument is accepted and never read, so `WriteCubes` takes it and ignores it.

## Findings

| source | as written | input that shows it | evidently intended | confidence | as-written member | corrected member |
|---|---|---|---|---|---|---|
| runner.py:88 | `assert match("[a-z0-9_]*", s)`: `re.match` anchors only at the start and the star matches the empty prefix, so the assertion holds for every string | `s = "a-b"`: the flag `--a-b` reads back as the field `a_b`, not `a-b` | only names made of `[a-z0-9_]` are accepted (a full match), so every flag reads back as its name | not executed | Runner.ArgizeAsWrittenAcceptsAll | Runner.ArgizeChecked |
