# Models of a polynomial constraint solver and its build and example tools

This project models the algorithmic core of a repository that pairs a template-based polynomial
constraint solver with a copy of Z3, and proves what that core guarantees.

* **The Handelman solver** (`Multinomial`, `PolynomialShape`, `ProgramDegree`, `Reduction`, `Generator`,
  `Certificate`, `Monotone`, `Incompleteness`, `HandelmanCore`). Polynomials are stored as nested maps from exponents to coefficient
  polynomials in later symbols. To show that assumptions `lhs >= 0` imply a conclusion `rhs >= 0`, the
  solver multiplies every product of assumptions within a degree bound by a fresh non-negative template,
  subtracts the conclusion, and asks that every coefficient in the program variables be zero. The main
  results are that this system is solvable exactly when a Handelman representation exists, that a solution
  proves the implication, and that both depend on the numbering: they hold for every problem over some symbols
  if and only if among these the program variables are numbered before the templates. The recursion that builds the products terminates if and only
  if no compatible assumption has recorded degree 0 (or the bound is negative).
* **Variables and their ids** (`VariableTable`, `SymbolLifetime`). Names, groups of variables, and the global
  counter that tables share.
* **Branch and bound over boxes by threads** (`Fragmentation`, `BoxOracle`, `ThreadProtocol`, `ReleaseTwice`).
  Boxes are
  certified, dropped, kept or halved; threads share a queue, a count of active threads, a mutex and a condition
  variable. There are two thread bodies. `run_thread_int`, for integer points, releases the mutex through its
  lock object: for it, safety at exit, freedom from deadlock and a bound on the length of runs hold in every
  interleaving of single statements. `run_thread` releases the mutex directly, and its lock object releases it
  again at the end of each iteration: with two or more threads it can deadlock and can hand one box to two
  threads. Exact conditions are proved for both.
* **Two solver scripts** (`AllIntervalSeries`, `Efsmt`): the encoding and enumeration of all-interval series,
  and counterexample-guided solving of exists-forall problems.
* **The makefile generator** (`HeaderRules`, `Components`, `SymbolicLink`) and **the quantifier profile
  comparison** (`ProfileDiff`).

`Basics` holds notions that several modules share. `dafny verify dfyconfig.toml` covers all files.

Z3, the certificate checks on a box, and the file system are parameters: an oracle `check`, `solve`, `pos` or
`neg` with a stated contract, or a given include graph.

## Where the code differs from its comments

* `get_degree(false)` is meant to ignore templates, but its recursive calls count them; only a polynomial
  whose outermost symbol is a template gets degree 0. The model follows the code
  (`grid_solve/handelman/src/polynomial.cpp:525-539`); `RecordedDegreeIff` says exactly when the result is the
  degree in the program variables.
* The field `confidence` is documented as certified membership, but `recompute_confidence` sets it with one
  constraint uncertified (`grid_solve/handelman/include/approximation.hpp:231-237`); see `ConfidenceMeans`.
* The header comment of `z3/examples/python/all_interval_series.py` speaks of sequences of length n-1 with
  differences from 0; the code builds permutations of length n with differences 1 to n-1.
* `plain_solve` with conclusions and no assumptions builds an implication from a number, which Z3 rejects;
  `PlainSolve` returns an error there.

## Model

| member | source | states |
|---|---|---|
| `Multinomial.AddConstEval` | grid_solve/handelman/src/polynomial.cpp:6-50 | adding a constant adds it to the value at every point |
| `Multinomial.AddConstInPlaceEval` | grid_solve/handelman/src/polynomial.cpp:8-27 | the branch that overwrites its operand adds the constant too, gives the same value as the copying branch, and a well-formed result |
| `Multinomial.SimplifyEval` | grid_solve/handelman/src/polynomial.cpp:179-207 | dropping zero coefficients, and restoring the coefficient of exponent 0, keeps the value at every point |
| `Multinomial.SimplifyProper` | grid_solve/handelman/src/polynomial.cpp:179-207 | the simplified node is well formed again |
| `Multinomial.AddEval` | grid_solve/handelman/src/polynomial.cpp:83-178 | for well-formed polynomials the sum evaluates to the sum of the values, whichever symbol is outermost in either |
| `Multinomial.AddProper` | grid_solve/handelman/src/polynomial.cpp:83-178 | the sum keeps symbols increasing inwards and exponents increasing |
| `Multinomial.MulEval` | grid_solve/handelman/src/polynomial.cpp:216-319 | the product evaluates to the product of the values, over the nested row-by-row accumulation |
| `Multinomial.MulProper` | grid_solve/handelman/src/polynomial.cpp:216-319 | the product is well formed |
| `Multinomial.ScaleEval` | grid_solve/handelman/src/polynomial.cpp:321-356 | multiplying by a constant scales the value at every point, also for the constant 0 |
| `Multinomial.ScaleProper` | grid_solve/handelman/src/polynomial.cpp:321-356 | scaling keeps the polynomial well formed |
| `Multinomial.VarEval` | grid_solve/handelman/include/multinomial.hpp:59-65 | the polynomial made from a symbol evaluates to the value of the symbol |
| `Reduction.EvalAgree` | grid_solve/handelman/src/polynomial.cpp:657-678 | the value of a polynomial depends only on symbols from its outermost one on |
| `Reduction.ReduceSound` | grid_solve/handelman/src/polynomial.cpp:568-587 | if among the symbols of the polynomial the program variables are numbered before the templates and every coefficient that reduce returns is zero, the polynomial is zero whatever the program variables are |
| `Reduction.LowestZero` | grid_solve/handelman/src/polynomial.cpp:568-587 | if a polynomial in one variable is zero everywhere, its lowest coefficient is zero |
| `Reduction.Identity` | grid_solve/handelman/src/polynomial.cpp:568-587 | if a polynomial in one variable is zero everywhere, all its coefficients are zero |
| `Reduction.ReduceComplete` | grid_solve/handelman/src/polynomial.cpp:568-587 | for every numbering: a polynomial that is zero whatever the program variables are has only zero coefficients |
| `Reduction.ReduceExact` | grid_solve/handelman/src/polynomial.cpp:568-587 | under the same condition on the symbols that occur, the coefficients are zero if and only if the polynomial is identically zero in the program variables |
| `Reduction.MixedFails` | grid_solve/handelman/src/polynomial.cpp:568-587 | a template numbered before a program variable: their sum has zero coefficients at the origin but is not identically zero |
| `Reduction.ReduceSoundIffOrdered` | grid_solve/handelman/src/polynomial.cpp:568-587 | for any set of symbols: reduce is sound for all polynomials over them if and only if among them the program variables are numbered first |
| `PolynomialShape.DegreeIsGreatest` | grid_solve/handelman/src/polynomial.cpp:525-539 | with templates the degree is the greatest total exponent of a stored monomial; without, it is 0 under an outermost template and no different otherwise |
| `PolynomialShape.DegreesMean` | grid_solve/handelman/include/handelman_core.hpp:22-27 | the recorded list has one entry per assumption: 0 under an outermost template, else the total exponent of some stored monomial, and none has a greater one |
| `ProgramDegree.ProgDegreeIsGreatest` | grid_solve/handelman/src/polynomial.cpp:525-539 | the degree in the program variables, which is what is meant, is the greatest program exponent of a stored monomial and at most the total degree |
| `ProgramDegree.RecordedDegreeIff` | grid_solve/handelman/src/polynomial.cpp:525-539 | the degree that get_degree(false) returns is the degree in the program variables if and only if no monomial has a program variable, under an outermost template, and some monomial of greatest total exponent has no template, otherwise |
| `ProgramDegree.OrderedDegree` | grid_solve/handelman/src/polynomial.cpp:525-539 | with the program variables first among the symbols, the returned degree is never too small, and it is right exactly under an outermost template or when some greatest monomial has no template |
| `ProgramDegree.PairDegrees` | grid_solve/handelman/src/polynomial.cpp:525-539 | where it is wrong: a program variable times a later template counts 2 instead of 1, a template times a later program variable 0 instead of 1 |
| `ProgramDegree.OvercountedIsUnused` | grid_solve/handelman/src/handelman_core.cpp:56-62 | with the degrees the solver records, an assumption forms a product by itself if and only if it shares a symbol with the conclusion and no stored monomial of it, templates counted, exceeds the bound (under an outermost template: the bound is not negative) |
| `PolynomialShape.ListedIdsDecide` | grid_solve/handelman/src/polynomial.cpp:616-632 | the value of a polynomial depends only on the ids that are listed for it |
| `PolynomialShape.ComparedMeansShared` | grid_solve/handelman/src/polynomial.cpp:635-655 | an assumption passes the comparison with a list of ids if and only if one of its symbols is in the list |
| `PolynomialShape.ExponentsBounded` | grid_solve/handelman/src/polynomial.cpp:83-319 | sums and products bring in no new symbol, no exponent of a sum exceeds those of the summands, and none of a product the sum of the greatest of the factors |
| `Generator.AdmissibleIsProduct` | grid_solve/handelman/src/handelman_core.cpp:56-67 | the loop guards admit exactly the nondecreasing index lists of compatible assumptions within the degree bound |
| `Generator.ChainsExact` | grid_solve/handelman/src/handelman_core.cpp:53-78 | the recursion visits exactly the admissible index lists |
| `Generator.ChainsDistinct` | grid_solve/handelman/src/handelman_core.cpp:53-78 | the recursion visits no index list twice |
| `Generator.ChainsAreProducts` | grid_solve/handelman/src/handelman_core.cpp:53-78 | one template is created per product of compatible assumptions within the degree bound, each product exactly once |
| `Generator.GenShape` | grid_solve/handelman/src/handelman_core.cpp:53-78 | gen_pol creates as many templates as there are products and returns a well-formed polynomial |
| `Generator.GenIsFlat` | grid_solve/handelman/src/handelman_core.cpp:53-78 | the nested polynomial is, at every point, the flat sum of template times product |
| `Generator.GenOver` | grid_solve/handelman/src/handelman_core.cpp:53-78 | the generated polynomial has only symbols of the assumptions and new templates, and its exponents are at most the greatest exponent of an assumption times the degree that is left, plus one |
| `Generator.GenDiverges` | grid_solve/handelman/src/handelman_core.cpp:56-62 | a compatible assumption of recorded degree 0 makes the recursion endless |
| `Generator.GenTerminatesIff` | grid_solve/handelman/src/handelman_core.cpp:53-78 | gen_pol terminates if and only if no compatible assumption has recorded degree 0 or the bound is negative, and it then computes the polynomial described |
| `Certificate.TargetEval` | grid_solve/handelman/src/handelman_core.cpp:90-92 | the polynomial that is reduced is the weighted sum of products minus the conclusion |
| `Certificate.TargetSymbols` | grid_solve/handelman/src/handelman_core.cpp:90-92 | apart from new templates, the polynomial that is reduced has only symbols of the assumptions and the conclusion |
| `Certificate.TargetExact` | grid_solve/handelman/src/handelman_core.cpp:90-98 | if among the symbols that occur the program variables come first, for one conclusion: zero coefficients and non-negative templates if and only if the templates are a Handelman representation |
| `Certificate.SolvesExact` | grid_solve/handelman/src/handelman_core.cpp:80-102 | under that condition, for all conclusions: a solution of the emitted system is exactly a family of Handelman representations, with disjoint templates |
| `Certificate.RepresentationsSolve` | grid_solve/handelman/src/handelman_core.cpp:80-102 | for every numbering, a family of Handelman representations solves the emitted system |
| `Certificate.Soundness` | grid_solve/handelman/src/handelman_core.cpp:80-102 | under that condition, a solution proves, for every value of the program variables, that the assumptions imply each conclusion |
| `Certificate.SoundIffOrdered` | grid_solve/handelman/src/handelman_core.cpp:80-102 | for any set of symbols: the method is sound for every problem over them if and only if among them the program variables are numbered first |
| `Certificate.EarlyTemplateUnsound` | grid_solve/handelman/src/handelman_core.cpp:80-102 | a template numbered before a program variable: for every degree bound, a solved system whose conclusion is false |
| `Monotone.SumSubset` | grid_solve/handelman/src/handelman_core.cpp:53-78 | weights that are zero outside a sublist of products do not change the sum |
| `Monotone.CarryAll` | grid_solve/handelman/src/handelman_core.cpp:80-102 | representations of all conclusions carry over to a larger problem, without touching symbols that existed before |
| `Monotone.LargerSystemKeepsSolutions` | grid_solve/handelman/src/handelman_core.cpp:53-102 | if the program variables come first among the symbols of the smaller problem, raising the degree bound or adding assumptions keeps a solvable system solvable with the same values of all earlier symbols |
| `Incompleteness.RepresentsIffZero` | grid_solve/handelman/src/handelman_core.cpp:80-102 | for every problem and degree bound: when a conclusion is zero at a point where all assumptions are positive, its representations are exactly the zero weights, and only if it is zero whatever the program variables are |
| `Incompleteness.SolvesIffZero` | grid_solve/handelman/src/handelman_core.cpp:80-102 | the same for the emitted system of several conclusions, each zero at such a point of its own |
| `Incompleteness.SolvableIffVanishing` | grid_solve/handelman/src/handelman_core.cpp:80-102 | so, for given values of the existing symbols, that system has a solution if and only if all the conclusions are identically zero in the program variables |
| `Incompleteness.OneTouchingGoal` | grid_solve/handelman/src/handelman_core.cpp:80-102 | among any other conclusions, one that is zero at such a point leaves no solution unless it is identically zero in the program variables |
| `Incompleteness.TrueButNeverCertified` | grid_solve/handelman/src/handelman_core.cpp:80-102 | an instance: (x - 1)^2 >= 0 is true under x >= 0, and its system has no solution at any degree bound |
| `HandelmanCore.Solver.AddEquations` | grid_solve/handelman/include/solver.hpp:371-384 | adding polynomials one by one appends them in order to the equations only |
| `HandelmanCore.Handelman.constructor` | grid_solve/handelman/include/handelman_core.hpp:18-21 | no assumptions, no conclusions, degree bound 2, and a solver with one constant per variable that exists now |
| `HandelmanCore.Handelman.MakeDegArr` | grid_solve/handelman/include/handelman_core.hpp:22-27 | records for every well-formed assumption 0 if a template is outermost, and the greatest total exponent of a stored monomial otherwise |
| `HandelmanCore.Handelman.SetMaxDegree` | grid_solve/handelman/src/handelman_core.cpp:153-164 | a nonzero argument becomes the bound; zero raises it to exactly the maximum over the conclusions |
| `HandelmanCore.Handelman.AddTemplate` | grid_solve/handelman/src/handelman_core.cpp:69-72 | one new non-negative template with the next id, added to the sum; fails exactly when the symbols have run out |
| `HandelmanCore.Handelman.GenPol` | grid_solve/handelman/src/handelman_core.cpp:53-78 | the in-place recursion returns the specified polynomial and emits one non-negative template per product; fails exactly when the symbols run out |
| `HandelmanCore.Handelman.Solve` | grid_solve/handelman/src/handelman_core.cpp:80-102 | appends exactly the specified equations and inequalities for all conclusions and keeps the program variables; fails exactly when the symbols run out |
| `HandelmanCore.Handelman.PlainSolve` | grid_solve/handelman/src/handelman_core.cpp:112-141 | replaces the formulas by one implication per conclusion, quantified over the constants at the positions of the program variables; fails exactly when there is a conclusion and no assumption |
| `HandelmanCore.PlainFormulasMean` | grid_solve/handelman/src/handelman_core.cpp:128-141 | the formulas hold at an assignment if and only if every conclusion follows from the assumptions under every assignment that agrees with it outside the quantified constants |
| `HandelmanCore.SolePositions` | grid_solve/handelman/src/handelman_core.cpp:133-136 | in the only live table the quantified constants are exactly those of the program variables |
| `HandelmanCore.PositionsIff` | grid_solve/handelman/src/handelman_core.cpp:133-136 | in every table with increasing ids this holds if and only if the id of each program variable is its position |
| `HandelmanCore.HandelmanStrengthensPlain` | grid_solve/handelman/src/handelman_core.cpp:80-141 | if the program variables come first among the symbols that occur, every solution of the Handelman system satisfies every formula of the plain encoding |
| `HandelmanCore.TemplateAssumptionDiverges` | grid_solve/handelman/src/handelman_core.cpp:53-78 | an assumption with a template outermost that shares a symbol with the conclusion makes gen_pol endless |
| `HandelmanCore.LoopAdvances` | grid_solve/handelman/src/handelman_core.cpp:56-67 | one turn of the loop keeps the partial sum and the number of templates on the specification |
| `VariableTable.DecimalInjective` | grid_solve/handelman/src/vars.cpp:16-29 | different indices have different decimal texts |
| `VariableTable.DecimalDenotes` | grid_solve/handelman/src/vars.cpp:16-29 | the decimal text of a number denotes it, without a leading zero |
| `VariableTable.ChosenNames` | grid_solve/handelman/src/vars.cpp:5-19 | a fresh nonempty name is used as it is; a taken or missing one is continued by var_ and the table size, or by grp and the number of names |
| `VariableTable.MemberContinues` | grid_solve/handelman/src/vars.cpp:20-22 | a member is named by its group, an underscore and its index in decimal |
| `VariableTable.MemberInjective` | grid_solve/handelman/include/vars.hpp:43-49 | within a group, different indices have different names |
| `VariableTable.BindGroupLookup` | grid_solve/handelman/src/vars.cpp:21-26 | after adding a group, member i resolves to the i-th new variable, every other name resolves as before, and every name bound before is still bound |
| `VariableTable.GroupNamesKeptIff` | grid_solve/handelman/src/vars.cpp:16-29 | adding a group keeps every earlier name on its variable if and only if none of its member names was bound before |
| `VariableTable.RepeatedGroupRebinds` | grid_solve/handelman/src/vars.cpp:16-29 | an instance where it fails: asking twice for the same group name rebinds it, and the first group becomes unreachable |
| `VariableTable.SymbolCounter.Fresh` | grid_solve/handelman/src/symbol.cpp:21-28 | hands out the counter value and raises it; fails exactly at the limit |
| `VariableTable.Table.Init` | grid_solve/handelman/include/vars.hpp:13-20 | creates n program variables var_0, var_1, ...; out of symbols, it leaves one name without a variable |
| `VariableTable.Table.AddVar` | grid_solve/handelman/src/vars.cpp:5-14 | appends one variable and binds its name; ids stay positions for a sole table; out of symbols, the name is left pointing past the table |
| `VariableTable.Table.AddGroup` | grid_solve/handelman/src/vars.cpp:16-29 | appends n variables and binds their member names; out of symbols, it leaves one name without a variable |
| `VariableTable.Table.Destroy` | grid_solve/handelman/include/vars.hpp:21-30 | lowers the counter by the size of the table |
| `VariableTable.Table.At` | grid_solve/handelman/include/vars.hpp:43-49 | finds a member of a group, or fails exactly for an unknown name; the position is inside the table unless an addition ran out of symbols |
| `VariableTable.ProgramIdsAppendTemplates` | grid_solve/handelman/src/handelman_core.cpp:69-72 | creating templates does not change which ids are program variables |
| `SymbolLifetime.DestroyKeepsDenseIff` | grid_solve/handelman/include/vars.hpp:21-30 | destroying a table keeps ids dense (each id below the counter used by exactly one live symbol, no other id by any) if and only if its ids are the topmost ones |
| `SymbolLifetime.CounterIsTotal` | grid_solve/handelman/include/symbol.hpp:19-21 | in every run the counter is the number of live symbols, so destroying a table never takes it below zero |
| `SymbolLifetime.GrowthKeepsDense` | grid_solve/handelman/src/symbol.cpp:21-28 | a new table, or a new symbol in any table, keeps ids dense |
| `SymbolLifetime.DestroyLeavesStray` | grid_solve/handelman/include/vars.hpp:21-30 | destroying a table of a dense state whose ids are not topmost leaves a live id at or above the counter |
| `SymbolLifetime.DistinctForeverIff` | grid_solve/handelman/include/vars.hpp:13-30 | after destroying a table of a dense state, no two live symbols ever get the same id, whatever tables and symbols are created next, if and only if the ids of the table were topmost |
| `SymbolLifetime.ReachableCollision` | grid_solve/handelman/include/vars.hpp:13-30 | a run of six steps from the start that ends with one id used twice in one table |
| `SymbolLifetime.OrderlyRunsStayDense` | grid_solve/handelman/include/vars.hpp:13-30 | in every run that destroys only tables with topmost ids, ids are dense |
| `SymbolLifetime.NestedRunsStayDense` | grid_solve/handelman/include/vars.hpp:13-30 | in every run that uses tables like a stack, ids are dense |
| `SymbolLifetime.StrayIdCollides` | grid_solve/handelman/src/symbol.cpp:21-28 | a live id at or above the counter is handed out a second time by growing any table, its own or another |
| `Fragmentation.WidestIs` | grid_solve/handelman/src/approximation.cpp:497-503 | the loop over the dimensions finds the first longest one, also when intervals are empty |
| `Fragmentation.RoundKeeps` | grid_solve/handelman/include/approximation.hpp:35-52 | rounding a box loses no integer point and gains no point |
| `Fragmentation.ProcessBox` | grid_solve/handelman/src/approximation.cpp:400-524 | the loops compute the specification function: a box is kept if and only if it is not filtered out or empty, no constraint is refuted on it, and all are certified or every dimension is shorter than the limit; a halved one is split at the midpoint of the first longest dimension |
| `Fragmentation.ClassifyTruthful` | grid_solve/handelman/src/approximation.cpp:426-445 | marks stay right, and a box is refuted only if no point of it satisfies all constraints strictly |
| `Fragmentation.ProcessKeeps` | grid_solve/handelman/src/approximation.cpp:400-524 | every outcome keeps marks right and keeps every sought point (an integer point in the integer variant) that satisfies all constraints strictly |
| `Fragmentation.DropIff` | grid_solve/handelman/src/approximation.cpp:400-438 | a box is dropped if and only if it is filtered out, empty in the integer variant, or some constraint is not certified non-negative but certified non-positive on it |
| `Fragmentation.KeepOrHalve` | grid_solve/handelman/src/approximation.cpp:488-511 | a box that is not dropped is kept if and only if every constraint is certified on it or every dimension is shorter than the limit, and then as it is; otherwise it is halved at the midpoint of the first longest dimension, and both halves get the marks |
| `Fragmentation.RoundIs` | grid_solve/handelman/include/approximation.hpp:35-52 | rounding moves each end inwards to an integer less than one away |
| `Fragmentation.LeavesSettled` | grid_solve/handelman/src/approximation.cpp:400-511 | every box that processing a box and its halves to the end keeps lies in it, is not filtered out or empty, has no constraint refuted on it, is certified or small, and is reported as confident exactly as its marks say |
| `Fragmentation.StepYields` | grid_solve/handelman/src/approximation.cpp:366-533 | no step of any thread changes which boxes will be kept in the end |
| `Fragmentation.LostIff` | grid_solve/handelman/src/approximation.cpp:400-524 | a sought point of a box that satisfies all constraints is lost if and only if some constraint is refuted on the box, and every such constraint is zero at the point |
| `Fragmentation.SumOfMarks` | grid_solve/handelman/include/approximation.hpp:231-237 | the marks add up to the number of constraints if and only if all are certified |
| `Fragmentation.ConfidenceMeans` | grid_solve/handelman/include/approximation.hpp:231-237 | a kept box is reported as confident when at most one constraint is certified on it neither before nor by the oracle; the report is right about certification exactly unless there is one |
| `Fragmentation.ConfidentButOutside` | grid_solve/handelman/include/approximation.hpp:231-237 | an instance with exact oracles: for x - 1/4 >= 0 the interval from 0 to 1/2 is reported as confident although it contains the violating point 0 |
| `Fragmentation.BoundaryIsLost` | grid_solve/handelman/src/approximation.cpp:433-438 | an instance with exact oracles: for -x >= 0 the interval from 0 to 1 is dropped, and the feasible point 0 is lost |
| `BoxOracle.BoxCoreHalts` | grid_solve/handelman/tests/test1.cpp:77-84 | with the bounds of a box as templates, the assumptions are recorded with positive degree, so the generator ends for every constraint |
| `BoxOracle.CertifiedIsRight` | grid_solve/handelman/src/approximation.cpp:699-730 | if the system of a constraint has a solution once the bounds of a box are filled in, the constraint is non-negative at every point of the box |
| `BoxOracle.OraclesAreSound` | grid_solve/handelman/tests/test1.cpp:115-133 | oracles that answer yes only when such a system, for the constraint or for its negation, has a solution are sound for the branch and bound |
| `Fragmentation.DisciplineKept` | grid_solve/handelman/src/approximation.cpp:371-394 | each locked region, as one step, keeps the active count right, lets a thread go only when no work is left and none is active, and loses no wake-up |
| `Fragmentation.TruthKept` | grid_solve/handelman/src/approximation.cpp:366-533 | each locked region, as one step, keeps all marks right |
| `Fragmentation.PointKept` | grid_solve/handelman/src/approximation.cpp:366-533 | each locked region, as one step, keeps every sought strictly inner point in some box |
| `Fragmentation.HalvingCosts` | grid_solve/handelman/src/approximation.cpp:496-506 | halving the longest dimension, with rounding, lowers the number of boxes still to come |
| `ThreadProtocol.ExclusiveKept` | grid_solve/handelman/src/approximation.cpp:371-394 | statement by statement: if the mutex is released through the lock object or there is one thread, at most one thread is in a locked region, the mutex is locked exactly then, and the values a thread has read are current |
| `ThreadProtocol.Simulates` | grid_solve/handelman/src/approximation.cpp:366-533 | under exclusion every statement either changes nothing for the other threads or completes one locked region as one step |
| `ThreadProtocol.ExitIsSafe` | grid_solve/handelman/src/approximation.cpp:180-208 | in every interleaving of statements of the integer variant (or of one thread): no null pointer is followed, at most one thread is in a region, and once a thread has gone nothing is queued or in progress and the kept boxes cover every sought strictly inner point with right marks |
| `ThreadProtocol.ResultIsSequential` | grid_solve/handelman/src/approximation.cpp:366-533 | in every interleaving the kept boxes, with reports and multiplicity, are among those that one box after the other would give, and all of them once a thread has gone |
| `ThreadProtocol.KeptAreSettled` | grid_solve/handelman/src/approximation.cpp:366-533 | in every run each kept box lies in a starting box, is not filtered out or empty, has no constraint refuted on it, and is certified or small |
| `ThreadProtocol.NoDeadlock` | grid_solve/handelman/src/approximation.cpp:371-394 | in every such interleaving, unless all threads have gone some thread can go on without a spurious wake-up |
| `ThreadProtocol.BoundedRuns` | grid_solve/handelman/src/approximation.cpp:180-208 | every such interleaving has at most so many statements: a bound computed from the boxes, the size limit, the number of threads and the number of spurious wake-ups |
| `ReleaseTwice.SomeRunDeadlocks` | grid_solve/handelman/src/approximation.cpp:209-237 | the other variant, from every queue that is not empty and with any number of threads from two on: the lock object releases the mutex a second time, an update of the count is lost, and all threads sleep for ever |
| `ReleaseTwice.SomeRunFaults` | grid_solve/handelman/src/approximation.cpp:227-237 | the same variant, from every queue on which a second box is taken: a run gives one box to two threads, and the slower one then follows the null pointer at the end of the queue |
| `ReleaseTwice.NoDeadlockIff` | grid_solve/handelman/src/approximation.cpp:209-394 | from a given queue that is not empty, no run of n threads deadlocks if and only if the integer variant is used or n is at most one |
| `ReleaseTwice.NoFaultIff` | grid_solve/handelman/src/approximation.cpp:209-394 | from a given queue, no run of n threads follows a null pointer if and only if the integer variant is used, n is at most one, or no second box is taken (the queue is empty or holds one box that is not halved) |
| `AllIntervalSeries.Ais` | z3/examples/python/all_interval_series.py:20-42 | the loops build exactly the specified list of constraints |
| `AllIntervalSeries.DiffAtMeans` | z3/examples/python/all_interval_series.py:13-17 | the clause is true if and only if the entries at positions j and j+1 differ by i |
| `AllIntervalSeries.ExactlyOnesMeans` | z3/examples/python/all_interval_series.py:27-33 | at-most-one plus at-least-one, for every list, means exactly one true member in each |
| `AllIntervalSeries.Pigeonhole` | z3/examples/python/all_interval_series.py:30-41 | as many numbers as a range holds are distinct if and only if they cover the range |
| `AllIntervalSeries.AtMostOnceIffAtLeastOnce` | z3/examples/python/all_interval_series.py:38-41 | the differences of a permutation occur at most once each if and only if they occur at least once each |
| `AllIntervalSeries.ColumnsMeanPermutation` | z3/examples/python/all_interval_series.py:30-33 | the column constraints hold if and only if the values form a permutation |
| `AllIntervalSeries.DiffColumnsMeanSeries` | z3/examples/python/all_interval_series.py:38-41 | for a permutation, the difference constraints hold if and only if it is an all-interval series |
| `AllIntervalSeries.EncodingExact` | z3/examples/python/all_interval_series.py:20-42 | the models of the encoding are exactly the matrices of all-interval series |
| `AllIntervalSeries.SmallerEncodingSuffices` | z3/examples/python/all_interval_series.py:34-41 | given rows and columns, the per-position constraints are redundant and at-least-one per difference is enough |
| `AllIntervalSeries.ProcessModel` | z3/examples/python/all_interval_series.py:44-63 | reads the series and its blocking literals from a model; the assertion against a second true cell never fails |
| `AllIntervalSeries.BlockExcludesOnly` | z3/examples/python/all_interval_series.py:71 | the blocking clause of a series excludes that series and no other |
| `AllIntervalSeries.RemainingModels` | z3/examples/python/all_interval_series.py:69-71 | after blocking, the models left are exactly the series not yet reported |
| `AllIntervalSeries.AllModels` | z3/examples/python/all_interval_series.py:65-75 | the loop ends, reports every all-interval series exactly once, and counts them |
| `Efsmt.SubstEval` | z3/examples/python/efsmt.py:21 | substituting values evaluates like overriding the environment |
| `Efsmt.EvalAgree` | z3/examples/python/efsmt.py:11 | the value of a formula depends only on its variables |
| `Efsmt.VerifiedCandidate` | z3/examples/python/efsmt.py:19-30 | a candidate whose negated instance is unsatisfiable makes the formula true for all values of the universal variables |
| `Efsmt.ToldIsImplied` | z3/examples/python/efsmt.py:26-28 | every instance learnt from a counterexample holds at every solution |
| `Efsmt.NoCandidateMeansUnsolvable` | z3/examples/python/efsmt.py:32-33 | if no candidate is left, no values of the existential variables work |
| `Efsmt.RoundRefutes` | z3/examples/python/efsmt.py:25-28 | each counterexample refutes the candidate of its round |
| `Efsmt.LaterSurvives` | z3/examples/python/efsmt.py:18-28 | each candidate survives the counterexamples of all earlier rounds |
| `Efsmt.NoRepetition` | z3/examples/python/efsmt.py:16-31 | in every run no candidate and no counterexample occurs twice |
| `Efsmt.FiniteDomainBounds` | z3/examples/python/efsmt.py:16-31 | if candidates or counterexamples come from a finite domain, its size bounds the number of rounds |
| `Efsmt.Solve` | z3/examples/python/efsmt.py:9-34 | the result is that of the run: the rounds made are those of the run, one per loop, and the next step stops with the result, or the loops allowed by maxloops are used up; both definite answers are right, and unknown ones are passed on |
| `HeaderRules.ConsistentAppend` | z3/scripts/mk_util.py:1072-1082 | writing one complete rule keeps the generator consistent |
| `HeaderRules.Generator.AddRuleForEachInclude` | z3/scripts/mk_util.py:1060-1065 | on success every include of the file is marked, rules are complete, and only headers the file includes are added; failure means a reachable include is missing |
| `HeaderRules.Generator.AddHRule` | z3/scripts/mk_util.py:1072-1082 | a header is processed at most once, ends on cyclic includes too, and leaves no rule open |
| `HeaderRules.Generator.AddSources` | z3/scripts/mk_util.py:1084-1093 | succeeds if and only if nothing reachable is missing; then exactly the transitively included headers have a rule, one each, listing exactly their includes |
| `HeaderRules.Finished` | z3/scripts/mk_util.py:1052-1093 | when all sources are done, the headers with a rule are exactly the needed ones |
| `HeaderRules.TransitivelyFirst` | z3/scripts/mk_util.py:1052-1082 | when prerequisites come first, so do all transitive ones |
| `HeaderRules.OrderedIffAcyclic` | z3/scripts/mk_util.py:1052-1082 | every rule follows the rules of its prerequisites if and only if no header includes itself transitively |
| `Components.FindAllDeps` | z3/scripts/mk_util.py:967-978 | fails exactly for an unknown dependency; otherwise lists the dependencies and theirs, each once |
| `Components.DefinedKeepsClosed` | z3/scripts/mk_util.py:967-990 | a new definition keeps every dependency list equal to the transitive closure of the declarations |
| `Components.Build.AddComponent` | z3/scripts/mk_util.py:2395-2402 | fails exactly for a used name or an unknown dependency and then changes nothing; in every run the registry stays closed |
| `Components.SortDescends` | z3/scripts/mk_util.py:1240-1241 | the sorted names are in order of decreasing definition time |
| `Components.DependentsFirst` | z3/scripts/mk_util.py:1240-1241 | in the sorted list every component precedes all components it depends on |
| `SymbolicLink.CreateRelativeSymbolicLink` | z3/scripts/mk_util.py:3449-3484 | the loop stores the specified relative path, or fails exactly when that path would be absolute |
| `SymbolicLink.PrefixOfComponents` | z3/scripts/mk_util.py:3428-3446 | the textual prefix test with a trailing slash means a proper prefix of path components |
| `SymbolicLink.DirnameOfAbsPath` | z3/scripts/mk_util.py:3475-3478 | dirname of an absolute path drops the last component |
| `SymbolicLink.ClimbToTop` | z3/scripts/mk_util.py:3475-3478 | climbing stops at the deepest ancestor that contains the target, after one ../ per level |
| `SymbolicLink.StoredIs` | z3/scripts/mk_util.py:3475-3484 | the text stored: the climbs followed by the rest of the target, or an absolute path |
| `SymbolicLink.ResolveUps` | z3/scripts/mk_util.py:3478 | k times ../ resolves k levels up |
| `SymbolicLink.ResolvesIff` | z3/scripts/mk_util.py:3449-3484 | the stored path is relative and resolves to the target if and only if the link directory is the root or does not contain the target |
| `SymbolicLink.LinksResolve` | z3/scripts/mk_util.py:3449-3484 | the same for a link given as a file name and as a directory name |
| `ProfileDiff.PutKeepsOrder` | z3/contrib/qprofdiff/main.cpp:156-199 | storing an entry keeps the map ordered by name and changes no other entry |
| `ProfileDiff.StrictWeakOrder` | z3/contrib/qprofdiff/main.cpp:113-122 | the comparator is irreflexive, transitive, and ties are transitive, for items that are not both left-only and right-only |
| `ProfileDiff.ComparatorIsBefore` | z3/contrib/qprofdiff/main.cpp:113-122 | between items in name order the comparator agrees with the order by group, difference and name |
| `ProfileDiff.StableSortOrders` | z3/contrib/qprofdiff/main.cpp:210-214 | the stable sort of items in name order is ordered by group, difference and name, and has the same items |
| `ProfileDiff.SortedMeans` | z3/contrib/qprofdiff/main.cpp:113-122 | in the sorted list right-only items come first and left-only ones last; within a kind the chosen column (instances, generation or cost) increases, and ties come in name order |
| `ProfileDiff.LessMeans` | z3/contrib/qprofdiff/main.cpp:113-122 | the order of names: they agree up to a position where the first ends or has the smaller character |
| `ProfileDiff.Diff` | z3/contrib/qprofdiff/main.cpp:155-214 | every quantifier of either profile appears exactly once, with its differences, in that order |
| `ProfileDiff.TrueDifference` | z3/contrib/qprofdiff/main.cpp:165-197 | a reported difference is the true one, absent quantifiers counting as zero, if and only if it is a signed 32-bit integer |
| `ProfileDiff.SwapNegates` | z3/contrib/qprofdiff/main.cpp:165-197 | swapping the profiles negates an entry and swaps its flags if and only if no count of the quantifier, shared or one-sided, differs by 2^31 |
| `ProfileDiff.OneSidedHalfway` | z3/contrib/qprofdiff/main.cpp:178-195 | an instance where it fails: a quantifier of one profile only, counted 2^31 times, is reported with the same number either way |
| `ProfileDiff.SwappedReport` | z3/contrib/qprofdiff/main.cpp:155-214 | the swapped report is the negated report if and only if that holds for every quantifier |

## Left out

- Multinomial.MulEval: exponents are unbounded; the 16-bit keys of the maps wrap above 65535, which PolynomialShape.ExponentsBounded and Generator.GenOver let a caller exclude.
- Multinomial.ScaleEval: coefficients are exact reals; rounding of doubles is not modelled, here and in all polynomial members.
- Multinomial.AddEval: sums are built with the copying branch of adding a constant, which AddConstInPlaceEval shows to have the same value as the in-place one; who deletes which object is not modelled.
- Monotone.LargerSystemKeepsSolutions: assumes that program variables come first among the symbols of the smaller problem. Otherwise a solution need not be a representation, because `reduce` stops at a template and then depends on which nodes addition leaves in the polynomial, so weights cannot be carried over as a polynomial identity.
- HandelmanCore.Handelman.GenPol: requires that the recursion ends, since otherwise it has no result; Generator.GenTerminatesIff says exactly when.
- HandelmanCore.Handelman.Solve: models the generation of the constraints; the choice of a back-end by `type` and the calls to it are left out, and it requires that gen_pol ends for every conclusion.
- HandelmanCore.Handelman.PlainSolve: requires that the polynomials use only constants that existed when the solver was created; the source indexes its vector of constants by id.
- VariableTable.Table.AddVar: the lookup by bare name, which inserts position 0 for an unknown name, is not modelled.
- Fragmentation.ProcessBox: logging, trace files and the path that ends the process on an error are left out; the certificate back-ends and the trie filter are the oracles `pos`, `neg` and `wanted`, the first two tied to the Handelman systems by BoxOracle.OraclesAreSound.
- ThreadProtocol.ExitIsSafe: the doubly linked list is a queue of values; the list's own mutex, under which nodes are unlinked, is not modelled. Each statement is one step, with reading and writing the count as two.
- ReleaseTwice.SomeRunDeadlocks: releasing a mutex that another thread holds, which the library leaves undefined, unlocks it.
- ThreadProtocol.BoundedRuns: box bounds are exact reals, so that halving always shortens a box.
- AllIntervalSeries.AllModels: the solver is a function that finds a model exactly when there is one; statistics and timing are left out.
- Efsmt.Solve: without maxloops the loop need not end, so a bound on the number of rounds is required in that case only; formulas are built from comparisons, negation and conjunction.
- HeaderRules.Generator.AddSources: extraction of include directives and the lookup among component directories are given as an include graph; the text of the rules is left out.
- Components.Build.AddComponent: paths and component kinds are left out.
- SymbolicLink.LinksResolve: names are nonempty and contain no slash and are neither `.` nor `..`, which is how the generator calls it; CreateRelativeSymbolicLink itself has no such restriction.
- ProfileDiff.Diff: a profile is a list of rows in name order, as the ordered map iterates; parsing and printing are left out, and `-(int)x` for `x` equal to 2^31, whose result C++ leaves undefined, wraps to -2^31.
- Single-threaded fragmentation (`run`), rounding with `type` 0, and the printing of SMT and nonlinear problems.
- The solver back-ends (Z3, Yices, Gurobi, incremental solving) and the expression parser.
- Z3, Yices and cvc5 themselves, the binding generators, and the rest of the makefile generator: outside the algorithmic core or only easy members.
