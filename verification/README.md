# Impurity state populations: a Dafny model of the structural core

The modelled program computes the populations of the ionization and
excitation states of impurity ions in a plasma. It has three parts:

- **A state and transition catalogue.** States are loaded from a table and
  numbered. Collisional transitions are kept when both ends resolve.
  Spontaneous-emission pairs are matched against a rate table.
- **A rate matrix per spatial cell.** Every process takes population from
  one state and gives it to another.
- **A solver.** It finds the steady state directly (with one row replaced
  by a conservation constraint), or steps backward-Euler in time until the
  residual settles. Spatial cells are split across MPI ranks.

Physics is not modelled. Cross-section integrals, interpolation tables,
exponentials and normalisations all become real-valued inputs. Every
linear solve and matrix inversion is an oracle that returns an answer or
a failure. All arithmetic is exact (`real`).

Modules, one per file:

| module | file | what it models |
|---|---|---|
| `Common` | common.dfy | Option, sums, maxima, dot products, matrix-vector products |
| `Layout` | layout.dfy | a rank's cell-by-state array flattened into one vector and back |
| `Catalogue` | catalogue.dfy | `load_states`, `get_state`, `get_ground_state`, `load_transitions`, `load_spontem_transitions` |
| `RateMatrix` | rate_matrix.dfy | accumulation in `build_rate_matrices`; the radiative-recombination clamp and power |
| `CellSolve` | cell_solve.dfy | the serial `solve` and `evolve` of an impurity species, and the backward-Euler operator |
| `Diagnostics` | diagnostics.dfy | `get_Zavg`, `get_Zeff`, `get_z_dens`, `get_saha_eq` |
| `DirectSolve` | direct_solve.dfy | solver.py `solve`: conserving right-hand side, ones-row override, failure return |
| `StoppingLoop` | stopping_loop.dfy | the control flow of the solver.py `evolve` loop, generic in the state |
| `BackwardEuler` | backward_euler.dfy | solver.py `evolve` on all ranks: per-rank solves, max/sum reductions |
| `Setup` | setup.dfy | sike/core.py: input dispatch, rank partition, grid widths, `run`, result storing, P/Q blocks |

The main results are these:

- Every column of every cell's rate matrix sums to zero, whatever the
  coefficients are.
- Any exact solution of the conserving system keeps each cell's total.
- `I - dt*R` and its inverse keep totals.
- The stopping loop stops exactly where the stopping rule says.
- The rank partition covers the grid, and every cell belongs to exactly
  one rank.
- Flattening and unflattening are inverses.
- The diagnostics add back up to the cell totals.

## Model

| member | source | states |
|---|---|---|
| Common.MaxAbsDiffIsLargest | solver.py:151 | the largest absolute change is non-negative, bounds every entry's change and is attained by one |
| Layout.FlattenAt | solver.py:105 | state i of cell j sits at flat index j*ns+i, inside the flat vector |
| Layout.UnflattenFlatten | solver.py:194-195 | reading cell j, state i from index i + j*ns undoes the row-by-row flattening |
| Layout.FlattenUnflatten | solver.py:71-72 | flattening the cell-by-state read-back gives the solver's vector back |
| Catalogue.LoadStates | impurity.py:37-46 | the result holds exactly the records of stages below numZ in file order, the k-th kept one numbered k; its length is tot_states |
| Catalogue.LoadedStatesIndexed | impurity.py:42-46 | every loaded state's location is its position in the table and its stage is below numZ |
| Catalogue.GetState | impurity.py:136-139 | None exactly when no state has that stage and name; otherwise the first such state |
| Catalogue.GetGroundState | impurity.py:141-144 | None exactly when no state has that stage; otherwise the first state of the stage |
| Catalogue.KeptFor | impurity.py:63-107 | a per-process reference list: every transition in it is of that process, has its switch on and joins two loaded states |
| Catalogue.LoadCollisional | impurity.py:63-107 | the single pass puts into each process list exactly that process's reference list, and nothing into the emission list |
| Catalogue.KeptForComplete | impurity.py:63-107 | every record whose endpoints resolve and whose switch is on ends up in its process's list |
| Catalogue.SpontEmAsWritten | impurity.py:119-134 | as written, every emission joins two distinct-named states of one stage, with the mean rate of some stage's matching table lines |
| Catalogue.SpontEmStageMismatch | impurity.py:119-124 | a concrete table where the loop as written creates a stage-1 emission from a stage-0 table line, which the corrected matching does not |
| Catalogue.LoadSpontEm | impurity.py:119-134 | corrected: every emission joins two distinct-named states of one stage and carries the mean of that stage's table lines for the pair |
| Catalogue.LoadSpontEmComplete | impurity.py:119-134 | corrected: every same-stage pair with distinct names and matching table lines gets its emission |
| RateMatrix.AddFluxKeepsColumnSums | impurity.py:272-280 | a loss at (from,from) and an equal gain at (to,from) leave every column sum unchanged |
| RateMatrix.AccumulateKeepsColumnSums | impurity.py:206-353 | adding any sequence of loss/gain pairs leaves every column sum unchanged |
| RateMatrix.AccumulateKeepsSigns | impurity.py:206-353 | with non-negative rates, the diagonal stays non-positive and everything off it non-negative |
| RateMatrix.ForwardInverseFluxes | impurity.py:208-263 | each ionization or excitation gives a forward pair at the forward rate and a mirrored pair at the inverse rate |
| RateMatrix.ClampRadRec | impurity.py:269-270 | the clamped coefficient is non-negative, at least the input, and is either the input or zero |
| RateMatrix.RadRecFluxes | impurity.py:265-280 | each radiative recombination moves population from -> to at ne times the clamped coefficient |
| RateMatrix.EmissionFluxes | impurity.py:340-353 | each spontaneous emission moves population from -> to at its averaged rate |
| RateMatrix.BuildCellMatrix | impurity.py:206-353 | a cell's matrix is n-by-n and every column sums to zero, for any coefficients |
| RateMatrix.CellMatrixSigns | impurity.py:206-353 | with non-negative coefficients a cell's matrix has losses on the diagonal and gains off it, even where interpolated recombination went negative |
| RateMatrix.BuildRateMatrices | impurity.py:206-353 | one matrix per cell, each built independently of the others, every column of every one summing to zero |
| RateMatrix.LoadedTransitionsWellFormed | impurity.py:63-134 | every transition loaded from a loaded state table joins two locations inside the table, with the emission list as loaded and as corrected |
| RateMatrix.RadRecPowerNonNegative | impurity.py:654-664 | the recombination power is non-negative for non-negative densities, energies and ne, whatever the interpolated coefficient |
| CellSolve.WithConservationRow | impurity.py:367-368 | the last row becomes all ones and every other entry is kept |
| CellSolve.CellRhs | impurity.py:369-370 | the right-hand side is zero except its last entry, which is the cell's prior total |
| CellSolve.CellSolutionConserves | impurity.py:365-373 | any exact solution of a cell's conserving system has the cell's prior total |
| CellSolve.SolveCells | impurity.py:365-382 | cells are set up, inverted and overwritten in order until the first failing inversion; every cell is written exactly when no inversion fails; each written cell holds its own system's solution, and exact solutions keep the cell's total; cells from the failing one on keep their densities, and only matrices up to the failing one get their ones row |
| CellSolve.KeepsTotal | impurity.py:389-390 | an operator whose columns sum to one keeps the total of the vector it multiplies |
| CellSolve.EulerMatrix | impurity.py:355-358 | entry (r,c) of I - dt*R is the identity entry minus dt times R's entry |
| CellSolve.EulerColumnSums | impurity.py:355-358 | with zero column sums in R, every column of I - dt*R sums to one, for any dt |
| CellSolve.InverseColumnSums | impurity.py:355-358 | a right inverse of a matrix whose columns sum to one also has columns summing to one |
| CellSolve.StepCells | impurity.py:387-390 | each cell's new densities are its operator times its old ones, and a cell whose operator inverts I - dt*R keeps its total |
| CellSolve.GridMaxAbsDiff | impurity.py:392 | the residual is non-negative, bounds every density's change and is attained by one |
| CellSolve.Evolve | impurity.py:384-404 | both species are stepped, and the residual bounds every change of either species and equals one of them |
| Diagnostics.MomentZeroIsTotal | impurity.py:437-439 | for a loaded table the zeroth moment over the states is the cell's total density |
| Diagnostics.Zavg | impurity.py:432-454 | times the total, the mean charge is the first moment when the total is positive; otherwise it is the undivided moment |
| Diagnostics.ZavgBounds | impurity.py:432-454 | with non-negative densities the mean charge lies in [0, numZ-1] |
| Diagnostics.Zeff | impurity.py:406-430 | times ne, Zeff is the second moment when the impurity total is positive; undefined (None) exactly when that division is by ne = 0 |
| Diagnostics.ZeffDominatesZavg | impurity.py:406-430 | with non-negative densities and ne > 0, Zeff*ne is at least Zavg times the impurity total |
| Diagnostics.ZDens | impurity.py:548-557 | slot z holds the summed density of the states of stage z, and the slots add up to the zeroth moment |
| Diagnostics.ZDensTotal | impurity.py:548-557 | for a loaded table the stage densities add up to the cell total |
| Diagnostics.GroundLocs | impurity.py:156-159 | None exactly when some stage has no state; otherwise slot z is the location of stage z's ground state |
| Diagnostics.GroundLocsOfIndexed | impurity.py:156-159 | ground-state locations are distinct and inside the table; stage 0's is location 0 iff the table starts with stage 0 |
| Diagnostics.ChainWeights | impurity.py:173-174 | there is one weight per stage and stage 0's weight is one |
| Diagnostics.ChainStep | impurity.py:173-178 | each stage's weight is the previous stage's weight times the density ratio between them |
| Diagnostics.SahaDenominator | impurity.py:173-174 | the denominator is the sum of all chain weights and is at least one |
| Diagnostics.SahaGround | impurity.py:175 | the ground density times the denominator is the cell's impurity total |
| Diagnostics.FillChain | impurity.py:175-178 | each stage's ground state gets c times its chain weight; locations outside the chain keep their values |
| Diagnostics.SahaRow | impurity.py:154-178 | the Saha row sums to the cell's impurity total when stage 0's ground state is location 0 and the chain is distinct; nothing outside the chain changes |
| DirectSolve.LastSlot | solver.py:30-32 | slot ns*(i+1)-1 is the last state of cell i and lies inside the vector |
| DirectSolve.ConservationRhs | solver.py:28-32 | length ns*count; zero except each cell's last-state slot, which holds that cell's prior total |
| DirectSolve.SetConservationRows | solver.py:43-48 | exactly the last row of each cell's block is set to one over that block; every other entry is kept |
| DirectSolve.SolutionConservesCellTotals | solver.py:28-48 | any exact solution of the conserving system gives every local cell its prior total |
| DirectSolve.Solve | solver.py:8-78 | None exactly when the converged reason is negative; otherwise the read-back solution, which keeps every cell's total when it is exact |
| StoppingLoop.IterateKeeps | solver.py:141-155 | every iterate of a step that keeps an invariant satisfies it |
| StoppingLoop.TraceAt | solver.py:141-155 | observation k of the trace is the observation of the k-th iterate |
| StoppingLoop.StopsAtExtend | solver.py:172-191 | a later observation does not change the stopping verdict on earlier steps |
| StoppingLoop.Drive | solver.py:141-195 | at most numT steps; no step before the last meets the stopping rule; a loop shorter than numT ended on a stopping step; None exactly when the last step failed; otherwise the last iterate (zero if no step ran) |
| BackwardEuler.Next | solver.py:144 | every rank's vector is replaced by its own solve's result |
| BackwardEuler.FailFlag | solver.py:145-148 | the flag is one exactly when the converged reason is negative, else zero |
| BackwardEuler.CountFailsPositive | solver.py:158-172 | the summed failure flags are positive exactly when some rank's solve failed |
| BackwardEuler.GlobalResidualIsLargest | solver.py:151-168 | the global residual bounds every rank's residual and is one of them |
| BackwardEuler.FailedIffSomeRank | solver.py:145-172 | a step counts as failed exactly when some rank's solve failed |
| BackwardEuler.ShapedIsClosed | solver.py:144-155 | a length-keeping solver keeps every rank's vector shape, so every step can be observed |
| BackwardEuler.Evolve | solver.py:141-195 | the stopping loop over all ranks, with Drive's guarantees for every rank's solves and reductions |
| BackwardEuler.TraceObservesRanks | solver.py:144-172 | step k failed exactly when a rank's solve from the k-th iterate failed, and its residual bounds every rank's |
| Setup.InitPathOf | sike/core.py:146-157 | distribution path iff fe and vgrid are given; else profile path iff Te and ne are given; else the ValueError (None) |
| Setup.ElectronsAfterInit | sike/core.py:245-247 | the profile path solves for Maxwellian electrons only; the distribution path keeps the requested modes |
| Setup.LocNumX | sike/core.py:204-210 | a rank's cell count is the difference between its ends |
| Setup.RangeOrdered | sike/core.py:204-210 | every rank's start is at most its end, and its end is at most num_x |
| Setup.PartitionCovers | sike/core.py:204-210 | every cell of the grid belongs to some rank, and to only one |
| Setup.CellCountsAddUp | sike/core.py:204-210 | the cell counts of the first k ranks add up to rank k-1's end, and over all ranks to num_x |
| Setup.SpatialWidths | sike/core.py:331-336 | None exactly when the grid has fewer than two points; otherwise one width per point, twice x[1] first, twice the last spacing last, and x[i+1]-x[i-1] in between |
| Setup.SpatialWidthsPositive | sike/core.py:331-336 | on a strictly increasing grid starting at or after 0, every width is positive |
| Setup.VelocityWidths | sike/core.py:338-342 | None exactly for an empty grid; otherwise dvc[0]=2v[0], neighbouring widths add to twice the spacing, and every point is the centre of its cell |
| Setup.RunActions | sike/core.py:344-364 | a phase runs iff enabled; each density computation directly follows its matrix build; kinetic comes before Maxwellian |
| Setup.StoreResultsAsWritten | sike/core.py:553-557 | each element's densities are replaced iff its solve returned a result; success ends up describing only the last element |
| Setup.EarlierFailureHidden | sike/core.py:553-557 | a first element that fails followed by one that succeeds leaves success true |
| Setup.StoreResults | sike/core.py:553-557 | corrected: densities as in the source, and success iff every element's solve returned a result |
| Setup.StoreResultsAgreeOnSuccess | sike/core.py:553-557 | when every solve succeeds the corrected store equals the store as written |
| Setup.BlocksAsWritten | sike/core.py:407-410 | M_P, M_Q, M_PQ and M_QP entry by entry as sliced: P is [0, numP), Q is [numP+1, n), and Q is empty when numP is n |
| Setup.StateNumPDropped | sike/core.py:407-410 | as sliced, when state numP exists the blocks span n-1 states and hold (n-1)^2 of the n^2 entries |
| Setup.PQBlocks | sike/core.py:407-410 | corrected: P is [0, numP) and Q is [numP, n); each block entry is the matching matrix entry |
| Setup.PQBlocksPartition | sike/core.py:407-410 | corrected: every index is in exactly one of P and Q, and every matrix entry appears in the block its indices select |

## Left out

- Reading and parsing the state, transition and emission tables is left out: the model takes already-split records.
- Plotting, console output and output-dataset assembly are left out.
- Cross-section integrals, Maxwellian generation and interpolation are inputs (`CellRates`), and so are the Saha density ratios and the power diagnostics' energy and unit factors. They are floating-point physics.
- The normalisation constants and `apply_normalisation` are left out for the same reason.
- Floating point is left out: all arithmetic is exact. The stopping test `i/num_t > 0.1` is on exact reals.
- Matrix inversion and Krylov solves are oracles. `np.linalg.inv` is a right inverse given as an input (`CellSolve.RightInverse`). A PETSc KSP solve returns a converged reason and a vector (`DirectSolve.KspResult`). Conservation is proved for exact oracle answers only.
- The Krylov tolerance and the iteration counts are left out, because they do not affect control flow.
- MPI gather, broadcast and barriers are left out. Every rank's value is one entry of a sequence, and the reductions are a max and a sum that every rank sees.
- The effective rate matrix `-(M_P - M_PQ inv(M_Q) M_QP)` is not formed, because it needs an inversion oracle and adds nothing to the block index ranges.
- `reorder_PQ_states` is not part of this model.
- The sike/core.py code calls `solver.evolve_petsc`, `evolve_np`, `solve_petsc` and `solve_np`. Those are not part of this model, so the storing loop takes each element's result as an input.
- Setup.MinX: uses the exact floor of rank*num_x/num_procs. The source computes `num_x/num_procs` in floating point and truncates with `int`, which can differ by one cell when the quotient is rounded.
- sike/core.py reads `self.opts`, `PETSc`, `num_procs` and `rank`, but they are not defined on every path. The partition takes the rank count and the rank as parameters.
- Default grids (`linspace` for x, the default velocity grid) are left out; the grids are inputs.
- BackwardEuler.Evolve: the result is every rank's flat vector. Reading it back per cell is `Layout.Unflatten`, whose round trip is `Layout.UnflattenFlatten`.
- BackwardEuler.Evolve: requires every rank to own at least one density. The source's `np.max` of an empty array would raise.
- BackwardEuler.Evolve: requires dt to be non-zero. With dt = 0 the source divides by zero and numpy's nan residual never meets the stop test, so all num_t steps run; nan is not a real number. A negative dt is modelled.
- CellSolve.Evolve: requires at least one cell and one state. On an empty grid the source's `np.max` of an empty array would raise.
- Setup.SpatialWidths: the widths' positivity is proved only for strictly increasing grids starting at or after 0. The source does not check its grid.
- Diagnostics.SahaRow: the source writes stage 0's density at location 0 rather than at stage 0's ground-state location. Totals are conserved only when the two coincide, which `Diagnostics.GroundLocsOfIndexed` ties to the table starting with a stage-0 state.
- CellSolve.SolveCells: requires every cell to have a square matrix of the state count. The source's numpy shapes guarantee this.
- CellSolve.SolveCells: a failed inversion raises `LinAlgError` in the source. Here it ends the loop with fewer cells written than there are cells. The state it leaves (earlier cells overwritten, later ones untouched) is stated, but the exception itself is not modelled.

## Findings

| source | as written | input that shows it | evidently intended | confidence | as-written member | corrected member |
|---|---|---|---|---|---|---|
| impurity.py:119-124 | the emission loop runs over every table stage z and matches any same-stage pair of states, without checking that the pair's stage is z | stages 0 and 1 both have levels "a" and "b"; the table has one stage-0 line from "a" down to "b"; a stage-1 emission a -> b is created with the stage-0 rate | only pairs of stage z are matched against stage z's lines | not executed; high | Catalogue.SpontEmAsWritten, Catalogue.SpontEmStageMismatch | Catalogue.LoadSpontEm, Catalogue.LoadSpontEmComplete |
| sike/core.py:407-410 | the Q block is sliced from num_P+1, so state num_P is in neither block | any matrix with n > num_P: row and column num_P never reach M_eff, and M_Q is (num_Q-1)-square | Q is [num_P, n), so P and Q partition the states | not executed; high | Setup.BlocksAsWritten, Setup.StateNumPDropped | Setup.PQBlocks, Setup.PQBlocksPartition |
| sike/core.py:553-557 | `success` is overwritten for each element, so after the loop it describes only the last element | two elements; the first element's solve returns None and the second succeeds; success ends up true | success is true only when every element's solve succeeded | not executed; medium | Setup.StoreResultsAsWritten, Setup.EarlierFailureHidden | Setup.StoreResults, Setup.StoreResultsAgreeOnSuccess |
