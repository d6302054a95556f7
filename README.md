# Interval mode analysis of a measurement series (lab9)

A Dafny model of the interval analysis in `lab9/src/lab9.py`. Each measurement
`d` stands for the interval `[d - eps, d + eps]`, where `eps = 0.001`. The script
does the following:

- It collects every interval endpoint, removes duplicates and sorts them into the
  breakpoints `y`.
- It forms elementary cells `[y[i], y[i+1]]`.
- It scores each cell by a coverage count and returns the mode: the cells of
  maximal coverage, together with that maximum.
- It computes two ratios: a Jaccard-style coefficient and the relative width of
  the mode.
- It splits the measurements into those inside a mode cell and the rest.
- It builds the linear program `min w` subject to `A (w, beta) <= b` for the
  Oskorbin centre.

Modules, one per part of the script:

- `Measurements` (`measurements.dfy`): the radius `Eps`, intervals, the
  endpoint and elementary-cell predicates, and the `Result` type for Python's
  `IndexError` and `ZeroDivisionError`.
- `Breakpoints` (`breakpoints.dfy`): the list `y` (append loop, `list(set(y))`,
  in-place `sort()` on an array) and the cells `z`.
- `Mode` (`mode.dfy`): the coverage count, the running-maximum loop with its
  index list `coefs`, and `mode_and_max_click`, specified by `IsModeOf`.
- `Coefficients` (`coefficients.dfy`): `estimators_of_data`, `Jakar_coeff` and
  `relative_width_of_the_mode`.
- `Oskorbin` (`oskorbin.dfy`): the construction of `A`, `b` and `c`, and the
  optimum of that program.
- `Partition` (`partition.dfy`): the classification loop of `diagram_with_mode`.

Measurements are exact `real`s. Python's errors become `Err(EmptyInput)` and
`Err(ZeroDivision)`.

The coverage rule of line 87 shapes every result below:

- Coverage counts the measurements that have an endpoint inside the closed
  cell, not the intervals that share more than a point with the cell.
- Counting by such overlap, the data `0, 10` would give two cells of
  coverage 1. The code gives the gap cell `[0.001, 9.999]` coverage 2, and
  that cell is the whole mode (`Mode.ModeOfDisjointPair`). Neither measurement's interval
  contains it (`Partition.PartitionOfDisjointPair`).

## Model

| member | source | states |
|---|---|---|
| `Measurements.IntervalOf` | lab9/src/lab9.py:139 | the interval `[d - eps, d + eps]` of a measurement contains `d`, is non-degenerate and has width `2 eps` |
| `Measurements.IntervalData` | lab9/src/lab9.py:139 | `interval_data` has one interval per measurement, in order, each centred on its measurement with width `2 eps` |
| `Breakpoints.Dedup` | lab9/src/lab9.py:79 | `list(set(y))` holds the same values as `y`, each once, and is no longer than `y` |
| `Breakpoints.SortInPlace` | lab9/src/lab9.py:80 | sorting the list of distinct values in place leaves it strictly increasing and a permutation of what it held |
| `Breakpoints.SortedBreakpoints` | lab9/src/lab9.py:75-80 | the breakpoints are strictly increasing and hold exactly the values `d - eps` and `d + eps` of the measurements; there are at most `2 len(data)` of them |
| `Breakpoints.Cells` | lab9/src/lab9.py:81-83 | there are `len(y) - 1` cells (none for an empty `y`), `z[i] = [y[i], y[i+1]]`; over strictly increasing breakpoints every cell has `lo < hi` and the cells run left to right |
| `Breakpoints.CellsAreElementary` | lab9/src/lab9.py:75-83 | each cell is elementary (two endpoints with no endpoint strictly between), and every elementary cell is one of the cells |
| `Mode.Coverage` | lab9/src/lab9.py:87 | the number of measurements with `d - eps` or `d + eps` in the closed cell is at most `len(data)` |
| `Mode.CoverageZeroIff` | lab9/src/lab9.py:87 | coverage is 0 if and only if no measurement has an endpoint in the cell |
| `Mode.CoverageFullIff` | lab9/src/lab9.py:87 | coverage is `len(data)` if and only if every measurement has an endpoint in the cell |
| `Mode.ElementaryCellCovered` | lab9/src/lab9.py:86-87 | every elementary cell has coverage at least 1, because its low end is some measurement's endpoint |
| `Mode.MaxCells` | lab9/src/lab9.py:94 | the selected cells are exactly the cells of `z` whose coverage equals the given maximum |
| `Mode.MaxCellsOrdered` | lab9/src/lab9.py:94 | the selection keeps the breakpoint order of the cells |
| `Mode.ScoreCells` | lab9/src/lab9.py:84-94 | `max_mu` bounds every cell's coverage, is reached by some cell (0 when there are no cells), and the mode is the max-coverage cells in order, even though `coefs` may list an index twice |
| `Mode.ModeAndMaxClick` | lab9/src/lab9.py:71-95 | the mode is exactly the elementary cells of maximal coverage, left to right, without repeats; `max_mu <= len(data)`; empty data gives `([], 0)`; non-empty data gives a non-empty mode and `max_mu >= 1` |
| `Mode.ModeIsUnique` | lab9/src/lab9.py:71-95 | the result is determined by the data: two results meeting `IsModeOf` are equal |
| `Mode.ModeOfSingleMeasurement` | lab9/src/lab9.py:75-95 | one measurement `d` gives the mode `[[d - eps, d + eps]]` with `max_mu = 1` |
| `Mode.ModeOfRepeatedMeasurement` | lab9/src/lab9.py:75-95 | two equal measurements `d` give the mode `[[d - eps, d + eps]]` with `max_mu = 2` |
| `Mode.ModeOfDisjointPair` | lab9/src/lab9.py:86-95 | the measurements `0, 10` give the mode `[[0.001, 9.999]]` (the gap cell) with `max_mu = 2` |
| `Coefficients.Estimators` | lab9/src/lab9.py:64-69 | the estimate fails exactly on empty data, and otherwise is the span from the first interval's low end to the last interval's high end, for any order of the data |
| `Coefficients.EstimatorsSpanAllIntervals` | lab9/src/lab9.py:64-69 | on sorted data `(data[0] - eps, data[-1] + eps)` are endpoints that enclose every endpoint: the hull of all measurement intervals |
| `Coefficients.MaxLow` | lab9/src/lab9.py:101-104 | `min_inc[0]` after the loop is the largest low end: no low end exceeds it and some interval has it |
| `Coefficients.MinHigh` | lab9/src/lab9.py:101-104 | `min_inc[1]` after the loop is the smallest high end: no high end is below it and some interval has it |
| `Coefficients.CommonPart` | lab9/src/lab9.py:101-104 | `min_inc` contains a point exactly when every interval does; its width is non-negative exactly when the intervals share a point |
| `Coefficients.JaccardCoefficient` | lab9/src/lab9.py:97-107 | empty input fails; zero span from the first low end to the last high end fails; otherwise the result is the signed width of the intersection over that span |
| `Coefficients.JaccardOfCopies` | lab9/src/lab9.py:97-107 | `n > 0` copies of one non-degenerate interval give exactly 1 |
| `Coefficients.JaccardOfSortedData` | lab9/src/lab9.py:105-106 | on sorted data the denominator is positive and at least the numerator, so the coefficient is defined and at most 1 |
| `Coefficients.RelativeModeWidth` | lab9/src/lab9.py:109-114 | empty interval data fails; a zero span fails; otherwise the result succeeds and times the span is the summed width of the mode cells |
| `Coefficients.SumWidthsBound` | lab9/src/lab9.py:113 | cells in left-to-right order that start at or after `a` have a summed width between 0 and the last high end minus `a` |
| `Coefficients.RelativeModeWidthInUnitRange` | lab9/src/lab9.py:109-114 | on sorted data, with the mode `mode_and_max_click` returns, the relative mode width is defined and lies in `[0, 1]` |
| `Coefficients.RelativeWidthOfSingleMeasurement` | lab9/src/lab9.py:109-114 | for one measurement the relative width of its mode is exactly 1 |
| `Oskorbin.ConstraintSystem` | lab9/src/lab9.py:120-130 | `len(A) = len(b) = 2n + 1`, `c = [1, 0]`, and `(w, beta)` satisfies every row of `A x <= b` iff `w >= 1` and `abs(beta - d) <= eps w` for every `d` |
| `Oskorbin.SystemMeaning` | lab9/src/lab9.py:122-129 | rows `[-eps, -1] / -d` and `[-eps, 1] / d` per measurement plus `[-1, 0] / -1` say exactly that `[beta - eps w, beta + eps w]` holds every `d` and `w >= 1` |
| `Oskorbin.OptimalInflation` | lab9/src/lab9.py:120-131 | for non-empty data the program is feasible and bounded: `beta` at the data's midpoint with `w = max(1, (max - min) / (2 eps))` is feasible, and no feasible point has smaller `w` |
| `Oskorbin.SymmetricPairOptimum` | lab9/src/lab9.py:120-131 | for the data `-1, 1` the optimum is `w = 1000` and the only centre at that `w` is `beta = 0` |
| `Partition.PartitionByMode` | lab9/src/lab9.py:38-50 | every index goes to exactly one of `index_mode` and `index_not_mode`, both increasing; an index is in `index_mode` iff some mode cell `m` has `m[0] >= d - eps` and `m[1] <= d + eps`; the value lists hold the data at those indices |
| `Partition.PartitionOfDisjointPair` | lab9/src/lab9.py:38-50 | for the data `0, 10` and its mode, no index is in `index_mode` |

## Left out

- Plotting is not modelled: `plot_data`, `diagram`, and the drawing part of `diagram_with_mode` are matplotlib output.
- The `__main__` block is not modelled apart from `interval_data` (line 139): the pandas CSV load, the prints and the file paths are I/O.
- The `opt.linprog` call is not modelled, because it is a foreign solver. The model does not claim which point linprog returns.
- `OptimalInflation` is the optimum of `A x <= b` alone. linprog also applies default bounds `w >= 0` and `beta >= 0`, which are not part of the built system. When every optimal centre is negative (for example, data spread wider than `2 eps` with a negative midpoint), the bound `beta >= 0` forces a larger `w` than `OptimalInflation` gives.
- Floating point is not modelled. Values are exact reals, `10e-4` is exactly `0.001`, and the set never merges nearly-equal floats.
- The sort algorithm is not modelled. `y.sort()` is modelled as an in-place selection sort, and only its result, a strictly increasing permutation, is claimed. Python's iteration order over the set is arbitrary and does not affect the sorted result.
- pandas label indexing is not modelled. `data[0]` and `data[size - 1]` on the series are modelled as positional access on a sequence.
- The other scripts are not part of this model: lab1-4/src/lab1.py, lab2.py, lab3.py, lab4_edf.py, lab4_kde.py, lab5-8/src/lab6.py and lab8.py. They draw random samples and call plotting and statistics libraries on floats.
