# Held-Karp TSP solver — Dafny model

This project models the core of a small Swift program that solves the
travelling-salesman problem exactly with the Held-Karp subset dynamic
programme. The model covers `solveTSP`, `validateTSPInput` and `verifyPath` in
`Sources/TSP/main.swift`. `solveTSP` works in four steps:

1. It allocates `dp[mask][v]`, filled with `INF = 1e9`, and `parent[mask][v]`, filled with `-1`.
2. It seeds `dp[1][0] = 0`.
3. It relaxes `dp[mask | {v}][v]` from every finite `dp[mask][u]`. Masks go in ascending order, and an update needs a strict `<`.
4. It takes the cheapest return to city 0, then rebuilds the tour backwards along the parent pointers.

In the model the city count `n` and the matrix `w` are explicit parameters.
The Swift program keeps them in top-level globals. The solver requires
non-negative off-diagonal costs. The program calls it only after
`validateTSPInput` has accepted the matrix, and that check guarantees exactly this.

Layout:

- `masks.dfy` (`Masks`): subsets as naturals below `2^n`. It defines the bit test `Has`, `mask | (1 << i)` as `Or`, `mask ^ (1 << i)` as `Xor`, and the full mask.
- `paths.dfy` (`Paths`): the `n x n` cost matrix, path cost, walks and tours. It also holds `ValidateInput` and `VerifyPath`.
- `recurrence.dfy` (`Recurrence`): the pure Held-Karp recurrence `Table`/`Fold`. This is exactly what each table cell holds once the transition loop is done. The module also proves that the recurrence is a first minimum, that finite cells form a parent chain, and that each cell is a lower bound on the cost of every walk.
- `solver.dfy` (`Solver`): the imperative solver. `InitTables`, `Relax` (the nested transition loop), `Extract` and `Reconstruct` make up `SolveTSP`. Its end-to-end contract says the result is a Hamiltonian cycle through city 0 and that its summed cost equals the returned cost. The cost is at most that of every tour. When no tour is found, the result is `(INF, [0])`.
- `program.dfy` (`Program`): the top-level flow. It validates the matrix, solves, re-sums the path and compares.

The model follows the code where the code differs from what one might expect:

- There is no separate "no feasible tour" result. When no return to city 0 costs less than `INF`, `solveTSP` returns `(1e9, [0])`.
- With a single city, the extraction loop `1 ..< n` is empty, so `n == 1` also yields `(1e9, [0])`. It does not yield the tour `[0, 0]` with cost 0.
- Re-summing `[0]` gives 0, so the program's own cost check reports a mismatch whenever the cost is `1e9`. `Program.Run` states this: the check passes exactly when a tour was found.

## Model

| member | source | states |
|---|---|---|
| Masks.Pow2 | Sources/TSP/main.swift:68 | the unbounded `2^i`, always positive; it agrees with Swift's `1 << i` only for `i <= 62` (see `Masks.Pow2` under "Left out") |
| Masks.Has | Sources/TSP/main.swift:80 | the bit test `(mask & (1 << u)) != 0`; a mask holding city `i` is at least `1 << i` |
| Masks.Or | Sources/TSP/main.swift:90 | `mask \| (1 << v)` holds exactly the cities of `mask` plus `v`, and is never below `mask` |
| Masks.Xor | Sources/TSP/main.swift:122 | `mask ^ (1 << c)` toggles exactly city `c`; it removes `c` when `c` is present, and the mask then strictly decreases |
| Masks.OrBelow | Sources/TSP/main.swift:86-90 | the new mask of a transition is still an index of the `2^n`-row table |
| Masks.FullHas | Sources/TSP/main.swift:102 | `(1 << n) - 1` holds every city below `n` |
| Paths.ValidateInput | Sources/TSP/main.swift:133-147 | returns false iff some off-diagonal cost `w[i][j]` with `i != j` is negative; diagonal entries never make it fail |
| Paths.VerifyPath | Sources/TSP/main.swift:175-181 | the sum of `w[p[i]][p[i+1]]` over consecutive pairs; 0 for a one-city path |
| Recurrence.FoldMonotone | Sources/TSP/main.swift:93-96 | a cell's value only ever decreases as sources are relaxed into it |
| Recurrence.FoldTieBreak | Sources/TSP/main.swift:93-95 | the strict `<` keeps the first source that attains the minimum: every usable earlier source offers strictly more |
| Recurrence.TableShape | Sources/TSP/main.swift:72-96 | a final cell holds its seed with parent `-1`, or the offer `dp[m-{x}][p] + w[p][x]` of a usable parent `p` |
| Recurrence.TableBelowOffers | Sources/TSP/main.swift:90-96 | a final cell is at most the offer of every usable source of `m - {x}` |
| Recurrence.TableFirstAttainer | Sources/TSP/main.swift:93-95 | every usable source below a final cell's parent offers strictly more |
| Recurrence.TableMinimum | Sources/TSP/main.swift:77-99 | a final cell `(m, x)` is at most its seed and at most every usable source's `dp[m-{x}][u] + w[u][x]`, equals the seed or one such offer, and its parent is the first source attaining it |
| Recurrence.TableBound | Sources/TSP/main.swift:65-74 | no cell ever exceeds `INF` |
| Recurrence.TableChain | Sources/TSP/main.swift:77-99 | a finite cell has bits 0 and `x` in its mask; `dp[m][0]` is finite only for `m == 1`, where it is 0 with no parent; otherwise the parent `p != x` is in `m - {x}` with a finite cell, and `dp[m][x] == dp[m-{x}][p] + w[p][x]` |
| Recurrence.TableLowerBound | Sources/TSP/main.swift:67 | with non-negative off-diagonal costs, every walk from 0 over exactly the cities of `m` ending at `x` costs at least `dp[m][x]`, unless it costs `INF` or more |
| Solver.TableIsMinimum | Sources/TSP/main.swift:67-99 | with non-negative off-diagonal costs, a final cell `dp[m][x]` is never above `INF`, is at most the cost of every walk from 0 over exactly `m` ending at `x` that costs less than `INF`, and when finite is the cost of such a walk; so it is the minimum walk cost when that is below `INF`, and `INF` otherwise |
| Solver.InitTables | Sources/TSP/main.swift:68-74 | after initialisation every `dp` cell is `INF` except `dp[1][0] = 0`, and every `parent` cell is `-1` |
| Solver.Relax | Sources/TSP/main.swift:77-99 | after the ascending-mask transition loop, every cell of `dp` and `parent` holds the value of the recurrence |
| Solver.RelaxMask | Sources/TSP/main.swift:78-98 | after one mask of the transition loop, every cell whose predecessor mask is that mask is final, and no other cell has changed from its staged value |
| Solver.RelaxSource | Sources/TSP/main.swift:84-97 | after one source `u`, every cell `(mask \| {v}, v)` has seen `u`'s offer under the strict `<`, and no other cell has changed |
| Solver.SkipTarget | Sources/TSP/main.swift:86-88 | skipping a target already in the mask leaves every cell at its staged value |
| Solver.RelaxTarget | Sources/TSP/main.swift:90-96 | one relaxation moves exactly the cell `(mask \| {v}, v)` one source further and leaves every other cell alone |
| Solver.ChainWalk | Sources/TSP/main.swift:119-124 | the walk read off the parent chain from a finite cell `(m, x)` starts at 0, visits the cities of `m` once each, ends at `x`, and costs exactly `dp[m][x]` |
| Solver.ChainStep | Sources/TSP/main.swift:119-124 | one step back removes the current city from the mask; the chain ends, with parent `-1`, exactly at city 0 |
| Solver.Reconstruct | Sources/TSP/main.swift:114-127 | for `lastCity == -1` the path is `[0]`; otherwise the loop terminates, and the path is exactly the walk read off `parent` from `(full, lastCity)` (so a walk over all cities ending at `lastCity`), closed by 0, whose cost is `dp[full][lastCity]` |
| Solver.ChainIsTableWalk | Sources/TSP/main.swift:119-124 | on tables holding the recurrence, the walk read off `parent` equals the walk read off the recurrence's own parent entries |
| Solver.Extract | Sources/TSP/main.swift:101-112 | `minCost` is the least `dp[full][i] + w[i][0]` over `i` in `[1, n)` when that is below `INF`, and `lastCity` is the smallest `i` attaining it; otherwise the result is `(INF, -1)` |
| Solver.ExtractOptimal | Sources/TSP/main.swift:101-112 | with final tables, a finite extracted cost is at most every tour's cost, and an `INF` one means every tour costs `INF` or more |
| Solver.TourBound | Sources/TSP/main.swift:106-108 | every tour costs at least the best return through its last city, unless it costs `INF` or more |
| Solver.Reverse | Sources/TSP/main.swift:126 | `path.reverse()`: same length, and position `i` holds the element at position `\|s\| - 1 - i` |
| Solver.FoundTour | Sources/TSP/main.swift:126-127 | a found return closes the rebuilt walk into a tour whose summed cost is the extracted cost, with the chosen city last before the return |
| Solver.ResultIsTableTour | Sources/TSP/main.swift:114-127 | the returned tour's first `n` cities are the recurrence's parent chain from the full mask at the chosen last city |
| Solver.UniformOptimum | Sources/TSP/main.swift:64-130 | with every off-diagonal cost `c`, `n >= 2` and `n * c < INF`, any result meeting the solver's contract costs exactly `n * c` |
| Solver.CloseTour | Sources/TSP/main.swift:126-127 | a full walk followed by city 0 is a Hamiltonian cycle of `n + 1` cities, and its cost adds the return edge |
| Solver.SolveTSP | Sources/TSP/main.swift:64-130 | when the cost is below `INF`, the path is a Hamiltonian cycle through 0, its summed cost equals the cost, the cost is at most that of every tour, and the last city is the first attaining the minimum; otherwise the result is `(INF, [0])` and (for `n >= 2`) no tour costs less than `INF`; `n == 1` always gives `(INF, [0])`; when every off-diagonal cost is `c`, `n >= 2` and `n * c < INF`, the cost is exactly `n * c`; the tour is determined by the input: its first `n` cities are the recurrence's parent chain from the full mask at its last city |
| Paths.UniformTourCost | Sources/TSP/main.swift:175-181 | when every off-diagonal cost is `c` and `n >= 2`, every Hamiltonian cycle through 0 sums to exactly `n * c` |
| Paths.IdentityTour | Sources/TSP/main.swift:64-130 | the cycle `0, 1, .., n-1, 0` is a Hamiltonian cycle through 0, so a tour always exists |
| Program.Run | Sources/TSP/main.swift:152-190 | the run is rejected iff some off-diagonal cost is negative; otherwise the re-summed path cost equals the reported cost exactly when a tour was found |

## Left out

- Reading the matrix from a file or from standard input, splitting lines, and `parseInts` (lines 4-30) are left out. They are I/O, and they rely on Swift's integer parser. The model takes `n` and the matrix as values.
- The shape checks that call `fatalError` (lines 32-61) are left out because they abort the process. They become the precondition `Square(n, w)`. They do not exclude `n == 0`: the input `0` passes them and the validation, and `solveTSP` then traps at line 74, because `dp` has a single row and `dp[1]` is out of range. The precondition `n >= 1` on `SolveTSP`, `InitTables`, `Relax`, `Extract` and `Program.Run` excludes that trap rather than modelling it.
- Printing, wall-clock timing and the `n > 20` warning (lines 150, 157-172, 184-189) are left out because they are output only. The diagnostic text that `validateTSPInput` prints for a non-zero diagonal entry is not modelled either; only its result is.
- Swift traps on `Int` overflow in `dp[mask][u] + weight[u][v]` (line 91), in `dp[finalMask][i] + weight[i][0]` (line 107) and in the path sum (line 178). The model uses unbounded integers and does not model those traps.
- Masks.Pow2: it is the unbounded `2^i` and does not model the wrap of Swift's 64-bit shift. `1 << 63` is `Int.min`, so for `n == 63` the table allocation at line 68 traps on a negative count. For `n >= 64`, `1 << n` is 0, so `dp` is empty and `dp[1][0] = 0` at line 74 traps. A 63 x 63 matrix passes the shape checks and the validation. The model's `SolveTSP` returns a result for every `n >= 1` and does not reproduce these traps.
- Table sizes and the `O(n^2 2^n)` running time are left out. They are not functional properties, and allocation failure for large `n` is not modelled.
