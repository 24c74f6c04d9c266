# Sparse Game of Life engine

A Dafny model of the engine at the heart of `main.go`, a Go program that plays Conway's Game of
Life (birth on 3 live neighbours, survival on 2 or 3) on an unbounded grid. The model covers:

- `Cell` and `Cell.ForEachNeighbor`, which enumerates the eight neighbours of a cell with two
  nested loops (module `Cells`, file `cells.dfy`).
- `LifeState`, a map from cells to alive flags. A cell that is absent reads as dead. Its queries
  `Size` and `Alive`, its mutator `Set` and its transition `Next` are modelled as a class with a
  `map` field (module `Life`, file `life_state.dfy`).
- `Next` builds a fresh map. It visits the entries of the receiver, and for each live cell it
  evaluates the cell and its eight neighbours through the closure `calcNextCellState`. That
  closure skips any cell already present in the map under construction, counts live neighbours
  one at a time, and records `alive == 3 || alive == 2 && ls.Alive(cell)`.
  - The closure is the method `CalcNextCellState`, with the counting loop and its invariant.
  - The call `cell.ForEachNeighbor(calcNextCellState)` is the method `CalcNeighborStates`.
  - The body of the range loop is the method `VisitEntry`.
  - `Next` itself is a `while` loop over the keys of the receiver, which picks the next key
    arbitrarily.
- The methods are proved against pure specification functions in module `Generation`
  (`generation.dfy`). `NextGen(m)` records the rule's verdict for every candidate: each live cell
  and each of its neighbours.
- Lemmas in `Generation` state what one generation means:
  - which cells are recorded;
  - that the verdict is right for every cell, recorded or not;
  - that the result depends only on the live cells;
  - that the neighbour count agrees with an independent count of adjacent live cells.
- Module `Patterns` (`patterns.dfy`) proves what `NextGen` does to classic configurations:
  - the 2x2 block, which stays still for any number of generations;
  - the blinker, which has period 2;
  - a lone cell, which dies yet leaves nine dead entries.

Go `int` coordinates are modelled as unbounded integers. Go's map iteration order is modelled
as an arbitrary choice (`:|`), and `Next` is proved to give the same result whatever the order.

## Model

| member | source | states |
|---|---|---|
| Cells.Neighbors | main.go:21-29 | The callback receives exactly eight cells. Each one is at most one step from the centre on each axis and is not the centre, and no two are equal. |
| Cells.NeighborsFollowLoops | main.go:21-29 | The two nested loops (x offset outer, y offset inner, each from -1 to 1, with offset (0, 0) skipped) hand over exactly the sequence `Neighbors` gives, in that order. |
| Cells.NeighborsComplete | main.go:21-29 | A cell is handed to the callback if and only if it is adjacent to the centre, so every adjacent cell is produced and nothing else is. |
| Cells.ElementsOfDistinct | main.go:21-29 | The eight calls name eight distinct cells: a sequence without repetitions has as many distinct elements as positions. |
| Generation.LiveCountPrefix | main.go:67-71 | Each neighbour adds one to the running count exactly when it is alive. |
| Generation.LiveCountNone | main.go:66-71 | With no live cell among those enumerated, the count stays 0. |
| Generation.LiveCountIsSetSize | main.go:66-71 | Over distinct cells, the running count equals the number of distinct live cells among them. |
| Generation.LiveNeighborsCountsAdjacentLiveCells | main.go:66-71 | The neighbour count of a cell equals the number of live cells adjacent to it (an independent definition). |
| Generation.ReachedStep | main.go:76-81 | Visiting one more entry schedules that cell and its eight neighbours when the entry is alive, and nothing when it is dead. |
| Generation.RuleAppliedUpdate | main.go:73 | Recording the rule's verdict for a new cell keeps every entry equal to the rule's verdict. |
| Generation.RuleAppliedExtended | main.go:61-64 | Keeping existing entries and adding only verdicts keeps every entry equal to the rule's verdict. |
| Generation.RuleAppliedToCandidates | main.go:76-83 | A map whose keys are the candidates and whose entries hold verdicts is the next generation. |
| Generation.NextGenSize | main.go:76-81 | The keys of the next state are exactly the candidates, so its size is the number of candidates. |
| Generation.CandidatesOfDeadState | main.go:76-81 | Without a live entry, no cell is scheduled. |
| Generation.NextGenOfDeadState | main.go:57-83 | A state with no `true` entry, the empty state included, yields the empty map. |
| Generation.NextGenKeys | main.go:60-81 | A cell is recorded in the next state if and only if it is alive now or adjacent to a live cell. |
| Generation.NextGenAlive | main.go:66-81 | For every cell, recorded or not, the next state reads alive exactly when it has 3 live neighbours, or 2 and is alive now. |
| Generation.NextGenDependsOnLiveCells | main.go:76-81 | Two states with the same live cells have the same next state. Entries recorded as dead make no difference. |
| Generation.SizeCountsDeadEntries | main.go:45-47 | The size is the number of live cells plus the number of entries recorded as dead. |
| Generation.SizeAfterUpdate | main.go:49-51 | Recording a flag for a cell adds one entry exactly when the cell had none. |
| Life.CalcNextCellState | main.go:60-74 | A cell already present leaves the map unchanged, so each cell is written once. Otherwise the loop counts its live neighbours, and the map gains exactly that cell, holding the rule's verdict. |
| Life.CalcNeighborStates | main.go:79 | After the closure runs on each neighbour, all eight neighbours are keys. Existing entries are unchanged and each new entry holds the rule's verdict. |
| Life.VisitEntry | main.go:77-80 | A live entry adds the cell and its neighbours to the keys, and a dead entry adds nothing. Existing entries are kept, and a map whose entries hold verdicts still does. |
| Life.LifeState.constructor | main.go:83 | The new state holds exactly the given map. |
| Life.LifeState.Size | main.go:45-47 | The size counts live cells and entries recorded as dead alike. |
| Life.LifeState.Alive | main.go:53-55 | An absent cell is dead; a present cell reads its recorded flag. |
| Life.LifeState.Set | main.go:49-51 | The map becomes the old map with the cell's flag replaced. The cell then reads as the given flag, every other cell is unchanged, and the size grows by one exactly when the cell was absent. |
| Life.LifeState.Next | main.go:57-84 | Returns a fresh state equal to `NextGen` of the receiver, whatever order the keys are visited in, and leaves the receiver unchanged. |
| Patterns.LiveCountOfEight | main.go:66-71 | The count over eight cells is the sum of eight indicators. |
| Patterns.LiveNeighborsUnfolded | main.go:66-71 | The neighbour count is the sum of the eight neighbours' indicators, in loop order. |
| Patterns.BlockIsStill | main.go:57-84 | A 2x2 block has the same live cells after one generation. |
| Patterns.BlockStaysStill | main.go:57-84 | A 2x2 block has the same live cells after any number of generations. |
| Patterns.BlinkerStandsUp | main.go:57-84 | The line (0,0), (1,0), (2,0) becomes the line (1,-1), (1,0), (1,1). |
| Patterns.BlinkerLiesDown | main.go:57-84 | The vertical line becomes the horizontal line again. |
| Patterns.BlinkerHasPeriodTwo | main.go:57-84 | After one generation the blinker is vertical, and after two it is back to its starting cells. |
| Patterns.SingleEntryCandidates | main.go:76-81 | A state with a single live entry schedules that cell and its eight neighbours. |
| Patterns.SingleEntryNextGen | main.go:76-81 | From a state whose only entry is a live cell, the next state's keys are that cell and its eight neighbours, nine entries in all. |
| Patterns.LoneCellDies | main.go:57-84 | A lone live cell leaves no live cell after one generation. |
| Patterns.LoneCellLeavesNineEntries | main.go:57-84 | After one generation from a lone live cell, the keys are exactly the cell and its eight neighbours, every entry is recorded dead, and there are nine. |

## Left out

- `String` (main.go:33-43): diagnostic formatting through `fmt` and `strings.Builder`, whose output order follows Go's randomised map iteration.
- `Draw` (main.go:86-96): rendering through the pixel libraries with floating-point vertex coordinates.
- `NewLifeState` (main.go:98-108): a random seed taken from the wall clock. Scenarios are built from explicit maps instead (see `Patterns`).
- `run` and `main` (main.go:110-153): window, timer, channel and console handling.
- Cells.Neighbors: coordinates are unbounded integers, so Go's wrap-around of `cell.X + i` at the extreme `int` values is not modelled.
- Life.LifeState.Next: Go's map iteration order is modelled as an arbitrary choice of the next unvisited key. The result is proved independent of that choice, but no particular order is modelled.
- Life.LifeState.Next: the closure `calcNextCellState` captures `nextState` by reference. The model passes the map in and returns the updated map, and the neighbour count reads a snapshot of the receiver. That snapshot is exact because nothing writes to the receiver during `Next`.
- Life.LifeState.Next: "each candidate is evaluated once" is stated through the memo check: an entry once present is never recomputed or overwritten. The model does not count how many times the neighbour-counting loop runs.
