/**
  The map-backed LifeState of main.go: the queries Size and Alive, the mutator Set, and the
  transition Next, which fills a fresh map by check-then-insert while visiting the live cells
  of the receiver in an arbitrary order.
 */
module Life {
  import opened Cells
  import opened Generation

  /** The closure calcNextCellState of Next: a cell already in `next` is skipped (its entry is
      kept as it was); otherwise its live neighbours in `state` are counted one neighbour at a
      time and the rule's verdict is recorded, dead or alive. */
  method CalcNextCellState(state: map<Cell, bool>, next: map<Cell, bool>, c: Cell)
    returns (next': map<Cell, bool>)
    ensures next'.Keys == next.Keys + {c}
    ensures c in next ==> next' == next
    ensures c !in next ==> next' == next[c := Rule(LiveNeighbors(state, c), AliveIn(state, c))]
  {
    if c in next {
      return next;
    }
    var neighbors := Neighbors(c);
    var alive := 0;
    var k := 0;
    while k < |neighbors|
      invariant 0 <= k <= |neighbors|
      invariant alive == LiveCount(state, neighbors[..k])
    {
      assert neighbors[..k + 1][..k] == neighbors[..k];
      if AliveIn(state, neighbors[k]) {
        alive := alive + 1;
      }
      k := k + 1;
    }
    assert neighbors[..k] == neighbors;
    next' := next[c := alive == 3 || (alive == 2 && AliveIn(state, c))];
  }

  /** `cell.ForEachNeighbor(calcNextCellState)`: the closure applied to each neighbour of `cell`
      in turn. Every neighbour ends up recorded, an entry already present is kept as it was, and
      each new entry holds the rule's verdict. */
  method CalcNeighborStates(state: map<Cell, bool>, next: map<Cell, bool>, cell: Cell)
    returns (next': map<Cell, bool>)
    ensures next'.Keys == next.Keys + Elements(Neighbors(cell))
    ensures forall d :: d in next ==> next'[d] == next[d]
    ensures forall d {:trigger next'[d]} :: d in next' && d !in next ==> next'[d] == Rule(LiveNeighbors(state, d), AliveIn(state, d))
  {
    next' := next;
    var neighbors := Neighbors(cell);
    var k := 0;
    while k < |neighbors|
      invariant 0 <= k <= |neighbors|
      invariant next'.Keys == next.Keys + Elements(neighbors[..k])
      invariant forall d :: d in next ==> next'[d] == next[d]
      invariant forall d {:trigger next'[d]} :: d in next' && d !in next ==> next'[d] == Rule(LiveNeighbors(state, d), AliveIn(state, d))
    {
      ElementsSnoc(neighbors, k);
      next' := CalcNextCellState(state, next', neighbors[k]);
      k := k + 1;
    }
    assert neighbors[..k] == neighbors;
  }

  /** The body of the range loop of Next for the entry (`cell`, `state[cell]`): a cell recorded
      alive is evaluated, and so is each of its neighbours; a cell recorded dead adds nothing.
      Entries already present are kept, so every entry still holds the rule's verdict. */
  method VisitEntry(state: map<Cell, bool>, next: map<Cell, bool>, cell: Cell)
    returns (next': map<Cell, bool>)
    requires cell in state
    ensures next'.Keys == if state[cell] then next.Keys + {cell} + Elements(Neighbors(cell)) else next.Keys
    ensures forall d :: d in next ==> next'[d] == next[d]
    ensures RuleApplied(state, next) ==> RuleApplied(state, next')
  {
    next' := next;
    if state[cell] {
      next' := CalcNextCellState(state, next', cell);
      assert RuleApplied(state, next) ==> RuleApplied(state, next') by {
        if cell !in next && RuleApplied(state, next) {
          RuleAppliedUpdate(state, next, cell);
        }
      }
      ghost var withCell := next';
      next' := CalcNeighborStates(state, next', cell);
      RuleAppliedExtended(state, withCell, next');
    }
  }

  /** A generation of the automaton: a map from cells to alive flags, updated in place by Set. */
  class LifeState {
    var cells: map<Cell, bool>

    /** Takes `m` as the state, as the conversion `(*LifeState)(&nextState)` at the end of Next does. */
    constructor (m: map<Cell, bool>)
      ensures cells == m
    {
      cells := m;
    }

    /** The number of recorded entries: the live cells and also every entry recorded as dead. */
    function Size(): (n: nat)
      reads this
      ensures n == |LiveCells(cells)| + |DeadEntries(cells)|
    {
      SizeCountsDeadEntries(cells);
      |cells|
    }

    /** The recorded flag of `c`; a cell never recorded is dead. */
    function Alive(c: Cell): (r: bool)
      reads this
      ensures c !in cells ==> !r
      ensures c in cells ==> r == cells[c]
    {
      AliveIn(cells, c)
    }

    /** Records `alive` for `c`, inserting an entry if there was none; every other entry is kept. */
    method Set(c: Cell, alive: bool)
      modifies this
      ensures cells == old(cells)[c := alive]
      ensures Alive(c) == alive
      ensures forall d :: d != c ==> (d in cells <==> d in old(cells)) && Alive(d) == old(Alive(d))
      ensures Size() == old(Size()) + (if c in old(cells) then 0 else 1)
    {
      SizeAfterUpdate(cells, c, alive);
      cells := cells[c := alive];
    }

    /** The next generation, in a fresh LifeState; the receiver is left as it was. Keys of the
        receiver are visited in an arbitrary order (Go's map iteration order), and the result is
        the same whatever the order. */
    method Next() returns (next: LifeState)
      ensures fresh(next)
      ensures cells == old(cells)
      ensures next.cells == NextGen(cells)
    {
      var state := cells;
      var nextState: map<Cell, bool> := map[];
      var unvisited := state.Keys;
      while unvisited != {}
        invariant unvisited <= state.Keys
        invariant nextState.Keys == Reached(state, state.Keys - unvisited)
        invariant RuleApplied(state, nextState)
        decreases unvisited
      {
        var cell :| cell in unvisited;
        ghost var visited := state.Keys - unvisited;
        unvisited := unvisited - {cell};
        nextState := VisitEntry(state, nextState, cell);
        ReachedStep(state, visited, cell);
        assert state.Keys - unvisited == visited + {cell};
      }
      assert state.Keys - unvisited == state.Keys;
      RuleAppliedToCandidates(state, nextState);
      next := new LifeState(nextState);
    }
  }
}
