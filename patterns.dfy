/**
  What NextGen does to classic patterns over one or more generations: the block (a still life),
  the blinker (an oscillator of period 2) and a lone cell (death by isolation).
 */
module Patterns {
  import opened Cells
  import opened Generation

  /** The count over eight cells written out term by term. */
  lemma LiveCountOfEight(m: map<Cell, bool>, s: seq<Cell>)
    requires |s| == 8
    ensures LiveCount(m, s) ==
      Indicator(m, s[0]) + Indicator(m, s[1]) + Indicator(m, s[2]) + Indicator(m, s[3]) +
      Indicator(m, s[4]) + Indicator(m, s[5]) + Indicator(m, s[6]) + Indicator(m, s[7])
  {
    assert s[..0] == [];
    LiveCountPrefix(m, s, 1);
    LiveCountPrefix(m, s, 2);
    LiveCountPrefix(m, s, 3);
    LiveCountPrefix(m, s, 4);
    LiveCountPrefix(m, s, 5);
    LiveCountPrefix(m, s, 6);
    LiveCountPrefix(m, s, 7);
    LiveCountPrefix(m, s, 8);
    assert s[..8] == s;
  }

  /** The neighbour count written out as the eight calls of the callback, in loop order. */
  lemma LiveNeighborsUnfolded(m: map<Cell, bool>, c: Cell)
    ensures LiveNeighbors(m, c) ==
      Indicator(m, Cell(c.x - 1, c.y - 1)) + Indicator(m, Cell(c.x - 1, c.y)) + Indicator(m, Cell(c.x - 1, c.y + 1)) +
      Indicator(m, Cell(c.x, c.y - 1)) + Indicator(m, Cell(c.x, c.y + 1)) +
      Indicator(m, Cell(c.x + 1, c.y - 1)) + Indicator(m, Cell(c.x + 1, c.y)) + Indicator(m, Cell(c.x + 1, c.y + 1))
  {
    LiveCountOfEight(m, Neighbors(c));
  }

  /** The 2x2 block with corners (0, 0) and (1, 1). */
  function Block(): map<Cell, bool> {
    map[Cell(0, 0) := true, Cell(1, 0) := true, Cell(0, 1) := true, Cell(1, 1) := true]
  }

  /** A cell is alive in the block exactly when both its coordinates are 0 or 1. */
  lemma BlockCells(d: Cell)
    ensures Indicator(Block(), d) == if 0 <= d.x <= 1 && 0 <= d.y <= 1 then 1 else 0
  {
  }

  /** The block is a still life: its live cells are the same after one generation... */
  lemma BlockIsStill()
    ensures LiveCells(NextGen(Block())) == LiveCells(Block())
  {
    var m := Block();
    forall c
      ensures c in LiveCells(NextGen(m)) <==> c in LiveCells(m)
    {
      NextGenAlive(m, c);
      LiveNeighborsUnfolded(m, c);
      BlockCells(Cell(c.x - 1, c.y - 1));
      BlockCells(Cell(c.x - 1, c.y));
      BlockCells(Cell(c.x - 1, c.y + 1));
      BlockCells(Cell(c.x, c.y - 1));
      BlockCells(Cell(c.x, c.y + 1));
      BlockCells(Cell(c.x + 1, c.y - 1));
      BlockCells(Cell(c.x + 1, c.y));
      BlockCells(Cell(c.x + 1, c.y + 1));
      BlockCells(c);
    }
  }

  /** `n` generations of `m`. */
  function Generations(m: map<Cell, bool>, n: nat): map<Cell, bool> {
    if n == 0 then m else NextGen(Generations(m, n - 1))
  }

  /** ... and after any number of generations. */
  lemma {:induction false} BlockStaysStill(n: nat)
    ensures LiveCells(Generations(Block(), n)) == LiveCells(Block())
  {
    if n > 0 {
      BlockStaysStill(n - 1);
      NextGenDependsOnLiveCells(Generations(Block(), n - 1), Block());
      BlockIsStill();
    }
  }

  /** The blinker lying down: (0, 0), (1, 0), (2, 0). */
  function HorizontalBlinker(): map<Cell, bool> {
    map[Cell(0, 0) := true, Cell(1, 0) := true, Cell(2, 0) := true]
  }

  /** The blinker standing up: (1, -1), (1, 0), (1, 1). */
  function VerticalBlinker(): map<Cell, bool> {
    map[Cell(1, -1) := true, Cell(1, 0) := true, Cell(1, 1) := true]
  }

  /** A cell is alive in the horizontal blinker exactly when it lies on the row y = 0 between 0 and 2. */
  lemma HorizontalBlinkerCells(d: Cell)
    ensures Indicator(HorizontalBlinker(), d) == if d.y == 0 && 0 <= d.x <= 2 then 1 else 0
  {
  }

  /** A cell is alive in the vertical blinker exactly when it lies on the column x = 1 between -1 and 1. */
  lemma VerticalBlinkerCells(d: Cell)
    ensures Indicator(VerticalBlinker(), d) == if d.x == 1 && -1 <= d.y <= 1 then 1 else 0
  {
  }

  /** The horizontal blinker turns vertical. */
  lemma BlinkerStandsUp()
    ensures LiveCells(NextGen(HorizontalBlinker())) == LiveCells(VerticalBlinker())
  {
    var m := HorizontalBlinker();
    forall c
      ensures c in LiveCells(NextGen(m)) <==> c in LiveCells(VerticalBlinker())
    {
      NextGenAlive(m, c);
      LiveNeighborsUnfolded(m, c);
      HorizontalBlinkerCells(Cell(c.x - 1, c.y - 1));
      HorizontalBlinkerCells(Cell(c.x - 1, c.y));
      HorizontalBlinkerCells(Cell(c.x - 1, c.y + 1));
      HorizontalBlinkerCells(Cell(c.x, c.y - 1));
      HorizontalBlinkerCells(Cell(c.x, c.y + 1));
      HorizontalBlinkerCells(Cell(c.x + 1, c.y - 1));
      HorizontalBlinkerCells(Cell(c.x + 1, c.y));
      HorizontalBlinkerCells(Cell(c.x + 1, c.y + 1));
      HorizontalBlinkerCells(c);
      VerticalBlinkerCells(c);
    }
  }

  /** The vertical blinker lies down again. */
  lemma BlinkerLiesDown()
    ensures LiveCells(NextGen(VerticalBlinker())) == LiveCells(HorizontalBlinker())
  {
    var m := VerticalBlinker();
    forall c
      ensures c in LiveCells(NextGen(m)) <==> c in LiveCells(HorizontalBlinker())
    {
      NextGenAlive(m, c);
      LiveNeighborsUnfolded(m, c);
      VerticalBlinkerCells(Cell(c.x - 1, c.y - 1));
      VerticalBlinkerCells(Cell(c.x - 1, c.y));
      VerticalBlinkerCells(Cell(c.x - 1, c.y + 1));
      VerticalBlinkerCells(Cell(c.x, c.y - 1));
      VerticalBlinkerCells(Cell(c.x, c.y + 1));
      VerticalBlinkerCells(Cell(c.x + 1, c.y - 1));
      VerticalBlinkerCells(Cell(c.x + 1, c.y));
      VerticalBlinkerCells(Cell(c.x + 1, c.y + 1));
      VerticalBlinkerCells(c);
      HorizontalBlinkerCells(c);
    }
  }

  /** The blinker has period 2: two generations bring back the horizontal line. */
  lemma BlinkerHasPeriodTwo()
    ensures LiveCells(Generations(HorizontalBlinker(), 1)) == LiveCells(VerticalBlinker())
    ensures LiveCells(Generations(HorizontalBlinker(), 2)) == LiveCells(HorizontalBlinker())
  {
    BlinkerStandsUp();
    NextGenDependsOnLiveCells(Generations(HorizontalBlinker(), 1), VerticalBlinker());
    BlinkerLiesDown();
  }

  /** A single live cell at the origin. */
  function LoneCell(): map<Cell, bool> {
    map[Cell(0, 0) := true]
  }

  /** The only live cell of LoneCell is the origin. */
  lemma LoneCellCells(d: Cell)
    ensures Indicator(LoneCell(), d) == if d.x == 0 && d.y == 0 then 1 else 0
  {
  }

  /** A lone cell dies of isolation: nothing is alive in the next generation... */
  lemma LoneCellDies()
    ensures LiveCells(NextGen(LoneCell())) == {}
  {
    var m := LoneCell();
    forall c
      ensures c !in LiveCells(NextGen(m))
    {
      NextGenAlive(m, c);
      LiveNeighborsUnfolded(m, c);
      LoneCellCells(Cell(c.x - 1, c.y - 1));
      LoneCellCells(Cell(c.x - 1, c.y));
      LoneCellCells(Cell(c.x - 1, c.y + 1));
      LoneCellCells(Cell(c.x, c.y - 1));
      LoneCellCells(Cell(c.x, c.y + 1));
      LoneCellCells(Cell(c.x + 1, c.y - 1));
      LoneCellCells(Cell(c.x + 1, c.y));
      LoneCellCells(Cell(c.x + 1, c.y + 1));
      LoneCellCells(c);
    }
  }

  /** The candidates of a state holding one live entry: that cell and its eight neighbours. */
  lemma SingleEntryCandidates(m: map<Cell, bool>, o: Cell)
    requires m.Keys == {o} && m[o]
    ensures Candidates(m) == {o} + Elements(Neighbors(o))
  {
  }

  /** The next state of a state holding one live entry records nine entries: that cell and its
      eight neighbours. */
  lemma SingleEntryNextGen(m: map<Cell, bool>, o: Cell)
    requires m.Keys == {o} && m[o]
    ensures NextGen(m).Keys == {o} + Elements(Neighbors(o))
    ensures |NextGen(m)| == 9
  {
    var ring := Elements(Neighbors(o));
    assert |ring| == 8 by {
      ElementsOfDistinct(Neighbors(o), 8);
      assert Neighbors(o)[..8] == Neighbors(o);
    }
    assert o !in ring by {
      NeighborsComplete(o, o);
    }
    assert Candidates(m) == {o} + ring by {
      SingleEntryCandidates(m, o);
    }
    assert |{o} + ring| == 9;
    NextGenSize(m);
  }

  /** ... yet the next state records nine entries, all dead: the cell and its eight neighbours. */
  lemma LoneCellLeavesNineEntries()
    ensures NextGen(LoneCell()).Keys == {Cell(0, 0)} + Elements(Neighbors(Cell(0, 0)))
    ensures forall c :: c in NextGen(LoneCell()) ==> !NextGen(LoneCell())[c]
    ensures |NextGen(LoneCell())| == 9
  {
    SingleEntryNextGen(LoneCell(), Cell(0, 0));
    LoneCellDies();
    forall c | c in NextGen(LoneCell())
      ensures !NextGen(LoneCell())[c]
    {
      assert c !in LiveCells(NextGen(LoneCell()));
    }
  }
}
