/**
  Cells of the unbounded lattice and the enumeration of their eight neighbours
  (`Cell` and `Cell.ForEachNeighbor` in main.go).
 */
module Cells {

  /** A lattice position. Coordinates are unbounded integers. */
  datatype Cell = Cell(x: int, y: int)

  /** `d` is one of the eight cells around `c`: at most one step away on each axis, and not `c` itself. */
  predicate Adjacent(c: Cell, d: Cell) {
    c != d && -1 <= d.x - c.x <= 1 && -1 <= d.y - c.y <= 1
  }

  /** The cells the inner loop of ForEachNeighbor passes to the callback for the x offset `i`,
      with the y offset running from `j` up to 1 and the centre offset (0, 0) skipped. */
  function Column(c: Cell, i: int, j: int): seq<Cell>
    requires -1 <= j <= 2
    decreases 2 - j
  {
    if j > 1 then []
    else (if i != 0 || j != 0 then [Cell(c.x + i, c.y + j)] else []) + Column(c, i, j + 1)
  }

  /** The cells the outer loop of ForEachNeighbor passes to the callback, with the x offset
      running from `i` up to 1. */
  function Sweep(c: Cell, i: int): seq<Cell>
    requires -1 <= i <= 2
    decreases 2 - i
  {
    if i > 1 then [] else Column(c, i, -1) + Sweep(c, i + 1)
  }

  /** ForEachNeighbor: the cells handed to the callback, in the order they are handed over
      (NeighborsFollowLoops shows that the two nested loops produce exactly this sequence).
      The callback is called eight times, on eight distinct cells, each adjacent to `c`. */
  function Neighbors(c: Cell): (r: seq<Cell>)
    ensures |r| == 8
    ensures forall k :: 0 <= k < |r| ==> Adjacent(c, r[k])
    ensures forall p, q :: 0 <= p < q < |r| ==> r[p] != r[q]
  {
    [Cell(c.x - 1, c.y - 1), Cell(c.x - 1, c.y), Cell(c.x - 1, c.y + 1),
     Cell(c.x, c.y - 1), Cell(c.x, c.y + 1),
     Cell(c.x + 1, c.y - 1), Cell(c.x + 1, c.y), Cell(c.x + 1, c.y + 1)]
  }

  /** The nested loops visit the offsets column by column, x offset outermost, skipping the
      centre: that is the sequence Neighbors gives. */
  lemma NeighborsFollowLoops(c: Cell)
    ensures Sweep(c, -1) == Neighbors(c)
  {
  }

  /** The enumeration is complete: every adjacent cell is produced, and nothing else is. */
  lemma NeighborsComplete(c: Cell, d: Cell)
    ensures d in Neighbors(c) <==> Adjacent(c, d)
  {
  }

  /** The cells occurring in `s`. */
  function Elements(s: seq<Cell>): set<Cell> {
    set e | e in s
  }

  /** Taking one more cell of `s` adds it to the cells seen so far. */
  lemma ElementsSnoc(s: seq<Cell>, k: nat)
    requires k < |s|
    ensures Elements(s[..k + 1]) == Elements(s[..k]) + {s[k]}
  {
  }

  /** A sequence without repetitions has as many distinct cells as positions. */
  lemma {:induction false} ElementsOfDistinct(s: seq<Cell>, k: nat)
    requires k <= |s|
    requires forall p, q :: 0 <= p < q < |s| ==> s[p] != s[q]
    ensures |Elements(s[..k])| == k
  {
    if k == 0 {
      assert Elements(s[..0]) == {};
    } else {
      var prefix, last := s[..k - 1], s[k - 1];
      ElementsOfDistinct(s, k - 1);
      assert last !in prefix by {
        forall p | 0 <= p < |prefix|
          ensures prefix[p] != last
        {
          assert prefix[p] == s[p];
        }
      }
      var before := Elements(prefix);
      assert last !in before;
      assert |before + {last}| == k;
      assert Elements(s[..k]) == before + {last} by {
        ElementsSnoc(s, k - 1);
      }
    }
  }
}
