/**
  One generation of Conway's Game of Life (birth on 3, survival on 2 or 3) over a sparse
  state: a map from cells to alive flags, where an absent cell reads as dead. These are the
  specification functions the imperative LifeState.Next is proved against, and the
  properties of one generation.
 */
module Generation {
  import opened Cells

  /** Map lookup with Go's zero value: a cell missing from the map is dead. */
  predicate AliveIn(m: map<Cell, bool>, c: Cell) {
    if c in m then m[c] else false
  }

  /** The cells recorded as alive. */
  function LiveCells(m: map<Cell, bool>): set<Cell> {
    set c | c in m && m[c]
  }

  /** The cells recorded, but recorded as dead. */
  function DeadEntries(m: map<Cell, bool>): set<Cell> {
    set c | c in m && !m[c]
  }

  /** 1 when `c` is alive in `m`, 0 otherwise: what one neighbour adds to the count. */
  function Indicator(m: map<Cell, bool>, c: Cell): nat {
    if AliveIn(m, c) then 1 else 0
  }

  /** The number of cells of `s` that are alive in `m`, counted one position at a time
      from the front, as the neighbour count in Next increments its counter. */
  function LiveCount(m: map<Cell, bool>, s: seq<Cell>): (n: nat)
    ensures n <= |s|
  {
    if s == [] then 0 else LiveCount(m, s[..|s| - 1]) + Indicator(m, s[|s| - 1])
  }

  /** Counting one more position of `s` adds that position's indicator. */
  lemma LiveCountPrefix(m: map<Cell, bool>, s: seq<Cell>, k: nat)
    requires 0 < k <= |s|
    ensures LiveCount(m, s[..k]) == LiveCount(m, s[..k - 1]) + Indicator(m, s[k - 1])
  {
    assert s[..k][..k - 1] == s[..k - 1];
  }

  /** The number of live neighbours of `c`. */
  function LiveNeighbors(m: map<Cell, bool>, c: Cell): (n: nat)
    ensures n <= 8
  {
    LiveCount(m, Neighbors(c))
  }

  /** The B3/S23 rule: alive next iff three live neighbours, or two and alive now. */
  predicate Rule(n: nat, alive: bool) {
    n == 3 || (n == 2 && alive)
  }

  /** The cells Next schedules for evaluation after visiting the keys `visited` of `m`:
      each visited cell recorded alive, and its eight neighbours. */
  function Reached(m: map<Cell, bool>, visited: set<Cell>): set<Cell> {
    (set d | d in visited && d in m && m[d]) +
    (set d, e | d in visited && d in m && m[d] && e in Neighbors(d) :: e)
  }

  /** The cells Next evaluates: those reached once every key has been visited. */
  function Candidates(m: map<Cell, bool>): set<Cell> {
    Reached(m, m.Keys)
  }

  /** One generation: every candidate is recorded with the rule's verdict, even a dead one. */
  function NextGen(m: map<Cell, bool>): map<Cell, bool> {
    map c | c in Candidates(m) :: Rule(LiveNeighbors(m, c), AliveIn(m, c))
  }

  /** Every entry of `next` holds the rule's verdict for its cell in `state`. */
  ghost predicate RuleApplied(state: map<Cell, bool>, next: map<Cell, bool>) {
    forall c {:trigger next[c]} :: c in next ==> next[c] == Rule(LiveNeighbors(state, c), AliveIn(state, c))
  }

  /** Recording the rule's verdict for one more cell keeps RuleApplied. */
  lemma RuleAppliedUpdate(m: map<Cell, bool>, next: map<Cell, bool>, c: Cell)
    requires RuleApplied(m, next)
    ensures RuleApplied(m, next[c := Rule(LiveNeighbors(m, c), AliveIn(m, c))])
  {
  }

  /** Keeping every entry and adding entries that hold the rule's verdict keeps RuleApplied. */
  lemma RuleAppliedExtended(m: map<Cell, bool>, before: map<Cell, bool>, after: map<Cell, bool>)
    requires forall d :: d in before ==> d in after && after[d] == before[d]
    requires forall d {:trigger after[d]} :: d in after && d !in before ==> after[d] == Rule(LiveNeighbors(m, d), AliveIn(m, d))
    ensures RuleApplied(m, before) ==> RuleApplied(m, after)
  {
  }

  /** A map that records exactly the candidates, each with the rule's verdict, is the next generation. */
  lemma RuleAppliedToCandidates(m: map<Cell, bool>, next: map<Cell, bool>)
    requires next.Keys == Candidates(m)
    requires RuleApplied(m, next)
    ensures next == NextGen(m)
  {
  }

  /** The next generation records one entry per candidate. */
  lemma NextGenSize(m: map<Cell, bool>)
    ensures NextGen(m).Keys == Candidates(m)
    ensures |NextGen(m)| == |Candidates(m)|
  {
    assert NextGen(m).Keys == Candidates(m);
  }

  /** Visiting one more key adds that cell and its neighbours when it is recorded alive,
      and nothing when it is not. */
  lemma ReachedStep(m: map<Cell, bool>, visited: set<Cell>, d: Cell)
    requires d in m
    ensures Reached(m, visited + {d}) ==
      if m[d] then Reached(m, visited) + {d} + Elements(Neighbors(d)) else Reached(m, visited)
  {
  }

  /** A state with no live cell has no candidates; in particular the empty state has none. */
  lemma CandidatesOfDeadState(m: map<Cell, bool>)
    requires LiveCells(m) == {}
    ensures Candidates(m) == {}
  {
    forall d | d in m
      ensures !m[d]
    {
      assert d !in LiveCells(m);
    }
  }

  /** A state with no cell recorded alive (the empty state among them) yields the empty map. */
  lemma NextGenOfDeadState(m: map<Cell, bool>)
    requires LiveCells(m) == {}
    ensures NextGen(m) == map[]
  {
    CandidatesOfDeadState(m);
  }

  /** The keys of the next generation are exactly the cells alive now and their neighbours:
      no cell farther than one step from a live cell is recorded. */
  lemma NextGenKeys(m: map<Cell, bool>, c: Cell)
    ensures c in NextGen(m) <==> AliveIn(m, c) || exists d :: AliveIn(m, d) && Adjacent(d, c)
  {
    if c in NextGen(m) && !AliveIn(m, c) {
      var d :| d in m.Keys && d in m && m[d] && c in Neighbors(d);
      NeighborsComplete(d, c);
      assert AliveIn(m, d) && Adjacent(d, c);
    }
    if exists d :: AliveIn(m, d) && Adjacent(d, c) {
      var d :| AliveIn(m, d) && Adjacent(d, c);
      NeighborsComplete(d, c);
      assert c in set d', e | d' in m.Keys && d' in m && m[d'] && e in Neighbors(d') :: e;
    }
  }

  /** No live cell among `s` gives a count of zero. */
  lemma {:induction false} LiveCountNone(m: map<Cell, bool>, s: seq<Cell>)
    requires forall k :: 0 <= k < |s| ==> !AliveIn(m, s[k])
    ensures LiveCount(m, s) == 0
  {
    if s != [] {
      LiveCountNone(m, s[..|s| - 1]);
    }
  }

  /** Over a sequence without repetitions, the count is the size of the set of its live members. */
  lemma {:induction false} LiveCountIsSetSize(m: map<Cell, bool>, s: seq<Cell>)
    requires forall p, q :: 0 <= p < q < |s| ==> s[p] != s[q]
    ensures LiveCount(m, s) == |set d | d in s && AliveIn(m, d)|
  {
    if s != [] {
      var init, last := s[..|s| - 1], s[|s| - 1];
      LiveCountIsSetSize(m, init);
      var before := set d | d in init && AliveIn(m, d);
      var after := set d | d in s && AliveIn(m, d);
      forall p | 0 <= p < |init|
        ensures init[p] != last
      {
        assert init[p] == s[p];
      }
      assert last !in init;
      if AliveIn(m, last) {
        assert after == before + {last};
      } else {
        assert after == before;
      }
    }
  }

  /** The neighbour count agrees with an independent definition: the number of live cells
      adjacent to `c`. */
  lemma LiveNeighborsCountsAdjacentLiveCells(m: map<Cell, bool>, c: Cell)
    ensures LiveNeighbors(m, c) == |set d | d in LiveCells(m) && Adjacent(c, d)|
  {
    LiveCountIsSetSize(m, Neighbors(c));
    var viaSeq := set d | d in Neighbors(c) && AliveIn(m, d);
    var viaAdjacency := set d | d in LiveCells(m) && Adjacent(c, d);
    forall d
      ensures d in viaSeq <==> d in viaAdjacency
    {
      NeighborsComplete(c, d);
    }
    assert viaSeq == viaAdjacency;
  }

  /** For every cell, recorded in the next generation or not, the next generation reads alive
      exactly when the rule says so: a cell left out is dead and has no live neighbour. */
  lemma NextGenAlive(m: map<Cell, bool>, c: Cell)
    ensures AliveIn(NextGen(m), c) == Rule(LiveNeighbors(m, c), AliveIn(m, c))
  {
    if c !in NextGen(m) {
      NextGenKeys(m, c);
      forall k | 0 <= k < 8
        ensures !AliveIn(m, Neighbors(c)[k])
      {
        var d := Neighbors(c)[k];
        NeighborsComplete(c, d);
        if AliveIn(m, d) {
          assert Adjacent(d, c);
          assert false;
        }
      }
      LiveCountNone(m, Neighbors(c));
    }
  }

  /** The next generation depends only on which cells are alive now: recorded dead entries
      make no difference. */
  lemma NextGenDependsOnLiveCells(m1: map<Cell, bool>, m2: map<Cell, bool>)
    requires LiveCells(m1) == LiveCells(m2)
    ensures NextGen(m1) == NextGen(m2)
  {
    assert forall c :: AliveIn(m1, c) == AliveIn(m2, c) by {
      forall c ensures AliveIn(m1, c) == AliveIn(m2, c) {
        assert AliveIn(m1, c) == (c in LiveCells(m1));
        assert AliveIn(m2, c) == (c in LiveCells(m2));
      }
    }
    forall c ensures LiveCount(m1, Neighbors(c)) == LiveCount(m2, Neighbors(c)) {
      LiveNeighborsCountsAdjacentLiveCells(m1, c);
      LiveNeighborsCountsAdjacentLiveCells(m2, c);
    }
    forall c ensures c in Candidates(m1) <==> c in Candidates(m2) {
      NextGenKeys(m1, c);
      NextGenKeys(m2, c);
    }
  }

  /** The size of a state is its live cells plus its recorded dead entries. */
  lemma SizeCountsDeadEntries(m: map<Cell, bool>)
    ensures |m| == |LiveCells(m)| + |DeadEntries(m)|
  {
    assert m.Keys == LiveCells(m) + DeadEntries(m);
    assert LiveCells(m) !! DeadEntries(m);
  }

  /** Recording a cell adds an entry exactly when the cell had none. */
  lemma SizeAfterUpdate(m: map<Cell, bool>, c: Cell, alive: bool)
    ensures |m[c := alive]| == |m| + (if c in m then 0 else 1)
  {
  }
}
