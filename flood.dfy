/** The flood-fill reveal, stated as a relation between the board before and
    the board after one reveal_cell call, with the facts the game engine
    draws from it. */
module Flood {
  import opened Grid

  /** (x, y) was concealed in b0 and is revealed in b. */
  predicate IsNew(b0: Board, b: Board, x: int, y: int) {
    InBounds(x, y) && b[x][y].revealed && !b0[x][y].revealed
  }

  ghost function NewlyRevealed(b0: Board, b: Board): set<(int, int)> {
    set x, y | 0 <= x < N && 0 <= y < N && IsNew(b0, b, x, y) :: (x, y)
  }

  /** A cell the cascade passes through: no mine on it and none around it. */
  predicate Opens(b: Board, x: int, y: int)
    requires InBounds(x, y)
  {
    !b[x][y].mine && b[x][y].neighborMines == 0
  }

  /** b is b0 with some concealed, unflagged cells turned face up, and with
      nothing else changed. */
  ghost predicate Uncovers(b0: Board, b: Board) {
    forall x, y :: InBounds(x, y) ==>
      b[x][y] == b0[x][y] ||
      (!b0[x][y].revealed && !b0[x][y].flagged && b[x][y] == b0[x][y].(revealed := true))
  }

  /** Every in-bounds neighbour of every newly revealed opening cell is
      revealed or flagged in b. */
  ghost predicate Closed(b0: Board, b: Board) {
    forall x, y, i, j ::
      IsNew(b0, b, x, y) && Opens(b, x, y) && InBounds(i, j) && Adjacent(x, y, i, j) ==>
      b[i][j].revealed || b[i][j].flagged
  }

  /** S holds (x, y) and, with each of its opening cells, every neighbour
      that is concealed and unflagged in b0: a region that a flood fill from
      (x, y) over b0 has to cover. */
  ghost predicate FloodClosed(b0: Board, S: set<(int, int)>, x: int, y: int) {
    (x, y) in S &&
    forall i, j, k, l ::
      ((i, j) in S && InBounds(i, j) && Opens(b0, i, j) && InBounds(k, l) && Adjacent(i, j, k, l) &&
       !b0[k][l].revealed && !b0[k][l].flagged)
      ==> (k, l) in S
  }

  /** Every cell newly revealed in b lies in every flood-closed region of
      (x, y). */
  ghost predicate Least(b0: Board, b: Board, x: int, y: int) {
    forall S :: FloodClosed(b0, S, x, y) ==> forall i, j :: IsNew(b0, b, i, j) ==> (i, j) in S
  }

  /** The effect of reveal_cell(x, y) on b0: nothing when (x, y) is out of
      bounds, revealed or flagged; otherwise (x, y) and exactly the cells of
      the least flood-closed region around it are turned face up. */
  ghost predicate Cascade(b0: Board, b: Board, x: int, y: int) {
    if !InBounds(x, y) || b0[x][y].revealed || b0[x][y].flagged then b == b0
    else Uncovers(b0, b) && b[x][y].revealed && Closed(b0, b) && Least(b0, b, x, y)
  }

  /** The state of reveal_cell(x, y) inside its loop over the neighbours:
      (x, y) is an opening cell turned face up, and the neighbours at offsets
      before (dx, dy) are settled. */
  ghost predicate Progress(b0: Board, b: Board, x: int, y: int, dx: int, dy: int) {
    Uncovers(b0, b) && IsNew(b0, b, x, y) && Opens(b0, x, y) &&
    (forall i, j, k, l ::
      IsNew(b0, b, i, j) && (i, j) != (x, y) && Opens(b, i, j) && InBounds(k, l) && Adjacent(i, j, k, l) ==>
      b[k][l].revealed || b[k][l].flagged) &&
    (forall k, l :: InBounds(k, l) && Adjacent(x, y, k, l) && Before(k - x, l - y, dx, dy) ==>
      b[k][l].revealed || b[k][l].flagged) &&
    Least(b0, b, x, y)
  }

  // ---------------------------------------------------------------------
  // Facts about Uncovers

  lemma UncoversTrans(b0: Board, b1: Board, b2: Board)
    requires Uncovers(b0, b1) && Uncovers(b1, b2)
    ensures Uncovers(b0, b2)
  {
  }

  /** Uncovering never moves a mine, a flag or a count, never hides a cell,
      and keeps neighbour counts consistent. */
  lemma UncoversKeeps(b0: Board, b: Board)
    requires Uncovers(b0, b)
    ensures Mines(b) == Mines(b0) && Flagged(b) == Flagged(b0)
    ensures Revealed(b0) <= Revealed(b) && Concealed(b) <= Concealed(b0)
    ensures NewlyRevealed(b0, b) == Revealed(b) - Revealed(b0)
    ensures |Revealed(b)| - |Revealed(b0)| == |NewlyRevealed(b0, b)|
    ensures CountsConsistent(b0) ==> CountsConsistent(b)
  {
    assert forall x, y :: (x, y) in Mines(b) <==> (x, y) in Mines(b0);
    assert forall x, y :: (x, y) in Flagged(b) <==> (x, y) in Flagged(b0);
    assert forall x, y :: (x, y) in NewlyRevealed(b0, b) <==> (x, y) in Revealed(b) - Revealed(b0);
    forall x, y | InBounds(x, y)
      ensures NeighbourMines(b, x, y) == NeighbourMines(b0, x, y)
    {
      SameMinesSameCounts(b, b0, x, y);
    }
  }

  /** Each reveal that turns up (x, y) shrinks the set of concealed cells, the
      measure on which the recursion of reveal_cell terminates. */
  lemma ConcealedShrinks(b0: Board, b: Board, x: int, y: int)
    requires Uncovers(b0, b) && IsNew(b0, b, x, y)
    ensures Concealed(b) < Concealed(b0)
  {
    UncoversKeeps(b0, b);
    assert (x, y) in Concealed(b0) && (x, y) !in Concealed(b);
  }

  // ---------------------------------------------------------------------
  // The steps of reveal_cell

  /** A cell that does not open stops the cascade at once. */
  lemma StopAtOnce(b0: Board, x: int, y: int)
    requires InBounds(x, y) && !b0[x][y].revealed && !b0[x][y].flagged && !Opens(b0, x, y)
    ensures Cascade(b0, TurnUp(b0, x, y), x, y)
  {
    var b := TurnUp(b0, x, y);
    forall S | FloodClosed(b0, S, x, y)
      ensures forall i, j :: IsNew(b0, b, i, j) ==> (i, j) in S
    {
    }
  }

  /** An opening cell, once turned up, starts the loop over its neighbours. */
  lemma StartLoop(b0: Board, x: int, y: int)
    requires InBounds(x, y) && !b0[x][y].revealed && !b0[x][y].flagged && Opens(b0, x, y)
    ensures Progress(b0, TurnUp(b0, x, y), x, y, -1, -1)
  {
    var b := TurnUp(b0, x, y);
    forall S | FloodClosed(b0, S, x, y)
      ensures forall i, j :: IsNew(b0, b, i, j) ==> (i, j) in S
    {
    }
  }

  /** The recursive call on the neighbour at offset (dx, dy) keeps the loop's
      state and settles that neighbour. */
  lemma {:induction false} NeighbourStep(b0: Board, b1: Board, b2: Board, x: int, y: int, dx: int, dy: int)
    requires -1 <= dx <= 1 && -1 <= dy <= 1 && (dx, dy) != (0, 0)
    requires Progress(b0, b1, x, y, dx, dy)
    requires Cascade(b1, b2, x + dx, y + dy)
    ensures Progress(b0, b2, x, y, dx, dy + 1)
  {
    var nx, ny := x + dx, y + dy;
    if !InBounds(nx, ny) || b1[nx][ny].revealed || b1[nx][ny].flagged {
      assert b2 == b1;
    } else {
      UncoversTrans(b0, b1, b2);
      forall S | FloodClosed(b0, S, x, y)
        ensures forall i, j :: IsNew(b0, b2, i, j) ==> (i, j) in S
      {
        assert Adjacent(x, y, nx, ny);
        assert (nx, ny) in S;
        forall i, j, k, l |
          (i, j) in S && InBounds(i, j) && Opens(b1, i, j) && InBounds(k, l) && Adjacent(i, j, k, l) &&
          !b1[k][l].revealed && !b1[k][l].flagged
          ensures (k, l) in S
        {
          assert Opens(b0, i, j);
        }
        assert FloodClosed(b1, S, nx, ny);
        forall i, j | IsNew(b0, b2, i, j)
          ensures (i, j) in S
        {
          if !IsNew(b0, b1, i, j) {
            assert IsNew(b1, b2, i, j);
          }
        }
      }
      forall i, j, k, l |
        IsNew(b0, b2, i, j) && (i, j) != (x, y) && Opens(b2, i, j) && InBounds(k, l) && Adjacent(i, j, k, l)
        ensures b2[k][l].revealed || b2[k][l].flagged
      {
        if IsNew(b0, b1, i, j) {
          assert Opens(b1, i, j);
          assert b1[k][l].revealed || b1[k][l].flagged;
        } else {
          assert IsNew(b1, b2, i, j);
        }
      }
      forall k, l | InBounds(k, l) && Adjacent(x, y, k, l) && Before(k - x, l - y, dx, dy + 1)
        ensures b2[k][l].revealed || b2[k][l].flagged
      {
        if (k, l) != (nx, ny) {
          assert b1[k][l].revealed || b1[k][l].flagged;
        }
      }
    }
  }

  /** Offset (0, 0) is the cell itself, which the loop skips. */
  lemma SkipCentre(b0: Board, b: Board, x: int, y: int)
    requires Progress(b0, b, x, y, 0, 0)
    ensures Progress(b0, b, x, y, 0, 1)
  {
  }

  /** The end of one row of offsets is the start of the next. */
  lemma NextRow(b0: Board, b: Board, x: int, y: int, dx: int)
    requires Progress(b0, b, x, y, dx, 2)
    ensures Progress(b0, b, x, y, dx + 1, -1)
  {
  }

  /** With every neighbour settled, the loop has done one whole cascade. */
  lemma EndLoop(b0: Board, b: Board, x: int, y: int)
    requires Progress(b0, b, x, y, 2, -1)
    ensures Cascade(b0, b, x, y)
  {
  }

  // ---------------------------------------------------------------------
  // What a cascade reveals

  /** The cells a cascade turns up form a flood-closed region of (x, y), and
      it is the least one: the cascade reveals exactly the flood region. */
  lemma CascadeIsFloodRegion(b0: Board, b: Board, x: int, y: int)
    requires InBounds(x, y) && !b0[x][y].revealed && !b0[x][y].flagged
    requires Cascade(b0, b, x, y)
    ensures FloodClosed(b0, NewlyRevealed(b0, b), x, y)
    ensures forall S :: FloodClosed(b0, S, x, y) ==> NewlyRevealed(b0, b) <= S
  {
    var R := NewlyRevealed(b0, b);
    assert IsNew(b0, b, x, y);
    forall i, j, k, l |
      (i, j) in R && InBounds(i, j) && Opens(b0, i, j) && InBounds(k, l) && Adjacent(i, j, k, l) &&
      !b0[k][l].revealed && !b0[k][l].flagged
      ensures (k, l) in R
    {
      assert IsNew(b0, b, i, j) && Opens(b, i, j);
      assert b[k][l].revealed;
    }
    forall S | FloodClosed(b0, S, x, y)
      ensures R <= S
    {
      forall p | p in R
        ensures p in S
      {
        assert IsNew(b0, b, p.0, p.1);
      }
    }
  }

  /** On a board whose counts are consistent the cascade never turns up a
      mine, apart from the clicked cell itself. */
  lemma CascadeAvoidsMines(b0: Board, b: Board, x: int, y: int)
    requires CountsConsistent(b0)
    requires Cascade(b0, b, x, y)
    ensures forall i, j :: IsNew(b0, b, i, j) && (i, j) != (x, y) ==> !b[i][j].mine
  {
    if InBounds(x, y) && !b0[x][y].revealed && !b0[x][y].flagged {
      var S := set i, j | 0 <= i < N && 0 <= j < N && ((i, j) == (x, y) || !b0[i][j].mine) :: (i, j);
      forall i, j, k, l |
        (i, j) in S && InBounds(i, j) && Opens(b0, i, j) && InBounds(k, l) && Adjacent(i, j, k, l) &&
        !b0[k][l].revealed && !b0[k][l].flagged
        ensures (k, l) in S
      {
        ZeroMeansNoMineAround(b0, i, j, k, l);
      }
      assert FloodClosed(b0, S, x, y);
      forall i, j | IsNew(b0, b, i, j) && (i, j) != (x, y)
        ensures !b[i][j].mine
      {
        assert (i, j) in S;
      }
    }
  }

  /** Whatever its outcome, a reveal only uncovers cells. */
  lemma CascadeUncovers(b0: Board, b: Board, x: int, y: int)
    requires Cascade(b0, b, x, y)
    ensures Uncovers(b0, b)
  {
  }

  /** A reveal started on a cell that is not a mine, on a board whose counts
      are consistent, turns up no mine at all, and keeps the mines, the
      flags and the consistent counts. */
  lemma SafeCascade(b0: Board, b: Board, x: int, y: int)
    requires CountsConsistent(b0) && Cascade(b0, b, x, y)
    requires InBounds(x, y) && !b0[x][y].mine
    ensures Mines(b) == Mines(b0) && Flagged(b) == Flagged(b0) && CountsConsistent(b)
    ensures Mines(b) * Revealed(b) == Mines(b0) * Revealed(b0)
  {
    CascadeUncovers(b0, b, x, y);
    UncoversKeeps(b0, b);
    CascadeAvoidsMines(b0, b, x, y);
    forall p | p in Mines(b) * Revealed(b)
      ensures p in Revealed(b0)
    {
      assert p !in Revealed(b0) ==> IsNew(b0, b, p.0, p.1);
    }
  }

  // ---------------------------------------------------------------------
  // A reveal before the first click

  /** One step from (i, j) toward (x, y) along each axis. */
  function Toward(i: int, x: int): int {
    if i < x then i + 1 else if i > x then i - 1 else i
  }

  /** On a board with no mine, no flag and no revealed cell, as it stands
      before the first click deals the mines, every count is 0, so a reveal
      from any cell floods the whole board: that is what a hint before the
      first click does. */
  lemma EmptyBoardFloods(b0: Board, b: Board, x: int, y: int)
    requires forall i, j :: InBounds(i, j) ==> !b0[i][j].mine && !b0[i][j].flagged && !b0[i][j].revealed
    requires CountsConsistent(b0)
    requires InBounds(x, y) && Cascade(b0, b, x, y)
    ensures forall i, j :: InBounds(i, j) ==> b[i][j].revealed
    ensures Won(b)
  {
    forall i, j | InBounds(i, j)
      ensures b[i][j].revealed
    {
      Reaches(b0, b, x, y, i, j);
    }
  }

  /** The induction of EmptyBoardFloods over the distance from (x, y). */
  lemma {:induction false} Reaches(b0: Board, b: Board, x: int, y: int, i: int, j: int)
    requires forall i, j :: InBounds(i, j) ==> !b0[i][j].mine && !b0[i][j].flagged && !b0[i][j].revealed
    requires CountsConsistent(b0)
    requires InBounds(x, y) && Cascade(b0, b, x, y)
    requires InBounds(i, j)
    ensures b[i][j].revealed
    decreases (if i < x then x - i else i - x) + (if j < y then y - j else j - y)
  {
    if (i, j) != (x, y) {
      var pi, pj := Toward(i, x), Toward(j, y);
      Reaches(b0, b, x, y, pi, pj);
      assert NeighbourMineCells(b0, pi, pj) == {};
      assert NeighbourMines(b0, pi, pj) == 0;
      assert IsNew(b0, b, pi, pj) && Opens(b, pi, pj) && Adjacent(pi, pj, i, j);
    }
  }
}
