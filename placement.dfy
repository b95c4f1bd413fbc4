/** The two passes of place_mines as functions on board values: the
    rejection-sampling loop that arms cells named by rand(), and the pass
    that writes every non-mine cell's neighbour count. */
module Placement {
  import opened Grid

  /** The cell named by the two rand() results of one round of place_mines:
      rand() % GRID_SIZE for each index. rand() never returns a negative
      number, so the remainder is the same as C's. */
  function RollCell(r: (nat, nat)): (c: (int, int))
    ensures InBounds(c.0, c.1)
  {
    (r.0 % N, r.1 % N)
  }

  /** The cells the rolls name, apart from the safe cell: the only cells the
      placing loop can arm. */
  ghost function Picked(rolls: seq<(nat, nat)>, sx: int, sy: int): set<(int, int)>
    decreases |rolls|
  {
    if |rolls| == 0 then {}
    else (if RollCell(rolls[0]) != (sx, sy) then {RollCell(rolls[0])} else {}) + Picked(rolls[1..], sx, sy)
  }

  /** The safe cell is never among the picked cells. */
  lemma {:induction false} SafeNotPicked(rolls: seq<(nat, nat)>, sx: int, sy: int)
    ensures (sx, sy) !in Picked(rolls, sx, sy)
    decreases |rolls|
  {
    if |rolls| > 0 {
      SafeNotPicked(rolls[1..], sx, sy);
    }
  }

  /** Whether one round of the placing loop arms the cell roll r names on b:
      it holds no mine and is not the safe cell. */
  predicate Arms(b: Board, r: (nat, nat), sx: int, sy: int) {
    var c := RollCell(r);
    !b[c.0][c.1].mine && c != (sx, sy)
  }

  /** The board one round of the placing loop leaves behind. */
  function AfterRound(b: Board, r: (nat, nat), sx: int, sy: int): Board {
    var c := RollCell(r);
    if Arms(b, r, sx, sy) then Arm(b, c.0, c.1) else b
  }

  /** The placing loop of place_mines, run on b until `need` more mines are
      down: each round takes the next roll and arms its cell when that cell
      holds no mine and is not the safe cell. Should the rolls run out first,
      the board reached so far is returned; the loop itself would go on
      calling rand(). */
  function Armed(b: Board, rolls: seq<(nat, nat)>, need: int, sx: int, sy: int): Board
    decreases |rolls|
  {
    if need <= 0 || |rolls| == 0 then b
    else
      Armed(AfterRound(b, rolls[0], sx, sy), rolls[1..],
            if Arms(b, rolls[0], sx, sy) then need - 1 else need, sx, sy)
  }

  /** The placing loop changes nothing but the mine bits, and only sets them. */
  lemma {:induction false} ArmedKeeps(b: Board, rolls: seq<(nat, nat)>, need: int, sx: int, sy: int)
    ensures forall i, j :: InBounds(i, j) ==>
      Armed(b, rolls, need, sx, sy)[i][j] == b[i][j].(mine := Armed(b, rolls, need, sx, sy)[i][j].mine)
    ensures forall i, j :: InBounds(i, j) && b[i][j].mine ==> Armed(b, rolls, need, sx, sy)[i][j].mine
    decreases |rolls|
  {
    if need > 0 && |rolls| > 0 {
      var c := RollCell(rolls[0]);
      if !b[c.0][c.1].mine && c != (sx, sy) {
        ArmedKeeps(Arm(b, c.0, c.1), rolls[1..], need - 1, sx, sy);
      } else {
        ArmedKeeps(b, rolls[1..], need, sx, sy);
      }
    }
  }

  /** The placing loop seen on the set of mine cells alone. */
  ghost function ArmedSet(m: set<(int, int)>, rolls: seq<(nat, nat)>, need: int, sx: int, sy: int): set<(int, int)>
    decreases |rolls|
  {
    if need <= 0 || |rolls| == 0 then m
    else
      var c := RollCell(rolls[0]);
      if c !in m && c != (sx, sy) then ArmedSet(m + {c}, rolls[1..], need - 1, sx, sy)
      else ArmedSet(m, rolls[1..], need, sx, sy)
  }

  /** The mines of the armed board are those the set-level loop reaches. */
  lemma {:induction false} ArmedMines(b: Board, rolls: seq<(nat, nat)>, need: int, sx: int, sy: int)
    ensures Mines(Armed(b, rolls, need, sx, sy)) == ArmedSet(Mines(b), rolls, need, sx, sy)
    decreases |rolls|
  {
    if need > 0 && |rolls| > 0 {
      var c := RollCell(rolls[0]);
      assert c == (c.0, c.1);
      assert c in Mines(b) <==> b[c.0][c.1].mine;
      if !b[c.0][c.1].mine && c != (sx, sy) {
        ArmOne(b, c.0, c.1);
        ArmedMines(Arm(b, c.0, c.1), rolls[1..], need - 1, sx, sy);
      } else {
        ArmedMines(b, rolls[1..], need, sx, sy);
      }
    }
  }

  /** The bookkeeping of one armed round: mines m grow by c, then by the rest
      of the loop to r. */
  lemma GrowBy<T>(m: set<T>, r: set<T>, pRest: set<T>, p: set<T>, c: T, need: int)
    requires c !in m && c in p && pRest <= p
    requires m + {c} <= r && |r| == |m + {c}| + need - 1 && r - (m + {c}) <= pRest
    ensures m <= r && |r| == |m| + need && r - m <= p
  {
  }

  /** Arming the rolled cell c uses up at most one unit of the budget of
      rolled cells that are not yet mines. */
  lemma ArmBudget<T>(p: set<T>, pRest: set<T>, m: set<T>, c: T)
    requires p <= pRest + {c}
    ensures |p - m| <= |pRest - (m + {c})| + 1
  {
    SubsetCard(p - m, (pRest - (m + {c})) + {c});
  }

  /** Skipping a rolled cell that is already a mine, or is not in the
      budget at all, leaves the budget as it was. */
  lemma SkipBudget<T>(p: set<T>, pRest: set<T>, m: set<T>, c: T)
    requires p <= pRest + {c} && (c in m || c !in p)
    ensures |p - m| <= |pRest - m|
  {
    SubsetCard(p - m, pRest - m);
  }

  /** With at least `need` rolled cells that are neither the safe cell nor
      already mines, the set-level loop adds exactly `need` mines, all of
      them rolled cells other than the safe one. */
  lemma {:induction false} ArmedSetPlaces(m: set<(int, int)>, rolls: seq<(nat, nat)>, need: int, sx: int, sy: int)
    requires 0 <= need <= |Picked(rolls, sx, sy) - m|
    ensures m <= ArmedSet(m, rolls, need, sx, sy)
    ensures |ArmedSet(m, rolls, need, sx, sy)| == |m| + need
    ensures ArmedSet(m, rolls, need, sx, sy) - m <= Picked(rolls, sx, sy)
    decreases |rolls|
  {
    if need > 0 && |rolls| > 0 {
      var c := RollCell(rolls[0]);
      var rest := rolls[1..];
      if c !in m && c != (sx, sy) {
        ArmBudget(Picked(rolls, sx, sy), Picked(rest, sx, sy), m, c);
        ArmedSetPlaces(m + {c}, rest, need - 1, sx, sy);
        GrowBy(m, ArmedSet(m + {c}, rest, need - 1, sx, sy), Picked(rest, sx, sy), Picked(rolls, sx, sy), c, need);
      } else {
        SafeNotPicked(rolls, sx, sy);
        SkipBudget(Picked(rolls, sx, sy), Picked(rest, sx, sy), m, c);
        ArmedSetPlaces(m, rest, need, sx, sy);
      }
    }
  }

  /** With at least `need` cells among the rolls that are neither the safe
      cell nor already mines, the placing loop adds exactly `need` mines, all
      of them on rolled cells, so never on the safe cell. */
  lemma ArmedPlaces(b: Board, rolls: seq<(nat, nat)>, need: int, sx: int, sy: int)
    requires 0 <= need <= |Picked(rolls, sx, sy) - Mines(b)|
    ensures Mines(b) <= Mines(Armed(b, rolls, need, sx, sy))
    ensures |Mines(Armed(b, rolls, need, sx, sy))| == |Mines(b)| + need
    ensures Mines(Armed(b, rolls, need, sx, sy)) - Mines(b) <= Picked(rolls, sx, sy)
    ensures (sx, sy) in Mines(Armed(b, rolls, need, sx, sy)) ==> (sx, sy) in Mines(b)
  {
    ArmedMines(b, rolls, need, sx, sy);
    ArmedSetPlaces(Mines(b), rolls, need, sx, sy);
    SafeNotPicked(rolls, sx, sy);
  }

  /** The rolls suffice for the placing loop to put `need` more mines on b:
      it stops before it would ask rand() for a roll that is not there. */
  ghost predicate Suffices(b: Board, rolls: seq<(nat, nat)>, need: int, sx: int, sy: int)
    decreases |rolls|
  {
    need <= 0 ||
    (|rolls| > 0 &&
     Suffices(AfterRound(b, rolls[0], sx, sy), rolls[1..],
              if Arms(b, rolls[0], sx, sy) then need - 1 else need, sx, sy))
  }

  /** With at least `need` rolled cells that are neither the safe cell nor
      already mines, the rolls suffice. */
  lemma {:induction false} BudgetSuffices(b: Board, rolls: seq<(nat, nat)>, need: int, sx: int, sy: int)
    requires need <= |Picked(rolls, sx, sy) - Mines(b)|
    ensures Suffices(b, rolls, need, sx, sy)
    decreases |rolls|
  {
    if need > 0 {
      assert |rolls| > 0;
      var c := RollCell(rolls[0]);
      SafeNotPicked(rolls, sx, sy);
      assert c == (c.0, c.1);
      if Arms(b, rolls[0], sx, sy) {
        ArmOne(b, c.0, c.1);
        ArmBudget(Picked(rolls, sx, sy), Picked(rolls[1..], sx, sy), Mines(b), c);
      } else {
        assert c in Mines(b) <==> b[c.0][c.1].mine;
        SkipBudget(Picked(rolls, sx, sy), Picked(rolls[1..], sx, sy), Mines(b), c);
      }
      BudgetSuffices(AfterRound(b, rolls[0], sx, sy), rolls[1..],
                     if Arms(b, rolls[0], sx, sy) then need - 1 else need, sx, sy);
    }
  }

  /** The counting pass of place_mines: each non-mine cell gets the number of
      mines around it, and each mine cell keeps the count it had. */
  ghost function Counted(b: Board): (r: Board)
    ensures forall x, y :: InBounds(x, y) ==>
      r[x][y] == if b[x][y].mine then b[x][y] else b[x][y].(neighborMines := NeighbourMines(b, x, y))
  {
    seq(N, x requires 0 <= x < N =>
      seq(N, y requires 0 <= y < N =>
        if b[x][y].mine then b[x][y] else b[x][y].(neighborMines := NeighbourMines(b, x, y))))
  }

  /** After the counting pass every count is consistent and lies in 0..8,
      and the mines, flags and revealed cells are those of b. */
  lemma CountedConsistent(b: Board)
    ensures CountsConsistent(Counted(b))
    ensures forall x, y :: InBounds(x, y) && !b[x][y].mine ==> 0 <= Counted(b)[x][y].neighborMines <= 8
    ensures Mines(Counted(b)) == Mines(b) && Flagged(Counted(b)) == Flagged(b)
    ensures Revealed(Counted(b)) == Revealed(b)
  {
    var r := Counted(b);
    assert forall x, y :: (x, y) in Mines(r) <==> (x, y) in Mines(b);
    assert forall x, y :: (x, y) in Flagged(r) <==> (x, y) in Flagged(b);
    assert forall x, y :: (x, y) in Revealed(r) <==> (x, y) in Revealed(b);
    forall x, y | InBounds(x, y)
      ensures NeighbourMines(r, x, y) == NeighbourMines(b, x, y)
      ensures 0 <= NeighbourMines(b, x, y) <= 8
    {
      SameMinesSameCounts(r, b, x, y);
      NeighbourMinesBound(b, x, y);
    }
  }

  /** The deal on the first click: on a board without mines, with enough
      usable rolls, place_mines leaves exactly `num` mines, none of them on
      the clicked cell, consistent counts, and the flags and revealed cells
      as they were. */
  lemma FirstDeal(b: Board, rolls: seq<(nat, nat)>, num: int, sx: int, sy: int)
    requires InBounds(sx, sy) && Mines(b) == {}
    requires 0 <= num <= |Picked(rolls, sx, sy)|
    ensures var d := Counted(Armed(b, rolls, num, sx, sy));
      !d[sx][sy].mine && |Mines(d)| == num && CountsConsistent(d) &&
      Flagged(d) == Flagged(b) && Revealed(d) == Revealed(b) &&
      d[sx][sy].flagged == b[sx][sy].flagged
  {
    var a := Armed(b, rolls, num, sx, sy);
    assert Picked(rolls, sx, sy) - Mines(b) == Picked(rolls, sx, sy);
    ArmedPlaces(b, rolls, num, sx, sy);
    ArmedKeeps(b, rolls, num, sx, sy);
    MinesOnly(a, b);
    CountedConsistent(a);
    assert a[sx][sy].mine ==> (sx, sy) in Mines(a);
  }
}
