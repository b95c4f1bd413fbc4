/** The grid model of the game: one cell per position, the 14 x 14 board as a
    value, the sets of cells the engine counts, neighbour counts and the
    row-major order in which the engine scans the board. */
module Grid {

  /** GRID_SIZE: the board has N x N cells, indexed board[x][y]. */
  const N: int := 14

  datatype Option<T> = None | Some(value: T)

  /** The three presets; each fixes the number of mines of a game. */
  datatype Difficulty = Easy | Medium | Hard

  /** NUM_MINES_EASY, NUM_MINES_MEDIUM, NUM_MINES_HARD. Every preset leaves at
      least one cell free, the one under the first click. */
  function MineCount(d: Difficulty): (r: int)
    ensures 0 < r <= N * N - 1
  {
    match d
    case Easy => 20
    case Medium => 30
    case Hard => 40
  }

  /** One square of the board. neighborMines is only meaningful for a cell
      that is not a mine, once the mines are placed. */
  datatype Cell = Cell(revealed: bool, mine: bool, flagged: bool, neighborMines: int)

  /** The cleared cell: concealed, no mine, no flag, count 0. */
  const Blank: Cell := Cell(false, false, false, 0)

  /** A board is an N x N grid of cells. */
  type Board = b: seq<seq<Cell>> | |b| == N && forall x :: 0 <= x < N ==> |b[x]| == N
    witness seq(N, _ => seq(N, _ => Blank))

  predicate InBounds(x: int, y: int) {
    0 <= x < N && 0 <= y < N
  }

  /** (i, j) is one of the up to eight Moore neighbours of (x, y). */
  predicate Adjacent(x: int, y: int, i: int, j: int) {
    (i, j) != (x, y) && x - 1 <= i <= x + 1 && y - 1 <= j <= y + 1
  }

  /** The board with cell (x, y) replaced by c. */
  function Update(b: Board, x: int, y: int, c: Cell): (r: Board)
    requires InBounds(x, y)
    ensures r[x][y] == c
    ensures forall i, j :: InBounds(i, j) && (i, j) != (x, y) ==> r[i][j] == b[i][j]
  {
    b[x := b[x][y := c]]
  }

  /** The board every reset starts from. */
  function Cleared(): (r: Board)
    ensures forall x, y :: InBounds(x, y) ==> r[x][y] == Blank
  {
    seq(N, _ => seq(N, _ => Blank))
  }

  /** A cleared board has no revealed cell, no mine and no flag, and its
      counts are consistent. */
  lemma ClearedIsEmpty()
    ensures Revealed(Cleared()) == {} && Mines(Cleared()) == {} && Flagged(Cleared()) == {}
    ensures CountsConsistent(Cleared())
  {
    var b := Cleared();
    assert forall x, y :: (x, y) !in Revealed(b) && (x, y) !in Mines(b) && (x, y) !in Flagged(b);
    NoMinesNoCounts(b);
  }

  /** Two boards that agree on every cell are equal. */
  lemma Ext(a: Board, b: Board)
    requires forall x, y :: InBounds(x, y) ==> a[x][y] == b[x][y]
    ensures a == b
  {
    forall x | 0 <= x < N
      ensures a[x] == b[x]
    {
      assert forall y :: 0 <= y < N ==> a[x][y] == b[x][y];
    }
  }

  // ---------------------------------------------------------------------
  // The sets of cells the engine counts

  ghost function Revealed(b: Board): set<(int, int)> {
    set x, y | 0 <= x < N && 0 <= y < N && b[x][y].revealed :: (x, y)
  }

  ghost function Concealed(b: Board): set<(int, int)> {
    set x, y | 0 <= x < N && 0 <= y < N && !b[x][y].revealed :: (x, y)
  }

  ghost function Mines(b: Board): set<(int, int)> {
    set x, y | 0 <= x < N && 0 <= y < N && b[x][y].mine :: (x, y)
  }

  ghost function Flagged(b: Board): set<(int, int)> {
    set x, y | 0 <= x < N && 0 <= y < N && b[x][y].flagged :: (x, y)
  }

  lemma {:induction false} SubsetCard<T>(a: set<T>, b: set<T>)
    requires a <= b
    ensures |a| <= |b|
    decreases b
  {
    if b != {} {
      var e :| e in b;
      SubsetCard(a - {e}, b - {e});
    }
  }

  /** Turning one concealed cell face up adds exactly that cell to the
      revealed cells and takes it from the concealed ones. */
  lemma UncoverOne(b: Board, x: int, y: int)
    requires InBounds(x, y) && !b[x][y].revealed
    ensures Revealed(TurnUp(b, x, y)) == Revealed(b) + {(x, y)}
    ensures (x, y) !in Revealed(b)
    ensures Concealed(TurnUp(b, x, y)) == Concealed(b) - {(x, y)}
    ensures (x, y) in Concealed(b)
  {
    var b' := TurnUp(b, x, y);
    assert forall i, j :: (i, j) in Revealed(b') <==> (i, j) in Revealed(b) || (i, j) == (x, y);
    assert forall i, j :: (i, j) in Concealed(b') <==> (i, j) in Concealed(b) && (i, j) != (x, y);
  }

  /** The board after reveal_cell has turned (x, y) face up. */
  function TurnUp(b: Board, x: int, y: int): Board
    requires InBounds(x, y)
  {
    Update(b, x, y, b[x][y].(revealed := true))
  }

  /** Cell (x, y) with a mine put on it. */
  function Arm(b: Board, x: int, y: int): Board
    requires InBounds(x, y)
  {
    Update(b, x, y, b[x][y].(mine := true))
  }

  /** The board with the flag of cell (x, y) flipped. */
  function Flip(b: Board, x: int, y: int): Board
    requires InBounds(x, y)
  {
    Update(b, x, y, b[x][y].(flagged := !b[x][y].flagged))
  }

  /** Flipping the flag of one cell adds it to, or takes it from, the
      flagged cells, so the number of flags goes up or down by one; the
      mines, the revealed cells and the consistency of the counts stay. */
  lemma FlipOne(b: Board, x: int, y: int)
    requires InBounds(x, y)
    ensures var b' := Flip(b, x, y);
      (if b[x][y].flagged
       then Flagged(b') == Flagged(b) - {(x, y)} && (x, y) in Flagged(b)
       else Flagged(b') == Flagged(b) + {(x, y)} && (x, y) !in Flagged(b)) &&
      |Flagged(b')| == |Flagged(b)| + (if b'[x][y].flagged then 1 else -1) &&
      Mines(b') == Mines(b) && Revealed(b') == Revealed(b) &&
      (CountsConsistent(b) ==> CountsConsistent(b'))
  {
    var b' := Flip(b, x, y);
    assert forall i, j :: (i, j) in Flagged(b') <==>
      if (i, j) == (x, y) then !b[x][y].flagged else (i, j) in Flagged(b);
    if b[x][y].flagged {
      assert Flagged(b) == Flagged(b') + {(x, y)};
    }
    assert forall i, j :: (i, j) in Mines(b') <==> (i, j) in Mines(b);
    assert forall i, j :: (i, j) in Revealed(b') <==> (i, j) in Revealed(b);
    forall i, j | InBounds(i, j)
      ensures NeighbourMines(b', i, j) == NeighbourMines(b, i, j)
    {
      SameMinesSameCounts(b', b, i, j);
    }
  }

  /** Boards that differ only in mine bits have the same flags and the same
      revealed cells. */
  lemma MinesOnly(a: Board, b: Board)
    requires forall x, y :: InBounds(x, y) ==> a[x][y] == b[x][y].(mine := a[x][y].mine)
    ensures Flagged(a) == Flagged(b) && Revealed(a) == Revealed(b)
  {
    assert forall x, y :: (x, y) in Flagged(a) <==> (x, y) in Flagged(b);
    assert forall x, y :: (x, y) in Revealed(a) <==> (x, y) in Revealed(b);
  }

  /** Marking one more cell a mine adds exactly that cell to the mines. */
  lemma ArmOne(b: Board, x: int, y: int)
    requires InBounds(x, y) && !b[x][y].mine
    ensures Mines(Arm(b, x, y)) == Mines(b) + {(x, y)}
    ensures (x, y) !in Mines(b)
  {
    var b' := Arm(b, x, y);
    assert forall i, j :: (i, j) in Mines(b') <==> (i, j) in Mines(b) || (i, j) == (x, y);
  }

  // ---------------------------------------------------------------------
  // Neighbour counts

  /** The mine cells among the in-bounds neighbours of (x, y). */
  ghost function NeighbourMineCells(b: Board, x: int, y: int): set<(int, int)> {
    set i, j | 0 <= i < N && 0 <= j < N && Adjacent(x, y, i, j) && b[i][j].mine :: (i, j)
  }

  ghost function NeighbourMines(b: Board, x: int, y: int): int {
    |NeighbourMineCells(b, x, y)|
  }

  /** Every non-mine cell carries the number of mines around it. */
  ghost predicate CountsConsistent(b: Board) {
    forall x, y {:trigger NeighbourMines(b, x, y)} ::
      InBounds(x, y) && !b[x][y].mine ==> b[x][y].neighborMines == NeighbourMines(b, x, y)
  }

  /** A neighbour count lies in 0..8: the bounds-clipped ring has at most
      eight cells. */
  lemma NeighbourMinesBound(b: Board, x: int, y: int)
    ensures 0 <= NeighbourMines(b, x, y) <= 8
  {
    var ring := {(x - 1, y - 1), (x - 1, y), (x - 1, y + 1), (x, y - 1),
                 (x, y + 1), (x + 1, y - 1), (x + 1, y), (x + 1, y + 1)};
    assert |ring| <= 8;
    assert NeighbourMineCells(b, x, y) <= ring;
    SubsetCard(NeighbourMineCells(b, x, y), ring);
  }

  /** A cell whose count is 0 in a consistent board has no mine around it. */
  lemma ZeroMeansNoMineAround(b: Board, x: int, y: int, i: int, j: int)
    requires CountsConsistent(b)
    requires InBounds(x, y) && !b[x][y].mine && b[x][y].neighborMines == 0
    requires InBounds(i, j) && Adjacent(x, y, i, j)
    ensures !b[i][j].mine
  {
    assert NeighbourMines(b, x, y) == 0;
    assert b[i][j].mine ==> (i, j) in NeighbourMineCells(b, x, y);
  }

  /** Neighbour counts depend on where the mines are and on nothing else. */
  lemma SameMinesSameCounts(a: Board, b: Board, x: int, y: int)
    requires forall i, j :: InBounds(i, j) ==> a[i][j].mine == b[i][j].mine
    ensures NeighbourMines(a, x, y) == NeighbourMines(b, x, y)
  {
    assert NeighbourMineCells(a, x, y) == NeighbourMineCells(b, x, y);
  }

  /** On a board without mines every count is 0, so a cleared board is
      consistent. */
  lemma NoMinesNoCounts(b: Board)
    requires Mines(b) == {}
    requires forall x, y :: InBounds(x, y) ==> b[x][y].neighborMines == 0
    ensures CountsConsistent(b)
  {
    forall x, y | InBounds(x, y) && !b[x][y].mine
      ensures b[x][y].neighborMines == NeighbourMines(b, x, y)
    {
      assert NeighbourMineCells(b, x, y) <= Mines(b);
      assert NeighbourMineCells(b, x, y) == {};
    }
  }

  /** The mine cells of the 3 x 3 block around (x, y) that a scan in the
      order dx, then dy, has passed before offset (dx, dy). */
  ghost function Scanned(b: Board, x: int, y: int, dx: int, dy: int): set<(int, int)> {
    set i, j | 0 <= i < N && 0 <= j < N && x - 1 <= i <= x + 1 && y - 1 <= j <= y + 1
               && (i < x + dx || (i == x + dx && j < y + dy)) && b[i][j].mine :: (i, j)
  }

  lemma ScanStart(b: Board, x: int, y: int)
    ensures |Scanned(b, x, y, -1, -1)| == 0
  {
  }

  /** One step of the scan adds the cell at (x + dx, y + dy) when it is an
      in-bounds mine, and that cell was not in the scan before. */
  lemma ScanAdds(b: Board, x: int, y: int, dx: int, dy: int)
    requires -1 <= dx <= 1 && -1 <= dy <= 1
    ensures (x + dx, y + dy) !in Scanned(b, x, y, dx, dy)
    ensures Scanned(b, x, y, dx, dy + 1) ==
      Scanned(b, x, y, dx, dy) +
      (if InBounds(x + dx, y + dy) && b[x + dx][y + dy].mine then {(x + dx, y + dy)} else {})
  {
    var next := Scanned(b, x, y, dx, dy + 1);
    var added := if InBounds(x + dx, y + dy) && b[x + dx][y + dy].mine then {(x + dx, y + dy)} else {};
    assert forall i, j :: (i, j) in next <==> (i, j) in Scanned(b, x, y, dx, dy) || (i, j) in added;
  }

  /** So one step of the scan counts that cell, and nothing else. */
  lemma ScanStep(b: Board, x: int, y: int, dx: int, dy: int)
    requires -1 <= dx <= 1 && -1 <= dy <= 1
    ensures |Scanned(b, x, y, dx, dy + 1)| ==
      |Scanned(b, x, y, dx, dy)| + (if InBounds(x + dx, y + dy) && b[x + dx][y + dy].mine then 1 else 0)
  {
    ScanAdds(b, x, y, dx, dy);
  }

  lemma ScanNextRow(b: Board, x: int, y: int, dx: int)
    ensures |Scanned(b, x, y, dx, 2)| == |Scanned(b, x, y, dx + 1, -1)|
  {
    assert forall i, j :: (i, j) in Scanned(b, x, y, dx, 2) <==> (i, j) in Scanned(b, x, y, dx + 1, -1);
    assert Scanned(b, x, y, dx, 2) == Scanned(b, x, y, dx + 1, -1);
  }

  /** The whole block holds the neighbour mines, plus the centre cell when it
      is a mine itself. */
  lemma ScanEnd(b: Board, x: int, y: int)
    requires InBounds(x, y)
    ensures |Scanned(b, x, y, 2, -1)| == NeighbourMines(b, x, y) + (if b[x][y].mine then 1 else 0)
  {
    var centre := if b[x][y].mine then {(x, y)} else {};
    assert forall i, j :: (i, j) in Scanned(b, x, y, 2, -1) <==>
      (i, j) in NeighbourMineCells(b, x, y) || (i, j) in centre;
    assert Scanned(b, x, y, 2, -1) == NeighbourMineCells(b, x, y) + centre;
    assert (x, y) !in NeighbourMineCells(b, x, y);
  }

  // ---------------------------------------------------------------------
  // Winning, the mine display and the hint scan

  /** Every cell that is not a mine has been revealed. Flags do not count. */
  ghost predicate Won(b: Board) {
    forall x, y :: InBounds(x, y) ==> b[x][y].mine || b[x][y].revealed
  }

  /** The board after a lost game: every mine cell is turned face up. */
  function MinesShown(b: Board): (r: Board)
    ensures forall x, y :: InBounds(x, y) ==>
      r[x][y] == if b[x][y].mine then b[x][y].(revealed := true) else b[x][y]
  {
    seq(N, x requires 0 <= x < N =>
      seq(N, y requires 0 <= y < N => if b[x][y].mine then b[x][y].(revealed := true) else b[x][y]))
  }

  /** Showing the mines turns up exactly the concealed mines, and leaves every
      mine, flag and count where it was. */
  lemma MinesShownReveals(b: Board)
    ensures Revealed(MinesShown(b)) == Revealed(b) + Mines(b)
    ensures Mines(MinesShown(b)) == Mines(b) && Flagged(MinesShown(b)) == Flagged(b)
    ensures CountsConsistent(b) ==> CountsConsistent(MinesShown(b))
  {
    var r := MinesShown(b);
    assert forall x, y :: (x, y) in Revealed(r) <==> (x, y) in Revealed(b) || (x, y) in Mines(b);
    assert forall x, y :: (x, y) in Mines(r) <==> (x, y) in Mines(b);
    assert forall x, y :: (x, y) in Flagged(r) <==> (x, y) in Flagged(b);
    forall x, y | InBounds(x, y)
      ensures NeighbourMines(r, x, y) == NeighbourMines(b, x, y)
    {
      SameMinesSameCounts(r, b, x, y);
    }
  }

  /** (i, j) comes before (x, y) in the row-major scan, which runs over the
      first index and, inside it, over the second. */
  predicate Before(i: int, j: int, x: int, y: int) {
    i < x || (i == x && j < y)
  }

  /** Index k of the scan names cell (k / N, k % N); index k + 1 names the
      next cell in row-major order, and index N * N lies past every cell. */
  lemma RowMajorNext(k: int)
    requires 0 <= k < N * N
    ensures InBounds(k / N, k % N)
    ensures forall i, j :: InBounds(i, j) ==>
      (Before(i, j, (k + 1) / N, (k + 1) % N) <==> Before(i, j, k / N, k % N) || (i, j) == (k / N, k % N))
  {
    var q, r := k / N, k % N;
    assert k == q * N + r && 0 <= r < N;
    if r < N - 1 {
      assert (k + 1) / N == q && (k + 1) % N == r + 1;
    } else {
      assert (k + 1) / N == q + 1 && (k + 1) % N == 0;
    }
  }

  lemma RowMajorEnds()
    ensures forall i, j :: InBounds(i, j) ==> Before(i, j, (N * N) / N, (N * N) % N)
    ensures forall i, j :: !Before(i, j, 0 / N, 0 % N) || !InBounds(i, j)
  {
  }

  /** A cell a hint may reveal: concealed, not a mine, not flagged. */
  predicate Hintable(b: Board, x: int, y: int)
    requires InBounds(x, y)
  {
    !b[x][y].revealed && !b[x][y].mine && !b[x][y].flagged
  }

  /** The first hintable cell at scan index k or later. */
  function FirstHintFrom(b: Board, k: int): (r: Option<(int, int)>)
    requires 0 <= k <= N * N
    decreases N * N - k
    ensures r.Some? ==> InBounds(r.value.0, r.value.1) && Hintable(b, r.value.0, r.value.1)
    ensures r.Some? ==> !Before(r.value.0, r.value.1, k / N, k % N)
    ensures forall i, j ::
      (InBounds(i, j) && !Before(i, j, k / N, k % N) && (r.Some? ==> Before(i, j, r.value.0, r.value.1)))
      ==> !Hintable(b, i, j)
  {
    if k == N * N then None
    else
      RowMajorNext(k);
      if Hintable(b, k / N, k % N) then Some((k / N, k % N))
      else FirstHintFrom(b, k + 1)
  }

  /** The cell use_hint acts on: the first hintable cell in row-major order,
      or None when there is none. */
  function FirstHint(b: Board): (r: Option<(int, int)>)
    ensures r.Some? ==> InBounds(r.value.0, r.value.1) && Hintable(b, r.value.0, r.value.1)
    ensures r.Some? ==> forall i, j :: InBounds(i, j) && Before(i, j, r.value.0, r.value.1) ==> !Hintable(b, i, j)
    ensures r.None? <==> forall i, j :: InBounds(i, j) ==> !Hintable(b, i, j)
  {
    RowMajorEnds();
    FirstHintFrom(b, 0)
  }

  /** A hintable cell with no hintable cell before it is the one use_hint
      picks. */
  lemma HintIsFirst(b: Board, x: int, y: int)
    requires InBounds(x, y) && Hintable(b, x, y)
    requires forall i, j :: InBounds(i, j) && Before(i, j, x, y) ==> !Hintable(b, i, j)
    ensures FirstHint(b) == Some((x, y))
  {
    var r := FirstHint(b);
    assert r.Some?;
    var p, q := r.value.0, r.value.1;
    assert !Before(p, q, x, y);
    assert !Before(x, y, p, q);
  }
}
