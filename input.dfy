/** The mapping the input loop of main applies to a mouse position below the
    info bar: the pixel is shifted by the grid's offsets and divided by the
    cell size to give the cell the click lands on. */
module Input {
  import opened Grid

  /** CELL_SIZE, WINDOW_WIDTH and INFO_HEIGHT. */
  const CellSize: int := 40
  const WindowWidth: int := 680
  const InfoHeight: int := 100

  /** offset_x and offset_y as init_game sets them: the grid is centred
      across the window and starts right below the info bar. */
  const OffsetX: int := (WindowWidth - N * CellSize) / 2
  const OffsetY: int := InfoHeight

  /** C's integer division, which truncates toward zero. */
  function CDiv(a: int, b: int): (q: int)
    requires b > 0
    ensures a >= 0 ==> q * b <= a < (q + 1) * b
    ensures a < 0 ==> (q - 1) * b < a <= q * b
  {
    if a >= 0 then a / b else -((-a) / b)
  }

  /** The cell a click at (px, py) acts on, as main computes it: both
      indices by C division, accepted when both lie on the grid. */
  function CellAtAsWritten(px: int, py: int): Option<(int, int)> {
    var x, y := CDiv(px - OffsetX, CellSize), CDiv(py - OffsetY, CellSize);
    if InBounds(x, y) then Some((x, y)) else None
  }

  /** A click 30 pixels from the left edge of the window lies left of the
      grid, which starts at OffsetX = 60, yet the division truncates -30 / 40
      to 0 and the click lands on column 0. */
  lemma MarginClickAsWritten()
    ensures 30 < OffsetX && CellAtAsWritten(30, 200) == Some((0, 2))
  {
    assert CDiv(30 - OffsetX, CellSize) == 0;
  }

  /** The cell under (px, py), by floor division: a cell exactly when the
      pixel lies on the grid. */
  function CellAt(px: int, py: int): (c: Option<(int, int)>)
    ensures c.Some? <==>
      OffsetX <= px < OffsetX + N * CellSize && OffsetY <= py < OffsetY + N * CellSize
    ensures c.Some? ==> (InBounds(c.value.0, c.value.1) &&
      OffsetX + c.value.0 * CellSize <= px < OffsetX + (c.value.0 + 1) * CellSize &&
      OffsetY + c.value.1 * CellSize <= py < OffsetY + (c.value.1 + 1) * CellSize)
  {
    var x, y := (px - OffsetX) / CellSize, (py - OffsetY) / CellSize;
    if InBounds(x, y) then Some((x, y)) else None
  }

  /** Below the info bar, the only clicks the written conversion takes
      differently are those in the 39 pixels left of the grid, level with
      one of its rows. */
  lemma AsWrittenDiffers(px: int, py: int)
    requires py >= InfoHeight
    ensures CellAtAsWritten(px, py) != CellAt(px, py) <==>
      OffsetX - CellSize < px < OffsetX && py < OffsetY + N * CellSize
  {
    var q := (px - OffsetX) / CellSize;
    if px < OffsetX {
      assert q < 0;
    }
    if OffsetX - CellSize < px < OffsetX {
      assert CDiv(px - OffsetX, CellSize) == 0;
    }
  }
}
