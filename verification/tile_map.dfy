/**
 * The map-writing part of the play screen's frame: text output, the clear
 * and well-border pass, the settled playfield and the falling piece, all as
 * writes into a flat tile map indexed `cx + cy * bgWidth`.
 */
module TileMap {
  import opened Wrappers
  import opened Tiles
  import opened Arith

  /** Cell `k` of map `m` exists and holds tile `t`. */
  predicate HasTile(m: seq<int>, k: int, t: int) {
    0 <= k < |m| && m[k] == t
  }

  /** Tiles of the well border. */
  const WallNS: int := 2
  const CornerNE: int := 3
  const FloorEW: int := 4
  const CornerNW: int := 5

  /** Map rows 0..18 show the well; row 19 is its floor. */
  const FloorRow: int := 19
  /** Map column of the right wall; column 0 is the left wall. */
  const RightWall: int := 11

  /** Flat index of map cell (`cx`, `cy`). */
  function Cell(bgWidth: int, cx: int, cy: int): int {
    cx + cy * bgWidth
  }

  // ---------------------------------------------------------------- text

  /** Writes `text` from map cell (`x`, `y`) on, one tile per character, the
      tile being the character code minus 32; text longer than the rest of
      the row runs on into the next row. `layerWidth` is in pixels. Empty
      text writes nothing, wherever it is placed. The text reads back from
      the map unchanged. */
  method Print(m: seq<int>, text: seq<Char16>, layerWidth: nat, x: int, y: int) returns (r: seq<int>)
    requires |text| > 0 ==> 0 <= Cell(layerWidth / 8, x, y) && Cell(layerWidth / 8, x, y) + |text| <= |m|
    ensures |r| == |m|
    ensures ReadText(r, Cell(layerWidth / 8, x, y), |text|) == text
    ensures forall i :: 0 <= i < |text| ==> r[Cell(layerWidth / 8, x, y) + i] == text[i] as int - 32
    ensures forall k :: 0 <= k < |m| && !(Cell(layerWidth / 8, x, y) <= k < Cell(layerWidth / 8, x, y) + |text|) ==>
              r[k] == m[k]
  {
    var bgWidth := layerWidth / 8;
    var mapPos := Cell(bgWidth, x, y);
    r := m;
    var i := 0;
    while i < |text|
      invariant 0 <= i <= |text|
      invariant |r| == |m|
      invariant forall j :: 0 <= j < i ==> r[mapPos + j] == text[j] as int - 32
      invariant forall k :: 0 <= k < |m| && !(mapPos <= k < mapPos + i) ==> r[k] == m[k]
    {
      r := r[i + mapPos := text[i] as int - 32];
      i := i + 1;
    }
    PrintReadsBack(m, text, layerWidth, x, y, r);
  }

  /** Reads `n` characters back from the map at `pos`, undoing the shift by 32. */
  function ReadText(m: seq<int>, pos: int, n: nat): (s: seq<int>)
    requires n > 0 ==> 0 <= pos && pos + n <= |m|
    ensures |s| == n
    ensures forall i :: 0 <= i < n ==> s[i] - 32 == m[pos + i]
  {
    seq(n, i requires 0 <= i < n => m[pos + i] + 32)
  }

  /** Printed text reads back unchanged. */
  lemma PrintReadsBack(m: seq<int>, text: seq<Char16>, layerWidth: nat, x: int, y: int, r: seq<int>)
    requires |text| > 0 ==> 0 <= Cell(layerWidth / 8, x, y) && Cell(layerWidth / 8, x, y) + |text| <= |m|
    requires |r| == |m|
    requires forall i :: 0 <= i < |text| ==> r[Cell(layerWidth / 8, x, y) + i] == text[i] as int - 32
    ensures ReadText(r, Cell(layerWidth / 8, x, y), |text|) == text
  {
    var s := ReadText(r, Cell(layerWidth / 8, x, y), |text|);
    forall i | 0 <= i < |text|
      ensures s[i] == text[i]
    {
      assert s[i] - 32 == r[Cell(layerWidth / 8, x, y) + i];
    }
  }

  // ---------------------------------------------------------------- well border

  /** The cells written by the border pass: columns 0 and 11 of rows 0..18
      and columns 0..11 of row 19. */
  ghost predicate BorderCell(bgWidth: int, cx: int, cy: int, k: int) {
    && k == Cell(bgWidth, cx, cy)
    && ((0 <= cy < FloorRow && (cx == 0 || cx == RightWall)) || (cy == FloorRow && 0 <= cx <= RightWall))
  }

  ghost predicate IsBorder(bgWidth: int, k: int) {
    exists cx, cy :: BorderCell(bgWidth, cx, cy, k)
  }

  /** The cells written by the wall pass: columns 0 and 11 of rows 0..18. */
  ghost predicate WallCell(bgWidth: int, cx: int, cy: int, k: int) {
    k == Cell(bgWidth, cx, cy) && 0 <= cy < FloorRow && (cx == 0 || cx == RightWall)
  }

  ghost predicate IsWall(bgWidth: int, k: int) {
    exists cx, cy :: WallCell(bgWidth, cx, cy, k)
  }

  lemma WallIsBorder(bgWidth: int, k: int)
    requires IsWall(bgWidth, k)
    ensures IsBorder(bgWidth, k)
  {
    var cx, cy :| WallCell(bgWidth, cx, cy, k);
    assert BorderCell(bgWidth, cx, cy, k);
  }

  /** Sets the first `n` cells to tile 0. */
  method ClearCells(m: seq<int>, n: nat) returns (r: seq<int>)
    requires n <= |m|
    ensures |r| == |m|
    ensures forall k :: 0 <= k < |m| ==> r[k] == (if k < n then 0 else m[k])
  {
    r := m;
    var i := 0;
    while i < n
      invariant 0 <= i <= n
      invariant |r| == |m|
      invariant forall k :: 0 <= k < |m| ==> r[k] == (if k < i then 0 else m[k])
    {
      r := r[i := 0];
      i := i + 1;
    }
  }

  /** Draws the two walls, columns 0 and 11 of rows 0..18, and touches no
      other cell. Every write stores the wall tile, so the walls hold it for
      any map width. */
  method DrawWalls(m: seq<int>, bgWidth: nat) returns (r: seq<int>)
    requires Cell(bgWidth, RightWall, FloorRow) < |m|
    ensures |r| == |m|
    ensures forall k :: 0 <= k < |m| && !IsWall(bgWidth, k) ==> r[k] == m[k]
    ensures forall cy :: 0 <= cy < FloorRow ==>
              HasTile(r, Cell(bgWidth, 0, cy), WallNS) && HasTile(r, Cell(bgWidth, RightWall, cy), WallNS)
  {
    r := m;
    var i := 0;
    while i < FloorRow
      invariant 0 <= i <= FloorRow
      invariant |r| == |m|
      invariant forall k :: 0 <= k < |m| && !IsWall(bgWidth, k) ==> r[k] == m[k]
      invariant forall cy :: 0 <= cy < i ==>
                  HasTile(r, Cell(bgWidth, 0, cy), WallNS) && HasTile(r, Cell(bgWidth, RightWall, cy), WallNS)
    {
      WallCellsInRange(bgWidth, i);
      assert WallCell(bgWidth, 0, i, Cell(bgWidth, 0, i));
      r := r[Cell(bgWidth, 0, i) := WallNS];
      assert WallCell(bgWidth, RightWall, i, Cell(bgWidth, RightWall, i));
      r := r[Cell(bgWidth, RightWall, i) := WallNS];
      i := i + 1;
    }
  }

  /** Draws the floor, row 19: a corner at each end and floor tiles between. */
  method DrawFloor(m: seq<int>, bgWidth: nat) returns (r: seq<int>)
    requires Cell(bgWidth, RightWall, FloorRow) < |m|
    ensures |r| == |m|
    ensures forall k :: 0 <= k < |m| && !IsFloor(bgWidth, k) ==> r[k] == m[k]
    ensures r[Cell(bgWidth, 0, FloorRow)] == CornerNE
    ensures r[Cell(bgWidth, RightWall, FloorRow)] == CornerNW
    ensures forall cx :: 1 <= cx < RightWall ==> r[Cell(bgWidth, cx, FloorRow)] == FloorEW
  {
    assert FloorCell(bgWidth, 0, Cell(bgWidth, 0, FloorRow));
    r := m[Cell(bgWidth, 0, FloorRow) := CornerNE];
    assert FloorCell(bgWidth, RightWall, Cell(bgWidth, RightWall, FloorRow));
    r := r[Cell(bgWidth, RightWall, FloorRow) := CornerNW];
    var i := 1;
    while i < RightWall
      invariant 1 <= i <= RightWall
      invariant |r| == |m|
      invariant forall k :: 0 <= k < |m| && !IsFloor(bgWidth, k) ==> r[k] == m[k]
      invariant r[Cell(bgWidth, 0, FloorRow)] == CornerNE
      invariant r[Cell(bgWidth, RightWall, FloorRow)] == CornerNW
      invariant forall cx :: 1 <= cx < i ==> r[Cell(bgWidth, cx, FloorRow)] == FloorEW
    {
      assert FloorCell(bgWidth, i, Cell(bgWidth, i, FloorRow));
      r := r[Cell(bgWidth, i, FloorRow) := FloorEW];
      i := i + 1;
    }
  }

  ghost predicate FloorCell(bgWidth: int, cx: int, k: int) {
    0 <= cx <= RightWall && k == Cell(bgWidth, cx, FloorRow)
  }

  ghost predicate IsFloor(bgWidth: int, k: int) {
    exists cx :: FloorCell(bgWidth, cx, k)
  }

  lemma FloorIsBorder(bgWidth: int, k: int)
    requires IsFloor(bgWidth, k)
    ensures IsBorder(bgWidth, k)
  {
    var cx :| FloorCell(bgWidth, cx, k);
    assert BorderCell(bgWidth, cx, FloorRow, k);
  }

  /** Clears the first `bgWidth * bgWidth` cells to tile 0, then draws the
      well: the walls in columns 0 and 11 of rows 0..18, then the floor in
      row 19 with its two corners. Every other cell keeps its tile. When
      `bgWidth` is 12 or more the border cells are pairwise distinct and each
      holds its own tile; for any width the floor is drawn last and holds its
      tiles. */
  method ClearAndBorder(m: seq<int>, bgWidth: nat) returns (r: seq<int>)
    requires bgWidth * bgWidth <= |m|
    requires Cell(bgWidth, RightWall, FloorRow) < |m|
    ensures |r| == |m|
    ensures forall k :: 0 <= k < |m| && !IsBorder(bgWidth, k) ==>
              r[k] == (if k < bgWidth * bgWidth then 0 else m[k])
    ensures r[Cell(bgWidth, 0, FloorRow)] == CornerNE
    ensures r[Cell(bgWidth, RightWall, FloorRow)] == CornerNW
    ensures forall cx :: 1 <= cx < RightWall ==> r[Cell(bgWidth, cx, FloorRow)] == FloorEW
    ensures bgWidth >= 12 ==> forall cy :: 0 <= cy < FloorRow ==>
              HasTile(r, Cell(bgWidth, 0, cy), WallNS) && HasTile(r, Cell(bgWidth, RightWall, cy), WallNS)
  {
    var cleared := ClearCells(m, bgWidth * bgWidth);
    var walls := DrawWalls(cleared, bgWidth);
    r := DrawFloor(walls, bgWidth);
    forall k | 0 <= k < |m| && IsFloor(bgWidth, k)
      ensures IsBorder(bgWidth, k)
    {
      FloorIsBorder(bgWidth, k);
    }
    forall k | 0 <= k < |m| && IsWall(bgWidth, k)
      ensures IsBorder(bgWidth, k)
    {
      WallIsBorder(bgWidth, k);
    }
    if bgWidth >= 12 {
      forall cy | 0 <= cy < FloorRow
        ensures HasTile(r, Cell(bgWidth, 0, cy), WallNS) && HasTile(r, Cell(bgWidth, RightWall, cy), WallNS)
      {
        WallsAreNotFloor(bgWidth, cy);
      }
    }
  }

  /** For a row at least 12 cells wide, no wall cell is a floor cell. */
  lemma WallsAreNotFloor(bgWidth: int, cy: int)
    requires bgWidth >= 12 && 0 <= cy < FloorRow
    ensures !IsFloor(bgWidth, Cell(bgWidth, 0, cy)) && !IsFloor(bgWidth, Cell(bgWidth, RightWall, cy))
  {
    forall cx | 0 <= cx <= RightWall
      ensures Cell(bgWidth, cx, FloorRow) != Cell(bgWidth, 0, cy)
      ensures Cell(bgWidth, cx, FloorRow) != Cell(bgWidth, RightWall, cy)
    {
      CellsDistinct(bgWidth, cx, FloorRow, 0, cy);
      CellsDistinct(bgWidth, cx, FloorRow, RightWall, cy);
    }
  }

  /** The wall cells of row `cy` lie inside a map that holds cell (11, 19). */
  lemma WallCellsInRange(bgWidth: nat, cy: int)
    requires 0 <= cy < FloorRow
    ensures 0 <= Cell(bgWidth, 0, cy) <= Cell(bgWidth, RightWall, cy) <= Cell(bgWidth, RightWall, FloorRow)
  {
    MulMonotone(0, cy, bgWidth);
    MulMonotone(cy, FloorRow, bgWidth);
  }

  /** Cells of different rows, or of different columns of one row, are
      different as long as both columns lie within the row width. */
  lemma CellsDistinct(bgWidth: int, cx: int, cy: int, dx: int, dy: int)
    requires 0 <= cx < bgWidth && 0 <= dx < bgWidth
    requires cx != dx || cy != dy
    ensures Cell(bgWidth, cx, cy) != Cell(bgWidth, dx, dy)
  {
    if cy < dy {
      MulMonotone(1, dy - cy, bgWidth);
      assert dy * bgWidth - cy * bgWidth == (dy - cy) * bgWidth;
    } else if dy < cy {
      MulMonotone(1, cy - dy, bgWidth);
      assert cy * bgWidth - dy * bgWidth == (cy - dy) * bgWidth;
    }
  }

  // ---------------------------------------------------------------- playfield

  /** The settled blocks: `cells[x + y * width]` is the block at column `x`,
      row `y` counted from the bottom; `None` is an empty cell. */
  datatype Playfield = Playfield(width: nat, height: nat, cells: seq<Option<Block>>)

  /** The playfield can be read at every column and row. */
  predicate Readable(f: Playfield) {
    f.width * f.height <= |f.cells|
  }

  function FieldIndex(f: Playfield, x: nat, y: nat): int {
    x + y * f.width
  }

  /** Playfield cell (`x`, `y`) is shown at map cell (x + 1, 18 - y): one
      column right of the left wall, rows counted down from the top. */
  function FieldTarget(bgWidth: int, x: int, y: int): int {
    Cell(bgWidth, x + 1, 18 - y)
  }

  /** The playfield cell the map cell `k` shows: the inverse of `FieldTarget`. */
  function FieldSource(bgWidth: int, k: int): (xy: (int, int))
    requires bgWidth > 0
  {
    (k % bgWidth - 1, 18 - k / bgWidth)
  }

  /** Different blocks of a playfield no wider than the map row land on
      different cells: the last column runs on into column 0 of the row
      below, which no block of that row uses. */
  lemma TargetsDistinct(bgWidth: int, x: int, y: int, x': int, y': int)
    requires 0 <= x < bgWidth && 0 <= x' < bgWidth
    requires x != x' || y != y'
    ensures FieldTarget(bgWidth, x, y) != FieldTarget(bgWidth, x', y')
  {
    CellsDistinct(bgWidth, x, 18 - y, x', 18 - y');
  }

  /** The blocks of column `x` are not drawn over the block at (`x'`, `y'`)
      of another column. */
  lemma ColumnMissesTarget(bgWidth: int, f: Playfield, x: int, x': int, y': int)
    requires 0 <= x' < bgWidth && 0 <= x < bgWidth && x != x'
    ensures !ColumnWrites(bgWidth, f, x, FieldTarget(bgWidth, x', y'))
  {
    if ColumnWrites(bgWidth, f, x, FieldTarget(bgWidth, x', y')) {
      var y :| FieldWriteAt(bgWidth, f, x, y, FieldTarget(bgWidth, x', y'));
      TargetsDistinct(bgWidth, x', y', x, y);
    }
  }

  lemma FieldTargetRoundTrip(bgWidth: int, x: int, y: int)
    requires 0 <= x && x + 1 < bgWidth
    ensures FieldSource(bgWidth, FieldTarget(bgWidth, x, y)) == (x, y)
  {
    var k := FieldTarget(bgWidth, x, y);
    assert k == (x + 1) + (18 - y) * bgWidth;
    DivModCell(bgWidth, x + 1, 18 - y);
  }

  lemma DivModCell(bgWidth: int, cx: int, cy: int)
    requires 0 <= cx < bgWidth
    ensures Cell(bgWidth, cx, cy) / bgWidth == cy && Cell(bgWidth, cx, cy) % bgWidth == cx
  {
    var k := Cell(bgWidth, cx, cy);
    assert k == Cell(bgWidth, k % bgWidth, k / bgWidth);
    if k % bgWidth != cx || k / bgWidth != cy {
      CellsDistinct(bgWidth, k % bgWidth, k / bgWidth, cx, cy);
    }
  }

  /** The block at (`x`, `y`), when there is one, is written to `k`. */
  ghost predicate FieldWriteAt(bgWidth: int, f: Playfield, x: int, y: int, k: int) {
    && 0 <= x < f.width && 0 <= y < f.height
    && FieldIndex(f, x, y) < |f.cells|
    && f.cells[FieldIndex(f, x, y)].Some?
    && k == FieldTarget(bgWidth, x, y)
  }

  ghost predicate FieldWrites(bgWidth: int, f: Playfield, k: int) {
    exists x, y :: FieldWriteAt(bgWidth, f, x, y, k)
  }

  /** Every block of the playfield lands inside the map. */
  predicate FieldFits(bgWidth: int, f: Playfield, mapSize: int)
    requires Readable(f)
  {
    forall x: nat, y: nat | x < f.width && y < f.height ::
      FieldIndex(f, x, y) < |f.cells| && (f.cells[FieldIndex(f, x, y)].Some? ==> 0 <= FieldTarget(bgWidth, x, y) < mapSize)
  }

  lemma FieldIndexInRange(f: Playfield, x: nat, y: nat)
    requires Readable(f) && x < f.width && y < f.height
    ensures FieldIndex(f, x, y) < |f.cells|
  {
    assert y * f.width <= (f.height - 1) * f.width;
  }

  /** The blocks of playfield column `x` are written to map cell `k`. */
  ghost predicate ColumnWrites(bgWidth: int, f: Playfield, x: int, k: int) {
    exists y :: FieldWriteAt(bgWidth, f, x, y, k)
  }

  /** Draws the settled blocks of playfield column `x` (the inner loop). */
  method DrawColumn(m: seq<int>, bgWidth: nat, f: Playfield, x: nat) returns (r: seq<int>)
    requires Readable(f) && x < f.width
    requires FieldFits(bgWidth, f, |m|)
    ensures |r| == |m|
    ensures forall k :: 0 <= k < |m| && !ColumnWrites(bgWidth, f, x, k) ==> r[k] == m[k]
    ensures bgWidth > 0 ==>
              forall y: nat | y < f.height && f.cells[FieldIndex(f, x, y)].Some? ::
                r[FieldTarget(bgWidth, x, y)] == BlockIndex(f.cells[FieldIndex(f, x, y)].value)
  {
    r := m;
    var y := 0;
    while y < f.height
      invariant 0 <= y <= f.height
      invariant |r| == |m|
      invariant forall k :: 0 <= k < |m| && !ColumnWrites(bgWidth, f, x, k) ==> r[k] == m[k]
      invariant bgWidth > 0 ==>
                  forall y': nat | y' < y && f.cells[FieldIndex(f, x, y')].Some? ::
                    r[FieldTarget(bgWidth, x, y')] == BlockIndex(f.cells[FieldIndex(f, x, y')].value)
    {
      FieldIndexInRange(f, x, y);
      var block := f.cells[FieldIndex(f, x, y)];
      if block.Some? {
        var target := FieldTarget(bgWidth, x, y);
        assert FieldWriteAt(bgWidth, f, x, y, target);
        r := r[target := BlockIndex(block.value)];
        if bgWidth > 0 {
          forall y': nat | y' < y
            ensures FieldTarget(bgWidth, x, y') != target
          {
            MulMonotone(1, y - y', bgWidth);
            assert (18 - y') * bgWidth - (18 - y) * bgWidth == (y - y') * bgWidth;
          }
        }
      }
      y := y + 1;
    }
  }

  /** Draws every settled block at its map cell with the tile of
      `BlockIndex`; empty playfield cells leave the map as it was. */
  method DrawPlayfield(m: seq<int>, bgWidth: nat, f: Playfield) returns (r: seq<int>)
    requires Readable(f)
    requires FieldFits(bgWidth, f, |m|)
    ensures |r| == |m|
    ensures forall k :: 0 <= k < |m| && !FieldWrites(bgWidth, f, k) ==> r[k] == m[k]
    ensures 0 < bgWidth && f.width <= bgWidth ==>
              forall x: nat, y: nat | x < f.width && y < f.height && f.cells[FieldIndex(f, x, y)].Some? ::
                r[FieldTarget(bgWidth, x, y)] == BlockIndex(f.cells[FieldIndex(f, x, y)].value)
  {
    r := m;
    var x := 0;
    while x < f.width
      invariant 0 <= x <= f.width
      invariant |r| == |m|
      invariant forall k :: 0 <= k < |m| && !FieldWrites(bgWidth, f, k) ==> r[k] == m[k]
      invariant 0 < bgWidth && f.width <= bgWidth ==>
                  forall x': nat, y': nat | x' < x && y' < f.height && f.cells[FieldIndex(f, x', y')].Some? ::
                    r[FieldTarget(bgWidth, x', y')] == BlockIndex(f.cells[FieldIndex(f, x', y')].value)
    {
      ghost var before := r;
      r := DrawColumn(r, bgWidth, f, x);
      if 0 < bgWidth && f.width <= bgWidth {
        forall x': nat, y': nat | x' < x && y' < f.height && f.cells[FieldIndex(f, x', y')].Some?
          ensures r[FieldTarget(bgWidth, x', y')] == before[FieldTarget(bgWidth, x', y')]
        {
          ColumnMissesTarget(bgWidth, f, x, x', y');
        }
      }
      x := x + 1;
    }
  }

  // ---------------------------------------------------------------- falling piece

  /** The falling piece: its letter, its position (column `x`, row `y` from
      the bottom) and its `width` x `height` box of block flags. */
  datatype Piece = Piece(pieceChar: Char16, x: int, y: int, width: nat, height: nat, blocks: seq<bool>)

  predicate PieceReadable(p: Piece) {
    p.width * p.height <= |p.blocks|
  }

  /** Map column and row of box cell (`px`, `py`) of the piece. */
  function PieceColumn(p: Piece, px: int): int {
    1 + px + p.x
  }

  function PieceRow(p: Piece, py: int): int {
    18 - (py + p.y)
  }

  /** Box cell (`px`, `py`) is drawn: it is a block and its map cell lies in
      columns 0..10 and rows 0..18. */
  predicate PieceDraws(p: Piece, px: int, py: int)
    requires PieceReadable(p)
  {
    && 0 <= px < p.width && 0 <= py < p.height
    && px + py * p.width < |p.blocks|
    && p.blocks[px + py * p.width]
    && 0 <= PieceRow(p, py) <= 18
    && 0 <= PieceColumn(p, px) <= 10
  }

  ghost predicate PieceWriteAt(bgWidth: int, p: Piece, px: int, py: int, k: int)
    requires PieceReadable(p)
  {
    PieceDraws(p, px, py) && k == Cell(bgWidth, PieceColumn(p, px), PieceRow(p, py))
  }

  ghost predicate PieceWrites(bgWidth: int, p: Piece, k: int)
    requires PieceReadable(p)
  {
    exists px, py :: PieceWriteAt(bgWidth, p, px, py, k)
  }

  /** Every drawn cell of the piece lands inside the map. */
  predicate PieceFits(bgWidth: int, p: Piece, mapSize: int)
    requires PieceReadable(p)
  {
    forall px: nat, py: nat | px < p.width && py < p.height && PieceDraws(p, px, py) ::
      0 <= Cell(bgWidth, PieceColumn(p, px), PieceRow(p, py)) < mapSize
  }

  lemma PieceIndexInRange(p: Piece, px: nat, py: nat)
    requires PieceReadable(p) && px < p.width && py < p.height
    ensures px + py * p.width < |p.blocks|
  {
    assert py * p.width <= (p.height - 1) * p.width;
  }

  /** Draws the blocks of the piece that fall in columns 0..10 and rows
      0..18, each with the CENTRE tile of the piece's group; cells outside
      that window and non-block cells of the box are skipped. */
  method DrawPiece(m: seq<int>, bgWidth: nat, p: Piece) returns (r: seq<int>)
    requires PieceReadable(p)
    requires PieceFits(bgWidth, p, |m|)
    ensures |r| == |m|
    ensures forall px, py | PieceDraws(p, px, py) ::
              r[Cell(bgWidth, PieceColumn(p, px), PieceRow(p, py))] == PieceTypeOffset(p.pieceChar) + 1
    ensures forall k :: 0 <= k < |m| ==>
              r[k] == m[k] || (PieceWrites(bgWidth, p, k) && r[k] == PieceTypeOffset(p.pieceChar) + 1)
  {
    var tile := PieceTypeOffset(p.pieceChar) + 1;
    r := m;
    var x := 0;
    while x < p.width
      invariant 0 <= x <= p.width
      invariant |r| == |m|
      invariant forall k :: 0 <= k < |m| ==> r[k] == m[k] || (PieceWrites(bgWidth, p, k) && r[k] == tile)
      invariant forall px, py | PieceDraws(p, px, py) && px < x ::
                  r[Cell(bgWidth, PieceColumn(p, px), PieceRow(p, py))] == tile
    {
      var cx := PieceColumn(p, x);
      var y := 0;
      while y < p.height
        invariant 0 <= y <= p.height
        invariant |r| == |m|
        invariant forall k :: 0 <= k < |m| ==> r[k] == m[k] || (PieceWrites(bgWidth, p, k) && r[k] == tile)
        invariant forall px, py | PieceDraws(p, px, py) && (px < x || (px == x && py < y)) ::
                    r[Cell(bgWidth, PieceColumn(p, px), PieceRow(p, py))] == tile
      {
        PieceIndexInRange(p, x, y);
        var isBlock := p.blocks[x + y * p.width];
        var cy := PieceRow(p, y);
        if cy < 0 || cy > 18 || cx < 0 || cx > 10 || !isBlock {
          y := y + 1;
          continue;
        }
        assert PieceWriteAt(bgWidth, p, x, y, Cell(bgWidth, cx, cy));
        r := r[Cell(bgWidth, cx, cy) := tile];
        y := y + 1;
      }
      x := x + 1;
    }
  }

  /** The clip lets column 0 through, so a block just left of the playfield
      is drawn over the left wall: a one-block piece at x = -1, y = 0 puts
      its tile at map cell (0, 18). */
  lemma PieceMayCoverLeftWall(m: seq<int>, bgWidth: nat, r: seq<int>)
    requires bgWidth >= 12 && Cell(bgWidth, RightWall, FloorRow) < |m|
    requires
      var p := Piece('T' as int, -1, 0, 1, 1, [true]);
      |r| == |m| &&
      forall px, py | PieceDraws(p, px, py) ::
        r[Cell(bgWidth, PieceColumn(p, px), PieceRow(p, py))] == PieceTypeOffset(p.pieceChar) + 1
    ensures r[Cell(bgWidth, 0, 18)] == 61 != WallNS
  {
    var p := Piece('T' as int, -1, 0, 1, 1, [true]);
    assert PieceDraws(p, 0, 0);
  }

  // ---------------------------------------------------------------- one frame of the map

  /** Tile of the falling piece. */
  function FallingTile(p: Piece): int {
    PieceTypeOffset(p.pieceChar) + 1
  }

  /** The playfield lies inside the well: at most 10 columns and 19 rows. */
  predicate FieldInWell(f: Playfield) {
    f.width <= 10 && f.height <= FloorRow
  }

  /** For a map at least 12 cells wide, a block of a playfield that fits the
      well is drawn neither on the floor nor on either wall. */
  lemma FieldAvoidsBorder(bgWidth: int, f: Playfield, x: int, y: int)
    requires bgWidth >= 12 && FieldInWell(f)
    requires 0 <= x < f.width && 0 <= y < f.height
    ensures !IsFloor(bgWidth, FieldTarget(bgWidth, x, y))
    ensures forall cy :: 0 <= cy < FloorRow ==>
              FieldTarget(bgWidth, x, y) != Cell(bgWidth, 0, cy) && FieldTarget(bgWidth, x, y) != Cell(bgWidth, RightWall, cy)
  {
    var k := FieldTarget(bgWidth, x, y);
    forall cx | 0 <= cx <= RightWall
      ensures k != Cell(bgWidth, cx, FloorRow)
    {
      CellsDistinct(bgWidth, x + 1, 18 - y, cx, FloorRow);
    }
    forall cy | 0 <= cy < FloorRow
      ensures k != Cell(bgWidth, 0, cy) && k != Cell(bgWidth, RightWall, cy)
    {
      CellsDistinct(bgWidth, x + 1, 18 - y, 0, cy);
      CellsDistinct(bgWidth, x + 1, 18 - y, RightWall, cy);
    }
  }

  /** For a map at least 12 cells wide, the piece is never drawn on the
      floor or the right wall (it can reach the left wall). */
  lemma PieceAvoidsFloorAndRightWall(bgWidth: int, p: Piece, px: int, py: int)
    requires bgWidth >= 12 && PieceReadable(p)
    requires PieceDraws(p, px, py)
    ensures var k := Cell(bgWidth, PieceColumn(p, px), PieceRow(p, py));
            && !IsFloor(bgWidth, k)
            && forall cy :: 0 <= cy < FloorRow ==> k != Cell(bgWidth, RightWall, cy)
  {
    var k := Cell(bgWidth, PieceColumn(p, px), PieceRow(p, py));
    forall cx | 0 <= cx <= RightWall
      ensures k != Cell(bgWidth, cx, FloorRow)
    {
      CellsDistinct(bgWidth, PieceColumn(p, px), PieceRow(p, py), cx, FloorRow);
    }
    forall cy | 0 <= cy < FloorRow
      ensures k != Cell(bgWidth, RightWall, cy)
    {
      CellsDistinct(bgWidth, PieceColumn(p, px), PieceRow(p, py), RightWall, cy);
    }
  }

  predicate PieceOk(bgWidth: int, piece: Option<Piece>, mapSize: int) {
    piece.Some? ==> PieceReadable(piece.value) && PieceFits(bgWidth, piece.value, mapSize)
  }

  ghost predicate PieceCovers(bgWidth: int, piece: Option<Piece>, k: int) {
    piece.Some? && PieceReadable(piece.value) && PieceWrites(bgWidth, piece.value, k)
  }

  /** Draws the settled blocks and then the falling piece over them. */
  method DrawFieldAndPiece(m: seq<int>, bgWidth: nat, f: Playfield, piece: Option<Piece>) returns (r: seq<int>)
    requires Readable(f) && FieldFits(bgWidth, f, |m|)
    requires PieceOk(bgWidth, piece, |m|)
    ensures |r| == |m|
    ensures forall k :: 0 <= k < |m| && !FieldWrites(bgWidth, f, k) && !PieceCovers(bgWidth, piece, k) ==> r[k] == m[k]
    ensures forall k :: 0 <= k < |m| && PieceCovers(bgWidth, piece, k) ==> r[k] == FallingTile(piece.value)
    ensures 0 < bgWidth && f.width <= bgWidth ==>
              forall x: nat, y: nat | x < f.width && y < f.height && f.cells[FieldIndex(f, x, y)].Some? ::
                r[FieldTarget(bgWidth, x, y)] == BlockIndex(f.cells[FieldIndex(f, x, y)].value)
                || (PieceCovers(bgWidth, piece, FieldTarget(bgWidth, x, y))
                    && r[FieldTarget(bgWidth, x, y)] == FallingTile(piece.value))
  {
    var drawn := DrawPlayfield(m, bgWidth, f);
    r := drawn;
    if piece.Some? {
      r := DrawPiece(drawn, bgWidth, piece.value);
      forall k | 0 <= k < |m| && PieceCovers(bgWidth, piece, k)
        ensures r[k] == FallingTile(piece.value)
      {
        var px, py :| PieceWriteAt(bgWidth, piece.value, px, py, k);
      }
    }
  }

  /** `r` has the length of `m` and differs from it only at cells that a
      block of `f` or the falling piece is drawn to. */
  ghost predicate OnlyFieldAndPieceWrites(m: seq<int>, r: seq<int>, bgWidth: nat, f: Playfield, piece: Option<Piece>) {
    && |r| == |m|
    && (forall k :: 0 <= k < |m| && !FieldWrites(bgWidth, f, k) && !PieceCovers(bgWidth, piece, k) ==> r[k] == m[k])
  }

  lemma FloorSurvives(m: seq<int>, r: seq<int>, bgWidth: nat, f: Playfield, piece: Option<Piece>, cx: int)
    requires bgWidth >= 12 && FieldInWell(f)
    requires Cell(bgWidth, RightWall, FloorRow) < |m|
    requires OnlyFieldAndPieceWrites(m, r, bgWidth, f, piece)
    requires 0 <= cx <= RightWall
    ensures r[Cell(bgWidth, cx, FloorRow)] == m[Cell(bgWidth, cx, FloorRow)]
  {
    var c := Cell(bgWidth, cx, FloorRow);
    assert FloorCell(bgWidth, cx, c);
    if FieldWrites(bgWidth, f, c) {
      var x, y :| FieldWriteAt(bgWidth, f, x, y, c);
      FieldAvoidsBorder(bgWidth, f, x, y);
    }
    if PieceCovers(bgWidth, piece, c) {
      var px, py :| PieceWriteAt(bgWidth, piece.value, px, py, c);
      PieceAvoidsFloorAndRightWall(bgWidth, piece.value, px, py);
    }
  }

  lemma WallsSurvive(m: seq<int>, r: seq<int>, bgWidth: nat, f: Playfield, piece: Option<Piece>, cy: int)
    requires bgWidth >= 12 && FieldInWell(f)
    requires Cell(bgWidth, RightWall, FloorRow) < |m|
    requires OnlyFieldAndPieceWrites(m, r, bgWidth, f, piece)
    requires 0 <= cy < FloorRow
    ensures 0 <= Cell(bgWidth, 0, cy) <= Cell(bgWidth, RightWall, cy) < |m|
    ensures r[Cell(bgWidth, RightWall, cy)] == m[Cell(bgWidth, RightWall, cy)]
    ensures !PieceCovers(bgWidth, piece, Cell(bgWidth, 0, cy)) ==> r[Cell(bgWidth, 0, cy)] == m[Cell(bgWidth, 0, cy)]
  {
    WallCellsInRange(bgWidth, cy);
    var left, right := Cell(bgWidth, 0, cy), Cell(bgWidth, RightWall, cy);
    if FieldWrites(bgWidth, f, left) {
      var x, y :| FieldWriteAt(bgWidth, f, x, y, left);
      FieldAvoidsBorder(bgWidth, f, x, y);
    }
    if FieldWrites(bgWidth, f, right) {
      var x, y :| FieldWriteAt(bgWidth, f, x, y, right);
      FieldAvoidsBorder(bgWidth, f, x, y);
    }
    if PieceCovers(bgWidth, piece, right) {
      var px, py :| PieceWriteAt(bgWidth, piece.value, px, py, right);
      PieceAvoidsFloorAndRightWall(bgWidth, piece.value, px, py);
    }
  }

  /** The map-writing part of a play-screen frame, for a layer `bgWidth`
      tiles wide: clear and border, then the settled blocks, then the falling
      piece (when there is one), which shows its tile at every cell it
      covers. For a map at least 12 cells wide and a playfield that fits the
      well, the floor and the right wall survive, the left wall survives
      except where the piece covers it, and every settled block shows its
      tile unless the piece covers it. Every other cell is 0 inside the
      cleared square and unchanged outside it. */
  method ComposeTileMap(m: seq<int>, bgWidth: nat, f: Playfield, piece: Option<Piece>) returns (r: seq<int>)
    requires bgWidth * bgWidth <= |m|
    requires Cell(bgWidth, RightWall, FloorRow) < |m|
    requires Readable(f) && FieldFits(bgWidth, f, |m|)
    requires PieceOk(bgWidth, piece, |m|)
    ensures |r| == |m|
    ensures forall k :: 0 <= k < |m| && !IsBorder(bgWidth, k) && !FieldWrites(bgWidth, f, k)
                        && !PieceCovers(bgWidth, piece, k) ==>
              r[k] == (if k < bgWidth * bgWidth then 0 else m[k])
    ensures forall k :: 0 <= k < |m| && PieceCovers(bgWidth, piece, k) ==> r[k] == FallingTile(piece.value)
    ensures bgWidth >= 12 && FieldInWell(f) ==>
              && r[Cell(bgWidth, 0, FloorRow)] == CornerNE
              && r[Cell(bgWidth, RightWall, FloorRow)] == CornerNW
              && (forall cx :: 1 <= cx < RightWall ==> r[Cell(bgWidth, cx, FloorRow)] == FloorEW)
              && (forall cy :: 0 <= cy < FloorRow ==> HasTile(r, Cell(bgWidth, RightWall, cy), WallNS))
    ensures bgWidth >= 12 && FieldInWell(f) ==>
              forall cy :: 0 <= cy < FloorRow ==>
                HasTile(r, Cell(bgWidth, 0, cy), WallNS)
                || (PieceCovers(bgWidth, piece, Cell(bgWidth, 0, cy)) && HasTile(r, Cell(bgWidth, 0, cy), FallingTile(piece.value)))
    ensures bgWidth >= 12 && FieldInWell(f) ==>
              forall x: nat, y: nat | x < f.width && y < f.height && f.cells[FieldIndex(f, x, y)].Some? ::
                r[FieldTarget(bgWidth, x, y)] == BlockIndex(f.cells[FieldIndex(f, x, y)].value)
                || (PieceCovers(bgWidth, piece, FieldTarget(bgWidth, x, y))
                    && r[FieldTarget(bgWidth, x, y)] == FallingTile(piece.value))
  {
    var framed := ClearAndBorder(m, bgWidth);
    r := DrawFieldAndPiece(framed, bgWidth, f, piece);
    if bgWidth >= 12 && FieldInWell(f) {
      forall cx | 0 <= cx <= RightWall
        ensures r[Cell(bgWidth, cx, FloorRow)] == framed[Cell(bgWidth, cx, FloorRow)]
      {
        FloorSurvives(framed, r, bgWidth, f, piece, cx);
      }
      forall cy | 0 <= cy < FloorRow
        ensures 0 <= Cell(bgWidth, 0, cy) <= Cell(bgWidth, RightWall, cy) < |m|
        ensures r[Cell(bgWidth, RightWall, cy)] == framed[Cell(bgWidth, RightWall, cy)]
        ensures !PieceCovers(bgWidth, piece, Cell(bgWidth, 0, cy)) ==> r[Cell(bgWidth, 0, cy)] == framed[Cell(bgWidth, 0, cy)]
      {
        WallsSurvive(framed, r, bgWidth, f, piece, cy);
      }
    }
  }
}
