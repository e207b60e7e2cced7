/** Conway's Game of Life on a toroidal grid stored eight cells to a byte.

    A grid of `width` × `height` cells keeps `width / 8` bytes per row, rows
    one after another; within a byte the most significant bit is the leftmost
    cell. Grids are immutable: `SetLiveCell` and `Step` return new grids.

    The abstract view of a grid is `Live(g)`, the set of its live cells; the
    abstract next generation is `NextGeneration`, which counts neighbours at
    `((x ± 1) mod width, (y ± 1) mod height)`. The main theorem is that the
    byte-and-mask computation of `Step` equals that abstract rule. */
module LifeGrid {
  import opened Common

  /** A pair of coordinates naming one cell of a grid. */
  datatype LifeCell = LifeCell(x: int, y: int)

  /** One generation of the automaton. */
  datatype Grid = Grid(width: int, height: int, state: seq<bv8>)
  {
    /** Bytes that hold one row of cells. */
    function BytesPerRow(): int
    {
      width / 8
    }

    /** What the constructor establishes and every derived grid keeps. */
    predicate Valid()
    {
      width > 0 && height > 0 && width % 8 == 0 && |state| == (width / 8) * height
    }
  }

  // ---------------------------------------------------------------------
  // Bits and masks
  // ---------------------------------------------------------------------

  /** The mask of cell `i` of a byte, counted from the most significant bit. */
  function Mask(i: nat): bv8
    requires i < 8
  {
    0x80 >> i
  }

  /** Whether cell `i` of a byte is live. */
  predicate Bit(block: bv8, i: nat)
    requires i < 8
  {
    block & Mask(i) != 0
  }

  /** The eight single-bit masks, in order. */
  lemma MaskValues(i: nat)
    requires i < 8
    ensures Mask(i) == [0x80, 0x40, 0x20, 0x10, 0x08, 0x04, 0x02, 0x01][i]
  {
  }

  /** The byte with cell `i` made live: `block | (0x80 >> i)`. */
  function WithBit(block: bv8, i: nat): bv8
    requires i < 8
  {
    block | Mask(i)
  }

  /** OR-ing in a cell's mask makes that cell live and leaves the other seven as they were. */
  lemma BitOfWithBit(block: bv8, i: nat, j: nat)
    requires i < 8 && j < 8
    ensures Bit(WithBit(block, i), j) <==> Bit(block, j) || i == j
  {
    MaskValues(i);
    MaskValues(j);
  }

  lemma WithBitIdempotent(block: bv8, i: nat)
    requires i < 8
    ensures WithBit(WithBit(block, i), i) == WithBit(block, i)
  {
  }

  lemma WithBitCommutes(block: bv8, i: nat, j: nat)
    requires i < 8 && j < 8
    ensures WithBit(WithBit(block, i), j) == WithBit(WithBit(block, j), i)
  {
  }

  /** No cell of the zero byte is live. */
  lemma NoBitOfZero(j: nat)
    requires j < 8
    ensures !Bit(0, j)
  {
  }

  // ---------------------------------------------------------------------
  // Addressing
  // ---------------------------------------------------------------------

  /** Row `row`, byte column `column` of a row-major layout with `n` bytes per
      row sits at `row * n + column`, and that index determines both again. */
  lemma RowMajor(row: int, column: int, n: int, rows: int)
    requires 0 <= row < rows && 0 <= column < n
    ensures 0 <= row * n + column < rows * n
    ensures (row * n + column) / n == row && (row * n + column) % n == column
  {
    MulBounds(rows - row, n);
    assert rows * n - row * n == (rows - row) * n;
    DivModUnique(row * n + column, n, row, column);
  }

  /** Whether `(x, y)` lies on the grid. */
  predicate InBounds(g: Grid, x: int, y: int)
  {
    0 <= x < g.width && 0 <= y < g.height
  }

  /** The byte that holds cell `(x, y)`: `y * bytesPerRow + x / 8`. */
  function BlockIndex(g: Grid, x: int, y: int): (b: nat)
    requires g.Valid() && InBounds(g, x, y)
    ensures b < |g.state|
    ensures b / g.BytesPerRow() == y && b % g.BytesPerRow() == x / 8
  {
    RowMajor(y, x / 8, g.BytesPerRow(), g.height);
    y * g.BytesPerRow() + x / 8
  }

  /** Whether cell `(x, y)` is live: the bit `x % 8` from the top of its byte. */
  predicate Alive(g: Grid, x: int, y: int)
    requires g.Valid() && InBounds(g, x, y)
  {
    Bit(g.state[BlockIndex(g, x, y)], x % 8)
  }

  /** The abstract state of a grid: its set of live cells. */
  function Live(g: Grid): set<LifeCell>
    requires g.Valid()
  {
    set x, y | 0 <= x < g.width && 0 <= y < g.height && Alive(g, x, y) :: LifeCell(x, y)
  }

  lemma LiveMember(g: Grid, x: int, y: int)
    requires g.Valid()
    ensures LifeCell(x, y) in Live(g) <==> InBounds(g, x, y) && Alive(g, x, y)
  {
  }

  /** Cell `j` of byte column `column` in row `row` is live exactly when its bit is set. */
  lemma CellOfBlock(g: Grid, row: int, column: int, j: nat)
    requires g.Valid() && 0 <= row < g.height && 0 <= column < g.BytesPerRow() && j < 8
    ensures 0 <= row * g.BytesPerRow() + column < |g.state|
    ensures LifeCell(column * 8 + j, row) in Live(g) <==> Bit(g.state[row * g.BytesPerRow() + column], j)
  {
    RowMajor(row, column, g.BytesPerRow(), g.height);
    LiveMember(g, column * 8 + j, row);
  }

  // ---------------------------------------------------------------------
  // The abstract rule
  // ---------------------------------------------------------------------

  /** 1 if the cell is in the set, else 0. */
  function Count(live: set<LifeCell>, c: LifeCell): nat
  {
    if c in live then 1 else 0
  }

  /** Live neighbours of `(x, y)` on a `w` × `h` torus: the eight positions
      `((x + dx) mod w, (y + dy) mod h)` with `dx, dy` in {-1, 0, 1}, not both
      zero. On a torus one or two cells wide or high several positions are the
      same cell; each position is counted. */
  function Neighbours(live: set<LifeCell>, w: int, h: int, x: int, y: int): nat
    requires w > 0 && h > 0
  {
    Count(live, LifeCell((x - 1) % w, (y - 1) % h)) + Count(live, LifeCell(x % w, (y - 1) % h)) + Count(live, LifeCell((x + 1) % w, (y - 1) % h))
    + Count(live, LifeCell((x - 1) % w, y % h)) + Count(live, LifeCell((x + 1) % w, y % h))
    + Count(live, LifeCell((x - 1) % w, (y + 1) % h)) + Count(live, LifeCell(x % w, (y + 1) % h)) + Count(live, LifeCell((x + 1) % w, (y + 1) % h))
  }

  /** The rule of Life: born with 3 neighbours, survives with 2 or 3. */
  predicate Survives(alive: bool, neighbours: nat)
  {
    neighbours == 3 || (alive && neighbours == 2)
  }

  /** The next generation of a set of live cells, by the rule. */
  function NextGeneration(live: set<LifeCell>, w: int, h: int): set<LifeCell>
    requires w > 0 && h > 0
  {
    set x, y | 0 <= x < w && 0 <= y < h && Survives(LifeCell(x, y) in live, Neighbours(live, w, h, x, y)) :: LifeCell(x, y)
  }

  // ---------------------------------------------------------------------
  // Construction and SetLiveCell
  // ---------------------------------------------------------------------

  /** `new LifeGrid(width, height)`: an all-dead grid, or the exception the
      constructor throws for a bad size. A width that is not a multiple of 8
      gives `new ArgumentException("width")`, whose one string is the message,
      so the exception carries no parameter name. */
  function NewGrid(width: int, height: int): (r: Result<Grid>)
    ensures r.Ok? <==> width > 0 && height > 0 && width % 8 == 0
    ensures width <= 0 ==> r == Err(ArgumentOutOfRange("width"))
    ensures width > 0 && height <= 0 ==> r == Err(ArgumentOutOfRange("height"))
    ensures width > 0 && height > 0 && width % 8 != 0 ==> r == Err(Argument(""))
    ensures r.Ok? ==> r.value.Valid() && r.value.width == width && r.value.height == height
    ensures r.Ok? ==> |r.value.state| == (width / 8) * height && Live(r.value) == {}
  {
    if width <= 0 then Err(ArgumentOutOfRange("width"))
    else if height <= 0 then Err(ArgumentOutOfRange("height"))
    else if width % 8 != 0 then Err(Argument(""))
    else
      var g := Grid(width, height, seq((width / 8) * height, _ => 0));
      assert forall x, y | InBounds(g, x, y) :: !Alive(g, x, y) by {
        forall x, y | InBounds(g, x, y) ensures !Alive(g, x, y) {
          NoBitOfZero(x % 8);
        }
      }
      Ok(g)
  }

  /** The copy `SetLiveCell` makes: the state with `0x80 >> (x % 8)` OR-ed into
      byte `y * bytesPerRow + x / 8`. */
  function WithLiveBit(g: Grid, x: int, y: int): (r: Grid)
    requires g.Valid() && InBounds(g, x, y)
    ensures r.Valid() && r.width == g.width && r.height == g.height
  {
    var b := BlockIndex(g, x, y);
    Grid(g.width, g.height, g.state[b := WithBit(g.state[b], x % 8)])
  }

  /** `SetLiveCell(x, y)`: a copy of the grid with `(x, y)` made live. */
  function SetLiveCell(g: Grid, x: int, y: int): (r: Result<Grid>)
    requires g.Valid()
    ensures r.Ok? <==> InBounds(g, x, y)
    ensures !(0 <= x < g.width) ==> r == Err(ArgumentOutOfRange("x"))
    ensures 0 <= x < g.width && !(0 <= y < g.height) ==> r == Err(ArgumentOutOfRange("y"))
    ensures r.Ok? ==> r.value.Valid() && r.value.width == g.width && r.value.height == g.height
    ensures r.Ok? ==> Live(r.value) == Live(g) + {LifeCell(x, y)}
  {
    if x < 0 || x >= g.width then Err(ArgumentOutOfRange("x"))
    else if y < 0 || y >= g.height then Err(ArgumentOutOfRange("y"))
    else
      SetLiveCellLive(g, x, y);
      Ok(WithLiveBit(g, x, y))
  }

  lemma SetLiveCellLive(g: Grid, x: int, y: int)
    requires g.Valid() && InBounds(g, x, y)
    ensures Live(WithLiveBit(g, x, y)) == Live(g) + {LifeCell(x, y)}
  {
    var r := WithLiveBit(g, x, y);
    forall c | true
      ensures c in Live(r) <==> c in Live(g) || c == LifeCell(x, y)
    {
      LiveMember(g, c.x, c.y);
      LiveMember(r, c.x, c.y);
      if InBounds(g, c.x, c.y) {
        SetLiveCellCell(g, x, y, c.x, c.y);
      }
    }
  }

  /** One cell of the grid `SetLiveCell` builds: live if it was, or if it is `(x, y)`. */
  lemma SetLiveCellCell(g: Grid, x: int, y: int, cx: int, cy: int)
    requires g.Valid() && InBounds(g, x, y) && InBounds(g, cx, cy)
    ensures Alive(WithLiveBit(g, x, y), cx, cy) <==> Alive(g, cx, cy) || (cx == x && cy == y)
  {
    var r := WithLiveBit(g, x, y);
    var b, b' := BlockIndex(g, x, y), BlockIndex(g, cx, cy);
    assert BlockIndex(r, cx, cy) == b';
    if b' == b {
      BitOfWithBit(g.state[b], x % 8, cx % 8);
      assert cy == y && cx / 8 == x / 8;
    } else {
      assert r.state[b'] == g.state[b'];
    }
  }

  lemma SetLiveCellInBounds(g: Grid, x: int, y: int)
    requires g.Valid() && InBounds(g, x, y)
    ensures SetLiveCell(g, x, y) == Ok(WithLiveBit(g, x, y))
  {
  }

  /** Setting a live cell twice is the same as setting it once. */
  lemma SetLiveCellIdempotent(g: Grid, x: int, y: int)
    requires g.Valid() && InBounds(g, x, y)
    ensures SetLiveCell(SetLiveCell(g, x, y).value, x, y) == SetLiveCell(g, x, y)
  {
    var r := WithLiveBit(g, x, y);
    SetLiveCellInBounds(g, x, y);
    SetLiveCellInBounds(r, x, y);
    WithLiveBitIdempotent(g, x, y);
  }

  lemma WithLiveBitIdempotent(g: Grid, x: int, y: int)
    requires g.Valid() && InBounds(g, x, y)
    ensures WithLiveBit(WithLiveBit(g, x, y), x, y) == WithLiveBit(g, x, y)
  {
    var r := WithLiveBit(g, x, y);
    var b := BlockIndex(g, x, y);
    assert BlockIndex(r, x, y) == b;
    WithBitIdempotent(g.state[b], x % 8);
    assert r.state[b := WithBit(r.state[b], x % 8)] == r.state;
  }

  /** Setting two live cells gives the same grid in either order. */
  lemma SetLiveCellCommutes(g: Grid, x1: int, y1: int, x2: int, y2: int)
    requires g.Valid() && InBounds(g, x1, y1) && InBounds(g, x2, y2)
    ensures SetLiveCell(SetLiveCell(g, x1, y1).value, x2, y2) == SetLiveCell(SetLiveCell(g, x2, y2).value, x1, y1)
  {
    var r1, r2 := WithLiveBit(g, x1, y1), WithLiveBit(g, x2, y2);
    SetLiveCellInBounds(g, x1, y1);
    SetLiveCellInBounds(g, x2, y2);
    SetLiveCellInBounds(r1, x2, y2);
    SetLiveCellInBounds(r2, x1, y1);
    WithLiveBitCommutes(g, x1, y1, x2, y2);
  }

  lemma WithLiveBitCommutes(g: Grid, x1: int, y1: int, x2: int, y2: int)
    requires g.Valid() && InBounds(g, x1, y1) && InBounds(g, x2, y2)
    ensures WithLiveBit(WithLiveBit(g, x1, y1), x2, y2) == WithLiveBit(WithLiveBit(g, x2, y2), x1, y1)
  {
    var r1, r2 := WithLiveBit(g, x1, y1), WithLiveBit(g, x2, y2);
    var b1, b2 := BlockIndex(g, x1, y1), BlockIndex(g, x2, y2);
    assert BlockIndex(r1, x2, y2) == b2;
    assert BlockIndex(r2, x1, y1) == b1;
    if b1 == b2 {
      WithBitCommutes(g.state[b1], x1 % 8, x2 % 8);
    }
    assert WithLiveBit(r1, x2, y2).state == WithLiveBit(r2, x1, y1).state;
  }

  // ---------------------------------------------------------------------
  // GetLiveCells
  // ---------------------------------------------------------------------

  /** Row-major order: by row, then left to right. */
  predicate RowMajorBefore(a: LifeCell, b: LifeCell)
  {
    a.y < b.y || (a.y == b.y && a.x < b.x)
  }

  /** Every cell comes strictly before every later one (so none repeats). */
  predicate StrictlyRowMajor(cells: seq<LifeCell>)
  {
    forall i, j :: 0 <= i < j < |cells| ==> RowMajorBefore(cells[i], cells[j])
  }

  /** The live cells of one byte, from cell `i` on: `(baseX + i, y)` for each set bit. */
  function BlockCells(block: bv8, baseX: int, y: int, i: nat): (cells: seq<LifeCell>)
    requires i <= 8
    ensures forall c :: c in cells <==> c.y == y && baseX + i <= c.x < baseX + 8 && Bit(block, c.x - baseX)
    ensures StrictlyRowMajor(cells)
    ensures forall k :: 0 <= k < |cells| ==> cells[k].y == y && baseX + i <= cells[k].x < baseX + 8
    decreases 8 - i
  {
    if i == 8 then []
    else
      var rest := BlockCells(block, baseX, y, i + 1);
      if Bit(block, i) then [LifeCell(baseX + i, y)] + rest else rest
  }

  /** The byte a cell lives in. */
  function CellBlock(g: Grid, c: LifeCell): int
    requires g.Valid()
  {
    c.y * g.BytesPerRow() + c.x / 8
  }

  /** Of two cells on the grid, the one in the earlier byte comes first in row-major order. */
  lemma EarlierBlockFirst(g: Grid, a: LifeCell, c: LifeCell)
    requires g.Valid() && InBounds(g, a.x, a.y) && InBounds(g, c.x, c.y)
    requires CellBlock(g, a) < CellBlock(g, c)
    ensures RowMajorBefore(a, c)
  {
    var n := g.BytesPerRow();
    MulBounds(a.y - c.y, n);
    assert a.y * n - c.y * n == (a.y - c.y) * n;
  }

  /** The set bits of byte `b` as cells: column `b % n` of row `b / n`, `n` bytes to a row. */
  function StoredCells(g: Grid, b: nat): seq<LifeCell>
    requires g.Valid() && b < |g.state|
  {
    BlockCells(g.state[b], (b % g.BytesPerRow()) * 8, b / g.BytesPerRow(), 0)
  }

  /** What the scan emits for byte `b`: nothing for a zero byte, else the cells
      of its set bits. These are exactly the live cells stored in byte `b`,
      all on the grid, in row-major order. */
  function ScanBlock(g: Grid, b: nat): (cells: seq<LifeCell>)
    requires g.Valid() && b < |g.state|
    ensures forall c :: c in cells <==> c in Live(g) && CellBlock(g, c) == b
    ensures forall k :: 0 <= k < |cells| ==> InBounds(g, cells[k].x, cells[k].y)
    ensures StrictlyRowMajor(cells)
  {
    if g.state[b] == 0 then
      ZeroBlockEmpty(g, b);
      []
    else
      StoredCellsExact(g, b);
      StoredCells(g, b)
  }

  /** The scan of `GetLiveCells` from byte `b` on. */
  function ScanFrom(g: Grid, b: nat): (cells: seq<LifeCell>)
    requires g.Valid() && b <= |g.state|
    ensures forall c :: c in cells <==> c in Live(g) && CellBlock(g, c) >= b
    ensures forall k :: 0 <= k < |cells| ==> InBounds(g, cells[k].x, cells[k].y) && CellBlock(g, cells[k]) >= b
    ensures StrictlyRowMajor(cells)
    decreases |g.state| - b
  {
    if b == |g.state| then
      assert forall c | c in Live(g) :: CellBlock(g, c) < b by {
        forall c | c in Live(g) ensures CellBlock(g, c) < b {
          LiveMember(g, c.x, c.y);
          assert CellBlock(g, c) == BlockIndex(g, c.x, c.y);
        }
      }
      []
    else
      var here, rest := ScanBlock(g, b), ScanFrom(g, b + 1);
      ScanStep(g, b, here, rest);
      here + rest
  }

  /** The cells of byte `b`'s set bits are the live cells stored in byte `b`, all on the grid. */
  lemma StoredCellsExact(g: Grid, b: nat)
    requires g.Valid() && b < |g.state|
    ensures forall c :: c in StoredCells(g, b) <==> c in Live(g) && CellBlock(g, c) == b
    ensures forall k :: 0 <= k < |StoredCells(g, b)| ==> InBounds(g, StoredCells(g, b)[k].x, StoredCells(g, b)[k].y)
  {
    forall c | true
      ensures c in StoredCells(g, b) <==> c in Live(g) && CellBlock(g, c) == b
    {
      StoredCellsMember(g, b, c);
    }
    forall k | 0 <= k < |StoredCells(g, b)|
      ensures InBounds(g, StoredCells(g, b)[k].x, StoredCells(g, b)[k].y)
    {
      var c := StoredCells(g, b)[k];
      StoredCellsMember(g, b, c);
      LiveMember(g, c.x, c.y);
    }
  }

  /** A zero byte stores no live cell, so skipping it loses nothing. */
  lemma ZeroBlockEmpty(g: Grid, b: nat)
    requires g.Valid() && b < |g.state| && g.state[b] == 0
    ensures forall c :: c in Live(g) ==> CellBlock(g, c) != b
  {
    forall c | c in Live(g)
      ensures CellBlock(g, c) != b
    {
      StoredCellsMember(g, b, c);
    }
  }

  lemma StoredCellsMember(g: Grid, b: nat, c: LifeCell)
    requires g.Valid() && b < |g.state|
    ensures c in StoredCells(g, b) <==> c in Live(g) && CellBlock(g, c) == b
  {
    var n := g.BytesPerRow();
    BlockPosition(g, b);
    if c in Live(g) && CellBlock(g, c) == b {
      ScanBlockComplete(g, b, c);
    }
    if c in StoredCells(g, b) {
      ScanBlockSound(g, b, c);
    }
  }

  lemma ScanBlockSound(g: Grid, b: nat, c: LifeCell)
    requires g.Valid() && b < |g.state| && c in StoredCells(g, b)
    ensures c in Live(g) && CellBlock(g, c) == b
  {
    var n := g.BytesPerRow();
    BlockPosition(g, b);
    var row, column := b / n, b % n;
    assert c.y == row && column * 8 <= c.x < column * 8 + 8;
    var j := c.x - column * 8;
    assert Bit(g.state[b], j);
    assert c.x / 8 == column && c == LifeCell(column * 8 + j, row);
    CellOfBlock(g, row, column, j);
  }

  /** Byte `b` is byte column `b % n` of row `b / n`, a row of the grid. */
  lemma BlockPosition(g: Grid, b: nat)
    requires g.Valid() && b < |g.state|
    ensures 0 <= b / g.BytesPerRow() < g.height
    ensures b == (b / g.BytesPerRow()) * g.BytesPerRow() + b % g.BytesPerRow()
  {
    var n := g.BytesPerRow();
    var row := b / n;
    MulBounds(row - g.height + 1, n);
    assert (row - g.height + 1) * n == row * n - g.height * n + n;
  }

  lemma ScanBlockComplete(g: Grid, b: nat, c: LifeCell)
    requires g.Valid() && b < |g.state|
    requires c in Live(g) && CellBlock(g, c) == b
    ensures c in StoredCells(g, b)
  {
    var n := g.BytesPerRow();
    LiveMember(g, c.x, c.y);
    RowMajor(c.y, c.x / 8, n, g.height);
    assert b / n == c.y && b % n == c.x / 8;
  }

  lemma ScanStep(g: Grid, b: nat, here: seq<LifeCell>, rest: seq<LifeCell>)
    requires g.Valid() && b < |g.state|
    requires forall c :: c in here <==> c in Live(g) && CellBlock(g, c) == b
    requires forall k :: 0 <= k < |here| ==> InBounds(g, here[k].x, here[k].y)
    requires StrictlyRowMajor(here)
    requires forall c :: c in rest <==> c in Live(g) && CellBlock(g, c) >= b + 1
    requires forall k :: 0 <= k < |rest| ==> InBounds(g, rest[k].x, rest[k].y) && CellBlock(g, rest[k]) >= b + 1
    requires StrictlyRowMajor(rest)
    ensures forall c :: c in here + rest <==> c in Live(g) && CellBlock(g, c) >= b
    ensures forall k :: 0 <= k < |here + rest| ==> InBounds(g, (here + rest)[k].x, (here + rest)[k].y) && CellBlock(g, (here + rest)[k]) >= b
    ensures StrictlyRowMajor(here + rest)
  {
    var s := here + rest;
    forall k | 0 <= k < |here|
      ensures CellBlock(g, here[k]) == b
    {
      assert here[k] in here;
    }
    forall i, j | 0 <= i < j < |s|
      ensures RowMajorBefore(s[i], s[j])
    {
      if j >= |here| && i < |here| {
        EarlierBlockFirst(g, s[i], s[j]);
      } else if j >= |here| {
        assert s[i] == rest[i - |here|] && s[j] == rest[j - |here|];
      }
    }
  }

  /** `GetLiveCells()`: every live cell exactly once, in row-major order. */
  function GetLiveCells(g: Grid): (cells: seq<LifeCell>)
    requires g.Valid()
    ensures forall c :: c in cells <==> c in Live(g)
    ensures forall k :: 0 <= k < |cells| ==> InBounds(g, cells[k].x, cells[k].y)
    ensures StrictlyRowMajor(cells)
    ensures forall i, j :: 0 <= i < j < |cells| ==> cells[i] != cells[j]
  {
    var cells := ScanFrom(g, 0);
    assert forall c | c in Live(g) :: CellBlock(g, c) >= 0 by {
      forall c | c in Live(g) ensures CellBlock(g, c) >= 0 {
        LiveMember(g, c.x, c.y);
        assert CellBlock(g, c) == BlockIndex(g, c.x, c.y);
      }
    }
    cells
  }

  // ---------------------------------------------------------------------
  // Step: the neighbourhood of a byte
  // ---------------------------------------------------------------------

  /** The cell to the left of cell `i`: `(byte)((c << 1) | (c >> 7))` for the
      centre mask `c`. C# shifts in `int` and the cast keeps the low eight
      bits; shifting in `bv8` drops the same bits, so the value is the same. */
  function LeftMask(i: nat): bv8
    requires i < 8
  {
    var c := Mask(i);
    (c << 1) | (c >> 7)
  }

  /** The cell to the right of cell `i`: `(byte)((c >> 1) | (c << 7))`. */
  function RightMask(i: nat): bv8
    requires i < 8
  {
    var c := Mask(i);
    (c >> 1) | (c << 7)
  }

  /** The left mask is a rotation: cell 0's left neighbour is cell 7 (of the byte to the left). */
  lemma LeftMaskRotates(i: nat)
    requires i < 8
    ensures LeftMask(i) == Mask((i + 7) % 8)
  {
  }

  /** The right mask is a rotation: cell 7's right neighbour is cell 0 (of the byte to the right). */
  lemma RightMaskRotates(i: nat)
    requires i < 8
    ensures RightMask(i) == Mask((i + 1) % 8)
  {
  }

  /** `leftBlockOffset`: the byte column to the left, wrapping from the first to the last. */
  function LeftBlockOffset(bytesPerRow: int, column: int): int
  {
    if column == 0 then -1 + bytesPerRow else -1
  }

  /** `rightBlockOffset`: the byte column to the right, wrapping from the last to the first. */
  function RightBlockOffset(bytesPerRow: int, column: int): int
  {
    if column == bytesPerRow - 1 then 1 - bytesPerRow else 1
  }

  /** `cellLeftBlockOffset`: only cell 0 looks into the byte to the left. */
  function CellLeftOffset(bytesPerRow: int, column: int, i: nat): int
  {
    if i == 0 then LeftBlockOffset(bytesPerRow, column) else 0
  }

  /** `cellRightBlockOffset`: only cell 7 looks into the byte to the right. */
  function CellRightOffset(bytesPerRow: int, column: int, i: nat): int
  {
    if i == 7 then RightBlockOffset(bytesPerRow, column) else 0
  }

  /** 1 when `(block & mask) != 0`, the test before each `aliveNeighbors++`. */
  function Hit(block: bv8, mask: bv8): nat
  {
    if block & mask != 0 then 1 else 0
  }

  /** The row above, as `Step` computes it: `(y + height - 1) % height`. */
  function RowAbove(g: Grid, y: int): (row: int)
    requires g.Valid() && 0 <= y < g.height
    ensures 0 <= row < g.height
  {
    (y + g.height - 1) % g.height
  }

  /** The row below: `(y + 1) % height`. */
  function RowBelow(g: Grid, y: int): (row: int)
    requires g.Valid() && 0 <= y < g.height
    ensures 0 <= row < g.height
  {
    (y + 1) % g.height
  }

  /** The first byte of row `row`, `row * bytesPerRow`; the whole row lies in the state. */
  function RowStart(g: Grid, row: int): (start: int)
    requires g.Valid() && 0 <= row < g.height
    ensures 0 <= start && start + g.BytesPerRow() <= |g.state|
  {
    RowMajor(row, g.BytesPerRow() - 1, g.BytesPerRow(), g.height);
    row * g.BytesPerRow()
  }

  /** On a grid one byte wide both block offsets are 0: the byte to the left
      and the byte to the right are the cell's own byte. Any wider grid moves
      to a different byte on both sides. */
  lemma NarrowGridOffsets(g: Grid, column: int)
    requires g.Valid() && 0 <= column < g.BytesPerRow()
    ensures LeftBlockOffset(g.BytesPerRow(), column) == 0 <==> g.width == 8
    ensures RightBlockOffset(g.BytesPerRow(), column) == 0 <==> g.width == 8
  {
  }

  /** On a grid one or two rows high the rows above and below are the same
      row, as they are on the abstract torus; on a higher grid they differ. */
  lemma ShortGridRows(g: Grid, y: int)
    requires g.Valid() && 0 <= y < g.height
    ensures RowAbove(g, y) == RowBelow(g, y) <==> g.height <= 2
    ensures (y - 1) % g.height == (y + 1) % g.height <==> g.height <= 2
  {
    var h := g.height;
    RowsAround(g, y);
    if y == 0 {
      DivModUnique(-1, h, -1, h - 1);
    } else {
      DivModUnique(y - 1, h, 0, y - 1);
    }
    if y + 1 < h {
      DivModUnique(y + 1, h, 0, y + 1);
    } else {
      DivModUnique(y + 1, h, 1, 0);
    }
  }

  /** The row that starts at `start` lies in the state. */
  predicate IsRow(g: Grid, start: int)
  {
    0 <= start && start + g.BytesPerRow() <= |g.state|
  }

  /** The neighbours `Step` counts in the row starting at `start` for cell `i`
      of byte column `column`: the left probe, the centre probe when
      `withCentre` (not in the cell's own row), and the right probe. */
  function RowHits(g: Grid, start: int, column: int, i: nat, withCentre: bool): (n: nat)
    requires g.Valid() && IsRow(g, start) && 0 <= column < g.BytesPerRow() && i < 8
    ensures n <= 3
  {
    var bpr := g.BytesPerRow();
    var k := start + column;
    var lo, ro := CellLeftOffset(bpr, column, i), CellRightOffset(bpr, column, i);
    Hit(g.state[k + lo], LeftMask(i))
    + (if withCentre then Hit(g.state[k], Mask(i)) else 0)
    + Hit(g.state[k + ro], RightMask(i))
  }

  /** `aliveNeighbors` for cell `i` of byte `b`: three probes in the row above,
      two beside the cell, three in the row below. */
  function NeighbourCount(g: Grid, b: nat, i: nat): (n: nat)
    requires g.Valid() && b < |g.state| && i < 8
    ensures n <= 8
  {
    var bpr := g.BytesPerRow();
    BlockPosition(g, b);
    var y, column := b / bpr, b % bpr;
    RowHits(g, RowStart(g, RowAbove(g, y)), column, i, true)
    + RowHits(g, RowStart(g, y), column, i, false)
    + RowHits(g, RowStart(g, RowBelow(g, y)), column, i, true)
  }

  /** The sum of the nine bytes around byte `b`, each read as a number. */
  function NeighbourhoodSum(g: Grid, b: nat): (sum: int)
    requires g.Valid() && b < |g.state|
    ensures sum >= 0
  {
    var bpr := g.BytesPerRow();
    BlockPosition(g, b);
    var y, column := b / bpr, b % bpr;
    RowSum(g, RowStart(g, RowAbove(g, y)), column) + RowSum(g, RowStart(g, y), column) + RowSum(g, RowStart(g, RowBelow(g, y)), column)
  }

  /** The three bytes of one row around byte column `column`, read as numbers and added. */
  function RowSum(g: Grid, start: int, column: int): (sum: int)
    requires g.Valid() && IsRow(g, start) && 0 <= column < g.BytesPerRow()
    ensures sum >= 0
  {
    var bpr := g.BytesPerRow();
    var k := start + column;
    var lo, ro := LeftBlockOffset(bpr, column), RightBlockOffset(bpr, column);
    Value(g.state[k + lo]) + Value(g.state[k]) + Value(g.state[k + ro])
  }

  /** A byte read as a number (C# adds bytes as `int`s). */
  function Value(block: bv8): (v: int)
    ensures 0 <= v < 256
    ensures v == 0 <==> block == 0
  {
    block as int
  }

  /** Whether cell `i` of byte `b` is live in the next generation, by the
      count `Step` makes. */
  predicate CellNext(g: Grid, b: nat, i: nat)
    requires g.Valid() && b < |g.state| && i < 8
  {
    Survives(Bit(g.state[b], i), NeighbourCount(g, b, i))
  }

  /** The byte built by OR-ing in cell `j`'s mask for each `decisions[j]`,
      cell 0 first. Cell `j` of the result is live exactly when `decisions[j]` holds. */
  function AssembleByte(decisions: seq<bool>): (block: bv8)
    requires |decisions| <= 8
    ensures forall j :: 0 <= j < 8 ==> (Bit(block, j) <==> j < |decisions| && decisions[j])
  {
    if |decisions| == 0 then
      assert forall j :: 0 <= j < 8 ==> !Bit(0, j) by {
        forall j | 0 <= j < 8 ensures !Bit(0, j) {
          NoBitOfZero(j);
        }
      }
      0
    else
      var last := |decisions| - 1;
      var prev := AssembleByte(decisions[..last]);
      if decisions[last] then
        assert forall j :: 0 <= j < 8 ==> (Bit(WithBit(prev, last), j) <==> Bit(prev, j) || j == last) by {
          forall j | 0 <= j < 8 ensures Bit(WithBit(prev, last), j) <==> Bit(prev, j) || j == last {
            BitOfWithBit(prev, last, j);
          }
        }
        WithBit(prev, last)
      else
        prev
  }

  /** The decisions for the eight cells of byte `b`. */
  function CellDecisions(g: Grid, b: nat): (d: seq<bool>)
    requires g.Valid() && b < |g.state|
    ensures |d| == 8 && forall i :: 0 <= i < 8 ==> d[i] == CellNext(g, b, i)
  {
    seq(8, i requires 0 <= i < 8 => CellNext(g, b, i))
  }

  /** Byte `b` of the next state: left zero when the nine bytes around it are
      all zero, else assembled cell by cell. Either way, bit `i` is set exactly
      when the count makes cell `i` live. */
  function NextBlock(g: Grid, b: nat): (r: bv8)
    requires g.Valid() && b < |g.state|
    ensures forall i :: 0 <= i < 8 ==> (Bit(r, i) <==> CellNext(g, b, i))
  {
    if NeighbourhoodSum(g, b) == 0 then
      SkipAllSound(g, b);
      0
    else
      AssembleByte(CellDecisions(g, b))
  }

  // ---------------------------------------------------------------------
  // Step: the probes read the torus neighbours
  // ---------------------------------------------------------------------

  /** Cell `x - 1` of a torus `8 * n` cells wide lies in byte column
      `x / 8 + cellLeftBlockOffset`, at bit `(x % 8 + 7) % 8`. */
  lemma {:induction false} LeftNeighbourCell(n: int, x: int)
    requires n > 0 && 0 <= x < 8 * n
    ensures (x - 1) % (8 * n) / 8 == x / 8 + CellLeftOffset(n, x / 8, x % 8)
    ensures (x - 1) % (8 * n) % 8 == (x % 8 + 7) % 8
  {
    var w := 8 * n;
    if x == 0 {
      DivModUnique(-1, w, -1, w - 1);
      DivModUnique(w - 1, 8, n - 1, 7);
    } else {
      DivModUnique(x - 1, w, 0, x - 1);
    }
  }

  /** Cell `x + 1` of a torus `8 * n` cells wide lies in byte column
      `x / 8 + cellRightBlockOffset`, at bit `(x % 8 + 1) % 8`. */
  lemma {:induction false} RightNeighbourCell(n: int, x: int)
    requires n > 0 && 0 <= x < 8 * n
    ensures (x + 1) % (8 * n) / 8 == x / 8 + CellRightOffset(n, x / 8, x % 8)
    ensures (x + 1) % (8 * n) % 8 == (x % 8 + 1) % 8
  {
    var w := 8 * n;
    if x == w - 1 {
      DivModUnique(w, w, 1, 0);
      DivModUnique(x, 8, n - 1, 7);
    } else {
      DivModUnique(x + 1, w, 0, x + 1);
      if x % 8 == 7 {
        DivModUnique(x, 8, x / 8, 7);
        assert x / 8 != n - 1;
      }
    }
  }

  /** The row above `y` is row `(y - 1) mod height`, the row below `(y + 1) mod height`. */
  lemma {:induction false} RowsAround(g: Grid, y: int)
    requires g.Valid() && 0 <= y < g.height
    ensures RowAbove(g, y) == (y - 1) % g.height
    ensures RowBelow(g, y) == (y + 1) % g.height
    ensures y % g.height == y
  {
    var h := g.height;
    DivModUnique(y, h, 0, y);
    if y == 0 {
      DivModUnique(h - 1, h, 0, h - 1);
      DivModUnique(-1, h, -1, h - 1);
    } else {
      DivModUnique(y + h - 1, h, 1, y - 1);
      DivModUnique(y - 1, h, 0, y - 1);
    }
  }

  /** Probing bit `j` of the byte that holds `(x, row)` counts that cell. */
  lemma ProbeCell(g: Grid, x: int, row: int, k: int, j: nat)
    requires g.Valid() && InBounds(g, x, row) && j < 8
    requires k == RowStart(g, row) + x / 8 && j == x % 8
    ensures 0 <= k < |g.state|
    ensures Hit(g.state[k], Mask(j)) == Count(Live(g), LifeCell(x, row))
  {
    assert k == BlockIndex(g, x, row);
    LiveMember(g, x, row);
  }

  /** The left probe of a row counts the cell `((x - 1) mod width, row)`. */
  lemma ProbeLeft(g: Grid, x: int, row: int)
    requires g.Valid() && InBounds(g, x, row)
    ensures 0 <= RowStart(g, row) + x / 8 + CellLeftOffset(g.BytesPerRow(), x / 8, x % 8) < |g.state|
    ensures Hit(g.state[RowStart(g, row) + x / 8 + CellLeftOffset(g.BytesPerRow(), x / 8, x % 8)], LeftMask(x % 8))
         == Count(Live(g), LifeCell((x - 1) % g.width, row))
  {
    var n := g.BytesPerRow();
    var x' := (x - 1) % g.width;
    LeftNeighbourCell(n, x);
    LeftMaskRotates(x % 8);
    ProbeCell(g, x', row, RowStart(g, row) + x / 8 + CellLeftOffset(n, x / 8, x % 8), x' % 8);
  }

  /** The right probe of a row counts the cell `((x + 1) mod width, row)`. */
  lemma ProbeRight(g: Grid, x: int, row: int)
    requires g.Valid() && InBounds(g, x, row)
    ensures 0 <= RowStart(g, row) + x / 8 + CellRightOffset(g.BytesPerRow(), x / 8, x % 8) < |g.state|
    ensures Hit(g.state[RowStart(g, row) + x / 8 + CellRightOffset(g.BytesPerRow(), x / 8, x % 8)], RightMask(x % 8))
         == Count(Live(g), LifeCell((x + 1) % g.width, row))
  {
    var n := g.BytesPerRow();
    var x' := (x + 1) % g.width;
    RightNeighbourCell(n, x);
    RightMaskRotates(x % 8);
    ProbeCell(g, x', row, RowStart(g, row) + x / 8 + CellRightOffset(n, x / 8, x % 8), x' % 8);
  }

  /** The probes of one row count the cells at columns `x - 1`, `x` (when
      `withCentre`) and `x + 1` of that row, wrapping around the torus. */
  lemma RowHitsCount(g: Grid, x: int, row: int, withCentre: bool)
    requires g.Valid() && InBounds(g, x, row)
    ensures RowHits(g, RowStart(g, row), x / 8, x % 8, withCentre)
         == Count(Live(g), LifeCell((x - 1) % g.width, row))
          + (if withCentre then Count(Live(g), LifeCell(x % g.width, row)) else 0)
          + Count(Live(g), LifeCell((x + 1) % g.width, row))
  {
    ProbeLeft(g, x, row);
    ProbeRight(g, x, row);
    DivModUnique(x, g.width, 0, x);
    ProbeCell(g, x, row, RowStart(g, row) + x / 8, x % 8);
  }

  /** `aliveNeighbors` is the abstract neighbour count of the torus. */
  lemma NeighbourCountCorrect(g: Grid, x: int, y: int)
    requires g.Valid() && InBounds(g, x, y)
    ensures NeighbourCount(g, BlockIndex(g, x, y), x % 8) == Neighbours(Live(g), g.width, g.height, x, y)
  {
    RowsAround(g, y);
    RowHitsCount(g, x, RowAbove(g, y), true);
    RowHitsCount(g, x, y, false);
    RowHitsCount(g, x, RowBelow(g, y), true);
  }

  /** No bit of the zero byte counts. */
  lemma HitZero(mask: bv8)
    ensures Hit(0, mask) == 0
  {
  }

  /** When the three bytes of a row sum to zero, each of them is zero. */
  lemma ZeroRowSum(g: Grid, start: int, column: int)
    requires g.Valid() && IsRow(g, start) && 0 <= column < g.BytesPerRow()
    requires RowSum(g, start, column) == 0
    ensures g.state[start + column + LeftBlockOffset(g.BytesPerRow(), column)] == 0
    ensures g.state[start + column] == 0
    ensures g.state[start + column + RightBlockOffset(g.BytesPerRow(), column)] == 0
  {
  }

  /** When the three bytes of a row sum to zero, no probe of that row counts. */
  lemma ZeroRowNoHits(g: Grid, start: int, column: int, i: nat, withCentre: bool)
    requires g.Valid() && IsRow(g, start) && 0 <= column < g.BytesPerRow() && i < 8
    requires RowSum(g, start, column) == 0
    ensures RowHits(g, start, column, i, withCentre) == 0
    ensures g.state[start + column] == 0
  {
    ZeroRowSum(g, start, column);
    HitZero(LeftMask(i));
    HitZero(Mask(i));
    HitZero(RightMask(i));
  }

  /** The block skip is sound: when the nine bytes around byte `b` are all zero,
      no cell of byte `b` is live in the next generation. */
  lemma SkipSound(g: Grid, b: nat, i: nat)
    requires g.Valid() && b < |g.state| && i < 8
    requires NeighbourhoodSum(g, b) == 0
    ensures !CellNext(g, b, i)
  {
    var bpr := g.BytesPerRow();
    BlockPosition(g, b);
    var y, column := b / bpr, b % bpr;
    ZeroRowNoHits(g, RowStart(g, RowAbove(g, y)), column, i, true);
    ZeroRowNoHits(g, RowStart(g, y), column, i, false);
    ZeroRowNoHits(g, RowStart(g, RowBelow(g, y)), column, i, true);
    NoBitOfZero(i);
  }

  /** When byte `b` is skipped, the zero it keeps agrees with the count for
      every one of its cells. */
  lemma SkipAllSound(g: Grid, b: nat)
    requires g.Valid() && b < |g.state|
    requires NeighbourhoodSum(g, b) == 0
    ensures forall i :: 0 <= i < 8 ==> (Bit(0, i) <==> CellNext(g, b, i))
  {
    forall i | 0 <= i < 8
      ensures Bit(0, i) <==> CellNext(g, b, i)
    {
      NoBitOfZero(i);
      SkipSound(g, b, i);
    }
  }

  /** `Step()`: the next generation, byte by byte. It is the abstract rule of
      Life applied to every cell of the torus. */
  function Step(g: Grid): (r: Grid)
    requires g.Valid()
    ensures r.Valid() && r.width == g.width && r.height == g.height
    ensures Live(r) == NextGeneration(Live(g), g.width, g.height)
  {
    var r := Grid(g.width, g.height, seq(|g.state|, b requires 0 <= b < |g.state| => NextBlock(g, b)));
    StepLive(g, r);
    r
  }

  lemma StepLive(g: Grid, r: Grid)
    requires g.Valid() && r.width == g.width && r.height == g.height && |r.state| == |g.state|
    requires forall b :: 0 <= b < |g.state| ==> r.state[b] == NextBlock(g, b)
    ensures Live(r) == NextGeneration(Live(g), g.width, g.height)
  {
    forall c | true
      ensures c in Live(r) <==> c in NextGeneration(Live(g), g.width, g.height)
    {
      LiveMember(r, c.x, c.y);
      LiveMember(g, c.x, c.y);
      if InBounds(g, c.x, c.y) {
        StepCell(g, r, c.x, c.y);
      }
    }
  }

  /** One cell of the stepped grid follows the rule of Life. */
  lemma StepCell(g: Grid, r: Grid, x: int, y: int)
    requires g.Valid() && r.width == g.width && r.height == g.height && |r.state| == |g.state|
    requires forall b :: 0 <= b < |g.state| ==> r.state[b] == NextBlock(g, b)
    requires InBounds(g, x, y)
    ensures Alive(r, x, y) <==> Survives(LifeCell(x, y) in Live(g), Neighbours(Live(g), g.width, g.height, x, y))
  {
    var b := BlockIndex(g, x, y);
    assert BlockIndex(r, x, y) == b;
    NeighbourCountCorrect(g, x, y);
    LiveMember(g, x, y);
  }
}
