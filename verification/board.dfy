/** The level board as the server threads see it, and its display projection.

    The board itself is built by the level loader, which is not part of this
    model; only the fields the server core reads are kept. */
module GameBoard {
  import opened Bytes

  /** Cell contents as the level loader stores them. */
  const CONTENT_WALL: byte := 'W' as int
  const CONTENT_PACMAN: byte := 'P' as int
  const CONTENT_MONSTER: byte := 'M' as int

  /** Display characters of the flattened grid sent to clients. */
  const GLYPH_WALL: byte := '#' as int
  const GLYPH_PACMAN: byte := 'C' as int
  const GLYPH_MONSTER: byte := 'M' as int
  const GLYPH_PORTAL: byte := '@' as int
  const GLYPH_DOT: byte := '.' as int
  const GLYPH_EMPTY: byte := ' ' as int

  datatype Cell = Cell(content: byte, hasDot: bool, hasPortal: bool)

  datatype Pacman = Pacman(posX: int32, posY: int32, points: int32, alive: bool)

  /** A board: `cells` is row-major, `width * height` long; `pacmans` has
      n_pacmans entries. */
  datatype Board = Board(
    width: int32, height: int32, cells: seq<Cell>,
    pacmans: seq<Pacman>, tempo: int32)

  /** A loaded board: dimensions agree with the cells, and there is a pacman
      (translation reads pacmans[0] unconditionally). */
  predicate WellFormed(b: Board)
  {
    b.width >= 0 && b.height >= 0 && |b.cells| == b.width * b.height && |b.pacmans| > 0
  }

  /** get_board_index: the row-major position of (x, y). */
  function GridIndex(width: int, x: int, y: int): int
  {
    y * width + x
  }

  /** Every in-range coordinate lands inside the grid. */
  lemma GridIndexInRange(width: int, height: int, x: int, y: int)
    requires 0 <= x < width && 0 <= y < height
    ensures 0 <= GridIndex(width, x, y) < width * height
  {
    assert y * width + x < y * width + width == (y + 1) * width;
    assert (y + 1) * width <= height * width;
  }

  /** Euclidean division by the width has exactly one quotient and remainder. */
  lemma DivModUnique(i: int, w: int, q: int, r: int)
    requires w > 0 && 0 <= r < w && i == q * w + r
    ensures i / w == q && i % w == r
  {
    var d := q - i / w;
    assert d * w == i % w - r by {
      assert i == (i / w) * w + i % w;
      assert q * w - (i / w) * w == d * w;
    }
  }

  /** Distinct in-range coordinates land on distinct grid positions, and every
      grid position is reached from exactly the coordinates (i % w, i / w). */
  lemma GridIndexBijective(width: int, height: int, x: int, y: int, i: int)
    requires 0 <= x < width && 0 <= y < height && 0 <= i < width * height
    ensures GridIndex(width, x, y) == i <==> (x == i % width && y == i / width)
    ensures 0 <= i % width < width && 0 <= i / width < height
    ensures GridIndex(width, i % width, i / width) == i
  {
    assert i == (i / width) * width + i % width;
    if GridIndex(width, x, y) == i {
      DivModUnique(i, width, y, x);
    }
    if x == i % width && y == i / width {
      assert i == (i / width) * width + i % width;
    }
  }

  /** The display character of one cell (the priority chain of the
      board translation): the content character wins over the portal and dot
      flags, and the portal wins over the dot. */
  function Glyph(c: Cell): byte
  {
    if c.content == CONTENT_WALL then GLYPH_WALL
    else if c.content == CONTENT_PACMAN then GLYPH_PACMAN
    else if c.content == CONTENT_MONSTER then GLYPH_MONSTER
    else if c.hasPortal then GLYPH_PORTAL
    else if c.hasDot then GLYPH_DOT
    else GLYPH_EMPTY
  }

  /** A cell whose content is none of wall, pacman or monster. */
  predicate Vacant(c: Cell)
  {
    c.content != CONTENT_WALL && c.content != CONTENT_PACMAN && c.content != CONTENT_MONSTER
  }

  /** Reading a glyph back: each display character tells exactly which kind
      of cell produced it. */
  lemma GlyphClassifies(c: Cell)
    ensures Glyph(c) == GLYPH_WALL <==> c.content == CONTENT_WALL
    ensures Glyph(c) == GLYPH_PACMAN <==> c.content == CONTENT_PACMAN
    ensures Glyph(c) == GLYPH_MONSTER <==> c.content == CONTENT_MONSTER
    ensures Glyph(c) == GLYPH_PORTAL <==> Vacant(c) && c.hasPortal
    ensures Glyph(c) == GLYPH_DOT <==> Vacant(c) && !c.hasPortal && c.hasDot
    ensures Glyph(c) == GLYPH_EMPTY <==> Vacant(c) && !c.hasPortal && !c.hasDot
  {
  }

  /** The whole display projection, cell by cell. */
  function DisplayGrid(cells: seq<Cell>): (g: seq<byte>)
    ensures |g| == |cells|
  {
    seq(|cells|, i requires 0 <= i < |cells| => Glyph(cells[i]))
  }

  /** The display grid at coordinate (x, y) shows that cell's glyph. */
  lemma DisplayGridAt(b: Board, x: int, y: int)
    requires WellFormed(b) && 0 <= x < b.width && 0 <= y < b.height
    ensures 0 <= GridIndex(b.width, x, y) < |DisplayGrid(b.cells)|
    ensures DisplayGrid(b.cells)[GridIndex(b.width, x, y)] == Glyph(b.cells[GridIndex(b.width, x, y)])
  {
    GridIndexInRange(b.width, b.height, x, y);
  }
}
