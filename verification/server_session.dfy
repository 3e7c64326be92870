/** The server's per-client session record, the board-to-display translation
    and the BOARD-UPDATE frame the broadcaster sends (server.c). */
module ServerSession {
  import opened Bytes
  import opened Protocol
  import opened GameBoard

  /** How the server writes a session flag into an int field of the header. */
  function Flag(b: bool): int32 { if b then 1 else 0 }

  /** The BOARD-UPDATE header: opcode, then width, height, tempo, victory,
      game_over and score as native ints. */
  function BoardHeader(f: HeaderFields): seq<byte>
  {
    [OP_CODE_BOARD] + EncodeInt32(f.width) + EncodeInt32(f.height) + EncodeInt32(f.tempo)
      + EncodeInt32(f.victory) + EncodeInt32(f.gameOver) + EncodeInt32(f.score)
  }

  /** The header's fixed layout: 25 bytes, the opcode at 0 and int number k at
      offset 1 + 4k. */
  lemma BoardHeaderLayout(f: HeaderFields)
    ensures |BoardHeader(f)| == BOARD_HEADER_SIZE
    ensures BoardHeader(f)[0] == OP_CODE_BOARD
    ensures BoardHeader(f)[FieldOffset(0)..FieldOffset(1)] == EncodeInt32(f.width)
    ensures BoardHeader(f)[FieldOffset(1)..FieldOffset(2)] == EncodeInt32(f.height)
    ensures BoardHeader(f)[FieldOffset(2)..FieldOffset(3)] == EncodeInt32(f.tempo)
    ensures BoardHeader(f)[FieldOffset(3)..FieldOffset(4)] == EncodeInt32(f.victory)
    ensures BoardHeader(f)[FieldOffset(4)..FieldOffset(5)] == EncodeInt32(f.gameOver)
    ensures BoardHeader(f)[FieldOffset(5)..FieldOffset(6)] == EncodeInt32(f.score)
  {
    var h := BoardHeader(f);
    assert h == [OP_CODE_BOARD] + EncodeInt32(f.width) + EncodeInt32(f.height) + EncodeInt32(f.tempo)
      + EncodeInt32(f.victory) + EncodeInt32(f.gameOver) + EncodeInt32(f.score);
  }

  /** memcpy(buffer + p, &x, sizeof(int)), seen through the bytes up to the
      end of the copied int. */
  method PutInt(buffer: array<byte>, p: nat, x: int32)
    requires p + INT_SIZE <= buffer.Length
    modifies buffer
    ensures buffer[..p + INT_SIZE] == old(buffer[..p]) + EncodeInt32(x)
  {
    MemCpy(buffer, p, EncodeInt32(x));
    assert buffer[..p + INT_SIZE] == old(buffer[..])[..p] + EncodeInt32(x);
  }

  /** Builds the header into a fresh buffer with a running offset `p`, as
      send_board_to_client does. */
  method BuildBoardHeader(f: HeaderFields) returns (header: seq<byte>)
    ensures header == BoardHeader(f)
  {
    var buffer := new byte[BOARD_HEADER_SIZE](_ => 0);
    var p := 0;
    buffer[p] := OP_CODE_BOARD;
    p := p + 1;
    assert buffer[..p] == [OP_CODE_BOARD];
    PutInt(buffer, p, f.width);
    p := p + INT_SIZE;
    PutInt(buffer, p, f.height);
    p := p + INT_SIZE;
    PutInt(buffer, p, f.tempo);
    p := p + INT_SIZE;
    PutInt(buffer, p, f.victory);
    p := p + INT_SIZE;
    PutInt(buffer, p, f.gameOver);
    p := p + INT_SIZE;
    PutInt(buffer, p, f.score);
    p := p + INT_SIZE;
    header := buffer[..];
    assert header == buffer[..p];
  }

  /** The nested y/x loops of translate_board_to_session: each cell's glyph is
      stored at its get_board_index position. */
  method FillGrid(grid: array<byte>, board: Board)
    requires WellFormed(board) && grid.Length == board.width * board.height
    modifies grid
    ensures grid[..] == DisplayGrid(board.cells)
  {
    var width: int, height: int := board.width, board.height;
    var cells := board.cells;
    var y := 0;
    var rowStart := 0;
    while y < height
      invariant 0 <= y <= height
      invariant rowStart == y * width && rowStart <= |cells|
      invariant forall i :: 0 <= i < rowStart ==> grid[i] == Glyph(cells[i])
    {
      RowStep(width, height, y);
      var x := 0;
      while x < width
        invariant 0 <= x <= width
        invariant forall i :: 0 <= i < rowStart + x ==> grid[i] == Glyph(cells[i])
      {
        var idx := GridIndex(width, x, y);
        assert idx == rowStart + x;
        grid[idx] := Glyph(cells[idx]);
        x := x + 1;
      }
      rowStart := rowStart + width;
      y := y + 1;
    }
    assert grid[..] == DisplayGrid(cells);
  }

  lemma RowStep(w: int, h: int, y: int)
    requires 0 <= w && 0 <= y < h
    ensures y * w + w == (y + 1) * w <= h * w
  {
  }

  /** One client's session (GameSession). The mutex is not modelled; the grid
      buffer is allocated with width * height bytes. */
  class GameSession {
    var active: bool
    var fdReq: int32
    var fdNotif: int32
    var grid: array<byte>
    var width: int32
    var height: int32
    var pacmanX: int32
    var pacmanY: int32
    var tempo: int32
    var score: int32
    var gameOver: bool
    var victory: bool

    /** The grid buffer matches the session's dimensions. */
    ghost predicate Valid()
      reads this
    {
      width >= 0 && height >= 0 && grid.Length == width * height
    }

    /** A session reset to zero with `active` set, as the worker does before the
        handshake, with the level's dimensions and a grid of that size. */
    constructor (w: int32, h: int32)
      requires w >= 0 && h >= 0
      ensures Valid() && fresh(grid)
      ensures active && !gameOver && !victory
      ensures width == w && height == h
      ensures fdReq == 0 && fdNotif == 0 && pacmanX == 0 && pacmanY == 0
      ensures tempo == 0 && score == 0
    {
      active := true;
      fdReq, fdNotif := 0, 0;
      grid := new byte[w * h](_ => 0);
      width, height := w, h;
      pacmanX, pacmanY := 0, 0;
      tempo, score := 0, 0;
      gameOver, victory := false, false;
    }

    /** The six ints the next BOARD-UPDATE header carries. */
    function HeaderOf(): HeaderFields
      reads this
    {
      HeaderFields(width, height, tempo, Flag(victory), Flag(gameOver), score)
    }

    /** translate_board_to_session: every cell of the board is projected into
        the grid, the first pacman's score and position are copied, and
        game_over is raised (never cleared) when that pacman is dead. */
    method TranslateBoard(board: Board)
      requires Valid() && WellFormed(board)
      requires board.width == width && board.height == height
      modifies grid, this`score, this`pacmanX, this`pacmanY, this`gameOver
      ensures Valid()
      ensures grid[..] == DisplayGrid(board.cells)
      ensures score == board.pacmans[0].points
      ensures pacmanX == board.pacmans[0].posX && pacmanY == board.pacmans[0].posY
      ensures gameOver == (old(gameOver) || !board.pacmans[0].alive)
    {
      FillGrid(grid, board);
      if |board.pacmans| > 0 {
        score := board.pacmans[0].points;
        pacmanX := board.pacmans[0].posX;
        pacmanY := board.pacmans[0].posY;
      }
      if !board.pacmans[0].alive {
        gameOver := true;
      }
    }

    /** send_board_to_client, with the results of its two write calls given.
        `sent` is what was handed to write: the header, then (only if the
        header write succeeded) the grid bytes. A write returning n <= 0 marks
        the session inactive and fails the call. */
    method SendBoardToClient(headerWrite: int, gridWrite: int) returns (rc: int, sent: seq<byte>)
      requires Valid()
      modifies this`active
      ensures rc == (if headerWrite > 0 && gridWrite > 0 then 0 else 1)
      ensures sent == BoardHeader(HeaderOf()) + (if headerWrite > 0 then grid[..] else [])
      ensures active == (old(active) && rc == 0)
    {
      var header := BuildBoardHeader(HeaderOf());
      sent := header;
      if headerWrite <= 0 {
        active := false;
        return 1, sent;
      }
      var boardBuffer := grid[..];
      sent := sent + boardBuffer;
      if gridWrite <= 0 {
        active := false;
        return 1, sent;
      }
      rc := 0;
    }
  }

  /** Translating an unchanged board a second time changes nothing: the same
      grid bytes and the same session fields. */
  method TranslateTwice(s: GameSession, board: Board)
    requires s.Valid() && WellFormed(board)
    requires board.width == s.width && board.height == s.height
    modifies s.grid, s`score, s`pacmanX, s`pacmanY, s`gameOver
    ensures s.grid[..] == DisplayGrid(board.cells)
    ensures s.score == board.pacmans[0].points
    ensures s.pacmanX == board.pacmans[0].posX && s.pacmanY == board.pacmans[0].posY
    ensures s.gameOver == (old(s.gameOver) || !board.pacmans[0].alive)
  {
    s.TranslateBoard(board);
    ghost var grid1, score1, x1, y1, over1 := s.grid[..], s.score, s.pacmanX, s.pacmanY, s.gameOver;
    s.TranslateBoard(board);
    assert s.grid[..] == grid1 && s.score == score1 && s.pacmanX == x1 && s.pacmanY == y1;
    assert s.gameOver == over1;
  }
}
