/** Constants and wire layouts shared by the server and the clients.

    The opcode header (protocol.h) is not part of this model: the four opcode
    values below are placeholders, and the proofs use only that they are
    distinct and non-zero. */
module Protocol {
  import opened Bytes

  const OP_CODE_CONNECT: byte := 1
  const OP_CODE_DISCONNECT: byte := 2
  const OP_CODE_PLAY: byte := 3
  const OP_CODE_BOARD: byte := 4

  /** Width of each pipe-path field in a CONNECT request. */
  const MAX_PIPE_PATH_LENGTH: nat := 40

  /** Size of the reference CONNECT request: opcode and two path fields. */
  const CONNECT_REQUEST_SIZE: nat := 1 + 2 * MAX_PIPE_PATH_LENGTH

  /** Size of a BOARD-UPDATE header: opcode and six native ints. */
  const BOARD_HEADER_SIZE: nat := 1 + 6 * INT_SIZE

  /** Outcomes of a level attempt (server.h). */
  const CONTINUE_PLAY: int := 0
  const NEXT_LEVEL: int := 1
  const QUIT_GAME: int := 2

  /** What move_pacman reports; the move itself happens in code outside this model. */
  datatype MoveResult = ValidMove | InvalidMove | ReachedPortal | DeadPacman

  /** The six ints of a BOARD-UPDATE header, in wire order. */
  datatype HeaderFields = HeaderFields(
    width: int32, height: int32, tempo: int32,
    victory: int32, gameOver: int32, score: int32)

  datatype Option<T> = None | Some(value: T)

  /** Byte offset of header int number `k` (0 = width … 5 = score). */
  function FieldOffset(k: nat): nat { 1 + k * INT_SIZE }
}
