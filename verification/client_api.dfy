/** The reference client's pipe API (Client_base api.c): exact reads, the
    CONNECT handshake, PLAY and DISCONNECT frames and the BOARD-UPDATE decoder.

    A pipe is modelled by the bytes its writer puts into it before closing
    (`incoming`) and by what the successive read calls return (`chunks`). */
module ClientApi {
  import opened Bytes
  import opened Protocol

  /** What the `k`-th read call returns when `requested` bytes are asked for
      and `available` bytes are still to come: a non-positive `chunks[k]` is
      returned as is (end of file, error); a positive one caps the chunk the
      pipe hands over; calls past the end of `chunks` get as much as they ask
      for. With no byte left the call returns 0 (the writer has closed). */
  function ReadCall(chunks: seq<int>, k: nat, requested: nat, available: nat): (n: int)
    ensures n <= requested && n <= available
  {
    if k < |chunks| && chunks[k] <= 0 then Min(chunks[k], 0)
    else Min(Min(requested, available), if k < |chunks| then chunks[k] else requested)
  }

  /** Status returned by read_all and the number of read calls it made. */
  datatype ReadOutcome = ReadOutcome(status: int, calls: nat)

  /** read_all from the point where `total` bytes are in and `k` calls made. */
  function ReadAllRun(incoming: seq<byte>, chunks: seq<int>, len: nat, total: nat, k: nat): (r: ReadOutcome)
    requires total <= len && total <= |incoming|
    ensures r.status == 1 || r.status == -1
    ensures r.status == 1 ==> len <= |incoming|
    ensures r.calls >= k
    decreases len - total
  {
    if total >= len then ReadOutcome(1, k)
    else
      var n := ReadCall(chunks, k, len - total, |incoming| - total);
      if n <= 0 then ReadOutcome(-1, k + 1)
      else ReadAllRun(incoming, chunks, len, total + n, k + 1)
  }

  /** read_all: loop until `len` bytes are in, giving up (-1) on the first
      read that returns 0 or less. Each call asks for `len - total` bytes,
      so what is read is always a prefix of the stream no longer than `len`;
      status 1 comes back exactly when the chunks add up to `len`. */
  method ReadAll(incoming: seq<byte>, chunks: seq<int>, len: nat) returns (status: int, buf: seq<byte>, calls: nat)
    ensures ReadOutcome(status, calls) == ReadAllRun(incoming, chunks, len, 0, 0)
    ensures |buf| <= len && buf <= incoming
    ensures status == 1 <==> |buf| == len
  {
    var total := 0;
    buf := [];
    calls := 0;
    while total < len
      invariant total <= len && total <= |incoming| && buf == incoming[..total]
      invariant ReadAllRun(incoming, chunks, len, total, calls) == ReadAllRun(incoming, chunks, len, 0, 0)
      decreases len - total
    {
      var n := ReadCall(chunks, calls, len - total, |incoming| - total);
      calls := calls + 1;
      if n <= 0 {
        return -1, buf, calls;
      }
      buf := buf + incoming[total..total + n];
      total := total + n;
    }
    status := 1;
  }

  /** When no read fails outright, read_all succeeds exactly when the writer
      supplies at least `len` bytes, however the pipe splits them. */
  lemma {:induction false} ReadAllPositiveReads(incoming: seq<byte>, chunks: seq<int>, len: nat, total: nat, k: nat)
    requires total <= len && total <= |incoming|
    requires forall j :: 0 <= j < |chunks| ==> chunks[j] > 0
    ensures ReadAllRun(incoming, chunks, len, total, k).status == (if len <= |incoming| then 1 else -1)
    decreases len - total
  {
    if total < len {
      var n := ReadCall(chunks, k, len - total, |incoming| - total);
      if n > 0 {
        ReadAllPositiveReads(incoming, chunks, len, total + n, k + 1);
      }
    }
  }

  /** The read results left after the first `k` calls. */
  function Drop(chunks: seq<int>, k: nat): seq<int>
  {
    if k <= |chunks| then chunks[k..] else []
  }

  // ---------------------------------------------------------------- CONNECT

  /** The 81-byte CONNECT request: zeroed, opcode at 0, the strncpy of the
      request path at 1..40 and of the notification path at 41..80. */
  function ConnectRequestFrame(req: seq<byte>, notif: seq<byte>): seq<byte>
    requires NoNul(req) && NoNul(notif)
  {
    [OP_CODE_CONNECT] + StrNCpyField(req, MAX_PIPE_PATH_LENGTH) + StrNCpyField(notif, MAX_PIPE_PATH_LENGTH)
  }

  /** The request's layout: 81 bytes; each path occupies its field, and every
      byte of a field after the path's end is NUL. */
  lemma ConnectRequestLayout(req: seq<byte>, notif: seq<byte>)
    requires NoNul(req) && NoNul(notif)
    ensures |ConnectRequestFrame(req, notif)| == CONNECT_REQUEST_SIZE
    ensures ConnectRequestFrame(req, notif)[0] == OP_CODE_CONNECT
    ensures forall i :: 0 <= i < MAX_PIPE_PATH_LENGTH ==>
      ConnectRequestFrame(req, notif)[1 + i] == (if i < |req| then req[i] else 0)
    ensures forall i :: 0 <= i < MAX_PIPE_PATH_LENGTH ==>
      ConnectRequestFrame(req, notif)[1 + MAX_PIPE_PATH_LENGTH + i] == (if i < |notif| then notif[i] else 0)
  {
  }

  /** Builds the request in a zeroed stack buffer as pacman_connect does. */
  method BuildConnectRequest(req: seq<byte>, notif: seq<byte>) returns (frame: seq<byte>)
    requires NoNul(req) && NoNul(notif)
    ensures frame == ConnectRequestFrame(req, notif)
  {
    var buffer := new byte[CONNECT_REQUEST_SIZE](_ => 0);
    buffer[0] := OP_CODE_CONNECT;
    StrNCpy(buffer, 1, req, MAX_PIPE_PATH_LENGTH);
    StrNCpy(buffer, 1 + MAX_PIPE_PATH_LENGTH, notif, MAX_PIPE_PATH_LENGTH);
    frame := buffer[..];
    assert frame == frame[..1] + frame[1..41] + frame[41..];
  }

  /** A two-byte CONNECT ack accepts the client when it carries the CONNECT
      opcode and result 0. */
  predicate AckAccepted(ack: seq<byte>)
  {
    |ack| == 2 && ack[0] == OP_CODE_CONNECT && ack[1] == 0
  }

  /** The outcomes of the system calls pacman_connect makes, in call order,
      and the notification pipe's contents for reading the ack. */
  datatype ConnectIo = ConnectIo(
    mkfifoReqOk: bool, mkfifoNotifOk: bool, openServerOk: bool,
    writeOk: bool, closeServerOk: bool, openNotifOk: bool, openReqOk: bool,
    ackIncoming: seq<byte>, ackChunks: seq<int>)

  /** Every system call before the ack read succeeded. */
  predicate PipesReady(io: ConnectIo)
  {
    io.mkfifoReqOk && io.mkfifoNotifOk && io.openServerOk && io.writeOk
      && io.closeServerOk && io.openNotifOk && io.openReqOk
  }

  /** pacman_connect: `sent` is the request handed to write (once the server
      pipe is open); the call returns 0 exactly when every step succeeded and
      the two ack bytes read in full are [OP_CODE_CONNECT, 0]. */
  method PacmanConnect(req: seq<byte>, notif: seq<byte>, io: ConnectIo) returns (rc: int, sent: Option<seq<byte>>)
    requires NoNul(req) && NoNul(notif)
    ensures sent == if io.mkfifoReqOk && io.mkfifoNotifOk && io.openServerOk
                    then Some(ConnectRequestFrame(req, notif)) else None
    ensures rc == 0 || rc == 1
    ensures rc == 0 <==> (PipesReady(io)
                           && ReadAllRun(io.ackIncoming, io.ackChunks, 2, 0, 0).status == 1
                           && AckAccepted(io.ackIncoming[..2]))
  {
    sent := None;
    if !io.mkfifoReqOk || !io.mkfifoNotifOk {
      return 1, sent;
    }
    var frame := BuildConnectRequest(req, notif);
    if !io.openServerOk {
      return 1, sent;
    }
    sent := Some(frame);
    if !io.writeOk || !io.closeServerOk || !io.openNotifOk || !io.openReqOk {
      return 1, sent;
    }
    var status, ack, _ := ReadAll(io.ackIncoming, io.ackChunks, 2);
    if status == -1 {
      return 1, sent;
    }
    if ack[0] == OP_CODE_CONNECT && ack[1] == 0 {
      return 0, sent;
    }
    rc := 1;
  }

  // ------------------------------------------------------- PLAY, DISCONNECT

  /** pacman_play's frame: the PLAY opcode and the command byte. */
  function PlayFrame(command: byte): (f: seq<byte>)
    ensures |f| == 2 && f[0] == OP_CODE_PLAY && f[1] == command
  {
    [OP_CODE_PLAY, command]
  }

  /** pacman_disconnect's frame: the DISCONNECT opcode and one padding byte. */
  function DisconnectFrame(): (f: seq<byte>)
    ensures |f| == 2 && f[0] == OP_CODE_DISCONNECT && f[1] == 0
  {
    [OP_CODE_DISCONNECT, 0]
  }

  /** pacman_disconnect's return value: 1 when the write or either close
      fails, 0 otherwise (unlink failures are only logged). */
  function DisconnectResult(writeOk: bool, closeReqOk: bool, closeNotifOk: bool): (rc: int)
    ensures rc == 0 <==> writeOk && closeReqOk && closeNotifOk
    ensures rc == 0 || rc == 1
  {
    if !writeOk then 1 else if !closeReqOk then 1 else if !closeNotifOk then 1 else 0
  }

  // ----------------------------------------------------------- BOARD-UPDATE

  /** The six ints of a BOARD-UPDATE header, read at offsets 1, 5, …, 21. */
  function DecodeBoardHeader(header: seq<byte>): HeaderFields
    requires |header| == BOARD_HEADER_SIZE
  {
    HeaderFields(
      DecodeInt32(header[FieldOffset(0)..FieldOffset(1)]),
      DecodeInt32(header[FieldOffset(1)..FieldOffset(2)]),
      DecodeInt32(header[FieldOffset(2)..FieldOffset(3)]),
      DecodeInt32(header[FieldOffset(3)..FieldOffset(4)]),
      DecodeInt32(header[FieldOffset(4)..FieldOffset(5)]),
      DecodeInt32(header[FieldOffset(5)..FieldOffset(6)]))
  }

  /** The client's Board value: the header ints (score is
      accumulated_points) and the grid, None standing for a NULL `data`. */
  datatype ClientBoard = ClientBoard(fields: HeaderFields, data: Option<seq<byte>>)

  /** memset(&board, 0, …): all ints zero, data NULL. */
  const ZeroBoard := ClientBoard(HeaderFields(0, 0, 0, 0, 0, 0), None)

  /** What receive_board_update returns for a notification pipe: the zero
      board when the header cannot be read or has the wrong opcode; the
      decoded ints with no data when the grid size is negative (malloc of
      that size fails) or the grid cannot be read in full; otherwise the
      ints and the width * height grid bytes that follow the header. */
  function BoardUpdate(incoming: seq<byte>, chunks: seq<int>): (b: ClientBoard)
  {
    var first := ReadAllRun(incoming, chunks, BOARD_HEADER_SIZE, 0, 0);
    if first.status != 1 || incoming[0] != OP_CODE_BOARD then ZeroBoard
    else
      var f := DecodeBoardHeader(incoming[..BOARD_HEADER_SIZE]);
      var size := (f.width as int) * (f.height as int);
      if size < 0 then ClientBoard(f, None)
      else
        var rest := incoming[BOARD_HEADER_SIZE..];
        var second := ReadAllRun(rest, Drop(chunks, first.calls), size, 0, 0);
        if second.status != 1 then ClientBoard(f, None)
        else ClientBoard(f, Some(rest[..size]))
  }

  /** The header ints, read by advancing an offset past the opcode as
      receive_board_update does. */
  method ReadHeaderFields(header: seq<byte>) returns (f: HeaderFields)
    requires |header| == BOARD_HEADER_SIZE
    ensures f == DecodeBoardHeader(header)
  {
    var off := 1;
    var width := DecodeInt32(header[off..off + INT_SIZE]);
    off := off + INT_SIZE;
    var height := DecodeInt32(header[off..off + INT_SIZE]);
    off := off + INT_SIZE;
    var tempo := DecodeInt32(header[off..off + INT_SIZE]);
    off := off + INT_SIZE;
    var victory := DecodeInt32(header[off..off + INT_SIZE]);
    off := off + INT_SIZE;
    var gameOver := DecodeInt32(header[off..off + INT_SIZE]);
    off := off + INT_SIZE;
    var points := DecodeInt32(header[off..off + INT_SIZE]);
    f := HeaderFields(width, height, tempo, victory, gameOver, points);
  }

  /** receive_board_update: read the header, check the opcode, decode the
      ints, then read the width * height grid bytes. */
  method ReceiveBoardUpdate(incoming: seq<byte>, chunks: seq<int>) returns (board: ClientBoard)
    ensures board == BoardUpdate(incoming, chunks)
    ensures board.data.Some? ==> |board.data.value| == board.fields.width as int * board.fields.height as int
  {
    board := ZeroBoard;
    var status, header, calls := ReadAll(incoming, chunks, BOARD_HEADER_SIZE);
    if status == -1 {
      return;
    }
    assert header == incoming[..BOARD_HEADER_SIZE];
    if header[0] != OP_CODE_BOARD {
      return;
    }
    var f := ReadHeaderFields(header);
    board := ClientBoard(f, None);
    var size := (f.width as int) * (f.height as int);
    if size < 0 {
      return;
    }
    var gridStatus, data, _ := ReadAll(incoming[BOARD_HEADER_SIZE..], Drop(chunks, calls), size);
    if gridStatus == -1 {
      return;
    }
    assert data == incoming[BOARD_HEADER_SIZE..][..size];
    board := board.(data := Some(data));
  }
}
