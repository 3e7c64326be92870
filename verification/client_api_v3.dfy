/** The v3 client's pipe API (client-base-with-Makefile-v3 api.c): an 83-byte
    CONNECT request, an ack taken from a single read, a one-byte DISCONNECT
    and a header decoder with fixed offsets. */
module ClientApiV3 {
  import opened Bytes
  import opened Protocol
  import ClientApi

  /** Size of the v3 CONNECT request: two extra zero bytes after the paths. */
  const V3_CONNECT_REQUEST_SIZE: nat := 1 + 2 * MAX_PIPE_PATH_LENGTH + 2

  /** The v3 request: the 81 bytes of the reference request followed by two
      NUL bytes. */
  function V3ConnectRequestFrame(req: seq<byte>, notif: seq<byte>): seq<byte>
    requires NoNul(req) && NoNul(notif)
  {
    ClientApi.ConnectRequestFrame(req, notif) + Zeros(2)
  }

  /** Its layout: 83 bytes, never the 81 the server's length check wants; the
      paths sit in the same fields as in the reference request. */
  lemma V3ConnectRequestLayout(req: seq<byte>, notif: seq<byte>)
    requires NoNul(req) && NoNul(notif)
    ensures |V3ConnectRequestFrame(req, notif)| == V3_CONNECT_REQUEST_SIZE != CONNECT_REQUEST_SIZE
    ensures V3ConnectRequestFrame(req, notif)[0] == OP_CODE_CONNECT
    ensures V3ConnectRequestFrame(req, notif)[1..1 + MAX_PIPE_PATH_LENGTH] == StrNCpyField(req, MAX_PIPE_PATH_LENGTH)
    ensures V3ConnectRequestFrame(req, notif)[1 + MAX_PIPE_PATH_LENGTH..CONNECT_REQUEST_SIZE]
         == StrNCpyField(notif, MAX_PIPE_PATH_LENGTH)
    ensures V3ConnectRequestFrame(req, notif)[CONNECT_REQUEST_SIZE] == 0
    ensures V3ConnectRequestFrame(req, notif)[CONNECT_REQUEST_SIZE + 1] == 0
    ensures V3ConnectRequestFrame(req, notif)[..CONNECT_REQUEST_SIZE] == ClientApi.ConnectRequestFrame(req, notif)
  {
    ClientApi.ConnectRequestLayout(req, notif);
    var f := V3ConnectRequestFrame(req, notif);
    assert f[..CONNECT_REQUEST_SIZE] == ClientApi.ConnectRequestFrame(req, notif);
  }

  /** Builds the request in a zeroed 83-byte buffer. */
  method BuildV3ConnectRequest(req: seq<byte>, notif: seq<byte>) returns (frame: seq<byte>)
    requires NoNul(req) && NoNul(notif)
    ensures frame == V3ConnectRequestFrame(req, notif)
  {
    var buffer := new byte[V3_CONNECT_REQUEST_SIZE](_ => 0);
    buffer[0] := OP_CODE_CONNECT;
    StrNCpy(buffer, 1, req, MAX_PIPE_PATH_LENGTH);
    StrNCpy(buffer, 1 + MAX_PIPE_PATH_LENGTH, notif, MAX_PIPE_PATH_LENGTH);
    frame := buffer[..];
    assert frame == frame[..1] + frame[1..41] + frame[41..81] + frame[81..];
  }

  /** The v3 ack test on that buffer. */
  predicate V3AckAccepted(got: seq<byte>)
    requires |got| <= 2
  {
    ZeroedRead(got, 2)[0] == OP_CODE_CONNECT && ZeroedRead(got, 2)[1] == 0
  }

  /** Outcomes of the v3 pacman_connect's calls, in call order; `ackGot` is
      what the single read of the ack delivered (at most two bytes). */
  datatype V3ConnectIo = V3ConnectIo(
    mkfifoReqOk: bool, mkfifoNotifOk: bool, openServerOk: bool,
    writeOk: bool, closeServerOk: bool, openNotifOk: bool, ackGot: seq<byte>)

  /** pacman_connect (v3): `sent` is the request handed to write; 0 comes
      back (and the request pipe is opened) exactly when every call before
      the ack succeeded and the ack buffer holds [OP_CODE_CONNECT, 0]. */
  method V3PacmanConnect(req: seq<byte>, notif: seq<byte>, io: V3ConnectIo)
    returns (rc: int, sent: Option<seq<byte>>, opensRequestPipe: bool)
    requires NoNul(req) && NoNul(notif) && |io.ackGot| <= 2
    ensures sent == if io.mkfifoReqOk && io.mkfifoNotifOk && io.openServerOk
                    then Some(V3ConnectRequestFrame(req, notif)) else None
    ensures rc == 0 || rc == 1
    ensures opensRequestPipe == (rc == 0)
    ensures rc == 0 <==> (io.mkfifoReqOk && io.mkfifoNotifOk && io.openServerOk && io.writeOk
                           && io.closeServerOk && io.openNotifOk && V3AckAccepted(io.ackGot))
  {
    sent, opensRequestPipe := None, false;
    if !io.mkfifoReqOk || !io.mkfifoNotifOk {
      return 1, sent, opensRequestPipe;
    }
    var frame := BuildV3ConnectRequest(req, notif);
    if !io.openServerOk {
      return 1, sent, opensRequestPipe;
    }
    sent := Some(frame);
    if !io.writeOk || !io.closeServerOk || !io.openNotifOk {
      return 1, sent, opensRequestPipe;
    }
    var response := new byte[2](_ => 0);
    MemCpy(response, 0, io.ackGot);
    assert response[..] == ZeroedRead(io.ackGot, 2);
    if response[0] == OP_CODE_CONNECT && response[1] == 0 {
      return 0, sent, true;
    }
    rc := 1;
  }

  /** The zeroed buffer also accepts an ack of which only the opcode byte
      arrived, and rejects one of which nothing arrived. */
  lemma V3AckShortRead(got: seq<byte>)
    requires |got| <= 2
    ensures |got| == 1 ==> (V3AckAccepted(got) <==> got[0] == OP_CODE_CONNECT)
    ensures |got| == 2 ==> (V3AckAccepted(got) <==> ClientApi.AckAccepted(got))
    ensures |got| == 0 ==> !V3AckAccepted(got)
  {
  }

  /** pacman_play (v3): the same two bytes as the reference client. */
  function V3PlayFrame(command: byte): (f: seq<byte>)
    ensures f == ClientApi.PlayFrame(command)
  {
    var buffer := Zeros(2);
    buffer[0 := OP_CODE_PLAY][1 := command]
  }

  /** pacman_disconnect (v3): a single opcode byte. */
  function V3DisconnectFrame(): (f: seq<byte>)
    ensures |f| == 1 && f[0] == OP_CODE_DISCONNECT
    ensures f == ClientApi.DisconnectFrame()[..1]
  {
    [OP_CODE_DISCONNECT]
  }

  /** The header decode of receive_board_update (v3) on a full 25-byte
      buffer: nothing for a wrong opcode, else the ints at 1 + 4k. */
  function V3DecodeHeader(buffer1: seq<byte>): Option<HeaderFields>
    requires |buffer1| == BOARD_HEADER_SIZE
  {
    if buffer1[0] != OP_CODE_BOARD then None
    else Some(HeaderFields(
      DecodeInt32(buffer1[1..1 + INT_SIZE]),
      DecodeInt32(buffer1[1 + INT_SIZE..1 + 2 * INT_SIZE]),
      DecodeInt32(buffer1[1 + 2 * INT_SIZE..1 + 3 * INT_SIZE]),
      DecodeInt32(buffer1[1 + 3 * INT_SIZE..1 + 4 * INT_SIZE]),
      DecodeInt32(buffer1[1 + 4 * INT_SIZE..1 + 5 * INT_SIZE]),
      DecodeInt32(buffer1[1 + 5 * INT_SIZE..1 + 6 * INT_SIZE])))
  }

  /** The two clients read the same ints out of a header; the v3 client
      rejects exactly the headers whose opcode is not BOARD. */
  lemma V3DecodeAgreesWithBase(buffer1: seq<byte>)
    requires |buffer1| == BOARD_HEADER_SIZE
    ensures V3DecodeHeader(buffer1).None? <==> buffer1[0] != OP_CODE_BOARD
    ensures buffer1[0] == OP_CODE_BOARD ==> V3DecodeHeader(buffer1) == Some(ClientApi.DecodeBoardHeader(buffer1))
  {
  }
}
