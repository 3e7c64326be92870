/** How the two ends of each pipe fit together: what a client writes, read
    back the way the server reads it, and what the server writes, read back
    the way each client reads it. */
module RoundTrips {
  import opened Bytes
  import opened Protocol
  import ServerSession
  import ClientApi
  import ClientApiV3
  import ClientMain
  import ConnectQueue
  import InputHandler

  // ------------------------------------------------------ CONNECT request

  /** A CONNECT request from the base client, read in one piece, is queued by
      the listener, and the worker's two path fields hold exactly the paths
      the client sent (each shorter than the 40-byte field). */
  lemma ConnectRequestRoundTrip(req: seq<byte>, notif: seq<byte>)
    requires NoNul(req) && NoNul(notif)
    requires |req| < MAX_PIPE_PATH_LENGTH && |notif| < MAX_PIPE_PATH_LENGTH
    ensures var frame := ClientApi.ConnectRequestFrame(req, notif);
      |frame| == CONNECT_REQUEST_SIZE
      && ConnectQueue.ListenerDecision(ConnectQueue.Got(frame)) == ConnectQueue.Enqueue(frame)
      && CString(ConnectQueue.RequestPathField(frame)) == req
      && CString(ConnectQueue.NotifPathField(frame)) == notif
  {
    var frame := ClientApi.ConnectRequestFrame(req, notif);
    ClientApi.ConnectRequestLayout(req, notif);
    assert ConnectQueue.RequestPathField(frame) == StrNCpyField(req, MAX_PIPE_PATH_LENGTH);
    assert ConnectQueue.NotifPathField(frame) == StrNCpyField(notif, MAX_PIPE_PATH_LENGTH);
    StrNCpyThenCString(req, MAX_PIPE_PATH_LENGTH);
    StrNCpyThenCString(notif, MAX_PIPE_PATH_LENGTH);
  }

  /** The pipe paths the client main program derives from its id reach the
      server intact. */
  lemma ClientPathsReachServer(clientId: seq<byte>)
    requires NoNul(clientId)
    ensures var frame := ClientApi.ConnectRequestFrame(ClientMain.RequestPipePath(clientId), ClientMain.NotifPipePath(clientId));
      ConnectQueue.ListenerDecision(ConnectQueue.Got(frame)).Enqueue?
      && CString(ConnectQueue.RequestPathField(frame)) == ClientMain.RequestPipePath(clientId)
      && CString(ConnectQueue.NotifPathField(frame)) == ClientMain.NotifPipePath(clientId)
  {
    ClientMain.PipePathsBounded(clientId);
    ConnectRequestRoundTrip(ClientMain.RequestPipePath(clientId), ClientMain.NotifPipePath(clientId));
  }

  /** The v3 client's 83-byte request, read by the server's 81-byte read,
      arrives as two reads: the first 81 bytes, which are the base client's
      request and are queued, then the two trailing zero bytes, which are
      dropped. The listener queues exactly the base request. */
  lemma V3RequestThroughListener(req: seq<byte>, notif: seq<byte>)
    requires NoNul(req) && NoNul(notif)
    ensures var frame := ClientApiV3.V3ConnectRequestFrame(req, notif);
      var rs := [ConnectQueue.Got(frame[..CONNECT_REQUEST_SIZE]), ConnectQueue.Got(frame[CONNECT_REQUEST_SIZE..])];
      (forall i :: 0 <= i < |rs| ==> ConnectQueue.Fits(rs[i]))
      && ConnectQueue.Accepted(rs) == [ClientApi.ConnectRequestFrame(req, notif)]
  {
    var frame := ClientApiV3.V3ConnectRequestFrame(req, notif);
    ClientApiV3.V3ConnectRequestLayout(req, notif);
    ClientApi.ConnectRequestLayout(req, notif);
    var rs := [ConnectQueue.Got(frame[..CONNECT_REQUEST_SIZE]), ConnectQueue.Got(frame[CONNECT_REQUEST_SIZE..])];
    assert frame[CONNECT_REQUEST_SIZE..] == [0, 0];
    assert ConnectQueue.ListenerDecision(rs[1]) == ConnectQueue.Ignore;
    assert rs[1..][1..] == [];
  }

  /** The v3 request goes through only when nothing is queued behind it: an
      81-byte request fb written before the listener reads the v3 trailer is
      read as the trailer plus most of fb (which starts with a zero byte, not
      the CONNECT opcode) and then fb's last two bytes, and both reads are
      dropped, so fb is lost. */
  lemma V3RequestFollowedByAnother(req: seq<byte>, notif: seq<byte>, fb: seq<byte>)
    requires NoNul(req) && NoNul(notif) && |fb| == CONNECT_REQUEST_SIZE
    ensures var frame := ClientApiV3.V3ConnectRequestFrame(req, notif);
      var rest := frame[CONNECT_REQUEST_SIZE..] + fb;
      var rs := [ConnectQueue.Got(frame[..CONNECT_REQUEST_SIZE]), ConnectQueue.Got(rest[..CONNECT_REQUEST_SIZE]),
                 ConnectQueue.Got(rest[CONNECT_REQUEST_SIZE..])];
      (forall i :: 0 <= i < |rs| ==> ConnectQueue.Fits(rs[i]))
      && ConnectQueue.Accepted(rs) == [ClientApi.ConnectRequestFrame(req, notif)]
  {
    var frame := ClientApiV3.V3ConnectRequestFrame(req, notif);
    ClientApiV3.V3ConnectRequestLayout(req, notif);
    ClientApi.ConnectRequestLayout(req, notif);
    var rest := frame[CONNECT_REQUEST_SIZE..] + fb;
    var rs := [ConnectQueue.Got(frame[..CONNECT_REQUEST_SIZE]), ConnectQueue.Got(rest[..CONNECT_REQUEST_SIZE]),
               ConnectQueue.Got(rest[CONNECT_REQUEST_SIZE..])];
    assert rest[0] == 0;
    assert |rest[CONNECT_REQUEST_SIZE..]| == 2;
    assert ConnectQueue.ListenerDecision(rs[1]) == ConnectQueue.Ignore;
    assert ConnectQueue.ListenerDecision(rs[2]) == ConnectQueue.Ignore;
    assert rs[1..][1..] == [rs[2]] && rs[1..][1..][1..] == [];
    assert ConnectQueue.Accepted(rs[1..][1..]) == [];
    assert ConnectQueue.Accepted(rs[1..]) == [];
    assert ConnectQueue.ListenerDecision(rs[0]) == ConnectQueue.Enqueue(frame[..CONNECT_REQUEST_SIZE]);
  }

  // ---------------------------------------------------------- CONNECT ack

  /** The ack the server writes is accepted by both clients, and a client
      accepts no other two-byte ack. */
  lemma AckRoundTrip(ack: seq<byte>)
    requires |ack| == 2
    ensures ClientApi.AckAccepted(ConnectQueue.ConnectAckFrame())
    ensures ClientApiV3.V3AckAccepted(ConnectQueue.ConnectAckFrame())
    ensures ClientApi.AckAccepted(ack) <==> ack == ConnectQueue.ConnectAckFrame()
    ensures ClientApiV3.V3AckAccepted(ack) <==> ack == ConnectQueue.ConnectAckFrame()
  {
    ClientApiV3.V3AckShortRead(ack);
    ClientApiV3.V3AckShortRead(ConnectQueue.ConnectAckFrame());
  }

  // --------------------------------------------------------- BOARD-UPDATE

  /** Decoding the header the server builds gives back its six ints, in both
      clients. */
  lemma HeaderRoundTrip(f: HeaderFields)
    ensures |ServerSession.BoardHeader(f)| == BOARD_HEADER_SIZE
    ensures ClientApi.DecodeBoardHeader(ServerSession.BoardHeader(f)) == f
    ensures ClientApiV3.V3DecodeHeader(ServerSession.BoardHeader(f)) == Some(f)
  {
    ServerSession.BoardHeaderLayout(f);
    Int32RoundTrip(f.width);
    Int32RoundTrip(f.height);
    Int32RoundTrip(f.tempo);
    Int32RoundTrip(f.victory);
    Int32RoundTrip(f.gameOver);
    Int32RoundTrip(f.score);
    ClientApiV3.V3DecodeAgreesWithBase(ServerSession.BoardHeader(f));
  }

  /** A BOARD-UPDATE the server writes in full (header, then a grid of
      width*height bytes), read by receive_board_update with every read
      delivering something, comes back as the same six ints and the same
      grid; whatever follows in the pipe is left for the next update. */
  lemma BoardUpdateRoundTrip(f: HeaderFields, grid: seq<byte>, later: seq<byte>, chunks: seq<int>)
    requires |grid| == (f.width as int) * (f.height as int)
    requires forall j :: 0 <= j < |chunks| ==> chunks[j] > 0
    ensures ClientApi.BoardUpdate(ServerSession.BoardHeader(f) + grid + later, chunks)
      == ClientApi.ClientBoard(f, Some(grid))
  {
    var incoming := ServerSession.BoardHeader(f) + grid + later;
    HeaderRoundTrip(f);
    ServerSession.BoardHeaderLayout(f);
    ClientApi.ReadAllPositiveReads(incoming, chunks, BOARD_HEADER_SIZE, 0, 0);
    assert incoming[..BOARD_HEADER_SIZE] == ServerSession.BoardHeader(f);
    var first := ClientApi.ReadAllRun(incoming, chunks, BOARD_HEADER_SIZE, 0, 0);
    var rest := incoming[BOARD_HEADER_SIZE..];
    assert rest == grid + later;
    var dropped := ClientApi.Drop(chunks, first.calls);
    assert forall j :: 0 <= j < |dropped| ==> dropped[j] > 0;
    ClientApi.ReadAllPositiveReads(rest, dropped, |grid|, 0, 0);
    assert rest[..|grid|] == grid;
  }

  /** A header whose width*height is negative carries no grid: the client
      returns the ints with data NULL. */
  lemma NegativeSizeHasNoGrid(f: HeaderFields, later: seq<byte>, chunks: seq<int>)
    requires (f.width as int) * (f.height as int) < 0
    requires forall j :: 0 <= j < |chunks| ==> chunks[j] > 0
    ensures ClientApi.BoardUpdate(ServerSession.BoardHeader(f) + later, chunks) == ClientApi.ClientBoard(f, None)
  {
    var incoming := ServerSession.BoardHeader(f) + later;
    HeaderRoundTrip(f);
    ServerSession.BoardHeaderLayout(f);
    ClientApi.ReadAllPositiveReads(incoming, chunks, BOARD_HEADER_SIZE, 0, 0);
    assert incoming[..BOARD_HEADER_SIZE] == ServerSession.BoardHeader(f);
  }

  /** The client's receiver thread, fed the update of a session, stops
      exactly when that session's game_over is set. */
  lemma ReceiverStopsOnGameOver(session: ServerSession.GameSession, grid: seq<byte>)
    requires |grid| == (session.width as int) * (session.height as int)
    ensures var b := ClientApi.ClientBoard(session.HeaderOf(), Some(grid));
      ClientMain.ReceiverStep(b) == ClientMain.StopReceiving <==> session.gameOver
  {
  }

  // ------------------------------------------------- PLAY and DISCONNECT

  /** What the input handler makes of each client's frames, delivered whole
      while the pacman is alive: PLAY hands its command to move_pacman (or
      ends the level as the move says), and both DISCONNECT frames end the
      game and clear active. */
  lemma ClientFramesThroughInputHandler(command: byte, move: MoveResult)
    ensures var e := InputHandler.InputEvent(true, InputHandler.Delivered(ClientApi.PlayFrame(command)), move);
      InputHandler.InputStep(e) ==
        if move == ReachedPortal then InputHandler.Exit(NEXT_LEVEL, false, false)
        else if move == DeadPacman then InputHandler.Exit(QUIT_GAME, false, true)
        else InputHandler.Continue(Some(command))
    ensures InputHandler.InputStep(InputHandler.InputEvent(true, InputHandler.Delivered(ClientApi.DisconnectFrame()), move))
      == InputHandler.Exit(QUIT_GAME, true, false)
    ensures InputHandler.InputStep(InputHandler.InputEvent(true, InputHandler.Delivered(ClientApiV3.V3DisconnectFrame()), move))
      == InputHandler.Exit(QUIT_GAME, true, false)
  {
    assert ClientApi.DisconnectFrame() == [OP_CODE_DISCONNECT, 0];
    assert ClientApiV3.V3DisconnectFrame() == [OP_CODE_DISCONNECT];
  }
}
