/** The input-handler thread's decision logic (input_handler_thread in
    server.c): per loop turn it checks the pacman, reads one request of up
    to two bytes, and either goes on, moves the pacman or leaves with a
    return code, updating the session's active and game_over flags. */
module InputHandler {
  import opened Bytes
  import opened Protocol
  import ServerSession

  /** One read of the request pipe into the zeroed two-byte buffer: the bytes
      delivered (none when read returned 0) or a failure. */
  datatype RequestRead = Delivered(bytes: seq<byte>) | ReadError

  /** What one loop turn sees: whether pacmans[0] is alive at the top of the
      loop, what the read returns, and what move_pacman reports should it be
      called (the move itself happens outside this model). */
  datatype InputEvent = InputEvent(pacmanAlive: bool, read: RequestRead, move: MoveResult)

  /** A read the two-byte buffer can take. */
  predicate WellSized(e: InputEvent)
  {
    e.read.Delivered? ==> |e.read.bytes| <= 2
  }

  /** The outcome of one loop turn: go round again (`command` is the byte
      handed to move_pacman, if any), or leave the loop with a return code and
      the flag changes made on the way out. */
  datatype Step =
    | Continue(command: Option<byte>)
    | Exit(retval: int, clearsActive: bool, setsGameOver: bool)

  /** One turn of the loop. */
  function InputStep(e: InputEvent): Step
    requires WellSized(e)
  {
    if !e.pacmanAlive then Exit(QUIT_GAME, true, false)
    else match e.read
      case ReadError => Exit(CONTINUE_PLAY, true, false)
      case Delivered(bytes) =>
        if |bytes| == 0 then Exit(QUIT_GAME, true, true)
        else
          var buf := ZeroedRead(bytes, 2);
          if buf[0] == OP_CODE_DISCONNECT then Exit(QUIT_GAME, true, false)
          else if buf[0] == OP_CODE_PLAY then
            if e.move == ReachedPortal then Exit(NEXT_LEVEL, false, false)
            else if e.move == DeadPacman then Exit(QUIT_GAME, false, true)
            else Continue(Some(buf[1]))
          else Continue(None)
  }

  /** The outcome table, read backwards: which turns end the loop with which
      code, and which turns clear active or raise game_over. */
  lemma InputStepTable(e: InputEvent)
    requires WellSized(e)
    ensures InputStep(e).Exit? && InputStep(e).retval == NEXT_LEVEL <==>
      e.pacmanAlive && e.read.Delivered? && |e.read.bytes| > 0
      && e.read.bytes[0] == OP_CODE_PLAY && e.move == ReachedPortal
    ensures InputStep(e).Exit? && InputStep(e).retval == CONTINUE_PLAY <==>
      e.pacmanAlive && e.read == ReadError
    ensures InputStep(e).Exit? && InputStep(e).setsGameOver <==>
      e.pacmanAlive && e.read.Delivered? &&
      (|e.read.bytes| == 0 || (e.read.bytes[0] == OP_CODE_PLAY && e.move == DeadPacman))
    ensures InputStep(e).Exit? && InputStep(e).clearsActive <==>
      !e.pacmanAlive || e.read == ReadError ||
      (e.read.Delivered? && (|e.read.bytes| == 0 || e.read.bytes[0] == OP_CODE_DISCONNECT))
    ensures InputStep(e).Exit? ==>
      InputStep(e).retval in {CONTINUE_PLAY, NEXT_LEVEL, QUIT_GAME}
  {
  }

  /** The frames both clients send are handled as intended: PLAY moves the
      pacman with the command byte; the two-byte and the one-byte DISCONNECT
      both end the loop with QUIT_GAME and clear active. */
  lemma ClientFramesHandled(alive: bool, command: byte, move: MoveResult)
    ensures alive && move != ReachedPortal && move != DeadPacman ==>
      InputStep(InputEvent(alive, Delivered([OP_CODE_PLAY, command]), move)) == Continue(Some(command))
    ensures alive ==>
      InputStep(InputEvent(alive, Delivered([OP_CODE_DISCONNECT, 0]), move)) == Exit(QUIT_GAME, true, false)
    ensures alive ==>
      InputStep(InputEvent(alive, Delivered([OP_CODE_DISCONNECT]), move)) == Exit(QUIT_GAME, true, false)
  {
  }

  /** What the loop does with a run of turns: the code it left with (None
      if it is still running when the run ends), the flag changes on the way
      out, the commands handed to move_pacman and the turns used. */
  datatype InputRun = InputRun(
    retval: Option<int>, clearsActive: bool, setsGameOver: bool,
    commands: seq<byte>, turns: nat)

  function RunInput(events: seq<InputEvent>): (r: InputRun)
    requires forall i :: 0 <= i < |events| ==> WellSized(events[i])
    ensures r.turns <= |events|
    ensures r.retval.None? ==> r.turns == |events| && !r.clearsActive && !r.setsGameOver
  {
    if events == [] then InputRun(None, false, false, [], 0)
    else match InputStep(events[0])
      case Exit(retval, clears, sets) => InputRun(Some(retval), clears, sets, [], 1)
      case Continue(command) =>
        var rest := RunInput(events[1..]);
        var sent := if command.Some? then [command.value] else [];
        rest.(commands := sent + rest.commands, turns := rest.turns + 1)
  }

  /** The loop leaves at the first turn that exits, with that turn's code
      and flag changes; every turn before it went on. */
  lemma {:induction false} RunInputStopsAtFirstExit(events: seq<InputEvent>)
    requires forall i :: 0 <= i < |events| ==> WellSized(events[i])
    ensures var r := RunInput(events);
      r.retval.Some? ==>
        1 <= r.turns && InputStep(events[r.turns - 1]).Exit?
        && InputStep(events[r.turns - 1]) == Exit(r.retval.value, r.clearsActive, r.setsGameOver)
        && forall j :: 0 <= j < r.turns - 1 ==> InputStep(events[j]).Continue?
    ensures RunInput(events).retval.None? ==> forall j :: 0 <= j < |events| ==> InputStep(events[j]).Continue?
  {
    if events != [] && InputStep(events[0]).Continue? {
      RunInputStopsAtFirstExit(events[1..]);
      var r := RunInput(events);
      assert forall j :: 1 <= j < r.turns ==> events[j] == events[1..][j - 1];
    }
  }

  /** A pacman dead at the top of the loop is never moved again: the loop
      leaves at that turn at the latest. */
  lemma {:induction false} DeadPacmanStopsInput(events: seq<InputEvent>, k: nat)
    requires forall i :: 0 <= i < |events| ==> WellSized(events[i])
    requires k < |events| && !events[k].pacmanAlive
    ensures RunInput(events).retval.Some? && RunInput(events).turns <= k + 1
  {
    if k > 0 && InputStep(events[0]).Continue? {
      DeadPacmanStopsInput(events[1..], k - 1);
    }
  }

  /** RunInput from turn i, one turn unrolled. */
  lemma RunInputUnfold(events: seq<InputEvent>, i: nat)
    requires forall k :: 0 <= k < |events| ==> WellSized(events[k])
    requires i < |events|
    ensures InputStep(events[i]).Exit? ==>
      RunInput(events[i..]) == InputRun(Some(InputStep(events[i]).retval), InputStep(events[i]).clearsActive,
                                        InputStep(events[i]).setsGameOver, [], 1)
    ensures InputStep(events[i]).Continue? ==>
      var c := InputStep(events[i]).command;
      RunInput(events[i..]).retval == RunInput(events[i + 1..]).retval
      && RunInput(events[i..]).clearsActive == RunInput(events[i + 1..]).clearsActive
      && RunInput(events[i..]).setsGameOver == RunInput(events[i + 1..]).setsGameOver
      && RunInput(events[i..]).commands == (if c.Some? then [c.value] else []) + RunInput(events[i + 1..]).commands
  {
    assert events[i..][0] == events[i];
    assert events[i..][1..] == events[i + 1..];
  }

  /** One turn of input_handler_thread's loop on a session: the flags are
      changed as InputStep says, and `step` is that turn's outcome. */
  method HandleTurn(session: ServerSession.GameSession, e: InputEvent) returns (step: Step)
    requires WellSized(e)
    modifies session`active, session`gameOver
    ensures step == InputStep(e)
    ensures session.active == (old(session.active) && !(step.Exit? && step.clearsActive))
    ensures session.gameOver == (old(session.gameOver) || (step.Exit? && step.setsGameOver))
  {
    if !e.pacmanAlive {
      session.active := false;
      return Exit(QUIT_GAME, true, false);
    }
    if e.read.ReadError? {
      session.active := false;
      return Exit(CONTINUE_PLAY, true, false);
    }
    var bytes := e.read.bytes;
    if |bytes| == 0 {
      session.active := false;
      session.gameOver := true;
      return Exit(QUIT_GAME, true, true);
    }
    var buf := ZeroedRead(bytes, 2);
    var opcode := buf[0];
    if opcode == OP_CODE_DISCONNECT {
      session.active := false;
      return Exit(QUIT_GAME, true, false);
    }
    if opcode == OP_CODE_PLAY {
      var command := buf[1];
      if e.move == ReachedPortal {
        return Exit(NEXT_LEVEL, false, false);
      }
      if e.move == DeadPacman {
        session.gameOver := true;
        return Exit(QUIT_GAME, false, true);
      }
      return Continue(Some(command));
    }
    step := Continue(None);
  }

  /** input_handler_thread over a run of turns on a session: the return code
      and commands of RunInput; active is cleared and game_over raised as the
      exiting turn says, and otherwise left alone. */
  method InputHandlerThread(session: ServerSession.GameSession, events: seq<InputEvent>)
    returns (retval: Option<int>, commands: seq<byte>)
    requires forall i :: 0 <= i < |events| ==> WellSized(events[i])
    modifies session`active, session`gameOver
    ensures retval == RunInput(events).retval && commands == RunInput(events).commands
    ensures session.active == (old(session.active) && !RunInput(events).clearsActive)
    ensures session.gameOver == (old(session.gameOver) || RunInput(events).setsGameOver)
  {
    retval := None;
    commands := [];
    var i := 0;
    while i < |events|
      invariant 0 <= i <= |events|
      invariant session.active == old(session.active) && session.gameOver == old(session.gameOver)
      invariant RunInput(events).retval == RunInput(events[i..]).retval
      invariant RunInput(events).clearsActive == RunInput(events[i..]).clearsActive
      invariant RunInput(events).setsGameOver == RunInput(events[i..]).setsGameOver
      invariant RunInput(events).commands == commands + RunInput(events[i..]).commands
    {
      RunInputUnfold(events, i);
      var step := HandleTurn(session, events[i]);
      if step.Exit? {
        retval := Some(step.retval);
        return;
      }
      if step.command.Some? {
        commands := commands + [step.command.value];
      }
      i := i + 1;
    }
  }
}
