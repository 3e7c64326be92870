# Pipe Pac-Man: wire framing and decision logic

A Dafny model of the core of the Pac-Man server and client that talk through
named pipes (Infantehub/SO_proj25_2, written in C). The model covers two
parts.

The fixed-layout frames on the pipes:
- the CONNECT request: 81 bytes from the base client, 83 bytes from the v3 client;
- the CONNECT ack;
- the PLAY and DISCONNECT frames;
- the BOARD-UPDATE frame: a 25-byte header, then `width*height` grid bytes.

The sequential logic around those frames:
- the server's connect-request queue;
- the board-to-display translation;
- the input handler's outcome table;
- the level loop;
- the live top-5 report;
- the client's pipe paths, command loop and receiver stop rule;
- the `sleep_ms` unit conversion.

Modules, one per source component:

| module | file | models |
|---|---|---|
| `Bytes` | bytes.dfy | bytes, C ints, 4-byte little-endian ints, `memcpy`, `strncpy` |
| `Protocol` | protocol.dfy | opcodes, sizes, outcome codes, header fields |
| `GameBoard` | board.dfy | cells, `get_board_index`, the display glyph rule |
| `ServerSession` | server_session.dfy | the `GameSession` record, `translate_board_to_session`, `send_board_to_client` |
| `ConnectQueue` | connect_queue.dfy | the listener's validation, `connectbuf`, the worker's dequeue |
| `InputHandler` | input_handler.dfy | `input_handler_thread` |
| `LevelLoop` | level_loop.dfy | the level loop of `session_thread` |
| `Top5` | top5.dfy | `gerar_top5_pontuacoes` |
| `ClientApi` | client_api.dfy | `Client_base/src/client/api.c` |
| `ClientApiV3` | client_api_v3.dfy | `client-base-with-Makefile-v3/src/client/api.c` |
| `ClientMain` | client_main.dfy | `client_main.c` |
| `Timing` | timing.dfy | `sleep_ms` |
| `RoundTrips` | round_trips.dfy | how each writer's frames read back at the other end |

Modelling conventions:
- **Bytes.** A byte is an integer in [0, 256). A C `int` is the subset type `int32`.
- **Ints on the wire.** An int is four bytes, little-endian, two's complement. Server and client run on the same host, so only the fact that one fixed order is used matters.
- **Opcodes.** They come from `protocol.h`, which is not part of this model. They are distinct placeholder constants, and no proof depends on their values beyond that.
- **Reads.** A read from a pipe is modelled by two things: the bytes in the pipe, and the sequence of values the successive `read` calls return. A value ≤ 0 is an error or end of file. A positive value caps that call's chunk.
- **Other I/O results.** The results of other system calls, `move_pacman`'s move result, directory listings and whether `load_level` succeeds are given as parameters.

Three behaviours of the code are easy to misread; the model follows the code
in each:
- **v3's 83-byte CONNECT request.** A pipe read of at most 81 bytes takes the request in two pieces. The first piece is exactly the 81-byte base request, so the server accepts it. The two trailing zero bytes are then read and dropped. So the request is accepted when nothing else is queued behind it. A request that arrives before the two zeros are read is dropped: the next read is the two zeros followed by 79 of its bytes, and the read after that is its last two bytes. See `RoundTrips.V3RequestThroughListener` and `RoundTrips.V3RequestFollowedByAnother`.
- **Worker handshake failure.** A failed `open` or ack `write` in the worker returns from the worker thread (`return NULL`). It does not go back to waiting for the next request. The handshake's system calls are not part of this model.
- **The level loop's attempts.** When the input thread ends with any code other than NEXT_LEVEL or QUIT_GAME, the same level is played again. This happens after a read error, which returns CONTINUE_PLAY. The model gives each level a finite list of attempts. When the list runs out, the worker is marked `stalled`.

## Model

| member | source | states |
|---|---|---|
| Bytes.Int32RoundTrip | Server_base/src/server.c:213-218 | the 4 bytes `memcpy` copies out of an int decode back to that int |
| Bytes.Int32Unique | Client_base/src/client/api.c:186-191 | any 4 bytes read into an int re-encode to the same bytes, so int decoding is injective |
| Bytes.DecodeEncodeLE | Server_base/src/server.c:213-218 | little-endian encoding of a value below 256^n decodes back to it |
| Bytes.EncodeDecodeLE | Client_base/src/client/api.c:186-191 | decoding n bytes and re-encoding in n bytes gives the same bytes |
| Bytes.ZeroedRead | Server_base/src/server.c:123-124 | a zeroed buffer after one short read holds the delivered bytes, then zeros (the request buffer here, and the v3 client's ack buffer) |
| Bytes.StrNCpyField | Client_base/src/client/api.c:58-59 | `strncpy` into an n-byte field fills exactly n bytes |
| Bytes.StrNCpyThenCString | Server_base/src/server.c:380-381 | a NUL-free path shorter than the field, copied with `strncpy` and read back as a C string, is the same path |
| Bytes.CString | Server_base/src/server.c:380-381 | the C string of a field is a NUL-free prefix followed by a NUL or the end of the field |
| Bytes.MemCpy | Server_base/src/server.c:213 | the bytes at the offset become the source; all other bytes are unchanged |
| Bytes.StrNCpy | Client_base/src/client/api.c:58-59 | the n bytes at the offset become the `strncpy` field; all other bytes are unchanged |
| GameBoard.GridIndexInRange | Server_base/src/server.c:92-94 | every in-range (x, y) gives an index `y*width+x` below `width*height` |
| GameBoard.GridIndexBijective | Server_base/src/server.c:257-259 | `get_board_index` maps in-range coordinates one-to-one onto the grid; the inverse is (i mod width, i div width) |
| GameBoard.GlyphClassifies | Server_base/src/server.c:260-277 | each display character identifies its cell kind: wall, pacman and monster content win over the portal flag, the portal flag wins over the dot flag, and otherwise the cell is empty |
| GameBoard.DisplayGrid | Server_base/src/server.c:257-279 | the projected grid has one byte per cell |
| GameBoard.DisplayGridAt | Server_base/src/server.c:257-279 | the grid byte at `get_board_index(x, y)` is the glyph of cell (x, y) |
| ServerSession.BoardHeaderLayout | Server_base/src/server.c:201-218 | the header is 25 bytes: OP_CODE_BOARD at 0, then width, height, tempo, victory, game_over and score at offsets 1, 5, 9, 13, 17 and 21 |
| ServerSession.PutInt | Server_base/src/server.c:213 | one `memcpy` of an int at offset p appends its 4 bytes and keeps the bytes before p |
| ServerSession.BuildBoardHeader | Server_base/src/server.c:208-218 | the buffer built with the running offset `p` is exactly the 25-byte header |
| ServerSession.FillGrid | Server_base/src/server.c:257-279 | the nested y/x loops leave the grid equal to the display projection of every cell |
| ServerSession.GameSession.TranslateBoard | Server_base/src/server.c:251-290 | grid := display projection; score and position := those of pacmans[0]; game_over is raised iff pacmans[0] is dead, and never cleared |
| ServerSession.TranslateTwice | Server_base/src/server.c:251-290 | translating an unchanged board twice leaves the same grid and fields as translating it once |
| ServerSession.GameSession.SendBoardToClient | Server_base/src/server.c:199-248 | the header is written, then the grid only if the header write succeeded; 0 is returned iff both writes return n > 0, and any failed write clears active |
| ConnectQueue.ListenerAcceptsExactly | Server_base/src/server.c:598-622 | a read is queued iff it delivered exactly 81 bytes with OP_CODE_CONNECT first, and then the request itself is queued; only a non-EINTR failure stops the listener |
| ConnectQueue.AcceptedAreRequests | Server_base/src/server.c:612-619 | every queued entry is an 81-byte CONNECT request |
| ConnectQueue.RequestSplits | Server_base/src/server.c:379-381 | a request is its opcode, then the request path field (bytes 1..40), then the notification path field (bytes 41..80) |
| ConnectQueue.RequestQueue.OnListenerRead | Server_base/src/server.c:612-622 | a queued request lands in slot `users_queue_count` and the count grows by exactly 1; any other read leaves the queue unchanged |
| ConnectQueue.RequestQueue.Listen | Server_base/src/server.c:596-622 | over a run of reads, the queue gains exactly the accepted requests, in order; the loop stops iff some read failed other than by EINTR |
| ConnectQueue.RequestQueue.Dequeue | Server_base/src/server.c:356-364 | returns the oldest request, which is an 81-byte CONNECT request; the rest move down one slot in the same order, and the count drops by 1 |
| ConnectQueue.AcceptedStep | Server_base/src/server.c:598-622 | the requests queued from a run are those of its first read, followed by those of the rest, unless the first read stops the listener |
| ConnectQueue.ConnectAckFrame | Server_base/src/server.c:400-402 | the ack is the two bytes [OP_CODE_CONNECT, 0] |
| InputHandler.InputStepTable | Server_base/src/server.c:111-191 | the outcome table, in both directions: NEXT_LEVEL iff PLAY reached the portal; CONTINUE_PLAY iff the read failed; game_over is raised iff the read returned 0 or PLAY killed the pacman; active is cleared iff the pacman was dead at the loop head, the read failed or returned 0, or DISCONNECT arrived |
| InputHandler.ClientFramesHandled | Server_base/src/server.c:147-187 | [PLAY, c] hands c to `move_pacman`; both the two-byte and the one-byte DISCONNECT end with QUIT_GAME and clear active |
| InputHandler.RunInputStopsAtFirstExit | Server_base/src/server.c:111-191 | the loop leaves at the first turn that exits, with that turn's code and flag changes; every earlier turn went on |
| InputHandler.DeadPacmanStopsInput | Server_base/src/server.c:114-120 | a pacman dead at a loop head ends the loop at that turn at the latest |
| InputHandler.RunInputUnfold | Server_base/src/server.c:111-191 | a run from turn i is turn i followed by the run from turn i+1, unless turn i exits |
| InputHandler.HandleTurn | Server_base/src/server.c:114-190 | one turn changes active and game_over exactly as the outcome table says |
| InputHandler.InputHandlerThread | Server_base/src/server.c:98-196 | the return code and commands are those of the run; active is cleared and game_over raised only as the exiting turn says |
| LevelLoop.LastDot | Server_base/src/server.c:414 | `strrchr` finds the last '.', or reports that there is none |
| LevelLoop.IsLevelNameIffEndsWithLvl | Server_base/src/server.c:414-416 | the suffix from the last dot equals ".lvl" iff the name ends in ".lvl" |
| LevelLoop.CountLevelFiles | Server_base/src/server.c:410-420 | total_levels is the number of names whose suffix from the last dot is ".lvl", hidden names included |
| LevelLoop.PlayableCount | Server_base/src/server.c:433-439 | the levels the play loop can reach number at most the levels counted |
| LevelLoop.CountPlayableLevelFiles | Server_base/src/server.c:433-439 | the loop counts exactly the levels the play loop can reach |
| LevelLoop.PlayLevel | Server_base/src/server.c:447-530 | a level keeps the level index; it sets victory only at level number total with NEXT_LEVEL; it never clears game_over |
| LevelLoop.PlayAttempts | Server_base/src/server.c:447-530 | the inner loop on the session ends in the state the level's attempts determine |
| LevelLoop.PlayLevels | Server_base/src/server.c:429-537 | the outer loop on the session ends in the state the listing and the attempts determine |
| LevelLoop.ServeLevels | Server_base/src/server.c:410-537 | the corrected `session_thread` level phase: the count of reachable levels, then the level loop |
| LevelLoop.Decisive | Server_base/src/server.c:498-529 | the deciding attempt is the first one that ends in NEXT_LEVEL or QUIT_GAME |
| LevelLoop.PlayLevelOutcome | Server_base/src/server.c:494-529 | the deciding attempt's code becomes `result`. On NEXT_LEVEL its points become accumulated_points, and victory is set iff this is level number total. On QUIT_GAME game_over is set and the points stay. With no deciding attempt the worker stays in the level |
| LevelLoop.VictoryOnlyAtLastLevel | Server_base/src/server.c:498-509 | victory is declared only right after level number total_levels ended in NEXT_LEVEL |
| LevelLoop.LevelIdxBound | Server_base/src/server.c:433-445 | current_level_idx never exceeds the number of reachable levels |
| LevelLoop.HiddenLevelBlocksVictory | Server_base/src/server.c:410-439 | as written: if any hidden level name is in the directory, victory is never declared |
| LevelLoop.HiddenLevelExample | Server_base/src/server.c:410-439 | the listing [".hidden.lvl", "a.lvl"], with "a.lvl" won: no victory as written, victory with the corrected count |
| LevelLoop.LastPlayable | Server_base/src/server.c:433-439 | the index found is a playable level with no playable level after it; none is found only when no playable level follows |
| LevelLoop.LastPlayableExists | Server_base/src/server.c:433-439 | a last playable level exists iff the playable count of the rest of the listing is positive |
| LevelLoop.WinningEveryLevelWins | Server_base/src/server.c:433-509 | with the corrected count, in any listing, including ".", ".." and hidden or non-level names, winning every playable level declares victory at the last playable one, with that level's points |
| LevelLoop.WinningEveryLevelWinsFromStart | Server_base/src/server.c:430-509 | from the start of the loop, winning every playable level of a listing with at least one playable level ends in victory |
| LevelLoop.WonLevelUnfold | Server_base/src/server.c:439-517 | a playable level won at the first attempt advances the index and keeps the points, then goes on unless it was level number total |
| LevelLoop.SkipUnplayable | Server_base/src/server.c:433-439 | a name that is not a playable level leaves the loop state unchanged while the game runs |
| LevelLoop.FailedLoadBlocksVictory | Server_base/src/server.c:439-445 | ["a.lvl", "b.lvl"] with "a.lvl" failing to load and "b.lvl" won: the playable count is 2, and no victory is declared |
| Top5.CollectActive | Server_base/src/server.c:57-65 | the collected entries are exactly those of the non-NULL, active sessions, in slot order |
| Top5.SwapNext | Server_base/src/server.c:72-74 | entries j and j+1 are exchanged and nothing else changes |
| Top5.BubblePass | Server_base/src/server.c:69-76 | one inner pass moves the lowest of the first n entries to position n-1 and permutes the entries |
| Top5.BubbleSort | Server_base/src/server.c:68-77 | after sorting, scores are non-increasing and the entries are a permutation of the input |
| Top5.Top5Report | Server_base/src/server.c:46-90 | `ranked` is the active sessions' entries (a permutation) in non-increasing score order; the report is its first min(count, 5) entries |
| Top5.ReportIsTop | Server_base/src/server.c:81-86 | nobody left out of the report outscores anybody in it, and everybody reported holds an active session |
| Top5.SwapKeepsSettled | Server_base/src/server.c:70-75 | swapping two neighbours before the settled suffix keeps it settled |
| ClientApi.ReadCall | Client_base/src/client/api.c:27 | one `read` delivers no more than requested (`len-total`) and no more than the pipe holds |
| ClientApi.ReadAllRun | Client_base/src/client/api.c:24-32 | `read_all` returns 1 or -1; it returns 1 only if the pipe held len bytes |
| ClientApi.ReadAll | Client_base/src/client/api.c:24-32 | the bytes read are a prefix of the pipe and never more than len; it returns 1 iff exactly len bytes were read |
| ClientApi.ReadAllPositiveReads | Client_base/src/client/api.c:24-32 | when every read delivers something, `read_all` succeeds iff the pipe holds len bytes |
| ClientApi.ConnectRequestLayout | Client_base/src/client/api.c:54-59 | the request is 81 bytes. Byte 0 is OP_CODE_CONNECT. Bytes 1..40 and 41..80 hold the two paths, each followed by zeros to the end of its field |
| ClientApi.BuildConnectRequest | Client_base/src/client/api.c:54-59 | the zeroed buffer filled with the opcode and two `strncpy` calls is exactly the request frame |
| ClientApi.PacmanConnect | Client_base/src/client/api.c:34-113 | the request is written once the server pipe is open; 0 is returned iff every call succeeded, both ack bytes were read and they are [OP_CODE_CONNECT, 0], and 1 otherwise |
| ClientApi.PlayFrame | Client_base/src/client/api.c:118-122 | the PLAY frame is [OP_CODE_PLAY, command] |
| ClientApi.DisconnectFrame | Client_base/src/client/api.c:133-135 | the DISCONNECT frame is [OP_CODE_DISCONNECT, 0] |
| ClientApi.DisconnectResult | Client_base/src/client/api.c:138-164 | `pacman_disconnect` returns 0 iff the write and both closes succeeded, and 1 otherwise |
| ClientApi.ReadHeaderFields | Client_base/src/client/api.c:179-191 | reading the six ints with the advancing offset `off` gives the fields at offsets 1, 5, 9, 13, 17, 21 |
| ClientApi.ReceiveBoardUpdate | Client_base/src/client/api.c:167-210 | a failed header read or a wrong opcode gives the all-zero board with no data. A negative size or a failed grid read gives the fields with no data. Otherwise the data is exactly the next width*height bytes |
| ClientApiV3.V3ConnectRequestLayout | client-base-with-Makefile-v3/src/client/api.c:34-39 | the v3 request is 83 bytes, never 81. Its first 81 bytes are the base request, and bytes 81 and 82 are zero |
| ClientApiV3.BuildV3ConnectRequest | client-base-with-Makefile-v3/src/client/api.c:34-39 | the zeroed 83-byte buffer filled in place is exactly the v3 request frame |
| ClientApiV3.V3PacmanConnect | client-base-with-Makefile-v3/src/client/api.c:23-80 | 0 is returned, and the request pipe opened, iff every call succeeded and the ack buffer is [OP_CODE_CONNECT, 0] |
| ClientApiV3.V3AckShortRead | client-base-with-Makefile-v3/src/client/api.c:69-73 | a one-byte read of the opcode alone is accepted; an empty read is rejected; a full read is judged as the base client judges it |
| ClientApiV3.V3PlayFrame | client-base-with-Makefile-v3/src/client/api.c:85-89 | the v3 PLAY frame is the base client's [OP_CODE_PLAY, command] |
| ClientApiV3.V3DisconnectFrame | client-base-with-Makefile-v3/src/client/api.c:99-100 | the v3 DISCONNECT frame is the single opcode byte, the first byte of the base frame |
| ClientApiV3.V3DecodeAgreesWithBase | client-base-with-Makefile-v3/src/client/api.c:136-145 | the v3 decoder rejects exactly the headers whose first byte is not OP_CODE_BOARD, and otherwise reads the same six ints as the base decoder |
| ClientMain.SnPrintfBounded | Client_base/src/client/client_main.c:100-104 | `snprintf` into 40 bytes keeps the first min(39, length) characters of the formatted string |
| ClientMain.PipePathsBounded | Client_base/src/client/client_main.c:97-104 | both paths are NUL-free, shorter than 40 and start with "/tmp/"; each is a prefix of "/tmp/<id>_request" or "/tmp/<id>_notification", and equals it when it fits |
| ClientMain.CommandsAreFiltered | Client_base/src/client/client_main.c:150-155 | no command is a line break or NUL, none is lower case, and there are no more commands than characters |
| ClientMain.CommandsOfPrefix | Client_base/src/client/client_main.c:140-155 | the commands of the start of the file are the first commands of the whole file |
| ClientMain.CommandsStep | Client_base/src/client/client_main.c:142-155 | each character read adds its own command, or none |
| ClientMain.CommandLoop | Client_base/src/client/client_main.c:131-182 | without 'Q': the PLAY commands sent are the file's filtered, upper-cased commands, repeated once per rewind, then those of the current pass. A 'Q' ends the loop during the first pass with nothing sent for it. 'Q' is never sent |
| ClientMain.QuitKeyInFile | Client_base/src/client/client_main.c:170-176 | a character that upper-cases to 'Q' puts 'Q' among the file's commands |
| ClientMain.RepeatAvoids | Client_base/src/client/client_main.c:144-148 | a command absent from the file is absent after any number of rewinds |
| ClientMain.CommandsCycle | Client_base/src/client/client_main.c:144-148 | command k sent is the file's command number k mod (number of commands) |
| ClientMain.RepeatAt | Client_base/src/client/client_main.c:144-148 | position k of the repeated commands holds command k mod their count |
| ClientMain.ReceiverStep | Client_base/src/client/client_main.c:29-41 | the receiver stops iff data is NULL or game_over is 1; otherwise it adopts the board's tempo |
| ClientMain.ReceiverLoop | Client_base/src/client/client_main.c:19-52 | the receiver draws the updates up to the first one the rule rejects and stops there; tempo is that of the last update drawn |
| Timing.SleepMs | Server_base/src/debug.c:51-56 | seconds × 1000 + nanoseconds / 10^6 gives back the delay. Seconds are the delay in whole seconds rounded toward zero. Nanoseconds lie in [0, 999000000] for a non-negative delay and in [-999000000, 0] for a negative one |
| Timing.SleepMsValid | Server_base/src/debug.c:51-56 | the timespec is valid iff the delay is non-negative, and tv_nsec always fits in an int |
| Timing.SleepMsInjective | Server_base/src/debug.c:51-56 | distinct delays give distinct timespecs |
| RoundTrips.ConnectRequestRoundTrip | Server_base/src/server.c:612-613 | the base client's request for two paths shorter than 40 bytes is queued, and the worker's two fields read back as exactly those paths |
| RoundTrips.ClientPathsReachServer | Client_base/src/client/client_main.c:100-104 | the paths the client derives from its id are queued and read back intact |
| RoundTrips.V3RequestThroughListener | Server_base/src/server.c:598-622 | the v3 request alone in the pipe, read as 81 bytes and then 2, queues exactly the base request |
| RoundTrips.V3RequestFollowedByAnother | Server_base/src/server.c:598-622 | when an 81-byte request follows the v3 request before its trailer is read, only the base request is queued and the second request is lost |
| RoundTrips.AckRoundTrip | Server_base/src/server.c:400-402 | both clients accept the server's ack, and no other 2-byte ack |
| RoundTrips.HeaderRoundTrip | Client_base/src/client/api.c:186-191 | both clients decode the server's header back to the same six ints |
| RoundTrips.BoardUpdateRoundTrip | Client_base/src/client/api.c:167-210 | a full BOARD-UPDATE from the server reads back as the same ints and grid, whatever the read sizes |
| RoundTrips.NegativeSizeHasNoGrid | Client_base/src/client/api.c:196-207 | a header with negative width*height yields the ints and no data |
| RoundTrips.ReceiverStopsOnGameOver | Client_base/src/client/client_main.c:29-37 | the receiver stops on a session's update iff its game_over is set |
| RoundTrips.ClientFramesThroughInputHandler | Server_base/src/server.c:147-187 | the input handler's response to each client frame: PLAY hands on its command or ends the level as the move says; both DISCONNECT frames end the game |

## Left out

- Threads, mutexes, the rwlock and the semaphore are not modelled. This covers `ghost_thread`, `send_board_thread`'s timing loop, `ncurses_thread` and the receiver's loop mechanics. Each operation is modelled as a sequential step on its data.
- Pipe and filesystem calls are not modelled: `mkfifo`, `open`, `write`, `close`, `unlink`, `opendir`/`readdir`, and writing `top5_scores.txt`. Their results are parameters, a directory is a list of names, and the report is the returned list.
- SIGUSR1 handling and its flag are not modelled. The signal only triggers the top-5 report.
- `move_pacman`, `move_ghost`, `load_level`, `unload_level`, `draw_board*`, `get_input` and `board.h` are not part of this model. The move result and whether a level loads are inputs. A cell is its content character plus portal and dot flags.
- malloc/free pairing is not modelled, including the leak of `buffer` after a failed write in `send_board_to_client` and the "allocate the grid only if NULL" rule. Allocation never fails in the model, so it omits one path: a failed malloc in `send_board_to_client` returns 1 without clearing `active`. The grid is an array of the board's size.
- ServerSession.GameSession.TranslateBoard: requires the session's width and height to match the board, and requires at least one pacman. The code reads pacmans[0] unconditionally.
- ConnectQueue.RequestQueue.OnListenerRead: requires a free slot before an enqueue. The code does not check the 512-slot bound of `connectbuf`.
- ConnectQueue.RequestQueue.Listen: requires that the requests accepted fit in the free slots, for the same reason.
- The worker's handshake after dequeueing is not modelled: opening the two client pipes, writing the ack, and returning from the thread when one of these fails. Only the path fields it reads and the ack bytes it writes are modelled.
- The final board sent on victory (`translate_board_to_session` and `send_board_to_client` inside the level loop) is not part of the level-loop model. Each of those two operations is modelled on its own.
- LevelLoop.WinningEveryLevelWins: the corrected count fixes only hidden level names. A playable level that fails to load is skipped and not counted, so victory is still never declared in that case (LevelLoop.FailedLoadBlocksVictory). The model keeps that behaviour of the code.
- LevelLoop.PlayLevels: `result` is uninitialised in C until a level has been played. It is modelled as None.
- LevelLoop.PlayAttempts: a level whose attempts all end in CONTINUE_PLAY would be replayed forever. The model stops when the given attempts run out, with `stalled` set.
- Top5.BubbleSort: the order among tied scores is not stated. The C pass swaps only on a strict `<`, so it keeps tied entries in their original order. The model promises only a non-increasing permutation.
- ClientApi.ReceiveBoardUpdate: the C product `width*height` is an int and can overflow. The model computes it on unbounded integers. A malloc failure is not modelled.
- The v3 client's undefined paths are not modelled: `return;` in a function returning `Board`, the `memcpy` into an uninitialised `board.data`, and the ignored result of the first `read`. So the v3 `receive_board_update` is modelled only as its header check and decode (ClientApiV3.V3DecodeHeader).
- ClientApiV3.V3PacmanConnect: the request pipe it opens uses `session.req_pipe_path`, which the v3 client never sets. The model reports only whether that `open` is attempted.
- ClientMain.CommandLoop: the receiver's `stop_execution` flag is modelled by `stopAt`, the turn at which the flag is first seen set. Interactive input (`get_input`) is not modelled. Sleeping for the tempo between commands is not modelled.
- ClientMain.ToUpper: `toupper` is modelled in the C locale on byte values. It does not model `char` being signed, or `toupper` of a negative value.
- The `debug()` logging is not modelled, and neither is the `nanosleep` inside `sleep_ms`.
- `dummy_server.c` is not part of this model. It is a manual test stub using types not defined in the shown files.

## Findings

| source | as written | input that shows it | evidently intended | confidence | as-written member | corrected member |
|---|---|---|---|---|---|---|
| Server_base/src/server.c:410-439 | `total_levels` counts every name whose suffix is ".lvl", including names starting with '.'. The play loop skips those names, so `current_level_idx` can never reach `total_levels`, and victory is never declared | a level directory listing [".hidden.lvl", "a.lvl"] with "a.lvl" won: total_levels is 2 but only one level is played, so victory stays 0 | count only the names the play loop can reach (LevelLoop.CountPlayableLevelFiles, used by LevelLoop.ServeLevels), so that winning the last reachable level declares victory | medium, not executed | LevelLoop.HiddenLevelBlocksVictory | LevelLoop.WinningEveryLevelWins |
