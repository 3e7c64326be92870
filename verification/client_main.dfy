/** The reference client's main program (client_main.c): the pipe paths it
    derives from the client id, the command loop over a commands file and the
    receiver thread's stop rule. Terminal drawing and interactive input are
    not modelled. */
module ClientMain {
  import opened Bytes
  import opened Protocol
  import ClientApi
  import GameBoard

  // ------------------------------------------------------------ pipe paths

  /** The bytes of a string literal of the program (all ASCII). */
  function Ascii(s: string): (b: seq<byte>)
    requires forall i :: 0 <= i < |s| ==> s[i] as int < 256
    ensures |b| == |s|
  {
    seq(|s|, i requires 0 <= i < |s| => s[i] as int)
  }

  /** snprintf(buf, MAX_PIPE_PATH_LENGTH, …) of an already formatted string:
      the C string left in the buffer. */
  function SnPrintfBounded(formatted: seq<byte>): (p: seq<byte>)
    ensures |p| == Min(MAX_PIPE_PATH_LENGTH - 1, |formatted|)
    ensures p <= formatted
  {
    if |formatted| < MAX_PIPE_PATH_LENGTH then formatted else formatted[..MAX_PIPE_PATH_LENGTH - 1]
  }

  /** "/tmp/<id>_request", bounded to the 40-byte buffer. */
  function RequestPipePath(clientId: seq<byte>): seq<byte>
  {
    SnPrintfBounded(Ascii("/tmp/") + clientId + Ascii("_request"))
  }

  /** "/tmp/<id>_notification", bounded to the 40-byte buffer. */
  function NotifPipePath(clientId: seq<byte>): seq<byte>
  {
    SnPrintfBounded(Ascii("/tmp/") + clientId + Ascii("_notification"))
  }

  /** Both paths are C strings (a command-line argument holds no NUL) of at
      most 39 characters: they start with "/tmp/" followed by the id, or as
      much of it as fits, and the full name when it fits in 39 bytes. */
  lemma PipePathsBounded(clientId: seq<byte>)
    requires NoNul(clientId)
    ensures NoNul(RequestPipePath(clientId)) && |RequestPipePath(clientId)| < MAX_PIPE_PATH_LENGTH
    ensures NoNul(NotifPipePath(clientId)) && |NotifPipePath(clientId)| < MAX_PIPE_PATH_LENGTH
    ensures RequestPipePath(clientId) <= Ascii("/tmp/") + clientId + Ascii("_request")
    ensures NotifPipePath(clientId) <= Ascii("/tmp/") + clientId + Ascii("_notification")
    ensures |clientId| <= 26 ==> RequestPipePath(clientId) == Ascii("/tmp/") + clientId + Ascii("_request")
    ensures |clientId| <= 21 ==> NotifPipePath(clientId) == Ascii("/tmp/") + clientId + Ascii("_notification")
    ensures RequestPipePath(clientId)[..5] == NotifPipePath(clientId)[..5] == Ascii("/tmp/")
  {
    var req := Ascii("/tmp/") + clientId + Ascii("_request");
    var notif := Ascii("/tmp/") + clientId + Ascii("_notification");
    assert NoNul(req) && NoNul(notif);
    assert RequestPipePath(clientId)[..5] == req[..5];
    assert NotifPipePath(clientId)[..5] == notif[..5];
  }

  // ---------------------------------------------------------- command loop

  const NEWLINE: byte := 10
  const CARRIAGE_RETURN: byte := 13
  const QUIT_KEY: byte := 'Q' as int

  /** toupper in the C locale. */
  function ToUpper(c: byte): byte
  {
    if 'a' as int <= c <= 'z' as int then c - 32 else c
  }

  /** What one character of the commands file contributes: nothing for a
      line break or NUL, else its upper-case form. */
  function Command(c: byte): seq<byte>
  {
    if c == NEWLINE || c == CARRIAGE_RETURN || c == 0 then [] else [ToUpper(c)]
  }

  /** The commands a stretch of the file yields, in file order. */
  function Commands(s: seq<byte>): seq<byte>
  {
    if s == [] then [] else Commands(s[..|s| - 1]) + Command(s[|s| - 1])
  }

  /** Every command is upper case and never a line break or NUL, and there
      are at most as many commands as characters. */
  lemma {:induction false} CommandsAreFiltered(s: seq<byte>)
    ensures |Commands(s)| <= |s|
    ensures forall k :: 0 <= k < |Commands(s)| ==>
      Commands(s)[k] !in {NEWLINE, CARRIAGE_RETURN, 0}
      && !('a' as int <= Commands(s)[k] <= 'z' as int)
  {
    if s != [] {
      CommandsAreFiltered(s[..|s| - 1]);
    }
  }

  /** The commands of a stretch starting at the beginning of the file are
      the first commands of the whole file. */
  lemma {:induction false} CommandsOfPrefix(s: seq<byte>, p: nat)
    requires p <= |s|
    ensures Commands(s[..p]) <= Commands(s)
    decreases |s|
  {
    if p < |s| {
      assert s[..p] == s[..|s| - 1][..p];
      CommandsOfPrefix(s[..|s| - 1], p);
    } else {
      assert s[..p] == s;
    }
  }

  /** One more character of the file adds its command. */
  lemma CommandsStep(file: seq<byte>, pos: nat)
    requires pos < |file|
    ensures Commands(file[..pos + 1]) == Commands(file[..pos]) + Command(file[pos])
  {
    assert file[..pos + 1][..pos] == file[..pos];
  }

  /** `n` copies of `c` back to back: the file read n times over. */
  function Repeat(c: seq<byte>, n: nat): (r: seq<byte>)
    ensures |r| == n * |c|
  {
    if n == 0 then [] else Repeat(c, n - 1) + c
  }

  /** The file-mode command loop, with the receiver's stop flag first seen
      set at turn `stopAt` (every turn counts, EOF ones included). At EOF
      the file is rewound (`laps` counts the rewinds); line breaks and NULs
      are skipped; a 'Q' ends the loop with nothing sent; every other
      character is sent upper-cased in one PLAY. `sent` lists the PLAY
      commands. */
  method CommandLoop(file: seq<byte>, stopAt: nat) returns (sent: seq<byte>, quit: bool, laps: nat, pos: nat)
    ensures pos <= |file|
    ensures !quit ==> sent == Repeat(Commands(file), laps) + Commands(file[..pos])
    ensures quit ==> 0 < pos && ToUpper(file[pos - 1]) == QUIT_KEY && laps == 0 && sent == Commands(file[..pos - 1])
    ensures QUIT_KEY !in sent
    ensures laps > 0 ==> QUIT_KEY !in Commands(file)
  {
    sent, quit, laps, pos := [], false, 0, 0;
    var turn := 0;
    while turn < stopAt
      invariant pos <= |file|
      invariant sent == Repeat(Commands(file), laps) + Commands(file[..pos])
      invariant QUIT_KEY !in Commands(file[..pos])
      invariant laps > 0 ==> QUIT_KEY !in Commands(file)
    {
      turn := turn + 1;
      if pos == |file| {
        assert file[..pos] == file;
        assert Repeat(Commands(file), laps + 1) == Repeat(Commands(file), laps) + Commands(file);
        pos := 0;
        laps := laps + 1;
        assert file[..pos] == [];
        continue;
      }
      var ch := file[pos];
      CommandsStep(file, pos);
      pos := pos + 1;
      if ch == NEWLINE || ch == CARRIAGE_RETURN || ch == 0 {
        continue;
      }
      var command := ToUpper(ch);
      if command == QUIT_KEY {
        quit := true;
        QuitKeyInFile(file, pos);
        return;
      }
      sent := sent + [command];
    }
    RepeatAvoids(Commands(file), laps, QUIT_KEY);
  }

  /** A character of the file that yields 'Q' makes 'Q' one of its commands. */
  lemma QuitKeyInFile(file: seq<byte>, pos: nat)
    requires 0 < pos <= |file| && Command(file[pos - 1]) == [QUIT_KEY]
    ensures QUIT_KEY in Commands(file)
  {
    CommandsOfPrefix(file, pos);
    assert file[..pos][..pos - 1] == file[..pos - 1];
    assert Commands(file[..pos]) == Commands(file[..pos - 1]) + [QUIT_KEY];
    assert Commands(file)[|Commands(file[..pos])| - 1] == QUIT_KEY;
  }

  /** A byte absent from the file's commands is absent from any number of
      repetitions of them. */
  lemma {:induction false} RepeatAvoids(c: seq<byte>, n: nat, x: byte)
    requires n > 0 ==> x !in c
    ensures x !in Repeat(c, n)
  {
    if n > 0 {
      RepeatAvoids(c, n - 1, x);
    }
  }

  /** The commands sent are the file's commands, repeated cyclically:
      command number k is the file's command number k mod their count. */
  lemma CommandsCycle(file: seq<byte>, laps: nat, pos: nat, k: nat)
    requires pos <= |file| && Commands(file) != []
    requires k < |Repeat(Commands(file), laps) + Commands(file[..pos])|
    ensures (Repeat(Commands(file), laps) + Commands(file[..pos]))[k] == Commands(file)[k % |Commands(file)|]
  {
    var c := Commands(file);
    CommandsOfPrefix(file, pos);
    if k < laps * |c| {
      RepeatAt(c, laps, k);
    } else {
      var r := k - laps * |c|;
      assert r < |Commands(file[..pos])| <= |c|;
      GameBoard.DivModUnique(k, |c|, laps, r);
    }
  }

  /** Inside the repeated file, position k holds command k mod the count. */
  lemma {:induction false} RepeatAt(c: seq<byte>, n: nat, k: nat)
    requires |c| > 0 && k < n * |c|
    ensures Repeat(c, n)[k] == c[k % |c|]
  {
    if k < (n - 1) * |c| {
      RepeatAt(c, n - 1, k);
    } else {
      GameBoard.DivModUnique(k, |c|, n - 1, k - (n - 1) * |c|);
    }
  }

  // ----------------------------------------------------- receiver thread

  /** What the receiver thread does with one update. */
  datatype ReceiverAction = StopReceiving | Redraw(tempo: int32)

  /** The receiver's rule: stop (and set stop_execution) when the update
      has no grid or game_over is 1; otherwise adopt its tempo and draw it. */
  function ReceiverStep(b: ClientApi.ClientBoard): (a: ReceiverAction)
    ensures a == StopReceiving <==> b.data.None? || b.fields.gameOver == 1
    ensures a.Redraw? ==> a.tempo == b.fields.tempo
  {
    if b.data.None? || b.fields.gameOver == 1 then StopReceiving else Redraw(b.fields.tempo)
  }

  /** The receiver loop over the updates that arrive: it stops at the first
      update the rule rejects; `tempo` is the last tempo adopted, `stopped`
      tells whether stop_execution was set. */
  method ReceiverLoop(updates: seq<ClientApi.ClientBoard>, tempo0: int32)
    returns (stopped: bool, tempo: int32, drawn: nat)
    ensures drawn <= |updates|
    ensures forall k :: 0 <= k < drawn ==> ReceiverStep(updates[k]).Redraw?
    ensures stopped <==> drawn < |updates|
    ensures stopped ==> ReceiverStep(updates[drawn]) == StopReceiving
    ensures tempo == if drawn == 0 then tempo0 else updates[drawn - 1].fields.tempo
  {
    stopped, tempo, drawn := false, tempo0, 0;
    while drawn < |updates|
      invariant drawn <= |updates|
      invariant forall k :: 0 <= k < drawn ==> ReceiverStep(updates[k]).Redraw?
      invariant tempo == if drawn == 0 then tempo0 else updates[drawn - 1].fields.tempo
    {
      var board := updates[drawn];
      if board.data.None? || board.fields.gameOver == 1 {
        stopped := true;
        return;
      }
      tempo := board.fields.tempo;
      drawn := drawn + 1;
    }
  }
}
