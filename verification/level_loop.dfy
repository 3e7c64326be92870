/** The session worker's level loop (session_thread in server.c): count the
    level files, then walk the directory, play each level until its input
    thread reports NEXT_LEVEL or QUIT_GAME, carry the points forward and
    decide victory or game over.

    A directory listing is a sequence of names. What happens to a name the
    loop reaches is given beside it: whether load_level succeeds and how the
    successive attempts at the level end (the threads are not modelled). */
module LevelLoop {
  import opened Protocol
  import opened Bytes
  import ServerSession

  // ---------------------------------------------------------- level names

  /** strrchr(name, '.'): the position of the last dot, if any. */
  function LastDot(name: string): (k: Option<nat>)
    ensures k.Some? ==> k.value < |name| && name[k.value] == '.'
    ensures k.Some? ==> forall j :: k.value < j < |name| ==> name[j] != '.'
    ensures k.None? <==> '.' !in name
  {
    if name == [] then None
    else if name[|name| - 1] == '.' then Some(|name| - 1)
    else
      var k := LastDot(name[..|name| - 1]);
      assert k.None? ==> forall j :: 0 <= j < |name| ==> name[j] != '.' by {
        if k.None? {
          forall j | 0 <= j < |name| ensures name[j] != '.' {
            if j < |name| - 1 {
              assert name[j] == name[..|name| - 1][j];
            }
          }
        }
      }
      k
  }

  /** The level test of both directory walks: the suffix from the last dot
      is exactly ".lvl". */
  predicate IsLevelName(name: string)
  {
    LastDot(name).Some? && name[LastDot(name).value..] == ".lvl"
  }

  /** A name the play loop skips before looking at its suffix. */
  predicate Hidden(name: string)
  {
    |name| > 0 && name[0] == '.'
  }

  /** The level test is the same as "ends in .lvl". */
  lemma IsLevelNameIffEndsWithLvl(name: string)
    ensures IsLevelName(name) <==> |name| >= 4 && name[|name| - 4..] == ".lvl"
  {
    if |name| >= 4 && name[|name| - 4..] == ".lvl" {
      var k := LastDot(name);
      assert name[|name| - 4] == '.';
      assert k.Some? && k.value >= |name| - 4;
    }
  }

  /** Level names of a listing, as the counting walk counts them. */
  function LevelCount(names: seq<string>): nat
  {
    if names == [] then 0
    else (if IsLevelName(names[0]) then 1 else 0) + LevelCount(names[1..])
  }

  /** Level names the play loop can reach: not hidden. */
  function PlayableCount(names: seq<string>): (n: nat)
    ensures n <= LevelCount(names)
  {
    if names == [] then 0
    else (if IsLevelName(names[0]) && !Hidden(names[0]) then 1 else 0) + PlayableCount(names[1..])
  }

  /** The first walk over the directory: total_levels as the code counts it,
      hidden names included. */
  method CountLevelFiles(names: seq<string>) returns (total: nat)
    ensures total == LevelCount(names)
  {
    total := 0;
    var i := 0;
    while i < |names|
      invariant 0 <= i <= |names|
      invariant total + LevelCount(names[i..]) == LevelCount(names)
    {
      assert names[i..][1..] == names[i + 1..];
      var dot := LastDot(names[i]);
      i := i + 1;
      if dot.None? {
        continue;
      }
      if names[i - 1][dot.value..] == ".lvl" {
        total := total + 1;
      }
    }
  }

  /** The count the victory test needs: only the levels the play loop can
      reach. */
  method CountPlayableLevelFiles(names: seq<string>) returns (total: nat)
    ensures total == PlayableCount(names)
  {
    total := 0;
    var i := 0;
    while i < |names|
      invariant 0 <= i <= |names|
      invariant total + PlayableCount(names[i..]) == PlayableCount(names)
    {
      assert names[i..][1..] == names[i + 1..];
      var name := names[i];
      i := i + 1;
      if Hidden(name) {
        continue;
      }
      var dot := LastDot(name);
      if dot.None? {
        continue;
      }
      if name[dot.value..] == ".lvl" {
        total := total + 1;
      }
    }
  }

  // ------------------------------------------------------------ the loops

  /** How one run of a level's threads ends: the input thread's return code,
      pacmans[0].points at that moment, and whether a thread raised game_over
      meanwhile. */
  datatype Attempt = Attempt(retval: int, points: int32, gameOverRaised: bool)

  /** What happens to a level name the loop reaches. */
  datatype LevelPlay = LevelPlay(loads: bool, attempts: seq<Attempt>)

  /** The worker's loop state: current_level_idx, accumulated_points,
      result (None while it is still unset), the session flags, and whether
      the worker is stuck in a level whose attempts ran out. */
  datatype LoopState = LoopState(
    levelIdx: nat, accumulated: int, result: Option<int>,
    active: bool, gameOver: bool, victory: bool, stalled: bool)

  /** The inner while(1): one attempt per turn until one ends in NEXT_LEVEL
      (keep the points, and win when this was level number total) or
      QUIT_GAME (game over); any other code plays the level again. */
  function PlayLevel(attempts: seq<Attempt>, st: LoopState, total: int): (r: LoopState)
    ensures r.levelIdx == st.levelIdx
    ensures r.victory ==> st.victory || (st.levelIdx == total && r.result == Some(NEXT_LEVEL))
    ensures st.gameOver ==> r.gameOver
  {
    if attempts == [] then st.(stalled := true)
    else
      var a := attempts[0];
      var st1 := st.(active := false, gameOver := st.gameOver || a.gameOverRaised, result := Some(a.retval));
      if a.retval == NEXT_LEVEL then
        if st.levelIdx == total then st1.(accumulated := a.points, victory := true)
        else st1.(accumulated := a.points)
      else if a.retval == QUIT_GAME then st1.(gameOver := true)
      else PlayLevel(attempts[1..], st1, total)
  }

  /** The outer loop from directory entry i on. */
  function Levels(names: seq<string>, plays: seq<LevelPlay>, i: nat, st: LoopState, total: int): LoopState
    requires |plays| == |names| && i <= |names|
    decreases |names| - i
  {
    if i == |names| || st.gameOver || st.stalled then st
    else
      var name := names[i];
      if Hidden(name) || LastDot(name).None? then Levels(names, plays, i + 1, st, total)
      else if IsLevelName(name) && !plays[i].loads then Levels(names, plays, i + 1, st, total)
      else
        var st1 := if IsLevelName(name)
                   then PlayLevel(plays[i].attempts, st.(levelIdx := st.levelIdx + 1), total)
                   else st;
        if st1.stalled || st1.gameOver || st1.victory || st1.result == Some(QUIT_GAME) then st1
        else Levels(names, plays, i + 1, st1, total)
  }

  /** The loop state right after the handshake, on a session with the given
      flags. */
  function Start(active: bool, gameOver: bool, victory: bool): LoopState
  {
    LoopState(0, 0, None, active, gameOver, victory, false)
  }

  /** The inner while(1) on the session: each turn marks the session active,
      lets the threads run (they may raise game_over), marks it inactive once
      they are joined, and acts on the return code. */
  method PlayAttempts(session: ServerSession.GameSession, attempts: seq<Attempt>, levelIdx: nat, total: nat,
                      accumulated0: int, result0: Option<int>)
    returns (accumulated: int, result: Option<int>, stalled: bool)
    modifies session`active, session`gameOver, session`victory
    ensures LoopState(levelIdx, accumulated, result, session.active, session.gameOver, session.victory, stalled)
         == PlayLevel(attempts, LoopState(levelIdx, accumulated0, result0, old(session.active),
                                          old(session.gameOver), old(session.victory), false), total)
  {
    accumulated, result, stalled := accumulated0, result0, false;
    var j := 0;
    while j < |attempts|
      invariant 0 <= j <= |attempts|
      invariant PlayLevel(attempts[j..], LoopState(levelIdx, accumulated, result, session.active,
                                                   session.gameOver, session.victory, false), total)
             == PlayLevel(attempts, LoopState(levelIdx, accumulated0, result0, old(session.active),
                                              old(session.gameOver), old(session.victory), false), total)
    {
      assert attempts[j..][1..] == attempts[j + 1..];
      var a := attempts[j];
      session.active := true;
      if a.gameOverRaised {
        session.gameOver := true;
      }
      session.active := false;
      result := Some(a.retval);
      if a.retval == NEXT_LEVEL {
        accumulated := a.points;
        if levelIdx == total {
          session.victory := true;
        }
        return;
      }
      if a.retval == QUIT_GAME {
        session.gameOver := true;
        return;
      }
      j := j + 1;
    }
    stalled := true;
  }

  /** The level loop of session_thread, given total_levels: it walks the
      names while game_over is clear, skipping hidden names, names without a
      dot and levels that fail to load, and stops after a level that ends in
      victory, game over or QUIT_GAME. */
  method PlayLevels(session: ServerSession.GameSession, names: seq<string>, plays: seq<LevelPlay>, total: nat)
    returns (levelIdx: nat, accumulated: int, result: Option<int>, stalled: bool)
    requires |plays| == |names|
    modifies session`active, session`gameOver, session`victory
    ensures LoopState(levelIdx, accumulated, result, session.active, session.gameOver, session.victory, stalled)
         == Levels(names, plays, 0, Start(old(session.active), old(session.gameOver), old(session.victory)), total)
  {
    levelIdx, accumulated, result, stalled := 0, 0, None, false;
    var i := 0;
    while i < |names| && !session.gameOver
      invariant 0 <= i <= |names|
      invariant Levels(names, plays, i, LoopState(levelIdx, accumulated, result, session.active,
                                                  session.gameOver, session.victory, false), total)
             == Levels(names, plays, 0, Start(old(session.active), old(session.gameOver), old(session.victory)), total)
      decreases |names| - i
    {
      var name := names[i];
      i := i + 1;
      if Hidden(name) {
        continue;
      }
      var dot := LastDot(name);
      if dot.None? {
        continue;
      }
      if name[dot.value..] == ".lvl" {
        if !plays[i - 1].loads {
          continue;
        }
        levelIdx := levelIdx + 1;
        accumulated, result, stalled := PlayAttempts(session, plays[i - 1].attempts, levelIdx, total, accumulated, result);
        if stalled {
          return;
        }
      }
      if session.gameOver || session.victory || result == Some(QUIT_GAME) {
        break;
      }
    }
  }

  /** session_thread's levels: count the levels the loop can reach, then
      play them. */
  method ServeLevels(session: ServerSession.GameSession, names: seq<string>, plays: seq<LevelPlay>)
    returns (levelIdx: nat, accumulated: int, result: Option<int>, stalled: bool)
    requires |plays| == |names|
    modifies session`active, session`gameOver, session`victory
    ensures LoopState(levelIdx, accumulated, result, session.active, session.gameOver, session.victory, stalled)
         == Levels(names, plays, 0, Start(old(session.active), old(session.gameOver), old(session.victory)),
                   PlayableCount(names))
  {
    var total := CountPlayableLevelFiles(names);
    levelIdx, accumulated, result, stalled := PlayLevels(session, names, plays, total);
  }

  // ------------------------------------------------------------- properties

  /** Index of the attempt that decides a level: the first one ending in
      NEXT_LEVEL or QUIT_GAME. */
  function Decisive(attempts: seq<Attempt>): (k: Option<nat>)
    ensures k.Some? ==> k.value < |attempts| && attempts[k.value].retval in {NEXT_LEVEL, QUIT_GAME}
    ensures k.Some? ==> forall j :: 0 <= j < k.value ==> attempts[j].retval !in {NEXT_LEVEL, QUIT_GAME}
    ensures k.None? ==> forall j :: 0 <= j < |attempts| ==> attempts[j].retval !in {NEXT_LEVEL, QUIT_GAME}
  {
    if attempts == [] then None
    else if attempts[0].retval in {NEXT_LEVEL, QUIT_GAME} then Some(0)
    else
      var k := Decisive(attempts[1..]);
      if k.None? then None else Some(k.value + 1)
  }

  /** What a level does to the loop state: the deciding attempt's code
      becomes `result`; on NEXT_LEVEL its points become accumulated_points and
      victory is set iff this was level number total; on QUIT_GAME game_over
      is set and the points stay; with no deciding attempt the worker stays in
      the level. */
  lemma {:induction false} PlayLevelOutcome(attempts: seq<Attempt>, st: LoopState, total: int)
    ensures var r := PlayLevel(attempts, st, total);
      match Decisive(attempts)
      case None => r.stalled && r.accumulated == st.accumulated && r.victory == st.victory
      case Some(k) =>
        r.stalled == st.stalled && r.result == Some(attempts[k].retval) && !r.active
        && (attempts[k].retval == NEXT_LEVEL ==>
              r.accumulated == attempts[k].points && r.victory == (st.victory || st.levelIdx == total))
        && (attempts[k].retval == QUIT_GAME ==>
              r.gameOver && r.accumulated == st.accumulated && r.victory == st.victory)
  {
    if attempts != [] && attempts[0].retval !in {NEXT_LEVEL, QUIT_GAME} {
      var a := attempts[0];
      var st1 := st.(active := false, gameOver := st.gameOver || a.gameOverRaised, result := Some(a.retval));
      PlayLevelOutcome(attempts[1..], st1, total);
      var k := Decisive(attempts[1..]);
      if k.Some? {
        assert attempts[1..][k.value] == attempts[k.value + 1];
      }
    }
  }

  /** Victory is only ever declared right after level number total_levels
      ended in NEXT_LEVEL, and the loop stops there. */
  lemma {:induction false} VictoryOnlyAtLastLevel(names: seq<string>, plays: seq<LevelPlay>, i: nat, st: LoopState, total: int)
    requires |plays| == |names| && i <= |names| && !st.victory
    ensures var r := Levels(names, plays, i, st, total);
      r.victory ==> r.levelIdx == total && r.result == Some(NEXT_LEVEL)
    decreases |names| - i
  {
    if i < |names| && !st.gameOver && !st.stalled {
      var name := names[i];
      if Hidden(name) || LastDot(name).None? || (IsLevelName(name) && !plays[i].loads) {
        VictoryOnlyAtLastLevel(names, plays, i + 1, st, total);
      } else {
        var st1 := if IsLevelName(name)
                   then PlayLevel(plays[i].attempts, st.(levelIdx := st.levelIdx + 1), total)
                   else st;
        if !(st1.stalled || st1.gameOver || st1.victory || st1.result == Some(QUIT_GAME)) {
          VictoryOnlyAtLastLevel(names, plays, i + 1, st1, total);
        }
      }
    }
  }

  /** The loop never plays more levels than the listing has playable ones. */
  lemma {:induction false} LevelIdxBound(names: seq<string>, plays: seq<LevelPlay>, i: nat, st: LoopState, total: int)
    requires |plays| == |names| && i <= |names|
    ensures Levels(names, plays, i, st, total).levelIdx <= st.levelIdx + PlayableCount(names[i..])
    decreases |names| - i
  {
    assert i < |names| ==> names[i..][1..] == names[i + 1..];
    if i < |names| && !st.gameOver && !st.stalled {
      var name := names[i];
      if Hidden(name) || LastDot(name).None? || (IsLevelName(name) && !plays[i].loads) {
        LevelIdxBound(names, plays, i + 1, st, total);
      } else {
        var st1 := if IsLevelName(name)
                   then PlayLevel(plays[i].attempts, st.(levelIdx := st.levelIdx + 1), total)
                   else st;
        if !(st1.stalled || st1.gameOver || st1.victory || st1.result == Some(QUIT_GAME)) {
          LevelIdxBound(names, plays, i + 1, st1, total);
        }
      }
    }
  }

  /** As written, total_levels counts hidden level files the play loop never
      reaches: with one of them in the directory, victory is never declared,
      however every level ends. */
  lemma HiddenLevelBlocksVictory(names: seq<string>, plays: seq<LevelPlay>)
    requires |plays| == |names| && PlayableCount(names) < LevelCount(names)
    ensures !Levels(names, plays, 0, Start(true, false, false), LevelCount(names)).victory
  {
    var r := Levels(names, plays, 0, Start(true, false, false), LevelCount(names));
    assert names[0..] == names;
    LevelIdxBound(names, plays, 0, Start(true, false, false), LevelCount(names));
    VictoryOnlyAtLastLevel(names, plays, 0, Start(true, false, false), LevelCount(names));
  }

  /** The two-name directory that shows it: one hidden level and one level
      won at the first attempt. With the count as written no victory is
      declared; with the playable count it is. */
  lemma HiddenLevelExample()
    ensures var names := [".hidden.lvl", "a.lvl"];
      var plays := [LevelPlay(true, []), LevelPlay(true, [Attempt(NEXT_LEVEL, 10, false)])];
      LevelCount(names) == 2 && PlayableCount(names) == 1
      && !Levels(names, plays, 0, Start(true, false, false), LevelCount(names)).victory
      && Levels(names, plays, 0, Start(true, false, false), PlayableCount(names)).victory
  {
    var names := [".hidden.lvl", "a.lvl"];
    var plays := [LevelPlay(true, []), LevelPlay(true, [Attempt(NEXT_LEVEL, 10, false)])];
    assert IsLevelName(names[0]) by {
      IsLevelNameIffEndsWithLvl(names[0]);
      assert names[0][|names[0]| - 4..] == ".lvl";
    }
    assert IsLevelName(names[1]) by {
      IsLevelNameIffEndsWithLvl(names[1]);
      assert names[1][|names[1]| - 4..] == ".lvl";
    }
    assert names[1..] == ["a.lvl"] && names[1..][1..] == [];
    assert Hidden(names[0]) && !Hidden(names[1]);
    assert LastDot(names[1]).Some?;
  }

  /** A name the play loop reaches and treats as a level. */
  predicate Playable(name: string)
  {
    IsLevelName(name) && !Hidden(name)
  }

  /** Every playable level from entry i on loads and is won at its first
      attempt without game over being raised; other names are arbitrary. */
  predicate AllLevelsWon(names: seq<string>, plays: seq<LevelPlay>, i: nat)
    requires |plays| == |names| && i <= |names|
  {
    forall j :: i <= j < |names| && Playable(names[j]) ==>
      plays[j].loads && |plays[j].attempts| > 0
      && plays[j].attempts[0].retval == NEXT_LEVEL && !plays[j].attempts[0].gameOverRaised
  }

  /** The last playable level from entry i on, if there is one. */
  function LastPlayable(names: seq<string>, i: nat): (k: Option<nat>)
    requires i <= |names|
    ensures k.Some? ==> i <= k.value < |names| && Playable(names[k.value])
    ensures k.Some? ==> forall j :: k.value < j < |names| ==> !Playable(names[j])
    ensures k.None? ==> forall j :: i <= j < |names| ==> !Playable(names[j])
    decreases |names| - i
  {
    if i == |names| then None
    else
      var later := LastPlayable(names, i + 1);
      if later.Some? then later
      else if Playable(names[i]) then Some(i)
      else None
  }

  /** A listing has a last playable level exactly when it has a playable
      level at all. */
  lemma {:induction false} LastPlayableExists(names: seq<string>, i: nat)
    requires i <= |names|
    ensures LastPlayable(names, i).Some? <==> PlayableCount(names[i..]) > 0
    decreases |names| - i
  {
    if i < |names| {
      assert names[i..][1..] == names[i + 1..];
      LastPlayableExists(names, i + 1);
    }
  }

  /** With the playable count, a player who wins every playable level is
      declared the winner once the last one is won, carrying that level's
      points, whatever other names (".", "..", hidden files, other files)
      the listing holds. */
  lemma {:induction false} WinningEveryLevelWins(names: seq<string>, plays: seq<LevelPlay>, i: nat, st: LoopState)
    requires |plays| == |names| && i <= |names| && AllLevelsWon(names, plays, i)
    requires !st.gameOver && !st.stalled && !st.victory && st.result != Some(QUIT_GAME)
    requires st.levelIdx + PlayableCount(names[i..]) == PlayableCount(names)
    requires PlayableCount(names[i..]) > 0
    ensures LastPlayable(names, i).Some?
    ensures var r := Levels(names, plays, i, st, PlayableCount(names));
      r.victory && r.levelIdx == PlayableCount(names)
      && r.accumulated == plays[LastPlayable(names, i).value].attempts[0].points
    decreases |names| - i
  {
    var total := PlayableCount(names);
    assert names[i..][1..] == names[i + 1..];
    LastPlayableExists(names, i);
    LastPlayableExists(names, i + 1);
    if Playable(names[i]) {
      WonLevelUnfold(names, plays, i, st, total);
      if PlayableCount(names[i + 1..]) > 0 {
        var st1 := st.(levelIdx := st.levelIdx + 1, active := false, result := Some(NEXT_LEVEL),
                       accumulated := plays[i].attempts[0].points);
        WinningEveryLevelWins(names, plays, i + 1, st1);
      }
    } else {
      SkipUnplayable(names, plays, i, st, total);
      WinningEveryLevelWins(names, plays, i + 1, st);
    }
  }

  /** From the start of the listing: winning every playable level of a
      listing that has one ends in victory with the corrected count. */
  lemma WinningEveryLevelWinsFromStart(names: seq<string>, plays: seq<LevelPlay>, active: bool)
    requires |plays| == |names| && AllLevelsWon(names, plays, 0) && PlayableCount(names) > 0
    ensures Levels(names, plays, 0, Start(active, false, false), PlayableCount(names)).victory
  {
    assert names[0..] == names;
    WinningEveryLevelWins(names, plays, 0, Start(active, false, false));
  }

  /** A playable level won at the first attempt: the loop moves on with the
      level counted and its points kept, unless that was level number total. */
  lemma WonLevelUnfold(names: seq<string>, plays: seq<LevelPlay>, i: nat, st: LoopState, total: int)
    requires |plays| == |names| && i < |names| && AllLevelsWon(names, plays, i) && Playable(names[i])
    requires !st.gameOver && !st.stalled && !st.victory
    ensures var st1 := st.(levelIdx := st.levelIdx + 1, active := false, result := Some(NEXT_LEVEL),
                           accumulated := plays[i].attempts[0].points);
      Levels(names, plays, i, st, total)
        == if st1.levelIdx == total then st1.(victory := true) else Levels(names, plays, i + 1, st1, total)
  {
    assert plays[i].loads;
  }

  /** A name that is not a playable level leaves the loop state as it is:
      hidden and dotless names are skipped, and any other name falls through
      to the end-of-turn test, which a running game passes. */
  lemma SkipUnplayable(names: seq<string>, plays: seq<LevelPlay>, i: nat, st: LoopState, total: int)
    requires |plays| == |names| && i < |names| && !Playable(names[i])
    requires !st.gameOver && !st.stalled && !st.victory && st.result != Some(QUIT_GAME)
    ensures Levels(names, plays, i, st, total) == Levels(names, plays, i + 1, st, total)
  {
  }

  /** A playable level that fails to load is skipped without being counted,
      so even the playable count is not reached: with ["a.lvl", "b.lvl"],
      "a.lvl" failing to load and "b.lvl" won, no victory is declared. */
  lemma FailedLoadBlocksVictory()
    ensures var names := ["a.lvl", "b.lvl"];
      var plays := [LevelPlay(false, []), LevelPlay(true, [Attempt(NEXT_LEVEL, 5, false)])];
      PlayableCount(names) == 2
      && !Levels(names, plays, 0, Start(false, false, false), PlayableCount(names)).victory
  {
    var names := ["a.lvl", "b.lvl"];
    assert IsLevelName(names[0]) by {
      IsLevelNameIffEndsWithLvl(names[0]);
      assert names[0][|names[0]| - 4..] == ".lvl";
    }
    assert IsLevelName(names[1]) by {
      IsLevelNameIffEndsWithLvl(names[1]);
      assert names[1][|names[1]| - 4..] == ".lvl";
    }
    assert names[1..] == ["b.lvl"] && names[1..][1..] == [];
    assert !Hidden(names[0]) && !Hidden(names[1]);
  }
}
