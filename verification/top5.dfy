/** The live top-5 report (gerar_top5_pontuacoes in server.c): collect the
    active sessions' ids and scores, bubble-sort them by score, highest first,
    and report the first min(count, 5). The report file itself is not
    modelled: the reported entries are returned. */
module Top5 {
  import opened Bytes
  import ServerSession

  /** One line of the report: the session's request-pipe descriptor as its id,
      and its score. */
  datatype ScoreEntry = ScoreEntry(id: int32, score: int32)

  /** The entries of the non-NULL, active sessions, in slot order. */
  function ActiveEntries(sessions: seq<ServerSession.GameSession?>): seq<ScoreEntry>
    reads set i | 0 <= i < |sessions| && sessions[i] != null :: sessions[i]
  {
    if sessions == [] then []
    else
      var s := sessions[|sessions| - 1];
      ActiveEntries(sessions[..|sessions| - 1])
        + (if s != null && s.active then [ScoreEntry(s.fdReq, s.score)] else [])
  }

  /** Every entry scores at least as much as every later one. */
  predicate SortedDesc(s: seq<ScoreEntry>)
  {
    forall k, l :: 0 <= k < l < |s| ==> s[k].score >= s[l].score
  }

  /** Entries from n on are in their final places: none scores more than
      an entry before it. */
  predicate SettledFrom(s: seq<ScoreEntry>, n: int)
  {
    forall k, l :: 0 <= k < l < |s| && n <= l ==> s[k].score >= s[l].score
  }

  /** Entry j scores no more than any entry before it. */
  predicate LowestUpTo(s: seq<ScoreEntry>, j: int)
    requires 0 <= j < |s|
  {
    forall k :: 0 <= k <= j ==> s[k].score >= s[j].score
  }

  /** Swapping two neighbours before n leaves the settled part settled. */
  lemma SwapKeepsSettled(s: seq<ScoreEntry>, j: nat, n: int)
    requires j + 1 < n <= |s| && SettledFrom(s, n)
    ensures SettledFrom(s[j := s[j + 1]][j + 1 := s[j]], n)
  {
    var t := s[j := s[j + 1]][j + 1 := s[j]];
    forall k, l | 0 <= k < l < |t| && n <= l ensures t[k].score >= t[l].score {
      assert t[l] == s[l];
      if k == j {
        assert s[j + 1].score >= s[l].score;
      } else if k == j + 1 {
        assert s[j].score >= s[l].score;
      } else {
        assert t[k] == s[k];
      }
    }
  }

  /** Once the lowest of the first n entries sits at n - 1, one more entry
      is settled. */
  lemma SettleOneMore(s: seq<ScoreEntry>, n: int)
    requires 1 <= n <= |s| && SettledFrom(s, n) && LowestUpTo(s, n - 1)
    ensures SettledFrom(s, n - 1)
  {
  }

  /** temp = temp_list[j]; temp_list[j] = temp_list[j + 1]; temp_list[j + 1] = temp. */
  method SwapNext(a: array<ScoreEntry>, j: nat)
    requires j + 1 < a.Length
    modifies a
    ensures a[..] == old(a[..])[j := old(a[j + 1])][j + 1 := old(a[j])]
  {
    var temp := a[j];
    a[j] := a[j + 1];
    a[j + 1] := temp;
  }

  /** One pass of the inner loop over the first n entries: the lowest of
      them ends at n - 1. */
  method BubblePass(a: array<ScoreEntry>, n: nat)
    requires 1 <= n <= a.Length && SettledFrom(a[..], n)
    modifies a
    ensures SettledFrom(a[..], n - 1)
    ensures multiset(a[..]) == multiset(old(a[..]))
  {
    var j := 0;
    while j < n - 1
      invariant 0 <= j <= n - 1
      invariant multiset(a[..]) == multiset(old(a[..]))
      invariant SettledFrom(a[..], n) && LowestUpTo(a[..], j)
    {
      if a[j].score < a[j + 1].score {
        ghost var s := a[..];
        SwapKeepsSettled(s, j, n);
        SwapNext(a, j);
        assert a[..] == s[j := s[j + 1]][j + 1 := s[j]];
      }
      j := j + 1;
    }
    SettleOneMore(a[..], n);
  }

  /** The bubble sort of the collected entries: pass i settles position
      count - i - 1. */
  method BubbleSort(a: array<ScoreEntry>)
    modifies a
    ensures SortedDesc(a[..])
    ensures multiset(a[..]) == multiset(old(a[..]))
  {
    var count := a.Length;
    var i := 0;
    while i < count - 1
      invariant 0 <= i && (count > 0 ==> i <= count - 1)
      invariant multiset(a[..]) == multiset(old(a[..]))
      invariant SettledFrom(a[..], count - i)
    {
      BubblePass(a, count - i);
      i := i + 1;
    }
    assert SettledFrom(a[..], 1) || count == 0;
  }

  /** The collecting loop: the entries of the active sessions, in slot order. */
  method CollectActive(sessions: seq<ServerSession.GameSession?>) returns (entries: seq<ScoreEntry>)
    ensures entries == ActiveEntries(sessions)
  {
    entries := [];
    for i := 0 to |sessions|
      invariant entries == ActiveEntries(sessions[..i])
    {
      assert sessions[..i + 1][..i] == sessions[..i];
      var s := sessions[i];
      if s != null && s.active {
        entries := entries + [ScoreEntry(s.fdReq, s.score)];
      }
    }
    assert sessions[..|sessions|] == sessions;
  }

  /** gerar_top5_pontuacoes: `ranked` holds the active sessions' entries (a
      permutation of them) in non-increasing score order, and `report` is
      its first min(count, 5) entries. */
  method Top5Report(sessions: seq<ServerSession.GameSession?>) returns (ranked: seq<ScoreEntry>, report: seq<ScoreEntry>)
    ensures multiset(ranked) == multiset(ActiveEntries(sessions))
    ensures SortedDesc(ranked)
    ensures |report| == Min(|ranked|, 5) && report == ranked[..|report|]
  {
    var entries := CollectActive(sessions);
    var tempList := new ScoreEntry[|entries|](i requires 0 <= i < |entries| => entries[i]);
    assert tempList[..] == entries;
    var count := tempList.Length;
    BubbleSort(tempList);
    assert entries == ActiveEntries(sessions);
    ranked := tempList[..];
    var limit := if count < 5 then count else 5;
    report := tempList[..limit];
  }

  /** Nobody left out of the report outscores anybody in it, and everybody
      in it holds an active session. */
  lemma ReportIsTop(sessions: seq<ServerSession.GameSession?>, ranked: seq<ScoreEntry>, report: seq<ScoreEntry>)
    requires multiset(ranked) == multiset(ActiveEntries(sessions)) && SortedDesc(ranked)
    requires report == ranked[..Min(|ranked|, 5)]
    ensures forall e, f :: e in report && f in ranked[|report|..] ==> e.score >= f.score
    ensures forall e :: e in report ==> e in ActiveEntries(sessions)
    ensures |ranked| == |ActiveEntries(sessions)|
  {
    forall e | e in report ensures e in ActiveEntries(sessions) {
      assert e in multiset(ranked);
    }
    forall e, f | e in report && f in ranked[|report|..] ensures e.score >= f.score {
      var k :| 0 <= k < |report| && report[k] == e;
      var l :| 0 <= l < |ranked| - |report| && ranked[|report|..][l] == f;
      assert ranked[k] == e && ranked[|report| + l] == f;
    }
    assert |multiset(ranked)| == |multiset(ActiveEntries(sessions))|;
  }
}
