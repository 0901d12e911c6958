/** The mutable state of `server.py` — `LEADERBOARD`, `PLAYERS` and
    `LAST_SAVE` — and the operations that change it: `_prune_leaderboard`,
    `save_board`, `_add_score_entry`, `load_board` and the bodies of the
    `/api/score`, `/api/leave`, heartbeat and board handlers. Each handler
    body runs as one step. Clock readings and fresh tokens are parameters,
    and every write attempt of `save_board` is recorded in `saves`. */
module GameServer {
  import opened Wrappers
  import opened Text
  import opened JsonValue
  import opened Fields
  import opened Leaderboard
  import opened Presence
  import ScoresLint

  /** Minimum spacing of unforced saves, in seconds. */
  const SAVE_INTERVAL: real := 2.0

  /** One write attempt: its time, whether it was forced, and the list it
      writes. A failed write is still an attempt. */
  datatype SaveEvent = SaveEvent(at: real, forced: bool, written: seq<Entry>)

  /** What a handler answers. */
  datatype Reply =
    | BadRequest(reason: string)
    | ScoreAccepted(board: seq<Entry>, serverTime: real)
    | SessionLeft(removed: bool, serverTime: real)
    | State(peers: map<string, Player>, board: seq<Entry>, serverTime: real)
    | BoardState(board: seq<Entry>, serverTime: real)

  /** `LAST_SAVE` before attempt `j`: the time of the attempt before it, or
      the initial `0.0`. */
  function SaveTimeBefore(saves: seq<SaveEvent>, j: nat): real
    requires j <= |saves|
  {
    if j == 0 then 0.0 else saves[j - 1].at
  }

  /** Every unforced attempt came at least `SAVE_INTERVAL` after the
      attempt before it. */
  predicate Debounced(saves: seq<SaveEvent>) {
    forall j {:trigger SaveTimeBefore(saves, j)} ::
      0 <= j < |saves| && !saves[j].forced ==> saves[j].at - SaveTimeBefore(saves, j) >= SAVE_INTERVAL
  }

  /** Attempts are recorded in clock order. */
  predicate InClockOrder(saves: seq<SaveEvent>) {
    forall i, j :: 0 <= i < j < |saves| ==> saves[i].at <= saves[j].at
  }

  /** Recording one more attempt keeps the spacing when, unforced, it
      comes at least `SAVE_INTERVAL` after the latest one. */
  lemma DebouncedAppend(saves: seq<SaveEvent>, ev: SaveEvent)
    requires Debounced(saves)
    requires !ev.forced ==> ev.at - SaveTimeBefore(saves, |saves|) >= SAVE_INTERVAL
    ensures Debounced(saves + [ev])
  {
    var s2 := saves + [ev];
    forall j | 0 <= j < |s2| && !s2[j].forced ensures s2[j].at - SaveTimeBefore(s2, j) >= SAVE_INTERVAL {
      assert SaveTimeBefore(s2, j) == SaveTimeBefore(saves, j);
      if j < |saves| {
        assert s2[j] == saves[j];
      }
    }
  }

  /** With a clock that does not run backwards, an unforced attempt comes
      at least `SAVE_INTERVAL` after every earlier attempt, forced or not. */
  lemma DebounceSpacing(saves: seq<SaveEvent>)
    requires Debounced(saves) && InClockOrder(saves)
    ensures forall i, j :: 0 <= i < j < |saves| && !saves[j].forced ==> saves[j].at - saves[i].at >= SAVE_INTERVAL
  {
    forall i, j | 0 <= i < j < |saves| && !saves[j].forced ensures saves[j].at - saves[i].at >= SAVE_INTERVAL {
      DebouncePair(saves, i, j);
    }
  }

  /** The spacing for one earlier attempt `i`: it is no later than the
      attempt right before `j`. */
  lemma DebouncePair(saves: seq<SaveEvent>, i: nat, j: nat)
    requires Debounced(saves) && InClockOrder(saves)
    requires i < j < |saves| && !saves[j].forced
    ensures saves[j].at - saves[i].at >= SAVE_INTERVAL
  {
    assert saves[j].at - SaveTimeBefore(saves, j) >= SAVE_INTERVAL;
    assert saves[i].at <= saves[j - 1].at;
  }

  /** Every entry is as the server produces it. */
  predicate AllWellFormed(board: seq<Entry>) {
    forall e :: e in board ==> WellFormed(e)
  }

  /** A registry record is keyed by its own non-blank session id and keeps
      non-negative running bests. */
  predicate PlayerOk(k: string, p: Player) {
    p.id == k && k != [] && Stripped(k) && p.best >= 0.0 && p.bestTime >= 0.0
  }

  /** Every record is keyed by its own session. */
  predicate RegistryOk(players: map<string, Player>) {
    forall k :: k in players ==> PlayerOk(k, players[k])
  }

  /** Every file written holds well-formed entries. */
  predicate WritesOk(saves: seq<SaveEvent>) {
    forall i :: 0 <= i < |saves| ==> AllWellFormed(saves[i].written)
  }

  /** The previous record of a session, if any. */
  function Previous(players: map<string, Player>, sid: string): Option<Player> {
    if sid in players then Some(players[sid]) else None
  }

  /** Storing the merged record of a non-blank session keeps every record
      keyed by its session with non-negative bests. */
  lemma RegistryMerge(players: map<string, Player>, sid: string, data: map<string, Json>, now: real)
    requires RegistryOk(players) && sid != [] && Stripped(sid)
    ensures RegistryOk(players[sid := Merge(Previous(players, sid), sid, data, now)])
  {
    var prev := Previous(players, sid);
    MergeCurrent(prev, sid, data, now);
    MergeBest(prev, sid, data, now);
  }

  /** The entry `/api/score` builds from a request body. */
  function ScoreRequestEntry(data: map<string, Json>, now: real, token: string): Entry {
    NewEntry(NormalizeName(TextOf(Get(data, "name", JNull))), Number(data, "score", 0.0),
             Number(data, "time", 0.0), NormalizeColor(TextOf(Get(data, "color", JNull))), now, token)
  }

  /** The loop of `load_board`: each object item becomes an entry, in file
      order; other items are skipped. */
  method LoadEntries(data: seq<Json>, now: real, tokens: nat -> string) returns (loaded: seq<Entry>)
    ensures loaded == LoadedEntries(data, now, tokens)
  {
    loaded := [];
    var i := 0;
    while i < |data|
      invariant 0 <= i <= |data|
      invariant loaded == LoadedEntries(data[..i], now, tokens)
    {
      assert data[..i + 1][..i] == data[..i];
      if data[i].JObj? {
        loaded := loaded + [LoadedEntry(data[i].fields, now, tokens(i))];
      }
      i := i + 1;
    }
    assert data[..i] == data;
  }

  class Server {
    /** `LEADERBOARD`. */
    var board: seq<Entry>
    /** `PLAYERS`. */
    var players: map<string, Player>
    /** `LAST_SAVE`. */
    var lastSave: real
    /** Every write attempt of `save_board`, oldest first. */
    var saves: seq<SaveEvent>

    /** The board is sorted, within capacity and well formed; each record
        is keyed by its session; `LAST_SAVE` is the time of the latest
        attempt; unforced attempts are debounced; every file written holds
        well-formed entries. */
    predicate Valid()
      reads this
    {
      SortedDesc(board) && |board| <= MAX_STORE && AllWellFormed(board)
      && RegistryOk(players)
      && lastSave == SaveTimeBefore(saves, |saves|)
      && Debounced(saves)
      && WritesOk(saves)
    }

    /** The process start: empty board and registry, `LAST_SAVE = 0.0`. */
    constructor ()
      ensures Valid()
      ensures board == [] && players == map[] && lastSave == 0.0 && saves == []
    {
      board := [];
      players := map[];
      lastSave := 0.0;
      saves := [];
    }

    /** `_prune_leaderboard(now)`. */
    method PruneBoard(now: real)
      requires Valid()
      modifies this
      ensures Valid()
      ensures board == Prune(old(board), now)
      ensures players == old(players) && lastSave == old(lastSave) && saves == old(saves)
    {
      PruneSpec(board, now);
      board := Prune(board, now);
    }

    /** `save_board(force)` at clock `now`: an unforced call within
        `SAVE_INTERVAL` of the last attempt does nothing; otherwise
        `LAST_SAVE` becomes `now` and the sorted, capped board is written. */
    method SaveBoard(now: real, force: bool)
      requires Valid()
      modifies this
      ensures Valid()
      ensures board == old(board) && players == old(players)
      ensures !force && now - old(lastSave) < SAVE_INTERVAL ==> lastSave == old(lastSave) && saves == old(saves)
      ensures force || now - old(lastSave) >= SAVE_INTERVAL ==>
        lastSave == now && saves == old(saves) + [SaveEvent(now, force, Snapshot(board))]
      ensures Snapshot(board) == board
    {
      SnapshotSpec(board, MAX_STORE);
      if !force && now - lastSave < SAVE_INTERVAL {
        return;
      }
      DebouncedAppend(saves, SaveEvent(now, force, Snapshot(board)));
      lastSave := now;
      saves := saves + [SaveEvent(now, force, Snapshot(board))];
    }

    /** `_add_score_entry`: build the entry, reject a score that is not
        positive without touching anything, otherwise append, prune, sort,
        cut to capacity and force a save. */
    method AddScoreEntry(name: string, score: real, t: real, color: string, now: real, token: string)
      returns (entry: Option<Entry>)
      requires Valid()
      modifies this
      ensures Valid()
      ensures players == old(players)
      ensures entry.None? <==> score <= 0.0
      ensures entry.None? ==> board == old(board) && lastSave == old(lastSave) && saves == old(saves)
      ensures entry.Some? ==>
        entry.value == NewEntry(name, score, t, color, now, token)
        && board == Submitted(old(board), entry.value, now)
        && lastSave == now && saves == old(saves) + [SaveEvent(now, true, board)]
    {
      var e := NewEntry(name, score, t, color, now, token);
      if e.score <= 0.0 {
        return None;
      }
      SubmittedSpec(board, e, now);
      board := board + [e];
      board := Prune(board, now);
      board := SortDesc(board);
      board := Take(board, MAX_STORE);
      SaveBoard(now, true);
      entry := Some(e);
    }

    /** `load_board` on the parsed file (`None` when it cannot be read):
        anything but a list leaves the board as it is; otherwise each object
        is read in file order and the result sorted and capped. `tokens(i)`
        is the token drawn for item `i`. */
    method LoadBoard(file: Option<Json>, now: real, tokens: nat -> string)
      requires Valid()
      modifies this
      ensures Valid()
      ensures players == old(players) && lastSave == old(lastSave) && saves == old(saves)
      ensures file.None? || !file.value.JArr? ==> board == old(board)
      ensures file.Some? && file.value.JArr? ==> board == LoadedBoard(file.value.items, now, tokens)
    {
      if file.None? || !file.value.JArr? {
        return;
      }
      var data := file.value.items;
      var loaded := LoadEntries(data, now, tokens);
      LoadedBoardSpec(data, now, tokens);
      board := Take(SortDesc(loaded), MAX_STORE);
    }

    /** `POST /api/score`: normalise the fields, add the entry, answer with
        the top of the board, or `400 invalid score`. */
    method SubmitScore(data: map<string, Json>, now: real, token: string) returns (reply: Reply)
      requires Valid()
      modifies this
      ensures Valid()
      ensures players == old(players)
      ensures var e := ScoreRequestEntry(data, now, token);
        e.score <= 0.0 ==>
          reply == BadRequest("invalid score") && board == old(board) && lastSave == old(lastSave) && saves == old(saves)
      ensures var e := ScoreRequestEntry(data, now, token);
        e.score > 0.0 ==>
          board == Submitted(old(board), e, now) && reply == ScoreAccepted(TopBoard(board), now)
          && lastSave == now && saves == old(saves) + [SaveEvent(now, true, board)]
    {
      var name := NormalizeName(TextOf(Get(data, "name", JNull)));
      var score := Number(data, "score", 0.0);
      var t := Number(data, "time", 0.0);
      var color := NormalizeColor(TextOf(Get(data, "color", JNull)));
      assert NewEntry(name, score, t, color, now, token) == ScoreRequestEntry(data, now, token);
      var entry := AddScoreEntry(name, score, t, color, now, token);
      var top := TopBoard(board);
      if entry.None? {
        return BadRequest("invalid score");
      }
      reply := ScoreAccepted(top, now);
    }

    /** `POST /api/leave`: drop the named session and say whether it was
        there; a request naming no session is refused. */
    method Leave(data: map<string, Json>, now: real) returns (reply: Reply)
      requires Valid()
      modifies this
      ensures Valid()
      ensures board == old(board) && lastSave == old(lastSave) && saves == old(saves)
      ensures SessionKey(data) == [] ==> reply == BadRequest("missing sessionId") && players == old(players)
      ensures SessionKey(data) != [] ==>
        players == old(players) - {SessionKey(data)} && reply == SessionLeft(SessionKey(data) in old(players), now)
    {
      var sid := SessionKey(data);
      if sid == [] {
        return BadRequest("missing sessionId");
      }
      var removed := sid in players;
      players := players - {sid};
      reply := SessionLeft(removed, now);
    }

    /** The stale-session loop of the heartbeat: delete every session whose
        last heartbeat is more than `EXPIRATION` seconds old. */
    method SweepStale(now: real)
      requires Valid()
      modifies this
      ensures Valid()
      ensures players == Sweep(old(players), now)
      ensures board == old(board) && lastSave == old(lastSave) && saves == old(saves)
    {
      ghost var start := players;
      var keys := players.Keys;
      while keys != {}
        invariant keys <= start.Keys
        invariant forall k :: k in players <==> k in start && (k in keys || Live(start[k], now))
        invariant forall k :: k in players ==> players[k] == start[k]
        invariant Valid()
        invariant board == old(board) && lastSave == old(lastSave) && saves == old(saves)
        decreases keys
      {
        var k :| k in keys;
        if now - players[k].ts > EXPIRATION {
          players := players - {k};
        }
        keys := keys - {k};
      }
      assert players == Sweep(start, now);
    }

    /** The heartbeat (`POST /api/state`): merge the update into the
        caller's record, sweep stale sessions, take the peer snapshot, prune
        the board and answer with its top; a request naming no session is
        refused and changes nothing. */
    method Heartbeat(data: map<string, Json>, now: real) returns (reply: Reply)
      requires Valid()
      modifies this
      ensures Valid()
      ensures lastSave == old(lastSave) && saves == old(saves)
      ensures SessionKey(data) == [] ==>
        reply == BadRequest("missing sessionId") && players == old(players) && board == old(board)
      ensures var sid := SessionKey(data);
        sid != [] ==>
          players == Sweep(old(players)[sid := Merge(Previous(old(players), sid), sid, data, now)], now)
          && board == Prune(old(board), now)
          && reply == State(Peers(players, sid, Number(data, "since", 0.0)), TopBoard(board), now)
    {
      var sid := SessionKey(data);
      if sid == [] {
        return BadRequest("missing sessionId");
      }
      var since := Number(data, "since", 0.0);
      var prev := Previous(players, sid);
      var record := Merge(prev, sid, data, now);
      RegistryMerge(players, sid, data, now);
      players := players[sid := record];
      SweepStale(now);
      var peers := Peers(players, sid, since);
      PruneBoard(now);
      reply := State(peers, TopBoard(board), now);
    }

    /** `GET /api/state` and `GET /api/board`: prune, then answer with the
        top of the board. */
    method GetBoard(now: real) returns (reply: Reply)
      requires Valid()
      modifies this
      ensures Valid()
      ensures players == old(players) && lastSave == old(lastSave) && saves == old(saves)
      ensures board == Prune(old(board), now)
      ensures reply == BoardState(TopBoard(board), now)
    {
      PruneBoard(now);
      reply := BoardState(TopBoard(board), now);
    }

    /** Every file the server has attempted to write passes the lint
        script, and so does the file holding the current board. */
    lemma WrittenFilesPassLint()
      requires Valid()
      ensures forall i :: 0 <= i < |saves| ==> ScoresLint.ExitCode(Some(BoardJson(saves[i].written))) == 0
      ensures ScoresLint.ExitCode(Some(BoardJson(board))) == 0
    {
      forall i | 0 <= i < |saves| ensures ScoresLint.ExitCode(Some(BoardJson(saves[i].written))) == 0 {
        ScoresLint.BoardJsonClean(saves[i].written);
      }
      ScoresLint.BoardJsonClean(board);
    }

    /** The board shown to clients is the first `MAX_BOARD` entries of the
        board itself, which is sorted. */
    lemma TopBoardIsPrefix()
      requires Valid()
      ensures TopBoard(board) == Take(board, MAX_BOARD)
      ensures |TopBoard(board)| <= MAX_BOARD
    {
      SnapshotSpec(board, MAX_BOARD);
    }
  }
}
