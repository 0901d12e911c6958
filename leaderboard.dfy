/** The leaderboard store of `server.py`: entries, the ranking key
    `_score_sort_key`, the descending sort, TTL pruning, the snapshot a save
    writes, the entry a submission builds and the normalisation `load_board`
    applies to a stored file. */
module Leaderboard {
  import opened Text
  import opened Decimal
  import opened JsonValue
  import opened Fields

  /** Retention window of an entry: 30 days, in seconds. */
  const BOARD_TTL: real := 2592000.0
  /** Entries returned to clients. */
  const MAX_BOARD: nat := 10
  /** Entries kept in memory and on disk. */
  const MAX_STORE: nat := 100

  datatype Entry = Entry(id: string, name: string, color: string, score: real, time: real, created: real)

  // ---------------------------------------------------------------------
  // Ranking

  /** `_score_sort_key(a) <= _score_sort_key(b)`: tuples compared by score,
      then time, then creation time. */
  predicate RankLe(a: Entry, b: Entry) {
    a.score < b.score
    || (a.score == b.score && (a.time < b.time || (a.time == b.time && a.created <= b.created)))
  }

  /** Non-increasing by the ranking key: what `sort(key=_score_sort_key, reverse=True)` yields. */
  predicate SortedDesc(s: seq<Entry>) {
    forall i, j :: 0 <= i < j < |s| ==> RankLe(s[j], s[i])
  }

  /** Insert `x` after every entry of `s` that ranks at least as high. */
  function Insert(x: Entry, s: seq<Entry>): seq<Entry> {
    if s == [] then [x]
    else if RankLe(x, s[|s| - 1]) then s + [x]
    else Insert(x, s[..|s| - 1]) + [s[|s| - 1]]
  }

  /** Python's stable `sorted(s, key=_score_sort_key, reverse=True)`, as an
      insertion sort: entries with equal keys keep their input order. */
  function SortDesc(s: seq<Entry>): seq<Entry> {
    if s == [] then [] else Insert(s[|s| - 1], SortDesc(s[..|s| - 1]))
  }

  lemma {:induction false} InsertPermutes(x: Entry, s: seq<Entry>)
    ensures multiset(Insert(x, s)) == multiset(s) + multiset{x}
  {
    if s != [] && !RankLe(x, s[|s| - 1]) {
      InsertPermutes(x, s[..|s| - 1]);
      assert s == s[..|s| - 1] + [s[|s| - 1]];
    }
  }

  lemma {:induction false} InsertSorted(x: Entry, s: seq<Entry>)
    requires SortedDesc(s)
    ensures SortedDesc(Insert(x, s))
  {
    if s != [] {
      var last := s[|s| - 1];
      if RankLe(x, last) {
        var r := s + [x];
        forall i, j | 0 <= i < j < |r| ensures RankLe(r[j], r[i]) {
          if j == |s| && i < |s| - 1 {
            assert RankLe(last, s[i]);
          }
        }
      } else {
        var init := s[..|s| - 1];
        InsertSorted(x, init);
        InsertPermutes(x, init);
        var q := Insert(x, init);
        var r := q + [last];
        forall i, j | 0 <= i < j < |r| ensures RankLe(r[j], r[i]) {
          if j == |q| {
            assert r[i] in multiset(q);
            if r[i] != x {
              assert r[i] in multiset(init);
              var k :| 0 <= k < |init| && init[k] == r[i];
              assert RankLe(s[|s| - 1], s[k]);
            }
          }
        }
      }
    }
  }

  /** The sort returns the same entries, non-increasing by the ranking key. */
  lemma {:induction false} SortDescSpec(s: seq<Entry>)
    ensures SortedDesc(SortDesc(s))
    ensures multiset(SortDesc(s)) == multiset(s)
    ensures |SortDesc(s)| == |s|
  {
    SortDescSorted(s);
    SortDescPermutes(s);
    assert |multiset(SortDesc(s))| == |SortDesc(s)|;
  }

  lemma {:induction false} SortDescSorted(s: seq<Entry>)
    ensures SortedDesc(SortDesc(s))
  {
    if s != [] {
      var init := s[..|s| - 1];
      SortDescSorted(init);
      InsertSorted(s[|s| - 1], SortDesc(init));
    }
  }

  lemma {:induction false} SortDescPermutes(s: seq<Entry>)
    ensures multiset(SortDesc(s)) == multiset(s)
  {
    if s != [] {
      var init, last := s[..|s| - 1], s[|s| - 1];
      assert s == init + [last];
      assert multiset(s) == multiset(init) + multiset{last};
      SortDescPermutes(init);
      assert SortDesc(s) == Insert(last, SortDesc(init));
      InsertPermutes(last, SortDesc(init));
    }
  }

  /** Sorting an already sorted board changes nothing. */
  lemma {:induction false} SortDescOfSorted(s: seq<Entry>)
    requires SortedDesc(s)
    ensures SortDesc(s) == s
  {
    if s != [] {
      var init := s[..|s| - 1];
      assert SortedDesc(init);
      SortDescOfSorted(init);
      if |init| > 0 {
        assert RankLe(s[|s| - 1], init[|init| - 1]);
      }
      assert init + [s[|s| - 1]] == s;
    }
  }

  /** Entries the ranking key cannot tell apart. */
  predicate SameRank(a: Entry, b: Entry) {
    a.score == b.score && a.time == b.time && a.created == b.created
  }

  /** The entries of `s` that rank equally with `k`, in their order in `s`. */
  function WithRank(s: seq<Entry>, k: Entry): seq<Entry> {
    if s == [] then []
    else WithRank(s[..|s| - 1], k) + (if SameRank(s[|s| - 1], k) then [s[|s| - 1]] else [])
  }

  /** `Insert` places `x` after every entry that ranks equally with it. */
  lemma {:induction false} InsertStable(x: Entry, s: seq<Entry>, k: Entry)
    ensures WithRank(Insert(x, s), k) == WithRank(s, k) + (if SameRank(x, k) then [x] else [])
  {
    if s == [] {
      assert [x][..0] == [];
    } else {
      var init, last := s[..|s| - 1], s[|s| - 1];
      if RankLe(x, last) {
        assert (s + [x])[..|s|] == s;
      } else {
        InsertStable(x, init, k);
        var q := Insert(x, init);
        assert (q + [last])[..|q|] == q;
        assert !(SameRank(x, k) && SameRank(last, k));
      }
    }
  }

  /** The sort is stable: within every class of equally ranked entries,
      the output keeps the input order. */
  lemma {:induction false} SortDescStable(s: seq<Entry>, k: Entry)
    ensures WithRank(SortDesc(s), k) == WithRank(s, k)
  {
    if s != [] {
      var init := s[..|s| - 1];
      SortDescStable(init, k);
      InsertStable(s[|s| - 1], SortDesc(init), k);
    }
  }

  /** Python's `s[:n]`. */
  function Take(s: seq<Entry>, n: nat): seq<Entry> {
    if |s| <= n then s else s[..n]
  }

  lemma TakeSorted(s: seq<Entry>, n: nat)
    requires SortedDesc(s)
    ensures SortedDesc(Take(s, n)) && |Take(s, n)| <= n && |Take(s, n)| <= |s|
    ensures forall e :: e in Take(s, n) ==> e in s
  {
  }

  /** What a save writes and the store keeps: `sorted(...)[:MAX_STORE]`. */
  function Snapshot(board: seq<Entry>): seq<Entry> {
    Take(SortDesc(board), MAX_STORE)
  }

  /** What a client is shown: `sorted(...)[:MAX_BOARD]`. */
  function TopBoard(board: seq<Entry>): seq<Entry> {
    Take(SortDesc(board), MAX_BOARD)
  }

  /** A snapshot is sorted, within capacity and drawn from the board; on a
      sorted board it is the board's first entries. */
  lemma SnapshotSpec(board: seq<Entry>, n: nat)
    ensures SortedDesc(Take(SortDesc(board), n))
    ensures |Take(SortDesc(board), n)| == Min(|board|, n)
    ensures forall e :: e in Take(SortDesc(board), n) ==> e in board
    ensures |board| <= n ==> multiset(Take(SortDesc(board), n)) == multiset(board)
    ensures SortedDesc(board) ==> Take(SortDesc(board), n) == Take(board, n)
    ensures multiset(Take(SortDesc(board), n)) + multiset(SortDesc(board)[|Take(SortDesc(board), n)|..])
      == multiset(board)
    ensures forall x, y ::
      x in Take(SortDesc(board), n) && y in SortDesc(board)[|Take(SortDesc(board), n)|..]
      ==> RankLe(y, x)
  {
    SortDescSpec(board);
    var t := SortDesc(board);
    TakeSorted(t, n);
    forall e | e in Take(t, n) ensures e in board {
      assert e in multiset(t);
    }
    if SortedDesc(board) {
      SortDescOfSorted(board);
    }
    CutRanks(t, |Take(t, n)|);
  }

  /** Cutting a sorted list in two: the parts hold its entries, and nothing
      after the cut outranks anything before it. */
  lemma CutRanks(t: seq<Entry>, k: nat)
    requires SortedDesc(t) && k <= |t|
    ensures t[..k] == Take(t, k)
    ensures multiset(t[..k]) + multiset(t[k..]) == multiset(t)
    ensures forall x, y :: x in t[..k] && y in t[k..] ==> RankLe(y, x)
  {
    assert t == t[..k] + t[k..];
    forall x, y | x in t[..k] && y in t[k..] ensures RankLe(y, x) {
      var i :| 0 <= i < k && t[..k][i] == x;
      var j :| 0 <= j < |t| - k && t[k..][j] == y;
      assert t[i] == x && t[k + j] == y;
    }
  }

  /** How many entries of `s` rank at least as high as `x`. */
  function CountAtLeast(s: seq<Entry>, x: Entry): nat {
    if s == [] then 0
    else CountAtLeast(s[..|s| - 1], x) + (if RankLe(x, s[|s| - 1]) then 1 else 0)
  }

  lemma {:induction false} CountAtLeastAll(s: seq<Entry>, x: Entry)
    requires forall i :: 0 <= i < |s| ==> RankLe(x, s[i])
    ensures CountAtLeast(s, x) == |s|
  {
    if s != [] {
      CountAtLeastAll(s[..|s| - 1], x);
    }
  }

  /** Into a sorted list, `Insert` puts `x` right after the entries that
      rank at least as high as it. */
  lemma {:induction false} InsertAt(x: Entry, s: seq<Entry>)
    requires SortedDesc(s)
    ensures CountAtLeast(s, x) <= |s|
    ensures Insert(x, s) == s[..CountAtLeast(s, x)] + [x] + s[CountAtLeast(s, x)..]
    ensures forall i :: 0 <= i < CountAtLeast(s, x) ==> RankLe(x, s[i])
  {
    if s != [] {
      var init, last := s[..|s| - 1], s[|s| - 1];
      if RankLe(x, last) {
        assert forall i :: 0 <= i < |init| ==> RankLe(x, init[i]) by {
          forall i | 0 <= i < |init| ensures RankLe(x, init[i]) {
            assert RankLe(last, s[i]);
          }
        }
        CountAtLeastAll(init, x);
        assert s[..|s|] == s && s[|s|..] == [];
      } else {
        assert SortedDesc(init);
        InsertAt(x, init);
        var c := CountAtLeast(init, x);
        assert s[..c] == init[..c];
        assert s[c..] == init[c..] + [last];
      }
    }
  }

  /** Inserting `y` adds one to the count exactly when `y` ranks at least
      as high as `x`. */
  lemma {:induction false} CountAtLeastInsert(y: Entry, s: seq<Entry>, x: Entry)
    ensures CountAtLeast(Insert(y, s), x) == CountAtLeast(s, x) + (if RankLe(x, y) then 1 else 0)
  {
    if s == [] {
      assert [y][..0] == [];
    } else {
      var init, last := s[..|s| - 1], s[|s| - 1];
      if RankLe(y, last) {
        assert (s + [y])[..|s|] == s;
      } else {
        CountAtLeastInsert(y, init, x);
        var q := Insert(y, init);
        assert (q + [last])[..|q|] == q;
      }
    }
  }

  /** Sorting does not change how many entries rank at least as high as `x`. */
  lemma {:induction false} CountAtLeastSort(s: seq<Entry>, x: Entry)
    ensures CountAtLeast(SortDesc(s), x) == CountAtLeast(s, x)
  {
    if s != [] {
      var init := s[..|s| - 1];
      CountAtLeastSort(init, x);
      CountAtLeastInsert(s[|s| - 1], SortDesc(init), x);
    }
  }

  // ---------------------------------------------------------------------
  // TTL pruning

  /** The comprehension `[e for e in board if e["created"] >= cutoff]`. */
  function KeepSince(s: seq<Entry>, cutoff: real): seq<Entry> {
    if s == [] then [] else (if s[0].created >= cutoff then [s[0]] else []) + KeepSince(s[1..], cutoff)
  }

  /** `_prune_leaderboard` for a retention window `ttl`: no change when the
      window is not positive, otherwise keep what was created at or after
      `now - ttl`. */
  function PruneWith(board: seq<Entry>, now: real, ttl: real): (r: seq<Entry>)
    ensures ttl <= 0.0 ==> r == board
  {
    if ttl <= 0.0 then board else KeepSince(board, now - ttl)
  }

  /** `_prune_leaderboard(now)` with the server's 30-day window. */
  function Prune(board: seq<Entry>, now: real): seq<Entry> {
    PruneWith(board, now, BOARD_TTL)
  }

  /** The entries a prune at `now` keeps. */
  predicate Retained(e: Entry, now: real) {
    e.created >= now - BOARD_TTL
  }

  /** Pruning distributes over concatenation, so it keeps order. */
  lemma {:induction false} KeepSinceAppend(a: seq<Entry>, b: seq<Entry>, cutoff: real)
    ensures KeepSince(a + b, cutoff) == KeepSince(a, cutoff) + KeepSince(b, cutoff)
  {
    if a == [] {
      assert a + b == b;
    } else {
      var h := if a[0].created >= cutoff then [a[0]] else [];
      assert (a + b)[0] == a[0];
      assert (a + b)[1..] == a[1..] + b;
      assert KeepSince(a + b, cutoff) == h + KeepSince(a[1..] + b, cutoff);
      KeepSinceAppend(a[1..], b, cutoff);
      assert h + (KeepSince(a[1..], cutoff) + KeepSince(b, cutoff))
        == (h + KeepSince(a[1..], cutoff)) + KeepSince(b, cutoff);
    }
  }

  /** Each entry is kept with all its copies when it is recent enough, and
      dropped entirely otherwise. */
  lemma {:induction false} KeepSinceCount(s: seq<Entry>, cutoff: real, e: Entry)
    ensures multiset(KeepSince(s, cutoff))[e] == if e.created >= cutoff then multiset(s)[e] else 0
  {
    if s != [] {
      KeepSinceCount(s[1..], cutoff, e);
      assert s == [s[0]] + s[1..];
    }
  }

  lemma {:induction false} KeepSinceLength(s: seq<Entry>, cutoff: real)
    ensures |KeepSince(s, cutoff)| <= |s|
  {
    if s != [] {
      KeepSinceLength(s[1..], cutoff);
    }
  }

  lemma {:induction false} KeepSinceSorted(s: seq<Entry>, cutoff: real)
    requires SortedDesc(s)
    ensures SortedDesc(KeepSince(s, cutoff))
  {
    if s != [] {
      KeepSinceSorted(s[1..], cutoff);
      var rest := KeepSince(s[1..], cutoff);
      if s[0].created >= cutoff {
        var r := [s[0]] + rest;
        forall i, j | 0 <= i < j < |r| ensures RankLe(r[j], r[i]) {
          if i == 0 {
            KeepSinceCount(s[1..], cutoff, r[j]);
            assert r[j] in multiset(rest);
            assert r[j] in multiset(s[1..]);
            var k :| 0 <= k < |s[1..]| && s[1..][k] == r[j];
            assert s[k + 1] == r[j];
          }
        }
      }
    }
  }

  lemma {:induction false} KeepSinceIdempotent(s: seq<Entry>, cutoff: real)
    ensures KeepSince(KeepSince(s, cutoff), cutoff) == KeepSince(s, cutoff)
  {
    if s != [] {
      KeepSinceIdempotent(s[1..], cutoff);
      var head := if s[0].created >= cutoff then [s[0]] else [];
      KeepSinceAppend(head, KeepSince(s[1..], cutoff), cutoff);
    }
  }

  /** Pruning keeps, in order, exactly the entries created at or after the
      cutoff (an entry exactly at the cutoff stays), and sorted stays sorted. */
  lemma PruneSpec(board: seq<Entry>, now: real)
    ensures forall e :: multiset(Prune(board, now))[e] == if Retained(e, now) then multiset(board)[e] else 0
    ensures forall e :: e in Prune(board, now) <==> e in board && Retained(e, now)
    ensures forall e :: e in Prune(board, now) ==> Retained(e, now)
    ensures |Prune(board, now)| <= |board|
    ensures SortedDesc(board) ==> SortedDesc(Prune(board, now))
  {
    forall e ensures multiset(Prune(board, now))[e] == if Retained(e, now) then multiset(board)[e] else 0 {
      KeepSinceCount(board, now - BOARD_TTL, e);
    }
    forall e ensures e in Prune(board, now) <==> e in board && Retained(e, now) {
      assert e in Prune(board, now) <==> e in multiset(Prune(board, now));
      assert e in board <==> e in multiset(board);
    }
    KeepSinceLength(board, now - BOARD_TTL);
    if SortedDesc(board) {
      KeepSinceSorted(board, now - BOARD_TTL);
    }
  }

  /** Pruning twice with the same clock equals pruning once. */
  lemma PruneIdempotent(board: seq<Entry>, now: real)
    ensures Prune(Prune(board, now), now) == Prune(board, now)
  {
    KeepSinceIdempotent(board, now - BOARD_TTL);
  }

  /** Pruning a concatenation prunes each part. */
  lemma PruneAppend(a: seq<Entry>, b: seq<Entry>, now: real)
    ensures Prune(a + b, now) == Prune(a, now) + Prune(b, now)
  {
    KeepSinceAppend(a, b, now - BOARD_TTL);
  }

  // ---------------------------------------------------------------------
  // Building entries

  /** `max(x, 0.0)`. */
  function NonNegative(x: real): real {
    if x >= 0.0 then x else 0.0
  }

  /** `f"s-{int(stamp * 1000)}-{token}"`: a generated entry id. */
  function GeneratedId(stamp: real, token: string): (id: string)
    ensures |id| >= 4 && id[..2] == "s-"
  {
    "s-" + IntText(Truncate(stamp * 1000.0)) + "-" + token
  }

  /** The entry `_add_score_entry` builds, before it decides to keep it. */
  function NewEntry(name: string, score: real, t: real, color: string, now: real, token: string): Entry {
    Entry(GeneratedId(now, token), NormalizeName(name), NormalizeColor(color),
          NonNegative(score), NonNegative(t), now)
  }

  /** The board `_add_score_entry` leaves after accepting `e`: append,
      prune, sort, cut to capacity. */
  function Submitted(board: seq<Entry>, e: Entry, now: real): seq<Entry> {
    Take(SortDesc(Prune(board + [e], now)), MAX_STORE)
  }

  /** After a submission the board is sorted, within capacity and made of
      unexpired entries of the old board and the new one; while the pruned
      old board had room, the new entry is kept and nothing else is lost. */
  lemma SubmittedSpec(board: seq<Entry>, e: Entry, now: real)
    requires e.created == now
    ensures SortedDesc(Submitted(board, e, now))
    ensures |Submitted(board, e, now)| <= MAX_STORE
    ensures forall x :: x in Submitted(board, e, now) ==> Retained(x, now) && (x == e || x in board)
    ensures |Prune(board, now)| < MAX_STORE ==>
      multiset(Submitted(board, e, now)) == multiset(Prune(board, now)) + multiset{e}
    ensures |Prune(board, now)| < MAX_STORE ==> e in Submitted(board, e, now)
    ensures |Submitted(board, e, now)| == Min(|Prune(board, now)| + 1, MAX_STORE)
    ensures CountAtLeast(Prune(board, now), e) < MAX_STORE ==> e in Submitted(board, e, now)
    ensures CountAtLeast(Prune(board, now), e) >= MAX_STORE ==>
      forall x :: x in Submitted(board, e, now) ==> RankLe(e, x)
  {
    var p := Prune(board + [e], now);
    SubmittedPrune(board, e, now);
    PruneSpec(board + [e], now);
    SnapshotSpec(p, MAX_STORE);
    if |Prune(board, now)| < MAX_STORE {
      assert e in multiset(Submitted(board, e, now));
    }
    SubmittedRank(board, e, now);
  }

  /** The entry just created survives the prune of its own submission, last. */
  lemma SubmittedPrune(board: seq<Entry>, e: Entry, now: real)
    requires e.created == now
    ensures Prune(board + [e], now) == Prune(board, now) + [e]
  {
    PruneAppend(board, [e], now);
    assert Prune([e], now) == [e] by {
      assert [e][1..] == [];
      assert KeepSince([e], now - BOARD_TTL) == [e] + KeepSince([], now - BOARD_TTL);
    }
  }

  /** The new entry's place in the sorted board is the number of unexpired
      old entries that rank at least as high; it survives the cut exactly
      when that place is inside the capacity, and otherwise everything kept
      ranks at least as high as it. */
  lemma SubmittedRank(board: seq<Entry>, e: Entry, now: real)
    requires e.created == now
    ensures CountAtLeast(Prune(board, now), e) < MAX_STORE ==> e in Submitted(board, e, now)
    ensures CountAtLeast(Prune(board, now), e) >= MAX_STORE ==>
      forall x :: x in Submitted(board, e, now) ==> RankLe(e, x)
  {
    var q := Prune(board, now);
    SubmittedPrune(board, e, now);
    var p := q + [e];
    assert p[..|p| - 1] == q && p[|p| - 1] == e;
    var s := SortDesc(q);
    assert SortDesc(p) == Insert(e, s);
    SortDescSpec(q);
    InsertAt(e, s);
    CountAtLeastSort(q, e);
    var c := CountAtLeast(s, e);
    var t := Insert(e, s);
    assert t[c] == e;
    if c < MAX_STORE {
      assert Take(t, MAX_STORE)[c] == e;
    } else {
      assert Take(t, MAX_STORE) == s[..MAX_STORE];
      forall x | x in Take(t, MAX_STORE) ensures RankLe(e, x) {
        var i :| 0 <= i < MAX_STORE && s[..MAX_STORE][i] == x;
        assert s[i] == x;
      }
    }
  }

  // ---------------------------------------------------------------------
  // The stored file

  /** The JSON object `json.dump` writes for one entry. */
  function EntryJson(e: Entry): Json {
    JObj(map["id" := JStr(e.id), "name" := JStr(e.name), "color" := JStr(e.color),
             "score" := JNum(e.score), "time" := JNum(e.time), "created" := JNum(e.created)])
  }

  /** The JSON list a save writes. */
  function BoardJson(board: seq<Entry>): Json {
    JArr(seq(|board|, i requires 0 <= i < |board| => EntryJson(board[i])))
  }

  /** `raw.get(key, None)` with the `is None` test: absent or `null`. */
  predicate Missing(raw: map<string, Json>, key: string) {
    key !in raw || raw[key] == JNull
  }

  /** `score` as `load_board` reads it: the legacy `best` when `score` is
      absent or `null`, then `max(_safe_float(.., 0.0), 0.0)`. */
  function LoadedScore(raw: map<string, Json>): real {
    NonNegative(SafeFloat(if Missing(raw, "score") then Get(raw, "best", JNum(0.0)) else raw["score"], 0.0))
  }

  /** `time`, falling back to the legacy `bestTime` in the same way. */
  function LoadedTime(raw: map<string, Json>): real {
    NonNegative(SafeFloat(if Missing(raw, "time") then Get(raw, "bestTime", JNum(0.0)) else raw["time"], 0.0))
  }

  /** `created`, else `updated`, else the load time; a value that is not a
      number gives the load time. */
  function LoadedCreated(raw: map<string, Json>, now: real): real {
    SafeFloat(if "created" in raw then raw["created"] else Get(raw, "updated", JNum(now)), now)
  }

  /** The stripped `id`, or a generated one when that is empty. */
  function LoadedId(raw: map<string, Json>, created: real, token: string): string {
    var id := Strip(TextOf(Get(raw, "id", JNull)));
    if id == [] then GeneratedId(created, token) else id
  }

  /** `_normalize_name(raw.get("name"))`. */
  function LoadedName(raw: map<string, Json>): string {
    NormalizeName(TextOf(Get(raw, "name", JNull)))
  }

  /** `_normalize_color(raw.get("color"))`. */
  function LoadedColor(raw: map<string, Json>): string {
    NormalizeColor(TextOf(Get(raw, "color", JNull)))
  }

  /** One stored object as `load_board` reads it. */
  function LoadedEntry(raw: map<string, Json>, now: real, token: string): Entry {
    var created := LoadedCreated(raw, now);
    Entry(LoadedId(raw, created, token), LoadedName(raw), LoadedColor(raw),
          LoadedScore(raw), LoadedTime(raw), created)
  }

  /** The list `load_board`'s loop builds: one entry per object, in file
      order, other items skipped. `tokens(i)` is the token drawn for item i. */
  function LoadedEntries(items: seq<Json>, now: real, tokens: nat -> string): seq<Entry> {
    if items == [] then []
    else
      var n := |items| - 1;
      LoadedEntries(items[..n], now, tokens)
        + (if items[n].JObj? then [LoadedEntry(items[n].fields, now, tokens(n))] else [])
  }

  /** What `load_board` leaves in `LEADERBOARD`: unchanged for an unreadable
      file or a non-list, otherwise the loaded entries sorted and cut to
      capacity (no TTL prune, zero scores kept). */
  function LoadedBoard(items: seq<Json>, now: real, tokens: nat -> string): seq<Entry> {
    Snapshot(LoadedEntries(items, now, tokens))
  }

  /** Every field of an entry is as the server produces it. */
  predicate WellFormed(e: Entry) {
    e.id != [] && 1 <= |e.name| <= NAME_LIMIT && 1 <= |e.color| <= COLOR_LIMIT
    && e.score >= 0.0 && e.time >= 0.0
  }

  /** How many items of a list are objects. */
  function CountObjects(items: seq<Json>): nat {
    if items == [] then 0 else CountObjects(items[..|items| - 1]) + (if items[|items| - 1].JObj? then 1 else 0)
  }

  /** Loading keeps one well-formed entry per object, and only those. */
  lemma {:induction false} LoadedEntriesSpec(items: seq<Json>, now: real, tokens: nat -> string)
    ensures |LoadedEntries(items, now, tokens)| == CountObjects(items)
    ensures forall e :: e in LoadedEntries(items, now, tokens) ==> WellFormed(e)
  {
    if items != [] {
      LoadedEntriesSpec(items[..|items| - 1], now, tokens);
    }
  }

  /** The loaded board is sorted, within capacity and made of well-formed
      entries; when the file holds at most `MAX_STORE` objects every one of
      them is kept, score 0 or not. */
  lemma LoadedBoardSpec(items: seq<Json>, now: real, tokens: nat -> string)
    ensures SortedDesc(LoadedBoard(items, now, tokens))
    ensures |LoadedBoard(items, now, tokens)| <= MAX_STORE
    ensures forall e :: e in LoadedBoard(items, now, tokens) ==> WellFormed(e)
    ensures CountObjects(items) <= MAX_STORE ==>
      multiset(LoadedBoard(items, now, tokens)) == multiset(LoadedEntries(items, now, tokens))
    ensures |LoadedBoard(items, now, tokens)| == Min(CountObjects(items), MAX_STORE)
    ensures forall x, y ::
      x in LoadedBoard(items, now, tokens)
      && y in SortDesc(LoadedEntries(items, now, tokens))[|LoadedBoard(items, now, tokens)|..]
      ==> RankLe(y, x)
  {
    LoadedEntriesSpec(items, now, tokens);
    SnapshotSpec(LoadedEntries(items, now, tokens), MAX_STORE);
  }

  /** An entry that reads back from its own JSON as itself: a non-empty
      stripped id, a collapsed name and a stripped colour within their
      limits, and non-negative score and time. */
  predicate Restorable(e: Entry) {
    e.id != [] && Stripped(e.id)
    && Collapsed(e.name) && 1 <= |e.name| <= NAME_LIMIT
    && Stripped(e.color) && 1 <= |e.color| <= COLOR_LIMIT
    && e.score >= 0.0 && e.time >= 0.0
  }

  /** The fields `load_board` reads from an entry's own JSON object. */
  lemma EntryJsonFields(e: Entry)
    ensures var m := EntryJson(e).fields;
      "id" in m && m["id"] == JStr(e.id)
      && "name" in m && m["name"] == JStr(e.name)
      && "color" in m && m["color"] == JStr(e.color)
      && "score" in m && m["score"] == JNum(e.score)
      && "time" in m && m["time"] == JNum(e.time)
      && "created" in m && m["created"] == JNum(e.created)
  {
  }

  lemma LoadedIdOfJson(e: Entry, token: string)
    requires e.id != [] && Stripped(e.id)
    ensures LoadedId(EntryJson(e).fields, e.created, token) == e.id
  {
    EntryJsonFields(e);
    StripOfStripped(e.id);
  }

  lemma LoadedNameOfJson(e: Entry)
    requires Collapsed(e.name) && 1 <= |e.name| <= NAME_LIMIT
    ensures LoadedName(EntryJson(e).fields) == e.name
  {
    EntryJsonFields(e);
    NameFixedPoint(e.name);
  }

  lemma LoadedColorOfJson(e: Entry)
    requires Stripped(e.color) && 1 <= |e.color| <= COLOR_LIMIT
    ensures LoadedColor(EntryJson(e).fields) == e.color
  {
    EntryJsonFields(e);
    ColorFixedPoint(e.color);
  }

  lemma LoadedEntryOfJson(e: Entry, now: real, token: string)
    requires Restorable(e)
    ensures LoadedEntry(EntryJson(e).fields, now, token) == e
  {
    var m := EntryJson(e).fields;
    EntryJsonFields(e);
    assert LoadedScore(m) == e.score;
    assert LoadedTime(m) == e.time;
    assert LoadedCreated(m, now) == e.created;
    LoadedIdOfJson(e, token);
    LoadedNameOfJson(e);
    LoadedColorOfJson(e);
  }

  // ---------------------------------------------------------------------
  // The legacy stored format

  /** An entry stored in the legacy layout, which keeps the score under
      `best`, the time under `bestTime` and the stamp under `updated`. */
  function LegacyJson(e: Entry): Json {
    JObj(map["id" := JStr(e.id), "name" := JStr(e.name), "color" := JStr(e.color),
             "best" := JNum(e.score), "bestTime" := JNum(e.time), "updated" := JNum(e.created)])
  }

  /** The stored `score` decides when it is present and not `null`,
      whatever `best` holds (`b`); otherwise the legacy `best` does, and a file
      with neither gives 0. */
  lemma ScoreFallback(raw: map<string, Json>, b: Json)
    ensures "score" in raw && raw["score"].JNum? ==> LoadedScore(raw) == NonNegative(raw["score"].n)
    ensures !Missing(raw, "score") ==> LoadedScore(raw["best" := b]) == LoadedScore(raw)
    ensures Missing(raw, "score") && "best" in raw && raw["best"].JNum? ==>
      LoadedScore(raw) == NonNegative(raw["best"].n)
    ensures Missing(raw, "score") && "best" !in raw ==> LoadedScore(raw) == 0.0
  {
    if !Missing(raw, "score") {
      var r := raw["best" := b];
      assert "score" in r && r["score"] == raw["score"];
    }
  }

  /** The stored `time` decides when it is present and not `null`,
      whatever `bestTime` holds (`b`); otherwise the legacy `bestTime` does, and
      a file with neither gives 0. */
  lemma TimeFallback(raw: map<string, Json>, b: Json)
    ensures "time" in raw && raw["time"].JNum? ==> LoadedTime(raw) == NonNegative(raw["time"].n)
    ensures !Missing(raw, "time") ==> LoadedTime(raw["bestTime" := b]) == LoadedTime(raw)
    ensures Missing(raw, "time") && "bestTime" in raw && raw["bestTime"].JNum? ==>
      LoadedTime(raw) == NonNegative(raw["bestTime"].n)
    ensures Missing(raw, "time") && "bestTime" !in raw ==> LoadedTime(raw) == 0.0
  {
    if !Missing(raw, "time") {
      var r := raw["bestTime" := b];
      assert "time" in r && r["time"] == raw["time"];
    }
  }

  /** The stamp is `created` when that key is present (a `null` there gives
      the load time, and `updated`, here `u`, is not looked at), else the legacy
      `updated`, else the load time. */
  lemma CreatedFallback(raw: map<string, Json>, now: real, u: Json)
    ensures "created" in raw && raw["created"].JNum? ==> LoadedCreated(raw, now) == raw["created"].n
    ensures "created" in raw && raw["created"] == JNull ==> LoadedCreated(raw, now) == now
    ensures "created" in raw ==> LoadedCreated(raw["updated" := u], now) == LoadedCreated(raw, now)
    ensures "created" !in raw && "updated" in raw && raw["updated"].JNum? ==>
      LoadedCreated(raw, now) == raw["updated"].n
    ensures "created" !in raw && "updated" !in raw ==> LoadedCreated(raw, now) == now
  {
    if "created" in raw {
      var r := raw["updated" := u];
      assert "created" in r && r["created"] == raw["created"];
    }
  }

  lemma LegacyScoreOfJson(e: Entry)
    requires e.score >= 0.0
    ensures LoadedScore(LegacyJson(e).fields) == e.score
  {
    var m := LegacyJson(e).fields;
    assert "score" !in m && "best" in m && m["best"] == JNum(e.score);
    ScoreFallback(m, JNull);
  }

  lemma LegacyTimeOfJson(e: Entry)
    requires e.time >= 0.0
    ensures LoadedTime(LegacyJson(e).fields) == e.time
  {
    var m := LegacyJson(e).fields;
    assert "time" !in m && "bestTime" in m && m["bestTime"] == JNum(e.time);
    TimeFallback(m, JNull);
  }

  lemma LegacyCreatedOfJson(e: Entry, now: real)
    ensures LoadedCreated(LegacyJson(e).fields, now) == e.created
  {
    var m := LegacyJson(e).fields;
    assert "created" !in m && "updated" in m && m["updated"] == JNum(e.created);
    CreatedFallback(m, now, JNull);
  }

  lemma LegacyIdOfJson(e: Entry, token: string)
    requires e.id != [] && Stripped(e.id)
    ensures LoadedId(LegacyJson(e).fields, e.created, token) == e.id
  {
    var m := LegacyJson(e).fields;
    assert "id" in m && m["id"] == JStr(e.id);
    StripOfStripped(e.id);
  }

  lemma LegacyNameOfJson(e: Entry)
    requires Collapsed(e.name) && 1 <= |e.name| <= NAME_LIMIT
    ensures LoadedName(LegacyJson(e).fields) == e.name
  {
    var m := LegacyJson(e).fields;
    assert "name" in m && m["name"] == JStr(e.name);
    NameFixedPoint(e.name);
  }

  lemma LegacyColorOfJson(e: Entry)
    requires Stripped(e.color) && 1 <= |e.color| <= COLOR_LIMIT
    ensures LoadedColor(LegacyJson(e).fields) == e.color
  {
    var m := LegacyJson(e).fields;
    assert "color" in m && m["color"] == JStr(e.color);
    ColorFixedPoint(e.color);
  }

  /** A restorable entry stored in the legacy layout loads as the same
      entry it would load as from the current layout. */
  lemma LegacyEntryOfJson(e: Entry, now: real, token: string)
    requires Restorable(e)
    ensures LoadedEntry(LegacyJson(e).fields, now, token) == e
    ensures LoadedEntry(LegacyJson(e).fields, now, token) == LoadedEntry(EntryJson(e).fields, now, token)
  {
    LegacyCreatedOfJson(e, now);
    LegacyIdOfJson(e, token);
    LegacyNameOfJson(e);
    LegacyColorOfJson(e);
    LegacyScoreOfJson(e);
    LegacyTimeOfJson(e);
    LoadedEntryOfJson(e, now, token);
  }

  lemma BoardJsonLast(board: seq<Entry>)
    requires board != []
    ensures BoardJson(board).items[..|board| - 1] == BoardJson(board[..|board| - 1]).items
    ensures BoardJson(board).items[|board| - 1] == EntryJson(board[|board| - 1])
  {
  }

  lemma LoadedEntriesLast(items: seq<Json>, now: real, tokens: nat -> string)
    requires items != [] && items[|items| - 1].JObj?
    ensures LoadedEntries(items, now, tokens)
      == LoadedEntries(items[..|items| - 1], now, tokens) + [LoadedEntry(items[|items| - 1].fields, now, tokens(|items| - 1))]
  {
  }

  lemma {:induction false} LoadedEntriesOfJson(board: seq<Entry>, now: real, tokens: nat -> string)
    requires forall i :: 0 <= i < |board| ==> Restorable(board[i])
    ensures LoadedEntries(BoardJson(board).items, now, tokens) == board
  {
    if board != [] {
      var n := |board| - 1;
      assert board == board[..n] + [board[n]];
      var items := BoardJson(board).items;
      BoardJsonLast(board);
      LoadedEntriesOfJson(board[..n], now, tokens);
      LoadedEntryOfJson(board[n], now, tokens(n));
      LoadedEntriesLast(items, now, tokens);
    }
  }

  /** Saving a sorted board of restorable entries and loading the file back
      gives the same board. */
  lemma SaveLoadRoundTrip(board: seq<Entry>, now: real, tokens: nat -> string)
    requires SortedDesc(board) && |board| <= MAX_STORE
    requires forall i :: 0 <= i < |board| ==> Restorable(board[i])
    ensures LoadedBoard(BoardJson(board).items, now, tokens) == board
  {
    LoadedEntriesOfJson(board, now, tokens);
    SortDescOfSorted(board);
  }

  /** A generated id has no surrounding whitespace when the token does not
      end in whitespace. */
  lemma GeneratedIdStripped(stamp: real, token: string)
    requires token == [] || !IsSpace(token[|token| - 1])
    ensures Stripped(GeneratedId(stamp, token))
  {
    var id := GeneratedId(stamp, token);
    var p := "s-" + IntText(Truncate(stamp * 1000.0)) + "-";
    assert id == p + token;
    assert id[0] == p[0] == 's';
    if token == [] {
      assert id[|id| - 1] == p[|p| - 1] == '-';
    } else {
      assert id[|id| - 1] == token[|token| - 1];
    }
  }

  /** The entry `/api/score` records, whose name and colour went through the
      normalisers twice, reads back from its own JSON as itself. */
  lemma SubmittedEntryRestorable(name: string, score: real, t: real, color: string, now: real, token: string)
    requires token == [] || !IsSpace(token[|token| - 1])
    ensures Restorable(NewEntry(NormalizeName(name), score, t, NormalizeColor(color), now, token))
  {
    var n2 := NormalizeName(NormalizeName(name));
    var c2 := NormalizeColor(NormalizeColor(color));
    var id := GeneratedId(now, token);
    assert NewEntry(NormalizeName(name), score, t, NormalizeColor(color), now, token)
      == Entry(id, n2, c2, NonNegative(score), NonNegative(t), now);
    NormalizeNameTwice(name);
    NormalizeColorTwice(color);
    GeneratedIdStripped(now, token);
  }
}
