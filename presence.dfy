/** The presence registry of `server.py`: the session key a request names,
    the record a heartbeat stores, the stale-session sweep and the peer
    snapshot. A request body is a parsed JSON object. */
module Presence {
  import opened Wrappers
  import opened Text
  import opened JsonValue
  import opened Fields

  /** Seconds after its last heartbeat that a session stays listed. */
  const EXPIRATION: real := 300.0

  /** One `PLAYERS[session_id]` record. */
  datatype Player = Player(
    id: string, clientId: Option<string>, x: real, y: real,
    color: string, name: string, score: real, time: real,
    best: real, bestTime: real, ts: real)

  /** Python's `a or b`. */
  function Or(a: Json, b: Json): (r: Json)
    ensures Truthy(r) <==> Truthy(a) || Truthy(b)
    ensures Truthy(a) ==> r == a
  {
    if Truthy(a) then a else b
  }

  /** `str(data.get("sessionId") or data.get("sid") or data.get("id") or "").strip()`. */
  function SessionKey(data: map<string, Json>): (sid: string)
    ensures Stripped(sid)
  {
    Strip(TextOf(Or(Get(data, "sessionId", JNull), Or(Get(data, "sid", JNull), Get(data, "id", JNull)))))
  }

  /** The first of `sessionId`, `sid`, `id` that is a non-blank string
      names the session, and a request naming none has the empty key. */
  lemma SessionKeySpec(data: map<string, Json>)
    ensures "sessionId" in data && data["sessionId"].JStr? && data["sessionId"].s != []
      ==> SessionKey(data) == Strip(data["sessionId"].s)
    ensures !Truthy(Get(data, "sessionId", JNull)) && "sid" in data && data["sid"].JStr? && data["sid"].s != []
      ==> SessionKey(data) == Strip(data["sid"].s)
    ensures !Truthy(Get(data, "sessionId", JNull)) && !Truthy(Get(data, "sid", JNull))
      && "id" in data && data["id"].JStr?
      ==> SessionKey(data) == Strip(data["id"].s)
    ensures !Truthy(Get(data, "sessionId", JNull)) && !Truthy(Get(data, "sid", JNull)) && !Truthy(Get(data, "id", JNull))
      ==> SessionKey(data) == []
  {
    if !Truthy(Get(data, "sessionId", JNull)) && !Truthy(Get(data, "sid", JNull)) && !Truthy(Get(data, "id", JNull)) {
      assert TextOf(Or(Get(data, "sessionId", JNull), Or(Get(data, "sid", JNull), Get(data, "id", JNull)))) == [];
      assert Blank([]);
    }
  }

  /** Python's `max(a, b)` on floats. */
  function Max(a: real, b: real): (m: real)
    ensures m >= a && m >= b && (m == a || m == b)
  {
    if a >= b then a else b
  }

  /** `_safe_float(data.get(key, default), 0.0)`. */
  function Number(data: map<string, Json>, key: string, default: real): real {
    SafeFloat(Get(data, key, JNum(default)), 0.0)
  }

  /** The stored `best` of a previous record, `0` when there is none. */
  function PrevBest(prev: Option<Player>): real {
    if prev.Some? then prev.value.best else 0.0
  }

  /** The stored `bestTime` of a previous record, `0` when there is none. */
  function PrevBestTime(prev: Option<Player>): real {
    if prev.Some? then prev.value.bestTime else 0.0
  }

  /** `data.get(key, prev.get(key))` for a text field of the record. */
  function Inherited(data: map<string, Json>, key: string, prevValue: Option<string>): Json {
    if key in data then data[key]
    else if prevValue.Some? then JStr(prevValue.value) else JNull
  }

  /** `str(data.get("clientId") or prev.get("clientId") or "").strip() or None`. */
  function MergedClientId(data: map<string, Json>, prev: Option<Player>): (c: Option<string>)
    ensures c.Some? ==> c.value != [] && Stripped(c.value)
  {
    var prevId := if prev.Some? && prev.value.clientId.Some? then JStr(prev.value.clientId.value) else JNull;
    var s := Strip(TextOf(Or(Get(data, "clientId", JNull), prevId)));
    if s == [] then None else Some(s)
  }

  /** `_normalize_color(data.get("color", prev.get("color")))`. */
  function MergedColor(data: map<string, Json>, prev: Option<Player>): string {
    NormalizeColor(TextOf(Inherited(data, "color", if prev.Some? then Some(prev.value.color) else None)))
  }

  /** `_normalize_name(data.get("name", prev.get("name")))`. */
  function MergedName(data: map<string, Json>, prev: Option<Player>): string {
    NormalizeName(TextOf(Inherited(data, "name", if prev.Some? then Some(prev.value.name) else None)))
  }

  /** The record a heartbeat for `sid` stores, given the previous record. */
  function Merge(prev: Option<Player>, sid: string, data: map<string, Json>, now: real): Player {
    var score := Number(data, "score", 0.0);
    var t := Number(data, "time", 0.0);
    var best := Max(Number(data, "best", score), PrevBest(prev));
    var bestTime := Max(Number(data, "bestTime", t), PrevBestTime(prev));
    Player(
      sid,
      MergedClientId(data, prev),
      Number(data, "x", 0.0), Number(data, "y", 0.0),
      MergedColor(data, prev), MergedName(data, prev),
      if score > 0.0 then score else best,
      if t > 0.0 then t else bestTime,
      best, bestTime, now)
  }

  /** The running best is the larger of the incoming best (the incoming
      score when `best` is absent) and the previous best, never below 0;
      `bestTime` is the same maximum taken on its own. Both never decrease. */
  lemma MergeBest(prev: Option<Player>, sid: string, data: map<string, Json>, now: real)
    ensures var p := Merge(prev, sid, data, now);
      var incoming := if "best" in data then SafeFloat(data["best"], 0.0) else Number(data, "score", 0.0);
      p.best >= incoming && p.best >= PrevBest(prev) && (p.best == incoming || p.best == PrevBest(prev))
    ensures var p := Merge(prev, sid, data, now);
      var incoming := if "bestTime" in data then SafeFloat(data["bestTime"], 0.0) else Number(data, "time", 0.0);
      p.bestTime >= incoming && p.bestTime >= PrevBestTime(prev)
      && (p.bestTime == incoming || p.bestTime == PrevBestTime(prev))
    ensures prev.None? ==> Merge(prev, sid, data, now).best >= 0.0 && Merge(prev, sid, data, now).bestTime >= 0.0
    ensures prev.Some? ==>
      Merge(prev, sid, data, now).best >= prev.value.best && Merge(prev, sid, data, now).bestTime >= prev.value.bestTime
  {
    var score := Number(data, "score", 0.0);
    if "best" !in data {
      assert Number(data, "best", score) == SafeFloat(JNum(score), 0.0) == score;
    }
    var t := Number(data, "time", 0.0);
    if "bestTime" !in data {
      assert Number(data, "bestTime", t) == t;
    }
  }

  /** The stored `score` and `time` are the incoming ones when positive,
      otherwise the running bests; the record is keyed by its session and
      stamped with `now`. While previous bests are non-negative, so are the
      stored values. */
  lemma MergeCurrent(prev: Option<Player>, sid: string, data: map<string, Json>, now: real)
    ensures var p := Merge(prev, sid, data, now);
      var score := Number(data, "score", 0.0);
      var t := Number(data, "time", 0.0);
      (score > 0.0 ==> p.score == score) && (score <= 0.0 ==> p.score == p.best)
      && (t > 0.0 ==> p.time == t) && (t <= 0.0 ==> p.time == p.bestTime)
    ensures Merge(prev, sid, data, now).ts == now && Merge(prev, sid, data, now).id == sid
    ensures PrevBest(prev) >= 0.0 && PrevBestTime(prev) >= 0.0 ==>
      var p := Merge(prev, sid, data, now);
      p.best >= 0.0 && p.bestTime >= 0.0 && p.score >= 0.0 && p.time >= 0.0
  {
  }

  /** Text fields a heartbeat leaves out keep the previous record's value,
      passed through the normaliser again; a field sent as `null` or blank
      resets to the default instead. */
  lemma MergeInheritsColor(p: Player, data: map<string, Json>)
    ensures "color" !in data ==> MergedColor(data, Some(p)) == NormalizeColor(p.color)
    ensures "color" in data && !Truthy(data["color"]) ==> MergedColor(data, Some(p)) == DEFAULT_COLOR
  {
    if "color" !in data && p.color == [] {
      assert TextOf(JStr(p.color)) == p.color;
    }
    if "color" in data && !Truthy(data["color"]) {
      assert Blank(TextOf(data["color"]));
    }
  }

  lemma MergeInheritsName(p: Player, data: map<string, Json>)
    ensures "name" !in data ==> MergedName(data, Some(p)) == NormalizeName(p.name)
    ensures "name" in data && !Truthy(data["name"]) ==> MergedName(data, Some(p)) == DEFAULT_NAME
  {
    if "name" !in data && p.name == [] {
      assert TextOf(JStr(p.name)) == p.name;
    }
    if "name" in data && !Truthy(data["name"]) {
      assert Blank(TextOf(data["name"]));
    }
  }

  /** A client id the request does not give (or gives as a false value)
      is taken from the previous record. */
  lemma MergeInheritsClientId(p: Player, data: map<string, Json>)
    requires p.clientId.Some? ==> p.clientId.value != [] && Stripped(p.clientId.value)
    ensures !Truthy(Get(data, "clientId", JNull)) ==> MergedClientId(data, Some(p)) == p.clientId
  {
    if !Truthy(Get(data, "clientId", JNull)) {
      if p.clientId.Some? {
        StripOfStripped(p.clientId.value);
      } else {
        assert Blank([]);
      }
    }
  }

  /** A session is live at `now` unless its last heartbeat is strictly more
      than `EXPIRATION` seconds old. */
  predicate Live(p: Player, now: real) {
    now - p.ts <= EXPIRATION
  }

  /** The registry after the stale-session sweep. */
  function Sweep(players: map<string, Player>, now: real): map<string, Player> {
    map k | k in players && Live(players[k], now) :: players[k]
  }

  /** The peer snapshot for `sid`: every other session, or with a positive
      `since` only those whose heartbeat came strictly after it. */
  function Peers(players: map<string, Player>, sid: string, since: real): map<string, Player> {
    map k | k in players && k != sid && (since > 0.0 ==> players[k].ts > since) :: players[k]
  }

  /** The sweep keeps exactly the live sessions, untouched; a session
      exactly `EXPIRATION` seconds old stays. */
  lemma SweepSpec(players: map<string, Player>, now: real)
    ensures forall k :: k in Sweep(players, now) <==> k in players && now - players[k].ts <= EXPIRATION
    ensures forall k :: k in Sweep(players, now) ==> Sweep(players, now)[k] == players[k]
    ensures Sweep(Sweep(players, now), now) == Sweep(players, now)
  {
  }

  /** The session a heartbeat just stored survives the sweep and is never
      among its own peers. */
  lemma CallerKept(players: map<string, Player>, sid: string, data: map<string, Json>, now: real, since: real)
    ensures var reg := Sweep(players[sid := Merge(if sid in players then Some(players[sid]) else None, sid, data, now)], now);
      sid in reg && reg[sid].ts == now && sid !in Peers(reg, sid, since)
  {
    var p := Merge(if sid in players then Some(players[sid]) else None, sid, data, now);
    assert Live(p, now);
  }

  /** With a positive `since` the snapshot is exactly the other sessions
      heard from after `since`; otherwise it is all other sessions. */
  lemma PeersSpec(players: map<string, Player>, sid: string, since: real)
    ensures since > 0.0 ==> forall k :: k in Peers(players, sid, since) <==> k in players && k != sid && players[k].ts > since
    ensures since <= 0.0 ==> Peers(players, sid, since) == players - {sid}
    ensures forall k :: k in Peers(players, sid, since) ==> Peers(players, sid, since)[k] == players[k]
  {
  }
}
