/** `scripts/lint_scores_json.py`: the checks it runs over the parsed
    contents of `scores.json`, the errors it collects and its exit code. */
module ScoresLint {
  import opened Wrappers
  import opened Decimal
  import opened JsonValue
  import opened Leaderboard

  /** The keys every stored entry must have, in reporting order. */
  const EXPECTED_KEYS: seq<string> := ["id", "name", "color", "score", "time", "created"]

  /** What is wrong with one entry. */
  datatype Problem =
    | NotAnObject
    | MissingKey(key: string)
    | NegativeScore
    | NegativeTime
    | CreatedNotNumeric

  /** One line of the report: the entry's position in the list and its problem. */
  datatype LintError = LintError(index: nat, problem: Problem)

  function Detail(p: Problem): string {
    match p
    case NotAnObject => "not an object"
    case MissingKey(k) => "missing " + k
    case NegativeScore => "score < 0"
    case NegativeTime => "time < 0"
    case CreatedNotNumeric => "created not numeric"
  }

  /** The text of a report line, `entry <index>: <detail>`. */
  function Message(e: LintError): (r: string)
    ensures |r| > 8 && r[..6] == "entry "
    ensures exists d :: r == "entry " + d + ": " + Detail(e.problem) && d != [] && AllDigits(d) && Value(d) == e.index
  {
    "entry " + IntText(e.index) + ": " + Detail(e.problem)
  }

  /** A report line gives back its entry's position and its detail text:
      the digits end at the first `:`. */
  lemma MessageReadBack(e1: LintError, e2: LintError)
    requires Message(e1) == Message(e2)
    ensures e1.index == e2.index && Detail(e1.problem) == Detail(e2.problem)
  {
    var d1, d2 := IntText(e1.index), IntText(e2.index);
    var r := Message(e1);
    assert r == "entry " + d1 + ": " + Detail(e1.problem);
    assert r == "entry " + d2 + ": " + Detail(e2.problem);
    FirstColon(r, d1, Detail(e1.problem));
    FirstColon(r, d2, Detail(e2.problem));
    assert d1 == r[6..6 + |d1|] == d2;
    assert Detail(e1.problem) == r[8 + |d1|..] == Detail(e2.problem);
  }

  /** In `entry <digits>: ...` the first `:` follows the digits. */
  lemma FirstColon(r: string, d: string, detail: string)
    requires AllDigits(d) && r == "entry " + d + ": " + detail
    ensures r[6 + |d|] == ':' && forall k :: 6 <= k < 6 + |d| ==> r[k] != ':'
  {
    forall k | 6 <= k < 6 + |d| ensures r[k] != ':' {
      assert r[k] == d[k - 6];
    }
  }

  /** One `missing <key>` problem per absent key, in the order of `keys`. */
  function MissingKeys(fields: map<string, Json>, keys: seq<string>): seq<Problem> {
    if keys == [] then []
    else
      var n := |keys| - 1;
      MissingKeys(fields, keys[..n]) + (if keys[n] !in fields then [MissingKey(keys[n])] else [])
  }

  /** A numeric value below zero (a boolean compares as 0 or 1); values
      that are not numbers pass. */
  predicate NegativeNumber(v: Json) {
    IsNumber(v) && SafeFloat(v, 0.0) < 0.0
  }

  /** The checks after the key check, in the script's order. */
  function ValueProblems(fields: map<string, Json>): seq<Problem> {
    (if NegativeNumber(Get(fields, "score", JNull)) then [NegativeScore] else [])
    + (if NegativeNumber(Get(fields, "time", JNull)) then [NegativeTime] else [])
    + (if Get(fields, "created", JNull) != JNull && !IsNumber(Get(fields, "created", JNull))
       then [CreatedNotNumeric] else [])
  }

  /** Everything reported about one entry. */
  function EntryProblems(entry: Json): seq<Problem> {
    if !entry.JObj? then [NotAnObject]
    else MissingKeys(entry.fields, EXPECTED_KEYS) + ValueProblems(entry.fields)
  }

  /** The problems of `entry`, tagged with its position `idx`. */
  function Tagged(idx: nat, ps: seq<Problem>): (r: seq<LintError>)
    ensures |r| == |ps|
    ensures forall k :: 0 <= k < |ps| ==> r[k] == LintError(idx, ps[k])
  {
    seq(|ps|, k requires 0 <= k < |ps| => LintError(idx, ps[k]))
  }

  /** The error list of the whole file: every entry is checked, none stops
      the run. */
  function AllErrors(items: seq<Json>): seq<LintError> {
    if items == [] then []
    else
      var n := |items| - 1;
      AllErrors(items[..n]) + Tagged(n, EntryProblems(items[n]))
  }

  /** The exit code of `main`: 1 for an unreadable file (`None`), a value
      that is not a list, or any error; 0 otherwise. */
  function ExitCode(file: Option<Json>): int {
    if file.None? || !file.value.JArr? then 1
    else if AllErrors(file.value.items) != [] then 1
    else 0
  }

  /** One pass of the entry loop of `main`: the errors it appends for the
      entry at position `idx`. */
  method CheckEntry(idx: nat, entry: Json) returns (errors: seq<LintError>)
    ensures errors == Tagged(idx, EntryProblems(entry))
  {
    if !entry.JObj? {
      return [LintError(idx, NotAnObject)];
    }
    var fields := entry.fields;
    errors := [];
    var k := 0;
    while k < |EXPECTED_KEYS|
      invariant 0 <= k <= |EXPECTED_KEYS|
      invariant errors == Tagged(idx, MissingKeys(fields, EXPECTED_KEYS[..k]))
    {
      var key := EXPECTED_KEYS[k];
      assert EXPECTED_KEYS[..k + 1][..k] == EXPECTED_KEYS[..k];
      if key !in fields {
        TaggedAppend(idx, MissingKeys(fields, EXPECTED_KEYS[..k]), [MissingKey(key)]);
        errors := errors + [LintError(idx, MissingKey(key))];
      }
      k := k + 1;
    }
    assert EXPECTED_KEYS[..k] == EXPECTED_KEYS;
    ghost var keyed := errors;
    var score := Get(fields, "score", JNull);
    var timeVal := Get(fields, "time", JNull);
    var created := Get(fields, "created", JNull);
    if IsNumber(score) && SafeFloat(score, 0.0) < 0.0 {
      errors := errors + [LintError(idx, NegativeScore)];
    }
    if IsNumber(timeVal) && SafeFloat(timeVal, 0.0) < 0.0 {
      errors := errors + [LintError(idx, NegativeTime)];
    }
    if created != JNull && !IsNumber(created) {
      errors := errors + [LintError(idx, CreatedNotNumeric)];
    }
    assert errors == keyed + Tagged(idx, ValueProblems(fields));
    TaggedAppend(idx, MissingKeys(fields, EXPECTED_KEYS), ValueProblems(fields));
  }

  /** `main` from the point where the file has been parsed: the errors
      collected and the exit code. */
  method Run(file: Option<Json>) returns (errors: seq<LintError>, code: int)
    ensures code == ExitCode(file)
    ensures file.Some? && file.value.JArr? ==> errors == AllErrors(file.value.items)
    ensures file.None? || !file.value.JArr? ==> errors == []
  {
    errors := [];
    if file.None? || !file.value.JArr? {
      return errors, 1;
    }
    var data := file.value.items;
    var idx := 0;
    while idx < |data|
      invariant 0 <= idx <= |data|
      invariant errors == AllErrors(data[..idx])
    {
      assert data[..idx + 1][..idx] == data[..idx];
      var found := CheckEntry(idx, data[idx]);
      errors := errors + found;
      idx := idx + 1;
    }
    assert data[..idx] == data;
    code := if errors != [] then 1 else 0;
  }

  lemma TaggedAppend(idx: nat, a: seq<Problem>, b: seq<Problem>)
    ensures Tagged(idx, a + b) == Tagged(idx, a) + Tagged(idx, b)
  {
  }

  /** A file whose top-level value is not a list, or that cannot be read,
      fails; a list passes exactly when no entry has a problem. */
  lemma ExitCodeSpec(file: Option<Json>)
    ensures file.None? ==> ExitCode(file) == 1
    ensures file.Some? && !file.value.JArr? ==> ExitCode(file) == 1
    ensures file.Some? && file.value.JArr? ==>
      (ExitCode(file) == 0 <==> forall i :: 0 <= i < |file.value.items| ==> EntryProblems(file.value.items[i]) == [])
  {
    if file.Some? && file.value.JArr? {
      var items := file.value.items;
      AllErrorsSpec(items);
      if AllErrors(items) != [] {
        var e := AllErrors(items)[0];
        assert e in AllErrors(items);
        assert e.problem in EntryProblems(items[e.index]);
      }
      if exists i :: 0 <= i < |items| && EntryProblems(items[i]) != [] {
        var i :| 0 <= i < |items| && EntryProblems(items[i]) != [];
        assert LintError(i, EntryProblems(items[i])[0]) in AllErrors(items);
      }
    }
  }

  /** The report lists, for every entry, all of its problems and nothing
      else: errors accumulate across entries. */
  lemma {:induction false} AllErrorsSpec(items: seq<Json>)
    ensures forall e :: e in AllErrors(items) <==>
      e.index < |items| && e.problem in EntryProblems(items[e.index])
  {
    if items != [] {
      var n := |items| - 1;
      var ps := EntryProblems(items[n]);
      AllErrorsSpec(items[..n]);
      forall e ensures e in AllErrors(items) <==> e.index < |items| && e.problem in EntryProblems(items[e.index]) {
        TaggedMember(n, ps, e);
        if e.index < n {
          assert items[..n][e.index] == items[e.index];
        }
      }
    }
  }

  /** A tagged list holds exactly its problems, each at the given position. */
  lemma TaggedMember(idx: nat, ps: seq<Problem>, e: LintError)
    ensures e in Tagged(idx, ps) <==> e.index == idx && e.problem in ps
  {
    var t := Tagged(idx, ps);
    if e in t {
      var k :| 0 <= k < |t| && t[k] == e;
      assert e.problem == ps[k];
    }
    if e.index == idx && e.problem in ps {
      var k :| 0 <= k < |ps| && ps[k] == e.problem;
      assert t[k] == e;
    }
  }

  /** An entry that is not an object gets exactly one problem. */
  lemma NotAnObjectAlone(entry: Json)
    requires !entry.JObj?
    ensures EntryProblems(entry) == [NotAnObject]
  {
  }

  /** Exactly the keys the object lacks are reported missing. */
  lemma {:induction false} MissingKeysSpec(fields: map<string, Json>, keys: seq<string>)
    ensures forall p :: p in MissingKeys(fields, keys) <==> p.MissingKey? && p.key in keys && p.key !in fields
    ensures |MissingKeys(fields, keys)| <= |keys|
    ensures (forall k :: k in keys ==> k in fields) ==> MissingKeys(fields, keys) == []
  {
    if keys != [] {
      var n := |keys| - 1;
      MissingKeysSpec(fields, keys[..n]);
      assert keys == keys[..n] + [keys[n]];
      forall p ensures p in MissingKeys(fields, keys) <==> p.MissingKey? && p.key in keys && p.key !in fields {
        if p.MissingKey? && p.key in keys && p.key !in fields && p.key != keys[n] {
          var j :| 0 <= j < |keys| && keys[j] == p.key;
          assert keys[..n][j] == p.key;
        }
      }
    }
  }

  /** The missing keys are reported in the order of `keys`: what the first
      `m` keys give comes first. */
  lemma {:induction false} MissingKeysOrder(fields: map<string, Json>, keys: seq<string>)
    ensures forall m :: 0 <= m <= |keys| ==> MissingKeys(fields, keys[..m]) <= MissingKeys(fields, keys)
  {
    if keys != [] {
      var n := |keys| - 1;
      var init := keys[..n];
      MissingKeysOrder(fields, init);
      forall m | 0 <= m <= |keys| ensures MissingKeys(fields, keys[..m]) <= MissingKeys(fields, keys) {
        if m <= n {
          assert keys[..m] == init[..m];
        } else {
          assert keys[..m] == keys;
        }
      }
    }
  }

  /** When the keys are distinct, no key is reported twice. */
  lemma {:induction false} MissingKeysDistinct(fields: map<string, Json>, keys: seq<string>)
    requires forall i, j :: 0 <= i < j < |keys| ==> keys[i] != keys[j]
    ensures forall i, j :: 0 <= i < j < |MissingKeys(fields, keys)| ==>
      MissingKeys(fields, keys)[i] != MissingKeys(fields, keys)[j]
  {
    if keys != [] {
      var n := |keys| - 1;
      var init := keys[..n];
      MissingKeysDistinct(fields, init);
      MissingKeysSpec(fields, init);
      var r0 := MissingKeys(fields, init);
      var r := MissingKeys(fields, keys);
      assert r == r0 + (if keys[n] !in fields then [MissingKey(keys[n])] else []);
      forall i, j | 0 <= i < j < |r| ensures r[i] != r[j] {
        assert r[i] == r0[i] && r0[i] in r0;
        if j == |r0| {
          var a :| 0 <= a < n && init[a] == r0[i].key;
          assert keys[a] != keys[n];
        }
      }
    }
  }

  /** The script's six keys are distinct, so each is reported at most once. */
  lemma ExpectedKeysDistinct()
    ensures forall i, j :: 0 <= i < j < |EXPECTED_KEYS| ==> EXPECTED_KEYS[i] != EXPECTED_KEYS[j]
  {
  }

  /** A negative `score` or `time` is reported only when it is a number
      (booleans never are negative), and a `created` only when it is
      present, not `null`, not a number and not a boolean. */
  lemma ValueProblemsSpec(fields: map<string, Json>)
    ensures NegativeScore in ValueProblems(fields) <==>
      "score" in fields && fields["score"].JNum? && fields["score"].n < 0.0
    ensures NegativeTime in ValueProblems(fields) <==>
      "time" in fields && fields["time"].JNum? && fields["time"].n < 0.0
    ensures CreatedNotNumeric in ValueProblems(fields) <==>
      "created" in fields && fields["created"] != JNull && !fields["created"].JNum? && !fields["created"].JBool?
    ensures forall p :: p in ValueProblems(fields) ==> !p.MissingKey? && !p.NotAnObject?
  {
  }

  /** An object entry: its problems are the missing keys followed by the
      value checks. */
  lemma ObjectProblems(fields: map<string, Json>)
    ensures forall p :: p in EntryProblems(JObj(fields)) <==>
      (p.MissingKey? && p.key in EXPECTED_KEYS && p.key !in fields) || p in ValueProblems(fields)
    ensures NotAnObject !in EntryProblems(JObj(fields))
  {
    MissingKeysSpec(fields, EXPECTED_KEYS);
    ValueProblemsSpec(fields);
  }

  /** The object the server writes for an entry with non-negative score
      and time has no problem. */
  lemma EntryJsonClean(e: Entry)
    requires e.score >= 0.0 && e.time >= 0.0
    ensures EntryProblems(EntryJson(e)) == []
  {
    EntryJsonFields(e);
    MissingKeysSpec(EntryJson(e).fields, EXPECTED_KEYS);
    assert ValueProblems(EntryJson(e).fields) == [];
  }

  /** Every file the server writes from well-formed entries passes the
      lint script. */
  lemma BoardJsonClean(board: seq<Entry>)
    requires forall e :: e in board ==> WellFormed(e)
    ensures ExitCode(Some(BoardJson(board))) == 0
  {
    var items := BoardJson(board).items;
    forall i | 0 <= i < |items| ensures EntryProblems(items[i]) == [] {
      assert board[i] in board;
      EntryJsonClean(board[i]);
    }
    ExitCodeSpec(Some(BoardJson(board)));
  }
}
