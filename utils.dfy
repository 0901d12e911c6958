/** The string and number helpers of `js/utils.js`. Strings are sequences
    of UTF-16 code units; letter case is the ASCII mapping. */
module JsUtils {
  import opened Decimal

  // ---------------------------------------------------------------------
  // clamp

  /** `Math.max(min, Math.min(max, value))`. */
  function Clamp(value: real, lo: real, hi: real): real {
    var m := if hi <= value then hi else value;
    if lo >= m then lo else m
  }

  /** With `lo <= hi` the result lies in the range and a value already in
      it is kept; with `lo > hi` the result is `lo`. Clamping twice is
      clamping once. */
  lemma ClampSpec(value: real, lo: real, hi: real)
    ensures lo <= hi ==> lo <= Clamp(value, lo, hi) <= hi
    ensures lo <= value <= hi ==> Clamp(value, lo, hi) == value
    ensures lo <= hi && value < lo ==> Clamp(value, lo, hi) == lo
    ensures lo <= hi && value > hi ==> Clamp(value, lo, hi) == hi
    ensures lo > hi ==> Clamp(value, lo, hi) == lo
    ensures Clamp(Clamp(value, lo, hi), lo, hi) == Clamp(value, lo, hi)
  {
  }

  /** `isInBounds`: the point lies in the closed rectangle. */
  predicate InBounds(x: real, y: real, left: real, top: real, width: real, height: real) {
    x >= left && x <= left + width && y >= top && y <= top + height
  }

  /** A point is in bounds exactly when clamping it to the rectangle leaves
      it where it is. */
  lemma InBoundsClamp(x: real, y: real, left: real, top: real, width: real, height: real)
    requires width >= 0.0 && height >= 0.0
    ensures InBounds(x, y, left, top, width, height) <==>
      Clamp(x, left, left + width) == x && Clamp(y, top, top + height) == y
  {
  }

  // ---------------------------------------------------------------------
  // formatClock

  /** `String(val).padStart(2, '0')` for a natural number. */
  function Pad2(n: nat): (s: string)
    ensures AllDigits(s) && |s| >= 2 && Value(s) == n
    ensures n < 100 ==> |s| == 2
    ensures n >= 10 ==> s == Digits(n)
  {
    var d := Digits(n);
    ValueOfDigits(n);
    if |d| < 2 then
      ValueLeadingZeros("0", d);
      "0" + d
    else d
  }

  /** `formatClock(seconds)` for a whole, non-negative number of seconds. */
  function FormatClock(seconds: nat): string {
    Pad2(seconds / 3600) + ":" + Pad2(seconds % 3600 / 60) + ":" + Pad2(seconds % 60)
  }

  /** Hours, minutes and seconds recombine to the total. */
  lemma ClockArith(seconds: nat)
    ensures seconds / 3600 * 3600 + seconds % 3600 / 60 * 60 + seconds % 60 == seconds
    ensures seconds % 3600 / 60 < 60
    ensures seconds < 360000 ==> seconds / 3600 < 100
  {
    var h, b := seconds / 3600, seconds % 3600;
    assert seconds == h * 60 * 60 + b;
    MinutesCarry(h * 60, b);
  }

  /** Whole minutes added in front do not change the seconds digit. */
  lemma {:induction false} MinutesCarry(q: nat, b: nat)
    ensures (q * 60 + b) % 60 == b % 60
  {
    if q > 0 {
      MinutesCarry(q - 1, b);
      assert q * 60 + b == ((q - 1) * 60 + b) + 60;
    }
  }

  /** Three `:`-separated decimal fields of at least two digits; minutes and
      seconds in 00–59; together they give back the input; eight characters
      below 100 hours. */
  lemma FormatClockSpec(seconds: nat)
    ensures exists h, m, s ::
      FormatClock(seconds) == h + ":" + m + ":" + s
      && AllDigits(h) && AllDigits(m) && AllDigits(s) && |h| >= 2 && |m| == 2 && |s| == 2
      && Value(m) < 60 && Value(s) < 60
      && Value(h) * 3600 + Value(m) * 60 + Value(s) == seconds
    ensures seconds < 360000 ==> |FormatClock(seconds)| == 8
  {
    ClockArith(seconds);
    var h, m, s := Pad2(seconds / 3600), Pad2(seconds % 3600 / 60), Pad2(seconds % 60);
    assert Value(h) == seconds / 3600 && Value(m) == seconds % 3600 / 60 && Value(s) == seconds % 60;
    assert |m| == 2 && |s| == 2;
    assert FormatClock(seconds) == h + ":" + m + ":" + s;
  }

  // ---------------------------------------------------------------------
  // Letter case

  predicate IsUpper(c: char) {
    'A' <= c <= 'Z'
  }

  predicate IsLower(c: char) {
    'a' <= c <= 'z'
  }

  /** `toLowerCase` on one ASCII character; other characters are kept. */
  function Lower(c: char): (r: char)
    ensures IsUpper(c) ==> IsLower(r) && r as int == c as int + 32
    ensures !IsUpper(c) ==> r == c
  {
    if IsUpper(c) then (c as int + 32) as char else c
  }

  /** `toUpperCase` on one ASCII character; other characters are kept. */
  function Upper(c: char): (r: char)
    ensures IsLower(c) ==> IsUpper(r) && r as int == c as int - 32
    ensures !IsLower(c) ==> r == c
  {
    if IsLower(c) then (c as int - 32) as char else c
  }

  // ---------------------------------------------------------------------
  // camelToKebab / kebabToCamel

  /** `str.replace(/[A-Z]/g, letter => '-' + letter.toLowerCase())`. */
  function CamelToKebab(s: string): string {
    if s == [] then []
    else (if IsUpper(s[0]) then ['-', Lower(s[0])] else [s[0]]) + CamelToKebab(s[1..])
  }

  /** How many ASCII capitals a string holds. */
  function CountUpper(s: string): nat {
    if s == [] then 0 else (if IsUpper(s[0]) then 1 else 0) + CountUpper(s[1..])
  }

  /** The output has no capital letters and is one character longer per
      capital; the conversion works character by character. */
  lemma {:induction false} CamelToKebabSpec(s: string)
    ensures forall i :: 0 <= i < |CamelToKebab(s)| ==> !IsUpper(CamelToKebab(s)[i])
    ensures |CamelToKebab(s)| == |s| + CountUpper(s)
  {
    if s != [] {
      CamelToKebabSpec(s[1..]);
      var head := if IsUpper(s[0]) then ['-', Lower(s[0])] else [s[0]];
      var r := CamelToKebab(s);
      forall i | 0 <= i < |r| ensures !IsUpper(r[i]) {
        if i >= |head| {
          assert r[i] == CamelToKebab(s[1..])[i - |head|];
        }
      }
    }
  }

  /** The conversion distributes over concatenation: characters that are
      not capitals pass through unchanged and in order. */
  lemma {:induction false} CamelToKebabAppend(a: string, b: string)
    ensures CamelToKebab(a + b) == CamelToKebab(a) + CamelToKebab(b)
  {
    if a == [] {
      assert a + b == b;
    } else {
      assert (a + b)[0] == a[0];
      assert (a + b)[1..] == a[1..] + b;
      CamelToKebabAppend(a[1..], b);
    }
  }

  /** `str.replace(/-([a-z])/g, g => g[1].toUpperCase())`: matches are
      found left to right and do not overlap. */
  function KebabToCamel(s: string): string {
    if s == [] then []
    else if |s| >= 2 && s[0] == '-' && IsLower(s[1]) then [Upper(s[1])] + KebabToCamel(s[2..])
    else [s[0]] + KebabToCamel(s[1..])
  }

  /** No `-` followed by a lower-case letter. */
  predicate NoDashLower(s: string) {
    forall i :: 0 <= i < |s| - 1 ==> DashLowerFree(s, i)
  }

  predicate DashLowerFree(s: string, i: nat)
    requires i + 1 < |s|
  {
    s[i] == '-' ==> !IsLower(s[i + 1])
  }

  /** The output of `kebabToCamel` begins with a lower-case letter only when
      its input does. */
  lemma FirstOfKebabToCamel(s: string)
    requires KebabToCamel(s) != [] && IsLower(KebabToCamel(s)[0])
    ensures s != [] && s[0] == KebabToCamel(s)[0]
  {
  }

  /** No `-` followed by a lower-case letter is left over. */
  lemma {:induction false} KebabToCamelClean(s: string)
    ensures NoDashLower(KebabToCamel(s))
  {
    if s != [] {
      var r := KebabToCamel(s);
      if |s| >= 2 && s[0] == '-' && IsLower(s[1]) {
        var t := KebabToCamel(s[2..]);
        KebabToCamelClean(s[2..]);
        forall i | 0 <= i < |r| - 1 ensures DashLowerFree(r, i) {
          if i > 0 {
            assert DashLowerFree(t, i - 1);
          }
        }
      } else {
        var t := KebabToCamel(s[1..]);
        KebabToCamelClean(s[1..]);
        forall i | 0 <= i < |r| - 1 ensures DashLowerFree(r, i) {
          if i > 0 {
            assert DashLowerFree(t, i - 1);
          } else if s[0] == '-' && IsLower(t[0]) {
            FirstOfKebabToCamel(s[1..]);
          }
        }
      }
    }
  }

  /** A string with nothing to replace is left as it is. */
  lemma {:induction false} KebabToCamelOfClean(s: string)
    requires NoDashLower(s)
    ensures KebabToCamel(s) == s
  {
    if s != [] {
      if |s| >= 2 {
        assert DashLowerFree(s, 0);
      }
      assert NoDashLower(s[1..]) by {
        forall i | 0 <= i < |s[1..]| - 1 ensures DashLowerFree(s[1..], i) {
          assert DashLowerFree(s, i + 1);
        }
      }
      KebabToCamelOfClean(s[1..]);
    }
  }

  /** Converting twice is converting once. */
  lemma KebabToCamelIdempotent(s: string)
    ensures KebabToCamel(KebabToCamel(s)) == KebabToCamel(s)
  {
    KebabToCamelClean(s);
    KebabToCamelOfClean(KebabToCamel(s));
  }

  /** For a string without `-`, `kebabToCamel` undoes `camelToKebab`. */
  lemma {:induction false} KebabCamelRoundTrip(s: string)
    requires forall i :: 0 <= i < |s| ==> s[i] != '-'
    ensures KebabToCamel(CamelToKebab(s)) == s
  {
    if s != [] {
      KebabCamelRoundTrip(s[1..]);
      var rest := CamelToKebab(s[1..]);
      assert CamelToKebab(s) == (if IsUpper(s[0]) then ['-', Lower(s[0])] else [s[0]]) + rest;
      if IsUpper(s[0]) {
        var t := ['-', Lower(s[0])] + rest;
        assert t[2..] == rest;
      } else {
        var t := [s[0]] + rest;
        assert t[1..] == rest;
      }
    }
  }

  /** With a `-` the round trip can fail: `"-a"` comes back as `"A"`. */
  lemma KebabCamelDashBreaks()
    ensures KebabToCamel(CamelToKebab("-a")) == "A"
  {
    assert CamelToKebab("-a") == "-a" by {
      assert "-a"[1..] == "a";
      assert "a"[1..] == [];
    }
    assert "-a"[2..] == [];
  }

  // ---------------------------------------------------------------------
  // capitalize

  /** `str.charAt(0).toUpperCase() + str.slice(1)`. */
  function Capitalize(s: string): string {
    if s == [] then [] else [Upper(s[0])] + s[1..]
  }

  /** Only the first character can change, to its capital; the length is
      kept, `""` stays `""`, and capitalising twice is capitalising once. */
  lemma CapitalizeSpec(s: string)
    ensures |Capitalize(s)| == |s|
    ensures s == [] ==> Capitalize(s) == []
    ensures s != [] ==> Capitalize(s)[0] == Upper(s[0]) && Capitalize(s)[1..] == s[1..]
    ensures s != [] && !IsLower(s[0]) ==> Capitalize(s) == s
    ensures Capitalize(Capitalize(s)) == Capitalize(s)
  {
    if s != [] {
      assert Capitalize(s)[1..] == s[1..];
      assert Capitalize(s) == [Capitalize(s)[0]] + Capitalize(s)[1..];
    }
  }

  // ---------------------------------------------------------------------
  // unique

  /** `[...new Set(arr)]`: the first occurrence of each value, in order. */
  function Unique<T(==)>(arr: seq<T>): seq<T> {
    if arr == [] then []
    else
      var u := Unique(arr[..|arr| - 1]);
      if arr[|arr| - 1] in u then u else u + [arr[|arr| - 1]]
  }

  predicate Distinct<T(==)>(s: seq<T>) {
    forall i, j :: 0 <= i < j < |s| ==> s[i] != s[j]
  }

  /** The index of the first occurrence of `x` in `s`. */
  function FirstIndex<T(==)>(s: seq<T>, x: T): (k: nat)
    requires x in s
    ensures k < |s| && s[k] == x && forall j :: 0 <= j < k ==> s[j] != x
  {
    if s[0] == x then 0 else 1 + FirstIndex(s[1..], x)
  }

  /** No duplicates, exactly the input's values, in first-occurrence
      order. */
  lemma {:induction false} UniqueSpec<T>(arr: seq<T>)
    ensures Distinct(Unique(arr))
    ensures forall x :: x in Unique(arr) <==> x in arr
    ensures forall i, j :: 0 <= i < j < |Unique(arr)| ==>
      FirstIndex(arr, Unique(arr)[i]) < FirstIndex(arr, Unique(arr)[j])
    decreases |arr|, 0
  {
    if arr != [] {
      var n := |arr| - 1;
      var init := arr[..n];
      UniqueSpec(init);
      var u := Unique(init);
      assert arr == init + [arr[n]];
      forall x | x in init ensures FirstIndex(arr, x) == FirstIndex(init, x) {
        FirstIndexPrefix(init, arr[n], x);
      }
      if arr[n] !in u {
        var r := u + [arr[n]];
        forall i, j | 0 <= i < j < |r| ensures FirstIndex(arr, r[i]) < FirstIndex(arr, r[j]) {
          assert r[i] == u[i] && u[i] in u;
          if j == |u| {
            UniqueMember(init, u[i]);
            assert FirstIndex(arr, r[j]) == n by {
              FirstIndexLast(init, arr[n]);
            }
          } else {
            assert r[j] == u[j] && u[j] in u;
          }
        }
      } else {
        forall i, j | 0 <= i < j < |u| ensures FirstIndex(arr, u[i]) < FirstIndex(arr, u[j]) {
          assert u[i] in u && u[j] in u;
        }
      }
    }
  }

  lemma UniqueMember<T>(s: seq<T>, x: T)
    requires x in Unique(s)
    ensures x in s
    decreases |s|, 1
  {
    UniqueSpec(s);
  }

  lemma FirstIndexPrefix<T>(s: seq<T>, y: T, x: T)
    requires x in s
    ensures FirstIndex(s + [y], x) == FirstIndex(s, x)
  {
    var k := FirstIndex(s, x);
    var k2 := FirstIndex(s + [y], x);
    assert (s + [y])[k] == x;
    assert k2 <= k;
    assert s[k2] == (s + [y])[k2];
  }

  lemma {:induction false} FirstIndexLast<T>(s: seq<T>, y: T)
    requires y !in s
    ensures FirstIndex(s + [y], y) == |s|
  {
    if s != [] {
      assert (s + [y])[0] == s[0];
      assert (s + [y])[1..] == s[1..] + [y];
      FirstIndexLast(s[1..], y);
    }
  }

  /** A list without duplicates is returned as it is; so `unique` applied
      twice is `unique` applied once. */
  lemma {:induction false} UniqueOfDistinct<T>(arr: seq<T>)
    requires Distinct(arr)
    ensures Unique(arr) == arr
  {
    if arr != [] {
      var n := |arr| - 1;
      assert Distinct(arr[..n]);
      UniqueOfDistinct(arr[..n]);
      assert arr[n] !in arr[..n];
      assert arr[..n] + [arr[n]] == arr;
    }
  }

  lemma UniqueIdempotent<T>(arr: seq<T>)
    ensures Unique(Unique(arr)) == Unique(arr)
  {
    UniqueSpec(arr);
    UniqueOfDistinct(Unique(arr));
  }

  // ---------------------------------------------------------------------
  // parseQueryString

  /** `str.split(sep)` with a one-character separator: never empty, one
      more piece than there are separators. */
  function Split(s: string, sep: char): (parts: seq<string>)
    ensures |parts| >= 1
  {
    if s == [] then [[]]
    else
      var rest := Split(s[1..], sep);
      if s[0] == sep then [[]] + rest else [[s[0]] + rest[0]] + rest[1..]
  }

  /** `parts.join(sep)`. */
  function Join(parts: seq<string>, sep: char): string
    requires |parts| >= 1
  {
    if |parts| == 1 then parts[0] else parts[0] + [sep] + Join(parts[1..], sep)
  }

  /** Splitting loses nothing: joining the pieces gives the input back, and
      no piece contains the separator. */
  lemma SplitSpec(s: string, sep: char)
    ensures Join(Split(s, sep), sep) == s
    ensures forall k, i :: 0 <= k < |Split(s, sep)| && 0 <= i < |Split(s, sep)[k]| ==> Split(s, sep)[k][i] != sep
    ensures (forall i :: 0 <= i < |s| ==> s[i] != sep) ==> Split(s, sep) == [s]
  {
    SplitJoin(s, sep);
    SplitPieces(s, sep);
  }

  lemma {:induction false} SplitJoin(s: string, sep: char)
    ensures Join(Split(s, sep), sep) == s
  {
    if s != [] {
      var rest := Split(s[1..], sep);
      SplitJoin(s[1..], sep);
      var parts := Split(s, sep);
      assert s == [s[0]] + s[1..];
      if s[0] == sep {
        assert parts == [[]] + rest && parts[1..] == rest;
        assert Join(parts, sep) == [] + [sep] + Join(rest, sep);
      } else {
        var p0 := [s[0]] + rest[0];
        assert parts == [p0] + rest[1..];
        if |rest| == 1 {
          assert Join(parts, sep) == p0;
          assert Join(rest, sep) == rest[0];
        } else {
          assert parts[1..] == rest[1..];
          var tail := Join(rest[1..], sep);
          assert Join(parts, sep) == p0 + [sep] + tail;
          assert Join(rest, sep) == rest[0] + [sep] + tail;
          assert p0 + [sep] + tail == [s[0]] + (rest[0] + [sep] + tail);
        }
      }
    }
  }

  lemma {:induction false} SplitPieces(s: string, sep: char)
    ensures forall k, i :: 0 <= k < |Split(s, sep)| && 0 <= i < |Split(s, sep)[k]| ==> Split(s, sep)[k][i] != sep
    ensures (forall i :: 0 <= i < |s| ==> s[i] != sep) ==> Split(s, sep) == [s]
  {
    if s != [] {
      var rest := Split(s[1..], sep);
      SplitPieces(s[1..], sep);
      var parts := Split(s, sep);
      if s[0] != sep {
        forall k, i | 0 <= k < |parts| && 0 <= i < |parts[k]| ensures parts[k][i] != sep {
          if k == 0 && i > 0 {
            assert parts[k][i] == rest[0][i - 1];
          } else if k > 0 {
            assert parts[k] == rest[k];
          }
        }
        if forall i :: 0 <= i < |s| ==> s[i] != sep {
          assert forall i :: 0 <= i < |s[1..]| ==> s[1..][i] != sep by {
            forall i | 0 <= i < |s[1..]| ensures s[1..][i] != sep {
              assert s[1..][i] == s[i + 1];
            }
          }
          assert s == [s[0]] + s[1..];
        }
      } else {
        assert parts[1..] == rest;
      }
    }
  }

  /** `queryString.replace(/^\?/, '')`. */
  function DropQuestion(q: string): string {
    if q != [] && q[0] == '?' then q[1..] else q
  }

  /** The key of a pair: the text before its first `=`. */
  function KeyOf(pair: string): string {
    Split(pair, '=')[0]
  }

  /** The value of a pair: the text between its first and second `=`, or
      `''` when it has none (`value || ''`). */
  function ValueOf(pair: string): string {
    var parts := Split(pair, '=');
    if |parts| >= 2 then parts[1] else ""
  }

  /** The pairs `forEach` has processed, folded into `params`. */
  function Params(pairs: seq<string>, decode: string -> string): map<string, string> {
    if pairs == [] then map[]
    else
      var n := |pairs| - 1;
      var m := Params(pairs[..n], decode);
      if KeyOf(pairs[n]) != [] then m[decode(KeyOf(pairs[n])) := decode(ValueOf(pairs[n]))] else m
  }

  /** The object `parseQueryString` returns. */
  function QueryParams(q: string, decode: string -> string): map<string, string> {
    Params(Split(DropQuestion(q), '&'), decode)
  }

  /** `parseQueryString(queryString)`; `decode` is `decodeURIComponent`. */
  method ParseQueryString(queryString: string, decode: string -> string) returns (params: map<string, string>)
    ensures params == QueryParams(queryString, decode)
  {
    params := map[];
    var pairs := Split(DropQuestion(queryString), '&');
    var i := 0;
    while i < |pairs|
      invariant 0 <= i <= |pairs|
      invariant params == Params(pairs[..i], decode)
    {
      assert pairs[..i + 1][..i] == pairs[..i];
      var pair := pairs[i];
      var parts := Split(pair, '=');
      var key := parts[0];
      var value := if |parts| >= 2 then parts[1] else "";
      if key != [] {
        params := params[decode(key) := decode(value)];
      }
      i := i + 1;
    }
    assert pairs[..i] == pairs;
  }

  /** A key is present exactly when some pair with a non-empty key decodes
      to it, and it holds the decoded value of the last such pair: later
      duplicates overwrite earlier ones, and empty keys are ignored. */
  lemma {:induction false} ParamsSpec(pairs: seq<string>, decode: string -> string, k: string)
    ensures k in Params(pairs, decode) <==>
      exists i :: 0 <= i < |pairs| && KeyOf(pairs[i]) != [] && decode(KeyOf(pairs[i])) == k
    ensures k in Params(pairs, decode) ==>
      exists i :: 0 <= i < |pairs| && KeyOf(pairs[i]) != [] && decode(KeyOf(pairs[i])) == k
        && Params(pairs, decode)[k] == decode(ValueOf(pairs[i]))
        && forall j :: i < j < |pairs| ==> KeyOf(pairs[j]) == [] || decode(KeyOf(pairs[j])) != k
  {
    if pairs != [] {
      var n := |pairs| - 1;
      var init, last := pairs[..n], pairs[n];
      ParamsSpec(init, decode, k);
      assert pairs == init + [last];
      ParamsStep(init, last, decode);
      if KeyOf(last) != [] && decode(KeyOf(last)) == k {
        assert Params(pairs, decode)[k] == decode(ValueOf(pairs[n]));
      } else {
        assert k in Params(pairs, decode) <==> k in Params(init, decode);
        if k in Params(init, decode) {
          var i :| 0 <= i < |init| && KeyOf(init[i]) != [] && decode(KeyOf(init[i])) == k
            && Params(init, decode)[k] == decode(ValueOf(init[i]))
            && forall j :: i < j < |init| ==> KeyOf(init[j]) == [] || decode(KeyOf(init[j])) != k;
          assert pairs[i] == init[i];
          forall j | i < j < |pairs| ensures KeyOf(pairs[j]) == [] || decode(KeyOf(pairs[j])) != k {
            if j < n {
              assert pairs[j] == init[j];
            }
          }
        }
        if exists i :: 0 <= i < |pairs| && KeyOf(pairs[i]) != [] && decode(KeyOf(pairs[i])) == k {
          var i :| 0 <= i < |pairs| && KeyOf(pairs[i]) != [] && decode(KeyOf(pairs[i])) == k;
          assert i < n && init[i] == pairs[i];
        }
      }
    }
  }

  /** A pair whose key is empty changes nothing; a later pair with the
      same key overwrites. */
  lemma ParamsStep(pairs: seq<string>, pair: string, decode: string -> string)
    ensures KeyOf(pair) == [] ==> Params(pairs + [pair], decode) == Params(pairs, decode)
    ensures KeyOf(pair) != [] ==>
      Params(pairs + [pair], decode) == Params(pairs, decode)[decode(KeyOf(pair)) := decode(ValueOf(pair))]
  {
    assert (pairs + [pair])[..|pairs|] == pairs;
  }

  /** The key is the text before the first `=`, and the value is the text
      after it up to the next `=` or the end; a pair without `=` is all key
      and has the empty value. */
  lemma KeyValueSpec(pair: string)
    ensures forall i :: 0 <= i < |KeyOf(pair)| ==> KeyOf(pair)[i] != '='
    ensures forall i :: 0 <= i < |ValueOf(pair)| ==> ValueOf(pair)[i] != '='
    ensures (forall i :: 0 <= i < |pair| ==> pair[i] != '=') ==> KeyOf(pair) == pair && ValueOf(pair) == []
    ensures (exists i :: 0 <= i < |pair| && pair[i] == '=') ==>
      KeyOf(pair) + "=" + ValueOf(pair) <= pair
    ensures (exists i :: 0 <= i < |pair| && pair[i] == '=') ==>
      var n := |KeyOf(pair)| + 1 + |ValueOf(pair)|;
      n == |pair| || (n < |pair| && pair[n] == '=')
  {
    SplitSpec(pair, '=');
    var parts := Split(pair, '=');
    assert |parts| == 1 ==> pair == parts[0];
    if |parts| >= 2 {
      var tail := Join(parts[1..], '=');
      assert pair == parts[0] + "=" + tail;
      if |parts| > 2 {
        var more := Join(parts[2..], '=');
        assert tail == parts[1] + "=" + more;
        assert pair == (parts[0] + "=" + parts[1]) + "=" + more;
        assert pair[|parts[0]| + 1 + |parts[1]|] == '=';
      } else {
        assert tail == parts[1];
      }
      assert parts[1] <= tail;
    }
  }

  /** One leading `?` is dropped before splitting, and only one. */
  lemma LeadingQuestion(q: string, decode: string -> string)
    ensures QueryParams("?" + q, decode) == Params(Split(q, '&'), decode)
  {
    assert ("?" + q)[1..] == q;
  }
}
