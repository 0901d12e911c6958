/** Python's string handling as the server uses it: `str.isspace()`,
    `str.strip()` and `" ".join(s.split())`. */
module Text {

  /** Python's `str.isspace()` on one code point: the characters that
      `str.strip()` and `str.split()` treat as whitespace. */
  predicate IsSpace(c: char) {
    var n := c as int;
    (9 <= n <= 13) || (28 <= n <= 32) || n == 0x85 || n == 0xA0 || n == 0x1680
    || (0x2000 <= n <= 0x200A) || n == 0x2028 || n == 0x2029 || n == 0x202F
    || n == 0x205F || n == 0x3000
  }

  /** Only whitespace, or nothing at all. */
  predicate Blank(s: string) {
    forall i :: 0 <= i < |s| ==> IsSpace(s[i])
  }

  /** No whitespace at either end. */
  predicate Stripped(s: string) {
    s == [] || (!IsSpace(s[0]) && !IsSpace(s[|s| - 1]))
  }

  /** Every whitespace character is a plain space right after a
      non-whitespace character: no leading whitespace and never two
      whitespace characters in a row. Every prefix keeps this shape. */
  predicate SingleSpaced(s: string) {
    forall i :: 0 <= i < |s| ==> SpaceOk(s, i)
  }

  /** The character at `i` is not whitespace, or is a plain space after a
      non-whitespace character. */
  predicate SpaceOk(s: string, i: nat)
    requires i < |s|
  {
    IsSpace(s[i]) ==> s[i] == ' ' && 0 < i && !IsSpace(s[i - 1])
  }

  /** The shape of `" ".join(s.split())`: single-spaced words, nothing at either end. */
  predicate Collapsed(s: string) {
    SingleSpaced(s) && Stripped(s)
  }

  /** The non-whitespace characters of `s`, in order. */
  function Visible(s: string): string {
    if s == [] then [] else (if IsSpace(s[0]) then [] else [s[0]]) + Visible(s[1..])
  }

  lemma {:induction false} VisibleAppend(a: string, b: string)
    ensures Visible(a + b) == Visible(a) + Visible(b)
  {
    if a == [] {
      assert a + b == b;
    } else {
      var h := if IsSpace(a[0]) then [] else [a[0]];
      assert (a + b)[0] == a[0];
      assert (a + b)[1..] == a[1..] + b;
      VisibleAppend(a[1..], b);
      calc {
        Visible(a + b);
        h + Visible(a[1..] + b);
        h + (Visible(a[1..]) + Visible(b));
        (h + Visible(a[1..])) + Visible(b);
        Visible(a) + Visible(b);
      }
    }
  }

  lemma {:induction false} VisibleBlank(s: string)
    requires Blank(s)
    ensures Visible(s) == []
  {
    if s != [] {
      VisibleBlank(s[1..]);
    }
  }

  lemma {:induction false} VisibleNoSpace(s: string)
    requires forall i :: 0 <= i < |s| ==> !IsSpace(s[i])
    ensures Visible(s) == s
  {
    if s != [] {
      VisibleNoSpace(s[1..]);
    }
  }

  /** How many whitespace characters `s` starts with. */
  function LeadingSpaces(s: string): (k: nat)
    ensures k <= |s|
    ensures forall i :: 0 <= i < k ==> IsSpace(s[i])
    ensures k == |s| || !IsSpace(s[k])
  {
    if s != [] && IsSpace(s[0]) then 1 + LeadingSpaces(s[1..]) else 0
  }

  /** Where the whitespace at the end of `s` begins. */
  function TrailStart(s: string): (j: nat)
    ensures j <= |s|
    ensures forall i :: j <= i < |s| ==> IsSpace(s[i])
    ensures j == 0 || !IsSpace(s[j - 1])
  {
    if s != [] && IsSpace(s[|s| - 1]) then TrailStart(s[..|s| - 1]) else |s|
  }

  /** `s` with its leading whitespace removed. */
  function TrimLeft(s: string): (r: string)
    ensures r == [] || !IsSpace(r[0])
  {
    s[LeadingSpaces(s)..]
  }

  lemma BlankAppend(a: string, b: string)
    requires Blank(a) && Blank(b)
    ensures Blank(a + b)
  {
    forall i | 0 <= i < |a + b| ensures IsSpace((a + b)[i]) {
      if i >= |a| {
        assert (a + b)[i] == b[i - |a|];
      }
    }
  }

  lemma BlankSlice(s: string, lo: nat, hi: nat)
    requires lo <= hi <= |s|
    requires forall i :: lo <= i < hi ==> IsSpace(s[i])
    ensures Blank(s[lo..hi])
  {
  }

  /** Python's `s.strip()`: drops the whitespace at both ends and keeps
      every visible character; only a blank string strips to nothing. */
  function Strip(s: string): (r: string)
    ensures Stripped(r)
    ensures Visible(r) == Visible(s)
    ensures r == [] <==> Blank(s)
  {
    var a := LeadingSpaces(s);
    var t := s[a..];
    var j := TrailStart(t);
    StripVisible(s, a, j);
    t[..j]
  }

  /** What `Strip` keeps is one slice of its input with only whitespace on
      either side; being stripped itself, it is the widest such slice. */
  lemma StripIsSlice(s: string)
    ensures exists a, b :: 0 <= a <= b <= |s| && Strip(s) == s[a..b] && Blank(s[..a]) && Blank(s[b..])
  {
    var a := LeadingSpaces(s);
    var j := TrailStart(s[a..]);
    StripSlice(s, a, j);
    assert Strip(s) == s[a..a + j];
  }

  /** What `Strip` keeps is one slice of its input, with only whitespace
      on either side. */
  lemma StripSlice(s: string, a: nat, j: nat)
    requires a == LeadingSpaces(s) && j == TrailStart(s[a..])
    ensures a + j <= |s| && s[a..][..j] == s[a..a + j]
    ensures Blank(s[..a]) && Blank(s[a + j..])
  {
    SliceOfSlice(s, a, j);
    LeadingBlank(s);
    TrailingBlank(s[a..]);
  }

  lemma LeadingBlank(s: string)
    ensures Blank(s[..LeadingSpaces(s)])
  {
    var a := LeadingSpaces(s);
    BlankSlice(s, 0, a);
    assert s[0..a] == s[..a];
  }

  lemma TrailingBlank(t: string)
    ensures Blank(t[TrailStart(t)..])
  {
    var j := TrailStart(t);
    BlankSlice(t, j, |t|);
    assert t[j..|t|] == t[j..];
  }

  lemma SliceOfSlice(s: string, a: nat, j: nat)
    requires a + j <= |s|
    ensures s[a..][..j] == s[a..a + j]
    ensures s[a..][j..] == s[a + j..]
  {
  }

  lemma StripVisible(s: string, a: nat, j: nat)
    requires a == LeadingSpaces(s) && j == TrailStart(s[a..])
    ensures Visible(s[a..][..j]) == Visible(s)
    ensures s[a..][..j] == [] <==> Blank(s)
  {
    var t := s[a..];
    VisibleDropHead(s, a);
    VisibleDropTail(t, j);
    if j == 0 {
      BlankSlice(s, 0, a);
      assert s[0..a] == s[..a];
      BlankSlice(t, 0, |t|);
      assert t[0..|t|] == t;
      BlankAppend(s[..a], t);
      assert s == s[..a] + t;
    }
  }

  /** Dropping leading whitespace keeps the visible characters. */
  lemma VisibleDropHead(s: string, k: nat)
    requires k <= |s| && forall i :: 0 <= i < k ==> IsSpace(s[i])
    ensures Visible(s[k..]) == Visible(s)
  {
    assert s == s[..k] + s[k..];
    BlankSlice(s, 0, k);
    assert s[0..k] == s[..k];
    VisibleAppend(s[..k], s[k..]);
    VisibleBlank(s[..k]);
  }

  /** Dropping trailing whitespace keeps the visible characters. */
  lemma VisibleDropTail(t: string, j: nat)
    requires j <= |t| && forall i :: j <= i < |t| ==> IsSpace(t[i])
    ensures Visible(t[..j]) == Visible(t)
  {
    assert t == t[..j] + t[j..];
    BlankSlice(t, j, |t|);
    assert t[j..|t|] == t[j..];
    VisibleAppend(t[..j], t[j..]);
    VisibleBlank(t[j..]);
  }

  /** The longest prefix of `s` without whitespace. */
  function TakeWord(s: string): (w: string)
    ensures |w| <= |s| && w == s[..|w|]
    ensures forall i :: 0 <= i < |w| ==> !IsSpace(w[i])
    ensures |w| == |s| || IsSpace(s[|w|])
  {
    if s == [] || IsSpace(s[0]) then [] else [s[0]] + TakeWord(s[1..])
  }

  lemma JoinCollapsed(w: string, rest: string)
    requires w != [] && forall i :: 0 <= i < |w| ==> !IsSpace(w[i])
    requires rest != [] && Collapsed(rest)
    ensures Collapsed(w + " " + rest)
  {
    var r := w + " " + rest;
    forall i | 0 <= i < |r| ensures SpaceOk(r, i)
    {
      if i > |w| {
        assert r[i] == rest[i - |w| - 1];
        assert SpaceOk(rest, i - |w| - 1);
        if i - |w| - 1 > 0 {
          assert r[i - 1] == rest[i - |w| - 2];
        }
      }
    }
    assert r[|r| - 1] == rest[|rest| - 1];
    assert SpaceOk(rest, 0);
  }

  /** Python's `" ".join(s.split())`: the words of `s`, each separated by one space. */
  function Collapse(s: string): string
    decreases |s|
  {
    var t := TrimLeft(s);
    if t == [] then
      []
    else
      var w := TakeWord(t);
      var rest := Collapse(t[|w|..]);
      if rest == [] then w else w + " " + rest
  }

  /** `Collapse` yields single-spaced words with nothing at either end, and
      keeps every visible character of its input, in order. */
  lemma {:induction false} CollapseShape(s: string)
    ensures Collapsed(Collapse(s))
    ensures Visible(Collapse(s)) == Visible(s)
    decreases |s|
  {
    var t := TrimLeft(s);
    TrimLeftVisible(s);
    if t != [] {
      var w := TakeWord(t);
      CollapseShape(t[|w|..]);
      CollapseStep(t, w, Collapse(t[|w|..]));
    }
  }

  lemma TrimLeftVisible(s: string)
    ensures Visible(TrimLeft(s)) == Visible(s)
  {
    var k := LeadingSpaces(s);
    assert s == s[..k] + s[k..];
    BlankSlice(s, 0, k);
    assert s[0..k] == s[..k];
    VisibleAppend(s[..k], s[k..]);
    VisibleBlank(s[..k]);
  }

  /** One step of `Collapse`: the first word, then the collapsed rest. */
  lemma CollapseStep(t: string, w: string, rest: string)
    requires t != [] && !IsSpace(t[0]) && w == TakeWord(t)
    requires Collapsed(rest) && Visible(rest) == Visible(t[|w|..])
    ensures Collapsed(if rest == [] then w else w + " " + rest)
    ensures Visible(if rest == [] then w else w + " " + rest) == Visible(t)
  {
    assert t == w + t[|w|..];
    VisibleAppend(w, t[|w|..]);
    VisibleNoSpace(w);
    if rest == [] {
      assert Collapsed(w) by {
        assert w[0] == t[0];
      }
    } else {
      assert w[0] == t[0];
      JoinCollapsed(w, rest);
      assert w + " " + rest == (w + " ") + rest;
      VisibleAppend(w + " ", rest);
      VisibleAppend(w, " ");
    }
  }

  /** Whitespace in front does not change the collapsed form. */
  lemma CollapseLeadingSpace(v: string)
    requires v != [] && IsSpace(v[0])
    ensures Collapse(v) == Collapse(v[1..])
  {
    var k := LeadingSpaces(v[1..]);
    assert LeadingSpaces(v) == 1 + k;
    assert v[1 + k..] == v[1..][k..];
    assert TrimLeft(v) == TrimLeft(v[1..]);
  }

  /** After a space inside a collapsed string comes another collapsed string. */
  lemma CollapsedAfterSpace(s: string, k: nat)
    requires Collapsed(s) && k < |s| && IsSpace(s[k])
    ensures Collapsed(s[k + 1..]) && s[k + 1..] != []
  {
    var u := s[k + 1..];
    assert k + 1 < |s|;
    forall i | 0 <= i < |u| ensures SpaceOk(u, i)
    {
      assert u[i] == s[i + k + 1];
      assert SpaceOk(s, i + k + 1);
    }
    assert u[|u| - 1] == s[|s| - 1];
    assert SpaceOk(s, k + 1);
    assert u[0] == s[k + 1];
  }

  /** A string already in collapsed form is left as it is. */
  lemma {:induction false} CollapseOfCollapsed(s: string)
    requires Collapsed(s)
    ensures Collapse(s) == s
    decreases |s|
  {
    if s != [] {
      var w := TakeWord(s);
      if |w| < |s| {
        CollapsedAfterSpace(s, |w|);
        CollapseOfCollapsed(s[|w| + 1..]);
      }
      CollapseFirstWord(s);
    }
  }

  /** `Collapse` on a collapsed string keeps its first word and, when there
      is more, one space and the collapsed rest. */
  lemma CollapseFirstWord(s: string)
    requires Collapsed(s) && s != []
    requires |TakeWord(s)| < |s| ==> Collapse(s[|TakeWord(s)| + 1..]) == s[|TakeWord(s)| + 1..]
    ensures Collapse(s) == s
  {
    CollapseUnfold(s);
    var w := TakeWord(s);
    if |w| < |s| {
      var u := s[|w| + 1..];
      CollapsedAfterSpace(s, |w|);
      var v := s[|w|..];
      assert v[1..] == u;
      CollapseLeadingSpace(v);
      assert SpaceOk(s, |w|);
      SplitAtSpace(s, w);
    } else {
      assert w == s;
    }
  }

  /** `Collapse` of a string starting with a visible character: its first
      word, then the collapsed rest after one space. */
  lemma CollapseUnfold(s: string)
    requires s != [] && !IsSpace(s[0])
    ensures var w := TakeWord(s);
      var rest := Collapse(s[|w|..]);
      Collapse(s) == if rest == [] then w else w + " " + rest
  {
    assert LeadingSpaces(s) == 0;
    assert TrimLeft(s) == s;
  }

  /** A string is its first word, the plain space after it, and the rest. */
  lemma SplitAtSpace(s: string, w: string)
    requires |w| < |s| && w == s[..|w|] && s[|w|] == ' '
    ensures s == w + " " + s[|w| + 1..]
  {
    assert s == s[..|w|] + [s[|w|]] + s[|w| + 1..];
  }

  /** Whitespace in front of a visible character does not move it. */
  lemma {:induction false} LeadingSpacesAppend(x: string, y: string)
    requires !Blank(x)
    ensures LeadingSpaces(x + y) == LeadingSpaces(x)
  {
    assert (x + y)[0] == x[0];
    if IsSpace(x[0]) {
      assert !Blank(x[1..]) by {
        var i :| 0 <= i < |x| && !IsSpace(x[i]);
        assert x[1..][i - 1] == x[i];
      }
      assert (x + y)[1..] == x[1..] + y;
      LeadingSpacesAppend(x[1..], y);
    }
  }

  /** The first word ends where it did once more text is appended after a
      word break. */
  lemma {:induction false} TakeWordAppend(x: string, y: string)
    requires |TakeWord(x)| < |x| || (y != [] && IsSpace(y[0]))
    ensures TakeWord(x + y) == TakeWord(x)
  {
    if x == [] {
      assert x + y == y;
    } else {
      assert (x + y)[0] == x[0];
      if !IsSpace(x[0]) {
        assert (x + y)[1..] == x[1..] + y;
        TakeWordAppend(x[1..], y);
      }
    }
  }

  /** A blank string collapses to nothing. */
  lemma CollapseBlank(s: string)
    requires Blank(s)
    ensures Collapse(s) == []
  {
    assert LeadingSpaces(s) == |s|;
  }

  /** A string with a visible character collapses to a non-empty one. */
  lemma CollapseNonEmpty(s: string)
    requires !Blank(s)
    ensures Collapse(s) != []
  {
    assert LeadingSpaces(s) < |s|;
  }

  /** Collapsing ignores leading whitespace. */
  lemma CollapseTrimLeft(s: string)
    ensures Collapse(s) == Collapse(TrimLeft(s))
  {
    var t := TrimLeft(s);
    if t != [] {
      CollapseUnfold(t);
    }
  }

  /** Whitespace in front adds to the leading whitespace. */
  lemma {:induction false} LeadingSpacesBlankPrefix(u: string, b: string)
    requires Blank(u)
    ensures LeadingSpaces(u + b) == |u| + LeadingSpaces(b)
  {
    if u != [] {
      assert (u + b)[0] == u[0];
      assert (u + b)[1..] == u[1..] + b;
      LeadingSpacesBlankPrefix(u[1..], b);
    } else {
      assert u + b == b;
    }
  }

  /** Collapsing ignores a blank prefix. */
  lemma CollapseBlankPrefix(u: string, b: string)
    requires Blank(u)
    ensures Collapse(u + b) == Collapse(b)
  {
    LeadingSpacesBlankPrefix(u, b);
    assert TrimLeft(u + b) == TrimLeft(b) by {
      assert (u + b)[|u| + LeadingSpaces(b)..] == b[LeadingSpaces(b)..];
    }
    CollapseTrimLeft(u + b);
    CollapseTrimLeft(b);
  }

  /** A text whose first word is followed by more visible text collapses to
      that word, one space and the collapsed rest. */
  lemma CollapseCons(t: string)
    requires t != [] && !IsSpace(t[0]) && !Blank(t[|TakeWord(t)|..])
    ensures Collapse(t) == TakeWord(t) + " " + Collapse(t[|TakeWord(t)|..])
  {
    CollapseUnfold(t);
    CollapseNonEmpty(t[|TakeWord(t)|..]);
  }

  /** A text with only one word collapses to that word. */
  lemma CollapseSingle(t: string)
    requires t != [] && !IsSpace(t[0]) && Blank(t[|TakeWord(t)|..])
    ensures Collapse(t) == TakeWord(t)
  {
    CollapseUnfold(t);
    CollapseBlank(t[|TakeWord(t)|..]);
  }

  /** Leading whitespace is ignored on both sides of a gap. */
  lemma GapTrim(a: string, ws: string, b: string)
    requires !Blank(a)
    ensures LeadingSpaces(a) < |a|
    ensures Collapse(a + ws + b) == Collapse(a[LeadingSpaces(a)..] + (ws + b))
    ensures Collapse(a) == Collapse(a[LeadingSpaces(a)..])
  {
    var k := LeadingSpaces(a);
    LeadingSpacesAppend(a, ws + b);
    assert a + ws + b == a + (ws + b);
    assert (a + (ws + b))[k..] == a[k..] + (ws + b);
    CollapseTrimLeft(a + ws + b);
    CollapseTrimLeft(a);
  }

  /** Text that ends in a visible text is not blank. */
  lemma NotBlankAppend(x: string, b: string)
    requires !Blank(b)
    ensures !Blank(x + b)
  {
    var i :| 0 <= i < |b| && !IsSpace(b[i]);
    assert (x + b)[|x| + i] == b[i];
  }

  /** The gap law of `" ".join(s.split())`: any non-empty run of whitespace
      between two texts with visible characters becomes exactly one space
      between their collapsed forms. */
  lemma {:induction false} CollapseGap(a: string, ws: string, b: string)
    requires !Blank(a) && !Blank(b) && ws != [] && Blank(ws)
    ensures Collapse(a + ws + b) == Collapse(a) + " " + Collapse(b)
    decreases |a|, 1
  {
    GapTrim(a, ws, b);
    CollapseGapVisible(a[LeadingSpaces(a)..], ws, b);
  }

  /** The gap law for a text that starts with a visible character. */
  lemma {:induction false} CollapseGapVisible(a: string, ws: string, b: string)
    requires a != [] && !IsSpace(a[0]) && !Blank(b) && ws != [] && Blank(ws)
    ensures Collapse(a + (ws + b)) == Collapse(a) + " " + Collapse(b)
    decreases |a|, 0
  {
    var w := TakeWord(a);
    var tail := a[|w|..];
    GapFirstWord(a, ws, b);
    if Blank(tail) {
      BlankAppend(tail, ws);
      CollapseBlankPrefix(tail + ws, b);
      CollapseSingle(a);
    } else {
      CollapseCons(a);
      CollapseGap(tail, ws, b);
      GapJoin(w, Collapse(tail), Collapse(b));
    }
  }

  /** Across a gap, the first word of `a` comes first, then the collapsed
      rest. */
  lemma GapFirstWord(a: string, ws: string, b: string)
    requires a != [] && !IsSpace(a[0]) && !Blank(b) && ws != [] && Blank(ws)
    ensures Collapse(a + (ws + b))
      == TakeWord(a) + " " + Collapse(a[|TakeWord(a)|..] + ws + b)
  {
    var s := a + (ws + b);
    var w := TakeWord(a);
    var tail := a[|w|..];
    assert (ws + b)[0] == ws[0];
    TakeWordAppend(a, ws + b);
    assert s[0] == a[0];
    DropAppend(a, ws, b, |w|);
    NotBlankAppend(tail + ws, b);
    CollapseCons(s);
  }

  lemma DropAppend(a: string, ws: string, b: string, k: nat)
    requires k <= |a|
    ensures (a + (ws + b))[k..] == a[k..] + ws + b
  {
  }

  lemma GapJoin(w: string, x: string, y: string)
    ensures w + " " + (x + " " + y) == (w + " " + x) + " " + y
  {
  }

  /** A single-spaced string strips to a collapsed string no longer than
      itself, and to a non-empty one unless it is empty: only a trailing
      space can go. */
  lemma StripSingleSpaced(s: string)
    requires SingleSpaced(s)
    ensures Collapsed(Strip(s))
    ensures |Strip(s)| <= |s|
    ensures s != [] ==> Strip(s) != []
  {
    assert s != [] ==> SpaceOk(s, 0);
    assert LeadingSpaces(s) == 0;
    assert s[0..] == s;
    var r := Strip(s);
    assert r == s[..|r|];
    forall i | 0 <= i < |r| ensures SpaceOk(r, i)
    {
      assert r[i] == s[i];
      assert SpaceOk(s, i);
    }
    if s != [] {
      assert !IsSpace(s[0]);
      assert !Blank(s);
    }
  }
}

/** Decimal rendering of integers, as Python's `str(int)` and
    JavaScript's `String(n)` print them. */
module Decimal {

  predicate IsDigit(c: char) {
    '0' <= c <= '9'
  }

  predicate AllDigits(s: string) {
    forall i :: 0 <= i < |s| ==> IsDigit(s[i])
  }

  function DigitChar(d: nat): (c: char)
    requires d < 10
    ensures IsDigit(c) && (c as int) - ('0' as int) == d
  {
    ('0' as int + d) as char
  }

  /** The decimal digits of `n`, without leading zeros. */
  function Digits(n: nat): (s: string)
    ensures 1 <= |s| && AllDigits(s)
    ensures n < 10 ==> |s| == 1
    ensures n < 100 ==> |s| <= 2
    ensures |s| > 1 ==> s[0] != '0'
    ensures n >= 10 ==> |s| >= 2
  {
    if n < 10 then [DigitChar(n)] else Digits(n / 10) + [DigitChar(n % 10)]
  }

  /** The number a string of decimal digits stands for; leading zeros add nothing. */
  function Value(s: string): nat
    requires AllDigits(s)
  {
    if s == [] then 0 else Value(s[..|s| - 1]) * 10 + ((s[|s| - 1] as int) - ('0' as int))
  }

  /** Reading back the digits of `n` gives `n`. */
  lemma {:induction false} ValueOfDigits(n: nat)
    ensures Value(Digits(n)) == n
  {
    if n >= 10 {
      var s := Digits(n);
      assert s[..|s| - 1] == Digits(n / 10);
      ValueOfDigits(n / 10);
    }
  }

  /** Zeros in front do not change the value. */
  lemma {:induction false} ValueLeadingZeros(z: string, s: string)
    requires forall i :: 0 <= i < |z| ==> z[i] == '0'
    requires AllDigits(s)
    ensures AllDigits(z + s) && Value(z + s) == Value(s)
    decreases |s|
  {
    if s == [] {
      assert z + s == z;
      ZerosValue(z);
    } else {
      assert (z + s)[..|z + s| - 1] == z + s[..|s| - 1];
      ValueLeadingZeros(z, s[..|s| - 1]);
    }
  }

  lemma {:induction false} ZerosValue(z: string)
    requires forall i :: 0 <= i < |z| ==> z[i] == '0'
    ensures AllDigits(z) && Value(z) == 0
  {
    if z != [] {
      ZerosValue(z[..|z| - 1]);
    }
  }

  /** Python's `str(i)` for an integer. */
  function IntText(i: int): (s: string)
    ensures 1 <= |s|
    ensures i >= 0 ==> AllDigits(s) && Value(s) == i
    ensures i < 0 ==> s[0] == '-' && AllDigits(s[1..]) && Value(s[1..]) == -i
  {
    if i < 0 then
      ValueOfDigits(-i);
      assert ("-" + Digits(-i))[1..] == Digits(-i);
      "-" + Digits(-i)
    else
      ValueOfDigits(i);
      Digits(i)
  }

  /** Python's `int(x)` on a float: truncation toward zero. */
  function Truncate(x: real): (i: int)
    ensures x >= 0.0 ==> i as real <= x < i as real + 1.0
    ensures x < 0.0 ==> i as real - 1.0 < x <= i as real
  {
    if x >= 0.0 then x.Floor else -((-x).Floor)
  }
}
