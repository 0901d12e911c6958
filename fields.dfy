/** The display-field normalisers of `server.py`: `_normalize_name` and
    `_normalize_color`. Both take the text `str(value or "")`. */
module Fields {
  import opened Text

  const DEFAULT_NAME: string := "Pilote"
  const DEFAULT_COLOR: string := "#7af6ff"
  const NAME_LIMIT: nat := 18
  const COLOR_LIMIT: nat := 64

  function Min(a: nat, b: nat): nat {
    if a < b then a else b
  }

  /** `_normalize_name`: collapse whitespace runs to single spaces, fall back
      to "Pilote" when nothing is left, and keep at most 18 characters. */
  function NormalizeName(raw: string): (r: string)
    ensures 1 <= |r| <= NAME_LIMIT
    ensures SingleSpaced(r)
    ensures Blank(raw) ==> r == DEFAULT_NAME
    ensures !Blank(raw) ==> Visible(r) <= Visible(raw)
    ensures !Blank(raw) && |r| < NAME_LIMIT ==> Visible(r) == Visible(raw)
    ensures IsSpace(r[|r| - 1]) ==> |r| == NAME_LIMIT
    ensures !Blank(raw) ==> r <= Collapse(Strip(raw))
    ensures !Blank(raw) ==> |r| == Min(|Collapse(Strip(raw))|, NAME_LIMIT)
  {
    CollapsedText(raw);
    NameOfCollapsed(Collapse(Strip(raw)))
  }

  /** The last step of `_normalize_name` on its collapsed text `c`: "Pilote"
      when `c` is empty, otherwise its first 18 characters. */
  function NameOfCollapsed(c: string): (r: string)
    requires Collapsed(c)
    ensures 1 <= |r| <= NAME_LIMIT
    ensures SingleSpaced(r)
    ensures c == [] ==> r == DEFAULT_NAME
    ensures c != [] ==> r <= c && |r| == Min(|c|, NAME_LIMIT)
    ensures c != [] ==> Visible(r) <= Visible(c)
    ensures c != [] && |r| < NAME_LIMIT ==> Visible(r) == Visible(c)
    ensures IsSpace(r[|r| - 1]) ==> |r| == NAME_LIMIT
  {
    if c == [] then
      assert SingleSpaced(DEFAULT_NAME) by {
        forall i | 0 <= i < |DEFAULT_NAME| ensures SpaceOk(DEFAULT_NAME, i) {
        }
      }
      DEFAULT_NAME
    else
      var r := c[..Min(|c|, NAME_LIMIT)];
      PrefixFacts(c, Min(|c|, NAME_LIMIT));
      r
  }

  /** The collapsed text of `raw` is empty exactly when `raw` is blank, and
      otherwise holds the same visible characters. */
  lemma CollapsedText(raw: string)
    ensures Collapsed(Collapse(Strip(raw)))
    ensures Visible(Collapse(Strip(raw))) == Visible(raw)
    ensures Collapse(Strip(raw)) == [] <==> Blank(raw)
  {
    var c := Collapse(Strip(raw));
    CollapseShape(Strip(raw));
    if Blank(raw) {
      VisibleBlank(raw);
      assert c != [] ==> Visible(c) != [] by {
        if c != [] {
          VisibleOfCollapsed(c);
        }
      }
    } else {
      VisibleOfNonBlank(raw);
    }
  }

  lemma VisibleOfCollapsed(c: string)
    requires Collapsed(c) && c != []
    ensures Visible(c) != []
  {
    assert Visible(c) == [c[0]] + Visible(c[1..]);
  }

  lemma {:induction false} VisibleOfNonBlank(s: string)
    requires !Blank(s)
    ensures Visible(s) != []
  {
    if IsSpace(s[0]) {
      assert !Blank(s[1..]) by {
        var i :| 0 <= i < |s| && !IsSpace(s[i]);
        assert s[1..][i - 1] == s[i];
      }
      VisibleOfNonBlank(s[1..]);
    }
  }

  /** A prefix of a collapsed string is single-spaced, shows a prefix of its
      visible characters, and ends in a space only when it is a proper prefix. */
  lemma PrefixFacts(c: string, k: nat)
    requires Collapsed(c) && k <= |c|
    ensures SingleSpaced(c[..k])
    ensures Visible(c[..k]) <= Visible(c)
    ensures k == |c| ==> c[..k] == c
    ensures 0 < k && IsSpace(c[..k][k - 1]) ==> k < |c|
  {
    forall i | 0 <= i < k ensures SpaceOk(c[..k], i) {
      assert SpaceOk(c, i);
    }
    assert c == c[..k] + c[k..];
    VisibleAppend(c[..k], c[k..]);
  }

  /** `_normalize_color`: strip, fall back to "#7af6ff" when nothing is left,
      and keep at most 64 characters. */
  function NormalizeColor(raw: string): (r: string)
    ensures 1 <= |r| <= COLOR_LIMIT
    ensures !IsSpace(r[0])
    ensures Blank(raw) ==> r == DEFAULT_COLOR
    ensures !Blank(raw) ==> r <= Strip(raw)
    ensures !Blank(raw) && |Strip(raw)| <= COLOR_LIMIT ==> r == Strip(raw)
    ensures !Blank(raw) ==> |r| == Min(|Strip(raw)|, COLOR_LIMIT)
  {
    var c := Strip(raw);
    if c == [] then DEFAULT_COLOR else c[..Min(|c|, COLOR_LIMIT)]
  }

  lemma StripOfStripped(s: string)
    requires Stripped(s)
    ensures Strip(s) == s
  {
    if s != [] {
      assert LeadingSpaces(s) == 0;
      assert s[0..] == s;
      assert TrailStart(s) == |s|;
    } else {
      assert LeadingSpaces(s) == 0;
    }
  }

  /** A name that is already collapsed and within the limit is kept as it is. */
  lemma NameFixedPoint(y: string)
    requires Collapsed(y) && 1 <= |y| <= NAME_LIMIT
    ensures NormalizeName(y) == y
  {
    StripOfStripped(y);
    CollapseOfCollapsed(y);
  }

  /** A single-spaced name within the limit normalises to its stripped
      form, which is collapsed and not empty. */
  lemma NormalizeSingleSpaced(y: string)
    requires SingleSpaced(y) && 1 <= |y| <= NAME_LIMIT
    ensures NormalizeName(y) == Strip(y)
    ensures Collapsed(Strip(y)) && 1 <= |Strip(y)| <= NAME_LIMIT
  {
    StripSingleSpaced(y);
    var z := Strip(y);
    CollapseOfCollapsed(z);
    assert z[..|z|] == z;
  }

  /** Normalising a name the second time can only drop one trailing space,
      and what it gives is a fixed point: normalising twice is stable. */
  lemma NormalizeNameTwice(x: string)
    ensures Collapsed(NormalizeName(NormalizeName(x)))
    ensures NormalizeName(NormalizeName(NormalizeName(x))) == NormalizeName(NormalizeName(x))
  {
    var y := NormalizeName(x);
    NormalizeSingleSpaced(y);
    NameFixedPoint(Strip(y));
  }

  /** Normalising a name once is not idempotent: cutting at 18 characters
      can leave a trailing space, which the next normalisation removes. */
  lemma NormalizeNameNotIdempotent()
    ensures exists x :: NormalizeName(NormalizeName(x)) != NormalizeName(x)
  {
    var w := seq(NAME_LIMIT - 1, _ => 'a');
    var x := w + " " + "b";
    assert Collapsed("b") by {
      assert SpaceOk("b", 0);
    }
    JoinCollapsed(w, "b");
    StripOfStripped(x);
    CollapseOfCollapsed(x);
    assert x[..NAME_LIMIT] == w + " ";
    var y := NormalizeName(x);
    assert y == w + " ";
    StripSingleSpaced(y);
    assert LeadingSpaces(y) == 0;
    assert y[0..] == y;
    assert TrailStart(y) == |w|;
    assert Strip(y) == w;
    assert Collapsed(w) by {
      forall i | 0 <= i < |w| ensures SpaceOk(w, i) {
      }
    }
    CollapseOfCollapsed(w);
    assert NormalizeName(y) == w;
    assert NormalizeName(y) != y;
  }

  /** The unit-test cases of `_normalize_name`: a blank name falls back to
      "Pilote", a double space inside becomes one, and thirty letters are
      cut to eighteen. */
  lemma NameExampleBlank()
    ensures NormalizeName("  ") == DEFAULT_NAME
  {
    assert Blank("  ");
  }

  lemma NameExampleGap()
    ensures NormalizeName("Test  Name") == "Test Name"
  {
    ExampleWords();
    NameOfTwoWords("Test", "  ", "Name");
  }

  lemma NameExampleLong()
    ensures NormalizeName(seq(30, _ => 'A')) == seq(NAME_LIMIT, _ => 'A')
  {
    var y := seq(30, _ => 'A');
    NameOfLongWord(y);
    assert y[..NAME_LIMIT] == seq(NAME_LIMIT, _ => 'A');
  }

  lemma ExampleWords()
    ensures forall i :: 0 <= i < 4 ==> !IsSpace("Test"[i]) && !IsSpace("Name"[i])
    ensures "Test" + "  " + "Name" == "Test  Name"
    ensures "Test" + " " + "Name" == "Test Name"
  {
  }

  /** Two words with any run of whitespace between them, short enough
      together, normalise to the two words and one space. */
  lemma NameOfTwoWords(w1: string, ws: string, w2: string)
    requires w1 != [] && forall i :: 0 <= i < |w1| ==> !IsSpace(w1[i])
    requires w2 != [] && forall i :: 0 <= i < |w2| ==> !IsSpace(w2[i])
    requires ws != [] && Blank(ws) && |w1| + 1 + |w2| <= NAME_LIMIT
    ensures NormalizeName(w1 + ws + w2) == w1 + " " + w2
  {
    var x := w1 + ws + w2;
    assert x[0] == w1[0] && x[|x| - 1] == w2[|w2| - 1];
    StripOfStripped(x);
    WordCollapsed(w1);
    WordCollapsed(w2);
    CollapseGap(w1, ws, w2);
    NotBlankAppend(w1 + ws, w2);
    var c := w1 + " " + w2;
    assert c[..|c|] == c;
  }

  /** A word of at least eighteen visible characters is cut to its first
      eighteen. */
  lemma NameOfLongWord(w: string)
    requires |w| >= NAME_LIMIT && forall i :: 0 <= i < |w| ==> !IsSpace(w[i])
    ensures NormalizeName(w) == w[..NAME_LIMIT]
  {
    WordCollapsed(w);
    StripOfStripped(w);
  }

  /** A single word without whitespace is its own stripped and collapsed form. */
  lemma WordCollapsed(w: string)
    requires w != [] && forall i :: 0 <= i < |w| ==> !IsSpace(w[i])
    ensures Collapsed(w) && !Blank(w) && Collapse(w) == w
  {
    assert Collapsed(w) by {
      forall i | 0 <= i < |w| ensures SpaceOk(w, i) {
      }
    }
    CollapseOfCollapsed(w);
  }

  /** The unit-test cases of `_normalize_color`: a blank colour falls back
      to "#7af6ff", a plain one is kept. */
  lemma NormalizeColorExamples()
    ensures NormalizeColor("  ") == DEFAULT_COLOR
    ensures NormalizeColor("#abcdef") == "#abcdef"
  {
    assert Blank("  ");
    assert Stripped("#abcdef");
    StripOfStripped("#abcdef");
    assert !Blank("#abcdef");
  }

  /** A stripped colour within the limit is kept as it is. */
  lemma ColorFixedPoint(y: string)
    requires Stripped(y) && 1 <= |y| <= COLOR_LIMIT
    ensures NormalizeColor(y) == y
  {
    StripOfStripped(y);
  }

  /** Normalising a colour twice is stable. */
  lemma NormalizeColorTwice(x: string)
    ensures Stripped(NormalizeColor(NormalizeColor(x)))
    ensures NormalizeColor(NormalizeColor(NormalizeColor(x))) == NormalizeColor(NormalizeColor(x))
  {
    var y := NormalizeColor(x);
    assert !Blank(y);
    var z := NormalizeColor(y);
    assert z == Strip(y);
    ColorFixedPoint(z);
  }

  /** Normalising a colour once is not idempotent either. */
  lemma NormalizeColorNotIdempotent()
    ensures exists x :: NormalizeColor(NormalizeColor(x)) != NormalizeColor(x)
  {
    var w := seq(COLOR_LIMIT - 1, _ => 'a');
    var x := w + " " + "b";
    assert Stripped(x);
    StripOfStripped(x);
    assert !Blank(x);
    assert x[..COLOR_LIMIT] == w + " ";
    var y := NormalizeColor(x);
    assert y == w + " ";
    assert LeadingSpaces(y) == 0;
    assert y[0..] == y;
    assert TrailStart(y) == |w|;
    assert Strip(y) == w;
    assert !Blank(y);
    assert NormalizeColor(y) == w;
  }
}
