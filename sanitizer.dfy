/** `sanitize_text`: folds a page's line structure into one trimmed line. */
module Sanitizer {
  import opened Text

  /** `re.sub(r"[\r\n]+", " ", ...)` applied to `s[i..]`: every maximal run of carriage
      returns and newlines becomes one space; every other character is kept. */
  function CollapseBreaks(s: string, i: nat): (r: string)
    requires i <= |s|
    ensures SingleLine(r)
    ensures |r| <= |s| - i
    decreases |s| - i
  {
    if i == |s| then ""
    else if IsBreak(s[i]) then " " + CollapseBreaks(s, RunEnd(s, i, IsBreak))
    else [s[i]] + CollapseBreaks(s, i + 1)
  }

  /** A single line has no breaks to collapse: it is kept as it is. */
  lemma {:induction false} CollapseSingleLine(s: string, i: nat)
    requires i <= |s| && SingleLine(s[i..])
    ensures CollapseBreaks(s, i) == s[i..]
    decreases |s| - i
  {
    if i < |s| {
      assert s[i] == s[i..][0];
      var tail := s[i + 1..];
      forall k | 0 <= k < |tail| ensures !IsBreak(tail[k]) {
        assert tail[k] == s[i..][k + 1];
      }
      CollapseSingleLine(s, i + 1);
      assert s[i..] == [s[i]] + tail;
    }
  }

  /** `sanitize_text(text)`: collapse the line breaks, then strip. The result is one line
      with no whitespace at either end and is never longer than the input. */
  function SanitizeText(text: string): (r: string)
    ensures SingleLine(r) && Stripped(r)
    ensures |r| <= |text|
  {
    var collapsed := CollapseBreaks(text, 0);
    var r := Strip(collapsed);
    assert SingleLine(r) by {
      forall k | 0 <= k < |r| ensures !IsBreak(r[k]) {
        assert r[k] == collapsed[StripStart(collapsed) + k];
      }
    }
    r
  }

  /** The collapse of `s[i..]` depends on nothing but `s[i..]`. */
  lemma {:induction false} CollapseShift(s: string, i: nat, t: string, j: nat)
    requires i <= |s| && j <= |t| && s[i..] == t[j..]
    ensures CollapseBreaks(s, i) == CollapseBreaks(t, j)
    decreases |s| - i
  {
    if i < |s| {
      assert s[i] == s[i..][0] == t[j..][0] == t[j];
      if IsBreak(s[i]) {
        var e := RunEnd(s, i, IsBreak);
        var f := j + (e - i);
        forall k | j <= k < f ensures IsBreak(t[k]) {
          assert t[k] == t[j..][k - j] == s[i..][k - j] == s[i + (k - j)];
        }
        if f < |t| {
          assert t[f] == t[j..][e - i] == s[i..][e - i] == s[e];
        }
        RunEndIs(t, j, f, IsBreak);
        assert s[e..] == s[i..][e - i..] && t[f..] == t[j..][e - i..];
        CollapseShift(s, e, t, f);
      } else {
        assert s[i + 1..] == s[i..][1..] && t[j + 1..] == t[j..][1..];
        CollapseShift(s, i + 1, t, j + 1);
      }
    }
  }

  /** Cutting a text where no run of breaks straddles the cut: the collapse of the whole is
      the collapse of the two parts, one after the other. */
  lemma {:induction false} CollapseSplit(x: string, y: string, k: nat)
    requires k <= |x|
    requires x == [] || !IsBreak(x[|x| - 1]) || y == [] || !IsBreak(y[0])
    ensures CollapseBreaks(x + y, k) == CollapseBreaks(x, k) + CollapseBreaks(y, 0)
    decreases |x| - k
  {
    if k == |x| {
      assert (x + y)[|x|..] == y[0..];
      CollapseShift(x + y, |x|, y, 0);
    } else if IsBreak(x[k]) {
      var e := RunEnd(x, k, IsBreak);
      BreakRunInPrefix(x, y, k);
      CollapseSplit(x, y, e);
      CollapseSplitRun(x, y, k, e);
    } else {
      CollapseSplit(x, y, k + 1);
      CollapseSplitKeep(x, y, k);
    }
  }

  /** The step of `CollapseSplit` over a run of breaks of `x`. */
  lemma CollapseSplitRun(x: string, y: string, k: nat, e: nat)
    requires k < |x| && IsBreak(x[k]) && e == RunEnd(x, k, IsBreak)
    requires (x + y)[k] == x[k] && RunEnd(x + y, k, IsBreak) == e
    requires CollapseBreaks(x + y, e) == CollapseBreaks(x, e) + CollapseBreaks(y, 0)
    ensures CollapseBreaks(x + y, k) == CollapseBreaks(x, k) + CollapseBreaks(y, 0)
  {
  }

  /** The step of `CollapseSplit` over a character of `x` that is not a break. */
  lemma CollapseSplitKeep(x: string, y: string, k: nat)
    requires k < |x| && !IsBreak(x[k])
    requires CollapseBreaks(x + y, k + 1) == CollapseBreaks(x, k + 1) + CollapseBreaks(y, 0)
    ensures CollapseBreaks(x + y, k) == CollapseBreaks(x, k) + CollapseBreaks(y, 0)
  {
    assert (x + y)[k] == x[k];
  }

  /** A run of breaks in `x` that no run in `y` continues ends where it ends in `x + y`. */
  lemma BreakRunInPrefix(x: string, y: string, k: nat)
    requires k < |x| && IsBreak(x[k])
    requires x == [] || !IsBreak(x[|x| - 1]) || y == [] || !IsBreak(y[0])
    ensures (x + y)[k] == x[k] && RunEnd(x + y, k, IsBreak) == RunEnd(x, k, IsBreak)
  {
    var s := x + y;
    var e := RunEnd(x, k, IsBreak);
    forall t | k <= t < e ensures IsBreak(s[t]) {
      assert s[t] == x[t];
    }
    if e < |x| {
      assert s[e] == x[e];
    } else if y != [] {
      assert x[|x| - 1] == x[e - 1];
      assert s[e] == y[0];
    }
    RunEndIs(s, k, e, IsBreak);
  }

  /** A non-empty run of breaks collapses to one space. */
  lemma CollapseBreakRun(b: string)
    requires |b| > 0 && forall k :: 0 <= k < |b| ==> IsBreak(b[k])
    ensures CollapseBreaks(b, 0) == " "
  {
    RunEndIs(b, 0, |b|, IsBreak);
  }

  /** The value of the collapse, run by run: a line, then a run of breaks, then the rest
      that starts with something else. The line is kept, the run becomes one space, and the
      rest is collapsed in turn. With `CollapseBreaks` of a single line being that line,
      this fixes the result on every input. */
  lemma CollapseBreaksJoin(x: string, b: string, y: string)
    requires SingleLine(x) && |b| > 0 && (forall k :: 0 <= k < |b| ==> IsBreak(b[k]))
    requires y == [] || !IsBreak(y[0])
    ensures CollapseBreaks(x + b + y, 0) == x + " " + CollapseBreaks(y, 0)
  {
    CollapseSplit(x + b, y, 0);
    CollapseSplit(x, b, 0);
    assert x[0..] == x;
    CollapseSingleLine(x, 0);
    CollapseBreakRun(b);
  }

  /** Whitespace collapses to whitespace. */
  lemma {:induction false} CollapseSpaces(s: string, i: nat)
    requires i <= |s| && forall k :: i <= k < |s| ==> IsSpace(s[k])
    ensures AllSpace(CollapseBreaks(s, i))
    decreases |s| - i
  {
    if i < |s| {
      if IsBreak(s[i]) {
        CollapseSpaces(s, RunEnd(s, i, IsBreak));
      } else {
        CollapseSpaces(s, i + 1);
      }
    }
  }

  /** A text that neither starts nor ends with a break keeps its first and its last
      character. */
  lemma CollapseKeepsEnds(m: string)
    requires |m| > 0 && !IsBreak(m[0]) && !IsBreak(m[|m| - 1])
    ensures var c := CollapseBreaks(m, 0); |c| > 0 && c[0] == m[0] && c[|c| - 1] == m[|m| - 1]
  {
    var n := |m| - 1;
    assert m == m[..n] + [m[n]];
    CollapseSplit(m[..n], [m[n]], 0);
    assert CollapseBreaks([m[n]], 1) == "";
  }

  /** Blank text sanitizes to the empty string. */
  lemma SanitizeBlank(s: string)
    requires AllSpace(s)
    ensures SanitizeText(s) == ""
  {
    CollapseSpaces(s, 0);
    StripAllSpace(CollapseBreaks(s, 0));
  }

  /** Text that is its stripped middle `m` between two runs of whitespace sanitizes to the
      collapse of `m`. */
  lemma SanitizeFramed(w1: string, m: string, w2: string)
    requires AllSpace(w1) && AllSpace(w2) && |m| > 0 && Stripped(m)
    ensures SanitizeText(w1 + m + w2) == CollapseBreaks(m, 0)
  {
    CollapseSpaces(w1, 0);
    CollapseSpaces(w2, 0);
    CollapseSplit(w1 + m, w2, 0);
    CollapseSplit(w1, m, 0);
    CollapseKeepsEnds(m);
    StripAround(CollapseBreaks(w1, 0), CollapseBreaks(m, 0), CollapseBreaks(w2, 0));
  }

  /** Stripping first and collapsing second gives the same text: `sanitize_text` is the
      collapse of the stripped input, and so never longer than the input stripped. */
  lemma SanitizeStripFirst(s: string)
    ensures SanitizeText(s) == CollapseBreaks(Strip(s), 0)
    ensures |SanitizeText(s)| <= |Strip(s)|
  {
    StripFrame(s);
    if Strip(s) == [] {
      StripEmpty(s);
      SanitizeBlank(s);
    } else {
      SanitizeFramed(s[..StripStart(s)], Strip(s), s[StripStop(s)..]);
    }
  }

  /** The strings `sanitize_text` leaves alone are exactly the single-line, stripped ones. */
  lemma SanitizeFixedPoint(s: string)
    ensures SanitizeText(s) == s <==> SingleLine(s) && Stripped(s)
  {
    if SingleLine(s) && Stripped(s) {
      assert s[0..] == s;
      CollapseSingleLine(s, 0);
      StripStripped(s);
    }
  }

  /** Sanitizing twice is the same as sanitizing once. */
  lemma SanitizeIdempotent(s: string)
    ensures SanitizeText(SanitizeText(s)) == SanitizeText(s)
  {
    SanitizeFixedPoint(SanitizeText(s));
  }

  lemma SanitizeEmpty()
    ensures SanitizeText("") == ""
  {
  }
}
