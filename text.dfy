/**
  Python's whitespace handling on `str`, as `extract_usernames` uses it:
  `splitlines()`, `strip()` and `split()` with no arguments.
  The central result is `WordsOfLines`: splitting into lines, stripping each
  line and splitting each line into words yields exactly the words of the
  whole text, in the same order.
 */
module Text {

  /** `str.isspace()` for one character: the characters CPython classes as
      whitespace (bidirectional class WS, B or S, or general category Zs). */
  predicate IsSpace(c: char)
  {
    || '\t' <= c <= '\r'
    || '\U{1c}' <= c <= ' '
    || c == '\U{85}' || c == '\U{a0}' || c == '\U{1680}'
    || '\U{2000}' <= c <= '\U{200a}'
    || c == '\U{2028}' || c == '\U{2029}' || c == '\U{202f}' || c == '\U{205f}'
    || c == '\U{3000}'
  }

  /** The line boundaries of `str.splitlines()` ("\r\n" counts as one). */
  predicate IsLineBoundary(c: char)
  {
    || c == '\n' || c == '\r' || c == '\U{0b}' || c == '\U{0c}'
    || c == '\U{1c}' || c == '\U{1d}' || c == '\U{1e}'
    || c == '\U{85}' || c == '\U{2028}' || c == '\U{2029}'
  }

  /** Every line boundary is whitespace, so `split()` also breaks there. */
  lemma BoundaryIsSpace(c: char)
    requires IsLineBoundary(c)
    ensures IsSpace(c)
  {
  }

  predicate NoSpace(s: string)
  {
    forall i :: 0 <= i < |s| ==> !IsSpace(s[i])
  }

  predicate AllSpace(s: string)
  {
    forall i :: 0 <= i < |s| ==> IsSpace(s[i])
  }

  /** Length of the run of non-whitespace characters that starts `s`. */
  function WordEnd(s: string): (k: nat)
    ensures k <= |s|
    ensures NoSpace(s[..k])
    ensures k < |s| ==> IsSpace(s[k])
  {
    if s == [] || IsSpace(s[0]) then 0
    else
      var k := 1 + WordEnd(s[1..]);
      assert s[..k] == [s[0]] + s[1..][..k - 1];
      k
  }

  /** `s.split()`: the maximal runs of non-whitespace characters, in order. */
  function Words(s: string): (ws: seq<string>)
    ensures forall w :: w in ws ==> w != [] && NoSpace(w)
    decreases |s|
  {
    if s == [] then []
    else if IsSpace(s[0]) then Words(s[1..])
    else
      var k := WordEnd(s);
      [s[..k]] + Words(s[k..])
  }

  /** A run that starts `a + [c] + b`, for whitespace `c`, is the run that
      starts `a`: it stops at `c` at the latest. */
  lemma {:induction false} WordEndBeforeSpace(a: string, c: char, b: string)
    requires IsSpace(c)
    ensures WordEnd(a + [c] + b) == WordEnd(a)
    decreases |a|
  {
    if a == [] {
      assert (a + [c] + b)[0] == c;
    } else if !IsSpace(a[0]) {
      assert (a + [c] + b)[1..] == a[1..] + [c] + b;
      WordEndBeforeSpace(a[1..], c, b);
    }
  }

  /** `split()` on text that starts with a word: that word, then the words of
      the rest. */
  lemma WordsFirstWord(s: string)
    requires s != [] && !IsSpace(s[0])
    ensures Words(s) == [s[..WordEnd(s)]] + Words(s[WordEnd(s)..])
  {
  }

  /** A run without whitespace is one word: `WordEnd` reaches its end. */
  lemma {:induction false} WordEndAll(w: string)
    requires NoSpace(w)
    ensures WordEnd(w) == |w|
    decreases |w|
  {
    if w != [] {
      assert NoSpace(w[1..]) by {
        assert forall i :: 0 <= i < |w| - 1 ==> w[1..][i] == w[i + 1];
      }
      WordEndAll(w[1..]);
    }
  }

  /** `w.split() == [w]` for a non-empty `w` without whitespace. */
  lemma WordsOfWord(w: string)
    requires w != [] && NoSpace(w)
    ensures Words(w) == [w]
  {
    WordEndAll(w);
    WordsFirstWord(w);
    assert w[..|w|] == w && w[|w|..] == [];
  }

  /** A whitespace-free run with whitespace on both sides is one of the
      words of the text. */
  lemma WordBetweenSpaces(a: string, c: char, w: string, d: char, b: string)
    requires IsSpace(c) && IsSpace(d) && w != [] && NoSpace(w)
    ensures w in Words(a + [c] + w + [d] + b)
  {
    assert a + [c] + w + [d] + b == a + [c] + (w + [d] + b);
    WordsAroundSpace(a, c, w + [d] + b);
    WordsAroundSpace(w, d, b);
    WordsOfWord(w);
    assert Words(a + [c] + w + [d] + b) == Words(a) + ([w] + Words(b));
  }

  /** Splitting at a whitespace character: the words of `a + [c] + b` are the
      words of `a` followed by the words of `b`. */
  lemma {:induction false} WordsAroundSpace(a: string, c: char, b: string)
    requires IsSpace(c)
    ensures Words(a + [c] + b) == Words(a) + Words(b)
    decreases |a|, 1
  {
    var s := a + [c] + b;
    if a == [] {
      assert s == [c] + b;
      assert s[1..] == b;
    } else if IsSpace(a[0]) {
      assert s[1..] == a[1..] + [c] + b;
      WordsAroundSpace(a[1..], c, b);
    } else {
      WordsAroundSpaceAfterWord(a, c, b);
    }
  }

  /** The case of `WordsAroundSpace` where `a` starts with a word: that word
      ends before `c`, and the rest follows by induction. */
  lemma {:induction false} WordsAroundSpaceAfterWord(a: string, c: char, b: string)
    requires IsSpace(c) && a != [] && !IsSpace(a[0])
    ensures Words(a + [c] + b) == Words(a) + Words(b)
    decreases |a|, 0
  {
    var s := a + [c] + b;
    WordEndBeforeSpace(a, c, b);
    var k := WordEnd(a);
    WordsFirstWord(s);
    WordsFirstWord(a);
    SlicesAround(a, c, b, k);
    WordsAroundSpace(a[k..], c, b);
  }

  lemma SlicesAround(a: string, c: char, b: string, k: nat)
    requires k <= |a|
    ensures (a + [c] + b)[..k] == a[..k]
    ensures (a + [c] + b)[k..] == a[k..] + [c] + b
  {
  }

  /** The number of whitespace characters that start `s`. */
  function LeadingSpace(s: string): (n: nat)
    ensures n <= |s|
  {
    if s != [] && IsSpace(s[0]) then 1 + LeadingSpace(s[1..]) else 0
  }

  /** `LeadingSpace` counts the whole run of whitespace that starts `s`. */
  lemma {:induction false} LeadingSpaceRun(s: string)
    ensures var n := LeadingSpace(s);
            AllSpace(s[..n]) && (n < |s| ==> !IsSpace(s[n]))
    decreases |s|
  {
    if s != [] && IsSpace(s[0]) {
      LeadingSpaceRun(s[1..]);
      var n := LeadingSpace(s);
      assert forall i :: 1 <= i < n ==> s[..n][i] == s[1..][..n - 1][i - 1];
      assert n < |s| ==> s[n] == s[1..][n - 1];
    }
  }

  /** The number of whitespace characters that end `s`. */
  function TrailingSpace(s: string): (n: nat)
    ensures n <= |s|
  {
    if s != [] && IsSpace(s[|s| - 1]) then 1 + TrailingSpace(s[..|s| - 1]) else 0
  }

  /** `TrailingSpace` counts the whole run of whitespace that ends `s`. */
  lemma TrailingSpaceRun(s: string)
    ensures var n := TrailingSpace(s);
            AllSpace(s[|s| - n..]) && (n < |s| ==> !IsSpace(s[|s| - n - 1]))
  {
    TrailingSpaceAll(s);
    TrailingSpaceStops(s);
  }

  lemma {:induction false} TrailingSpaceAll(s: string)
    ensures AllSpace(s[|s| - TrailingSpace(s)..])
    decreases |s|
  {
    if s != [] && IsSpace(s[|s| - 1]) {
      var t := s[..|s| - 1];
      TrailingSpaceAll(t);
      var m := TrailingSpace(t);
      assert s[|s| - (m + 1)..] == t[|t| - m..] + [s[|s| - 1]];
      AllSpaceSnoc(t[|t| - m..], s[|s| - 1]);
    }
  }

  lemma {:induction false} TrailingSpaceStops(s: string)
    ensures TrailingSpace(s) < |s| ==> !IsSpace(s[|s| - TrailingSpace(s) - 1])
    decreases |s|
  {
    if s != [] && IsSpace(s[|s| - 1]) {
      var t := s[..|s| - 1];
      TrailingSpaceStops(t);
      var m := TrailingSpace(t);
      assert m + 1 < |s| ==> s[|s| - (m + 1) - 1] == t[|t| - m - 1];
    }
  }

  lemma AllSpaceSnoc(a: string, c: char)
    requires AllSpace(a) && IsSpace(c)
    ensures AllSpace(a + [c])
  {
  }

  /** `s.lstrip()` */
  function TrimStart(s: string): string
  {
    s[LeadingSpace(s)..]
  }

  /** `s.rstrip()` */
  function TrimEnd(s: string): string
  {
    s[..|s| - TrailingSpace(s)]
  }

  /** `s.strip()`: whitespace removed from both ends. */
  function Strip(s: string): string
  {
    TrimEnd(TrimStart(s))
  }

  /** `s.lstrip()` is a suffix of `s` that does not start with whitespace, and
      only whitespace was cut. */
  lemma TrimStartSuffix(s: string)
    ensures var r := TrimStart(s);
            && (r == [] || !IsSpace(r[0]))
            && |r| <= |s| && r == s[|s| - |r|..] && AllSpace(s[..|s| - |r|])
  {
    LeadingSpaceRun(s);
  }

  /** `s.rstrip()` is a prefix of `s` that does not end with whitespace, and
      only whitespace was cut. */
  lemma TrimEndPrefix(s: string)
    ensures var r := TrimEnd(s);
            && (r == [] || !IsSpace(r[|r| - 1]))
            && |r| <= |s| && r == s[..|r|] && AllSpace(s[|r|..])
  {
    TrailingSpaceRun(s);
  }

  /** `s.strip()` is the slice of `s` that starts after its leading
      whitespace. */
  lemma StripSlice(s: string)
    ensures var r := Strip(s);
            var i := LeadingSpace(s);
            i + |r| <= |s| && r == s[i..i + |r|]
  {
    var i := LeadingSpace(s);
    var n := TrailingSpace(s[i..]);
    assert Strip(s) == s[i..][..|s[i..]| - n];
    assert s[i..][..|s[i..]| - n] == s[i..i + (|s| - i - n)];
  }

  /** Neither end of `s.strip()` is whitespace. */
  lemma StripEnds(s: string)
    ensures var r := Strip(s);
            r == [] || (!IsSpace(r[0]) && !IsSpace(r[|r| - 1]))
  {
    var i := LeadingSpace(s);
    var t := s[i..];
    LeadingSpaceRun(s);
    TrailingSpaceRun(t);
    var r := Strip(s);
    assert r == t[..|t| - TrailingSpace(t)];
    if r != [] {
      assert r[0] == t[0] == s[i];
      assert r[|r| - 1] == t[|t| - TrailingSpace(t) - 1];
    }
  }

  /** Only whitespace surrounds `s.strip()` in `s`. */
  lemma StripCutsSpace(s: string)
    ensures var r := Strip(s);
            var i := LeadingSpace(s);
            i + |r| <= |s| && AllSpace(s[..i]) && AllSpace(s[i + |r|..])
  {
    var i := LeadingSpace(s);
    var t := s[i..];
    var n := TrailingSpace(t);
    LeadingSpaceRun(s);
    TrailingSpaceAll(t);
    assert |Strip(s)| == |t| - n;
    assert s[i + (|t| - n)..] == t[|t| - n..];
  }

  lemma {:induction false} WordsTrimStart(s: string)
    ensures Words(TrimStart(s)) == Words(s)
    decreases |s|
  {
    if s != [] && IsSpace(s[0]) {
      assert TrimStart(s) == TrimStart(s[1..]);
      WordsTrimStart(s[1..]);
    } else {
      assert TrimStart(s) == s;
    }
  }

  lemma {:induction false} WordsTrimEnd(s: string)
    ensures Words(TrimEnd(s)) == Words(s)
    decreases |s|
  {
    if s != [] && IsSpace(s[|s| - 1]) {
      var t := s[..|s| - 1];
      assert s == t + [s[|s| - 1]] + [];
      assert TrimEnd(s) == TrimEnd(t);
      WordsAroundSpace(t, s[|s| - 1], []);
      assert Words([]) == [];
      WordsTrimEnd(t);
    } else {
      assert TrimEnd(s) == s;
    }
  }

  /** Stripping a line does not change its words. */
  lemma WordsStrip(s: string)
    ensures Words(Strip(s)) == Words(s)
  {
    WordsTrimStart(s);
    WordsTrimEnd(TrimStart(s));
  }

  /** Index of the first line boundary of `s`, or `|s|` when there is none. */
  function LineEnd(s: string): (k: nat)
    ensures k <= |s|
    ensures k < |s| ==> IsLineBoundary(s[k])
  {
    if s == [] || IsLineBoundary(s[0]) then 0 else 1 + LineEnd(s[1..])
  }

  /** `s.splitlines()`: the lines without their terminators; a terminator at
      the very end opens no further line, and "\r\n" ends one line. */
  function SplitLines(s: string): (lines: seq<string>)
    ensures s == [] <==> lines == []
    decreases |s|
  {
    if s == [] then []
    else
      var k := LineEnd(s);
      if k == |s| then [s]
      else
        var next := if s[k] == '\r' && k + 1 < |s| && s[k + 1] == '\n' then k + 2 else k + 1;
        [s[..k]] + SplitLines(s[next..])
  }

  /** `[line.strip() for line in lines]` */
  function StripAll(lines: seq<string>): (r: seq<string>)
    ensures |r| == |lines|
  {
    if lines == [] then [] else [Strip(lines[0])] + StripAll(lines[1..])
  }

  /** The words of each line, in line order: what the nested
      `for line` / `for word` loops visit. */
  function LinesWords(lines: seq<string>): seq<string>
  {
    if lines == [] then [] else Words(lines[0]) + LinesWords(lines[1..])
  }

  lemma {:induction false} LinesWordsAppend(a: seq<string>, b: seq<string>)
    ensures LinesWords(a + b) == LinesWords(a) + LinesWords(b)
    decreases |a|
  {
    if a == [] {
      assert a + b == b;
    } else {
      assert (a + b)[0] == a[0];
      assert (a + b)[1..] == a[1..] + b;
      LinesWordsAppend(a[1..], b);
      calc {
        LinesWords(a + b);
        Words(a[0]) + LinesWords(a[1..] + b);
        Words(a[0]) + (LinesWords(a[1..]) + LinesWords(b));
        (Words(a[0]) + LinesWords(a[1..])) + LinesWords(b);
      }
    }
  }

  /** Visiting the words of the stripped lines of `text` visits exactly the
      words of `text.split()`, in order. */
  lemma {:induction false} WordsOfLines(text: string)
    ensures LinesWords(StripAll(SplitLines(text))) == Words(text)
    decreases |text|
  {
    if text != [] {
      var k := LineEnd(text);
      if k == |text| {
        WordsStrip(text);
      } else {
        var c := text[k];
        BoundaryIsSpace(c);
        var next := if c == '\r' && k + 1 < |text| && text[k + 1] == '\n' then k + 2 else k + 1;
        var rest := text[next..];
        assert text == text[..k] + [c] + text[k + 1..];
        WordsAroundSpace(text[..k], c, text[k + 1..]);
        if next == k + 2 {
          assert text[k + 1..] == ['\n'] + rest;
          assert IsSpace('\n');
          assert Words(text[k + 1..]) == Words(rest);
        }
        WordsOfLines(rest);
        WordsStrip(text[..k]);
        assert StripAll(SplitLines(text)) == [Strip(text[..k])] + StripAll(SplitLines(rest));
      }
    }
  }
}
