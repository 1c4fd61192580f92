/**
  `extract_usernames`: the usernames one screenshot's OCR text yields.
  The OCR call itself is foreign: its outcome is the input, `None` standing
  for the exception that the function catches and answers with an empty set.
 */
module Extraction {
  import opened Wrappers
  import opened Text
  import opened Handles

  /** The set `extract_usernames` returns for an OCR outcome, stated on the
      words of the whole text. */
  function UsernamesOf(ocr: Option<string>): (r: set<string>)
    ensures forall u :: u in r ==> IsUsername(u)
  {
    match ocr
    case None => {}
    case Some(text) =>
      HandlesInAreUsernames(Words(text));
      HandlesIn(Words(text))
  }

  /** The nested `for line` / `for word` loops of `extract_usernames`, adding
      `word[1:]` for every word the pattern matches. */
  method ExtractUsernames(ocr: Option<string>) returns (usernames: set<string>)
    ensures usernames == UsernamesOf(ocr)
  {
    usernames := {};
    if ocr.None? {
      return;
    }
    var text := ocr.value;
    var lines := StripAll(SplitLines(text));
    var i := 0;
    while i < |lines|
      invariant 0 <= i <= |lines|
      invariant usernames == HandlesIn(LinesWords(lines[..i]))
    {
      usernames := AddHandles(usernames, Words(lines[i]));
      NextLine(lines, i);
      i := i + 1;
    }
    assert lines[..i] == lines;
    WordsOfLines(text);
  }

  /** The inner `for word in line.split()` loop: adds `word[1:]` to the set
      for every word the pattern matches. */
  method AddHandles(acc: set<string>, words: seq<string>) returns (usernames: set<string>)
    ensures usernames == acc + HandlesIn(words)
  {
    usernames := acc;
    var j := 0;
    assert words[..j] == [];
    while j < |words|
      invariant 0 <= j <= |words|
      invariant usernames == acc + HandlesIn(words[..j])
    {
      var word := words[j];
      if MatchesHandle(word) {
        usernames := usernames + {word[1..]};
      }
      NextWord(words, j);
      j := j + 1;
    }
    assert words[..j] == words;
  }

  /** The step of the inner loop. */
  lemma NextWord(words: seq<string>, j: nat)
    requires j < |words|
    ensures HandlesIn(words[..j + 1])
         == HandlesIn(words[..j]) + (if MatchesHandle(words[j]) then {words[j][1..]} else {})
  {
    assert words[..j + 1] == words[..j] + [words[j]];
    HandlesInSnoc(words[..j], words[j]);
  }

  /** The step of the outer loop. */
  lemma NextLine(lines: seq<string>, i: nat)
    requires i < |lines|
    ensures HandlesIn(LinesWords(lines[..i + 1])) == HandlesIn(LinesWords(lines[..i])) + HandlesIn(Words(lines[i]))
  {
    assert lines[..i + 1] == lines[..i] + [lines[i]];
    LinesWordsAppend(lines[..i], [lines[i]]);
    assert LinesWords([lines[i]]) == Words(lines[i]) + LinesWords([]) == Words(lines[i]);
    HandlesInAppend(LinesWords(lines[..i]), Words(lines[i]));
  }

  /** Exact membership: `u` is extracted from `text` if and only if `"@" + u`
      is one of its whitespace-separated words and `u` is a username. */
  lemma ExtractedMembership(text: string, u: string)
    ensures u in UsernamesOf(Some(text)) <==> IsUsername(u) && "@" + u in Words(text)
  {
    HandlesInMembership(Words(text), u);
  }

  /** Text split at any whitespace character yields the union of both parts:
      lines and words may be visited in any grouping. */
  lemma ExtractedSplit(a: string, c: char, b: string)
    requires IsSpace(c)
    ensures UsernamesOf(Some(a + [c] + b)) == UsernamesOf(Some(a)) + UsernamesOf(Some(b))
  {
    WordsAroundSpace(a, c, b);
    HandlesInAppend(Words(a), Words(b));
  }

  /** Swapping two lines (or words) does not change the result. */
  lemma ExtractedLineOrder(a: string, c: char, b: string)
    requires IsSpace(c)
    ensures UsernamesOf(Some(a + [c] + b)) == UsernamesOf(Some(b + [c] + a))
  {
    ExtractedSplit(a, c, b);
    ExtractedSplit(b, c, a);
  }

  /** Repeating a line (or word) does not change the result. */
  lemma ExtractedDuplicate(a: string, c: char)
    requires IsSpace(c)
    ensures UsernamesOf(Some(a + [c] + a)) == UsernamesOf(Some(a))
  {
    ExtractedSplit(a, c, a);
  }

  /** Texts with the same words (in any order and multiplicity) yield the
      same set. */
  lemma ExtractedSameWords(t1: string, t2: string)
    requires forall w :: w in Words(t1) <==> w in Words(t2)
    ensures UsernamesOf(Some(t1)) == UsernamesOf(Some(t2))
  {
    HandlesInSameWords(Words(t1), Words(t2));
  }
}
