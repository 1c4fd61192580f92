/**
  The username pattern `USERNAME_REGEX = ^@[a-zA-Z0-9_]{5,32}$` and the set
  of usernames a sequence of words contributes.
 */
module Handles {
  import opened Text

  /** One character of the class `[a-zA-Z0-9_]` (ASCII only: the class lists
      its ranges explicitly). */
  predicate IsHandleChar(c: char)
  {
    'a' <= c <= 'z' || 'A' <= c <= 'Z' || '0' <= c <= '9' || c == '_'
  }

  /** A Telegram username as stored: 5 to 32 characters of `[a-zA-Z0-9_]`. */
  predicate IsUsername(u: string)
  {
    5 <= |u| <= 32 && forall i :: 0 <= i < |u| ==> IsHandleChar(u[i])
  }

  /** `USERNAME_REGEX.match(w)`. Python's `$` matches at the end of the string
      and also just before a newline that ends it. */
  predicate MatchesHandle(w: string)
  {
    && |w| >= 1 && w[0] == '@'
    && (|| IsUsername(w[1..])
        || (|w| >= 2 && w[|w| - 1] == '\n' && IsUsername(w[1..|w| - 1])))
  }

  /** A username never holds "@", a newline or any other whitespace, so it can
      neither be confused with a handle nor break an exported line. */
  lemma UsernameShape(u: string)
    requires IsUsername(u)
    ensures '@' !in u && '\n' !in u && NoSpace(u)
  {
    forall i | 0 <= i < |u| ensures u[i] != '@' && u[i] != '\n' && !IsSpace(u[i]) {
      assert IsHandleChar(u[i]);
    }
  }

  /** On a word of `split()` (no whitespace at all) the pattern reduces to
      "@" followed by a username. */
  lemma MatchOnWord(w: string)
    requires NoSpace(w)
    ensures MatchesHandle(w) <==> |w| >= 1 && w[0] == '@' && IsUsername(w[1..])
  {
    if |w| >= 2 {
      assert !IsSpace(w[|w| - 1]);
    }
  }

  /** The `$` quirk: a candidate that ends in a newline still matches, although
      what follows "@" is then no username. */
  lemma DollarBeforeFinalNewline()
    ensures MatchesHandle("@alice\n") && !IsUsername("alice\n")
  {
    var w := "@alice\n";
    assert w[1..|w| - 1] == "alice";
    assert IsUsername("alice");
  }

  /** What the words `ws` add to the set, visited in order: `word[1:]` for
      every word the pattern matches. */
  function HandlesIn(ws: seq<string>): set<string>
  {
    if ws == [] then {}
    else
      var w := ws[|ws| - 1];
      HandlesIn(ws[..|ws| - 1]) + (if MatchesHandle(w) then {w[1..]} else {})
  }

  /** `u` is contributed exactly when some matching word has body `u`. */
  lemma {:induction false} HandlesInWitness(ws: seq<string>, u: string)
    ensures u in HandlesIn(ws) <==> exists w :: w in ws && MatchesHandle(w) && w[1..] == u
  {
    if ws != [] {
      var init, last := ws[..|ws| - 1], ws[|ws| - 1];
      assert ws == init + [last];
      HandlesInWitness(init, u);
      assert forall w :: w in ws <==> w in init || w == last;
    }
  }

  /** For words without whitespace, `u` is contributed exactly when `"@" + u`
      is one of the words and `u` is a username. */
  lemma HandlesInMembership(ws: seq<string>, u: string)
    requires forall w :: w in ws ==> NoSpace(w)
    ensures u in HandlesIn(ws) <==> IsUsername(u) && "@" + u in ws
  {
    if u in HandlesIn(ws) {
      HandlesInSound(ws, u);
    }
    if IsUsername(u) && "@" + u in ws {
      HandlesInComplete(ws, u);
    }
  }

  /** A contributed entry is a username written as a word with `@`. */
  lemma HandlesInSound(ws: seq<string>, u: string)
    requires forall w :: w in ws ==> NoSpace(w)
    requires u in HandlesIn(ws)
    ensures IsUsername(u) && "@" + u in ws
  {
    HandlesInWitness(ws, u);
    var w :| w in ws && MatchesHandle(w) && w[1..] == u;
    MatchOnWord(w);
    assert w == [w[0]] + w[1..];
  }

  /** A username written as a word with `@` is contributed. */
  lemma HandlesInComplete(ws: seq<string>, u: string)
    requires IsUsername(u) && "@" + u in ws
    ensures u in HandlesIn(ws)
  {
    var w := "@" + u;
    assert w[1..] == u;
    assert MatchesHandle(w);
    HandlesInWitness(ws, u);
  }

  /** Every contributed username obeys the length and alphabet rule. */
  lemma HandlesInAreUsernames(ws: seq<string>)
    requires forall w :: w in ws ==> NoSpace(w)
    ensures forall u :: u in HandlesIn(ws) ==> IsUsername(u)
  {
    forall u | u in HandlesIn(ws) ensures IsUsername(u) {
      HandlesInMembership(ws, u);
    }
  }

  /** The loop step: one more word adds its body when it matches. */
  lemma HandlesInSnoc(ws: seq<string>, w: string)
    ensures HandlesIn(ws + [w]) == HandlesIn(ws) + (if MatchesHandle(w) then {w[1..]} else {})
  {
    assert (ws + [w])[..|ws|] == ws;
  }

  /** Only which words occur matters: reordering or repeating words does not
      change the result. */
  lemma HandlesInSameWords(a: seq<string>, b: seq<string>)
    requires forall w :: w in a <==> w in b
    ensures HandlesIn(a) == HandlesIn(b)
  {
    forall u ensures u in HandlesIn(a) <==> u in HandlesIn(b) {
      HandlesInWitness(a, u);
      HandlesInWitness(b, u);
    }
  }

  lemma HandlesInAppend(a: seq<string>, b: seq<string>)
    ensures HandlesIn(a + b) == HandlesIn(a) + HandlesIn(b)
  {
    forall u ensures u in HandlesIn(a + b) <==> u in HandlesIn(a) || u in HandlesIn(b) {
      HandlesInWitness(a + b, u);
      HandlesInWitness(a, u);
      HandlesInWitness(b, u);
      assert forall w :: w in a + b <==> w in a || w in b;
    }
  }

  /** A word that is not "@" followed by a username contributes nothing:
      one with no leading "@", a second "@", any character outside
      `[a-zA-Z0-9_]` (trailing punctuation included), or a body shorter than
      5 or longer than 32 characters. */
  lemma NonHandleWordIgnored(before: seq<string>, w: string, after: seq<string>)
    requires NoSpace(w)
    requires !(|w| >= 1 && w[0] == '@' && IsUsername(w[1..]))
    ensures HandlesIn(before + [w] + after) == HandlesIn(before + after)
  {
    MatchOnWord(w);
    HandlesInAppend(before + [w], after);
    HandlesInSnoc(before, w);
    HandlesInAppend(before, after);
  }
}
