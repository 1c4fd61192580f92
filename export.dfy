/**
  The download payload offered for the overlap:
  `"\n".join([f"@{user}" for user in sorted(overlap)])`.
 */
module Export {
  import opened Handles
  import opened Ordering

  /** `"\n".join(lines)` */
  function JoinLines(lines: seq<string>): string
  {
    if lines == [] then ""
    else if |lines| == 1 then lines[0]
    else lines[0] + "\n" + JoinLines(lines[1..])
  }

  /** Index of the first newline of `s`, or `|s|` when there is none. */
  function NewlineIndex(s: string): (k: nat)
    ensures k <= |s|
    ensures forall i :: 0 <= i < k ==> s[i] != '\n'
    ensures k < |s| ==> s[k] == '\n'
  {
    if s == [] || s[0] == '\n' then 0 else 1 + NewlineIndex(s[1..])
  }

  /** `s.split("\n")`: the pieces between newlines, one more than there are
      newlines. */
  function SplitNewlines(s: string): (parts: seq<string>)
    ensures |parts| >= 1
    decreases |s|
  {
    var k := NewlineIndex(s);
    if k == |s| then [s] else [s[..k]] + SplitNewlines(s[k + 1..])
  }

  /** `[f"@{user}" for user in users]` */
  function Prefixed(users: seq<string>): (lines: seq<string>)
    ensures |lines| == |users|
    ensures forall i :: 0 <= i < |users| ==> lines[i] == "@" + users[i]
  {
    if users == [] then [] else ["@" + users[0]] + Prefixed(users[1..])
  }

  /** The text of the "Download overlap als CSV" button. */
  function ExportText(overlap: set<string>): string
  {
    JoinLines(Prefixed(Sorted(overlap)))
  }

  lemma NewlineIndexNone(s: string)
    requires '\n' !in s
    ensures NewlineIndex(s) == |s|
  {
    assert forall i :: 0 <= i < |s| ==> s[i] != '\n';
  }

  lemma NewlineIndexAt(a: string, b: string)
    requires '\n' !in a
    ensures NewlineIndex(a + "\n" + b) == |a|
  {
    var s := a + "\n" + b;
    var k := NewlineIndex(s);
    assert forall i :: 0 <= i < |a| ==> s[i] == a[i] != '\n';
    assert s[|a|] == '\n';
  }

  /** Text without a newline is a single piece. */
  lemma SplitNone(a: string)
    requires '\n' !in a
    ensures SplitNewlines(a) == [a]
  {
    NewlineIndexNone(a);
  }

  /** Splitting `a + "\n" + b` yields `a`, then the pieces of `b`. */
  lemma SplitAt(a: string, b: string)
    requires '\n' !in a
    ensures SplitNewlines(a + "\n" + b) == [a] + SplitNewlines(b)
  {
    var s := a + "\n" + b;
    NewlineIndexAt(a, b);
    assert s[..|a|] == a;
    assert s[|a| + 1..] == b;
  }

  /** Splitting at newlines undoes joining with newlines, as long as no line
      holds a newline itself. */
  lemma {:induction false} JoinSplit(lines: seq<string>)
    requires |lines| >= 1
    requires forall l :: l in lines ==> '\n' !in l
    ensures SplitNewlines(JoinLines(lines)) == lines
    decreases |lines|
  {
    if |lines| == 1 {
      SplitNone(lines[0]);
    } else {
      var rest := lines[1..];
      assert JoinLines(lines) == lines[0] + "\n" + JoinLines(rest);
      SplitAt(lines[0], JoinLines(rest));
      assert forall l :: l in rest ==> l in lines;
      JoinSplit(rest);
      assert lines == [lines[0]] + rest;
    }
  }

  /** The export has exactly one line per overlapping username, in strictly
      increasing order and with no header, each line "@" followed by the
      username. */
  lemma ExportLines(overlap: set<string>)
    requires overlap != {}
    requires forall u :: u in overlap ==> IsUsername(u)
    ensures SplitNewlines(ExportText(overlap)) == Prefixed(Sorted(overlap))
    ensures var lines := SplitNewlines(ExportText(overlap));
            && |lines| == |overlap|
            && (forall i :: 0 <= i < |lines| ==> lines[i] == "@" + Sorted(overlap)[i])
            && (forall u :: u in overlap <==> "@" + u in lines)
  {
    var users := Sorted(overlap);
    var lines := Prefixed(users);
    NoNewlineInLines(users);
    JoinSplit(lines);
    PrefixedMembership(users);
  }

  lemma NoNewlineInLines(users: seq<string>)
    requires forall u :: u in users ==> IsUsername(u)
    ensures forall l :: l in Prefixed(users) ==> '\n' !in l
  {
    var lines := Prefixed(users);
    forall l | l in lines ensures '\n' !in l {
      var i :| 0 <= i < |lines| && lines[i] == l;
      UsernameShape(users[i]);
      assert l == "@" + users[i];
    }
  }

  /** `"@" + u` is a line exactly when `u` is listed. */
  lemma PrefixedMembership(users: seq<string>)
    ensures forall u :: u in users <==> "@" + u in Prefixed(users)
  {
    var lines := Prefixed(users);
    forall u ensures u in users <==> "@" + u in lines {
      if u in users {
        var i :| 0 <= i < |users| && users[i] == u;
        assert lines[i] == "@" + u;
      }
      if "@" + u in lines {
        var i :| 0 <= i < |lines| && lines[i] == "@" + u;
        assert ("@" + u)[1..] == u && ("@" + users[i])[1..] == users[i];
      }
    }
  }

  /** The export never ends in a newline. */
  lemma ExportNoTrailingNewline(overlap: set<string>)
    requires overlap != {}
    requires forall u :: u in overlap ==> IsUsername(u)
    ensures var text := ExportText(overlap); text != [] && text[|text| - 1] != '\n'
  {
    var lines := Prefixed(Sorted(overlap));
    LastLine(lines);
    var last := Sorted(overlap)[|lines| - 1];
    UsernameShape(last);
    assert last[|last| - 1] in last;
  }

  /** A join of at least one line ends with its last line. */
  lemma {:induction false} LastLine(lines: seq<string>)
    requires lines != []
    ensures var text := JoinLines(lines);
            var last := lines[|lines| - 1];
            |text| >= |last| && text[|text| - |last|..] == last
    decreases |lines|
  {
    if |lines| > 1 {
      LastLine(lines[1..]);
    }
  }
}
