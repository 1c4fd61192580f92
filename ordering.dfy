/**
  `sorted()` on a set of `str`: Python orders strings code point by code
  point, a proper prefix before its extensions.
 */
module Ordering {

  /** Python's `a <= b` on `str`. */
  predicate Below(a: string, b: string)
  {
    a == [] || (b != [] && (a[0] < b[0] || (a[0] == b[0] && Below(a[1..], b[1..]))))
  }

  /** Python's `a < b` on `str`. */
  predicate Precedes(a: string, b: string)
  {
    Below(a, b) && a != b
  }

  lemma {:induction false} BelowReflexive(a: string)
    ensures Below(a, a)
  {
    if a != [] {
      BelowReflexive(a[1..]);
    }
  }

  lemma {:induction false} BelowAntisymmetric(a: string, b: string)
    requires Below(a, b) && Below(b, a)
    ensures a == b
  {
    if a != [] && b != [] {
      BelowAntisymmetric(a[1..], b[1..]);
      assert a == [a[0]] + a[1..] && b == [b[0]] + b[1..];
    }
  }

  lemma {:induction false} BelowTransitive(a: string, b: string, c: string)
    requires Below(a, b) && Below(b, c)
    ensures Below(a, c)
  {
    if a != [] && b != [] && c != [] && a[0] == b[0] == c[0] {
      BelowTransitive(a[1..], b[1..], c[1..]);
    }
  }

  lemma {:induction false} BelowTotal(a: string, b: string)
    ensures Below(a, b) || Below(b, a)
  {
    if a != [] && b != [] && a[0] == b[0] {
      BelowTotal(a[1..], b[1..]);
    }
  }

  lemma AntisymmetricAll()
    ensures forall a, b :: Below(a, b) && Below(b, a) ==> a == b
  {
    forall a, b | Below(a, b) && Below(b, a) ensures a == b {
      BelowAntisymmetric(a, b);
    }
  }

  /** `m` is an element of `s` and `<=` every element of `s`. */
  predicate IsLeastOf(m: string, s: set<string>)
  {
    m in s && forall x :: x in s ==> Below(m, x)
  }

  /** Every non-empty finite set of strings has a least element. */
  lemma LeastExists(s: set<string>)
    requires s != {}
    ensures exists m :: IsLeastOf(m, s)
    decreases |s|
  {
    var y :| y in s;
    BelowReflexive(y);
    if s == {y} {
      assert IsLeastOf(y, s);
    } else {
      var rest := s - {y};
      LeastExists(rest);
      var m :| IsLeastOf(m, rest);
      BelowTotal(m, y);
      if Below(m, y) {
        assert IsLeastOf(m, s);
      } else {
        forall x | x in s ensures Below(y, x) {
          if x != y {
            BelowTransitive(y, m, x);
          }
        }
        assert IsLeastOf(y, s);
      }
    }
  }

  /** The least element of a non-empty set (there is exactly one). */
  function Least(s: set<string>): (m: string)
    requires s != {}
    ensures m in s && forall x :: x in s ==> Below(m, x)
  {
    LeastExists(s);
    AntisymmetricAll();
    var m :| IsLeastOf(m, s);
    m
  }

  predicate StrictlyIncreasing(r: seq<string>)
  {
    forall i, j :: 0 <= i < j < |r| ==> Precedes(r[i], r[j])
  }

  /** `sorted(s)`: the elements of `s`, each once, in strictly increasing
      order. */
  function Sorted(s: set<string>): (r: seq<string>)
    ensures |r| == |s|
    ensures forall x :: x in r <==> x in s
    ensures StrictlyIncreasing(r)
    decreases s
  {
    if s == {} then []
    else
      var m := Least(s);
      [m] + Sorted(s - {m})
  }

  /** `Sorted(s)` is the only strictly increasing sequence that lists the
      elements of `s`. */
  lemma {:induction false} SortedUnique(s: set<string>, r: seq<string>)
    requires StrictlyIncreasing(r)
    requires forall x :: x in r <==> x in s
    ensures r == Sorted(s)
    decreases |r|
  {
    if r == [] {
      assert s == {};
    } else {
      HeadIsLeast(s, r);
      TailLists(s, r);
      SortedUnique(s - {r[0]}, r[1..]);
      SortedFirst(s);
      assert r == [r[0]] + r[1..];
    }
  }

  /** `Sorted(s)` starts with the least element, followed by the sorted rest. */
  lemma SortedFirst(s: set<string>)
    requires s != {}
    ensures Sorted(s) == [Least(s)] + Sorted(s - {Least(s)})
  {
  }

  /** The first element of a strictly increasing listing is the least. */
  lemma HeadIsLeast(s: set<string>, r: seq<string>)
    requires StrictlyIncreasing(r) && r != []
    requires forall x :: x in r <==> x in s
    ensures s != {} && r[0] == Least(s)
  {
    assert r[0] in s;
    var m := Least(s);
    var k :| 0 <= k < |r| && r[k] == m;
    if k > 0 {
      assert Precedes(r[0], r[k]);
    } else {
      BelowReflexive(m);
    }
    BelowAntisymmetric(m, r[0]);
  }

  /** What follows the first element lists the rest of the set, still in
      strictly increasing order. */
  lemma TailLists(s: set<string>, r: seq<string>)
    requires StrictlyIncreasing(r) && r != []
    requires forall x :: x in r <==> x in s
    ensures StrictlyIncreasing(r[1..])
    ensures forall x :: x in r[1..] <==> x in s - {r[0]}
  {
    var rest := r[1..];
    forall x ensures x in rest <==> x in s - {r[0]} {
      if x in rest {
        var k :| 0 <= k < |rest| && rest[k] == x;
        assert Precedes(r[0], r[k + 1]);
      }
      if x in s - {r[0]} {
        assert x in r;
        var k :| 0 <= k < |r| && r[k] == x;
        assert k != 0;
        assert x == rest[k - 1];
      }
    }
    forall i, j | 0 <= i < j < |rest| ensures Precedes(rest[i], rest[j]) {
      assert rest[i] == r[i + 1] && rest[j] == r[j + 1];
    }
  }
}
