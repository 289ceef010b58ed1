/** Python's ordering of `str` values (lexicographic by code point, a proper
    prefix first) and `sorted` over the distinct keys of a dict. */
module Ordering {

  /** Python's `a < b` on strings. */
  predicate Lt(a: string, b: string)
  {
    if |a| == 0 then |b| > 0
    else if |b| == 0 then false
    else if a[0] != b[0] then a[0] < b[0]
    else Lt(a[1..], b[1..])
  }

  lemma {:induction false} LtIrreflexive(a: string)
    ensures !Lt(a, a)
  {
    if |a| > 0 {
      LtIrreflexive(a[1..]);
    }
  }

  lemma {:induction false} LtTransitive(a: string, b: string, c: string)
    requires Lt(a, b) && Lt(b, c)
    ensures Lt(a, c)
  {
    if |a| > 0 && a[0] == b[0] && b[0] == c[0] {
      LtTransitive(a[1..], b[1..], c[1..]);
    }
  }

  /** Any two different strings are ordered one way or the other. */
  lemma {:induction false} LtTotal(a: string, b: string)
    requires a != b
    ensures Lt(a, b) || Lt(b, a)
  {
    if |a| > 0 && |b| > 0 && a[0] == b[0] {
      assert a == [a[0]] + a[1..] && b == [b[0]] + b[1..];
      LtTotal(a[1..], b[1..]);
    }
  }

  lemma LtAsymmetric(a: string, b: string)
    requires Lt(a, b)
    ensures !Lt(b, a)
  {
    if Lt(b, a) {
      LtTransitive(a, b, a);
      LtIrreflexive(a);
    }
  }

  predicate Distinct(s: seq<string>)
  {
    forall i, j :: 0 <= i < j < |s| ==> s[i] != s[j]
  }

  predicate StrictlySorted(s: seq<string>)
  {
    forall i, j :: 0 <= i < j < |s| ==> Lt(s[i], s[j])
  }

  lemma StrictlySortedIsDistinct(s: seq<string>)
    requires StrictlySorted(s)
    ensures Distinct(s)
  {
    forall i, j | 0 <= i < j < |s| ensures s[i] != s[j] {
      LtIrreflexive(s[i]);
    }
  }

  /** Inserts `x` into a strictly ascending sequence that lacks it. */
  function Insert(x: string, s: seq<string>): (r: seq<string>)
    requires StrictlySorted(s) && x !in s
    ensures StrictlySorted(r)
    ensures |r| == |s| + 1
    ensures forall y :: y in r <==> y == x || y in s
  {
    if |s| == 0 then [x]
    else if Lt(x, s[0]) then
      assert forall j | 0 <= j < |s| :: Lt(x, s[j]) by {
        forall j | 0 < j < |s| ensures Lt(x, s[j]) {
          LtTransitive(x, s[0], s[j]);
        }
      }
      [x] + s
    else
      LtTotal(x, s[0]);
      var t := Insert(x, s[1..]);
      assert forall y | y in t :: Lt(s[0], y) by {
        forall y | y in t ensures Lt(s[0], y) {
          if y != x {
            var j :| 1 <= j < |s| && s[j] == y;
          }
        }
      }
      [s[0]] + t
  }

  /** Python's `sorted(keys)` for the distinct keys of a dict. */
  function Sort(s: seq<string>): (r: seq<string>)
    requires Distinct(s)
    ensures StrictlySorted(r)
    ensures |r| == |s|
    ensures forall y :: y in r <==> y in s
  {
    if |s| == 0 then []
    else
      var init := s[..|s| - 1];
      assert s[|s| - 1] !in init;
      Insert(s[|s| - 1], Sort(init))
  }

  /** A finite set of strings has exactly one strictly ascending enumeration. */
  lemma {:induction false} SortedUnique(a: seq<string>, b: seq<string>)
    requires StrictlySorted(a) && StrictlySorted(b)
    requires forall y :: y in a <==> y in b
    ensures a == b
  {
    assert |a| == 0 <==> |b| == 0 by {
      if |a| > 0 { assert a[0] in b; }
      if |b| > 0 { assert b[0] in a; }
    }
    if |a| > 0 {
      assert a[0] == b[0] by {
        if a[0] != b[0] {
          assert b[0] in a;
          assert a[0] in b;
          var i :| 0 <= i < |a| && a[i] == b[0];
          var j :| 0 <= j < |b| && b[j] == a[0];
          assert Lt(a[0], b[0]) && Lt(b[0], a[0]);
          LtAsymmetric(a[0], b[0]);
          assert false;
        }
      }
      forall y ensures y in a[1..] <==> y in b[1..] {
        if y in a[1..] {
          var i :| 1 <= i < |a| && a[i] == y;
          assert Lt(a[0], y);
          LtIrreflexive(y);
          assert y in b;
        }
        if y in b[1..] {
          var j :| 1 <= j < |b| && b[j] == y;
          assert Lt(b[0], y);
          LtIrreflexive(y);
          assert y in a;
        }
      }
      SortedUnique(a[1..], b[1..]);
      assert a == [a[0]] + a[1..] && b == [b[0]] + b[1..];
    }
  }
}
