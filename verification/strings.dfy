/** String helpers shared by the sanitiser, the signer and the URL rewriter:
    Python's `strip(chars)` and `sep.join(parts)`. */
module Strings {

  /** How many leading characters of `s` belong to `cs`: what `s.lstrip(cs)`
      drops. */
  function LeadIn(s: string, cs: set<char>): (n: nat)
    ensures n <= |s|
    ensures forall k :: 0 <= k < n ==> s[k] in cs
    ensures n < |s| ==> s[n] !in cs
  {
    if |s| > 0 && s[0] in cs then 1 + LeadIn(s[1..], cs) else 0
  }

  /** How many trailing characters of `s` belong to `cs`: what `s.rstrip(cs)`
      drops. */
  function TrailIn(s: string, cs: set<char>): (n: nat)
    ensures n <= |s|
    ensures forall k :: |s| - n <= k < |s| ==> s[k] in cs
    ensures n < |s| ==> s[|s| - n - 1] !in cs
  {
    if |s| > 0 && s[|s| - 1] in cs then 1 + TrailIn(s[..|s| - 1], cs) else 0
  }

  /** Python's `s.strip(cs)`: the infix of `s` left after removing every
      leading and then every trailing character of `cs`. */
  function Strip(s: string, cs: set<char>): (r: string)
    ensures var i := LeadIn(s, cs);
      && i + |r| <= |s|
      && r == s[i..i + |r|]
      && (forall k :: 0 <= k < i ==> s[k] in cs)
      && (forall k :: i + |r| <= k < |s| ==> s[k] in cs)
    ensures r == [] || (r[0] !in cs && r[|r| - 1] !in cs)
    ensures (s == [] || (s[0] !in cs && s[|s| - 1] !in cs)) ==> r == s
  {
    StripMargins(s, cs);
    StripEdges(s, cs);
    StripKeepsClean(s, cs);
    s[LeadIn(s, cs)..StripEnd(s, cs)]
  }

  /** Where the infix kept by `Strip` ends. */
  function StripEnd(s: string, cs: set<char>): (j: nat)
    ensures LeadIn(s, cs) <= j <= |s|
  {
    var i := LeadIn(s, cs);
    |s| - TrailIn(s[i..], cs)
  }

  lemma StripMargins(s: string, cs: set<char>)
    ensures forall k :: StripEnd(s, cs) <= k < |s| ==> s[k] in cs
  {
    var i := LeadIn(s, cs);
    var rest := s[i..];
    forall k | StripEnd(s, cs) <= k < |s| ensures s[k] in cs {
      assert s[k] == rest[k - i];
    }
  }

  lemma StripEdges(s: string, cs: set<char>)
    ensures LeadIn(s, cs) < StripEnd(s, cs) ==> s[LeadIn(s, cs)] !in cs && s[StripEnd(s, cs) - 1] !in cs
  {
    var i := LeadIn(s, cs);
    var rest := s[i..];
    if i < StripEnd(s, cs) {
      assert s[StripEnd(s, cs) - 1] == rest[|rest| - TrailIn(rest, cs) - 1];
    }
  }

  lemma StripKeepsClean(s: string, cs: set<char>)
    ensures (s == [] || (s[0] !in cs && s[|s| - 1] !in cs)) ==>
      LeadIn(s, cs) == 0 && StripEnd(s, cs) == |s|
  {
    assert s[0..] == s;
  }

  /** `Strip` is determined by its result: a text framed by characters of
      the set, whose own two ends are outside it, is what strip returns. */
  lemma StripFramed(s: string, p: string, x: string, q: string, cs: set<char>)
    requires s == p + x + q
    requires forall k :: 0 <= k < |p| ==> p[k] in cs
    requires forall k :: 0 <= k < |q| ==> q[k] in cs
    requires |x| > 0 && x[0] !in cs && x[|x| - 1] !in cs
    ensures Strip(s, cs) == x
  {
    var i := LeadIn(s, cs);
    var r := Strip(s, cs);
    assert s[|p|] == x[0];
    assert forall k :: 0 <= k < |p| ==> s[k] == p[k];
    assert i == |p|;
    var e := i + |r|;
    assert s[|p| + |x| - 1] == x[|x| - 1];
    assert forall k :: 0 <= k < |q| ==> s[|p| + |x| + k] == q[k];
    assert e == |p| + |x|;
    assert r == s[|p|..|p| + |x|] == x;
  }

  /** The text is the stripped text framed by what strip removed. */
  lemma StripSplit(s: string, cs: set<char>) returns (p: string, q: string)
    ensures s == p + Strip(s, cs) + q
    ensures forall k :: 0 <= k < |p| ==> p[k] in cs
    ensures forall k :: 0 <= k < |q| ==> q[k] in cs
  {
    p, q := Frame(s, Strip(s, cs), LeadIn(s, cs), cs);
  }

  /** An infix whose two margins lie in the set splits the text in three. */
  lemma Frame(s: string, r: string, i: nat, cs: set<char>) returns (p: string, q: string)
    requires i + |r| <= |s| && r == s[i..i + |r|]
    requires forall k :: 0 <= k < i ==> s[k] in cs
    requires forall k :: i + |r| <= k < |s| ==> s[k] in cs
    ensures s == p + r + q
    ensures forall k :: 0 <= k < |p| ==> p[k] in cs
    ensures forall k :: 0 <= k < |q| ==> q[k] in cs
  {
    var j := i + |r|;
    p, q := s[..i], s[j..];
    assert s == s[..i] + s[i..j] + s[j..];
    assert forall k :: 0 <= k < |q| ==> q[k] == s[j + k];
  }

  /** A text made only of characters of the set strips to nothing. */
  lemma StripAllIn(s: string, cs: set<char>)
    requires forall k :: 0 <= k < |s| ==> s[k] in cs
    ensures Strip(s, cs) == []
  {
  }

  /** Conversely, a text that strips to nothing is made only of characters
      of the set. */
  lemma StripEmptyAllIn(s: string, cs: set<char>)
    requires Strip(s, cs) == []
    ensures forall k :: 0 <= k < |s| ==> s[k] in cs
  {
  }

  /** A leading character of the set makes no difference to the stripped
      text. */
  lemma StripDropsHead(c: char, y: string, cs: set<char>)
    requires c in cs
    ensures Strip([c] + y, cs) == Strip(y, cs)
  {
    var s := [c] + y;
    assert s[1..] == y;
    var i := LeadIn(y, cs);
    assert LeadIn(s, cs) == 1 + i;
    assert s[1 + i..] == y[i..];
    assert StripEnd(s, cs) == 1 + StripEnd(y, cs);
    assert s[1 + i..1 + StripEnd(y, cs)] == y[i..StripEnd(y, cs)];
  }

  /** A text with clean ends followed only by characters of the set strips
      to that text. */
  lemma StripTrailing(w: string, q: string, cs: set<char>)
    requires |w| > 0 && w[0] !in cs && w[|w| - 1] !in cs
    requires forall k :: 0 <= k < |q| ==> q[k] in cs
    ensures Strip(w + q, cs) == w
  {
    assert w + q == [] + w + q;
    StripFramed(w + q, [], w, q, cs);
  }

  /** A leading character outside the set, followed by a text that does not
      start with one of the set, stays at the head of the stripped text. */
  lemma StripKeepsHead(c: char, y: string, cs: set<char>)
    requires c !in cs && (y == [] || y[0] !in cs)
    ensures Strip([c] + y, cs) == [c] + Strip(y, cs)
  {
    var r := Strip(y, cs);
    if r == [] {
      StripEmptyAllIn(y, cs);
      assert y == [];
      assert [c] + y == [c];
    } else {
      assert LeadIn(y, cs) == 0;
      var q := y[|r|..];
      assert y == r + q;
      assert forall k :: 0 <= k < |q| ==> q[k] == y[|r| + k];
      assert [c] + y == ([c] + r) + q;
      StripTrailing([c] + r, q, cs);
    }
  }

  /** A character outside the set in front of one character of the set, a
      text with clean ends and then only characters of the set strips to
      the first three. */
  lemma StripWordThenRest(c: char, sep: char, r: string, q: string, cs: set<char>)
    requires c !in cs && sep in cs
    requires |r| > 0 && r[0] !in cs && r[|r| - 1] !in cs
    requires forall k :: 0 <= k < |q| ==> q[k] in cs
    ensures Strip([c] + ([sep] + r + q), cs) == [c] + [sep] + r
  {
    assert [c] + ([sep] + r + q) == ([c] + [sep] + r) + q;
    StripTrailing([c] + [sep] + r, q, cs);
  }

  /** Python's `sep.join(parts)`. */
  function Join(parts: seq<string>, sep: string): string
  {
    if |parts| == 0 then ""
    else if |parts| == 1 then parts[0]
    else parts[0] + sep + Join(parts[1..], sep)
  }

  /** The joined text starts with the first part. */
  lemma JoinStartsWithFirst(parts: seq<string>, sep: string)
    ensures |parts| > 0 ==> |Join(parts, sep)| >= |parts[0]|
  {
  }

  /** A part put in front of a non-empty list is followed by the separator. */
  lemma JoinCons(first: string, parts: seq<string>, sep: string)
    requires |parts| > 0
    ensures Join([first] + parts, sep) == first + sep + Join(parts, sep)
  {
    assert ([first] + parts)[1..] == parts;
  }

  /** Prepending a character to the first part prepends it to the joined text. */
  lemma {:induction false} JoinPrependToFirst(c: char, parts: seq<string>, sep: string)
    requires |parts| >= 1
    ensures Join([[c] + parts[0]] + parts[1..], sep) == [c] + Join(parts, sep)
  {
    var p := [[c] + parts[0]] + parts[1..];
    assert p[1..] == parts[1..];
    if |parts| > 1 {
      assert Join(p, sep) == ([c] + parts[0]) + sep + Join(parts[1..], sep);
    }
  }

  /** Joining two lists that differ in exactly one part gives two different
      texts, whatever the separator. */
  lemma {:induction false} JoinDiffersAtOnePart(p1: seq<string>, p2: seq<string>, sep: string, i: nat)
    requires |p1| == |p2| && i < |p1|
    requires p1[i] != p2[i]
    requires forall j :: 0 <= j < |p1| && j != i ==> p1[j] == p2[j]
    ensures Join(p1, sep) != Join(p2, sep)
  {
    if |p1| == 1 {
    } else if i == 0 {
      assert p1[1..] == p2[1..];
      var t := sep + Join(p1[1..], sep);
      assert Join(p1, sep) == p1[0] + t && Join(p2, sep) == p2[0] + t;
      SuffixCancels(p1[0], p2[0], t);
    } else {
      JoinDiffersAtOnePart(p1[1..], p2[1..], sep, i - 1);
      var a := p1[0] + sep;
      assert Join(p1, sep) == a + Join(p1[1..], sep) && Join(p2, sep) == a + Join(p2[1..], sep);
      PrefixCancels(a, Join(p1[1..], sep), Join(p2[1..], sep));
    }
  }

  lemma PrefixCancels(a: string, x: string, y: string)
    requires x != y
    ensures a + x != a + y
  {
    assert (a + x)[|a|..] == x && (a + y)[|a|..] == y;
  }

  lemma SuffixCancels(x: string, y: string, t: string)
    requires x != y
    ensures x + t != y + t
  {
    if |x| == |y| {
      assert (x + t)[..|x|] == x && (y + t)[..|y|] == y;
    }
  }
}
