/** The delivery-URL rewrite `cld_transform_url` (image_resize.py), built on
    Python's `str.replace`, `str.split` and `str.count` for a non-empty
    pattern: occurrences are found scanning left to right, do not overlap,
    and replaced text is never scanned again. */
module UrlTransform {
  import opened Strings

  /** The path segment after which the transformation is inserted. */
  const Marker: string := "/upload/"

  predicate StartsWith(s: string, pat: string)
  {
    |pat| <= |s| && s[..|pat|] == pat
  }

  predicate OccursAt(s: string, pat: string, i: int)
  {
    0 <= i && i + |pat| <= |s| && s[i..i + |pat|] == pat
  }

  /** Python's `pat in s`. */
  predicate Contains(s: string, pat: string)
  {
    exists i | 0 <= i <= |s| - |pat| :: OccursAt(s, pat, i)
  }

  /** Python's `s.count(pat)`. */
  function Count(s: string, pat: string): nat
    requires |pat| > 0
  {
    if |s| < |pat| then 0
    else if StartsWith(s, pat) then 1 + Count(s[|pat|..], pat)
    else Count(s[1..], pat)
  }

  /** Python's `s.replace(pat, rep)`. */
  function Replace(s: string, pat: string, rep: string): (r: string)
    requires |pat| > 0
    ensures |r| == |s| + Count(s, pat) * (|rep| - |pat|)
  {
    if |s| < |pat| then s
    else if StartsWith(s, pat) then
      var rest := Replace(s[|pat|..], pat, rep);
      MulSucc(Count(s[|pat|..], pat), |rep| - |pat|);
      rep + rest
    else [s[0]] + Replace(s[1..], pat, rep)
  }

  lemma MulSucc(c: int, d: int)
    ensures (1 + c) * d == d + c * d
  {
  }

  lemma PositiveProduct(a: int, b: int)
    requires a > 0 && b > 0
    ensures a * b > 0
  {
  }

  /** Python's `s.split(pat)`: the texts between consecutive occurrences. */
  function Split(s: string, pat: string): (parts: seq<string>)
    requires |pat| > 0
    ensures |parts| == Count(s, pat) + 1
    ensures StartsWith(s, parts[0])
  {
    if |s| < |pat| then [s]
    else if StartsWith(s, pat) then [""] + Split(s[|pat|..], pat)
    else
      var rest := Split(s[1..], pat);
      assert StartsWith(s, [s[0]] + rest[0]) by {
        assert s == [s[0]] + s[1..];
      }
      [[s[0]] + rest[0]] + rest[1..]
  }

  /** Splitting at the pattern and joining with it gives the text back. */
  lemma {:induction false} SplitJoinRoundTrip(s: string, pat: string)
    requires |pat| > 0
    ensures Join(Split(s, pat), pat) == s
  {
    if |s| < |pat| {
    } else if StartsWith(s, pat) {
      var tail := s[|pat|..];
      var rest := Split(tail, pat);
      SplitJoinRoundTrip(tail, pat);
      var parts := [""] + rest;
      assert parts[1..] == rest;
      assert Join(parts, pat) == "" + pat + Join(rest, pat);
      assert s == s[..|pat|] + tail;
    } else {
      var rest := Split(s[1..], pat);
      SplitJoinRoundTrip(s[1..], pat);
      JoinPrependToFirst(s[0], rest, pat);
      assert s == [s[0]] + s[1..];
    }
  }

  /** Replacing is splitting at the pattern and joining with the
      replacement: the replacement is put in verbatim and never rescanned. */
  lemma {:induction false} ReplaceIsJoinOfSplit(s: string, pat: string, rep: string)
    requires |pat| > 0
    ensures Replace(s, pat, rep) == Join(Split(s, pat), rep)
  {
    if |s| < |pat| {
    } else if StartsWith(s, pat) {
      var rest := Split(s[|pat|..], pat);
      ReplaceIsJoinOfSplit(s[|pat|..], pat, rep);
      assert ([""] + rest)[1..] == rest;
    } else {
      var rest := Split(s[1..], pat);
      ReplaceIsJoinOfSplit(s[1..], pat, rep);
      JoinPrependToFirst(s[0], rest, rep);
    }
  }

  /** No piece of the split contains the pattern: every occurrence was cut. */
  lemma {:induction false} SplitPartsFree(s: string, pat: string)
    requires |pat| > 0
    ensures forall k :: 0 <= k < |Split(s, pat)| ==> !Contains(Split(s, pat)[k], pat)
  {
    var parts := Split(s, pat);
    if |s| < |pat| {
      assert !Contains(s, pat) by {
        forall i ensures !OccursAt(s, pat, i) { }
      }
    } else if StartsWith(s, pat) {
      SplitPartsFree(s[|pat|..], pat);
      assert !Contains("", pat) by {
        forall i ensures !OccursAt("", pat, i) { }
      }
      assert parts[1..] == Split(s[|pat|..], pat);
    } else {
      var rest := Split(s[1..], pat);
      SplitPartsFree(s[1..], pat);
      var first := [s[0]] + rest[0];
      assert !Contains(first, pat) by {
        forall i ensures !OccursAt(first, pat, i) {
          if 0 < i {
            OccursShift(first, pat, i);
          }
        }
      }
      assert parts[1..] == rest[1..];
    }
  }

  /** An occurrence past the first character is an occurrence in the tail. */
  lemma OccursShift(s: string, pat: string, i: int)
    requires 0 < i && |s| > 0
    ensures OccursAt(s, pat, i) <==> OccursAt(s[1..], pat, i - 1)
  {
    if i + |pat| <= |s| {
      assert s[i..i + |pat|] == s[1..][i - 1..i - 1 + |pat|];
    }
  }

  /** `s.count(pat) == 0` exactly when `pat not in s`. */
  lemma {:induction false} CountZeroIffAbsent(s: string, pat: string)
    requires |pat| > 0
    ensures Count(s, pat) == 0 <==> !Contains(s, pat)
  {
    if |s| < |pat| {
      assert !Contains(s, pat) by {
        forall i ensures !OccursAt(s, pat, i) { }
      }
    } else if StartsWith(s, pat) {
      assert OccursAt(s, pat, 0);
    } else {
      CountZeroIffAbsent(s[1..], pat);
      if Contains(s, pat) {
        var i :| 0 <= i <= |s| - |pat| && OccursAt(s, pat, i);
        OccursShift(s, pat, i);
      }
      if Contains(s[1..], pat) {
        var i :| 0 <= i <= |s[1..]| - |pat| && OccursAt(s[1..], pat, i);
        OccursShift(s, pat, i + 1);
      }
    }
  }

  /** A leftmost occurrence past the first character is the leftmost
      occurrence of the tail, one position earlier. */
  lemma FirstOccurrenceShift(s: string, pat: string, i: nat)
    requires |pat| > 0 && 0 < i && OccursAt(s, pat, i)
    requires forall j :: 0 <= j < i ==> !OccursAt(s, pat, j)
    ensures |s| >= |pat| && !StartsWith(s, pat)
    ensures OccursAt(s[1..], pat, i - 1)
    ensures forall j :: 0 <= j < i - 1 ==> !OccursAt(s[1..], pat, j)
  {
    assert !OccursAt(s, pat, 0);
    OccursShift(s, pat, i);
    forall j | 0 <= j < i - 1 ensures !OccursAt(s[1..], pat, j) {
      OccursShift(s, pat, j + 1);
    }
  }

  /** Split cuts at the leftmost occurrence and carries on after it. */
  lemma {:induction false} SplitAtFirst(s: string, pat: string, i: nat)
    requires |pat| > 0 && OccursAt(s, pat, i)
    requires forall j :: 0 <= j < i ==> !OccursAt(s, pat, j)
    ensures Split(s, pat) == [s[..i]] + Split(s[i + |pat|..], pat)
  {
    if i == 0 {
      assert StartsWith(s, pat);
    } else {
      FirstOccurrenceShift(s, pat, i);
      SplitAtFirst(s[1..], pat, i - 1);
      SplitPastStart(s, pat, i);
    }
  }

  /** The step of `SplitAtFirst` for an occurrence past the first
      character. */
  lemma SplitPastStart(s: string, pat: string, i: nat)
    requires |pat| > 0 && 0 < i && i + |pat| <= |s| && !StartsWith(s, pat)
    requires Split(s[1..], pat) == [s[1..][..i - 1]] + Split(s[1..][i - 1 + |pat|..], pat)
    ensures Split(s, pat) == [s[..i]] + Split(s[i + |pat|..], pat)
  {
    var tail := s[1..];
    var rest := Split(tail, pat);
    var after := Split(s[i + |pat|..], pat);
    assert rest[0] == s[1..i] && rest[1..] == after by {
      assert tail[..i - 1] == s[1..i];
      assert tail[i - 1 + |pat|..] == s[i + |pat|..];
    }
    SplitStep(s, pat);
    assert [s[0]] + s[1..i] == s[..i];
  }

  /** Split when the text does not start with the pattern: the first
      character joins the first part of the tail. */
  lemma SplitStep(s: string, pat: string)
    requires |pat| > 0 && |s| >= |pat| && !StartsWith(s, pat)
    ensures Split(s, pat) == [[s[0]] + Split(s[1..], pat)[0]] + Split(s[1..], pat)[1..]
  {
  }

  /** Without an occurrence, split gives the text as its only part. */
  lemma SplitAbsent(s: string, pat: string)
    requires |pat| > 0 && !Contains(s, pat)
    ensures Split(s, pat) == [s]
  {
    CountZeroIffAbsent(s, pat);
    SplitJoinRoundTrip(s, pat);
  }

  /** Replace rewrites the leftmost occurrence and carries on after it, so
      of two overlapping occurrences only the first is replaced. */
  lemma ReplaceAtFirst(s: string, pat: string, rep: string, i: nat)
    requires |pat| > 0 && OccursAt(s, pat, i)
    requires forall j :: 0 <= j < i ==> !OccursAt(s, pat, j)
    ensures Replace(s, pat, rep) == s[..i] + rep + Replace(s[i + |pat|..], pat, rep)
  {
    var after := s[i + |pat|..];
    SplitAtFirst(s, pat, i);
    ReplaceIsJoinOfSplit(s, pat, rep);
    ReplaceIsJoinOfSplit(after, pat, rep);
    JoinCons(s[..i], Split(after, pat), rep);
  }

  /** Without an occurrence, replace changes nothing. */
  lemma ReplaceAbsent(s: string, pat: string, rep: string)
    requires |pat| > 0 && !Contains(s, pat)
    ensures Replace(s, pat, rep) == s
  {
    SplitAbsent(s, pat);
    ReplaceIsJoinOfSplit(s, pat, rep);
  }

  /** `cld_transform_url(url, t)`: `/upload/` becomes `/upload/<t>/`. With
      `k` occurrences of the marker the URL grows by `k * (|t| + 1)`; it is
      unchanged exactly when the marker is absent; the pieces between
      markers are kept verbatim and `/upload/<t>/` stands where each marker
      stood. */
  function TransformUrl(url: string, t: string): (r: string)
    ensures |r| == |url| + Count(url, Marker) * (|t| + 1)
    ensures r == url <==> !Contains(url, Marker)
    ensures r == Join(Split(url, Marker), Marker + t + "/")
  {
    var rep := Marker + t + "/";
    var k := Count(url, Marker);
    assert |rep| - |Marker| == |t| + 1;
    CountZeroIffAbsent(url, Marker);
    assert k > 0 ==> k * (|t| + 1) > 0 by {
      if k > 0 {
        PositiveProduct(k, |t| + 1);
      }
    }
    ReplaceIsJoinOfSplit(url, Marker, rep);
    Replace(url, Marker, rep)
  }

  /** The rewrite works left to right: the leftmost marker becomes
      `/upload/<t>/` and the rest of the URL after that marker is rewritten
      on its own. */
  lemma TransformUrlLeftToRight(url: string, t: string, i: nat)
    requires OccursAt(url, Marker, i)
    requires forall j :: 0 <= j < i ==> !OccursAt(url, Marker, j)
    ensures TransformUrl(url, t) == url[..i] + Marker + t + "/" + TransformUrl(url[i + |Marker|..], t)
  {
    var rep := Marker + t + "/";
    var rest := url[i + |Marker|..];
    ReplaceAtFirst(url, Marker, rep, i);
    assert TransformUrl(url, t) == url[..i] + rep + Replace(rest, Marker, rep);
    assert TransformUrl(rest, t) == Replace(rest, Marker, rep);
  }

  /** Of two overlapping markers only the first is rewritten. */
  lemma OverlapExample()
    ensures TransformUrl("/upload/upload/", "t") == "/upload/t/upload/"
  {
    var s := "/upload/upload/";
    assert OccursAt(s, Marker, 0);
    ReplaceAtFirst(s, Marker, Marker + "t" + "/", 0);
    assert s[|Marker|..] == "upload/";
    assert Replace("upload/", Marker, Marker + "t" + "/") == "upload/";
  }

  /** A delivery URL gets the transformation inserted once, even when the
      transformation text itself contains `/upload/`. */
  lemma NoRescanExample()
    ensures TransformUrl("/upload/", "/upload/") == "/upload//upload//"
  {
    assert StartsWith("/upload/", Marker);
    assert "/upload/"[|Marker|..] == "";
  }
}
