/** The public_id sanitiser `to_public_id` (image_resize.py): decompose,
    strip accents, turn every run of non-word characters into `_`, collapse
    repeated `_` and trim `_` from both ends. */
module Sanitize {
  import opened Wrappers
  import opened Strings

  /** The two Unicode tables the sanitiser consults beyond ASCII: the NFKD
      decomposition of non-ASCII text, and which non-ASCII characters
      Python's `\w` accepts. */
  datatype UnicodeData = UnicodeData(decompose: string -> string, isWordBeyondAscii: char -> bool)

  predicate IsAscii(s: string)
  {
    forall i :: 0 <= i < |s| ==> s[i] <= '\U{7F}'
  }

  /** `unicodedata.normalize("NFKD", s)`; ASCII text is already in NFKD. */
  function Nfkd(u: UnicodeData, s: string): string
  {
    if IsAscii(s) then s else u.decompose(s)
  }

  /** The block U+0300..U+036F removed as "accents". */
  predicate IsCombiningMark(c: char)
  {
    '\U{300}' <= c <= '\U{36F}'
  }

  predicate NoMarks(s: string)
  {
    forall i :: 0 <= i < |s| ==> !IsCombiningMark(s[i])
  }

  /** Python's `\w` on `str`: ASCII letters, digits and `_`, plus the
      non-ASCII word characters of the Unicode tables. */
  predicate IsWordChar(u: UnicodeData, c: char)
  {
    || ('0' <= c <= '9')
    || ('A' <= c <= 'Z')
    || ('a' <= c <= 'z')
    || c == '_'
    || (c > '\U{7F}' && u.isWordBeyondAscii(c))
  }

  /** The class `[\w\-]` that survives the run replacement. */
  predicate IsKept(u: UnicodeData, c: char)
  {
    IsWordChar(u, c) || c == '-'
  }

  /** Kept characters other than the separator `_`. */
  predicate IsSignificant(u: UnicodeData, c: char)
  {
    IsKept(u, c) && c != '_'
  }

  predicate AllKept(u: UnicodeData, s: string)
  {
    forall i :: 0 <= i < |s| ==> IsKept(u, s[i])
  }

  predicate NoDoubleUnderscore(s: string)
  {
    forall i :: 0 < i < |s| ==> s[i - 1] != '_' || s[i] != '_'
  }

  /** What `to_public_id` promises of its output: only `[\w\-]`, no `__`,
      and no `_` at either end. */
  predicate IsToken(u: UnicodeData, s: string)
  {
    && AllKept(u, s)
    && NoDoubleUnderscore(s)
    && (s == [] || (s[0] != '_' && s[|s| - 1] != '_'))
  }

  /** The significant characters of `s`, in order. */
  function Significant(u: UnicodeData, s: string): string
  {
    if |s| == 0 then []
    else if IsSignificant(u, s[0]) then [s[0]] + Significant(u, s[1..])
    else Significant(u, s[1..])
  }

  /** Removing every character of the block U+0300..U+036F. */
  function StripMarks(s: string): (r: string)
    ensures NoMarks(r)
    ensures |r| <= |s|
    ensures NoMarks(s) ==> r == s
  {
    if |s| == 0 then []
    else if IsCombiningMark(s[0]) then StripMarks(s[1..])
    else [s[0]] + StripMarks(s[1..])
  }

  /** Marks are removed character by character: removing them from a
      concatenation removes them from each part. */
  lemma {:induction false} StripMarksAppend(a: string, b: string)
    ensures StripMarks(a + b) == StripMarks(a) + StripMarks(b)
  {
    if |a| > 0 {
      assert (a + b)[1..] == a[1..] + b;
      StripMarksAppend(a[1..], b);
    } else {
      assert a + b == b;
    }
  }

  /** A mark disappears; any other character stays. */
  lemma StripMarksChar(c: char)
    ensures StripMarks([c]) == if IsCombiningMark(c) then [] else [c]
  {
  }

  /** Example: `e` followed by a combining acute accent becomes `e`. */
  lemma AccentExample()
    ensures StripMarks("e\U{301}") == "e"
  {
    StripMarksAppend("e", "\U{301}");
    assert "e" + "\U{301}" == "e\U{301}";
  }

  /** The text the later steps work on: decomposed, without accents. */
  function Decomposed(u: UnicodeData, s: string): string
  {
    StripMarks(Nfkd(u, s))
  }

  /** `re.sub(r"[^\w\-]+", "_", s)`: each maximal run of characters outside
      `[\w\-]` becomes one `_` (emitted at the run's last character). */
  function ReplaceRuns(u: UnicodeData, s: string): (r: string)
    ensures AllKept(u, r)
  {
    if |s| == 0 then []
    else if IsKept(u, s[0]) then [s[0]] + ReplaceRuns(u, s[1..])
    else if |s| > 1 && !IsKept(u, s[1]) then ReplaceRuns(u, s[1..])
    else "_" + ReplaceRuns(u, s[1..])
  }

  /** `re.sub(r"_+", "_", s)`: every run of `_` becomes a single `_`. */
  function Collapse(s: string): (r: string)
    ensures NoDoubleUnderscore(r)
    ensures |s| > 0 ==> |r| > 0 && r[0] == s[0]
  {
    if |s| <= 1 then s
    else if s[0] == '_' && s[1] == '_' then Collapse(s[1..])
    else [s[0]] + Collapse(s[1..])
  }

  /** Collapsing keeps a text within `[\w\-]`. */
  lemma {:induction false} CollapseKeepsKept(u: UnicodeData, s: string)
    requires AllKept(u, s)
    ensures AllKept(u, Collapse(s))
  {
    if |s| > 1 {
      CollapseKeepsKept(u, s[1..]);
    }
  }

  /** A text without `__` is left alone by the collapse. */
  lemma {:induction false} CollapseClean(s: string)
    requires NoDoubleUnderscore(s)
    ensures Collapse(s) == s
  {
    if |s| > 1 {
      CollapseClean(s[1..]);
      assert s == [s[0]] + s[1..];
    }
  }

  /** The run replacement followed by the collapse. */
  function Separated(u: UnicodeData, s: string): string
  {
    Collapse(ReplaceRuns(u, s))
  }

  /** The sanitiser's pipeline on a text. */
  function Sanitized(u: UnicodeData, t: string): string
  {
    Strip(Separated(u, Decomposed(u, t)), {'_'})
  }

  /** How many leading characters of `s` are significant. */
  function WordLen(u: UnicodeData, s: string): (n: nat)
    ensures n <= |s|
    ensures forall k :: 0 <= k < n ==> IsSignificant(u, s[k])
    ensures n < |s| ==> !IsSignificant(u, s[n])
  {
    if |s| > 0 && IsSignificant(u, s[0]) then 1 + WordLen(u, s[1..]) else 0
  }

  /** The words of a text: its maximal runs of significant characters, in
      order. Everything else (white space, punctuation, `_`) only separates
      them. */
  function Words(u: UnicodeData, s: string): seq<string>
    decreases |s|
  {
    if |s| == 0 then []
    else if !IsSignificant(u, s[0]) then Words(u, s[1..])
    else
      var n := WordLen(u, s);
      [s[..n]] + Words(u, s[n..])
  }

  /** Every word is a non-empty run of significant characters. */
  lemma {:induction false} WordsAreRuns(u: UnicodeData, s: string)
    ensures forall i :: 0 <= i < |Words(u, s)| ==>
      && |Words(u, s)[i]| > 0
      && forall k :: 0 <= k < |Words(u, s)[i]| ==> IsSignificant(u, Words(u, s)[i][k])
    decreases |s|
  {
    if |s| > 0 {
      if !IsSignificant(u, s[0]) {
        WordsAreRuns(u, s[1..]);
      } else {
        var n := WordLen(u, s);
        WordsAreRuns(u, s[n..]);
        var w := Words(u, s);
        assert w[1..] == Words(u, s[n..]);
      }
    }
  }

  /** A significant character in front of a text joins its first word, or
      is a word of its own when the text starts with a separator. */
  lemma WordsCons(u: UnicodeData, c: char, x: string)
    requires IsSignificant(u, c)
    ensures |x| > 0 && IsSignificant(u, x[0]) ==>
      |Words(u, x)| > 0 && Words(u, [c] + x) == [[c] + Words(u, x)[0]] + Words(u, x)[1..]
    ensures !(|x| > 0 && IsSignificant(u, x[0])) ==> Words(u, [c] + x) == [[c]] + Words(u, x)
  {
    var s := [c] + x;
    assert s[1..] == x;
    var m := WordLen(u, x);
    assert WordLen(u, s) == 1 + m;
    assert s[..1 + m] == [c] + x[..m];
    assert s[1 + m..] == x[m..];
  }

  /** The sanitiser puts exactly one `_` between consecutive words of the
      decomposed text and nothing before the first or after the last: its
      result is the words joined by `_`. */
  lemma {:induction false} SeparatedWords(u: UnicodeData, s: string)
    ensures Strip(Separated(u, s), {'_'}) == Join(Words(u, s), "_")
  {
    if |s| > 0 {
      var c, x := s[0], s[1..];
      assert s == [c] + x;
      SeparatedWords(u, x);
      if !IsSignificant(u, c) {
        WordsAfterSeparator(u, c, x);
      } else if |x| > 0 && IsSignificant(u, x[0]) {
        WordsWithinWord(u, c, x);
      } else {
        WordsAtWordEnd(u, c, x);
      }
    }
  }

  lemma WordsAfterSeparator(u: UnicodeData, c: char, x: string)
    requires !IsSignificant(u, c)
    requires Strip(Separated(u, x), {'_'}) == Join(Words(u, x), "_")
    ensures Strip(Separated(u, [c] + x), {'_'}) == Join(Words(u, [c] + x), "_")
  {
    assert ([c] + x)[1..] == x;
    SeparatedStep(u, c, x);
    var y := Separated(u, x);
    if !(|y| > 0 && y[0] == '_') {
      StripDropsHead('_', y, {'_'});
    }
  }

  lemma WordsWithinWord(u: UnicodeData, c: char, x: string)
    requires IsSignificant(u, c) && |x| > 0 && IsSignificant(u, x[0])
    requires Strip(Separated(u, x), {'_'}) == Join(Words(u, x), "_")
    ensures Strip(Separated(u, [c] + x), {'_'}) == Join(Words(u, [c] + x), "_")
  {
    SeparatedStep(u, c, x);
    SeparatedHead(u, x);
    StripKeepsHead(c, Separated(u, x), {'_'});
    WordsCons(u, c, x);
    JoinPrependToFirst(c, Words(u, x), "_");
  }

  lemma WordsAtWordEnd(u: UnicodeData, c: char, x: string)
    requires IsSignificant(u, c) && !(|x| > 0 && IsSignificant(u, x[0]))
    requires Strip(Separated(u, x), {'_'}) == Join(Words(u, x), "_")
    ensures Strip(Separated(u, [c] + x), {'_'}) == Join(Words(u, [c] + x), "_")
  {
    SeparatedStep(u, c, x);
    WordsCons(u, c, x);
    var y := Separated(u, x);
    if |x| == 0 {
      StripKeepsHead(c, y, {'_'});
    } else {
      SeparatedHead(u, x);
      if Strip(y, {'_'}) == [] {
        LastWord(u, c, x);
      } else {
        WordThenMore(u, c, x);
      }
    }
  }

  /** A word followed only by separators. */
  lemma LastWord(u: UnicodeData, c: char, x: string)
    requires IsSignificant(u, c)
    requires Strip(Separated(u, x), {'_'}) == Join(Words(u, x), "_") == []
    ensures Strip([c] + Separated(u, x), {'_'}) == [c]
    ensures Join([[c]] + Words(u, x), "_") == [c]
  {
    var y := Separated(u, x);
    StripEmptyAllIn(y, {'_'});
    StripFramed([c] + y, [], [c], y, {'_'});
    WordsAreRuns(u, x);
    JoinStartsWithFirst(Words(u, x), "_");
  }

  /** A word followed by a separator and more words. */
  lemma WordThenMore(u: UnicodeData, c: char, x: string)
    requires IsSignificant(u, c) && |x| > 0 && !IsSignificant(u, x[0])
    requires Strip(Separated(u, x), {'_'}) == Join(Words(u, x), "_") != []
    ensures Strip(Separated(u, [c] + x), {'_'}) == Join([[c]] + Words(u, x), "_")
  {
    SeparatedKeeps(u, c, x);
    SeparatedHead(u, x);
    var y := Separated(u, x);
    var r := Strip(y, {'_'});
    var q := SeparatorThenWord(y, r);
    StripWordThenRest(c, '_', r, q, {'_'});
    JoinCons([c], Words(u, x), "_");
  }

  /** A text without `__` that starts with `_` and strips to a non-empty
      text is one `_`, that text, and then only `_`. */
  lemma SeparatorThenWord(y: string, r: string) returns (q: string)
    requires NoDoubleUnderscore(y) && |y| > 0 && y[0] == '_'
    requires r == Strip(y, {'_'}) && r != []
    ensures y == "_" + r + q
    ensures forall k :: 0 <= k < |q| ==> q[k] == '_'
  {
    q := y[1 + |r|..];
    var i := LeadIn(y, {'_'});
    assert y[i] == r[0];
    assert |y| > 1 ==> y[0] != '_' || y[1] != '_';
    assert y == y[..1] + y[1..1 + |r|] + y[1 + |r|..];
  }

  /** The first character of the replaced and collapsed text is `_` exactly
      when the text starts with a character that is not significant. */
  lemma SeparatedHead(u: UnicodeData, s: string)
    requires |s| > 0
    ensures |Separated(u, s)| > 0 && (Separated(u, s)[0] == '_' <==> !IsSignificant(u, s[0]))
  {
    RunsHead(u, s);
  }

  lemma {:induction false} RunsHead(u: UnicodeData, s: string)
    requires |s| > 0
    ensures |ReplaceRuns(u, s)| > 0 && (ReplaceRuns(u, s)[0] == '_' <==> !IsSignificant(u, s[0]))
  {
    if !IsKept(u, s[0]) && |s| > 1 && !IsKept(u, s[1]) {
      RunsHead(u, s[1..]);
    }
  }

  /** A significant character in front of a text is kept as it is. */
  lemma SeparatedKeeps(u: UnicodeData, c: char, x: string)
    requires IsSignificant(u, c)
    ensures Separated(u, [c] + x) == [c] + Separated(u, x)
  {
    assert ([c] + x)[1..] == x;
    CollapseCons(c, ReplaceRuns(u, x));
  }

  /** One character in front of a text: a significant one is kept, and
      anything else adds a `_` unless the text already starts with one. */
  lemma SeparatedStep(u: UnicodeData, c: char, x: string)
    ensures Separated(u, [c] + x) ==
      if IsSignificant(u, c) then [c] + Separated(u, x)
      else if |Separated(u, x)| > 0 && Separated(u, x)[0] == '_' then Separated(u, x)
      else "_" + Separated(u, x)
  {
    var s := [c] + x;
    assert s[1..] == x;
    var rx := ReplaceRuns(u, x);
    if IsSignificant(u, c) {
      CollapseCons(c, rx);
    } else if !IsKept(u, c) && |x| > 0 && !IsKept(u, x[0]) {
      SeparatedHead(u, x);
    } else {
      assert ReplaceRuns(u, s) == "_" + rx;
      CollapseUnderscore(rx);
    }
  }

  /** A character other than `_` passes through the collapse. */
  lemma CollapseCons(c: char, y: string)
    requires c != '_'
    ensures Collapse([c] + y) == [c] + Collapse(y)
  {
    assert ([c] + y)[1..] == y;
  }

  /** A `_` in front of a text survives the collapse unless the text starts
      with one too. */
  lemma CollapseUnderscore(y: string)
    ensures Collapse("_" + y) == if |y| > 0 && y[0] == '_' then Collapse(y) else "_" + Collapse(y)
  {
    assert ("_" + y)[1..] == y;
  }

  /** A maximal run of characters outside `[\w\-]` becomes exactly one `_`. */
  lemma {:induction false} RunBecomesOneUnderscore(u: UnicodeData, run: string, rest: string)
    requires |run| > 0 && forall k :: 0 <= k < |run| ==> !IsKept(u, run[k])
    requires rest == [] || IsKept(u, rest[0])
    ensures ReplaceRuns(u, run + rest) == "_" + ReplaceRuns(u, rest)
  {
    assert (run + rest)[1..] == run[1..] + rest;
    if |run| > 1 {
      RunBecomesOneUnderscore(u, run[1..], rest);
    }
  }

  /** A maximal run of `_` becomes exactly one `_`. */
  lemma {:induction false} UnderscoreRunCollapses(us: string, rest: string)
    requires |us| > 0 && forall k :: 0 <= k < |us| ==> us[k] == '_'
    requires rest == [] || rest[0] != '_'
    ensures Collapse(us + rest) == "_" + Collapse(rest)
  {
    assert (us + rest)[1..] == us[1..] + rest;
    if |us| > 1 {
      UnderscoreRunCollapses(us[1..], rest);
    } else {
      CollapseUnderscore(rest);
    }
  }

  /** `to_public_id(s)`. `None` stands for Python's `None`; the empty string
      takes the same path as any other text. */
  function ToPublicId(u: UnicodeData, s: Option<string>): (r: string)
    ensures IsToken(u, r)
    ensures s.Some? ==> Significant(u, r) == Significant(u, Decomposed(u, s.value))
    ensures r == [] <==> s.None? || Significant(u, Decomposed(u, s.value)) == []
    ensures s.Some? ==> r == Join(Words(u, Decomposed(u, s.value)), "_")
  {
    match s
    case None => ""
    case Some(t) =>
      SeparatedWords(u, Decomposed(u, t));
      SanitizedIsToken(u, t);
      SanitizedKeepsSignificant(u, t);
      TokenSignificance(u, Sanitized(u, t));
      Sanitized(u, t)
  }

  lemma SanitizedIsToken(u: UnicodeData, t: string)
    ensures IsToken(u, Sanitized(u, t))
  {
    var collapsed := Collapse(ReplaceRuns(u, Decomposed(u, t)));
    CollapseKeepsKept(u, ReplaceRuns(u, Decomposed(u, t)));
    InfixOfToken(u, collapsed, LeadIn(collapsed, {'_'}), Strip(collapsed, {'_'}));
  }

  /** An infix of a text within `[\w\-]` without `__` is one too. */
  lemma InfixOfToken(u: UnicodeData, s: string, i: nat, r: string)
    requires AllKept(u, s) && NoDoubleUnderscore(s)
    requires i + |r| <= |s| && r == s[i..i + |r|]
    ensures AllKept(u, r) && NoDoubleUnderscore(r)
  {
    assert forall k :: 0 <= k < |r| ==> r[k] == s[i + k];
  }

  lemma SanitizedKeepsSignificant(u: UnicodeData, t: string)
    ensures Significant(u, Sanitized(u, t)) == Significant(u, Decomposed(u, t))
  {
    var d := Decomposed(u, t);
    var replaced := ReplaceRuns(u, d);
    ReplaceRunsKeepsSignificant(u, d);
    CollapseKeepsSignificant(u, replaced);
    StripKeepsSignificant(u, Collapse(replaced));
  }

  lemma {:induction false} SignificantAppend(u: UnicodeData, a: string, b: string)
    ensures Significant(u, a + b) == Significant(u, a) + Significant(u, b)
  {
    if |a| > 0 {
      assert (a + b)[1..] == a[1..] + b;
      SignificantAppend(u, a[1..], b);
    } else {
      assert a + b == b;
    }
  }

  lemma {:induction false} SignificantOfUnderscores(u: UnicodeData, s: string)
    requires forall i :: 0 <= i < |s| ==> s[i] == '_'
    ensures Significant(u, s) == []
  {
    if |s| > 0 {
      SignificantOfUnderscores(u, s[1..]);
    }
  }

  /** The run replacement only ever turns non-significant characters into `_`. */
  lemma {:induction false} ReplaceRunsKeepsSignificant(u: UnicodeData, s: string)
    ensures Significant(u, ReplaceRuns(u, s)) == Significant(u, s)
  {
    if |s| > 0 {
      ReplaceRunsKeepsSignificant(u, s[1..]);
    }
  }

  /** Collapsing only ever drops a `_`. */
  lemma {:induction false} CollapseKeepsSignificant(u: UnicodeData, s: string)
    ensures Significant(u, Collapse(s)) == Significant(u, s)
  {
    if |s| > 1 {
      CollapseKeepsSignificant(u, s[1..]);
    }
  }

  /** Trimming `_` only ever drops a `_`. */
  lemma StripKeepsSignificant(u: UnicodeData, s: string)
    ensures Significant(u, Strip(s, {'_'})) == Significant(u, s)
  {
    var r := Strip(s, {'_'});
    var p, q := StripSplit(s, {'_'});
    SignificantAppend(u, p + r, q);
    SignificantAppend(u, p, r);
    SignificantOfUnderscores(u, p);
    SignificantOfUnderscores(u, q);
  }

  /** A token is empty exactly when it has no significant character. */
  lemma TokenSignificance(u: UnicodeData, s: string)
    requires IsToken(u, s)
    ensures s == [] <==> Significant(u, s) == []
  {
    if s != [] {
      assert IsSignificant(u, s[0]);
    }
  }

  /** A text that is already a token (and already decomposed, without
      accents) comes back unchanged. */
  lemma CleanTokenUnchanged(u: UnicodeData, t: string)
    requires IsToken(u, t) && NoMarks(t) && Nfkd(u, t) == t
    ensures ToPublicId(u, Some(t)) == t
  {
    assert Decomposed(u, t) == t;
    KeptPrefixUnchanged(u, t, []);
    assert t + [] == t;
    CollapseClean(t);
    assert Strip(t, {'_'}) == t;
  }

  /** Sanitising an ASCII result a second time changes nothing. */
  lemma IdempotentOnAscii(u: UnicodeData, s: Option<string>)
    requires IsAscii(ToPublicId(u, s))
    ensures ToPublicId(u, Some(ToPublicId(u, s))) == ToPublicId(u, s)
  {
    var r := ToPublicId(u, s);
    assert NoMarks(r) by {
      forall i | 0 <= i < |r| ensures !IsCombiningMark(r[i]) {
        assert r[i] <= '\U{7F}';
      }
    }
    CleanTokenUnchanged(u, r);
  }

  /** Text with no letter, digit, hyphen or other non-`_` word character
      (blank text, punctuation, whitespace) sanitises to the empty string. */
  lemma NothingSignificantGivesEmpty(u: UnicodeData, t: string)
    requires IsAscii(t)
    requires forall i :: 0 <= i < |t| ==> !IsSignificant(u, t[i])
    ensures ToPublicId(u, Some(t)) == ""
  {
    assert Significant(u, t) == [] by {
      NoSignificant(u, t);
    }
    assert NoMarks(t) by {
      forall i | 0 <= i < |t| ensures !IsCombiningMark(t[i]) {
        assert t[i] <= '\U{7F}';
      }
    }
  }

  lemma {:induction false} NoSignificant(u: UnicodeData, t: string)
    requires forall i :: 0 <= i < |t| ==> !IsSignificant(u, t[i])
    ensures Significant(u, t) == []
  {
    if |t| > 0 {
      NoSignificant(u, t[1..]);
    }
  }

  /** Example: alt text "Red Widget!" becomes the public_id "Red_Widget". */
  lemma RedWidgetExample(u: UnicodeData)
    ensures ToPublicId(u, Some("Red Widget!")) == "Red_Widget"
  {
    RedWidgetAscii(u);
    RedWidgetRuns(u);
    RedWidgetTrim();
  }

  lemma RedWidgetAscii(u: UnicodeData)
    ensures Decomposed(u, "Red Widget!") == "Red Widget!"
  {
    assert IsAscii("Red Widget!");
    assert NoMarks("Red Widget!");
  }

  lemma RedWidgetTrim()
    ensures Strip(Collapse("Red_Widget_"), {'_'}) == "Red_Widget"
  {
    RedWidgetCollapse();
    RedWidgetTrimEnds();
  }

  lemma RedWidgetTrimEnds()
    ensures Strip("Red_Widget_", {'_'}) == "Red_Widget"
  {
    var s := "Red_Widget_";
    assert s[0] == 'R' && LeadIn(s, {'_'}) == 0;
    assert s[0..] == s && s[..|s| - 1] == "Red_Widget";
    assert TrailIn("Red_Widget", {'_'}) == 0;
    assert StripEnd(s, {'_'}) == 10;
    assert s[0..10] == "Red_Widget";
  }

  lemma RedWidgetCollapse()
    ensures Collapse("Red_Widget_") == "Red_Widget_"
  {
    assert NoDoubleUnderscore("Red_Widget_");
    CollapseClean("Red_Widget_");
  }

  lemma RedWidgetRuns(u: UnicodeData)
    ensures ReplaceRuns(u, "Red Widget!") == "Red_Widget_"
  {
    WidgetRuns(u);
    assert AllKept(u, "Red");
    KeptPrefixUnchanged(u, "Red", " Widget!");
    assert "Red" + " Widget!" == "Red Widget!";
  }

  lemma WidgetRuns(u: UnicodeData)
    ensures ReplaceRuns(u, " Widget!") == "_Widget_"
  {
    assert " Widget!"[1..] == "Widget!";
    assert ReplaceRuns(u, "Widget!") == "Widget_" by {
      assert ReplaceRuns(u, "!") == "_";
      assert AllKept(u, "Widget");
      KeptPrefixUnchanged(u, "Widget", "!");
      assert "Widget" + "!" == "Widget!";
    }
  }

  /** A prefix made of kept characters passes through the run replacement. */
  lemma {:induction false} KeptPrefixUnchanged(u: UnicodeData, a: string, b: string)
    requires AllKept(u, a)
    ensures ReplaceRuns(u, a + b) == a + ReplaceRuns(u, b)
  {
    if |a| > 0 {
      assert (a + b)[1..] == a[1..] + b;
      KeptPrefixUnchanged(u, a[1..], b);
      assert a == [a[0]] + a[1..];
    } else {
      assert a + b == b;
    }
  }
}
