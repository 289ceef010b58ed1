/** The request signature of `cld_signature` (image_resize.py): the string
    that is hashed, and the facts that make it a function of the non-empty
    parameters alone. SHA-1 itself is a parameter. */
module Signature {
  import opened Strings
  import opened Ordering

  /** A Python dict from strings to strings: its keys in insertion order and
      its key-to-value mapping. */
  datatype Dict = Dict(order: seq<string>, entries: map<string, string>)

  predicate Valid(d: Dict)
  {
    && Distinct(d.order)
    && (forall k | k in d.order :: k in d.entries)
    && (forall k | k in d.entries :: k in d.order)
  }

  const EmptyDict: Dict := Dict([], map[])

  /** `d[k] = v`: a new key goes last, an existing key keeps its place. */
  function Put(d: Dict, k: string, v: string): (r: Dict)
    requires Valid(d)
    ensures Valid(r)
    ensures r.entries == d.entries[k := v]
    ensures k !in d.entries ==> r.order == d.order + [k]
    ensures k in d.entries ==> r.order == d.order
  {
    if k in d.entries then Dict(d.order, d.entries[k := v])
    else Dict(d.order + [k], d.entries[k := v])
  }

  /** A dict display `{**a, **b}` of two dicts with no key in common. */
  function Concat(a: Dict, b: Dict): (r: Dict)
    requires Valid(a) && Valid(b)
    requires forall k :: k in a.entries ==> k !in b.entries
    ensures Valid(r)
    ensures r.order == a.order + b.order
    ensures r.entries == a.entries + b.entries
  {
    var r := Dict(a.order + b.order, a.entries + b.entries);
    assert Distinct(r.order) by {
      forall i, j | 0 <= i < j < |r.order| ensures r.order[i] != r.order[j] {
        if i < |a.order| <= j {
          assert r.order[i] in a.entries && r.order[j] in b.entries;
        }
      }
    }
    r
  }

  /** The parameters that take part in the signature: those whose value is
      not empty. */
  function Included(m: map<string, string>): map<string, string>
  {
    map k | k in m && m[k] != "" :: m[k]
  }

  /** The keys of `ks` whose value in `m` is not empty, in the same order. */
  function KeepNonEmpty(ks: seq<string>, m: map<string, string>): (r: seq<string>)
    requires forall k :: k in ks ==> k in m
    ensures forall k :: k in r <==> k in ks && m[k] != ""
    ensures StrictlySorted(ks) ==> StrictlySorted(r)
  {
    if |ks| == 0 then []
    else
      var rest := KeepNonEmpty(ks[1..], m);
      if m[ks[0]] == "" then rest
      else
        assert StrictlySorted(ks) ==> forall y | y in rest :: Lt(ks[0], y) by {
          if StrictlySorted(ks) {
            forall y | y in rest ensures Lt(ks[0], y) {
              var j :| 1 <= j < |ks| && ks[j] == y;
            }
          }
        }
        [ks[0]] + rest
  }

  /** `k for k in sorted(params) if params[k] not in (None, "", False)`:
      exactly the included keys, each once, in ascending order. */
  function SignedKeys(d: Dict): (ks: seq<string>)
    requires Valid(d)
    ensures StrictlySorted(ks)
    ensures forall k :: k in ks <==> k in Included(d.entries)
  {
    KeepNonEmpty(Sort(d.order), d.entries)
  }

  /** The signed keys are the unique ascending list of the names with a
      non-empty value. */
  lemma SignedKeysAre(d: Dict, want: seq<string>)
    requires Valid(d) && StrictlySorted(want)
    requires forall k :: k in want <==> k in d.entries && d.entries[k] != ""
    ensures SignedKeys(d) == want
  {
    SortedUnique(SignedKeys(d), want);
  }

  /** `f"{k}={m[k]}"` for each key of `ks`. */
  function Pairs(ks: seq<string>, m: map<string, string>): (r: seq<string>)
    requires forall k :: k in ks ==> k in m
    ensures |r| == |ks|
    ensures forall i :: 0 <= i < |ks| ==> r[i] == ks[i] + "=" + m[ks[i]]
  {
    if |ks| == 0 then [] else [ks[0] + "=" + m[ks[0]]] + Pairs(ks[1..], m)
  }

  /** The text `cld_signature` hashes: the included parameters as `k=v`
      joined by `&` in ascending key order, then the secret with no
      separator. */
  function Canonical(d: Dict, secret: string): (r: string)
    requires Valid(d)
    ensures |secret| <= |r| && r[|r| - |secret|..] == secret
  {
    Join(Pairs(SignedKeys(d), d.entries), "&") + secret
  }

  /** `cld_signature(params, secret)`, with `sha1Hex` standing for the hex
      SHA-1 digest of the UTF-8 encoding. The signature is that of the dict
      holding only the non-empty parameters, added in ascending key order. */
  function Sign(d: Dict, secret: string, sha1Hex: string -> string): (sig: string)
    requires Valid(d)
    ensures var only := Dict(SignedKeys(d), Included(d.entries));
      Valid(only) && sig == sha1Hex(Canonical(only, secret))
  {
    var only := Dict(SignedKeys(d), Included(d.entries));
    StrictlySortedIsDistinct(SignedKeys(d));
    assert Included(only.entries) == Included(d.entries);
    CanonicalDependsOnlyOnIncluded(d, only, secret);
    sha1Hex(Canonical(d, secret))
  }

  /** Two dicts with the same included parameters have the same canonical
      string, whatever their insertion order and empty entries. */
  lemma CanonicalDependsOnlyOnIncluded(d1: Dict, d2: Dict, secret: string)
    requires Valid(d1) && Valid(d2)
    requires Included(d1.entries) == Included(d2.entries)
    ensures Canonical(d1, secret) == Canonical(d2, secret)
  {
    var ks1 := SignedKeys(d1);
    var ks2 := SignedKeys(d2);
    SortedUnique(ks1, ks2);
    var p1 := Pairs(ks1, d1.entries);
    var p2 := Pairs(ks1, d2.entries);
    assert p1 == p2 by {
      forall i | 0 <= i < |ks1| ensures p1[i] == p2[i] {
        var k := ks1[i];
        assert k in Included(d1.entries);
        assert d1.entries[k] == Included(d1.entries)[k] == Included(d2.entries)[k] == d2.entries[k];
      }
    }
  }

  /** `cld_signature` does not depend on the order parameters were added. */
  lemma InsertionOrderIrrelevant(d1: Dict, d2: Dict, secret: string, sha1Hex: string -> string)
    requires Valid(d1) && Valid(d2)
    requires d1.entries == d2.entries
    ensures Sign(d1, secret, sha1Hex) == Sign(d2, secret, sha1Hex)
  {
    CanonicalDependsOnlyOnIncluded(d1, d2, secret);
  }

  /** Adding a parameter with an empty value (or, read backwards, removing
      one) leaves the canonical string and the signature unchanged. */
  lemma EmptyParamIrrelevant(d: Dict, k: string, secret: string, sha1Hex: string -> string)
    requires Valid(d) && k !in d.entries
    ensures Canonical(Put(d, k, ""), secret) == Canonical(d, secret)
    ensures Sign(Put(d, k, ""), secret, sha1Hex) == Sign(d, secret, sha1Hex)
  {
    var d' := Put(d, k, "");
    assert Included(d'.entries) == Included(d.entries);
    CanonicalDependsOnlyOnIncluded(d', d, secret);
  }

  /** With every value empty, only the secret is hashed. */
  lemma AllEmptyIsSecret(d: Dict, secret: string)
    requires Valid(d)
    requires forall k :: k in d.entries ==> d.entries[k] == ""
    ensures Canonical(d, secret) == secret
  {
    NothingNonEmpty(Sort(d.order), d.entries);
  }

  lemma {:induction false} NothingNonEmpty(ks: seq<string>, m: map<string, string>)
    requires forall k :: k in ks ==> k in m && m[k] == ""
    ensures KeepNonEmpty(ks, m) == []
  {
    if |ks| > 0 {
      NothingNonEmpty(ks[1..], m);
    }
  }

  /** Changing the value of one included parameter to another non-empty
      value changes the canonical string. */
  lemma ChangedValueChangesCanonical(d: Dict, k: string, v: string, secret: string)
    requires Valid(d) && k in d.entries && d.entries[k] != ""
    requires v != "" && v != d.entries[k]
    ensures Canonical(Put(d, k, v), secret) != Canonical(d, secret)
  {
    var d' := Put(d, k, v);
    var ks := SignedKeys(d);
    SameSignedKeys(d, k, v);
    assert k in Included(d.entries);
    var i :| 0 <= i < |ks| && ks[i] == k;
    StrictlySortedIsDistinct(ks);
    PairsDifferAt(ks, d.entries, k, v, i);
    JoinDiffersAtOnePart(Pairs(ks, d'.entries), Pairs(ks, d.entries), "&", i);
    SuffixCancels(Join(Pairs(ks, d'.entries), "&"), Join(Pairs(ks, d.entries), "&"), secret);
  }

  /** Changing the value of the key at position `i` changes the `i`-th pair
      and no other. */
  lemma PairsDifferAt(ks: seq<string>, m: map<string, string>, k: string, v: string, i: nat)
    requires Distinct(ks) && forall x :: x in ks ==> x in m
    requires i < |ks| && ks[i] == k && v != m[k]
    ensures var p, p' := Pairs(ks, m), Pairs(ks, m[k := v]);
      && p'[i] != p[i]
      && forall j :: 0 <= j < |ks| && j != i ==> p'[j] == p[j]
  {
    PrefixCancels(k + "=", v, m[k]);
  }

  /** Replacing one non-empty value by another keeps the signed keys. */
  lemma SameSignedKeys(d: Dict, k: string, v: string)
    requires Valid(d) && k in d.entries && d.entries[k] != "" && v != ""
    ensures SignedKeys(Put(d, k, v)) == SignedKeys(d)
  {
    var d' := Put(d, k, v);
    assert forall x :: x in Included(d'.entries) <==> x in Included(d.entries);
    SortedUnique(SignedKeys(d'), SignedKeys(d));
  }
}
