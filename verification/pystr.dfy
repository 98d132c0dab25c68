/** The handful of Python `str` built-ins the tool relies on: `strip()`,
    `split(sep)`, `endswith(suffix)` and the ordering `<` that `sorted` uses.
    A Python string is a sequence of code points, here a `seq<char>`. */
module PyStr {

  /** Python's `str.isspace` for one code point: the characters `strip()`
      with no argument removes. */
  predicate IsSpace(c: char)
  {
    || ('\t' <= c <= '\r')
    || ('\U{1C}' <= c <= ' ')
    || c == '\U{85}' || c == '\U{A0}' || c == '\U{1680}'
    || ('\U{2000}' <= c <= '\U{200A}')
    || c == '\U{2028}' || c == '\U{2029}' || c == '\U{202F}'
    || c == '\U{205F}' || c == '\U{3000}'
  }

  /** Every character of `s[i..j]` is whitespace. */
  predicate SpaceBetween(s: string, i: nat, j: nat)
    requires i <= j <= |s|
  {
    forall m :: i <= m < j ==> IsSpace(s[m])
  }

  /** Neither end of `s` is whitespace: what `strip()` guarantees. */
  predicate Trimmed(s: string)
  {
    s == [] || (!IsSpace(s[0]) && !IsSpace(s[|s| - 1]))
  }

  /** The first index at or after `i` that is not whitespace, or `|s|`. */
  function SkipLeading(s: string, i: nat): (k: nat)
    requires i <= |s|
    ensures i <= k <= |s| && SpaceBetween(s, i, k)
    ensures k < |s| ==> !IsSpace(s[k])
    decreases |s| - i
  {
    if i < |s| && IsSpace(s[i]) then SkipLeading(s, i + 1) else i
  }

  /** The end of `s[lo..j]` once its trailing whitespace is cut. */
  function SkipTrailing(s: string, lo: nat, j: nat): (e: nat)
    requires lo <= j <= |s|
    ensures lo <= e <= j && SpaceBetween(s, e, j)
    ensures e > lo ==> !IsSpace(s[e - 1])
  {
    if j > lo && IsSpace(s[j - 1]) then SkipTrailing(s, lo, j - 1) else j
  }

  /** `s.strip()`: what is left of `s` once all leading and all trailing
      whitespace is cut. Only whitespace is cut, the result starts and ends
      with a non-space, and it is empty exactly when `s` is all
      whitespace. */
  function Strip(s: string): (r: string)
    ensures Trimmed(r) && |r| <= |s|
    ensures exists k :: 0 <= k <= |s| - |r| && r == s[k..k + |r|]
                        && SpaceBetween(s, 0, k) && SpaceBetween(s, k + |r|, |s|)
    ensures r == [] <==> SpaceBetween(s, 0, |s|)
  {
    var lo := SkipLeading(s, 0);
    var hi := SkipTrailing(s, lo, |s|);
    assert lo < |s| ==> hi > lo;
    s[lo..hi]
  }

  /** Stripping a string that is already trimmed changes nothing. */
  lemma StripTrimmed(s: string)
    requires Trimmed(s)
    ensures Strip(s) == s
  {
    if s != [] {
      assert SkipLeading(s, 0) == 0;
      assert SkipTrailing(s, 0, |s|) == |s|;
      assert s[0..|s|] == s;
    }
  }

  /** `strip()` is idempotent: stripping twice is stripping once. */
  lemma StripIdempotent(s: string)
    ensures Strip(Strip(s)) == Strip(s)
  {
    StripTrimmed(Strip(s));
  }

  /** Python's `s.endswith(suffix)`. */
  predicate EndsWith(s: string, suffix: string)
  {
    |suffix| <= |s| && s[|s| - |suffix|..] == suffix
  }

  /** Stripping `p + q`, where `q` starts and ends with a non-space, keeps
      all of `q` at its end. */
  lemma StripKeepsCore(p: string, q: string)
    requires q != [] && Trimmed(q)
    ensures EndsWith(Strip(p + q), q)
  {
    var s := p + q;
    assert s[|p|] == q[0];
    var lo := SkipLeading(s, 0);
    assert lo <= |p|;
    assert s[|s| - 1] == q[|q| - 1];
    var hi := SkipTrailing(s, lo, |s|);
    assert hi == |s|;
    assert Strip(s) == s[lo..];
    assert s[lo..][|s| - lo - |q|..] == s[|p|..] == q;
  }

  /** Leading whitespace `p` in front of a trimmed `q` is all that
      `strip()` removes. */
  lemma StripLeadingSpace(p: string, q: string)
    requires SpaceBetween(p, 0, |p|)
    requires q != [] && Trimmed(q)
    ensures Strip(p + q) == q
  {
    var s := p + q;
    assert s[|p|] == q[0];
    assert SkipLeading(s, 0) == |p| by {
      SkipLeadingFrom(s, 0, |p|);
    }
    assert s[|s| - 1] == q[|q| - 1];
    assert SkipTrailing(s, |p|, |s|) == |s|;
    assert s[|p|..|s|] == q;
  }

  lemma {:induction false} SkipLeadingFrom(s: string, i: nat, k: nat)
    requires i <= k < |s|
    requires SpaceBetween(s, i, k) && !IsSpace(s[k])
    ensures SkipLeading(s, i) == k
    decreases k - i
  {
    if i < k {
      SkipLeadingFrom(s, i + 1, k);
    }
  }

  /** The pieces of Python's `s.split(sep)` joined back with `sep`. */
  function Join(parts: seq<string>, sep: char): string
    requires |parts| >= 1
  {
    if |parts| == 1 then parts[0] else parts[0] + [sep] + Join(parts[1..], sep)
  }

  /** Python's `s.split(sep)` for a one-character separator: the maximal
      runs between separators, so there is always one more piece than
      separators, and the empty string gives `[""]`. */
  function Split(s: string, sep: char): (r: seq<string>)
    ensures |r| >= 1
    ensures forall i :: 0 <= i < |r| ==> sep !in r[i]
    ensures Join(r, sep) == s
  {
    if s == [] then [[]]
    else
      var rest := Split(s[1..], sep);
      if s[0] == sep then
        assert Join([[]] + rest, sep) == [sep] + Join(rest, sep) by {
          assert ([[]] + rest)[1..] == rest;
        }
        [[]] + rest
      else
        var r := [[s[0]] + rest[0]] + rest[1..];
        assert Join(r, sep) == [s[0]] + Join(rest, sep) by {
          if |rest| > 1 {
            assert r[1..] == rest[1..];
          }
        }
        r
  }

  /** Splitting at a separator that `a` does not contain. */
  lemma {:induction false} SplitCons(a: string, b: string, sep: char)
    requires sep !in a
    ensures Split(a + [sep] + b, sep) == [a] + Split(b, sep)
  {
    if a != [] {
      var s := a + [sep] + b;
      assert s[0] == a[0] && s[0] != sep;
      assert s[1..] == a[1..] + [sep] + b;
      assert [a[0]] + a[1..] == a;
      SplitCons(a[1..], b, sep);
      var rest := Split(s[1..], sep);
      assert rest[0] == a[1..] && rest[1..] == Split(b, sep);
    } else {
      assert (a + [sep] + b)[1..] == b;
    }
  }

  /** A string without the separator is one piece. */
  lemma {:induction false} SplitNone(a: string, sep: char)
    requires sep !in a
    ensures Split(a, sep) == [a]
  {
    if a != [] {
      SplitNone(a[1..], sep);
      assert [a[0]] + a[1..] == a;
    }
  }

  /** `split` undoes `join` when no piece contains the separator, so
      `Split` and `Join` are inverse in both directions. */
  lemma {:induction false} SplitJoin(parts: seq<string>, sep: char)
    requires |parts| >= 1
    requires forall i :: 0 <= i < |parts| ==> sep !in parts[i]
    ensures Split(Join(parts, sep), sep) == parts
  {
    if |parts| == 1 {
      SplitNone(parts[0], sep);
    } else {
      SplitJoin(parts[1..], sep);
      SplitCons(parts[0], Join(parts[1..], sep), sep);
      assert [parts[0]] + parts[1..] == parts;
    }
  }

  /** Python's `a < b` on strings: code point by code point, and a proper
      prefix comes first. (Dafny's own `<` on sequences is the proper-prefix
      relation only.) */
  predicate Less(a: string, b: string)
  {
    if a == [] then b != []
    else b != [] && (a[0] < b[0] || (a[0] == b[0] && Less(a[1..], b[1..])))
  }

  lemma {:induction false} LessIrreflexive(a: string)
    ensures !Less(a, a)
  {
    if a != [] {
      LessIrreflexive(a[1..]);
    }
  }

  lemma {:induction false} LessTransitive(a: string, b: string, c: string)
    requires Less(a, b) && Less(b, c)
    ensures Less(a, c)
  {
    if a != [] && a[0] == b[0] && b[0] == c[0] {
      LessTransitive(a[1..], b[1..], c[1..]);
    }
  }

  /** Any two distinct strings are ordered one way, and only one way. */
  lemma {:induction false} LessTotal(a: string, b: string)
    ensures a == b || Less(a, b) || Less(b, a)
    ensures !(Less(a, b) && Less(b, a))
  {
    if a != [] && b != [] && a[0] == b[0] {
      LessTotal(a[1..], b[1..]);
      if a[1..] == b[1..] {
        assert a == [a[0]] + a[1..] && b == [b[0]] + b[1..];
      }
    }
  }

  /** Python orders a proper prefix before the longer string, as Dafny's
      `<` on sequences does. */
  lemma {:induction false} PrefixLess(a: string, b: string)
    requires a < b
    ensures Less(a, b)
  {
    if a != [] {
      assert a[1..] < b[1..];
      PrefixLess(a[1..], b[1..]);
    }
  }
}
