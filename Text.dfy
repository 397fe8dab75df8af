/**
  The pieces of Go's `strings` and `unicode` packages that util.go relies on:
  the whitespace set of `unicode.IsSpace`, `strings.TrimSpace`,
  `strings.ToLower` on the characters that matter here, and Go's ordering of
  strings. A Go string is a byte string holding UTF-8; here a string is the
  sequence of its code points, and code-point order is UTF-8 byte order.
*/
module Text {

  /** `unicode.IsSpace`: the Latin-1 spaces and the other Unicode White_Space code points. */
  predicate IsSpace(c: char) {
    c == '\t' || c == '\n' || c == '\U{000B}' || c == '\U{000C}' || c == '\r' || c == ' '
    || c == '\U{0085}' || c == '\U{00A0}' || c == '\U{1680}'
    || ('\U{2000}' <= c <= '\U{200A}') || c == '\U{2028}' || c == '\U{2029}'
    || c == '\U{202F}' || c == '\U{205F}' || c == '\U{3000}'
  }

  ghost predicate AllSpace(s: string) {
    forall i :: 0 <= i < |s| ==> IsSpace(s[i])
  }

  /** Neither starts nor ends with whitespace. */
  predicate IsTrimmed(s: string) {
    s == [] || (!IsSpace(s[0]) && !IsSpace(s[|s| - 1]))
  }

  /** The first index at or after `i` that does not hold whitespace (or `|s|`). */
  function SkipSpace(s: string, i: nat): (k: nat)
    requires i <= |s|
    ensures i <= k <= |s|
    ensures forall j :: i <= j < k ==> IsSpace(s[j])
    ensures k == |s| || !IsSpace(s[k])
    decreases |s| - i
  {
    if i < |s| && IsSpace(s[i]) then SkipSpace(s, i + 1) else i
  }

  /** The end of `s[lo..hi]` once its trailing whitespace is dropped. */
  function BackSpace(s: string, lo: nat, hi: nat): (k: nat)
    requires lo <= hi <= |s|
    ensures lo <= k <= hi
    ensures forall j :: k <= j < hi ==> IsSpace(s[j])
    ensures k == lo || !IsSpace(s[k - 1])
    decreases hi
  {
    if lo < hi && IsSpace(s[hi - 1]) then BackSpace(s, lo, hi - 1) else hi
  }

  /** `strings.TrimSpace`: `s` without its leading and trailing whitespace. */
  function TrimSpace(s: string): (r: string)
    ensures IsTrimmed(r) && |r| <= |s|
  {
    var lo := SkipSpace(s, 0);
    s[lo..BackSpace(s, lo, |s|)]
  }

  /** `TrimSpace(s)` sits in `s` between a whitespace prefix and a whitespace suffix. */
  lemma TrimSpaceSplits(s: string) returns (p: string, q: string)
    ensures s == p + TrimSpace(s) + q && AllSpace(p) && AllSpace(q)
  {
    var lo := SkipSpace(s, 0);
    var hi := BackSpace(s, lo, |s|);
    p, q := s[..lo], s[hi..];
    assert s == s[..lo] + s[lo..hi] + s[hi..];
  }

  /** In `p + t + q` with `p` all whitespace and `t` starting with a non-space, `|p|` is fixed by `s`. */
  lemma SamePrefixLength(s: string, p: string, t: string, q: string, p': string, t': string, q': string)
    requires s == p + t + q && AllSpace(p) && t != [] && !IsSpace(t[0])
    requires s == p' + t' + q' && AllSpace(p') && t' != [] && !IsSpace(t'[0])
    ensures |p| == |p'|
  {
    assert s[|p|] == t[0] && s[|p'|] == t'[0];
  }

  /** In `p + t + q` with `q` all whitespace and `t` ending with a non-space, `|q|` is fixed by `s`. */
  lemma SameSuffixLength(s: string, p: string, t: string, q: string, p': string, t': string, q': string)
    requires s == p + t + q && AllSpace(q) && t != [] && !IsSpace(t[|t| - 1])
    requires s == p' + t' + q' && AllSpace(q') && t' != [] && !IsSpace(t'[|t'| - 1])
    ensures |q| == |q'|
  {
    var e, e' := |p| + |t| - 1, |p'| + |t'| - 1;
    assert s[e] == t[|t| - 1] && s[e'] == t'[|t'| - 1];
  }

  /**
    The reference definition of trimming: whenever `s` is some whitespace, then
    a trimmed `t`, then some whitespace, `TrimSpace(s)` is that `t`.
  */
  lemma TrimSpaceCharacterized(s: string, p: string, t: string, q: string)
    requires s == p + t + q && AllSpace(p) && AllSpace(q) && IsTrimmed(t)
    ensures TrimSpace(s) == t
  {
    if t == [] {
      assert s == p + q;
      AllSpaceConcat(p, q);
      TrimSpaceOfAllSpace(s);
    } else {
      var r := TrimSpace(s);
      var p', q' := TrimSpaceSplits(s);
      MiddleOf(s, p, t, q);
      MiddleOf(s, p', r, q');
      NotAllSpace(s, |p|);
      TrimSpaceEmptyOnlyIfAllSpace(s);
      SamePrefixLength(s, p, t, q, p', r, q');
      SameSuffixLength(s, p, t, q, p', r, q');
    }
  }

  lemma MiddleOf(s: string, p: string, t: string, q: string)
    requires s == p + t + q
    ensures |p| + |t| + |q| == |s|
    ensures t == s[|p|..|s| - |q|]
    ensures forall i :: 0 <= i < |t| ==> s[|p| + i] == t[i]
  {
  }

  lemma NotAllSpace(s: string, i: nat)
    requires i < |s| && !IsSpace(s[i])
    ensures !AllSpace(s)
  {
  }

  lemma AllSpaceConcat(a: string, b: string)
    requires AllSpace(a) && AllSpace(b)
    ensures AllSpace(a + b)
  {
    forall i | 0 <= i < |a + b| ensures IsSpace((a + b)[i]) {
      if i < |a| { assert (a + b)[i] == a[i]; } else { assert (a + b)[i] == b[i - |a|]; }
    }
  }

  lemma TrimSpaceOfAllSpace(s: string)
    requires AllSpace(s)
    ensures TrimSpace(s) == []
  {
    assert SkipSpace(s, 0) == |s|;
  }

  lemma TrimSpaceEmptyOnlyIfAllSpace(s: string)
    ensures TrimSpace(s) == [] ==> AllSpace(s)
  {
    var p, q := TrimSpaceSplits(s);
    if TrimSpace(s) == [] {
      assert s == p + q;
      AllSpaceConcat(p, q);
    }
  }

  /** Trimming twice is trimming once. */
  lemma TrimSpaceIdempotent(s: string)
    ensures TrimSpace(TrimSpace(s)) == TrimSpace(s)
  {
    TrimSpaceOfTrimmed(TrimSpace(s));
  }

  /** A trimmed string is its own trim. */
  lemma TrimSpaceOfTrimmed(t: string)
    requires IsTrimmed(t)
    ensures TrimSpace(t) == t
  {
    assert t == [] + t + [];
    TrimSpaceCharacterized(t, [], t, []);
  }

  /** Trimming only removes characters. */
  lemma TrimSpaceWithin(s: string)
    ensures forall c :: c in TrimSpace(s) ==> c in s
  {
    var p, q := TrimSpaceSplits(s);
    var r := TrimSpace(s);
    MiddleOf(s, p, r, q);
    forall c | c in r ensures c in s {
      var i :| 0 <= i < |r| && r[i] == c;
      assert s[|p| + i] == c;
    }
  }

  /** `strings.ToLower` on one character, for ASCII letters. */
  function ToLowerChar(c: char): char {
    if 'A' <= c <= 'Z' then (c as int - 'A' as int + 'a' as int) as char else c
  }

  /**
    `strings.ToLower`, restricted to ASCII. The model only ever compares its
    result with ASCII strings of lower-case letters and digits, and no
    non-ASCII character lower-cases into one of those letters.
  */
  function ToLower(s: string): (r: string)
    ensures |r| == |s|
    ensures forall i :: 0 <= i < |s| ==> r[i] == ToLowerChar(s[i])
  {
    seq(|s|, i requires 0 <= i < |s| => ToLowerChar(s[i]))
  }

  /** Go's `a < b` on strings: lexicographic, a proper prefix comes first. */
  predicate LexLess(a: string, b: string) {
    if |a| == 0 then |b| > 0
    else if |b| == 0 then false
    else if a[0] != b[0] then a[0] < b[0]
    else LexLess(a[1..], b[1..])
  }

  /** Go's `a <= b` on strings. */
  predicate LexLessEq(a: string, b: string) {
    LexLess(a, b) || a == b
  }

  /** Exactly one of `a < b`, `a == b`, `b < a` holds. */
  lemma {:induction false} LexTrichotomy(a: string, b: string)
    ensures LexLess(a, b) || a == b || LexLess(b, a)
    ensures !(LexLess(a, b) && LexLess(b, a))
    ensures LexLess(a, b) ==> a != b
    decreases |a|
  {
    if |a| > 0 && |b| > 0 && a[0] == b[0] {
      LexTrichotomy(a[1..], b[1..]);
      if a[1..] == b[1..] {
        assert a == [a[0]] + a[1..] && b == [b[0]] + b[1..];
      }
    }
  }

  lemma {:induction false} LexTransitive(a: string, b: string, c: string)
    requires LexLess(a, b) && LexLess(b, c)
    ensures LexLess(a, c)
    decreases |a|
  {
    if |a| > 0 && a[0] == b[0] && b[0] == c[0] {
      LexTransitive(a[1..], b[1..], c[1..]);
    }
  }
}
