/** The string operations the handlers rely on: Python's `str.strip()` and the
    substring test behind SQLite's `LIKE '%text%'`, which ignores the case of
    ASCII letters only. */
module Text {

  /** Python's `str.isspace` for one character: the ASCII controls TAB to CR,
      the four separators 0x1C to 0x1F, the space, and the Unicode spaces and
      line/paragraph separators. */
  predicate IsSpace(c: char) {
    || c == ' '
    || ('\t' <= c <= '\r')
    || ('\U{1c}' <= c <= '\U{1f}')
    || c == '\U{85}' || c == '\U{a0}' || c == '\U{1680}'
    || ('\U{2000}' <= c <= '\U{200a}')
    || c == '\U{2028}' || c == '\U{2029}' || c == '\U{202f}' || c == '\U{205f}' || c == '\U{3000}'
  }

  ghost predicate AllSpace(s: string) {
    forall i :: 0 <= i < |s| ==> IsSpace(s[i])
  }

  /** Neither end of `s` is whitespace: the shape of everything `Strip` returns. */
  ghost predicate Trimmed(s: string) {
    s == [] || (!IsSpace(s[0]) && !IsSpace(s[|s| - 1]))
  }

  /** How many whitespace characters `s` starts with. */
  function LeadingSpace(s: string): (n: nat)
    ensures n <= |s| && AllSpace(s[..n])
    ensures n < |s| ==> !IsSpace(s[n])
  {
    if |s| > 0 && IsSpace(s[0]) then
      var m := LeadingSpace(s[1..]);
      assert s[..1 + m] == [s[0]] + s[1..][..m];
      1 + m
    else 0
  }

  /** The length `s` keeps once its trailing whitespace is cut off. */
  function TrailingCut(s: string): (n: nat)
    ensures n <= |s| && AllSpace(s[n..])
    ensures n > 0 ==> !IsSpace(s[n - 1])
  {
    if |s| > 0 && IsSpace(s[|s| - 1]) then
      var m := TrailingCut(s[..|s| - 1]);
      assert s[m..] == s[..|s| - 1][m..] + [s[|s| - 1]];
      m
    else |s|
  }

  /** Python's `str.strip()`: `s` without its leading and trailing whitespace. */
  function Strip(s: string): (r: string)
    ensures Trimmed(r)
    ensures |r| <= |s|
  {
    var i := LeadingSpace(s);
    var t := s[i..];
    var n := TrailingCut(t);
    StripEnds(s, i, t, n);
    t[..n]
  }

  /** What `Strip` removes: the leading whitespace run, and after the kept
      slice only whitespace; nothing is kept exactly when `s` is all
      whitespace. */
  lemma StripMeaning(s: string)
    ensures var i := LeadingSpace(s); var r := Strip(s);
      i + |r| <= |s| && r == s[i..i + |r|] && AllSpace(s[i + |r|..])
    ensures Strip(s) == [] <==> AllSpace(s)
  {
    var i := LeadingSpace(s);
    var t := s[i..];
    var n := TrailingCut(t);
    assert Strip(s) == t[..n];
    StripSlice(s, i, t, n);
    StripEmpty(s, i, t, n);
  }

  /** The kept part of the tail is a slice of `s` followed only by whitespace. */
  lemma StripSlice(s: string, i: nat, t: string, n: nat)
    requires i <= |s| && t == s[i..] && n <= |t| && AllSpace(t[n..])
    ensures i + n <= |s| && t[..n] == s[i..i + n] && AllSpace(s[i + n..])
  {
    assert s[i + n..] == t[n..];
  }

  /** Neither end of the kept part is whitespace. */
  lemma StripEnds(s: string, i: nat, t: string, n: nat)
    requires i == LeadingSpace(s) && t == s[i..] && n == TrailingCut(t)
    ensures Trimmed(t[..n])
  {
    if n > 0 {
      assert t[..n][0] == t[0] == s[i];
      assert t[..n][n - 1] == t[n - 1];
    }
  }

  /** Nothing is kept exactly when `s` is all whitespace. */
  lemma StripEmpty(s: string, i: nat, t: string, n: nat)
    requires i == LeadingSpace(s) && t == s[i..] && n == TrailingCut(t)
    ensures n == 0 <==> AllSpace(s)
  {
    if n == 0 {
      assert s == s[..i];
    } else {
      assert t[0] == s[i];
    }
  }

  /** A string with no whitespace at either end is its own strip. */
  lemma StripTrimmed(s: string)
    requires Trimmed(s)
    ensures Strip(s) == s
  {
    if s != [] {
      assert LeadingSpace(s) == 0;
      assert TrailingCut(s) == |s|;
      assert s[0..] == s;
    }
  }

  /** Stripping twice is stripping once. */
  lemma StripIdempotent(s: string)
    ensures Strip(Strip(s)) == Strip(s)
  {
    StripTrimmed(Strip(s));
  }

  /** SQLite's `lower()` and `LIKE` fold ASCII letters only. */
  function LowerChar(c: char): char {
    if 'A' <= c <= 'Z' then (c as int + 32) as char else c
  }

  function Lower(s: string): (r: string)
    ensures |r| == |s|
  {
    seq(|s|, i requires 0 <= i < |s| => LowerChar(s[i]))
  }

  predicate StartsWith(s: string, p: string) {
    |p| <= |s| && s[..|p|] == p
  }

  /** `p` occurs in `s` starting at position `i`. */
  ghost predicate OccursAt(s: string, p: string, i: int) {
    0 <= i && i + |p| <= |s| && s[i..i + |p|] == p
  }

  /** `s LIKE '%p%'` with case taken literally. */
  predicate Contains(s: string, p: string)
    decreases |s|
  {
    StartsWith(s, p) || (|s| > 0 && Contains(s[1..], p))
  }

  /** `Contains` finds `p` exactly when `p` occurs somewhere in `s`. */
  lemma {:induction false} ContainsIff(s: string, p: string)
    ensures Contains(s, p) <==> exists i :: OccursAt(s, p, i)
    decreases |s|
  {
    if StartsWith(s, p) {
      assert OccursAt(s, p, 0);
    } else if |s| == 0 {
    } else {
      ContainsIff(s[1..], p);
      if exists i :: OccursAt(s[1..], p, i) {
        var i :| OccursAt(s[1..], p, i);
        assert s[i + 1..i + 1 + |p|] == s[1..][i..i + |p|];
        assert OccursAt(s, p, i + 1);
      }
      if exists i :: OccursAt(s, p, i) {
        var i :| OccursAt(s, p, i);
        assert i != 0;
        assert s[1..][i - 1..i - 1 + |p|] == s[i..i + |p|];
        assert OccursAt(s[1..], p, i - 1);
      }
    }
  }

  /** The substring test of `col LIKE '%p%'` (and SQLAlchemy's `ilike`) on SQLite. */
  predicate Like(s: string, p: string): (r: bool)
    ensures r <==> exists i :: OccursAt(Lower(s), Lower(p), i)
  {
    ContainsIff(Lower(s), Lower(p));
    Contains(Lower(s), Lower(p))
  }

  /** Lower-casing is idempotent. */
  lemma LowerTwice(s: string)
    ensures Lower(Lower(s)) == Lower(s)
  {
    assert forall i :: 0 <= i < |s| ==> Lower(Lower(s))[i] == Lower(s)[i];
  }

  /** `LIKE` ignores the case of ASCII letters on both sides. */
  lemma LikeIgnoresCase(s: string, p: string)
    ensures Like(s, p) <==> Like(Lower(s), Lower(p))
  {
    LowerTwice(s);
    LowerTwice(p);
  }

  /** A pattern that occurs literally also matches under `LIKE`. */
  lemma LikeOfOccurrence(s: string, p: string, i: int)
    requires OccursAt(s, p, i)
    ensures Like(s, p)
  {
    assert Lower(s)[i..i + |p|] == Lower(p);
    assert OccursAt(Lower(s), Lower(p), i);
    ContainsIff(Lower(s), Lower(p));
  }
}
