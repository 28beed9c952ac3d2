/**
 The two ECMAScript string operations the URL configuration is parsed with:
 `String.prototype.trim` and `String.prototype.split` on a one-character separator.
 Strings are sequences of code points; none of the characters involved lies outside
 the Basic Multilingual Plane, so UTF-16 code units and code points agree here.
 */
module JsString {

  /** WhiteSpace and LineTerminator code points of ECMAScript: what `trim` removes. */
  const WhiteSpace: set<char> := {
    '\t', '\n', '\U{000B}', '\U{000C}', '\r', ' ', '\U{00A0}', '\U{1680}',
    '\U{2000}', '\U{2001}', '\U{2002}', '\U{2003}', '\U{2004}', '\U{2005}',
    '\U{2006}', '\U{2007}', '\U{2008}', '\U{2009}', '\U{200A}',
    '\U{2028}', '\U{2029}', '\U{202F}', '\U{205F}', '\U{3000}', '\U{FEFF}'
  }

  predicate IsWhiteSpace(c: char) {
    c in WhiteSpace
  }

  /** Every character of `s` at an index in `[lo, hi)` is white space. */
  predicate WhiteSpaceBetween(s: string, lo: int, hi: int)
    requires 0 <= lo <= hi <= |s|
  {
    forall k :: lo <= k < hi ==> IsWhiteSpace(s[k])
  }

  predicate AllWhiteSpace(s: string) {
    WhiteSpaceBetween(s, 0, |s|)
  }

  /** The first index at or after `i` that does not hold white space, or `|s|`. */
  function SkipForward(s: string, i: nat): (j: nat)
    requires i <= |s|
    ensures i <= j <= |s|
    ensures WhiteSpaceBetween(s, i, j)
    ensures j == |s| || !IsWhiteSpace(s[j])
    decreases |s| - i
  {
    if i < |s| && IsWhiteSpace(s[i]) then SkipForward(s, i + 1) else i
  }

  /** The index just past the last character in `[lo, j)` that is not white space, or `lo`. */
  function SkipBackward(s: string, lo: nat, j: nat): (i: nat)
    requires lo <= j <= |s|
    ensures lo <= i <= j
    ensures WhiteSpaceBetween(s, i, j)
    ensures i == lo || !IsWhiteSpace(s[i - 1])
  {
    if lo < j && IsWhiteSpace(s[j - 1]) then SkipBackward(s, lo, j - 1) else j
  }

  /** `s.trim()`: the infix of `s` left once white space is removed from both ends. */
  function Trim(s: string): (r: string)
    ensures exists i, j ::
              && 0 <= i <= j <= |s| && r == s[i..j]
              && WhiteSpaceBetween(s, 0, i) && WhiteSpaceBetween(s, j, |s|)
    ensures r == [] || (!IsWhiteSpace(r[0]) && !IsWhiteSpace(r[|r| - 1]))
  {
    var i := SkipForward(s, 0);
    var j := SkipBackward(s, i, |s|);
    assert i < j ==> s[i..j][0] == s[i] && s[i..j][j - i - 1] == s[j - 1];
    s[i..j]
  }

  /** Trimming yields the empty string exactly when the input is all white space. */
  lemma TrimEmptyIff(s: string)
    ensures Trim(s) == [] <==> AllWhiteSpace(s)
  {
    var i := SkipForward(s, 0);
    var j := SkipBackward(s, i, |s|);
    assert Trim(s) == s[i..j];
    if AllWhiteSpace(s) {
      assert i == |s|;
    }
  }

  /** Trimming is idempotent. */
  lemma TrimIdempotent(s: string)
    ensures Trim(Trim(s)) == Trim(s)
  {
    var r := Trim(s);
    assert SkipForward(r, 0) == 0;
    assert SkipBackward(r, 0, |r|) == |r|;
    assert r[0..|r|] == r;
  }

  /** Every character of the trimmed string comes from the original. */
  lemma TrimKeepsCharacters(s: string, c: char)
    requires c in Trim(s)
    ensures c in s
  {
    var i := SkipForward(s, 0);
    var j := SkipBackward(s, i, |s|);
    var r := Trim(s);
    assert r == s[i..j];
    var k :| 0 <= k < |r| && r[k] == c;
    assert s[i + k] == c;
  }

  /** `parts.join(sep)`; defined for the non-empty arrays that `split` returns. */
  function Join(parts: seq<string>, sep: char): (s: string)
    requires |parts| >= 1
    ensures |parts| == 1 ==> s == parts[0]
    ensures |parts| > 1 ==> |parts[0]| < |s| && s[..|parts[0]|] == parts[0] && s[|parts[0]|] == sep
  {
    if |parts| == 1 then parts[0] else parts[0] + [sep] + Join(parts[1..], sep)
  }

  /**
   `s.split(sep)` for a one-character separator: the pieces between separators, in order.
   It is never empty (`"".split(",")` is `[""]`) and no piece holds the separator;
   JoinSplit and SplitJoin show that it is the inverse of `join`.
   */
  function Split(s: string, sep: char): (parts: seq<string>)
    ensures |parts| >= 1
    ensures forall p :: p in parts ==> sep !in p
  {
    if s == [] then [[]]
    else
      var rest := Split(s[1..], sep);
      if s[0] == sep then [[]] + rest
      else [[s[0]] + rest[0]] + rest[1..]
  }

  /** Joining two non-empty lists of pieces puts one separator between their joins. */
  lemma {:induction false} JoinConcat(p: seq<string>, q: seq<string>, sep: char)
    requires |p| >= 1 && |q| >= 1
    ensures Join(p + q, sep) == Join(p, sep) + [sep] + Join(q, sep)
    decreases |p|
  {
    assert (p + q)[0] == p[0];
    if |p| == 1 {
      assert (p + q)[1..] == q;
    } else {
      assert (p + q)[1..] == p[1..] + q;
      JoinConcat(p[1..], q, sep);
    }
  }

  /** Joining the pieces of a split with the separator gives back the string. */
  lemma {:induction false} JoinSplit(s: string, sep: char)
    ensures Join(Split(s, sep), sep) == s
    decreases |s|
  {
    if sep in s {
      var i :| 0 <= i < |s| && s[i] == sep;
      var a, b := s[..i], s[i + 1..];
      assert s == a + [sep] + b;
      SplitConcat(a, b, sep);
      JoinConcat(Split(a, sep), Split(b, sep), sep);
      JoinSplit(a, sep);
      JoinSplit(b, sep);
    } else {
      SplitWithoutSeparator(s, sep);
    }
  }

  /** A separator between `a` and `b` ends the last piece of `a` and starts the first of `b`. */
  lemma {:induction false} SplitConcat(a: string, b: string, sep: char)
    ensures Split(a + [sep] + b, sep) == Split(a, sep) + Split(b, sep)
    decreases |a|
  {
    var s := a + [sep] + b;
    if a == [] {
      assert s[1..] == b;
    } else {
      var tail, right := Split(a[1..], sep), Split(b, sep);
      assert Split(s[1..], sep) == tail + right by {
        assert s[1..] == a[1..] + [sep] + b;
        SplitConcat(a[1..], b, sep);
      }
      if a[0] == sep {
        assert Split(s, sep) == [[]] + tail + right;
      } else {
        assert Split(s, sep) == [[a[0]] + tail[0]] + tail[1..] + right;
      }
    }
  }

  /** A string without the separator is a single piece. */
  lemma {:induction false} SplitWithoutSeparator(s: string, sep: char)
    requires sep !in s
    ensures Split(s, sep) == [s]
    decreases |s|
  {
    if s != [] {
      SplitWithoutSeparator(s[1..], sep);
      assert Split(s, sep) == [[s[0]] + s[1..]];
      assert [s[0]] + s[1..] == s;
    }
  }

  /**
   `split` inverts `join`: pieces free of the separator are recovered exactly from
   their join. With the contract of Split this determines Split completely.
   */
  lemma {:induction false} SplitJoin(parts: seq<string>, sep: char)
    requires |parts| >= 1
    requires forall p :: p in parts ==> sep !in p
    ensures Split(Join(parts, sep), sep) == parts
    decreases |parts|
  {
    if |parts| == 1 {
      SplitWithoutSeparator(parts[0], sep);
    } else {
      SplitConcat(parts[0], Join(parts[1..], sep), sep);
      SplitWithoutSeparator(parts[0], sep);
      SplitJoin(parts[1..], sep);
      assert parts == [parts[0]] + parts[1..];
    }
  }
}
