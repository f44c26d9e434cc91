/**
 * The handful of java.lang.String operations the tracker relies on:
 * trim/strip, lower-casing, splitting on one character and substring search.
 * Characters are restricted to their ASCII behaviour (see README).
 */
module JavaStrings {

  /** Which characters a trimming operation removes from both ends of a string. */
  datatype SpaceKind =
    | TrimSpace   // String.trim: every character at or below U+0020
    | StripSpace  // String.strip: Character.isWhitespace, ASCII part only

  predicate IsSpace(kind: SpaceKind, c: char)
  {
    match kind
    case TrimSpace => c <= ' '
    case StripSpace => c == ' ' || ('\t' <= c <= '\r') || ('\U{1C}' <= c <= '\U{1F}')
  }

  /** Every character either operation treats as space lies at or below U+0020. */
  lemma SpaceIsLow(kind: SpaceKind, c: char)
    ensures IsSpace(kind, c) ==> c <= ' '
  {
  }

  /** Drops the longest prefix made of `kind` spaces. */
  function TrimLeading(kind: SpaceKind, s: string): (r: string)
    ensures |r| <= |s| && r == s[|s| - |r|..]
    ensures forall k :: 0 <= k < |s| - |r| ==> IsSpace(kind, s[k])
    ensures r != [] ==> !IsSpace(kind, r[0])
    decreases |s|
  {
    if s != [] && IsSpace(kind, s[0]) then TrimLeading(kind, s[1..]) else s
  }

  /** Drops the longest suffix made of `kind` spaces. */
  function TrimTrailing(kind: SpaceKind, s: string): (r: string)
    ensures |r| <= |s| && r == s[..|r|]
    ensures forall k :: |r| <= k < |s| ==> IsSpace(kind, s[k])
    ensures r != [] ==> !IsSpace(kind, r[|r| - 1])
    decreases |s|
  {
    if s != [] && IsSpace(kind, s[|s| - 1]) then TrimTrailing(kind, s[..|s| - 1]) else s
  }

  /** `s` is `r` with a run of `kind` spaces before it (exactly `a` of them) and a run after it. */
  ghost predicate PaddedBy(kind: SpaceKind, s: string, r: string, a: nat)
  {
    && a + |r| <= |s|
    && s[a..a + |r|] == r
    && (forall k :: 0 <= k < a ==> IsSpace(kind, s[k]))
    && (forall k :: a + |r| <= k < |s| ==> IsSpace(kind, s[k]))
  }

  /** How many characters trimming removes from the front of `s`. */
  function LeadingSpaces(kind: SpaceKind, s: string): nat
  {
    |s| - |TrimLeading(kind, s)|
  }

  /** String.trim (kind TrimSpace) and String.strip (kind StripSpace). */
  function Trim(kind: SpaceKind, s: string): (r: string)
    ensures PaddedBy(kind, s, r, LeadingSpaces(kind, s))
    ensures r != [] ==> !IsSpace(kind, r[0]) && !IsSpace(kind, r[|r| - 1])
  {
    var t := TrimLeading(kind, s);
    var r := TrimTrailing(kind, t);
    assert s[|s| - |t|..][..|r|] == s[|s| - |t|..|s| - |t| + |r|];
    r
  }

  /** Trimming is idempotent. */
  lemma TrimTwice(kind: SpaceKind, s: string)
    ensures Trim(kind, Trim(kind, s)) == Trim(kind, s)
  {
    var r := Trim(kind, s);
    assert TrimLeading(kind, r) == r;
    assert TrimTrailing(kind, r) == r;
  }

  /** A string with no space at either end is its own trim. */
  lemma TrimOfTrimmed(kind: SpaceKind, s: string)
    requires s != [] ==> !IsSpace(kind, s[0]) && !IsSpace(kind, s[|s| - 1])
    ensures Trim(kind, s) == s
  {
    assert TrimLeading(kind, s) == s;
    assert TrimTrailing(kind, s) == s;
  }

  /** Character.toLowerCase restricted to ASCII: only 'A'..'Z' change. */
  function LowerChar(c: char): (d: char)
  {
    if 'A' <= c <= 'Z' then (c as int - 'A' as int + 'a' as int) as char else c
  }

  /** String.toLowerCase(Locale.ROOT), character by character. */
  function Lower(s: string): string
  {
    seq(|s|, k requires 0 <= k < |s| => LowerChar(s[k]))
  }

  /** Lower-casing commutes with taking a slice. */
  lemma LowerSlice(s: string, a: nat, b: nat)
    requires a <= b <= |s|
    ensures Lower(s[a..b]) == Lower(s)[a..b]
  {
  }

  /** Lower-casing distributes over concatenation. */
  lemma LowerAppend(x: string, y: string)
    ensures Lower(x + y) == Lower(x) + Lower(y)
  {
    assert forall k :: 0 <= k < |x| ==> (x + y)[k] == x[k];
    assert forall k :: |x| <= k < |x| + |y| ==> (x + y)[k] == y[k - |x|];
  }

  /** Lower-casing is idempotent. */
  lemma LowerTwice(s: string)
    ensures Lower(Lower(s)) == Lower(s)
  {
  }

  /** First position of `c` in `s`, or |s| when it does not occur. */
  function IndexOf(s: string, c: char): (i: nat)
    ensures i <= |s|
    ensures i < |s| ==> s[i] == c
    ensures forall k :: 0 <= k < i ==> s[k] != c
  {
    if s == [] then 0 else if s[0] == c then 0 else 1 + IndexOf(s[1..], c)
  }

  /**
   * String.split on a single character: the maximal runs of `s` between
   * occurrences of `sep`, empty runs included.
   */
  function Split(s: string, sep: char): (parts: seq<string>)
    ensures |parts| >= 1
    ensures forall k :: 0 <= k < |parts| ==> sep !in parts[k]
    decreases |s|
  {
    var i := IndexOf(s, sep);
    if i == |s| then [s] else [s[..i]] + Split(s[i + 1..], sep)
  }

  /** Glues `parts` back together with `sep` between neighbours. */
  function Join(parts: seq<string>, sep: char): string
  {
    if parts == [] then []
    else if |parts| == 1 then parts[0]
    else parts[0] + [sep] + Join(parts[1..], sep)
  }

  /** Splitting loses nothing: joining the fragments gives the string back. */
  lemma {:induction false} JoinSplit(s: string, sep: char)
    ensures Join(Split(s, sep), sep) == s
    decreases |s|
  {
    var i := IndexOf(s, sep);
    if i < |s| {
      var rest := s[i + 1..];
      JoinSplit(rest, sep);
      var parts := Split(s, sep);
      assert parts == [s[..i]] + Split(rest, sep);
      assert parts[1..] == Split(rest, sep);
      SplitAround(s, i);
    }
  }

  /** A slice of a slice is a slice of the original. */
  lemma SliceOfSlice(s: string, a: nat, b: nat, c: nat, d: nat)
    requires a <= b <= |s| && c <= d <= b - a
    ensures s[a..b][c..d] == s[a + c..a + d]
  {
    assert forall k :: 0 <= k < d - c ==> s[a..b][c..d][k] == s[a + c + k];
  }

  /** A string is what lies before position `i`, the character there, and what follows. */
  lemma SplitAround(s: string, i: nat)
    requires i < |s|
    ensures s == s[..i] + [s[i]] + s[i + 1..]
  {
  }

  /** `p` occurs in `s` starting at position `i`. */
  predicate MatchAt(s: string, p: string, i: nat)
  {
    i + |p| <= |s| && s[i..i + |p|] == p
  }

  /** Every character an occurrence covers is a character of the pattern. */
  lemma MatchedChar(s: string, p: string, i: nat, k: nat)
    requires MatchAt(s, p, i) && k < |p|
    ensures s[i + k] == p[k]
  {
    assert s[i..i + |p|][k] == s[i + k];
  }

  /** String.contains. */
  predicate Contains(s: string, p: string)
  {
    exists i | 0 <= i <= |s| - |p| :: MatchAt(s, p, i)
  }

  /** An occurrence inside a window of a string is an occurrence in the string. */
  lemma ContainsFromWindow(t: string, p: string, a: nat, b: nat)
    requires a <= b <= |t|
    ensures Contains(t[a..b], p) ==> Contains(t, p)
  {
    if Contains(t[a..b], p) {
      var j :| 0 <= j <= |t[a..b]| - |p| && MatchAt(t[a..b], p, j);
      SliceOfSlice(t, a, b, j, j + |p|);
      assert MatchAt(t, p, a + j);
    }
  }

  /** No character of `t` at a position in [lo, hi) is a character of `p`. */
  predicate Avoids(t: string, p: string, lo: nat, hi: nat)
  {
    forall k, j :: lo <= k < hi && k < |t| && 0 <= j < |p| ==> t[k] != p[j]
  }

  /**
   * Cutting characters that do not occur in a non-empty pattern off both ends
   * of a string neither creates nor destroys an occurrence of the pattern.
   */
  lemma ContainsInWindow(t: string, p: string, a: nat, b: nat)
    requires a <= b <= |t| && p != []
    requires Avoids(t, p, 0, a) && Avoids(t, p, b, |t|)
    ensures Contains(t[a..b], p) <==> Contains(t, p)
  {
    ContainsFromWindow(t, p, a, b);
    if Contains(t, p) {
      var i :| 0 <= i <= |t| - |p| && MatchAt(t, p, i);
      var last := |p| - 1;
      MatchedChar(t, p, i, 0);
      MatchedChar(t, p, i, last);
      assert a <= i;
      assert i + last < b;
      SliceOfSlice(t, a, b, i - a, i - a + |p|);
      assert MatchAt(t[a..b], p, i - a);
    }
  }

  /** An occurrence in `x` is an occurrence in `x + y`. */
  lemma ContainsInPrefix(x: string, y: string, p: string)
    ensures Contains(x, p) ==> Contains(x + y, p)
  {
    if Contains(x, p) {
      var j :| 0 <= j <= |x| - |p| && MatchAt(x, p, j);
      assert (x + y)[j..j + |p|] == x[j..j + |p|];
      assert MatchAt(x + y, p, j);
    }
  }

  /** An occurrence in `y` is an occurrence in `x + y`. */
  lemma ContainsInSuffix(x: string, y: string, p: string)
    ensures Contains(y, p) ==> Contains(x + y, p)
  {
    if Contains(y, p) {
      var t := x + y;
      var j :| 0 <= j <= |y| - |p| && MatchAt(y, p, j);
      assert y == t[|x|..];
      SliceOfSlice(t, |x|, |t|, j, j + |p|);
      assert MatchAt(t, p, |x| + j);
    }
  }

  /** An occurrence in `x + [c] + y` of a pattern that lacks `c` is an occurrence in `x` or in `y`. */
  lemma ContainsSplitsAt(x: string, c: char, y: string, p: string)
    requires forall j :: 0 <= j < |p| ==> p[j] != c
    ensures Contains(x + [c] + y, p) ==> Contains(x, p) || Contains(y, p)
  {
    var t := x + [c] + y;
    if Contains(t, p) {
      var i :| 0 <= i <= |t| - |p| && MatchAt(t, p, i);
      if i + |p| <= |x| {
        assert x[i..i + |p|] == t[i..i + |p|];
        assert MatchAt(x, p, i);
      } else if i > |x| {
        assert y == t[|x| + 1..];
        SliceOfSlice(t, |x| + 1, |t|, i - |x| - 1, i - |x| - 1 + |p|);
        assert MatchAt(y, p, i - |x| - 1);
      } else {
        MatchedChar(t, p, i, |x| - i);
        assert false;
      }
    }
  }

  /** An occurrence of a pattern that lacks `c` lies wholly on one side of a `c`. */
  lemma ContainsAcrossSeparator(x: string, c: char, y: string, p: string)
    requires forall j :: 0 <= j < |p| ==> p[j] != c
    ensures Contains(x + [c] + y, p) <==> Contains(x, p) || Contains(y, p)
  {
    ContainsInPrefix(x, [c] + y, p);
    ContainsInSuffix(x + [c], y, p);
    ContainsSplitsAt(x, c, y, p);
    assert x + [c] + y == x + ([c] + y);
  }

  /** A space, lower-cased, is no character of a pattern made of characters above U+0020. */
  lemma LowSpaceNotInPattern(kind: SpaceKind, c: char, p: string)
    requires IsSpace(kind, c)
    requires forall j :: 0 <= j < |p| ==> p[j] > ' '
    ensures forall j :: 0 <= j < |p| ==> LowerChar(c) != p[j]
  {
    SpaceIsLow(kind, c);
  }

  /**
   * Cutting space padding off a string neither creates nor destroys an
   * occurrence, in its lower-cased form, of a pattern made of characters
   * above U+0020.
   */
  lemma PaddedContains(kind: SpaceKind, s: string, r: string, a: nat, p: string)
    requires PaddedBy(kind, s, r, a)
    requires p != []
    requires forall j :: 0 <= j < |p| ==> p[j] > ' '
    ensures Contains(Lower(r), p) <==> Contains(Lower(s), p)
  {
    var t := Lower(s);
    var b := a + |r|;
    LowerSlice(s, a, b);
    forall k, j | (0 <= k < a || b <= k < |t|) && 0 <= j < |p|
      ensures t[k] != p[j]
    {
      LowSpaceNotInPattern(kind, s[k], p);
    }
    ContainsInWindow(t, p, a, b);
  }

  /**
   * Trimming and lower-casing commute with the search for a pattern made of
   * characters above U+0020: the trimmed-away ends cannot hold any part of it.
   */
  lemma LowerTrimContains(kind: SpaceKind, s: string, p: string)
    requires p != []
    requires forall j :: 0 <= j < |p| ==> p[j] > ' '
    ensures Contains(Lower(Trim(kind, s)), p) <==> Contains(Lower(s), p)
  {
    PaddedContains(kind, s, Trim(kind, s), LeadingSpaces(kind, s), p);
  }
}
