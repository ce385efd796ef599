/**
 * The JavaScript string primitives the ADR bookkeeping is built from:
 * ASCII case mapping, `split`/`join` on one character, `endsWith`,
 * `indexOf` with a start position and `replace` with a string pattern
 * (which replaces the first occurrence only).
 */
module Strings {

  predicate IsUpperAscii(c: char) { 'A' <= c <= 'Z' }

  predicate IsLowerAscii(c: char) { 'a' <= c <= 'z' }

  /** `toLowerCase` on one character; only ASCII letters have a case here. */
  function ToLowerChar(c: char): (r: char)
    ensures !IsUpperAscii(r)
    ensures IsUpperAscii(c) ==> IsLowerAscii(r) && r as int == c as int + 32
    ensures !IsUpperAscii(c) ==> r == c
  {
    if IsUpperAscii(c) then (c as int + 32) as char else c
  }

  /** `toUpperCase` on one character; only ASCII letters have a case here. */
  function ToUpperChar(c: char): (r: char)
    ensures !IsLowerAscii(r)
    ensures IsLowerAscii(c) ==> IsUpperAscii(r) && r as int == c as int - 32
    ensures !IsLowerAscii(c) ==> r == c
  {
    if IsLowerAscii(c) then (c as int - 32) as char else c
  }

  lemma CaseMapFacts(c: char)
    ensures ToUpperChar(ToLowerChar(c)) == ToUpperChar(c)
    ensures ToLowerChar(ToUpperChar(c)) == ToLowerChar(c)
    ensures ToUpperChar(ToUpperChar(c)) == ToUpperChar(c)
    ensures ToLowerChar(ToLowerChar(c)) == ToLowerChar(c)
    ensures ToLowerChar(c) == ' ' <==> c == ' '
    ensures ToUpperChar(c) == ' ' <==> c == ' '
  {
  }

  /** `String.prototype.toLowerCase` (ASCII). */
  function Lower(s: string): (r: string)
    ensures |r| == |s|
    ensures forall i :: 0 <= i < |s| ==> r[i] == ToLowerChar(s[i])
  {
    seq(|s|, i requires 0 <= i < |s| => ToLowerChar(s[i]))
  }

  predicate NoUpperAscii(s: string)
  {
    forall i :: 0 <= i < |s| ==> !IsUpperAscii(s[i])
  }

  /** Every character `c` of `s` replaced by `sub`: `replace(/c/g, sub)` for one character. */
  function ReplaceChar(s: string, c: char, sub: char): (r: string)
    ensures |r| == |s|
    ensures forall i :: 0 <= i < |s| ==> r[i] == (if s[i] == c then sub else s[i])
  {
    seq(|s|, i requires 0 <= i < |s| => if s[i] == c then sub else s[i])
  }

  predicate EndsWith(s: string, suffix: string)
  {
    |suffix| <= |s| && s[|s| - |suffix|..] == suffix
  }

  // ---------------------------------------------------------------------
  // split / join on a single separator character

  /**
   * `s.split(d)` for a one-character separator: the maximal pieces between
   * separators, always at least one (possibly empty) piece.
   */
  function Split(s: string, d: char): (parts: seq<string>)
    ensures |parts| >= 1
    ensures forall i :: 0 <= i < |parts| ==> d !in parts[i]
    ensures Join(parts, d) == s
    ensures parts[0] == s[..|parts[0]|]
    ensures |parts[0]| < |s| ==> s[|parts[0]|] == d
    decreases |s|
  {
    if |s| == 0 then [""]
    else
      var rest := Split(s[1..], d);
      if s[0] == d then
        SplitAtSeparator(s, d, rest);
        [""] + rest
      else
        SplitInsidePiece(s, d, rest);
        [[s[0]] + rest[0]] + rest[1..]
  }

  /** A separator in front closes an empty first piece. */
  lemma SplitAtSeparator(s: string, d: char, rest: seq<string>)
    requires |s| > 0 && s[0] == d
    requires |rest| >= 1 && Join(rest, d) == s[1..]
    requires forall i :: 0 <= i < |rest| ==> d !in rest[i]
    ensures var parts := [""] + rest;
      && (forall i :: 0 <= i < |parts| ==> d !in parts[i])
      && Join(parts, d) == s
  {
    var parts := [""] + rest;
    forall i | 0 <= i < |parts| ensures d !in parts[i] {
      if i > 0 { assert parts[i] == rest[i - 1]; }
    }
    JoinCons("", rest, d);
  }

  /** Any other character in front extends the first piece. */
  lemma SplitInsidePiece(s: string, d: char, rest: seq<string>)
    requires |s| > 0 && s[0] != d
    requires |rest| >= 1 && Join(rest, d) == s[1..]
    requires forall i :: 0 <= i < |rest| ==> d !in rest[i]
    requires rest[0] == s[1..][..|rest[0]|]
    requires |rest[0]| < |s| - 1 ==> s[1..][|rest[0]|] == d
    ensures var parts := [[s[0]] + rest[0]] + rest[1..];
      && (forall i :: 0 <= i < |parts| ==> d !in parts[i])
      && Join(parts, d) == s
      && parts[0] == s[..|parts[0]|]
      && (|parts[0]| < |s| ==> s[|parts[0]|] == d)
  {
    var first := [s[0]] + rest[0];
    var parts := [first] + rest[1..];
    forall i | 0 <= i < |parts| ensures d !in parts[i] {
      if i > 0 { assert parts[i] == rest[i]; }
    }
    JoinCons(rest[0], rest[1..], d);
    JoinCons(first, rest[1..], d);
    assert rest == [rest[0]] + rest[1..];
    assert s == [s[0]] + s[1..];
    assert s[..|first|] == [s[0]] + s[1..][..|rest[0]|];
  }

  /** `parts.join(d)`. */
  function Join(parts: seq<string>, d: char): string
  {
    if |parts| == 0 then ""
    else if |parts| == 1 then parts[0]
    else parts[0] + [d] + Join(parts[1..], d)
  }

  lemma JoinCons(a: string, rest: seq<string>, d: char)
    ensures Join([a] + rest, d) == if |rest| == 0 then a else a + [d] + Join(rest, d)
  {
    assert ([a] + rest)[1..] == rest;
  }

  /** The other half of the round trip: joining pieces free of the separator and splitting again gives the pieces back. */
  lemma {:induction false} SplitJoin(parts: seq<string>, d: char)
    requires |parts| >= 1
    requires forall i :: 0 <= i < |parts| ==> d !in parts[i]
    ensures Split(Join(parts, d), d) == parts
    decreases |parts|, |parts[0]|
  {
    if |parts[0]| == 0 {
      if |parts| > 1 {
        SplitJoin(parts[1..], d);
        SplitJoinAtSeparator(parts, d);
      }
    } else {
      var shorter := [parts[0][1..]] + parts[1..];
      assert d !in parts[0][1..];
      forall i | 0 <= i < |shorter| ensures d !in shorter[i] {
        if i > 0 { assert shorter[i] == parts[i]; }
      }
      SplitJoin(shorter, d);
      SplitJoinInsidePiece(parts, d);
    }
  }

  /** The step of `SplitJoin` for an empty first piece. */
  lemma SplitJoinAtSeparator(parts: seq<string>, d: char)
    requires |parts| > 1 && |parts[0]| == 0
    requires Split(Join(parts[1..], d), d) == parts[1..]
    ensures Split(Join(parts, d), d) == parts
  {
    var tail := parts[1..];
    var s := Join(parts, d);
    JoinCons("", tail, d);
    assert parts == [""] + tail;
    assert s == [d] + Join(tail, d);
    assert s[1..] == Join(tail, d);
    assert Split(s, d) == [""] + Split(s[1..], d);
  }

  /** The step of `SplitJoin` for a first piece that starts with a character other than the separator. */
  lemma SplitJoinInsidePiece(parts: seq<string>, d: char)
    requires |parts| >= 1 && |parts[0]| > 0 && d !in parts[0]
    requires Split(Join([parts[0][1..]] + parts[1..], d), d) == [parts[0][1..]] + parts[1..]
    ensures Split(Join(parts, d), d) == parts
  {
    var s := Join(parts, d);
    JoinLongerPiece(parts, d);
    assert s[0] != d by {
      assert parts[0][0] in parts[0];
    }
    SplitOther(s, d);
    PieceRegroup(parts);
  }

  lemma JoinLongerPiece(parts: seq<string>, d: char)
    requires |parts| >= 1 && |parts[0]| > 0
    ensures var s := Join(parts, d);
      |s| > 0 && s[0] == parts[0][0] && s[1..] == Join([parts[0][1..]] + parts[1..], d)
  {
    var p0 := parts[0];
    assert parts == [p0] + parts[1..];
    JoinCons(p0, parts[1..], d);
    JoinCons(p0[1..], parts[1..], d);
  }

  lemma SplitOther(s: string, d: char)
    requires |s| > 0 && s[0] != d
    ensures Split(s, d) == [[s[0]] + Split(s[1..], d)[0]] + Split(s[1..], d)[1..]
  {
  }

  lemma PieceRegroup(parts: seq<string>)
    requires |parts| >= 1 && |parts[0]| > 0
    ensures [[parts[0][0]] + parts[0][1..]] + parts[1..] == parts
  {
    assert [parts[0][0]] + parts[0][1..] == parts[0];
  }

  // ---------------------------------------------------------------------
  // indexOf / replace

  /** `pat` occurs in `s` starting at index `k`. */
  predicate Occurs(s: string, pat: string, k: int)
  {
    0 <= k && k + |pat| <= |s| && s[k..k + |pat|] == pat
  }

  predicate Contains(s: string, pat: string)
  {
    exists k :: 0 <= k <= |s| && Occurs(s, pat, k)
  }

  /** `pat` does not start anywhere in `s` before index `n`. */
  predicate NoOccurrenceBefore(s: string, pat: string, n: int)
  {
    forall k :: 0 <= k < n ==> !Occurs(s, pat, k)
  }

  /** The start position JavaScript's `indexOf` uses: `from` clamped into `[0, |s|]`. */
  function ClampPosition(s: string, from: int): nat
  {
    if from < 0 then 0 else if from > |s| then |s| else from
  }

  /**
   * `s.indexOf(pat, from)`: the first index at or after the clamped start
   * where `pat` occurs, or -1 when there is none.
   */
  function IndexOf(s: string, pat: string, from: int): (r: int)
    ensures r == -1 || (ClampPosition(s, from) <= r && Occurs(s, pat, r))
    ensures forall k :: ClampPosition(s, from) <= k && (r == -1 || k < r) ==> !Occurs(s, pat, k)
  {
    SearchFrom(s, pat, ClampPosition(s, from))
  }

  function SearchFrom(s: string, pat: string, k: nat): (r: int)
    ensures r == -1 || (k <= r && Occurs(s, pat, r))
    ensures forall j :: k <= j && (r == -1 || j < r) ==> !Occurs(s, pat, j)
    decreases |s| - k
  {
    if k + |pat| > |s| then -1
    else if s[k..k + |pat|] == pat then k
    else SearchFrom(s, pat, k + 1)
  }

  /** `s.replace(pat, rep)` with a string pattern: only the first occurrence is replaced. */
  function ReplaceFirst(s: string, pat: string, rep: string): (r: string)
    ensures !Contains(s, pat) ==> r == s
  {
    var i := IndexOf(s, pat, 0);
    if i == -1 then s else s[..i] + rep + s[i + |pat|..]
  }

  /**
   * The meaning of `ReplaceFirst`: when the pattern starts nowhere in `a`,
   * the occurrence right after `a` is the one replaced.
   */
  lemma ReplaceFirstAfter(a: string, pat: string, b: string, rep: string)
    requires NoOccurrenceBefore(a + pat + b, pat, |a|)
    ensures ReplaceFirst(a + pat + b, pat, rep) == a + rep + b
  {
    var s := a + pat + b;
    assert s[|a|..|a| + |pat|] == pat;
    assert Occurs(s, pat, |a|);
    var i := IndexOf(s, pat, 0);
    assert i == |a|;
    assert s[..i] == a;
    assert s[i + |pat|..] == b;
  }

  /** A pattern whose first character is absent from `a` cannot start inside `a`. */
  lemma NoStartWithoutFirstChar(s: string, pat: string, lo: int, hi: int)
    requires 0 <= lo <= hi <= |s| && |pat| > 0
    requires forall k :: lo <= k < hi ==> s[k] != pat[0]
    ensures forall k :: lo <= k < hi ==> !Occurs(s, pat, k)
  {
    forall k | lo <= k < hi ensures !Occurs(s, pat, k) {
      if k + |pat| <= |s| {
        assert s[k..k + |pat|][0] == s[k];
      }
    }
  }

  /**
   * A pattern that does not occur inside the segment `s[lo..hi]` and does
   * not contain the character at `hi` cannot start in `[lo, hi)`.
   */
  lemma NoStartInSegment(s: string, pat: string, lo: int, hi: int)
    requires 0 <= lo <= hi < |s|
    requires Avoids(s[lo..hi], pat)
    requires s[hi] !in pat
    ensures forall k :: lo <= k < hi ==> !Occurs(s, pat, k)
  {
    forall k | lo <= k < hi ensures !Occurs(s, pat, k) {
      if k + |pat| <= hi {
        var seg := s[lo..hi];
        SliceOfSlice(s, lo, hi, k, |pat|);
        assert !Occurs(seg, pat, k - lo);
      } else if k + |pat| <= |s| {
        assert s[k..k + |pat|][hi - k] == s[hi];
      }
    }
  }

  lemma SliceOfSlice(s: string, lo: int, hi: int, k: int, n: int)
    requires 0 <= lo <= k && 0 <= n && k + n <= hi <= |s|
    ensures s[lo..hi][k - lo..k - lo + n] == s[k..k + n]
  {
    var a := s[lo..hi][k - lo..k - lo + n];
    var b := s[k..k + n];
    forall j | 0 <= j < n ensures a[j] == b[j] {
      assert a[j] == s[lo..hi][k - lo + j];
    }
  }

  /** An occurrence implies `indexOf` from 0 finds one no later. */
  lemma OccursFound(s: string, pat: string, k: int)
    requires Occurs(s, pat, k)
    ensures 0 <= IndexOf(s, pat, 0) <= k
  {
  }

  /** `pat` occurs nowhere in `s`. */
  predicate Avoids(s: string, pat: string)
  {
    forall k :: 0 <= k <= |s| ==> !Occurs(s, pat, k)
  }

  /** A pattern cannot start inside a piece that lacks the pattern's first character. */
  lemma NoStartInFreePiece(x: string, y: string, z: string, pat: string)
    requires |pat| > 0 && pat[0] !in y
    ensures forall k :: |x| <= k < |x| + |y| ==> !Occurs(x + y + z, pat, k)
  {
    var s := x + y + z;
    forall k | |x| <= k < |x| + |y| ensures !Occurs(s, pat, k) {
      assert s[k] == y[k - |x|];
      if k + |pat| <= |s| {
        assert s[k..k + |pat|][0] == s[k];
      }
    }
  }

  /**
   * A pattern cannot start inside a piece it does not occur in when the
   * character right after the piece is not in the pattern.
   */
  lemma NoStartInAvoidingPiece(x: string, y: string, z: string, pat: string)
    requires Avoids(y, pat) && |z| > 0 && z[0] !in pat
    ensures forall k :: |x| <= k < |x| + |y| ==> !Occurs(x + y + z, pat, k)
  {
    var s := x + y + z;
    assert s[|x| + |y|] == z[0];
    assert s[|x|..|x| + |y|] == y;
    NoStartInSegment(s, pat, |x|, |x| + |y|);
  }

  /** A pattern cannot start inside a leading piece that lacks its first character. */
  lemma StartFree(a: string, tail: string, pat: string)
    requires |pat| > 0 && pat[0] !in a
    ensures NoOccurrenceBefore(a + tail, pat, |a|)
  {
    NoStartInFreePiece([], a, tail, pat);
    assert [] + a + tail == a + tail;
  }

  /**
   * Extends a pattern-free prefix past a piece the pattern does not occur in,
   * followed by a non-empty piece that shares no character with the pattern's
   * start and whose first character is foreign to the pattern.
   */
  lemma ExtendPastAvoiding(x: string, b: string, c: string, tail: string, pat: string)
    requires |pat| > 0
    requires NoOccurrenceBefore(x + b + c + tail, pat, |x|)
    requires Avoids(b, pat) && |c| > 0 && c[0] !in pat && pat[0] !in c
    ensures NoOccurrenceBefore(x + b + c + tail, pat, |x| + |b| + |c|)
  {
    var s := x + b + c + tail;
    assert x + b + (c + tail) == s;
    NoStartInAvoidingPiece(x, b, c + tail, pat);
    NoStartInFreePiece(x + b, c, tail, pat);
  }

  /** A string without upper-case letters avoids every pattern that has one. */
  lemma LowerCaseAvoids(s: string, pat: string, m: int)
    requires NoUpperAscii(s) && 0 <= m < |pat| && IsUpperAscii(pat[m])
    ensures Avoids(s, pat)
  {
    forall k | 0 <= k <= |s| ensures !Occurs(s, pat, k) {
      if k + |pat| <= |s| {
        assert s[k..k + |pat|][m] == s[k + m];
      }
    }
  }
}
