/**
 * Title-casing and kebab-casing of an ADR name (src/index.js:44-50, 117).
 */
module TextUtils {
  import opened Strings

  // ---------------------------------------------------------------------
  // toTitleCase

  function Capitalize(word: string): string
  {
    if |word| == 0 then "" else [ToUpperChar(word[0])] + word[1..]
  }

  function CapitalizeAll(words: seq<string>): (r: seq<string>)
    ensures |r| == |words|
    ensures forall i :: 0 <= i < |words| ==> r[i] == Capitalize(words[i])
  {
    seq(|words|, i requires 0 <= i < |words| => Capitalize(words[i]))
  }

  /** Position `i` of `s` starts a space-separated token. */
  predicate StartsToken(s: string, i: int)
    requires 0 <= i < |s|
  {
    i == 0 || s[i - 1] == ' '
  }

  /** What title-casing puts at position `i`: upper case at a token start, lower case elsewhere. */
  function TitleChar(s: string, i: int): char
    requires 0 <= i < |s|
  {
    if StartsToken(s, i) then ToUpperChar(s[i]) else ToLowerChar(s[i])
  }

  /**
   * `toTitleCase`: lower-case everything, split on the single character
   * ' ', upper-case each piece's first character and join with ' '.
   * Its meaning, position by position: the length is kept, every character
   * at a token start is upper-cased and every other one lower-cased.
   */
  function TitleCase(s: string): (r: string)
    ensures |r| == |s|
    ensures forall i :: 0 <= i < |s| ==> r[i] == TitleChar(s, i)
  {
    var lowered := Lower(s);
    var words := Split(lowered, ' ');
    JoinCapitalizedSplit(lowered, true);
    assert [Capitalize(words[0])] + CapitalizeAll(words[1..]) == CapitalizeAll(words);
    assert Join(CapitalizeAll(words), ' ') == CapRuns(lowered, true);
    CapRunsPointwise(lowered, true);
    forall i | 0 <= i < |s| ensures CapRuns(lowered, true)[i] == TitleChar(s, i) {
      CaseMapFacts(s[i]);
      if i > 0 { CaseMapFacts(s[i - 1]); }
    }
    Join(CapitalizeAll(words), ' ')
  }

  /**
   * Reference reading of the split/map/join pipeline on an already
   * lower-cased string, one character at a time: `start` says whether the
   * current character begins a token.
   */
  ghost function CapRuns(t: string, start: bool): string
    decreases |t|
  {
    if |t| == 0 then ""
    else [if start then ToUpperChar(t[0]) else t[0]] + CapRuns(t[1..], t[0] == ' ')
  }

  lemma {:induction false} CapRunsPointwise(t: string, start: bool)
    ensures |CapRuns(t, start)| == |t|
    ensures forall i :: 0 <= i < |t| ==>
      CapRuns(t, start)[i] == (if (i == 0 && start) || (i > 0 && t[i - 1] == ' ') then ToUpperChar(t[i]) else t[i])
    decreases |t|
  {
    if |t| > 0 {
      CapRunsPointwise(t[1..], t[0] == ' ');
    }
  }

  /**
   * Splitting on ' ', capitalizing every piece but possibly the first and
   * joining again is `CapRuns`.
   */
  lemma {:induction false} JoinCapitalizedSplit(t: string, start: bool)
    ensures CapitalizedSplitJoin(t, start) == CapRuns(t, start)
    decreases |t|
  {
    if |t| == 0 {
      assert Split(t, ' ') == [""];
    } else if t[0] == ' ' {
      JoinCapitalizedSplit(t[1..], true);
      CapitalizedSplitAtSpace(t, start);
    } else {
      JoinCapitalizedSplit(t[1..], false);
      CapitalizedSplitInsideWord(t, start);
    }
  }

  /** The split/map/join pipeline, capitalizing the first piece only when `start` holds. */
  function CapitalizedSplitJoin(t: string, start: bool): string
  {
    var p := Split(t, ' ');
    Join([if start then Capitalize(p[0]) else p[0]] + CapitalizeAll(p[1..]), ' ')
  }

  lemma CapitalizedSplitAtSpace(t: string, start: bool)
    requires |t| > 0 && t[0] == ' '
    requires CapitalizedSplitJoin(t[1..], true) == CapRuns(t[1..], true)
    ensures CapitalizedSplitJoin(t, start) == CapRuns(t, start)
  {
    LeadingSpaceSplitJoin(t, start);
    assert CapRuns(t, start) == [' '] + CapRuns(t[1..], true);
  }

  /** A leading space adds an empty first word, which joins as a leading space. */
  lemma LeadingSpaceSplitJoin(t: string, start: bool)
    requires |t| > 0 && t[0] == ' '
    ensures CapitalizedSplitJoin(t, start) == [' '] + CapitalizedSplitJoin(t[1..], true)
  {
    var m := CapitalizeAll(Split(t[1..], ' '));
    EmptyFirstPiece(t, start);
    WholeSplitCapitalized(t[1..]);
    JoinAfterEmpty(m);
  }

  /** Proof step of `LeadingSpaceSplitJoin`: the empty first piece stays empty. */
  lemma EmptyFirstPiece(t: string, start: bool)
    requires |t| > 0 && t[0] == ' '
    ensures CapitalizedSplitJoin(t, start) == Join([""] + CapitalizeAll(Split(t[1..], ' ')), ' ')
  {
    var p := Split(t, ' ');
    SplitLeadingSpace(t);
    assert p[0] == "" && p[1..] == Split(t[1..], ' ');
  }

  /** Proof step of `LeadingSpaceSplitJoin`: with `start` set, every piece is capitalised. */
  lemma WholeSplitCapitalized(u: string)
    ensures CapitalizedSplitJoin(u, true) == Join(CapitalizeAll(Split(u, ' ')), ' ')
  {
    CapitalizeAllCons(Split(u, ' '));
  }

  /** Proof step of `LeadingSpaceSplitJoin`: an empty first piece joins as a leading separator. */
  lemma JoinAfterEmpty(m: seq<string>)
    requires |m| > 0
    ensures Join([""] + m, ' ') == [' '] + Join(m, ' ')
  {
    JoinCons("", m, ' ');
  }

  /** Proof step of `LeadingSpaceSplitJoin`: a leading space splits off an empty first piece. */
  lemma SplitLeadingSpace(t: string)
    requires |t| > 0 && t[0] == ' '
    ensures Split(t, ' ') == [""] + Split(t[1..], ' ')
  {
  }

  lemma CapitalizeAllCons(words: seq<string>)
    requires |words| > 0
    ensures CapitalizeAll(words) == [Capitalize(words[0])] + CapitalizeAll(words[1..])
  {
  }

  lemma CapitalizedSplitInsideWord(t: string, start: bool)
    requires |t| > 0 && t[0] != ' '
    requires CapitalizedSplitJoin(t[1..], false) == CapRuns(t[1..], false)
    ensures CapitalizedSplitJoin(t, start) == CapRuns(t, start)
  {
    var p := Split(t, ' ');
    var q := Split(t[1..], ' ');
    var c := if start then ToUpperChar(t[0]) else t[0];
    SplitOther(t, ' ');
    assert p[1..] == q[1..];
    var m := CapitalizeAll(q[1..]);
    var x := if start then Capitalize(p[0]) else p[0];
    assert x == [c] + q[0];
    JoinCons(x, m, ' ');
    JoinCons(q[0], m, ' ');
    if |m| > 0 {
      ConcatAssoc([c], q[0], [' '], Join(m, ' '));
    }
  }

  lemma ConcatAssoc(a: string, b: string, c: string, d: string)
    ensures a + b + c + d == a + (b + c + d)
  {
  }

  /** Title-casing only ever produces an upper-case ASCII letter at a token start. */
  lemma TitleCaseUpperOnlyAtTokenStart(s: string, i: int)
    requires 0 <= i < |s| && IsUpperAscii(TitleCase(s)[i])
    ensures i == 0 || TitleCase(s)[i - 1] == ' '
  {
    if i > 0 {
      CaseMapFacts(s[i - 1]);
    }
  }

  /**
   * A pattern with an upper-case letter that does not start a token never
   * occurs in a title-cased string.
   */
  lemma TitleCaseAvoids(s: string, pat: string, m: int)
    requires 0 < m < |pat| && IsUpperAscii(pat[m]) && pat[m - 1] != ' '
    ensures Avoids(TitleCase(s), pat)
  {
    var t := TitleCase(s);
    forall k | 0 <= k <= |t| ensures !Occurs(t, pat, k) {
      if k + |pat| <= |t| {
        assert t[k..k + |pat|][m] == t[k + m] && t[k..k + |pat|][m - 1] == t[k + m - 1];
        if IsUpperAscii(t[k + m]) {
          TitleCaseUpperOnlyAtTokenStart(s, k + m);
        }
      }
    }
  }

  /** Title-casing is idempotent. */
  lemma TitleCaseIdempotent(s: string)
    ensures TitleCase(TitleCase(s)) == TitleCase(s)
  {
    var t := TitleCase(s);
    forall i | 0 <= i < |s| ensures TitleCase(t)[i] == t[i] {
      CaseMapFacts(s[i]);
      if i > 0 { CaseMapFacts(s[i - 1]); }
    }
  }

  /** Title-casing keeps every space where it was and creates none. */
  lemma TitleCaseKeepsSpaces(s: string)
    ensures |TitleCase(s)| == |s|
    ensures forall i :: 0 <= i < |s| ==> (TitleCase(s)[i] == ' ' <==> s[i] == ' ')
  {
    forall i | 0 <= i < |s| ensures TitleCase(s)[i] == ' ' <==> s[i] == ' ' {
      CaseMapFacts(s[i]);
    }
  }

  /** Lower-casing first does not change the title-cased result. */
  lemma TitleCaseOfLower(s: string)
    ensures TitleCase(Lower(s)) == TitleCase(s)
  {
    forall i | 0 <= i < |s| ensures TitleCase(Lower(s))[i] == TitleCase(s)[i] {
      CaseMapFacts(s[i]);
      if i > 0 { CaseMapFacts(s[i - 1]); }
    }
  }

  /** Title-casing works token by token: it distributes over a join at a space. */
  lemma TitleCaseJoinsAtSpace(a: string, b: string)
    ensures TitleCase(a + " " + b) == TitleCase(a) + " " + TitleCase(b)
  {
    TitleCaseIsPointwise(a);
    TitleCaseIsPointwise(b);
    TitleCaseIsPointwise(a + " " + b);
    PointwiseTitleJoinsAtSpace(a, b);
  }

  /** The title-cased string written out position by position. */
  function PointwiseTitle(s: string): (r: string)
    ensures |r| == |s|
  {
    seq(|s|, i requires 0 <= i < |s| => TitleChar(s, i))
  }

  lemma TitleCaseIsPointwise(s: string)
    ensures TitleCase(s) == PointwiseTitle(s)
  {
  }

  lemma PointwiseTitleJoinsAtSpace(a: string, b: string)
    ensures PointwiseTitle(a + " " + b) == PointwiseTitle(a) + " " + PointwiseTitle(b)
  {
    var s := a + " " + b;
    var ta, tb := PointwiseTitle(a), PointwiseTitle(b);
    var r := ta + " " + tb;
    var t := PointwiseTitle(s);
    forall i | 0 <= i < |s| ensures t[i] == r[i] {
      if i < |a| {
        assert r[i] == ta[i];
        TitleCharBefore(a, " " + b, i);
        assert s == a + (" " + b);
      } else if i > |a| {
        assert r[i] == tb[i - |a| - 1];
        TitleCharAfterSpace(a, b, i - |a| - 1);
      } else {
        assert r[i] == ' ' && s[i] == ' ';
      }
    }
  }

  lemma TitleCharBefore(a: string, rest: string, i: int)
    requires 0 <= i < |a|
    ensures TitleChar(a + rest, i) == TitleChar(a, i)
  {
    assert (a + rest)[i] == a[i];
    if i > 0 { assert (a + rest)[i - 1] == a[i - 1]; }
  }

  lemma TitleCharAfterSpace(a: string, b: string, j: int)
    requires 0 <= j < |b|
    ensures TitleChar(a + " " + b, |a| + 1 + j) == TitleChar(b, j)
  {
    var s := a + " " + b;
    assert s[|a| + 1 + j] == b[j];
    if j > 0 { assert s[|a| + j] == b[j - 1]; } else { assert s[|a|] == ' '; }
  }

  /** A single lower-case word gets its first letter upper-cased and nothing else changed. */
  lemma TitleCaseWord(w: string)
    requires |w| > 0 && ' ' !in w && NoUpperAscii(w)
    ensures TitleCase(w) == [ToUpperChar(w[0])] + w[1..]
  {
    var r := [ToUpperChar(w[0])] + w[1..];
    forall i | 0 <= i < |w| ensures TitleCase(w)[i] == r[i] {
      if i > 0 {
        assert w[i - 1] in w;
      }
    }
  }

  /** The title-casing test of src/adr-methods.test.js:19-23. */
  lemma TitleCaseHelloWorld(s: string)
    requires s == "hello world"
    ensures TitleCase(s) == "Hello World"
  {
    var hello, world := s[..5], s[6..];
    assert TitleCase(s) == TitleCase(hello) + " " + TitleCase(world) by {
      assert s == hello + " " + world;
      TitleCaseJoinsAtSpace(hello, world);
    }
    assert hello == "hello" && world == "world";
    var titled := TitleCaseHelloAndWorld(hello, world);
  }

  /** Proof step of `TitleCaseHelloWorld`: each word on its own, then joined. */
  lemma TitleCaseHelloAndWorld(hello: string, world: string) returns (titled: string)
    requires hello == "hello" && world == "world"
    ensures titled == TitleCase(hello) + " " + TitleCase(world) && titled == "Hello World"
  {
    TitleCaseLowerWord(hello, "Hello");
    TitleCaseLowerWord(world, "World");
    titled := TitleCase(hello) + " " + TitleCase(world);
    SpaceJoined("Hello", "World", "Hello World");
  }

  /** A word of lower-case letters: title-casing only upper-cases its first letter. */
  lemma TitleCaseLowerWord(w: string, expected: string)
    requires |w| > 0 && forall i :: 0 <= i < |w| ==> 'a' <= w[i] <= 'z'
    requires |expected| == |w| && expected[0] == ToUpperChar(w[0])
    requires forall i :: 1 <= i < |w| ==> expected[i] == w[i]
    ensures TitleCase(w) == expected
  {
    TitleCaseWord(w);
    var titled := TitleCase(w);
    forall i | 0 <= i < |w| ensures titled[i] == expected[i] {
      if i > 0 { assert titled[i] == w[i]; }
    }
  }

  /** Proof step of `TitleCaseHelloAndWorld`: the join, character by character. */
  lemma SpaceJoined(a: string, b: string, joined: string)
    requires a == "Hello" && b == "World" && joined == "Hello World"
    ensures a + " " + b == joined
  {
    var c := a + " " + b;
    assert |c| == |joined|;
    forall i | 0 <= i < |c| ensures c[i] == joined[i] {
      if i < 5 { assert c[i] == a[i]; } else if i > 5 { assert c[i] == b[i - 6]; }
    }
  }

  // ---------------------------------------------------------------------
  // kebab case: replace(/\s+/g, "-").toLowerCase()

  /** The characters JavaScript's `\s` matches. */
  predicate IsJsWhitespace(c: char)
  {
    var n := c as int;
    n == 0x09 || n == 0x0A || n == 0x0B || n == 0x0C || n == 0x0D || n == 0x20
    || n == 0xA0 || n == 0x1680 || (0x2000 <= n <= 0x200A)
    || n == 0x2028 || n == 0x2029 || n == 0x202F || n == 0x205F || n == 0x3000 || n == 0xFEFF
  }

  predicate NoWhitespace(s: string)
  {
    forall i :: 0 <= i < |s| ==> !IsJsWhitespace(s[i])
  }

  /** Drops the whitespace run at the front of `s`. */
  function SkipWhitespace(s: string): (r: string)
    ensures |r| <= |s|
    ensures |r| == 0 || !IsJsWhitespace(r[0])
    decreases |s|
  {
    if |s| > 0 && IsJsWhitespace(s[0]) then SkipWhitespace(s[1..]) else s
  }

  /** `replace(/\s+/g, "-")`: each maximal whitespace run becomes one '-'. */
  function DashWhitespaceRuns(s: string): (r: string)
    ensures NoWhitespace(r)
    ensures |r| <= |s|
    decreases |s|
  {
    if |s| == 0 then ""
    else if IsJsWhitespace(s[0]) then "-" + DashWhitespaceRuns(SkipWhitespace(s[1..]))
    else [s[0]] + DashWhitespaceRuns(s[1..])
  }

  /**
   * The slug used in an ADR file name (src/index.js:117): whitespace runs
   * dashed, then lower-cased. `KebabRun` states that each run becomes exactly
   * one `-`; `KebabSingleSpaced` gives the slug of a single-spaced name
   * position by position.
   */
  function Kebab(s: string): (r: string)
    ensures NoWhitespace(r) && NoUpperAscii(r)
    ensures |r| <= |s|
  {
    var dashed := DashWhitespaceRuns(s);
    assert forall i :: 0 <= i < |dashed| ==> !IsJsWhitespace(ToLowerChar(dashed[i]));
    Lower(dashed)
  }

  /** A string without whitespace is only lower-cased. */
  lemma {:induction false} KebabWithoutWhitespace(s: string)
    requires NoWhitespace(s)
    ensures Kebab(s) == Lower(s)
    decreases |s|
  {
    if |s| > 0 {
      KebabWithoutWhitespace(s[1..]);
      assert DashWhitespaceRuns(s) == [s[0]] + DashWhitespaceRuns(s[1..]);
    }
  }

  /**
   * Kebab-casing splits at whitespace runs: a word, a non-empty run of
   * whitespace and the rest become the word's slug, one '-' and the rest's slug.
   */
  lemma KebabRun(word: string, run: string, rest: string)
    requires NoWhitespace(word)
    requires |run| > 0 && forall i :: 0 <= i < |run| ==> IsJsWhitespace(run[i])
    requires |rest| == 0 || !IsJsWhitespace(rest[0])
    ensures Kebab(word + run + rest) == Lower(word) + "-" + Kebab(rest)
  {
    var dashedRest := DashWhitespaceRuns(rest);
    DashRun(word, run, rest);
    LowerConcat(word + "-", dashedRest);
    LowerConcat(word, "-");
  }

  /** `replace(/\s+/g, "-")` turns the run after a whitespace-free word into one '-'. */
  lemma {:induction false} DashRun(word: string, run: string, rest: string)
    requires NoWhitespace(word)
    requires |run| > 0 && forall i :: 0 <= i < |run| ==> IsJsWhitespace(run[i])
    requires |rest| == 0 || !IsJsWhitespace(rest[0])
    ensures DashWhitespaceRuns(word + run + rest) == word + "-" + DashWhitespaceRuns(rest)
    decreases |word|
  {
    if |word| == 0 {
      DashRunAtRun(run, rest);
      assert word + run + rest == run + rest;
      assert word + "-" + DashWhitespaceRuns(rest) == "-" + DashWhitespaceRuns(rest);
    } else {
      DashRun(word[1..], run, rest);
      DashRunPastChar(word, run, rest, DashWhitespaceRuns(rest));
    }
  }

  /** A whitespace run followed by a non-space becomes one '-'. */
  lemma DashRunAtRun(run: string, rest: string)
    requires |run| > 0 && forall i :: 0 <= i < |run| ==> IsJsWhitespace(run[i])
    requires |rest| == 0 || !IsJsWhitespace(rest[0])
    ensures DashWhitespaceRuns(run + rest) == "-" + DashWhitespaceRuns(rest)
  {
    var s := run + rest;
    assert s[0] == run[0];
    assert s[1..] == run[1..] + rest;
    SkipRun(run, rest);
  }

  /** A non-space character is kept in front of the dashed remainder. */
  lemma DashRunPastChar(word: string, run: string, rest: string, tail: string)
    requires |word| > 0 && !IsJsWhitespace(word[0])
    requires DashWhitespaceRuns(word[1..] + run + rest) == word[1..] + "-" + tail
    ensures DashWhitespaceRuns(word + run + rest) == word + "-" + tail
  {
    var s := word + run + rest;
    assert s[0] == word[0];
    assert s[1..] == word[1..] + run + rest;
    assert DashWhitespaceRuns(s) == [s[0]] + DashWhitespaceRuns(s[1..]);
    assert word + "-" + tail == [word[0]] + (word[1..] + "-" + tail);
  }

  /** Lower-casing works character by character. */
  lemma LowerConcat(a: string, b: string)
    ensures Lower(a + b) == Lower(a) + Lower(b)
  {
    var l, r := Lower(a + b), Lower(a) + Lower(b);
    forall i | 0 <= i < |a + b| ensures l[i] == r[i] {
      if i < |a| { assert (a + b)[i] == a[i]; } else { assert (a + b)[i] == b[i - |a|]; }
    }
  }

  lemma {:induction false} SkipRun(run: string, rest: string)
    requires forall i :: 0 <= i < |run| ==> IsJsWhitespace(run[i])
    requires |rest| == 0 || !IsJsWhitespace(rest[0])
    ensures |run| > 0 ==> SkipWhitespace(run[1..] + rest) == rest
    ensures SkipWhitespace(run + rest) == rest
    decreases |run|
  {
    if |run| == 0 {
      assert run + rest == rest;
    } else {
      SkipRun(run[1..], rest);
      var s := run + rest;
      assert s[0] == run[0] && IsJsWhitespace(s[0]);
      assert s[1..] == run[1..] + rest;
      assert SkipWhitespace(s) == SkipWhitespace(s[1..]);
    }
  }

  /**
   * A name whose only whitespace is single spaces between non-dash
   * characters is kebab-cased character by character: spaces become '-'
   * and everything else is lower-cased.
   */
  predicate SingleSpaced(s: string)
  {
    && (forall i :: 0 <= i < |s| ==> s[i] == ' ' || !IsJsWhitespace(s[i]))
    && (forall i :: 0 <= i < |s| - 1 ==> !(s[i] == ' ' && s[i + 1] == ' '))
  }

  lemma {:induction false} KebabSingleSpaced(s: string)
    requires SingleSpaced(s)
    ensures |Kebab(s)| == |s|
    ensures forall i :: 0 <= i < |s| ==> Kebab(s)[i] == (if s[i] == ' ' then '-' else ToLowerChar(s[i]))
    decreases |s|
  {
    if |s| > 0 {
      var rest := s[1..];
      assert SingleSpaced(rest);
      KebabSingleSpaced(rest);
      if s[0] == ' ' {
        KebabRun("", [' '], rest);
        assert "" + [' '] + rest == s;
      } else {
        assert DashWhitespaceRuns(s) == [s[0]] + DashWhitespaceRuns(rest);
      }
    }
  }
}
