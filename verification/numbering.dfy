/**
 * The numbering service `getNextAdrNumber` (src/index.js:66-77): from the
 * names in the ADR directory it derives the next zero-padded sequence
 * number. The directory listing is an input here.
 */
module Numbering {
  import opened Strings
  import opened Decimal

  const RecordFileName: string := "RECORD.md"
  const FirstAdrNumber: string := "0001"

  /** `Number.MAX_SAFE_INTEGER`: up to here JavaScript numbers hold integers exactly. */
  const MaxSafeInteger: nat := 9007199254740991

  // ---------------------------------------------------------------------
  // JavaScript's default `sort` order on strings

  /** `a` sorts strictly before `b` (character codes, a proper prefix first). */
  predicate LexLess(a: string, b: string)
    decreases |a|
  {
    |b| > 0 && (|a| == 0 || a[0] < b[0] || (a[0] == b[0] && LexLess(a[1..], b[1..])))
  }

  lemma {:induction false} LexLessIrreflexive(a: string)
    ensures !LexLess(a, a)
    decreases |a|
  {
    if |a| > 0 {
      LexLessIrreflexive(a[1..]);
    }
  }

  lemma {:induction false} LexLessTransitive(a: string, b: string, c: string)
    requires LexLess(a, b) && LexLess(b, c)
    ensures LexLess(a, c)
    decreases |a|
  {
    if |a| > 0 && a[0] == b[0] && b[0] == c[0] {
      LexLessTransitive(a[1..], b[1..], c[1..]);
    }
  }

  lemma {:induction false} LexLessTotal(a: string, b: string)
    ensures a == b || LexLess(a, b) || LexLess(b, a)
    decreases |a|
  {
    if |a| > 0 && |b| > 0 && a[0] == b[0] {
      LexLessTotal(a[1..], b[1..]);
      if a[1..] == b[1..] {
        assert a == [a[0]] + a[1..] && b == [b[0]] + b[1..];
      }
    }
  }

  /**
   * Where two strings that differ within their first `n` characters are
   * ordered: at the first index where they differ.
   */
  lemma {:induction false} LexLessFirstDifference(a: string, b: string, n: nat) returns (i: nat)
    requires n <= |a| && n <= |b| && a[..n] != b[..n] && LexLess(a, b)
    ensures i < n && a[..i] == b[..i] && a[i] < b[i]
    decreases n
  {
    if a[0] < b[0] {
      i := 0;
    } else {
      assert a[1..][..n - 1] == a[1..n] && b[1..][..n - 1] == b[1..n];
      assert a[..n] == [a[0]] + a[1..n] && b[..n] == [b[0]] + b[1..n];
      var j := LexLessFirstDifference(a[1..], b[1..], n - 1);
      i := j + 1;
      assert a[..i] == [a[0]] + a[1..][..j] && b[..i] == [b[0]] + b[1..][..j];
    }
  }

  /** The greatest name in JavaScript's sort order: what `sort()` puts last. */
  function LexMax(names: seq<string>): (m: string)
    requires |names| > 0
    ensures m in names
    ensures forall n :: n in names ==> n == m || LexLess(n, m)
  {
    if |names| == 1 then names[0]
    else
      var restMax := LexMax(names[1..]);
      if LexLess(restMax, names[0]) then
        forall n | n in names[1..] && n != restMax ensures LexLess(n, names[0]) {
          LexLessTransitive(n, restMax, names[0]);
        }
        names[0]
      else
        LexLessTotal(restMax, names[0]);
        restMax
  }

  predicate SortedLex(ss: seq<string>)
  {
    forall i, j :: 0 <= i < j < |ss| ==> ss[i] == ss[j] || LexLess(ss[i], ss[j])
  }

  /**
   * `sort().slice(-1)[0]` does not depend on how the sort is carried out:
   * the last element of any sorted rearrangement of the names is `LexMax`.
   */
  lemma SortedLastIsLexMax(names: seq<string>, sorted: seq<string>)
    requires |names| > 0
    requires multiset(sorted) == multiset(names) && SortedLex(sorted)
    ensures |sorted| == |names| && sorted[|sorted| - 1] == LexMax(names)
  {
    var m := LexMax(names);
    assert |sorted| == |multiset(sorted)| == |multiset(names)| == |names|;
    var last := sorted[|sorted| - 1];
    assert last in multiset(sorted);
    assert last in names;
    assert m in multiset(names);
    var k :| 0 <= k < |sorted| && sorted[k] == m;
    if last != m {
      assert LexLess(last, m);
      if k < |sorted| - 1 {
        assert LexLess(m, last);
        LexLessTransitive(m, last, m);
      }
      LexLessIrreflexive(m);
    }
  }

  // ---------------------------------------------------------------------
  // The directory filter and the numeric prefix

  /** The filter at src/index.js:68-70: a `.md` name other than the record. */
  predicate IsAdrCandidate(name: string)
  {
    EndsWith(name, ".md") && name != RecordFileName
  }

  function AdrCandidates(names: seq<string>): (r: seq<string>)
    ensures forall n :: n in r <==> n in names && IsAdrCandidate(n)
    ensures |r| <= |names|
  {
    if |names| == 0 then []
    else (if IsAdrCandidate(names[0]) then [names[0]] else []) + AdrCandidates(names[1..])
  }

  lemma {:induction false} AdrCandidatesAppend(a: seq<string>, b: seq<string>)
    ensures AdrCandidates(a + b) == AdrCandidates(a) + AdrCandidates(b)
    decreases |a|
  {
    if |a| > 0 {
      AdrCandidatesAppend(a[1..], b);
      assert (a + b)[1..] == a[1..] + b;
    } else {
      assert a + b == b;
    }
  }

  /**
   * `name.split("-")[0]`: the longest prefix of `name` without a '-', which
   * ends at the first '-' or at the end of the name.
   */
  function FirstField(name: string): (r: string)
    ensures |r| <= |name| && r == name[..|r|]
    ensures '-' !in r
    ensures |r| == |name| || name[|r|] == '-'
  {
    Split(name, '-')[0]
  }

  /** The name the numbering reads its number from carries a digit prefix that converts exactly. */
  predicate ChosenPrefixNumeric(names: seq<string>)
  {
    var candidates := AdrCandidates(names);
    |candidates| == 0 ||
      (var prefix := FirstField(LexMax(candidates));
       AllDigits(prefix) && DigitsValue(prefix) < MaxSafeInteger)
  }

  /**
   * `getNextAdrNumber` on a directory listing: "0001" when there is no
   * candidate, otherwise one more than the number in front of the last
   * candidate in sort order, written in decimal and zero-padded to four.
   */
  function NextAdrNumber(names: seq<string>): (r: string)
    requires ChosenPrefixNumeric(names)
    ensures |AdrCandidates(names)| == 0 ==> r == FirstAdrNumber
    ensures AllDigits(r) && |r| >= 4 && (|r| == 4 || r[0] != '0')
    ensures |AdrCandidates(names)| > 0 ==>
      DigitsValue(r) == DigitsValue(FirstField(LexMax(AdrCandidates(names)))) + 1
  {
    var candidates := AdrCandidates(names);
    if |candidates| == 0 then
      assert AllDigits(FirstAdrNumber) by { assert forall i :: 0 <= i < 4 ==> FirstAdrNumber[i] == '0' || FirstAdrNumber[i] == '1'; }
      FirstAdrNumber
    else
      var next := DigitsValue(FirstField(LexMax(candidates))) + 1;
      PadStartZeroValue(NatToDecimal(next), 4);
      PadStartZero(NatToDecimal(next), 4)
  }

  // ---------------------------------------------------------------------
  // Numeric reading of the result

  /**
   * A name starting with a four-digit number and a '-', as `NNNN-slug.md`;
   * also what the pattern `/^\d{4}-/` matches.
   */
  predicate HasFourDigitPrefix(name: string)
  {
    |name| >= 5 && AllDigits(name[..4]) && name[4] == '-'
  }

  function AdrNumberOf(name: string): nat
    requires HasFourDigitPrefix(name)
  {
    DigitsValue(name[..4])
  }

  /** The largest ADR number among the names, compared as numbers. */
  function MaxAdrNumber(names: seq<string>): (m: nat)
    requires |names| > 0 && forall n :: n in names ==> HasFourDigitPrefix(n)
    ensures forall n :: n in names ==> AdrNumberOf(n) <= m
    ensures exists n :: n in names && AdrNumberOf(n) == m
  {
    if |names| == 1 then
      assert names[0] in names;
      AdrNumberOf(names[0])
    else
      var restMax := MaxAdrNumber(names[1..]);
      var n0 := names[0];
      assert n0 in names;
      if AdrNumberOf(n0) > restMax then AdrNumberOf(n0) else restMax
  }

  /** On four-digit prefixes the sort order agrees with the numeric order. */
  lemma LexOrderIsNumericOrder(a: string, b: string)
    requires HasFourDigitPrefix(a) && HasFourDigitPrefix(b) && LexLess(a, b)
    ensures AdrNumberOf(a) <= AdrNumberOf(b)
  {
    if a[..4] != b[..4] {
      var i := LexLessFirstDifference(a, b, 4);
      assert a[..4][..i] == a[..i] && b[..4][..i] == b[..i];
      EqualWidthOrder(a[..4], b[..4], i);
    }
  }

  lemma FirstFieldOfFourDigitPrefix(name: string)
    requires HasFourDigitPrefix(name)
    ensures FirstField(name) == name[..4]
  {
    var f := FirstField(name);
    assert forall i :: 0 <= i < |f| ==> f[i] == name[i] && f[i] != '-';
    assert forall i :: 0 <= i < 4 ==> IsDigit(name[..4][i]) && name[..4][i] == name[i];
  }

  /**
   * When every candidate is named `NNNN-…`, the next number is the largest
   * number among them plus one, compared numerically, zero-padded to four.
   */
  lemma NextAdrNumberIsMaxPlusOne(names: seq<string>)
    requires |AdrCandidates(names)| > 0
    requires forall n :: n in AdrCandidates(names) ==> HasFourDigitPrefix(n)
    ensures ChosenPrefixNumeric(names)
      && NextAdrNumber(names) == PadStartZero(NatToDecimal(MaxAdrNumber(AdrCandidates(names)) + 1), 4)
      && DigitsValue(NextAdrNumber(names)) == MaxAdrNumber(AdrCandidates(names)) + 1
  {
    var top := MaxAdrNumber(AdrCandidates(names));
    ChosenIsNumericMax(names);
    NextAdrNumberOfChosen(names, top);
  }

  /** The name the numbering reads is one with the largest number, and its prefix converts exactly. */
  lemma ChosenIsNumericMax(names: seq<string>)
    requires |AdrCandidates(names)| > 0
    requires forall n :: n in AdrCandidates(names) ==> HasFourDigitPrefix(n)
    ensures ChosenPrefixNumeric(names)
    ensures DigitsValue(FirstField(LexMax(AdrCandidates(names)))) == MaxAdrNumber(AdrCandidates(names))
  {
    var candidates := AdrCandidates(names);
    var chosen := LexMax(candidates);
    assert FirstField(chosen) == chosen[..4] && DigitsValue(chosen[..4]) < 10000 by {
      FirstFieldOfFourDigitPrefix(chosen);
      DigitsValueBound(chosen[..4]);
    }
    assert ChosenPrefixNumeric(names);
    LexMaxIsNumericMax(candidates);
  }

  lemma NextAdrNumberOfChosen(names: seq<string>, top: nat)
    requires |AdrCandidates(names)| > 0 && ChosenPrefixNumeric(names)
    requires DigitsValue(FirstField(LexMax(AdrCandidates(names)))) == top
    ensures NextAdrNumber(names) == PadStartZero(NatToDecimal(top + 1), 4)
    ensures DigitsValue(NextAdrNumber(names)) == top + 1
  {
    var c := AdrCandidates(names);
    var next := DigitsValue(FirstField(LexMax(c))) + 1;
    assert next == top + 1;
    assert NextAdrNumber(names) == PadStartZero(NatToDecimal(next), 4);
  }

  /** The name sorted last carries the largest number. */
  lemma LexMaxIsNumericMax(candidates: seq<string>)
    requires |candidates| > 0 && forall n :: n in candidates ==> HasFourDigitPrefix(n)
    ensures AdrNumberOf(LexMax(candidates)) == MaxAdrNumber(candidates)
  {
    var chosen := LexMax(candidates);
    forall n | n in candidates ensures AdrNumberOf(n) <= AdrNumberOf(chosen) {
      if n != chosen {
        LexOrderIsNumericOrder(n, chosen);
      }
    }
  }

  /** The record file never takes part in the numbering, wherever it is listed. */
  lemma RecordFileIgnored(before: seq<string>, after: seq<string>)
    requires ChosenPrefixNumeric(before + after)
    ensures ChosenPrefixNumeric(before + [RecordFileName] + after)
      && NextAdrNumber(before + [RecordFileName] + after) == NextAdrNumber(before + after)
  {
    RecordFileNotCandidate(before, after);
    SameCandidatesSameNumber(before + after, before + [RecordFileName] + after);
  }

  /** The numbering sees the listing only through its candidates. */
  lemma SameCandidatesSameNumber(a: seq<string>, b: seq<string>)
    requires AdrCandidates(a) == AdrCandidates(b) && ChosenPrefixNumeric(a)
    ensures ChosenPrefixNumeric(b) && NextAdrNumber(b) == NextAdrNumber(a)
  {
    var c := AdrCandidates(a);
    if |c| > 0 {
      var next := DigitsValue(FirstField(LexMax(c))) + 1;
      assert NextAdrNumber(b) == PadStartZero(NatToDecimal(next), 4);
    }
  }

  lemma RecordFileNotCandidate(before: seq<string>, after: seq<string>)
    ensures AdrCandidates(before + [RecordFileName] + after) == AdrCandidates(before + after)
  {
    assert !IsAdrCandidate(RecordFileName);
    NonCandidateSkipped(before, RecordFileName, after);
  }

  /** A name that is not a candidate does not change the candidates around it. */
  lemma NonCandidateSkipped(before: seq<string>, name: string, after: seq<string>)
    requires !IsAdrCandidate(name)
    ensures AdrCandidates(before + [name] + after) == AdrCandidates(before + after)
  {
    var mid := [name];
    assert AdrCandidates(mid) == [] by {
      assert mid[1..] == [];
    }
    AdrCandidatesAppend(before, mid);
    AdrCandidatesAppend(before + mid, after);
    AdrCandidatesAppend(before, after);
    assert AdrCandidates(before) + [] == AdrCandidates(before);
  }

  lemma NextAdrNumberEmpty()
    ensures NextAdrNumber([]) == "0001"
    ensures NextAdrNumber([RecordFileName]) == "0001"
  {
    assert AdrCandidates([RecordFileName]) == [];
  }

  lemma NextAdrNumberAfterTwo(first: string, second: string)
    requires first == "0001-first.md" && second == "0002-second.md"
    ensures ChosenPrefixNumeric([first, second, RecordFileName])
      && NextAdrNumber([first, second, RecordFileName]) == "0003"
  {
    FirstTestName(first);
    SecondTestName(second);
    NextAdrNumberOfTwoAndRecord(first, second);
    PaddedDecimal(3);
  }

  lemma NextAdrNumberWidens(first: string, second: string)
    requires first == "0098-cool-adr.md" && second == "0099-cooler-adr.md"
    ensures ChosenPrefixNumeric([first, second, RecordFileName])
      && NextAdrNumber([first, second, RecordFileName]) == "0100"
  {
    CoolTestName(first);
    CoolerTestName(second);
    NextAdrNumberOfTwoAndRecord(first, second);
    PaddedDecimal(100);
  }

  /** The ADR names of the numbering tests (src/adr-methods.test.js:63-82) and their numbers. */
  lemma FirstTestName(name: string)
    requires name == "0001-first.md"
    ensures IsAdrCandidate(name) && HasFourDigitPrefix(name) && AdrNumberOf(name) == 1
  {
    assert name[..4] == "0001";
    FourDigitsValue(name[..4]);
  }

  lemma SecondTestName(name: string)
    requires name == "0002-second.md"
    ensures IsAdrCandidate(name) && HasFourDigitPrefix(name) && AdrNumberOf(name) == 2
  {
    assert name[..4] == "0002";
    FourDigitsValue(name[..4]);
  }

  lemma CoolTestName(name: string)
    requires name == "0098-cool-adr.md"
    ensures IsAdrCandidate(name) && HasFourDigitPrefix(name) && AdrNumberOf(name) == 98
  {
    assert name[..4] == "0098";
    FourDigitsValue(name[..4]);
  }

  lemma CoolerTestName(name: string)
    requires name == "0099-cooler-adr.md"
    ensures IsAdrCandidate(name) && HasFourDigitPrefix(name) && AdrNumberOf(name) == 99
  {
    assert name[..4] == "0099";
    FourDigitsValue(name[..4]);
  }

  /** Two ADR names in increasing order followed by the record file. */
  lemma NextAdrNumberOfTwoAndRecord(first: string, second: string)
    requires IsAdrCandidate(first) && IsAdrCandidate(second)
    requires HasFourDigitPrefix(first) && HasFourDigitPrefix(second)
    requires AdrNumberOf(first) <= AdrNumberOf(second)
    ensures ChosenPrefixNumeric([first, second, RecordFileName])
      && NextAdrNumber([first, second, RecordFileName]) == PadStartZero(NatToDecimal(AdrNumberOf(second) + 1), 4)
  {
    var names := [first, second, RecordFileName];
    var c := AdrCandidates(names);
    assert second in c;
    assert forall n :: n in c ==> n == first || n == second;
    NextAdrNumberOfLargest(names, second);
  }

  /** The ADR with the largest number decides the next number. */
  lemma NextAdrNumberOfLargest(names: seq<string>, largest: string)
    requires largest in AdrCandidates(names) && HasFourDigitPrefix(largest)
    requires forall n :: n in AdrCandidates(names) ==> HasFourDigitPrefix(n) && AdrNumberOf(n) <= AdrNumberOf(largest)
    ensures ChosenPrefixNumeric(names)
      && NextAdrNumber(names) == PadStartZero(NatToDecimal(AdrNumberOf(largest) + 1), 4)
  {
    var c := AdrCandidates(names);
    var top := AdrNumberOf(largest);
    MaxIsLargest(c, largest);
    ChosenIsNumericMax(names);
    assert DigitsValue(FirstField(LexMax(c))) == top;
    NextAdrNumberOfChosen(names, top);
  }

  lemma MaxIsLargest(names: seq<string>, largest: string)
    requires largest in names && HasFourDigitPrefix(largest)
    requires forall n :: n in names ==> HasFourDigitPrefix(n) && AdrNumberOf(n) <= AdrNumberOf(largest)
    ensures MaxAdrNumber(names) == AdrNumberOf(largest)
  {
  }

  // ---------------------------------------------------------------------
  // Past ADR 9999

  /** The name sorted last among the candidates is the one the numbering reads. */
  lemma SortedLastIsChosen(names: seq<string>, last: string)
    requires last in AdrCandidates(names)
    requires forall n :: n in AdrCandidates(names) ==> n == last || LexLess(n, last)
    ensures LexMax(AdrCandidates(names)) == last
  {
    var m := LexMax(AdrCandidates(names));
    if m != last {
      LexLessTransitive(last, m, last);
      LexLessIrreflexive(last);
    }
  }

  /** The first field of a name that starts with digits and a dash is those digits. */
  lemma FirstFieldBeforeDash(name: string, k: nat)
    requires k < |name| && AllDigits(name[..k]) && name[k] == '-'
    ensures FirstField(name) == name[..k]
  {
    var f := FirstField(name);
    assert forall i :: 0 <= i < k ==> name[i] == name[..k][i];
  }

  lemma LastFourDigitName(name: string)
    requires name == "9999-z.md"
    ensures IsAdrCandidate(name) && HasFourDigitPrefix(name) && AdrNumberOf(name) == 9999
  {
    assert name[..4] == "9999";
    FourDigitsValue(name[..4]);
  }

  lemma FirstFiveDigitName(name: string)
    requires name == "10000-a.md"
    ensures IsAdrCandidate(name) && AllDigits(FirstField(name)) && DigitsValue(FirstField(name)) == 10000
  {
    assert name[..5] == "10000";
    FiveDigitsValue(name[..5]);
    FirstFieldBeforeDash(name, 5);
  }

  lemma FiveDigitsValue(number: string)
    requires number == "10000"
    ensures AllDigits(number) && DigitsValue(number) == 10000
  {
    assert number[1..] == "0000";
    FourDigitsValue("0000");
    assert Pow10(4) == 10000;
  }

  lemma WideSortsFirst(wide: string, last: string)
    requires wide == "10000-a.md" && last == "9999-z.md"
    ensures LexLess(wide, last)
  {
  }

  /** Of two candidates, the one the other sorts before is the one read. */
  lemma ChosenOfTwo(names: seq<string>, last: string, wide: string)
    requires names == [last, wide] && IsAdrCandidate(last) && IsAdrCandidate(wide) && LexLess(wide, last)
    ensures |AdrCandidates(names)| > 0 && LexMax(AdrCandidates(names)) == last
  {
    var c := AdrCandidates(names);
    assert last in c && wide in c;
    assert forall n :: n in c ==> n == last || n == wide;
    SortedLastIsChosen(names, last);
  }

  /**
   * Once ADR 10000 exists, "10000-a.md" sorts before "9999-z.md", so the
   * number read is 9999 and the next number is 10000 again: the new ADR
   * repeats a number already in use.
   */
  lemma NumberRepeatsPastFourDigits(names: seq<string>)
    requires names == ["9999-z.md", "10000-a.md"]
    ensures ChosenPrefixNumeric(names) && AllDigits(FirstField(names[1]))
    ensures DigitsValue(NextAdrNumber(names)) == DigitsValue(FirstField(names[1])) == 10000
  {
    LastFourDigitName(names[0]);
    FirstFieldOfFourDigitPrefix(names[0]);
    FirstFiveDigitName(names[1]);
    WideSortsFirst(names[1], names[0]);
    ChosenOfTwo(names, names[0], names[1]);
    NextAdrNumberOfChosen(names, 9999);
  }

  // ---------------------------------------------------------------------
  // The numbering as evidently intended

  /** A name whose first field is a decimal number of any width. */
  predicate NumberedName(name: string)
  {
    |FirstField(name)| > 0 && AllDigits(FirstField(name))
  }

  /** The number in front of a numbered name, read as a number. */
  function NumberOf(name: string): nat
    requires NumberedName(name)
  {
    DigitsValue(FirstField(name))
  }

  /** The largest number in front of a numbered name; 0 when no name is numbered. */
  function MaxNumberInFront(names: seq<string>): (m: nat)
    ensures forall n :: n in names && NumberedName(n) ==> NumberOf(n) <= m
    ensures m == 0 || exists n :: n in names && NumberedName(n) && NumberOf(n) == m
  {
    if |names| == 0 then 0
    else
      var rest := MaxNumberInFront(names[1..]);
      assert names[0] in names;
      if NumberedName(names[0]) && NumberOf(names[0]) > rest then NumberOf(names[0]) else rest
  }

  /**
   * The next number as evidently intended: one more than the largest number
   * in front of any candidate, compared as numbers whatever their width,
   * zero-padded to four.
   */
  function NextAdrNumberByValue(names: seq<string>): (r: string)
    ensures AllDigits(r) && |r| >= 4 && (|r| == 4 || r[0] != '0')
    ensures forall n :: n in AdrCandidates(names) && NumberedName(n) ==> NumberOf(n) < DigitsValue(r)
  {
    var next := MaxNumberInFront(AdrCandidates(names)) + 1;
    PadStartZeroValue(NatToDecimal(next), 4);
    PadStartZero(NatToDecimal(next), 4)
  }

  /** No candidate carries the number the corrected numbering picks, however wide the numbers are. */
  lemma NextAdrNumberByValueIsFresh(names: seq<string>)
    ensures forall n :: n in AdrCandidates(names) ==> FirstField(n) != NextAdrNumberByValue(names)
  {
    var r := NextAdrNumberByValue(names);
    forall n | n in AdrCandidates(names) ensures FirstField(n) != r {
      if FirstField(n) == r {
        assert NumberedName(n);
      }
    }
  }

  /** While every candidate carries a four-digit number, the corrected numbering agrees with `NextAdrNumber`. */
  lemma ByValueAgreesWithinFourDigits(names: seq<string>)
    requires forall n :: n in AdrCandidates(names) ==> HasFourDigitPrefix(n)
    ensures ChosenPrefixNumeric(names) && NextAdrNumberByValue(names) == NextAdrNumber(names)
  {
    var c := AdrCandidates(names);
    if |c| == 0 {
      assert ChosenPrefixNumeric(names);
      assert MaxNumberInFront(c) == 0;
      PaddedDecimal(1);
    } else {
      NextAdrNumberIsMaxPlusOne(names);
      SameMaxWithinFourDigits(c);
    }
  }

  /** With four-digit numbers only, both maxima are the same number. */
  lemma SameMaxWithinFourDigits(c: seq<string>)
    requires |c| > 0 && forall n :: n in c ==> HasFourDigitPrefix(n)
    ensures MaxNumberInFront(c) == MaxAdrNumber(c)
  {
    forall n | n in c ensures NumberedName(n) && NumberOf(n) == AdrNumberOf(n) {
      FirstFieldOfFourDigitPrefix(n);
    }
  }

  lemma PaddedDecimal(n: nat)
    requires n == 1 || n == 3 || n == 100
    ensures n == 1 ==> PadStartZero(NatToDecimal(n), 4) == "0001"
    ensures n == 3 ==> PadStartZero(NatToDecimal(n), 4) == "0003"
    ensures n == 100 ==> PadStartZero(NatToDecimal(n), 4) == "0100"
  {
    assert NatToDecimal(3) == "3";
    assert NatToDecimal(1) == "1";
    assert NatToDecimal(10) == "10";
    assert NatToDecimal(100) == "100";
  }
}
