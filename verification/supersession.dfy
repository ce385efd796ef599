/**
 * `addSupersededByNote` (src/index.js:155-192): appends the superseded-by
 * note to the superseded ADR, then finds that ADR's heading in the record and
 * inserts the note before the next `##` after it, or at the end of the record.
 */
module Supersession {
  import opened Strings
  import opened TextUtils
  import opened Decimal
  import opened Numbering
  import opened Storage
  import opened Templates

  const MdSuffix: string := ".md"

  /** The marker the record's section headings start with. */
  const SectionMarker: string := "##"

  /** `.replace(/\.md$/, "")`. */
  function StripMdSuffix(name: string): (r: string)
    ensures EndsWith(name, MdSuffix) ==> r + MdSuffix == name
    ensures !EndsWith(name, MdSuffix) ==> r == name
  {
    if EndsWith(name, MdSuffix) then name[..|name| - |MdSuffix|] else name
  }

  /** `.replace(/^\d{4}-/, "")`. */
  function StripAdrNumber(s: string): (r: string)
    ensures HasFourDigitPrefix(s) ==> s[..5] + r == s
    ensures !HasFourDigitPrefix(s) ==> r == s
  {
    if HasFourDigitPrefix(s) then s[5..] else s
  }

  /**
   * The scrubbed file name of src/index.js:161-164: without the `.md`
   * suffix, without a four-digit number prefix, dashes turned into spaces.
   * `Orchestrator.ScrubRoundTrip` shows it recovers the lower-cased ADR name
   * from a file name the tool generated.
   */
  function ScrubFileName(name: string): (r: string)
    ensures |r| <= |name| && '-' !in r
  {
    ReplaceChar(StripAdrNumber(StripMdSuffix(name)), '-', ' ')
  }

  /** The heading src/index.js:172-176 looks for in the record. */
  function SupersededHeading(fileName: string): string
  {
    RecordHeading(TitleCase(ScrubFileName(fileName)), fileName)
  }

  /**
   * The link target of an ADR's record heading, `](<file name>)`. The
   * supersedes and superseded-by notes link `./<file name>` instead, so in a
   * record the tool wrote it stands only in that ADR's heading. Searching for
   * it finds the section without re-creating the title from the file name.
   */
  function SupersededLink(fileName: string): string
  {
    "](" + fileName + ")"
  }

  /** A record heading is the title's opening and then the link target. */
  lemma HeadingEndsWithLink(title: string, fileName: string)
    ensures RecordHeading(title, fileName) == "## [" + title + SupersededLink(fileName)
  {
  }

  // ---------------------------------------------------------------------
  // The scrub with a number prefix of any width

  /** The length of the run of decimal digits `s` starts with. */
  function LeadingDigits(s: string): (k: nat)
    ensures k <= |s| && AllDigits(s[..k])
    ensures k == |s| || !IsDigit(s[k])
  {
    if |s| == 0 || !IsDigit(s[0]) then 0
    else
      var k := 1 + LeadingDigits(s[1..]);
      assert forall i :: 1 <= i < k ==> s[..k][i] == s[1..][..k - 1][i - 1];
      k
  }

  /**
   * `.replace(/^\d+-/, "")`: the number prefix stripped whatever its width.
   * The greedy digit run can only be followed by a dash if the longest run is.
   */
  function StripAnyAdrNumber(s: string): (r: string)
    ensures |r| <= |s|
  {
    var k := LeadingDigits(s);
    if 0 < k < |s| && s[k] == '-' then s[k + 1..] else s
  }

  /** The scrub of src/index.js:161-164 as evidently intended, for ADR numbers past 9999 too. */
  function ScrubFileNameAnyWidth(name: string): (r: string)
    ensures |r| <= |name| && '-' !in r
  {
    ReplaceChar(StripAnyAdrNumber(StripMdSuffix(name)), '-', ' ')
  }

  /** The heading src/index.js:172-176 would look for with the corrected scrub. */
  function SupersededHeadingAnyWidth(fileName: string): string
  {
    RecordHeading(TitleCase(ScrubFileNameAnyWidth(fileName)), fileName)
  }

  /** The corrected strip removes a number of any width and its dash. */
  lemma StripAnyNumberPrefix(number: string, rest: string)
    requires |number| >= 1 && AllDigits(number)
    ensures StripAnyAdrNumber(number + "-" + rest) == rest
  {
    var s := number + "-" + rest;
    assert s == number + ("-" + rest);
    LeadingDigitsOfNumber(number, "-" + rest);
    assert s[|number| + 1..] == rest;
  }

  /** A digit run followed by a dash is exactly the leading digit run. */
  lemma {:induction false} LeadingDigitsOfNumber(number: string, rest: string)
    requires AllDigits(number) && |rest| > 0 && rest[0] == '-'
    ensures LeadingDigits(number + rest) == |number|
    decreases |number|
  {
    if |number| > 0 {
      assert (number + rest)[1..] == number[1..] + rest;
      LeadingDigitsOfNumber(number[1..], rest);
    } else {
      assert number + rest == rest;
    }
  }

  /** `s` is where `indexOf` finds `pat` first. */
  predicate FirstOccurrence(s: string, pat: string, k: int)
  {
    Occurs(s, pat, k) && NoOccurrenceBefore(s, pat, k)
  }

  /**
   * `p` is where the note goes when the section heading starts at `start`:
   * the next "##" at or after `start + 1`, or the end of the record.
   */
  predicate InsertionPoint(content: string, start: int, p: int)
  {
    var from := ClampPosition(content, start + 1);
    && from <= p <= |content|
    && (p == |content| || Occurs(content, SectionMarker, p))
    && forall k :: from <= k < p ==> !Occurs(content, SectionMarker, k)
  }

  /** The record with the note on a line of its own at `p`. */
  function Splice(content: string, p: int, note: string): (r: string)
    requires 0 <= p <= |content|
    ensures |r| == |content| + |note| + 2
    ensures r[..p] == content[..p] && r[p + |note| + 2..] == content[p..]
    ensures r[p..p + |note| + 2] == "\n" + note + "\n"
  {
    content[..p] + "\n" + note + "\n" + content[p..]
  }

  /**
   * The record update of src/index.js:172-189: `None` when the heading is
   * not in the record (nothing is written), otherwise the record with the
   * note on a line of its own before the first "##" after the heading's
   * first occurrence, or at the end of the record when there is none. That
   * "##" may open the next section, a deeper heading such as "###" inside
   * the section, or any "##" in the section's own text.
   */
  function InsertNote(content: string, heading: string, note: string): (r: Option<string>)
    ensures r.None? <==> !Contains(content, heading)
    ensures forall s, p :: FirstOccurrence(content, heading, s) && InsertionPoint(content, s, p)
              ==> 0 <= p <= |content| && r == Some(Splice(content, p, note))
  {
    var start := IndexOf(content, heading, 0);
    if start == -1 then
      None
    else
      var next := IndexOf(content, SectionMarker, start + 1);
      var p := if next != -1 then next else |content|;
      assert InsertionPoint(content, start, p);
      UniqueInsertion(content, heading, start, p);
      Some(Splice(content, p, note))
  }

  /** The first occurrence and the insertion point after it are unique. */
  lemma UniqueInsertion(content: string, heading: string, s: int, p: int)
    requires FirstOccurrence(content, heading, s) && InsertionPoint(content, s, p)
    ensures forall s2, p2 :: FirstOccurrence(content, heading, s2) && InsertionPoint(content, s2, p2)
              ==> s2 == s && p2 == p
  {
    forall s2, p2 | FirstOccurrence(content, heading, s2) && InsertionPoint(content, s2, p2)
      ensures s2 == s && p2 == p
    {
      assert s2 <= s && s <= s2;
      assert p2 <= p && p <= p2;
    }
  }

  /** The outcome of `addSupersededByNote`: reading a missing record throws. */
  datatype Outcome = Completed(fs: FileSystem) | ReadFailed(fs: FileSystem)

  /**
   * src/index.js:155-192. The note is appended to the superseded ADR first;
   * the record is read afterwards, so a failed read leaves that append in
   * place.
   */
  function AddSupersededByNote(fs: FileSystem, fileName: string, note: string, adrDir: string, recordPath: string)
    : (r: Outcome)
    ensures var target := PathIn(adrDir, fileName);
      && r.fs.dirs == fs.dirs
      && r.fs.files.Keys == fs.files.Keys + {target}
      && (forall p :: p in fs.files && p != target && p != recordPath ==> r.fs.files[p] == fs.files[p])
      && (r.ReadFailed? <==> recordPath !in fs.files && recordPath != target)
      && (target != recordPath ==> r.fs.files[target] == fs.ContentOf(target) + note)
      && (r.Completed? ==>
            var read := if recordPath == target then fs.ContentOf(target) + note else fs.files[recordPath];
            r.fs.files[recordPath]
              == match InsertNote(read, SupersededHeading(fileName), note)
                 case None => read
                 case Some(updated) => updated)
  {
    var target := PathIn(adrDir, fileName);
    var appended := fs.Append(target, note);
    match appended.Read(recordPath)
    case None => ReadFailed(appended)
    case Some(content) =>
      match InsertNote(content, SupersededHeading(fileName), note)
      case None => Completed(appended)
      case Some(updated) => Completed(appended.Write(recordPath, updated))
  }

  // ---------------------------------------------------------------------
  // the heading round trip

  /** A note placed after a record that has the heading and no later "##". */
  lemma InsertNoteAtEnd(before: string, heading: string, after: string, note: string)
    requires |heading| > 0
    requires NoOccurrenceBefore(before + heading + after, heading, |before|)
    requires forall k :: |before| + 1 <= k < |before + heading + after| ==> !Occurs(before + heading + after, SectionMarker, k)
    ensures InsertNote(before + heading + after, heading, note) == Some(before + heading + after + "\n" + note + "\n")
  {
    var content := before + heading + after;
    assert content[|before|..|before| + |heading|] == heading;
    assert FirstOccurrence(content, heading, |before|);
    assert ClampPosition(content, |before| + 1) == |before| + 1;
    assert InsertionPoint(content, |before|, |content|);
    assert Splice(content, |content|, note) == content + "\n" + note + "\n" by {
      assert content[..|content|] == content && content[|content|..] == [];
    }
  }

  /**
   * When the heading is already in `existing` and `entry` is a new section
   * appended after it, the note goes somewhere in `existing` or right before
   * the new section's "##": the appended section stays whole at the end.
   */
  lemma InsertNoteBeforeAppendedSection(existing: string, entry: string, heading: string, note: string)
    returns (p: int)
    requires |heading| > 0 && Contains(existing, heading)
    requires |entry| >= 3 && entry[..3] == "\n##"
    ensures var r := InsertNote(existing + entry, heading, note);
      && r.Some?
      && 0 <= p <= |existing| + 1 && r.value == Splice(existing + entry, p, note)
      && EndsWith(r.value, entry[1..])
  {
    var content := existing + entry;
    var s;
    s, p := SectionPositions(existing, entry, heading);
    SpliceKeepsSuffix(content, p, note, |existing| + 1);
    assert content[|existing| + 1..] == entry[1..];
  }

  /** Where the heading and the next "##" are found in `existing + entry`. */
  lemma SectionPositions(existing: string, entry: string, heading: string) returns (s: int, p: int)
    requires |heading| > 0 && Contains(existing, heading)
    requires |entry| >= 3 && entry[..3] == "\n##"
    ensures FirstOccurrence(existing + entry, heading, s) && InsertionPoint(existing + entry, s, p)
    ensures 0 <= p <= |existing| + 1
  {
    var content := existing + entry;
    var k :| 0 <= k <= |existing| && Occurs(existing, heading, k);
    assert content[k..k + |heading|] == existing[k..k + |heading|];
    assert Occurs(content, heading, k);
    s := IndexOf(content, heading, 0);
    assert content[|existing| + 1..|existing| + 3] == entry[1..3];
    assert Occurs(content, SectionMarker, |existing| + 1);
    var next := IndexOf(content, SectionMarker, s + 1);
    p := if next != -1 then next else |content|;
  }

  /** Splicing at or before `m` keeps everything from `m` on at the end. */
  lemma SpliceKeepsSuffix(content: string, p: int, note: string, m: int)
    requires 0 <= p <= m <= |content|
    ensures var r := Splice(content, p, note);
      r[|r| - (|content| - m)..] == content[m..]
  {
    var r := Splice(content, p, note);
    assert r[p + |note| + 2..] == content[p..];
    assert r[|r| - (|content| - m)..] == r[p + |note| + 2..][m - p..];
  }
}
