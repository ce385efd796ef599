/**
 * `processAnswers` (src/index.js:107-152): numbers and names the new ADR,
 * writes its file, appends its section to the record and, when it
 * supersedes an earlier ADR, links the two.
 */
module Orchestrator {
  import opened Strings
  import opened TextUtils
  import opened Decimal
  import opened Numbering
  import opened Storage
  import opened Templates
  import opened Supersession

  /** The answers `promptUser` collects. */
  datatype Answers = Answers(adrName: string, supersedes: bool, supersededAdrFileName: string)

  /** The file name of src/index.js:120: `${adrNumber}-${kebab}.md`. */
  function AdrFileName(number: string, adrName: string): string
  {
    number + "-" + Kebab(adrName) + MdSuffix
  }

  /**
   * The note of src/index.js:126-129 for the new ADR, empty when it
   * supersedes nothing; `SupersedesNoteLinks` states the link it holds.
   */
  function SupersedesNote(answers: Answers): (r: string)
    ensures r == "" <==> !answers.supersedes
  {
    if answers.supersedes then
      "- supersedes: [" + ReplaceFirst(answers.supersededAdrFileName, MdSuffix, "") + "](./"
        + answers.supersededAdrFileName + ")"
    else ""
  }

  /**
   * The note of src/index.js:130 for the superseded ADR, empty when nothing
   * is superseded; `SupersededByNoteLinks` states the link it holds.
   */
  function SupersededByNote(answers: Answers, fileName: string): (r: string)
    ensures r == "" <==> !answers.supersedes
  {
    if answers.supersedes then "- superseded by: [" + Lower(answers.adrName) + "](./" + fileName + ")" else ""
  }

  /**
   * The supersedes note links the superseded ADR's file. Its link text is
   * the file name with the first `.md` removed, wherever that occurs:
   * `replace(".md", "")` takes out the first occurrence, which is the suffix
   * only when no `.md` comes earlier in the name.
   */
  lemma SupersedesNoteLinks(answers: Answers, a: string, b: string)
    requires answers.supersedes && answers.supersededAdrFileName == a + MdSuffix + b
    requires NoOccurrenceBefore(a + MdSuffix + b, MdSuffix, |a|)
    ensures SupersedesNote(answers) == "- supersedes: [" + (a + b) + "](./" + answers.supersededAdrFileName + ")"
  {
    ReplaceFirstAfter(a, MdSuffix, b, "");
    assert a + "" + b == a + b;
  }

  /**
   * The superseded-by note links the new ADR's file, and its link text is
   * what the scrub of src/index.js:161-164 recovers from that file name.
   */
  lemma SupersededByNoteLinks(answers: Answers, number: string)
    requires answers.supersedes && |number| == 4 && AllDigits(number)
    requires SingleSpaced(answers.adrName) && '-' !in answers.adrName
    ensures var fileName := AdrFileName(number, answers.adrName);
      SupersededByNote(answers, fileName) == "- superseded by: [" + ScrubFileName(fileName) + "](./" + fileName + ")"
  {
    ScrubRoundTrip(number, answers.adrName);
  }

  /** The paths the supersession step touches besides the new ADR and the record. */
  function SupersededPaths(answers: Answers, adrDir: string): set<string>
  {
    if answers.supersedes then {PathIn(adrDir, answers.supersededAdrFileName)} else {}
  }

  /** What the record holds once the new section is appended and, if due, the note linked. */
  function LinkedRecord(appended: string, answers: Answers, note: string): string
  {
    if !answers.supersedes then appended
    else match InsertNote(appended, SupersededHeading(answers.supersededAdrFileName), note)
      case None => appended
      case Some(updated) => updated
  }

  /**
   * The two unconditional effects of src/index.js:136 and 142, in that
   * order: the ADR file is written, then the section appended to the record
   * (so if both paths were the same, the section would follow the ADR text).
   */
  function WriteAdrAndRecord(fs: FileSystem, adrPath: string, adrContent: string, recordPath: string, entry: string)
    : (r: FileSystem)
    ensures r.dirs == fs.dirs
    ensures r.files.Keys == fs.files.Keys + {adrPath, recordPath}
    ensures forall p :: p in fs.files && p != adrPath && p != recordPath ==> r.files[p] == fs.files[p]
    ensures adrPath != recordPath ==> r.files[adrPath] == adrContent && r.files[recordPath] == fs.ContentOf(recordPath) + entry
    ensures adrPath == recordPath ==> r.files[recordPath] == adrContent + entry
  {
    fs.Write(adrPath, adrContent).Append(recordPath, entry)
  }

  /**
   * src/index.js:107-152 with the directory listing `getNextAdrNumber`
   * reads passed in as `listing`. The effects happen in the source's order:
   * the ADR file is written, then the record section appended, then the
   * supersession linked.
   */
  function ProcessAnswers(fs: FileSystem, answers: Answers, listing: seq<string>, adrTemplate: string,
                          recordTemplate: string, adrDir: string, recordPath: string): (r: FileSystem)
    requires ChosenPrefixNumeric(listing)
    ensures var fileName := AdrFileName(NextAdrNumber(listing), answers.adrName);
      var adrPath := PathIn(adrDir, fileName);
      var touched := SupersededPaths(answers, adrDir);
      var title := TitleCase(answers.adrName);
      && r.dirs == fs.dirs
      && r.files.Keys == fs.files.Keys + {adrPath, recordPath} + touched
      && (forall p :: p in fs.files && p != adrPath && p != recordPath && p !in touched ==> r.files[p] == fs.files[p])
      && (adrPath != recordPath && adrPath !in touched ==>
            r.files[adrPath] == RenderAdr(adrTemplate, title, SupersedesNote(answers)))
  {
    var fileName := AdrFileName(NextAdrNumber(listing), answers.adrName);
    var title := TitleCase(answers.adrName);
    var supersedesNote := SupersedesNote(answers);
    var created := WriteAdrAndRecord(fs, PathIn(adrDir, fileName), RenderAdr(adrTemplate, title, supersedesNote),
                                     recordPath, RenderRecordEntry(recordTemplate, title, fileName, supersedesNote));
    if answers.supersedes then
      var outcome := AddSupersededByNote(created, answers.supersededAdrFileName, SupersededByNote(answers, fileName),
                                         adrDir, recordPath);
      assert outcome.Completed?;
      outcome.fs
    else created
  }

  /**
   * The record ends up with the new section appended and, when the ADR
   * supersedes another, the superseded-by note linked into the result.
   */
  lemma ProcessAnswersRecord(fs: FileSystem, answers: Answers, listing: seq<string>, adrTemplate: string,
                             recordTemplate: string, adrDir: string, recordPath: string)
    requires ChosenPrefixNumeric(listing)
    requires var fileName := AdrFileName(NextAdrNumber(listing), answers.adrName);
      recordPath != PathIn(adrDir, fileName) && recordPath !in SupersededPaths(answers, adrDir)
    ensures var fileName := AdrFileName(NextAdrNumber(listing), answers.adrName);
      var r := ProcessAnswers(fs, answers, listing, adrTemplate, recordTemplate, adrDir, recordPath);
      var entry := RenderRecordEntry(recordTemplate, TitleCase(answers.adrName), fileName, SupersedesNote(answers));
      recordPath in r.files
      && r.files[recordPath] == LinkedRecord(fs.ContentOf(recordPath) + entry, answers, SupersededByNote(answers, fileName))
  {
  }

  /** The superseded ADR gets the superseded-by note appended. */
  lemma ProcessAnswersSupersededFile(fs: FileSystem, answers: Answers, listing: seq<string>, adrTemplate: string,
                                     recordTemplate: string, adrDir: string, recordPath: string)
    requires ChosenPrefixNumeric(listing) && answers.supersedes
    requires var fileName := AdrFileName(NextAdrNumber(listing), answers.adrName);
      var target := PathIn(adrDir, answers.supersededAdrFileName);
      target != PathIn(adrDir, fileName) && target != recordPath
    ensures var fileName := AdrFileName(NextAdrNumber(listing), answers.adrName);
      var target := PathIn(adrDir, answers.supersededAdrFileName);
      var r := ProcessAnswers(fs, answers, listing, adrTemplate, recordTemplate, adrDir, recordPath);
      target in r.files
      && r.files[target] == fs.ContentOf(target) + ("- superseded by: [" + Lower(answers.adrName) + "](./" + fileName + ")")
  {
    var fileName := AdrFileName(NextAdrNumber(listing), answers.adrName);
    var title := TitleCase(answers.adrName);
    var created := WriteAdrAndRecord(fs, PathIn(adrDir, fileName), RenderAdr(adrTemplate, title, SupersedesNote(answers)),
                                     recordPath, RenderRecordEntry(recordTemplate, title, fileName, SupersedesNote(answers)));
    var target := PathIn(adrDir, answers.supersededAdrFileName);
    assert created.ContentOf(target) == fs.ContentOf(target);
    var outcome := AddSupersededByNote(created, answers.supersededAdrFileName, SupersededByNote(answers, fileName),
                                       adrDir, recordPath);
    assert outcome.fs.files[target] == fs.ContentOf(target) + SupersededByNote(answers, fileName);
    assert ProcessAnswers(fs, answers, listing, adrTemplate, recordTemplate, adrDir, recordPath) == outcome.fs;
    assert SupersededByNote(answers, fileName) == "- superseded by: [" + Lower(answers.adrName) + "](./" + fileName + ")";
  }

  /**
   * With the default template and nothing superseded, the new ADR file is
   * the template with the title-cased name in its heading and the note
   * placeholder emptied.
   */
  lemma ProcessAnswersNewAdrFile(fs: FileSystem, answers: Answers, listing: seq<string>, adrTemplate: string,
                                 recordTemplate: string, adrDir: string, recordPath: string)
    requires adrTemplate == AdrTemplate
    requires ChosenPrefixNumeric(listing) && !answers.supersedes
    requires recordPath != PathIn(adrDir, AdrFileName(NextAdrNumber(listing), answers.adrName))
    ensures var fileName := AdrFileName(NextAdrNumber(listing), answers.adrName);
      var r := ProcessAnswers(fs, answers, listing, adrTemplate, recordTemplate, adrDir, recordPath);
      r.files[PathIn(adrDir, fileName)] == AdrHead + TitleCase(answers.adrName) + AdrMiddle + "\n"
  {
    var title := TitleCase(answers.adrName);
    assert SupersedesNote(answers) == "";
    assert RenderAdr(adrTemplate, title, "") == AdrHead + title + AdrMiddle + "\n" by {
      AdrBodyShape(answers.adrName, "");
      EmptyNoteAtEnd(AdrHead + title + AdrMiddle);
    }
  }

  lemma EmptyNoteAtEnd(body: string)
    ensures body + "" + "\n" == body + "\n"
  {
  }

  /**
   * With the default record template and nothing superseded, the record
   * gains a section headed by the title-cased name linking to the new file.
   */
  lemma ProcessAnswersNewRecordSection(fs: FileSystem, answers: Answers, listing: seq<string>, adrTemplate: string,
                                       recordTemplate: string, adrDir: string, recordPath: string)
    requires recordTemplate == RecordTemplate
    requires ChosenPrefixNumeric(listing) && !answers.supersedes
    requires recordPath != PathIn(adrDir, AdrFileName(NextAdrNumber(listing), answers.adrName))
    ensures var fileName := AdrFileName(NextAdrNumber(listing), answers.adrName);
      var r := ProcessAnswers(fs, answers, listing, adrTemplate, recordTemplate, adrDir, recordPath);
      r.files[recordPath]
        == fs.ContentOf(recordPath) + ("\n" + RecordHeading(TitleCase(answers.adrName), fileName) + RecordReminder + "\n")
  {
    var fileName := AdrFileName(NextAdrNumber(listing), answers.adrName);
    var heading := RecordHeading(TitleCase(answers.adrName), fileName);
    var existing := fs.ContentOf(recordPath);
    var section := NewSection(answers, fileName);
    RecordAfterSupersession(fs, answers, listing, adrTemplate, recordTemplate, adrDir, recordPath);
    assert LinkedRecord(existing + ("\n" + section), answers, SupersededByNote(answers, fileName))
        == existing + ("\n" + section);
    assert "\n" + section == "\n" + heading + RecordReminder + "\n" by {
      assert SupersedesNote(answers) == "";
      EmptyNoteDropped(heading, RecordReminder);
    }
  }

  lemma EmptyNoteDropped(heading: string, reminder: string)
    ensures "\n" + (heading + reminder + "" + "\n") == "\n" + heading + reminder + "\n"
  {
  }

  /** The record section of the new ADR from its heading on: the rendered entry without its leading line break. */
  function NewSection(answers: Answers, fileName: string): string
  {
    RecordHeading(TitleCase(answers.adrName), fileName) + RecordReminder + SupersedesNote(answers) + "\n"
  }

  /**
   * The order of the effects matters for the record: the new section is
   * appended before the superseded section is looked up, so when that
   * section was already in the record the note is inserted inside the old
   * part, at the latest right before the new section's heading ...
   */
  lemma SupersedingNoteInOldPart(fs: FileSystem, answers: Answers, listing: seq<string>, adrTemplate: string,
                                 recordTemplate: string, adrDir: string, recordPath: string)
    returns (p: int)
    requires recordTemplate == RecordTemplate
    requires ChosenPrefixNumeric(listing) && answers.supersedes
    requires var fileName := AdrFileName(NextAdrNumber(listing), answers.adrName);
      recordPath != PathIn(adrDir, fileName) && recordPath !in SupersededPaths(answers, adrDir)
    requires Contains(fs.ContentOf(recordPath), SupersededHeading(answers.supersededAdrFileName))
    ensures var fileName := AdrFileName(NextAdrNumber(listing), answers.adrName);
      var existing := fs.ContentOf(recordPath);
      var entry := RenderRecordEntry(recordTemplate, TitleCase(answers.adrName), fileName, SupersedesNote(answers));
      var record := ProcessAnswers(fs, answers, listing, adrTemplate, recordTemplate, adrDir, recordPath).files[recordPath];
      && 0 <= p <= |existing| + 1 && p <= |existing + entry|
      && record == Splice(existing + entry, p, SupersededByNote(answers, fileName))
  {
    var fileName := AdrFileName(NextAdrNumber(listing), answers.adrName);
    RecordAfterSupersession(fs, answers, listing, adrTemplate, recordTemplate, adrDir, recordPath);
    NewSectionStartsWithMarker(answers, fileName);
    p := LinkedRecordKeepsSection(fs.ContentOf(recordPath), NewSection(answers, fileName), answers,
                                  SupersededByNote(answers, fileName));
  }

  /** When superseding, the new section stays whole at the end of the record. */
  lemma SupersedingKeepsNewSection(fs: FileSystem, answers: Answers, listing: seq<string>, adrTemplate: string,
                                   recordTemplate: string, adrDir: string, recordPath: string)
    requires recordTemplate == RecordTemplate
    requires ChosenPrefixNumeric(listing) && answers.supersedes
    requires var fileName := AdrFileName(NextAdrNumber(listing), answers.adrName);
      recordPath != PathIn(adrDir, fileName) && recordPath !in SupersededPaths(answers, adrDir)
    requires Contains(fs.ContentOf(recordPath), SupersededHeading(answers.supersededAdrFileName))
    ensures var fileName := AdrFileName(NextAdrNumber(listing), answers.adrName);
      var record := ProcessAnswers(fs, answers, listing, adrTemplate, recordTemplate, adrDir, recordPath).files[recordPath];
      EndsWith(record, NewSection(answers, fileName))
  {
    var fileName := AdrFileName(NextAdrNumber(listing), answers.adrName);
    RecordAfterSupersession(fs, answers, listing, adrTemplate, recordTemplate, adrDir, recordPath);
    NewSectionStartsWithMarker(answers, fileName);
    var _ := LinkedRecordKeepsSection(fs.ContentOf(recordPath), NewSection(answers, fileName), answers,
                                      SupersededByNote(answers, fileName));
  }

  /** The record after `processAnswers` with the default record template, in terms of the new section. */
  lemma RecordAfterSupersession(fs: FileSystem, answers: Answers, listing: seq<string>, adrTemplate: string,
                                recordTemplate: string, adrDir: string, recordPath: string)
    requires recordTemplate == RecordTemplate
    requires ChosenPrefixNumeric(listing)
    requires var fileName := AdrFileName(NextAdrNumber(listing), answers.adrName);
      recordPath != PathIn(adrDir, fileName) && recordPath !in SupersededPaths(answers, adrDir)
    ensures var fileName := AdrFileName(NextAdrNumber(listing), answers.adrName);
      var entry := RenderRecordEntry(recordTemplate, TitleCase(answers.adrName), fileName, SupersedesNote(answers));
      && entry == "\n" + NewSection(answers, fileName)
      && ProcessAnswers(fs, answers, listing, adrTemplate, recordTemplate, adrDir, recordPath).files[recordPath]
         == LinkedRecord(fs.ContentOf(recordPath) + ("\n" + NewSection(answers, fileName)), answers,
                         SupersededByNote(answers, fileName))
  {
    var fileName := AdrFileName(NextAdrNumber(listing), answers.adrName);
    var entry := RenderRecordEntry(recordTemplate, TitleCase(answers.adrName), fileName, SupersedesNote(answers));
    assert entry == "\n" + NewSection(answers, fileName) by {
      KebabFileNameIsLowerCase(NextAdrNumber(listing), answers.adrName);
      RecordEntryShape(answers.adrName, fileName, SupersedesNote(answers));
      SectionRegroup(RecordHeading(TitleCase(answers.adrName), fileName), RecordReminder, SupersedesNote(answers));
    }
    ProcessAnswersRecord(fs, answers, listing, adrTemplate, recordTemplate, adrDir, recordPath);
  }

  lemma SectionRegroup(heading: string, reminder: string, note: string)
    ensures "\n" + heading + reminder + note + "\n" == "\n" + (heading + reminder + note + "\n")
  {
  }

  /**
   * Linking a superseded section that is already in `existing` leaves the
   * section appended after it whole at the end.
   */
  lemma LinkedRecordKeepsSection(existing: string, section: string, answers: Answers, note: string)
    returns (p: int)
    requires answers.supersedes && Contains(existing, SupersededHeading(answers.supersededAdrFileName))
    requires |section| >= 2 && section[..2] == "##"
    ensures var linked := LinkedRecord(existing + ("\n" + section), answers, note);
      && 0 <= p <= |existing| + 1 && p <= |existing + ("\n" + section)|
      && linked == Splice(existing + ("\n" + section), p, note)
      && EndsWith(linked, section)
  {
    var heading := SupersededHeading(answers.supersededAdrFileName);
    var entry := "\n" + section;
    SectionOnNewLine(section);
    HeadingNotEmpty(answers.supersededAdrFileName);
    p := InsertNoteBeforeAppendedSection(existing, entry, heading, note);
    LinkedRecordIsInsertion(existing + entry, answers, note);
  }

  /** A section put on a new line starts with a line break and "##". */
  lemma SectionOnNewLine(section: string)
    requires |section| >= 2 && section[..2] == "##"
    ensures var entry := "\n" + section;
      |entry| >= 3 && entry[..3] == "\n##" && entry[1..] == section
  {
    var entry := "\n" + section;
    assert entry[..3] == "\n" + section[..2];
  }

  /** When the superseded heading is found, linking is the insertion. */
  lemma LinkedRecordIsInsertion(appended: string, answers: Answers, note: string)
    requires answers.supersedes && InsertNote(appended, SupersededHeading(answers.supersededAdrFileName), note).Some?
    ensures LinkedRecord(appended, answers, note)
            == InsertNote(appended, SupersededHeading(answers.supersededAdrFileName), note).value
  {
  }

  /** A section rendered from the record template starts with "##". */
  lemma NewSectionStartsWithMarker(answers: Answers, fileName: string)
    ensures |NewSection(answers, fileName)| >= 2 && NewSection(answers, fileName)[..2] == "##"
  {
    var heading := RecordHeading(TitleCase(answers.adrName), fileName);
    assert heading[..2] == "##";
    assert NewSection(answers, fileName)[..2] == heading[..2];
  }

  lemma HeadingNotEmpty(fileName: string)
    ensures |SupersededHeading(fileName)| > 0
  {
  }

  /**
   * After the record section has been appended the record exists, so the
   * supersession step of `processAnswers` never fails to read it.
   */
  lemma SupersessionReadsRecord(fs: FileSystem, fileName: string, note: string, adrDir: string, recordPath: string,
                                entry: string)
    ensures AddSupersededByNote(fs.Append(recordPath, entry), fileName, note, adrDir, recordPath).Completed?
  {
  }

  // ---------------------------------------------------------------------
  // the file name and the heading round trip

  /** The new ADR's file name is an ADR candidate: a `.md` name that is not the record. */
  lemma AdrFileNameIsCandidate(number: string, adrName: string)
    requires |number| >= 1 && IsDigit(number[0])
    ensures IsAdrCandidate(AdrFileName(number, adrName))
  {
    var f := AdrFileName(number, adrName);
    assert f == (number + "-" + Kebab(adrName)) + MdSuffix;
    assert f[|f| - 3..] == MdSuffix;
    assert f[0] == number[0];
    assert RecordFileName[0] == 'R';
  }

  /**
   * The new ADR never reuses the name of an ADR already in the directory,
   * as long as every ADR there is named `NNNN-…`.
   */
  lemma NewAdrFileIsFresh(listing: seq<string>, adrName: string)
    requires forall n :: n in AdrCandidates(listing) ==> HasFourDigitPrefix(n)
    ensures ChosenPrefixNumeric(listing) && AdrFileName(NextAdrNumber(listing), adrName) !in listing
  {
    var candidates := AdrCandidates(listing);
    if |candidates| == 0 {
      assert ChosenPrefixNumeric(listing);
      AdrFileNameIsCandidate(NextAdrNumber(listing), adrName);
    } else {
      NextAdrNumberIsMaxPlusOne(listing);
      var number := NextAdrNumber(listing);
      AdrFileNameIsCandidate(number, adrName);
      FileNameNotAmong(number, adrName, candidates, MaxAdrNumber(candidates));
    }
  }

  /**
   * `listing` is what `readdirSync(adrDir)` returns in the state `fs`: every
   * file of the ADR directory is listed. The condition also covers names
   * holding `/`, which `readdirSync` never returns, so it asks slightly more
   * of the listing than a real directory read gives; it is met whenever no
   * file lies in a subdirectory of `adrDir`.
   */
  ghost predicate ListsDir(fs: FileSystem, adrDir: string, listing: seq<string>)
  {
    forall n :: PathIn(adrDir, n) in fs.files ==> n in listing
  }

  /** The new ADR's path names no file of the directory yet, so writing it overwrites nothing. */
  lemma NewAdrPathIsFresh(fs: FileSystem, adrDir: string, listing: seq<string>, adrName: string)
    requires ListsDir(fs, adrDir, listing)
    requires forall n :: n in AdrCandidates(listing) ==> HasFourDigitPrefix(n)
    ensures ChosenPrefixNumeric(listing)
    ensures PathIn(adrDir, AdrFileName(NextAdrNumber(listing), adrName)) !in fs.files
  {
    NewAdrFileIsFresh(listing, adrName);
  }

  /**
   * With the record at `RECORD.md` in the ADR directory and the superseded
   * ADR one of the choices `promptUser` offers (src/index.js:96-98), the new
   * ADR's path is neither the record's nor the superseded ADR's.
   */
  lemma ProcessAnswersPathsDistinct(answers: Answers, listing: seq<string>, adrDir: string)
    requires forall n :: n in AdrCandidates(listing) ==> HasFourDigitPrefix(n)
    requires answers.supersedes ==> answers.supersededAdrFileName in AdrCandidates(listing)
    ensures ChosenPrefixNumeric(listing)
    ensures var adrPath := PathIn(adrDir, AdrFileName(NextAdrNumber(listing), answers.adrName));
      adrPath != PathIn(adrDir, RecordFileName) && adrPath !in SupersededPaths(answers, adrDir)
  {
    NewAdrFileIsFresh(listing, answers.adrName);
    var number := NextAdrNumber(listing);
    var fileName := AdrFileName(number, answers.adrName);
    AdrFileNameIsCandidate(number, answers.adrName);
    if PathIn(adrDir, fileName) == PathIn(adrDir, RecordFileName) {
      PathInInjective(adrDir, fileName, RecordFileName);
    }
    if answers.supersedes && PathIn(adrDir, fileName) == PathIn(adrDir, answers.supersededAdrFileName) {
      PathInInjective(adrDir, fileName, answers.supersededAdrFileName);
    }
  }

  /**
   * In a directory whose ADRs are all numbered `NNNN-…`, with the record at
   * `RECORD.md` beside them, `processAnswers` creates a new file for the ADR,
   * holding the rendered template, and overwrites no existing file with it.
   */
  lemma ProcessAnswersCreatesAdr(fs: FileSystem, answers: Answers, listing: seq<string>, adrTemplate: string,
                                 recordTemplate: string, adrDir: string)
    requires ListsDir(fs, adrDir, listing)
    requires forall n :: n in AdrCandidates(listing) ==> HasFourDigitPrefix(n)
    requires answers.supersedes ==> answers.supersededAdrFileName in AdrCandidates(listing)
    ensures ChosenPrefixNumeric(listing)
    ensures var adrPath := PathIn(adrDir, AdrFileName(NextAdrNumber(listing), answers.adrName));
      var r := ProcessAnswers(fs, answers, listing, adrTemplate, recordTemplate, adrDir, PathIn(adrDir, RecordFileName));
      adrPath !in fs.files && adrPath in r.files
      && r.files[adrPath] == RenderAdr(adrTemplate, TitleCase(answers.adrName), SupersedesNote(answers))
  {
    NewAdrPathIsFresh(fs, adrDir, listing, answers.adrName);
    ProcessAnswersPathsDistinct(answers, listing, adrDir);
  }

  /**
   * With the corrected numbering the new ADR's name is fresh in every
   * directory, whatever the width of the numbers in it.
   */
  lemma NewAdrFileIsFreshByValue(listing: seq<string>, adrName: string)
    ensures AdrFileName(NextAdrNumberByValue(listing), adrName) !in listing
  {
    var number := NextAdrNumberByValue(listing);
    var f := AdrFileName(number, adrName);
    AdrFileNameIsCandidate(number, adrName);
    FileNameStartsWithNumber(number, adrName);
    assert f[|number|] == '-';
    FirstFieldBeforeDash(f, |number|);
    NextAdrNumberByValueIsFresh(listing);
  }

  /** A file name whose number is above every listed ADR number is not listed. */
  lemma FileNameNotAmong(number: string, adrName: string, candidates: seq<string>, top: nat)
    requires AllDigits(number) && |number| >= 4 && DigitsValue(number) == top + 1
    requires forall n :: n in candidates ==> HasFourDigitPrefix(n) && AdrNumberOf(n) <= top
    ensures AdrFileName(number, adrName) !in candidates
  {
    var f := AdrFileName(number, adrName);
    FileNameStartsWithNumber(number, adrName);
    forall n | n in candidates ensures n != f {
      NumberedNamesDiffer(number, f, n, top);
    }
  }

  lemma FileNameStartsWithNumber(number: string, adrName: string)
    ensures |number| < |AdrFileName(number, adrName)| && AdrFileName(number, adrName)[..|number|] == number
  {
    var f := AdrFileName(number, adrName);
    forall i | 0 <= i < |number| ensures f[i] == number[i] {
    }
  }

  /** A name starting with `number` differs from one whose four-digit number is below it. */
  lemma NumberedNamesDiffer(number: string, f: string, n: string, top: nat)
    requires AllDigits(number) && |number| >= 4 && DigitsValue(number) == top + 1
    requires |number| <= |f| && f[..|number|] == number
    requires HasFourDigitPrefix(n) && AdrNumberOf(n) <= top
    ensures n != f
  {
    if |number| == 4 {
      assert n[..4] != f[..4];
    } else {
      assert f[4] == number[4] && IsDigit(f[4]);
    }
  }

  /**
   * Scrubbing an ADR file name gives back the ADR's name in lower case when
   * the number has four digits and the name has no dash and no whitespace
   * but single spaces.
   */
  lemma ScrubRoundTrip(number: string, adrName: string)
    requires |number| == 4 && AllDigits(number)
    requires SingleSpaced(adrName) && '-' !in adrName
    ensures ScrubFileName(AdrFileName(number, adrName)) == Lower(adrName)
  {
    var kebab := Kebab(adrName);
    var stem := number + "-" + kebab;
    FileNameStem(number, adrName);
    assert HasFourDigitPrefix(stem) by {
      assert stem[..4] == number;
    }
    assert StripAdrNumber(stem) == kebab by {
      assert stem[5..] == kebab;
    }
    KebabScrubbed(adrName);
  }

  /** Without its `.md` suffix an ADR file name is the number, a dash and the slug. */
  lemma FileNameStem(number: string, adrName: string)
    ensures StripMdSuffix(AdrFileName(number, adrName)) == number + "-" + Kebab(adrName)
  {
    var f := AdrFileName(number, adrName);
    var stem := number + "-" + Kebab(adrName);
    assert f == stem + MdSuffix;
    assert EndsWith(f, MdSuffix) by {
      assert f[|f| - 3..] == MdSuffix;
    }
    assert f[..|f| - 3] == stem;
  }

  /** Turning the slug's dashes back into spaces gives the lower-cased name. */
  lemma KebabScrubbed(adrName: string)
    requires SingleSpaced(adrName) && '-' !in adrName
    ensures ReplaceChar(Kebab(adrName), '-', ' ') == Lower(adrName)
  {
    KebabSingleSpaced(adrName);
    var scrubbed := ReplaceChar(Kebab(adrName), '-', ' ');
    forall i | 0 <= i < |adrName| ensures scrubbed[i] == Lower(adrName)[i] {
      assert adrName[i] != '-';
      CaseMapFacts(adrName[i]);
    }
  }

  /** The corrected scrub gives the name back for an ADR number of any width. */
  lemma ScrubRoundTripAnyWidth(number: string, adrName: string)
    requires |number| >= 1 && AllDigits(number)
    requires SingleSpaced(adrName) && '-' !in adrName
    ensures ScrubFileNameAnyWidth(AdrFileName(number, adrName)) == Lower(adrName)
  {
    var kebab := Kebab(adrName);
    var stem := number + "-" + kebab;
    FileNameStem(number, adrName);
    StripAnyNumberPrefix(number, kebab);
    KebabScrubbed(adrName);
  }

  /**
   * With the corrected scrub the heading searched for is the heading
   * `processAnswers` wrote, also past ADR 9999.
   */
  lemma HeadingRoundTripAnyWidth(number: string, adrName: string)
    requires |number| >= 1 && AllDigits(number)
    requires SingleSpaced(adrName) && '-' !in adrName
    ensures SupersededHeadingAnyWidth(AdrFileName(number, adrName))
         == RecordHeading(TitleCase(adrName), AdrFileName(number, adrName))
  {
    ScrubRoundTripAnyWidth(number, adrName);
    TitleCaseOfLower(adrName);
  }

  /**
   * The heading `addSupersededByNote` searches for is the heading
   * `processAnswers` wrote for that ADR.
   */
  lemma HeadingRoundTrip(number: string, adrName: string)
    requires |number| == 4 && AllDigits(number)
    requires SingleSpaced(adrName) && '-' !in adrName
    ensures SupersededHeading(AdrFileName(number, adrName))
         == RecordHeading(TitleCase(adrName), AdrFileName(number, adrName))
  {
    ScrubRoundTrip(number, adrName);
    TitleCaseOfLower(adrName);
  }

  /**
   * With the default template, a record that holds the section
   * `processAnswers` appended for an ADR is found again when that ADR is
   * superseded, and gets the note.
   */
  lemma SupersedingFindsSection(before: string, number: string, adrName: string, entryNote: string,
                                after: string, note: string)
    requires |number| == 4 && AllDigits(number)
    requires SingleSpaced(adrName) && '-' !in adrName
    ensures var fileName := AdrFileName(number, adrName);
      InsertNote(before + RenderRecordEntry(RecordTemplate, TitleCase(adrName), fileName, entryNote) + after,
                 SupersededHeading(fileName), note).Some?
  {
    var fileName := AdrFileName(number, adrName);
    var heading := RecordHeading(TitleCase(adrName), fileName);
    KebabFileNameIsLowerCase(number, adrName);
    RecordEntryShape(adrName, fileName, entryNote);
    HeadingRoundTrip(number, adrName);
    ContainsInside(before, heading, RecordReminder, entryNote, after);
  }

  lemma ContainsInside(before: string, heading: string, reminder: string, note: string, after: string)
    ensures Contains(before + ("\n" + heading + reminder + note + "\n") + after, heading)
  {
    var content := before + ("\n" + heading + reminder + note + "\n") + after;
    assert content == (before + "\n") + heading + (reminder + note + "\n" + after);
    assert content[|before| + 1..|before| + 1 + |heading|] == heading;
    assert Occurs(content, heading, |before| + 1);
  }

  /** ADR file names carry no upper-case letters. */
  lemma KebabFileNameIsLowerCase(number: string, adrName: string)
    requires AllDigits(number)
    ensures NoUpperAscii(AdrFileName(number, adrName))
  {
    var f := AdrFileName(number, adrName);
    var kebab := Kebab(adrName);
    assert f == number + "-" + kebab + ".md";
    forall i | 0 <= i < |f| ensures !IsUpperAscii(f[i]) {
      if i < |number| {
        assert f[i] == number[i];
      } else if i == |number| {
        assert f[i] == '-';
      } else if i < |number| + 1 + |kebab| {
        assert f[i] == kebab[i - |number| - 1];
      } else {
        assert f[i] == ".md"[i - |number| - 1 - |kebab|];
      }
    }
  }

  /**
   * A number of five or more digits is not stripped by the scrub, so the
   * heading searched for then is not the heading the ADR was written with.
   */
  lemma WideNumberNotStripped(fileName: string)
    requires fileName == "10000-cache.md"
    ensures ScrubFileName(fileName) == "10000 cache"
    ensures SupersededHeading(fileName) != RecordHeading(TitleCase("cache"), fileName)
  {
    assert StripMdSuffix(fileName) == "10000-cache" by {
      assert EndsWith(fileName, MdSuffix) by {
        assert fileName[|fileName| - 3..] == ".md";
      }
      assert fileName[..|fileName| - 3] == "10000-cache";
    }
    assert !HasFourDigitPrefix("10000-cache") by {
      assert "10000-cache"[4] == '0';
    }
    var scrubbed := ReplaceChar("10000-cache", '-', ' ');
    assert scrubbed == "10000 cache" by {
      forall i | 0 <= i < 11 ensures scrubbed[i] == "10000 cache"[i] {
      }
    }
    assert |SupersededHeading(fileName)| == |RecordHeading(TitleCase("cache"), fileName)| + 6;
  }

  /**
   * A dash in the name is kept in the title written to the record but turned
   * into a space by the scrub, so the heading searched for is not the
   * heading written: "use node-js" is written as `## [Use Node-js](…)` and
   * searched for as `## [Use Node Js](…)`.
   */
  lemma DashedNameNotFound(name: string, fileName: string)
    requires name == "use node-js" && fileName == AdrFileName("0003", name)
    ensures fileName == "0003-use-node-js.md"
    ensures SupersededHeading(fileName) != RecordHeading(TitleCase(name), fileName)
  {
    DashedNameFile(name, fileName);
    var scrubbed := ScrubFileName(fileName);
    DashedNameScrub(fileName, scrubbed);
    DashedNameTitles(scrubbed, name);
    HeadingAt(TitleCase(scrubbed), fileName, 9);
    HeadingAt(TitleCase(name), fileName, 9);
  }

  lemma DashedNameFile(name: string, fileName: string)
    requires name == "use node-js" && fileName == AdrFileName("0003", name)
    ensures fileName == "0003-use-node-js.md"
  {
    assert SingleSpaced(name);
    KebabSingleSpaced(name);
    assert Kebab(name) == "use-node-js";
  }

  lemma DashedNameScrub(fileName: string, scrubbed: string)
    requires fileName == "0003-use-node-js.md" && scrubbed == ScrubFileName(fileName)
    ensures scrubbed == "use node js"
  {
    var stem := "0003-use-node-js";
    assert StripMdSuffix(fileName) == stem by {
      assert fileName[|fileName| - 3..] == MdSuffix;
      assert fileName[..|fileName| - 3] == stem;
    }
    assert StripAdrNumber(stem) == "use-node-js" by {
      assert stem[..4] == "0003";
      assert stem[5..] == "use-node-js";
    }
    assert scrubbed == ReplaceChar("use-node-js", '-', ' ');
    forall i | 0 <= i < 11 ensures scrubbed[i] == "use node js"[i] {
    }
  }

  lemma DashedNameTitles(scrubbed: string, name: string)
    requires scrubbed == "use node js" && name == "use node-js"
    ensures |TitleCase(scrubbed)| > 9 && TitleCase(scrubbed)[9] == 'J'
    ensures |TitleCase(name)| > 9 && TitleCase(name)[9] == 'j'
  {
    assert StartsToken(scrubbed, 9);
    assert !StartsToken(name, 9);
  }

  /**
   * A run of spaces is kept in the title written to the record but becomes a
   * single dash in the file name and a single space in the scrub: "a  b" is
   * written as `## [A  B](…)` and searched for as `## [A B](…)`.
   */
  lemma DoubleSpaceNotFound(name: string, fileName: string)
    requires name == "a  b" && fileName == AdrFileName("0003", name)
    ensures fileName == "0003-a-b.md"
    ensures SupersededHeading(fileName) != RecordHeading(TitleCase(name), fileName)
  {
    assert name == "a" + "  " + "b";
    KebabRun("a", "  ", "b");
    assert SingleSpaced("b");
    KebabSingleSpaced("b");
    var kebab := Kebab(name);
    assert kebab == "a-b";
    var stem := "0003-" + kebab;
    FileNameStem("0003", name);
    assert HasFourDigitPrefix(stem) by {
      assert stem[..4] == "0003";
    }
    assert StripAdrNumber(stem) == kebab by {
      assert stem[5..] == kebab;
    }
    assert |ScrubFileName(fileName)| == 3;
    assert |SupersededHeading(fileName)| + 1 == |RecordHeading(TitleCase(name), fileName)|;
  }

  /**
   * Located by its link target instead of its re-created title, the section
   * rendered for an ADR is found for every name and every number width.
   */
  lemma LinkFindsSection(before: string, number: string, adrName: string, entryNote: string,
                         after: string, note: string)
    requires AllDigits(number)
    ensures var fileName := AdrFileName(number, adrName);
      InsertNote(before + RenderRecordEntry(RecordTemplate, TitleCase(adrName), fileName, entryNote) + after,
                 SupersededLink(fileName), note).Some?
  {
    var fileName := AdrFileName(number, adrName);
    var title := TitleCase(adrName);
    var link := SupersededLink(fileName);
    var heading := RecordHeading(title, fileName);
    KebabFileNameIsLowerCase(number, adrName);
    RecordEntryShape(adrName, fileName, entryNote);
    HeadingEndsWithLink(title, fileName);
    ContainsLinkInside(before, "## [" + title, link, RecordReminder, entryNote, after);
  }

  /** The title stands in a record heading after `## [`. */
  lemma HeadingAt(title: string, fileName: string, i: int)
    requires 0 <= i < |title|
    ensures RecordHeading(title, fileName)[4 + i] == title[i]
  {
  }

  lemma ContainsLinkInside(before: string, lead: string, link: string, reminder: string, note: string, after: string)
    ensures Contains(before + ("\n" + (lead + link) + reminder + note + "\n") + after, link)
  {
    var content := before + ("\n" + (lead + link) + reminder + note + "\n") + after;
    assert content == (before + "\n" + lead) + link + (reminder + note + "\n" + after);
    assert content[|before| + 1 + |lead|..|before| + 1 + |lead| + |link|] == link;
    assert Occurs(content, link, |before| + 1 + |lead|);
  }
}
