/**
 * The two document templates (src/index.js:5-38) and their rendering with
 * `String.prototype.replace` (src/index.js:133-141). Each `replace` has a
 * string pattern and so fills only the first occurrence of a placeholder.
 */
module Templates {
  import opened Strings
  import opened TextUtils

  const TitlePlaceholder: string := "{{adrTitleCase}}"
  const FileNamePlaceholder: string := "{{adrFileName}}"
  const NotePlaceholder: string := "{{supersedesNote}}"

  /** The text of the ADR template up to the title placeholder. */
  const AdrHead: string := "\n# "

  /*
   * The sections of the ADR template between the title and the note
   * placeholders. The literals are cut into short pieces only to keep proofs
   * about their characters cheap.
   */
  /** The "Context and Problem Statement" section. */
  const ContextSection: string :=
    "\n\n## Context and " + "Problem Statement\n\n" + "<!-- write a few short " + "sentences about the problem " + "faced and any context " + "involved -->\n\n"

  /** The "Considered Alternatives" section. */
  const AlternativesSection: string :=
    "## Considered Alternatives\n\n" + "<!-- bullet list of any " + "other considerations. " + "Can include notes -->\n\n"

  /** The "Decision Outcome" section. */
  const OutcomeSection: string :=
    "## Decision Outcome\n\n" + "<!-- short description " + "of the outcome -->\n\n"

  /** The "Accepted Costs / Tradeoffs" section. */
  const CostsSection: string :=
    "## Accepted Costs / Tradeoffs\n\n" + "<!-- We considered X and " + "decided it was mitigated " + "by Y, it came with Z " + "downside -->\n\n"

  /** The "More Information" section. */
  const MoreInformationSection: string :=
    "## More Information\n\n" + "<!-- optional section, feel " + "free to delete entirely " + "or add links / more " + "detail -->\n\n"

  const RecordNotesHeading: string := "## Record notes\n"

  /** The text of the ADR template between the title and the note placeholders. */
  const AdrMiddle: string :=
    ContextSection + AlternativesSection + OutcomeSection + CostsSection + MoreInformationSection + RecordNotesHeading

  /** `adrTemplate`, the body of a new ADR file. */
  const AdrTemplate: string := AdrHead + TitlePlaceholder + AdrMiddle + NotePlaceholder + "\n"

  /** The reminder a new record section carries under its heading. */
  const RecordReminder: string :=
    "\n\n<!-- EDIT ME!! Please add " + "full decision outcome text " + "here before committing -->\n\n"

  /** The text of the record template between the file-name and the note placeholders. */
  const RecordMiddle: string := ")" + RecordReminder

  /** `recordTemplate`, one ADR's section of the record. */
  const RecordTemplate: string :=
    "\n## [" + TitlePlaceholder + "](" + FileNamePlaceholder + RecordMiddle + NotePlaceholder + "\n"

  /** The heading line of an ADR's section in the record. */
  function RecordHeading(title: string, fileName: string): string
  {
    "## [" + title + "](" + fileName + ")"
  }

  /** src/index.js:133-135. */
  function RenderAdr(template: string, title: string, note: string): string
  {
    ReplaceFirst(ReplaceFirst(template, TitlePlaceholder, title), NotePlaceholder, note)
  }

  /** src/index.js:138-141. */
  function RenderRecordEntry(template: string, title: string, fileName: string, note: string): string
  {
    ReplaceFirst(ReplaceFirst(ReplaceFirst(template, TitlePlaceholder, title), FileNamePlaceholder, fileName),
                 NotePlaceholder, note)
  }

  /** Neither later placeholder can turn up inside a title-cased name. */
  lemma TitleAvoidsPlaceholders(name: string)
    ensures Avoids(TitleCase(name), FileNamePlaceholder)
    ensures Avoids(TitleCase(name), NotePlaceholder)
  {
    assert FileNamePlaceholder[5] == 'F' && FileNamePlaceholder[4] == 'r';
    TitleCaseAvoids(name, FileNamePlaceholder, 5);
    assert NotePlaceholder[12] == 'N' && NotePlaceholder[11] == 's';
    TitleCaseAvoids(name, NotePlaceholder, 12);
  }

  /*
   * The fixed texts hold no `{`, so no placeholder can start inside them.
   * The `...PiecesHaveNoBrace` proof steps check the template literals two
   * pieces at a time, which keeps each proof small.
   */
  lemma ContextSectionHasNoBrace()
    ensures '{' !in ContextSection
  {
    ContextSectionPiecesHaveNoBrace1();
    ContextSectionPiecesHaveNoBrace2();
    ContextSectionPiecesHaveNoBrace3();
  }

  lemma ContextSectionPiecesHaveNoBrace1()
    ensures '{' !in "\n\n## Context and "
    ensures '{' !in "Problem Statement\n\n"
  {
  }

  lemma ContextSectionPiecesHaveNoBrace2()
    ensures '{' !in "<!-- write a few short "
    ensures '{' !in "sentences about the problem "
  {
  }

  lemma ContextSectionPiecesHaveNoBrace3()
    ensures '{' !in "faced and any context "
    ensures '{' !in "involved -->\n\n"
  {
  }

  lemma AlternativesSectionHasNoBrace()
    ensures '{' !in AlternativesSection
  {
    AlternativesSectionPiecesHaveNoBrace1();
    AlternativesSectionPiecesHaveNoBrace2();
  }

  lemma AlternativesSectionPiecesHaveNoBrace1()
    ensures '{' !in "## Considered Alternatives\n\n"
    ensures '{' !in "<!-- bullet list of any "
  {
  }

  lemma AlternativesSectionPiecesHaveNoBrace2()
    ensures '{' !in "other considerations. "
    ensures '{' !in "Can include notes -->\n\n"
  {
  }

  lemma OutcomeSectionHasNoBrace()
    ensures '{' !in OutcomeSection
  {
    OutcomeSectionPiecesHaveNoBrace1();
    OutcomeSectionPiecesHaveNoBrace2();
  }

  lemma OutcomeSectionPiecesHaveNoBrace1()
    ensures '{' !in "## Decision Outcome\n\n"
    ensures '{' !in "<!-- short description "
  {
  }

  lemma OutcomeSectionPiecesHaveNoBrace2()
    ensures '{' !in "of the outcome -->\n\n"
  {
  }

  lemma CostsSectionHasNoBrace()
    ensures '{' !in CostsSection
  {
    CostsSectionPiecesHaveNoBrace1();
    CostsSectionPiecesHaveNoBrace2();
    CostsSectionPiecesHaveNoBrace3();
  }

  lemma CostsSectionPiecesHaveNoBrace1()
    ensures '{' !in "## Accepted Costs / Tradeoffs\n\n"
    ensures '{' !in "<!-- We considered X and "
  {
  }

  lemma CostsSectionPiecesHaveNoBrace2()
    ensures '{' !in "decided it was mitigated "
    ensures '{' !in "by Y, it came with Z "
  {
  }

  lemma CostsSectionPiecesHaveNoBrace3()
    ensures '{' !in "downside -->\n\n"
  {
  }

  lemma MoreInformationSectionHasNoBrace()
    ensures '{' !in MoreInformationSection
  {
    MoreInformationSectionPiecesHaveNoBrace1();
    MoreInformationSectionPiecesHaveNoBrace2();
    MoreInformationSectionPiecesHaveNoBrace3();
  }

  lemma MoreInformationSectionPiecesHaveNoBrace1()
    ensures '{' !in "## More Information\n\n"
    ensures '{' !in "<!-- optional section, feel "
  {
  }

  lemma MoreInformationSectionPiecesHaveNoBrace2()
    ensures '{' !in "free to delete entirely "
    ensures '{' !in "or add links / more "
  {
  }

  lemma MoreInformationSectionPiecesHaveNoBrace3()
    ensures '{' !in "detail -->\n\n"
  {
  }

  lemma AdrMiddleHasNoBrace()
    ensures '{' !in AdrMiddle && AdrMiddle[0] == '\n'
  {
    ContextSectionHasNoBrace();
    AlternativesSectionHasNoBrace();
    OutcomeSectionHasNoBrace();
    CostsSectionHasNoBrace();
    MoreInformationSectionHasNoBrace();
    assert '{' !in RecordNotesHeading;
    assert ContextSection[0] == '\n';
  }

  lemma RecordMiddleHasNoBrace()
    ensures '{' !in RecordMiddle && RecordMiddle[0] == ')'
  {
    ReminderPiecesHaveNoBrace1();
    ReminderPiecesHaveNoBrace2();
  }

  lemma ReminderPiecesHaveNoBrace1()
    ensures '{' !in "\n\n<!-- EDIT ME!! Please add "
    ensures '{' !in "full decision outcome text "
  {
  }

  lemma ReminderPiecesHaveNoBrace2()
    ensures '{' !in "here before committing -->\n\n"
  {
  }

  lemma PlaceholderCharacters()
    ensures '\n' !in NotePlaceholder && ')' !in NotePlaceholder
    ensures ']' !in NotePlaceholder && ']' !in FileNamePlaceholder
  {
  }

  /**
   * Rendering a template of the ADR's shape fills the title and the note in
   * place, provided the title cannot be mistaken for the note placeholder.
   */
  lemma RenderAdrShape(head: string, middle: string, title: string, note: string)
    requires '{' !in head && '{' !in middle && |middle| > 0 && middle[0] !in NotePlaceholder
    requires Avoids(title, NotePlaceholder)
    ensures RenderAdr(head + TitlePlaceholder + middle + NotePlaceholder + "\n", title, note)
         == head + title + middle + note + "\n"
  {
    FillTitle(head, middle + NotePlaceholder + "\n", title);
    assert head + TitlePlaceholder + middle + NotePlaceholder + "\n"
        == head + TitlePlaceholder + (middle + NotePlaceholder + "\n");
    assert head + title + (middle + NotePlaceholder + "\n") == head + title + middle + NotePlaceholder + "\n";
    FillNoteAfterTitle(head, title, middle, note);
  }

  /** The first replacement: the title placeholder directly after a brace-free head. */
  lemma FillTitle(head: string, rest: string, title: string)
    requires '{' !in head
    ensures ReplaceFirst(head + TitlePlaceholder + rest, TitlePlaceholder, title) == head + title + rest
  {
    StartFree(head, TitlePlaceholder + rest, TitlePlaceholder);
    assert head + (TitlePlaceholder + rest) == head + TitlePlaceholder + rest;
    ReplaceFirstAfter(head, TitlePlaceholder, rest, title);
  }

  /** The ADR's second replacement: the note placeholder after the title. */
  lemma FillNoteAfterTitle(head: string, title: string, middle: string, note: string)
    requires '{' !in head && '{' !in middle && |middle| > 0 && middle[0] !in NotePlaceholder
    requires Avoids(title, NotePlaceholder)
    ensures ReplaceFirst(head + title + middle + NotePlaceholder + "\n", NotePlaceholder, note)
         == head + title + middle + note + "\n"
  {
    var s := head + title + middle + NotePlaceholder + "\n";
    StartFree(head, title + middle + (NotePlaceholder + "\n"), NotePlaceholder);
    assert head + (title + middle + (NotePlaceholder + "\n")) == s == head + title + middle + (NotePlaceholder + "\n");
    ExtendPastAvoiding(head, title, middle, NotePlaceholder + "\n", NotePlaceholder);
    assert (head + title + middle) + NotePlaceholder + "\n" == s;
    ReplaceFirstAfter(head + title + middle, NotePlaceholder, "\n", note);
  }

  /**
   * A new ADR file is the template with exactly the title-cased name in the
   * heading and exactly the note under "Record notes", nothing else changed.
   */
  lemma AdrBodyShape(name: string, note: string)
    ensures RenderAdr(AdrTemplate, TitleCase(name), note)
         == AdrHead + TitleCase(name) + AdrMiddle + note + "\n"
  {
    AdrMiddleHasNoBrace();
    PlaceholderCharacters();
    TitleAvoidsPlaceholders(name);
    RenderAdrShape(AdrHead, AdrMiddle, TitleCase(name), note);
  }

  /**
   * Rendering a template of the record's shape fills the title, the file
   * name and the note in place, provided neither filled-in value can be
   * mistaken for a later placeholder.
   */
  lemma RenderRecordShape(head: string, sep: string, middle: string, title: string, fileName: string, note: string)
    requires '{' !in head && '{' !in sep && '{' !in middle
    requires |sep| > 0 && sep[0] !in FileNamePlaceholder && sep[0] !in NotePlaceholder
    requires |middle| > 0 && middle[0] !in NotePlaceholder
    requires Avoids(title, FileNamePlaceholder) && Avoids(title, NotePlaceholder)
    requires Avoids(fileName, NotePlaceholder)
    ensures RenderRecordEntry(head + TitlePlaceholder + sep + FileNamePlaceholder + middle + NotePlaceholder + "\n",
                              title, fileName, note)
         == head + title + sep + fileName + middle + note + "\n"
  {
    FillTitleAndFileName(head, sep, middle + NotePlaceholder + "\n", title, fileName);
    ConcatAssoc(head + TitlePlaceholder + sep + FileNamePlaceholder, middle, NotePlaceholder, "\n");
    ConcatAssoc(head + title + sep + fileName, middle, NotePlaceholder, "\n");
    FillNoteAfterFileName(head, title, sep, fileName, middle, note);
  }

  /** The record's first two replacements: the title, then the file name. */
  lemma FillTitleAndFileName(head: string, sep: string, rest: string, title: string, fileName: string)
    requires '{' !in head && '{' !in sep && |sep| > 0 && sep[0] !in FileNamePlaceholder
    requires Avoids(title, FileNamePlaceholder)
    ensures ReplaceFirst(ReplaceFirst(head + TitlePlaceholder + sep + FileNamePlaceholder + rest, TitlePlaceholder, title),
                         FileNamePlaceholder, fileName)
         == head + title + sep + fileName + rest
  {
    FillTitle(head, sep + FileNamePlaceholder + rest, title);
    assert head + TitlePlaceholder + (sep + FileNamePlaceholder + rest) == head + TitlePlaceholder + sep + FileNamePlaceholder + rest;
    assert head + title + (sep + FileNamePlaceholder + rest) == head + title + sep + FileNamePlaceholder + rest;
    FillFileName(head, title, sep, rest, fileName);
  }

  /** The record's second replacement: the file-name placeholder after the title. */
  lemma FillFileName(head: string, title: string, sep: string, rest: string, fileName: string)
    requires '{' !in head && '{' !in sep && |sep| > 0 && sep[0] !in FileNamePlaceholder
    requires Avoids(title, FileNamePlaceholder)
    ensures ReplaceFirst(head + title + sep + FileNamePlaceholder + rest, FileNamePlaceholder, fileName)
         == head + title + sep + fileName + rest
  {
    var s := head + title + sep + FileNamePlaceholder + rest;
    StartFree(head, title + sep + (FileNamePlaceholder + rest), FileNamePlaceholder);
    assert head + (title + sep + (FileNamePlaceholder + rest)) == s == head + title + sep + (FileNamePlaceholder + rest);
    ExtendPastAvoiding(head, title, sep, FileNamePlaceholder + rest, FileNamePlaceholder);
    assert (head + title + sep) + FileNamePlaceholder + rest == s;
    ReplaceFirstAfter(head + title + sep, FileNamePlaceholder, rest, fileName);
  }

  /** The record's third replacement: the note placeholder after the file name. */
  lemma FillNoteAfterFileName(head: string, title: string, sep: string, fileName: string, middle: string, note: string)
    requires '{' !in head && '{' !in sep && '{' !in middle
    requires |sep| > 0 && sep[0] !in NotePlaceholder && |middle| > 0 && middle[0] !in NotePlaceholder
    requires Avoids(title, NotePlaceholder) && Avoids(fileName, NotePlaceholder)
    ensures ReplaceFirst(head + title + sep + fileName + middle + NotePlaceholder + "\n", NotePlaceholder, note)
         == head + title + sep + fileName + middle + note + "\n"
  {
    var s := head + title + sep + fileName + middle + NotePlaceholder + "\n";
    var tail := NotePlaceholder + "\n";
    StartFree(head, title + sep + (fileName + middle + tail), NotePlaceholder);
    assert head + (title + sep + (fileName + middle + tail)) == s == head + title + sep + (fileName + middle + tail);
    ExtendPastAvoiding(head, title, sep, fileName + middle + tail, NotePlaceholder);
    var x := head + title + sep;
    assert x + fileName + middle + tail == s;
    ExtendPastAvoiding(x, fileName, middle, tail, NotePlaceholder);
    assert (x + fileName + middle) + NotePlaceholder + "\n" == s;
    ReplaceFirstAfter(x + fileName + middle, NotePlaceholder, "\n", note);
  }

  /**
   * A new record section is the heading built from the title-cased name and
   * the file name, the fixed reminder text and then the note, provided the
   * file name has no upper-case letters (ADR file names never do).
   */
  lemma RecordEntryShape(name: string, fileName: string, note: string)
    requires NoUpperAscii(fileName)
    ensures RenderRecordEntry(RecordTemplate, TitleCase(name), fileName, note)
         == "\n" + RecordHeading(TitleCase(name), fileName) + RecordReminder + note + "\n"
  {
    var title := TitleCase(name);
    RecordMiddleHasNoBrace();
    PlaceholderCharacters();
    TitleAvoidsPlaceholders(name);
    assert NotePlaceholder[12] == 'N';
    LowerCaseAvoids(fileName, NotePlaceholder, 12);
    assert '{' !in "\n## [" && '{' !in "](" && ']' !in FileNamePlaceholder && ']' !in NotePlaceholder;
    RenderRecordShape("\n## [", "](", RecordMiddle, title, fileName, note);
    HeadingRegroup(title, fileName, RecordReminder, note);
  }

  lemma HeadingRegroup(title: string, fileName: string, reminder: string, note: string)
    ensures "\n## [" + title + "](" + fileName + (")" + reminder) + note + "\n"
         == "\n" + RecordHeading(title, fileName) + reminder + note + "\n"
  {
    assert "\n## [" == "\n" + "## [";
  }
}
