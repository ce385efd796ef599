/**
 * The model at the inputs of src/adr-methods.test.js, and at the example
 * ADR name in `promptUser`'s message (src/index.js:85).
 */
module Scenarios {
  import opened Strings
  import opened TextUtils
  import opened Numbering
  import opened Storage
  import opened Templates
  import opened Supersession
  import opened Orchestrator

  /** The scrub of src/index.js:161-164 on "0010-previous.md". */
  lemma ScrubPrevious(fileName: string)
    requires fileName == "0010-previous.md"
    ensures ScrubFileName(fileName) == "previous"
  {
    assert EndsWith(fileName, MdSuffix) by {
      assert fileName[|fileName| - 3..] == ".md";
    }
    var stem := fileName[..|fileName| - 3];
    assert stem == "0010-previous";
    assert HasFourDigitPrefix(stem) by {
      assert stem[..4] == "0010";
      assert forall i :: 0 <= i < 4 ==> stem[..4][i] == '0' || stem[..4][i] == '1';
    }
    assert StripAdrNumber(stem) == "previous";
    var scrubbed := ReplaceChar("previous", '-', ' ');
    assert scrubbed == "previous" by {
      forall i | 0 <= i < 8 ensures scrubbed[i] == "previous"[i] {
        assert "previous"[i] != '-';
      }
    }
  }

  lemma TitleCasePrevious(word: string)
    requires word == "previous"
    ensures TitleCase(word) == "Previous"
  {
    TitleCaseLowerWord(word, "Previous");
  }

  /** The heading searched for when "0010-previous.md" is superseded. */
  lemma PreviousHeading(fileName: string)
    requires fileName == "0010-previous.md"
    ensures SupersededHeading(fileName) == RecordHeading("Previous", fileName)
  {
    ScrubPrevious(fileName);
    TitleCasePrevious("previous");
  }

  /**
   * src/adr-methods.test.js:33-61: the note is appended to the superseded
   * ADR, and the record, whose only section is the superseded one, gets the
   * note on a line of its own at its end.
   */
  lemma SupersedeScenario(fs: FileSystem, fileName: string, note: string, after: string)
    requires fileName == "0010-previous.md" && after == "\nstuff here\n    "
    requires note == "- superseded by: [New Adr](./0011-new-adr.md)"
    requires fs == FileSystem({"./adr"}, map["./adr/RECORD.md" := "\n" + RecordHeading("Previous", fileName) + after])
    ensures var content := "\n" + RecordHeading("Previous", fileName) + after;
      var r := AddSupersededByNote(fs, fileName, note, "./adr", "./adr/RECORD.md");
      && r.Completed?
      && r.fs.files[PathIn("./adr", fileName)] == note
      && r.fs.files["./adr/RECORD.md"] == content + "\n" + note + "\n"
  {
    var heading := RecordHeading("Previous", fileName);
    PreviousHeading(fileName);
    HeadingAfterLineBreak("Previous", fileName, after);
    ScenarioHasNoHash("Previous", fileName, after);
    NoSectionMarkerAfterHeading("Previous", fileName, after);
    InsertNoteAtEnd("\n", heading, after, note);
    PathsDiffer(fileName);
    NoteAtRecordEnd(fs, fileName, note, "./adr", "./adr/RECORD.md", "\n" + heading + after);
  }

  /** When the insertion lands at the record's end, the record just grows by the note's line. */
  lemma NoteAtRecordEnd(fs: FileSystem, fileName: string, note: string, adrDir: string, recordPath: string,
                        content: string)
    requires fs.files == map[recordPath := content] && PathIn(adrDir, fileName) != recordPath
    requires InsertNote(content, SupersededHeading(fileName), note) == Some(content + "\n" + note + "\n")
    ensures var r := AddSupersededByNote(fs, fileName, note, adrDir, recordPath);
      && r.Completed?
      && r.fs.files[PathIn(adrDir, fileName)] == note
      && r.fs.files[recordPath] == content + "\n" + note + "\n"
  {
    assert fs.ContentOf(PathIn(adrDir, fileName)) == "";
  }

  /** A heading right after the record's first line break is found there first. */
  lemma HeadingAfterLineBreak(title: string, fileName: string, after: string)
    ensures var heading := RecordHeading(title, fileName);
      NoOccurrenceBefore("\n" + heading + after, heading, 1)
  {
    var heading := RecordHeading(title, fileName);
    var content := "\n" + heading + after;
    assert content[0] == '\n' && heading[0] == '#';
    assert !Occurs(content, heading, 0) by {
      if |heading| <= |content| {
        assert content[0..|heading|][0] == content[0];
      }
    }
  }

  lemma ScenarioHasNoHash(title: string, fileName: string, after: string)
    requires title == "Previous" && fileName == "0010-previous.md" && after == "\nstuff here\n    "
    ensures '#' !in title && '#' !in fileName && '#' !in after
  {
  }

  lemma PathsDiffer(fileName: string)
    requires fileName == "0010-previous.md"
    ensures PathIn("./adr", fileName) != "./adr/RECORD.md"
  {
    assert PathIn("./adr", fileName)[6] == fileName[0] == '0';
    assert "./adr/RECORD.md"[6] == 'R';
  }

  /** No "##" starts after the heading's own marker when neither the names nor the rest hold a '#'. */
  lemma NoSectionMarkerAfterHeading(title: string, fileName: string, after: string)
    requires '#' !in title && '#' !in fileName && '#' !in after
    ensures var content := "\n" + RecordHeading(title, fileName) + after;
      forall k :: |"\n"| + 1 <= k < |content| ==> !Occurs(content, SectionMarker, k)
  {
    var content := "\n" + RecordHeading(title, fileName) + after;
    var free := " [" + title + "](" + fileName + ")" + after;
    assert '#' !in free;
    HeadingAfterMarker(title, fileName, after);
    NoStartInFreePiece("\n##", free, "", SectionMarker);
    assert !Occurs(content, SectionMarker, 2) by {
      assert content[3] == free[0] == ' ';
      if 4 <= |content| {
        assert content[2..4][1] == content[3];
      }
    }
  }

  lemma HeadingAfterMarker(title: string, fileName: string, after: string)
    ensures "\n" + RecordHeading(title, fileName) + after == "\n##" + (" [" + title + "](" + fileName + ")" + after) + ""
  {
    var content := "\n" + RecordHeading(title, fileName) + after;
    var regrouped := "\n##" + (" [" + title + "](" + fileName + ")" + after) + "";
    assert |content| == |regrouped|;
    forall i | 0 <= i < |content| ensures content[i] == regrouped[i] {
    }
  }

  /**
   * The file name of the example in `promptUser`'s message
   * (src/index.js:85) when it is the third ADR.
   */
  lemma ExampleFileName(adrName: string)
    requires adrName == "use jest for testing"
    ensures AdrFileName("0003", adrName) == "0003-use-jest-for-testing.md"
  {
    ExampleSlug(adrName, "use-jest-for-testing");
    ExampleJoined("0003", "use-jest-for-testing", "0003-use-jest-for-testing.md");
  }

  lemma ExampleSlug(adrName: string, slug: string)
    requires adrName == "use jest for testing" && slug == "use-jest-for-testing"
    ensures Kebab(adrName) == slug
  {
    ExampleSingleSpaced(adrName);
    KebabSingleSpaced(adrName);
    var kebab := Kebab(adrName);
    forall i | 0 <= i < |adrName| ensures kebab[i] == slug[i] {
      CaseMapFacts(adrName[i]);
    }
  }

  lemma ExampleSingleSpaced(adrName: string)
    requires adrName == "use jest for testing"
    ensures SingleSpaced(adrName)
  {
  }

  /** Proof step of `ExampleFileName`: the concatenation, character by character. */
  lemma ExampleJoined(number: string, slug: string, fileName: string)
    requires number == "0003" && slug == "use-jest-for-testing" && fileName == "0003-use-jest-for-testing.md"
    ensures number + "-" + slug + MdSuffix == fileName
  {
    var joined := number + "-" + slug + MdSuffix;
    forall i | 0 <= i < |joined| ensures joined[i] == fileName[i] {
      if i < 4 {
        assert joined[i] == number[i];
      } else if 5 <= i < 25 {
        assert joined[i] == slug[i - 5];
      } else if i >= 25 {
        assert joined[i] == MdSuffix[i - 25];
      }
    }
  }
}
