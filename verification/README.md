# simple-adrs in Dafny

simple-adrs keeps Architecture Decision Records (ADRs) as numbered Markdown
files `NNNN-slug.md` in one directory, next to an aggregated `RECORD.md`
that holds one section per ADR. This project models the bookkeeping core of
`src/index.js`, which keeps the two consistent:

- `toTitleCase`, which turns an ADR name into its display title;
- `createAdrFiles`, which makes sure the ADR directory and an empty record exist;
- `getNextAdrNumber`, which derives the next zero-padded number from the
  directory listing;
- `processAnswers`, which names the new ADR, renders both templates, writes
  the ADR file, appends its record section and links a superseded ADR;
- `addSupersededByNote`, which appends the superseded-by note to the old ADR
  and inserts it into the record before the next `##` after that ADR's
  heading, or at the end of the record.

Strings are `seq<char>`. The filesystem is a value,
`FileSystem(dirs, files)`, with `files` a map from path to content. Every
operation is a pure function from one state to the next. The answers of the
interactive prompt are an input record, `Orchestrator.Answers`. So is the
directory listing `readdirSync` returns: `Orchestrator.ListsDir` states when
a listing describes a state.

Modules, one per file, in dependency order:

- `Strings` (strings.dfy): the JavaScript string operations used —
  `toLowerCase`/`toUpperCase`, `split`, `join`, `indexOf`, and `replace`
  with a string pattern.
- `TextUtils` (text_utils.dfy): title case and kebab case.
- `Decimal` (decimal.dfy): digit strings, `Number`, `toString` and `padStart`.
- `Numbering` (numbering.dfy): `getNextAdrNumber`, plus the corrected numbering.
- `Storage` and `Repository` (storage.dfy): the filesystem state and `createAdrFiles`.
- `Templates` (templates.dfy): the two templates and their rendering.
- `Supersession` (supersession.dfy): `addSupersededByNote`.
- `Orchestrator` (orchestrator.dfy): `processAnswers` and the properties that
  connect its steps.
- `Scenarios` (scenarios.dfy): the model at the inputs of
  `src/adr-methods.test.js`.

Points where the code does something a reader may not expect:

- The template placeholders are `{{adrTitleCase}}`, `{{adrFileName}}` and
  `{{supersedesNote}}`. Each one is replaced at its first occurrence only,
  because `replace` is called with a string pattern.
- The numbering keeps every name that ends in `.md` other than `RECORD.md`,
  whether or not it starts with a number.
- The numbering takes the last name in string order. That name carries the
  largest number while numbers have four digits. "## Findings" records what
  happens past that.
- `addSupersededByNote` does not know the ADR's name. It re-creates the
  title from the file name, so a dash in the name comes back as a space and
  a run of whitespace as a single space. The section of such an ADR is then
  never found; "## Findings" records it.

## Model

| member | source | states |
|---|---|---|
| Strings.ToLowerChar | src/index.js:46 | lower-cases exactly the ASCII capitals (code point plus 32); every other character is unchanged |
| Strings.ToUpperChar | src/index.js:48 | upper-cases exactly the ASCII small letters (code point minus 32); every other character is unchanged |
| Strings.CaseMapFacts | src/index.js:46-48 | each case map absorbs the other and is idempotent; neither creates or removes a space |
| Strings.Lower | src/index.js:46 | `toLowerCase` keeps the length and lower-cases every character |
| Strings.EndsWith | src/index.js:69 | `endsWith`: the text closes with the suffix; `Numbering.AdrCandidates` and `Supersession.StripMdSuffix` state what it decides |
| Strings.ReplaceChar | src/index.js:164 | `.replace(/-/g, " ")` keeps the length, turns every `-` into a space and changes nothing else |
| Strings.Split | src/index.js:47 | `split(" ")` gives at least one piece; no piece holds the separator; joining the pieces gives the string back; the first piece is the text before the first separator |
| Strings.Join | src/index.js:49 | `join(" ")`: pieces with the separator between them; `Strings.SplitJoin` and the ensures of `Strings.Split` state it as the inverse of splitting |
| Strings.SplitJoin | src/index.js:47-49 | splitting undoes joining, for pieces free of the separator |
| Strings.IndexOf | src/index.js:172-183 | `indexOf(pat, from)` is -1 only when the pattern occurs nowhere from the clamped start; otherwise it is an occurrence with none between the start and it |
| Strings.OccursFound | src/index.js:172-176 | a pattern that occurs is found, at or before any known occurrence |
| Strings.ReplaceFirst | src/index.js:126-129 | a `replace` with a string pattern leaves a string without the pattern unchanged |
| Strings.ReplaceFirstAfter | src/index.js:133-141 | a `replace` with a string pattern replaces the first occurrence only and keeps the text around it |
| TextUtils.TitleCase | src/index.js:44-50 | the lower-case, split, capitalise, join pipeline keeps the length; at a token start (first position, or after a space) it puts the upper-cased character, elsewhere the lower-cased one |
| TextUtils.Capitalize | src/index.js:48 | `charAt(0).toUpperCase() + slice(1)` on one word; its effect on a title is stated by `TextUtils.TitleCaseWord` and the ensures of `TextUtils.TitleCase` |
| TextUtils.CapitalizeAll | src/index.js:48 | the `map` over the words keeps their number and capitalises each one |
| TextUtils.JoinCapitalizedSplit | src/index.js:47-49 | splitting on `" "`, capitalising the pieces and joining equals the character-by-character reference reading `CapRuns` |
| TextUtils.TitleCaseIdempotent | src/index.js:44-50 | title-casing twice gives the same as once |
| TextUtils.TitleCaseKeepsSpaces | src/index.js:44-50 | the length is kept, and the result has a space exactly where the input has one |
| TextUtils.TitleCaseOfLower | src/index.js:46 | lower-casing the name first does not change its title |
| TextUtils.TitleCaseJoinsAtSpace | src/index.js:47-49 | title case works word by word: it distributes over a join at a space |
| TextUtils.TitleCaseUpperOnlyAtTokenStart | src/index.js:48 | an upper-case letter in a title stands at a token start |
| TextUtils.TitleCaseAvoids | src/index.js:119 | a pattern with an upper-case letter in mid-token never occurs in a title |
| TextUtils.TitleCaseWord | src/index.js:48 | a lower-case word without spaces gets only its first letter upper-cased |
| TextUtils.TitleCaseHelloWorld | src/adr-methods.test.js:19-23 | "hello world" becomes "Hello World" |
| TextUtils.DashWhitespaceRuns | src/index.js:117 | `replace(/\s+/g, "-")` leaves no whitespace and never lengthens the name |
| TextUtils.Kebab | src/index.js:117 | the slug has no whitespace and no upper-case ASCII letter, and is no longer than the name |
| TextUtils.KebabRun | src/index.js:117 | a word followed by a whitespace run becomes the lower-cased word and exactly one `-` |
| TextUtils.KebabWithoutWhitespace | src/index.js:117 | a name without whitespace is only lower-cased |
| TextUtils.KebabSingleSpaced | src/index.js:117 | on a single-spaced name the slug has the same length: each space is a `-`, every other character is lower-cased |
| TextUtils.LowerConcat | src/index.js:117 | lower-casing distributes over concatenation |
| Decimal.NatToDecimal | src/index.js:76 | `toString()` on a whole number: only digits, the number's value, and no leading zero unless the number is a single digit |
| Decimal.DigitsValue | src/index.js:75 | `Number()` on a digit string, as its positional value; `Decimal.DigitsValueBound`, `Decimal.FourDigitsValue` and `Decimal.PadStartZeroValue` state its properties |
| Decimal.PadStartZero | src/index.js:76 | `padStart(4, "0")`: length is the larger of the text's and 4; the text at the end and zeros in front |
| Decimal.PadStartZeroValue | src/index.js:75-76 | padding with zeros keeps the text all digits and keeps its value |
| Decimal.DigitsValueBound | src/index.js:75 | a number of k digits is below 10^k |
| Decimal.EqualWidthOrder | src/index.js:74-75 | for digit strings of equal width, the character order at the first difference is the numeric order |
| Decimal.FourDigitsValue | src/index.js:75 | the value of four digits is 1000a + 100b + 10c + d |
| Numbering.LexLessIrreflexive | src/index.js:74 | the sort order is irreflexive |
| Numbering.LexLess | src/index.js:74 | the order of the default `sort()`; `Numbering.LexLessIrreflexive`, `Numbering.LexLessTransitive` and `Numbering.LexLessTotal` show it is a strict total order |
| Numbering.LexLessTransitive | src/index.js:74 | the sort order is transitive |
| Numbering.LexLessTotal | src/index.js:74 | any two different names are ordered one way or the other |
| Numbering.LexMax | src/index.js:74 | the name picked is in the list, and every other listed name sorts before it |
| Numbering.SortedLastIsLexMax | src/index.js:74 | the last name of any sorted permutation of the list (`sort().slice(-1)[0]`) is `LexMax` |
| Numbering.AdrCandidates | src/index.js:68-70 | a name is kept exactly when it ends in `.md` and is not `RECORD.md` |
| Numbering.IsAdrCandidate | src/index.js:69 | the filter test: ends in `.md` and is not `RECORD.md`; `Orchestrator.AdrFileNameIsCandidate` shows every generated file name passes it |
| Numbering.AdrCandidatesAppend | src/index.js:68-70 | the filter distributes over concatenation of listings |
| Numbering.FirstField | src/index.js:74 | `split("-")[0]` is the prefix before the first `-`, or the whole name when it has none |
| Numbering.NextAdrNumber | src/index.js:66-77 | "0001" when there is no candidate; otherwise a digit string of at least 4 characters, with no leading zero beyond four, whose value is one more than the number before the first `-` of the name sorted last |
| Numbering.MaxAdrNumber | src/index.js:74-75 | the largest number among `NNNN-` names; it is the number of one of them |
| Numbering.LexOrderIsNumericOrder | src/index.js:74-75 | among `NNNN-` names, the sort order agrees with the order of the numbers |
| Numbering.NextAdrNumberIsMaxPlusOne | src/index.js:68-76 | when every candidate is named `NNNN-…`, the result is the largest number plus one, in decimal, zero-padded to four |
| Numbering.NextAdrNumberOfLargest | src/index.js:74-76 | the candidate with the largest number decides the result |
| Numbering.RecordFileIgnored | src/index.js:68-70 | inserting `RECORD.md` anywhere in the listing does not change the result |
| Numbering.SameCandidatesSameNumber | src/index.js:68-76 | the result depends on the listing only through its candidates |
| Numbering.NonCandidateSkipped | src/index.js:68-70 | a name that is not a candidate does not change the candidates around it |
| Numbering.NextAdrNumberEmpty | src/index.js:71-73 | an empty listing, or one with only `RECORD.md`, gives "0001" |
| Numbering.NextAdrNumberAfterTwo | src/adr-methods.test.js:63-72 | "0001-first.md", "0002-second.md", "RECORD.md" gives "0003" |
| Numbering.NextAdrNumberWidens | src/adr-methods.test.js:73-82 | "0098-cool-adr.md", "0099-cooler-adr.md", "RECORD.md" gives "0100" |
| Numbering.NumberRepeatsPastFourDigits | src/index.js:74-76 | with "9999-z.md" and "10000-a.md" listed, the next number is 10000, the number of an ADR that already exists |
| Numbering.MaxNumberInFront | src/index.js:74-75 | the corrected reading: no numbered name carries a larger number, and the maximum is 0 or the number of a listed name |
| Numbering.NextAdrNumberByValue | src/index.js:66-77 | the corrected numbering gives at least four digits, with a value above the number of every numbered candidate |
| Numbering.NextAdrNumberByValueIsFresh | src/index.js:66-77 | no candidate carries the number the corrected numbering picks, whatever the width of the numbers |
| Numbering.ByValueAgreesWithinFourDigits | src/index.js:66-77 | while every candidate is named `NNNN-…`, the corrected numbering gives the same result as the original |
| Storage.MakeDir | src/index.js:58 | `mkdirSync` adds the directory and leaves the files alone |
| Storage.Exists | src/index.js:57-60 | `existsSync`: a directory or a file at the path; `Repository.CreateAdrFiles` states what it decides |
| Storage.Write | src/index.js:61 | `writeFileSync` sets the path's content, creating the file if needed, and leaves the directories and every other file alone |
| Storage.Append | src/index.js:142 | `appendFileSync` makes the path's content its old content, or empty if absent, followed by the text; everything else is unchanged |
| Storage.Read | src/index.js:170 | `readFileSync` fails exactly when the file is absent and otherwise returns its content |
| Storage.PathInInjective | src/index.js:136 | within one directory, the path template `${dir}/${name}` gives different paths for different names |
| Repository.CreateAdrFiles | src/index.js:53-63 | afterwards both the directory and the record exist; the directory is added only if missing; an existing record file keeps its content; a missing record is created empty, unless its path is the directory just made, in which case no file is written |
| Repository.CreateAdrFilesIdempotent | src/index.js:53-63 | calling it twice gives the same state as calling it once |
| Repository.CreateAdrFilesKeepsRecord | src/index.js:60-62 | an existing record keeps its content, whatever it is |
| Repository.CreateAdrFilesFromScratch | src/adr-methods.test.js:25-31 | on an empty filesystem with the defaults, `./adr` and an empty `./adr/RECORD.md` appear and nothing else |
| Templates.TitleAvoidsPlaceholders | src/index.js:133-141 | a title-cased name can contain neither `{{adrFileName}}` nor `{{supersedesNote}}`, so the later `replace` calls hit the template's own placeholders |
| Templates.AdrMiddleHasNoBrace | src/index.js:8-29 | the ADR template text between the two placeholders holds no `{` and starts with a line break |
| Templates.RecordMiddleHasNoBrace | src/index.js:33-36 | the record template text between the file-name and note placeholders holds no `{` and starts with `)` |
| Templates.RenderAdr | src/index.js:133-135 | the two `replace` calls on the ADR template; `Templates.RenderAdrShape` and `Templates.AdrBodyShape` state the result |
| Templates.RenderRecordEntry | src/index.js:138-141 | the three `replace` calls on the record template; `Templates.RenderRecordShape` and `Templates.RecordEntryShape` state the result |
| Templates.RenderAdrShape | src/index.js:133-135 | for any template of that layout, rendering puts the title and the note in place of their placeholders and keeps every other character |
| Templates.AdrBodyShape | src/index.js:5-30 | rendering the ADR template gives its text with the title-cased name after `# ` and the note in place of the note placeholder |
| Templates.RenderRecordShape | src/index.js:138-141 | for any template of that layout, rendering puts the title, the file name and the note in place of their placeholders and keeps every other character |
| Templates.RecordEntryShape | src/index.js:32-38 | rendering the record template gives a line break, the heading `## [Title](file)`, the reminder, the note and a line break |
| Supersession.StripMdSuffix | src/index.js:162 | `.replace(/\.md$/, "")` removes a trailing `.md` and nothing else |
| Supersession.StripAdrNumber | src/index.js:163 | `.replace(/^\d{4}-/, "")` removes four leading digits and a dash when present, and nothing otherwise |
| Supersession.ScrubFileName | src/index.js:161-164 | the scrubbed name holds no dash and is no longer than the file name |
| Supersession.SupersededHeading | src/index.js:172-176 | the heading searched for: `## [<title-cased scrubbed name>](<file name>)`; `Orchestrator.HeadingRoundTrip` shows it is the heading written for that ADR when the number has four digits and the name is single-spaced and has no dash, and `Orchestrator.DashedNameNotFound` and `Orchestrator.DoubleSpaceNotFound` show it is not otherwise |
| Supersession.Splice | src/index.js:186-189 | the text before `p` is kept, then comes a line with the note, then the text from `p` on; the length grows by the note plus 2 |
| Supersession.InsertNote | src/index.js:172-190 | nothing is written exactly when the heading is absent; otherwise the note is spliced in at the first `##` after the heading's first occurrence, or at the end |
| Supersession.UniqueInsertion | src/index.js:172-185 | the heading's first occurrence and the insertion point after it are unique |
| Supersession.AddSupersededByNote | src/index.js:155-192 | the note is appended to the superseded ADR first; the read fails exactly when the record is missing; then the record becomes the note inserted into it, or stays as it was when the heading is not found; nothing else changes |
| Supersession.InsertNoteAtEnd | src/index.js:179-189 | with no `##` after the heading, the note goes on its own line at the end of the record |
| Supersession.InsertNoteBeforeAppendedSection | src/index.js:179-189 | when the heading is already in the record before a newly appended section, the note goes before that section's `##` and the section stays whole at the end |
| Supersession.SpliceKeepsSuffix | src/index.js:186-189 | splicing at or before `m` keeps the text from `m` on at the end |
| Supersession.LeadingDigits | src/index.js:163 | corrected scrub: the length of the leading run of digits, which ends at the end or at a non-digit |
| Supersession.StripAnyNumberPrefix | src/index.js:163 | corrected scrub: a number of any width and its dash are removed |
| Orchestrator.SupersedesNote | src/index.js:122-129 | the note for the new ADR is empty exactly when it supersedes nothing |
| Orchestrator.SupersedesNoteLinks | src/index.js:126-129 | the supersedes note links the superseded file; its link text is the file name with its first `.md` removed, wherever that `.md` stands |
| Orchestrator.SupersededByNote | src/index.js:123-130 | the note for the old ADR is empty exactly when nothing is superseded |
| Orchestrator.SupersededByNoteLinks | src/index.js:130 | for a four-digit number and a name with no dash and no whitespace but single spaces, the superseded-by note links the new file, and its link text is what the scrub of lines 161-164 recovers from that file name |
| Orchestrator.AdrFileName | src/index.js:120 | `${adrNumber}-${kebab}.md`; `Orchestrator.AdrFileNameIsCandidate`, `Orchestrator.KebabFileNameIsLowerCase` and `Orchestrator.ScrubRoundTrip` state its properties |
| Orchestrator.WriteAdrAndRecord | src/index.js:136-142 | the ADR file is written, then the section appended to the record; if both paths were one, the section would follow the ADR text |
| Orchestrator.ProcessAnswers | src/index.js:107-152 | directories unchanged; exactly the new ADR, the record and a superseded ADR may be added or changed; the new ADR holds the rendered template unless it shares a path with the record or the superseded ADR |
| Orchestrator.ProcessAnswersCreatesAdr | src/index.js:107-136 | with the listing of the state, `NNNN-` names, the record beside the ADRs and a superseded ADR chosen from the offered list, the new ADR's path is new and its file holds the rendered template |
| Orchestrator.ProcessAnswersPathsDistinct | src/index.js:96-98 | the new ADR's path is neither the record's nor the superseded ADR's |
| Orchestrator.NewAdrPathIsFresh | src/index.js:120-136 | when the listing describes the state and every candidate is named `NNNN-…`, the new ADR's path names no existing file |
| Orchestrator.NewAdrFileIsFresh | src/index.js:66-77 | when every candidate is named `NNNN-…`, the new file name is not in the listing |
| Orchestrator.NewAdrFileIsFreshByValue | src/index.js:120 | with the corrected numbering, the new file name is never in the listing |
| Orchestrator.FileNameNotAmong | src/index.js:120 | a file name whose number is above every listed ADR number is not listed |
| Orchestrator.AdrFileNameIsCandidate | src/index.js:68-70 | an ADR file name is itself a numbering candidate |
| Orchestrator.ProcessAnswersRecord | src/index.js:138-151 | the record becomes its old content plus the rendered section, with the superseded-by note linked in when due |
| Orchestrator.ProcessAnswersSupersededFile | src/index.js:144-151 | the superseded ADR becomes its old content followed by `- superseded by: [<lower-cased new name>](./<new file>)` |
| Orchestrator.ProcessAnswersNewAdrFile | src/index.js:122-136 | with the default template and nothing superseded, the ADR file is the template text with the title filled in and the note placeholder emptied |
| Orchestrator.ProcessAnswersNewRecordSection | src/index.js:122-142 | with the default template and nothing superseded, the record gains exactly `\n## [Title](file)`, the reminder and a line break |
| Orchestrator.RecordAfterSupersession | src/index.js:138-151 | the rendered record entry is a line break and the new section, and the record ends up as the linked form of old content plus entry |
| Orchestrator.SupersedingNoteInOldPart | src/index.js:142-151 | when the superseded section is already in the record, the note is spliced into the old part or right before the new section |
| Orchestrator.SupersedingKeepsNewSection | src/index.js:142-151 | the new section stays whole at the end of the record after the supersession |
| Orchestrator.LinkedRecordKeepsSection | src/index.js:179-189 | linking a section found before an appended section splices the note in before the appended one and keeps that one at the end |
| Orchestrator.SupersessionReadsRecord | src/index.js:142 | after the section is appended the record exists, so the supersession step never fails to read it |
| Orchestrator.KebabFileNameIsLowerCase | src/index.js:117-120 | an ADR file name holds no upper-case ASCII letter |
| Orchestrator.ScrubRoundTrip | src/index.js:117-120 | for a four-digit number and a single-spaced name without dashes, scrubbing the file name gives back the lower-cased name |
| Orchestrator.HeadingRoundTrip | src/index.js:117-120 | for a four-digit number and a name with no dash and no whitespace but single spaces, the heading searched for at lines 172-176 is the heading rendered into the record for that ADR |
| Orchestrator.SupersedingFindsSection | src/index.js:172-176 | for a four-digit number and a name with no dash and no whitespace but single spaces, a record holding the section rendered for that ADR anywhere has its heading found when it is superseded |
| Orchestrator.WideNumberNotStripped | src/index.js:163 | "10000-cache.md" scrubs to "10000 cache", so the heading searched for is not the one written |
| Orchestrator.ScrubRoundTripAnyWidth | src/index.js:161-164 | with the corrected scrub, the round trip holds for a number of any width |
| Orchestrator.HeadingRoundTripAnyWidth | src/index.js:161-176 | with the corrected scrub, the heading searched for is the one written, past ADR 9999 too |
| Orchestrator.DashedNameNotFound | src/index.js:117-120 | the name "use node-js" as ADR 0003 is written as `## [Use Node-js](0003-use-node-js.md)` but searched for with "Node Js", so its section is never found |
| Orchestrator.DoubleSpaceNotFound | src/index.js:117-120 | the name "a  b" is written with two spaces in its title but searched for with one, so its section is never found |
| Orchestrator.LinkFindsSection | src/index.js:172-176 | corrected search: looking for the heading's link target `](<file name>)` finds the section rendered for an ADR, for every name and every number width |
| Scenarios.ScrubPrevious | src/adr-methods.test.js:39-40 | "0010-previous.md" scrubs to "previous" |
| Scenarios.PreviousHeading | src/adr-methods.test.js:34-35 | the heading searched for when "0010-previous.md" is superseded is `## [Previous](0010-previous.md)` |
| Scenarios.SupersedeScenario | src/adr-methods.test.js:33-61 | the note is appended to `./adr/0010-previous.md`, and the record gets it on a line of its own at its end |
| Scenarios.ExampleFileName | src/index.js:85 | the example name "use jest for testing" as ADR 0003 is stored as "0003-use-jest-for-testing.md" |

## Left out

- Strings.ToLowerChar and Strings.ToUpperChar map ASCII letters only. JavaScript's `toLowerCase`/`toUpperCase` (src/index.js:46, 48, 117, 130) follow Unicode and can change a string's length. Unicode case tables are out of scope.
- TextUtils.TitleCase and TextUtils.Kebab inherit that ASCII-only case mapping. On non-ASCII letters they are therefore weaker than the source. Kebab does match every character of JavaScript's `\s`.
- Strings.ReplaceFirst does not model the `$`-patterns (`$&`, `$1`, …) that `String.prototype.replace` expands in the replacement text (src/index.js:126, 133-141). Names holding `$` are out of scope.
- Templates.AdrBodyShape and Templates.RecordEntryShape: both rest on Strings.ReplaceFirst, so they hold for names and notes without `$`-patterns only.
- Numbering.NextAdrNumber requires, as `ChosenPrefixNumeric`, that the name sorted last has an all-digit prefix below 2^53. The source instead turns a non-numeric prefix into `NaN` and returns "0NaN", for example when `notes.md` sorts last (src/index.js:74-76). An empty prefix becomes 0. JavaScript number coercion is not modelled.
- Numbering.LexLess compares characters by code point. JavaScript's default `sort` compares UTF-16 code units, which differs only for characters outside the Basic Multilingual Plane.
- Storage.Write and Storage.Append succeed whatever the directories. Node throws `ENOENT` when the parent directory is missing (src/index.js:61, 136, 142, 167). `mkdirSync` being non-recursive is not modelled either. Paths are compared as strings, so `./adr/x` and `adr/x` are different files.
- Orchestrator.Answers.supersededAdrFileName is always a string. The source throws a `TypeError` at src/index.js:126 when `supersedes` is true and no file was chosen, which the prompt's `when` condition allows on an empty directory.
- Orchestrator.ProcessAnswers takes the directory listing as a parameter, because `readdirSync` is I/O (src/index.js:67). `Orchestrator.ListsDir` ties a listing to a state, and `ProcessAnswersCreatesAdr` uses it.
- Orchestrator.ProcessAnswers keeps the numbering, the scrub and the heading search as written in src/index.js. The corrected definitions of "## Findings" are modelled beside them, and `ByValueAgreesWithinFourDigits` shows that both numberings agree up to ADR 9999.
- Orchestrator.LinkFindsSection states that the corrected search finds the section. Where the note then goes follows from `Supersession.InsertNote`, which puts it before the next `##` after the link, as it does after the heading.
- `promptUser` (src/index.js:80-104) is interactive. Only its choice list is used, as the precondition that a superseded file is one of the candidates (src/index.js:96-98).
- bin/index.js is entry-point wiring; it is not part of this model.

## Findings

| source | as written | input that shows it | evidently intended | confidence | as-written member | corrected member |
|---|---|---|---|---|---|---|
| src/index.js:74-76 | the last name in string sort order gives the number, so "10000-…" sorts before "9999-…" | listing "9999-z.md", "10000-a.md": the next number is 10000, which ADR 10000 already has | one more than the largest number, compared as numbers | high (proved; not executed) | Numbering.NumberRepeatsPastFourDigits | Numbering.NextAdrNumberByValueIsFresh |
| src/index.js:163 | `/^\d{4}-/` strips exactly four digits, so numbers from 10000 on stay in the scrubbed name | "10000-cache.md" scrubs to "10000 cache", so its record section is never found | `/^\d+-/`, stripping a number of any width | high (proved; not executed) | Orchestrator.WideNumberNotStripped | Orchestrator.HeadingRoundTripAnyWidth |
| src/index.js:161-176 | the title searched for is re-created from the file name, where a dash of the name and a run of whitespace both became one dash | "use node-js" as ADR 0003 is written as `## [Use Node-js](0003-use-node-js.md)` but searched for as `## [Use Node Js](0003-use-node-js.md)`; "a  b" is written as "A  B" and searched for as "A B"; in both cases the note never reaches the record | find the superseded ADR's section whatever its name, for example by the heading's link target `](<file name>)`, which no note repeats | high (proved; not executed) | Orchestrator.DashedNameNotFound | Orchestrator.LinkFindsSection |
