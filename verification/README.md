# Lecture notes pipeline — a Dafny model

This project models the core of a medical-lecture notes site.

- The command-line script `scripts/transcribe_and_note.ts` takes an audio or
  video recording, or a directory of them. It turns each recording into:
  - a kebab-case slug;
  - a title;
  - a transcript cut into 30-second segments;
  - notes and keywords parsed from a chat model's answer.

  It then writes a JSON record and a Markdown page under
  `<cwd>/public/notes/`.
- The pure logic of the two pages that show those records:
  - `page.tsx`: the lecture list. This covers search, the keyword filter, the
    keyword menu and the three-chip limit.
  - `components/LecturePage.jsx`: the lecture page. This covers the `M:SS`
    clock and the notes-to-HTML chain.

Modules, one per file:

| module | file | what it holds |
|---|---|---|
| `Seqs` | seqs.dfy | a generic order-preserving filter and subsequences |
| `Text` | text.dfy | ECMAScript white space and `trim`, ASCII `toLowerCase`, `split`, `join`, `replace(/x/g, …)`, decimal digits |
| `Slug` | slug.dfy | `createSlug` and the extension-stripping expression `/\.[^/.]+$/` |
| `Segmenter` | segmenter.dfy | `segmentTranscript` |
| `NoteParser` | notes.dfy | the two regular expressions that split a chat answer into notes and keywords |
| `Media` | media.dfy | POSIX `path.basename`, `extractMediaInfo`, the extension filter of `batchProcess` |
| `TimeFormat` | time.dfy | `formatTime` of the lecture page and its inverse |
| `NotesHtml` | html.dfy | the `.replace` chain that renders notes as HTML |
| `Listing` | listing.dfy | the lecture list page: filter, keyword menu, keyword chips |
| `LectureFiles` | markdown.dfy | the `ProcessedResult` record and the Markdown template |
| `Pipeline` | pipeline.dfy | `processLecture` and `batchProcess` over a modelled file system |
| `Cli` | cli.dfy | `main`'s argument handling |

The outside world is passed in as values, so the pipeline functions are
pure:

- The file system is a map from paths to directories and files, plus a set
  of read-only paths.
- The speech-to-text call, the chat call and `readdir` are fields of a
  `Services` value. Each one can fail.
- The date is a `today` string.

Each run returns:

- the file system afterwards;
- a trace of the steps it took: access, transcribe, chat, `mkdir`, write,
  `readdir`, exit;
- its exit code.

The properties proved about runs are:

- nothing is written before the three upstream calls succeed;
- the run succeeds exactly when those calls succeed and the disk allows the
  writes;
- on success, the disk holds the record and the page;
- nothing outside `<cwd>/public/notes` changes;
- a batch touches only the media files of the directory listing, in listing
  order, and every one of them when it succeeds.

## Where the model follows the code rather than its documented intent

- Slugs keep leading and trailing hyphens.
  - The final `.trim()` in `createSlug` removes white space only.
  - So `" a .mp3"` gives `-a-` (`Slug.SlugKeepsEdgeDashes`).
  - A name made only of CJK characters gives the empty slug
    (`Slug.SlugDropsCjk`).
  - Lower-casing comes before the deletion of non-word characters. So the
    KELVIN SIGN U+212A survives as `k` (`Slug.SlugFoldsKelvinSign`), and
    U+0130 survives as `i` (`Slug.SlugFoldsDottedCapitalI`).
- Only the full-width `。`, `！` and `？` end a sentence.
  - A transcript without them but with some non-blank text becomes one
    segment (`Segmenter.OneSentence`), not none.
  - An ASCII `!` stays inside its sentence
    (`Segmenter.MixedPunctuationExample`).
- The notes are trimmed even when the answer has no `## 關鍵詞` section
  (`NoteParser.NoSectionParse`).
- `processLecture` ends in `process.exit(1)` on any failure, so a failing
  file ends a batch.
  - The files after it are never processed (`Pipeline.ProcessFiles`).
  - A failed Markdown write leaves the JSON record behind.
- The output directory is `<cwd>/public/notes`.
- A single-file run does not check the extension. Only batches filter by
  extension.

## Model

| member | source | states |
|---|---|---|
| `Text.Trim` | scripts/transcribe_and_note.ts:76-77 | the result has no white space at either end, is the slice of the input after its leading white space, only white space follows it, and it is empty exactly when the input is all white space |
| `Text.SplitJoin` | scripts/transcribe_and_note.ts:154 | splitting on one character and joining with it gives the string back |
| `Text.ReplaceCharIsSplitJoin` | components/LecturePage.jsx:233 | replacing every occurrence of a character is the same as splitting on it and joining with the replacement |
| `Text.CanonicalRoundTrip` | components/LecturePage.jsx:115 | a decimal numeral without a leading zero is what `toString` writes for its own value |
| `Slug.StripExtension` | scripts/transcribe_and_note.ts:36 | the result is a prefix of the name; when something is removed it is a `.` followed by a non-empty run of characters other than `.` and `/` that reaches the end; when nothing is removed no such run exists |
| `Slug.StripAppendedExtension` | scripts/transcribe_and_note.ts:36 | appending `.ext` to any name and stripping it gives the name back |
| `Slug.CreateSlug` | scripts/transcribe_and_note.ts:34-42 | a slug holds only lower-case ASCII letters, digits, `_` and `-`, has no white space, and never has two `-` in a row |
| `Slug.ExpandCase` | scripts/transcribe_and_note.ts:37 | text without U+212A and U+0130 is left as it is, so the expansion before lower-casing touches nothing else |
| `Slug.SlugIdempotent` | scripts/transcribe_and_note.ts:34-42 | the slug of a slug is the slug itself |
| `Slug.SlugIgnoresExtension` | scripts/transcribe_and_note.ts:34-42 | a dot-free name and that name with any extension give the same slug |
| `Slug.SlugStableUnderReExtension` | scripts/transcribe_and_note.ts:34-42 | giving a slug an extension and slugging it again changes nothing |
| `Slug.SlugKeepsWordChars` | scripts/transcribe_and_note.ts:34-42 | the ASCII word characters of the slug are exactly those of the extension-less name, after U+212A and U+0130 are lower-cased to ASCII, lower-cased and in order |
| `Slug.SlugKeepsEdgeDashes` | scripts/transcribe_and_note.ts:39-41 | `" a .mp3"` gives `-a-`: edge hyphens are not trimmed |
| `Slug.SlugDropsCjk` | scripts/transcribe_and_note.ts:38 | a CJK-only name gives the empty slug |
| `Slug.SlugFoldsKelvinSign` | scripts/transcribe_and_note.ts:37-38 | a name that is only the KELVIN SIGN gives the slug `k` |
| `Slug.SlugFoldsDottedCapitalI` | scripts/transcribe_and_note.ts:37-38 | a name that is only U+0130 gives the slug `i`: its combining dot is deleted |
| `Segmenter.SegmentTranscript` | scripts/transcribe_and_note.ts:72-95 | one segment per non-blank sentence, in order; segment `i` is `seg(i+1)` and covers `[30 i, 30 i + 30)`; its text is the trimmed sentence plus `。`, non-empty, trimmed and without inner sentence ends |
| `Segmenter.WindowsContiguous` | scripts/transcribe_and_note.ts:80-84 | the windows start at 0 and each one ends where the next begins |
| `Segmenter.SegmentIdsDistinct` | scripts/transcribe_and_note.ts:87 | two different segments never share an id |
| `Segmenter.NoSegmentsIffUnspoken` | scripts/transcribe_and_note.ts:74-77 | the transcript gives no segment exactly when it is made only of white space and sentence ends |
| `Segmenter.OneSentence` | scripts/transcribe_and_note.ts:74-77 | a non-blank transcript without sentence ends is one 30-second segment holding its trimmed text plus `。` |
| `Segmenter.MixedPunctuationExample` | scripts/transcribe_and_note.ts:75 | an ASCII `!` does not end a sentence: `A。B!` gives the segments `A。` and `B!。` |
| `NoteParser.MatchersAgree` | scripts/transcribe_and_note.ts:152-158 | the keyword expression and the strip expression match at exactly the same positions, so both act on the same heading |
| `NoteParser.GreedyBreak` | scripts/transcribe_and_note.ts:158 | the line feed the greedy `\s*\n.+$` settles on is the last one after the heading that leaves a character behind it; none exists exactly when the strip expression cannot match there |
| `NoteParser.LazyCaptureEnd` | scripts/transcribe_and_note.ts:152 | the lazy keyword capture stops at the first line feed after at least one character, or at the end |
| `NoteParser.FindSection` | scripts/transcribe_and_note.ts:152-158 | the position found is the leftmost one where the expressions match, and none means they match nowhere |
| `NoteParser.ParseNotes` | scripts/transcribe_and_note.ts:149-158 | the notes are trimmed; every keyword is non-empty, trimmed and free of commas |
| `NoteParser.NoSectionParse` | scripts/transcribe_and_note.ts:153-158 | without a keyword section the keywords are empty and the notes are the trimmed answer; a missing answer reads as the empty one |
| `NoteParser.SectionParse` | scripts/transcribe_and_note.ts:152-158 | with the leftmost heading, the greedy break and the lazy capture fixed, the notes are the trimmed text before the heading and the keywords are the captured line split at commas, trimmed, blanks dropped |
| `NoteParser.JoinedKeywordsParse` | scripts/transcribe_and_note.ts:154 | splitting a `, `-joined list of well-formed keywords gives the list back |
| `NoteParser.ParseWithKeywordSection` | scripts/transcribe_and_note.ts:149-158 | an answer made of trimmed notes without a `## 關鍵詞` heading of their own, white space, the heading and a keyword line parses back into exactly those notes and keywords; the notes may hold other `#` headings |
| `NoteParser.NoSectionBefore` | scripts/transcribe_and_note.ts:152-158 | when the notes hold no keyword heading and only white space follows them, no heading can match before the one placed after that white space |
| `NoteParser.PromptLayoutExample` | scripts/transcribe_and_note.ts:112-124 | an answer in the requested layout, with `## 整理筆記` and `### 主要重點` headings in the notes, gives back those notes and its two keywords |
| `NoteParser.KeywordLineExample` | scripts/transcribe_and_note.ts:152-158 | an answer that is only the heading and `心臟病學, 臨床診斷` gives empty notes and those two keywords |
| `Media.BaseName` | scripts/transcribe_and_note.ts:174 | the result has no `/`; it is the tail of the path with trailing slashes dropped, preceded there by a `/` unless it is the whole of it; it is empty exactly when the path is all slashes |
| `Media.BaseNameOfChild` | scripts/transcribe_and_note.ts:282 | the base name of `dir + "/" + name` is `name` |
| `Media.BaseNameIgnoresTrailingSlash` | scripts/transcribe_and_note.ts:174 | a trailing `/` does not change the base name |
| `Media.Unseparated` | scripts/transcribe_and_note.ts:178 | same length; no `-` or `_` remains; each character is kept or is a blank that replaced `-` or `_` |
| `Media.Title` | scripts/transcribe_and_note.ts:178 | the title is as long as the extension-less name, has no `-` or `_`, and agrees with the name character by character except for those separators turned to blanks |
| `Media.TitleIgnoresExtension` | scripts/transcribe_and_note.ts:178 | the title of `name.ext` is `name` with separators turned to blanks |
| `Media.ExtractMediaInfo` | scripts/transcribe_and_note.ts:171-179 | the duration is always `45:30`; the title holds no `/`, `-` or `_`, is no longer than the path's last component, and agrees with it character by character except where a separator became a blank |
| `Media.MediaInfoOfListedFile` | scripts/transcribe_and_note.ts:171-179 | for a file `name.ext` in any directory, the title is `name` with its separators turned into blanks |
| `Media.MediaFiles` | scripts/transcribe_and_note.ts:270-272 | every file kept is in the listing and has a media extension |
| `Media.MediaFilesSelection` | scripts/transcribe_and_note.ts:270-272 | the kept files are a subsequence of the listing, and each name occurs as often as in the listing when it has a media extension and never otherwise |
| `Media.MediaFileIff` | scripts/transcribe_and_note.ts:271 | a name passes the filter exactly when it has a `.` followed by `mp3`, `wav`, `m4a`, `mp4`, `mov` or `avi` in any mix of cases up to its end |
| `TimeFormat.FormatTime` | components/LecturePage.jsx:112-116 | the clock is minutes without leading zeros, `:`, and two digits below 60, and minutes times 60 plus seconds equals the input |
| `TimeFormat.ParseTime` | components/LecturePage.jsx:112-116 | a clock is read back exactly when it has the shape `FormatTime` writes |
| `TimeFormat.ParseFormatTime` | components/LecturePage.jsx:112-116 | parsing a formatted time gives the seconds back |
| `TimeFormat.FormatParsedTime` | components/LecturePage.jsx:112-116 | formatting a parsed clock gives the clock back |
| `TimeFormat.FormatTimeInjective` | components/LecturePage.jsx:112-116 | different times never show the same clock |
| `TimeFormat.FormatTimeExamples` | components/LecturePage.jsx:112-116 | 0, 90 and 2730 seconds show as `0:00`, `1:30` and `45:30` |
| `TimeFormat.PaddedIsTwoDigits` | components/LecturePage.jsx:115 | `padStart(2, '0')` of a number below 100 is its two-digit form |
| `NotesHtml.RenderNotes` | components/LecturePage.jsx:232-237 | the HTML has no line feed and no `#` followed by a blank |
| `NotesHtml.LineBreaks` | components/LecturePage.jsx:233 | the line-feed step joins the lines of the notes with `<br>` |
| `NotesHtml.CloseAt` | components/LecturePage.jsx:237 | the lazy `(.*?)\*\*` closes at the first `**` after the opening when no line terminator comes first, and cannot close otherwise |
| `NotesHtml.StrongPair` | components/LecturePage.jsx:237 | `**x**` becomes `<strong>x</strong>` when `x` has no `**`, no line terminator and does not end with `*` |
| `NotesHtml.StrongWithoutStars` | components/LecturePage.jsx:237 | text without `**` is left unchanged by the bold step |
| `NotesHtml.StrongKeepsNoPair` | components/LecturePage.jsx:237 | the bold step creates no new pair of characters that occur in neither `<strong>` tag |
| `NotesHtml.ReplacePairGone` | components/LecturePage.jsx:234-236 | replacing a two-character pattern leaves no occurrence of it when the replacement cannot rebuild one |
| `NotesHtml.HeadingExample` | components/LecturePage.jsx:232-237 | the notes `## A` render as `<h2>A` |
| `Listing.FilteredLectures` | page.tsx:52-57 | every lecture shown is in the list and matches both the search and the keyword |
| `Listing.FilteredLecturesExact` | page.tsx:52-57 | the lectures shown are a subsequence of the list, and each lecture is shown as often as it is listed when it matches and never otherwise |
| `Listing.FilteredLecturesComplete` | page.tsx:52-57 | every listed lecture that matches both conditions is shown |
| `Listing.NoFilterShowsAll` | page.tsx:53-55 | an empty search and no selected keyword show the whole list |
| `Listing.AllKeywordsListed` | page.tsx:59 | the flattened keywords hold every keyword of every lecture and nothing else |
| `Listing.AllKeywordsListedOrder` | page.tsx:59 | one lecture's list is its own keywords in order, and flattening a concatenation gives the concatenated lists: the order of `flatMap` |
| `Listing.FirstAppearances` | page.tsx:59 | the result has the same elements as the input and no element twice |
| `Listing.FirstAppearancesOrdered` | page.tsx:59 | the elements keep the order of their first appearance in the input |
| `Listing.AllKeywordsExact` | page.tsx:59 | the keyword menu holds every keyword of some lecture and nothing else, once each, in order of first appearance |
| `Listing.UniqueInOrder` | page.tsx:59 | the loop that builds the menu with a seen-set computes exactly the first appearances |
| `Listing.KeywordChips` | page.tsx:139 | the chips are the first `min(n, 3)` keywords |
| `Listing.OverflowLabel` | page.tsx:147-151 | the label appears exactly when there are more than three keywords, and it starts with `+` |
| `Listing.ChipsAccountForAll` | page.tsx:139-151 | the number on the label reads back, and the chips plus that number count every keyword |
| `LectureFiles.SegmentClockIsFormatTime` | scripts/transcribe_and_note.ts:245 | the Markdown segment headings use the same clock as the lecture page |
| `LectureFiles.HeaderBlock` | scripts/transcribe_and_note.ts:229-234 | the page opens with `# ` and the title, and the header ends with the keyword label |
| `LectureFiles.RenderMarkdown` | scripts/transcribe_and_note.ts:229-249 | the page starts with `# ` followed by the title |
| `LectureFiles.MarkdownKeywordsReadBack` | scripts/transcribe_and_note.ts:234 | the keyword line of the page follows the label, ends at a line feed, and reads back into exactly the record's keywords |
| `LectureFiles.MarkdownNotesReadBack` | scripts/transcribe_and_note.ts:234-240 | right after the keyword line comes a rule, then the record's notes exactly, then another rule |
| `LectureFiles.MarkdownTranscriptReadBack` | scripts/transcribe_and_note.ts:240-249 | after the second rule comes the transcript heading, then one section per segment, joined by line feeds; each section is headed by the segment's window in the lecture page's `M:SS` clock and holds the segment's text |
| `Pipeline.MakeDirectory` | scripts/transcribe_and_note.ts:224 | an existing directory is accepted whatever its permissions; an existing file fails; a missing path is created unless it is read-only; on success the path is a directory and nothing else changes |
| `Pipeline.WriteFile` | scripts/transcribe_and_note.ts:225 | a write succeeds exactly when the path is writable and not a directory, and then the path holds the content and nothing else changes |
| `Pipeline.OutputPaths` | scripts/transcribe_and_note.ts:223-228 | the output directory, the JSON path and the Markdown path all lie in `<cwd>/public/notes` and are pairwise different |
| `Pipeline.LectureResult` | scripts/transcribe_and_note.ts:212-220 | the record carries the title and duration `extractMediaInfo` reports, the placeholder speaker, today's date, the segmented transcript and the parsed notes and keywords |
| `Pipeline.LectureResultOfListedFile` | scripts/transcribe_and_note.ts:197-220 | the record of a file `name.ext` in any directory is titled `name` with its separators turned into blanks and carries the duration `45:30` |
| `Pipeline.WriteOutputs` | scripts/transcribe_and_note.ts:225-251 | the record is written first and the page only after it; success holds exactly when both paths are writable files or absent and not read-only, and the disk then holds both; nothing outside the output directory changes |
| `Pipeline.StoreFiles` | scripts/transcribe_and_note.ts:222-251 | `mkdir`, the record and the page are attempted in that order; the run succeeds exactly when the disk allows all three, and the disk then holds both files; the page is written only right after the record; nothing outside the output directory changes |
| `Pipeline.ProcessLecture` | scripts/transcribe_and_note.ts:185-262 | the run starts with the existence check and exits last if at all; every write comes after all upstream calls; an upstream failure leaves the disk alone; success holds exactly when the upstream calls succeed and the disk is writable, and the disk then holds the record and the page; nothing outside the output directory changes |
| `Pipeline.AccessedOfLecture` | scripts/transcribe_and_note.ts:190-194 | a lecture run checks exactly its own file and lists no directory |
| `Pipeline.ProcessFiles` | scripts/transcribe_and_note.ts:281-285 | the files checked are a prefix of the input paths, all of them when the batch succeeds; the run exits last if at all; nothing outside the output directory changes |
| `Pipeline.BatchProcess` | scripts/transcribe_and_note.ts:267-292 | the batch lists the directory first; an unreadable directory exits with 1 and changes nothing; otherwise the files checked are a prefix of the media files of the listing, all of them on success; no media file means success with nothing done |
| `Cli.UserArgs` | scripts/transcribe_and_note.ts:296 | the arguments are what follows the first two entries of `argv` |
| `Cli.ParseArgs` | scripts/transcribe_and_note.ts:296-321 | no argument asks for usage; a lone `--batch` is an error; `--batch dir` is a batch of `dir`; any other first argument is a single file |
| `Cli.ParseCommandLine` | scripts/transcribe_and_note.ts:296-321 | every command except a file named `--batch` can be asked for, and arguments after a complete command are ignored |
| `Cli.Main` | scripts/transcribe_and_note.ts:295-322 | usage and a missing directory exit with 1 before touching anything; a single file checks exactly that file; a batch starts by listing its directory; every run exits last if at all and changes nothing outside the output directory |

## Left out

- The speech-to-text and chat services: the model does not call them. Each is a parameter that may fail (`Pipeline.Services`). The prompt text, the model names, the temperature and `max_tokens` are not modelled.
- The clock: the date stamp is the `today` parameter. `new Date().toISOString().split('T')[0]` is not modelled.
- Console output: the usage text, the progress messages and the error messages.
- The `OPENAI_API_KEY` check before `main` runs: it happens before anything the model covers.
- The order of `readdir`: the listing is whatever `Services.listDir` returns.
- `path.join` normalisation (`..`, `.` and doubled slashes): paths are joined with a single `/`.
- `mkdir({ recursive: true })` is modelled as creating the output directory alone. Its missing parents are not modelled.
- `Pipeline.StoreFiles`: the JSON file is stored as the record value itself. `JSON.stringify` formatting is not modelled.
- `fs.access` is modelled as "the path exists". Permission bits are not modelled.
- `Slug.SlugLower`: `toLowerCase` is modelled as two steps.
  - First, U+212A is expanded to `k`, and U+0130 to `i` followed by U+0307. These are the only two characters outside ASCII whose lower case holds an ASCII letter.
  - Then ASCII letters are lower-cased.
  - Every other character outside ASCII is left as it is, not lower-cased. This gives the same slug: step 3 deletes the character and its lower case alike, and white space has no case.
- `Text.Lower`: other cased letters, such as `É`, are left unchanged, where the source would lower-case them.
- `TimeFormat.FormatTime`:
  - Seconds are natural numbers.
  - The page's `Math.floor` of fractional or negative media times is not modelled.
- `LectureFiles.RenderMarkdown`: the transcript sections are located and their headings stated (`LectureFiles.MarkdownTranscriptReadBack`), but they are not parsed back into segments.
- `NotesHtml.StrongPair`: it is stated only for a bold span with no `*` at its end and no line terminator inside. Other inputs are covered by `NotesHtml.StrongAll` itself.
- React rendering, state hooks, routing, media playback and the admin page: these are display code, not logic.
- The mock lecture data in `page.tsx` and `LecturePage.jsx`: it is fixed example content.
