/**
 * `processLecture` and `batchProcess`: the order in which the pipeline
 * checks the input, calls the transcriber and the language model, and writes
 * its two output files, and what a failure leaves behind. The transcriber,
 * the chat model and the directory listing are collaborators handed in as
 * functions; the disk is a map from path to entry; every attempted effect is
 * recorded in a trace.
 */
module Pipeline {
  import opened Text
  import Slug
  import Media
  import Segmenter
  import NoteParser
  import opened LectureFiles

  // ---------------------------------------------------------------------------
  // The disk
  // ---------------------------------------------------------------------------

  datatype Content = MediaData | Json(record: ProcessedResult) | Markdown(text: string)

  datatype Entry = Directory | File(content: Content)

  /** The entries on disk, and the paths where creating or writing fails
      (no permission, full disk). */
  datatype FileSystem = FileSystem(entries: map<string, Entry>, readOnly: set<string>)

  /** `fs.mkdir(dir, { recursive: true })`: an existing directory is
      accepted as it is, whatever its permissions; an existing file is an
      error; otherwise the directory is created unless the path is read-only. */
  function MakeDirectory(fs: FileSystem, dir: string): (r: Option<FileSystem>)
    ensures dir in fs.entries ==> (r.Some? <==> fs.entries[dir].Directory?)
    ensures dir !in fs.entries ==> (r.Some? <==> dir !in fs.readOnly)
    ensures r.Some? ==> r.value == fs.(entries := fs.entries[dir := Directory])
  {
    if dir in fs.entries then
      if fs.entries[dir].Directory? then
        assert fs.entries[dir := Directory] == fs.entries;
        Some(fs)
      else None
    else if dir in fs.readOnly then None
    else Some(fs.(entries := fs.entries[dir := Directory]))
  }

  /** `fs.writeFile(path, content)`: fails on a directory or a read-only
      path, otherwise replaces whatever file was there. */
  function WriteFile(fs: FileSystem, path: string, content: Content): (r: Option<FileSystem>)
    ensures r.Some? <==> path !in fs.readOnly && (path in fs.entries ==> fs.entries[path].File?)
    ensures r.Some? ==> r.value == fs.(entries := fs.entries[path := File(content)])
  {
    if path in fs.readOnly || (path in fs.entries && fs.entries[path].Directory?) then None
    else Some(fs.(entries := fs.entries[path := File(content)]))
  }

  // ---------------------------------------------------------------------------
  // Collaborators and traces
  // ---------------------------------------------------------------------------

  /** The chat completion either throws or answers, possibly without
      content. */
  datatype ChatReply = ChatFailed | ChatReplied(content: Option<string>)

  /** The speech-to-text call (by media path), the chat call (by transcript
      and file name) and `fs.readdir`; `None` and `ChatFailed` are thrown
      errors. */
  datatype Services = Services(
    transcribe: string -> Option<string>,
    chat: (string, string) -> ChatReply,
    listDir: string -> Option<seq<string>>)

  /** The effects a run attempts, in order; `Exit` is `process.exit`. */
  datatype Step =
    | ListDir(path: string)
    | Access(path: string)
    | Transcribe(path: string)
    | Chat(path: string)
    | MakeDir(path: string)
    | Write(path: string)
    | Exit(code: nat)

  predicate Writes(step: Step) {
    step.MakeDir? || step.Write?
  }

  /** The steps that gather the data a lecture's files are made of. */
  predicate Upstream(step: Step) {
    step.Access? || step.Transcribe? || step.Chat?
  }

  datatype Run = Run(fs: FileSystem, trace: seq<Step>, exitCode: nat)

  // ---------------------------------------------------------------------------
  // Output paths
  // ---------------------------------------------------------------------------

  /** `path.join(process.cwd(), 'public', 'notes')` */
  function OutputDir(cwd: string): string {
    cwd + "/public/notes"
  }

  function JsonPath(cwd: string, slug: string): string {
    OutputDir(cwd) + "/" + slug + ".json"
  }

  function MarkdownPath(cwd: string, slug: string): string {
    OutputDir(cwd) + "/" + slug + ".md"
  }

  /** A path the pipeline may create or write: the output directory, or a
      `.json` or `.md` file inside it. */
  predicate IsOutputPath(cwd: string, p: string) {
    || p == OutputDir(cwd)
    || (&& OutputDir(cwd) + "/" <= p
        && ((|p| >= 5 && p[|p| - 5..] == ".json") || (|p| >= 3 && p[|p| - 3..] == ".md")))
  }

  /** The three paths a lecture's run may touch are output paths, and they are
      pairwise different. */
  lemma OutputPaths(cwd: string, slug: string)
    ensures IsOutputPath(cwd, OutputDir(cwd))
    ensures IsOutputPath(cwd, JsonPath(cwd, slug)) && IsOutputPath(cwd, MarkdownPath(cwd, slug))
    ensures JsonPath(cwd, slug) != MarkdownPath(cwd, slug)
    ensures OutputDir(cwd) != JsonPath(cwd, slug) && OutputDir(cwd) != MarkdownPath(cwd, slug)
  {
    var json, md := JsonPath(cwd, slug), MarkdownPath(cwd, slug);
    assert json == (OutputDir(cwd) + "/") + (slug + ".json");
    assert md == (OutputDir(cwd) + "/") + (slug + ".md");
    assert json[|json| - 5..] == ".json";
    assert md[|md| - 3..] == ".md";
    assert json[|json| - 1] != md[|md| - 1];
  }

  // ---------------------------------------------------------------------------
  // `processLecture`
  // ---------------------------------------------------------------------------

  /** The record `processLecture` assembles once it has the transcript and
      the model's answer. */
  function LectureResult(audioPath: string, today: string, text: string, answer: Option<string>): (r: ProcessedResult)
    ensures Media.MediaInfo(r.duration, r.title) == Media.ExtractMediaInfo(audioPath)
    ensures r.speaker == SpeakerPlaceholder && r.date == today
    ensures r.transcript == Segmenter.SegmentTranscript(text)
    ensures NoteParser.NotesAndKeywords(r.notes, r.keywords) == NoteParser.ParseNotes(answer)
  {
    var info := Media.ExtractMediaInfo(audioPath);
    var parsed := NoteParser.ParseNotes(answer);
    ProcessedResult(info.title, SpeakerPlaceholder, today, info.duration,
      Segmenter.SegmentTranscript(text), parsed.notes, parsed.keywords)
  }

  /** The record of a file `name.ext` in directory `dir` is titled `name`
      with its separators read as blanks, and carries the placeholder
      duration. */
  lemma LectureResultOfListedFile(dir: string, name: string, ext: string, today: string, text: string, answer: Option<string>)
    requires NoneIn(name, {'/'}) && Slug.ExtensionText(ext)
    ensures var r := LectureResult(dir + "/" + (name + "." + ext), today, text, answer);
      r.title == Media.Unseparated(name) && r.duration == Media.PlaceholderDuration
  {
    Media.MediaInfoOfListedFile(dir, name, ext);
  }

  /** The slug the output files are named after. */
  function LectureSlug(audioPath: string): string {
    Slug.CreateSlug(Media.BaseName(audioPath))
  }

  /** The trace of a run ends in `process.exit(1)` exactly when the run
      failed, and no other exit happens. */
  predicate ExitsLastIn(trace: seq<Step>, exitCode: nat) {
    && (exitCode == 0 || exitCode == 1)
    && (exitCode == 1 <==> |trace| > 0 && trace[|trace| - 1] == Exit(1))
    && forall i | 0 <= i < |trace| :: trace[i].Exit? ==> i == |trace| - 1 && trace[i] == Exit(1)
  }

  /** The steps that gather a lecture's data, in the order they happen. */
  function UpstreamSteps(audioPath: string, filename: string): seq<Step> {
    [Access(audioPath), Transcribe(audioPath), Chat(filename)]
  }

  /** The upstream steps followed by the steps of `StoreFiles`: the upstream
      steps come before every write, the trace still exits last, and the
      page is still written right after the record. */
  lemma AfterUpstream(audioPath: string, filename: string, json: string, md: string, tail: seq<Step>, exitCode: nat)
    requires |tail| > 0 && ExitsLastIn(tail, exitCode)
    requires forall i | 0 <= i < |tail| :: !Upstream(tail[i]) && !tail[i].ListDir?
    requires forall i | 0 <= i < |tail| && tail[i] == Write(md) :: i == 2 && tail[1] == Write(json)
    ensures var t := UpstreamSteps(audioPath, filename) + tail;
      && t[0] == Access(audioPath)
      && (forall i | 0 < i < |t| :: !t[i].Access? && !t[i].ListDir?)
      && ExitsLastIn(t, exitCode)
      && (forall i, j | 0 <= i < |t| && 0 <= j < |t| && Writes(t[i]) && Upstream(t[j]) :: j < i)
      && (forall i | 0 <= i < |t| && t[i] == Write(md) :: i == 5 && t[4] == Write(json))
  {
    var done := UpstreamSteps(audioPath, filename);
    var t := done + tail;
    assert t[|t| - 1] == tail[|tail| - 1];
    forall i | 0 <= i < |t| ensures t[i] == if i < 3 then done[i] else tail[i - 3] {
    }
  }

  /** What the writes at the end of `processLecture` attempt and leave
      behind: the disk afterwards, the steps and the exit code. */
  datatype Stored = Stored(fs: FileSystem, steps: seq<Step>, exitCode: nat)

  /** The disk lets `mkdir` create the output directory and lets both files
      be written. */
  predicate Writable(fs: FileSystem, cwd: string, slug: string) {
    var dir, json, md := OutputDir(cwd), JsonPath(cwd, slug), MarkdownPath(cwd, slug);
    && (if dir in fs.entries then fs.entries[dir].Directory? else dir !in fs.readOnly)
    && json !in fs.readOnly && (json in fs.entries ==> fs.entries[json].File?)
    && md !in fs.readOnly && (md in fs.entries ==> fs.entries[md].File?)
  }

  /** The disk after a successful run: the output directory exists and holds
      the record and the page. */
  function Saved(fs: FileSystem, cwd: string, slug: string, result: ProcessedResult): FileSystem {
    SavedPage(fs, cwd, slug, result, RenderMarkdown(result))
  }

  /** The same, with the page text given. */
  function SavedPage(fs: FileSystem, cwd: string, slug: string, result: ProcessedResult, page: string): FileSystem {
    fs.(entries := fs.entries[OutputDir(cwd) := Directory]
                             [JsonPath(cwd, slug) := File(Json(result))]
                             [MarkdownPath(cwd, slug) := File(Markdown(page))])
  }

  /** Nothing outside the output directory changed, and no path became
      writable or read-only. */
  ghost predicate Untouched(before: FileSystem, after: FileSystem, cwd: string) {
    && after.readOnly == before.readOnly
    && forall p | !IsOutputPath(cwd, p) ::
      && (p in after.entries <==> p in before.entries)
      && (p in before.entries ==> after.entries[p] == before.entries[p])
  }

  /** `mkdir`, then the JSON record, then the Markdown page; the first
      failure exits. It succeeds exactly when the disk allows all three, and
      then the disk holds both files; the page is only attempted once the
      record is on disk. `page` is the Markdown text of `result`. */
  function StoreFiles(fs: FileSystem, cwd: string, slug: string, result: ProcessedResult, page: string): (stored: Stored)
    ensures |stored.steps| > 0 && stored.steps[0] == MakeDir(OutputDir(cwd))
    ensures forall i | 0 <= i < |stored.steps| :: !Upstream(stored.steps[i]) && !stored.steps[i].ListDir?
    ensures ExitsLastIn(stored.steps, stored.exitCode)
    ensures stored.exitCode == 0 <==> Writable(fs, cwd, slug)
    ensures stored.exitCode == 0 ==> stored.fs == SavedPage(fs, cwd, slug, result, page)
    ensures Untouched(fs, stored.fs, cwd)
    ensures forall i | 0 <= i < |stored.steps| && stored.steps[i] == Write(MarkdownPath(cwd, slug)) ::
      i == 2 && stored.steps[1] == Write(JsonPath(cwd, slug))
        && JsonPath(cwd, slug) in stored.fs.entries
        && stored.fs.entries[JsonPath(cwd, slug)] == File(Json(result))
  {
    var dir, json, md := OutputDir(cwd), JsonPath(cwd, slug), MarkdownPath(cwd, slug);
    OutputPaths(cwd, slug);
    match MakeDirectory(fs, dir)
    case None => Stored(fs, [MakeDir(dir), Exit(1)], 1)
    case Some(fs1) =>
      var written := WriteOutputs(fs1, cwd, slug, result, page);
      var steps := [MakeDir(dir)] + written.steps;
      assert forall i | 1 <= i < |steps| :: steps[i] == written.steps[i - 1];
      assert Untouched(fs, fs1, cwd);
      Stored(written.fs, steps, written.exitCode)
  }

  /** The two writes after `mkdir`: the record, then the page; the first
      failure exits. */
  function WriteOutputs(fs: FileSystem, cwd: string, slug: string, result: ProcessedResult, page: string): (stored: Stored)
    ensures |stored.steps| > 0 && stored.steps[0] == Write(JsonPath(cwd, slug))
    ensures forall i | 0 <= i < |stored.steps| :: stored.steps[i].Write? || stored.steps[i] == Exit(1)
    ensures ExitsLastIn(stored.steps, stored.exitCode)
    ensures var json, md := JsonPath(cwd, slug), MarkdownPath(cwd, slug);
      stored.exitCode == 0 <==>
        && json !in fs.readOnly && (json in fs.entries ==> fs.entries[json].File?)
        && md !in fs.readOnly && (md in fs.entries ==> fs.entries[md].File?)
    ensures stored.exitCode == 0 ==>
      stored.fs == fs.(entries := fs.entries[JsonPath(cwd, slug) := File(Json(result))]
                                             [MarkdownPath(cwd, slug) := File(Markdown(page))])
    ensures Untouched(fs, stored.fs, cwd)
    ensures forall i | 0 <= i < |stored.steps| && stored.steps[i] == Write(MarkdownPath(cwd, slug)) ::
      i == 1 && JsonPath(cwd, slug) in stored.fs.entries
        && stored.fs.entries[JsonPath(cwd, slug)] == File(Json(result))
  {
    var json, md := JsonPath(cwd, slug), MarkdownPath(cwd, slug);
    OutputPaths(cwd, slug);
    match WriteFile(fs, json, Json(result))
    case None => Stored(fs, [Write(json), Exit(1)], 1)
    case Some(fs1) =>
      match WriteFile(fs1, md, Markdown(page))
      case None => Stored(fs1, [Write(json), Write(md), Exit(1)], 1)
      case Some(fs2) => Stored(fs2, [Write(json), Write(md)], 0)
  }

  /** A lecture's trace: it opens with the existence check and checks no
      other file, and it exits last if at all. */
  predicate LectureTrace(run: Run, audioPath: string) {
    && |run.trace| > 0 && run.trace[0] == Access(audioPath)
    && (forall i | 0 < i < |run.trace| :: !run.trace[i].Access? && !run.trace[i].ListDir?)
    && ExitsLastIn(run.trace, run.exitCode)
  }

  /** Every creation or write comes after every step that gathers data. */
  predicate WritesAfterUpstream(trace: seq<Step>) {
    forall i, j | 0 <= i < |trace| && 0 <= j < |trace| && Writes(trace[i]) && Upstream(trace[j]) :: j < i
  }

  /** The page is only ever written as the step right after the record, and
      the record is then on disk. */
  predicate RecordBeforePage(run: Run, cwd: string, slug: string) {
    forall i | 0 <= i < |run.trace| && run.trace[i] == Write(MarkdownPath(cwd, slug)) ::
      && i == 5 && run.trace[4] == Write(JsonPath(cwd, slug))
      && JsonPath(cwd, slug) in run.fs.entries
      && run.fs.entries[JsonPath(cwd, slug)].File?
      && run.fs.entries[JsonPath(cwd, slug)].content.Json?
  }

  /** The three calls that produce a lecture's data all succeed: the file
      is there, the transcriber returns a transcript and the chat model
      answers. */
  predicate UpstreamSucceeds(fs: FileSystem, services: Services, audioPath: string, filename: string) {
    && audioPath in fs.entries
    && services.transcribe(audioPath).Some?
    && services.chat(services.transcribe(audioPath).value, filename).ChatReplied?
  }

  /** The record a lecture whose upstream calls succeeded is stored as. */
  function UpstreamResult(fs: FileSystem, services: Services, today: string, audioPath: string, filename: string): ProcessedResult
    requires UpstreamSucceeds(fs, services, audioPath, filename)
  {
    var text := services.transcribe(audioPath).value;
    LectureResult(audioPath, today, text, services.chat(text, filename).content)
  }

  /** `processLecture(audioPath)`: check the file exists, transcribe it, ask
      the model for notes, then create the output directory and write the
      JSON record and the Markdown page; any failure ends in
      `process.exit(1)`.
      - Nothing is created or written unless all three upstream calls
        succeeded, and every write comes after them; an upstream failure
        leaves the disk as it was.
      - The run succeeds exactly when the upstream calls succeed and the disk
        allows the writes, and the disk then holds the record and the page.
      - The page is only attempted right after the record was written.
      - Nothing outside the output directory changes. */
  function ProcessLecture(fs: FileSystem, services: Services, cwd: string, today: string, audioPath: string): (run: Run)
    ensures LectureTrace(run, audioPath)
    ensures !UpstreamSucceeds(fs, services, audioPath, Media.BaseName(audioPath)) ==>
      run.fs == fs && forall i | 0 <= i < |run.trace| :: !Writes(run.trace[i])
    ensures WritesAfterUpstream(run.trace)
    ensures run.exitCode == 0 <==>
      UpstreamSucceeds(fs, services, audioPath, Media.BaseName(audioPath)) && Writable(fs, cwd, LectureSlug(audioPath))
    ensures run.exitCode == 0 ==>
      run.fs == Saved(fs, cwd, LectureSlug(audioPath), UpstreamResult(fs, services, today, audioPath, Media.BaseName(audioPath)))
    ensures RecordBeforePage(run, cwd, LectureSlug(audioPath))
    ensures Untouched(fs, run.fs, cwd)
  {
    ProcessNamed(fs, services, cwd, today, audioPath, Media.BaseName(audioPath), LectureSlug(audioPath))
  }

  /** `processLecture` once `path.basename(audioPath)` and the slug made of
      it are known. */
  function ProcessNamed(fs: FileSystem, services: Services, cwd: string, today: string, audioPath: string, filename: string, slug: string): (run: Run)
    ensures LectureTrace(run, audioPath)
    ensures !UpstreamSucceeds(fs, services, audioPath, filename) ==>
      run.fs == fs && forall i | 0 <= i < |run.trace| :: !Writes(run.trace[i])
    ensures WritesAfterUpstream(run.trace)
    ensures run.exitCode == 0 <==>
      UpstreamSucceeds(fs, services, audioPath, filename) && Writable(fs, cwd, slug)
    ensures run.exitCode == 0 ==>
      run.fs == Saved(fs, cwd, slug, UpstreamResult(fs, services, today, audioPath, filename))
    ensures RecordBeforePage(run, cwd, slug)
    ensures Untouched(fs, run.fs, cwd)
  {
    if UpstreamSucceeds(fs, services, audioPath, filename) then
      StoreLecture(fs, cwd, audioPath, filename, slug, UpstreamResult(fs, services, today, audioPath, filename))
    else
      Halted(fs, services, audioPath, filename)
  }

  /** A run that stops at the first upstream failure. */
  function Halted(fs: FileSystem, services: Services, audioPath: string, filename: string): (run: Run)
    requires !UpstreamSucceeds(fs, services, audioPath, filename)
    ensures run.fs == fs && run.exitCode == 1
    ensures |run.trace| > 0 && run.trace[0] == Access(audioPath)
    ensures forall i | 0 < i < |run.trace| :: !run.trace[i].Access? && !run.trace[i].ListDir?
    ensures forall i | 0 <= i < |run.trace| :: !Writes(run.trace[i])
    ensures ExitsLastIn(run.trace, run.exitCode)
  {
    if audioPath !in fs.entries then Run(fs, [Access(audioPath), Exit(1)], 1)
    else if services.transcribe(audioPath).None? then Run(fs, [Access(audioPath), Transcribe(audioPath), Exit(1)], 1)
    else Run(fs, [Access(audioPath), Transcribe(audioPath), Chat(filename), Exit(1)], 1)
  }

  /** A run whose upstream calls all succeeded: the writes follow. */
  function StoreLecture(fs: FileSystem, cwd: string, audioPath: string, filename: string, slug: string, result: ProcessedResult): (run: Run)
    ensures LectureTrace(run, audioPath)
    ensures WritesAfterUpstream(run.trace)
    ensures run.exitCode == 0 <==> Writable(fs, cwd, slug)
    ensures run.exitCode == 0 ==> run.fs == Saved(fs, cwd, slug, result)
    ensures RecordBeforePage(run, cwd, slug)
    ensures Untouched(fs, run.fs, cwd)
  {
    var stored := StoreFiles(fs, cwd, slug, result, RenderMarkdown(result));
    AfterUpstream(audioPath, filename, JsonPath(cwd, slug), MarkdownPath(cwd, slug), stored.steps, stored.exitCode);
    Run(stored.fs, UpstreamSteps(audioPath, filename) + stored.steps, stored.exitCode)
  }

  // ---------------------------------------------------------------------------
  // `batchProcess`
  // ---------------------------------------------------------------------------

  /** `path.join(inputDir, file)`, without the normalisation. */
  function JoinPath(dir: string, name: string): string {
    dir + "/" + name
  }

  function InputPaths(dir: string, files: seq<string>): (paths: seq<string>)
    ensures |paths| == |files|
    ensures forall i | 0 <= i < |files| :: paths[i] == JoinPath(dir, files[i])
  {
    seq(|files|, i requires 0 <= i < |files| => JoinPath(dir, files[i]))
  }

  /** The files a trace checks, in order: the lectures it started. */
  function Accessed(trace: seq<Step>): (paths: seq<string>)
    ensures |paths| <= |trace|
  {
    if |trace| == 0 then []
    else (if trace[0].Access? then [trace[0].path] else []) + Accessed(trace[1..])
  }

  lemma {:induction false} AccessedAppend(a: seq<Step>, b: seq<Step>)
    ensures Accessed(a + b) == Accessed(a) + Accessed(b)
  {
    if |a| > 0 {
      assert (a + b)[1..] == a[1..] + b;
      AccessedAppend(a[1..], b);
    } else {
      assert a + b == b;
    }
  }

  lemma {:induction false} AccessedNone(trace: seq<Step>)
    requires forall i | 0 <= i < |trace| :: !trace[i].Access?
    ensures Accessed(trace) == []
  {
    if |trace| > 0 {
      AccessedNone(trace[1..]);
    }
  }

  /** A lecture's run starts exactly one lecture: its own. */
  lemma AccessedOfLecture(run: Run, audioPath: string)
    requires LectureTrace(run, audioPath)
    ensures Accessed(run.trace) == [audioPath]
    ensures forall i | 0 <= i < |run.trace| :: !run.trace[i].ListDir?
  {
    AccessedNone(run.trace[1..]);
  }

  /** A run that exited normally followed by another run exits last with the
      second run's code. */
  lemma ExitsLastConcat(a: seq<Step>, b: seq<Step>, exitCode: nat)
    requires ExitsLastIn(a, 0) && ExitsLastIn(b, exitCode)
    ensures ExitsLastIn(a + b, exitCode)
  {
    var t := a + b;
    forall i | 0 <= i < |t| ensures t[i] == if i < |a| then a[i] else b[i - |a|] {
    }
    if |b| == 0 {
      assert t == a;
    }
  }

  predicate NoListDir(trace: seq<Step>) {
    forall i | 0 <= i < |trace| :: !trace[i].ListDir?
  }

  lemma NoListDirConcat(a: seq<Step>, b: seq<Step>)
    requires NoListDir(a) && NoListDir(b)
    ensures NoListDir(a + b)
  {
    var t := a + b;
    forall i | 0 <= i < |t| ensures !t[i].ListDir? {
      if i >= |a| {
        assert t[i] == b[i - |a|];
      }
    }
  }

  /** The loop `for (const file of audioFiles)`: the lectures are started
      in listing order, and the first failing one ends the process, so no
      later lecture is started. When every lecture succeeds, every file was
      processed. */
  function ProcessFiles(fs: FileSystem, services: Services, cwd: string, today: string, dir: string, files: seq<string>): (run: Run)
    ensures ExitsLastIn(run.trace, run.exitCode)
    ensures NoListDir(run.trace)
    ensures Accessed(run.trace) <= InputPaths(dir, files)
    ensures run.exitCode == 0 ==> Accessed(run.trace) == InputPaths(dir, files)
    ensures Untouched(fs, run.fs, cwd)
    decreases |files|, 1
  {
    if |files| == 0 then Run(fs, [], 0)
    else
      var path := JoinPath(dir, files[0]);
      var first := ProcessLecture(fs, services, cwd, today, path);
      AccessedOfLecture(first, path);
      ProcessRest(fs, first, services, cwd, today, dir, files)
  }

  /** The rest of the loop once the first lecture of `files` has run. */
  function ProcessRest(fs: FileSystem, first: Run, services: Services, cwd: string, today: string, dir: string, files: seq<string>): (run: Run)
    requires |files| > 0
    requires ExitsLastIn(first.trace, first.exitCode) && NoListDir(first.trace)
    requires Accessed(first.trace) == [JoinPath(dir, files[0])]
    requires Untouched(fs, first.fs, cwd)
    ensures ExitsLastIn(run.trace, run.exitCode)
    ensures NoListDir(run.trace)
    ensures Accessed(run.trace) <= InputPaths(dir, files)
    ensures run.exitCode == 0 ==> Accessed(run.trace) == InputPaths(dir, files)
    ensures Untouched(fs, run.fs, cwd)
    decreases |files|, 0
  {
    assert InputPaths(dir, files) == [JoinPath(dir, files[0])] + InputPaths(dir, files[1..]);
    if first.exitCode != 0 then first
    else
      var rest := ProcessFiles(first.fs, services, cwd, today, dir, files[1..]);
      AccessedAppend(first.trace, rest.trace);
      ExitsLastConcat(first.trace, rest.trace, rest.exitCode);
      NoListDirConcat(first.trace, rest.trace);
      Run(rest.fs, first.trace + rest.trace, rest.exitCode)
  }

  /** `batchProcess(inputDir)`: list the directory, keep the media files and
      process them one after the other. A listing failure exits with 1; a
      directory without media files ends the batch without touching
      anything. */
  function BatchProcess(fs: FileSystem, services: Services, cwd: string, today: string, inputDir: string): (run: Run)
    ensures |run.trace| > 0 && run.trace[0] == ListDir(inputDir)
    ensures ExitsLastIn(run.trace, run.exitCode)
    ensures Untouched(fs, run.fs, cwd)
    ensures services.listDir(inputDir).None? ==> run.fs == fs && run.exitCode == 1 && Accessed(run.trace) == []
    ensures services.listDir(inputDir).Some? ==>
      var files := Media.MediaFiles(services.listDir(inputDir).value);
      && Accessed(run.trace) <= InputPaths(inputDir, files)
      && (run.exitCode == 0 ==> Accessed(run.trace) == InputPaths(inputDir, files))
      && (files == [] ==> run.fs == fs && run.exitCode == 0 && |run.trace| == 1)
  {
    match services.listDir(inputDir)
    case None => Run(fs, [ListDir(inputDir), Exit(1)], 1)
    case Some(names) =>
      var files := Media.MediaFiles(names);
      if |files| == 0 then Run(fs, [ListDir(inputDir)], 0)
      else
        var run := ProcessFiles(fs, services, cwd, today, inputDir, files);
        AccessedAppend([ListDir(inputDir)], run.trace);
        ExitsLastConcat([ListDir(inputDir)], run.trace, run.exitCode);
        Run(run.fs, [ListDir(inputDir)] + run.trace, run.exitCode)
  }
}
