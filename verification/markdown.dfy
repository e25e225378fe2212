/**
 * What `processLecture` stores for a lecture: the `ProcessedResult` record
 * (written as JSON) and the Markdown page rendered from it.
 */
module LectureFiles {
  import opened Text
  import Segmenter
  import NoteParser
  import TimeFormat
  import Seqs

  /** The speaker every processed lecture gets until someone fills it in. */
  const SpeakerPlaceholder: string := "待補充"

  datatype ProcessedResult = ProcessedResult(
    title: string,
    speaker: string,
    date: string,
    duration: string,
    transcript: seq<Segmenter.Segment>,
    notes: string,
    keywords: seq<string>)

  /** The clock of a transcript heading as the Markdown template writes it:
      `${Math.floor(t / 60)}:${(t % 60).toString().padStart(2, '0')}`. */
  function SegmentClock(t: nat): string {
    NatToString(t / 60) + ":" + PadStart(NatToString(t % 60), 2, '0')
  }

  /** The Markdown headings use the same `M:SS` clock as the lecture page. */
  lemma SegmentClockIsFormatTime(t: nat)
    ensures SegmentClock(t) == TimeFormat.FormatTime(t)
  {
    TimeFormat.PaddedIsTwoDigits(t % 60);
  }

  /** One transcript entry: a level-3 heading with the window, a blank line,
      the text. */
  function SegmentSection(segment: Segmenter.Segment): string {
    "### " + SegmentClock(segment.startTime) + " - " + SegmentClock(segment.endTime) + "\n\n"
      + segment.text + "\n"
  }

  const KeywordsLabel: string := "**關鍵詞：** "

  /** Everything before the keyword list: the title heading and the
      speaker, date and duration lines, ending with the keyword label. */
  function HeaderBlock(r: ProcessedResult): (header: string)
    ensures |header| >= 2 + |r.title| + |KeywordsLabel|
    ensures header[..2] == "# " && header[2..2 + |r.title|] == r.title
    ensures header[|header| - |KeywordsLabel|..] == KeywordsLabel
  {
    var header := "# " + r.title + "\n\n"
      + "**講者：** " + r.speaker + "  \n"
      + "**日期：** " + r.date + "  \n"
      + "**時長：** " + r.duration + "  \n"
      + KeywordsLabel;
    assert header == "# " + r.title + (header[2 + |r.title|..|header| - |KeywordsLabel|] + KeywordsLabel);
    header
  }

  /** The horizontal rule, with its blank lines, that closes off the notes on
      both sides. */
  const Rule: string := "\n\n---\n\n"

  const TranscriptHeading: string := "## 逐字稿\n\n"

  /** One section per segment, in transcript order. */
  function Sections(r: ProcessedResult): seq<string> {
    seq(|r.transcript|, i requires 0 <= i < |r.transcript| => SegmentSection(r.transcript[i]))
  }

  /** Everything after the keyword list: the notes between two rules and the
      transcript section. */
  function TailBlock(r: ProcessedResult): (tail: string)
    ensures |tail| > 0 && tail[0] == '\n'
  {
    Rule + r.notes + Rule + TranscriptHeading + Join(Sections(r), "\n") + "\n"
  }

  /** The Markdown file: header, keywords joined by `, `, notes and the
      transcript, one section per segment. */
  function RenderMarkdown(r: ProcessedResult): (md: string)
    ensures |md| >= 2 + |r.title| && md[..2] == "# " && md[2..2 + |r.title|] == r.title
  {
    var header := HeaderBlock(r);
    var md := header + Join(r.keywords, ", ") + TailBlock(r);
    assert md[..|header|] == header;
    md
  }

  /** Where the keyword list starts in the Markdown file. */
  function KeywordLineStart(r: ProcessedResult): nat {
    |HeaderBlock(r)|
  }

  /** The keyword line of the Markdown file, read with the notes parser's own
      keyword splitter, gives back exactly the keywords the parser produced:
      the Markdown and the JSON agree on them. */
  lemma MarkdownKeywordsReadBack(r: ProcessedResult)
    requires forall i | 0 <= i < |r.keywords| ::
      r.keywords[i] != [] && Trimmed(r.keywords[i]) && NoneIn(r.keywords[i], {','})
    ensures var md := RenderMarkdown(r);
      var start := KeywordLineStart(r);
      var end := start + |Join(r.keywords, ", ")|;
      && |KeywordsLabel| <= start && end < |md|
      && md[start - |KeywordsLabel|..start] == KeywordsLabel
      && md[end] == '\n'
      && NoteParser.SplitKeywords(md[start..end]) == r.keywords
  {
    var header := HeaderBlock(r);
    var joined := Join(r.keywords, ", ");
    var tail := TailBlock(r);
    SliceOfAppend([], header, |header| - |KeywordsLabel|, |header|);
    assert (header + joined)[|header| - |KeywordsLabel|..|header|] == header[|header| - |KeywordsLabel|..];
    SliceOfAppend(header + joined, tail, 0, 1);
    SliceOfAppend(header, joined, 0, |joined|);
    assert (header + joined + tail)[|header| - |KeywordsLabel|..|header|]
        == (header + joined)[|header| - |KeywordsLabel|..|header|];
    assert (header + joined + tail)[|header|..|header| + |joined|] == (header + joined)[|header|..];
    assert (header + joined + tail)[|header| + |joined|] == tail[0];
    if |r.keywords| > 0 {
      NoteParser.JoinedKeywordsParse(r.keywords);
    } else {
      EmptyKeywordLine();
    }
  }

  /** Where the notes start in the Markdown file: after the keyword line and
      the first rule. */
  function NotesStart(r: ProcessedResult): nat {
    KeywordLineStart(r) + |Join(r.keywords, ", ")| + |Rule|
  }

  /** The notes stand in the Markdown file exactly as in the record, with a
      rule right before and right after them: the page and the JSON agree on
      the notes. */
  lemma MarkdownNotesReadBack(r: ProcessedResult)
    ensures var md := RenderMarkdown(r);
      var start := NotesStart(r);
      var end := start + |r.notes|;
      && |Rule| <= start && end + |Rule| <= |md|
      && md[start - |Rule|..start] == Rule
      && md[start..end] == r.notes
      && md[end..end + |Rule|] == Rule
  {
    var lead := HeaderBlock(r) + Join(r.keywords, ", ");
    var tail := TailBlock(r);
    var n := |r.notes|;
    TailFramed(tail, r.notes, TranscriptHeading, Join(Sections(r), "\n"));
    SliceOfAppend(lead, tail, 0, |Rule|);
    SliceOfAppend(lead, tail, |Rule|, |Rule| + n);
    SliceOfAppend(lead, tail, |Rule| + n, |Rule| + n + |Rule|);
  }

  /** The tail of the page: the notes between the two rules, then the
      transcript section. */
  lemma TailFramed(tail: string, notes: string, heading: string, body: string)
    requires tail == Rule + notes + Rule + heading + body + "\n"
    ensures var n := |notes|;
      && |tail| >= |Rule| + n + |Rule|
      && tail[..|Rule|] == Rule
      && tail[|Rule|..|Rule| + n] == notes
      && tail[|Rule| + n..|Rule| + n + |Rule|] == Rule
      && tail[|Rule| + n + |Rule|..] == heading + body + "\n"
  {
    var after := heading + body + "\n";
    assert tail == Rule + notes + Rule + after;
    ReadBackAt(tail, Rule, notes, Rule + after);
    ReadBackAt(tail, [], Rule, notes + Rule + after);
    ReadBackAt(tail, Rule + notes, Rule, after);
  }

  /** A slice of the part after `front` is found `|front|` further on. */
  lemma SliceOfAppend(front: string, back: string, i: nat, j: nat)
    requires i <= j <= |back|
    ensures (front + back)[|front| + i..|front| + j] == back[i..j]
  {
  }

  /** The transcript section follows the second rule: its heading, then one
      section per segment joined by line feeds, each headed by the segment's
      window in the lecture page's clock and holding the segment's text. */
  lemma MarkdownTranscriptReadBack(r: ProcessedResult)
    ensures var md := RenderMarkdown(r);
      var start := NotesStart(r) + |r.notes| + |Rule|;
      && start <= |md|
      && md[start..] == TranscriptHeading + Join(Sections(r), "\n") + "\n"
      && |Sections(r)| == |r.transcript|
      && forall i | 0 <= i < |r.transcript| ::
           Sections(r)[i] == "### " + TimeFormat.FormatTime(r.transcript[i].startTime) + " - "
             + TimeFormat.FormatTime(r.transcript[i].endTime) + "\n\n" + r.transcript[i].text + "\n"
  {
    var lead := HeaderBlock(r) + Join(r.keywords, ", ");
    var tail := TailBlock(r);
    var k := |Rule| + |r.notes| + |Rule|;
    TailFramed(tail, r.notes, TranscriptHeading, Join(Sections(r), "\n"));
    SliceOfAppend(lead, tail, k, |tail|);
    assert (lead + tail)[|lead| + k..] == (lead + tail)[|lead| + k..|lead| + |tail|];
    SectionsUseClock(r);
  }

  /** Each transcript section is headed by its window in the lecture page's
      clock. */
  lemma SectionsUseClock(r: ProcessedResult)
    ensures |Sections(r)| == |r.transcript|
    ensures forall i | 0 <= i < |r.transcript| ::
      Sections(r)[i] == "### " + TimeFormat.FormatTime(r.transcript[i].startTime) + " - "
        + TimeFormat.FormatTime(r.transcript[i].endTime) + "\n\n" + r.transcript[i].text + "\n"
  {
    forall i | 0 <= i < |r.transcript|
      ensures Sections(r)[i] == "### " + TimeFormat.FormatTime(r.transcript[i].startTime) + " - "
        + TimeFormat.FormatTime(r.transcript[i].endTime) + "\n\n" + r.transcript[i].text + "\n"
    {
      SegmentClockIsFormatTime(r.transcript[i].startTime);
      SegmentClockIsFormatTime(r.transcript[i].endTime);
    }
  }

  /** The piece placed after `front` is found at `|front|`. */
  lemma ReadBackAt(s: string, front: string, piece: string, back: string)
    requires s == front + piece + back
    ensures s[|front|..|front| + |piece|] == piece
  {
    assert (front + piece + back)[|front|..|front| + |piece|] == piece;
  }

  /** An empty keyword list writes an empty line, which reads back as no
      keywords. */
  lemma EmptyKeywordLine()
    ensures NoteParser.SplitKeywords([]) == []
  {
    assert Split([], {','}) == [[]];
    assert NoteParser.TrimEach([[]]) == [[]];
    Seqs.FilterCons([], [], NoteParser.NonEmpty);
  }
}
