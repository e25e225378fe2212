/**
 * `segmentTranscript`: the raw transcript is cut into sentences at the
 * full-width sentence ends, blank pieces are dropped, and every sentence gets a
 * synthetic 30-second window, one after the other from time 0.
 */
module Segmenter {
  import opened Text
  import opened Seqs

  /** `/[。！？]/`: only the full-width sentence ends; ASCII `.`, `!` and `?`
      do not split. */
  const SentenceEnds: set<char> := {'。', '！', '？'}

  /** `avgSegmentDuration`: every sentence is assumed to last this long. */
  const SegmentSeconds: nat := 30

  datatype Segment = Segment(id: string, startTime: nat, endTime: nat, text: string)

  /** `sentence.trim().length > 0` */
  predicate NonBlank(piece: string) {
    Trim(piece) != []
  }

  /** The pieces between sentence ends that survive the blank filter. */
  function Sentences(transcript: string): (pieces: seq<string>)
    ensures forall i | 0 <= i < |pieces| :: NoneIn(pieces[i], SentenceEnds)
  {
    Filter(Split(transcript, SentenceEnds), NonBlank)
  }

  /** `seg${index + 1}` */
  function SegmentId(index: nat): string {
    "seg" + NatToString(index + 1)
  }

  /** What a segment's text looks like: a non-empty, trimmed sentence without
      any sentence end, followed by one `。`. */
  predicate SentenceText(text: string) {
    && |text| >= 2
    && text[|text| - 1] == '。'
    && Trimmed(text[..|text| - 1])
    && NoneIn(text[..|text| - 1], SentenceEnds)
  }

  /** `segmentTranscript(transcriptText)`: one segment per non-blank sentence,
      in order. Segment `i` is called `seg(i+1)`, covers `[30 i, 30 (i+1))` and
      holds the trimmed sentence followed by `。`. */
  function SegmentTranscript(transcript: string): (segments: seq<Segment>)
    ensures |segments| == |Sentences(transcript)|
    ensures forall i | 0 <= i < |segments| ::
      && segments[i].id == "seg" + NatToString(i + 1)
      && segments[i].startTime == SegmentSeconds * i
      && segments[i].endTime == segments[i].startTime + SegmentSeconds
    ensures forall i | 0 <= i < |segments| ::
      && SentenceText(segments[i].text)
      && segments[i].text == Trim(Sentences(transcript)[i]) + "。"
  {
    var sentences := Sentences(transcript);
    seq(|sentences|, i requires 0 <= i < |sentences| =>
      SentenceSegment(i, sentences[i]))
  }

  function SentenceSegment(index: nat, piece: string): (segment: Segment)
    requires NonBlank(piece) && NoneIn(piece, SentenceEnds)
    ensures SentenceText(segment.text)
  {
    var body := Trim(piece);
    assert NoneIn(body, SentenceEnds) by {
      forall k | 0 <= k < |body| ensures body[k] !in SentenceEnds {
        assert body[k] == piece[LeadingSpaces(piece) + k];
      }
    }
    assert (body + "。")[..|body|] == body;
    Segment(SegmentId(index), SegmentSeconds * index, SegmentSeconds * (index + 1), body + "。")
  }

  // ---------------------------------------------------------------------------
  // Properties
  // ---------------------------------------------------------------------------

  /** The windows tile the time line: the first starts at 0 and each one
      starts where the previous one ended. */
  lemma WindowsContiguous(transcript: string)
    ensures var segments := SegmentTranscript(transcript);
      && (|segments| > 0 ==> segments[0].startTime == 0)
      && forall i | 0 <= i < |segments| - 1 :: segments[i].endTime == segments[i + 1].startTime
  {
  }

  /** No two segments of a transcript share an id. */
  lemma SegmentIdsDistinct(transcript: string, i: nat, j: nat)
    requires i < |SegmentTranscript(transcript)| && j < |SegmentTranscript(transcript)|
    requires i != j
    ensures SegmentTranscript(transcript)[i].id != SegmentTranscript(transcript)[j].id
  {
    var segments := SegmentTranscript(transcript);
    if segments[i].id == segments[j].id {
      assert segments[i].id[3..] == NatToString(i + 1);
      assert segments[j].id[3..] == NatToString(j + 1);
      NatToStringInjective(i + 1, j + 1);
    }
  }

  /** Only sentence ends and white space. */
  predicate Unspoken(transcript: string) {
    forall k | 0 <= k < |transcript| :: IsSpace(transcript[k]) || transcript[k] in SentenceEnds
  }

  predicate AllBlank(pieces: seq<string>) {
    forall i | 0 <= i < |pieces| :: AllSpace(pieces[i])
  }

  lemma AllBlankCons(piece: string, pieces: seq<string>)
    ensures AllBlank([piece] + pieces) <==> AllSpace(piece) && AllBlank(pieces)
  {
    var all := [piece] + pieces;
    assert all[0] == piece;
    assert forall i | 0 <= i < |pieces| :: pieces[i] == all[i + 1];
  }

  lemma UnspokenCons(c: char, s: string)
    ensures Unspoken([c] + s) <==> (IsSpace(c) || c in SentenceEnds) && Unspoken(s)
  {
    var t := [c] + s;
    assert t[0] == c;
    assert forall k | 0 <= k < |s| :: s[k] == t[k + 1];
  }

  lemma {:induction false} SplitAllBlank(s: string)
    ensures AllBlank(Split(s, SentenceEnds)) <==> Unspoken(s)
  {
    if |s| > 0 {
      var c, t := s[0], s[1..];
      assert s == [c] + t;
      SplitAllBlank(t);
      UnspokenCons(c, t);
      SplitCons(c, t, SentenceEnds);
      var rest := Split(t, SentenceEnds);
      assert rest == [rest[0]] + rest[1..];
      AllBlankCons(rest[0], rest[1..]);
      if c in SentenceEnds {
        AllBlankCons([], rest);
      } else {
        AllBlankCons([c] + rest[0], rest[1..]);
        AllSpaceCons(c, rest[0]);
      }
    }
  }

  /** A transcript yields no segment exactly when it holds nothing but white
      space and sentence ends; in particular the empty transcript yields none. */
  lemma NoSegmentsIffUnspoken(transcript: string)
    ensures SegmentTranscript(transcript) == [] <==> Unspoken(transcript)
  {
    var pieces := Split(transcript, SentenceEnds);
    SplitAllBlank(transcript);
    if Unspoken(transcript) {
      FilterRejectAll(pieces, NonBlank);
    } else {
      var i :| 0 <= i < |pieces| && !AllSpace(pieces[i]);
      FilterKeepsAccepted(pieces, NonBlank, i);
    }
  }

  /** Non-blank text without any sentence end is one segment, the whole text
      trimmed. */
  lemma OneSentence(transcript: string)
    requires NoneIn(transcript, SentenceEnds) && NonBlank(transcript)
    ensures SegmentTranscript(transcript) == [Segment("seg1", 0, SegmentSeconds, Trim(transcript) + "。")]
  {
    SplitWithoutSeparators(transcript, SentenceEnds);
    FilterCons(transcript, [], NonBlank);
    assert Sentences(transcript) == [transcript];
    assert SegmentId(0) == "seg1";
    var segments := SegmentTranscript(transcript);
    assert segments[0] == SentenceSegment(0, transcript);
  }

  lemma MixedPunctuationPieces()
    ensures Split("A。B!", SentenceEnds) == ["A", "B!"]
  {
    assert "!" == ['!'] + "";
    SplitCons('!', "", SentenceEnds);
    assert Split("!", SentenceEnds) == ["!"];
    assert "B!" == ['B'] + "!";
    SplitCons('B', "!", SentenceEnds);
    assert Split("B!", SentenceEnds) == ["B!"];
    assert "。B!" == ['。'] + "B!";
    SplitCons('。', "B!", SentenceEnds);
    assert Split("。B!", SentenceEnds) == ["", "B!"];
    assert "A。B!" == ['A'] + "。B!";
    SplitCons('A', "。B!", SentenceEnds);
    assert Split("。B!", SentenceEnds)[1..] == ["B!"];
    assert ['A'] + Split("。B!", SentenceEnds)[0] == "A";
  }

  lemma MixedPunctuationSentences()
    ensures Sentences("A。B!") == ["A", "B!"]
  {
    MixedPunctuationPieces();
    TrimFixed("A");
    TrimFixed("B!");
    FilterCons("B!", [], NonBlank);
    FilterCons("A", ["B!"], NonBlank);
  }

  lemma FirstIds()
    ensures SegmentId(0) == "seg1" && SegmentId(1) == "seg2"
  {
    assert NatToString(1) == "1";
    assert NatToString(2) == "2";
  }

  lemma MixedPunctuationTexts()
    ensures |SegmentTranscript("A。B!")| == 2
    ensures SegmentTranscript("A。B!")[0].text == "A。"
    ensures SegmentTranscript("A。B!")[1].text == "B!。"
  {
    MixedPunctuationSentences();
    TrimFixed("A");
    TrimFixed("B!");
  }

  lemma MixedPunctuationIds()
    ensures |SegmentTranscript("A。B!")| == 2
    ensures SegmentTranscript("A。B!")[0].id == "seg1"
    ensures SegmentTranscript("A。B!")[1].id == "seg2"
  {
    MixedPunctuationSentences();
    FirstIds();
  }

  /** An ASCII `!` does not end a sentence: it stays inside the second one. */
  lemma MixedPunctuationExample()
    ensures SegmentTranscript("A。B!") ==
      [Segment("seg1", 0, 30, "A。"), Segment("seg2", 30, 60, "B!。")]
  {
    MixedPunctuationTexts();
    MixedPunctuationIds();
  }
}
