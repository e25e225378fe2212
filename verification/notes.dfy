/**
 * The notes/keyword parse at the end of `generateNotes`: the model's answer is
 * searched for the `## 關鍵詞` heading; the line after it becomes the keyword
 * list and everything from the heading on is cut off the notes.
 *
 * Two regular expressions do this job, and both are written out here by hand:
 *   keyword match  `/## 關鍵詞\s*\n(.+?)(?:\n|$)/s`
 *   notes strip    `/## 關鍵詞\s*\n.+$/s`
 * With the `s` flag `.` matches every character, line breaks included, and
 * `$` only matches at the very end.
 */
module NoteParser {
  import opened Text
  import opened Seqs

  const Marker: string := "## 關鍵詞"

  /** What `generateNotes` hands back. */
  datatype NotesAndKeywords = NotesAndKeywords(notes: string, keywords: seq<string>)

  predicate MarkerAt(s: string, p: nat) {
    p + |Marker| <= |s| && s[p..p + |Marker|] == Marker
  }

  /** `## 關鍵詞\s*\n` can match from `p` with the `\n` at `j`: white space
      from the end of the heading up to `j`, and a line feed at `j`. */
  predicate BreakAt(s: string, p: nat, j: nat) {
    && MarkerAt(s, p)
    && p + |Marker| <= j < |s|
    && AllSpace(s[p + |Marker|..j])
    && s[j] == '\n'
  }

  /** `(.+?)(?:\n|$)` can match after the break at `j` with the capture
      `s[j + 1..e]`: at least one character, then a line feed or the end. */
  predicate CaptureEnd(s: string, j: nat, e: nat) {
    j + 1 < e <= |s| && (e == |s| || s[e] == '\n')
  }

  /** The keyword expression matches at `p`. */
  predicate KeywordMatchAt(s: string, p: nat) {
    exists j: nat, e: nat | j < |s| && e <= |s| :: BreakAt(s, p, j) && CaptureEnd(s, j, e)
  }

  /** The strip expression matches at `p`: after the break, `.+$` needs at
      least one more character and then takes all of them. */
  predicate StripMatchAt(s: string, p: nat) {
    exists j: nat | j < |s| :: BreakAt(s, p, j) && j + 1 < |s|
  }

  /** The two expressions accept at exactly the same places, so the heading
      they pick (the leftmost place each accepts) is the same one. */
  lemma MatchersAgree(s: string, p: nat)
    ensures KeywordMatchAt(s, p) <==> StripMatchAt(s, p)
  {
    if StripMatchAt(s, p) {
      var j: nat :| BreakAt(s, p, j) && j + 1 < |s|;
      assert CaptureEnd(s, j, |s|);
    }
  }

  /** The last line feed in `s[lo..hi]`, if any. */
  function LastNewline(s: string, lo: nat, hi: nat): (j: Option<nat>)
    requires lo <= hi <= |s|
    ensures j.Some? ==> lo <= j.value < hi && s[j.value] == '\n'
    ensures j.Some? ==> forall k | j.value < k < hi :: s[k] != '\n'
    ensures j.None? ==> forall k | lo <= k < hi :: s[k] != '\n'
    decreases hi
  {
    if hi == lo then None
    else if s[hi - 1] == '\n' then Some(hi - 1)
    else LastNewline(s, lo, hi - 1)
  }

  /** Where the greedy `\s*` lets `\n` match: the last line feed of the white
      space after the heading that still leaves a character for `.+?`. The
      engine first takes the whole white-space run and gives characters back
      until `\n` and the rest match, so this is the largest possible break. */
  function GreedyBreak(s: string, p: nat): (j: Option<nat>)
    requires MarkerAt(s, p)
    ensures j.Some? ==> BreakAt(s, p, j.value) && j.value + 1 < |s|
    ensures j.Some? ==> forall k: nat | BreakAt(s, p, k) && k + 1 < |s| :: k <= j.value
    ensures j.None? <==> !StripMatchAt(s, p)
  {
    var q := p + |Marker|;
    var runEnd := q + LeadingSpaces(s[q..]);
    var hi := if runEnd < |s| then runEnd else if q < |s| then |s| - 1 else q;
    WhiteRun(s, q, runEnd);
    BreaksInRun(s, p, runEnd);
    var j := LastNewline(s, q, hi);
    GreedyChoice(s, p, runEnd, hi, j);
    j
  }

  /** The white-space run after the heading ends at `runEnd`. */
  lemma WhiteRun(s: string, q: nat, runEnd: nat)
    requires q <= |s| && runEnd == q + LeadingSpaces(s[q..])
    ensures runEnd <= |s|
    ensures forall k | q <= k < runEnd :: IsSpace(s[k])
    ensures runEnd < |s| ==> !IsSpace(s[runEnd])
  {
    forall k | q <= k < runEnd ensures IsSpace(s[k]) {
      assert s[k] == s[q..][..runEnd - q][k - q];
    }
    if runEnd < |s| {
      assert s[runEnd] == s[q..][runEnd - q];
    }
  }

  /** Every line feed `\s*\n` can stop at lies inside the white-space run. */
  lemma BreaksInRun(s: string, p: nat, runEnd: nat)
    requires MarkerAt(s, p) && p + |Marker| <= runEnd <= |s|
    requires forall k | p + |Marker| <= k < runEnd :: IsSpace(s[k])
    requires runEnd < |s| ==> !IsSpace(s[runEnd])
    ensures forall k: nat | BreakAt(s, p, k) :: k < runEnd
  {
    var q := p + |Marker|;
    forall k: nat | BreakAt(s, p, k) ensures k < runEnd {
      if runEnd < |s| {
        assert forall m | q <= m < k :: IsSpace(s[m]) by {
          forall m | q <= m < k ensures IsSpace(s[m]) {
            assert s[m] == s[q..k][m - q];
          }
        }
      }
    }
  }

  /** The last line feed of the run that leaves a character after it is the
      greedy break, and there is none exactly when the strip expression
      cannot match at `p`. */
  lemma GreedyChoice(s: string, p: nat, runEnd: nat, hi: nat, j: Option<nat>)
    requires MarkerAt(s, p) && p + |Marker| <= runEnd <= |s|
    requires forall k | p + |Marker| <= k < runEnd :: IsSpace(s[k])
    requires forall k: nat | BreakAt(s, p, k) :: k < runEnd
    requires hi == if runEnd < |s| then runEnd else if p + |Marker| < |s| then |s| - 1 else p + |Marker|
    requires j == LastNewline(s, p + |Marker|, hi)
    ensures j.Some? ==> BreakAt(s, p, j.value) && j.value + 1 < |s|
    ensures j.Some? ==> forall k: nat | BreakAt(s, p, k) && k + 1 < |s| :: k <= j.value
    ensures j.None? <==> !StripMatchAt(s, p)
  {
    var q := p + |Marker|;
    if j.Some? {
      forall k | 0 <= k < j.value - q ensures IsSpace(s[q..j.value][k]) {
        assert s[q..j.value][k] == s[q + k];
      }
      assert BreakAt(s, p, j.value) && j.value + 1 < |s|;
    } else {
      assert forall k: nat | k < |s| :: !(BreakAt(s, p, k) && k + 1 < |s|);
    }
  }

  /** Where `(?:\n|$)` first succeeds from `from`: the next line feed, or the
      end. */
  function LineEnd(s: string, from: nat): (e: nat)
    requires from <= |s|
    ensures from <= e <= |s| && (e == |s| || s[e] == '\n')
    ensures forall k | from <= k < e :: s[k] != '\n'
    decreases |s| - from
  {
    if from == |s| || s[from] == '\n' then from else LineEnd(s, from + 1)
  }

  /** The lazy `(.+?)` after the break at `j`: the shortest capture that the
      rest of the pattern accepts. */
  function LazyCaptureEnd(s: string, j: nat): (e: nat)
    requires j + 1 < |s|
    ensures CaptureEnd(s, j, e)
    ensures forall e': nat | CaptureEnd(s, j, e') :: e <= e'
  {
    LineEnd(s, j + 2)
  }

  /** The leftmost place at or after `from` where the expressions match; the
      engine tries the start positions in order. */
  function FindSection(s: string, from: nat): (p: Option<nat>)
    ensures p.Some? ==> from <= p.value && StripMatchAt(s, p.value)
    ensures p.Some? ==> forall p': nat | from <= p' < p.value :: !StripMatchAt(s, p')
    ensures p.None? ==> forall p': nat | from <= p' :: !StripMatchAt(s, p')
    decreases |s| - from
  {
    if |s| < from + |Marker| then None
    else if MarkerAt(s, from) && GreedyBreak(s, from).Some? then Some(from)
    else FindSection(s, from + 1)
  }

  predicate NonEmpty(keyword: string) {
    keyword != []
  }

  function TrimEach(pieces: seq<string>): (r: seq<string>)
    ensures |r| == |pieces|
    ensures forall i | 0 <= i < |r| :: r[i] == Trim(pieces[i])
  {
    seq(|pieces|, i requires 0 <= i < |pieces| => Trim(pieces[i]))
  }

  /** `line.split(',').map(k => k.trim()).filter(k => k.length > 0)`. */
  function SplitKeywords(line: string): (keywords: seq<string>)
    ensures forall i | 0 <= i < |keywords| ::
      keywords[i] != [] && Trimmed(keywords[i]) && NoneIn(keywords[i], {','})
  {
    var pieces := Split(line, {','});
    var trimmed := TrimEach(pieces);
    assert forall i | 0 <= i < |trimmed| :: NoneIn(trimmed[i], {','}) by {
      forall i | 0 <= i < |trimmed| ensures NoneIn(trimmed[i], {','}) {
        TrimNoneIn(pieces[i], {','});
      }
    }
    Filter(trimmed, NonEmpty)
  }

  /** Trimming removes characters and adds none. */
  lemma TrimNoneIn(piece: string, cs: set<char>)
    requires NoneIn(piece, cs)
    ensures NoneIn(Trim(piece), cs)
  {
    var t := Trim(piece);
    forall k | 0 <= k < |t| ensures t[k] !in cs {
      assert t[k] == piece[LeadingSpaces(piece) + k];
    }
  }

  /** The parse of `generateNotes`: a missing answer counts as the empty one
      (`content || ''`); without a keyword section the whole answer, trimmed,
      is the notes and there are no keywords; otherwise the notes are the
      trimmed text before the leftmost heading, and the keywords come from the
      captured line. */
  function ParseNotes(response: Option<string>): (r: NotesAndKeywords)
    ensures Trimmed(r.notes)
    ensures forall i | 0 <= i < |r.keywords| ::
      r.keywords[i] != [] && Trimmed(r.keywords[i]) && NoneIn(r.keywords[i], {','})
  {
    var s := response.GetOr("");
    match FindSection(s, 0)
    case None => NotesAndKeywords(Trim(s), [])
    case Some(p) => SectionParts(s, p)
  }

  /** The notes and keywords when the leftmost heading is at `p`: the text
      before the heading, and the line the lazy capture takes after the
      greedy break. */
  function SectionParts(s: string, p: nat): (r: NotesAndKeywords)
    requires MarkerAt(s, p) && StripMatchAt(s, p)
  {
    var j := GreedyBreak(s, p).value;
    SectionAt(s, p, j, LazyCaptureEnd(s, j))
  }

  /** The notes before `p` and the keywords of the line `s[j + 1..e]`. */
  function SectionAt(s: string, p: nat, j: nat, e: nat): NotesAndKeywords
    requires p <= |s| && j + 1 <= e <= |s|
  {
    NotesAndKeywords(Trim(s[..p]), SplitKeywords(s[j + 1..e]))
  }

  // ---------------------------------------------------------------------------
  // Properties
  // ---------------------------------------------------------------------------

  /** No keyword section: nothing is cut, the notes are the trimmed answer and
      the keyword list is empty. No error is raised. */
  lemma NoSectionParse(response: Option<string>)
    requires forall p: nat :: !StripMatchAt(response.GetOr(""), p)
    ensures ParseNotes(response) == NotesAndKeywords(Trim(response.GetOr("")), [])
  {
  }

  /** A keyword section: given the leftmost heading `p` where the expressions
      match, the last line feed `j` the greedy `\s*` can stop before, and the
      shortest capture end `e` after it, the notes are the trimmed text before
      `p` and the keywords come from `s[j + 1..e]`. */
  lemma SectionParse(response: Option<string>, p: nat, j: nat, e: nat)
    requires var s := response.GetOr("");
      && StripMatchAt(s, p) && (forall p': nat | p' < p :: !StripMatchAt(s, p'))
      && BreakAt(s, p, j) && j + 1 < |s|
      && (forall k: nat | BreakAt(s, p, k) && k + 1 < |s| :: k <= j)
      && CaptureEnd(s, j, e) && (forall e': nat | CaptureEnd(s, j, e') :: e <= e')
    ensures var s := response.GetOr("");
      ParseNotes(response) == NotesAndKeywords(Trim(s[..p]), SplitKeywords(s[j + 1..e]))
  {
    var s := response.GetOr("");
    LeftmostSection(s, p);
    GreatestBreak(s, p, j);
    ShortestCapture(s, j, e);
    ParseAt(response, p, j, e);
  }

  /** `ParseNotes` once the heading, the break and the capture end are
      known. */
  lemma ParseAt(response: Option<string>, p: nat, j: nat, e: nat)
    requires var s := response.GetOr("");
      && FindSection(s, 0) == Some(p) && MarkerAt(s, p)
      && GreedyBreak(s, p) == Some(j) && j + 1 < |s| && LazyCaptureEnd(s, j) == e
    ensures var s := response.GetOr("");
      ParseNotes(response) == NotesAndKeywords(Trim(s[..p]), SplitKeywords(s[j + 1..e]))
  {
    var s := response.GetOr("");
    assert ParseNotes(response) == SectionParts(s, p);
    assert SectionParts(s, p) == SectionAt(s, p, j, e);
  }

  /** The lazy capture ends at the shortest end the pattern accepts. */
  lemma ShortestCapture(s: string, j: nat, e: nat)
    requires CaptureEnd(s, j, e) && forall e': nat | CaptureEnd(s, j, e') :: e <= e'
    ensures LazyCaptureEnd(s, j) == e
  {
    var found := LazyCaptureEnd(s, j);
    assert e <= found;
  }

  lemma LeftmostSection(s: string, p: nat)
    requires StripMatchAt(s, p) && forall p': nat | p' < p :: !StripMatchAt(s, p')
    ensures FindSection(s, 0) == Some(p)
  {
    var found := FindSection(s, 0);
  }

  lemma GreatestBreak(s: string, p: nat, j: nat)
    requires BreakAt(s, p, j) && j + 1 < |s|
    requires forall k: nat | BreakAt(s, p, k) && k + 1 < |s| :: k <= j
    ensures GreedyBreak(s, p) == Some(j)
  {
  }

  /** `split(',')` undoes `join(', ')` up to the blank after each comma. */
  lemma {:induction false} SplitJoinedKeywords(keywords: seq<string>)
    requires |keywords| > 0
    requires forall i | 0 <= i < |keywords| :: NoneIn(keywords[i], {','})
    ensures var pieces := Split(Join(keywords, ", "), {','});
      && |pieces| == |keywords| && pieces[0] == keywords[0]
      && forall i | 1 <= i < |keywords| :: pieces[i] == " " + keywords[i]
  {
    if |keywords| > 1 {
      var rest := keywords[1..];
      SplitJoinedKeywords(rest);
      var tail := Join(rest, ", ");
      assert Join(keywords, ", ") == keywords[0] + [','] + (" " + tail);
      SplitAfterPiece(keywords[0], ',', " " + tail, {','});
      assert " " + tail == [' '] + tail;
      SplitCons(' ', tail, {','});
    } else {
      SplitWithoutSeparators(keywords[0], {','});
    }
  }

  /** A separator right after a separator-free piece closes that piece. */
  lemma {:induction false} SplitAfterPiece(piece: string, c: char, rest: string, seps: set<char>)
    requires NoneIn(piece, seps) && c in seps
    ensures Split(piece + [c] + rest, seps) == [piece] + Split(rest, seps)
  {
    if |piece| == 0 {
      assert piece + [c] + rest == [c] + rest;
      SplitCons(c, rest, seps);
    } else {
      SplitAfterPiece(piece[1..], c, rest, seps);
      assert piece + [c] + rest == [piece[0]] + (piece[1..] + [c] + rest);
      SplitCons(piece[0], piece[1..] + [c] + rest, seps);
      assert [piece[0]] + piece[1..] == piece;
    }
  }

  /** Joining pieces free of some characters with a separator free of them
      leaves them out. */
  lemma {:induction false} JoinNoneIn(pieces: seq<string>, sep: string, cs: set<char>)
    requires forall i | 0 <= i < |pieces| :: NoneIn(pieces[i], cs)
    requires NoneIn(sep, cs)
    ensures NoneIn(Join(pieces, sep), cs)
  {
    if |pieces| > 1 {
      JoinNoneIn(pieces[1..], sep, cs);
      var tail := Join(pieces[1..], sep);
      var all := pieces[0] + sep + tail;
      forall k | 0 <= k < |all| ensures all[k] !in cs {
        if k < |pieces[0]| {
          assert all[k] == pieces[0][k];
        } else if k < |pieces[0]| + |sep| {
          assert all[k] == sep[k - |pieces[0]|];
        } else {
          assert all[k] == tail[k - |pieces[0]| - |sep|];
        }
      }
    }
  }

  /** Trimming the pieces of `split(',')` after `join(', ')` gives the
      keywords back. */
  lemma TrimJoinedPieces(keywords: seq<string>)
    requires |keywords| > 0
    requires forall i | 0 <= i < |keywords| :: Trimmed(keywords[i]) && NoneIn(keywords[i], {','})
    ensures TrimEach(Split(Join(keywords, ", "), {','})) == keywords
  {
    SplitJoinedKeywords(keywords);
    var pieces := Split(Join(keywords, ", "), {','});
    var trimmed := TrimEach(pieces);
    forall i | 0 <= i < |keywords| ensures trimmed[i] == keywords[i] {
      if i == 0 {
        TrimFixed(keywords[0]);
      } else {
        TrimBlankPrefix(keywords[i]);
      }
    }
  }

  lemma TrimBlankPrefix(keyword: string)
    requires Trimmed(keyword)
    ensures Trim(" " + keyword) == keyword
  {
    TrimPadded(" ", keyword, []);
    assert " " + keyword + [] == " " + keyword;
  }

  /** Well-formed keywords survive a write-out as `join(', ')` and the
      parse. */
  lemma JoinedKeywordsParse(keywords: seq<string>)
    requires |keywords| > 0
    requires forall i | 0 <= i < |keywords| ::
      keywords[i] != [] && Trimmed(keywords[i]) && NoneIn(keywords[i], {','})
    ensures SplitKeywords(Join(keywords, ", ")) == keywords
  {
    TrimJoinedPieces(keywords);
    FilterAcceptAll(keywords, NonEmpty);
  }

  /** An answer in the requested format: the notes, some white space, the
      heading, a line feed and the keywords joined by `, `. */
  function WithKeywordSection(notes: string, gap: string, keywords: seq<string>): string {
    notes + gap + Marker + "\n" + Join(keywords, ", ")
  }

  /** The first character of a join is the first character of its first
      piece. */
  lemma JoinStart(pieces: seq<string>, sep: string)
    requires |pieces| > 0 && |pieces[0]| > 0
    ensures |Join(pieces, sep)| > 0 && Join(pieces, sep)[0] == pieces[0][0]
  {
    if |pieces| > 1 {
      var tail := Join(pieces[1..], sep);
      assert Join(pieces, sep) == pieces[0] + (sep + tail);
    }
  }

  /** Parsing an answer in the requested format gives back its notes and its
      keywords, whatever white space separates the notes from the heading. */
  lemma ParseWithKeywordSection(notes: string, gap: string, keywords: seq<string>)
    requires Trimmed(notes) && NoMarkerIn(notes) && AllSpace(gap)
    requires |keywords| > 0
    requires forall i | 0 <= i < |keywords| ::
      && keywords[i] != [] && Trimmed(keywords[i])
      && NoneIn(keywords[i], {','}) && NoneIn(keywords[i], {'\n'})
    ensures ParseNotes(Some(WithKeywordSection(notes, gap, keywords))) == NotesAndKeywords(notes, keywords)
  {
    var joined := Join(keywords, ", ");
    var s := WithKeywordSection(notes, gap, keywords);
    var p := |notes| + |gap|;
    var q := p + |Marker|;
    assert s[..p] == notes + gap;
    assert s[p..q] == Marker;
    assert s[q] == '\n';
    assert s[q + 1..] == joined;
    NoSectionBefore(s, notes, gap, "\n" + joined);
    JoinStart(keywords, ", ");
    OnlyBreak(s, p);
    JoinNoneIn(keywords, ", ", {'\n'});
    CaptureToEnd(s, q);
    TrimPadded([], notes, gap);
    assert [] + notes + gap == s[..p];
    assert s[q + 1..|s|] == joined;
    JoinedKeywordsParse(keywords);
    SectionResult(s, p, q, notes, keywords);
  }

  lemma SectionResult(s: string, p: nat, j: nat, notes: string, keywords: seq<string>)
    requires StripMatchAt(s, p) && (forall p': nat | p' < p :: !StripMatchAt(s, p'))
    requires BreakAt(s, p, j) && j + 1 < |s|
    requires forall k: nat | BreakAt(s, p, k) && k + 1 < |s| :: k <= j
    requires CaptureEnd(s, j, |s|) && (forall e': nat | CaptureEnd(s, j, e') :: |s| <= e')
    requires Trim(s[..p]) == notes && SplitKeywords(s[j + 1..]) == keywords
    ensures ParseNotes(Some(s)) == NotesAndKeywords(notes, keywords)
  {
    SectionParse(Some(s), p, j, |s|);
    assert s[j + 1..|s|] == s[j + 1..];
  }

  /** `notes` holds no keyword heading of its own. */
  predicate NoMarkerIn(notes: string) {
    forall k: nat | k < |notes| :: !MarkerAt(notes, k)
  }

  /** No heading starts before the one placed after the notes and the white
      space: one inside the notes is excluded, and one that would run into
      the white space or the placed heading cannot match there. */
  lemma NoSectionBefore(s: string, notes: string, gap: string, rest: string)
    requires NoMarkerIn(notes) && AllSpace(gap)
    requires s == notes + gap + Marker + rest
    ensures forall p': nat | p' < |notes| + |gap| :: !StripMatchAt(s, p')
  {
    var p := |notes| + |gap|;
    var last := |Marker| - 1;
    assert s[p] == '#' && s[p + 1] == '#';
    forall p': nat | p' < p ensures !MarkerAt(s, p') {
      if p' + |Marker| <= |notes| {
        assert s[p'..p' + |Marker|] == notes[p'..p' + |Marker|];
        assert !MarkerAt(notes, p');
      } else if p' + last < p {
        assert s[p' + last] == gap[p' + last - |notes|];
        assert !IsSpace(Marker[last]);
      } else {
        assert s[p'..p' + |Marker|][p - p'] == '#';
        if p' + 1 == p {
          assert s[p'..p' + |Marker|][2] == '#';
        }
      }
    }
  }

  /** The heading ends in `詞`, so text without that character holds no
      heading. */
  lemma NoMarkerWithoutLastChar(notes: string)
    requires NoneIn(notes, {'詞'})
    ensures NoMarkerIn(notes)
  {
    forall k: nat | k < |notes| ensures !MarkerAt(notes, k) {
      if k + |Marker| <= |notes| {
        assert notes[k..k + |Marker|][|Marker| - 1] == notes[k + |Marker| - 1];
      }
    }
  }

  /** When a line feed and then a visible character follow the heading, that
      line feed is the only place the break can go. */
  lemma OnlyBreak(s: string, p: nat)
    requires MarkerAt(s, p)
    requires p + |Marker| + 1 < |s| && s[p + |Marker|] == '\n' && !IsSpace(s[p + |Marker| + 1])
    ensures BreakAt(s, p, p + |Marker|)
    ensures forall k: nat | BreakAt(s, p, k) && k + 1 < |s| :: k <= p + |Marker|
  {
  }

  /** Without a line feed after the break the capture runs to the end. */
  lemma CaptureToEnd(s: string, j: nat)
    requires j + 1 < |s| && NoneIn(s[j + 1..], {'\n'})
    ensures CaptureEnd(s, j, |s|)
    ensures forall e: nat | CaptureEnd(s, j, e) :: |s| <= e
  {
  }

  /** An answer in the layout the prompt asks for: notes with their own
      `##` and `###` headings, a blank line, then the keyword section. The
      notes keep their headings and the keywords come back. */
  lemma PromptLayoutExample()
    ensures var notes := "## 整理筆記\n\n### 主要重點\n- 心電圖判讀";
      ParseNotes(Some(notes + "\n\n" + Marker + "\n" + "心臟病學, 臨床診斷"))
        == NotesAndKeywords(notes, ["心臟病學", "臨床診斷"])
  {
    var notes := "## 整理筆記\n\n### 主要重點\n- 心電圖判讀";
    var keywords := ["心臟病學", "臨床診斷"];
    NoMarkerWithoutLastChar(notes);
    assert Join(keywords, ", ") == "心臟病學, 臨床診斷";
    ParseWithKeywordSection(notes, "\n\n", keywords);
  }

  /** The keyword line of the documented example. */
  lemma KeywordLineExample()
    ensures ParseNotes(Some("## 關鍵詞\n心臟病學, 臨床診斷")) == NotesAndKeywords("", ["心臟病學", "臨床診斷"])
  {
    var keywords := ["心臟病學", "臨床診斷"];
    assert Join(keywords, ", ") == "心臟病學, 臨床診斷";
    assert WithKeywordSection("", "", keywords) == "## 關鍵詞\n心臟病學, 臨床診斷";
    ParseWithKeywordSection("", "", keywords);
  }
}
