/**
 * The notes tab of the lecture page: the stored Markdown notes are turned into
 * HTML by a fixed chain of global replacements. Line feeds become `<br>`,
 * heading markers `### `, `## ` and `# ` (in that order, anywhere in the text)
 * become opening heading tags, and `**x**` becomes `<strong>x</strong>`.
 */
module NotesHtml {
  import opened Text

  /** `c` is directly followed by `d` somewhere in `s`. */
  predicate HasPair(s: string, c: char, d: char) {
    exists k | 0 <= k < |s| - 1 :: s[k] == c && s[k + 1] == d
  }

  /** Replacing a two-character pattern leaves no occurrence of it, provided
      the replacement cannot form one with its neighbours. */
  lemma {:induction false} ReplacePairGone(s: string, c: char, d: char, rep: string)
    requires |rep| > 0 && rep[0] != d && rep[|rep| - 1] != c && !HasPair(rep, c, d)
    ensures !HasPair(ReplaceAll(s, [c, d], rep), c, d)
    decreases |s|
  {
    var r := ReplaceAll(s, [c, d], rep);
    if |s| > 0 {
      if [c, d] <= s {
        var rest := ReplaceAll(s[2..], [c, d], rep);
        ReplacePairGone(s[2..], c, d, rep);
        assert r == rep + rest;
        forall k | 0 <= k < |r| - 1 ensures !(r[k] == c && r[k + 1] == d) {
          if k >= |rep| {
            assert r[k] == rest[k - |rep|] && r[k + 1] == rest[k + 1 - |rep|];
          } else if k < |rep| - 1 {
            assert r[k] == rep[k] && r[k + 1] == rep[k + 1];
          }
        }
      } else {
        var rest := ReplaceAll(s[1..], [c, d], rep);
        ReplacePairGone(s[1..], c, d, rep);
        assert r == [s[0]] + rest;
        forall k | 0 <= k < |r| - 1 ensures !(r[k] == c && r[k + 1] == d) {
          if k >= 1 {
            assert r[k] == rest[k - 1] && r[k + 1] == rest[k];
          } else if s[0] == c && |s| > 1 {
            assert s[1] != d;
          }
        }
      }
    }
  }

  /** Gluing two pieces without the pair creates one only at the seam. */
  lemma NoPairConcat(a: string, b: string, c: char, d: char)
    requires !HasPair(a, c, d) && !HasPair(b, c, d)
    requires |a| == 0 || |b| == 0 || !(a[|a| - 1] == c && b[0] == d)
    ensures !HasPair(a + b, c, d)
  {
    var s := a + b;
    forall k | 0 <= k < |s| - 1 ensures !(s[k] == c && s[k + 1] == d) {
      if k + 1 < |a| {
        assert s[k] == a[k] && s[k + 1] == a[k + 1];
      } else if k >= |a| {
        assert s[k] == b[k - |a|] && s[k + 1] == b[k + 1 - |a|];
      }
    }
  }

  /** A slice has no pair its whole string lacks. */
  lemma NoPairSlice(s: string, i: nat, j: nat, c: char, d: char)
    requires i <= j <= |s| && !HasPair(s, c, d)
    ensures !HasPair(s[i..j], c, d)
  {
    var t := s[i..j];
    forall k | 0 <= k < |t| - 1 ensures !(t[k] == c && t[k + 1] == d) {
      assert t[k] == s[i + k] && t[k + 1] == s[i + k + 1];
    }
  }

  /** The characters that end a line for `.` in a regular expression without
      the `s` flag. */
  predicate IsLineTerminator(c: char) {
    c == '\n' || c == '\r' || c == '\U{2028}' || c == '\U{2029}'
  }

  /** `**` starts at `k`. */
  predicate StarsAt(s: string, k: nat) {
    k + 1 < |s| && s[k] == '*' && s[k + 1] == '*'
  }

  /** Where the lazy `(.*?)\*\*` closes for a capture starting at `from`:
      the first `**` at or after `from`, provided no line terminator comes
      before it (`.` cannot step over one). */
  function CloseAt(s: string, from: nat): (e: Option<nat>)
    requires from <= |s|
    ensures e.Some? ==> from <= e.value && StarsAt(s, e.value)
    ensures e.Some? ==> forall k | from <= k < e.value :: !StarsAt(s, k) && !IsLineTerminator(s[k])
    ensures e.None? ==> forall k | from <= k && StarsAt(s, k) ::
      exists j | from <= j < k :: IsLineTerminator(s[j])
    decreases |s| - from
  {
    if from + 1 >= |s| then None
    else if StarsAt(s, from) then Some(from)
    else if IsLineTerminator(s[from]) then None
    else CloseAt(s, from + 1)
  }

  const Open: string := "<strong>"
  const Close: string := "</strong>"

  /** The characters of a converted pair followed by the converted rest come
      from `s` or from the tags. */
  lemma TaggedChars(s: string, e: nat, rest: string)
    requires 2 <= e && e + 2 <= |s|
    requires forall k | 0 <= k < |rest| :: rest[k] in s[e + 2..] || rest[k] in Close
    ensures var r := Open + s[2..e] + Close + rest;
      forall k | 0 <= k < |r| :: r[k] in s || r[k] in Close
  {
    var r := Open + s[2..e] + Close + rest;
    forall k | 0 <= k < |r| ensures r[k] in s || r[k] in Close {
      if k < |Open| {
        assert r[k] == Open[k];
      } else if k < |Open| + e - 2 {
        assert r[k] == s[k - |Open| + 2];
      } else if k < |Open| + e - 2 + |Close| {
        assert r[k] == Close[k - |Open| - e + 2];
      } else {
        var i := k - |Open| - e + 2 - |Close|;
        assert r[k] == rest[i];
        if rest[i] in s[e + 2..] {
          var j :| 0 <= j < |s[e + 2..]| && s[e + 2..][j] == rest[i];
          assert s[e + 2 + j] == rest[i];
        }
      }
    }
  }

  /** A copied character followed by the converted rest: every character
      comes from `s` or from the tags. */
  lemma CopiedChars(s: string, rest: string)
    requires |s| > 0
    requires forall k | 0 <= k < |rest| :: rest[k] in s[1..] || rest[k] in Close
    ensures forall k | 0 <= k < |[s[0]] + rest| :: ([s[0]] + rest)[k] in s || ([s[0]] + rest)[k] in Close
  {
    var r := [s[0]] + rest;
    forall k | 0 <= k < |r| ensures r[k] in s || r[k] in Close {
      if k > 0 && rest[k - 1] in s[1..] {
        var j :| 0 <= j < |s[1..]| && s[1..][j] == rest[k - 1];
        assert s[1 + j] == r[k];
      }
    }
  }

  /** The bold rewrite (pattern `\*\*(.*?)\*\*`, flag `g`): scanning from the
      left, a `**` that a later `**` closes on the same line opens a bold run;
      the scan resumes after the closing `**`. A `**` without a partner is
      copied. The result only holds characters of `s` and of the tags, and it
      starts where `s` starts or with a tag. */
  function StrongAll(s: string): (r: string)
    ensures forall k | 0 <= k < |r| :: r[k] in s || r[k] in Close
    ensures |s| > 0 ==> |r| > 0 && (r[0] == s[0] || r[0] == '<')
    decreases |s|
  {
    if |s| == 0 then []
    else if StarsAt(s, 0) && CloseAt(s, 2).Some? then
      var e := CloseAt(s, 2).value;
      var rest := StrongAll(s[e + 2..]);
      TaggedChars(s, e, rest);
      Open + s[2..e] + Close + rest
    else
      var rest := StrongAll(s[1..]);
      CopiedChars(s, rest);
      [s[0]] + rest
  }

  /** A bold pair whose inside has no `**`, no line terminator and does not
      end in `*` becomes one `<strong>` element around that inside. (An inside
      ending in `*` would let the lazy capture stop one character early.) */
  lemma StrongPair(x: string)
    requires !HasPair(x, '*', '*')
    requires forall k | 0 <= k < |x| :: !IsLineTerminator(x[k])
    requires |x| == 0 || x[|x| - 1] != '*'
    ensures StrongAll("**" + x + "**") == Open + x + Close
  {
    StrongPairSteps(x);
  }

  lemma StrongPairSteps(x: string)
    requires !HasPair(x, '*', '*')
    requires forall k | 0 <= k < |x| :: !IsLineTerminator(x[k])
    requires |x| == 0 || x[|x| - 1] != '*'
    ensures var s := "**" + x + "**"; StrongAll(s) == Open + x + Close
  {
    var s := "**" + x + "**";
    var e := 2 + |x|;
    PairCloses(x);
    assert StarsAt(s, 0);
    assert CloseAt(s, 2).value == e;
    var rest := StrongAll(s[e + 2..]);
    assert StrongAll(s) == Open + s[2..e] + Close + rest;
    assert s[e + 2..] == [];
    assert rest == [];
    assert s[2..e] == x;
    assert StrongAll(s) == Open + x + Close;
  }

  lemma PairCloses(x: string)
    requires !HasPair(x, '*', '*')
    requires forall k | 0 <= k < |x| :: !IsLineTerminator(x[k])
    requires |x| == 0 || x[|x| - 1] != '*'
    ensures CloseAt("**" + x + "**", 2) == Some(2 + |x|)
  {
    var s := "**" + x + "**";
    var e := 2 + |x|;
    assert StarsAt(s, e);
    forall k | 2 <= k < e ensures !StarsAt(s, k) && !IsLineTerminator(s[k]) {
      assert s[k] == x[k - 2];
      if k + 1 < e {
        assert s[k + 1] == x[k - 1];
      }
    }
    CloseFirst(s, 2, e);
  }

  /** The first `**` after `from` with no line terminator on the way is where
      the capture closes. */
  lemma {:induction false} CloseFirst(s: string, from: nat, e: nat)
    requires from <= e && StarsAt(s, e)
    requires forall k | from <= k < e :: !StarsAt(s, k) && !IsLineTerminator(s[k])
    ensures CloseAt(s, from) == Some(e)
    decreases e - from
  {
    if from < e {
      CloseFirst(s, from + 1, e);
    }
  }

  /** Text without `**` passes through unchanged. */
  lemma {:induction false} StrongWithoutStars(s: string)
    requires !HasPair(s, '*', '*')
    ensures StrongAll(s) == s
    decreases |s|
  {
    if |s| > 0 {
      assert !StarsAt(s, 0);
      NoPairSlice(s, 1, |s|, '*', '*');
      StrongWithoutStars(s[1..]);
    }
  }

  /** The bold rewrite never creates a pair of characters that the tags do
      not use. */
  lemma {:induction false} StrongKeepsNoPair(s: string, c: char, d: char)
    requires c !in Close && d !in Close && !HasPair(s, c, d)
    ensures !HasPair(StrongAll(s), c, d)
    decreases |s|
  {
    if |s| == 0 {
    } else if StarsAt(s, 0) && CloseAt(s, 2).Some? {
      var e := CloseAt(s, 2).value;
      var x := s[2..e];
      var rest := StrongAll(s[e + 2..]);
      NoPairSlice(s, e + 2, |s|, c, d);
      StrongKeepsNoPair(s[e + 2..], c, d);
      NoPairSlice(s, 2, e, c, d);
      assert !HasPair(Open, c, d) by {
        forall k | 0 <= k < |Open| - 1 ensures Open[k] != c { assert Open[k] in Close; }
      }
      assert !HasPair(Close, c, d) by {
        forall k | 0 <= k < |Close| - 1 ensures Close[k] != c { assert Close[k] in Close; }
      }
      NoPairConcat(Open, x, c, d);
      assert (Open + x)[|Open + x| - 1] in Close || (Open + x)[|Open + x| - 1] == x[|x| - 1];
      NoPairConcat(Open + x, Close, c, d);
      NoPairConcat(Open + x + Close, rest, c, d);
    } else {
      NoPairSlice(s, 1, |s|, c, d);
      StrongKeepsNoPair(s[1..], c, d);
      var rest := StrongAll(s[1..]);
      NoPairConcat([s[0]], rest, c, d);
    }
  }

  /** The notes tab's HTML: line feeds to `<br>`, then `### `, `## ` and
      `# ` to opening heading tags, in that order, then the bold rewrite.
      No line feed survives, and no `# ` survives either: the last heading
      step removes every one, and nothing after it can form a new one. */
  function RenderNotes(notes: string): (html: string)
    ensures NoneIn(html, {'\n'})
    ensures !HasPair(html, '#', ' ')
  {
    var lines := ReplaceAll(notes, "\n", "<br>");
    var h3 := ReplaceAll(lines, "### ", "<h3>");
    var h2 := ReplaceAll(h3, "## ", "<h2>");
    var h1 := ReplaceAll(h2, "# ", "<h1>");
    var html := StrongAll(h1);
    assert NoneIn(html, {'\n'}) by {
      ReplaceCharGone(notes, '\n', "<br>");
      assert NoneIn(h3, {'\n'});
      assert NoneIn(h2, {'\n'});
      assert NoneIn(h1, {'\n'});
    }
    assert !HasPair(html, '#', ' ') by {
      ReplacePairGone(h2, '#', ' ', "<h1>");
      StrongKeepsNoPair(h1, '#', ' ');
    }
    html
  }

  /** Each line feed of the notes becomes one `<br>`. */
  lemma LineBreaks(notes: string)
    ensures ReplaceAll(notes, "\n", "<br>") == Join(Split(notes, {'\n'}), "<br>")
  {
    ReplaceCharIsSplitJoin(notes, '\n', "<br>");
  }

  lemma HeadingExampleLines()
    ensures ReplaceAll("## A", "\n", "<br>") == "## A"
  {
    ReplaceCharIsSplitJoin("## A", '\n', "<br>");
    SplitWithoutSeparators("## A", {'\n'});
  }

  lemma HeadingExampleH3()
    ensures ReplaceAll("## A", "### ", "<h3>") == "## A"
  {
    var s := "## A";
    forall k | 0 <= k <= |s| ensures !("### " <= s[k..]) {
      if k == 0 { assert s[2] != "### "[2]; }
    }
    ReplaceAbsent(s, "### ", "<h3>");
  }

  lemma HeadingExampleH2()
    ensures ReplaceAll("## A", "## ", "<h2>") == "<h2>A"
  {
    assert "## " <= "## A";
    assert "## A"[3..] == "A";
    assert ReplaceAll("A", "## ", "<h2>") == "A";
  }

  lemma HeadingExampleH1()
    ensures ReplaceAll("<h2>A", "# ", "<h1>") == "<h2>A"
  {
    var s := "<h2>A";
    forall k | 0 <= k <= |s| ensures !("# " <= s[k..]) {
      if k < |s| { assert s[k] != '#'; }
    }
    ReplaceAbsent(s, "# ", "<h1>");
  }

  /** A heading marker is rewritten to its opening tag. */
  lemma HeadingExample()
    ensures RenderNotes("## A") == "<h2>A"
  {
    HeadingExampleHeadings();
    var h1 := ReplaceAll(HeadingExampleLevelTwo(), "# ", "<h1>");
    assert h1 == "<h2>A" by { HeadingExampleH1(); }
    assert StrongAll(h1) == "<h2>A" by { StrongWithoutStars("<h2>A"); }
  }

  function HeadingExampleLevelTwo(): string {
    ReplaceAll(ReplaceAll(ReplaceAll("## A", "\n", "<br>"), "### ", "<h3>"), "## ", "<h2>")
  }

  lemma HeadingExampleHeadings()
    ensures HeadingExampleLevelTwo() == "<h2>A"
  {
    var lines := ReplaceAll("## A", "\n", "<br>");
    assert lines == "## A" by { HeadingExampleLines(); }
    var h3 := ReplaceAll(lines, "### ", "<h3>");
    assert h3 == "## A" by { HeadingExampleH3(); }
    HeadingExampleH2();
  }
}
