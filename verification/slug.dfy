/**
 * The URL key of a lecture, derived from its media file name by the chain of
 * rewrites in `createSlug`: drop the extension, lower-case, delete everything
 * that is not a word character, white space or `-`, turn white-space runs into
 * `-`, squash runs of `-`, trim.
 */
module Slug {
  import opened Text
  import opened Seqs

  // ---------------------------------------------------------------------------
  // Step 1: `.replace(/\.[^/.]+$/, '')`
  // ---------------------------------------------------------------------------

  /** A non-empty run of characters other than `.` and `/`: what `[^/.]+`
      accepts. */
  predicate ExtensionText(t: string) {
    |t| > 0 && forall k | 0 <= k < |t| :: t[k] != '.' && t[k] != '/'
  }

  function LastDot(s: string): (r: Option<nat>)
    ensures r.Some? ==> r.value < |s| && s[r.value] == '.'
    ensures r.Some? ==> forall k | r.value < k < |s| :: s[k] != '.'
    ensures r.None? ==> forall k | 0 <= k < |s| :: s[k] != '.'
  {
    if |s| == 0 then None
    else if s[|s| - 1] == '.' then Some(|s| - 1)
    else LastDot(s[..|s| - 1])
  }

  /** Where `/\.[^/.]+$/` matches, if anywhere: the one `.` whose whole suffix
      is extension text. */
  function ExtensionDot(s: string): (r: Option<nat>)
    ensures r.Some? ==> r.value < |s| && s[r.value] == '.' && ExtensionText(s[r.value + 1..])
    ensures r.None? ==> forall p | 0 <= p < |s| && s[p] == '.' :: !ExtensionText(s[p + 1..])
  {
    match LastDot(s)
    case None => None
    case Some(q) =>
      assert forall p | 0 <= p < q && s[p] == '.' :: !ExtensionText(s[p + 1..]) by {
        forall p | 0 <= p < q && s[p] == '.' ensures !ExtensionText(s[p + 1..]) {
          assert s[p + 1..][q - p - 1] == '.';
        }
      }
      if ExtensionText(s[q + 1..]) then Some(q) else None
  }

  /** The file name without its extension: cut at a `.` that only extension
      text follows, or left whole when there is no such `.`. */
  function StripExtension(s: string): (r: string)
    ensures r <= s
    ensures |r| < |s| ==> s[|r|] == '.' && ExtensionText(s[|r| + 1..])
    ensures |r| == |s| ==> forall p | 0 <= p < |s| && s[p] == '.' :: !ExtensionText(s[p + 1..])
  {
    match ExtensionDot(s)
    case Some(p) => s[..p]
    case None => s
  }

  /** Appending `.ext` and stripping the extension again gives the name back,
      whatever the name holds. */
  lemma StripAppendedExtension(name: string, ext: string)
    requires ExtensionText(ext)
    ensures StripExtension(name + "." + ext) == name
  {
    var s := name + "." + ext;
    assert s[|name|] == '.' && s[|name| + 1..] == ext;
    assert ExtensionDot(s).Some?;
    var p := ExtensionDot(s).value;
    assert forall k | p < k < |s| :: s[k] != '.' by {
      forall k | p < k < |s| ensures s[k] != '.' {
        assert s[k] == s[p + 1..][k - p - 1];
      }
    }
    assert p >= |name|;
    assert forall k | |name| < k < |s| :: s[k] == ext[k - |name| - 1];
    assert p == |name|;
    assert s[..|name|] == name;
  }

  /** A name without any `.` has no extension to strip. */
  lemma StripWithoutDot(s: string)
    requires forall k | 0 <= k < |s| :: s[k] != '.'
    ensures StripExtension(s) == s
  {
  }

  // ---------------------------------------------------------------------------
  // Steps 2-6
  // ---------------------------------------------------------------------------

  /** `\w` without the `u` flag: ASCII letters, digits and `_`. */
  predicate IsWordChar(c: char) {
    ('a' <= c <= 'z') || ('A' <= c <= 'Z') || ('0' <= c <= '9') || c == '_'
  }

  /** What a slug may hold: lower-case ASCII letters, digits, `_` and `-`. */
  predicate IsSlugChar(c: char) {
    ('a' <= c <= 'z') || ('0' <= c <= '9') || c == '_' || c == '-'
  }

  predicate SlugChars(s: string) {
    forall k | 0 <= k < |s| :: IsSlugChar(s[k])
  }

  /** No `--` anywhere. */
  predicate NoDoubleDash(s: string) {
    forall k | 0 <= k < |s| - 1 :: !(s[k] == '-' && s[k + 1] == '-')
  }

  /** What `/[^\w\s-]/g` leaves in place. */
  predicate IsSlugSource(c: char) {
    IsWordChar(c) || IsSpace(c) || c == '-'
  }

  /** `.replace(/[^\w\s-]/g, '')`: keep word characters, white space and `-`. */
  function KeepSlugSource(s: string): (r: string)
    ensures (forall k | 0 <= k < |s| :: !IsUpperAscii(s[k]))
            ==> forall k | 0 <= k < |r| :: IsSlugChar(r[k]) || IsSpace(r[k])
  {
    Filter(s, IsSlugSource)
  }

  /** `.replace(/\s+/g, '-')`: every maximal white-space run becomes one `-`. */
  function DashSpaces(s: string): (r: string)
    ensures NoSpace(r)
    ensures forall k | 0 <= k < |r| :: r[k] == '-' || r[k] in s
    ensures |s| > 0 ==> |r| > 0 && r[0] == (if IsSpace(s[0]) then '-' else s[0])
    ensures NoSpace(s) ==> r == s
    decreases |s|
  {
    if |s| == 0 then []
    else if IsSpace(s[0]) then ['-'] + DashSpaces(s[LeadingSpaces(s)..])
    else
      var rest := DashSpaces(s[1..]);
      assert forall k | 0 <= k < |rest| && rest[k] != '-' :: rest[k] in s by {
        forall k | 0 <= k < |rest| && rest[k] != '-' ensures rest[k] in s {
          var j :| 0 <= j < |s[1..]| && s[1..][j] == rest[k];
          assert s[1 + j] == rest[k];
        }
      }
      assert NoSpace(s) ==> s == [s[0]] + s[1..];
      [s[0]] + rest
  }

  /** Length of the run of `-` that starts `s`. */
  function LeadingDashes(s: string): (n: nat)
    ensures 0 < n <= |s| || (n == 0 && (|s| == 0 || s[0] != '-'))
    ensures forall k | 0 <= k < n :: s[k] == '-'
    ensures n < |s| ==> s[n] != '-'
  {
    if |s| > 0 && s[0] == '-' then 1 + LeadingDashes(s[1..]) else 0
  }

  /** `.replace(/-+/g, '-')`: every maximal run of `-` becomes one `-`. */
  function SquashDashes(s: string): (r: string)
    ensures NoDoubleDash(r)
    ensures forall k | 0 <= k < |r| :: r[k] in s
    ensures |s| > 0 ==> |r| > 0 && r[0] == s[0]
    ensures NoDoubleDash(s) ==> r == s
    decreases |s|
  {
    if |s| == 0 then []
    else
      var n := if s[0] == '-' then LeadingDashes(s) else 1;
      var rest := SquashDashes(s[n..]);
      assert NoDoubleDash(s) ==> n == 1 by {
        if s[0] == '-' && |s| > 1 {
          assert LeadingDashes(s) == 1 + LeadingDashes(s[1..]) && s[1..][0] == s[1];
        }
      }
      SquashStep(s, n, rest);
      [s[0]] + rest
  }

  /** One step of `SquashDashes`: the first character, then the squashed
      rest after the run of `-` it starts (or after itself). */
  lemma SquashStep(s: string, n: nat, rest: string)
    requires 0 < n <= |s|
    requires forall k | 0 < k < n :: s[k] == '-'
    requires n < |s| && s[0] == '-' ==> s[n] != '-'
    requires NoDoubleDash(rest) && forall k | 0 <= k < |rest| :: rest[k] in s[n..]
    requires |s| > n ==> |rest| > 0 && rest[0] == s[n]
    requires NoDoubleDash(s[n..]) ==> rest == s[n..]
    requires NoDoubleDash(s) ==> n == 1
    ensures NoDoubleDash([s[0]] + rest)
    ensures forall k | 0 <= k < |[s[0]] + rest| :: ([s[0]] + rest)[k] in s
    ensures NoDoubleDash(s) ==> [s[0]] + rest == s
  {
    var r := [s[0]] + rest;
    forall k | 0 <= k < |r| ensures r[k] in s {
      if k > 0 {
        var j :| 0 <= j < |s[n..]| && s[n..][j] == rest[k - 1];
        assert s[n + j] == r[k];
      }
    }
    if NoDoubleDash(s) {
      assert NoDoubleDash(s[1..]) by {
        forall k | 0 <= k < |s[1..]| - 1 ensures !(s[1..][k] == '-' && s[1..][k + 1] == '-') {
          assert s[1..][k] == s[k + 1] && s[1..][k + 1] == s[k + 2];
        }
      }
      assert s == [s[0]] + s[1..];
    }
    forall k | 0 <= k < |r| - 1 ensures !(r[k] == '-' && r[k + 1] == '-') {
      if k > 0 {
        assert r[k] == rest[k - 1] && r[k + 1] == rest[k];
      }
    }
  }

  /** The two characters outside ASCII whose `toLowerCase` holds an ASCII
      letter: U+212A KELVIN SIGN lower-cases to `k`, and U+0130 LATIN CAPITAL
      LETTER I WITH DOT ABOVE to `i` followed by U+0307 COMBINING DOT ABOVE. */
  const KelvinSign: char := '\U{212A}'
  const CapitalIWithDot: char := '\U{0130}'

  predicate CasesToAscii(c: char) {
    c == KelvinSign || c == CapitalIWithDot
  }

  /** The part of `toLowerCase` that the slug can see besides ASCII: every
      other character outside ASCII lower-cases to characters outside ASCII
      and outside white space, which step 3 deletes whatever they are, so
      `Lower` after this expansion leaves the same slug as `toLowerCase`. */
  function ExpandCase(s: string): (r: string)
    ensures (forall k | 0 <= k < |s| :: !CasesToAscii(s[k])) ==> r == s
  {
    if |s| == 0 then []
    else
      var head := if s[0] == KelvinSign then "k" else if s[0] == CapitalIWithDot then "i\U{0307}" else [s[0]];
      assert !CasesToAscii(s[0]) ==> [s[0]] + s[1..] == s;
      head + ExpandCase(s[1..])
  }

  /** Step 2, `.toLowerCase()`, as far as the slug can tell. */
  function SlugLower(s: string): string {
    Lower(ExpandCase(s))
  }

  /** Everything after the extension is gone: the rewrites of steps 2-6. */
  function SlugOfStem(stem: string): (slug: string)
    ensures SlugChars(slug)
    ensures NoDoubleDash(slug)
    ensures NoSpace(slug)
  {
    var lowered := SlugLower(stem);
    var kept := KeepSlugSource(lowered);
    var dashed := DashSpaces(kept);
    var squashed := SquashDashes(dashed);
    assert SlugChars(dashed);
    assert SlugChars(squashed) by {
      forall k | 0 <= k < |squashed| ensures IsSlugChar(squashed[k]) {
        var j :| 0 <= j < |dashed| && dashed[j] == squashed[k];
      }
    }
    assert NoSpace(squashed);
    TrimFixed(squashed);
    Trim(squashed)
  }

  /** `createSlug(filename)`: lower-case ASCII letters, digits, `_` and `-`
      only, no white space, never two `-` in a row. Leading and trailing `-`
      are NOT removed: the final `trim` only strips white space, and there is
      none left by then. */
  function CreateSlug(filename: string): (slug: string)
    ensures SlugChars(slug)
    ensures NoSpace(slug)
    ensures NoDoubleDash(slug)
  {
    SlugOfStem(StripExtension(filename))
  }

  // ---------------------------------------------------------------------------
  // Properties
  // ---------------------------------------------------------------------------

  /** Each rewrite leaves an already well-formed slug alone. */
  lemma SlugOfStemFixed(s: string)
    requires SlugChars(s) && NoDoubleDash(s)
    ensures SlugOfStem(s) == s
  {
    assert SlugLower(s) == s by { LowerFixed(s); }
    assert KeepSlugSource(s) == s by {
      assert forall k | 0 <= k < |s| :: IsSlugSource(s[k]);
      FilterAcceptAll(s, IsSlugSource);
    }
    assert DashSpaces(s) == s by { assert NoSpace(s); }
    assert SquashDashes(s) == s;
    assert Trim(s) == s by { TrimFixed(s); }
  }

  /** Slugging a slug changes nothing. */
  lemma SlugIdempotent(filename: string)
    ensures CreateSlug(CreateSlug(filename)) == CreateSlug(filename)
  {
    var slug := CreateSlug(filename);
    StripWithoutDot(slug);
    SlugOfStemFixed(slug);
  }

  /** The extension never reaches the slug: for a name without `.`, adding
      any extension leaves its slug unchanged. */
  lemma SlugIgnoresExtension(name: string, ext: string)
    requires forall k | 0 <= k < |name| :: name[k] != '.'
    requires ExtensionText(ext)
    ensures CreateSlug(name + "." + ext) == CreateSlug(name)
  {
    StripAppendedExtension(name, ext);
    StripWithoutDot(name);
  }

  /** A slug given back an extension slugs to itself. */
  lemma SlugStableUnderReExtension(filename: string, ext: string)
    requires ExtensionText(ext)
    ensures CreateSlug(CreateSlug(filename) + "." + ext) == CreateSlug(filename)
  {
    var slug := CreateSlug(filename);
    SlugIgnoresExtension(slug, ext);
    SlugIdempotent(filename);
  }

  // ---- contents: the word characters survive, lower-cased, in order --------

  lemma {:induction false} FilterWordSpaces(s: string)
    requires AllSpace(s)
    ensures Filter(s, IsWordChar) == []
  {
    if |s| > 0 {
      FilterWordSpaces(s[1..]);
    }
  }

  lemma {:induction false} DashSpacesKeepsWords(s: string)
    ensures Filter(DashSpaces(s), IsWordChar) == Filter(s, IsWordChar)
    decreases |s|
  {
    if |s| > 0 {
      if IsSpace(s[0]) {
        var n := LeadingSpaces(s);
        DashSpacesKeepsWords(s[n..]);
        DashedRunKeepsWords(s, n);
      } else {
        DashSpacesKeepsWords(s[1..]);
        DashedCharKeepsWords(s);
      }
    }
  }

  /** A leading white-space run becomes one `-`, and neither holds a word
      character. */
  lemma DashedRunKeepsWords(s: string, n: nat)
    requires |s| > 0 && IsSpace(s[0]) && n == LeadingSpaces(s)
    requires Filter(DashSpaces(s[n..]), IsWordChar) == Filter(s[n..], IsWordChar)
    ensures Filter(DashSpaces(s), IsWordChar) == Filter(s, IsWordChar)
  {
    var rest := s[n..];
    assert Filter(DashSpaces(s), IsWordChar) == Filter(DashSpaces(rest), IsWordChar) by {
      assert DashSpaces(s) == ['-'] + DashSpaces(rest);
      FilterCons('-', DashSpaces(rest), IsWordChar);
    }
    assert Filter(s, IsWordChar) == Filter(rest, IsWordChar) by {
      assert s == s[..n] + rest;
      FilterAppend(s[..n], rest, IsWordChar);
      FilterWordSpaces(s[..n]);
    }
  }

  /** A leading character outside white space is copied as it is. */
  lemma DashedCharKeepsWords(s: string)
    requires |s| > 0 && !IsSpace(s[0])
    requires Filter(DashSpaces(s[1..]), IsWordChar) == Filter(s[1..], IsWordChar)
    ensures Filter(DashSpaces(s), IsWordChar) == Filter(s, IsWordChar)
  {
    var rest := s[1..];
    assert Filter(DashSpaces(s), IsWordChar) == Filter([s[0]] + DashSpaces(rest), IsWordChar) by {
      assert DashSpaces(s) == [s[0]] + DashSpaces(rest);
    }
    FilterCons(s[0], DashSpaces(rest), IsWordChar);
    assert Filter(s, IsWordChar) == Filter([s[0]] + rest, IsWordChar) by {
      assert s == [s[0]] + rest;
    }
    FilterCons(s[0], rest, IsWordChar);
  }

  lemma {:induction false} FilterWordDashes(s: string)
    requires forall k | 0 <= k < |s| :: s[k] == '-'
    ensures Filter(s, IsWordChar) == []
  {
    if |s| > 0 {
      FilterWordDashes(s[1..]);
    }
  }

  lemma {:induction false} SquashDashesKeepsWords(s: string)
    ensures Filter(SquashDashes(s), IsWordChar) == Filter(s, IsWordChar)
    decreases |s|
  {
    if |s| > 0 {
      var n := if s[0] == '-' then LeadingDashes(s) else 1;
      var rest := s[n..];
      SquashDashesKeepsWords(rest);
      assert Filter(SquashDashes(s), IsWordChar) == Filter([s[0]] + SquashDashes(rest), IsWordChar) by {
        assert SquashDashes(s) == [s[0]] + SquashDashes(rest);
      }
      FilterCons(s[0], SquashDashes(rest), IsWordChar);
      assert Filter(s, IsWordChar) == Filter(s[..n], IsWordChar) + Filter(rest, IsWordChar) by {
        assert s == s[..n] + rest;
        FilterAppend(s[..n], rest, IsWordChar);
      }
      assert Filter(s[..n], IsWordChar) == (if IsWordChar(s[0]) then [s[0]] else []) by {
        if s[0] == '-' {
          FilterWordDashes(s[..n]);
        } else {
          assert s[..n] == [s[0]] + [];
          FilterCons(s[0], [], IsWordChar);
        }
      }
    }
  }

  lemma {:induction false} KeepSlugSourceKeepsWords(s: string)
    ensures Filter(KeepSlugSource(s), IsWordChar) == Filter(s, IsWordChar)
  {
    var keep := IsSlugSource;
    if |s| > 0 {
      KeepSlugSourceKeepsWords(s[1..]);
      assert s == [s[0]] + s[1..];
      FilterAppend([s[0]], s[1..], keep);
      FilterAppend([s[0]], s[1..], IsWordChar);
      FilterAppend([s[0]], Filter(s[1..], keep), IsWordChar);
      assert KeepSlugSource(s[1..]) == Filter(s[1..], keep);
    }
  }

  lemma {:induction false} LowerKeepsWords(s: string)
    ensures Filter(Lower(s), IsWordChar) == Lower(Filter(s, IsWordChar))
  {
    if |s| > 0 {
      var rest := Filter(s[1..], IsWordChar);
      LowerKeepsWords(s[1..]);
      assert s == [s[0]] + s[1..];
      LowerCons(s[0], s[1..]);
      LowerCons(s[0], rest);
      FilterCons(LowerChar(s[0]), Lower(s[1..]), IsWordChar);
      FilterCons(s[0], s[1..], IsWordChar);
    }
  }

  /** Nothing but separators is lost: the slug's letters, digits and `_` are
      exactly those of the name without its extension, lower-cased, in order. */
  lemma SlugKeepsWordChars(filename: string)
    ensures Filter(CreateSlug(filename), IsWordChar) == Lower(Filter(ExpandCase(StripExtension(filename)), IsWordChar))
  {
    var stem := StripExtension(filename);
    var lowered := SlugLower(stem);
    var kept := KeepSlugSource(lowered);
    var dashed := DashSpaces(kept);
    var squashed := SquashDashes(dashed);
    LowerKeepsWords(ExpandCase(stem));
    KeepSlugSourceKeepsWords(lowered);
    DashSpacesKeepsWords(kept);
    SquashDashesKeepsWords(dashed);
    TrimFixed(squashed);
  }

  // ---- worked examples --------------------------------------------------------

  lemma EdgeExampleStem()
    ensures StripExtension(" a .mp3") == " a "
  {
    assert " a .mp3" == " a " + "." + "mp3";
    StripAppendedExtension(" a ", "mp3");
  }

  lemma EdgeExampleKept()
    ensures KeepSlugSource(SlugLower(" a ")) == " a "
  {
    assert SlugLower(" a ") == " a ";
    FilterAcceptAll(" a ", IsSlugSource);
  }

  lemma EdgeExampleDashed()
    ensures DashSpaces(" a ") == "-a-"
  {
    assert LeadingSpaces(" ") == 1;
    assert DashSpaces(" ") == "-";
    assert DashSpaces("a ") == "a-";
    assert LeadingSpaces(" a ") == 1;
  }

  /** Leading and trailing white space become `-` that the final `trim` keeps. */
  lemma SlugKeepsEdgeDashes()
    ensures CreateSlug(" a .mp3") == "-a-"
  {
    EdgeExampleStem();
    EdgeExampleKept();
    EdgeExampleDashed();
    assert NoDoubleDash("-a-");
    TrimFixed("-a-");
  }

  lemma CjkExampleKept()
    ensures KeepSlugSource(SlugLower("心臟病學")) == []
  {
    var name := "心臟病學";
    assert forall k | 0 <= k < |name| :: '\U{3000}' < name[k] && !IsUpperAscii(name[k]);
    LowerFixed(name);
    FilterRejectAll(name, IsSlugSource);
  }

  /** `\w` is ASCII-only: a name written in CJK characters has an empty slug. */
  lemma SlugDropsCjk()
    ensures CreateSlug("心臟病學.mp3") == ""
  {
    assert "心臟病學.mp3" == "心臟病學" + "." + "mp3";
    StripAppendedExtension("心臟病學", "mp3");
    CjkExampleKept();
    TrimFixed("");
  }

  lemma KelvinExampleKept()
    ensures KeepSlugSource(SlugLower([KelvinSign])) == "k"
  {
    assert ExpandCase([KelvinSign]) == "k" + ExpandCase([]);
    FilterAcceptAll("k", IsSlugSource);
  }

  /** Lower-casing comes before the deletion of non-word characters, so the
      KELVIN SIGN survives as `k`. */
  lemma SlugFoldsKelvinSign()
    ensures CreateSlug([KelvinSign] + ".mp3") == "k"
  {
    assert [KelvinSign] + ".mp3" == [KelvinSign] + "." + "mp3";
    StripAppendedExtension([KelvinSign], "mp3");
    KelvinExampleKept();
    assert DashSpaces("k") == "k";
    TrimFixed("k");
  }

  const CombiningDotAbove: char := '\U{0307}'

  /** The combining dot is neither a word character, white space nor `-`. */
  lemma DotNotSlugSource()
    ensures !IsSlugSource(CombiningDotAbove)
  {
  }

  lemma DottedIExampleKept()
    ensures KeepSlugSource(SlugLower([CapitalIWithDot])) == "i"
  {
    var expanded := ['i', CombiningDotAbove];
    assert ExpandCase([CapitalIWithDot]) == expanded + ExpandCase([]);
    assert ExpandCase([CapitalIWithDot]) == expanded;
    assert SlugLower([CapitalIWithDot]) == expanded by { LowerFixed(expanded); }
    DotNotSlugSource();
    FilterCons(CombiningDotAbove, [], IsSlugSource);
    FilterCons('i', [CombiningDotAbove], IsSlugSource);
    assert expanded == ['i'] + [CombiningDotAbove];
  }

  /** U+0130 lower-cases to `i` and a combining dot; the dot is deleted and
      the `i` stays. */
  lemma SlugFoldsDottedCapitalI()
    ensures CreateSlug([CapitalIWithDot] + ".mp3") == "i"
  {
    assert [CapitalIWithDot] + ".mp3" == [CapitalIWithDot] + "." + "mp3";
    StripAppendedExtension([CapitalIWithDot], "mp3");
    DottedIExampleKept();
    assert DashSpaces("i") == "i";
    TrimFixed("i");
  }
}
