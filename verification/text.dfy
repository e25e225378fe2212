/**
 * Strings as the TypeScript and JavaScript sources see them: white space as
 * the `\s` class and `String.prototype.trim` define it, ASCII case mapping,
 * substring search, `split` on separator characters, `join`, global literal
 * replacement and decimal numerals.
 */
module Text {

  datatype Option<+T> = None | Some(value: T) {
    function GetOr(default: T): T {
      match this
      case Some(v) => v
      case None => default
    }
  }

  // ---------------------------------------------------------------------------
  // White space and trimming
  // ---------------------------------------------------------------------------

  /** The ECMAScript WhiteSpace and LineTerminator code points: the set that both
      the regular-expression class `\s` and `String.prototype.trim` use. */
  predicate IsSpace(c: char) {
    || c == '\t' || c == '\n' || c == '\U{000B}' || c == '\U{000C}' || c == '\r'
    || c == ' ' || c == '\U{00A0}' || c == '\U{1680}'
    || ('\U{2000}' <= c <= '\U{200A}')
    || c == '\U{2028}' || c == '\U{2029}' || c == '\U{202F}' || c == '\U{205F}'
    || c == '\U{3000}' || c == '\U{FEFF}'
  }

  predicate AllSpace(s: string) {
    forall k | 0 <= k < |s| :: IsSpace(s[k])
  }

  predicate NoSpace(s: string) {
    forall k | 0 <= k < |s| :: !IsSpace(s[k])
  }

  /** Neither the first nor the last character is white space. */
  predicate Trimmed(s: string) {
    s == [] || (!IsSpace(s[0]) && !IsSpace(s[|s| - 1]))
  }

  lemma AllSpaceCons(c: char, t: string)
    ensures AllSpace([c] + t) <==> IsSpace(c) && AllSpace(t)
  {
    var s := [c] + t;
    assert s[0] == c;
    assert forall k | 0 <= k < |t| :: t[k] == s[k + 1];
  }

  /** Length of the white-space run that starts `s`. */
  function LeadingSpaces(s: string): (n: nat)
    ensures n <= |s|
    ensures AllSpace(s[..n])
    ensures n < |s| ==> !IsSpace(s[n])
  {
    if |s| > 0 && IsSpace(s[0]) then 1 + LeadingSpaces(s[1..]) else 0
  }

  /** Length of the white-space run that ends `s`. */
  function TrailingSpaces(s: string): (n: nat)
    ensures n <= |s|
    ensures AllSpace(s[|s| - n..])
    ensures n < |s| ==> !IsSpace(s[|s| - n - 1])
    ensures |s| > 0 && !IsSpace(s[0]) ==> n < |s|
  {
    if |s| > 0 && IsSpace(s[|s| - 1]) then
      var m := TrailingSpaces(s[..|s| - 1]);
      assert forall k | |s| - m - 1 <= k < |s| - 1 :: s[k] == s[..|s| - 1][k];
      1 + m
    else 0
  }

  /** `s.trim()`: `s` without its leading and trailing white space. The result
      is the slice of `s` that starts after the leading run, everything after it
      in `s` is white space, and it is empty exactly when `s` is all white space. */
  function Trim(s: string): (r: string)
    ensures Trimmed(r)
    ensures LeadingSpaces(s) + |r| <= |s|
    ensures r == s[LeadingSpaces(s)..LeadingSpaces(s) + |r|]
    ensures AllSpace(s[LeadingSpaces(s) + |r|..])
    ensures r == [] <==> AllSpace(s)
  {
    var lead := LeadingSpaces(s);
    var t := s[lead..];
    var r := t[..|t| - TrailingSpaces(t)];
    assert lead < |s| ==> |r| > 0;
    assert lead == |s| ==> s == s[..lead];
    r
  }

  /** A string with no white space at either end is its own trim. */
  lemma TrimFixed(s: string)
    requires Trimmed(s)
    ensures Trim(s) == s
  {
    assert LeadingSpaces(s) == 0;
    if s != [] {
      assert TrailingSpaces(s) == 0;
    }
  }

  /** Trimming removes exactly the white space around a trimmed core. */
  lemma TrimPadded(before: string, core: string, after: string)
    requires AllSpace(before) && Trimmed(core) && AllSpace(after)
    ensures Trim(before + core + after) == core
  {
    var s := before + core + after;
    if core == [] {
      assert AllSpace(s) by {
        forall k | 0 <= k < |s| ensures IsSpace(s[k]) {
          if k < |before| { assert s[k] == before[k]; } else { assert s[k] == after[k - |before|]; }
        }
      }
    } else {
      var lead := |before|;
      assert s[..lead] == before;
      assert s[lead..lead + |core|] == core;
      assert forall k | lead + |core| <= k < |s| :: IsSpace(s[k]) by {
        forall k | lead + |core| <= k < |s| ensures IsSpace(s[k]) {
          assert s[k] == after[k - lead - |core|];
        }
      }
      LeadingRun(s, lead);
      TrimBetween(s, lead, |core|);
    }
  }

  /** Trimming keeps exactly the stretch after the leading run that ends in a
      non-white character followed only by white space. */
  lemma TrimBetween(s: string, lead: nat, n: nat)
    requires LeadingSpaces(s) == lead && 0 < n && lead + n <= |s|
    requires !IsSpace(s[lead + n - 1])
    requires forall k | lead + n <= k < |s| :: IsSpace(s[k])
    ensures Trim(s) == s[lead..lead + n]
  {
    var t := s[lead..];
    assert !IsSpace(t[n - 1]);
    assert forall k | n <= k < |t| :: IsSpace(t[k]) by {
      forall k | n <= k < |t| ensures IsSpace(t[k]) {
        assert t[k] == s[lead + k];
      }
    }
    TrailingRun(t, n);
    SliceOfSuffix(s, lead, n);
  }

  lemma SliceOfSuffix(s: string, lead: nat, n: nat)
    requires lead + n <= |s|
    ensures s[lead..][..n] == s[lead..lead + n]
  {
  }

  /** The trailing run is what follows the last non-white character. */
  lemma {:induction false} TrailingRun(t: string, n: nat)
    requires 0 < n <= |t| && !IsSpace(t[n - 1])
    requires forall k | n <= k < |t| :: IsSpace(t[k])
    ensures TrailingSpaces(t) == |t| - n
    decreases |t|
  {
    if n < |t| {
      var u := t[..|t| - 1];
      assert forall k | n <= k < |u| :: IsSpace(u[k]) by {
        forall k | n <= k < |u| ensures IsSpace(u[k]) {
          assert u[k] == t[k];
        }
      }
      TrailingRun(u, n);
    }
  }

  /** The leading run is as long as any all-white prefix followed by a
      non-white character. */
  lemma {:induction false} LeadingRun(s: string, n: nat)
    requires n < |s| && AllSpace(s[..n]) && !IsSpace(s[n])
    ensures LeadingSpaces(s) == n
  {
    if n > 0 {
      assert s[1..][..n - 1] == s[1..n];
      assert s[0] == s[..n][0];
      LeadingRun(s[1..], n - 1);
    }
  }

  // ---------------------------------------------------------------------------
  // Case and search
  // ---------------------------------------------------------------------------

  predicate IsUpperAscii(c: char) { 'A' <= c <= 'Z' }

  /** `toLowerCase` restricted to ASCII: `A`-`Z` map to `a`-`z`, everything else
      is left alone. */
  function LowerChar(c: char): char {
    if IsUpperAscii(c) then (c as int + 32) as char else c
  }

  function Lower(s: string): string {
    seq(|s|, k requires 0 <= k < |s| => LowerChar(s[k]))
  }

  lemma LowerCons(c: char, s: string)
    ensures Lower([c] + s) == [LowerChar(c)] + Lower(s)
  {
  }

  /** Lower-casing leaves a string without upper-case ASCII letters alone. */
  lemma LowerFixed(s: string)
    requires forall k | 0 <= k < |s| :: !IsUpperAscii(s[k])
    ensures Lower(s) == s
  {
  }

  /** `haystack.includes(needle)`. */
  predicate Contains(haystack: string, needle: string)
    decreases |haystack|
  {
    needle <= haystack || (|haystack| > 0 && Contains(haystack[1..], needle))
  }

  // ---------------------------------------------------------------------------
  // split and join
  // ---------------------------------------------------------------------------

  predicate NoneIn(s: string, seps: set<char>) {
    forall k | 0 <= k < |s| :: s[k] !in seps
  }

  /** Number of characters of `s` that belong to `seps`. */
  function CountIn(s: string, seps: set<char>): nat {
    if |s| == 0 then 0 else (if s[0] in seps then 1 else 0) + CountIn(s[1..], seps)
  }

  /** `s.split(/[seps]/)`: the pieces between separators, in order. Each
      separator closes one piece, so `n` separators give `n + 1` pieces (some
      of them empty) and no piece holds a separator. */
  function Split(s: string, seps: set<char>): (pieces: seq<string>)
    ensures |pieces| == 1 + CountIn(s, seps)
    ensures forall i | 0 <= i < |pieces| :: NoneIn(pieces[i], seps)
  {
    if |s| == 0 then [[]]
    else
      var rest := Split(s[1..], seps);
      if s[0] in seps then [[]] + rest
      else [[s[0]] + rest[0]] + rest[1..]
  }

  /** One step of `Split`. */
  lemma SplitCons(c: char, s: string, seps: set<char>)
    ensures Split([c] + s, seps) ==
      if c in seps then [[]] + Split(s, seps)
      else [[c] + Split(s, seps)[0]] + Split(s, seps)[1..]
  {
    assert ([c] + s)[1..] == s;
  }

  /** `pieces.join(sep)`. */
  function Join(pieces: seq<string>, sep: string): string {
    if |pieces| == 0 then []
    else if |pieces| == 1 then pieces[0]
    else pieces[0] + sep + Join(pieces[1..], sep)
  }

  /** Splitting on one character and joining with it gives the string back. */
  lemma {:induction false} SplitJoin(s: string, c: char)
    ensures Join(Split(s, {c}), [c]) == s
  {
    if |s| > 0 {
      SplitJoin(s[1..], c);
      var rest := Split(s[1..], {c});
      if s[0] != c {
        if |rest| > 1 {
          assert Join(rest, [c]) == rest[0] + [c] + Join(rest[1..], [c]);
        }
      }
    }
  }

  /** A string without separators splits into itself alone. */
  lemma {:induction false} SplitWithoutSeparators(s: string, seps: set<char>)
    requires NoneIn(s, seps)
    ensures Split(s, seps) == [s]
  {
    if |s| > 0 {
      SplitWithoutSeparators(s[1..], seps);
      assert s == [s[0]] + s[1..];
    }
  }

  // ---------------------------------------------------------------------------
  // Global literal replacement
  // ---------------------------------------------------------------------------

  /** `s.replace(/pat/g, rep)` for a literal pattern: scan left to right,
      replace each occurrence, resume after it (occurrences never overlap). The
      result only copies characters of `s` and of `rep`; when something is left,
      it starts with the first character of `s` or, if `s` starts with the
      pattern, with the first character of `rep`. */
  function ReplaceAll(s: string, pat: string, rep: string): (r: string)
    requires |pat| > 0
    ensures forall k | 0 <= k < |r| :: r[k] in s || r[k] in rep
    ensures |s| > 0 && |rep| > 0 ==> |r| > 0 && r[0] == (if pat <= s then rep[0] else s[0])
    decreases |s|
  {
    if |s| == 0 then []
    else if pat <= s then
      var rest := ReplaceAll(s[|pat|..], pat, rep);
      assert forall k | 0 <= k < |rest| && rest[k] !in rep :: rest[k] in s by {
        forall k | 0 <= k < |rest| && rest[k] !in rep ensures rest[k] in s {
          var c := rest[k];
          assert c in s[|pat|..];
          var j :| 0 <= j < |s[|pat|..]| && s[|pat|..][j] == c;
          assert s[|pat| + j] == c;
        }
      }
      rep + rest
    else
      var rest := ReplaceAll(s[1..], pat, rep);
      assert forall k | 0 <= k < |rest| && rest[k] !in rep :: rest[k] in s by {
        forall k | 0 <= k < |rest| && rest[k] !in rep ensures rest[k] in s {
          var c := rest[k];
          assert c in s[1..];
          var j :| 0 <= j < |s[1..]| && s[1..][j] == c;
          assert s[1 + j] == c;
        }
      }
      [s[0]] + rest
  }

  /** Replacing a one-character pattern commutes with concatenation. */
  lemma {:induction false} ReplaceAllAppend(a: string, b: string, c: char, rep: string)
    ensures ReplaceAll(a + b, [c], rep) == ReplaceAll(a, [c], rep) + ReplaceAll(b, [c], rep)
  {
    if |a| == 0 {
      assert a + b == b;
    } else {
      assert (a + b)[1..] == a[1..] + b;
      ReplaceAllAppend(a[1..], b, c, rep);
    }
  }

  /** Where the pattern never occurs, nothing is replaced. */
  lemma {:induction false} ReplaceAbsent(s: string, pat: string, rep: string)
    requires |pat| > 0
    requires forall k | 0 <= k <= |s| :: !(pat <= s[k..])
    ensures ReplaceAll(s, pat, rep) == s
    decreases |s|
  {
    if |s| > 0 {
      assert !(pat <= s[0..]);
      assert s[0..] == s;
      forall k | 0 <= k <= |s[1..]| ensures !(pat <= s[1..][k..]) {
        assert s[1..][k..] == s[k + 1..];
      }
      ReplaceAbsent(s[1..], pat, rep);
    }
  }

  /** Replacing a character is splitting at it and joining with the
      replacement: each occurrence becomes one copy of `rep`. */
  lemma {:induction false} ReplaceCharIsSplitJoin(s: string, c: char, rep: string)
    ensures ReplaceAll(s, [c], rep) == Join(Split(s, {c}), rep)
    decreases |s|
  {
    if |s| > 0 {
      ReplaceCharIsSplitJoin(s[1..], c, rep);
      var rest := Split(s[1..], {c});
      if s[0] == c {
        assert [c] <= s;
        assert Join([[]] + rest, rep) == [] + rep + Join(rest, rep);
      } else {
        assert !([c] <= s);
        if |rest| > 1 {
          assert Join(rest, rep) == rest[0] + rep + Join(rest[1..], rep);
          assert ([[s[0]] + rest[0]] + rest[1..])[1..] == rest[1..];
        }
      }
    }
  }

  /** Replacing a character by text without it removes every occurrence. */
  lemma {:induction false} ReplaceCharGone(s: string, c: char, rep: string)
    requires NoneIn(rep, {c})
    ensures NoneIn(ReplaceAll(s, [c], rep), {c})
    decreases |s|
  {
    if |s| > 0 {
      ReplaceCharGone(s[1..], c, rep);
      var rest := ReplaceAll(s[1..], [c], rep);
      var r := ReplaceAll(s, [c], rep);
      if [c] <= s {
        assert r == rep + rest;
        forall k | 0 <= k < |r| ensures r[k] != c {
          if k >= |rep| { assert r[k] == rest[k - |rep|]; }
        }
      } else {
        assert r == [s[0]] + rest;
        forall k | 0 <= k < |r| ensures r[k] != c {
          if k >= 1 { assert r[k] == rest[k - 1]; }
        }
      }
    }
  }

  // ---------------------------------------------------------------------------
  // Decimal numerals
  // ---------------------------------------------------------------------------

  predicate IsDigit(c: char) { '0' <= c <= '9' }

  predicate AllDigits(s: string) {
    forall k | 0 <= k < |s| :: IsDigit(s[k])
  }

  function DigitChar(d: nat): char
    requires d < 10
  {
    ('0' as int + d) as char
  }

  function DigitValue(c: char): nat
    requires IsDigit(c)
  {
    c as int - '0' as int
  }

  /** `n.toString()` for a natural number: decimal digits, no leading zero
      except in "0" itself. */
  function NatToString(n: nat): (r: string)
    ensures |r| > 0 && AllDigits(r)
    ensures r[0] == '0' ==> n == 0
    decreases n
  {
    if n < 10 then [DigitChar(n)] else NatToString(n / 10) + [DigitChar(n % 10)]
  }

  /** The number a string of decimal digits denotes. */
  function DigitsValue(s: string): nat
    requires AllDigits(s)
  {
    if |s| == 0 then 0 else 10 * DigitsValue(s[..|s| - 1]) + DigitValue(s[|s| - 1])
  }

  /** A numeral as `toString` writes it: no superfluous leading zero. */
  predicate Canonical(s: string) {
    |s| > 0 && AllDigits(s) && (s[0] != '0' || |s| == 1)
  }

  /** Reading back what `NatToString` wrote gives the number. */
  lemma {:induction false} NatToStringValue(n: nat)
    ensures DigitsValue(NatToString(n)) == n
    decreases n
  {
    if n >= 10 {
      NatToStringValue(n / 10);
      var s := NatToString(n);
      assert s[..|s| - 1] == NatToString(n / 10);
    }
  }

  /** Different numbers have different numerals. */
  lemma NatToStringInjective(a: nat, b: nat)
    requires NatToString(a) == NatToString(b)
    ensures a == b
  {
    NatToStringValue(a);
    NatToStringValue(b);
  }

  lemma {:induction false} LeadingDigitPositive(s: string)
    requires AllDigits(s) && |s| > 0 && s[0] != '0'
    ensures DigitsValue(s) > 0
    decreases |s|
  {
    if |s| > 1 {
      LeadingDigitPositive(s[..|s| - 1]);
    }
  }

  /** Writing down the value of a canonical numeral gives the numeral back. */
  lemma {:induction false} CanonicalRoundTrip(s: string)
    requires Canonical(s)
    ensures NatToString(DigitsValue(s)) == s
    decreases |s|
  {
    if |s| > 1 {
      var t := s[..|s| - 1];
      CanonicalRoundTrip(t);
      LeadingDigitPositive(t);
      var v := DigitsValue(s);
      assert v / 10 == DigitsValue(t) && v % 10 == DigitValue(s[|s| - 1]);
      assert s == t + [s[|s| - 1]];
    }
  }

  /** `s.padStart(width, c)`. */
  function PadStart(s: string, width: nat, c: char): (r: string)
    ensures |r| == if |s| >= width then |s| else width
    ensures s <= r[|r| - |s|..] && r[|r| - |s|..] == s
    ensures forall k | 0 <= k < |r| - |s| :: r[k] == c
  {
    if |s| >= width then s else seq(width - |s|, _ => c) + s
  }
}
