/**
 * The home page's lecture list: the search/keyword filter, the keyword menu
 * (every keyword once, in order of first appearance) and the keyword chips of
 * a card (at most three, then a `+N 更多` count of the rest).
 */
module Listing {
  import opened Text
  import opened Seqs

  datatype Lecture = Lecture(
    slug: string,
    title: string,
    speaker: string,
    date: string,
    keywords: seq<string>,
    duration: Option<string>,
    thumbnail: Option<string>)

  // ---------------------------------------------------------------------------
  // `filteredLectures`
  // ---------------------------------------------------------------------------

  /** The lower-cased search term occurs in the lower-cased title or speaker. */
  predicate MatchesSearch(lecture: Lecture, searchTerm: string) {
    || Contains(Lower(lecture.title), Lower(searchTerm))
    || Contains(Lower(lecture.speaker), Lower(searchTerm))
  }

  /** No keyword is selected, or the lecture carries the selected one. */
  predicate MatchesKeyword(lecture: Lecture, selectedKeyword: string) {
    selectedKeyword == [] || selectedKeyword in lecture.keywords
  }

  predicate Shown(lecture: Lecture, searchTerm: string, selectedKeyword: string) {
    MatchesSearch(lecture, searchTerm) && MatchesKeyword(lecture, selectedKeyword)
  }

  function ShownBy(searchTerm: string, selectedKeyword: string): Lecture -> bool {
    lecture => Shown(lecture, searchTerm, selectedKeyword)
  }

  /** `lectures.filter(...)` with both conditions. */
  function FilteredLectures(lectures: seq<Lecture>, searchTerm: string, selectedKeyword: string): (shown: seq<Lecture>)
    ensures forall k | 0 <= k < |shown| ::
      shown[k] in lectures && MatchesSearch(shown[k], searchTerm) && MatchesKeyword(shown[k], selectedKeyword)
  {
    Filter(lectures, ShownBy(searchTerm, selectedKeyword))
  }

  /** The shown lectures keep the list order, and every lecture that meets
      both conditions is shown, as often as it is listed. */
  lemma FilteredLecturesExact(lectures: seq<Lecture>, searchTerm: string, selectedKeyword: string)
    ensures IsSubsequence(FilteredLectures(lectures, searchTerm, selectedKeyword), lectures)
    ensures forall lecture ::
      multiset(FilteredLectures(lectures, searchTerm, selectedKeyword))[lecture] ==
      if Shown(lecture, searchTerm, selectedKeyword) then multiset(lectures)[lecture] else 0
  {
    FilterExact(lectures, ShownBy(searchTerm, selectedKeyword));
  }

  /** Completeness: a listed lecture that meets both conditions is shown. */
  lemma FilteredLecturesComplete(lectures: seq<Lecture>, searchTerm: string, selectedKeyword: string, k: nat)
    requires k < |lectures|
    requires MatchesSearch(lectures[k], searchTerm) && MatchesKeyword(lectures[k], selectedKeyword)
    ensures lectures[k] in FilteredLectures(lectures, searchTerm, selectedKeyword)
  {
    FilterKeepsAccepted(lectures, ShownBy(searchTerm, selectedKeyword), k);
  }

  /** With an empty search box and no keyword chosen, every lecture is shown. */
  lemma NoFilterShowsAll(lectures: seq<Lecture>)
    ensures FilteredLectures(lectures, "", "") == lectures
  {
    forall k | 0 <= k < |lectures| ensures Shown(lectures[k], "", "") {
      assert Lower("") == "";
      assert Contains(Lower(lectures[k].title), "");
    }
    FilterAcceptAll(lectures, ShownBy("", ""));
  }

  // ---------------------------------------------------------------------------
  // `allKeywords`
  // ---------------------------------------------------------------------------

  /** `lectures.flatMap(lecture => lecture.keywords)`. */
  function AllKeywordsListed(lectures: seq<Lecture>): (keywords: seq<string>)
    ensures forall i, j | 0 <= i < |lectures| && 0 <= j < |lectures[i].keywords| ::
      lectures[i].keywords[j] in keywords
    ensures forall k | 0 <= k < |keywords| :: exists i | 0 <= i < |lectures| :: keywords[k] in lectures[i].keywords
  {
    if |lectures| == 0 then []
    else
      var init := AllKeywordsListed(lectures[..|lectures| - 1]);
      var last := lectures[|lectures| - 1];
      var keywords := init + last.keywords;
      assert forall i | 0 <= i < |lectures| - 1 :: lectures[..|lectures| - 1][i] == lectures[i];
      assert forall k | |init| <= k < |keywords| :: keywords[k] == last.keywords[k - |init|];
      keywords
  }

  /** The order of `flatMap`: the keywords of one lecture are its own, in
      order, and the keywords of a longer list are those of its front part
      followed by those of the rest. */
  lemma {:induction false} AllKeywordsListedOrder(a: seq<Lecture>, b: seq<Lecture>)
    ensures |a| == 1 ==> AllKeywordsListed(a) == a[0].keywords
    ensures AllKeywordsListed(a + b) == AllKeywordsListed(a) + AllKeywordsListed(b)
    decreases |b|
  {
    if |a| == 1 {
      assert a[..0] == [];
    }
    if |b| == 0 {
      assert a + b == a;
    } else {
      var init := b[..|b| - 1];
      AllKeywordsListedOrder(a, init);
      assert (a + b)[..|a + b| - 1] == a + init;
      assert (a + b)[|a + b| - 1] == b[|b| - 1];
    }
  }

  /** `Array.from(new Set(xs))`: each element once, at the place of its first
      appearance. */
  function FirstAppearances<T(==,!new)>(xs: seq<T>): (r: seq<T>)
    ensures forall x :: x in r <==> x in xs
    ensures forall i, j | 0 <= i < j < |r| :: r[i] != r[j]
    decreases |xs|
  {
    if |xs| == 0 then []
    else
      var init := FirstAppearances(xs[..|xs| - 1]);
      assert xs == xs[..|xs| - 1] + [xs[|xs| - 1]];
      if xs[|xs| - 1] in init then init else init + [xs[|xs| - 1]]
  }

  /** The keyword menu. */
  function AllKeywords(lectures: seq<Lecture>): seq<string> {
    FirstAppearances(AllKeywordsListed(lectures))
  }

  /** Where `x` first occurs in `xs`. */
  function FirstIndex<T(==)>(xs: seq<T>, x: T): (i: nat)
    requires x in xs
    ensures i < |xs| && xs[i] == x
    ensures forall j | 0 <= j < i :: xs[j] != x
  {
    if xs[0] == x then 0 else 1 + FirstIndex(xs[1..], x)
  }

  /** A first occurrence inside a prefix is the first occurrence overall. */
  lemma FirstIndexInPrefix<T(!new)>(xs: seq<T>, n: nat, x: T)
    requires n <= |xs| && x in xs[..n]
    ensures FirstIndex(xs, x) == FirstIndex(xs[..n], x)
  {
    var i := FirstIndex(xs[..n], x);
    var j := FirstIndex(xs, x);
    assert xs[i] == xs[..n][i] == x;
    assert j <= i;
    assert xs[..n][j] == x;
  }

  /** The menu lists the keywords in the order of their first appearance. */
  lemma {:induction false} FirstAppearancesOrdered<T(!new)>(xs: seq<T>)
    ensures forall i, j | 0 <= i < j < |FirstAppearances(xs)| ::
      FirstIndex(xs, FirstAppearances(xs)[i]) < FirstIndex(xs, FirstAppearances(xs)[j])
    decreases |xs|
  {
    if |xs| > 0 {
      var n := |xs| - 1;
      var prefix := xs[..n];
      var init := FirstAppearances(prefix);
      FirstAppearancesOrdered(prefix);
      assert xs == prefix + [xs[n]];
      forall x | x in init ensures FirstIndex(xs, x) == FirstIndex(prefix, x) && FirstIndex(xs, x) < n {
        FirstIndexInPrefix(xs, n, x);
      }
      var r := FirstAppearances(xs);
      if xs[n] !in init {
        assert r == init + [xs[n]];
        assert xs[n] !in prefix;
        assert FirstIndex(xs, xs[n]) == n;
        forall i, j | 0 <= i < j < |r| ensures FirstIndex(xs, r[i]) < FirstIndex(xs, r[j]) {
          assert r[i] == init[i] && r[i] in init;
          if j < |init| {
            assert r[j] == init[j] && r[j] in init;
            assert FirstIndex(prefix, init[i]) < FirstIndex(prefix, init[j]);
          }
        }
      } else {
        forall i, j | 0 <= i < j < |r| ensures FirstIndex(xs, r[i]) < FirstIndex(xs, r[j]) {
          assert r == init;
          assert FirstIndex(prefix, init[i]) < FirstIndex(prefix, init[j]);
          assert r[i] in init && r[j] in init;
        }
      }
    }
  }

  /** The menu holds every keyword of every lecture and nothing else, once
      each, in order of first appearance. */
  lemma AllKeywordsExact(lectures: seq<Lecture>)
    ensures var menu := AllKeywords(lectures);
      && (forall i, j | 0 <= i < |lectures| && 0 <= j < |lectures[i].keywords| :: lectures[i].keywords[j] in menu)
      && (forall k | 0 <= k < |menu| :: exists i | 0 <= i < |lectures| :: menu[k] in lectures[i].keywords)
      && (forall i, j | 0 <= i < j < |menu| :: menu[i] != menu[j])
      && (forall i, j | 0 <= i < j < |menu| ::
            FirstIndex(AllKeywordsListed(lectures), menu[i]) < FirstIndex(AllKeywordsListed(lectures), menu[j]))
  {
    var listed := AllKeywordsListed(lectures);
    var menu := AllKeywords(lectures);
    FirstAppearancesOrdered(listed);
    forall k | 0 <= k < |menu| ensures exists i | 0 <= i < |lectures| :: menu[k] in lectures[i].keywords {
      assert menu[k] in listed;
      var m :| 0 <= m < |listed| && listed[m] == menu[k];
    }
  }

  /** `new Set(...)` filled one keyword at a time: a keyword enters the set,
      and the menu, only the first time it is met. */
  method UniqueInOrder<T(==,!new)>(xs: seq<T>) returns (menu: seq<T>)
    ensures menu == FirstAppearances(xs)
  {
    menu := [];
    var seen: set<T> := {};
    for i := 0 to |xs|
      invariant menu == FirstAppearances(xs[..i])
      invariant forall x :: x in seen <==> x in menu
    {
      assert xs[..i + 1][..i] == xs[..i];
      if xs[i] !in seen {
        seen := seen + {xs[i]};
        menu := menu + [xs[i]];
      }
    }
    assert xs[..|xs|] == xs;
  }

  // ---------------------------------------------------------------------------
  // Keyword chips of a card
  // ---------------------------------------------------------------------------

  /** A card shows at most this many keyword chips. */
  const ChipLimit: nat := 3

  /** `keywords.slice(0, 3)` */
  function KeywordChips(keywords: seq<string>): (chips: seq<string>)
    ensures chips <= keywords
    ensures |chips| == if |keywords| < ChipLimit then |keywords| else ChipLimit
  {
    if |keywords| < ChipLimit then keywords else keywords[..ChipLimit]
  }

  /** `+${n - 3} 更多`, shown only when there are more than three keywords. */
  function OverflowLabel(keywords: seq<string>): (tag: Option<string>)
    ensures tag.Some? <==> |keywords| > ChipLimit
    ensures tag.Some? ==> |tag.value| > 0 && tag.value[0] == '+'
  {
    if |keywords| > ChipLimit then Some("+" + NatToString(|keywords| - ChipLimit) + " 更多") else None
  }

  /** Reads the count back out of an overflow label. */
  function HiddenCount(tag: string): Option<nat> {
    if |tag| >= 4 && tag[0] == '+' && tag[|tag| - 3..] == " 更多"
      && AllDigits(tag[1..|tag| - 3])
    then Some(DigitsValue(tag[1..|tag| - 3]))
    else None
  }

  /** The chips and the number on the overflow label together account for
      every keyword: nothing is dropped without being counted. */
  lemma ChipsAccountForAll(keywords: seq<string>)
    ensures var tag := OverflowLabel(keywords);
      && (tag.Some? ==> HiddenCount(tag.value).Some?)
      && |KeywordChips(keywords)| + (if tag.Some? then HiddenCount(tag.value).GetOr(0) else 0) == |keywords|
  {
    if |keywords| > ChipLimit {
      var digits := NatToString(|keywords| - ChipLimit);
      var tag := "+" + digits + " 更多";
      assert tag[1..|tag| - 3] == digits;
      assert tag[|tag| - 3..] == " 更多";
      NatToStringValue(|keywords| - ChipLimit);
    }
  }
}
