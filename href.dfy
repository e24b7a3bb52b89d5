/** The `Href` helpers of main.py: cleaning the hrefs of a page, testing for the
    target article, and choosing the next link to follow. */
module Href {
  import opened Wrappers
  import opened Strings
  import opened Lists

  const WIKI_PREFIX: string := "/wiki/"
  const SANDBOX_SUFFIX: string := "/sandbox"
  /** The article the traversal is looking for, matched exactly. */
  const TARGET: string := "/wiki/Philosophy"
  /** The word that makes a link preferred, matched on the lowered href. */
  const KEYWORD: string := "philosophy"

  /** Stage 1: `href[:6] == "/wiki/"`. */
  predicate IsWikiHref(h: string) {
    Head(h, 6) == WIKI_PREFIX
  }

  /** Stage 2: `href[-8:] != "/sandbox"`. */
  predicate NotSandbox(h: string) {
    Tail(h, 8) != SANDBOX_SUFFIX
  }

  /** Stage 3: `":" not in href`. */
  predicate NoColon(h: string) {
    ':' !in h
  }

  /** The three conditions a cleaned href satisfies, stated as prefix, suffix and character tests. */
  predicate IsClean(h: string) {
    StartsWith(h, WIKI_PREFIX) && !EndsWith(h, SANDBOX_SUFFIX) && ':' !in h
  }

  /** The slice comparisons of the three stages are the prefix, suffix and colon tests. */
  lemma StagesAreClean(h: string)
    ensures IsWikiHref(h) && NotSandbox(h) && NoColon(h) <==> IsClean(h)
  {
    HeadIsPrefixTest(h, WIKI_PREFIX);
    TailIsSuffixTest(h, SANDBOX_SUFFIX);
  }

  /** Filters applied one after the other, each to the result of the one before. */
  function Stages(tests: seq<string -> bool>, hrefs: seq<string>): seq<string>
    decreases |tests|
  {
    if tests == [] then hrefs else Stages(tests[1..], Filter(tests[0], hrefs))
  }

  /** `Href.get_cleaned_links`: three list comprehensions applied one after the other,
      keeping `/wiki/` paths, then dropping sandbox pages, then dropping colons. */
  function CleanedLinks(hrefs: seq<string>): seq<string>
  {
    Stages([IsWikiHref, NotSandbox, NoColon], hrefs)
  }

  /** The three stages together are one filter on the conjunction of their conditions. */
  lemma {:induction false} CleanedLinksOnePass(hrefs: seq<string>)
    ensures CleanedLinks(hrefs) == Filter(IsClean, hrefs)
  {
    var wiki := Filter(IsWikiHref, hrefs);
    var kept := Filter(NotSandbox, wiki);
    var tests: seq<string -> bool> := [IsWikiHref, NotSandbox, NoColon];
    assert tests[1..] == [NotSandbox, NoColon] && tests[1..][1..] == [NoColon] && tests[1..][1..][1..] == [];
    calc {
      CleanedLinks(hrefs);
      Stages([NotSandbox, NoColon], wiki);
      Stages([NoColon], kept);
      Stages([], Filter(NoColon, kept));
    }
    StagesOnePass(hrefs);
  }

  /** The three filters in a row keep exactly what one filter on the conjunction keeps. */
  lemma {:induction false} StagesOnePass(hrefs: seq<string>)
    ensures Filter(NoColon, Filter(NotSandbox, Filter(IsWikiHref, hrefs))) == Filter(IsClean, hrefs)
  {
    if hrefs != [] {
      StagesOnePass(hrefs[1..]);
      StagesAreClean(hrefs[0]);
      assert hrefs == [hrefs[0]] + hrefs[1..];
    }
  }

  /** What cleaning promises: an order-preserving sublist of the input whose elements
      all start with "/wiki/", do not end with "/sandbox" and contain no colon, and
      that keeps every input element meeting the three conditions. */
  lemma CleanedLinksSpec(hrefs: seq<string>)
    ensures IsSubsequence(CleanedLinks(hrefs), hrefs)
    ensures forall h :: h in CleanedLinks(hrefs) ==> h in hrefs && IsClean(h)
    ensures forall h :: h in hrefs && IsClean(h) ==> h in CleanedLinks(hrefs)
  {
    CleanedLinksOnePass(hrefs);
    FilterIsSubsequence(IsClean, hrefs);
    FilterMembers(IsClean, hrefs);
  }

  /** Cleaning an already cleaned list changes nothing. */
  lemma CleanedLinksIdempotent(hrefs: seq<string>)
    ensures CleanedLinks(CleanedLinks(hrefs)) == CleanedLinks(hrefs)
  {
    var once := CleanedLinks(hrefs);
    CleanedLinksOnePass(hrefs);
    CleanedLinksOnePass(once);
    FilterMembers(IsClean, hrefs);
    FilterKeepsPassing(IsClean, once);
  }

  /** `Href.find_philosophy_href`: exact, case-sensitive membership of the target path. */
  function FindPhilosophyHref(hrefs: seq<string>): bool
  {
    TARGET in hrefs
  }

  /** The target path passes all three cleaning stages, so a page links to it after
      cleaning exactly when its raw hrefs contain it; an empty list never contains it. */
  lemma TargetSurvivesCleaning(raw: seq<string>)
    ensures FindPhilosophyHref(CleanedLinks(raw)) <==> TARGET in raw
    ensures !FindPhilosophyHref([])
  {
    assert TARGET[..|WIKI_PREFIX|] == WIKI_PREFIX;
    assert IsClean(TARGET);
    CleanedLinksSpec(raw);
  }

  /** The test is case-sensitive: the lower-case spelling of the target does not match. */
  lemma FindIsCaseSensitive()
    ensures !FindPhilosophyHref(["/wiki/philosophy"])
  {
    assert "/wiki/philosophy"[6] != TARGET[6];
  }

  /** The preferred-match rule of `get_click_href`: the lowered href contains
      "philosophy" and the href has not been visited yet. */
  predicate IsPreferred(h: string, visited: set<string>) {
    HasSubstring(Lower(h), KEYWORD) && h !in visited
  }

  /** The index of the first preferred href, or `|hrefs|` when there is none. */
  function FirstPreferred(hrefs: seq<string>, visited: set<string>): (k: nat)
    ensures k <= |hrefs|
    ensures k < |hrefs| ==> IsPreferred(hrefs[k], visited)
    ensures forall j {:trigger IsPreferred(hrefs[j], visited)} :: 0 <= j < k ==> !IsPreferred(hrefs[j], visited)
  {
    if hrefs == [] then 0
    else if IsPreferred(hrefs[0], visited) then 0
    else 1 + FirstPreferred(hrefs[1..], visited)
  }

  /** The outcomes `get_click_href` may produce: `None` on an empty list, the first
      preferred href when there is one, and otherwise any element of the list (the
      random fallback, which may pick a visited href). */
  predicate IsClickChoice(hrefs: seq<string>, visited: set<string>, r: Option<string>) {
    match r
    case None => hrefs == []
    case Some(h) =>
      hrefs != [] &&
      if FirstPreferred(hrefs, visited) < |hrefs| then h == hrefs[FirstPreferred(hrefs, visited)] else h in hrefs
  }

  /** `Href.get_click_href`: scan for the first preferred href; if there is none,
      return a random element, chosen here without constraint. */
  method GetClickHref(hrefs: seq<string>, visited: set<string>) returns (r: Option<string>)
    ensures r.None? <==> hrefs == []
    ensures r.Some? ==> r.value in hrefs
    ensures FirstPreferred(hrefs, visited) < |hrefs| ==> r == Some(hrefs[FirstPreferred(hrefs, visited)])
  {
    if hrefs == [] {
      return None;
    }
    for i := 0 to |hrefs|
      invariant forall j {:trigger IsPreferred(hrefs[j], visited)} :: 0 <= j < i ==> !IsPreferred(hrefs[j], visited)
    {
      if HasSubstring(Lower(hrefs[i]), KEYWORD) && hrefs[i] !in visited {
        assert IsPreferred(hrefs[i], visited);
        return Some(hrefs[i]);
      }
    }
    assert hrefs[0] in hrefs;
    var pick :| pick in hrefs;
    return Some(pick);
  }

  /** The selector never reports a dead end on a non-empty list, and whatever it
      returns is one of the list's hrefs. */
  lemma ClickChoiceInList(hrefs: seq<string>, visited: set<string>, r: Option<string>)
    requires IsClickChoice(hrefs, visited, r)
    ensures r.None? <==> hrefs == []
    ensures r.Some? ==> r.value in hrefs
  {
  }

  /** A preferred-looking link the run has already followed is skipped by the
      preferred rule, yet the fallback may still return it. */
  lemma FallbackMayRevisit()
    ensures IsClickChoice(["/wiki/Philosophy_of_mind"], {"/wiki/Philosophy_of_mind"}, Some("/wiki/Philosophy_of_mind"))
    ensures !IsPreferred("/wiki/Philosophy_of_mind", {"/wiki/Philosophy_of_mind"})
  {
  }

  /** "/wiki/Sport" does not mention the keyword in any case. */
  lemma SportNotPreferred(h: string)
    requires h == "/wiki/Sport"
    ensures !IsPreferred(h, {})
  {
    var low := Lower(h);
    LowerAt(h);
    assert low[0] == LowerChar(h[0]) == '/';
    assert low[1] == LowerChar(h[1]) == 'w';
    assert low[..10][0] != KEYWORD[0];
    assert low[1..][..10][0] != KEYWORD[0];
    assert !HasSubstring(low[1..][1..], KEYWORD);
    assert !HasSubstring(low[1..], KEYWORD);
  }

  /** The lowered form of "/wiki/PHILOSOPHY_Test" contains the keyword. */
  lemma UpperCaseMentionsKeyword(h: string)
    requires h == "/wiki/PHILOSOPHY_Test"
    ensures IsPreferred(h, {})
  {
    var low := Lower(h);
    LowerAt(h);
    assert low[6] == 'p' && low[7] == 'h' && low[8] == 'i' && low[9] == 'l' && low[10] == 'o';
    assert low[11] == 's' && low[12] == 'o' && low[13] == 'p' && low[14] == 'h' && low[15] == 'y';
    assert low[6..16] == KEYWORD;
    assert OccursAt(low, KEYWORD, 6);
    HasSubstringIff(low, KEYWORD);
  }

  /** The keyword is matched case-insensitively: an upper-case spelling is preferred
      and is the only allowed choice when it is the first unvisited match. */
  lemma PreferredIgnoresCase(sport: string, upper: string, r: Option<string>)
    requires sport == "/wiki/Sport" && upper == "/wiki/PHILOSOPHY_Test"
    requires IsClickChoice([sport, upper], {}, r)
    ensures r == Some(upper)
  {
    SportNotPreferred(sport);
    UpperCaseMentionsKeyword(upper);
    assert FirstPreferred([sport, upper], {}) == 1 by {
      assert [sport, upper][1..] == [upper];
    }
  }
}
