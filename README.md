# Getting to Philosophy: a Dafny model of the link selector and traversal loop

This project models the decision logic of `main.py`, a script that starts at one
encyclopedia article and keeps following links until it reaches a page that links
to the article "Philosophy". It then reports how many pages it visited.

- `Href` (href.dfy) has three parts:
  - The cleaning of a page's hrefs: keep `/wiki/` paths, drop `/sandbox` pages, drop
    namespaced paths that contain a colon.
  - The exact, case-sensitive test for `/wiki/Philosophy`.
  - The selector. It returns the first href whose lower-case form contains
    "philosophy" and that has not been visited. If there is none, it returns a random
    element of the list. On an empty list it returns nothing.
- `Content` (content.dfy) has `get_content` as a function of the HTTP exchange's
  outcome. A transport exception and a status other than 200 both give no content.
- `Finder` (finder.dfy) has `main_finder` as a method with a bounded loop over the
  state `url`, `visited_hrefs` and `visit_count`. The method records its run in a
  ghost trace of states and selector answers. Lemmas about any such run give:
  - the visit count;
  - the visited set;
  - the current URL;
  - why a run stops.
- `Strings` and `Lists` hold the Python operations these use:
  - slicing with `[:n]` and `[-n:]`;
  - substring `in`;
  - ASCII `str.lower()`;
  - list comprehensions as an order-preserving filter.

The outside world enters as two parameters of `MainFinder`:
- `network(i, url)`: what the HTTP GET of `url` produced at attempt `i`. It is
  indexed by the attempt, so a page that failed once may load later.
- `extract(body)`: the raw hrefs of the body's `mw-body-content` block, or `None`
  when the block is missing.

`random.choice` is a nondeterministic pick (`:|`) from the list. The specification
of the selector, `Href.IsClickChoice`, admits any element there.

What the code does at its edges, which the model keeps:
- `main_finder` returns the count of the page that links to `/wiki/Philosophy`.
  The target page itself is never fetched, so A → B → C → Philosophy gives 3
  (`Finder.ChainReachesTarget`), although the docstring (main.py:202-203) speaks
  of the visits it took to reach the Philosophy page.
- A page without a `mw-body-content` block makes `get_hrefs` dereference `None`
  (main.py:186-187). The exception escapes `main_finder`. The model keeps this as
  the outcome `Crashed`; it does not turn it into an empty link list.
- A failed fetch does not change the URL. The next attempt fetches the same page
  again, and each attempt uses up one unit of the budget (`Finder.StepFacts`).

## Model

| member | source | states |
|---|---|---|
| `Strings.Head` | main.py:107 | Python's `s[:n]`: at most `n` characters, a prefix of `s`, the whole string when it is shorter |
| `Strings.Tail` | main.py:108 | Python's `s[-n:]`: at most `n` characters, a suffix of `s`, the whole string when it is shorter |
| `Strings.HasSubstring` | main.py:145 | `"philosophy" in s` as a left-to-right scan of start positions; its meaning is given by `Strings.HasSubstringIff` |
| `Strings.HasSubstringIff` | main.py:145 | the substring scan answers true exactly when the keyword occurs at some position of the string |
| `Strings.LowerChar` | main.py:145 | lowering one character: `A`-`Z` become their own lower-case letter, every other character is kept |
| `Strings.Lower` | main.py:145 | ASCII lowering keeps the length of the string |
| `Strings.LowerAt` | main.py:145 | `str.lower()` on ASCII lowers each character on its own: `A`-`Z` become their own lower-case letter, every other character is kept |
| `Lists.Filter` | main.py:107-109 | a list comprehension's result is never longer than its input |
| `Lists.FilterMembers` | main.py:107-109 | a list comprehension keeps exactly the elements that pass the test: nothing else, and every passing one |
| `Lists.FilterKeepsPassing` | main.py:107-109 | a list comprehension over a list whose elements all pass returns the list unchanged |
| `Lists.FilterIsSubsequence` | main.py:107-109 | a list comprehension's result is an order-preserving sublist of its input |
| `Href.IsWikiHref` | main.py:107 | stage 1, `href[:6] == "/wiki/"`; its meaning as a prefix test is given by `Href.StagesAreClean` |
| `Href.NotSandbox` | main.py:108 | stage 2, `href[-8:] != "/sandbox"`; its meaning as a suffix test is given by `Href.StagesAreClean` |
| `Href.NoColon` | main.py:109 | stage 3, `":" not in href`; its part of the cleaned condition is given by `Href.StagesAreClean` |
| `Href.StagesAreClean` | main.py:107-109 | the slice comparisons `href[:6] == "/wiki/"` and `href[-8:] != "/sandbox"`, with the colon test, are exactly "starts with /wiki/, does not end with /sandbox, has no colon" |
| `Href.CleanedLinks` | main.py:97-111 | `get_cleaned_links`: the three comprehensions applied in source order; its meaning is given by `Href.CleanedLinksOnePass` and `Href.CleanedLinksSpec` |
| `Href.StagesOnePass` | main.py:107-109 | the three comprehensions in a row keep exactly what one comprehension on the conjunction of their conditions keeps |
| `Href.CleanedLinksOnePass` | main.py:107-111 | cleaning, the three stages applied in order, equals one filter on "starts with /wiki/, does not end with /sandbox, has no colon" |
| `Href.CleanedLinksSpec` | main.py:107-111 | cleaning returns an order-preserving sublist, every element passes all three conditions, and every input element that passes them is kept |
| `Href.CleanedLinksIdempotent` | main.py:107-111 | cleaning a cleaned list returns it unchanged |
| `Href.FindPhilosophyHref` | main.py:125 | exact membership of `/wiki/Philosophy`; its meaning on cleaned pages is given by `Href.TargetSurvivesCleaning` and `Href.FindIsCaseSensitive` |
| `Href.TargetSurvivesCleaning` | main.py:125 | the target test holds of a cleaned page exactly when the raw hrefs contain `/wiki/Philosophy`; never of the empty list |
| `Href.FindIsCaseSensitive` | main.py:125 | the target test is exact: `/wiki/philosophy` does not match |
| `Href.IsPreferred` | main.py:145 | the preferred-link test: the lowered href contains "philosophy" and is not yet visited; its meaning is given by `Strings.HasSubstringIff` and `Strings.LowerAt` |
| `Href.FirstPreferred` | main.py:144-146 | the index of the first href that mentions "philosophy" in lower case and is unvisited; no earlier href qualifies, and the length of the list when none does |
| `Href.IsClickChoice` | main.py:140-148 | the answers `get_click_href` may give: `None` on an empty list, the first preferred href when there is one, otherwise any element; its consequences are given by `Href.ClickChoiceInList`, `Href.FallbackMayRevisit` and `Href.PreferredIgnoresCase` |
| `Href.GetClickHref` | main.py:140-148 | `None` exactly on an empty list; otherwise an element of the list, namely the first preferred href whenever one exists |
| `Href.ClickChoiceInList` | main.py:140-148 | any outcome the selector may produce is `None` exactly on an empty list, and otherwise is a member of the list |
| `Href.FallbackMayRevisit` | main.py:145-148 | a visited href is skipped by the preferred rule, yet the random fallback may still return it |
| `Href.PreferredIgnoresCase` | main.py:144-146 | with `/wiki/Sport` and `/wiki/PHILOSOPHY_Test`, the selector must return the upper-case match |
| `Content.GetContent` | main.py:78-88 | content is present exactly for a response with status 200, and it is that response's body; a transport exception gives none |
| `Finder.LoadPage` | main.py:186-189 | a missing or empty body is a skipped attempt; a body without its content block is the crash; otherwise the page's links are cleaned |
| `Finder.Attempt` | main.py:210-224 | one pass of the loop body is the step prescribed for the page loaded at that attempt, with a selector answer `get_click_href` may give |
| `Finder.MainFinder` | main.py:205-227 | a returned count lies in 1..1000; the run is a sequence of loop steps from the start state; it stops early only through a halting step at which the selector gave no link; a run of 1000 attempts reports no count |
| `Finder.Followed` | main.py:216-219 | the followed hrefs are at most as many as the attempts made |
| `Finder.RunState` | main.py:205 | at every attempt, count = 1 + the number of links followed (at most the attempt number + 1); visited = exactly those links; URL = the start URL or the origin followed by the last link |
| `Finder.Advance` | main.py:211-224 | one pass of the loop body on the page loaded and the selector's answer; its effect along a run is given by `Finder.StepFacts` and `Finder.HaltReasons` |
| `Finder.StepFacts` | main.py:210-224 | a failed fetch changes nothing and gives no click, so the same URL is fetched again; a continued page had no target link; the clean link it chose is added to visited; the URL becomes `https://en.wikipedia.org` + link; the count grows by one |
| `Finder.VisitedGrows` | main.py:219 | the visited set only grows along a run |
| `Finder.HaltReasons` | main.py:211-218 | an early stop has three causes: a page linking to the target (the current count is returned), a page with no links (`None`), or a page without its content block (the crash) |
| `Finder.FoundHops` | main.py:213-224 | a returned count is 1 + the number of links followed, and lies between 1 and the 1000-attempt budget |
| `Finder.DeadEnd` | main.py:140-142 | a loaded page with no candidate links is where the run stops, with no count |
| `Finder.ExhaustsBudget` | main.py:209-227 | with no page ever broken, empty or linking to the target, the run takes exactly 1000 attempts and reports no count |
| `Finder.OnlyLinkFollowed` | main.py:216-224 | from a loaded page whose only link is `x`, the run follows `x`: it is added to visited, the URL becomes the origin followed by `x`, the count grows by one |
| `Finder.ChainPages` | main.py:209-224 | in the chain A → B → C, the run's attempts 0, 1 and 2 load A, B and C, and C is loaded with count 3 |
| `Finder.ChainReachesTarget` | main.py:209-224 | in the chain A → B → C where C links to the target, every run stops after two followed links and reports 3 |

## Left out

- Logging: `ColoredFormatter`, `get_logger` and every `logger` call (main.py:10-58, 82, 141, 222). They only format and write terminal output.
- `requests.get` and the network. They are an oracle of the attempt number and the URL. `Content.GetContent` models only what `get_content` makes of the outcome.
- BeautifulSoup parsing and `Soup.get_body_soup`/`find_all` (main.py:151-190). They are an oracle from a body to the raw hrefs of its `mw-body-content` block. The cleaning of those hrefs is modelled.
- `sleep(uniform(1, 2))` (main.py:225). It is wall-clock pacing, has no effect on the logic, and involves floats.
- The `__main__` block (main.py:230-238). It is a fixed starting URL plus printing.
- `Strings.Lower`: lowers ASCII letters only, while Python's `str.lower()` covers all of Unicode and can change the length of a string. This changes `Lower` on non-ASCII text, but not the answer of the keyword test at main.py:145: no non-ASCII character lowers to text that completes "philosophy".
- `Href.GetClickHref`: the fallback is any element of the list. The uniform distribution of `random.choice` is not modelled, because the model has no probabilities.
- `Finder.MainFinder`: the model distinguishes a dead end from an exhausted budget only through its ghost trace. Both return `None`, as in the source.
