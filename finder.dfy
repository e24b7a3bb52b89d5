/** `main_finder` of main.py: the bounded fetch, extract, select and advance loop.
    The network is an oracle indexed by the attempt number and the URL, so a page that
    failed may load on a later attempt; the HTML parser is an oracle from a page body
    to the raw hrefs of its `mw-body-content` block, or `None` when the page has none. */
module Finder {
  import opened Wrappers
  import opened Href
  import opened Content

  const BASE_URL: string := "https://en.wikipedia.org"
  /** The loop's iteration budget. */
  const MAX_ATTEMPTS: nat := 1000

  /** One attempt's page as the loop sees it. `NoContent`: `get_content` gave `None` or
      an empty body, which are both falsy. `MissingBody`: the body has no
      `mw-body-content` block, so `get_hrefs` dereferences `None`. `Links`: the
      cleaned hrefs of the page. */
  datatype Page = NoContent | MissingBody | Links(hrefs: seq<string>)

  /** Fetching and extracting the links of one page. */
  function LoadPage(resp: Response, extract: string -> Option<seq<string>>): (page: Page)
    ensures page.NoContent? <==> GetContent(resp).None? || GetContent(resp).value == ""
    ensures page.MissingBody? <==> GetContent(resp).Some? && GetContent(resp).value != "" && extract(resp.text).None?
    ensures page.Links? ==> resp.Http? && resp.status == HTTP_OK && extract(resp.text).Some? &&
                            page.hrefs == CleanedLinks(extract(resp.text).value)
  {
    var content := GetContent(resp);
    if content.None? || content.value == "" then NoContent
    else match extract(content.value)
      case None => MissingBody
      case Some(raw) => Links(CleanedLinks(raw))
  }

  /** The loop's variables `url`, `visited_hrefs` and `visit_count`. */
  datatype State = State(url: string, visited: set<string>, count: nat)

  function Init(start: string): State {
    State(start, {}, 1)
  }

  /** How `main_finder` ends: returning a visit count, returning `None` (dead end or
      exhausted budget), or raising when a page lacks its content block. */
  datatype Outcome = Found(hops: nat) | NotFound | Crashed

  datatype Transition = Next(state: State) | Halt(outcome: Outcome)

  /** One iteration of the loop, given the page loaded and the selector's answer. */
  function Advance(s: State, page: Page, click: Option<string>): Transition {
    match page
    case NoContent => Next(s)
    case MissingBody => Halt(Crashed)
    case Links(hrefs) =>
      if FindPhilosophyHref(hrefs) then Halt(Found(s.count))
      else match click
        case None => Halt(NotFound)
        case Some(h) => Next(State(BASE_URL + h, s.visited + {h}, s.count + 1))
  }

  /** The selector is consulted only on a loaded page without the target, and then
      answers as `get_click_href` may; elsewhere there is no click. */
  predicate IsStepChoice(s: State, page: Page, click: Option<string>) {
    if page.Links? && !FindPhilosophyHref(page.hrefs) then IsClickChoice(page.hrefs, s.visited, click)
    else click == None
  }

  /** The page the loop loads at attempt `i` in state `s`. */
  function PageAt(network: (nat, string) -> Response, extract: string -> Option<seq<string>>, i: nat, s: State): Page {
    LoadPage(network(i, s.url), extract)
  }

  /** Attempt `i`, starting in `s` with the selector answering `click`, ends in `next`. */
  predicate StepsTo(network: (nat, string) -> Response, extract: string -> Option<seq<string>>,
                    i: nat, s: State, click: Option<string>, next: State)
  {
    IsStepChoice(s, PageAt(network, extract, i, s), click) &&
    Advance(s, PageAt(network, extract, i, s), click) == Next(next)
  }

  /** `trace[i]` is the state at the start of attempt `i`: the run starts in the initial
      state, and each attempt that did not end the run moved from `trace[i]` to
      `trace[i + 1]` with the selector's answer `clicks[i]`. */
  ghost predicate IsRun(start: string, network: (nat, string) -> Response, extract: string -> Option<seq<string>>,
                        trace: seq<State>, clicks: seq<Option<string>>)
  {
    |trace| == |clicks| + 1 && trace[0] == Init(start) &&
    forall i {:trigger StepsTo(network, extract, i, trace[i], clicks[i], trace[i + 1])} ::
      0 <= i < |clicks| ==> StepsTo(network, extract, i, trace[i], clicks[i], trace[i + 1])
  }

  /** Attempt `i` of a run is a step of the loop. */
  lemma RunStepAt(start: string, network: (nat, string) -> Response, extract: string -> Option<seq<string>>,
                  trace: seq<State>, clicks: seq<Option<string>>, i: nat)
    requires IsRun(start, network, extract, trace, clicks)
    requires i < |clicks|
    ensures StepsTo(network, extract, i, trace[i], clicks[i], trace[i + 1])
  {
  }

  /** The attempt after the run's last state ended it with `o`. The selector gave no
      link there: it was not consulted, or it answered `None`. */
  ghost predicate HaltsWith(network: (nat, string) -> Response, extract: string -> Option<seq<string>>,
                            trace: seq<State>, o: Outcome)
    requires trace != []
  {
    var i := |trace| - 1;
    IsStepChoice(trace[i], PageAt(network, extract, i, trace[i]), None) &&
    Advance(trace[i], PageAt(network, extract, i, trace[i]), None) == Halt(o)
  }

  /** A run extends by one more attempt that did not end it. */
  lemma ExtendRun(start: string, network: (nat, string) -> Response, extract: string -> Option<seq<string>>,
                  trace: seq<State>, clicks: seq<Option<string>>, click: Option<string>, next: State)
    requires IsRun(start, network, extract, trace, clicks)
    requires StepsTo(network, extract, |clicks|, trace[|clicks|], click, next)
    ensures IsRun(start, network, extract, trace + [next], clicks + [click])
  {
    var trace', clicks' := trace + [next], clicks + [click];
    forall i | 0 <= i < |clicks'|
      ensures StepsTo(network, extract, i, trace'[i], clicks'[i], trace'[i + 1])
    {
      if i < |clicks| {
        assert trace'[i] == trace[i] && clicks'[i] == clicks[i] && trace'[i + 1] == trace[i + 1];
        RunStepAt(start, network, extract, trace, clicks, i);
      }
    }
  }

  /** The attempt at the end of a trace, loading `page` in state `s`, ended the run with `o`. */
  lemma HaltHere(network: (nat, string) -> Response, extract: string -> Option<seq<string>>,
                 trace: seq<State>, s: State, page: Page, click: Option<string>, o: Outcome)
    requires trace != [] && trace[|trace| - 1] == s
    requires PageAt(network, extract, |trace| - 1, s) == page
    requires IsStepChoice(s, page, click) && Advance(s, page, click) == Halt(o)
    ensures click == None && HaltsWith(network, extract, trace, o)
  {
  }

  /** One pass of `main_finder`'s loop body at attempt `i` with the loop variables
      `url`, `visitedHrefs` and `visitCount`: fetch the page, stop on the target, a dead
      end or a missing content block, and otherwise follow the selected link. The
      result is the step `Advance` prescribes for the page loaded and the selector's
      answer, which is one `get_click_href` may give. */
  method Attempt(i: nat, url: string, visitedHrefs: set<string>, visitCount: nat,
                 network: (nat, string) -> Response, extract: string -> Option<seq<string>>)
    returns (t: Transition, ghost click: Option<string>)
    ensures IsStepChoice(State(url, visitedHrefs, visitCount), PageAt(network, extract, i, State(url, visitedHrefs, visitCount)), click)
    ensures t == Advance(State(url, visitedHrefs, visitCount), PageAt(network, extract, i, State(url, visitedHrefs, visitCount)), click)
  {
    ghost var s := State(url, visitedHrefs, visitCount);
    var page := LoadPage(network(i, url), extract);
    assert page == PageAt(network, extract, i, s);
    match page {
      case NoContent =>
        return Next(State(url, visitedHrefs, visitCount)), None;
      case MissingBody =>
        return Halt(Crashed), None;
      case Links(hrefs) =>
        if FindPhilosophyHref(hrefs) {
          return Halt(Found(visitCount)), None;
        }
        var chosen := GetClickHref(hrefs, visitedHrefs);
        if chosen.None? {
          return Halt(NotFound), None;
        }
        return Next(State(BASE_URL + chosen.value, visitedHrefs + {chosen.value}, visitCount + 1)), chosen;
    }
  }

  /** `main_finder`: up to MAX_ATTEMPTS attempts; a failed fetch retries the same URL,
      a page linking to the target returns the visit count, a page without links
      returns `None`, and otherwise the chosen link is recorded and followed. The
      ghost results record the run: its states and the selector's answers. */
  method MainFinder(start: string, network: (nat, string) -> Response, extract: string -> Option<seq<string>>)
    returns (o: Outcome, ghost trace: seq<State>, ghost clicks: seq<Option<string>>)
    ensures o.Found? ==> 1 <= o.hops <= MAX_ATTEMPTS
    ensures IsRun(start, network, extract, trace, clicks)
    ensures |clicks| <= MAX_ATTEMPTS
    ensures |clicks| == MAX_ATTEMPTS ==> o == NotFound
    ensures |clicks| < MAX_ATTEMPTS ==> HaltsWith(network, extract, trace, o)
  {
    var url: string, visitedHrefs: set<string>, visitCount: nat := start, {}, 1;
    trace, clicks := [Init(start)], [];
    for i := 0 to MAX_ATTEMPTS
      invariant |trace| == i + 1 && |clicks| == i
      invariant trace[i] == State(url, visitedHrefs, visitCount)
      invariant IsRun(start, network, extract, trace, clicks)
      invariant 1 <= visitCount <= i + 1
    {
      var step, click := Attempt(i, url, visitedHrefs, visitCount, network, extract);
      match step {
        case Halt(outcome) =>
          HaltHere(network, extract, trace, trace[i], PageAt(network, extract, i, trace[i]), click, outcome);
          return outcome, trace, clicks;
        case Next(next) =>
          ExtendRun(start, network, extract, trace, clicks, click, next);
          url, visitedHrefs, visitCount := next.url, next.visited, next.count;
          trace, clicks := trace + [next], clicks + [click];
      }
    }
    return NotFound, trace, clicks;
  }

  /** The hrefs the run followed, in order: the selector's answers that were links. */
  function Followed(clicks: seq<Option<string>>): (followed: seq<string>)
    ensures |followed| <= |clicks|
  {
    if clicks == [] then []
    else
      var prefix := Followed(clicks[..|clicks| - 1]);
      match clicks[|clicks| - 1]
      case None => prefix
      case Some(h) => prefix + [h]
  }

  /** The URL the loop fetches after following `followed` from `start`. */
  function UrlAfter(start: string, followed: seq<string>): string {
    if followed == [] then start else BASE_URL + followed[|followed| - 1]
  }

  /** The elements of a list extended by `h` are its former elements and `h`. */
  lemma ElementsAppend(xs: seq<string>, h: string)
    ensures (set x | x in xs + [h]) == (set x | x in xs) + {h}
  {
  }

  /** The state at the start of attempt `k`, rebuilt from the links followed before it:
      the count is one more than their number, the visited set holds exactly them, and
      the URL is the start URL or the site origin followed by the last of them. */
  lemma {:induction false} RunState(start: string, network: (nat, string) -> Response, extract: string -> Option<seq<string>>,
                                    trace: seq<State>, clicks: seq<Option<string>>, k: nat)
    requires IsRun(start, network, extract, trace, clicks)
    requires k <= |clicks|
    ensures trace[k].count == 1 + |Followed(clicks[..k])| <= k + 1
    ensures trace[k].visited == set h | h in Followed(clicks[..k])
    ensures trace[k].url == UrlAfter(start, Followed(clicks[..k]))
  {
    if k > 0 {
      RunState(start, network, extract, trace, clicks, k - 1);
      StepFacts(start, network, extract, trace, clicks, k - 1);
      var before := Followed(clicks[..k - 1]);
      assert clicks[..k][..k - 1] == clicks[..k - 1];
      match clicks[k - 1]
      case None =>
        assert Followed(clicks[..k]) == before;
      case Some(h) =>
        var after := before + [h];
        assert Followed(clicks[..k]) == after;
        assert UrlAfter(start, after) == BASE_URL + h;
        ElementsAppend(before, h);
    }
  }

  /** One attempt that did not end the run: a failed fetch leaves URL, visited set and
      count as they were, so the next attempt retries the same URL; a loaded page had
      a selectable link, which was clean, and the run recorded it as visited, moved to
      the site origin followed by it and counted one more visit; such a page did not
      link to the target. A missing content
      block never lets the run continue. */
  lemma StepFacts(start: string, network: (nat, string) -> Response, extract: string -> Option<seq<string>>,
                  trace: seq<State>, clicks: seq<Option<string>>, i: nat)
    requires IsRun(start, network, extract, trace, clicks)
    requires i < |clicks|
    ensures !PageAt(network, extract, i, trace[i]).MissingBody?
    ensures PageAt(network, extract, i, trace[i]).NoContent? ==> trace[i + 1] == trace[i] && clicks[i] == None
    ensures PageAt(network, extract, i, trace[i]).Links? ==>
      TARGET !in PageAt(network, extract, i, trace[i]).hrefs && clicks[i].Some? && clicks[i].value in PageAt(network, extract, i, trace[i]).hrefs && IsClean(clicks[i].value) &&
      trace[i + 1] == State(BASE_URL + clicks[i].value, trace[i].visited + {clicks[i].value}, trace[i].count + 1)
  {
    RunStepAt(start, network, extract, trace, clicks, i);
    var resp := network(i, trace[i].url);
    if PageAt(network, extract, i, trace[i]).Links? {
      CleanedLinksSpec(extract(resp.text).value);
    }
  }

  /** The visited set only grows along a run. */
  lemma {:induction false} VisitedGrows(start: string, network: (nat, string) -> Response, extract: string -> Option<seq<string>>,
                                        trace: seq<State>, clicks: seq<Option<string>>, j: nat, k: nat)
    requires IsRun(start, network, extract, trace, clicks)
    requires j <= k <= |clicks|
    ensures trace[j].visited <= trace[k].visited
  {
    if j < k {
      VisitedGrows(start, network, extract, trace, clicks, j, k - 1);
      RunStepAt(start, network, extract, trace, clicks, k - 1);
    }
  }

  /** Why a run stops before its budget: the page links to the target and the current
      count is returned, the page has no candidate link, or the page lacks its content
      block. */
  lemma HaltReasons(network: (nat, string) -> Response, extract: string -> Option<seq<string>>,
                    trace: seq<State>, o: Outcome)
    requires trace != []
    requires HaltsWith(network, extract, trace, o)
    ensures var page := PageAt(network, extract, |trace| - 1, trace[|trace| - 1]);
      match o
      case Found(n) => page.Links? && TARGET in page.hrefs && n == trace[|trace| - 1].count
      case NotFound => page == Links([])
      case Crashed => page == MissingBody
  {
  }

  /** A returned visit count is one more than the number of links followed, and lies
      between 1 and the attempt budget. */
  lemma FoundHops(start: string, network: (nat, string) -> Response, extract: string -> Option<seq<string>>,
                  trace: seq<State>, clicks: seq<Option<string>>, n: nat)
    requires IsRun(start, network, extract, trace, clicks)
    requires |clicks| < MAX_ATTEMPTS
    requires HaltsWith(network, extract, trace, Found(n))
    ensures n == 1 + |Followed(clicks)|
    ensures 1 <= n <= |clicks| + 1 <= MAX_ATTEMPTS
  {
    RunState(start, network, extract, trace, clicks, |clicks|);
    assert clicks[..|clicks|] == clicks;
  }

  /** A loaded page without candidate links is a dead end: the run stops at it and
      reports no count. */
  lemma DeadEnd(start: string, network: (nat, string) -> Response, extract: string -> Option<seq<string>>,
                trace: seq<State>, clicks: seq<Option<string>>, o: Outcome, i: nat)
    requires IsRun(start, network, extract, trace, clicks)
    requires i <= |clicks|
    requires PageAt(network, extract, i, trace[i]) == Links([])
    requires HaltsWith(network, extract, trace, o)
    ensures i == |clicks| && o == NotFound
  {
    if i < |clicks| {
      StepFacts(start, network, extract, trace, clicks, i);
    }
  }

  /** A run that neither finds the target nor meets a dead end or a broken page uses
      its whole budget: it stops after exactly MAX_ATTEMPTS attempts with no count. */
  lemma ExhaustsBudget(start: string, network: (nat, string) -> Response, extract: string -> Option<seq<string>>,
                       trace: seq<State>, clicks: seq<Option<string>>, o: Outcome)
    requires IsRun(start, network, extract, trace, clicks)
    requires |clicks| <= MAX_ATTEMPTS
    requires |clicks| == MAX_ATTEMPTS ==> o == NotFound
    requires |clicks| < MAX_ATTEMPTS ==> HaltsWith(network, extract, trace, o)
    requires forall i: nat, url: string :: LoadPage(network(i, url), extract) != MissingBody
    requires forall i: nat, url: string :: LoadPage(network(i, url), extract) != Links([])
    requires forall i: nat, url: string :: !(LoadPage(network(i, url), extract).Links? && TARGET in LoadPage(network(i, url), extract).hrefs)
    ensures |clicks| == MAX_ATTEMPTS && o == NotFound
  {
    if |clicks| < MAX_ATTEMPTS {
      HaltReasons(network, extract, trace, o);
    }
  }

  /** The pages of a chain A, B, C at the attempts that load them: A, loaded first,
      has B as its only link, B, loaded second, has C as its only link, and C, loaded
      third, links to the target. */
  ghost predicate IsChain(start: string, network: (nat, string) -> Response, extract: string -> Option<seq<string>>,
                          b: string, c: string, cLinks: seq<string>)
  {
    b != TARGET && c != TARGET && TARGET in cLinks &&
    LoadPage(network(0, start), extract) == Links([b]) &&
    LoadPage(network(1, BASE_URL + b), extract) == Links([c]) &&
    LoadPage(network(2, BASE_URL + c), extract) == Links(cLinks)
  }

  /** An attempt that continues from a page whose only link is `x` follows `x`. */
  lemma OnlyLinkFollowed(start: string, network: (nat, string) -> Response, extract: string -> Option<seq<string>>,
                         trace: seq<State>, clicks: seq<Option<string>>, i: nat, x: string)
    requires IsRun(start, network, extract, trace, clicks)
    requires i < |clicks|
    requires PageAt(network, extract, i, trace[i]) == Links([x])
    ensures trace[i + 1] == State(BASE_URL + x, trace[i].visited + {x}, trace[i].count + 1)
  {
    StepFacts(start, network, extract, trace, clicks, i);
  }

  /** In the chain, the run's first attempts load A, then B, then C. */
  lemma ChainPages(start: string, network: (nat, string) -> Response, extract: string -> Option<seq<string>>,
                   b: string, c: string, cLinks: seq<string>, trace: seq<State>, clicks: seq<Option<string>>)
    requires IsChain(start, network, extract, b, c, cLinks)
    requires IsRun(start, network, extract, trace, clicks)
    ensures PageAt(network, extract, 0, trace[0]) == Links([b])
    ensures |clicks| >= 1 ==> PageAt(network, extract, 1, trace[1]) == Links([c])
    ensures |clicks| >= 2 ==> PageAt(network, extract, 2, trace[2]) == Links(cLinks) && trace[2].count == 3
  {
    assert trace[0] == Init(start);
    if |clicks| >= 1 {
      OnlyLinkFollowed(start, network, extract, trace, clicks, 0, b);
    }
    if |clicks| >= 2 {
      OnlyLinkFollowed(start, network, extract, trace, clicks, 1, c);
    }
  }

  /** A chain of pages A, B, C where A's only link is B, B's only link is C and C links
      to the target: every run from A stops at C, the first page that links to the
      target, and reports three visits, since the target page itself is never fetched. */
  lemma ChainReachesTarget(start: string, network: (nat, string) -> Response, extract: string -> Option<seq<string>>,
                           b: string, c: string, cLinks: seq<string>,
                           trace: seq<State>, clicks: seq<Option<string>>, o: Outcome)
    requires IsChain(start, network, extract, b, c, cLinks)
    requires IsRun(start, network, extract, trace, clicks)
    requires |clicks| <= MAX_ATTEMPTS
    requires |clicks| == MAX_ATTEMPTS ==> o == NotFound
    requires |clicks| < MAX_ATTEMPTS ==> HaltsWith(network, extract, trace, o)
    ensures |clicks| == 2 && o == Found(3)
  {
    ChainPages(start, network, extract, b, c, cLinks, trace, clicks);
    if |clicks| > 2 {
      StepFacts(start, network, extract, trace, clicks, 2);
      assert false;
    }
    HaltReasons(network, extract, trace, o);
  }


}
