/**
 * `TourismDataScraper` and its retry loop `scrape_from_url`. The network is
 * left out: each attempt's outcome is given, either a request that failed
 * (a timeout, a connection error, an HTTP error status or any other
 * exception before a response) or the response the strategies work on.
 */
module Scraping {
  import opened Strings
  import opened Tables
  import opened Extraction
  import Cleaner
  import Coordinates

  /** The four browsers the scraper presents itself as. */
  datatype Agent = ChromeWindows | ChromeMac | ChromeLinux | FirefoxWindows

  /** The `User-Agent` text of each browser. */
  function AgentText(a: Agent): string {
    match a
    case ChromeWindows => "Mozilla/5.0 (Windows NT 10.0; Win64; x64) AppleWebKit/537.36 (KHTML, like Gecko) Chrome/120.0.0.0 Safari/537.36"
    case ChromeMac => "Mozilla/5.0 (Macintosh; Intel Mac OS X 10_15_7) AppleWebKit/537.36 (KHTML, like Gecko) Chrome/120.0.0.0 Safari/537.36"
    case ChromeLinux => "Mozilla/5.0 (X11; Linux x86_64) AppleWebKit/537.36 (KHTML, like Gecko) Chrome/120.0.0.0 Safari/537.36"
    case FirefoxWindows => "Mozilla/5.0 (Windows NT 10.0; Win64; x64; rv:121.0) Gecko/20100101 Firefox/121.0"
  }

  /** `self.user_agents`, in order. */
  function UserAgents(): seq<Agent> {
    [ChromeWindows, ChromeMac, ChromeLinux, FirefoxWindows]
  }

  /** The outcome of one attempt's request. */
  datatype Outcome = RequestFailed | Received(response: Response)

  /** The user agent and the timeout in seconds an attempt's request is sent with. */
  datatype Request = Request(userAgent: Agent, timeout: nat)

  /** The request of attempt `k`: the agents in turn, 30 seconds the first time and 60 after. */
  function RequestOf(k: nat): (q: Request)
    ensures q.userAgent in UserAgents()
  {
    Request(UserAgents()[k % |UserAgents()|], if k > 0 then 60 else 30)
  }

  /** The requests of the first `n` attempts. */
  function RequestsOf(n: nat): (qs: seq<Request>)
    ensures |qs| == n && forall k :: 0 <= k < n ==> qs[k] == RequestOf(k)
  {
    if n == 0 then [] else RequestsOf(n - 1) + [RequestOf(n - 1)]
  }

  predicate OutcomesWellFormed(outcomes: seq<Outcome>) {
    forall k :: 0 <= k < |outcomes| && outcomes[k].Received? ==> ResponseWellFormed(outcomes[k].response)
  }

  /**
   * An attempt ends the loop: the strategies give a non-empty table and
   * cleaning it does not raise. A failed request, no table, an empty table
   * or a cleaning that raises (every row dropped, or column labels that are
   * not text) all lead to the next attempt.
   */
  predicate Succeeds(url: string, o: Outcome, render: real -> string)
    requires o.Received? ==> ResponseWellFormed(o.response)
  {
    o.Received? && Cascade(url, o.response).Some?
    && |Cascade(url, o.response).value.rows| > 0 && Cleaner.CleanDefined(Cascade(url, o.response).value, render)
    && CascadeLabelsText(url, o.response)
  }

  /** The first attempt from `k` on that ends the loop, or `n` when none does. */
  function FirstSuccess(url: string, outcomes: seq<Outcome>, k: nat, n: nat, render: real -> string): (s: nat)
    requires k <= n <= |outcomes| && OutcomesWellFormed(outcomes)
    ensures k <= s <= n
    ensures s < n ==> Succeeds(url, outcomes[s], render)
    ensures forall m :: k <= m < s ==> !Succeeds(url, outcomes[m], render)
    decreases n - k
  {
    if k == n then n
    else if Succeeds(url, outcomes[k], render) then k
    else FirstSuccess(url, outcomes, k + 1, n, render)
  }

  /** The table of the first attempt that ends the loop, or none when every attempt fails. */
  function ScrapedTable(url: string, outcomes: seq<Outcome>, n: nat, render: real -> string): (df: Option<Table>)
    requires n <= |outcomes| && OutcomesWellFormed(outcomes)
    ensures df.Some? ==> WellFormed(df.value) && |df.value.rows| > 0 && Cleaner.CleanDefined(df.value, render)
  {
    var s := FirstSuccess(url, outcomes, 0, n, render);
    if s < n then Cascade(url, outcomes[s].response) else None
  }

  /** The result of `scrape_from_url` with `n` attempts: that table cleaned, or none. */
  function ScrapeSpec(url: string, outcomes: seq<Outcome>, n: nat, g: Coordinates.Gazetteers,
                      parse: string -> Option<real>, render: real -> string): Option<Table>
    requires n <= |outcomes| && OutcomesWellFormed(outcomes)
  {
    match ScrapedTable(url, outcomes, n, render)
    case None => None
    case Some(df) => Cleaner.CleanSpec(df, g, parse, render)
  }

  /** The number of requests `scrape_from_url` sends. */
  function AttemptsMade(url: string, outcomes: seq<Outcome>, n: nat, render: real -> string): (m: nat)
    requires n <= |outcomes| && OutcomesWellFormed(outcomes)
    ensures m <= n
  {
    var s := FirstSuccess(url, outcomes, 0, n, render);
    if s < n then s + 1 else n
  }

  /** One attempt after its request: the strategies' table when it is non-empty and cleaning accepts it. */
  method TryResponse(url: string, o: Outcome, render: real -> string) returns (table: Option<Table>)
    requires o.Received? ==> ResponseWellFormed(o.response)
    ensures table.Some? <==> Succeeds(url, o, render)
    ensures table.Some? ==> table == Cascade(url, o.response)
  {
    match o
    case RequestFailed =>
      return None;
    case Received(response) =>
      table := Cascade(url, response);
      if table.Some? && |table.value.rows| > 0 && Cleaner.CleanDefined(table.value, render)
         && CascadeLabelsText(url, response) {
        return table;
      }
      return None;
  }

  /**
   * `TourismDataScraper`. Of `self.headers` only the `User-Agent` entry
   * ever changes, so the field `userAgent` stands for the whole dictionary.
   */
  class Scraper {
    var userAgents: seq<Agent>
    var userAgent: Agent

    predicate Valid()
      reads this
    {
      userAgents == UserAgents()
    }

    constructor()
      ensures Valid() && userAgent == UserAgents()[0]
    {
      userAgents := UserAgents();
      userAgent := ChromeWindows;
    }

    /**
     * The retry loop of `scrape_from_url(url, max_retries)`: attempt `k`
     * sets the user agent, sends its request and runs the strategies on the
     * outcome `outcomes[k]`, until a non-empty table that cleaning accepts
     * turns up. The requests sent are returned in order.
     */
    method Attempt(url: string, maxRetries: nat, outcomes: seq<Outcome>, render: real -> string)
      returns (df: Option<Table>, requests: seq<Request>)
      requires Valid() && maxRetries <= |outcomes| && OutcomesWellFormed(outcomes)
      modifies this
      ensures Valid() && userAgents == old(userAgents)
      ensures df == ScrapedTable(url, outcomes, maxRetries, render)
      ensures requests == RequestsOf(AttemptsMade(url, outcomes, maxRetries, render))
      ensures userAgent == if requests == [] then old(userAgent) else requests[|requests| - 1].userAgent
    {
      requests := [];
      for attempt := 0 to maxRetries
        invariant Valid() && userAgents == old(userAgents)
        invariant requests == RequestsOf(attempt)
        invariant userAgent == if attempt == 0 then old(userAgent) else RequestOf(attempt - 1).userAgent
        invariant FirstSuccess(url, outcomes, attempt, maxRetries, render) == FirstSuccess(url, outcomes, 0, maxRetries, render)
      {
        var request := SetAgent(attempt);
        requests := requests + [request];
        assert requests == RequestsOf(attempt + 1);
        var table := TryResponse(url, outcomes[attempt], render);
        if table.Some? {
          SuccessFrom(url, outcomes, maxRetries, attempt, render);
          return table, requests;
        }
        SkipFailure(url, outcomes, maxRetries, attempt, render);
      }
      NoSuccessLeft(url, outcomes, maxRetries, render);
      df := None;
    }

    /** Attempt `attempt` picks its user agent and timeout; only the user agent is kept. */
    method SetAgent(attempt: nat) returns (request: Request)
      requires Valid()
      modifies this
      ensures Valid() && userAgents == old(userAgents)
      ensures request == RequestOf(attempt) && userAgent == request.userAgent
    {
      userAgent := userAgents[attempt % |userAgents|];
      var timeout := if attempt > 0 then 60 else 30;
      request := Request(userAgent, timeout);
    }

    /**
     * `scrape_from_url`: the table the loop ends with, cleaned with the
     * gazetteers `extract_coordinates` builds. `maxRetries` is 3 unless the
     * caller passes another value (`max_retries=3`).
     */
    method ScrapeFromUrl(url: string, maxRetries: nat, outcomes: seq<Outcome>,
                         parse: string -> Option<real>, render: real -> string)
      returns (result: Option<Table>, requests: seq<Request>)
      requires Valid() && maxRetries <= |outcomes| && OutcomesWellFormed(outcomes)
      modifies this
      ensures Valid()
      ensures result == ScrapeSpec(url, outcomes, maxRetries, Coordinates.Indonesia(), parse, render)
      ensures requests == RequestsOf(AttemptsMade(url, outcomes, maxRetries, render))
      ensures userAgent == if requests == [] then old(userAgent) else requests[|requests| - 1].userAgent
    {
      var df;
      df, requests := Attempt(url, maxRetries, outcomes, render);
      if df.Some? {
        result := Cleaner.Clean(df.value, parse, render);
      } else {
        result := None;
      }
    }
  }

  /** The loop ends at attempt `a` when the first attempt that ends it from `a` on is the first overall and `a` succeeds. */
  lemma SuccessFrom(url: string, outcomes: seq<Outcome>, n: nat, a: nat, render: real -> string)
    requires a < n <= |outcomes| && OutcomesWellFormed(outcomes)
    requires FirstSuccess(url, outcomes, a, n, render) == FirstSuccess(url, outcomes, 0, n, render)
    requires Succeeds(url, outcomes[a], render)
    ensures ScrapedTable(url, outcomes, n, render) == Cascade(url, outcomes[a].response)
    ensures AttemptsMade(url, outcomes, n, render) == a + 1
  {
  }

  /** An attempt that does not end the loop passes the search on to the next one. */
  lemma SkipFailure(url: string, outcomes: seq<Outcome>, n: nat, a: nat, render: real -> string)
    requires a < n <= |outcomes| && OutcomesWellFormed(outcomes) && !Succeeds(url, outcomes[a], render)
    ensures FirstSuccess(url, outcomes, a, n, render) == FirstSuccess(url, outcomes, a + 1, n, render)
  {
  }

  /** When the search from `n` on is the whole search, no attempt ends the loop. */
  lemma NoSuccessLeft(url: string, outcomes: seq<Outcome>, n: nat, render: real -> string)
    requires n <= |outcomes| && OutcomesWellFormed(outcomes)
    requires FirstSuccess(url, outcomes, n, n, render) == FirstSuccess(url, outcomes, 0, n, render)
    ensures ScrapedTable(url, outcomes, n, render).None?
    ensures AttemptsMade(url, outcomes, n, render) == n
  {
  }

  /** No attempt succeeds: all `n` requests are sent and no table is found. */
  lemma NoSuccess(url: string, outcomes: seq<Outcome>, n: nat, render: real -> string)
    requires n <= |outcomes| && OutcomesWellFormed(outcomes)
    requires forall m :: 0 <= m < n ==> !Succeeds(url, outcomes[m], render)
    ensures ScrapedTable(url, outcomes, n, render).None?
    ensures AttemptsMade(url, outcomes, n, render) == n
  {
  }

  /** Attempt `k` uses agent `k mod 4`, and only the first attempt has the 30-second timeout. */
  lemma RequestRotation(k: nat)
    ensures RequestOf(k).userAgent == UserAgents()[k % 4]
    ensures RequestOf(k).timeout == 30 <==> k == 0
    ensures RequestOf(k + 4).userAgent == RequestOf(k).userAgent
  {
  }

  /** The loop stops at the first attempt that ends it, so no later outcome matters. */
  lemma LaterOutcomesIgnored(url: string, outcomes: seq<Outcome>, other: seq<Outcome>, n: nat, render: real -> string)
    requires n <= |outcomes| == |other| && OutcomesWellFormed(outcomes) && OutcomesWellFormed(other)
    requires FirstSuccess(url, outcomes, 0, n, render) < n
    requires outcomes[..FirstSuccess(url, outcomes, 0, n, render) + 1] == other[..FirstSuccess(url, outcomes, 0, n, render) + 1]
    ensures ScrapedTable(url, other, n, render) == ScrapedTable(url, outcomes, n, render)
  {
    var s := FirstSuccess(url, outcomes, 0, n, render);
    forall m | 0 <= m <= s
      ensures other[m] == outcomes[m]
    {
      assert other[m] == other[..s + 1][m];
    }
    FirstSuccessSame(url, outcomes, other, 0, n, s, render);
    assert other[s] == outcomes[s];
  }

  lemma {:induction false} FirstSuccessSame(url: string, outcomes: seq<Outcome>, other: seq<Outcome>, k: nat, n: nat, s: nat, render: real -> string)
    requires k <= n <= |outcomes| == |other| && OutcomesWellFormed(outcomes) && OutcomesWellFormed(other)
    requires s == FirstSuccess(url, outcomes, k, n, render) < n
    requires forall m :: k <= m <= s ==> other[m] == outcomes[m]
    ensures FirstSuccess(url, other, k, n, render) == s
    decreases n - k
  {
    if k < s {
      FirstSuccessSame(url, outcomes, other, k + 1, n, s, render);
    }
  }

  /** When every request fails the result is none after all `n` attempts. */
  lemma AllFailedGivesNone(url: string, outcomes: seq<Outcome>, n: nat, render: real -> string)
    requires n <= |outcomes| && OutcomesWellFormed(outcomes)
    requires forall k :: 0 <= k < n ==> outcomes[k] == RequestFailed
    ensures ScrapedTable(url, outcomes, n, render).None?
    ensures AttemptsMade(url, outcomes, n, render) == n
  {
    NoSuccess(url, outcomes, n, render);
  }

  /**
   * A response whose `read_html` table is chosen but has numbered or
   * multi-level column labels never ends the loop: cleaning raises, and the
   * later strategies are not tried.
   */
  lemma UnlabelledTableFails(url: string, o: Outcome, render: real -> string)
    requires o.Received? && ResponseWellFormed(o.response) && ChosenByReadHtml(url, o.response)
    requires !o.response.htmlTextLabels[LongestUsable(o.response.htmlTables.value, |o.response.htmlTables.value|).value]
    ensures !Succeeds(url, o, render)
  {
  }

  /** When every response is of that kind, all `n` requests are sent and the result is none. */
  lemma UnlabelledTablesGiveNone(url: string, outcomes: seq<Outcome>, n: nat, render: real -> string)
    requires n <= |outcomes| && OutcomesWellFormed(outcomes)
    requires forall k :: 0 <= k < n ==> outcomes[k].Received? && !CascadeLabelsText(url, outcomes[k].response)
    ensures ScrapedTable(url, outcomes, n, render).None?
    ensures AttemptsMade(url, outcomes, n, render) == n
  {
    NoSuccess(url, outcomes, n, render);
  }

  /** A first attempt whose strategies give a cleanable non-empty table ends the loop after one request. */
  lemma FirstAttemptSucceeds(url: string, outcomes: seq<Outcome>, n: nat, render: real -> string)
    requires 0 < n <= |outcomes| && OutcomesWellFormed(outcomes) && Succeeds(url, outcomes[0], render)
    ensures AttemptsMade(url, outcomes, n, render) == 1
    ensures ScrapedTable(url, outcomes, n, render) == Cascade(url, outcomes[0].response)
  {
  }
}
