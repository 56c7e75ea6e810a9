/** `fetch_updates` and the three `fetch_*` methods of src/github_client.py.
    The HTTP call (`requests.get` followed by `raise_for_status` and `.json()`)
    is an oracle: a function from the request to either the decoded list of
    records or the failing status. */
module Fetcher {
  import opened Outcomes
  import opened JsonValues
  import opened DateFilter
  import IsoTime

  /** The three sub-resources of one update bundle. */
  datatype Endpoint = Commits | Issues | PullRequests

  /** A GET request: URL and query parameters in insertion order. A parameter
      whose value is `None` is left out of the query string by the transport. */
  datatype Request = Request(url: string, params: seq<(string, Option<string>)>)

  /** The oracle's answer: the decoded JSON list, or the status that made
      `raise_for_status` raise. */
  datatype Response = Success(body: seq<Json>) | HttpError(status: int)

  /** The result of `fetch_updates`: one filtered list per sub-resource. */
  datatype UpdateBundle = UpdateBundle(commits: seq<Json>, issues: seq<Json>, pullRequests: seq<Json>)

  const ApiRepos: string := "https://api.github.com/repos/"

  /** The key of the sub-resource in the bundle, used to name it in errors. */
  function Name(e: Endpoint): string {
    match e
    case Commits => "commits"
    case Issues => "issues"
    case PullRequests => "pull_requests"
  }

  /** The last segment of the sub-resource's URL. */
  function UrlSuffix(e: Endpoint): string {
    match e
    case Commits => "commits"
    case Issues => "issues"
    case PullRequests => "pulls"
  }

  /** The field whose date decides whether a record of this sub-resource is kept. */
  function DatePath(e: Endpoint): string {
    match e
    case Commits => "commit.author.date"
    case Issues => "closed_at"
    case PullRequests => "closed_at"
  }

  /** Commit queries carry `since` and `until` only when they are truthy. */
  function CommitParams(since: Option<string>, until: Option<string>): (p: seq<(string, Option<string>)>)
    ensures ("since", since) in p <==> Given(since)
    ensures ("until", until) in p <==> Given(until)
    ensures forall i :: 0 <= i < |p| ==> p[i] in [("since", since), ("until", until)] && Given(p[i].1)
  {
    (if Given(since) then [("since", since)] else [])
    + (if Given(until) then [("until", until)] else [])
  }

  /** Issue and pull-request queries always ask for closed items and always
      carry the `since` and `until` keys, whatever their values. */
  function ClosedParams(since: Option<string>, until: Option<string>): (p: seq<(string, Option<string>)>)
    ensures ("state", Some("closed")) in p && ("since", since) in p && ("until", until) in p
    ensures |p| == 3
  {
    [("state", Some("closed")), ("since", since), ("until", until)]
  }

  function RequestFor(repo: string, e: Endpoint, since: Option<string>, until: Option<string>): (q: Request)
    ensures q.url == ApiRepos + repo + "/" + UrlSuffix(e)
    ensures e == Commits ==> q.params == CommitParams(since, until)
    ensures e != Commits ==> q.params == ClosedParams(since, until)
    ensures e == Commits <==> ("state", Some("closed")) !in q.params
  {
    Request(ApiRepos + repo + "/" + UrlSuffix(e),
            if e == Commits then CommitParams(since, until) else ClosedParams(since, until))
  }

  /** `fetch_commits` / `fetch_issues` / `fetch_pull_requests`: one request,
      a failing status raises, otherwise the body is filtered by date. */
  function FetchFrom(repo: string, e: Endpoint, since: Option<string>, until: Option<string>,
                     oracle: Request -> Response): (r: Result<seq<Json>>)
    ensures oracle(RequestFor(repo, e, since, until)).HttpError? ==>
      r == Err(RetrievalFailed(Name(e), oracle(RequestFor(repo, e, since, until)).status))
    ensures oracle(RequestFor(repo, e, since, until)).Success? ==>
      r == FilterByDate(oracle(RequestFor(repo, e, since, until)).body, DatePath(e), since, until)
  {
    match oracle(RequestFor(repo, e, since, until))
    case HttpError(status) => Err(RetrievalFailed(Name(e), status))
    case Success(body) => FilterByDate(body, DatePath(e), since, until)
  }

  /** `fetch_updates(repo, since, until)`: commits, then issues, then pull
      requests; the first failure aborts the whole bundle. */
  function FetchUpdates(repo: string, since: Option<string>, until: Option<string>,
                        oracle: Request -> Response): (r: Result<UpdateBundle>)
    ensures r.Ok? <==>
      && FetchFrom(repo, Commits, since, until, oracle).Ok?
      && FetchFrom(repo, Issues, since, until, oracle).Ok?
      && FetchFrom(repo, PullRequests, since, until, oracle).Ok?
    ensures r.Ok? ==>
      && r.value.commits == FetchFrom(repo, Commits, since, until, oracle).value
      && r.value.issues == FetchFrom(repo, Issues, since, until, oracle).value
      && r.value.pullRequests == FetchFrom(repo, PullRequests, since, until, oracle).value
  {
    match FetchFrom(repo, Commits, since, until, oracle)
    case Err(e) => Err(e)
    case Ok(commits) =>
      match FetchFrom(repo, Issues, since, until, oracle)
      case Err(e) => Err(e)
      case Ok(issues) =>
        match FetchFrom(repo, PullRequests, since, until, oracle)
        case Err(e) => Err(e)
        case Ok(pulls) => Ok(UpdateBundle(commits, issues, pulls))
  }

  /** A failing status on any of the three requests means no bundle at all, and
      when the requests before it succeeded the error names that sub-resource. */
  lemma AnyFailureAborts(repo: string, since: Option<string>, until: Option<string>,
                         oracle: Request -> Response, e: Endpoint)
    requires oracle(RequestFor(repo, e, since, until)).HttpError?
    ensures FetchUpdates(repo, since, until, oracle).Err?
    ensures (forall f :: Before(f, e) ==> FetchFrom(repo, f, since, until, oracle).Ok?) ==>
      FetchUpdates(repo, since, until, oracle).error
        == RetrievalFailed(Name(e), oracle(RequestFor(repo, e, since, until)).status)
  {
    var failure := RetrievalFailed(Name(e), oracle(RequestFor(repo, e, since, until)).status);
    assert FetchFrom(repo, e, since, until, oracle) == Err(failure);
    if e == Issues {
      assert Before(Commits, Issues);
    } else if e == PullRequests {
      assert Before(Commits, PullRequests) && Before(Issues, PullRequests);
    }
  }

  /** One sub-resource fetched: a failing status is that sub-resource's
      retrieval error, and a successful fetch is an ordered selection of the
      response holding exactly its records dated inside the window. */
  lemma FetchFromWindow(repo: string, e: Endpoint, since: Option<string>, until: Option<string>,
                        oracle: Request -> Response)
    ensures var answer := oracle(RequestFor(repo, e, since, until));
      answer.HttpError? ==> FetchFrom(repo, e, since, until, oracle) == Err(RetrievalFailed(Name(e), answer.status))
    ensures var answer := oracle(RequestFor(repo, e, since, until));
      var r := FetchFrom(repo, e, since, until, oracle);
      r.Ok? ==>
        && answer.Success? && ParseBound(since).Ok? && ParseBound(until).Ok?
        && IsSubsequence(r.value, answer.body)
        && (forall x :: x in r.value ==> multiset(r.value)[x] == multiset(answer.body)[x])
        && forall x :: x in r.value <==>
          && x in answer.body
          && ItemDate(x, DatePath(e)).Ok? && ItemDate(x, DatePath(e)).value.Some?
          && InWindow(IsoTime.Instant(ItemDate(x, DatePath(e)).value.value), ParseBound(since).value, ParseBound(until).value)
  {
    var answer := oracle(RequestFor(repo, e, since, until));
    if answer.Success? && FilterByDate(answer.body, DatePath(e), since, until).Ok? {
      FilterWindow(answer.body, DatePath(e), since, until);
    }
  }

  /** The bundle exists exactly when every one of the three requests is
      answered with a body and every body filters without raising. */
  lemma UpdatesSucceedIff(repo: string, since: Option<string>, until: Option<string>, oracle: Request -> Response)
    ensures FetchUpdates(repo, since, until, oracle).Ok? <==>
      forall e: Endpoint :: Answered(repo, e, since, until, oracle)
  {
    forall e: Endpoint
      ensures FetchFrom(repo, e, since, until, oracle).Ok? <==> Answered(repo, e, since, until, oracle)
    {
      FetchFromOkIff(repo, e, since, until, oracle);
    }
  }

  /** The request for `e` succeeded and its items could be filtered. */
  predicate Answered(repo: string, e: Endpoint, since: Option<string>, until: Option<string>,
                     oracle: Request -> Response) {
    && oracle(RequestFor(repo, e, since, until)).Success?
    && FilterByDate(oracle(RequestFor(repo, e, since, until)).body, DatePath(e), since, until).Ok?
  }

  lemma FetchFromOkIff(repo: string, e: Endpoint, since: Option<string>, until: Option<string>,
                       oracle: Request -> Response)
    ensures FetchFrom(repo, e, since, until, oracle).Ok? <==> Answered(repo, e, since, until, oracle)
  {
  }

  /** `f` is requested before `e`. */
  predicate Before(f: Endpoint, e: Endpoint) {
    (f == Commits && e != Commits) || (f == Issues && e == PullRequests)
  }

  /** Each list of a bundle is an ordered selection of its own response only,
      filtered by its own date field against the same window. */
  lemma BundleFromOwnResponses(repo: string, since: Option<string>, until: Option<string>,
                               oracle: Request -> Response, e: Endpoint)
    requires FetchUpdates(repo, since, until, oracle).Ok?
    ensures oracle(RequestFor(repo, e, since, until)).Success?
    ensures ParseBound(since).Ok? && ParseBound(until).Ok?
    ensures var list := Pick(FetchUpdates(repo, since, until, oracle).value, e);
      var body := oracle(RequestFor(repo, e, since, until)).body;
      && IsSubsequence(list, body)
      && (forall x :: x in list ==> multiset(list)[x] == multiset(body)[x])
      && forall x :: x in list <==>
        && x in body
        && ItemDate(x, DatePath(e)).Ok? && ItemDate(x, DatePath(e)).value.Some?
        && InWindow(IsoTime.Instant(ItemDate(x, DatePath(e)).value.value), ParseBound(since).value, ParseBound(until).value)
  {
    var q := RequestFor(repo, e, since, until);
    if oracle(q).HttpError? {
      AnyFailureAborts(repo, since, until, oracle, e);
    } else {
      FilterWindow(oracle(q).body, DatePath(e), since, until);
    }
  }

  /** Once the bound strings are known to parse to `lo` and `hi`, every record
      of a bundle list is dated by its own field inside that window. */
  lemma ListedWithin(repo: string, since: Option<string>, until: Option<string>, oracle: Request -> Response,
                     b: UpdateBundle, lo: Option<int>, hi: Option<int>, e: Endpoint)
    requires FetchUpdates(repo, since, until, oracle) == Ok(b)
    requires ParseBound(since) == Ok(lo) && ParseBound(until) == Ok(hi)
    ensures forall x :: x in Pick(b, e) ==>
      && ItemDate(x, DatePath(e)).Ok? && ItemDate(x, DatePath(e)).value.Some?
      && InWindow(IsoTime.Instant(ItemDate(x, DatePath(e)).value.value), lo, hi)
  {
    BundleFromOwnResponses(repo, since, until, oracle, e);
  }

  /** The list of a bundle that belongs to a sub-resource. */
  function Pick(b: UpdateBundle, e: Endpoint): seq<Json> {
    match e
    case Commits => b.commits
    case Issues => b.issues
    case PullRequests => b.pullRequests
  }
}
