/**
 * commitListRoute (src/pages/api/commit/list.ts): the session guard, the mock
 * switch, then discovery, the per-repository history fetches, the sha merge and
 * the final sort.
 *
 * The session, the USE_MOCK environment variable and the provider's endpoint are
 * parameters; so is the clock, through `sinceOf`, which stands for
 * `dayjs().add(-quantity, type).format(...)`.
 */
module CommitListRoute {
  import opened Wrappers
  import opened Commits
  import opened Pagination
  import opened Aggregation
  import Mock

  /** The `user` of the iron-session data (typings.d.ts). */
  datatype SessionUser = SessionUser(
    accessToken: string,
    avatarUrl: string,
    url: string,
    name: string,
    email: Option<string>)

  datatype SinceUnit = Day | Week | Month | Year

  datatype Since = Since(unit: SinceUnit, quantity: int)

  /** The request body. */
  datatype CommitListParam = CommitListParam(since: Since)

  /** What the route writes: `status(401).end()` or `status(200).json({ commits })`. */
  datatype Response = Unauthorized | Ok(commits: seq<ResponseCommit>)

  function StatusCode(r: Response): int {
    match r
    case Unauthorized => 401
    case Ok(_) => 200
  }

  /** JavaScript truthiness of an optional string: absent and "" are falsy. */
  predicate Truthy(s: Option<string>) {
    s.Some? && s.value != ""
  }

  /** The route gets past both 401 guards: there is a user and the user has an email. */
  predicate Authorized(session: Option<SessionUser>) {
    session.Some? && Truthy(session.value.email)
  }

  /** Every repository's ref pagination ends. */
  ghost predicate AllHistoriesEnd(api: HistoryApi, token: string, repos: seq<RepositoryRef>, email: string, since: string) {
    forall i :: 0 <= i < |repos| ==> HistoryEnds(api, token, FirstHistoryQuery(repos[i], email, since))
  }

  /** The records of every repository, in repository order (the order Promise.all keeps). */
  ghost function AllRepositoryCommits(api: HistoryApi, token: string, repos: seq<RepositoryRef>, email: string, since: string): seq<Commit>
    requires AllHistoriesEnd(api, token, repos, email, since)
  {
    if repos == [] then []
    else
      AllRepositoryCommits(api, token, repos[..|repos| - 1], email, since)
      + RepositoryCommits(api, token, repos[|repos| - 1], email, since)
  }

  /** The number of history requests the fetches of repos make. */
  ghost function HistoryRequests(api: HistoryApi, token: string, repos: seq<RepositoryRef>, email: string, since: string): nat
    requires AllHistoriesEnd(api, token, repos, email, since)
  {
    if repos == [] then 0
    else
      HistoryRequests(api, token, repos[..|repos| - 1], email, since)
      + |HistoryLog(api, token, FirstHistoryQuery(repos[|repos| - 1], email, since))|
  }

  /** `Array.prototype.flat` on a list of lists. */
  function Flat(css: seq<seq<Commit>>): seq<Commit> {
    if css == [] then [] else Flat(css[..|css| - 1]) + css[|css| - 1]
  }

  /** The provider answers every pagination the route starts with a last page. */
  ghost predicate ProviderTerminates(session: Option<SessionUser>, useMock: Option<string>, body: CommitListParam,
                                     sinceOf: Since -> string, discoveryApi: DiscoveryApi, historyApi: HistoryApi)
  {
    Authorized(session) && !Truthy(useMock) ==>
      var user := session.value;
      && DiscoveryEnds(discoveryApi, user.accessToken, user.name)
      && AllHistoriesEnd(historyApi, user.accessToken, ContributedRepositories(discoveryApi, user.accessToken, user.name),
                         user.email.value, sinceOf(body.since))
  }

  /**
   * The response, and the number of requests sent to the provider. The name of
   * the session user is the login the discovery query asks about.
   */
  method HandleCommitList(session: Option<SessionUser>, useMock: Option<string>, body: CommitListParam,
                          sinceOf: Since -> string, discoveryApi: DiscoveryApi, historyApi: HistoryApi)
    returns (response: Response, upstreamRequests: nat)
    requires ProviderTerminates(session, useMock, body, sinceOf, discoveryApi, historyApi)
    ensures StatusCode(response) == if Authorized(session) then 200 else 401
    ensures !Authorized(session) ==> response == Unauthorized && upstreamRequests == 0
    ensures Authorized(session) && Truthy(useMock) ==> response == Ok(Mock.MockData) && upstreamRequests == 0
    ensures Authorized(session) && !Truthy(useMock) ==>
              var user := session.value;
              var repos := ContributedRepositories(discoveryApi, user.accessToken, user.name);
              var since := sinceOf(body.since);
              && response == Ok(SortByDateDesc(Merged(AllRepositoryCommits(historyApi, user.accessToken, repos, user.email.value, since))))
              && upstreamRequests == |DiscoveryLog(discoveryApi, user.accessToken, user.name)|
                                     + HistoryRequests(historyApi, user.accessToken, repos, user.email.value, since)
  {
    if session.None? {
      return Unauthorized, 0;
    }
    var user := session.value;
    if !Truthy(user.email) {
      return Unauthorized, 0;
    }
    if Truthy(useMock) {
      return Ok(Mock.MockData), 0;
    }
    var email := user.email.value;
    var since := sinceOf(body.since);
    var contributedRepositories, discoveryQueries := DiscoverContributedRepositories(discoveryApi, user.accessToken, user.name);
    DiscoveryChainUnique(discoveryApi, user.accessToken, user.name, discoveryQueries, DiscoveryLog(discoveryApi, user.accessToken, user.name));
    var commitsList, historyRequests := FetchAllRepositoryCommits(historyApi, user.accessToken, contributedRepositories, email, since);
    var values := MergeBySha(Flat(commitsList));
    response := Ok(SortByDateDesc(values));
    upstreamRequests := |discoveryQueries| + historyRequests;
  }

  /**
   * `Promise.all(contributedRepositories.map(...))`: the commits of every
   * repository, in repository order, and the number of history requests made.
   */
  method FetchAllRepositoryCommits(historyApi: HistoryApi, token: string, repos: seq<RepositoryRef>, email: string, since: string)
    returns (commitsList: seq<seq<Commit>>, historyRequests: nat)
    requires AllHistoriesEnd(historyApi, token, repos, email, since)
    ensures |commitsList| == |repos|
    ensures forall i :: 0 <= i < |repos| ==> commitsList[i] == RepositoryCommits(historyApi, token, repos[i], email, since)
    ensures Flat(commitsList) == AllRepositoryCommits(historyApi, token, repos, email, since)
    ensures historyRequests == HistoryRequests(historyApi, token, repos, email, since)
  {
    commitsList := [];
    historyRequests := 0;
    for i := 0 to |repos|
      invariant |commitsList| == i
      invariant ListsAreRepositoryCommits(historyApi, token, repos, email, since, commitsList)
      invariant AllHistoriesEnd(historyApi, token, repos[..i], email, since)
      invariant Flat(commitsList) == AllRepositoryCommits(historyApi, token, repos[..i], email, since)
      invariant historyRequests == HistoryRequests(historyApi, token, repos[..i], email, since)
    {
      var repository := repos[i];
      var commits, queries := FetchEachRepositoryCommits(historyApi, repository, token, email, since);
      var first := FirstHistoryQuery(repository, email, since);
      HistoryChainUnique(historyApi, token, first, queries, HistoryLog(historyApi, token, first));
      RepositoriesStep(historyApi, token, repos, email, since, i);
      ListsStep(historyApi, token, repos, email, since, commitsList, commits);
      FlatAppend(commitsList, commits);
      commitsList := commitsList + [commits];
      historyRequests := historyRequests + |queries|;
    }
    assert repos[..|repos|] == repos;
  }

  /** List k of css is the records of repository k, for every list css holds. */
  ghost predicate ListsAreRepositoryCommits(api: HistoryApi, token: string, repos: seq<RepositoryRef>, email: string, since: string,
                                            css: seq<seq<Commit>>)
    requires AllHistoriesEnd(api, token, repos, email, since)
  {
    |css| <= |repos| && forall k :: 0 <= k < |css| ==> css[k] == RepositoryCommits(api, token, repos[k], email, since)
  }

  lemma ListsStep(api: HistoryApi, token: string, repos: seq<RepositoryRef>, email: string, since: string,
                  css: seq<seq<Commit>>, cs: seq<Commit>)
    requires AllHistoriesEnd(api, token, repos, email, since)
    requires ListsAreRepositoryCommits(api, token, repos, email, since, css) && |css| < |repos|
    requires cs == RepositoryCommits(api, token, repos[|css|], email, since)
    ensures ListsAreRepositoryCommits(api, token, repos, email, since, css + [cs])
  {
  }

  /** One repository more: its records and its requests come last. */
  lemma RepositoriesStep(api: HistoryApi, token: string, repos: seq<RepositoryRef>, email: string, since: string, i: nat)
    requires i < |repos| && AllHistoriesEnd(api, token, repos, email, since)
    ensures AllHistoriesEnd(api, token, repos[..i + 1], email, since)
    ensures AllRepositoryCommits(api, token, repos[..i + 1], email, since)
            == AllRepositoryCommits(api, token, repos[..i], email, since) + RepositoryCommits(api, token, repos[i], email, since)
    ensures HistoryRequests(api, token, repos[..i + 1], email, since)
            == HistoryRequests(api, token, repos[..i], email, since)
               + |HistoryLog(api, token, FirstHistoryQuery(repos[i], email, since))|
  {
    assert repos[..i + 1][..i] == repos[..i];
  }

  lemma FlatAppend(css: seq<seq<Commit>>, cs: seq<Commit>)
    ensures Flat(css + [cs]) == Flat(css) + cs
  {
    assert (css + [cs])[..|css|] == css;
  }

  /**
   * The commits the route answers with: latest first, a permutation of the
   * merged entries, with the entries of one date in their insertion order, and
   * one entry for each sha of the fetched records.
   */
  lemma {:induction false} ResponseProperties(records: seq<Commit>)
    ensures DescendingByDate(SortByDateDesc(Merged(records)))
    ensures multiset(SortByDateDesc(Merged(records))) == multiset(Merged(records))
    ensures forall d :: Groups.Members(SortByDateDesc(Merged(records)), DateOf, d) == Groups.Members(Merged(records), DateOf, d)
    ensures forall i :: 0 <= i < |records| ==>
              exists k :: 0 <= k < |SortByDateDesc(Merged(records))| && SortByDateDesc(Merged(records))[k].sha == records[i].sha
  {
    var m := Merged(records);
    var r := SortByDateDesc(m);
    SortIsDescending(m);
    SortIsPermutation(m);
    forall d ensures Groups.Members(r, DateOf, d) == Groups.Members(m, DateOf, d) {
      SortIsStable(m, d);
    }
    MergedCoversInput(records);
    forall i | 0 <= i < |records|
      ensures exists k :: 0 <= k < |r| && r[k].sha == records[i].sha
    {
      var j :| 0 <= j < |m| && m[j].sha == records[i].sha;
      assert m[j] in multiset(r);
      var k :| 0 <= k < |r| && r[k] == m[j];
    }
  }
}
