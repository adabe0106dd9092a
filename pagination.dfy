/**
 * The two cursor-driven loops of src/pages/api/commit/list.ts: the per-repository
 * history fetch over pages of branch refs, and the discovery of the repositories
 * the user contributed to.
 *
 * The provider's GraphQL endpoint is an oracle: a total function from the access
 * token and the query variables to the response object. Each loop returns the
 * log of the variables it sent, one entry per request, so that the cursor
 * hand-off from one request to the next can be stated.
 */
module Pagination {
  import opened Wrappers
  import opened Commits

  /** Variables of one per-repository history request. */
  datatype HistoryQuery = HistoryQuery(
    name: string,
    owner: string,
    email: string,
    since: string,
    nextCursor: Option<Cursor>)

  /** (access token, variables) -> `data.repository` of the response. */
  type HistoryApi = (string, HistoryQuery) -> Repository

  function FirstHistoryQuery(repo: RepositoryRef, email: string, since: string): HistoryQuery {
    HistoryQuery(repo.name, repo.owner.login, email, since, None)
  }

  /**
   * qs is the request log of a complete ref pagination: it starts from first (no
   * cursor), every request but the last got hasNextPage and hands its endCursor to
   * the next request, and the last request got hasNextPage = false.
   */
  predicate IsHistoryChain(api: HistoryApi, token: string, first: HistoryQuery, qs: seq<HistoryQuery>) {
    && |qs| > 0
    && qs[0] == first
    && (forall j :: 0 <= j < |qs| - 1 ==>
          && api(token, qs[j]).refs.pageInfo.hasNextPage
          && qs[j + 1] == qs[j].(nextCursor := Some(api(token, qs[j]).refs.pageInfo.endCursor)))
    && !api(token, qs[|qs| - 1]).refs.pageInfo.hasNextPage
  }

  /** The provider eventually reports that there are no more ref pages. */
  ghost predicate HistoryEnds(api: HistoryApi, token: string, first: HistoryQuery) {
    exists qs :: IsHistoryChain(api, token, first, qs)
  }

  ghost function HistoryLog(api: HistoryApi, token: string, first: HistoryQuery): (qs: seq<HistoryQuery>)
    requires HistoryEnds(api, token, first)
    ensures IsHistoryChain(api, token, first, qs)
  {
    var qs :| IsHistoryChain(api, token, first, qs); qs
  }

  /** The flattened records of every response of the log, in request order. */
  function FetchedCommits(api: HistoryApi, token: string, qs: seq<HistoryQuery>): seq<Commit> {
    if qs == [] then []
    else FetchedCommits(api, token, qs[..|qs| - 1]) + FormatCommits([api(token, qs[|qs| - 1])])
  }

  /** What fetchEachRepositoryCommits returns for repo. */
  ghost function RepositoryCommits(api: HistoryApi, token: string, repo: RepositoryRef, email: string, since: string): seq<Commit>
    requires HistoryEnds(api, token, FirstHistoryQuery(repo, email, since))
  {
    FetchedCommits(api, token, HistoryLog(api, token, FirstHistoryQuery(repo, email, since)))
  }

  /** fetchEachRepositoryCommits: request ref pages until the provider reports no next page. */
  method FetchEachRepositoryCommits(api: HistoryApi, repository: RepositoryRef, accessToken: string, email: string, since: string)
    returns (commits: seq<Commit>, queries: seq<HistoryQuery>)
    requires HistoryEnds(api, accessToken, FirstHistoryQuery(repository, email, since))
    ensures IsHistoryChain(api, accessToken, FirstHistoryQuery(repository, email, since), queries)
    ensures commits == FetchedCommits(api, accessToken, queries)
    ensures commits == RepositoryCommits(api, accessToken, repository, email, since)
  {
    ghost var log := HistoryLog(api, accessToken, FirstHistoryQuery(repository, email, since));
    commits, queries := [], [];
    var hasNext := true;
    var nextCursor: Option<Cursor> := None;
    while hasNext
      invariant |queries| <= |log| && queries == log[..|queries|]
      invariant hasNext ==> |queries| < |log|
      invariant hasNext ==> log[|queries|] == HistoryQuery(repository.name, repository.owner.login, email, since, nextCursor)
      invariant !hasNext ==> |queries| == |log|
      invariant commits == FetchedCommits(api, accessToken, queries)
      decreases |log| - |queries|
    {
      var query := HistoryQuery(repository.name, repository.owner.login, email, since, nextCursor);
      var response := api(accessToken, query);
      var formatted := FormatCommitsFromRepo([response]);
      commits := commits + formatted;
      queries := queries + [query];
      assert queries[..|queries| - 1] == log[..|queries| - 1];
      hasNext := response.refs.pageInfo.hasNextPage;
      nextCursor := Some(response.refs.pageInfo.endCursor);
    }
    assert log[..|log|] == log;
  }

  /** The request log of a complete ref pagination is determined by the provider's answers. */
  lemma {:induction false} HistoryChainUnique(api: HistoryApi, token: string, first: HistoryQuery, qs: seq<HistoryQuery>, rs: seq<HistoryQuery>)
    requires IsHistoryChain(api, token, first, qs)
    requires IsHistoryChain(api, token, first, rs)
    ensures qs == rs
  {
    var n := if |qs| <= |rs| then |qs| else |rs|;
    var j := 0;
    while j < n
      invariant j <= n
      invariant forall i :: 0 <= i < j ==> qs[i] == rs[i]
      invariant j < n ==> qs[j] == rs[j]
    {
      if j + 1 < n {
        assert qs[j + 1] == rs[j + 1];
      }
      j := j + 1;
    }
    assert qs[n - 1] == rs[n - 1];
    assert |qs| == |rs|;
  }

  /** Variables of one discovery request. */
  datatype RepositoriesQuery = RepositoriesQuery(userName: string, nextCursor: Option<Cursor>)

  /** `data.user.repositoriesContributedTo` of a discovery response. */
  datatype RepositoriesConnection = RepositoriesConnection(totalCount: int, pageInfo: PageInfo, nodes: seq<RepositoryRef>)

  type DiscoveryApi = (string, RepositoriesQuery) -> RepositoriesConnection

  /** qs is the request log of a complete discovery pagination for userName. */
  predicate IsDiscoveryChain(api: DiscoveryApi, token: string, userName: string, qs: seq<RepositoriesQuery>) {
    && |qs| > 0
    && qs[0] == RepositoriesQuery(userName, None)
    && (forall j :: 0 <= j < |qs| - 1 ==>
          && api(token, qs[j]).pageInfo.hasNextPage
          && qs[j + 1] == RepositoriesQuery(userName, Some(api(token, qs[j]).pageInfo.endCursor)))
    && !api(token, qs[|qs| - 1]).pageInfo.hasNextPage
  }

  ghost predicate DiscoveryEnds(api: DiscoveryApi, token: string, userName: string) {
    exists qs :: IsDiscoveryChain(api, token, userName, qs)
  }

  ghost function DiscoveryLog(api: DiscoveryApi, token: string, userName: string): (qs: seq<RepositoriesQuery>)
    requires DiscoveryEnds(api, token, userName)
    ensures IsDiscoveryChain(api, token, userName, qs)
  {
    var qs :| IsDiscoveryChain(api, token, userName, qs); qs
  }

  /** The nodes of every response of the log, in request order. */
  function DiscoveredNodes(api: DiscoveryApi, token: string, qs: seq<RepositoriesQuery>): seq<RepositoryRef> {
    if qs == [] then []
    else DiscoveredNodes(api, token, qs[..|qs| - 1]) + api(token, qs[|qs| - 1]).nodes
  }

  /** The contributed repositories the route collects for userName. */
  ghost function ContributedRepositories(api: DiscoveryApi, token: string, userName: string): seq<RepositoryRef>
    requires DiscoveryEnds(api, token, userName)
  {
    DiscoveredNodes(api, token, DiscoveryLog(api, token, userName))
  }

  /** The discovery loop of commitListRoute. */
  method DiscoverContributedRepositories(api: DiscoveryApi, accessToken: string, userName: string)
    returns (contributedRepositories: seq<RepositoryRef>, queries: seq<RepositoriesQuery>)
    requires DiscoveryEnds(api, accessToken, userName)
    ensures IsDiscoveryChain(api, accessToken, userName, queries)
    ensures contributedRepositories == DiscoveredNodes(api, accessToken, queries)
    ensures contributedRepositories == ContributedRepositories(api, accessToken, userName)
  {
    ghost var log := DiscoveryLog(api, accessToken, userName);
    contributedRepositories, queries := [], [];
    var hasNext := true;
    var nextCursor: Option<Cursor> := None;
    while hasNext
      invariant |queries| <= |log| && queries == log[..|queries|]
      invariant hasNext ==> |queries| < |log|
      invariant hasNext ==> log[|queries|] == RepositoriesQuery(userName, nextCursor)
      invariant !hasNext ==> |queries| == |log|
      invariant contributedRepositories == DiscoveredNodes(api, accessToken, queries)
      decreases |log| - |queries|
    {
      var query := RepositoriesQuery(userName, nextCursor);
      var response := api(accessToken, query);
      contributedRepositories := contributedRepositories + response.nodes;
      queries := queries + [query];
      assert queries[..|queries| - 1] == log[..|queries| - 1];
      hasNext := response.pageInfo.hasNextPage;
      nextCursor := Some(response.pageInfo.endCursor);
    }
    assert log[..|log|] == log;
  }

  /** The discovery request log is determined by the provider's answers. */
  lemma {:induction false} DiscoveryChainUnique(api: DiscoveryApi, token: string, userName: string, qs: seq<RepositoriesQuery>, rs: seq<RepositoriesQuery>)
    requires IsDiscoveryChain(api, token, userName, qs)
    requires IsDiscoveryChain(api, token, userName, rs)
    ensures qs == rs
  {
    var n := if |qs| <= |rs| then |qs| else |rs|;
    var j := 0;
    while j < n
      invariant j <= n
      invariant forall i :: 0 <= i < j ==> qs[i] == rs[i]
      invariant j < n ==> qs[j] == rs[j]
    {
      if j + 1 < n {
        assert qs[j + 1] == rs[j + 1];
      }
      j := j + 1;
    }
    assert qs[n - 1] == rs[n - 1];
    assert |qs| == |rs|;
  }
}
