/**
 * The records of the commit-list route (src/pages/api/commit/list.ts) and
 * formatCommitsFromRepo, which flattens repository -> branch ref -> history
 * into one list of (commit, branch) records.
 *
 * Dates are integer timestamps: the provider's ISO strings and their parsing
 * are not part of this model.
 */
module Commits {

  type Cursor = string

  datatype Owner = Owner(login: string)

  /** A repository as the discovery query returns it (ContributedRepository). */
  datatype RepositoryRef = RepositoryRef(name: string, url: string, owner: Owner)

  /** One commit of a branch's history, as the provider returns it. */
  datatype HistoryNode = HistoryNode(
    message: string,
    url: string,
    committedDate: int,
    oid: string,
    changedFiles: int,
    additions: int,
    deletions: int)

  /** A branch ref with the first page of its history. */
  datatype RefNode = RefNode(name: string, history: seq<HistoryNode>)

  datatype PageInfo = PageInfo(endCursor: Cursor, hasNextPage: bool)

  /** One page of branch refs. */
  datatype RefConnection = RefConnection(totalCount: int, pageInfo: PageInfo, nodes: seq<RefNode>)

  /** The `repository` object of one per-repository history response. */
  datatype Repository = Repository(name: string, url: string, owner: Owner, refs: RefConnection)

  datatype Branch = Branch(name: string)

  /** One (commit, branch) record. */
  datatype Commit = Commit(
    url: string,
    message: string,
    date: int,
    sha: string,
    changedFiles: int,
    additions: int,
    deletions: int,
    repository: RepositoryRef,
    branch: Branch)

  /** A commit of the response: one per sha, with every branch it was seen on. */
  datatype ResponseCommit = ResponseCommit(
    url: string,
    message: string,
    date: int,
    sha: string,
    changedFiles: int,
    additions: int,
    deletions: int,
    repository: RepositoryRef,
    branches: seq<Branch>)

  function RefOf(repo: Repository): RepositoryRef {
    RepositoryRef(repo.name, repo.url, repo.owner)
  }

  /** The record built for history node h of the branch named branchName in repo. */
  function Record(repo: Repository, branchName: string, h: HistoryNode): Commit {
    Commit(h.url, h.message, h.committedDate, h.oid, h.changedFiles, h.additions, h.deletions,
           RefOf(repo), Branch(branchName))
  }

  function HistoryRecords(repo: Repository, branchName: string, nodes: seq<HistoryNode>): seq<Commit> {
    if nodes == [] then []
    else HistoryRecords(repo, branchName, nodes[..|nodes| - 1]) + [Record(repo, branchName, nodes[|nodes| - 1])]
  }

  function RefRecords(repo: Repository, refs: seq<RefNode>): seq<Commit> {
    if refs == [] then []
    else
      var b := refs[|refs| - 1];
      RefRecords(repo, refs[..|refs| - 1]) + HistoryRecords(repo, b.name, b.history)
  }

  /** The flattened records: repository by repository, ref by ref, history node by node. */
  function FormatCommits(repos: seq<Repository>): seq<Commit> {
    if repos == [] then []
    else
      var r := repos[|repos| - 1];
      FormatCommits(repos[..|repos| - 1]) + RefRecords(r, r.refs.nodes)
  }

  function HistoryCount(refs: seq<RefNode>): nat {
    if refs == [] then 0 else HistoryCount(refs[..|refs| - 1]) + |refs[|refs| - 1].history|
  }

  /** The number of history nodes over all repositories and refs. */
  function NodeCount(repos: seq<Repository>): nat {
    if repos == [] then 0
    else NodeCount(repos[..|repos| - 1]) + HistoryCount(repos[|repos| - 1].refs.nodes)
  }

  /** The record that stands for the triple (r, b, h): a repository, one of its refs, one of that ref's nodes. */
  ghost predicate FromTriple(repos: seq<Repository>, c: Commit) {
    exists r, b, h :: r in repos && b in r.refs.nodes && h in b.history && c == Record(r, b.name, h)
  }

  /** One history node more: its record comes last. */
  lemma HistoryStep(repo: Repository, branchName: string, nodes: seq<HistoryNode>, k: nat)
    requires k < |nodes|
    ensures HistoryRecords(repo, branchName, nodes[..k + 1])
            == HistoryRecords(repo, branchName, nodes[..k]) + [Record(repo, branchName, nodes[k])]
  {
    assert nodes[..k + 1][..k] == nodes[..k];
  }

  /** One ref more: the records of its whole history come last. */
  lemma RefStep(repo: Repository, refs: seq<RefNode>, j: nat)
    requires j < |refs|
    ensures RefRecords(repo, refs[..j + 1])
            == RefRecords(repo, refs[..j]) + HistoryRecords(repo, refs[j].name, refs[j].history)
  {
    assert refs[..j + 1][..j] == refs[..j];
  }

  /** One repository more: the records of all its refs come last. */
  lemma RepositoryStep(repos: seq<Repository>, i: nat)
    requires i < |repos|
    ensures FormatCommits(repos[..i + 1])
            == FormatCommits(repos[..i]) + RefRecords(repos[i], repos[i].refs.nodes)
  {
    assert repos[..i + 1][..i] == repos[..i];
  }

  /** formatCommitsFromRepo: the nested forEach loops pushing one record per history node. */
  method FormatCommitsFromRepo(repos: seq<Repository>) returns (commits: seq<Commit>)
    ensures commits == FormatCommits(repos)
    ensures |commits| == NodeCount(repos)
  {
    commits := [];
    for i := 0 to |repos|
      invariant commits == FormatCommits(repos[..i])
    {
      commits := PushRefRecords(commits, repos[i], repos[i].refs.nodes);
      RepositoryStep(repos, i);
    }
    assert repos[..|repos|] == repos;
    FlattenedCount(repos);
  }

  /** The callback for one repository: its refs in order. */
  method PushRefRecords(prefix: seq<Commit>, repository: Repository, refs: seq<RefNode>) returns (commits: seq<Commit>)
    ensures commits == prefix + RefRecords(repository, refs)
  {
    commits := prefix;
    for j := 0 to |refs|
      invariant commits == prefix + RefRecords(repository, refs[..j])
    {
      commits := PushHistoryRecords(commits, repository, refs[j].name, refs[j].history);
      RefStep(repository, refs, j);
    }
    assert refs[..|refs|] == refs;
  }

  /** The callback for one ref: a record per history node, in order. */
  method PushHistoryRecords(prefix: seq<Commit>, repository: Repository, branchname: string, nodes: seq<HistoryNode>)
    returns (commits: seq<Commit>)
    ensures commits == prefix + HistoryRecords(repository, branchname, nodes)
  {
    commits := prefix;
    for k := 0 to |nodes|
      invariant commits == prefix + HistoryRecords(repository, branchname, nodes[..k])
    {
      HistoryStep(repository, branchname, nodes, k);
      commits := commits + [Record(repository, branchname, nodes[k])];
    }
    assert nodes[..|nodes|] == nodes;
  }

  lemma {:induction false} HistoryRecordsCount(repo: Repository, name: string, nodes: seq<HistoryNode>)
    ensures |HistoryRecords(repo, name, nodes)| == |nodes|
  {
    if nodes != [] {
      HistoryRecordsCount(repo, name, nodes[..|nodes| - 1]);
    }
  }

  lemma {:induction false} RefRecordsCount(repo: Repository, refs: seq<RefNode>)
    ensures |RefRecords(repo, refs)| == HistoryCount(refs)
  {
    if refs != [] {
      var b := refs[|refs| - 1];
      RefRecordsCount(repo, refs[..|refs| - 1]);
      HistoryRecordsCount(repo, b.name, b.history);
    }
  }

  /** One record per history node, summed over repositories and refs. */
  lemma {:induction false} FlattenedCount(repos: seq<Repository>)
    ensures |FormatCommits(repos)| == NodeCount(repos)
  {
    if repos != [] {
      var r := repos[|repos| - 1];
      FlattenedCount(repos[..|repos| - 1]);
      RefRecordsCount(r, r.refs.nodes);
    }
  }

  lemma {:induction false} HistoryRecordsAre(repo: Repository, name: string, nodes: seq<HistoryNode>, c: Commit)
    ensures c in HistoryRecords(repo, name, nodes) <==> exists h :: h in nodes && c == Record(repo, name, h)
  {
    if nodes != [] {
      var p, h := nodes[..|nodes| - 1], nodes[|nodes| - 1];
      assert nodes == p + [h];
      HistoryRecordsAre(repo, name, p, c);
    }
  }

  lemma {:induction false} RefRecordsAre(repo: Repository, refs: seq<RefNode>, c: Commit)
    ensures c in RefRecords(repo, refs) <==>
            exists b, h :: b in refs && h in b.history && c == Record(repo, b.name, h)
  {
    if refs != [] {
      var p, b := refs[..|refs| - 1], refs[|refs| - 1];
      assert refs == p + [b];
      RefRecordsAre(repo, p, c);
      HistoryRecordsAre(repo, b.name, b.history, c);
    }
  }

  /**
   * Every flattened record is the record of some (repository, ref, history node) triple of the
   * input, and every such triple has its record in the output.
   */
  lemma {:induction false} FlattenedRecordsAre(repos: seq<Repository>, c: Commit)
    ensures c in FormatCommits(repos) <==> FromTriple(repos, c)
  {
    if repos != [] {
      var p, r := repos[..|repos| - 1], repos[|repos| - 1];
      assert repos == p + [r];
      FlattenedRecordsAre(p, c);
      RefRecordsAre(r, r.refs.nodes, c);
      if FromTriple(p, c) {
        var r', b, h :| r' in p && b in r'.refs.nodes && h in b.history && c == Record(r', b.name, h);
        assert r' in repos;
      }
      if c in RefRecords(r, r.refs.nodes) {
        var b, h :| b in r.refs.nodes && h in b.history && c == Record(r, b.name, h);
        assert r in repos;
      }
      if FromTriple(repos, c) {
        var r', b, h :| r' in repos && b in r'.refs.nodes && h in b.history && c == Record(r', b.name, h);
        if r' != r {
          assert r' in p;
        }
      }
    }
  }
}
