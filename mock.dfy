/**
 * The canned response of src/lib/mock.ts, which the commit-list route returns
 * when the USE_MOCK environment variable is set. Dates are seconds since the
 * Unix epoch: 2022-01-03T00:00:00Z and 2022-01-02T00:00:00Z.
 */
module Mock {
  import opened Commits
  import Aggregation

  const SampleRepository: RepositoryRef := RepositoryRef("sample", "https://github.com/sample/sample", Owner("sample"))

  /** 2022-01-03T00:00:00Z */
  const January3: int := 1641168000
  /** 2022-01-02T00:00:00Z */
  const January2: int := 1641081600

  function SampleCommit(sha: string, date: int): ResponseCommit {
    ResponseCommit("https://github.com/sample/sample/commit/" + sha, "sample commit", date, sha,
                   10, 100, 100, SampleRepository, [Branch("master")])
  }

  const MockData: seq<ResponseCommit> := [
    SampleCommit("8151325dcdbae9e0ff95f9f9658432dbedfdb209", January3),
    SampleCommit("1ff0b5b1c089d0f9e040a9080110e0be12d42867", January3),
    SampleCommit("4e62e3ce2345b54c54af1490a7f3ca6e0254e082", January2),
    SampleCommit("96c567e0473ae888602f6745da6a5953df25d673", January2)
  ]

  /**
   * The canned response has the shape of a real one: latest first, one entry
   * per sha, each entry on the master branch of sample/sample.
   */
  lemma MockDataIsAResponse()
    ensures |MockData| == 4
    ensures Aggregation.DescendingByDate(MockData)
    ensures forall i, j :: 0 <= i < j < |MockData| ==> MockData[i].sha != MockData[j].sha
    ensures forall i :: 0 <= i < |MockData| ==>
              MockData[i].repository == SampleRepository && MockData[i].branches == [Branch("master")]
    ensures forall i :: 0 <= i < |MockData| ==> MockData[i].date == if i < 2 then January3 else January2
  {
  }
}
