/**
 * The end of commitListRoute (src/pages/api/commit/list.ts): the sha map that
 * merges the (commit, branch) records, and the sort of its values by date,
 * latest first.
 */
module Aggregation {
  import opened Commits
  import opened Groups

  function ShaOf(c: Commit): string { c.sha }

  function DateOf(c: ResponseCommit): int { c.date }

  /** The branch of every record, in order. */
  function BranchList(cs: seq<Commit>): (bs: seq<Branch>)
    ensures |bs| == |cs|
    ensures forall i :: 0 <= i < |cs| ==> bs[i] == cs[i].branch
  {
    if cs == [] then [] else BranchList(cs[..|cs| - 1]) + [cs[|cs| - 1].branch]
  }

  /** The keys of the sha map: every distinct sha, in order of first occurrence. */
  function Shas(cs: seq<Commit>): seq<string> {
    Distinct(KeysOf(cs, ShaOf))
  }

  /** The entry a first record creates. */
  function NewEntry(c: Commit): ResponseCommit {
    ResponseCommit(c.url, c.message, c.date, c.sha, c.changedFiles, c.additions, c.deletions,
                   c.repository, [c.branch])
  }

  /**
   * The entry for sha: every field but the branch list comes from the first record
   * with that sha; the branch list holds the branch of every record with that sha,
   * in input order, duplicates kept.
   */
  function Entry(cs: seq<Commit>, sha: string): (e: ResponseCommit)
    requires sha in KeysOf(cs, ShaOf)
    ensures e.sha == sha
  {
    var first := cs[FirstIndex(KeysOf(cs, ShaOf), sha)];
    ResponseCommit(first.url, first.message, first.date, first.sha, first.changedFiles,
                   first.additions, first.deletions, first.repository,
                   BranchList(Members(cs, ShaOf, sha)))
  }

  function Entries(cs: seq<Commit>, ks: seq<string>): (es: seq<ResponseCommit>)
    requires forall i :: 0 <= i < |ks| ==> ks[i] in KeysOf(cs, ShaOf)
    ensures |es| == |ks|
    ensures forall i :: 0 <= i < |ks| ==> es[i] == Entry(cs, ks[i])
  {
    if ks == [] then []
    else
      var p := ks[..|ks| - 1];
      assert forall i :: 0 <= i < |p| ==> p[i] == ks[i];
      Entries(cs, p) + [Entry(cs, ks[|ks| - 1])]
  }

  /** The values of the sha map after the pass, in insertion order. */
  function Merged(cs: seq<Commit>): seq<ResponseCommit> {
    Entries(cs, Shas(cs))
  }

  /** The total length of the branch lists. */
  function BranchCount(es: seq<ResponseCommit>): nat {
    if es == [] then 0 else BranchCount(es[..|es| - 1]) + |es[|es| - 1].branches|
  }

  lemma BranchListAppend(cs: seq<Commit>, c: Commit)
    ensures BranchList(cs + [c]) == BranchList(cs) + [c.branch]
  {
    assert (cs + [c])[..|cs|] == cs;
  }

  /** A record whose sha is new creates the entry. */
  lemma {:induction false} EntryAfterNew(p: seq<Commit>, c: Commit)
    requires c.sha !in KeysOf(p, ShaOf)
    ensures c.sha in KeysOf(p + [c], ShaOf)
    ensures Entry(p + [c], c.sha) == NewEntry(c)
  {
    KeysOfAppend(p, c, ShaOf);
    FirstIndexAppend(KeysOf(p, ShaOf), c.sha, c.sha);
    MembersAppend(p, c, ShaOf, c.sha);
    MembersNonEmpty(p, ShaOf, c.sha);
    BranchListAppend([], c);
  }

  /** A record whose sha is already mapped appends its branch and changes nothing else. */
  lemma {:induction false} EntryAfterSeen(p: seq<Commit>, c: Commit)
    requires c.sha in KeysOf(p, ShaOf)
    ensures c.sha in KeysOf(p + [c], ShaOf)
    ensures Entry(p + [c], c.sha) == Entry(p, c.sha).(branches := Entry(p, c.sha).branches + [c.branch])
  {
    KeysOfAppend(p, c, ShaOf);
    FirstIndexAppend(KeysOf(p, ShaOf), c.sha, c.sha);
    MembersAppend(p, c, ShaOf, c.sha);
    BranchListAppend(Members(p, ShaOf, c.sha), c);
  }

  /** A record leaves the entries of other shas alone. */
  lemma {:induction false} EntryAfterOther(p: seq<Commit>, c: Commit, sha: string)
    requires sha in KeysOf(p, ShaOf) && sha != c.sha
    ensures sha in KeysOf(p + [c], ShaOf)
    ensures Entry(p + [c], sha) == Entry(p, sha)
  {
    KeysOfAppend(p, c, ShaOf);
    FirstIndexAppend(KeysOf(p, ShaOf), c.sha, sha);
    MembersAppend(p, c, ShaOf, sha);
  }

  /** Every key is mapped to the entry the records p give it. */
  ghost predicate EntriesHold(shaCommitMap: map<string, ResponseCommit>, p: seq<Commit>) {
    forall s :: s in shaCommitMap ==> s in KeysOf(p, ShaOf) && shaCommitMap[s] == Entry(p, s)
  }

  /** Record i adds its sha to the keys exactly when it is new. */
  lemma ShasAfter(cs: seq<Commit>, i: nat)
    requires i < |cs|
    ensures Shas(cs[..i + 1]) == if cs[i].sha in Shas(cs[..i]) then Shas(cs[..i]) else Shas(cs[..i]) + [cs[i].sha]
  {
    assert cs[..i + 1] == cs[..i] + [cs[i]];
    KeysOfAppend(cs[..i], cs[i], ShaOf);
    DistinctAppend(KeysOf(cs[..i], ShaOf), cs[i].sha);
  }

  /** Record i, whose sha is mapped, appends its branch to that entry. */
  lemma {:induction false} EntriesAfterSeen(shaCommitMap: map<string, ResponseCommit>, cs: seq<Commit>, i: nat)
    requires i < |cs|
    requires EntriesHold(shaCommitMap, cs[..i]) && cs[i].sha in shaCommitMap
    ensures EntriesHold(shaCommitMap[cs[i].sha := shaCommitMap[cs[i].sha].(branches := shaCommitMap[cs[i].sha].branches + [cs[i].branch])], cs[..i + 1])
  {
    var p, c := cs[..i], cs[i];
    assert cs[..i + 1] == p + [c];
    var m := shaCommitMap[c.sha := shaCommitMap[c.sha].(branches := shaCommitMap[c.sha].branches + [c.branch])];
    forall s | s in m
      ensures s in KeysOf(p + [c], ShaOf) && m[s] == Entry(p + [c], s)
    {
      if s == c.sha {
        EntryAfterSeen(p, c);
      } else {
        EntryAfterOther(p, c, s);
      }
    }
  }

  /** Record i, whose sha is new, inserts a fresh entry. */
  lemma {:induction false} EntriesAfterNew(shaCommitMap: map<string, ResponseCommit>, cs: seq<Commit>, i: nat)
    requires i < |cs|
    requires EntriesHold(shaCommitMap, cs[..i]) && cs[i].sha !in KeysOf(cs[..i], ShaOf)
    ensures EntriesHold(shaCommitMap[cs[i].sha := NewEntry(cs[i])], cs[..i + 1])
  {
    var p, c := cs[..i], cs[i];
    assert cs[..i + 1] == p + [c];
    var m := shaCommitMap[c.sha := NewEntry(c)];
    forall s | s in m
      ensures s in KeysOf(p + [c], ShaOf) && m[s] == Entry(p + [c], s)
    {
      if s == c.sha {
        EntryAfterNew(p, c);
      } else {
        EntryAfterOther(p, c, s);
      }
    }
  }

  /** Once every record is taken, the map's values in key order are the merged entries. */
  lemma MapValuesAreMerged(shaCommitMap: map<string, ResponseCommit>, keys: seq<string>, cs: seq<Commit>,
                           values: seq<ResponseCommit>)
    requires keys == Shas(cs[..|cs|])
    requires forall s :: s in shaCommitMap <==> s in keys
    requires EntriesHold(shaCommitMap, cs[..|cs|])
    requires |values| == |keys| && forall k :: 0 <= k < |keys| ==> values[k] == shaCommitMap[keys[k]]
    ensures values == Merged(cs)
  {
    assert cs[..|cs|] == cs;
  }

  /**
   * The deduplication pass: a record whose sha is already mapped appends its
   * branch to that entry, any other record inserts a new entry.
   */
  method MergeBySha(commits: seq<Commit>) returns (values: seq<ResponseCommit>)
    ensures values == Merged(commits)
    ensures |values| <= |commits|
    ensures forall i, j :: 0 <= i < j < |values| ==> values[i].sha != values[j].sha
    ensures forall i :: 0 <= i < |commits| ==> exists k :: 0 <= k < |values| && values[k].sha == commits[i].sha
    ensures BranchCount(values) == |commits|
  {
    var keys: seq<string> := [];
    var shaCommitMap: map<string, ResponseCommit> := map[];
    for i := 0 to |commits|
      invariant keys == Shas(commits[..i])
      invariant forall s :: s in shaCommitMap <==> s in keys
      invariant EntriesHold(shaCommitMap, commits[..i])
    {
      var c := commits[i];
      ShasAfter(commits, i);
      if c.sha in shaCommitMap {
        EntriesAfterSeen(shaCommitMap, commits, i);
        var mapped := shaCommitMap[c.sha];
        shaCommitMap := shaCommitMap[c.sha := mapped.(branches := mapped.branches + [c.branch])];
      } else {
        EntriesAfterNew(shaCommitMap, commits, i);
        shaCommitMap := shaCommitMap[c.sha := NewEntry(c)];
        keys := keys + [c.sha];
      }
    }
    values := seq(|keys|, k requires 0 <= k < |keys| => shaCommitMap[keys[k]]);
    MapValuesAreMerged(shaCommitMap, keys, commits, values);
    MergedShas(commits);
    MergedUnique(commits);
    MergedCoversInput(commits);
    MergedBranchCount(commits);
  }

  lemma {:induction false} BranchCountIsTotalSize(cs: seq<Commit>, ks: seq<string>)
    requires forall i :: 0 <= i < |ks| ==> ks[i] in KeysOf(cs, ShaOf)
    ensures BranchCount(Entries(cs, ks)) == TotalSize(cs, ShaOf, ks)
  {
    if ks != [] {
      var es := Entries(cs, ks);
      assert es[..|es| - 1] == Entries(cs, ks[..|ks| - 1]);
      BranchCountIsTotalSize(cs, ks[..|ks| - 1]);
    }
  }

  /** The map holds one entry per distinct sha, each keyed by its own sha. */
  lemma MergedShas(cs: seq<Commit>)
    ensures |Merged(cs)| == |Shas(cs)| <= |cs|
    ensures forall i :: 0 <= i < |Merged(cs)| ==> Merged(cs)[i].sha == Shas(cs)[i]
  {
  }

  /** No two entries share a sha. */
  lemma MergedUnique(cs: seq<Commit>)
    ensures forall i, j :: 0 <= i < j < |Merged(cs)| ==> Merged(cs)[i].sha != Merged(cs)[j].sha
  {
    MergedShas(cs);
    assert NoDuplicates(Shas(cs));
  }

  /** Every sha of the input has an entry. */
  lemma {:induction false} MergedCoversInput(cs: seq<Commit>)
    ensures forall i :: 0 <= i < |cs| ==> exists k :: 0 <= k < |Merged(cs)| && Merged(cs)[k].sha == cs[i].sha
  {
    MergedShas(cs);
    var ks := KeysOf(cs, ShaOf);
    var ds := Shas(cs);
    forall i | 0 <= i < |cs|
      ensures exists k :: 0 <= k < |ds| && ds[k] == cs[i].sha
    {
      assert ks[i] == cs[i].sha;
      assert ks[i] in ds;
    }
  }

  /** Every entry's sha occurs in the input. */
  lemma {:induction false} MergedFromInput(cs: seq<Commit>)
    ensures forall k :: 0 <= k < |Merged(cs)| ==> exists i :: 0 <= i < |cs| && cs[i].sha == Merged(cs)[k].sha
  {
    MergedShas(cs);
    var ks := KeysOf(cs, ShaOf);
    var ds := Shas(cs);
    forall k | 0 <= k < |ds|
      ensures exists i :: 0 <= i < |cs| && cs[i].sha == ds[k]
    {
      assert ds[k] in ks;
      var i := FirstIndex(ks, ds[k]);
      assert cs[i].sha == ks[i];
    }
  }

  /** The branch lists together hold one branch per input record. */
  lemma {:induction false} MergedBranchCount(cs: seq<Commit>)
    ensures BranchCount(Merged(cs)) == |cs|
  {
    BranchCountIsTotalSize(cs, Shas(cs));
    GroupSizesSum(cs, ShaOf);
  }

  /** Entries appear in the order in which their shas first occur in the input. */
  lemma {:induction false} MergedInFirstOccurrenceOrder(cs: seq<Commit>, i: nat, j: nat)
    requires i < j < |Merged(cs)|
    ensures FirstIndex(KeysOf(cs, ShaOf), Merged(cs)[i].sha) < FirstIndex(KeysOf(cs, ShaOf), Merged(cs)[j].sha)
  {
    DistinctInFirstOccurrenceOrder(KeysOf(cs, ShaOf), i, j);
  }

  /**
   * The entry at every position is the first record with its sha, carrying the
   * branch of every record with that sha.
   */
  lemma {:induction false} MergedEntryIsFirstOccurrence(cs: seq<Commit>, k: nat)
    requires k < |Merged(cs)|
    ensures exists f ::
              && 0 <= f < |cs|
              && cs[f].sha == Merged(cs)[k].sha
              && (forall j :: 0 <= j < f ==> cs[j].sha != cs[f].sha)
              && Merged(cs)[k] == NewEntry(cs[f]).(branches := BranchList(Members(cs, ShaOf, cs[f].sha)))
  {
    var ks := KeysOf(cs, ShaOf);
    MergedShas(cs);
    var sha := Shas(cs)[k];
    assert sha in ks;
    var f := FirstIndex(ks, sha);
    assert Merged(cs)[k] == Entry(cs, sha);
    assert cs[f].sha == sha;
    assert forall j :: 0 <= j < f ==> cs[j].sha != sha by {
      assert forall j :: 0 <= j < f ==> cs[j].sha == ks[j];
    }
    assert Entry(cs, sha) == NewEntry(cs[f]).(branches := BranchList(Members(cs, ShaOf, sha)));
  }

  // ---- The final sort ----

  /** Adjacent and non-adjacent pairs alike: later dates come first. */
  predicate DescendingByDate(s: seq<ResponseCommit>) {
    forall i, j :: 0 <= i < j < |s| ==> s[i].date >= s[j].date
  }

  /** Inserts c before the first element that is not later than c. */
  function InsertByDate(c: ResponseCommit, s: seq<ResponseCommit>): seq<ResponseCommit> {
    if s == [] || c.date >= s[0].date then [c] + s else [s[0]] + InsertByDate(c, s[1..])
  }

  /**
   * `sort((a, b) => dayjs(b.date).diff(dayjs(a.date)))`: a stable sort, latest
   * first, written as an insertion sort.
   */
  function SortByDateDesc(s: seq<ResponseCommit>): seq<ResponseCommit> {
    if s == [] then [] else InsertByDate(s[0], SortByDateDesc(s[1..]))
  }

  lemma {:induction false} InsertPermutes(c: ResponseCommit, s: seq<ResponseCommit>)
    ensures multiset(InsertByDate(c, s)) == multiset([c] + s)
  {
    if s != [] && c.date < s[0].date {
      InsertPermutes(c, s[1..]);
      assert s == [s[0]] + s[1..];
    }
  }

  /** Inserting a commit no later than b into commits no later than b keeps that bound. */
  lemma {:induction false} InsertBounded(c: ResponseCommit, s: seq<ResponseCommit>, b: int)
    requires c.date <= b
    requires forall i :: 0 <= i < |s| ==> s[i].date <= b
    ensures forall i :: 0 <= i < |InsertByDate(c, s)| ==> InsertByDate(c, s)[i].date <= b
  {
    if s != [] && c.date < s[0].date {
      InsertBounded(c, s[1..], b);
    }
  }

  lemma {:induction false} InsertKeepsDescending(c: ResponseCommit, s: seq<ResponseCommit>)
    requires DescendingByDate(s)
    ensures DescendingByDate(InsertByDate(c, s))
  {
    if s != [] && c.date < s[0].date {
      var t := InsertByDate(c, s[1..]);
      InsertKeepsDescending(c, s[1..]);
      InsertBounded(c, s[1..], s[0].date);
      var r := [s[0]] + t;
      assert InsertByDate(c, s) == r;
      forall i, j | 0 <= i < j < |r| ensures r[i].date >= r[j].date {
        if i == 0 {
          assert r[j] == t[j - 1];
        } else {
          assert r[i] == t[i - 1] && r[j] == t[j - 1];
        }
      }
    }
  }

  /** The response is sorted latest first. */
  lemma {:induction false} SortIsDescending(s: seq<ResponseCommit>)
    ensures DescendingByDate(SortByDateDesc(s))
  {
    if s != [] {
      SortIsDescending(s[1..]);
      InsertKeepsDescending(s[0], SortByDateDesc(s[1..]));
    }
  }

  /** The response is a permutation of the map values. */
  lemma {:induction false} SortIsPermutation(s: seq<ResponseCommit>)
    ensures multiset(SortByDateDesc(s)) == multiset(s)
  {
    if s != [] {
      SortIsPermutation(s[1..]);
      InsertPermutes(s[0], SortByDateDesc(s[1..]));
      assert s == [s[0]] + s[1..];
    }
  }

  lemma MembersOfOne(x: ResponseCommit, d: int)
    ensures Members([x], DateOf, d) == if x.date == d then [x] else []
  {
    assert [x][..0] == [];
  }

  /** Of two commits with different dates at most one has date d. */
  lemma SwapOfDifferentDates(h: ResponseCommit, c: ResponseCommit, rest: seq<ResponseCommit>, d: int)
    requires h.date != c.date
    ensures Members([h], DateOf, d) + (Members([c], DateOf, d) + rest)
         == Members([c], DateOf, d) + (Members([h], DateOf, d) + rest)
  {
    MembersOfOne(h, d);
    MembersOfOne(c, d);
  }

  lemma {:induction false} InsertIsStable(c: ResponseCommit, s: seq<ResponseCommit>, d: int)
    ensures Members(InsertByDate(c, s), DateOf, d) == Members([c] + s, DateOf, d)
  {
    if s != [] && c.date < s[0].date {
      var h, t := s[0], s[1..];
      assert s == [h] + t;
      assert InsertByDate(c, s) == [h] + InsertByDate(c, t);
      assert [c] + s == [c] + ([h] + t);
      InsertIsStable(c, t, d);
      calc {
        Members(InsertByDate(c, s), DateOf, d);
      == { MembersConcat([h], InsertByDate(c, t), DateOf, d); }
        Members([h], DateOf, d) + Members([c] + t, DateOf, d);
      == { MembersConcat([c], t, DateOf, d); }
        Members([h], DateOf, d) + (Members([c], DateOf, d) + Members(t, DateOf, d));
      == { SwapOfDifferentDates(h, c, Members(t, DateOf, d), d); }
        Members([c], DateOf, d) + (Members([h], DateOf, d) + Members(t, DateOf, d));
      == { MembersConcat([h], t, DateOf, d); }
        Members([c], DateOf, d) + Members(s, DateOf, d);
      == { MembersConcat([c], s, DateOf, d); }
        Members([c] + s, DateOf, d);
      }
    }
  }

  /**
   * The sort is stable: for every date, the commits with that date keep their
   * relative order (for the map values, their insertion order).
   */
  lemma {:induction false} SortIsStable(s: seq<ResponseCommit>, d: int)
    ensures Members(SortByDateDesc(s), DateOf, d) == Members(s, DateOf, d)
  {
    if s != [] {
      SortIsStable(s[1..], d);
      InsertIsStable(s[0], SortByDateDesc(s[1..]), d);
      MembersConcat([s[0]], SortByDateDesc(s[1..]), DateOf, d);
      MembersConcat([s[0]], s[1..], DateOf, d);
      assert s == [s[0]] + s[1..];
    }
  }
}
