/**
 * groupByCommits of the index page (src/pages/index.tsx): the commit list is
 * grouped into a JavaScript `Map` whose keys are the day of the commit, the
 * first day of its week, or "owner/name" of its repository. A `Map` iterates in
 * insertion order, so groups come in the order their key first occurs, and a
 * commit is pushed onto the end of its group.
 *
 * The day and week keys are `dayjs(date).format("YYYY.MM.DD")` and
 * `dayjs(date).startOf("week").format("YYYY.MM.DD")`; both depend on the local
 * time zone and locale and are parameters here.
 */
module Timeline {
  import opened Wrappers
  import opened Commits
  import opened Groups
  import Mock

  datatype GroupBy = ByDate | ByWeek | ByRepository

  function RepositoryKey(c: ResponseCommit): string {
    c.repository.owner.login + "/" + c.repository.name
  }

  /** The key each branch of groupByCommits computes for a commit. */
  function KeyFunction(groupBy: GroupBy, dayKey: int -> string, weekKey: int -> string): ResponseCommit -> string {
    match groupBy
    case ByDate => (c: ResponseCommit) => dayKey(c.date)
    case ByWeek => (c: ResponseCommit) => weekKey(c.date)
    case ByRepository => RepositoryKey
  }

  /** A `Map<K, T[]>`: its keys in iteration order and its entries. */
  datatype Grouping<K, T> = Grouping(keys: seq<K>, groups: map<K, seq<T>>)

  /**
   * g groups xs by key: one entry per distinct key, in order of first
   * occurrence, holding the elements with that key in input order.
   */
  ghost predicate IsGroupingOf<T(!new), K(!new)>(g: Grouping<K, T>, xs: seq<T>, key: T -> K) {
    && g.keys == Distinct(KeysOf(xs, key))
    && (forall k :: k in g.groups <==> k in g.keys)
    && (forall k :: k in g.groups ==> g.groups[k] == Members(xs, key, k))
  }

  ghost predicate GroupsHold<T(!new), K(!new)>(tmpMap: map<K, seq<T>>, xs: seq<T>, key: T -> K) {
    forall k :: k in tmpMap ==> tmpMap[k] == Members(xs, key, k)
  }

  /** Taking element i into the map keeps tmpMap the groups of the longer prefix. */
  lemma {:induction false} GroupsAfter<T(!new), K(!new)>(tmpMap: map<K, seq<T>>, xs: seq<T>, i: nat, key: T -> K)
    requires i < |xs|
    requires GroupsHold(tmpMap, xs[..i], key)
    requires forall k :: k in tmpMap <==> k in KeysOf(xs[..i], key)
    ensures key(xs[i]) in tmpMap ==> GroupsHold(tmpMap[key(xs[i]) := tmpMap[key(xs[i])] + [xs[i]]], xs[..i + 1], key)
    ensures key(xs[i]) !in tmpMap ==> GroupsHold(tmpMap[key(xs[i]) := [xs[i]]], xs[..i + 1], key)
  {
    var p, x := xs[..i], xs[i];
    assert xs[..i + 1] == p + [x];
    forall k ensures Members(p + [x], key, k) == Members(p, key, k) + (if key(x) == k then [x] else []) {
      MembersAppend(p, x, key, k);
    }
    if key(x) !in tmpMap {
      MembersNonEmpty(p, key, key(x));
    }
  }

  /** Taking element i adds its key at the end when it is new. */
  lemma DistinctKeysAfter<T(!new), K(!new)>(xs: seq<T>, i: nat, key: T -> K)
    requires i < |xs|
    ensures Distinct(KeysOf(xs[..i + 1], key))
         == if key(xs[i]) in Distinct(KeysOf(xs[..i], key)) then Distinct(KeysOf(xs[..i], key))
            else Distinct(KeysOf(xs[..i], key)) + [key(xs[i])]
  {
    assert xs[..i + 1] == xs[..i] + [xs[i]];
    KeysOfAppend(xs[..i], xs[i], key);
    DistinctAppend(KeysOf(xs[..i], key), key(xs[i]));
  }

  /** What a grouping promises besides its definition: no empty group, keys agree, nothing lost. */
  lemma {:induction false} GroupingFacts<T(!new), K(!new)>(g: Grouping<K, T>, xs: seq<T>, key: T -> K)
    requires IsGroupingOf(g, xs, key)
    ensures forall k :: k in g.groups ==> |g.groups[k]| > 0
    ensures forall k, x :: k in g.groups && x in g.groups[k] ==> key(x) == k
    ensures TotalSize(xs, key, g.keys) == |xs|
  {
    forall k | k in g.groups ensures |g.groups[k]| > 0 && forall x :: x in g.groups[k] ==> key(x) == k {
      MembersNonEmpty(xs, key, k);
      MembersHaveKey(xs, key, k);
    }
    GroupSizesSum(xs, key);
  }

  /** One branch of groupByCommits: `tmpMap.get(k)?.push(x)` or `tmpMap.set(k, [x])` for each x. */
  method GroupByKey<T(!new), K(!new)>(xs: seq<T>, key: T -> K) returns (g: Grouping<K, T>)
    ensures IsGroupingOf(g, xs, key)
    ensures forall k :: k in g.groups ==> |g.groups[k]| > 0
    ensures forall k, x :: k in g.groups && x in g.groups[k] ==> key(x) == k
    ensures TotalSize(xs, key, g.keys) == |xs|
  {
    var keys: seq<K> := [];
    var tmpMap: map<K, seq<T>> := map[];
    for i := 0 to |xs|
      invariant keys == Distinct(KeysOf(xs[..i], key))
      invariant forall k :: k in tmpMap <==> k in keys
      invariant GroupsHold(tmpMap, xs[..i], key)
    {
      var x := xs[i];
      DistinctKeysAfter(xs, i, key);
      GroupsAfter(tmpMap, xs, i, key);
      if key(x) in tmpMap {
        tmpMap := tmpMap[key(x) := tmpMap[key(x)] + [x]];
      } else {
        tmpMap := tmpMap[key(x) := [x]];
        keys := keys + [key(x)];
      }
    }
    assert xs[..|xs|] == xs;
    g := Grouping(keys, tmpMap);
    GroupingFacts(g, xs, key);
  }

  /** groupByCommits: nothing before the list is loaded, else the grouping for the chosen key. */
  method GroupByCommits(commitList: Option<seq<ResponseCommit>>, groupBy: GroupBy, dayKey: int -> string, weekKey: int -> string)
    returns (r: Option<Grouping<string, ResponseCommit>>)
    ensures commitList.None? ==> r.None?
    ensures commitList.Some? ==> r.Some? && IsGroupingOf(r.value, commitList.value, KeyFunction(groupBy, dayKey, weekKey))
    ensures commitList.Some? ==> TotalSize(commitList.value, KeyFunction(groupBy, dayKey, weekKey), r.value.keys) == |commitList.value|
  {
    if commitList.None? {
      return None;
    }
    var g := GroupByKey(commitList.value, KeyFunction(groupBy, dayKey, weekKey));
    r := Some(g);
  }

  /**
   * Repository keys tell repositories apart, given (as for the provider's account
   * names) that an owner's login has no "/".
   */
  lemma RepositoryKeyInjective(a: ResponseCommit, b: ResponseCommit)
    requires '/' !in a.repository.owner.login && '/' !in b.repository.owner.login
    ensures RepositoryKey(a) == RepositoryKey(b) <==>
              a.repository.owner.login == b.repository.owner.login && a.repository.name == b.repository.name
  {
    var la, lb := a.repository.owner.login, b.repository.owner.login;
    var ka, kb := RepositoryKey(a), RepositoryKey(b);
    if ka == kb {
      assert ka[|la|] == '/' && kb[|lb|] == '/';
      assert forall i :: 0 <= i < |la| ==> ka[i] == la[i] != '/';
      assert forall i :: 0 <= i < |lb| ==> kb[i] == lb[i] != '/';
      assert |la| == |lb|;
      assert la == ka[..|la|] == kb[..|lb|] == lb;
      assert a.repository.name == ka[|la| + 1..] == kb[|lb| + 1..] == b.repository.name;
    }
  }

  /** Two runs of two equal keys each leave their two keys, in order. */
  lemma DistinctOfTwoRuns<K(!new)>(a: K, b: K)
    requires a != b
    ensures Distinct([a, a, b, b]) == [a, b]
  {
    assert Distinct([a]) == [a] by {
      DistinctAppend([], a);
      assert [] + [a] == [a];
    }
    assert Distinct([a, a]) == [a] by {
      DistinctAppend([a], a);
      assert [a] + [a] == [a, a];
    }
    assert Distinct([a, a, b]) == [a, b] by {
      DistinctAppend([a, a], b);
      assert [a, a] + [b] == [a, a, b];
    }
    DistinctAppend([a, a, b], b);
    assert [a, a, b] + [b] == [a, a, b, b];
  }

  /** A non-empty list of one repeated key leaves that key. */
  lemma {:induction false} DistinctOfUniform<K(!new)>(ks: seq<K>, a: K)
    requires |ks| > 0 && forall i :: 0 <= i < |ks| ==> ks[i] == a
    ensures Distinct(ks) == [a]
  {
    var p := ks[..|ks| - 1];
    assert ks == p + [a];
    DistinctAppend(p, a);
    if p == [] {
      assert Distinct(p) == [];
    } else {
      DistinctOfUniform(p, a);
    }
  }

  /** Every entry of the canned response has the key "sample/sample". */
  lemma MockRepositoryKeys()
    ensures forall i :: 0 <= i < |Mock.MockData| ==> RepositoryKey(Mock.MockData[i]) == "sample/sample"
  {
    Mock.MockDataIsAResponse();
    assert RepositoryKey(Mock.MockData[0]) == "sample/sample";
  }

  /** The canned response grouped by repository is one group, sample/sample, holding all of it. */
  lemma MockByRepository()
    ensures Distinct(KeysOf(Mock.MockData, RepositoryKey)) == ["sample/sample"]
    ensures Members(Mock.MockData, RepositoryKey, "sample/sample") == Mock.MockData
  {
    MockRepositoryKeys();
    var ks := KeysOf(Mock.MockData, RepositoryKey);
    assert forall i :: 0 <= i < |ks| ==> ks[i] == "sample/sample";
    DistinctOfUniform(ks, "sample/sample");
    MembersOfUniform(Mock.MockData, RepositoryKey, "sample/sample");
  }

  /** The day keys of the canned response: two of the later day, then two of the earlier one. */
  lemma MockDayKeyList(dayKey: int -> string)
    ensures KeysOf(Mock.MockData, KeyFunction(ByDate, dayKey, dayKey))
            == [dayKey(Mock.January3), dayKey(Mock.January3), dayKey(Mock.January2), dayKey(Mock.January2)]
  {
    Mock.MockDataIsAResponse();
  }

  /**
   * The canned response grouped by day, when the two dates fall on different
   * days: the later day first, then the earlier one.
   */
  lemma MockDayKeys(dayKey: int -> string)
    requires dayKey(Mock.January3) != dayKey(Mock.January2)
    ensures Distinct(KeysOf(Mock.MockData, KeyFunction(ByDate, dayKey, dayKey)))
            == [dayKey(Mock.January3), dayKey(Mock.January2)]
  {
    MockDayKeyList(dayKey);
    DistinctOfTwoRuns(dayKey(Mock.January3), dayKey(Mock.January2));
  }

  /** Grouped by day, each of the two days holds its two commits, in response order. */
  lemma MockDayGroups(dayKey: int -> string)
    requires dayKey(Mock.January3) != dayKey(Mock.January2)
    ensures Members(Mock.MockData, KeyFunction(ByDate, dayKey, dayKey), dayKey(Mock.January3)) == Mock.MockData[..2]
    ensures Members(Mock.MockData, KeyFunction(ByDate, dayKey, dayKey), dayKey(Mock.January2)) == Mock.MockData[2..]
  {
    var m, key := Mock.MockData, KeyFunction(ByDate, dayKey, dayKey);
    var a, b := dayKey(Mock.January3), dayKey(Mock.January2);
    var early, late := m[..2], m[2..];
    assert m == early + late;
    Mock.MockDataIsAResponse();
    assert forall i :: 0 <= i < |early| ==> key(early[i]) == a;
    assert forall i :: 0 <= i < |late| ==> key(late[i]) == b;
    MembersConcat(early, late, key, a);
    MembersConcat(early, late, key, b);
    MembersOfUniform(early, key, a);
    MembersOfUniform(late, key, b);
    MembersOfNone(early, key, b);
    MembersOfNone(late, key, a);
  }
}
