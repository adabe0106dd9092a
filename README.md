# Commit timeline: a Dafny model

The application shows a signed-in GitHub user the commits they have pushed
recently, across every repository they contributed to. This project models
three parts of it and proves properties of each:

- **The commit-list route** (`src/pages/api/commit/list.ts`). It has three steps:
  - **The guards.** There is a 401 answer when the session has no user, or the user has no email. The canned mock data is answered when `USE_MOCK` is set.
  - **Two paginations against the GitHub GraphQL API.** The first discovers the contributed repositories, ten per page. The second fetches the ref pages of each repository and flattens every ref's history into commit records.
  - **The merge.** A map keyed by sha keeps one entry per commit and collects the branch of every record. The entries are then sorted latest first.
- **The commit card's picture** (`src/components/CommitCard.tsx`). The sha is cut into two-digit pieces. Each piece is read in base 16 and written back in base 2, left-padded to eight digits. Every digit 1 at position `i` fills a 4 x 4 square on an 80 x 128 canvas.
- **The timeline's grouping** (`src/pages/index.tsx`, `groupByCommits`). The commit list is grouped by day, by week or by `owner/name` repository key into an insertion-ordered `Map`.

## How the model is built

**Modules.**
- `Commits`: the domain records.
- `Pagination`: the two request loops.
- `Aggregation`: the sha merge and the sort.
- `CommitListRoute`: the handler.
- `Mock`: the canned response.
- `HashPattern`: the canvas effect.
- `Groups` and `Timeline`: the grouping.
- `Wrappers`: `Option`.

**Loops become methods.** Every loop of the source is a method with a loop. Each method is proved against a specification function, and the lemmas about that function state what the source promises:
- the three nested `forEach` of `formatCommitsFromRepo`;
- both `while (hasNext)` paginations;
- `Promise.all`;
- the `shaCommitMap` loop and the two loops of the canvas effect;
- each `forEach` of the grouping.

**The GitHub API is a total function.** It is a parameter from a token and a query to the page the provider answers.
- A method returns its request log alongside its result.
- `IsHistoryChain` and `IsDiscoveryChain` state what a complete pagination looks like. It starts with no cursor. Each request but the last saw `hasNextPage` and passes its `endCursor` on. The last saw `hasNextPage = false`.
- The source's loops end only if the provider eventually reports a last page. So that is the precondition (`HistoryEnds`, `DiscoveryEnds`), and the chain it names is unique.

**Values are simplified.**
- Dates are whole seconds since the epoch.
- The current time reaches the route through a parameter `sinceOf`. It stands for the `dayjs().add(-quantity, type)` computation at line 252.
- The day and week keys of the grouping are parameters (`dayKey`, `weekKey`). They stand for dayjs formatting.

**What the JavaScript built-ins do is written out.** This covers `parseInt` with a radix, `toString(2)`, `padStart` and `substring`. So the model also says what the card draws for some shas that are not hexadecimal. For example, a piece whose first character is neither a hexadecimal digit, a sign nor white space is drawn as `"00000NaN"`. A piece such as `"1g"`, with a valid leading digit, is read from that digit alone.

## Model

| member | source | states |
|---|---|---|
| Commits.FormatCommitsFromRepo | src/pages/api/commit/list.ts:115-140 | the loop over repositories, refs and history nodes returns the flattened records, one per history node |
| Commits.PushRefRecords | src/pages/api/commit/list.ts:118-137 | the loop over one repository's refs appends the records of every ref, in ref order |
| Commits.PushHistoryRecords | src/pages/api/commit/list.ts:120-136 | the loop over one ref's history appends one record per node, in node order |
| Commits.FlattenedCount | src/pages/api/commit/list.ts:115-140 | there are exactly as many records as history nodes over all repositories and refs |
| Commits.HistoryRecordsCount | src/pages/api/commit/list.ts:120-136 | one record per history node of a ref |
| Commits.RefRecordsCount | src/pages/api/commit/list.ts:118-137 | a repository yields as many records as its refs have history nodes |
| Commits.HistoryRecordsAre | src/pages/api/commit/list.ts:120-134 | a record comes from a ref's history exactly when it copies one node's fields, with that ref's name as branch |
| Commits.RefRecordsAre | src/pages/api/commit/list.ts:118-134 | a record comes from a repository exactly when it copies the fields of a node of one of its refs, with that ref's name as branch |
| Commits.FlattenedRecordsAre | src/pages/api/commit/list.ts:117-134 | a record is in the output exactly when it is built from a repository, one of its refs and one node of that ref's history: the sha is the oid, the date is committedDate, the branch is the ref's name |
| Pagination.FetchEachRepositoryCommits | src/pages/api/commit/list.ts:142-230 | the requests form a complete ref pagination: the first has no cursor, each later one carries the previous page's endCursor, and it stops at the first page without a next page; the result is every page's records, in page order |
| Pagination.HistoryChainUnique | src/pages/api/commit/list.ts:149-228 | a deterministic provider admits a single complete ref pagination, so the loop's request log is determined |
| Pagination.DiscoverContributedRepositories | src/pages/api/commit/list.ts:253-307 | the requests form a complete pagination of the user's contributed repositories, and the result is every page's nodes, in page order |
| Pagination.DiscoveryChainUnique | src/pages/api/commit/list.ts:254-307 | a deterministic provider admits a single complete discovery pagination |
| CommitListRoute.HandleCommitList | src/pages/api/commit/list.ts:232-339 | without a user or a non-empty email: 401 and no request to the provider; with `USE_MOCK` set: the mock data and no request; otherwise the merged commits of every contributed repository, sorted latest first, after exactly the discovery requests plus every repository's ref requests |
| CommitListRoute.FetchAllRepositoryCommits | src/pages/api/commit/list.ts:309-313 | list i is what the ref pagination of repository i returns, so there is one list per repository in repository order; their flattening is every repository's records; and the count of history requests made |
| CommitListRoute.ResponseProperties | src/pages/api/commit/list.ts:315-338 | the answer is sorted latest first, is a permutation of the merged entries, keeps entries of equal date in merge order, and has an entry for the sha of every fetched record |
| Aggregation.MergeBySha | src/pages/api/commit/list.ts:315-335 | the loop over the flattened records yields the map's values in insertion order: one entry per distinct sha, no more entries than records, every record's sha present, and the branch lists together hold one branch per record |
| Aggregation.Entry | src/pages/api/commit/list.ts:317-333 | the entry for a sha carries that sha |
| Aggregation.Entries | src/pages/api/commit/list.ts:315-335 | one entry per key, entry k being the entry of key k |
| Aggregation.BranchList | src/pages/api/commit/list.ts:319-321 | the branch of every record, in record order |
| Aggregation.EntryAfterNew | src/pages/api/commit/list.ts:322-333 | a record with an unseen sha creates an entry from its own fields with its branch as the only branch |
| Aggregation.EntryAfterSeen | src/pages/api/commit/list.ts:317-321 | a record with a seen sha appends its branch to that entry and changes nothing else |
| Aggregation.EntryAfterOther | src/pages/api/commit/list.ts:316-335 | a record leaves the entries of other shas unchanged |
| Aggregation.MergedShas | src/pages/api/commit/list.ts:315-335 | the entries follow the distinct shas in order of first occurrence, and there are no more of them than records |
| Aggregation.MergedUnique | src/pages/api/commit/list.ts:315-335 | no two entries have the same sha |
| Aggregation.MergedCoversInput | src/pages/api/commit/list.ts:316-335 | every record's sha has an entry |
| Aggregation.MergedFromInput | src/pages/api/commit/list.ts:316-335 | every entry's sha is the sha of some record |
| Aggregation.MergedBranchCount | src/pages/api/commit/list.ts:319-332 | the branch lists together hold exactly one branch per record, duplicates kept |
| Aggregation.BranchCountIsTotalSize | src/pages/api/commit/list.ts:319-332 | the branch lists of the entries are as long as the sha groups they stand for |
| Aggregation.MergedInFirstOccurrenceOrder | src/pages/api/commit/list.ts:323 | entries appear in the order in which their shas first occur (`Map` insertion order) |
| Aggregation.MergedEntryIsFirstOccurrence | src/pages/api/commit/list.ts:317-333 | every entry copies the fields of the first record with its sha, and its branches are the branches of all records with that sha, in record order |
| Aggregation.InsertPermutes | src/pages/api/commit/list.ts:338 | inserting one entry permutes the entries |
| Aggregation.InsertBounded | src/pages/api/commit/list.ts:338 | inserting keeps every date under a common upper bound |
| Aggregation.InsertKeepsDescending | src/pages/api/commit/list.ts:338 | inserting into a latest-first list keeps it latest first |
| Aggregation.InsertIsStable | src/pages/api/commit/list.ts:338 | inserting keeps the relative order of the entries of each date |
| Aggregation.SortIsDescending | src/pages/api/commit/list.ts:338 | the sorted list is latest first |
| Aggregation.SortIsPermutation | src/pages/api/commit/list.ts:338 | the sorted list is a permutation of the entries |
| Aggregation.SortIsStable | src/pages/api/commit/list.ts:338 | entries of equal date keep their relative order (the comparator returns 0 for them and the sort is stable) |
| Mock.MockDataIsAResponse | src/lib/mock.ts:3-88 | the canned answer has four entries, latest first, with distinct shas, two dated 2022-01-03 and two dated 2022-01-02, each on the master branch of sample/sample |
| HashPattern.SplitIntoPairs | src/components/CommitCard.tsx:17-20 | the first loop cuts the sha into its two-character pieces, the last one character long for an odd length |
| HashPattern.ChunksJoin | src/components/CommitCard.tsx:17-20 | joining the pieces gives the sha back |
| HashPattern.ChunksShape | src/components/CommitCard.tsx:17-20 | there are ceil(len / 2) pieces, piece k being characters 2k and 2k + 1 |
| HashPattern.Substring | src/components/CommitCard.tsx:19 | `substring` returns as many characters as the clamped bounds enclose |
| HashPattern.HexPairValue | src/components/CommitCard.tsx:21 | two hexadecimal digits parse in base 16 as one byte, high digit first |
| HashPattern.ByteStringOfHexPair | src/components/CommitCard.tsx:21 | a two-digit piece becomes its byte below 256 in base 2, left-padded with "0" to eight characters |
| HashPattern.ByteStringOfHexDigit | src/components/CommitCard.tsx:21 | a one-digit last piece becomes its value below 16 in base 2, left-padded to eight characters |
| HashPattern.ByteStringOfNaN | src/components/CommitCard.tsx:21 | a piece that does not start with a hexadecimal digit, a sign or white space becomes "00000NaN" |
| HashPattern.PaddedByte | src/components/CommitCard.tsx:21 | a padded byte has eight characters: its bits, most significant first |
| HashPattern.PaddedByteRoundTrip | src/components/CommitCard.tsx:21-24 | a padded byte string parses back in base 2 as the byte |
| HashPattern.ShaByteLengths | src/components/CommitCard.tsx:21 | every piece of a hexadecimal sha is written with exactly eight characters, and there are ceil(len / 2) of them |
| HashPattern.PatternBitsLength | src/components/CommitCard.tsx:21-25 | a hexadecimal sha yields exactly 8 * ceil(len / 2) bits |
| HashPattern.BinaryDigitValue | src/components/CommitCard.tsx:24 | one character parses in base 2 as 0 for "0", 1 for "1", NaN otherwise |
| HashPattern.ToBits | src/components/CommitCard.tsx:22-25 | the second loop yields one bit per character of the joined string, each the character's base-2 reading |
| HashPattern.ShaBits | src/components/CommitCard.tsx:17-25 | for a hexadecimal sha of even length, there are 4 * len bits; bit i is bit 7 - i mod 8 of byte i / 8, and it is 0 or 1 |
| HashPattern.DrawBits | src/components/CommitCard.tsx:29-33 | one fill call per bit equal to 1, in bit order |
| HashPattern.DrawCommitHash | src/components/CommitCard.tsx:14-33 | the effect clears the 80 x 128 canvas, sets the fill colour #075985, then makes the fill calls of the sha's bits |
| HashPattern.FillsAre | src/components/CommitCard.tsx:29-33 | a square is filled exactly when some bit i is 1 and the square is the cell of index i |
| HashPattern.FillsInsideCanvas | src/components/CommitCard.tsx:31 | every filled 4 x 4 square lies inside the canvas: x in 0 to 76, y in 0 to 124 |
| HashPattern.CellPeriod | src/components/CommitCard.tsx:31 | bit i and bit i + 160 fill the same square |
| HashPattern.CellsDistinct | src/components/CommitCard.tsx:31 | the first 160 bits fill 160 different squares |
| HashPattern.FillsDistinct | src/components/CommitCard.tsx:29-33 | for at most 160 bits no square is filled twice |
| HashPattern.PatternIsShaBits | src/components/CommitCard.tsx:17-33 | for a hexadecimal sha of even length, a fill call is made exactly for the cells of the sha's 1-bits |
| HashPattern.FullShaPattern | src/components/CommitCard.tsx:17-33 | a 40-digit sha gives 160 bits, and the fill calls are all different |
| Groups.KeysOf | src/pages/index.tsx:66-67 | the key of each element, in input order |
| Groups.Distinct | src/pages/index.tsx:68-71 | the map's keys have no duplicates and are exactly the keys that occur |
| Groups.FirstIndex | src/pages/index.tsx:71 | the position at which a key first occurs |
| Groups.DistinctInFirstOccurrenceOrder | src/pages/index.tsx:65-74 | keys are listed in the order of their first occurrence (`Map` insertion order) |
| Groups.MembersNonEmpty | src/pages/index.tsx:68-72 | a group is non-empty exactly when its key occurs |
| Groups.MembersHaveKey | src/pages/index.tsx:66-72 | every member of a group has that group's key |
| Groups.MembersConcat | src/pages/index.tsx:66-73 | grouping a concatenation concatenates the groups: members keep input order |
| Groups.GroupSizesSum | src/pages/index.tsx:66-73 | every element lands in exactly one group: the group sizes sum to the input length |
| Timeline.GroupByKey | src/pages/index.tsx:65-74 | the `forEach` over the list builds the insertion-ordered grouping: every group non-empty, its members carrying its key in input order, the sizes summing to the list length |
| Timeline.GroupsAfter | src/pages/index.tsx:68-72 | taking one element in keeps the map the grouping of the longer prefix |
| Timeline.GroupingFacts | src/pages/index.tsx:65-74 | any grouping has non-empty groups whose members carry the group's key, and its group sizes sum to the input length |
| Timeline.GroupByCommits | src/pages/index.tsx:62-100 | no list gives no grouping; otherwise the grouping by day, by week or by repository key |
| Timeline.RepositoryKeyInjective | src/pages/index.tsx:91 | for logins without "/", two commits share a repository key exactly when they share owner login and repository name |
| Timeline.DistinctOfUniform | src/pages/index.tsx:68-71 | a non-empty list of a single key has that key as its only distinct key |
| Timeline.MockRepositoryKeys | src/pages/index.tsx:91 | every mock commit has repository key "sample/sample" |
| Timeline.MockByRepository | src/pages/index.tsx:88-99 | grouping the mock data by repository gives the single group "sample/sample" holding all four commits |
| Timeline.MockDayKeys | src/pages/index.tsx:64-75 | grouping the mock data by day gives the two days in order, 2022-01-03 first |
| Timeline.MockDayGroups | src/pages/index.tsx:64-75 | grouping the mock data by day puts the first two commits in the first group and the last two in the second |

## Left out

- The HTTP transport to `api.github.com/graphql` and the GraphQL query text are left out. A function from token and query to page stands in for the provider. Failed or malformed responses are not modelled.
- `Promise.all` runs the per-repository fetches concurrently. The model runs them one after another in repository order, which is the order `Promise.all` reports its results in.
- The page sizes are left out: `refs(first: 100)` at list.ts line 174, `history(first: 100)` at line 187 and `repositoriesContributedTo(first: 10)` at line 269. The pages are whatever the provider function answers.
- dayjs is not modelled. Dates are integers, the `since` timestamp comes from the parameter `sinceOf`, and the day and week keys of the grouping come from `dayKey` and `weekKey`. The comparator's NaN for unparsable dates is not modelled.
- `endCursor` is always a string in the model, as the source's types declare it (list.ts lines 26 and 62). The provider's schema lets it be null on an empty page. That page reports `hasNextPage = false`, so the loop stops before the cursor would be sent. The null value itself is not modelled.
- A record's `repository` in the source is the whole response object, refs included. The model keeps only its name, url and owner.
- Reading the session and `req.body` is left out: the route receives the session user, `USE_MOCK` and the parsed body as parameters. A body that fails to parse is not modelled. The session middleware and the sign-in routes are not part of this model.
- The `canvasRef.current` and `getContext` null checks (CommitCard.tsx lines 11-13), and the React rendering, are left out. The canvas is modelled as the list of calls made on its 2D context.
- Substring: models `substring(start, end)` only for `start <= end`, since every call in the effect passes `end = start + 1` or `start + 2`.
- ShaBits, PatternIsShaBits: the bit-by-bit reading is stated for hexadecimal shas of even length. For odd lengths only the number of bits (PatternBitsLength) is stated.
- Strings are sequences of Unicode scalar values. In JavaScript, `sha.length` and `substring` count UTF-16 code units. A sha with a character outside the Basic Multilingual Plane is therefore cut differently from the browser, and the model does not capture that. Commit shas are ASCII hexadecimal, so this does not affect them.
- The comment at CommitCard.tsx line 28 says `(scale ** 2) * 160 = canvasWidth * canvasHeight`: 2560 on the left against 10240 on the right. Only the fact behind it is modelled: 160 bits fill 160 distinct squares (CellsDistinct). It is a comment, not code, so it is not listed as a finding.
- The map updates in place: `mappedCommit.branches.push` mutates the stored entry, and the grouping pushes onto stored arrays. The model rebuilds the map entry instead. There is no aliasing to capture, because every entry is reachable only through the map.
- The timeline's `useMemo` and React re-rendering are left out. `groupByCommits` is modelled as the computation it memoises.
