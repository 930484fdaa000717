# Developer–task graph builder, in Dafny

This project models the graph-construction core of `data/generate_graph.py`
(lines 23–103). The script turns GitHub pull-request records and a developer
profile table into a heterogeneous graph with two node types, developers and
tasks. It works in four steps:

- **Entities.** `dev_list` is the sorted set of PR author logins and review
  author logins. `task_list` holds the sorted identifiers `task_<number>`, one
  per PR. `dev2idx` and `task2idx` map each list element to its position.
- **Edges.** One loop over the PRs collects authorship pairs and review pairs
  (login, task). A pair is kept only when its login is in `dev2idx`.
- **Features.** Each developer row is the two skill values, then the language
  embedding, then the task-type vector. Each task row holds eight values:
  - a pseudo complexity, `hash(title) % 3 + 1`, on the lower-cased title;
  - the index of the first keyword of the table `bug, feature, refactor,
    docs, test, misc` that occurs in the title, or 5 when none does;
  - six zeros.
- **Graph.** The pairs become index pairs through `dev2idx` and `task2idx`.
  The two task→developer relations are the same pairs with source and
  destination swapped.

Module layout, leaves first:

| module | file | contents |
|---|---|---|
| `Results` | `results.dfy` | `Option` and `Result` |
| `Strings` | `strings.dfy` | Python's string order (`Less`), `str.lower` (`Lower`), the `in` substring test (`Contains`), `str(int)` (`IntToDecimal`) |
| `Sorting` | `sorting.dfy` | `sorted` (`SortStrings`), `sorted(set(...))` (`SortedUnique`), dict-from-`enumerate` (`IndexMap`) |
| `Records` | `records.dfy` | the parsed PR, review and profile records; the errors the script raises; `TaskId` |
| `Entities` | `entities.dfy` | `DevList`, `TaskList`, `DevIndex`, `TaskIndex` |
| `Features` | `features.dfy` | developer and task rows, the tag classifier, the row-width check of the tensor conversion |
| `Edges` | `edges.dfy` | edge lists as reference functions, the edge loop `BuildEdges`, index conversion |
| `Graph` | `graph.dfy` | the whole pipeline, `BuildGraph` |
| `Scenarios` | `scenarios.dfy` | concrete inputs worked through the model |

Design choices:

- **Errors.** The source raises in four places. Each one becomes a `Result`
  error here:
  - the PR author login at line 42 is read without a guard: `MissingPrAuthor`;
  - a reviewer login at line 46 is read without a guard: `MissingReviewAuthor`;
  - `profiles[dev]` at line 53: `MissingProfile`;
  - `torch.tensor(dev_feats)` at line 88 fails on developer rows of unequal
    width, which profiles with embeddings or task-type vectors of different
    lengths produce: `RaggedDevRows`, naming the first developer whose row
    is not as wide as the first row.

  `BuildGraph` reports the error the script would raise first.
- **Edge task keys.** An edge records its task by the PR number. The source
  stores the string `task_<number>` instead. `Records.TaskIdInjective` shows
  the two keys are interchangeable. `TaskId` is applied where the source looks
  the task up in `task2idx`.
- **Total edge functions.** The reference functions `AuthorEdges` and
  `ReviewEdges` skip an entry that has no author. The loop `BuildEdges`
  instead fails on such an entry, as the source does, and otherwise returns
  exactly these functions' values.
- **Row order.** Task feature rows come out in PR order. Task node indices
  come out in string order, so `"task_10"` sorts before `"task_7"`. The model
  keeps this as written. `Scenarios.TaskRowsDoNotFollowTaskIndex` shows a
  two-PR input where `task2idx` sends PR 7's task to the node whose feature
  row is built from PR 10, and PR 10's task to the node whose row is built
  from PR 7.

Facts about the code that the model keeps as written:

- Lines 26 and 28 skip a PR or review without an author when collecting
  `dev_list`. Lines 42 and 46 read the author login with no such guard, so
  the same input makes the edge loop raise. The model follows the edge loop.
- Line 75 uses the built-in `hash`, which Python salts per process for
  strings, so a title's complexity differs between runs. Here the hash is a
  parameter `hash: string -> int`, so every property holds for any hash
  function.
- Line 67 binds `tag_map` again and so replaces the table of line 63 before
  any use. The keyword loop therefore reads the table with `"bug"`, not
  `"bugfix"`.

## Model

| member | source | states |
|---|---|---|
| `Strings.Lower` | data/generate_graph.py:71 | The lower-cased title has the same length and contains no upper-case ASCII letter. Each upper-case letter becomes the letter 32 code points up, its lower-case form. Every other character stays in place. |
| `Strings.ContainsIffOccurs` | data/generate_graph.py:80 | The keyword test `keyword in title` holds exactly when the keyword occurs at some position of the title. |
| `Strings.IntToDecimalRoundTrip` | data/generate_graph.py:32 | The decimal text of a PR number reads back to that number, negative numbers included. |
| `Sorting.SortStrings` | data/generate_graph.py:32 | `sorted` returns a list ordered by Python's string order that is a permutation of its input. |
| `Sorting.SortedUnique` | data/generate_graph.py:24-30 | `sorted(set(...))` returns a strictly increasing list whose elements are exactly the input's elements. |
| `Sorting.StrictlySortedUnique` | data/generate_graph.py:24-30 | Two strictly sorted lists with the same elements are equal, so the developer order is determined by the set of logins. |
| `Sorting.IndexMap` | data/generate_graph.py:33-34 | The dict built from `enumerate` has exactly the list's elements as keys. It maps each key to a position holding it, and no later position holds it, because the last write wins. |
| `Sorting.IndexMapOfDistinct` | data/generate_graph.py:33 | On a duplicate-free list, the dict maps element `k` back to position `k`. |
| `Sorting.DuplicateShrinksSet` | data/generate_graph.py:34 | A list with a repeated element has fewer distinct elements than entries. |
| `Records.TaskIdInjective` | data/generate_graph.py:32 | Two PRs get the same task identifier exactly when they have the same number. |
| `Records.TaskIdRoundTrip` | data/generate_graph.py:41 | The PR number can be read back from the task identifier. |
| `Entities.PrLogins` | data/generate_graph.py:25-28 | One PR contributes exactly its author (when present) and the authors of its reviews (when present). |
| `Entities.LoginOccurrences` | data/generate_graph.py:24-30 | The collected logins are exactly the logins of authors or reviewers of some PR. |
| `Entities.DevList` | data/generate_graph.py:24-30 | `dev_list` is strictly sorted, hence duplicate-free. A login is in it exactly when it authored or reviewed some PR. |
| `Entities.TaskList` | data/generate_graph.py:32 | `task_list` is sorted, has one entry per PR, and is a permutation of the PRs' task identifiers, duplicates included. |
| `Entities.DevIndexIsPosition` | data/generate_graph.py:33 | `dev2idx` knows exactly the developers and maps each `dev_list[k]` to `k`. |
| `Entities.DeveloperIsIndexed` | data/generate_graph.py:33 | Every author or reviewer of a PR has a `dev2idx` entry. |
| `Entities.TaskIndexCoversPrs` | data/generate_graph.py:34 | Every PR's task identifier has a `task2idx` entry that points to a `task_list` position holding that identifier. |
| `Entities.DevListDependsOnlyOnDevelopers` | data/generate_graph.py:24-30 | Two PR lists with the same developers give the same `dev_list`, whatever their order or repetitions. |
| `Entities.DuplicateNumbersCollapse` | data/generate_graph.py:32-34 | Two PRs with one number give `task_list` one entry per PR, yet `task2idx` has fewer keys than `task_list` has entries. |
| `Features.DevFeatureRowRoundTrip` | data/generate_graph.py:54-59 | The developer row holds both skills, the embedding and the task types, each recoverable from its own slots. |
| `Features.BuildDevFeatures` | data/generate_graph.py:51-60 | Gives one row per developer in `dev_list` order when every developer has a profile. Otherwise it fails with `MissingProfile` for the first developer without one. |
| `Features.FindRaggedRow` | data/generate_graph.py:88 | The shape check of the tensor conversion finds nothing exactly when every row is as wide as the first. Otherwise it names the first row of another width. |
| `Features.Complexity` | data/generate_graph.py:75 | The complexity is 1, 2 or 3 for every hash value. |
| `Features.TagIndex` | data/generate_graph.py:78-82 | The tag is the value of the first table keyword occurring in the title, or the default 5 when none occurs. |
| `Features.TagIndexCharacterisation` | data/generate_graph.py:67-82 | Tag `k < 5` is given exactly when keyword `k` is the first keyword in table order to occur. Tag 5 is given exactly when none of the first five occurs. |
| `Features.BugWins` | data/generate_graph.py:67-82 | A title containing "bug" gets tag 0, whatever other keywords it contains. |
| `Features.TaskFeatureRow` | data/generate_graph.py:70-85 | A task row has width 8. Slot 0 is the complexity of the lower-cased title, so 1, 2 or 3. Slot 1 is its tag. Slots 2 to 7 are zero. |
| `Features.TaskFeatureRowIgnoresCase` | data/generate_graph.py:71 | Titles differing only in ASCII letter case give the same task row. |
| `Features.TaskFeatures` | data/generate_graph.py:69-85 | `task_feats` has one row per PR, in PR order. Every row is 8 wide, so their tensor conversion at line 90 cannot fail. |
| `Edges.AuthorEdges` | data/generate_graph.py:40-44 | A PR list yields at most one authorship edge per PR. |
| `Edges.ReviewEdgesFor` | data/generate_graph.py:45-48 | One PR yields at most one review edge per review entry. |
| `Edges.ReviewEdges` | data/generate_graph.py:40-48 | A PR list yields at most one review edge per review entry, over all PRs. |
| `Edges.AuthorEdgeOf` | data/generate_graph.py:42-44 | A PR yields at most one authorship pair: its author and its task, present exactly when the author is in `dev2idx`. |
| `Edges.AuthorEdgesMembership` | data/generate_graph.py:40-44 | A pair is an authorship edge exactly when some PR's author is that login, the login is in `dev2idx`, and the task is that PR's. |
| `Edges.ReviewEdgesForMembership` | data/generate_graph.py:45-48 | A PR's review pairs are exactly its reviews' authors that are in `dev2idx`, paired with its task. |
| `Edges.ReviewEdgesMembership` | data/generate_graph.py:40-48 | A pair is a review edge exactly when some review of some PR is by that login, the login is in `dev2idx`, and the task is that PR's. |
| `Edges.AuthorEdgesAppend` | data/generate_graph.py:40-44 | Authorship edges of concatenated PR lists are the concatenated edges, so edges follow PR order. |
| `Edges.ReviewEdgesAppend` | data/generate_graph.py:40-48 | Review edges of concatenated PR lists are the concatenated edges, so edges follow PR order. |
| `Edges.AuthorEdgesAllRecognised` | data/generate_graph.py:40-44 | When every author is indexed, there is one authorship edge per PR, and edge `i` is PR `i`'s author writing PR `i`'s task. |
| `Edges.ReviewEdgesForAllRecognised` | data/generate_graph.py:45-48 | When every reviewer of a PR is indexed, the PR yields one review edge per review entry, duplicates kept. Edge `j` is review `j`'s author paired with the PR's task. |
| `Edges.ReviewEdgesCount` | data/generate_graph.py:40-48 | When every reviewer is indexed, the number of review edges is the total number of review entries. |
| `Edges.ReviewEdgeAt` | data/generate_graph.py:40-48 | When every reviewer is indexed, review `j` of PR `i` yields the review edge at position `TotalReviews(prs[..i]) + j`: its author paired with PR `i`'s task. |
| `Edges.ReviewEdgesAllRecognised` | data/generate_graph.py:40-48 | When every reviewer is indexed, there is one review edge per review entry, in PR order and then review order. Review `j` of PR `i` yields the edge at position `TotalReviews(prs[..i]) + j`. |
| `Edges.BuildReviewEdgesFor` | data/generate_graph.py:45-48 | The review loop of one PR succeeds exactly when every review has an author, and then returns that PR's review edges. |
| `Edges.BuildEdges` | data/generate_graph.py:37-48 | Succeeds exactly when every PR and every review has an author, and then returns both reference edge lists. Otherwise it fails at the first PR that lacks an author or holds an authorless review, with the matching error. |
| `Edges.ToEdgeIndex` | data/generate_graph.py:93-94 | Source and destination lists have one entry per edge. Each entry is a node position holding that edge's developer or task, and no later position holds it, as the dict's last write wins. |
| `Edges.Transpose` | data/generate_graph.py:102-103 | The inverse index has the two lists swapped. It links task `b` to developer `a` exactly when the original links `a` to `b`. |
| `Graph.AuthorsAreIndexed` | data/generate_graph.py:42-43 | When no lookup raises, every PR author is in `dev2idx`, so the authorship filter drops nothing. |
| `Graph.ReviewersAreIndexed` | data/generate_graph.py:46-47 | When no lookup raises, every reviewer is in `dev2idx`, so the review filter drops nothing. |
| `Graph.EdgeEndpointsAreNodes` | data/generate_graph.py:93-98 | Every collected edge has its developer in `dev_list` and its task identifier in `task_list`, so the index lookups cannot raise. |
| `Graph.WritesIndex` | data/generate_graph.py:93-95 | The writes index has one pair per PR. Pair `i` points to the last `dev_list` position holding PR `i`'s author and the last `task_list` position holding PR `i`'s task identifier, as `dev2idx` and `task2idx` give them. |
| `Graph.ReviewsIndex` | data/generate_graph.py:97-99 | The reviews index has one pair per review entry. Pair `TotalReviews(prs[..i]) + j` points to review `j` of PR `i`: the last `dev_list` position holding its author and the last `task_list` position holding PR `i`'s task identifier. |
| `Graph.BuildEdgeIndices` | data/generate_graph.py:40-99 | The edge loop followed by index conversion either fails as the edge loop does, or yields exactly the writes and reviews indices. |
| `Graph.DevRowsRectangular` | data/generate_graph.py:51-88 | The developer rows are all as wide as the first exactly when all developers' profiles give rows of one width. |
| `Graph.BuildDevNodes` | data/generate_graph.py:51-88 | Succeeds exactly when every developer has a profile and all their rows have one width. Otherwise it fails at the first developer without a profile, or else at the first developer whose row is not as wide as the first. |
| `Graph.BuildGraph` | data/generate_graph.py:23-103 | Succeeds exactly when every author is present, every developer has a profile and all developer rows have one width. The error is the first one the script meets: the first PR lacking an author, then the first developer without a profile, then the first row of another width. On success it returns the developer ids and rows, `task_feats`, the two indices and their inverses. |
| `Scenarios.LoginFixDevelopers` | data/generate_graph.py:24-30 | PR 7 by alice, reviewed by bob, gives `dev_list == ["alice", "bob"]`. |
| `Scenarios.LoginFixTasks` | data/generate_graph.py:32 | The same input gives `task_list == ["task_7"]`. |
| `Scenarios.LoginFixTag` | data/generate_graph.py:71-82 | "Fix bug in login" gets tag 0. |
| `Scenarios.LoginFixWrites` | data/generate_graph.py:93-95 | The writes index of that input is the single pair (0, 0). |
| `Scenarios.LoginFixReviews` | data/generate_graph.py:97-99 | The reviews index of that input is the single pair (1, 0). |
| `Scenarios.TaskOrderIsLexicographic` | data/generate_graph.py:32 | PRs 7 and 10 give `task_list == ["task_10", "task_7"]`: the identifiers sort as strings, not as numbers. |
| `Scenarios.TaskRowsDoNotFollowTaskIndex` | data/generate_graph.py:32-85 | For PRs 7 then 10, `task2idx` sends PR 7's task to node 1 and PR 10's to node 0. The feature row at PR 7's node is built from PR 10, and the row at PR 10's node from PR 7. |

## Left out

- Reading the inputs (lines 9–21): file paths, JSON and YAML parsing. The model starts from parsed PR records and a profile map.
- The backlog (lines 13 and 20–21): it is read but never used by the graph construction.
- The built-in `hash` (line 75): it is salted per process and cannot be stated in Dafny. It is a parameter, and every property holds for any hash function.
- `Strings.Lower`: models `str.lower()` for ASCII letters only. Python's Unicode case mapping is not modelled, so keyword matching on non-ASCII titles is not covered.
- The first `tag_map` (line 63) and `import hashlib` (line 64): both are dead code, because the second `tag_map` overwrites the first and `hashlib` is never used.
- Tensor conversion and packaging (lines 87–103): `torch.tensor` with float or long dtype, the `HeteroData` container, and its attribute layout. Only the row-width check of the developer rows is modelled. Feature values are Dafny `real`s, without floating-point rounding. The graph is the datatype `Graph.HeteroGraph`.
- Saving and the summary print (lines 105–108): output only.
- Malformed records are not modelled. These are:
  - a PR without `number` or `title`;
  - an author object without `login`;
  - a `reviews` value that is `null`;
  - non-string logins.

  The script raises on them; the model's records cannot express them. An absent or `null` author object is modelled, as `None`.
- `Graph.BuildGraph`: a profile without `skill`, `skill.code`, `skill.review`, `lang_emb` or `task_types` (lines 55–58) raises `KeyError` in the script. The model's `Profile` record always has these fields, so this failure is not modelled.
- `Edges.AuthorEdges` and `Edges.ReviewEdges`: they are defined on all PR lists and skip authorless entries. In the source those entries make the loop raise. `Edges.BuildEdges` models that failure.
