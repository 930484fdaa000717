/** Entity extraction: the developer list, the task list and their position
    indices (`dev_list`, `task_list`, `dev2idx`, `task2idx`). */
module Entities {
  import opened Results
  import opened Sorting
  import opened Records

  /** The review authors of one review list, in order, skipping reviews
      without an author. */
  function ReviewerLogins(reviews: seq<Review>): (r: seq<string>)
    ensures forall x :: x in r <==> exists j :: 0 <= j < |reviews| && reviews[j].author == Some(x)
  {
    if |reviews| == 0 then []
    else
      var init := ReviewerLogins(reviews[..|reviews| - 1]);
      var last := reviews[|reviews| - 1];
      assert forall j :: 0 <= j < |reviews| - 1 ==> reviews[..|reviews| - 1][j] == reviews[j];
      match last.author
      case None => init
      case Some(login) => init + [login]
  }

  /** The logins one PR contributes to the developer set. */
  function PrLogins(pr: PullRequest): (r: seq<string>)
    ensures forall x :: x in r <==> Involves(pr, x)
  {
    (match pr.author case None => [] case Some(login) => [login]) + ReviewerLogins(pr.reviews)
  }

  /** Every developer login occurring in the PRs, with repetitions. */
  function LoginOccurrences(prs: seq<PullRequest>): (r: seq<string>)
    ensures forall x :: x in r <==> exists i :: 0 <= i < |prs| && Involves(prs[i], x)
  {
    if |prs| == 0 then []
    else
      var init := prs[..|prs| - 1];
      assert forall i :: 0 <= i < |prs| - 1 ==> init[i] == prs[i];
      LoginOccurrences(init) + PrLogins(prs[|prs| - 1])
  }

  /** The login is the author or a review author of some PR. */
  predicate IsDeveloper(prs: seq<PullRequest>, x: string)
  {
    exists i :: 0 <= i < |prs| && Involves(prs[i], x)
  }

  /** `dev_list`: the set of PR authors and review authors, sorted. */
  function DevList(prs: seq<PullRequest>): (r: seq<string>)
    ensures StrictlySorted(r)
    ensures forall x :: x in r <==> IsDeveloper(prs, x)
  {
    SortedUnique(LoginOccurrences(prs))
  }

  /** The task identifier of every PR, in PR order. */
  function TaskIds(prs: seq<PullRequest>): (r: seq<string>)
    ensures |r| == |prs|
    ensures forall i :: 0 <= i < |prs| ==> r[i] == TaskId(prs[i].number)
  {
    seq(|prs|, i requires 0 <= i < |prs| => TaskId(prs[i].number))
  }

  /** `task_list`: one identifier per PR, sorted as strings, duplicates kept. */
  function TaskList(prs: seq<PullRequest>): (r: seq<string>)
    ensures Sorted(r)
    ensures |r| == |prs|
    ensures multiset(r) == multiset(TaskIds(prs))
    ensures forall t :: t in r <==> exists i :: 0 <= i < |prs| && t == TaskId(prs[i].number)
  {
    var r := SortStrings(TaskIds(prs));
    assert forall t :: t in r <==> t in multiset(TaskIds(prs));
    r
  }

  /** `dev2idx`. */
  function DevIndex(prs: seq<PullRequest>): map<string, nat>
  {
    IndexMap(DevList(prs))
  }

  /** `task2idx`. */
  function TaskIndex(prs: seq<PullRequest>): map<string, nat>
  {
    IndexMap(TaskList(prs))
  }

  /** `dev2idx` maps each developer to its position in `dev_list`, and knows
      exactly the developers of the PRs. */
  lemma DevIndexIsPosition(prs: seq<PullRequest>)
    ensures forall x :: x in DevIndex(prs) <==> IsDeveloper(prs, x)
    ensures forall k :: 0 <= k < |DevList(prs)| ==> DevIndex(prs)[DevList(prs)[k]] == k
  {
    var devs := DevList(prs);
    StrictlySortedIsDuplicateFree(devs);
    forall k | 0 <= k < |devs|
      ensures DevIndex(prs)[devs[k]] == k
    {
      IndexMapOfDistinct(devs, k);
    }
  }

  lemma DeveloperIsIndexed(prs: seq<PullRequest>, x: string)
    requires IsDeveloper(prs, x)
    ensures x in DevIndex(prs)
  {
    assert x in DevList(prs);
  }

  /** `task2idx` maps every PR's task identifier to a position of `task_list`
      holding that identifier. */
  lemma TaskIndexCoversPrs(prs: seq<PullRequest>, i: nat)
    requires i < |prs|
    ensures TaskId(prs[i].number) in TaskIndex(prs)
    ensures TaskIndex(prs)[TaskId(prs[i].number)] < |prs|
    ensures TaskList(prs)[TaskIndex(prs)[TaskId(prs[i].number)]] == TaskId(prs[i].number)
  {
  }

  /** The developer list depends only on which logins occur, not on the order
      of the PRs or of their reviews, nor on how often a login occurs. */
  lemma DevListDependsOnlyOnDevelopers(prs: seq<PullRequest>, qrs: seq<PullRequest>)
    requires forall x :: IsDeveloper(prs, x) <==> IsDeveloper(qrs, x)
    ensures DevList(prs) == DevList(qrs)
  {
    StrictlySortedUnique(DevList(prs), DevList(qrs));
  }

  /** Two PRs with one number share one task identifier: `task_list` keeps both
      entries while `task2idx` has fewer keys than `task_list` has entries. */
  lemma DuplicateNumbersCollapse(prs: seq<PullRequest>, i: nat, j: nat)
    requires i < j < |prs| && prs[i].number == prs[j].number
    ensures |TaskList(prs)| == |prs|
    ensures |TaskIndex(prs).Keys| < |TaskList(prs)|
  {
    var ids := TaskIds(prs);
    DuplicateShrinksSet(ids, i, j);
    PermutedKeys(TaskList(prs), ids);
  }

  /** A permutation of a list has the same distinct elements, so its position
      index has one key per distinct element. */
  lemma PermutedKeys(xs: seq<string>, ys: seq<string>)
    requires multiset(xs) == multiset(ys)
    ensures |xs| == |ys|
    ensures IndexMap(xs).Keys == set y | y in ys
  {
    assert |xs| == |multiset(xs)| == |multiset(ys)| == |ys|;
    forall x
      ensures x in xs <==> x in ys
    {
      assert x in xs <==> x in multiset(xs);
      assert x in ys <==> x in multiset(ys);
    }
  }
}
