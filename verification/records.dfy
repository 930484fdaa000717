/** The already-parsed inputs of the graph builder and the errors it can raise. */
module Records {
  import opened Results
  import opened Strings

  /** One entry of `reviews.nodes`; `author` is absent when the JSON has no
      author object (or a null one). */
  datatype Review = Review(author: Option<string>)

  /** One pull-request record. A missing `reviews` object reads as no reviews. */
  datatype PullRequest = PullRequest(number: int, title: string, author: Option<string>, reviews: seq<Review>)

  /** One entry of the developer profile table. */
  datatype Profile = Profile(code: real, review: real, langEmb: seq<real>, taskTypes: seq<real>)

  /** The failures that raise in the source. */
  datatype Error =
    | MissingPrAuthor(number: int)      // the PR author login is read on a PR without author
    | MissingReviewAuthor(number: int)  // a reviewer login is read on a review without author
    | MissingProfile(login: string)     // a developer has no entry in the profile table
    | RaggedDevRows(login: string)      // this developer's feature row is wider or narrower than the first

  const TaskPrefix: string := "task_"

  /** The task identifier: the prefix "task_" followed by the PR number in decimal. */
  function TaskId(number: int): (t: string)
  {
    TaskPrefix + IntToDecimal(number)
  }

  /** Recovers the PR number from a task identifier. */
  function TaskNumber(t: string): int
  {
    if |t| >= |TaskPrefix| then DecimalValue(t[|TaskPrefix|..]) else 0
  }

  /** Task identifiers decode back to their PR number, so two PRs share a task
      identifier exactly when they share a number. */
  lemma TaskIdRoundTrip(number: int)
    ensures TaskNumber(TaskId(number)) == number
  {
    assert TaskId(number)[|TaskPrefix|..] == IntToDecimal(number);
    IntToDecimalRoundTrip(number);
  }

  lemma TaskIdInjective(a: int, b: int)
    ensures TaskId(a) == TaskId(b) <==> a == b
  {
    if TaskId(a) == TaskId(b) {
      TaskIdRoundTrip(a);
      TaskIdRoundTrip(b);
    }
  }

  /** The PR has an author, with this login. */
  predicate AuthoredBy(pr: PullRequest, login: string)
  {
    pr.author == Some(login)
  }

  /** Some review of the PR is by `login`. */
  predicate ReviewedBy(pr: PullRequest, login: string)
  {
    exists j :: 0 <= j < |pr.reviews| && pr.reviews[j].author == Some(login)
  }

  /** The login is a developer of the PR: its author or one of its reviewers. */
  predicate Involves(pr: PullRequest, login: string)
  {
    AuthoredBy(pr, login) || ReviewedBy(pr, login)
  }

  /** Every review of the list has an author object. */
  predicate ReviewsAuthored(reviews: seq<Review>)
  {
    forall j :: 0 <= j < |reviews| ==> reviews[j].author.Some?
  }

  /** The PR and all its reviews have authors, so the edge loop does not raise on it. */
  predicate FullyAuthored(pr: PullRequest)
  {
    pr.author.Some? && ReviewsAuthored(pr.reviews)
  }

  predicate AllFullyAuthored(prs: seq<PullRequest>)
  {
    forall i :: 0 <= i < |prs| ==> FullyAuthored(prs[i])
  }

  lemma AllFullyAuthoredPrefix(prs: seq<PullRequest>, k: nat)
    requires AllFullyAuthored(prs) && k <= |prs|
    ensures AllFullyAuthored(prs[..k])
  {
    forall i | 0 <= i < k
      ensures FullyAuthored(prs[..k][i])
    {
      assert prs[..k][i] == prs[i];
    }
  }

  lemma AllFullyAuthoredAppend(a: seq<PullRequest>, b: seq<PullRequest>)
    requires AllFullyAuthored(a) && AllFullyAuthored(b)
    ensures AllFullyAuthored(a + b)
  {
    forall i | 0 <= i < |a + b|
      ensures FullyAuthored((a + b)[i])
    {
      if i < |a| {
        assert (a + b)[i] == a[i];
      } else {
        assert (a + b)[i] == b[i - |a|];
      }
    }
  }

  /** The number of review entries across all PRs. */
  function TotalReviews(prs: seq<PullRequest>): nat
  {
    if |prs| == 0 then 0 else TotalReviews(prs[..|prs| - 1]) + |prs[|prs| - 1].reviews|
  }
}
