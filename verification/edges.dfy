/** Edge building: authorship and review edges from developer to task, their
    conversion to index pairs, and the task-to-developer inverses. */
module Edges {
  import opened Results
  import opened Sorting
  import opened Records

  /** A (login, task) pair as collected in `edges_author` / `edges_review`.
      The task is named by its PR number; its identifier is `TaskId(task)`,
      which is injective (`Records.TaskIdInjective`), so the two names are
      interchangeable. */
  datatype Edge = Edge(dev: string, task: int)

  /** The authorship edge of one PR, if it has an author and that author is
      in `devIndex`. */
  function AuthorEdgeOf(pr: PullRequest, devIndex: map<string, nat>): (r: seq<Edge>)
    ensures |r| <= 1
    ensures forall e :: e in r <==> e.dev in devIndex && AuthoredBy(pr, e.dev) && e.task == pr.number
  {
    if pr.author.Some? && pr.author.value in devIndex then [Edge(pr.author.value, pr.number)] else []
  }

  /** The authorship edges of PRs whose author is in `devIndex`, one per such
      PR, in PR order. A PR without author contributes nothing here; the edge
      loop itself raises on it (see `BuildEdges`). */
  function AuthorEdges(prs: seq<PullRequest>, devIndex: map<string, nat>): (r: seq<Edge>)
    ensures |r| <= |prs|
  {
    if |prs| == 0 then []
    else AuthorEdges(prs[..|prs| - 1], devIndex) + AuthorEdgeOf(prs[|prs| - 1], devIndex)
  }

  /** `e` is the authorship edge of some PR whose author is in the index. */
  ghost predicate IsAuthorEdge(prs: seq<PullRequest>, devIndex: map<string, nat>, e: Edge)
  {
    e.dev in devIndex && exists i :: 0 <= i < |prs| && AuthoredBy(prs[i], e.dev) && e.task == prs[i].number
  }

  /** An authorship edge exists exactly for a PR whose author is in the index,
      and it points at that PR's task. */
  lemma {:induction false} AuthorEdgesMembership(prs: seq<PullRequest>, devIndex: map<string, nat>, e: Edge)
    ensures e in AuthorEdges(prs, devIndex) <==> IsAuthorEdge(prs, devIndex, e)
  {
    if |prs| > 0 {
      var n := |prs| - 1;
      var init := prs[..n];
      AuthorEdgesMembership(init, devIndex, e);
      if e in AuthorEdges(init, devIndex) {
        var i :| 0 <= i < |init| && AuthoredBy(init[i], e.dev) && e.task == init[i].number;
        assert init[i] == prs[i];
      }
      if IsAuthorEdge(prs, devIndex, e) {
        var i :| 0 <= i < |prs| && AuthoredBy(prs[i], e.dev) && e.task == prs[i].number;
        if i < n {
          assert init[i] == prs[i];
          assert IsAuthorEdge(init, devIndex, e);
        }
      }
    }
  }

  /** The review edges of one PR: one per review whose author is in
      `devIndex`, in review order, without deduplication. */
  function ReviewEdgesFor(reviews: seq<Review>, task: int, devIndex: map<string, nat>): (r: seq<Edge>)
    ensures |r| <= |reviews|
  {
    if |reviews| == 0 then []
    else
      var last := reviews[|reviews| - 1];
      ReviewEdgesFor(reviews[..|reviews| - 1], task, devIndex)
        + (if last.author.Some? && last.author.value in devIndex then [Edge(last.author.value, task)] else [])
  }

  /** A review edge of one PR exists exactly for a review by a developer in
      the index. */
  lemma {:induction false} ReviewEdgesForMembership(reviews: seq<Review>, task: int, devIndex: map<string, nat>, e: Edge)
    ensures e in ReviewEdgesFor(reviews, task, devIndex) <==>
      e.task == task && e.dev in devIndex && exists j :: 0 <= j < |reviews| && reviews[j].author == Some(e.dev)
  {
    if |reviews| > 0 {
      var init := reviews[..|reviews| - 1];
      assert forall j :: 0 <= j < |reviews| - 1 ==> init[j] == reviews[j];
      ReviewEdgesForMembership(init, task, devIndex, e);
    }
  }

  /** The review edges of all PRs, in PR order and then review order. */
  function ReviewEdges(prs: seq<PullRequest>, devIndex: map<string, nat>): (r: seq<Edge>)
    ensures |r| <= TotalReviews(prs)
  {
    if |prs| == 0 then []
    else
      var last := prs[|prs| - 1];
      ReviewEdges(prs[..|prs| - 1], devIndex) + ReviewEdgesFor(last.reviews, last.number, devIndex)
  }

  /** `e` is the edge of some review, by a developer in the index, of some PR. */
  ghost predicate IsReviewEdge(prs: seq<PullRequest>, devIndex: map<string, nat>, e: Edge)
  {
    e.dev in devIndex && exists i :: 0 <= i < |prs| && ReviewedBy(prs[i], e.dev) && e.task == prs[i].number
  }

  /** A review edge exists exactly for a review, by a developer in the index,
      of some PR, and it points at that PR's task. */
  lemma {:induction false} ReviewEdgesMembership(prs: seq<PullRequest>, devIndex: map<string, nat>, e: Edge)
    ensures e in ReviewEdges(prs, devIndex) <==> IsReviewEdge(prs, devIndex, e)
  {
    if |prs| > 0 {
      var n := |prs| - 1;
      var init := prs[..n];
      var last := prs[n];
      var head := ReviewEdges(init, devIndex);
      var tail := ReviewEdgesFor(last.reviews, last.number, devIndex);
      assert ReviewEdges(prs, devIndex) == head + tail;
      ReviewEdgesMembership(init, devIndex, e);
      ReviewEdgesForMembership(last.reviews, last.number, devIndex, e);
      if e in head {
        var i :| 0 <= i < |init| && ReviewedBy(init[i], e.dev) && e.task == init[i].number;
        assert init[i] == prs[i];
      } else if e in tail {
        assert ReviewedBy(prs[n], e.dev);
      }
      if IsReviewEdge(prs, devIndex, e) {
        var i :| 0 <= i < |prs| && ReviewedBy(prs[i], e.dev) && e.task == prs[i].number;
        if i < n {
          assert init[i] == prs[i];
          assert IsReviewEdge(init, devIndex, e);
        }
      }
    }
  }

  /** Dropping the last PR of a concatenation drops it from the second part. */
  lemma SplitLast(a: seq<PullRequest>, b: seq<PullRequest>)
    requires |b| > 0
    ensures (a + b)[..|a + b| - 1] == a + b[..|b| - 1]
    ensures (a + b)[|a + b| - 1] == b[|b| - 1]
  {
  }

  /** Authorship edges of a concatenation are the concatenation of the edges:
      edges come out in PR order. */
  lemma {:induction false} AuthorEdgesAppend(a: seq<PullRequest>, b: seq<PullRequest>, devIndex: map<string, nat>)
    ensures AuthorEdges(a + b, devIndex) == AuthorEdges(a, devIndex) + AuthorEdges(b, devIndex)
  {
    if |b| == 0 {
      assert a + b == a;
    } else {
      var n := |b| - 1;
      var binit := b[..n];
      SplitLast(a, b);
      assert AuthorEdges(a + b, devIndex) == AuthorEdges(a + binit, devIndex) + AuthorEdgeOf(b[n], devIndex);
      AuthorEdgesAppend(a, binit, devIndex);
    }
  }

  /** Review edges of a concatenation are the concatenation of the edges. */
  lemma {:induction false} ReviewEdgesAppend(a: seq<PullRequest>, b: seq<PullRequest>, devIndex: map<string, nat>)
    ensures ReviewEdges(a + b, devIndex) == ReviewEdges(a, devIndex) + ReviewEdges(b, devIndex)
  {
    if |b| == 0 {
      assert a + b == a;
    } else {
      var n := |b| - 1;
      var binit := b[..n];
      var tail := ReviewEdgesFor(b[n].reviews, b[n].number, devIndex);
      SplitLast(a, b);
      assert ReviewEdges(a + b, devIndex) == ReviewEdges(a + binit, devIndex) + tail;
      assert ReviewEdges(b, devIndex) == ReviewEdges(binit, devIndex) + tail;
      ReviewEdgesAppend(a, binit, devIndex);
      var ea, eb := ReviewEdges(a, devIndex), ReviewEdges(binit, devIndex);
      assert (ea + eb) + tail == ea + (eb + tail);
    }
  }

  /** When every PR has an author in the index the filter drops nothing:
      edge `i` is the author of PR `i` writing that PR's task. */
  lemma {:induction false} AuthorEdgesAllRecognised(prs: seq<PullRequest>, devIndex: map<string, nat>)
    requires forall i :: 0 <= i < |prs| ==> prs[i].author.Some? && prs[i].author.value in devIndex
    ensures |AuthorEdges(prs, devIndex)| == |prs|
    ensures forall i :: 0 <= i < |prs| ==>
      AuthorEdges(prs, devIndex)[i] == Edge(prs[i].author.value, prs[i].number)
  {
    if |prs| > 0 {
      var n := |prs| - 1;
      var init := prs[..n];
      assert forall i :: 0 <= i < n ==> init[i] == prs[i];
      AuthorEdgesAllRecognised(init, devIndex);
      var edges := AuthorEdges(prs, devIndex);
      assert edges == AuthorEdges(init, devIndex) + [Edge(prs[n].author.value, prs[n].number)];
      forall i | 0 <= i < |prs|
        ensures edges[i] == Edge(prs[i].author.value, prs[i].number)
      {
        if i < n {
          assert edges[i] == AuthorEdges(init, devIndex)[i];
        }
      }
    }
  }

  /** When every review has an author in the index, one PR yields one edge
      per review, in review order: edge `j` is the author of review `j`. */
  lemma {:induction false} ReviewEdgesForAllRecognised(reviews: seq<Review>, task: int, devIndex: map<string, nat>)
    requires forall j :: 0 <= j < |reviews| ==> reviews[j].author.Some? && reviews[j].author.value in devIndex
    ensures |ReviewEdgesFor(reviews, task, devIndex)| == |reviews|
    ensures forall j :: 0 <= j < |reviews| ==>
      ReviewEdgesFor(reviews, task, devIndex)[j] == Edge(reviews[j].author.value, task)
  {
    if |reviews| > 0 {
      var n := |reviews| - 1;
      var init := reviews[..n];
      assert forall j :: 0 <= j < n ==> init[j] == reviews[j];
      ReviewEdgesForAllRecognised(init, task, devIndex);
      var edges := ReviewEdgesFor(reviews, task, devIndex);
      assert edges == ReviewEdgesFor(init, task, devIndex) + [Edge(reviews[n].author.value, task)];
      forall j | 0 <= j < |reviews|
        ensures edges[j] == Edge(reviews[j].author.value, task)
      {
        if j < n {
          assert edges[j] == ReviewEdgesFor(init, task, devIndex)[j];
        }
      }
    }
  }

  /** When every reviewer is in the index there is one review edge per review
      entry, duplicates included. */
  lemma {:induction false} ReviewEdgesCount(prs: seq<PullRequest>, devIndex: map<string, nat>)
    requires forall i, j :: 0 <= i < |prs| && 0 <= j < |prs[i].reviews| ==>
      prs[i].reviews[j].author.Some? && prs[i].reviews[j].author.value in devIndex
    ensures |ReviewEdges(prs, devIndex)| == TotalReviews(prs)
  {
    if |prs| > 0 {
      var n := |prs| - 1;
      var init := prs[..n];
      assert forall i :: 0 <= i < n ==> init[i] == prs[i];
      ReviewEdgesCount(init, devIndex);
      ReviewEdgesForAllRecognised(prs[n].reviews, prs[n].number, devIndex);
    }
  }

  /** Review `j` of PR `i` gives the review edge at position
      `TotalReviews(prs[..i]) + j`: its author writing PR `i`'s task. */
  ghost predicate ReviewEdgeIsEntry(prs: seq<PullRequest>, devIndex: map<string, nat>, i: int, j: int)
    requires 0 <= i < |prs| && 0 <= j < |prs[i].reviews| && prs[i].reviews[j].author.Some?
  {
    TotalReviews(prs[..i]) + j < |ReviewEdges(prs, devIndex)|
    && ReviewEdges(prs, devIndex)[TotalReviews(prs[..i]) + j] == Edge(prs[i].reviews[j].author.value, prs[i].number)
  }

  /** When every reviewer is in the index, each review entry gives the review
      edge at its position. */
  lemma {:induction false} ReviewEdgeAt(prs: seq<PullRequest>, devIndex: map<string, nat>, i: int, j: int)
    requires forall i, j :: 0 <= i < |prs| && 0 <= j < |prs[i].reviews| ==>
      prs[i].reviews[j].author.Some? && prs[i].reviews[j].author.value in devIndex
    requires 0 <= i < |prs| && 0 <= j < |prs[i].reviews|
    ensures ReviewEdgeIsEntry(prs, devIndex, i, j)
  {
    var n := |prs| - 1;
    var init := prs[..n];
    var last := prs[n];
    var edges := ReviewEdges(prs, devIndex);
    var head := ReviewEdges(init, devIndex);
    var tail := ReviewEdgesFor(last.reviews, last.number, devIndex);
    assert edges == head + tail;
    var k := TotalReviews(prs[..i]) + j;
    if i < n {
      assert forall m :: 0 <= m < n ==> init[m] == prs[m];
      ReviewEdgeAt(init, devIndex, i, j);
      assert ReviewEdgeIsEntry(init, devIndex, i, j);
      assert prs[..i] == init[..i];
      assert k == TotalReviews(init[..i]) + j && k < |head|;
      assert edges[k] == head[k];
      assert init[i] == prs[i];
    } else {
      ReviewEdgesForAllRecognised(last.reviews, last.number, devIndex);
      ReviewEdgesCount(init, devIndex);
      assert prs[..i] == init;
      assert k == |head| + j;
      assert edges[k] == tail[j];
    }
  }

  /** When every reviewer is in the index there is one review edge per review
      entry, duplicates included, in PR order and then review order: review
      `j` of PR `i` gives the edge at position `TotalReviews(prs[..i]) + j`. */
  lemma ReviewEdgesAllRecognised(prs: seq<PullRequest>, devIndex: map<string, nat>)
    requires forall i, j :: 0 <= i < |prs| && 0 <= j < |prs[i].reviews| ==>
      prs[i].reviews[j].author.Some? && prs[i].reviews[j].author.value in devIndex
    ensures |ReviewEdges(prs, devIndex)| == TotalReviews(prs)
    ensures forall i, j :: 0 <= i < |prs| && 0 <= j < |prs[i].reviews| ==> ReviewEdgeIsEntry(prs, devIndex, i, j)
  {
    ReviewEdgesCount(prs, devIndex);
    forall i, j | 0 <= i < |prs| && 0 <= j < |prs[i].reviews|
      ensures ReviewEdgeIsEntry(prs, devIndex, i, j)
    {
      ReviewEdgeAt(prs, devIndex, i, j);
    }
  }

  /** The inner loop over `reviews.nodes` of one PR: `None` when a review
      has no author, since the loop reads the reviewer login without a guard. */
  method BuildReviewEdgesFor(reviews: seq<Review>, task: int, devIndex: map<string, nat>) returns (r: Option<seq<Edge>>)
    ensures r.Some? <==> ReviewsAuthored(reviews)
    ensures r.Some? ==> r.value == ReviewEdgesFor(reviews, task, devIndex)
  {
    var edges: seq<Edge> := [];
    var j := 0;
    while j < |reviews|
      invariant 0 <= j <= |reviews|
      invariant ReviewsAuthored(reviews[..j])
      invariant edges == ReviewEdgesFor(reviews[..j], task, devIndex)
    {
      if reviews[j].author.None? {
        return None;
      }
      var reviewer := reviews[j].author.value;
      assert reviews[..j + 1][..j] == reviews[..j];
      if reviewer in devIndex {
        edges := edges + [Edge(reviewer, task)];
      }
      j := j + 1;
    }
    assert reviews[..j] == reviews;
    return Some(edges);
  }

  /** PR `i` is the first one lacking an author on itself or on one of its
      reviews, and `e` is the failure the edge loop raises there: the PR
      author is read before any reviewer. */
  predicate FirstEdgeError(prs: seq<PullRequest>, i: int, e: Error)
  {
    0 <= i < |prs| && AllFullyAuthored(prs[..i]) && !FullyAuthored(prs[i])
    && e == (if prs[i].author.None? then MissingPrAuthor(prs[i].number) else MissingReviewAuthor(prs[i].number))
  }

  /** The edge loop. It reads the PR author login and each reviewer login
      without a guard, so the first PR lacking an author,
      or holding a review without one, raises; otherwise both edge lists are
      the filtered ones above. */
  method BuildEdges(prs: seq<PullRequest>, devIndex: map<string, nat>) returns (r: Result<(seq<Edge>, seq<Edge>), Error>)
    ensures r.Ok? <==> AllFullyAuthored(prs)
    ensures r.Ok? ==> r.value.0 == AuthorEdges(prs, devIndex)
                      && r.value.1 == ReviewEdges(prs, devIndex)
    ensures r.Err? ==> exists i :: FirstEdgeError(prs, i, r.error)
  {
    var authored: seq<Edge> := [];
    var reviewed: seq<Edge> := [];
    var i := 0;
    while i < |prs|
      invariant 0 <= i <= |prs|
      invariant AllFullyAuthored(prs[..i])
      invariant authored == AuthorEdges(prs[..i], devIndex)
      invariant reviewed == ReviewEdges(prs[..i], devIndex)
    {
      var pr := prs[i];
      if pr.author.None? {
        assert FirstEdgeError(prs, i, MissingPrAuthor(pr.number));
        return Err(MissingPrAuthor(pr.number));
      }
      var fromReviews := BuildReviewEdgesFor(pr.reviews, pr.number, devIndex);
      if fromReviews.None? {
        assert FirstEdgeError(prs, i, MissingReviewAuthor(pr.number));
        return Err(MissingReviewAuthor(pr.number));
      }
      assert prs[..i + 1] == prs[..i] + [pr];
      assert AllFullyAuthored(prs[..i + 1]) by {
        assert forall k :: 0 <= k < i ==> prs[..i + 1][k] == prs[..i][k];
      }
      authored := authored + AuthorEdgeOf(pr, devIndex);
      reviewed := reviewed + fromReviews.value;
      i := i + 1;
    }
    assert prs[..i] == prs;
    return Ok((authored, reviewed));
  }

  /** One edge-index tensor: parallel source and destination index lists. */
  datatype EdgeIndex = EdgeIndex(src: seq<nat>, dst: seq<nat>)

  /** Position `p` of `xs` holds `x` and no later position does: the value a
      dict built from `enumerate(xs)` gives for `x`. */
  predicate LastPosition(xs: seq<string>, p: nat, x: string)
  {
    p < |xs| && xs[p] == x && forall j :: p < j < |xs| ==> xs[j] != x
  }

  /** The source and destination index lists of an edge list: each
      endpoint's last position in the developer and task lists respectively.
      Both lookups raise unless every endpoint is a node. */
  function ToEdgeIndex(edges: seq<Edge>, devs: seq<string>, tasks: seq<string>): (ei: EdgeIndex)
    requires forall k :: 0 <= k < |edges| ==> edges[k].dev in devs && TaskId(edges[k].task) in tasks
    ensures |ei.src| == |edges| && |ei.dst| == |edges|
    ensures forall k :: 0 <= k < |edges| ==>
      LastPosition(devs, ei.src[k], edges[k].dev) && LastPosition(tasks, ei.dst[k], TaskId(edges[k].task))
  {
    var devIndex := IndexMap(devs);
    var taskIndex := IndexMap(tasks);
    EdgeIndex(seq(|edges|, k requires 0 <= k < |edges| => devIndex[edges[k].dev]),
              seq(|edges|, k requires 0 <= k < |edges| => taskIndex[TaskId(edges[k].task)]))
  }

  /** Pair `k` of the index links source node `a` to destination node `b`. */
  predicate Links(ei: EdgeIndex, a: nat, b: nat)
  {
    exists k :: 0 <= k < |ei.src| && k < |ei.dst| && ei.src[k] == a && ei.dst[k] == b
  }

  /** The inverse relation: rows `[dst, src]`. */
  function Transpose(ei: EdgeIndex): (r: EdgeIndex)
    ensures |r.src| == |ei.dst| && |r.dst| == |ei.src|
    ensures forall a, b :: Links(r, a, b) <==> Links(ei, b, a)
  {
    EdgeIndex(ei.dst, ei.src)
  }
}
