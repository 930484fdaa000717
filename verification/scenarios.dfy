/** Concrete runs of the pipeline on small inputs. */
module Scenarios {
  import opened Results
  import opened Strings
  import opened Sorting
  import opened Records
  import opened Entities
  import opened Features
  import opened Edges
  import opened Graph

  lemma TaskIdSeven()
    ensures TaskId(7) == "task_7"
  {
    assert NatToDecimal(7) == ['7'];
  }

  lemma TaskIdTen()
    ensures TaskId(10) == "task_10"
  {
    assert NatToDecimal(1) == ['1'];
    assert NatToDecimal(10) == ['1', '0'];
  }

  /** PR 7, "Fix bug in login", written by alice and reviewed by bob. */
  const LoginFix: seq<PullRequest> := [PullRequest(7, "Fix bug in login", Some("alice"), [Review(Some("bob"))])]

  lemma LoginFixDevelopers()
    ensures AllFullyAuthored(LoginFix)
    ensures DevList(LoginFix) == ["alice", "bob"]
  {
    var prs := LoginFix;
    assert AllFullyAuthored(prs);
    assert Involves(prs[0], "alice");
    assert ReviewedBy(prs[0], "bob") by {
      assert prs[0].reviews[0].author == Some("bob");
    }
    assert Less("alice", "bob");
    forall x
      ensures x in DevList(prs) <==> x in ["alice", "bob"]
    {
      if IsDeveloper(prs, x) {
        var i :| 0 <= i < |prs| && Involves(prs[i], x);
        if !AuthoredBy(prs[0], x) {
          var j :| 0 <= j < |prs[0].reviews| && prs[0].reviews[j].author == Some(x);
        }
      }
    }
    StrictlySortedUnique(DevList(prs), ["alice", "bob"]);
  }

  lemma LoginFixTasks()
    ensures TaskList(LoginFix) == ["task_7"]
  {
    TaskIdSeven();
    assert TaskList(LoginFix)[0] in TaskList(LoginFix);
  }

  /** "bug" occurs in the lower-cased title, so the tag is 0. */
  lemma LoginFixTag()
    ensures TagIndex(Lower(LoginFix[0].title)) == 0
  {
    var title := Lower(LoginFix[0].title);
    assert title[4] == 'b' && title[5] == 'u' && title[6] == 'g';
    assert title[4..7] == "bug";
    assert OccursAt(title, "bug", 4);
    ContainsIffOccurs(title, "bug");
    BugWins(title);
  }

  /** A one-pair index whose source names developer `x` in a list of
      distinct developers, and whose target lies in a one-task list, is the
      pair `(k, 0)` for the position `k` of `x`. */
  lemma SinglePair(ei: EdgeIndex, devs: seq<string>, k: nat, x: string)
    requires |ei.src| == 1 && |ei.dst| == 1
    requires ei.src[0] < |devs| && devs[ei.src[0]] == x && ei.dst[0] < 1
    requires k < |devs| && devs[k] == x
    requires forall a, b :: 0 <= a < b < |devs| ==> devs[a] != devs[b]
    ensures ei == EdgeIndex([k], [0])
  {
    assert ei.src == [k];
    assert ei.dst == [0];
  }

  /** With a single PR, its authorship edge goes from its author's node to
      task node 0. */
  lemma SingleWrites(prs: seq<PullRequest>, devs: seq<string>, k: nat)
    requires AllFullyAuthored(prs) && |prs| == 1
    requires DevList(prs) == devs && k < |devs| && devs[k] == prs[0].author.value
    requires forall a, b :: 0 <= a < b < |devs| ==> devs[a] != devs[b]
    ensures WritesIndex(prs) == EdgeIndex([k], [0])
  {
    SinglePair(WritesIndex(prs), devs, k, devs[k]);
  }

  /** alice (developer node 0) writes task node 0. */
  lemma LoginFixWrites()
    ensures AllFullyAuthored(LoginFix)
    ensures WritesIndex(LoginFix) == EdgeIndex([0], [0])
  {
    LoginFixDevelopers();
    SingleWrites(LoginFix, ["alice", "bob"], 0);
  }

  /** With a single PR holding a single review, its review edge goes from
      the reviewer's node to task node 0. */
  lemma SingleReviews(prs: seq<PullRequest>, devs: seq<string>, k: nat)
    requires AllFullyAuthored(prs) && |prs| == 1 && |prs[0].reviews| == 1
    requires DevList(prs) == devs && k < |devs| && devs[k] == prs[0].reviews[0].author.value
    requires forall a, b :: 0 <= a < b < |devs| ==> devs[a] != devs[b]
    ensures ReviewsIndex(prs) == EdgeIndex([k], [0])
  {
    var rv := ReviewsIndex(prs);
    assert TotalReviews(prs) == 1 by {
      assert prs[..0] == [];
    }
    var e := ReviewEdges(prs, DevIndex(prs))[0];
    assert e.dev == devs[k] by {
      assert e in ReviewEdges(prs, DevIndex(prs));
      ReviewEdgesMembership(prs, DevIndex(prs), e);
      var j :| 0 <= j < |prs[0].reviews| && prs[0].reviews[j].author == Some(e.dev);
    }
    SinglePair(rv, devs, k, devs[k]);
  }

  /** bob (developer node 1) reviews task node 0. */
  lemma LoginFixReviews()
    ensures AllFullyAuthored(LoginFix)
    ensures ReviewsIndex(LoginFix) == EdgeIndex([1], [0])
  {
    LoginFixDevelopers();
    SingleReviews(LoginFix, ["alice", "bob"], 1);
  }

  /** PRs 7 and 10, in that order. */
  const SevenThenTen: seq<PullRequest> := [PullRequest(7, "a", Some("alice"), []), PullRequest(10, "b", Some("alice"), [])]

  /** The only sorted arrangement of two strings, the second smaller. */
  lemma SortedPair(xs: seq<string>, a: string, b: string)
    requires Sorted(xs) && multiset(xs) == multiset{a, b} && Less(b, a)
    ensures xs == [b, a]
  {
    assert |xs| == 2 by {
      assert |xs| == |multiset(xs)|;
    }
    assert xs[0] in multiset(xs) && xs[1] in multiset(xs);
    LessIrreflexive(a);
  }

  /** Two PRs whose task identifiers come in descending string order are
      listed in reverse. */
  lemma TwoTasksReversed(prs: seq<PullRequest>, a: string, b: string)
    requires |prs| == 2 && TaskId(prs[0].number) == a && TaskId(prs[1].number) == b
    requires Less(b, a)
    ensures TaskList(prs) == [b, a]
  {
    assert TaskIds(prs) == [a, b];
    SortedPair(TaskList(prs), a, b);
  }

  /** Task identifiers sort as strings, so "task_10" precedes "task_7". */
  lemma TaskOrderIsLexicographic()
    ensures Less("task_10", "task_7")
    ensures TaskList(SevenThenTen) == ["task_10", "task_7"]
  {
    TaskIdSeven();
    TaskIdTen();
    assert Less("task_10", "task_7");
    TwoTasksReversed(SevenThenTen, "task_7", "task_10");
  }

  /** Feature rows follow PR order while task indices follow string order:
      `task2idx` sends PR 7's task to node 1, whose feature row is built
      from PR 10, and PR 10's task to node 0, whose row is built from PR 7. */
  lemma TaskRowsDoNotFollowTaskIndex(hash: string -> int)
    ensures TaskIndex(SevenThenTen)[TaskId(SevenThenTen[0].number)] == 1
    ensures TaskIndex(SevenThenTen)[TaskId(SevenThenTen[1].number)] == 0
    ensures TaskFeatures(SevenThenTen, hash)[TaskIndex(SevenThenTen)[TaskId(7)]] == TaskFeatureRow(SevenThenTen[1], hash)
    ensures TaskFeatures(SevenThenTen, hash)[TaskIndex(SevenThenTen)[TaskId(10)]] == TaskFeatureRow(SevenThenTen[0], hash)
  {
    TaskOrderIsLexicographic();
    TaskIdSeven();
    TaskIdTen();
    var tl := TaskList(SevenThenTen);
    IndexMapOfDistinct(tl, 0);
    IndexMapOfDistinct(tl, 1);
  }
}
