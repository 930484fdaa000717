/** The whole pipeline: entities, edges, features and index tensors, packaged
    as one heterogeneous graph. */
module Graph {
  import opened Results
  import opened Sorting
  import opened Records
  import opened Entities
  import opened Features
  import opened Edges

  /** The contents of the `HeteroData` object, before tensor conversion. */
  datatype HeteroGraph = HeteroGraph(
    devX: seq<seq<real>>,     // data["dev"].x
    devNodeId: seq<string>,   // data["dev"].node_id
    taskX: seq<seq<real>>,    // data["task"].x
    writes: EdgeIndex,        // ("dev", "writes", "task")
    reviews: EdgeIndex,       // ("dev", "reviews", "task")
    writtenBy: EdgeIndex,     // ("task", "written_by", "dev")
    reviewedBy: EdgeIndex)    // ("task", "reviewed_by", "dev")

  /** Every developer of the PRs has a profile. */
  ghost predicate ProfilesComplete(prs: seq<PullRequest>, profiles: map<string, Profile>)
  {
    forall x :: IsDeveloper(prs, x) ==> x in profiles
  }

  /** Every PR author is in `dev2idx`, so the authorship filter of the edge
      loop never drops an edge. */
  lemma AuthorsAreIndexed(prs: seq<PullRequest>)
    requires AllFullyAuthored(prs)
    ensures forall i :: 0 <= i < |prs| ==> prs[i].author.Some? && prs[i].author.value in DevIndex(prs)
  {
    forall i | 0 <= i < |prs|
      ensures prs[i].author.Some? && prs[i].author.value in DevIndex(prs)
    {
      var login := prs[i].author.value;
      assert Involves(prs[i], login);
      DeveloperIsIndexed(prs, login);
    }
  }

  /** Every review author is in `dev2idx`, so the review filter of the edge
      loop never drops an edge. */
  lemma ReviewersAreIndexed(prs: seq<PullRequest>)
    requires AllFullyAuthored(prs)
    ensures forall i, j :: 0 <= i < |prs| && 0 <= j < |prs[i].reviews| ==>
      prs[i].reviews[j].author.Some? && prs[i].reviews[j].author.value in DevIndex(prs)
  {
    forall i, j | 0 <= i < |prs| && 0 <= j < |prs[i].reviews|
      ensures prs[i].reviews[j].author.Some? && prs[i].reviews[j].author.value in DevIndex(prs)
    {
      var login := prs[i].reviews[j].author.value;
      assert Involves(prs[i], login);
      DeveloperIsIndexed(prs, login);
    }
  }

  /** Both endpoints of every collected edge are nodes, so the index
      conversion's lookups succeed. */
  lemma EdgeEndpointsAreNodes(prs: seq<PullRequest>, edges: seq<Edge>)
    requires edges == AuthorEdges(prs, DevIndex(prs)) || edges == ReviewEdges(prs, DevIndex(prs))
    ensures forall k :: 0 <= k < |edges| ==> edges[k].dev in DevList(prs) && TaskId(edges[k].task) in TaskList(prs)
  {
    forall k | 0 <= k < |edges|
      ensures edges[k].dev in DevList(prs) && TaskId(edges[k].task) in TaskList(prs)
    {
      assert edges[k] in edges;
      AuthorEdgesMembership(prs, DevIndex(prs), edges[k]);
      ReviewEdgesMembership(prs, DevIndex(prs), edges[k]);
    }
  }

  /** The `writes` index: one pair per PR, from its author's node to its
      task's node, each the last position of its name as the dicts give it. */
  function WritesIndex(prs: seq<PullRequest>): (ei: EdgeIndex)
    requires AllFullyAuthored(prs)
    ensures |ei.src| == |prs| && |ei.dst| == |prs|
    ensures forall i :: 0 <= i < |prs| ==>
      LastPosition(DevList(prs), ei.src[i], prs[i].author.value)
      && LastPosition(TaskList(prs), ei.dst[i], TaskId(prs[i].number))
  {
    var edges := AuthorEdges(prs, DevIndex(prs));
    EdgeEndpointsAreNodes(prs, edges);
    AuthorsAreIndexed(prs);
    AuthorEdgesAllRecognised(prs, DevIndex(prs));
    ToEdgeIndex(edges, DevList(prs), TaskList(prs))
  }

  /** Pair `TotalReviews(prs[..i]) + j` of `ei` links review `j` of PR `i`:
      its author's node to the PR's task node. */
  ghost predicate ReviewPair(prs: seq<PullRequest>, ei: EdgeIndex, i: int, j: int)
    requires 0 <= i < |prs| && 0 <= j < |prs[i].reviews| && prs[i].reviews[j].author.Some?
  {
    var k := TotalReviews(prs[..i]) + j;
    k < |ei.src| && k < |ei.dst|
    && LastPosition(DevList(prs), ei.src[k], prs[i].reviews[j].author.value)
    && LastPosition(TaskList(prs), ei.dst[k], TaskId(prs[i].number))
  }

  /** The `reviews` index: one pair per review entry, duplicates included, in
      PR order and then review order. */
  function ReviewsIndex(prs: seq<PullRequest>): (ei: EdgeIndex)
    requires AllFullyAuthored(prs)
    ensures |ei.src| == TotalReviews(prs) && |ei.dst| == TotalReviews(prs)
    ensures forall i, j :: 0 <= i < |prs| && 0 <= j < |prs[i].reviews| ==> ReviewPair(prs, ei, i, j)
  {
    var edges := ReviewEdges(prs, DevIndex(prs));
    EdgeEndpointsAreNodes(prs, edges);
    ReviewersAreIndexed(prs);
    ReviewEdgesAllRecognised(prs, DevIndex(prs));
    var ei := ToEdgeIndex(edges, DevList(prs), TaskList(prs));
    assert forall i, j :: 0 <= i < |prs| && 0 <= j < |prs[i].reviews| ==> ReviewPair(prs, ei, i, j) by {
      forall i, j | 0 <= i < |prs| && 0 <= j < |prs[i].reviews|
        ensures ReviewPair(prs, ei, i, j)
      {
        assert ReviewEdgeIsEntry(prs, DevIndex(prs), i, j);
      }
    }
    ei
  }

  /** The edge loop followed by the index conversion of both edge lists. */
  method BuildEdgeIndices(prs: seq<PullRequest>) returns (r: Result<(EdgeIndex, EdgeIndex), Error>)
    ensures r.Ok? <==> AllFullyAuthored(prs)
    ensures r.Ok? ==> AllFullyAuthored(prs) && r.value.0 == WritesIndex(prs) && r.value.1 == ReviewsIndex(prs)
    ensures r.Err? ==> exists i :: FirstEdgeError(prs, i, r.error)
  {
    var devs := DevList(prs);
    var tasks := TaskList(prs);
    var edges := BuildEdges(prs, IndexMap(devs));
    if edges.Err? {
      return Err(edges.error);
    }
    EdgeEndpointsAreNodes(prs, edges.value.0);
    EdgeEndpointsAreNodes(prs, edges.value.1);
    var writes := ToEdgeIndex(edges.value.0, devs, tasks);
    var reviews := ToEdgeIndex(edges.value.1, devs, tasks);
    return Ok((writes, reviews));
  }

  /** All developers' feature rows have one width. */
  ghost predicate ProfileWidthsAgree(prs: seq<PullRequest>, profiles: map<string, Profile>)
  {
    forall x, y :: IsDeveloper(prs, x) && IsDeveloper(prs, y) && x in profiles && y in profiles ==>
      |DevFeatureRow(profiles[x])| == |DevFeatureRow(profiles[y])|
  }

  /** `devs[k]` is the first developer whose feature row is not as wide as
      the first developer's. */
  predicate FirstWidthMismatch(devs: seq<string>, profiles: map<string, Profile>, k: int)
  {
    0 < k < |devs| && (forall m :: 0 <= m < |devs| ==> devs[m] in profiles)
    && |DevFeatureRow(profiles[devs[k]])| != |DevFeatureRow(profiles[devs[0]])|
    && forall m :: 0 <= m < k ==> |DevFeatureRow(profiles[devs[m]])| == |DevFeatureRow(profiles[devs[0]])|
  }

  /** The developer rows, one per developer in `dev_list` order, are
      rectangular exactly when all developers' profiles give rows of one width. */
  lemma DevRowsRectangular(prs: seq<PullRequest>, profiles: map<string, Profile>, rows: seq<seq<real>>)
    requires |rows| == |DevList(prs)|
    requires forall k :: 0 <= k < |rows| ==> DevList(prs)[k] in profiles && rows[k] == DevFeatureRow(profiles[DevList(prs)[k]])
    ensures Rectangular(rows) <==> ProfileWidthsAgree(prs, profiles)
  {
    var devs := DevList(prs);
    if Rectangular(rows) {
      forall x, y | IsDeveloper(prs, x) && IsDeveloper(prs, y) && x in profiles && y in profiles
        ensures |DevFeatureRow(profiles[x])| == |DevFeatureRow(profiles[y])|
      {
        assert x in devs && y in devs;
        var a :| 0 <= a < |devs| && devs[a] == x;
        var b :| 0 <= b < |devs| && devs[b] == y;
        assert |rows[a]| == |rows[0]| == |rows[b]|;
      }
    }
    if ProfileWidthsAgree(prs, profiles) {
      forall k | 0 <= k < |rows|
        ensures |rows[k]| == |rows[0]|
      {
        assert IsDeveloper(prs, devs[k]) && IsDeveloper(prs, devs[0]);
      }
    }
  }

  /** The developer feature loop followed by the tensor conversion of its rows:
      a missing profile raises first, then a row of the wrong width. */
  method BuildDevNodes(prs: seq<PullRequest>, profiles: map<string, Profile>) returns (r: Result<seq<seq<real>>, Error>)
    ensures r.Ok? <==> ProfilesComplete(prs, profiles) && ProfileWidthsAgree(prs, profiles)
    ensures r.Ok? ==> |r.value| == |DevList(prs)| && Rectangular(r.value)
    ensures r.Ok? ==> forall k :: 0 <= k < |r.value| ==>
      DevList(prs)[k] in profiles && r.value[k] == DevFeatureRow(profiles[DevList(prs)[k]])
    ensures r.Err? && !ProfilesComplete(prs, profiles) ==>
      exists k :: FirstMissingProfile(DevList(prs), profiles, k) && r.error == MissingProfile(DevList(prs)[k])
    ensures r.Err? && ProfilesComplete(prs, profiles) ==>
      exists k :: FirstWidthMismatch(DevList(prs), profiles, k) && r.error == RaggedDevRows(DevList(prs)[k])
  {
    var devs := DevList(prs);
    var rows := BuildDevFeatures(devs, profiles);
    if rows.Err? {
      assert !ProfilesComplete(prs, profiles) by {
        var k :| FirstMissingProfile(devs, profiles, k) && rows.error == MissingProfile(devs[k]);
        assert IsDeveloper(prs, devs[k]);
      }
      return Err(rows.error);
    }
    assert ProfilesComplete(prs, profiles);
    DevRowsRectangular(prs, profiles, rows.value);
    var ragged := FindRaggedRow(rows.value);
    if ragged.Some? {
      assert FirstWidthMismatch(devs, profiles, ragged.value);
      return Err(RaggedDevRows(devs[ragged.value]));
    }
    return Ok(rows.value);
  }

  /** Runs the pipeline in source order: extraction, edge loop (which raises
      on a missing author), developer features (which raise on a missing
      profile), task features, tensor conversion (which raises on developer
      rows of unequal width) and inversion. */
  method BuildGraph(prs: seq<PullRequest>, profiles: map<string, Profile>, hash: string -> int)
    returns (r: Result<HeteroGraph, Error>)
    ensures r.Ok? <==> AllFullyAuthored(prs) && ProfilesComplete(prs, profiles) && ProfileWidthsAgree(prs, profiles)
    // the failure is the first one the source meets
    ensures r.Err? && !AllFullyAuthored(prs) ==> exists i :: FirstEdgeError(prs, i, r.error)
    ensures r.Err? && AllFullyAuthored(prs) && !ProfilesComplete(prs, profiles) ==>
      exists k :: FirstMissingProfile(DevList(prs), profiles, k) && r.error == MissingProfile(DevList(prs)[k])
    ensures r.Err? && AllFullyAuthored(prs) && ProfilesComplete(prs, profiles) ==>
      exists k :: FirstWidthMismatch(DevList(prs), profiles, k) && r.error == RaggedDevRows(DevList(prs)[k])
    // developer nodes: sorted logins, one profile row each
    ensures r.Ok? ==> r.value.devNodeId == DevList(prs) && |r.value.devX| == |r.value.devNodeId|
    ensures r.Ok? ==> forall k :: 0 <= k < |r.value.devX| ==>
      r.value.devNodeId[k] in profiles && r.value.devX[k] == DevFeatureRow(profiles[r.value.devNodeId[k]])
    // task nodes: one row per PR, in PR order
    ensures r.Ok? ==> r.value.taskX == TaskFeatures(prs, hash)
    // edges, and their inverses with the columns swapped
    ensures r.Ok? ==> AllFullyAuthored(prs) && r.value.writes == WritesIndex(prs) && r.value.reviews == ReviewsIndex(prs)
    ensures r.Ok? ==> r.value.writtenBy == Transpose(r.value.writes) && r.value.reviewedBy == Transpose(r.value.reviews)
  {
    var indices := BuildEdgeIndices(prs);
    if indices.Err? {
      return Err(indices.error);
    }
    var devRows := BuildDevNodes(prs, profiles);
    if devRows.Err? {
      return Err(devRows.error);
    }
    var (writes, reviews) := indices.value;
    return Ok(HeteroGraph(devRows.value, DevList(prs), TaskFeatures(prs, hash), writes, reviews, Transpose(writes), Transpose(reviews)));
  }
}
