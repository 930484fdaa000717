/** Node features: one row per developer from the profile table, one row per
    PR from its title. */
module Features {
  import opened Results
  import opened Strings
  import opened Records

  /** The developer row: code skill, review skill, then the language embedding
      and the task-type vector, flattened. */
  function DevFeatureRow(p: Profile): (r: seq<real>)
    ensures |r| == 2 + |p.langEmb| + |p.taskTypes|
  {
    [p.code, p.review] + p.langEmb + p.taskTypes
  }

  /** Reads a profile back out of a developer row, given the embedding width. */
  function ProfileOfRow(row: seq<real>, langWidth: nat): Profile
    requires 2 + langWidth <= |row|
  {
    Profile(row[0], row[1], row[2..2 + langWidth], row[2 + langWidth..])
  }

  /** The developer row keeps every profile value, each in its own slot. */
  lemma DevFeatureRowRoundTrip(p: Profile)
    ensures ProfileOfRow(DevFeatureRow(p), |p.langEmb|) == p
  {
    var row := DevFeatureRow(p);
    assert row[2..2 + |p.langEmb|] == p.langEmb;
    assert row[2 + |p.langEmb|..] == p.taskTypes;
  }

  /** `devs[k]` is the first developer in `devs` without a profile. */
  predicate FirstMissingProfile(devs: seq<string>, profiles: map<string, Profile>, k: int)
  {
    0 <= k < |devs| && devs[k] !in profiles && forall m :: 0 <= m < k ==> devs[m] in profiles
  }

  /** The loop building `dev_feats`: one row per developer, in `dev_list` order;
      the first developer without a profile raises `KeyError`. */
  method BuildDevFeatures(devs: seq<string>, profiles: map<string, Profile>) returns (r: Result<seq<seq<real>>, Error>)
    ensures r.Ok? <==> forall k :: 0 <= k < |devs| ==> devs[k] in profiles
    ensures r.Ok? ==> |r.value| == |devs|
    ensures r.Ok? ==> forall k :: 0 <= k < |devs| ==> devs[k] in profiles && r.value[k] == DevFeatureRow(profiles[devs[k]])
    ensures r.Err? ==> exists k :: FirstMissingProfile(devs, profiles, k) && r.error == MissingProfile(devs[k])
  {
    var rows: seq<seq<real>> := [];
    var k := 0;
    while k < |devs|
      invariant 0 <= k <= |devs|
      invariant |rows| == k
      invariant forall m :: 0 <= m < k ==> devs[m] in profiles && rows[m] == DevFeatureRow(profiles[devs[m]])
    {
      if devs[k] !in profiles {
        assert FirstMissingProfile(devs, profiles, k);
        return Err(MissingProfile(devs[k]));
      }
      rows := rows + [DevFeatureRow(profiles[devs[k]])];
      k := k + 1;
    }
    return Ok(rows);
  }

  /** Every row is as wide as the first: what the tensor conversion of a list
      of rows needs. */
  predicate Rectangular(rows: seq<seq<real>>)
  {
    forall k :: 0 <= k < |rows| ==> |rows[k]| == |rows[0]|
  }

  /** Row `k` is the first whose width differs from the first row's. */
  predicate FirstRagged(rows: seq<seq<real>>, k: int)
  {
    0 < k < |rows| && |rows[k]| != |rows[0]| && forall m :: 0 <= m < k ==> |rows[m]| == |rows[0]|
  }

  /** The shape check of the tensor conversion: the first row of a different
      width, if any; the conversion raises `ValueError` on it. */
  method FindRaggedRow(rows: seq<seq<real>>) returns (r: Option<nat>)
    ensures r.None? <==> Rectangular(rows)
    ensures r.Some? ==> FirstRagged(rows, r.value)
  {
    var k := 1;
    while k < |rows|
      invariant 1 <= k
      invariant forall m :: 0 <= m < k && m < |rows| ==> |rows[m]| == |rows[0]|
    {
      if |rows[k]| != |rows[0]| {
        return Some(k);
      }
      k := k + 1;
    }
    return None;
  }

  /** The pseudo complexity: one more than the title's hash modulo 3, on the
      lower-cased title. Python's `%` by a positive divisor is floor modulo,
      which agrees with Dafny's `%` for every hash, negative ones included. */
  function Complexity(loweredTitle: string, hash: string -> int): (c: int)
    ensures 1 <= c <= 3
  {
    hash(loweredTitle) % 3 + 1
  }

  /** The live keyword table, in dict insertion (iteration) order. */
  const TagTable: seq<(string, nat)> :=
    [("bug", 0), ("feature", 1), ("refactor", 2), ("docs", 3), ("test", 4), ("misc", 5)]

  /** The tag used when no keyword matches ("misc"). */
  const DefaultTag: nat := 5

  predicate KeywordMatches(loweredTitle: string, j: nat)
    requires j < |TagTable|
  {
    Contains(loweredTitle, TagTable[j].0)
  }

  /** Keyword `j` matches and no keyword before it in the table does. */
  predicate FirstMatch(loweredTitle: string, j: nat)
  {
    j < |TagTable| && KeywordMatches(loweredTitle, j)
    && forall i :: 0 <= i < j ==> !KeywordMatches(loweredTitle, i)
  }

  predicate NoMatchFrom(loweredTitle: string, k: nat)
  {
    forall i :: k <= i < |TagTable| ==> !KeywordMatches(loweredTitle, i)
  }

  /** The `for ... break` scan of the keyword table, from position `k` on. */
  function TagFrom(loweredTitle: string, k: nat): (r: nat)
    requires k <= |TagTable|
    requires forall i :: 0 <= i < k ==> !KeywordMatches(loweredTitle, i)
    ensures (exists j: nat :: k <= j && FirstMatch(loweredTitle, j) && r == TagTable[j].1)
            || (NoMatchFrom(loweredTitle, k) && r == DefaultTag)
    decreases |TagTable| - k
  {
    if k == |TagTable| then DefaultTag
    else if KeywordMatches(loweredTitle, k) then
      assert FirstMatch(loweredTitle, k);
      TagTable[k].1
    else TagFrom(loweredTitle, k + 1)
  }

  /** The tag of a lower-cased title: the value of the first keyword in table
      order occurring in it, or the default when none occurs. */
  function TagIndex(loweredTitle: string): (r: nat)
    ensures r <= 5
    ensures (exists j: nat :: FirstMatch(loweredTitle, j) && r == TagTable[j].1)
            || (NoMatchFrom(loweredTitle, 0) && r == DefaultTag)
  {
    TagFrom(loweredTitle, 0)
  }

  /** Each tag value is taken exactly when its keyword is the first in table
      order to occur; 5 exactly when none of the first five occurs ("misc"
      itself and no match both give 5). */
  lemma TagIndexCharacterisation(loweredTitle: string)
    ensures forall k :: 0 <= k < 5 ==> (TagIndex(loweredTitle) == k <==> FirstMatch(loweredTitle, k))
    ensures TagIndex(loweredTitle) == 5 <==> forall i :: 0 <= i < 5 ==> !KeywordMatches(loweredTitle, i)
  {
    assert forall j :: 0 <= j < |TagTable| ==> TagTable[j].1 == j;
    forall k | 0 <= k < 5
      ensures TagIndex(loweredTitle) == k <==> FirstMatch(loweredTitle, k)
    {
    }
  }

  /** Table order breaks ties: a title containing "bug" is tagged 0 whatever
      other keywords it contains and wherever they occur. */
  lemma BugWins(loweredTitle: string)
    requires Contains(loweredTitle, "bug")
    ensures TagIndex(loweredTitle) == 0
  {
    assert FirstMatch(loweredTitle, 0);
    TagIndexCharacterisation(loweredTitle);
  }

  /** The width of every task row. */
  const TaskWidth: nat := 8

  /** The task row of one PR: complexity, tag index, then six zeros of padding. */
  function TaskFeatureRow(pr: PullRequest, hash: string -> int): (r: seq<real>)
    ensures |r| == TaskWidth
    ensures r[0] == Complexity(Lower(pr.title), hash) as real
    ensures r[0] == 1.0 || r[0] == 2.0 || r[0] == 3.0
    ensures r[1] == TagIndex(Lower(pr.title)) as real && r[1] <= 5.0
    ensures forall k :: 2 <= k < TaskWidth ==> r[k] == 0.0
  {
    var title := Lower(pr.title);
    [Complexity(title, hash) as real, TagIndex(title) as real] + seq(6, _ => 0.0)
  }

  /** The task row depends on the title only through its lower-cased text:
      titles differing only in letter case give the same row. */
  lemma TaskFeatureRowIgnoresCase(pr: PullRequest, hash: string -> int)
    ensures TaskFeatureRow(pr.(title := Lower(pr.title)), hash) == TaskFeatureRow(pr, hash)
  {
    LowerIdempotent(pr.title);
  }

  /** The `task_feats` loop: one row per PR, in PR order, each `TaskWidth`
      wide, so their tensor conversion never fails. */
  function TaskFeatures(prs: seq<PullRequest>, hash: string -> int): (r: seq<seq<real>>)
    ensures |r| == |prs|
    ensures forall i :: 0 <= i < |prs| ==> r[i] == TaskFeatureRow(prs[i], hash)
    ensures Rectangular(r)
    ensures forall i :: 0 <= i < |r| ==> |r[i]| == TaskWidth
  {
    seq(|prs|, i requires 0 <= i < |prs| => TaskFeatureRow(prs[i], hash))
  }
}
