/**
 * The pair-to-cluster grouping loop of the entity-matching sample-data script.
 *
 * A dataset is a sequence of labelled record pairs. The loop walks the pairs in
 * order; every pair whose label is not 0 and that no earlier step has marked as
 * `added` becomes an anchor. The anchor's cluster holds its two records plus,
 * for every other label-1 pair, the right record of a pair that shares the
 * anchor's left record or else the left record of a pair that shares the
 * anchor's right record. The cluster is deduplicated, keeping first
 * occurrences, tagged with the next cluster id and appended to the output.
 *
 * The model has two layers: specification functions (`Dedup`, `RawCluster`,
 * `Marked`, `Run`, `Output`) with the lemmas that state what they guarantee;
 * and the three methods `RemoveDuplicates`, `ScanAnchor` and `BuildClusters`,
 * the loops themselves, each proved to compute what the specification says.
 */
module GetClusters {

  /** A labelled pair of records; label 1 means "same entity", 0 means "different". */
  datatype Pair<R> = Pair(left: R, right: R, matchLabel: int)

  /** One emitted line: a record tagged with the id of its cluster. */
  datatype Entry<R> = Entry(clusterId: nat, record: R)

  /**
   * The loop's bookkeeping after some prefix of the pairs: the index of each
   * anchor in discovery order, and the `added` set of pair indices. The
   * cluster-id counter is `|anchors|`.
   */
  datatype State = State(anchors: seq<nat>, added: set<nat>)

  // ---------------------------------------------------------------------------
  // Removing duplicates, keeping first occurrences (lines 56-59)
  // ---------------------------------------------------------------------------

  predicate NoDuplicates<T(==)>(s: seq<T>)
  {
    forall a, b :: 0 <= a < b < |s| ==> s[a] != s[b]
  }

  /**
   * `s` without repeated elements: an element is kept where it first occurs.
   * Defined on the last element so that it follows the append loop step by step.
   */
  function Dedup<T(==)>(s: seq<T>): seq<T>
  {
    if s == [] then []
    else
      var d := Dedup(s[..|s| - 1]);
      if s[|s| - 1] in d then d else d + [s[|s| - 1]]
  }

  /** Deduplication keeps exactly the elements of its input. */
  lemma {:induction false} DedupMember<T>(s: seq<T>, x: T)
    ensures x in Dedup(s) <==> x in s
  {
    if s != [] {
      var init := s[..|s| - 1];
      DedupMember(init, x);
      assert s == init + [s[|s| - 1]];
    }
  }

  /** Deduplication leaves no element twice. */
  lemma {:induction false} DedupDistinct<T>(s: seq<T>)
    ensures NoDuplicates(Dedup(s))
  {
    if s != [] {
      DedupDistinct(s[..|s| - 1]);
    }
  }

  /** Deduplicating a prefix gives a prefix of the deduplicated whole. */
  lemma {:induction false} DedupPrefix<T>(s: seq<T>, k: nat)
    requires k <= |s|
    ensures Dedup(s[..k]) <= Dedup(s)
  {
    if k < |s| {
      var init := s[..|s| - 1];
      assert init[..k] == s[..k];
      DedupPrefix(init, k);
    } else {
      assert s[..k] == s;
    }
  }

  /**
   * Order is kept: whenever `Dedup(s)[a]` comes before `Dedup(s)[b]`, it
   * already occurs in `s` before every occurrence of `Dedup(s)[b]`.
   */
  lemma {:induction false} DedupKeepsFirstOccurrenceOrder<T>(s: seq<T>)
    ensures forall a, b, k :: 0 <= a < b < |Dedup(s)| && 0 <= k < |s| && s[k] == Dedup(s)[b] ==>
      Dedup(s)[a] in s[..k]
  {
    if s != [] {
      var init, last := s[..|s| - 1], s[|s| - 1];
      DedupKeepsFirstOccurrenceOrder(init);
      var d, d' := Dedup(s), Dedup(init);
      forall a, b, k | 0 <= a < b < |d| && 0 <= k < |s| && s[k] == d[b]
        ensures d[a] in s[..k]
      {
        if b < |d'| {
          assert d[a] == d'[a] && d[b] == d'[b];
          if k < |init| {
            assert init[k] == d'[b];
            assert d'[a] in init[..k];
            assert init[..k] == s[..k];
          } else {
            DedupMember(init, d'[b]);
            var k' :| 0 <= k' < |init| && init[k'] == d'[b];
            assert d'[a] in init[..k'];
            assert init[..k'] <= s[..k];
          }
        } else {
          DedupMember(init, last);
          DedupMember(init, d'[a]);
          assert d == d' + [last] && d[a] == d'[a];
          assert k == |init|;
          assert s[..k] == init;
        }
      }
    }
  }

  /** A sequence without repeats is its own deduplication. */
  lemma {:induction false} DedupOfDistinct<T>(s: seq<T>)
    requires NoDuplicates(s)
    ensures Dedup(s) == s
  {
    if s != [] {
      var init := s[..|s| - 1];
      DedupOfDistinct(init);
      DedupMember(init, s[|s| - 1]);
    }
  }

  /**
   * Deduplicating a sequence of at least two elements keeps its first element
   * first, and its second element second when the two differ.
   */
  lemma DedupHead<T>(s: seq<T>)
    requires |s| >= 2
    ensures |Dedup(s)| >= 1 && Dedup(s)[0] == s[0]
    ensures s[0] != s[1] ==> |Dedup(s)| >= 2 && Dedup(s)[1] == s[1]
  {
    DedupPrefix(s, 1);
    DedupPrefix(s, 2);
    assert Dedup(s[..1]) == [s[0]] by { assert s[..1][..0] == []; }
    assert s[..2][..1] == s[..1];
  }

  /**
   * The loop at lines 56-59: append each element that the new list does not
   * hold yet.
   */
  method RemoveDuplicates<T(==)>(cluster: seq<T>) returns (newCluster: seq<T>)
    ensures newCluster == Dedup(cluster)
    ensures NoDuplicates(newCluster)
    ensures forall x :: x in newCluster <==> x in cluster
  {
    newCluster := [];
    for k := 0 to |cluster|
      invariant newCluster == Dedup(cluster[..k])
    {
      assert cluster[..k + 1][..k] == cluster[..k];
      if cluster[k] !in newCluster {
        newCluster := newCluster + [cluster[k]];
      }
    }
    assert cluster[..|cluster|] == cluster;
    DedupDistinct(cluster);
    forall x ensures x in newCluster <==> x in cluster {
      DedupMember(cluster, x);
    }
  }

  // ---------------------------------------------------------------------------
  // One anchor's cluster (lines 42-59)
  // ---------------------------------------------------------------------------

  /**
   * What the inner scan appends for pair `j` when pair `a` is the anchor: the
   * right record when the left records agree, else the left record when the
   * right records agree (the `elif`), only for label-1 pairs other than `a`.
   */
  function Contribution<R(==)>(pairs: seq<Pair<R>>, a: nat, j: nat, id: nat): seq<Entry<R>>
    requires a < |pairs| && j < |pairs|
  {
    var p1, p2 := pairs[a], pairs[j];
    if p2.matchLabel == 1 && p2.left == p1.left && a != j then [Entry(id, p2.right)]
    else if p2.matchLabel == 1 && p2.right == p1.right && a != j then [Entry(id, p2.left)]
    else []
  }

  /**
   * The cluster before deduplication once the inner scan has visited pairs
   * `0 .. n-1`: the anchor's left and right records, then what each visited
   * pair contributes, in pair order.
   */
  function RawCluster<R(==)>(pairs: seq<Pair<R>>, a: nat, n: nat, id: nat): seq<Entry<R>>
    requires a < |pairs| && n <= |pairs|
  {
    if n == 0 then [Entry(id, pairs[a].left), Entry(id, pairs[a].right)]
    else RawCluster(pairs, a, n - 1, id) + Contribution(pairs, a, n - 1, id)
  }

  /** Pair `j` is marked `added` by anchor `a`'s scan. */
  predicate Tied<R(==)>(pairs: seq<Pair<R>>, a: nat, j: nat)
    requires a < |pairs| && j < |pairs|
  {
    pairs[j].matchLabel == 1 && a != j
    && (pairs[j].left == pairs[a].left || pairs[j].right == pairs[a].right)
  }

  /** The indices below `n` that anchor `a`'s scan marks. */
  function Marked<R(==)>(pairs: seq<Pair<R>>, a: nat, n: nat): set<nat>
    requires a < |pairs| && n <= |pairs|
  {
    if n == 0 then {}
    else Marked(pairs, a, n - 1) + (if Tied(pairs, a, n - 1) then {n - 1} else {})
  }

  /** Exactly the tied pairs below `n` are marked. */
  lemma {:induction false} MarkedMember<R>(pairs: seq<Pair<R>>, a: nat, n: nat, j: nat)
    requires a < |pairs| && n <= |pairs|
    ensures j in Marked(pairs, a, n) <==> j < n && Tied(pairs, a, j)
  {
    if n > 0 {
      MarkedMember(pairs, a, n - 1, j);
    }
  }

  /**
   * Reference definition of "record `r` joins anchor `a`'s cluster because of
   * pair `j`", written as a relation rather than as the scan's if/elif.
   */
  predicate Contributes<R(==)>(pairs: seq<Pair<R>>, a: nat, j: nat, r: R)
    requires a < |pairs| && j < |pairs|
  {
    var p1, p2 := pairs[a], pairs[j];
    j != a && p2.matchLabel == 1
    && ((p2.left == p1.left && r == p2.right)
        || (p2.left != p1.left && p2.right == p1.right && r == p2.left))
  }

  /**
   * Record `r` belongs in anchor `a`'s cluster once pairs `0 .. n-1` are
   * scanned: it is the anchor's left or right record, or one of those pairs
   * contributes it.
   */
  predicate Joins<R(==)>(pairs: seq<Pair<R>>, a: nat, n: nat, r: R)
    requires a < |pairs| && n <= |pairs|
  {
    r == pairs[a].left || r == pairs[a].right
    || exists j :: 0 <= j < n && Contributes(pairs, a, j, r)
  }

  /** The raw cluster starts with the anchor's left record, then its right record. */
  lemma {:induction false} RawClusterStart<R>(pairs: seq<Pair<R>>, a: nat, n: nat, id: nat)
    requires a < |pairs| && n <= |pairs|
    ensures |RawCluster(pairs, a, n, id)| >= 2
    ensures RawCluster(pairs, a, n, id)[0] == Entry(id, pairs[a].left)
    ensures RawCluster(pairs, a, n, id)[1] == Entry(id, pairs[a].right)
  {
    if n > 0 {
      RawClusterStart(pairs, a, n - 1, id);
    }
  }

  /**
   * In both directions, the raw cluster holds exactly the entries that carry
   * its id and whose record joins it under the reference relation.
   */
  lemma {:induction false} RawClusterMember<R>(pairs: seq<Pair<R>>, a: nat, n: nat, id: nat, e: Entry<R>)
    requires a < |pairs| && n <= |pairs|
    ensures e in RawCluster(pairs, a, n, id) <==> e.clusterId == id && Joins(pairs, a, n, e.record)
  {
    if n > 0 {
      RawClusterMember(pairs, a, n - 1, id, e);
      var c := Contribution(pairs, a, n - 1, id);
      assert e in c <==> e.clusterId == id && Contributes(pairs, a, n - 1, e.record);
      if e.clusterId == id && Joins(pairs, a, n, e.record) && !Joins(pairs, a, n - 1, e.record) {
        var j :| 0 <= j < n && Contributes(pairs, a, j, e.record);
        assert j == n - 1;
      }
    }
  }

  /**
   * The inner scan at lines 43-53 for anchor `i` (the caller adds `i` to
   * `added` first, line 42): the cluster starts with the anchor's left and right
   * records and gains one record per tied pair, in pair order; `added` gains
   * exactly the tied indices.
   */
  method ScanAnchor<R(==)>(pairs: seq<Pair<R>>, i: nat, clusterId: nat, added: set<nat>)
    returns (cluster: seq<Entry<R>>, added': set<nat>)
    requires i < |pairs|
    ensures cluster == RawCluster(pairs, i, |pairs|, clusterId)
    ensures added' == added + Marked(pairs, i, |pairs|)
  {
    var p1 := pairs[i];
    cluster := [Entry(clusterId, p1.left), Entry(clusterId, p1.right)];
    added' := added;
    for j := 0 to |pairs|
      invariant cluster == RawCluster(pairs, i, j, clusterId)
      invariant added' == added + Marked(pairs, i, j)
    {
      var p2 := pairs[j];
      if p2.matchLabel == 1 && p2.left == p1.left && i != j {
        added' := added' + {j};
        cluster := cluster + [Entry(clusterId, p2.right)];
      } else if p2.matchLabel == 1 && p2.right == p1.right && i != j {
        added' := added' + {j};
        cluster := cluster + [Entry(clusterId, p2.left)];
      }
    }
  }

  /** The committed cluster of anchor `a` under id `id`. */
  function ClusterOf<R(==)>(pairs: seq<Pair<R>>, a: nat, id: nat): seq<Entry<R>>
    requires a < |pairs|
  {
    Dedup(RawCluster(pairs, a, |pairs|, id))
  }

  /**
   * Membership of a committed cluster, both directions: an entry is in it iff
   * it carries the cluster's id and its record is the anchor's left or right
   * record or is contributed by another label-1 pair under the if/elif rule.
   */
  lemma ClusterMember<R>(pairs: seq<Pair<R>>, a: nat, id: nat, e: Entry<R>)
    requires a < |pairs|
    ensures e in ClusterOf(pairs, a, id) <==> e.clusterId == id && Joins(pairs, a, |pairs|, e.record)
  {
    DedupMember(RawCluster(pairs, a, |pairs|, id), e);
    RawClusterMember(pairs, a, |pairs|, id, e);
  }

  /**
   * A committed cluster is non-empty, led by the anchor's left record
   * (followed by its right record when the two differ), free of repeats, and
   * every entry carries the cluster's id.
   */
  lemma ClusterShape<R>(pairs: seq<Pair<R>>, a: nat, id: nat)
    requires a < |pairs|
    ensures |ClusterOf(pairs, a, id)| >= 1
    ensures ClusterOf(pairs, a, id)[0] == Entry(id, pairs[a].left)
    ensures pairs[a].left != pairs[a].right ==>
      |ClusterOf(pairs, a, id)| >= 2 && ClusterOf(pairs, a, id)[1] == Entry(id, pairs[a].right)
    ensures NoDuplicates(ClusterOf(pairs, a, id))
    ensures forall e :: e in ClusterOf(pairs, a, id) ==> e.clusterId == id
  {
    var raw := RawCluster(pairs, a, |pairs|, id);
    RawClusterStart(pairs, a, |pairs|, id);
    DedupHead(raw);
    DedupDistinct(raw);
    forall e | e in ClusterOf(pairs, a, id) ensures e.clusterId == id {
      ClusterMember(pairs, a, id, e);
    }
  }

  // ---------------------------------------------------------------------------
  // The outer loop (lines 35-62)
  // ---------------------------------------------------------------------------

  /** The loop's bookkeeping after its first `n` iterations; anchors are visited pairs. */
  function Run<R(==)>(pairs: seq<Pair<R>>, n: nat): (s: State)
    requires n <= |pairs|
    ensures forall k :: 0 <= k < |s.anchors| ==> s.anchors[k] < n
  {
    if n == 0 then State([], {})
    else
      var s := Run(pairs, n - 1);
      var i := n - 1;
      if pairs[i].matchLabel == 0 || i in s.added then s
      else State(s.anchors + [i], s.added + {i} + Marked(pairs, i, |pairs|))
  }

  /** The committed clusters, one per anchor, cluster `k` with id `k`. */
  function Groups<R(==)>(pairs: seq<Pair<R>>, anchors: seq<nat>): seq<seq<Entry<R>>>
    requires forall k :: 0 <= k < |anchors| ==> anchors[k] < |pairs|
  {
    seq(|anchors|, k requires 0 <= k < |anchors| => ClusterOf(pairs, anchors[k], k))
  }

  function Flatten<T>(groups: seq<seq<T>>): seq<T>
  {
    if groups == [] then [] else Flatten(groups[..|groups| - 1]) + groups[|groups| - 1]
  }

  /** The flat `clusters` list after the first `n` iterations. */
  function Output<R(==)>(pairs: seq<Pair<R>>, n: nat): seq<Entry<R>>
    requires n <= |pairs|
  {
    Flatten(Groups(pairs, Run(pairs, n).anchors))
  }

  /**
   * The ids of a flat list run 0, 1, 2, ... up to `count - 1` without gaps:
   * they never decrease, start at 0, step by at most one and end at `count - 1`.
   */
  predicate DenseIds<R>(f: seq<Entry<R>>, count: nat)
  {
    && (|f| == 0 <==> count == 0)
    && (forall a, b :: 0 <= a < b < |f| ==> f[a].clusterId <= f[b].clusterId)
    && (forall a :: 0 <= a < |f| ==> f[a].clusterId < count)
    && (|f| > 0 ==> f[0].clusterId == 0 && f[|f| - 1].clusterId == count - 1)
    && (forall a :: 0 < a < |f| ==> f[a].clusterId <= f[a - 1].clusterId + 1)
  }

  /**
   * Lines 35-62 for one dataset: returns the flat output list, the final
   * `added` set and the final cluster-id counter.
   */
  method BuildClusters<R(==)>(pairs: seq<Pair<R>>)
    returns (clusters: seq<Entry<R>>, added: set<nat>, clusterId: nat)
    ensures clusters == Output(pairs, |pairs|)
    ensures added == Run(pairs, |pairs|).added
    ensures clusterId == |Run(pairs, |pairs|).anchors|
    ensures forall i :: 0 <= i < |pairs| && pairs[i].matchLabel != 0 ==> i in added
    ensures forall j :: j in added ==> j < |pairs| && pairs[j].matchLabel != 0
    ensures DenseIds(clusters, clusterId)
  {
    clusterId := 0;
    clusters, added := [], {};
    for i := 0 to |pairs|
      invariant clusters == Output(pairs, i)
      invariant added == Run(pairs, i).added
      invariant clusterId == |Run(pairs, i).anchors|
    {
      var p1 := pairs[i];
      if !(p1.matchLabel == 0 || i in added) {
        added := added + {i};
        var cluster;
        cluster, added := ScanAnchor(pairs, i, clusterId, added);
        var newCluster := RemoveDuplicates(cluster);
        OutputStep(pairs, i);
        clusters := clusters + newCluster;
        clusterId := clusterId + 1;
      } else {
        OutputStep(pairs, i);
      }
    }
    RunAddedSound(pairs, |pairs|);
    RunCoversNonZero(pairs, |pairs|);
    OutputIds(pairs, |pairs|);
  }

  // ---------------------------------------------------------------------------
  // What the outer loop guarantees
  // ---------------------------------------------------------------------------

  /**
   * One iteration of the outer loop: a skipped pair leaves the output as it
   * was; an anchor appends exactly its committed cluster under the next id.
   */
  lemma OutputStep<R>(pairs: seq<Pair<R>>, i: nat)
    requires i < |pairs|
    ensures pairs[i].matchLabel == 0 || i in Run(pairs, i).added ==> Output(pairs, i + 1) == Output(pairs, i)
    ensures pairs[i].matchLabel != 0 && i !in Run(pairs, i).added ==>
      Output(pairs, i + 1) == Output(pairs, i) + ClusterOf(pairs, i, |Run(pairs, i).anchors|)
  {
    var anchors := Run(pairs, i).anchors;
    if pairs[i].matchLabel != 0 && i !in Run(pairs, i).added {
      var groups := Groups(pairs, anchors);
      var c := ClusterOf(pairs, i, |anchors|);
      assert Groups(pairs, anchors + [i]) == groups + [c];
      assert (groups + [c])[..|groups|] == groups;
    }
  }

  /** `added` only ever holds valid indices of pairs whose label is not 0. */
  lemma {:induction false} RunAddedSound<R>(pairs: seq<Pair<R>>, n: nat)
    requires n <= |pairs|
    ensures forall j :: j in Run(pairs, n).added ==> j < |pairs| && pairs[j].matchLabel != 0
  {
    if n > 0 {
      RunAddedSound(pairs, n - 1);
      forall j | j in Run(pairs, n).added ensures j < |pairs| && pairs[j].matchLabel != 0 {
        if j !in Run(pairs, n - 1).added && j != n - 1 {
          MarkedMember(pairs, n - 1, |pairs|, j);
        }
      }
    }
  }

  /** The bookkeeping only grows: `added` gains indices and anchors are only appended. */
  lemma {:induction false} RunGrows<R>(pairs: seq<Pair<R>>, m: nat, n: nat)
    requires m <= n <= |pairs|
    ensures Run(pairs, m).added <= Run(pairs, n).added
    ensures Run(pairs, m).anchors <= Run(pairs, n).anchors
  {
    if m < n {
      RunGrows(pairs, m, n - 1);
    }
  }

  /** Once the loop has passed pair `i`, `i` is in `added` unless its label is 0. */
  lemma {:induction false} RunCoversNonZero<R>(pairs: seq<Pair<R>>, n: nat)
    requires n <= |pairs|
    ensures forall i :: 0 <= i < n && pairs[i].matchLabel != 0 ==> i in Run(pairs, n).added
  {
    if n > 0 {
      RunCoversNonZero(pairs, n - 1);
      RunGrows(pairs, n - 1, n);
    }
  }

  /** Anchors are pairs with a non-zero label, in strictly increasing index order. */
  lemma {:induction false} RunAnchors<R>(pairs: seq<Pair<R>>, n: nat)
    requires n <= |pairs|
    ensures forall k :: 0 <= k < |Run(pairs, n).anchors| ==> pairs[Run(pairs, n).anchors[k]].matchLabel != 0
    ensures forall k, k' :: 0 <= k < k' < |Run(pairs, n).anchors| ==>
      Run(pairs, n).anchors[k] < Run(pairs, n).anchors[k']
  {
    if n > 0 {
      RunAnchors(pairs, n - 1);
    }
  }

  /**
   * Pair `i` starts a cluster exactly when its label is not 0 and it is not in
   * `added` when the loop reaches it; so the cluster-id counter counts those pairs.
   */
  lemma {:induction false} AnchorIff<R>(pairs: seq<Pair<R>>, n: nat, i: nat)
    requires i < n <= |pairs|
    ensures i in Run(pairs, n).anchors <==> pairs[i].matchLabel != 0 && i !in Run(pairs, i).added
  {
    if i < n - 1 {
      AnchorIff(pairs, n - 1, i);
    }
  }

  /** Pair `i` starts a cluster: its label is not 0 and it is not in `added` when reached. */
  predicate Starts<R(==)>(pairs: seq<Pair<R>>, i: nat)
    requires i < |pairs|
  {
    pairs[i].matchLabel != 0 && i !in Run(pairs, i).added
  }

  /** The indices of the first `n` pairs that start a cluster. */
  function Starters<R(==)>(pairs: seq<Pair<R>>, n: nat): set<nat>
    requires n <= |pairs|
  {
    if n == 0 then {}
    else if Starts(pairs, n - 1) then Starters(pairs, n - 1) + {n - 1}
    else Starters(pairs, n - 1)
  }

  /** Exactly the visited pairs that start a cluster are starters. */
  lemma {:induction false} StartersMember<R>(pairs: seq<Pair<R>>, n: nat, i: nat)
    requires n <= |pairs|
    ensures i in Starters(pairs, n) <==> i < n && Starts(pairs, i)
  {
    if n > 0 {
      StartersMember(pairs, n - 1, i);
    }
  }

  /**
   * The cluster-id counter equals the number of visited pairs that started a
   * cluster (see `StartersMember` for which pairs those are).
   */
  lemma {:induction false} AnchorCount<R>(pairs: seq<Pair<R>>, n: nat)
    requires n <= |pairs|
    ensures |Run(pairs, n).anchors| == |Starters(pairs, n)|
  {
    if n > 0 {
      AnchorCount(pairs, n - 1);
      CountStep(pairs, n);
    }
  }

  /** Visiting one pair grows the counter and the starters by the same amount. */
  lemma CountStep<R>(pairs: seq<Pair<R>>, n: nat)
    requires 0 < n <= |pairs|
    requires |Run(pairs, n - 1).anchors| == |Starters(pairs, n - 1)|
    ensures |Run(pairs, n).anchors| == |Starters(pairs, n)|
  {
    var i := n - 1;
    if Starts(pairs, i) {
      assert Run(pairs, n).anchors == Run(pairs, i).anchors + [i];
      StartersMember(pairs, i, i);
      assert Starters(pairs, n) == Starters(pairs, i) + {i};
    } else {
      assert Run(pairs, n) == Run(pairs, i);
    }
  }

  /** A pair in `added` once the loop has passed pair `i` never becomes a later anchor. */
  lemma MarkedNeverAnchors<R>(pairs: seq<Pair<R>>, i: nat, j: nat)
    requires i < j < |pairs|
    requires j in Run(pairs, i + 1).added
    ensures j !in Run(pairs, |pairs|).anchors
  {
    RunGrows(pairs, i + 1, j);
    AnchorIff(pairs, |pairs|, j);
  }

  lemma {:induction false} FlattenMember<T>(groups: seq<seq<T>>, x: T)
    requires x in Flatten(groups)
    ensures exists k :: 0 <= k < |groups| && x in groups[k]
  {
    var m := |groups| - 1;
    if x !in groups[m] {
      FlattenMember(groups[..m], x);
      var k :| 0 <= k < m && x in groups[..m][k];
      assert groups[..m][k] == groups[k];
    }
  }

  lemma {:induction false} FlattenHas<T>(groups: seq<seq<T>>, k: nat, x: T)
    requires k < |groups| && x in groups[k]
    ensures x in Flatten(groups)
  {
    var m := |groups| - 1;
    if k < m {
      assert groups[..m][k] == groups[k];
      FlattenHas(groups[..m], k, x);
    }
  }

  /**
   * Flattening repeat-free clusters whose entries carry their position as id
   * gives a list without repeats: two clusters never share an entry.
   */
  lemma {:induction false} FlattenDistinct<R>(groups: seq<seq<Entry<R>>>)
    requires forall k, e :: 0 <= k < |groups| && e in groups[k] ==> e.clusterId == k
    requires forall k :: 0 <= k < |groups| ==> NoDuplicates(groups[k])
    ensures NoDuplicates(Flatten(groups))
  {
    if groups != [] {
      var m := |groups| - 1;
      var init, last := groups[..m], groups[m];
      assert forall k :: 0 <= k < m ==> init[k] == groups[k];
      FlattenDistinct(init);
      var f, f' := Flatten(groups), Flatten(init);
      assert f == f' + last;
      forall a, b | 0 <= a < b < |f| ensures f[a] != f[b] {
        if a < |f'| && b >= |f'| {
          FlattenMember(init, f'[a]);
          var k :| 0 <= k < m && f'[a] in init[k];
          assert f[b] == last[b - |f'|];
        } else if a >= |f'| {
          assert f[a] == last[a - |f'|] && f[b] == last[b - |f'|];
        } else {
          assert f[a] == f'[a] && f[b] == f'[b];
        }
      }
    }
  }

  /** Flattening non-empty clusters whose entries carry their position as id gives dense ids. */
  lemma {:induction false} FlattenIds<R>(groups: seq<seq<Entry<R>>>)
    requires forall k, e :: 0 <= k < |groups| && e in groups[k] ==> e.clusterId == k
    requires forall k :: 0 <= k < |groups| ==> groups[k] != []
    ensures DenseIds(Flatten(groups), |groups|)
  {
    if groups != [] {
      var m := |groups| - 1;
      var init, last := groups[..m], groups[m];
      assert forall k :: 0 <= k < m ==> init[k] == groups[k];
      FlattenIds(init);
      var f, f' := Flatten(groups), Flatten(init);
      assert f == f' + last;
      forall a | |f'| <= a < |f| ensures f[a].clusterId == m {
        assert f[a] == last[a - |f'|];
      }
      assert forall a :: 0 <= a < |f'| ==> f[a] == f'[a];
    }
  }

  /**
   * Cluster ids in the output are 0, 1, 2, ... in discovery order: every entry
   * of cluster `k` has id `k`, and the flat list's ids are dense.
   */
  lemma OutputIds<R>(pairs: seq<Pair<R>>, n: nat)
    requires n <= |pairs|
    ensures forall k, e :: 0 <= k < |Run(pairs, n).anchors| && e in Groups(pairs, Run(pairs, n).anchors)[k] ==>
      e.clusterId == k
    ensures DenseIds(Output(pairs, n), |Run(pairs, n).anchors|)
  {
    var anchors := Run(pairs, n).anchors;
    var g := Groups(pairs, anchors);
    forall k | 0 <= k < |anchors|
      ensures g[k] != [] && forall e: Entry<R> :: e in g[k] ==> e.clusterId == k
    {
      ClusterShape(pairs, anchors[k], k);
    }
    FlattenIds(g);
  }

  /** Record `r` is the left or right record of some pair whose label is not 0. */
  predicate FromNonZeroPair<R(==)>(pairs: seq<Pair<R>>, r: R)
  {
    exists j :: 0 <= j < |pairs| && pairs[j].matchLabel != 0 && (r == pairs[j].left || r == pairs[j].right)
  }

  /** Every record of an anchor's cluster comes from a pair whose label is not 0. */
  lemma ClusterProvenance<R>(pairs: seq<Pair<R>>, a: nat, id: nat, e: Entry<R>)
    requires a < |pairs| && pairs[a].matchLabel != 0
    requires e in ClusterOf(pairs, a, id)
    ensures FromNonZeroPair(pairs, e.record)
  {
    ClusterMember(pairs, a, id, e);
    if e.record != pairs[a].left && e.record != pairs[a].right {
      var j :| 0 <= j < |pairs| && Contributes(pairs, a, j, e.record);
      assert pairs[j].matchLabel != 0 && (e.record == pairs[j].left || e.record == pairs[j].right);
    }
  }

  /** Every emitted record is the left or right record of some pair whose label is not 0. */
  lemma OutputProvenance<R>(pairs: seq<Pair<R>>, n: nat, e: Entry<R>)
    requires n <= |pairs|
    requires e in Output(pairs, n)
    ensures FromNonZeroPair(pairs, e.record)
  {
    var anchors := Run(pairs, n).anchors;
    FlattenMember(Groups(pairs, anchors), e);
    var k :| 0 <= k < |anchors| && e in Groups(pairs, anchors)[k];
    RunAnchors(pairs, n);
    ClusterProvenance(pairs, anchors[k], k, e);
  }

  /** A record that occurs only in label-0 pairs is never emitted (there are no singleton clusters). */
  lemma NegativeOnlyNeverEmitted<R>(pairs: seq<Pair<R>>, r: R)
    requires forall j :: 0 <= j < |pairs| && (pairs[j].left == r || pairs[j].right == r) ==> pairs[j].matchLabel == 0
    ensures forall e :: e in Output(pairs, |pairs|) ==> e.record != r
  {
    forall e | e in Output(pairs, |pairs|) ensures e.record != r {
      OutputProvenance(pairs, |pairs|, e);
    }
  }

  /** No entry occurs twice in the output: no record is emitted twice under one cluster id. */
  lemma OutputDistinct<R>(pairs: seq<Pair<R>>, n: nat)
    requires n <= |pairs|
    ensures NoDuplicates(Output(pairs, n))
  {
    var anchors := Run(pairs, n).anchors;
    var g := Groups(pairs, anchors);
    forall k | 0 <= k < |anchors|
      ensures NoDuplicates(g[k]) && forall e: Entry<R> :: e in g[k] ==> e.clusterId == k
    {
      ClusterShape(pairs, anchors[k], k);
    }
    FlattenDistinct(g);
  }

  /** Every index in `added` is an anchor or was marked by an anchor's scan. */
  lemma {:induction false} AddedCovered<R>(pairs: seq<Pair<R>>, n: nat, j: nat)
    requires n <= |pairs|
    requires j in Run(pairs, n).added
    ensures (exists k :: 0 <= k < |Run(pairs, n).anchors| &&
               (Run(pairs, n).anchors[k] == j || j in Marked(pairs, Run(pairs, n).anchors[k], |pairs|)))
  {
    var s, s' := Run(pairs, n), Run(pairs, n - 1);
    if j in s'.added {
      AddedCovered(pairs, n - 1, j);
      var k :| 0 <= k < |s'.anchors| && (s'.anchors[k] == j || j in Marked(pairs, s'.anchors[k], |pairs|));
      assert s.anchors[k] == s'.anchors[k];
    } else {
      assert s.anchors[|s'.anchors|] == n - 1;
    }
  }

  /**
   * Both records of the anchor, and of every pair its scan marks, are in the
   * anchor's committed cluster.
   */
  lemma RecordsOfScannedPair<R>(pairs: seq<Pair<R>>, a: nat, id: nat, j: nat)
    requires a < |pairs| && j < |pairs|
    requires j == a || j in Marked(pairs, a, |pairs|)
    ensures Entry(id, pairs[j].left) in ClusterOf(pairs, a, id)
    ensures Entry(id, pairs[j].right) in ClusterOf(pairs, a, id)
  {
    var l, r := pairs[j].left, pairs[j].right;
    ClusterMember(pairs, a, id, Entry(id, l));
    ClusterMember(pairs, a, id, Entry(id, r));
    if j != a {
      MarkedMember(pairs, a, |pairs|, j);
      if l == pairs[a].left {
        assert Contributes(pairs, a, j, r);
      } else {
        assert Contributes(pairs, a, j, l);
      }
    }
  }

  /** No record is lost: both records of every pair whose label is not 0 are emitted. */
  lemma PositiveRecordsEmitted<R>(pairs: seq<Pair<R>>, j: nat)
    requires j < |pairs| && pairs[j].matchLabel != 0
    ensures exists e :: e in Output(pairs, |pairs|) && e.record == pairs[j].left
    ensures exists e :: e in Output(pairs, |pairs|) && e.record == pairs[j].right
  {
    var anchors := Run(pairs, |pairs|).anchors;
    RunCoversNonZero(pairs, |pairs|);
    AddedCovered(pairs, |pairs|, j);
    var k :| 0 <= k < |anchors| && (anchors[k] == j || j in Marked(pairs, anchors[k], |pairs|));
    RecordsOfScannedPair(pairs, anchors[k], k, j);
    var g := Groups(pairs, anchors);
    FlattenHas(g, k, Entry(k, pairs[j].left));
    FlattenHas(g, k, Entry(k, pairs[j].right));
  }

  /** A record is emitted exactly when it is a record of some pair whose label is not 0. */
  lemma EmittedIff<R>(pairs: seq<Pair<R>>, r: R)
    ensures (exists e :: e in Output(pairs, |pairs|) && e.record == r) <==> FromNonZeroPair(pairs, r)
  {
    if e :| e in Output(pairs, |pairs|) && e.record == r {
      OutputProvenance(pairs, |pairs|, e);
    }
    if FromNonZeroPair(pairs, r) {
      var j :| 0 <= j < |pairs| && pairs[j].matchLabel != 0 && (r == pairs[j].left || r == pairs[j].right);
      PositiveRecordsEmitted(pairs, j);
    }
  }

  // ---------------------------------------------------------------------------
  // Worked examples
  // ---------------------------------------------------------------------------

  /** The loop state for the pairs (1,2,1), (1,3,1), (4,5,0): pair 0 is the only anchor and ties pair 1. */
  lemma ExampleSharedLeftRun()
    ensures Run([Pair(1, 2, 1), Pair(1, 3, 1), Pair(4, 5, 0)], 3) == State([0], {0, 1})
  {
  }

  /** The committed cluster of anchor 0 for the pairs (1,2,1), (1,3,1), (4,5,0). */
  lemma ExampleSharedLeftCluster()
    ensures ClusterOf([Pair(1, 2, 1), Pair(1, 3, 1), Pair(4, 5, 0)], 0, 0) == [Entry(0, 1), Entry(0, 2), Entry(0, 3)]
  {
    var pairs := [Pair(1, 2, 1), Pair(1, 3, 1), Pair(4, 5, 0)];
    var c := [Entry(0, 1), Entry(0, 2), Entry(0, 3)];
    assert RawCluster(pairs, 0, 1, 0) == [Entry(0, 1), Entry(0, 2)];
    assert RawCluster(pairs, 0, 2, 0) == c;
    assert RawCluster(pairs, 0, 3, 0) == c;
    DedupOfDistinct(c);
  }

  /** [(1,2,1), (1,3,1), (4,5,0)]: one cluster [1,2,3]; 4 and 5 are never emitted. */
  lemma ExampleSharedLeft()
    ensures Output([Pair(1, 2, 1), Pair(1, 3, 1), Pair(4, 5, 0)], 3) == [Entry(0, 1), Entry(0, 2), Entry(0, 3)]
    ensures Run([Pair(1, 2, 1), Pair(1, 3, 1), Pair(4, 5, 0)], 3) == State([0], {0, 1})
  {
    var pairs := [Pair(1, 2, 1), Pair(1, 3, 1), Pair(4, 5, 0)];
    ExampleSharedLeftRun();
    ExampleSharedLeftCluster();
    assert Run(pairs, 1) == Run(pairs, 2) == State([0], {0, 1});
    OutputStep(pairs, 0);
    OutputStep(pairs, 1);
    OutputStep(pairs, 2);
  }

  /** The loop state for the pairs (1,2,1), (2,3,1): both pairs are anchors. */
  lemma ExampleNoTransitiveClosureRun()
    ensures Run([Pair(1, 2, 1), Pair(2, 3, 1)], 2) == State([0, 1], {0, 1})
  {
  }

  /** The two committed clusters for the pairs (1,2,1), (2,3,1). */
  lemma ExampleNoTransitiveClosureClusters()
    ensures ClusterOf([Pair(1, 2, 1), Pair(2, 3, 1)], 0, 0) == [Entry(0, 1), Entry(0, 2)]
    ensures ClusterOf([Pair(1, 2, 1), Pair(2, 3, 1)], 1, 1) == [Entry(1, 2), Entry(1, 3)]
  {
    var pairs := [Pair(1, 2, 1), Pair(2, 3, 1)];
    var c0, c1 := [Entry(0, 1), Entry(0, 2)], [Entry(1, 2), Entry(1, 3)];
    assert RawCluster(pairs, 0, 1, 0) == c0;
    assert RawCluster(pairs, 0, 2, 0) == c0;
    DedupOfDistinct(c0);
    assert RawCluster(pairs, 1, 1, 1) == c1;
    assert RawCluster(pairs, 1, 2, 1) == c1;
    DedupOfDistinct(c1);
  }

  /**
   * [(1,2,1), (2,3,1)]: ties are not followed transitively; pair 1 is not tied
   * to anchor 0, so it anchors its own cluster and record 2 is emitted twice.
   */
  lemma ExampleNoTransitiveClosure()
    ensures Output([Pair(1, 2, 1), Pair(2, 3, 1)], 2) == [Entry(0, 1), Entry(0, 2), Entry(1, 2), Entry(1, 3)]
  {
    var pairs := [Pair(1, 2, 1), Pair(2, 3, 1)];
    ExampleNoTransitiveClosureRun();
    ExampleNoTransitiveClosureClusters();
    assert Run(pairs, 1) == State([0], {0});
    OutputStep(pairs, 0);
    OutputStep(pairs, 1);
  }

  /** The loop state for the pairs (1,2,1), (1,3,1), (4,3,1): pairs 0 and 2 are anchors, both mark pair 1. */
  lemma ExampleAddedPairRescannedRun()
    ensures Run([Pair(1, 2, 1), Pair(1, 3, 1), Pair(4, 3, 1)], 1) == State([0], {0, 1})
    ensures Run([Pair(1, 2, 1), Pair(1, 3, 1), Pair(4, 3, 1)], 2) == State([0], {0, 1})
    ensures Run([Pair(1, 2, 1), Pair(1, 3, 1), Pair(4, 3, 1)], 3) == State([0, 2], {0, 1, 2})
  {
  }

  /** The two committed clusters for the pairs (1,2,1), (1,3,1), (4,3,1). */
  lemma ExampleAddedPairRescannedClusters()
    ensures ClusterOf([Pair(1, 2, 1), Pair(1, 3, 1), Pair(4, 3, 1)], 0, 0) == [Entry(0, 1), Entry(0, 2), Entry(0, 3)]
    ensures ClusterOf([Pair(1, 2, 1), Pair(1, 3, 1), Pair(4, 3, 1)], 2, 1) == [Entry(1, 4), Entry(1, 3), Entry(1, 1)]
  {
    var pairs := [Pair(1, 2, 1), Pair(1, 3, 1), Pair(4, 3, 1)];
    var c0, c1 := [Entry(0, 1), Entry(0, 2), Entry(0, 3)], [Entry(1, 4), Entry(1, 3), Entry(1, 1)];
    assert RawCluster(pairs, 0, 1, 0) == [Entry(0, 1), Entry(0, 2)];
    assert RawCluster(pairs, 0, 2, 0) == c0;
    assert RawCluster(pairs, 0, 3, 0) == c0;
    DedupOfDistinct(c0);
    assert RawCluster(pairs, 2, 1, 1) == [Entry(1, 4), Entry(1, 3)];
    assert RawCluster(pairs, 2, 2, 1) == c1;
    assert RawCluster(pairs, 2, 3, 1) == c1;
    DedupOfDistinct(c1);
  }

  /**
   * [(1,2,1), (1,3,1), (4,3,1)]: the inner scan does not consult `added`, so
   * anchor 2 scans pair 1, which anchor 0 already added, and emits record 1
   * again (through the `elif`, as pair 1 shares anchor 2's right record).
   */
  lemma ExampleAddedPairRescanned()
    ensures Output([Pair(1, 2, 1), Pair(1, 3, 1), Pair(4, 3, 1)], 3)
         == [Entry(0, 1), Entry(0, 2), Entry(0, 3), Entry(1, 4), Entry(1, 3), Entry(1, 1)]
  {
    var pairs := [Pair(1, 2, 1), Pair(1, 3, 1), Pair(4, 3, 1)];
    ExampleAddedPairRescannedRun();
    ExampleAddedPairRescannedClusters();
    OutputStep(pairs, 0);
    OutputStep(pairs, 1);
    OutputStep(pairs, 2);
  }
}
