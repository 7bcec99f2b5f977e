# Pair-to-cluster grouping of labelled entity-matching pairs

This project models the clustering loop of `scripts/get_clusters.py`. For one
dataset, the loop takes a sequence of labelled record pairs
`(left, right, label)` and turns them into a flat list of
`(cluster_id, record)` entries.

- The loop visits the pairs in order. A pair is skipped when its label is 0 or
  when its index is already in the `added` set. Every other pair becomes an
  *anchor*.
- An anchor's cluster starts with the anchor's left and right records.
- The loop then scans every other label-1 pair:
  - if the pair shares the anchor's left record, its right record is appended;
  - otherwise, if it shares the anchor's right record, its left record is appended;
  - either way, that pair's index goes into `added`.
- Duplicates are then removed from the cluster, keeping the first occurrence of
  each record.
- The cluster is appended to the output under the next cluster id, counting
  from 0.

Records are values of any type with equality, because the script compares record
dicts with `==`. An emitted entry `{'cluster_id': id, **record}` is modelled as
`Entry(id, record)`.

The model is in `get_clusters.dfy`, module `GetClusters`. It has two layers:

- **Specification.** `Run(pairs, n)` is the loop's bookkeeping after the outer
  loop has visited the first `n` pairs: the index of each anchor, in discovery
  order, and the `added` set. The cluster-id counter is the number of anchors.
  The helper functions are:
  - `Contribution`, one step of the inner scan;
  - `RawCluster`, the cluster before deduplication;
  - `Marked`, the indices one scan adds;
  - `Dedup`;
  - `ClusterOf`, the committed cluster of one anchor;
  - `Groups` and `Output`, the committed clusters and the flat output list.

  `Contributes` and `Joins` are independent reference definitions of cluster
  membership. They are written as a relation rather than as the scan's if/elif.
- **Loops.** Each loop of the script is an imperative method:
  - `ScanAnchor` is the inner scan;
  - `RemoveDuplicates` is the dedup loop;
  - `BuildClusters` is the outer loop.

  Each method is proved to compute what the specification says. The lemmas about
  `Run` and `Output` state what the loop guarantees.

Four behaviours of the script are worth stating plainly, because the model
reproduces them exactly:

- There are no singleton clusters and no cluster-size histogram. Only anchors
  and the pairs tied to them produce output, so a record that occurs only in
  label-0 pairs is never emitted (`NegativeOnlyNeverEmitted`). Every record of a
  pair whose label is not 0 is emitted at least once (`PositiveRecordsEmitted`).
- A record can be emitted in more than one cluster, for two reasons:
  - Ties are not followed transitively: only pairs that share a record with the
    anchor itself join its cluster. For pairs `(1,2,1), (2,3,1)`, record 2 is
    emitted under id 0 and again under id 1 (`ExampleNoTransitiveClosure`).
  - The inner scan does not look at `added`, so a later anchor can scan a pair
    that an earlier anchor already added. For pairs `(1,2,1), (1,3,1), (4,3,1)`,
    anchor 0 adds pair 1, and anchor 2's scan reaches pair 1 again through its
    right record and appends record 1 under id 1 (`ExampleAddedPairRescanned`).

  Within one cluster id no entry repeats, and the flat output has no repeated
  entry (`OutputDistinct`).
- The inner scan uses `if`/`elif`. A pair that shares the anchor's left record
  contributes only its right record, even when its right record also equals the
  anchor's right record.
- A pair is skipped as an anchor only when its label equals 0, but the inner
  scan follows only pairs whose label equals 1. The model keeps the label as an
  integer and reproduces both tests exactly.

## Model

| member | source | states |
|---|---|---|
| `GetClusters.DedupMember` | scripts/get_clusters.py:56-59 | in both directions, an entry is in the deduplicated cluster iff it is in the cluster |
| `GetClusters.DedupDistinct` | scripts/get_clusters.py:56-59 | the deduplicated cluster holds no entry twice |
| `GetClusters.DedupKeepsFirstOccurrenceOrder` | scripts/get_clusters.py:56-59 | entries keep first-occurrence order: if x comes before y in the result, x occurs in the input before every occurrence of y |
| `GetClusters.DedupPrefix` | scripts/get_clusters.py:57-59 | the result of deduplicating a prefix of the input is a prefix of the result for the whole input, so the loop only ever appends |
| `GetClusters.DedupOfDistinct` | scripts/get_clusters.py:56-59 | a cluster with no repeats comes out unchanged |
| `GetClusters.DedupHead` | scripts/get_clusters.py:43-44 | a deduplicated cluster that starts with x, y starts with x, and with x, y when they differ |
| `GetClusters.RemoveDuplicates` | scripts/get_clusters.py:56-59 | the membership-check-and-append loop builds the deduplication of the cluster: no repeats, same entries, first occurrences kept |
| `GetClusters.MarkedMember` | scripts/get_clusters.py:46-53 | in both directions, the scan of anchor a adds index j to `added` iff pair j has label 1, j != a, and j shares a's left record or a's right record |
| `GetClusters.RawClusterStart` | scripts/get_clusters.py:43-44 | the cluster before deduplication starts with the anchor's left record, then its right record |
| `GetClusters.RawClusterMember` | scripts/get_clusters.py:43-53 | in both directions, an entry is in the cluster before deduplication iff it has the cluster's id and either its record is one of the anchor's records or some pair j != anchor with label 1 contributes it. A pair contributes its right record when its left equals the anchor's left, otherwise its left record when its right equals the anchor's right |
| `GetClusters.ScanAnchor` | scripts/get_clusters.py:43-53 | the inner scan builds the anchor's two records followed by one record per tied label-1 pair in pair order; `added` gains exactly the indices of the tied pairs |
| `GetClusters.ClusterMember` | scripts/get_clusters.py:43-59 | in both directions, an entry is in a committed cluster iff it carries the cluster's id and its record is the anchor's left or right record or is contributed by another label-1 pair under the if/elif rule |
| `GetClusters.ClusterShape` | scripts/get_clusters.py:43-59 | a committed cluster is non-empty, starts with the anchor's left record, has the anchor's right record second when it differs from the left, has no repeats, and all its entries carry its id |
| `GetClusters.ClusterProvenance` | scripts/get_clusters.py:43-53 | every record of a cluster whose anchor has a non-zero label is the left or right record of a pair whose label is not 0 |
| `GetClusters.Run` | scripts/get_clusters.py:38-42 | every anchor is the index of a pair the loop has already visited |
| `GetClusters.OutputStep` | scripts/get_clusters.py:38-62 | one iteration of the outer loop leaves the output unchanged when the pair's label is 0 or the pair is in `added`; otherwise it appends exactly that anchor's committed cluster, under the next id |
| `GetClusters.BuildClusters` | scripts/get_clusters.py:35-62 | the outer loop returns the output list, `added` and the id counter of the specification. Every pair with a non-zero label ends in `added`. `added` holds only valid indices of pairs with a non-zero label. The output ids are dense: they run 0, 1, ... up to the counter minus 1, never decrease and have no gaps |
| `GetClusters.RunAddedSound` | scripts/get_clusters.py:39-52 | `added` holds only indices of the pair list whose label is not 0 |
| `GetClusters.RunGrows` | scripts/get_clusters.py:38-62 | across iterations `added` only grows and the anchors are only extended |
| `GetClusters.RunCoversNonZero` | scripts/get_clusters.py:38-42 | once the loop has passed pair i, i is in `added` unless its label is 0 |
| `GetClusters.RunAnchors` | scripts/get_clusters.py:38-42 | anchors have non-zero labels and come in strictly increasing index order |
| `GetClusters.AnchorIff` | scripts/get_clusters.py:38-42 | in both directions, pair i starts a cluster iff its label is not 0 and i is not in `added` when the loop reaches it. A label-0 pair never starts one |
| `GetClusters.StartersMember` | scripts/get_clusters.py:38-42 | in both directions, index i is a starter after n iterations iff i < n, pair i's label is not 0, and i is not in `added` when the loop reaches it |
| `GetClusters.AnchorCount` | scripts/get_clusters.py:38-62 | the cluster-id counter equals the number of starters: the visited pairs whose label is not 0 and that were not in `added` when reached |
| `GetClusters.MarkedNeverAnchors` | scripts/get_clusters.py:39-52 | a pair that is in `added` once the loop has passed an earlier pair i is never used as an anchor later |
| `GetClusters.FlattenIds` | scripts/get_clusters.py:61-62 | appending non-empty clusters whose entries carry their position as id gives dense ids in the flat list |
| `GetClusters.OutputIds` | scripts/get_clusters.py:35-62 | every entry of cluster k carries id k, and the ids of the output list are dense |
| `GetClusters.OutputProvenance` | scripts/get_clusters.py:39-61 | every emitted record is the left or right record of some pair whose label is not 0 |
| `GetClusters.AddedCovered` | scripts/get_clusters.py:39-52 | every index in `added` is an anchor or is marked by the scan of some anchor |
| `GetClusters.RecordsOfScannedPair` | scripts/get_clusters.py:43-53 | both records of an anchor, and both records of every pair its scan adds to `added`, are in the anchor's committed cluster |
| `GetClusters.PositiveRecordsEmitted` | scripts/get_clusters.py:39-61 | both records of every pair whose label is not 0 are emitted under some cluster id |
| `GetClusters.EmittedIff` | scripts/get_clusters.py:39-61 | in both directions, a record is emitted iff it is the left or right record of some pair whose label is not 0 |
| `GetClusters.FlattenDistinct` | scripts/get_clusters.py:61-62 | appending clusters that have no repeats and whose entries carry their position as id gives a list with no repeats |
| `GetClusters.OutputDistinct` | scripts/get_clusters.py:56-62 | the flat output list holds no entry twice |
| `GetClusters.NegativeOnlyNeverEmitted` | scripts/get_clusters.py:39-61 | a record that occurs only in label-0 pairs is never emitted |
| `GetClusters.ExampleSharedLeft` | scripts/get_clusters.py:38-62 | pairs (1,2,1), (1,3,1), (4,5,0) give one cluster [1,2,3] with id 0; `added` is {0,1}; 4 and 5 are not emitted |
| `GetClusters.ExampleNoTransitiveClosure` | scripts/get_clusters.py:46-53 | pairs (1,2,1), (2,3,1) give two clusters [1,2] and [2,3]: ties are not followed transitively |
| `GetClusters.ExampleAddedPairRescanned` | scripts/get_clusters.py:38-62 | pairs (1,2,1), (1,3,1), (4,3,1) give clusters [1,2,3] with id 0 and [4,3,1] with id 1: pair 1, already in `added`, is scanned again by anchor 2 |

## Left out

- Dataset loading through the external dataset library (scripts/get_clusters.py:5-33) is left out. This includes concatenating the train, test and validation splits and ignoring a missing validation split. These are foreign calls and I/O; the model takes the concatenated pair list as its input.
- The outer iteration over the datasets (scripts/get_clusters.py:34) is left out. It repeats the same procedure on independent inputs; the model handles one dataset.
- Creating the output folder, writing the NDJSON lines and writing the README (scripts/get_clusters.py:64-75) are left out. This is file I/O.
- The emitted entry is the pair `(cluster_id, record)`. The key override that `{'cluster_id': id, **record}` would perform when a record has its own `cluster_id` field is not modelled. Without it, comparing two entries of one cluster is the same as comparing their records.
