/**
 The aspect-ratio bucket index as a value, and the functions that describe what each
 operation of the bucket manager does to it. The class `Buckets.BucketManager` changes
 its fields step by step; its methods that change the index or the discovered set are proved
 to end in the states these functions give.
 */
module BucketIndex {
  import opened Optional
  import opened Seqs

  /** A file identifier in string form, as the storage backend lists it. */
  type Path = string
  /** An aspect-ratio bucket key, such as "1:1". */
  type BucketKey = string
  /** `aspect_ratio_bucket_indices`: each bucket key with the ordered list of its images. */
  type Index = map<BucketKey, seq<Path>>

  /** The fixed number of workers the bucket computation fans out to (`num_cpus`). */
  const WORKER_COUNT: nat := 8

  /** `index.get(k, [])`. */
  function Get(idx: Index, k: BucketKey): seq<Path> {
    if k in idx then idx[k] else []
  }

  /** Every image held by some bucket: `set().union(*index.values())`. */
  function Images(idx: Index): set<Path> {
    set k, p | k in idx && p in idx[k] :: p
  }

  // ---------------------------------------------------------------------------
  // Counting (`__len__`)

  ghost function SomeKey(idx: Index): BucketKey
    requires idx != map[]
  {
    var k :| k in idx; k
  }

  lemma RemoveKeySize(idx: Index, k: BucketKey)
    requires k in idx
    ensures |idx - {k}| == |idx| - 1
  {
    assert (idx - {k}).Keys == idx.Keys - {k};
  }

  /** The number of images over all buckets, counting repetitions: no bucket holds more, and it is 0 just when every bucket is empty. */
  ghost function Count(idx: Index): (r: nat)
    ensures forall k :: k in idx ==> |idx[k]| <= r
    ensures r == 0 <==> forall k :: k in idx ==> idx[k] == []
    decreases |idx|
  {
    if idx == map[] then 0
    else
      var k := SomeKey(idx);
      RemoveKeySize(idx, k);
      assert forall j :: j in idx && j != k ==> j in idx - {k};
      |idx[k]| + Count(idx - {k})
  }

  /** The total does not depend on which bucket is counted first. */
  lemma {:induction false} CountRemove(idx: Index, k: BucketKey)
    requires k in idx
    ensures Count(idx) == |idx[k]| + Count(idx - {k})
    decreases |idx|
  {
    var j := SomeKey(idx);
    if j != k {
      RemoveKeySize(idx, j);
      RemoveKeySize(idx, k);
      CountRemove(idx - {j}, k);
      CountRemove(idx - {k}, j);
      assert (idx - {j}) - {k} == (idx - {k}) - {j};
    }
  }

  /** Replacing one bucket's list changes the total by the difference in length. */
  lemma CountUpdate(idx: Index, k: BucketKey, s: seq<Path>)
    ensures Count(idx[k := s]) == Count(idx) - |Get(idx, k)| + |s|
  {
    CountRemove(idx[k := s], k);
    assert idx[k := s] - {k} == idx - {k};
    if k in idx {
      CountRemove(idx, k);
    } else {
      assert idx - {k} == idx;
    }
  }

  // ---------------------------------------------------------------------------
  // Minimum bucket size (`_enforce_min_bucket_size`)

  /** The index without the buckets that hold fewer than `batchSize` images. */
  function Pruned(idx: Index, batchSize: int): (r: Index)
    ensures forall k :: k in r <==> k in idx && |idx[k]| >= batchSize
    ensures forall k :: k in r ==> r[k] == idx[k]
  {
    map k | k in idx && |idx[k]| >= batchSize :: idx[k]
  }

  /** The buckets that pruning drops. */
  function Evicted(idx: Index, batchSize: int): Index {
    map k | k in idx && |idx[k]| < batchSize :: idx[k]
  }

  /** Pruning an already pruned index changes nothing. */
  lemma PrunedIdempotent(idx: Index, batchSize: int)
    ensures Pruned(Pruned(idx, batchSize), batchSize) == Pruned(idx, batchSize)
  {
  }

  /** No image is lost except those of the dropped buckets. */
  lemma {:induction false} PrunedCount(idx: Index, batchSize: int)
    ensures Count(idx) == Count(Pruned(idx, batchSize)) + Count(Evicted(idx, batchSize))
    decreases |idx|
  {
    if idx != map[] {
      var k := SomeKey(idx);
      var rest := idx - {k};
      RemoveKeySize(idx, k);
      CountRemove(idx, k);
      PrunedCount(rest, batchSize);
      PrunedSplit(idx, batchSize, k);
    } else {
      assert Pruned(idx, batchSize) == map[] && Evicted(idx, batchSize) == map[];
    }
  }

  /** Bucket `k` goes to exactly one side of the split, and the rest splits as before. */
  lemma PrunedSplit(idx: Index, batchSize: int, k: BucketKey)
    requires k in idx
    ensures Count(Pruned(idx, batchSize)) + Count(Evicted(idx, batchSize))
         == |idx[k]| + Count(Pruned(idx - {k}, batchSize)) + Count(Evicted(idx - {k}, batchSize))
  {
    var rest := idx - {k};
    var kept, gone := Pruned(idx, batchSize), Evicted(idx, batchSize);
    if |idx[k]| >= batchSize {
      assert Pruned(rest, batchSize) == kept - {k};
      assert Evicted(rest, batchSize) == gone;
      CountRemove(kept, k);
    } else {
      assert Pruned(rest, batchSize) == kept;
      assert Evicted(rest, batchSize) == gone - {k};
      CountRemove(gone, k);
    }
  }

  // ---------------------------------------------------------------------------
  // Filters over file lists

  /** `[img for img in images if img in existing]`. */
  function Present(images: seq<Path>, existing: set<Path>): (r: seq<Path>)
    ensures forall p :: p in r <==> p in images && p in existing
    ensures IsSubsequence(r, images)
  {
    FilterIsSubsequence(images, (p: Path) => p in existing);
    Filter(images, (p: Path) => p in existing)
  }

  /** `[f for f in files if str(f) not in known]`: the files not yet known, in listing order. */
  function Unknown(files: seq<Path>, known: set<Path>): (r: seq<Path>)
    ensures forall f :: f in r <==> f in files && f !in known
    ensures IsSubsequence(r, files)
  {
    FilterIsSubsequence(files, (p: Path) => p !in known);
    Filter(files, (p: Path) => p !in known)
  }

  /** When none of the files is known, all of them are unknown, in order. */
  lemma UnknownNoneKnown(files: seq<Path>, known: set<Path>)
    requires forall i :: 0 <= i < |files| ==> files[i] !in known
    ensures Unknown(files, known) == files
  {
    FilterKeepsAll(files, (p: Path) => p !in known);
  }

  /** A file that is wanted is kept as often as it is listed, and an unwanted one never. */
  lemma UnknownCounts(files: seq<Path>, known: set<Path>, f: Path)
    ensures multiset(Unknown(files, known))[f] == if f in known then 0 else multiset(files)[f]
  {
    FilterCounts(files, (p: Path) => p !in known, f);
  }

  lemma PresentCounts(images: seq<Path>, existing: set<Path>, p: Path)
    ensures multiset(Present(images, existing))[p] == if p in existing then multiset(images)[p] else 0
  {
    FilterCounts(images, (q: Path) => q in existing, p);
  }

  lemma UnknownAppend(a: seq<Path>, b: seq<Path>, known: set<Path>)
    ensures Unknown(a + b, known) == Unknown(a, known) + Unknown(b, known)
  {
    FilterAppend(a, b, (p: Path) => p !in known);
  }

  lemma PresentIdempotent(images: seq<Path>, existing: set<Path>)
    ensures Present(Present(images, existing), existing) == Present(images, existing)
  {
    FilterIdempotent(images, (p: Path) => p in existing);
  }

  /** `_discover_new_files`: the listed files whose string form is not yet discovered, in listing order. */
  function DiscoverNewFiles(listing: seq<Path>, discovered: set<Path>): (r: seq<Path>)
    ensures forall f :: f in r <==> f in listing && f !in discovered
    ensures IsSubsequence(r, listing)
  {
    Unknown(listing, discovered)
  }

  /** Nothing is new exactly when every listed file has been discovered. */
  lemma NoNewFiles(listing: seq<Path>, discovered: set<Path>)
    ensures DiscoverNewFiles(listing, discovered) == [] <==> forall f :: f in listing ==> f in discovered
  {
    var r := DiscoverNewFiles(listing, discovered);
    if r != [] {
      assert r[0] in r;
    }
  }

  /** `update_buckets_with_existing_files` before the save: each list filtered to the existing files. */
  function KeepExisting(idx: Index, existing: set<Path>): (r: Index)
    ensures r.Keys == idx.Keys
    ensures forall k :: k in r ==> |r[k]| <= |idx[k]|
  {
    map k | k in idx :: Present(idx[k], existing)
  }

  /** No bucket is created or dropped, no present image is lost and no absent one is kept. */
  lemma KeepExistingSpec(idx: Index, existing: set<Path>)
    ensures KeepExisting(idx, existing).Keys == idx.Keys
    ensures forall k, p :: k in idx ==> (p in KeepExisting(idx, existing)[k] <==> p in idx[k] && p in existing)
    ensures forall k :: k in idx ==> IsSubsequence(KeepExisting(idx, existing)[k], idx[k])
    ensures Images(KeepExisting(idx, existing)) == Images(idx) * existing
  {
    var r := KeepExisting(idx, existing);
    forall p | p in Images(idx) * existing ensures p in Images(r) {
      var k :| k in idx && p in idx[k];
      assert p in r[k];
    }
  }

  /** Filtering an index a second time by the same files changes nothing. */
  lemma KeepExistingIdempotent(idx: Index, existing: set<Path>)
    ensures KeepExisting(KeepExisting(idx, existing), existing) == KeepExisting(idx, existing)
  {
    var once := KeepExisting(idx, existing);
    forall k | k in idx ensures KeepExisting(once, existing)[k] == once[k] {
      PresentIdempotent(idx[k], existing);
    }
  }

  /** Pruning and filtering by files that the lists already hold commute with each other. */
  lemma KeepExistingOfPruned(idx: Index, existing: set<Path>, batchSize: int)
    requires KeepExisting(idx, existing) == idx
    ensures KeepExisting(Pruned(idx, batchSize), existing) == Pruned(idx, batchSize)
  {
    var p := Pruned(idx, batchSize);
    forall k | k in p ensures KeepExisting(p, existing)[k] == p[k] {
      assert KeepExisting(idx, existing)[k] == idx[k];
    }
  }

  // ---------------------------------------------------------------------------
  // Merging worker results (`setdefault(key, []).extend(value)`)

  /** `part` merged into `idx`: every bucket of `part` is appended to the (possibly new) bucket of `idx`. */
  function Merged(idx: Index, part: Index): (r: Index)
    ensures r.Keys == idx.Keys + part.Keys
    ensures forall k :: k in idx ==> idx[k] <= r[k]
    ensures forall k :: k in r ==> |r[k]| == |Get(idx, k)| + |Get(part, k)|
  {
    map k | k in idx.Keys + part.Keys :: Get(idx, k) + Get(part, k)
  }

  /** The merge of a sequence of partial indices, in order. */
  function MergeAll(idx: Index, parts: seq<Index>): (r: Index)
    ensures forall k :: k in idx ==> k in r && idx[k] <= r[k]
    decreases |parts|
  {
    if parts == [] then idx else Merged(MergeAll(idx, parts[..|parts| - 1]), parts[|parts| - 1])
  }

  /** Merging one more bucket of a part updates only that bucket. */
  lemma MergedPeel(idx: Index, part: Index, k: BucketKey)
    requires k in part
    ensures Merged(idx, part) == Merged(idx, part - {k})[k := Get(idx, k) + part[k]]
    ensures Get(Merged(idx, part - {k}), k) == Get(idx, k)
  {
  }

  /** Merging never overwrites: no image is lost or doubled. */
  lemma {:induction false} MergedCount(idx: Index, part: Index)
    ensures Count(Merged(idx, part)) == Count(idx) + Count(part)
    decreases |part|
  {
    if part == map[] {
      forall k | k in idx ensures Merged(idx, part)[k] == idx[k] {
        assert idx[k] + [] == idx[k];
      }
      assert Merged(idx, part) == idx;
    } else {
      var k := SomeKey(part);
      var rest := part - {k};
      RemoveKeySize(part, k);
      var m, v := Merged(idx, rest), Get(idx, k) + part[k];
      MergedCount(idx, rest);
      assert Count(m) == Count(idx) + Count(rest);
      CountRemove(part, k);
      assert Count(part) == |part[k]| + Count(rest);
      MergedPeel(idx, part, k);
      CountUpdate(m, k, v);
      assert Count(m[k := v]) == Count(m) - |Get(idx, k)| + |v|;
    }
  }

  /** The images after merging are the old ones together with those of every part. */
  lemma MergedImages(idx: Index, part: Index)
    ensures Images(Merged(idx, part)) == Images(idx) + Images(part)
  {
    var m := Merged(idx, part);
    forall p | p in Images(m) ensures p in Images(idx) + Images(part) {
      var k :| k in m && p in m[k];
      assert p in Get(idx, k) || p in Get(part, k);
    }
    forall p | p in Images(idx) + Images(part) ensures p in Images(m) {
      if p in Images(idx) {
        var k :| k in idx && p in idx[k];
        assert p in m[k];
      } else {
        var k :| k in part && p in part[k];
        assert p in m[k];
      }
    }
  }

  // ---------------------------------------------------------------------------
  // Sharding (`np.array_split(new_files, num_cpus)`)

  /**
   Where shard `i` starts when each shard holds `q` files and the first `r` one more: so with
   `q = n / sections` and `r = n % sections`, as `array_split` divides `n` files.
   */
  function ShardStart(q: nat, r: nat, i: nat): nat {
    if i == 0 then 0 else ShardStart(q, r, i - 1) + q + (if i - 1 < r then 1 else 0)
  }

  lemma {:induction false} ShardStartValue(q: nat, r: nat, i: nat)
    ensures ShardStart(q, r, i) == i * q + (if i < r then i else r)
  {
    if i > 0 {
      ShardStartValue(q, r, i - 1);
      assert i * q == (i - 1) * q + q;
    }
  }

  lemma {:induction false} ShardStartMonotone(q: nat, r: nat, i: nat, j: nat)
    requires i <= j
    ensures ShardStart(q, r, i) <= ShardStart(q, r, j)
    decreases j
  {
    if i < j {
      ShardStartMonotone(q, r, i, j - 1);
    }
  }

  /** The last shard ends at the end of the list. */
  lemma ShardStartEnd(total: nat, sections: nat)
    requires sections > 0
    ensures ShardStart(total / sections, total % sections, sections) == total
  {
    var q, r := total / sections, total % sections;
    ShardStartValue(q, r, sections);
    assert r < sections;
    assert sections * q + r == total;
  }

  /** The start of shard `i` of `files`, and the end of the last shard before it. */
  function Boundary(files: seq<Path>, sections: nat, i: nat): nat
    requires 0 < sections
  {
    ShardStart(|files| / sections, |files| % sections, i)
  }

  /** Every shard boundary lies within the list, in order. */
  lemma BoundaryBounds(files: seq<Path>, sections: nat, i: nat, j: nat)
    requires 0 < sections && i <= j <= sections
    ensures Boundary(files, sections, i) <= Boundary(files, sections, j) <= |files|
  {
    var q, r := |files| / sections, |files| % sections;
    ShardStartMonotone(q, r, i, j);
    ShardStartMonotone(q, r, j, sections);
    ShardStartEnd(|files|, sections);
  }

  /** Shard `i` of `np.array_split(files, sections)`. */
  function Shard(files: seq<Path>, sections: nat, i: nat): seq<Path>
    requires 0 < sections && i < sections
  {
    BoundaryBounds(files, sections, i, i + 1);
    files[Boundary(files, sections, i)..Boundary(files, sections, i + 1)]
  }

  lemma ShardSize(files: seq<Path>, sections: nat, i: nat)
    requires 0 < sections && i < sections
    ensures |Shard(files, sections, i)| == |files| / sections + (if i < |files| % sections then 1 else 0)
  {
    BoundaryBounds(files, sections, i, i + 1);
  }

  /** The first `count` shards. */
  function Shards(files: seq<Path>, sections: nat, count: nat): seq<seq<Path>>
    requires 0 < sections && count <= sections
  {
    if count == 0 then [] else Shards(files, sections, count - 1) + [Shard(files, sections, count - 1)]
  }

  lemma {:induction false} ShardsPrefix(files: seq<Path>, sections: nat, count: nat)
    requires 0 < sections && count <= sections
    ensures |Shards(files, sections, count)| == count
    ensures forall i :: 0 <= i < count ==> Shards(files, sections, count)[i] == Shard(files, sections, i)
  {
    if count > 0 {
      ShardsPrefix(files, sections, count - 1);
    }
  }

  /** The files up to the end of shard `i` are those up to its start, then the shard. */
  lemma ShardAppend(files: seq<Path>, sections: nat, i: nat)
    requires 0 < sections && i < sections
    ensures Boundary(files, sections, i + 1) <= |files|
    ensures files[..Boundary(files, sections, i + 1)] == files[..Boundary(files, sections, i)] + Shard(files, sections, i)
  {
    BoundaryBounds(files, sections, i, i + 1);
    var a, b := Boundary(files, sections, i), Boundary(files, sections, i + 1);
    assert files[..b] == files[..a] + files[a..b];
  }

  lemma {:induction false} ShardsFlatten(files: seq<Path>, sections: nat, count: nat)
    requires 0 < sections && count <= sections
    ensures Boundary(files, sections, count) <= |files|
    ensures Flatten(Shards(files, sections, count)) == files[..Boundary(files, sections, count)]
  {
    if count > 0 {
      ShardsFlatten(files, sections, count - 1);
      FlattenSnoc(Shards(files, sections, count - 1), Shard(files, sections, count - 1));
      ShardAppend(files, sections, count - 1);
    } else {
      BoundaryBounds(files, sections, 0, 0);
      assert files[..0] == [];
    }
  }

  /** `np.array_split(files, sections)`: contiguous shards, in order, whose sizes differ by at most one. */
  function ArraySplit(files: seq<Path>, sections: nat): (shards: seq<seq<Path>>)
    requires sections > 0
    ensures |shards| == sections
    ensures forall i :: 0 <= i < sections ==>
      |shards[i]| == |files| / sections + (if i < |files| % sections then 1 else 0)
    ensures Flatten(shards) == files
  {
    var shards := Shards(files, sections, sections);
    ShardsPrefix(files, sections, sections);
    ShardsFlatten(files, sections, sections);
    BoundaryBounds(files, sections, sections, sections);
    ShardStartEnd(|files|, sections);
    assert files[..|files|] == files;
    forall i | 0 <= i < sections
      ensures |shards[i]| == |files| / sections + (if i < |files| % sections then 1 else 0)
    {
      ShardSize(files, sections, i);
    }
    shards
  }

  // ---------------------------------------------------------------------------
  // Bucket workers (`_bucket_worker`)

  /**
   `MultiaspectImage.process_for_bucket(backend, file, partial)`: decodes the image and returns
   the partial index with the file filed under its bucket. It is external and left uninterpreted.
   */
  type Assigner = (Path, Index) -> Index

  /**
   The index after the assigner has been called on `files` in order, starting from `idx`; an
   assigner that files only the image it is given adds no image outside `files`.
   */
  function AssignFrom(assign: Assigner, idx: Index, files: seq<Path>): (r: Index)
    ensures FilesOnlyItsImage(assign) ==> Images(r) <= Images(idx) + SetOf(files)
    decreases |files|
  {
    if files == [] then idx
    else
      var init := files[..|files| - 1];
      assert SetOf(init) <= SetOf(files);
      assign(files[|files| - 1], AssignFrom(assign, idx, init))
  }

  /** A worker's partial index: the assigner called on `files` in order, starting from `{}`. */
  function AssignAll(assign: Assigner, files: seq<Path>): (r: Index)
    ensures FilesOnlyItsImage(assign) ==> Images(r) <= SetOf(files)
  {
    assert Images(map[]) == {};
    AssignFrom(assign, map[], files)
  }

  /** The partial index one worker puts on the results queue for its shard. */
  function WorkerIndex(shard: seq<Path>, existing: set<Path>, assign: Assigner): (r: Index)
    ensures (forall f :: f in shard ==> f in existing) ==> r == map[]
    ensures FilesOnlyItsImage(assign) ==> Images(r) <= SetOf(shard) - existing
  {
    var todo := Unknown(shard, existing);
    assert todo != [] ==> todo[0] in todo;
    AssignAll(assign, todo)
  }

  /** One more file of the shard: the assigner is called on it exactly when no bucket holds it yet. */
  lemma WorkerIndexStep(files: seq<Path>, i: nat, existing: set<Path>, assign: Assigner)
    requires i < |files|
    ensures WorkerIndex(files[..i + 1], existing, assign) ==
      if files[i] in existing then WorkerIndex(files[..i], existing, assign)
      else assign(files[i], WorkerIndex(files[..i], existing, assign))
  {
    assert files[..i + 1] == files[..i] + [files[i]];
    UnknownAppend(files[..i], [files[i]], existing);
    var done := Unknown(files[..i], existing);
    if files[i] !in existing {
      assert Unknown([files[i]], existing) == [files[i]];
      AssignAllSnoc(assign, done, files[i]);
    } else {
      assert Unknown([files[i]], existing) == [];
      assert done + [] == done;
    }
  }

  /** One more file for the assigner. */
  lemma AssignAllSnoc(assign: Assigner, files: seq<Path>, f: Path)
    ensures AssignAll(assign, files + [f]) == assign(f, AssignAll(assign, files))
  {
    assert (files + [f])[..|files|] == files;
  }

  /** Merging one more bucket of a part into an already merged index. */
  lemma MergedAdd(idx: Index, part: Index, k: BucketKey, images: seq<Path>)
    requires k !in part
    ensures Merged(idx, part[k := images]) == Merged(idx, part)[k := Get(Merged(idx, part), k) + images]
  {
    MergedPeel(idx, part[k := images], k);
    assert part[k := images] - {k} == part;
  }

  /** The partial indices of all workers, in shard order. */
  function WorkerIndices(shards: seq<seq<Path>>, existing: set<Path>, assign: Assigner): seq<Index> {
    seq(|shards|, (i: nat) requires i < |shards| => WorkerIndex(shards[i], existing, assign))
  }

  // ---------------------------------------------------------------------------
  // The manager's state and its batch operations

  /** The two fields of the manager the cache persists. */
  datatype Snapshot = Snapshot(buckets: Index, discovered: set<Path>)

  /**
   `compute_aspect_ratio_bucket_indices` followed by its save: nothing happens when no listed
   file is new; otherwise the new files are split into shards, each shard is bucketed by a worker
   that skips files some bucket already holds, the partial indices are appended to the buckets,
   the new files become discovered and the short buckets are pruned.
   */
  function ComputeStep(s: Snapshot, listing: seq<Path>, assign: Assigner, batchSize: int): (r: Snapshot)
    ensures s.discovered <= r.discovered
    ensures r != s ==> forall k :: k in r.buckets ==> |r.buckets[k]| >= batchSize
  {
    var newFiles := DiscoverNewFiles(listing, s.discovered);
    if newFiles == [] then s
    else
      var parts := WorkerIndices(ArraySplit(newFiles, WORKER_COUNT), Images(s.buckets), assign);
      Snapshot(Pruned(MergeAll(s.buckets, parts), batchSize), s.discovered + SetOf(newFiles))
  }

  /** `update_buckets_with_existing_files(existing)` followed by its save. */
  function UpdateStep(s: Snapshot, existing: set<Path>, batchSize: int): (r: Snapshot)
    ensures r.discovered == s.discovered && r.buckets.Keys <= s.buckets.Keys
    ensures forall k :: k in r.buckets ==> batchSize <= |r.buckets[k]| <= |s.buckets[k]|
    ensures Images(r.buckets) <= existing
  {
    KeepExistingSpec(s.buckets, existing);
    PrunedImages(KeepExisting(s.buckets, existing), batchSize);
    Snapshot(Pruned(KeepExisting(s.buckets, existing), batchSize), s.discovered)
  }

  /**
   `refresh_buckets`: the computation over the first listing, then the filter by the set of
   files of the second listing.
   */
  function RefreshStep(s: Snapshot, listing: seq<Path>, current: seq<Path>, assign: Assigner, batchSize: int): (r: Snapshot)
    ensures s.discovered <= r.discovered
    ensures Images(r.buckets) <= SetOf(current)
    ensures forall k :: k in r.buckets ==> |r.buckets[k]| >= batchSize
  {
    UpdateStep(ComputeStep(s, listing, assign, batchSize), SetOf(current), batchSize)
  }

  /** With no new files the computation changes nothing. */
  lemma ComputeWithoutNewFiles(s: Snapshot, listing: seq<Path>, assign: Assigner, batchSize: int)
    requires forall f :: f in listing ==> f in s.discovered
    ensures ComputeStep(s, listing, assign, batchSize) == s
  {
    NoNewFiles(listing, s.discovered);
  }

  /** Afterwards every listed file is discovered, and nothing else was added. */
  lemma ComputeDiscovers(s: Snapshot, listing: seq<Path>, assign: Assigner, batchSize: int)
    ensures ComputeStep(s, listing, assign, batchSize).discovered == s.discovered + SetOf(listing)
  {
    NoNewFiles(listing, s.discovered);
  }

  /**
   The merge is append-only: a bucket that existed before and survives the save keeps its old
   list as a prefix; and when anything was new, every bucket left holds at least `batchSize` images.
   */
  lemma ComputeAppendOnly(s: Snapshot, listing: seq<Path>, assign: Assigner, batchSize: int)
    ensures forall k :: k in s.buckets && k in ComputeStep(s, listing, assign, batchSize).buckets ==>
      s.buckets[k] <= ComputeStep(s, listing, assign, batchSize).buckets[k]
    ensures DiscoverNewFiles(listing, s.discovered) != [] ==>
      forall k :: k in ComputeStep(s, listing, assign, batchSize).buckets ==>
        |ComputeStep(s, listing, assign, batchSize).buckets[k]| >= batchSize
  {
  }

  /** Refreshing twice over the same listings leaves the same state as refreshing once. */
  lemma RefreshIdempotent(s: Snapshot, listing: seq<Path>, current: seq<Path>, assign: Assigner, batchSize: int)
    ensures RefreshStep(RefreshStep(s, listing, current, assign, batchSize), listing, current, assign, batchSize)
         == RefreshStep(s, listing, current, assign, batchSize)
  {
    var existing := SetOf(current);
    var c := ComputeStep(s, listing, assign, batchSize);
    var once := RefreshStep(s, listing, current, assign, batchSize);
    ComputeDiscovers(s, listing, assign, batchSize);
    assert once.discovered == c.discovered;
    ComputeWithoutNewFiles(once, listing, assign, batchSize);
    var filtered := KeepExisting(c.buckets, existing);
    KeepExistingIdempotent(c.buckets, existing);
    KeepExistingOfPruned(filtered, existing, batchSize);
    PrunedIdempotent(filtered, batchSize);
  }

  // ---------------------------------------------------------------------------
  // Every bucketed image is discovered

  /** The assigner files at most the image it was given: it adds no other file to the partial index. */
  ghost predicate FilesOnlyItsImage(assign: Assigner) {
    forall f, part :: Images(assign(f, part)) <= Images(part) + {f}
  }

  /** Every image some bucket holds has been discovered, so no later computation files it again. */
  ghost predicate Covered(s: Snapshot) {
    Images(s.buckets) <= s.discovered
  }

  lemma PrunedImages(idx: Index, batchSize: int)
    ensures Images(Pruned(idx, batchSize)) <= Images(idx)
  {
    forall p | p in Images(Pruned(idx, batchSize)) ensures p in Images(idx) {
      var k :| k in Pruned(idx, batchSize) && p in Pruned(idx, batchSize)[k];
      assert p in idx[k];
    }
  }

  lemma {:induction false} MergeAllImages(idx: Index, parts: seq<Index>, bound: set<Path>)
    requires forall i :: 0 <= i < |parts| ==> Images(parts[i]) <= bound
    ensures Images(MergeAll(idx, parts)) <= Images(idx) + bound
    decreases |parts|
  {
    if parts != [] {
      var init := parts[..|parts| - 1];
      MergeAllImages(idx, init, bound);
      MergedImages(MergeAll(idx, init), parts[|parts| - 1]);
    }
  }

  /** The computation keeps the discovered set covering the buckets. */
  lemma ComputeKeepsCovered(s: Snapshot, listing: seq<Path>, assign: Assigner, batchSize: int)
    requires Covered(s) && FilesOnlyItsImage(assign)
    ensures Covered(ComputeStep(s, listing, assign, batchSize))
  {
    var newFiles := DiscoverNewFiles(listing, s.discovered);
    if newFiles != [] {
      var shards := ArraySplit(newFiles, WORKER_COUNT);
      var parts := WorkerIndices(shards, Images(s.buckets), assign);
      forall i | 0 <= i < |parts| ensures Images(parts[i]) <= SetOf(newFiles) {
        var todo := Unknown(shards[i], Images(s.buckets));
        forall f | f in todo ensures f in SetOf(newFiles) {
          FlattenContains(shards, i, f);
        }
      }
      MergeAllImages(s.buckets, parts, SetOf(newFiles));
      PrunedImages(MergeAll(s.buckets, parts), batchSize);
    }
  }

  /** Filtering by the existing files keeps the discovered set covering the buckets. */
  lemma UpdateKeepsCovered(s: Snapshot, existing: set<Path>, batchSize: int)
    requires Covered(s)
    ensures Covered(UpdateStep(s, existing, batchSize))
  {
    KeepExistingSpec(s.buckets, existing);
    PrunedImages(KeepExisting(s.buckets, existing), batchSize);
  }

  /** Removing an image keeps the discovered set covering the buckets. */
  lemma WithoutImageKeepsCovered(s: Snapshot, p: Path, b: BucketKey)
    requires b in s.buckets && Covered(s)
    ensures Covered(Snapshot(WithoutImage(s.buckets, p, b), s.discovered))
  {
    WithoutImageImages(s.buckets, p, b);
  }

  /** Moving an image keeps the discovered set covering the buckets when that image was discovered. */
  lemma MovedKeepsCovered(s: Snapshot, p: Path, from: BucketKey, to: BucketKey)
    requires from in s.buckets && Covered(s) && p in s.discovered
    ensures Covered(Snapshot(Moved(s.buckets, p, from, to), s.discovered))
  {
    MovedImages(s.buckets, p, from, to);
  }

  // ---------------------------------------------------------------------------
  // The workers' merge is filing the new files one at a time

  /**
   The assigner appends the file it is given, once, to the end of the bucket `bucketOf` gives
   that file, creating the bucket when it is missing, and changes nothing else.
   */
  ghost predicate AppendsOwnImage(assign: Assigner, bucketOf: Path -> BucketKey) {
    forall f, part :: assign(f, part) == part[bucketOf(f) := Get(part, bucketOf(f)) + [f]]
  }

  /** Appending a file to a part and then merging is merging and then appending the file. */
  lemma MergedAppendOne(assign: Assigner, bucketOf: Path -> BucketKey, idx: Index, part: Index, f: Path)
    requires AppendsOwnImage(assign, bucketOf)
    ensures Merged(idx, assign(f, part)) == assign(f, Merged(idx, part))
  {
    var k := bucketOf(f);
    assert assign(f, part) == part[k := Get(part, k) + [f]];
    assert assign(f, Merged(idx, part)) == Merged(idx, part)[k := Get(Merged(idx, part), k) + [f]];
    MergedAppendKey(idx, part, k, f);
  }

  /** Appending to one bucket of a part and then merging is merging and then appending. */
  lemma MergedAppendKey(idx: Index, part: Index, k: BucketKey, f: Path)
    ensures Merged(idx, part[k := Get(part, k) + [f]]) == Merged(idx, part)[k := Get(Merged(idx, part), k) + [f]]
  {
    var m := Merged(idx, part);
    var l, r := Merged(idx, part[k := Get(part, k) + [f]]), m[k := Get(m, k) + [f]];
    assert l.Keys == r.Keys;
    forall j | j in l ensures l[j] == r[j] {
      MergedAppendKeyAt(idx, part, k, f, j);
    }
  }

  /** The bucket `j` on both sides of `MergedAppendKey`. */
  lemma MergedAppendKeyAt(idx: Index, part: Index, k: BucketKey, f: Path, j: BucketKey)
    ensures Get(Merged(idx, part[k := Get(part, k) + [f]]), j)
         == Get(Merged(idx, part)[k := Get(Merged(idx, part), k) + [f]], j)
  {
    var grown := part[k := Get(part, k) + [f]];
    if j == k {
      assert Get(idx, k) + (Get(part, k) + [f]) == (Get(idx, k) + Get(part, k)) + [f];
    } else {
      assert Get(grown, j) == Get(part, j);
    }
  }

  /** Merging the index an assigner built from `part` is running that assigner from the merge. */
  lemma {:induction false} MergedAssignFrom(assign: Assigner, bucketOf: Path -> BucketKey, idx: Index, part: Index, files: seq<Path>)
    requires AppendsOwnImage(assign, bucketOf)
    ensures Merged(idx, AssignFrom(assign, part, files)) == AssignFrom(assign, Merged(idx, part), files)
    decreases |files|
  {
    if files != [] {
      var init, f := files[..|files| - 1], files[|files| - 1];
      MergedAssignFrom(assign, bucketOf, idx, part, init);
      MergedAppendOne(assign, bucketOf, idx, AssignFrom(assign, part, init), f);
    }
  }

  /** Merging a worker's partial index is filing its files into the index one at a time. */
  lemma MergedAssignAll(assign: Assigner, bucketOf: Path -> BucketKey, idx: Index, files: seq<Path>)
    requires AppendsOwnImage(assign, bucketOf)
    ensures Merged(idx, AssignAll(assign, files)) == AssignFrom(assign, idx, files)
  {
    MergedAssignFrom(assign, bucketOf, idx, map[], files);
    MergedEmpty(idx);
  }

  /** Filing `a` and then `b` is filing `a + b`. */
  lemma {:induction false} AssignFromAppend(assign: Assigner, idx: Index, a: seq<Path>, b: seq<Path>)
    ensures AssignFrom(assign, AssignFrom(assign, idx, a), b) == AssignFrom(assign, idx, a + b)
    decreases |b|
  {
    if b == [] {
      assert a + b == a;
    } else {
      var init := b[..|b| - 1];
      AssignFromAppend(assign, idx, a, init);
      assert (a + b)[..|a + b| - 1] == a + init;
    }
  }

  /**
   Merging the workers' partial indices, in shard order, into `idx` is filing the files of all
   shards that no bucket held before, one at a time, in listing order.
   */
  lemma {:induction false} MergeAllWorkers(assign: Assigner, bucketOf: Path -> BucketKey, idx: Index,
                                           shards: seq<seq<Path>>, existing: set<Path>)
    requires AppendsOwnImage(assign, bucketOf)
    ensures MergeAll(idx, WorkerIndices(shards, existing, assign))
         == AssignFrom(assign, idx, Unknown(Flatten(shards), existing))
    decreases |shards|
  {
    var parts := WorkerIndices(shards, existing, assign);
    if shards == [] {
      assert parts == [];
      assert Unknown([], existing) == [];
    } else {
      var init, last := shards[..|shards| - 1], shards[|shards| - 1];
      assert parts[..|parts| - 1] == WorkerIndices(init, existing, assign);
      MergeAllWorkers(assign, bucketOf, idx, init, existing);
      var before, now := Unknown(Flatten(init), existing), Unknown(last, existing);
      MergedAssignAll(assign, bucketOf, AssignFrom(assign, idx, before), now);
      AssignFromAppend(assign, idx, before, now);
      assert shards == init + [last];
      FlattenSnoc(init, last);
      UnknownAppend(Flatten(init), last, existing);
    }
  }

  /**
   The computation's buckets are the old ones with every new file that no bucket holds yet filed
   one at a time in listing order, then pruned: the split over the workers does not show.
   */
  lemma ComputeFilesInOrder(s: Snapshot, listing: seq<Path>, assign: Assigner, bucketOf: Path -> BucketKey, batchSize: int)
    requires AppendsOwnImage(assign, bucketOf)
    ensures var newFiles := DiscoverNewFiles(listing, s.discovered);
      ComputeStep(s, listing, assign, batchSize).buckets ==
        if newFiles == [] then s.buckets
        else Pruned(AssignFrom(assign, s.buckets, Unknown(newFiles, Images(s.buckets))), batchSize)
  {
    var newFiles := DiscoverNewFiles(listing, s.discovered);
    if newFiles != [] {
      MergeAllWorkers(assign, bucketOf, s.buckets, ArraySplit(newFiles, WORKER_COUNT), Images(s.buckets));
    }
  }

  /** Filtering a list without repetitions keeps it without repetitions. */
  lemma UnknownDistinct(files: seq<Path>, known: set<Path>)
    requires Distinct(files)
    ensures Distinct(Unknown(files, known))
  {
    FilterDistinct(files, (p: Path) => p !in known);
  }

  /** Appending an image that no bucket holds keeps the index free of duplicates. */
  lemma AppendFreshNoDuplicates(idx: Index, k: BucketKey, f: Path)
    requires NoDuplicates(idx) && f !in Images(idx)
    ensures NoDuplicates(idx[k := Get(idx, k) + [f]])
    ensures Images(idx[k := Get(idx, k) + [f]]) == Images(idx) + {f}
  {
    var t := Get(idx, k) + [f];
    var r := idx[k := t];
    assert forall j :: j in idx ==> f !in idx[j];
    assert Distinct(t) by {
      forall i, j | 0 <= i < j < |t| ensures t[i] != t[j] {
        if j == |t| - 1 {
          assert t[i] in Get(idx, k);
        } else {
          assert t[i] == Get(idx, k)[i] && t[j] == Get(idx, k)[j];
        }
      }
    }
    forall j, m, q | j in r && m in r && j != m && q in r[j] ensures q !in r[m] {
      if q != f {
        assert q in Get(idx, j) by { assert j == k ==> q in Get(idx, k); }
        assert m == k ==> q !in Get(idx, k);
      }
    }
    forall q | q in Images(idx) + {f} ensures q in Images(r) {
      if q != f {
        var j :| j in idx && q in idx[j];
        assert q in r[j];
      } else {
        assert f in r[k];
      }
    }
    forall q | q in Images(r) ensures q in Images(idx) + {f} {
      var j :| j in r && q in r[j];
      if q != f {
        assert q in Get(idx, j);
      }
    }
  }

  /**
   Filing distinct images that no bucket holds yet keeps the index free of duplicates, and adds
   exactly those images.
   */
  lemma {:induction false} AssignFromNoDuplicates(assign: Assigner, bucketOf: Path -> BucketKey, idx: Index, files: seq<Path>)
    requires AppendsOwnImage(assign, bucketOf)
    requires NoDuplicates(idx) && Distinct(files) && Images(idx) !! SetOf(files)
    ensures NoDuplicates(AssignFrom(assign, idx, files))
    ensures Images(AssignFrom(assign, idx, files)) == Images(idx) + SetOf(files)
    decreases |files|
  {
    if files == [] {
      assert SetOf(files) == {};
    } else {
      var init, f := files[..|files| - 1], files[|files| - 1];
      DistinctInit(files);
      assert SetOf(files) == SetOf(init) + {f};
      AssignFromNoDuplicates(assign, bucketOf, idx, init);
      var before := AssignFrom(assign, idx, init);
      AppendFreshNoDuplicates(before, bucketOf(f), f);
    }
  }

  /**
   `compute_aspect_ratio_bucket_indices` keeps every image in at most one bucket, at most once,
   when the listing repeats no file and the assigner files each image once under its own bucket.
   */
  lemma ComputeKeepsNoDuplicates(s: Snapshot, listing: seq<Path>, assign: Assigner, bucketOf: Path -> BucketKey, batchSize: int)
    requires AppendsOwnImage(assign, bucketOf)
    requires NoDuplicates(s.buckets) && Distinct(listing)
    ensures NoDuplicates(ComputeStep(s, listing, assign, batchSize).buckets)
  {
    var newFiles := DiscoverNewFiles(listing, s.discovered);
    ComputeFilesInOrder(s, listing, assign, bucketOf, batchSize);
    if newFiles != [] {
      UnknownDistinct(listing, s.discovered);
      var todo := Unknown(newFiles, Images(s.buckets));
      UnknownDistinct(newFiles, Images(s.buckets));
      AssignFromNoDuplicates(assign, bucketOf, s.buckets, todo);
    }
  }

  /** An assigner that appends like `process_for_bucket`: "c.png" is 16:9 and every other file 1:1. */
  function ExampleAssigner(): Assigner {
    (f: Path, part: Index) => part[ExampleBucket(f) := Get(part, ExampleBucket(f)) + [f]]
  }

  /** The example's buckets: "c.png" is 16:9 and every other file 1:1. */
  function ExampleBucket(f: Path): BucketKey {
    if f == "c.png" then "16:9" else "1:1"
  }

  /** The example assigner is one that files each image once under its own bucket. */
  lemma ExampleAssignerAppends()
    ensures AppendsOwnImage(ExampleAssigner(), ExampleBucket)
  {
  }

  /** The three example files split over eight workers: one file each for the first three. */
  lemma ExampleShards(files: seq<Path>)
    requires |files| == 3
    ensures ArraySplit(files, WORKER_COUNT) == [[files[0]], [files[1]], [files[2]], [], [], [], [], []]
  {
    var shards := ArraySplit(files, WORKER_COUNT);
    ShardsPrefix(files, WORKER_COUNT, WORKER_COUNT);
    assert |files| / WORKER_COUNT == 0 && |files| % WORKER_COUNT == 3;
    forall i | 0 <= i <= WORKER_COUNT ensures Boundary(files, WORKER_COUNT, i) == if i < 3 then i else 3 {
      ShardStartValue(0, 3, i);
    }
    forall i | 0 <= i < WORKER_COUNT
      ensures shards[i] == if i < 3 then [files[i]] else []
    {
      assert shards[i] == Shard(files, WORKER_COUNT, i);
      if i < 3 {
        assert shards[i] == files[i..i + 1];
      } else {
        assert shards[i] == files[3..3];
      }
    }
  }

  /** Merging a partial index with a single bucket appends to that bucket only. */
  lemma MergedSingle(idx: Index, k: BucketKey, images: seq<Path>)
    ensures Merged(idx, map[k := images]) == idx[k := Get(idx, k) + images]
  {
    var m, u := Merged(idx, map[k := images]), idx[k := Get(idx, k) + images];
    assert m.Keys == u.Keys;
    forall j | j in m ensures m[j] == u[j] {
      if j != k {
        assert m[j] == idx[j] + [];
      }
    }
  }

  /** Merging a partial index that holds nothing changes nothing. */
  lemma MergedEmpty(idx: Index)
    ensures Merged(idx, map[]) == idx
  {
    forall k | k in idx ensures Merged(idx, map[])[k] == idx[k] {
      assert idx[k] + [] == idx[k];
    }
  }

  /** Merging one more part of the sequence. */
  lemma MergeAllSnoc(idx: Index, parts: seq<Index>, i: nat)
    requires i < |parts|
    ensures MergeAll(idx, parts[..i + 1]) == Merged(MergeAll(idx, parts[..i]), parts[i])
  {
    assert parts[..i + 1][..i] == parts[..i];
  }

  lemma {:induction false} MergeAllEmptyTail(idx: Index, parts: seq<Index>, n: nat)
    requires n <= |parts|
    requires forall i :: n <= i < |parts| ==> parts[i] == map[]
    ensures MergeAll(idx, parts) == MergeAll(idx, parts[..n])
    decreases |parts|
  {
    if |parts| > n {
      var init := parts[..|parts| - 1];
      MergeAllEmptyTail(idx, init, n);
      assert init[..n] == parts[..n];
      MergedEmpty(MergeAll(idx, init));
    } else {
      assert parts[..n] == parts;
    }
  }

  /** The partial indices of the example's eight workers, merged in shard order. */
  lemma ExampleMerge(parts: seq<Index>)
    requires |parts| == 8
    requires parts[0] == map["1:1" := ["a.png"]] && parts[1] == map["1:1" := ["b.png"]]
    requires parts[2] == map["16:9" := ["c.png"]]
    requires forall i :: 3 <= i < 8 ==> parts[i] == map[]
    ensures MergeAll(map[], parts) == map["1:1" := ["a.png", "b.png"], "16:9" := ["c.png"]]
  {
    var m0: Index := map[];
    var m1 := map["1:1" := ["a.png"]];
    var m2 := map["1:1" := ["a.png", "b.png"]];
    var m3 := map["1:1" := ["a.png", "b.png"], "16:9" := ["c.png"]];
    assert parts[..1][..0] == [];
    MergedSingle(m0, "1:1", ["a.png"]);
    assert Get(m0, "1:1") + ["a.png"] == ["a.png"];
    assert m0["1:1" := ["a.png"]] == m1;
    assert MergeAll(map[], parts[..1]) == m1;
    assert parts[..2][..1] == parts[..1];
    MergedSingle(m1, "1:1", ["b.png"]);
    assert Get(m1, "1:1") + ["b.png"] == ["a.png", "b.png"];
    assert m1["1:1" := ["a.png", "b.png"]] == m2;
    assert MergeAll(map[], parts[..2]) == m2;
    assert parts[..3][..2] == parts[..2];
    MergedSingle(m2, "16:9", ["c.png"]);
    assert "16:9" !in m2;
    assert Get(m2, "16:9") + ["c.png"] == ["c.png"];
    assert m2["16:9" := ["c.png"]] == m3;
    assert MergeAll(map[], parts[..3]) == m3;
    MergeAllEmptyTail(map[], parts, 3);
  }

  /** The example assigner on one file, from an empty partial index. */
  lemma ExampleAssignOne(f: Path)
    ensures AssignAll(ExampleAssigner(), [f]) == map[ExampleBucket(f) := [f]]
  {
    assert [f][..0] == [];
    assert AssignFrom(ExampleAssigner(), map[], [f][..0]) == map[];
    var k := ExampleBucket(f);
    var empty: Index := map[];
    assert Get(empty, k) + [f] == [f];
    assert ExampleAssigner()(f, empty) == empty[k := [f]];
    assert AssignAll(ExampleAssigner(), [f]) == ExampleAssigner()(f, empty);
  }

  /** The example assigner's worker on a shard of at most one file, with nothing bucketed yet. */
  lemma ExampleWorker(shard: seq<Path>)
    requires |shard| <= 1
    ensures shard == [] ==> WorkerIndex(shard, {}, ExampleAssigner()) == map[]
    ensures shard != [] ==> WorkerIndex(shard, {}, ExampleAssigner()) == map[ExampleBucket(shard[0]) := shard]
  {
    UnknownNoneKnown(shard, {});
    if shard != [] {
      assert shard == [shard[0]];
      ExampleAssignOne(shard[0]);
    }
  }

  /** What the example's eight workers report. */
  lemma ExampleWorkers(shards: seq<seq<Path>>)
    requires shards == [["a.png"], ["b.png"], ["c.png"], [], [], [], [], []]
    ensures |WorkerIndices(shards, {}, ExampleAssigner())| == 8
    ensures WorkerIndices(shards, {}, ExampleAssigner())[0] == map["1:1" := ["a.png"]]
    ensures WorkerIndices(shards, {}, ExampleAssigner())[1] == map["1:1" := ["b.png"]]
    ensures WorkerIndices(shards, {}, ExampleAssigner())[2] == map["16:9" := ["c.png"]]
    ensures forall i :: 3 <= i < 8 ==> WorkerIndices(shards, {}, ExampleAssigner())[i] == map[]
  {
    var w := WorkerIndices(shards, {}, ExampleAssigner());
    ExampleWorker(shards[0]);
    ExampleWorker(shards[1]);
    ExampleWorker(shards[2]);
    assert ExampleBucket("a.png") == "1:1" && ExampleBucket("b.png") == "1:1" && ExampleBucket("c.png") == "16:9";
    assert w[0] == WorkerIndex(shards[0], {}, ExampleAssigner());
    assert w[1] == WorkerIndex(shards[1], {}, ExampleAssigner());
    assert w[2] == WorkerIndex(shards[2], {}, ExampleAssigner());
    forall i | 3 <= i < 8 ensures w[i] == map[] {
      assert shards[i] == [];
      assert w[i] == WorkerIndex([], {}, ExampleAssigner());
    }
  }

  /**
   No cache, three listed files, two of them 1:1 and one 16:9, batch size 2: the 1:1 bucket
   keeps both files in listing order, the 16:9 bucket is pruned, and all three are discovered.
   */
  lemma ComputeExample()
    ensures ComputeStep(Snapshot(map[], {}), ["a.png", "b.png", "c.png"], ExampleAssigner(), 2)
         == Snapshot(map["1:1" := ["a.png", "b.png"]], {"a.png", "b.png", "c.png"})
  {
    var files: seq<Path> := ["a.png", "b.png", "c.png"];
    var start := Snapshot(map[], {});
    ExampleAllNew(files);
    var parts := WorkerIndices(ArraySplit(files, WORKER_COUNT), Images(start.buckets), ExampleAssigner());
    assert ComputeStep(start, files, ExampleAssigner(), 2)
        == Snapshot(Pruned(MergeAll(map[], parts), 2), {} + SetOf(files));
    ExampleMergedIndex(files, parts);
    ExamplePruned();
    ExampleDiscovered(files);
  }

  lemma ExampleAllNew(files: seq<Path>)
    requires files == ["a.png", "b.png", "c.png"]
    ensures DiscoverNewFiles(files, {}) == files
  {
    UnknownNoneKnown(files, {});
  }

  lemma ExampleMergedIndex(files: seq<Path>, parts: seq<Index>)
    requires files == ["a.png", "b.png", "c.png"]
    requires parts == WorkerIndices(ArraySplit(files, WORKER_COUNT), Images(map[]), ExampleAssigner())
    ensures MergeAll(map[], parts) == map["1:1" := ["a.png", "b.png"], "16:9" := ["c.png"]]
  {
    ExampleShards(files);
    assert Images(map[]) == {};
    ExampleWorkers(ArraySplit(files, WORKER_COUNT));
    ExampleMerge(parts);
  }

  lemma ExampleDiscovered(files: seq<Path>)
    requires files == ["a.png", "b.png", "c.png"]
    ensures SetOf(files) == {"a.png", "b.png", "c.png"}
  {
    forall f ensures f in SetOf(files) <==> f in {"a.png", "b.png", "c.png"} {
      assert f in files <==> f == files[0] || f == files[1] || f == files[2];
    }
  }

  lemma ExamplePruned()
    ensures Pruned(map["1:1" := ["a.png", "b.png"], "16:9" := ["c.png"]], 2) == map["1:1" := ["a.png", "b.png"]]
  {
    var m3: Index := map["1:1" := ["a.png", "b.png"], "16:9" := ["c.png"]];
    assert |m3["16:9"]| == 1 && |m3["1:1"]| == 2;
    assert Pruned(m3, 2).Keys == {"1:1"};
  }

  // ---------------------------------------------------------------------------
  // Repairs (`remove_image`, `handle_incorrect_bucket`, `handle_small_image`)

  /** `remove_image(p, b)`: the first occurrence of `p` leaves bucket `b`, if there is one. */
  function WithoutImage(idx: Index, p: Path, b: BucketKey): (r: Index)
    requires b in idx
    ensures r.Keys == idx.Keys
    ensures |r[b]| == if p in idx[b] then |idx[b]| - 1 else |idx[b]|
    ensures p !in idx[b] ==> r == idx
  {
    RemoveFirstLength(idx[b], p);
    idx[b := RemoveFirst(idx[b], p)]
  }

  /** `handle_incorrect_bucket(p, from, to)`: `p` leaves `from` and is appended to `to`, which is created if missing. */
  function Moved(idx: Index, p: Path, from: BucketKey, to: BucketKey): (r: Index)
    requires from in idx
    ensures r.Keys == idx.Keys + {to}
    ensures |r[to]| > 0 && r[to][|r[to]| - 1] == p
  {
    var rest := WithoutImage(idx, p, from);
    if to in rest then rest[to := rest[to] + [p]] else rest[to := [p]]
  }

  /** Removal drops one copy of `p` from `b`, keeps every other bucket, and shrinks the total by one exactly when `p` was there. */
  lemma WithoutImageSpec(idx: Index, p: Path, b: BucketKey)
    requires b in idx
    ensures WithoutImage(idx, p, b).Keys == idx.Keys
    ensures forall k :: k in idx && k != b ==> WithoutImage(idx, p, b)[k] == idx[k]
    ensures multiset(WithoutImage(idx, p, b)[b]) == multiset(idx[b]) - multiset{p}
    ensures Count(WithoutImage(idx, p, b)) == if p in idx[b] then Count(idx) - 1 else Count(idx)
  {
    RemoveFirstMultiset(idx[b], p);
    RemoveFirstLength(idx[b], p);
    CountUpdate(idx, b, RemoveFirst(idx[b], p));
  }

  /** The example of a move: x leaves 1:1 and goes to the end of 16:9. */
  lemma MovedExample()
    ensures Moved(map["1:1" := ["x", "y"], "16:9" := ["z"]], "x", "1:1", "16:9")
         == map["1:1" := ["y"], "16:9" := ["z", "x"]]
  {
    var idx: Index := map["1:1" := ["x", "y"], "16:9" := ["z"]];
    assert RemoveFirst(idx["1:1"], "x") == ["y"];
    var rest := WithoutImage(idx, "x", "1:1");
    assert rest == map["1:1" := ["y"], "16:9" := ["z"]];
    assert rest["16:9"] + ["x"] == ["z", "x"];
  }

  /** The bucket `to` after the move. */
  lemma MovedShape(idx: Index, p: Path, from: BucketKey, to: BucketKey)
    requires from in idx
    ensures Moved(idx, p, from, to) == WithoutImage(idx, p, from)[to := Get(WithoutImage(idx, p, from), to) + [p]]
  {
    var rest := WithoutImage(idx, p, from);
    assert to !in rest ==> Get(rest, to) + [p] == [p];
  }

  /**
   A move ends with `p` last in `to`, touches no third bucket, and, when `p` was in `from`,
   neither loses nor gains an image.
   */
  lemma MovedSpec(idx: Index, p: Path, from: BucketKey, to: BucketKey)
    requires from in idx
    ensures Moved(idx, p, from, to).Keys == idx.Keys + {to}
    ensures Moved(idx, p, from, to)[to] == Get(WithoutImage(idx, p, from), to) + [p]
    ensures forall k :: k in idx && k != from && k != to ==> Moved(idx, p, from, to)[k] == idx[k]
    ensures p in idx[from] ==> Count(Moved(idx, p, from, to)) == Count(idx)
  {
    var rest := WithoutImage(idx, p, from);
    MovedShape(idx, p, from, to);
    WithoutImageSpec(idx, p, from);
    CountUpdate(rest, to, Get(rest, to) + [p]);
  }

  /** Removal takes no image into the index and loses none other than `p`. */
  lemma WithoutImageImages(idx: Index, p: Path, b: BucketKey)
    requires b in idx
    ensures Images(idx) - {p} <= Images(WithoutImage(idx, p, b)) <= Images(idx)
  {
    var r := WithoutImage(idx, p, b);
    forall q | q in Images(idx) - {p} ensures q in Images(r) {
      var k :| k in idx && q in idx[k];
      if k == b { RemoveFirstKeepsOthers(idx[b], p, q); }
      assert q in r[k];
    }
    forall q | q in Images(r) ensures q in Images(idx) {
      var k :| k in r && q in r[k];
      if k == b {
        RemoveFirstMultiset(idx[b], p);
        assert q in multiset(r[b]);
      }
      assert q in idx[k];
    }
  }

  /** After a move the images held are the old ones together with `p`. */
  lemma MovedImages(idx: Index, p: Path, from: BucketKey, to: BucketKey)
    requires from in idx
    ensures Images(Moved(idx, p, from, to)) == Images(idx) + {p}
  {
    var rest := WithoutImage(idx, p, from);
    var r := Moved(idx, p, from, to);
    MovedShape(idx, p, from, to);
    forall q | q in Images(idx) + {p} ensures q in Images(r) {
      if q == p {
        assert p in r[to];
      } else {
        var k :| k in idx && q in idx[k];
        if k == from { RemoveFirstKeepsOthers(idx[from], p, q); }
        assert q in rest[k];
        assert q in r[k];
      }
    }
    forall q | q in Images(r) ensures q in Images(idx) + {p} {
      var k :| k in r && q in r[k];
      if q != p {
        assert q in rest[k];
        if k == from {
          RemoveFirstKeepsOthers(idx[from], p, q);
        }
        assert q in idx[k];
      }
    }
  }

  /** No image is in two buckets, nor twice in one. */
  ghost predicate NoDuplicates(idx: Index) {
    && (forall k :: k in idx ==> Distinct(idx[k]))
    && (forall j, k, p :: j in idx && k in idx && j != k && p in idx[j] ==> p !in idx[k])
  }

  /** Removing an image keeps the index free of duplicates and takes `p` out of `b` altogether. */
  lemma WithoutImageNoDuplicates(idx: Index, p: Path, b: BucketKey)
    requires b in idx && NoDuplicates(idx)
    ensures NoDuplicates(WithoutImage(idx, p, b))
    ensures p !in WithoutImage(idx, p, b)[b]
  {
    RemoveFirstDistinct(idx[b], p);
  }

  /** Moving an image out of the bucket that holds it keeps the index free of duplicates. */
  lemma MovedNoDuplicates(idx: Index, p: Path, from: BucketKey, to: BucketKey)
    requires from in idx && NoDuplicates(idx) && p in idx[from]
    ensures NoDuplicates(Moved(idx, p, from, to))
  {
    var rest := WithoutImage(idx, p, from);
    WithoutImageNoDuplicates(idx, p, from);
    var r := Moved(idx, p, from, to);
    assert forall k :: k in rest ==> p !in rest[k];
    var t := Get(rest, to) + [p];
    MovedShape(idx, p, from, to);
    assert Distinct(t) by {
      forall i, j | 0 <= i < j < |t| ensures t[i] != t[j] {
        if j == |t| - 1 {
          assert t[i] in Get(rest, to);
        } else {
          assert t[i] == Get(rest, to)[i] && t[j] == Get(rest, to)[j];
        }
      }
    }
    forall j, k, q | j in r && k in r && j != k && q in r[j] ensures q !in r[k] {
      if q == p {
        assert j == to || k == to;
      } else {
        assert q in rest[j] by { assert j == to ==> q in Get(rest, to); }
        if k == to {
          assert q !in Get(rest, to);
        }
      }
    }
  }

  /**
   Moving an image its source bucket does not hold still appends it to the target, so a move can
   break the invariant: `p` ends up in two buckets.
   */
  lemma MovedCanDuplicate()
    ensures var idx: Index := map["a" := ["p"], "b" := []];
      NoDuplicates(idx) && !NoDuplicates(Moved(idx, "p", "b", "c"))
  {
    var idx: Index := map["a" := ["p"], "b" := []];
    var r := Moved(idx, "p", "b", "c");
    assert RemoveFirst(idx["b"], "p") == [];
    assert r == map["a" := ["p"], "b" := [], "c" := ["p"]];
    assert "p" in r["a"] && "p" in r["c"];
  }

  /** Filtering and pruning keep the index free of duplicates. */
  lemma UpdateNoDuplicates(idx: Index, existing: set<Path>, batchSize: int)
    requires NoDuplicates(idx)
    ensures NoDuplicates(Pruned(KeepExisting(idx, existing), batchSize))
  {
    var f := KeepExisting(idx, existing);
    KeepExistingSpec(idx, existing);
    forall k | k in idx ensures Distinct(f[k]) {
      FilterDistinct(idx[k], (p: Path) => p in existing);
    }
  }

  // ---------------------------------------------------------------------------
  // The cache document (`_save_cache` / `_load_cache`)

  /** The document the cache holds: the two named fields, with every path in string form. */
  datatype CacheDocument = CacheDocument(bucketIndices: Index, imagePaths: seq<Path>)

  /**
   What reading the cache key yields: no object, bytes that do not decode, or a decoded object
   whose `aspect_ratio_bucket_indices` and `instance_images_path` fields may each be missing.
   */
  datatype StoredCache =
    | Absent
    | Undecodable
    | Decoded(bucketIndices: Option<Index>, imagePaths: Option<seq<Path>>)

  /**
   `_load_cache` as `__init__` runs it, on empty fields: a missing cache leaves them empty, an
   undecodable one and a missing field give empty structures.
   */
  function LoadCache(stored: StoredCache): (s: Snapshot)
    ensures !stored.Decoded? ==> s.buckets == map[] && s.discovered == {}
    ensures stored.Decoded? ==>
      (s.buckets == if stored.bucketIndices.Some? then stored.bucketIndices.value else map[]) &&
      forall p :: p in s.discovered <==> stored.imagePaths.Some? && p in stored.imagePaths.value
  {
    match stored
    case Absent => Snapshot(map[], {})
    case Undecodable => Snapshot(map[], {})
    case Decoded(idx, paths) => Snapshot(idx.GetOr(map[]), SetOf(paths.GetOr([])))
  }

  /** What decoding a written document gives back. */
  function Written(doc: CacheDocument): StoredCache {
    Decoded(Some(doc.bucketIndices), Some(doc.imagePaths))
  }

  /** `doc` is a document of state `s`: the index as it is, and each discovered path listed once. */
  ghost predicate Describes(doc: CacheDocument, s: Snapshot) {
    doc.bucketIndices == s.buckets && Distinct(doc.imagePaths) && SetOf(doc.imagePaths) == s.discovered
  }

  /** Loading what was saved restores the saved state. */
  lemma LoadWritten(doc: CacheDocument, s: Snapshot)
    requires Describes(doc, s)
    ensures LoadCache(Written(doc)) == s
  {
  }
}
