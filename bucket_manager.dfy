/**
 `BucketManager`: the in-memory aspect-ratio bucket index of a training data loader, the set of
 files already discovered, and the ledger of images already consumed in this run. Storage
 I/O is not performed here: what the backend lists or reads is passed in, and what would be
 written to the cache is returned.
 */
module Buckets {
  import opened Optional
  import opened Seqs
  import opened BucketIndex

  class BucketManager {
    /** `batch_size`: every save drops the buckets holding fewer images. */
    const batchSize: int
    /** `apply_dataset_padding`, handed to the split between processes. */
    const applyDatasetPadding: bool
    /** `aspect_ratio_bucket_indices`. */
    var buckets: Index
    /** `instance_images_path`. */
    var discovered: set<Path>
    /** `seen_images`. */
    var seen: map<Path, bool>

    /** The part of the state the cache persists. */
    function State(): Snapshot
      reads this
    {
      Snapshot(buckets, discovered)
    }

    /** `__init__`: empty state, then `_load_cache` with what reading the cache key gives. */
    constructor (batchSize: int, applyDatasetPadding: bool, cache: StoredCache)
      ensures this.batchSize == batchSize && this.applyDatasetPadding == applyDatasetPadding
      ensures State() == LoadCache(cache)
      ensures seen == map[] && forall q :: !IsSeen(q)
    {
      this.batchSize := batchSize;
      this.applyDatasetPadding := applyDatasetPadding;
      buckets := map[];
      discovered := {};
      seen := map[];
      new;
      LoadFromCache(cache);
    }

    /**
     `_load_cache`: when the cache exists, both fields are replaced by its contents, or by empty
     structures when it does not decode or lacks a field; when it does not exist nothing changes.
     */
    method LoadFromCache(cache: StoredCache)
      modifies this
      ensures cache.Absent? ==> State() == old(State())
      ensures !cache.Absent? ==> State() == LoadCache(cache)
      ensures seen == old(seen)
    {
      match cache {
        case Absent =>
        case Undecodable =>
          buckets, discovered := map[], {};
        case Decoded(idx, paths) =>
          buckets, discovered := idx.GetOr(map[]), SetOf(paths.GetOr([]));
      }
    }

    /** `__len__`: the number of images over all buckets. */
    method Len() returns (n: nat)
      ensures n == Count(buckets)
    {
      n := 0;
      var rest := buckets;
      while rest != map[]
        invariant n + Count(rest) == Count(buckets)
        decreases |rest|
      {
        var k :| k in rest;
        CountRemove(rest, k);
        RemoveKeySize(rest, k);
        n := n + |rest[k]|;
        rest := rest - {k};
      }
    }

    /** `_enforce_min_bucket_size`: exactly the buckets with at least `batchSize` images stay, unchanged. */
    method EnforceMinBucketSize()
      modifies this
      ensures buckets == Pruned(old(buckets), batchSize)
      ensures forall k :: k in buckets <==> k in old(buckets) && |old(buckets)[k]| >= batchSize
      ensures forall k :: k in buckets ==> buckets[k] == old(buckets)[k]
      ensures discovered == old(discovered) && seen == old(seen)
    {
      var pending := buckets.Keys;
      while pending != {}
        invariant pending <= old(buckets).Keys
        invariant buckets == map k | k in old(buckets) && (k in pending || |old(buckets)[k]| >= batchSize) :: old(buckets)[k]
        invariant discovered == old(discovered) && seen == old(seen)
        decreases pending
      {
        var k :| k in pending;
        if |buckets[k]| < batchSize {
          buckets := buckets - {k};
        }
        pending := pending - {k};
      }
    }

    /**
     `_save_cache`: prunes the short buckets, then returns the document to write: the pruned
     index and every discovered path once, in some order.
     */
    method SaveCache() returns (doc: CacheDocument)
      modifies this
      ensures buckets == Pruned(old(buckets), batchSize)
      ensures discovered == old(discovered) && seen == old(seen)
      ensures Describes(doc, State())
    {
      EnforceMinBucketSize();
      var paths: seq<Path> := [];
      var pending := discovered;
      while pending != {}
        invariant pending <= discovered
        invariant SetOf(paths) == discovered - pending
        invariant Distinct(paths)
        decreases pending
      {
        var p :| p in pending;
        assert SetOf(paths + [p]) == SetOf(paths) + {p};
        paths := paths + [p];
        pending := pending - {p};
      }
      doc := CacheDocument(buckets, paths);
    }

    /**
     `_bucket_worker`: files the shard's files that no bucket holds yet, in order, into a fresh
     partial index, and reports one unit of progress per file of the shard.
     */
    static method BucketWorker(files: seq<Path>, existing: set<Path>, assign: Assigner)
      returns (partial: Index, progress: nat)
      ensures partial == WorkerIndex(files, existing, assign)
      ensures progress == |files|
    {
      partial := map[];
      progress := 0;
      for i := 0 to |files|
        invariant partial == WorkerIndex(files[..i], existing, assign)
        invariant progress == i
      {
        WorkerIndexStep(files, i, existing, assign);
        if files[i] !in existing {
          partial := assign(files[i], partial);
        }
        progress := progress + 1;
      }
      assert files[..|files|] == files;
    }

    /** The merge loop of `compute_aspect_ratio_bucket_indices` for one partial index. */
    method MergePartial(partial: Index)
      modifies this
      ensures buckets == Merged(old(buckets), partial)
      ensures discovered == old(discovered) && seen == old(seen)
    {
      var pending := partial.Keys;
      ghost var done: Index := map[];
      MergedEmpty(buckets);
      while pending != {}
        invariant pending <= partial.Keys
        invariant done.Keys == partial.Keys - pending
        invariant forall k :: k in done ==> done[k] == partial[k]
        invariant buckets == Merged(old(buckets), done)
        invariant discovered == old(discovered) && seen == old(seen)
        decreases pending
      {
        var k :| k in pending;
        MergedAdd(old(buckets), done, k, partial[k]);
        buckets := buckets[k := Get(buckets, k) + partial[k]];
        done := done[k := partial[k]];
        pending := pending - {k};
      }
      assert done == partial;
    }

    /**
     `compute_aspect_ratio_bucket_indices` over one listing: returns the document saved (none
     when nothing was new) and the progress reported.
     */
    method ComputeAspectRatioBucketIndices(listing: seq<Path>, assign: Assigner)
      returns (saved: Option<CacheDocument>, progress: nat)
      modifies this
      ensures State() == ComputeStep(old(State()), listing, assign, batchSize)
      ensures saved.None? <==> DiscoverNewFiles(listing, old(discovered)) == []
      ensures saved.Some? ==> Describes(saved.value, State())
      ensures progress == |DiscoverNewFiles(listing, old(discovered))|
      ensures seen == old(seen)
    {
      var newFiles := DiscoverNewFiles(listing, discovered);
      if newFiles == [] {
        return None, 0;
      }
      var shards := ArraySplit(newFiles, WORKER_COUNT);
      progress := RunWorkers(shards, Images(buckets), assign);
      discovered := discovered + SetOf(newFiles);
      var doc := SaveCache();
      saved := Some(doc);
    }

    /**
     The worker pool: each shard is bucketed against the images held when the computation
     started, and its partial index is merged in shard order.
     */
    method RunWorkers(shards: seq<seq<Path>>, existing: set<Path>, assign: Assigner) returns (progress: nat)
      modifies this
      ensures buckets == MergeAll(old(buckets), WorkerIndices(shards, existing, assign))
      ensures progress == |Flatten(shards)|
      ensures discovered == old(discovered) && seen == old(seen)
    {
      var parts := WorkerIndices(shards, existing, assign);
      progress := 0;
      for i := 0 to |shards|
        invariant buckets == MergeAll(old(buckets), parts[..i])
        invariant progress == |Flatten(shards[..i])|
        invariant discovered == old(discovered) && seen == old(seen)
      {
        var partial, units := BucketWorker(shards[i], existing, assign);
        progress := progress + units;
        MergePartial(partial);
        MergeAllSnoc(old(buckets), parts, i);
        assert shards[..i + 1] == shards[..i] + [shards[i]];
        FlattenSnoc(shards[..i], shards[i]);
      }
      assert parts[..|shards|] == parts;
      assert shards[..|shards|] == shards;
    }

    /** `update_buckets_with_existing_files`: every list filtered to the existing files, then saved. */
    method UpdateBucketsWithExistingFiles(existing: set<Path>) returns (doc: CacheDocument)
      modifies this
      ensures State() == UpdateStep(old(State()), existing, batchSize)
      ensures Describes(doc, State())
      ensures seen == old(seen)
    {
      var pending := buckets.Keys;
      while pending != {}
        invariant pending <= buckets.Keys == old(buckets).Keys
        invariant forall k :: k in buckets ==>
          buckets[k] == if k in pending then old(buckets)[k] else Present(old(buckets)[k], existing)
        invariant discovered == old(discovered) && seen == old(seen)
        decreases pending
      {
        var k :| k in pending;
        buckets := buckets[k := Present(buckets[k], existing)];
        pending := pending - {k};
      }
      assert buckets == KeepExisting(old(buckets), existing);
      doc := SaveCache();
    }

    /**
     `refresh_buckets`: the computation over `listing`, then the filter by the files of `current`
     (the second listing the backend gives).
     */
    method RefreshBuckets(listing: seq<Path>, current: seq<Path>, assign: Assigner) returns (doc: CacheDocument)
      modifies this
      ensures State() == RefreshStep(old(State()), listing, current, assign, batchSize)
      ensures Describes(doc, State())
      ensures seen == old(seen)
    {
      var _, _ := ComputeAspectRatioBucketIndices(listing, assign);
      doc := UpdateBucketsWithExistingFiles(SetOf(current));
    }

    /**
     `split_buckets_between_processes`: each bucket's list is replaced by this process's share,
     as the distributed runtime's `split` computes it; no bucket is created or dropped.
     */
    method SplitBucketsBetweenProcesses(split: (seq<Path>, bool) -> seq<Path>)
      modifies this
      ensures buckets.Keys == old(buckets).Keys
      ensures forall k :: k in buckets ==> buckets[k] == split(old(buckets)[k], applyDatasetPadding)
      ensures discovered == old(discovered) && seen == old(seen)
    {
      var shares: Index := map[];
      var pending := buckets.Keys;
      while pending != {}
        invariant pending <= buckets.Keys
        invariant shares.Keys == buckets.Keys - pending
        invariant forall k :: k in shares ==> shares[k] == split(buckets[k], applyDatasetPadding)
        decreases pending
      {
        var k :| k in pending;
        shares := shares[k := split(buckets[k], applyDatasetPadding)];
        pending := pending - {k};
      }
      buckets := shares;
    }

    /** `is_seen`: whether the ledger has recorded `p`. */
    function IsSeen(p: Path): (r: bool)
      reads this
      ensures r <==> p in seen && seen[p]
    {
      if p in seen then seen[p] else false
    }

    /** `mark_as_seen`: `p` is seen from now on; no other entry changes. */
    method MarkAsSeen(p: Path)
      modifies this
      ensures seen == old(seen)[p := true]
      ensures IsSeen(p)
      ensures forall q :: q != p ==> IsSeen(q) == old(IsSeen(q))
      ensures State() == old(State())
    {
      seen := seen[p := true];
    }

    /** `reset_seen_images`: the ledger is emptied, so no path is seen. */
    method ResetSeenImages()
      modifies this
      ensures seen == map[]
      ensures forall q :: !IsSeen(q)
      ensures State() == old(State())
    {
      seen := map[];
    }

    /**
     `remove_image`: the first occurrence of `p` leaves bucket `b`; no-op when `p` is not there.
     When there is no bucket `b` the source raises `KeyError`: `found` is false and nothing changes.
     */
    method RemoveImage(p: Path, b: BucketKey) returns (found: bool)
      modifies this
      ensures found <==> b in old(buckets)
      ensures found ==> buckets == WithoutImage(old(buckets), p, b)
      ensures !found ==> buckets == old(buckets)
      ensures discovered == old(discovered) && seen == old(seen)
    {
      found := b in buckets;
      if found && p in buckets[b] {
        buckets := buckets[b := RemoveFirst(buckets[b], p)];
      }
    }

    /**
     `handle_incorrect_bucket`: `p` leaves `from` and is appended to `to`, which is created if missing.
     The `KeyError` of a missing `from` propagates before anything is appended: `found` is false and nothing changes.
     */
    method HandleIncorrectBucket(p: Path, from: BucketKey, to: BucketKey) returns (found: bool)
      modifies this
      ensures found <==> from in old(buckets)
      ensures found ==> buckets == Moved(old(buckets), p, from, to)
      ensures !found ==> buckets == old(buckets)
      ensures discovered == old(discovered) && seen == old(seen)
    {
      found := RemoveImage(p, from);
      if found {
        if to in buckets {
          buckets := buckets[to := buckets[to] + [p]];
        } else {
          buckets := buckets[to := [p]];
        }
      }
    }

    /**
     `handle_small_image`, bucket side: `p` leaves bucket `b`; `deleteRequested` says whether the
     file's deletion is requested from the backend, whose failure the source ignores. The deletion
     comes first, so it is requested even when the missing bucket `b` then raises `KeyError`.
     */
    method HandleSmallImage(p: Path, b: BucketKey, deleteUnwanted: bool) returns (deleteRequested: bool, found: bool)
      modifies this
      ensures deleteRequested == deleteUnwanted
      ensures found <==> b in old(buckets)
      ensures found ==> buckets == WithoutImage(old(buckets), p, b)
      ensures !found ==> buckets == old(buckets)
      ensures discovered == old(discovered) && seen == old(seen)
    {
      deleteRequested := deleteUnwanted;
      found := RemoveImage(p, b);
    }
  }
}
