# Aspect-ratio bucket index

This is a Dafny model of the bucket index in a multi-aspect image training loader. The
`BucketManager` keeps three pieces of state:

- the **bucket index**, a map from an aspect-ratio bucket key to an ordered list of image
  paths;
- the set of **discovered** paths, meaning files already scanned;
- a **seen** ledger of images consumed during the run.

It finds new files, has them bucketed by workers, merges the workers' partial indices into the
index, and drops buckets smaller than one batch. It also repairs single images, filters the
index down to files that still exist, and saves and loads a cache document.

The model also covers the pure parts of the S3 storage backend:

- the object key of a path, which is its base name;
- a listing, which is the keys of one list response;
- the pattern filter on that listing.

Files:

- `optional.dfy`: `Optional`, for optional document and response fields.
- `seqs.dfy`: `Seqs`, the list operations the index is built from:
  - an order-preserving filter;
  - `list.index` and `list.remove`;
  - flattening.
- `bucket_index.dfy`: `BucketIndex`, the index as a value.
  - Every operation is a function. Each is paired with lemmas giving its counts, its images,
    idempotence and append-only merging.
  - Two invariants are proved:
    - *coverage*: every image in a bucket is discovered. It is kept by the computation, the
      filter, a removal, and a move of a discovered image.
    - *no duplicates*: no image is in two buckets, or twice in one. It is kept by the filter, a
      removal, and a move of an image that is in its source bucket. A move of an image that is
      not in its source bucket appends it anyway and can create a duplicate, as the source does.
      The computation keeps the invariant when the listing repeats no path and the assigner
      appends each image once to its own bucket.
  - With such an assigner, merging the eight workers' partial indices is proved equal to filing
    the new files that no bucket holds yet one at a time, in listing order.
  - It also models numpy's `array_split` shard boundaries and the save/load round trip.
- `bucket_manager.dfy`: `Buckets.BucketManager`, the class.
  - Its fields are the index, the discovered set and the ledger.
  - Each method updates them the way the source does, in loops where the source loops.
  - Each method that changes the index or the discovered set is proved to leave exactly the
    state the matching `BucketIndex` function gives.
  - `Len` is proved equal to `Count`, and the split between processes is stated per bucket.
  - The ledger methods are stated through `IsSeen`.
- `s3_keys.dfy`: `S3Keys`, covering:
  - Python's `str.split` and its inverse `join`;
  - the path-to-key conversion;
  - `list_by_prefix` and `list_files`.

External effects are parameters:

- A listing of the storage backend is a `seq<Path>`.
- The image analysis that picks an image's bucket (`process_for_bucket`) is an uninterpreted
  `Assigner`, a function from a path and a partial index to a new partial index.
- The distributed runtime's split is a function parameter.
- `fnmatch` is a predicate parameter.
- What reading the cache gives is a `StoredCache` value.
- What a save would write is returned as a `CacheDocument`.

Two behaviours of the code that the model keeps as written:

- The worker loop has no per-file exception handling. A failing assignment is not modelled as
  a skip.
- `set().union(*values)` over an empty index gives the empty set and does not raise, so the
  computation over an empty index is an ordinary case.

## Model

| member | source | states |
|---|---|---|
| Seqs.RemoveFirst | helpers/multiaspect/bucket.py:236-237 | `list.remove` guarded by membership: no-op when the path is absent, otherwise exactly the first occurrence is cut out |
| Seqs.RemoveFirstLength | helpers/multiaspect/bucket.py:236-237 | removal shortens the list by one exactly when the path is in it |
| Seqs.RemoveFirstMultiset | helpers/multiaspect/bucket.py:236-237 | removal takes exactly one copy of the path away when it is present |
| BucketIndex.Count | helpers/multiaspect/bucket.py:39-42 | no bucket holds more images than the total, and the total is 0 iff every bucket is empty |
| BucketIndex.CountRemove | helpers/multiaspect/bucket.py:39-42 | the image count is one bucket's length plus the count of the remaining buckets |
| BucketIndex.Images | helpers/multiaspect/bucket.py:153 | a definition, with no contract: the union of all buckets' lists, the set every worker checks its files against |
| BucketIndex.Pruned | helpers/multiaspect/bucket.py:279-288 | a bucket is kept iff it holds at least `batchSize` images, so one with exactly `batchSize` survives; kept lists are unchanged |
| BucketIndex.PrunedCount | helpers/multiaspect/bucket.py:279-288 | pruning splits the image count exactly between the kept and the dropped buckets |
| BucketIndex.PrunedIdempotent | helpers/multiaspect/bucket.py:279-288 | pruning twice is pruning once |
| BucketIndex.PrunedImages | helpers/multiaspect/bucket.py:283-287 | pruning adds no image |
| BucketIndex.Present | helpers/multiaspect/bucket.py:247-249 | the filtered list holds exactly the images that are in the list and exist, in their original order |
| BucketIndex.PresentCounts | helpers/multiaspect/bucket.py:247-249 | each existing image is kept as often as it occurred; no missing image is kept |
| BucketIndex.Unknown | helpers/multiaspect/bucket.py:131-132 | the files a worker analyses are exactly its files outside the existing set, in order |
| BucketIndex.UnknownCounts | helpers/multiaspect/bucket.py:131-132 | every unknown file is analysed as often as it occurs in the shard; no known file is analysed |
| BucketIndex.DiscoverNewFiles | helpers/multiaspect/bucket.py:61-65 | the new files are exactly the listed files not yet discovered, in listing order |
| BucketIndex.NoNewFiles | helpers/multiaspect/bucket.py:149-151 | no file is new iff every listed file is already discovered |
| BucketIndex.KeepExisting | helpers/multiaspect/bucket.py:246-249 | no bucket is added or removed, and no list grows |
| BucketIndex.KeepExistingSpec | helpers/multiaspect/bucket.py:246-249 | no bucket is added or removed; each list keeps an image iff it exists, in order; the images left are the old images that exist |
| BucketIndex.KeepExistingIdempotent | helpers/multiaspect/bucket.py:246-249 | filtering twice by the same set is filtering once |
| BucketIndex.KeepExistingOfPruned | helpers/multiaspect/bucket.py:246-251 | once filtered, pruning does not bring back a missing image |
| BucketIndex.Merged | helpers/multiaspect/bucket.py:186-189 | the merged keys are the union of both; each old list is a prefix of its merged list; each merged list is as long as the two lists together |
| BucketIndex.MergedCount | helpers/multiaspect/bucket.py:186-189 | merging a partial index adds exactly its image count |
| BucketIndex.MergedImages | helpers/multiaspect/bucket.py:186-189 | the images after a merge are those before plus the partial index's |
| BucketIndex.MergeAll | helpers/multiaspect/bucket.py:186-189 | merging every worker's result keeps every bucket, and each old list is a prefix of its new list |
| BucketIndex.ShardStartValue | helpers/multiaspect/bucket.py:156 | with `q` files per shard and one more in each of the first `r`, shard `i` starts at `i*q + min(i, r)`, as `array_split` places it |
| BucketIndex.ShardSize | helpers/multiaspect/bucket.py:156 | the first `n%8` shards have `n/8+1` files and the rest have `n/8` |
| BucketIndex.ShardsFlatten | helpers/multiaspect/bucket.py:156 | the first `count` shards concatenate to the matching prefix of the files |
| BucketIndex.ArraySplit | helpers/multiaspect/bucket.py:155-156 | eight shards, with the sizes above, that concatenate back to the new files in order |
| BucketIndex.ExampleShards | helpers/multiaspect/bucket.py:155-156 | three files split into three singleton shards and five empty ones |
| BucketIndex.WorkerIndexStep | helpers/multiaspect/bucket.py:131-135 | each file of the shard goes to the assigner iff no bucket holds it yet; otherwise the partial index stays as it is |
| BucketIndex.AssignFrom | helpers/multiaspect/bucket.py:130-137 | calling an assigner that files only the image it is given on each file in turn adds no image outside those files |
| BucketIndex.AssignAll | helpers/multiaspect/bucket.py:130-137 | a worker whose assigner files only the image it is given produces only images of its files |
| BucketIndex.WorkerIndex | helpers/multiaspect/bucket.py:130-137 | a worker whose shard is already bucketed reports an empty partial index; with such an assigner it reports only files of its shard that no bucket held |
| BucketIndex.AssignFromAppend | helpers/multiaspect/bucket.py:130-137 | filing one list and then another is filing their concatenation |
| BucketIndex.MergedAppendOne | helpers/multiaspect/bucket.py:186-189 | with an assigner that appends each image once to its own bucket, filing into a partial index and then merging is merging and then filing |
| BucketIndex.MergedAssignAll | helpers/multiaspect/bucket.py:186-189 | merging a worker's partial index is filing its files into the index one at a time, in order |
| BucketIndex.MergeAllWorkers | helpers/multiaspect/bucket.py:155-189 | merging all workers' partial indices in shard order is filing, one at a time in listing order, every file of the shards that no bucket held |
| BucketIndex.ComputeFilesInOrder | helpers/multiaspect/bucket.py:139-195 | the computed buckets are the old ones with the new, not yet bucketed files filed in listing order and then pruned, so the split over eight workers does not show |
| BucketIndex.AssignFromNoDuplicates | helpers/multiaspect/bucket.py:130-137 | filing distinct images that no bucket holds keeps the index duplicate-free and adds exactly those images |
| BucketIndex.ComputeKeepsNoDuplicates | helpers/multiaspect/bucket.py:139-195 | for a listing without repeated paths and an assigner that appends each image once to its own bucket, the computation keeps a duplicate-free index duplicate-free |
| BucketIndex.WorkerIndices | helpers/multiaspect/bucket.py:161-173 | a definition, with no contract: the partial index each worker puts on the results queue, one per shard in shard order |
| BucketIndex.MergeAllImages | helpers/multiaspect/bucket.py:186-189 | merging partial indices drawn from a set of images adds images from that set only |
| BucketIndex.ComputeStep | helpers/multiaspect/bucket.py:139-195 | the discovered set only grows; whenever the state changes, every bucket left holds at least `batchSize` images |
| BucketIndex.UpdateStep | helpers/multiaspect/bucket.py:239-251 | the discovered set is unchanged; no bucket is created; every bucket left holds at least `batchSize` images and no more than before; every image held exists |
| BucketIndex.RefreshStep | helpers/multiaspect/bucket.py:253-277 | the discovered set only grows; every image held is in the second listing; every bucket left holds at least `batchSize` images |
| BucketIndex.ComputeWithoutNewFiles | helpers/multiaspect/bucket.py:149-151 | with no new file the computation leaves the index and the discovered set as they were |
| BucketIndex.ComputeDiscovers | helpers/multiaspect/bucket.py:194 | afterwards every listed file is discovered, and nothing else was added |
| BucketIndex.ComputeAppendOnly | helpers/multiaspect/bucket.py:186-195 | every old bucket that survives keeps its old list as a prefix; after a save every bucket holds at least `batchSize` images |
| BucketIndex.ComputeKeepsCovered | helpers/multiaspect/bucket.py:139-195 | if every bucketed image was discovered before, it still is afterwards |
| BucketIndex.UpdateKeepsCovered | helpers/multiaspect/bucket.py:239-251 | the filter-and-save keeps every bucketed image discovered |
| BucketIndex.ComputeExample | helpers/multiaspect/bucket.py:139-195 | from an empty state, `a.png b.png c.png` with `c.png` wide and a batch of 2 gives `{"1:1": [a.png, b.png]}` with all three discovered |
| BucketIndex.RefreshIdempotent | helpers/multiaspect/bucket.py:253-277 | refreshing twice over the same listings leaves the same state as refreshing once |
| BucketIndex.WithoutImage | helpers/multiaspect/bucket.py:236-237 | no bucket is added or removed; the named bucket is one shorter iff it held the image; without the image the index is unchanged |
| BucketIndex.WithoutImageImages | helpers/multiaspect/bucket.py:236-237 | removal adds no image and loses none other than the removed one |
| BucketIndex.WithoutImageKeepsCovered | helpers/multiaspect/bucket.py:236-237 | removal keeps every bucketed image discovered |
| BucketIndex.WithoutImageSpec | helpers/multiaspect/bucket.py:236-237 | no bucket is added or removed; other buckets are unchanged; the named bucket loses one copy of the image; the count drops by one iff the image was there |
| BucketIndex.WithoutImageNoDuplicates | helpers/multiaspect/bucket.py:236-237 | in a duplicate-free index, removal keeps it duplicate-free and the image leaves the bucket entirely |
| BucketIndex.Moved | helpers/multiaspect/bucket.py:302-308 | the keys gain only the target bucket, whose list ends with the moved image |
| BucketIndex.MovedKeepsCovered | helpers/multiaspect/bucket.py:302-308 | moving a discovered image keeps every bucketed image discovered |
| BucketIndex.MovedShape | helpers/multiaspect/bucket.py:302-308 | a move is a removal from the source bucket and then an append to the target bucket, which starts as `[p]` if missing |
| BucketIndex.MovedSpec | helpers/multiaspect/bucket.py:302-308 | the keys gain only the target; the target's list ends with the image; other buckets are unchanged; the count is kept when the image was in its source bucket |
| BucketIndex.MovedImages | helpers/multiaspect/bucket.py:302-308 | after the move the image set is the old one plus the moved image |
| BucketIndex.MovedExample | helpers/multiaspect/bucket.py:302-308 | moving `x` from `1:1` to `16:9` turns `{"1:1":[x,y],"16:9":[z]}` into `{"1:1":[y],"16:9":[z,x]}` |
| BucketIndex.MovedNoDuplicates | helpers/multiaspect/bucket.py:302-308 | moving an image that is in its source bucket keeps a duplicate-free index duplicate-free |
| BucketIndex.MovedCanDuplicate | helpers/multiaspect/bucket.py:302-308 | moving `p` out of a bucket that does not hold it still appends it to the target: `{"a":[p],"b":[]}` moved from `b` to `c` has `p` in two buckets |
| BucketIndex.UpdateNoDuplicates | helpers/multiaspect/bucket.py:246-251 | filtering and pruning keep a duplicate-free index duplicate-free |
| BucketIndex.LoadCache | helpers/multiaspect/bucket.py:75-88 | the state `__init__` ends in: a missing cache leaves its empty fields as they are, and an undecodable one gives empty fields; a decoded one gives its index, or an empty one if that field is missing, and the set of its paths, or an empty set |
| BucketIndex.LoadWritten | helpers/multiaspect/bucket.py:97-105 | loading a document that describes a state restores that state |
| Buckets.BucketManager.constructor | helpers/multiaspect/bucket.py:17-37 | the state is what loading the cache gives, and no path is seen |
| Buckets.BucketManager.LoadFromCache | helpers/multiaspect/bucket.py:67-88 | a missing cache leaves the state alone; otherwise the state becomes what loading it gives |
| Buckets.BucketManager.Len | helpers/multiaspect/bucket.py:39-42 | returns the total number of images over all buckets and changes nothing |
| Buckets.BucketManager.EnforceMinBucketSize | helpers/multiaspect/bucket.py:279-288 | exactly the buckets with at least `batchSize` images stay, with unchanged lists; the other fields are untouched |
| Buckets.BucketManager.SaveCache | helpers/multiaspect/bucket.py:90-108 | prunes the index and returns a document with the pruned index and every discovered path exactly once |
| Buckets.BucketManager.BucketWorker | helpers/multiaspect/bucket.py:110-137 | the partial index is the assigner's fold over the shard's unknown files in order, and one progress unit is emitted per file |
| Buckets.BucketManager.RunWorkers | helpers/multiaspect/bucket.py:158-192 | the index becomes the old one with every worker's partial index merged in shard order, and progress totals the files of all shards |
| Buckets.BucketManager.MergePartial | helpers/multiaspect/bucket.py:186-189 | each bucket of the partial index is appended to its bucket, which is created if missing |
| Buckets.BucketManager.ComputeAspectRatioBucketIndices | helpers/multiaspect/bucket.py:139-196 | the state becomes `ComputeStep`; nothing is saved iff no file is new; progress totals the new files; a saved document describes the new state |
| Buckets.BucketManager.SplitBucketsBetweenProcesses | helpers/multiaspect/bucket.py:198-211 | no bucket is added or removed, and each list is replaced by this process's share of it |
| Buckets.BucketManager.MarkAsSeen | helpers/multiaspect/bucket.py:213-219 | afterwards the path is seen; every other path's status and the index are unchanged |
| Buckets.BucketManager.IsSeen | helpers/multiaspect/bucket.py:217-219 | a path is seen iff the ledger holds it with the value true; a missing path is not seen |
| Buckets.BucketManager.ResetSeenImages | helpers/multiaspect/bucket.py:217-223 | afterwards no path is seen |
| Buckets.BucketManager.RemoveImage | helpers/multiaspect/bucket.py:225-237 | when the bucket exists the index becomes `WithoutImage`, so only that bucket changes, losing the image's first occurrence; a missing bucket is reported and changes nothing |
| Buckets.BucketManager.UpdateBucketsWithExistingFiles | helpers/multiaspect/bucket.py:239-251 | the state becomes `UpdateStep` (filter, then prune), and the returned document describes it |
| Buckets.BucketManager.RefreshBuckets | helpers/multiaspect/bucket.py:253-277 | the state becomes the computation over the first listing and then the filter by the second |
| Buckets.BucketManager.HandleIncorrectBucket | helpers/multiaspect/bucket.py:290-308 | when the source bucket exists the index becomes `Moved`: out of the source bucket, appended to the target bucket; a missing source bucket is reported and changes nothing |
| Buckets.BucketManager.HandleSmallImage | helpers/multiaspect/bucket.py:310-335 | the backend delete is requested iff asked for, even when the bucket is missing; when the bucket exists the image's first occurrence leaves it, otherwise nothing changes |
| S3Keys.Split | helpers/data_backend/aws.py:95 | `str.split` with one separator: at least one part, none containing the separator |
| S3Keys.JoinSplit | helpers/data_backend/aws.py:95 | joining the parts of a split gives the string back |
| S3Keys.SplitJoin | helpers/data_backend/aws.py:95 | splitting a join of separator-free parts gives the parts back |
| S3Keys.LastPart | helpers/data_backend/aws.py:95 | the last part of a split holds no separator |
| S3Keys.ConvertPathToKey | helpers/data_backend/aws.py:85-95 | the key holds no `/` |
| S3Keys.KeyIsBaseName | helpers/data_backend/aws.py:95 | the key is a suffix of the path, has no `/`, and is the whole path or follows a `/`: the base name |
| S3Keys.KeyOfBaseName | helpers/data_backend/aws.py:91-95 | a path without `/` is its own key |
| S3Keys.KeyIdempotent | helpers/data_backend/aws.py:95 | converting a key again changes nothing |
| S3Keys.KeyOfDirectory | helpers/data_backend/aws.py:95 | a path ending in `/` has the empty key |
| S3Keys.KeyAfterLastSlash | helpers/data_backend/aws.py:95 | whatever precedes the last `/`, the key is the part after it |
| S3Keys.KeyExample | helpers/data_backend/aws.py:85-95 | `/path/to/img.png` becomes `img.png` |
| S3Keys.KeysIgnoreDirectories | helpers/data_backend/aws.py:95 | two paths with the same base name address the same object |
| S3Keys.ListByPrefix | helpers/data_backend/aws.py:76-79 | no keys when `Contents` is missing, otherwise the keys of the listed objects in response order |
| S3Keys.ListFiles | helpers/data_backend/aws.py:81-83 | holds exactly the listed keys that match the pattern, as a subsequence of the listing |
| S3Keys.ListFilesCounts | helpers/data_backend/aws.py:82-83 | each matching key occurs as often as it is listed; no other key occurs |
| S3Keys.ListFilesOfEmptyResponse | helpers/data_backend/aws.py:78-83 | a response without `Contents` gives no files, whatever the pattern |

## Left out

- Processes, queues, the liveness poll, `join` and the progress bar (bucket.py:158-192). The
  workers run one after another in shard order, and their results are merged in that order. So
  the order of images inside a bucket is one of the orders the concurrent merge can produce,
  not all of them.
- BucketIndex.ComputeStep: the model always merges every worker's partial index. The source can
  lose one. Its loop (bucket.py:179-189) drains the results queue only while some worker is
  alive and never drains it again after the last check. A worker that puts its result and exits
  between the drain and the next check, or workers that all finish before the first check, leave
  a result unmerged. These files still become discovered (bucket.py:194), so they are never
  bucketed later. The model gives only the outcome in which nothing is lost.
- BucketIndex.ComputeKeepsNoDuplicates: it needs a listing without repeated paths and an
  assigner that appends each image once to its own bucket (`AppendsOwnImage`).
  `process_for_bucket` is not part of this model, so that second condition is an assumption.
- Progress is modelled as the count of units sent; the progress bar itself is not modelled.
- `MultiaspectImage.process_for_bucket` is an uninterpreted `Assigner`. The coverage invariant
  assumes it files only the image it is given (`FilesOnlyItsImage`), which the model cannot
  check.
- The worker has no per-file exception handling, and none is modelled; an exception would end
  the worker.
- `accelerator.split_between_processes` is a function parameter. Padding and rank arithmetic are
  not modelled, so only its effect on each bucket's list is stated.
- The ledger is not shared between processes as `Manager().dict()` shares it; it is one map.
- JSON text encoding and decoding are not modelled. The cache is modelled as a document datatype,
  and a read or decode failure is one `Undecodable` case. A document that decodes to something
  other than an object, or to fields of the wrong type (which makes the source raise), is not
  modelled.
- `str(path)` when saving is the identity, since every path here is already a string.
- Buckets.BucketManager.SaveCache: the order in which a Python set lists the discovered paths is
  not modelled, so the contract states only that each discovered path appears exactly once.
- The backend's `exists`, `read`, `write` and `delete` calls are not modelled, and neither are any
  other boto3 client calls, nor `read_image`, `torch_load` or `torch_save`. Their results are
  parameters or returned values.
- Buckets.BucketManager.HandleSmallImage: the backend `remove` call, and the swallowing of its
  failure, are represented only by the returned request flag.
- Buckets.BucketManager.RemoveImage, Buckets.BucketManager.HandleIncorrectBucket and
  Buckets.BucketManager.HandleSmallImage: for a missing bucket the source raises `KeyError`
  (bucket.py:236). `handle_incorrect_bucket` lets it propagate before appending (bucket.py:302).
  `handle_small_image` has already asked the backend to delete the file when it raises
  (bucket.py:326, 335). The model returns `found` as false with the index unchanged, and requests
  the delete all the same. The exception and its propagation to the caller are not modelled.
  `BucketIndex.WithoutImage` and `BucketIndex.Moved` describe only the case where the bucket
  exists, and require it.
- A `list_objects_v2` response is a single page; continuation tokens are not followed. The
  prefix argument only selects what the service returns, so it is not a model parameter.
- `fnmatch` pattern semantics are a predicate parameter. The pattern the manager passes,
  `*.[jJpP][pPnN][gG]`, is therefore not interpreted.
- `_discover_new_files` and `refresh_buckets` unpack `(root, dirs, files)` triples from the
  listing, while the S3 `list_files` returns flat keys. The model takes the flattened sequence of
  paths as the listing.
- Buckets.BucketManager.Len: the source sums a comprehension over the map's values. A map has no
  value order that a function could follow, so this is a method with a loop over the keys, proved
  equal to the ghost `Count`.
