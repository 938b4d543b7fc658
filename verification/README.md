# Apache Portable Runtime: buckets, hooks, generators and codecs

A Dafny model of the stateful algorithms of the Apache Portable Runtime, with
proofs of what they keep over whole runs and for all inputs. `dafny verify
dfyconfig.toml` checks all of it.

* **Bucket brigades.** A bucket is a window on memory it may share; a brigade
  is a ring of buckets. `Buckets` models bucket and resource pointers as names
  in a store, so that sharing, writes in place and freed memory are visible,
  and `Arenas.Arena` holds that store and has the bucket operations as methods.
  `BucketInvariants` and `BucketRuns` prove the reference-count protocol over
  every run, and `BucketEffects` where bytes lie and who owns them. `Flows` gives a ring its meaning, the stream of its bytes and
  metadata marks, and `Boundary`, `Lines`, `Writes`, `Partitions` and
  `InsertFiles` prove the brigade functions against that stream, with file
  buckets that are read lazily and in short pieces. `Edges` is about where one
  bucket ends and the next begins, on which a limit depends.
* **Bucket nodes.** `NodeAlloc` is the allocator below the buckets.
* **Hooks.** `HookOrder`, `HookSearch`, `Hooks` and `HookPrepare` are the
  topological sort.
* **Random bytes.** `Prng` proves the fast-key-erasure generator against one
  endless stream of blocks; the stream cipher is a parameter.
* **Digests.** `Digests`, `Sha1` and `MessageDigest` are the streaming and
  padding layer of SHA-1, MD5 and MD4; the compression functions are
  parameters.
* **Codecs.** `Alphabets`, `Base64`, `Base32` and `Base16`.
* **Prepared queries.** `DbdPrepare` and `DbdBind`.
* **Passwords.** `Passwd` is bcrypt's setting strings, apr1 and validation;
  the Blowfish and MD5 cores are parameters.

Choices of the outside world are non-deterministic in the model: how many bytes
a file read returns and whether it fails, whether the cipher's provider fails,
and what unset memory holds. The array that qsort leaves behind is a parameter
of `SortHook`, and the answer of the underlying allocator one of `Alloc`.

## Where the code departs from its documentation or intent

The model follows the code.

* apr_brigade_split_boundary is documented to stop at metadata. It does so at a
  metadata bucket that comes first, but one inside a boundary that straddles
  buckets is deleted with the boundary (`BoundaryMeaning.MetadataKept` gives the
  exact condition).
* include/apr_buckets.h (line 809) documents that partial matches at the end of
  a bucket are held back. At the end of the input they are not: everything
  moves to the output (`BoundaryMeaning.SearchesBytes`).
* The size query of the base16 decoder does not look at where colons stand, so
  with the colon flag it can differ from the decode in status and length
  (`Base16.QueryAgreesExactly` gives the exact condition).
* apr_base64_decode_binary has a table of its own without the URL letters, so
  it stops where apr_decode_base64_binary reads on
  (`Base64.OldDecodeAgrees`).
* APR_ENCODE_NOPADDING is documented as leaving out the padding. On its own it
  also selects the URL alphabet, because the test for APR_ENCODE_BASE64URL
  accepts either of that flag's bits (`Base64.NoPaddingAlphabet`).
* apr_bcrypt_encode documents costs from 4 to 31; the code takes 4 to 17, and 0
  for 5 (`Passwd.BcryptSucceeds`).
* apr_md5_encode documents `nbytes` as the size of the result buffer; a buffer
  with room for exactly the hash and its NUL loses the last character
  (`Passwd.Md5EncodeValidates`).
* The update loops of MD5 and MD4 count in 32 bits. Just below 2^32
  bytes the guard can overflow, and from 2^32 bytes on it never stops the loop
  (`MessageDigest.StopsExactly`).

## Model

| member | source | states |
|---|---|---|
| `Search.Memmem` | buckets/apr_brigade.c:394-420 | the memchr-and-memcmp search returns the position of the first occurrence of the needle, and -1 exactly if there is none |
| `Search.FirstPartial` | buckets/apr_brigade.c:512-536 | the first offset from a start at which the rest of the data agrees with a proper prefix of the boundary; no earlier offset does |
| `Boundary.Scan` | buckets/apr_brigade.c:483-582 | one bucket's fast and slow paths: a match inside the bucket is the first one of the whole stream, and where none is found no match of the stream begins before the returned offset, from which the bucket's rest is a proper prefix of the boundary |
| `Boundary.Skip` | buckets/apr_brigade.c:605-678 | the comparison that goes on over later buckets: it finds the boundary exactly if the stream's bytes from here on begin with it, deletes exactly the matched buckets, and otherwise leaves both streams as they were |
| `Boundary.SplitBoundary` | buckets/apr_brigade.c:422-691 | for every cutting of the input into in-memory and file buckets: terminates; `ignore` is 0 or 1 and inside the first bucket; `outbytes` is what was moved; the output gains exactly the items before the first match and the input keeps exactly those after it, or the call is incomplete with nothing lost; EINVAL exactly for a boundary that is empty or begins with NUL, and then with no effect; nothing is moved and nothing found once `maxbytes` bytes have moved, so that at most one bucket goes over the limit; for an input in memory, exactly which bucket edges and held-back places were below the limit |
| `BoundaryMeaning.SucceedsExactly` | buckets/apr_brigade.c:422-691 | with a limit above the number of bytes, success if and only if a match of the boundary begins before the first metadata bucket |
| `BoundaryMeaning.SearchesBytes` | buckets/apr_brigade.c:422-691 | without metadata the call is a search of the concatenated bytes: success if and only if the boundary occurs in them, the output gains the bytes before the first occurrence, the input keeps those after it; otherwise everything moves and the call is incomplete |
| `BoundaryMeaning.CutIndependent` | buckets/apr_brigade.c:422-691 | with a limit above the number of bytes, two calls on inputs with the same stream but cut differently end with the same status and the same two streams |
| `BoundaryMeaning.LimitExactly` | buckets/apr_brigade.c:458-460 | for an input in memory and every limit: success if and only if there is a first match before the first metadata bucket, and every bucket edge and every held-back place before it is below the limit |
| `BoundaryMeaning.StopsAtLimit` | buckets/apr_brigade.c:458-460 | if whole leading buckets hold as many bytes as the limit and no match or beginning of one, exactly they move and the call is incomplete, even if the boundary follows at once |
| `BoundaryMeaning.NothingMoves` | buckets/apr_brigade.c:458-460 | a limit of 0 or less: incomplete, with nothing moved, whatever the input |
| `BoundaryMeaning.MetadataKept` | buckets/apr_brigade.c:605-678 | a successful call keeps all metadata if and only if none lies between the bytes of the match |
| `BoundaryMeaning.MetadataInsideMatchIsLost` | buckets/apr_brigade.c:605-678 | a concrete input: a metadata bucket inside a boundary that straddles two data buckets does not stop the call and is deleted |
| `Lines.SplitLine` | buckets/apr_brigade.c:335-392 | the interleaved stream of bytes and metadata is conserved over the two brigades, although small buckets are copied; what moved ends with the first LF, or holds no LF and then the input is empty or at least `maxbytes` bytes moved; no bucket is read once `maxbytes` bytes have moved, so at most one goes over the limit |
| `Lines.PassOn` | buckets/apr_brigade.c:371-384 | a bucket without LF is moved if it is metadata or longer than a quarter of a buffer, and otherwise copied to the end of the output and destroyed; either way the stream goes on by exactly its bytes or mark |
| `Lines.CutIndependent` | buckets/apr_brigade.c:335-392 | with a limit above the input size the moved line is the same however the input was cut: up to the first LF, or all of it |
| `Writes.Write` | buckets/apr_brigade.c:769-826 | appends exactly the given bytes to the brigade's stream, whatever its last bucket is, and changes no other bucket; they go into the last bucket's buffer if it is a sole owner with room for them, and otherwise into one new bucket |
| `Writes.Writev` | buckets/apr_brigade.c:828-947 | appends exactly the concatenation of the vectors, so the same content as one write per vector, in one new bucket each if they exceed a buffer together, in none if the tail's room takes them and in one otherwise; the copies stay inside the tail's free room and inside a new buffer |
| `Writes.CopyFitting` | buckets/apr_brigade.c:901-912 | vectors are copied in order while the next one fits, and no further than the free room |
| `Writes.Vputstrs` | buckets/apr_brigade.c:729-760 | appends exactly the concatenation of the strings, in groups of MAX_VECS |
| `Partitions.Partition` | buckets/apr_brigade.c:133-217 | keeps the stream; EINVAL exactly for a negative point, incomplete exactly for a point beyond the total, and otherwise the returned place has exactly `point` bytes before it, for any bucketing and zero-length buckets too |
| `Partitions.CutBytes` | buckets/apr_brigade.c:133-217 | such a place is take and drop on the concatenated bytes |
| `Partitions.CutUnique` | buckets/apr_brigade.c:133-217 | and there is only one such place that does not take in trailing metadata |
| `Partitions.SplitEx` | buckets/apr_brigade.c:100-125 | the buckets from the given one on move to the other brigade, whose own are destroyed first; both streams read as before |
| `Partitions.SplitAtPoint` | buckets/apr_brigade.c:100-217 | partition and then split_ex at the bucket it finds: the bytes of the two brigades are take and drop at `point`, for every bucketing; a negative point and one beyond the total are reported with no effect |
| `Partitions.Cleanup` | buckets/apr_brigade.c:37-63 | every bucket of the brigade is destroyed and no other bucket is affected |
| `Partitions.Flatten` | buckets/apr_brigade.c:252-297 | the first min(capacity, total) bytes of the content are copied, nothing after them is written, and reading the file buckets does not change the stream |
| `Partitions.Length` | buckets/apr_brigade.c:219-250 | the number of bytes of the stream |
| `Partitions.Pflatten` | buckets/apr_brigade.c:299-333 | a new buffer holding exactly the content |
| `InsertFiles.InsertFile` | buckets/apr_brigade.c:1044-1076 | the range of the file is appended to the stream; the several-bucket branch tiles it contiguously with buckets of 1 GB and a last one of at most that, all on one file structure |
| `Arenas.Arena.Split` | buckets/apr_buckets_refcount.c:19-31 | split of a live bucket: EINVAL beyond its length with no effect, and otherwise the two windows on one buffer, with its count one higher |
| `Arenas.Arena.Copy` | buckets/apr_buckets_refcount.c:33-41 | copy of a live bucket, with the count one higher, keeping the invariant |
| `Arenas.Arena.Destroy` | buckets/apr_buckets_heap.c:31-39 | destroying a bucket drops its reference and gives the structure and its memory back with the last one |
| `Arenas.Arena.HeapCreate` | buckets/apr_buckets_heap.c:43-87 | a new heap bucket over a copy of the bytes, with a count of one |
| `Arenas.Arena.PoolCreate` | buckets/apr_buckets_pool.c:93-133 | a new pool bucket over the caller's memory, with a count of one and no heap memory yet |
| `Arenas.Arena.FileCreate` | buckets/apr_buckets_file.c:154-185 | a new file bucket over a range of the file, with a count of one |
| `Arenas.Arena.BufferCreate` | buckets/apr_brigade.c:806-819 | a bucket over a new buffer that reads as empty, has the whole buffer as room and shares it with no other |
| `Arenas.Arena.Append` | buckets/apr_brigade.c:821-823 | the in-place append writes only the free room after a sole owner's window |
| `Arenas.Arena.Read` | buckets/apr_buckets_pool.c:45-62 | reading a bucket delivers exactly the bytes its window stands for, morphs it where the type asks for that, and changes what no other bucket reads as; a failed read changes nothing; a file bucket and a pool bucket whose pool has gone are heap buckets afterwards, and any other read changes nothing |
| `Arenas.Arena.FileRead` | buckets/apr_buckets_file.c:111-152 | for every number of bytes that may come back: the bucket holds what was read, and a new bucket after it the rest of the range |
| `BucketInvariants.CopyKeeps` | buckets/apr_buckets_simple.c:19-26 | a copy reads as the original, no other bucket changes, and the store invariant is kept |
| `BucketInvariants.SplitKeeps` | buckets/apr_buckets_simple.c:28-46 | splitting keeps the store invariant, counts included |
| `BucketInvariants.SplitViews` | buckets/apr_buckets_simple.c:28-46 | the two parts read as take and drop of the whole, and no other bucket changes |
| `BucketInvariants.DestroyKeeps` | buckets/apr_buckets_refcount.c:43-48 | destroying a bucket keeps the invariant and what every other bucket reads as |
| `BucketInvariants.SharedMakeKeeps` | buckets/apr_buckets_refcount.c:50-63 | moving a bucket to a new structure leaves exactly its old reference unaccounted for |
| `BucketInvariants.SoleOwner` | buckets/apr_brigade.c:782-783 | a count of 1 means that no other live bucket points at the buffer |
| `BucketInvariants.AppendViews` | buckets/apr_brigade.c:782-823 | the in-place append stays inside the buffer, extends this bucket by exactly the bytes, and is seen by no other live bucket |
| `BucketInvariants.PoolCleanupKeeps` | buckets/apr_buckets_pool.c:21-43 | after the pool is cleaned up every bucket on its memory reads the same bytes, from the heap copy, which is given back once |
| `BucketInvariants.PoolMorphKeeps` | buckets/apr_buckets_pool.c:45-62 | the morph of a pool bucket to a heap bucket keeps the invariant and its bytes |
| `BucketInvariants.FileReadKeeps` | buckets/apr_buckets_file.c:126-148 | reading a file bucket keeps the counts of the file structure and the new heap structure exact, however many bytes came back |
| `BucketInvariants.FileReadPart` | buckets/apr_buckets_file.c:126-145 | after a short read, what was read and the bucket for the rest make up what the bucket stood for |
| `BucketInvariants.FileReadAll` | buckets/apr_buckets_file.c:126-148 | after a complete read the bucket reads the same and the file reference is released |
| `BucketInvariants.TransientSetasideKeeps` | buckets/apr_buckets_simple.c:89-96 | a transient bucket set aside reads the same bytes, from the heap |
| `BucketInvariants.FileSetasideKeeps` | buckets/apr_buckets_file.c:226-245 | the sharing step of setaside moves one reference to a copy of the structure and keeps every count exact |
| `BucketEffects.PoolCleanupMoves` | buckets/apr_buckets_pool.c:37-40 | after the cleanup the structure owns new heap memory with the pool's bytes, not yet given back; no bucket and no other structure has changed, and every pool bucket on it will morph at its next read |
| `BucketEffects.PoolReadMorphs` | buckets/apr_buckets_pool.c:51-58 | cleanup and then a read: the bucket is a heap bucket over the same structure, window and bytes, and no other bucket has changed |
| `BucketEffects.PoolNeverRead` | buckets/apr_buckets_pool.c:37-58 | once its pool has gone, no run of operations makes a structure's bytes the pool's again |
| `BucketEffects.TransientSetAside` | buckets/apr_buckets_simple.c:89-96 | the bucket is a heap bucket, the only owner of a new structure that holds exactly its bytes |
| `BucketEffects.FileSetAside` | buckets/apr_buckets_file.c:226-245 | the bucket is the only owner of a structure for the same file: its own if and only if it shared it with none, and otherwise a new one, while the others keep the old one with its count one lower |
| `BucketEffects.CopyShares` | buckets/apr_buckets_refcount.c:33-41 | a copy is a window on the same memory, counted once more; no bytes are copied |
| `BucketEffects.SplitShares` | buckets/apr_buckets_refcount.c:19-31 | the two parts are adjacent windows on the same memory, counted once more |
| `BucketEffects.AppendInPlace` | buckets/apr_brigade.c:821-823 | an append stays in the buffer the bucket has and uses up exactly its length of the room; no structure is made or given back |
| `BucketEffects.FileReadOwns` | buckets/apr_buckets_file.c:126-148 | a read file bucket alone owns new heap memory with exactly what was read; what is left stays on the file's own structure |
| `BucketRuns.CountsExact` | buckets/apr_buckets_refcount.c:19-63 | after every run of create, copy, split, destroy, append, cleanup, read and setaside, each live structure's count is the number of live buckets pointing at it, and every window lies inside live memory |
| `BucketRuns.FreedOnce` | buckets/apr_buckets_heap.c:31-39 | after every run each structure, with its heap memory, has been given back exactly once if no bucket points at it, and never otherwise |
| `BucketRuns.NothingLeaks` | buckets/apr_buckets_heap.c:31-39 | once no bucket is left, everything ever made has been given back, once |
| `BucketRuns.RunFrame` | buckets/apr_brigade.c:782-825 | a bucket reads the same through every run in which no operation splits, fills, fetches or destroys it, whatever happens to buckets that share its buffer |
| `NodeAlloc.BucketAlloc.Alloc` | buckets/apr_buckets_alloc.c:155-204 | a node that no caller holds, with room for the requested size; the head of the free list if there is one and the size is small, otherwise the active block's next node if it fits, otherwise what the allocator below grants; NULL, with no effect, if and only if a block is needed and refused; every node that callers hold stays where it is |
| `NodeAlloc.BucketAlloc.Free` | buckets/apr_buckets_alloc.c:226-240 | the node is held no more: a small one is the new head of the free list, a large one's memnode is given back and no other; nodes still held are untouched, and the invariant is kept |
| `NodeAlloc.BucketAlloc.Recycle` | buckets/apr_buckets_alloc.c:165-236 | a small node that is freed is the next small one handed out, without a block from below, and everything held and free is as before |
| `NodeAlloc.BucketAlloc.constructor` | buckets/apr_buckets_alloc.c:99-118 | the first block, past the list itself, satisfies the invariant with nothing held and nothing free |
| `NodeAlloc.PopKeeps` | buckets/apr_buckets_alloc.c:165-170 | taking the free list's head moves exactly that node from free to live |
| `NodeAlloc.NewBlockKeeps` | buckets/apr_buckets_alloc.c:173-184 | a new active block overlaps none before it and keeps the invariant |
| `NodeAlloc.CarveKeeps` | buckets/apr_buckets_alloc.c:172-191 | a carved node overlaps no other and lies in its block |
| `NodeAlloc.LargeKeeps` | buckets/apr_buckets_alloc.c:194-202 | a large node has its memnode to itself |
| `NodeAlloc.PushKeeps` | buckets/apr_buckets_alloc.c:231-236 | a freed small node goes from live to the acyclic free list |
| `NodeAlloc.DropKeeps` | buckets/apr_buckets_alloc.c:237-239 | giving a large node's memnode back leaves every other node inside its block |
| `NodeAlloc.LiveNodesApart` | buckets/apr_buckets_alloc.c:155-204 | nodes held at the same time are disjoint, headers included |
| `NodeAlloc.SizeTells` | buckets/apr_buckets_alloc.c:228-239 | the stored size tells small from large: a node of another size shares its memnode with no node |
| `NodeAlloc.FreeListEnds` | buckets/apr_buckets_alloc.c:165-167 | following `next` from the head runs through the free nodes, none of them live, and ends |
| `Hooks.Select` | hooks/apr_hooks.c:148-168 | for acyclic predecessors the search ends with no assertion failing, at an unplaced item all of whose predecessors are placed, reached by a chain of predecessors from the first unplaced item: where `Searched`, which follows the first slot that is not NULL, ends |
| `Hooks.SearchStays` | hooks/apr_hooks.c:148-168 | for any predecessors, cyclic or not: after any number of rounds the search is inside the array, so the assertion for loops never fires, and once every unplaced item waits for an unplaced one it never ends |
| `Hooks.Erase` | hooks/apr_hooks.c:175-181 | the placed item is struck from every row and nothing else is, so that each count is still the number of non-NULL slots |
| `Hooks.Tsort` | hooks/apr_hooks.c:139-186 | for acyclic predecessors: terminates; the list is a permutation of the items in which every recorded predecessor comes first, the array's order is disturbed only where forced, and each item is the one that the search over the rows ends at |
| `HookSearch.ChosenUnique` | hooks/apr_hooks.c:148-168 | the rows, slot by slot, leave no choice: there is one order of a given length in which each item is the one the search ends at |
| `HookSearch.WalkLed` | hooks/apr_hooks.c:148-168 | the search is at an item because all before it in the array are placed, or because it was led there from the first unplaced item, each time by the first unplaced predecessor |
| `HookSearch.ListedFirst` | hooks/apr_hooks.c:153-162 | of two items that one item's row lists and no other row does, the one in the earlier slot comes first if and only if it lies first in the array or an item before the other one draws the listing item in |
| `HookSearch.ListedLaterFirst` | hooks/apr_hooks.c:148-168 | a concrete array on which the one listed later comes first, because it lies first in the array |
| `HookOrder.ChainBound` | hooks/apr_hooks.c:148-168 | in an acyclic graph no chain of predecessors meets an item twice, so no chain is longer than the number of items, which bounds the search |
| `HookOrder.OrderNeedsAcyclic` | hooks/apr_hooks.c:139-186 | acyclicity is also necessary: an order of all items that puts predecessors first exists only for an acyclic graph |
| `HookOrder.CyclicNeverDone` | hooks/apr_hooks.c:145-182 | with a cycle, no order that puts predecessors first takes in all items, so tsort returns for acyclic predecessors only |
| `HookOrder.NoEdgesIdentity` | hooks/apr_hooks.c:145-182 | with no edges, an order disturbed only where forced is the sorted array itself |
| `HookPrepare.AddToRow` | hooks/apr_hooks.c:104-108 | a predecessor is added after the others unless it is there; the rows hold no duplicates, so the slot is always inside the row |
| `HookPrepare.Prepare` | hooks/apr_hooks.c:89-127 | the rows hold exactly the edges that the names ask for, through predecessors and successors, each once and in the order in which they are first asked for |
| `HookPrepare.SortHook` | hooks/apr_hooks.c:188-217 | the sorted hooks are a rearrangement of what qsort left, in which all requests are met, and a hook placed before one of smaller order number is a transitive predecessor of that one or of one sorted before it |
| `HookPrepare.ArrangedPermutes` | hooks/apr_hooks.c:199-209 | no hook is lost or doubled by the sort |
| `HookPrepare.NamesRespected` | hooks/apr_hooks.c:96-125 | in terms of names: the first hook of each name listed as predecessor is already placed, and so is every hook that listed this one as successor |
| `HookPrepare.ArrangedUnique` | hooks/apr_hooks.c:188-217 | what the hooks say of themselves leaves one result for each array that qsort may leave |
| `HookPrepare.ListedFirstExactly` | hooks/apr_hooks.c:139-217 | of two hooks that one and the same hook lists and no other does, the one listed first comes first if and only if it lies first in the array or a hook before the other one needs the listing hook or is it |
| `HookPrepare.NamedFirst` | hooks/apr_hooks.c:99-110 | a hook that no other names as successor lists its predecessors in the order in which it names them |
| `Prng.TakeSplit` | crypto/apr_crypto_prng.c:494-540 | the stream of blocks: asking for a and then b bytes gives the same bytes and ends at the same place as asking for a + b |
| `Prng.BufSize` | crypto/apr_crypto_prng.c:316-325 | the default for 0, the minimum for what is below it, and otherwise the size asked for, rounded up to a whole number of keys |
| `Prng.Cprng.StreamBytes` | crypto/apr_crypto_prng.c:431-442 | called only with an all-zero buffer, so that key and bytes are the pure keystream; on failure the bytes are cleared |
| `Prng.Cprng.Bytes` | crypto/apr_crypto_prng.c:494-540 | delivers the next bytes of the stream and ends at the place after them; on failure it stands exactly after what was delivered; everything handed out has been zeroed in the buffer |
| `Prng.AskTwice` | crypto/apr_crypto_prng.c:494-540 | over two generators that agree: asking one for a and then b bytes and the other for a + b gives the same bytes, and the same key, position and buffer afterwards |
| `Prng.Cprng.DirectBlocks` | crypto/apr_crypto_prng.c:505-513 | whole blocks go straight to the caller, in stream order, until less than one is wanted |
| `Prng.Cprng.Refill` | crypto/apr_crypto_prng.c:518-522 | the next block is fetched into the buffer; a failure leaves the buffer zero and the place unchanged |
| `Prng.Cprng.Serve` | crypto/apr_crypto_prng.c:524-536 | bytes come from the buffer in stream order and are cleared there |
| `Prng.Cprng.Rekey` | crypto/apr_crypto_prng.c:576-583 | the buffer is forgotten and zeroed before the stream is called, and the place is the next key with nothing at hand |
| `Prng.Cprng.Reseed` | crypto/apr_crypto_prng.c:457-489 | as rekey, from the key mixed with the seed; a failure keeps the mixed key |
| `Prng.MixedKeeps` | crypto/apr_crypto_prng.c:431-465 | mixing leaves a key or a keystream as it is if and only if what is mixed in is zero: an all-zero buffer is necessary for the pure keystream |
| `Prng.MixedTwice` | crypto/apr_crypto_prng.c:463-465 | mixing the same seed in twice undoes it |
| `Prng.SeedEnters` | crypto/apr_crypto_prng.c:463-465 | two seeds give the same mixed key if and only if they are equal |
| `Prng.OneKeystream` | crypto/apr_crypto_prng.c:431-442 | the next key and the bytes handed out are consecutive parts of one keystream |
| `Prng.Cprng.AfterFork` | crypto/apr_crypto_prng.c:617-639 | child and parent both end with an empty, zeroed buffer; the child's key is the next one, the parent's comes from the bytes after it |
| `Prng.PlaceDetermines` | crypto/apr_crypto_prng.c:528-533 | two generators at the same place of the stream have the same key, position and buffer, because what was handed out is zero |
| `Digests.CountMore` | crypto/apr_sha1.c:226-230 | the two-word addition with its comparison for the carry adds 8 times the length modulo 2^64, for every length below 2^32 |
| `Digests.CountIndex` | crypto/apr_md5.c:202-202 | the low count word alone tells how full the block is, even after the count has wrapped |
| `Digests.ZeroCountLeast` | crypto/apr_md5.c:302-305 | the padding is the shortest that leaves room for the length at the end of a block |
| `Sha1.Context.constructor` | crypto/apr_sha1.c:206-216 | a new context has taken in nothing and satisfies the invariant of the updates |
| `Sha1.Context.Update` | crypto/apr_sha1.c:220-257 | for every sequence of updates the context is the fold over the whole blocks of everything taken in, with the rest in the buffer and the count words right |
| `Sha1.Context.Final` | crypto/apr_sha1.c:313-345 | the digest is the fold over the padded message of section 4 of RFC 3174, so it does not depend on how the message was cut into updates |
| `Sha1.WordsPatched` | crypto/apr_sha1.c:333-335 | storing the two length words into the block is storing their bytes |
| `Sha1.OutputWord` | crypto/apr_sha1.c:338-344 | each four bytes of the digest, most significant first, are its state word |
| `Sha1.LengthByte` | crypto/apr_sha1.c:333-335 | the length field is 8 times the length modulo 2^64, most significant byte first, byte by byte |
| `Sha1.FirstState` | crypto/apr_sha1.c:206-216 | the five initial words are those of section 6.1 of RFC 3174 |
| `MessageDigest.Context.constructor` | crypto/apr_md5.c:145-157 | a new context has taken in nothing and satisfies the invariant of the updates |
| `MessageDigest.Context.Update` | crypto/apr_md5.c:190-273 | MD5 and MD4: as SHA-1's update, for every input on which the 32-bit loop counter does not overflow |
| `MessageDigest.Context.Final` | crypto/apr_md5.c:288-317 | the digest is the fold over the padded message of sections 3.1 and 3.2 of RFC 1321, and of RFC 1320 for MD4 |
| `MessageDigest.EncodeWord` | crypto/apr_md5.c:443-455 | each four bytes of the digest, least significant first, are its state word |
| `MessageDigest.LengthByte` | crypto/apr_md5.c:295-308 | byte i of the length field is (8 times the length modulo 2^64) / 256^i modulo 256 |
| `MessageDigest.FirstState` | crypto/apr_md5.c:145-157 | the four initial words, low-order bytes first, are those of section 3.3 of RFC 1321 |
| `MessageDigest.StopsExactly` | crypto/apr_md5.c:218-219 | for every input size: the loop guard stops where less than a block is left if and only if the size is below 2^32 and that index plus 63 is too; from 2^32 bytes on it stops nowhere |
| `MessageDigest.GuardIsBlock` | crypto/apr_md4.c:185-186 | under that condition the guard holds if and only if a whole block is left |
| `MessageDigest.GuardOverruns` | crypto/apr_md5.c:218-219 | a concrete size below 2^32 at which the guard still holds with less than a block left |
| `Alphabets.Scan` | encoding/apr_encode.c:504-523 | the number of letters the text starts with, and BADCH exactly if strict decoding does not tolerate what follows them |
| `Alphabets.StrictExactly` | encoding/apr_encode.c:504-523 | the strict scan succeeds if and only if the text is letters and then at most so many padding characters, in one way; the relaxed scan objects to nothing |
| `Base64.Encode` | encoding/apr_encode.c:280-344 | writes the six-bit groups in the alphabet the flags choose, with or without padding |
| `Base64.Decode` | encoding/apr_encode.c:488-556 | status and bytes for every text and flag set |
| `Base64.RoundTrip` | encoding/apr_encode.c:488-577 | strict decoding of what was encoded succeeds and gives the bytes back, for every byte string and every flag set (sections 4 and 5 of RFC 4648) |
| `Base64.StrictDecodes` | encoding/apr_encode.c:488-556 | strict decoding succeeds if and only if the text is letters of either alphabet, not one more than a multiple of four, and then at most two '=' |
| `Base64.AlphabetKept` | encoding/apr_encode.c:295-300 | with the url flag alone the text has no '+' and no '/', with neither flag no '-' and no '_' |
| `Base64.GroupValue` | encoding/apr_encode.c:303-310 | the four groups of three bytes are their 24 bits, most significant first |
| `Base64.EncodeQueryFits` | encoding/apr_encode.c:333-338 | the encoder's size query is exactly what is written and the NUL with padding, and larger by the padding without |
| `Base64.DecodeQuery` | encoding/apr_encode.c:558-571 | the decoder's size query has the same status as the decode and exactly the length it writes, for every text and flag set |
| `Base64.NoPaddingAlphabet` | encoding/apr_encode.c:295-300 | asking only for no padding gives the standard alphabet's text if and only if no six-bit group is 62 or 63 |
| `Base64.NoPaddingExample` | encoding/apr_encode.c:295-300 | a concrete input on which it does not |
| `Base64.OldEncode` | encoding/apr_base64.c:268-301 | apr_base64_encode_binary writes the same text as the newer encoder with no flags, and returns its length with the NUL, which is apr_base64_encode_len |
| `Base64.OldDecode` | encoding/apr_base64.c:166-205 | apr_base64_decode_binary, with its own table of the standard alphabet only: it writes the bytes of the letters before the first other character and returns their number |
| `Base64.OldDecodeAgrees` | encoding/apr_base64.c:51-71 | for every text: it writes what the newer decoder writes if and only if both stop at the same place, or the newer one reads one letter more that completes no byte |
| `Base64.OldDecodeDiffers` | encoding/apr_base64.c:51-71 | a concrete text of the URL alphabet, of which the older decoder writes nothing and the newer one three bytes |
| `Base64.OldRoundTrip` | encoding/apr_base64.c:166-301 | the older decoder inverts the older encoder on every byte string |
| `Base32.Encode` | encoding/apr_encode.c:741-847 | writes the five-bit groups in either alphabet, with or without padding |
| `Base32.Decode` | encoding/apr_encode.c:1031-1129 | status and bytes for every text and flag set |
| `Base32.RoundTrip` | encoding/apr_encode.c:1031-1160 | strict decoding inverts encoding for base32 and base32hex, padded or not (sections 6 and 7 of RFC 4648) |
| `Base32.StrictDecodes` | encoding/apr_encode.c:1031-1129 | strict decoding succeeds if and only if the text is letters of the alphabet, in a number that whole bytes give, and then at most six '=' |
| `Base32.AlphabetKept` | encoding/apr_encode.c:741-847 | base32hex text has no 'W' to 'Z', base32 text no '0', '1', '8' and '9' |
| `Base32.EncodeQueryFits` | encoding/apr_encode.c:836-841 | the encoder's size query is exact with padding and larger by the padding without |
| `Base32.DecodeQuery` | encoding/apr_encode.c:1131-1154 | the decoder's size query has the same status as the decode and exactly the length it writes, for every text and flag set |
| `Base16.Encode` | encoding/apr_encode.c:1269-1320 | writes two hex digits a byte in either case, with colons between bytes if asked |
| `Base16.Decode` | encoding/apr_encode.c:1451-1507 | status and bytes for every text and flag set, colons in odd places included |
| `Base16.RoundTrip` | encoding/apr_encode.c:1451-1526 | strict decoding inverts encoding in either case, with and without colons (section 8 of RFC 4648) |
| `Base16.StrictDecodes` | encoding/apr_encode.c:1451-1507 | strict decoding succeeds if and only if the text is hex digits, and colons where the flag allows them, with no digit left over; without colons, an even number of digits |
| `Base16.CaseKept` | encoding/apr_encode.c:1269-1320 | lower-case text has no 'A' to 'F', other text no 'a' to 'f', and colons come only with their flag |
| `Base16.JoinedBits` | encoding/apr_encode.c:1478-1500 | a colon in the place of a second digit sets the bit of its table entry, 32, in the byte, and changes no other |
| `Base16.EncodeQueryExact` | encoding/apr_encode.c:1302-1314 | the encoder's size query is exactly what is written and the NUL |
| `Base16.QueryAgreesExactly` | encoding/apr_encode.c:1478-1520 | for every text and flag set: the size query of the decoder agrees with the decode in status and length if and only if the colon flag is off, nothing was scanned, or the colons the decode steps over are as many as the query takes for granted and a digit is left over exactly where it expects one |
| `Base16.QueryAgreesOnEncoded` | encoding/apr_encode.c:1509-1520 | in particular it agrees on everything the encoder writes, with and without colons |
| `Base16.QueryDisagrees` | encoding/apr_encode.c:1509-1520 | a concrete text with the colon flag on which query and decode differ in status and length |
| `DbdPrepare.CountArgs` | dbd/apr_dbd.c:383-391 | the first pass, which knows nothing of types, counts the parameters of the token-level parse |
| `DbdPrepare.Switch` | dbd/apr_dbd.c:402-459 | the nested switch finds the longest matching type and how many letters it takes |
| `DbdPrepare.Prepare` | dbd/apr_dbd.c:383-472 | the output is the rendering of the token-level parse and fits in `qlen` with its NUL; the type array is filled exactly; `nvals` is one for each parameter and four for each large object |
| `DbdPrepare.PlainQuery` | dbd/apr_dbd.c:463-470 | a query without % is passed through unchanged |
| `DbdPrepare.DigitsNumber` | dbd/apr_dbd.c:462-462 | a parameter's number is written in decimal digits with no leading zero, and reads back as that number |
| `DbdPrepare.ReferencesDiffer` | dbd/apr_dbd.c:462-462 | with a numbered format, references to different parameters differ |
| `DbdBind.Bind` | dbd/apr_dbd_pgsql.c:688-714 | the cursor stays inside `nvals` values, and every parameter gets the value the walk assigns to it |
| `DbdBind.Bbind` | dbd/apr_dbd_pgsql.c:965-1037 | the same for values passed by pointer, where a NULL pointer makes the parameter NULL whatever its type |
| `DbdBind.LayoutFits` | dbd/apr_dbd_pgsql.c:694-714 | the values of arguments that suit the types are at most `nvals` |
| `DbdBind.BindInvertsLayout` | dbd/apr_dbd_pgsql.c:694-714 | for every mix of NULLs, scalars and large objects each parameter comes out as its own argument |
| `Passwd.BfRoundTrip` | crypto/crypt_blowfish.c:385-439 | BF_decode inverts BF_encode, whatever follows the text |
| `Passwd.BfEncode` | crypto/crypt_blowfish.c:409-439 | the do-while loop writes the six-bit groups of its input |
| `Passwd.BfDecode` | crypto/crypt_blowfish.c:385-407 | fails exactly if one of the characters it needs is unknown, and otherwise yields the bytes of the groups |
| `Passwd.CryptFixpoint` | crypto/crypt_blowfish.c:668-774 | for every key and every accepted setting: the 60 characters that BF_crypt writes are themselves a setting that asks for the same cost and salt, and hash to themselves |
| `Passwd.CryptInjective` | crypto/crypt_blowfish.c:766-774 | two keys have the same output under a setting if and only if the 23 bytes of the core agree |
| `Passwd.ParsedExactly` | crypto/crypt_blowfish.c:673-690 | a setting is accepted if and only if it is "$2", a known subtype, "$", a cost in two digits from the minimum to 17, "$" and 22 characters of salt; subtype, cost and salt are read from it |
| `Passwd.CryptText` | crypto/crypt_blowfish.c:766-774 | for every accepted setting the output is the header, the salt encoded anew and the hash, so equal requests give equal text |
| `Passwd.GensaltParses` | crypto/crypt_blowfish.c:876-902 | every generated setting passes the checks of BF_crypt and asks for its cost and the first 16 salt bytes |
| `Passwd.BcryptSucceeds` | crypto/apr_passwd.c:212-226 | apr_bcrypt_encode succeeds if and only if the salt has 16 bytes, the cost is 0 or 4 to 17 and the buffer has 61 bytes; a small buffer is the only ERANGE |
| `Passwd.BcryptValidates` | crypto/apr_passwd.c:108-130 | the password is valid for what apr_bcrypt_encode made of it, and another one if and only if its 23 bytes agree |
| `Passwd.BcryptMarked` | crypto/apr_passwd.c:115-118 | the bcrypt branch is taken if and only if the hash begins with "$2a$" or "$2y$" |
| `Passwd.BcryptBranch` | crypto/apr_passwd.c:119-120 | on a bcrypt hash: an error if and only if it is no acceptable setting, valid if and only if the password hashes to it; whatever crypt makes of such a setting is valid for its own password |
| `Passwd.ShaBranch` | crypto/apr_passwd.c:128-129 | on a text that begins with {SHA}: valid if and only if it is the password's own {SHA} text, a mismatch otherwise |
| `Passwd.ShaValidates` | crypto/apr_passwd.c:128-129 | another password is valid for a {SHA} hash if and only if its SHA-1 hash is the same, and a mismatch otherwise |
| `Passwd.CryptBranch` | crypto/apr_passwd.c:131-206 | on a hash of no known kind: valid if and only if the system's crypt gives it back, a mismatch otherwise, a refusal included |
| `Passwd.SaltLength` | crypto/apr_md5.c:525-544 | the salt ends at the first '$' or NUL, or after 8 characters |
| `Passwd.SaltOfHash` | crypto/apr_md5.c:525-544 | the salt parsed from an apr1 hash is the one it was made with |
| `Passwd.DigestInjective` | crypto/apr_md5.c:649-657 | the 22 characters keep every bit of the digest |
| `Passwd.To64Value` | crypto/apr_md5.c:493-502 | the groups of to64 are the number's base 64 digits, lowest first |
| `Passwd.LettersAscend` | crypto/apr_md5.c:495-496 | its characters are '.', '/', the digits and the letters in the order of their codes |
| `Passwd.Apr1Fixpoint` | crypto/apr_md5.c:606-664 | encoding a password with its own apr1 hash as the salt gives that hash again, of at most 37 characters |
| `Passwd.Apr1Validates` | crypto/apr_passwd.c:122-130 | the password is valid for its apr1 hash, and another one if and only if its digest with that salt is the same |
| `Passwd.Md5EncodeValidates` | crypto/apr_md5.c:664-664 | what is left in the result buffer is valid if and only if the buffer has two bytes more than the hash |

## Left out

- InsertFiles.InsertFile: the source leaves the last bucket's length at 1 GB between rounds of its loop and corrects it after the loop, and the model shortens it in the loop, so that a window never leaves the file; the resulting buckets are the same. The mmap setting of the bucket is not modelled.
- Arenas.Arena.FileRead: the file is at least as long as the bucket says, so that APR_EOF with bytes still expected does not occur; mmap and reopening for threads are not modelled.
- Arenas.Arena.HeapCreate: bytes are always copied, so a caller's own free function is not modelled; allocation does not fail.
- Arenas.Arena.Read: the pointer a read returns is modelled as the bytes it points at.
- BucketInvariants.FileSetasideKeeps: only the sharing step; the pool test and duplicating the descriptor are not modelled.
- Writes.Write: no flush callback, so no call that hands the brigade on.
- Boundary.SplitBoundary: apr_size_t and apr_off_t do not wrap, since the bytes fit in memory; reads are blocking; the boundary is exactly its `boundary_len` bytes, so a length of 0 with a non-empty string is not modelled.
- Partitions.Partition: every bucket's length is known, so the branches for length -1 of pipes and sockets are left out.
- NodeAlloc.BucketAlloc.Alloc: the sum of the size and the header does not wrap; alignment and the debug check of double frees are left out; a caller frees a node at most once.
- Hooks.Tsort: only for acyclic predecessors, for which it returns; for the others HookOrder.CyclicNeverDone and Hooks.SearchStays say that it cannot.
- HookPrepare.Prepare: qsort itself is left out; `SortHook` is given what it leaves behind, in ascending order numbers.
- Prng.Cprng.Reseed: only with a caller's seed; seeding from the global generator or the system, the locks and forwarding to other generators are left out.
- Prng.Cprng.StreamBytes: a failing provider leaves the key as it was.
- Prng.Cprng.AfterFork: parent and child are two calls on equal states.
- MessageDigest.Context.Update: for inputs below 2^32 bytes on which the loop counter does not overflow; character translation is left out.
- Sha1.Context.Update: the count is a 32-bit number in the source, so inputs below 2^32 bytes.
- Base64.EncodeQueryFits: sizes do not wrap, so APR_ENOSPC of the size queries, and the assertions of the older functions that a length fits in an int, are left out.
- DbdPrepare.Prepare: queries of at most INT_MAX characters; a driver without a parameter format, and the driver's own prepare, are left out. The format is a fixed text or one with a single %d.
- DbdBind.Bbind: how a value is formatted and how a large object's size is read are parameters.
- Passwd.BcryptValidates: Eksblowfish is a function of key, subtype, cost and salt; the self-test passes.
- Passwd.Apr1Validates: the 1000 rounds of MD5 are one function of password and salt; crypt() for other hashes is a parameter of `Validate`.
- Database, DBM and crypto back ends, pipe, socket and mmap buckets, apr_brigade_vprintf, EBCDIC variants, mutexes, DSO loading and UUIDs: wrappers over the operating system or other libraries, or small and without hard properties.
- The compression rounds of the digests, the Eksblowfish rounds and SipHash: straight-line arithmetic that nothing here depends on.
