# Resumable chunked upload server: a Dafny model

This project models the server side of a resumable chunked file upload
(`server/controller.js`). A client cuts a file into chunks and posts
each chunk in its own request; the requests are independent and may
arrive in any order. The merge comparator (`server/controller.js:39`)
assumes each chunk is named `<fileHash>-<index>`. The server keeps the
chunks in a chunk directory per content hash. On request it reports
which chunks it already holds, and it merges the chunks into the final
file named by the content hash and the file's extension.

The upload directory is modelled as two maps:

- `chunkDirs`: the directory name `chunkDir_<fileHash>` mapped to that
  directory's content, a map from chunk name to bytes;
- `files`: the final-file name `<fileHash><ext>` mapped to the file's bytes.

The handlers are methods of the class `Controller.UploadTarget`, which
holds these two maps as fields. The chunk handler is also written as a
pure transition `Controller.Receive` over a `Store` value, and the
method's contract ties it to that function. The lemmas about
receiving chunks (idempotence, first write wins, commutation) are stated
over `Receive`.

Merge runs in two steps:

1. `SortedChunkNames` reads the directory listing (in an order the file
   system chooses), drops `.DS_Store`, copies the names into an array and
   sorts the array in place by index.
2. `WriteChunks` writes the chunk at sorted position `k` at byte
   `k * size` of a byte buffer, one write after another.

`Layout` proves that when every chunk but the last is `size` bytes long,
any order of these writes gives the chunks concatenated. That is why a
sequential loop models the concurrent writes in the runs where every
write stream is opened (and so truncates the file) before any chunk is
written; other interleavings are listed under "Left out".

The model keeps the source's quirks:

- A file name without a '.' contributes its last character as its
  "extension".
- Merge offsets come from the sorted position, not from the parsed index.
- Merge does not check that every chunk is present.
- The verify handler lists `.DS_Store` like any other entry.

Files:

- `naming.dfy`: chunk directory names, `lastIndexOf`/`slice`, `extractExt` and the final-file name.
- `chunk_index.dfy`: `split('-')`, the decimal reading of an index, the in-place comparator sort, and the uniqueness of the sorted order.
- `layout.dfy`: byte buffers written at offsets, and why the write order does not matter.
- `controller.dfy`: the store, the handlers, and the lemmas about receiving and merging.

## Model

| member | source | states |
|---|---|---|
| Naming.ChunkDir | server/controller.js:7-8 | the directory name is the prefix `chunkDir_` followed by the whole content hash |
| Naming.ChunkDirInjective | server/controller.js:7-8 | two content hashes share a chunk directory only when they are equal |
| Naming.LastIndexOf | server/controller.js:11 | -1 exactly when the character is absent; otherwise an occurrence with none after it |
| Naming.ClampPosition | server/controller.js:11 | how `slice` reads a position: in-range positions are kept, negative ones count back from the end, positions past the end become len, positions before the start become 0 |
| Naming.Slice | server/controller.js:11 | an in-range slice is the substring; a negative start with end = length takes the last characters; the result is empty exactly when the clamped start is not before the clamped end |
| Naming.ExtractExt | server/controller.js:10-11 | the result is a suffix of the name; with a '.', it starts at a '.' and contains no other '.'; without one, it is the last character; for "" it is "" |
| Naming.FinalFileName | server/controller.js:73-76 | the final name is the content hash followed by the extension, and is no longer than the hash and the file name together |
| Naming.FinalFileNameByExtension | server/controller.js:73-76 | the final name starts with the content hash and depends on the file name only through its extension |
| Naming.FinalFileNameInjective | server/controller.js:73-76 | for hashes of equal length, equal final names mean equal hashes and equal extensions |
| Naming.DotlessNamesShareLastCharacter | server/controller.js:10-11 | "Makefile" and "archive" both give the final name `<hash>e` |
| ChunkIndex.FirstIndexOf | server/controller.js:39 | -1 exactly when the separator is absent; otherwise its first occurrence |
| ChunkIndex.Split | server/controller.js:39 | no field contains '-' and (with `ChunkIndex.JoinSplit`) the fields joined by '-' give back the name, so field `[1]` is the text between the first and the second '-'; a name without '-' is one field, a name with one has at least two |
| ChunkIndex.JoinSplit | server/controller.js:39 | joining the `split('-')` fields with '-' gives back the name, so no character is lost |
| ChunkIndex.DecimalValue | server/controller.js:39 | the value `Number` gives a field of decimal digits; `ChunkIndex.DecimalRoundTrip` proves it inverts the decimal spelling |
| ChunkIndex.IndexOf | server/controller.js:39 | the comparator key, the second '-'-field read as a number; `ChunkIndex.ChunkNameIndex` proves it reads back `i` from `<hash>-<i>` |
| ChunkIndex.DecimalRoundTrip | server/controller.js:39 | `Number` reads back the decimal spelling of every index |
| ChunkIndex.ChunkNameIndex | server/controller.js:39 | a name `<hash>-<i>` with no '-' in the hash is well formed, and the comparator reads `i` from it |
| ChunkIndex.SortByIndex | server/controller.js:39 | the in-place sort leaves the array ascending by index and a permutation of its old content |
| ChunkIndex.SortBy | server/controller.js:39 | sorting by any numeric key gives an ascending array that is a permutation of the input |
| ChunkIndex.InsertLast | server/controller.js:39 | one insertion step sorts the prefix `a[..i + 1]`, which holds the same elements as before (the old sorted prefix plus `a[i]`), leaves `a[i + 1..]` unchanged and keeps the whole array's multiset |
| ChunkIndex.Swap | server/controller.js:39 | two neighbours exchange places; every other element is unchanged and the multiset is kept |
| ChunkIndex.PermutationKeepsNoDuplicates | server/controller.js:35-39 | sorting a listing without repeats yields a list without repeats |
| ChunkIndex.SortedOrderUnique | server/controller.js:39 | two sorted lists of the same names without repeats, with distinct indices, are equal, whatever the listing order was |
| Layout.WriteAt | server/controller.js:44-66 | a write at an offset puts the data in its range, keeps bytes elsewhere, zero-fills a gap, and extends the file to cover the write; an empty chunk leaves the file as it was |
| Layout.EmptyChunkWritesNothing | server/controller.js:56-66 | an empty chunk after the others leaves the merged file as it was, without padding it to its offset |
| Layout.WriteKeepsRange | server/controller.js:42-51 | a write that misses a byte range leaves that range's content unchanged |
| Layout.WriteInOrder | server/controller.js:42-51 | the file after a given sequence of chunk writes; `Layout.WriteInOrderPlaces` and `Layout.AnyOrderIsConcat` state what it holds |
| Layout.LayOut | server/controller.js:43-47 | merge's writes, chunk k at byte `k * size`; `Layout.LayOutIsConcat` and `Layout.LayOutPlaces` state what it holds |
| Layout.WriteInOrderPlaces | server/controller.js:42-51 | with no overlap between chunks, every non-empty chunk written (in any order, repeats included) sits whole at offset `k * size` |
| Layout.AnyOrderIsConcat | server/controller.js:42-51 | when every chunk but the last is `size` bytes, every write order that covers all chunks produces exactly their concatenation |
| Layout.LayOutIsConcat | server/controller.js:43-47 | merge's own order, chunk k at `k * size`, produces the concatenation |
| Layout.LayOutPlaces | server/controller.js:43-47 | in merge's layout a non-empty chunk at sorted position k occupies bytes `k * size` to `k * size + length` |
| Controller.Put | server/controller.js:165-172 | storing a chunk creates its directory when missing, sets that one entry and leaves the final files alone |
| Controller.PutElsewhere | server/controller.js:165-172 | storing a chunk leaves every other chunk directory unchanged |
| Controller.PutCommutes | server/controller.js:165-172 | stores under different directory and name pairs commute |
| Controller.Receive | server/controller.js:115-178 | the chunk handler never changes the final files; it changes the store exactly when it replies "received file chunk"; it replies with the error exactly on a parse error |
| Controller.ReceiveStores | server/controller.js:165-172 | a chunk of a file not yet assembled, under a name not yet stored, is stored under that name; every other directory and every final file is unchanged |
| Controller.ReceiveAfterAssembly | server/controller.js:143-151 | once the final file exists, the reply is "file exist!" and nothing changes |
| Controller.ReceiveDuplicate | server/controller.js:153-162 | for a file not yet assembled, a chunk whose name is already stored is answered "chunk exist!" and the store is unchanged |
| Controller.ReceiveIdempotent | server/controller.js:154-162 | delivering the same form twice changes nothing the second time |
| Controller.ReceiveFirstWriteWins | server/controller.js:154-162 | after a chunk is stored, a second delivery under the same name keeps the first bytes |
| Controller.ReceiveKeepsStoredChunks | server/controller.js:154-172 | receiving never removes or rewrites a stored chunk |
| Controller.ReceiveKeepsOtherReply | server/controller.js:143-162 | storing one chunk does not change the reply to a chunk under another name |
| Controller.ReceiveCommutes | server/controller.js:143-172 | chunks under different names give the same store in either arrival order |
| Controller.ReadDir | server/controller.js:28 | the listing holds every entry of the directory exactly once, in an order the file system chooses |
| Controller.WithoutDsStore | server/controller.js:37 | the filter keeps exactly the entries other than `.DS_Store`, and a listing without repeats stays without repeats |
| Controller.SortedChunkNames | server/controller.js:35-39 | the merge order is every entry except `.DS_Store`, each once, ascending by index |
| Controller.WriteChunks | server/controller.js:42-51 | the loop's buffer is the layout with chunk k of the sorted list at byte `k * size` |
| Controller.MergedWith | server/controller.js:33-54 | the effect of one merge in a given sorted order; `Controller.UploadTarget.MergeChunk` ensures it |
| Controller.MergeDeterministic | server/controller.js:35-51 | with distinct indices, every merge of one store writes the same order and reaches the same store |
| Controller.MergeFollowsIndexOrder | server/controller.js:35-39 | a directory whose names are known to be sorted by distinct indices is merged in exactly that order |
| Controller.ChunkNamesInOrder | server/controller.js:39 | the client's names for chunks 0..n-1 are distinct and sorted, and their read-back indices are 0..n-1 |
| Controller.CompleteDirLaysOutInOrder | server/controller.js:35-39 | a directory holding exactly chunks 0..n-1 (besides `.DS_Store`) yields those chunks in index order |
| Controller.CompleteUploadMergesToConcat | server/controller.js:33-51 | a complete upload whose chunks are all `size` bytes but the last is merged into exactly their concatenation, whatever order they arrived in |
| Controller.TwoNamesInIndexOrder | server/controller.js:39 | two chunks of increasing index are merged in that order |
| Controller.LayOutOfTwo | server/controller.js:43-47 | two chunks at offsets 0 and `size`, the first `size` bytes long, end up back to back |
| Controller.MissingChunkShiftsLaterChunks | server/controller.js:33-51 | with chunk 1 missing, merge still writes a file, and chunk 2 lands at byte `size` instead of `2 * size` |
| Controller.UploadTarget.CreateUploadedList | server/controller.js:25-31 | the raw listing of the chunk directory (`.DS_Store` included), each entry once; `[]` when the directory is absent |
| Controller.UploadTarget.HandleVerifyUpload | server/controller.js:70-93 | "uploaded" exactly when the final file exists; otherwise the raw listing of the chunk directory; the store is not modified |
| Controller.UploadTarget.HandleFormData | server/controller.js:111-178 | the new store and the reply are those of `Receive` on the old store |
| Controller.UploadTarget.MergeChunk | server/controller.js:33-54 | succeeds exactly when the chunk directory exists; then the final file becomes the layout of the sorted chunks (created only when there is a chunk to write) and chunk directories are unchanged; otherwise nothing changes |
| Controller.UploadTarget.HandleMerge | server/controller.js:95-109 | replies "merge success" exactly when the chunk directory exists, after merging into `<fileHash><ext>`; otherwise the store is unchanged and no reply is sent |

## Left out

- Content hashing on the client (MD5 via SparkMD5, FileReader callbacks, progress percentages): `fileHash` is an opaque string. client/public/hash.js is not part of this model.
- HTTP routing and CORS (server/index.js is not part of this model), JSON body reading in `resolvePost`, the JSON reply bodies and the `code` fields: replies are modelled by their message only.
- `multiparty` form parsing: its outcome is a parameter (`FormData`), with the parse error as one case. A form missing a field would throw in the source; this is not modelled.
- `UPLOAD_DIR` and `path.resolve`: names are keys relative to the upload directory, and no normalisation of `.`, `..` or `/` inside a hash or file name is modelled. A final file and a chunk directory are kept in separate maps, so a final name that equals a chunk directory name is not modelled.
- `fse.move` from multiparty's temporary file: the chunk's bytes arrive in the form. Two requests racing between the existence checks and the move are not modelled: each request is one atomic step.
- `Promise.all` concurrency in merge, the `'w'` open flag truncating the file on each open, and resolving on the read stream's end: merge is a sequential loop of writes into one buffer. This captures only the runs in which every write stream opens, truncating the file, before any chunk is written. A stream that opens after another has written erases those bytes, and those runs are not modelled. Within the modelled runs, `Layout.AnyOrderIsConcat` shows that the write order does not matter when the chunks do not overlap. An existing final file is replaced by the layout.
- Controller.UploadTarget.MergeChunk: requires `size > 0`. With `size` 0 every write would start at byte 0, and the result would depend on the truncation and scheduling that are not modelled.
- Controller.UploadTarget.MergeChunk: requires the second '-'-field of every entry but `.DS_Store` to be a non-empty run of decimal digits. `Number` also reads other fields: "" as 0, "1e3" as 1000, "0x1f" as 31, " 7" as 7, and a name without '-' or with a non-numeric field as NaN, which leaves the engine's sort order unspecified. None of these readings are modelled.
- Controller.UploadTarget.MergeChunk: accepts chunks other than the last that are longer than `size`. Their byte ranges then overlap, and the model lets the later sorted position win. In the source the outcome depends on the order in which the concurrent writes land.
- ChunkIndex.DecimalValue: reads arbitrarily long digit strings exactly; the rounding of `Number` past 2^53 is not modelled.
- ChunkIndex.SortBy: the insertion sort moves an element only past strictly larger keys, so it is stable like the engine's sort, but stability is not stated as a postcondition.
- Naming.ExtractExt: works on Unicode scalar values, while JavaScript strings are UTF-16 code units. For a name with no '.' that ends in a character outside the Basic Multilingual Plane (such as "photo😀"), `slice(-1)` gives a lone low surrogate, while the model gives the whole character. So the final names differ in that case. `LastIndexOf` and `Slice` count positions in characters for the same reason.
- Controller.ReadDir: the listing order is chosen nondeterministically, so contracts hold for every order. The file system's actual order is not modelled.
- Controller.MergeDeterministic: requires distinct indices; two names with the same index may be written in either listing order.
- Controller.UploadTarget.HandleMerge: a rejected merge is modelled as `Rejected` with no change. The unhandled rejection and the request that never gets a reply are not modelled further.
- Deleting the chunks and the chunk directory after a merge is commented out in the source, so it is not modelled: merge leaves the chunk directories as they were.
