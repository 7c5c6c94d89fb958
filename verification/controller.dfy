/**
 * The upload server's request handlers over the upload directory.  The
 * directory holds two kinds of entries: one chunk directory per content
 * hash (named by `ChunkDir`), mapping chunk names to their bytes, and the
 * assembled files (named by `FinalFileName`).
 */
module Controller {
  import opened Naming
  import opened ChunkIndex
  import opened Layout

  /** The metadata file macOS leaves in directories; merge skips it. */
  const DS_STORE: string := ".DS_Store"

  /** The content of one chunk directory: chunk name to chunk bytes. */
  type Dir = map<string, Bytes>

  /** Everything the handlers read and write under the upload directory. */
  datatype Store = Store(chunkDirs: map<string, Dir>, files: map<string, Bytes>)

  /** The outcome of parsing a chunk upload's multipart form. */
  datatype FormData =
    | ParseError
    | Parsed(chunk: Bytes, hash: string, fileHash: string, filename: string)

  /** The replies of the chunk handler, by their message. */
  datatype FormReply = ProcessFailed | FileExist | ChunkExist | ChunkReceived

  /** The reply of the verify handler: `isUpload`, and `uploadedList` when false. */
  datatype VerifyReply = Uploaded | NotUploaded(uploadedList: seq<string>)

  /** The merge handler replies "merge success", or its promise rejects and it never replies. */
  datatype MergeReply = MergeSuccess | Rejected

  /** The chunk directory `d` as `fs.readdir` would see it: empty when absent. */
  function DirOf(s: Store, d: string): Dir
  {
    if d in s.chunkDirs then s.chunkDirs[d] else map[]
  }

  /** The store after writing `chunk` as entry `name` of chunk directory `d`, created when missing. */
  function Put(s: Store, d: string, name: string, chunk: Bytes): (s': Store)
    ensures s'.files == s.files
    ensures DirOf(s', d) == DirOf(s, d)[name := chunk]
  {
    s.(chunkDirs := s.chunkDirs[d := DirOf(s, d)[name := chunk]])
  }

  /** A write leaves every other chunk directory as it was. */
  lemma PutElsewhere(s: Store, d: string, name: string, chunk: Bytes, e: string)
    requires e != d
    ensures DirOf(Put(s, d, name, chunk), e) == DirOf(s, e)
  {
  }

  /** Writes to different entries can be made in either order. */
  lemma PutCommutes(s: Store, d1: string, n1: string, c1: Bytes, d2: string, n2: string, c2: Bytes)
    requires d1 != d2 || n1 != n2
    ensures Put(Put(s, d1, n1, c1), d2, n2, c2) == Put(Put(s, d2, n2, c2), d1, n1, c1)
  {
    if d1 == d2 {
      UpdatesCommute(DirOf(s, d1), n1, c1, n2, c2);
    } else {
      PutElsewhere(s, d1, n1, c1, d2);
      PutElsewhere(s, d2, n2, c2, d1);
      UpdatesCommute(s.chunkDirs, d1, DirOf(s, d1)[n1 := c1], d2, DirOf(s, d2)[n2 := c2]);
    }
  }

  lemma UpdatesCommute<K, V>(m: map<K, V>, k1: K, v1: V, k2: K, v2: V)
    requires k1 != k2
    ensures m[k1 := v1][k2 := v2] == m[k2 := v2][k1 := v1]
  {
  }

  /** The chunk handler as a transition of the store. */
  function Receive(s: Store, form: FormData): (r: (Store, FormReply))
    ensures r.0.files == s.files
    ensures r.0 == s <==> r.1 != ChunkReceived
    ensures r.1 == ProcessFailed <==> form.ParseError?
  {
    match form
    case ParseError => (s, ProcessFailed)
    case Parsed(chunk, hash, fileHash, filename) =>
      var d := ChunkDir(fileHash);
      if FinalFileName(fileHash, filename) in s.files then (s, FileExist)
      else if hash in DirOf(s, d) then (s, ChunkExist)
      else
        assert hash in DirOf(Put(s, d, hash, chunk), d);
        (Put(s, d, hash, chunk), ChunkReceived)
  }

  /**
   * A chunk of a file not yet assembled, under a name not yet stored, is
   * stored under that name in the file's chunk directory (created when
   * missing), and nothing else changes.
   */
  lemma ReceiveStores(s: Store, form: FormData)
    requires form.Parsed?
    requires FinalFileName(form.fileHash, form.filename) !in s.files
    requires form.hash !in DirOf(s, ChunkDir(form.fileHash))
    ensures var (s', reply) := Receive(s, form);
      var d := ChunkDir(form.fileHash);
      && reply == ChunkReceived
      && d in s'.chunkDirs
      && s'.chunkDirs[d] == DirOf(s, d)[form.hash := form.chunk]
      && (forall h :: ChunkDir(h) != d ==> DirOf(s', ChunkDir(h)) == DirOf(s, ChunkDir(h)))
      && s'.files == s.files
  {
    var d := ChunkDir(form.fileHash);
    var s' := Receive(s, form).0;
    forall h | ChunkDir(h) != d ensures DirOf(s', ChunkDir(h)) == DirOf(s, ChunkDir(h)) {
    }
  }

  /** Once the assembled file exists, every chunk upload for it is answered "file exist!" and ignored. */
  lemma ReceiveAfterAssembly(s: Store, form: FormData)
    requires form.Parsed? && FinalFileName(form.fileHash, form.filename) in s.files
    ensures Receive(s, form) == (s, FileExist)
  {
  }

  /**
   * A chunk whose name is already stored in its file's chunk directory is
   * answered "chunk exist!" and the store is left exactly as it was.
   */
  lemma ReceiveDuplicate(s: Store, form: FormData)
    requires form.Parsed? && FinalFileName(form.fileHash, form.filename) !in s.files
    requires form.hash in DirOf(s, ChunkDir(form.fileHash))
    ensures Receive(s, form) == (s, ChunkExist)
  {
  }

  /**
   * Re-sending a chunk (say after a lost acknowledgement) changes nothing
   * more: the second delivery is answered without a write.
   */
  lemma ReceiveIdempotent(s: Store, form: FormData)
    ensures var s1 := Receive(s, form).0;
      Receive(s1, form).0 == s1 && Receive(s1, form).1 != ChunkReceived
  {
  }

  /** Two deliveries under one chunk name: the first write wins. */
  lemma ReceiveFirstWriteWins(s: Store, first: FormData, second: FormData)
    requires first.Parsed? && second.Parsed?
    requires first.fileHash == second.fileHash && first.hash == second.hash
    requires Receive(s, first).1 == ChunkReceived
    ensures var s2 := Receive(Receive(s, first).0, second).0;
      s2.chunkDirs[ChunkDir(first.fileHash)][first.hash] == first.chunk
  {
  }

  /** Receiving a chunk never removes or rewrites a chunk already stored. */
  lemma ReceiveKeepsStoredChunks(s: Store, form: FormData, d: string, name: string)
    requires d in s.chunkDirs && name in s.chunkDirs[d]
    ensures var s' := Receive(s, form).0;
      d in s'.chunkDirs && name in s'.chunkDirs[d] && s'.chunkDirs[d][name] == s.chunkDirs[d][name]
  {
    if form.Parsed? && ChunkDir(form.fileHash) == d {
      if form.hash == name {
        assert Receive(s, form).1 != ChunkReceived;
      }
    }
  }

  /**
   * Chunks under different names may arrive in either order: the store
   * ends the same, so concurrent uploads of different chunks need no lock.
   */
  lemma ReceiveCommutes(s: Store, f1: FormData, f2: FormData)
    requires f1.Parsed? && f2.Parsed?
    requires ChunkDir(f1.fileHash) != ChunkDir(f2.fileHash) || f1.hash != f2.hash
    ensures Receive(Receive(s, f1).0, f2).0 == Receive(Receive(s, f2).0, f1).0
  {
    var (s1, r1) := Receive(s, f1);
    var (s2, r2) := Receive(s, f2);
    ReceiveKeepsOtherReply(s, f1, f2);
    ReceiveKeepsOtherReply(s, f2, f1);
    if r1 == ChunkReceived && r2 == ChunkReceived {
      var d1, d2 := ChunkDir(f1.fileHash), ChunkDir(f2.fileHash);
      ReceivedIsPut(s, f1);
      ReceivedIsPut(s, f2);
      ReceivedIsPut(s1, f2);
      ReceivedIsPut(s2, f1);
      PutCommutes(s, d1, f1.hash, f1.chunk, d2, f2.hash, f2.chunk);
    }
  }

  /** A chunk that is received is stored by `Put`. */
  lemma ReceivedIsPut(s: Store, form: FormData)
    requires form.Parsed? && Receive(s, form).1 == ChunkReceived
    ensures Receive(s, form).0 == Put(s, ChunkDir(form.fileHash), form.hash, form.chunk)
  {
  }

  /** Receiving one chunk does not change how a chunk under another name is answered. */
  lemma ReceiveKeepsOtherReply(s: Store, f1: FormData, f2: FormData)
    requires f1.Parsed? && f2.Parsed?
    requires ChunkDir(f1.fileHash) != ChunkDir(f2.fileHash) || f1.hash != f2.hash
    ensures Receive(Receive(s, f1).0, f2).1 == Receive(s, f2).1
  {
    var d1, d2 := ChunkDir(f1.fileHash), ChunkDir(f2.fileHash);
    if d1 != d2 {
      PutElsewhere(s, d1, f1.hash, f1.chunk, d2);
    }
    assert f2.hash in DirOf(Receive(s, f1).0, d2) <==> f2.hash in DirOf(s, d2);
  }

  /** Each entry once, and exactly the entries of `dir`. */
  ghost predicate ListsExactly(names: seq<string>, dir: Dir)
  {
    && NoDuplicates(names)
    && (forall i :: 0 <= i < |names| ==> names[i] in dir)
    && (forall x :: x in dir ==> x in names)
  }

  /**
   * `fs.readdir`: the names in a directory, each once, in an order the
   * file system chooses (here: any order).
   */
  method ReadDir(dir: Dir) returns (names: seq<string>)
    ensures ListsExactly(names, dir)
  {
    names := [];
    var rest := dir.Keys;
    while rest != {}
      invariant forall x :: x in dir <==> x in names || x in rest
      invariant forall x :: x in names ==> x !in rest
      invariant NoDuplicates(names)
      decreases rest
    {
      var x :| x in rest;
      names := names + [x];
      rest := rest - {x};
    }
  }

  /** `chunkPaths.filter((item) => item !== '.DS_Store')`. */
  function WithoutDsStore(names: seq<string>): (r: seq<string>)
    ensures forall x :: x in r <==> x in names && x != DS_STORE
    ensures NoDuplicates(names) ==> NoDuplicates(r)
  {
    if names == [] then []
    else
      var rest := WithoutDsStore(names[1..]);
      assert NoDuplicates(names) ==> names[0] !in names[1..];
      (if names[0] == DS_STORE then [] else [names[0]]) + rest
  }

  /** The bytes of the named chunks, in the order named. */
  function ChunksOf(dir: Dir, names: seq<string>): (chunks: seq<Bytes>)
    requires forall i :: 0 <= i < |names| ==> names[i] in dir
  {
    seq(|names|, i requires 0 <= i < |names| => dir[names[i]])
  }

  /**
   * The list merge writes from: every entry of the chunk directory except
   * `.DS_Store`, once each, ascending by index.
   */
  ghost predicate IsMergeOrder(order: seq<string>, dir: Dir)
  {
    ListsExactly(order, dir - {DS_STORE}) && SortedByIndex(order)
  }

  /**
   * What one merge does, given the order in which it sorted the chunk
   * names: chunk number k of that list is written at byte `k * size` of
   * the final file, which is replaced unless there was nothing to write;
   * chunk directories stay as they are.
   */
  ghost predicate MergedWith(s: Store, s': Store, finalName: string, fileHash: string, size: nat, order: seq<string>)
  {
    var d := ChunkDir(fileHash);
    && d in s.chunkDirs
    && IsMergeOrder(order, s.chunkDirs[d])
    && s'.chunkDirs == s.chunkDirs
    && s'.files == if order == [] then s.files
                   else s.files[finalName := LayOut(ChunksOf(s.chunkDirs[d], order), size)]
  }

  /**
   * Every merge writes the chunks in one and the same order when no two of
   * them share an index, whatever order the directory listing came in.
   */
  lemma MergeDeterministic(s: Store, s1: Store, s2: Store, finalName: string, fileHash: string, size: nat,
                           o1: seq<string>, o2: seq<string>)
    requires MergedWith(s, s1, finalName, fileHash, size, o1)
    requires MergedWith(s, s2, finalName, fileHash, size, o2)
    requires DistinctIndices(o1)
    ensures o1 == o2 && s1 == s2
  {
    SortedOrderUnique(o1, o2);
  }

  /**
   * When the chunk directory holds, besides any `.DS_Store`, exactly the
   * chunks named in `names`, sorted by distinct indices, merge writes them
   * in that order.
   */
  lemma MergeFollowsIndexOrder(s: Store, s': Store, finalName: string, fileHash: string, size: nat,
                               order: seq<string>, names: seq<string>)
    requires MergedWith(s, s', finalName, fileHash, size, order)
    requires IsMergeOrder(names, s.chunkDirs[ChunkDir(fileHash)]) && DistinctIndices(names)
    ensures order == names
  {
    SortedOrderUnique(names, order);
  }

  /** The names the client gives the chunks 0, 1, ..., n - 1 of one file. */
  function ChunkNames(fileHash: string, n: nat): (names: seq<string>)
  {
    seq(n, i requires 0 <= i => ChunkName(fileHash, i))
  }

  lemma ChunkNamesInOrder(fileHash: string, n: nat)
    requires DASH !in fileHash
    ensures forall i :: 0 <= i < n ==> IndexOf(ChunkNames(fileHash, n)[i]) == i
    ensures NoDuplicates(ChunkNames(fileHash, n))
    ensures SortedByIndex(ChunkNames(fileHash, n)) && DistinctIndices(ChunkNames(fileHash, n))
  {
    var names := ChunkNames(fileHash, n);
    forall i | 0 <= i < n ensures IndexOf(names[i]) == i {
      ChunkNameIndex(fileHash, i);
    }
  }

  /**
   * A chunk directory holding, besides any `.DS_Store`, exactly the chunks
   * named 0..n-1 by the client is laid out in index order.
   */
  lemma {:induction false} CompleteDirLaysOutInOrder(dir: Dir, order: seq<string>, fileHash: string, size: nat,
                                                     pieces: seq<Bytes>)
    requires DASH !in fileHash
    requires IsMergeOrder(order, dir)
    requires ListsExactly(ChunkNames(fileHash, |pieces|), dir - {DS_STORE})
    requires forall i :: 0 <= i < |pieces| ==> dir[ChunkNames(fileHash, |pieces|)[i]] == pieces[i]
    ensures |order| == |pieces| && ChunksOf(dir, order) == pieces
  {
    var names := ChunkNames(fileHash, |pieces|);
    ChunkNamesInOrder(fileHash, |pieces|);
    SortedOrderUnique(names, order);
  }

  /**
   * End to end: once every chunk 0..n-1 of a file has been received under
   * the client's names, and every chunk but the last is `size` bytes, merge
   * writes exactly the chunks concatenated, whatever order they arrived in.
   */
  lemma CompleteUploadMergesToConcat(s: Store, s': Store, finalName: string, fileHash: string, size: nat,
                                     order: seq<string>, pieces: seq<Bytes>)
    requires DASH !in fileHash
    requires MergedWith(s, s', finalName, fileHash, size, order)
    requires pieces != [] && Framed(pieces, size)
    requires ListsExactly(ChunkNames(fileHash, |pieces|), s.chunkDirs[ChunkDir(fileHash)] - {DS_STORE})
    requires forall i :: 0 <= i < |pieces| ==>
               s.chunkDirs[ChunkDir(fileHash)][ChunkNames(fileHash, |pieces|)[i]] == pieces[i]
    ensures finalName in s'.files && s'.files[finalName] == Concat(pieces)
  {
    CompleteDirLaysOutInOrder(s.chunkDirs[ChunkDir(fileHash)], order, fileHash, size, pieces);
    LayOutIsConcat(pieces, size);
  }

  /**
   * No completeness check, and offsets by sorted position: with chunk 1
   * missing, chunk 2 is written right after chunk 0, at byte `size`
   * instead of `2 * size`, and the merge still succeeds.
   */
  lemma MissingChunkShiftsLaterChunks(dir: Dir, order: seq<string>, fileHash: string, size: nat,
                                      first: Bytes, third: Bytes)
    requires DASH !in fileHash
    requires IsMergeOrder(order, dir)
    requires |first| == size
    requires ListsExactly([ChunkName(fileHash, 0), ChunkName(fileHash, 2)], dir - {DS_STORE})
    requires ChunkName(fileHash, 0) in dir && dir[ChunkName(fileHash, 0)] == first
    requires ChunkName(fileHash, 2) in dir && dir[ChunkName(fileHash, 2)] == third
    ensures LayOut(ChunksOf(dir, order), size) == first + third
  {
    var n0, n2 := ChunkName(fileHash, 0), ChunkName(fileHash, 2);
    assert IndexOf(n0) < IndexOf(n2) by {
      ChunkNameIndex(fileHash, 0);
      ChunkNameIndex(fileHash, 2);
    }
    TwoNamesInIndexOrder(dir, order, n0, n2);
    assert ChunksOf(dir, order) == [first, third];
    LayOutOfTwo(first, third, size);
  }

  /** A directory of two chunks of increasing index is merged in that order. */
  lemma TwoNamesInIndexOrder(dir: Dir, order: seq<string>, lo: string, hi: string)
    requires IsMergeOrder(order, dir)
    requires ListsExactly([lo, hi], dir - {DS_STORE})
    requires IndexOf(lo) < IndexOf(hi)
    ensures order == [lo, hi]
  {
    var names := [lo, hi];
    SameEntries(names, order, dir - {DS_STORE});
    TwoNamesSorted(lo, hi, IndexOf);
    SortedOrderUnique(names, order);
  }

  lemma TwoNamesSorted(lo: string, hi: string, key: string -> nat)
    requires key(lo) < key(hi)
    ensures SortedBy([lo, hi], key) && DistinctBy([lo, hi], key)
  {
  }

  /** Two complete listings of one directory hold the same names. */
  lemma SameEntries(a: seq<string>, b: seq<string>, dir: Dir)
    requires ListsExactly(a, dir) && ListsExactly(b, dir)
    ensures forall x :: x in a <==> x in b
  {
    forall x ensures x in a <==> x in b {
      if x in a {
        var i :| 0 <= i < |a| && a[i] == x;
      }
      if x in b {
        var i :| 0 <= i < |b| && b[i] == x;
      }
    }
  }

  /** Two chunks written at 0 and `size`, the first exactly `size` bytes long, end up back to back. */
  lemma LayOutOfTwo(first: Bytes, second: Bytes, size: nat)
    requires |first| == size
    ensures LayOut([first, second], size) == first + second
  {
    LayOutIsConcat([first, second], size);
    assert [first, second][..1] == [first];
    assert Concat([first]) == first by {
      assert [first][..0] == [];
    }
  }

  /**
   * The first half of `mergeChunk`: `readdir`, the `.DS_Store` filter and
   * the in-place sort by index.
   */
  method SortedChunkNames(dir: Dir) returns (order: seq<string>)
    ensures IsMergeOrder(order, dir)
  {
    var listing := ReadDir(dir);
    var names := WithoutDsStore(listing);
    var a := new string[|names|](i requires 0 <= i < |names| => names[i]);
    assert a[..] == names;
    SortByIndex(a);
    order := a[..];
    PermutationKeepsNoDuplicates(names, order);
    forall x ensures x in order <==> x in dir - {DS_STORE} {
      assert x in order <==> x in multiset(order);
      assert x in names <==> x in multiset(names);
    }
  }

  /**
   * The second half of `mergeChunk`: one write per chunk into the shared
   * output, chunk number k of `order` at byte `k * size`.
   */
  method WriteChunks(dir: Dir, order: seq<string>, size: nat) returns (buf: Bytes)
    requires forall i :: 0 <= i < |order| ==> order[i] in dir
    ensures buf == LayOut(ChunksOf(dir, order), size)
  {
    ghost var chunks := ChunksOf(dir, order);
    buf := [];
    for k := 0 to |order|
      invariant buf == WriteInOrder(chunks, size, Range(k))
    {
      assert Range(k + 1)[..k] == Range(k);
      buf := WriteAt(buf, k * size, dir[order[k]]);
    }
  }

  /** The upload directory: the state every handler reads and changes. */
  class UploadTarget {
    var chunkDirs: map<string, Dir>
    var files: map<string, Bytes>

    constructor ()
      ensures chunkDirs == map[] && files == map[]
    {
      chunkDirs := map[];
      files := map[];
    }

    /** The store as a value. */
    function Snapshot(): (s: Store)
      reads this
    {
      Store(chunkDirs, files)
    }

    /** `createUploadedList`: the raw listing of the chunk directory, or [] when it is absent. */
    method CreateUploadedList(fileHash: string) returns (names: seq<string>)
      ensures ListsExactly(names, DirOf(Snapshot(), ChunkDir(fileHash)))
      ensures ChunkDir(fileHash) !in chunkDirs ==> names == []
    {
      var d := ChunkDir(fileHash);
      if d in chunkDirs {
        names := ReadDir(chunkDirs[d]);
      } else {
        names := [];
      }
    }

    /**
     * `handleVerifyUpload`: whether the assembled file exists, and if not
     * every entry of the chunk directory (`.DS_Store` included), each once.
     * It changes nothing.
     */
    method HandleVerifyUpload(filename: string, fileHash: string) returns (reply: VerifyReply)
      ensures reply.Uploaded? <==> FinalFileName(fileHash, filename) in files
      ensures reply.NotUploaded? ==>
        ListsExactly(reply.uploadedList, DirOf(Snapshot(), ChunkDir(fileHash)))
    {
      var filePath := FinalFileName(fileHash, filename);
      if filePath in files {
        reply := Uploaded;
      } else {
        var list := CreateUploadedList(fileHash);
        reply := NotUploaded(list);
      }
    }

    /**
     * `handleFormData`: a parse error is answered with an error; otherwise
     * the chunk is ignored when the assembled file exists or a chunk of
     * that name is stored, and stored in the chunk directory otherwise.
     */
    method HandleFormData(form: FormData) returns (reply: FormReply)
      modifies this
      ensures (Snapshot(), reply) == Receive(old(Snapshot()), form)
    {
      ghost var before := Snapshot();
      if form.ParseError? {
        return ProcessFailed;
      }
      var filePath := FinalFileName(form.fileHash, form.filename);
      var chunkDir := ChunkDir(form.fileHash);
      if filePath in files {
        return FileExist;
      }
      if chunkDir in chunkDirs && form.hash in chunkDirs[chunkDir] {
        assert form.hash in DirOf(before, chunkDir);
        return ChunkExist;
      }
      assert Receive(before, form) == (Put(before, chunkDir, form.hash, form.chunk), ChunkReceived);
      if chunkDir !in chunkDirs {
        chunkDirs := chunkDirs[chunkDir := map[]];
      }
      assert chunkDirs[chunkDir] == DirOf(before, chunkDir);
      chunkDirs := chunkDirs[chunkDir := chunkDirs[chunkDir][form.hash := form.chunk]];
      reply := ChunkReceived;
      assert chunkDirs == Put(before, chunkDir, form.hash, form.chunk).chunkDirs;
    }

    /**
     * `mergeChunk`: list the chunk directory, drop `.DS_Store`, sort by
     * index, and write the chunk at sorted position k at byte `k * size` of
     * the file `filePath`.  Fails, changing nothing, when the chunk
     * directory does not exist.
     */
    method MergeChunk(filePath: string, fileHash: string, size: nat) returns (merged: bool, order: seq<string>)
      requires size > 0
      requires ChunkDir(fileHash) in chunkDirs ==>
        forall x :: x in chunkDirs[ChunkDir(fileHash)] && x != DS_STORE ==> WellNamed(x)
      modifies this
      ensures merged <==> ChunkDir(fileHash) in old(chunkDirs)
      ensures merged ==> MergedWith(old(Snapshot()), Snapshot(), filePath, fileHash, size, order)
      ensures !merged ==> Snapshot() == old(Snapshot())
    {
      var d := ChunkDir(fileHash);
      if d !in chunkDirs {
        return false, [];
      }
      var dir := chunkDirs[d];
      order := SortedChunkNames(dir);
      var buf := WriteChunks(dir, order, size);
      if order != [] {
        files := files[filePath := buf];
      }
      merged := true;
    }

    /**
     * `handleMerge`: merge into the file named by the content hash and the
     * extension, and reply "merge success"; when the chunk directory does
     * not exist the merge rejects, nothing changes and no reply is sent.
     */
    method HandleMerge(filename: string, size: nat, fileHash: string) returns (reply: MergeReply)
      requires size > 0
      requires ChunkDir(fileHash) in chunkDirs ==>
        forall x :: x in chunkDirs[ChunkDir(fileHash)] && x != DS_STORE ==> WellNamed(x)
      modifies this
      ensures reply == MergeSuccess <==> ChunkDir(fileHash) in old(chunkDirs)
      ensures reply == MergeSuccess ==> exists order ::
        MergedWith(old(Snapshot()), Snapshot(), FinalFileName(fileHash, filename), fileHash, size, order)
      ensures reply == Rejected ==> Snapshot() == old(Snapshot())
    {
      var filePath := FinalFileName(fileHash, filename);
      var merged, order := MergeChunk(filePath, fileHash, size);
      reply := if merged then MergeSuccess else Rejected;
    }
  }
}
