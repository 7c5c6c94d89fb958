/**
 * Path naming in the upload server: the per-file chunk directory and the
 * name of the assembled file.  The upload root directory is the same for
 * every name, so names are modelled relative to it.
 */
module Naming {

  /** Prefix of every chunk directory. */
  const CHUNK_DIR_PREFIX: string := "chunkDir_"

  /** The directory that holds the chunks of the file whose content hash is `fileHash`. */
  function ChunkDir(fileHash: string): (d: string)
    ensures |d| == |CHUNK_DIR_PREFIX| + |fileHash|
    ensures d[..|CHUNK_DIR_PREFIX|] == CHUNK_DIR_PREFIX && d[|CHUNK_DIR_PREFIX|..] == fileHash
  {
    CHUNK_DIR_PREFIX + fileHash
  }

  /** Distinct content hashes never share a chunk directory. */
  lemma ChunkDirInjective(h1: string, h2: string)
    requires ChunkDir(h1) == ChunkDir(h2)
    ensures h1 == h2
  {
    assert h1 == ChunkDir(h1)[|CHUNK_DIR_PREFIX|..];
    assert h2 == ChunkDir(h2)[|CHUNK_DIR_PREFIX|..];
  }

  /**
   * JavaScript's `String.prototype.lastIndexOf` for one character:
   * the position of the last occurrence of `c`, or -1 when there is none.
   */
  function LastIndexOf(s: string, c: char): (r: int)
    ensures -1 <= r < |s|
    ensures r == -1 <==> c !in s
    ensures r >= 0 ==> s[r] == c && c !in s[r + 1..]
  {
    if s == [] then -1
    else if s[|s| - 1] == c then |s| - 1
    else
      var r := LastIndexOf(s[..|s| - 1], c);
      assert s[..|s| - 1][r + 1..] + [s[|s| - 1]] == s[r + 1..];
      r
  }

  /**
   * How `String.prototype.slice` reads one of its arguments: a negative
   * position counts back from the end, and the result is clamped to [0, len].
   */
  function ClampPosition(i: int, len: nat): (r: nat)
    ensures r <= len
    ensures 0 <= i <= len ==> r == i
    ensures i < 0 && len + i >= 0 ==> r == len + i
    ensures i > len ==> r == len
    ensures len + i < 0 ==> r == 0
  {
    if i < 0 then (if len + i < 0 then 0 else len + i)
    else if i > len then len
    else i
  }

  /** JavaScript's `String.prototype.slice(start, end)`. */
  function Slice(s: string, start: int, end: int): (r: string)
    ensures |r| <= |s|
    ensures 0 <= start <= end <= |s| ==> r == s[start..end]
    ensures -|s| <= start < 0 && end == |s| ==> r == s[|s| + start..]
    ensures r == [] <==> ClampPosition(start, |s|) >= ClampPosition(end, |s|)
  {
    var from, to := ClampPosition(start, |s|), ClampPosition(end, |s|);
    if from < to then s[from..to] else []
  }

  /**
   * `extractExt`: the slice of `filename` from its last '.' to its end.
   * When there is no '.', `lastIndexOf` yields -1, which `slice` reads as
   * "one before the end": the result is then the last character.
   */
  function ExtractExt(filename: string): (ext: string)
    ensures |ext| <= |filename| && ext == filename[|filename| - |ext|..]
    ensures '.' in filename ==> |ext| >= 1 && ext[0] == '.' && '.' !in ext[1..]
    ensures '.' !in filename && filename != [] ==> ext == [filename[|filename| - 1]]
    ensures filename == [] ==> ext == []
  {
    Slice(filename, LastIndexOf(filename, '.'), |filename|)
  }

  /**
   * The name of the assembled file: the content hash followed by the
   * extension of the client's file name.  The verify, merge and chunk
   * handlers all compute it this way.
   */
  function FinalFileName(fileHash: string, filename: string): (name: string)
    ensures |name| == |fileHash| + |ExtractExt(filename)| <= |fileHash| + |filename|
    ensures name[..|fileHash|] == fileHash && name[|fileHash|..] == ExtractExt(filename)
  {
    fileHash + ExtractExt(filename)
  }

  /**
   * The final name keeps nothing of the client's file name except its
   * extension: two uploads of the same content with the same extension
   * share one final file, whatever the rest of their names.
   */
  lemma FinalFileNameByExtension(fileHash: string, f1: string, f2: string)
    requires ExtractExt(f1) == ExtractExt(f2)
    ensures FinalFileName(fileHash, f1) == FinalFileName(fileHash, f2)
    ensures FinalFileName(fileHash, f1)[..|fileHash|] == fileHash
  {
  }

  /**
   * For content hashes of one fixed length (the client's hashes are all
   * hexadecimal digests of the same length), the final name determines
   * both the hash and the extension.
   */
  lemma FinalFileNameInjective(h1: string, f1: string, h2: string, f2: string)
    requires |h1| == |h2|
    requires FinalFileName(h1, f1) == FinalFileName(h2, f2)
    ensures h1 == h2 && ExtractExt(f1) == ExtractExt(f2)
  {
    var n := FinalFileName(h1, f1);
    assert h1 == n[..|h1|] && ExtractExt(f1) == n[|h1|..];
    assert h2 == n[..|h2|] && ExtractExt(f2) == n[|h2|..];
  }

  /**
   * A file name without '.' contributes its last character: "Makefile"
   * and "archive" end up with the same final name.
   */
  lemma DotlessNamesShareLastCharacter(fileHash: string)
    ensures FinalFileName(fileHash, "Makefile") == fileHash + "e"
    ensures FinalFileName(fileHash, "Makefile") == FinalFileName(fileHash, "archive")
  {
    assert '.' !in "Makefile" && '.' !in "archive";
  }
}
