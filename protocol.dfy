/**
 * How the page and the endpoint fit together: the chunks the page cuts out
 * of a file, stored under "<name>.part<idx>" and concatenated by finalize in
 * index order, give back the file; both requests of one upload name the
 * parts alike; and a file of zero bytes never gets past finalize.
 */
module Protocol {
  import opened Common
  import opened UploadNames
  import opened UploadChunk
  import opened UploadClient

  /** file.slice(chunkStart, chunkEnd): the bytes the page sends as chunk idx. */
  function FileSlice(file: Bytes, idx: nat): (r: Bytes)
    requires idx < TotalChunks(|file|)
    ensures |r| == ChunkLength(idx, |file|)
  {
    ChunkTiling(|file|, idx);
    file[ChunkStart(idx)..ChunkEnd(idx, |file|)]
  }

  /** The directory holds, under parts 0 .. TotalChunks-1 of name, the slices of file. */
  predicate HoldsSlices(dir: Dir, name: string, file: Bytes) {
    forall i :: 0 <= i < TotalChunks(|file|) ==>
      PartName(name, i) in dir && dir[PartName(name, i)] == FileSlice(file, i)
  }

  /** After n parts the assembly is the file's first min(n * CHUNK_SIZE, size) bytes. */
  lemma {:induction false} AssembledSlices(dir: Dir, name: string, file: Bytes, n: nat)
    requires HoldsSlices(dir, name, file) && n <= TotalChunks(|file|)
    ensures PartsPresent(dir, name, n)
    ensures Assembled(dir, name, n) == file[..Min(n * ChunkSize, |file|)]
  {
    if n > 0 {
      AssembledSlices(dir, name, file, n - 1);
      ChunkTiling(|file|, n - 1);
      var lo := Min((n - 1) * ChunkSize, |file|);
      assert lo == ChunkStart(n - 1);
      var hi := ChunkEnd(n - 1, |file|);
      assert hi == Min(n * ChunkSize, |file|);
      assert file[..lo] + file[lo..hi] == file[..hi];
    }
  }

  /** Finalize's concatenation of the slices the page sent is the file itself. */
  lemma ReassemblyRestoresFile(dir: Dir, name: string, file: Bytes)
    requires HoldsSlices(dir, name, file)
    ensures PartsPresent(dir, name, TotalChunks(|file|))
    ensures Assembled(dir, name, TotalChunks(|file|)) == file
  {
    AssembledSlices(dir, name, file, TotalChunks(|file|));
    assert file[..|file|] == file;
  }

  /**
   * A fileName the pattern turns into a usable name is sanitized the same way
   * by the store request and by the finalize request, whatever the clock
   * says at each, and finalize's second sanitizing changes nothing.
   */
  lemma RequestsAgreeOnName(fileName: string, storeStamp: string, finalizeStamp: string)
    requires IsStamp(storeStamp) && IsStamp(finalizeStamp)
    requires IsSafeName(ReplaceRuns(fileName))
    ensures FinalizeName(Some(fileName), finalizeStamp) == SanitizeName(fileName, storeStamp)
    ensures SanitizeName(FinalizeName(Some(fileName), finalizeStamp), finalizeStamp) ==
      SanitizeName(fileName, storeStamp)
  {
    SanitizeIdempotent(fileName, finalizeStamp, finalizeStamp);
  }

  /**
   * A fileName that sanitizes to the fallback ("", "." or "..") is named after
   * the clock: a store and a finalize in different seconds look for their
   * parts under different names.
   */
  lemma FallbackNamesDependOnClock(fileName: string, stamp1: string, stamp2: string)
    requires IsStamp(stamp1) && IsStamp(stamp2) && stamp1 != stamp2
    requires !IsSafeName(ReplaceRuns(fileName))
    ensures SanitizeName(fileName, stamp1) != SanitizeName(fileName, stamp2)
    ensures PartName(SanitizeName(fileName, stamp1), 0) != PartName(SanitizeName(fileName, stamp2), 0)
  {
    var a := SanitizeName(fileName, stamp1);
    var b := SanitizeName(fileName, stamp2);
    assert a == FallbackName(stamp1) && b == FallbackName(stamp2);
    assert a[7..] == stamp1 && b[7..] == stamp2;
    var pa := PartName(a, 0);
    var pb := PartName(b, 0);
    assert pa[..|a|] == a && pb[..|b|] == b;
  }

  /**
   * The page's finalize request for a file passes finalize's parameter check
   * exactly when the file is not empty: a zero-byte file has no chunks, and
   * finalize refuses a total below one.
   */
  lemma FinalizeAcceptsOnlyNonEmptyFiles(f: FileInfo)
    ensures FinalizeParamsOk(StableId(f), TotalChunks(f.size)) <==> f.size > 0
  {
    assert |StableId(f)| > 0;
  }
}
