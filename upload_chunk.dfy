/**
 * The chunk endpoint (upload_chunk.php) as operations on two finite maps:
 * the staging area, from fileId to the session directory (itself a map from
 * entry name to bytes), and the output area, from file name to bytes.  A
 * session directory exists exactly when its fileId is a key of the staging
 * map.  Each request branch is a method of ChunkStore: Probe, Store and
 * Finalize.
 */
module UploadChunk {
  import opened Common
  import opened UploadNames

  type Dir = map<string, Bytes>

  /** The exceptions the endpoint throws, each answered with ok: false. */
  datatype Error =
    | InvalidFinalizeParams      // finalize without fileId or with totalChunks < 1
    | NoTempDirectory            // finalize for a session with no staging directory
    | MissingChunk(index: nat)   // finalize with a part missing
    | MissingParameters          // chunk store with unusable parameters
    | ChunkUploadError(code: int) // the uploaded chunk is absent or reports an error code
    | TempDirFailed              // the staging directory could not be created
    | SaveFailed                 // the uploaded chunk could not be moved into place

  datatype Result<T> = Ok(value: T) | Err(error: Error)

  /** The success reply of finalize: the stored name and its url. */
  datatype Finalized = Finalized(name: string, url: string)

  /** An entry of $_FILES: PHP's upload error code and the bytes received. */
  datatype UploadedChunk = UploadedChunk(error: int, payload: Bytes)

  /** PHP's UPLOAD_ERR_OK. */
  const UploadErrOk := 0

  /** The outcomes of the filesystem calls of a store that the model does not look into. */
  datatype StoreIO = StoreIO(mkdirOk: bool, moveOk: bool)

  /** The directory prefix of the returned url. */
  const UrlPrefix := "uploads/"

  /** The session directory, or an empty one when there is none yet. */
  function SessionDir(staging: map<string, Dir>, fileId: string): (d: Dir)
    ensures fileId in staging ==> d == staging[fileId]
    ensures fileId !in staging ==> d == map[]
  {
    if fileId in staging then staging[fileId] else map[]
  }

  // ---------------------------------------------------------------------
  // Probe (upload_chunk.php:28-39)

  /** The entries among names that the probe pattern accepts. */
  ghost function PartEntries(names: set<string>): set<string> {
    set f | f in names && PartIndex(f).Some?
  }

  /** The indices the probe pattern reads out of names. */
  ghost function PartValues(names: set<string>): set<nat> {
    set f | f in names && PartIndex(f).Some? :: PartIndex(f).value
  }

  lemma PartEntriesAdd(seen: set<string>, f: string)
    ensures PartEntries(seen + {f}) == PartEntries(seen) + (if PartIndex(f).Some? then {f} else {})
  {
  }

  lemma PartValuesAdd(seen: set<string>, f: string)
    ensures PartValues(seen + {f}) == PartValues(seen) + (if PartIndex(f).Some? then {PartIndex(f).value} else {})
  {
  }

  /** The entries among names from which the probe pattern reads the index v. */
  ghost function PartsWith(names: set<string>, v: nat): set<string> {
    set f | f in names && PartIndex(f) == Some(v)
  }

  lemma PartsWithAdd(seen: set<string>, f: string, v: nat)
    requires f !in seen
    ensures |PartsWith(seen + {f}, v)| == |PartsWith(seen, v)| + (if PartIndex(f) == Some(v) then 1 else 0)
  {
    if PartIndex(f) == Some(v) {
      assert PartsWith(seen + {f}, v) == PartsWith(seen, v) + {f};
    } else {
      assert PartsWith(seen + {f}, v) == PartsWith(seen, v);
    }
  }

  /** One entry more: the probe list grows by that entry's index exactly when the pattern accepts it. */
  lemma ProbeStep(seen: set<string>, f: string, have: seq<nat>)
    requires f !in seen
    requires forall v :: v in have <==> v in PartValues(seen)
    requires |have| == |PartEntries(seen)|
    ensures var have' := if PartIndex(f).Some? then have + [PartIndex(f).value] else have;
      (forall v :: v in have' <==> v in PartValues(seen + {f})) &&
      |have'| == |PartEntries(seen + {f})|
  {
    PartEntriesAdd(seen, f);
    PartValuesAdd(seen, f);
    if PartIndex(f).Some? {
      assert f !in PartEntries(seen);
    }
  }

  /** One entry more keeps every index occurring once per entry it is read from. */
  lemma ProbeCountStep(seen: set<string>, f: string, have: seq<nat>)
    requires f !in seen
    requires forall v: nat :: multiset(have)[v] == |PartsWith(seen, v)|
    ensures var have': seq<nat> := if PartIndex(f).Some? then have + [PartIndex(f).value] else have;
      forall v: nat :: multiset(have')[v] == |PartsWith(seen + {f}, v)|
  {
    var have': seq<nat> := if PartIndex(f).Some? then have + [PartIndex(f).value] else have;
    forall v: nat ensures multiset(have')[v] == |PartsWith(seen + {f}, v)| {
      PartsWithAdd(seen, f, v);
    }
  }

  /** Storing under PartName(name, i) adds exactly i to what a probe reports. */
  lemma ProbeAfterStore(d: Dir, name: string, i: nat, payload: Bytes)
    requires i <= PhpIntMax
    ensures PartValues(d[PartName(name, i) := payload].Keys) == PartValues(d.Keys) + {i}
  {
    var k := PartName(name, i);
    PartIndexOfPartName(name, i);
    assert d[k := payload].Keys == d.Keys + {k};
    assert PartIndex(k) == Some(i);
  }

  // ---------------------------------------------------------------------
  // Finalize (upload_chunk.php:42-90)

  predicate FinalizeParamsOk(fileId: string, total: int) {
    fileId != "" && total >= 1
  }

  /** The sanitized fileName of a finalize request; a missing one defaults to the fallback name. */
  function FinalizeName(fileName: Option<string>, stamp: string): (r: string)
    ensures IsStamp(stamp) ==> IsSafeName(r)
    ensures IsStamp(stamp) && fileName.None? ==> r == FallbackName(stamp)
  {
    SanitizeName(fileName.GetOr(FallbackName(stamp)), stamp)
  }

  /** Parts 0 .. n-1 of name are all in dir. */
  predicate PartsPresent(dir: Dir, name: string, n: nat) {
    forall i :: 0 <= i < n ==> PartName(name, i) in dir
  }

  /** part0 ++ part1 ++ ... ++ part(n-1). */
  function Assembled(dir: Dir, name: string, n: nat): Bytes
    requires PartsPresent(dir, name, n)
  {
    if n == 0 then [] else Assembled(dir, name, n - 1) + dir[PartName(name, n - 1)]
  }

  /** The first m parts form a prefix of the assembly of the first n. */
  lemma {:induction false} AssembledPrefix(dir: Dir, name: string, m: nat, n: nat)
    requires m <= n && PartsPresent(dir, name, n)
    ensures |Assembled(dir, name, m)| <= |Assembled(dir, name, n)|
    ensures Assembled(dir, name, n)[..|Assembled(dir, name, m)|] == Assembled(dir, name, m)
  {
    if m < n {
      AssembledPrefix(dir, name, m, n - 1);
      var a := Assembled(dir, name, n - 1);
      assert (a + dir[PartName(name, n - 1)])[..|a|] == a;
    }
  }

  lemma SliceOfPrefix(whole: Bytes, a: Bytes, p: Bytes)
    requires |a| + |p| <= |whole| && whole[..|a| + |p|] == a + p
    ensures whole[|a|..|a| + |p|] == p
  {
    assert forall t :: 0 <= t < |p| ==> whole[|a| + t] == (a + p)[|a| + t] == p[t];
  }

  /** Part i sits in the assembly right after parts 0 .. i-1, in index order. */
  lemma {:induction false} AssembledPart(dir: Dir, name: string, n: nat, i: nat)
    requires i < n && PartsPresent(dir, name, n)
    ensures var lo := |Assembled(dir, name, i)|;
      lo + |dir[PartName(name, i)]| <= |Assembled(dir, name, n)| &&
      Assembled(dir, name, n)[lo..lo + |dir[PartName(name, i)]|] == dir[PartName(name, i)]
  {
    AssembledPrefix(dir, name, i + 1, n);
    var a := Assembled(dir, name, i);
    var p := dir[PartName(name, i)];
    assert Assembled(dir, name, i + 1) == a + p;
    SliceOfPrefix(Assembled(dir, name, n), a, p);
  }

  /** Only parts 0 .. n-1 of name matter: other entries and higher indices are ignored. */
  lemma {:induction false} AssembledIgnoresOtherEntries(d1: Dir, d2: Dir, name: string, n: nat)
    requires PartsPresent(d1, name, n) && PartsPresent(d2, name, n)
    requires forall i :: 0 <= i < n ==> d1[PartName(name, i)] == d2[PartName(name, i)]
    ensures Assembled(d1, name, n) == Assembled(d2, name, n)
  {
    if n > 0 {
      AssembledIgnoresOtherEntries(d1, d2, name, n - 1);
    }
  }

  /**
   * chosen is the name the collision loop settles on: base if it is free,
   * otherwise the candidate with the smallest k >= 1 that is free.
   */
  ghost predicate IsFirstFree(base: string, taken: set<string>, chosen: string) {
    chosen !in taken &&
    (chosen == base ||
     (base in taken &&
      exists k: nat :: 1 <= k && chosen == Candidate(base, k) &&
        forall j: nat :: 1 <= j < k ==> Candidate(base, j) in taken))
  }

  /** The collision rule picks one name only. */
  lemma FirstFreeUnique(base: string, taken: set<string>, n1: string, n2: string)
    requires IsFirstFree(base, taken, n1) && IsFirstFree(base, taken, n2)
    ensures n1 == n2
  {
    if n1 != base && n2 != base {
      var k1: nat :| 1 <= k1 && n1 == Candidate(base, k1) &&
        forall j: nat :: 1 <= j < k1 ==> Candidate(base, j) in taken;
      var k2: nat :| 1 <= k2 && n2 == Candidate(base, k2) &&
        forall j: nat :: 1 <= j < k2 ==> Candidate(base, j) in taken;
      assert k1 == k2;
    }
  }

  // ---------------------------------------------------------------------

  class ChunkStore {
    /** uploads_tmp: one directory per fileId. */
    var staging: map<string, Dir>
    /** uploads: the assembled files. */
    var output: map<string, Bytes>

    constructor (staging0: map<string, Dir>, output0: map<string, Bytes>)
      ensures staging == staging0 && output == output0
    {
      staging := staging0;
      output := output0;
    }

    /**
     * The probe: the index of every entry of the session directory whose
     * name matches the part pattern, one element per matching entry.  The
     * entries are visited in an unspecified order (scandir's sorted
     * order is not modelled).
     */
    method Probe(fileId: string) returns (have: seq<nat>)
      ensures fileId !in staging ==> have == []
      ensures fileId in staging ==>
        (forall v :: v in have <==> v in PartValues(staging[fileId].Keys)) &&
        |have| == |PartEntries(staging[fileId].Keys)| &&
        (forall v: nat :: multiset(have)[v] == |PartsWith(staging[fileId].Keys, v)|)
    {
      have := [];
      if fileId in staging {
        var dir := staging[fileId];
        var rest := dir.Keys;
        ghost var seen: set<string> := {};
        while rest != {}
          invariant rest + seen == dir.Keys && rest !! seen
          invariant forall v :: v in have <==> v in PartValues(seen)
          invariant |have| == |PartEntries(seen)|
          invariant forall v: nat :: multiset(have)[v] == |PartsWith(seen, v)|
          decreases rest
        {
          var f :| f in rest;
          var m := PartIndex(f);
          ProbeStep(seen, f, have);
          ProbeCountStep(seen, f, have);
          if m.Some? {
            have := have + [m.value];
          }
          rest := rest - {f};
          seen := seen + {f};
        }
      }
    }

    /**
     * The chunk store: writes the payload to "<fileName>.part<chunkIndex>"
     * in the session directory, creating the directory when needed and
     * replacing an earlier copy.  Missing POST fields arrive as "" (fileId),
     * None (fileName, chunk) and -1 (totalChunks, chunkIndex).
     */
    method Store(fileId: string, fileName: Option<string>, totalChunks: PhpInt, chunkIndex: PhpInt,
                 chunk: Option<UploadedChunk>, io: StoreIO, stamp: string) returns (r: Result<int>)
      requires IsStamp(stamp)
      modifies this
      ensures output == old(output)
      ensures var name := SanitizeName(fileName.GetOr(""), stamp);
        var valid := fileId != "" && name != "" && totalChunks >= 1 && chunkIndex >= 0;
        var received := chunk.Some? && chunk.value.error == UploadErrOk;
        var dirReady := fileId in old(staging) || io.mkdirOk;
        && (!valid ==> r == Err(MissingParameters) && staging == old(staging))
        && (valid && !received ==>
              r == Err(ChunkUploadError(if chunk.None? then -1 else chunk.value.error)) &&
              staging == old(staging))
        && (valid && received && !dirReady ==> r == Err(TempDirFailed) && staging == old(staging))
        && (valid && received && dirReady && !io.moveOk ==>
              r == Err(SaveFailed) && staging == old(staging)[fileId := SessionDir(old(staging), fileId)])
        && (r.Ok? <==> valid && received && dirReady && io.moveOk)
        && (r.Ok? ==>
              r.value == chunkIndex &&
              staging == old(staging)[fileId :=
                SessionDir(old(staging), fileId)[PartName(name, chunkIndex) := chunk.value.payload]])
    {
      var name := SanitizeName(fileName.GetOr(""), stamp);
      if fileId == "" || name == "" || totalChunks < 1 || chunkIndex < 0 {
        return Err(MissingParameters);
      }
      if chunk.None? || chunk.value.error != UploadErrOk {
        var code := if chunk.None? then -1 else chunk.value.error;
        return Err(ChunkUploadError(code));
      }
      if fileId !in staging {
        if !io.mkdirOk {
          return Err(TempDirFailed);
        }
        staging := staging[fileId := map[]];
      }
      if !io.moveOk {
        return Err(SaveFailed);
      }
      staging := staging[fileId := staging[fileId][PartName(name, chunkIndex) := chunk.value.payload]];
      r := Ok(chunkIndex);
    }

    /**
     * Finalize: checks the parameters, the session directory and parts
     * 0 .. total-1, picks a free output name, writes the concatenation of
     * the parts under it and removes the session directory.  A missing
     * fileId arrives as "", a missing totalChunks as -1.
     */
    method Finalize(fileId: string, fileName: Option<string>, total: PhpInt, stamp: string)
      returns (r: Result<Finalized>)
      requires IsStamp(stamp)
      modifies this
      ensures r.Err? ==> staging == old(staging) && output == old(output)
      ensures !FinalizeParamsOk(fileId, total) ==> r == Err(InvalidFinalizeParams)
      ensures FinalizeParamsOk(fileId, total) && fileId !in old(staging) ==> r == Err(NoTempDirectory)
      ensures var name := FinalizeName(fileName, stamp);
        FinalizeParamsOk(fileId, total) && fileId in old(staging) &&
        !PartsPresent(old(staging)[fileId], name, total) ==>
          r.Err? && r.error.MissingChunk? && r.error.index < total &&
          PartName(name, r.error.index) !in old(staging)[fileId] &&
          PartsPresent(old(staging)[fileId], name, r.error.index)
      ensures var name := FinalizeName(fileName, stamp);
        r.Ok? <==> FinalizeParamsOk(fileId, total) && fileId in old(staging) &&
                   PartsPresent(old(staging)[fileId], name, total)
      ensures var name := FinalizeName(fileName, stamp);
        r.Ok? ==>
          && IsFirstFree(name, old(output).Keys, r.value.name)
          && IsSafeName(r.value.name)
          && output == old(output)[r.value.name := Assembled(old(staging)[fileId], name, total)]
          && staging == old(staging) - {fileId}
          && r.value.url == UrlPrefix + RawUrlEncode(r.value.name)
          && r.value.url == UrlPrefix + r.value.name
    {
      var name := SanitizeName(fileName.GetOr(FallbackName(stamp)), stamp);
      if fileId == "" || total < 1 {
        return Err(InvalidFinalizeParams);
      }
      if fileId !in staging {
        return Err(NoTempDirectory);
      }
      var dir := staging[fileId];

      // Every part must be present before anything is written.
      var i := 0;
      while i < total
        invariant 0 <= i <= total
        invariant PartsPresent(dir, name, i)
        invariant staging == old(staging) && output == old(output)
      {
        if PartName(name, i) !in dir {
          return Err(MissingChunk(i));
        }
        i := i + 1;
      }

      var finalName := PickFreeName(SanitizeName(name, stamp));
      WriteAssembled(finalName, dir, name, total);
      RemoveSession(fileId);
      RawUrlEncodeOfNameChars(finalName);
      r := Ok(Finalized(finalName, UrlPrefix + RawUrlEncode(finalName)));
    }

    /**
     * The collision loop: base if no output has that name, otherwise the
     * first of Candidate(base, 1), Candidate(base, 2), ... that is free.
     */
    method PickFreeName(base: string) returns (finalName: string)
      requires IsSafeName(base)
      ensures IsFirstFree(base, output.Keys, finalName)
      ensures IsSafeName(finalName)
    {
      finalName := base;
      var k := 1;
      ghost var tried: set<string> := {};
      while finalName in output
        invariant 1 <= k
        invariant finalName == if k == 1 then base else Candidate(base, k - 1)
        invariant tried == if k == 1 then {} else {base} + set j: nat | 1 <= j < k - 1 :: Candidate(base, j)
        invariant tried <= output.Keys
        decreases output.Keys - tried
      {
        if k > 1 {
          CandidateLonger(base, k - 1);
          forall j: nat | 1 <= j < k - 1 ensures Candidate(base, j) != finalName {
            CandidateInjective(base, j, k - 1);
          }
        }
        tried := tried + {finalName};
        finalName := Candidate(base, k);
        k := k + 1;
      }
      if k > 1 {
        assert base in tried;
        forall j: nat | 1 <= j < k - 1 ensures Candidate(base, j) in output.Keys {
          assert Candidate(base, j) in tried;
        }
        CandidateIsSafe(base, k - 1);
      }
    }

    /** Creates finalName empty, then appends part0, part1, ..., part(total-1) to it. */
    method WriteAssembled(finalName: string, dir: Dir, name: string, total: nat)
      requires PartsPresent(dir, name, total)
      modifies this`output
      ensures output == old(output)[finalName := Assembled(dir, name, total)]
    {
      output := output[finalName := []];
      var j := 0;
      while j < total
        invariant 0 <= j <= total
        invariant output == old(output)[finalName := Assembled(dir, name, j)]
      {
        output := output[finalName := output[finalName] + dir[PartName(name, j)]];
        j := j + 1;
      }
    }

    /** Removes every entry of the session directory, then the directory itself. */
    method RemoveSession(fileId: string)
      requires fileId in staging
      modifies this`staging
      ensures staging == old(staging) - {fileId}
    {
      var rest := staging[fileId].Keys;
      while rest != {}
        invariant fileId in staging && staging[fileId].Keys == rest
        invariant staging - {fileId} == old(staging) - {fileId}
        decreases rest
      {
        var f :| f in rest;
        staging := staging[fileId := staging[fileId] - {f}];
        rest := rest - {f};
      }
      staging := staging - {fileId};
    }
  }
}
