/**
 * The browser side of the upload (the script in index.php): the chunk
 * arithmetic, the session key, the retry schedule of one chunk request,
 * the resumed-bytes accounting after a probe and the serial chunk loop.
 * Byte counts are integers; the network is an oracle: the outcome of every
 * request attempt, the probe's answer, the finalize reply and the moment the
 * cancel button is pressed are parameters.
 */
module UploadClient {
  import opened Common

  /** CHUNK_SIZE, 10 MiB. */
  const ChunkSize: nat := 10 * 1024 * 1024

  /** The default number of retries of sendChunk. */
  const Retries: nat := 3

  function Min(a: int, b: int): int { if a <= b then a else b }

  // ---------------------------------------------------------------------
  // Chunk arithmetic (index.php:57, 143, 172-174)

  /** Math.ceil(size / CHUNK_SIZE), in exact integer arithmetic. */
  function TotalChunks(size: nat): (n: nat)
    ensures n * ChunkSize >= size
    ensures n > 0 ==> (n - 1) * ChunkSize < size
    ensures n == 0 <==> size == 0
  {
    (size + ChunkSize - 1) / ChunkSize
  }

  function ChunkStart(idx: nat): nat { idx * ChunkSize }

  function ChunkEnd(idx: nat, size: nat): int { Min(ChunkStart(idx) + ChunkSize, size) }

  /** thisChunkBytes: the length of chunk idx. */
  function ChunkLength(idx: nat, size: nat): int { ChunkEnd(idx, size) - ChunkStart(idx) }

  /**
   * The chunks of a file tile it: each is non-empty, each ends where the next
   * begins, the last ends at the end of the file, and all but the last hold
   * exactly CHUNK_SIZE bytes.
   */
  lemma ChunkTiling(size: nat, idx: nat)
    requires idx < TotalChunks(size)
    ensures 0 <= ChunkStart(idx) < ChunkEnd(idx, size) <= size
    ensures idx + 1 < TotalChunks(size) ==>
      ChunkEnd(idx, size) == ChunkStart(idx + 1) && ChunkLength(idx, size) == ChunkSize
    ensures idx + 1 == TotalChunks(size) ==> ChunkEnd(idx, size) == size
    ensures 0 < ChunkLength(idx, size) <= ChunkSize
  {
    var n := TotalChunks(size);
    assert idx * ChunkSize <= (n - 1) * ChunkSize;
    if idx + 1 < n {
      assert (idx + 1) * ChunkSize <= (n - 1) * ChunkSize;
    } else {
      assert (idx + 1) * ChunkSize == n * ChunkSize;
    }
  }

  /** Chunks with different indices share no byte. */
  lemma ChunksDisjoint(size: nat, i: nat, j: nat)
    requires i < j < TotalChunks(size)
    ensures ChunkEnd(i, size) <= ChunkStart(j)
  {
    assert (i + 1) * ChunkSize <= j * ChunkSize;
  }

  /** The total length of chunks 0 .. n-1. */
  function BytesBelow(size: nat, n: nat): int {
    if n == 0 then 0 else BytesBelow(size, n - 1) + ChunkLength(n - 1, size)
  }

  lemma {:induction false} BytesBelowPrefix(size: nat, n: nat)
    requires n <= TotalChunks(size)
    ensures BytesBelow(size, n) == Min(n * ChunkSize, size)
  {
    if n > 0 {
      BytesBelowPrefix(size, n - 1);
      ChunkTiling(size, n - 1);
      assert (n - 1) * ChunkSize + ChunkSize == n * ChunkSize;
    }
  }

  /** The lengths of all chunks add up to the size of the file. */
  lemma ChunksSumToSize(size: nat)
    ensures BytesBelow(size, TotalChunks(size)) == size
  {
    BytesBelowPrefix(size, TotalChunks(size));
  }

  // ---------------------------------------------------------------------
  // The session key (index.php:94-96)

  /** What the page reads of the chosen File. */
  datatype FileInfo = FileInfo(name: string, size: nat, lastModified: int)

  /** stableId: name, size and lastModified joined with dots. */
  function StableId(f: FileInfo): string {
    f.name + "." + NatToString(f.size) + "." + IntToString(f.lastModified)
  }

  /** Different files never share a key: the key can be split back at its last two dots. */
  lemma StableIdInjective(f: FileInfo, g: FileInfo)
    ensures StableId(f) == StableId(g) ==> f == g
  {
    if StableId(f) == StableId(g) {
      var sf, sg := NatToString(f.size), NatToString(g.size);
      var lf, lg := IntToString(f.lastModified), IntToString(g.lastModified);
      assert '.' !in sf && '.' !in sg by {
        assert forall i :: 0 <= i < |sf| ==> IsDigit(sf[i]);
        assert forall i :: 0 <= i < |sg| ==> IsDigit(sg[i]);
      }
      assert StableId(f) == (f.name + "." + sf) + ['.'] + lf;
      assert StableId(g) == (g.name + "." + sg) + ['.'] + lg;
      SplitLastOf(f.name + "." + sf, lf, '.');
      SplitLastOf(g.name + "." + sg, lg, '.');
      assert f.name + "." + sf == f.name + ['.'] + sf;
      assert g.name + "." + sg == g.name + ['.'] + sg;
      SplitLastOf(f.name, sf, '.');
      SplitLastOf(g.name, sg, '.');
      NatToStringInjective(f.size, g.size);
      IntToStringInjective(f.lastModified, g.lastModified);
    }
  }

  // ---------------------------------------------------------------------
  // One chunk request with retries (index.php:106-124)

  /** What one XMLHttpRequest attempt ends in: onload with a status, or onerror. */
  datatype Attempt = Response(status: int) | NetworkError

  /**
   * The outcome of sendChunk: the delays (in ms) waited before each retry,
   * so that the number of attempts is |delays| + 1, and for a rejection the
   * error message of the last attempt.
   */
  datatype SendOutcome = Delivered(delays: seq<int>) | Rejected(delays: seq<int>, message: string)

  function FailureMessage(a: Attempt): string {
    match a
    case Response(status) => "HTTP " + IntToString(status)
    case NetworkError => "network error"
  }

  /**
   * sendChunk(fd, onProgress, retries): tries[k] is the outcome of the k-th
   * attempt.  A status other than 200 and a network error are both retried
   * while retries remain, after waiting 1000 * (4 - retries) ms.
   */
  function SendChunk(tries: seq<Attempt>, retries: nat): (r: SendOutcome)
    requires |tries| > retries
    ensures |r.delays| <= retries
    ensures forall j :: 0 <= j < |r.delays| ==> r.delays[j] == 1000 * (4 - retries + j)
    ensures r.Delivered? ==> tries[|r.delays|] == Response(200)
    ensures r.Rejected? ==> |r.delays| == retries && r.message == FailureMessage(tries[retries])
  {
    if tries[0] == Response(200) then Delivered([])
    else if retries > 0 then
      var rest := SendChunk(tries[1..], retries - 1);
      match rest
      case Delivered(ds) => Delivered([1000 * (4 - retries)] + ds)
      case Rejected(ds, m) => Rejected([1000 * (4 - retries)] + ds, m)
    else Rejected([], FailureMessage(tries[0]))
  }

  /**
   * The chunk is delivered exactly when one of the first retries + 1 attempts
   * gets status 200, and then the attempt that ends it is the first such one.
   */
  lemma {:induction false} SendChunkDelivered(tries: seq<Attempt>, retries: nat)
    requires |tries| > retries
    ensures var r := SendChunk(tries, retries);
      (r.Delivered? <==> exists k :: 0 <= k <= retries && tries[k] == Response(200)) &&
      (r.Delivered? ==> forall j :: 0 <= j < |r.delays| ==> tries[j] != Response(200))
  {
    if tries[0] != Response(200) && retries > 0 {
      SendChunkDelivered(tries[1..], retries - 1);
      assert forall k :: 1 <= k <= retries ==> tries[k] == tries[1..][k - 1];
    }
  }

  /** With the default of three retries: at most four attempts, after waits of 1000, 2000 and 3000 ms. */
  lemma DefaultRetrySchedule(tries: seq<Attempt>)
    requires |tries| > Retries
    ensures var r := SendChunk(tries, Retries);
      |r.delays| + 1 <= 4 && r.delays == [1000, 2000, 3000][..|r.delays|]
  {
    var r := SendChunk(tries, Retries);
    assert forall j :: 0 <= j < |r.delays| ==> r.delays[j] == [1000, 2000, 3000][j];
  }

  // ---------------------------------------------------------------------
  // Resume accounting (index.php:151-157)

  predicate Distinct(s: seq<int>) {
    forall i, j :: 0 <= i < j < |s| ==> s[i] != s[j]
  }

  /** new Set(list): the elements of list without repetitions, in order of first occurrence. */
  function SetOf(list: seq<int>): (r: seq<int>)
    ensures Distinct(r)
    ensures forall x :: x in r <==> x in list
  {
    if list == [] then []
    else
      var init := SetOf(list[..|list| - 1]);
      var x := list[|list| - 1];
      assert list == list[..|list| - 1] + [x];
      if x in init then init else init + [x]
  }

  /** The Set the loop starts from: the probe's list, or nothing when the probe failed. */
  function HaveAfterProbe(probe: Option<seq<int>>): (have: seq<int>)
    ensures Distinct(have)
    ensures forall x :: x in have <==> probe.Some? && x in probe.value
  {
    SetOf(probe.GetOr([]))
  }

  /** What the resume pass adds for one reported index. */
  function ResumeLength(idx: int, size: nat): int { Min(ChunkSize, size - idx * ChunkSize) }

  /** For an index in range this is the length of that chunk. */
  lemma ResumeLengthIsChunkLength(idx: nat, size: nat)
    ensures ResumeLength(idx, size) == ChunkLength(idx, size)
  {
  }

  function ResumeSum(have: seq<int>, size: nat): int {
    if have == [] then 0 else ResumeSum(have[..|have| - 1], size) + ResumeLength(have[|have| - 1], size)
  }

  /** have.forEach(idx => uploadedBytes += Math.min(CHUNK_SIZE, size - idx * CHUNK_SIZE)). */
  method ResumedBytes(have: seq<int>, size: nat) returns (uploadedBytes: int)
    ensures uploadedBytes == ResumeSum(have, size)
  {
    uploadedBytes := 0;
    for i := 0 to |have|
      invariant uploadedBytes == ResumeSum(have[..i], size)
    {
      assert have[..i + 1][..i] == have[..i];
      uploadedBytes := uploadedBytes + Min(ChunkSize, size - have[i] * ChunkSize);
    }
    assert have[..|have|] == have;
  }

  /** The bytes of the chunks below n whose index is in have. */
  function PresentBytes(have: seq<int>, size: nat, n: nat): int {
    if n == 0 then 0
    else PresentBytes(have, size, n - 1) + (if (n - 1) in have then ChunkLength(n - 1, size) else 0)
  }

  lemma {:induction false} PresentBytesAdd(have: seq<int>, x: nat, size: nat, n: nat)
    requires x !in have
    ensures PresentBytes(have + [x], size, n) ==
            PresentBytes(have, size, n) + (if x < n then ChunkLength(x, size) else 0)
  {
    if n > 0 {
      PresentBytesAdd(have, x, size, n - 1);
    }
  }

  /** When the reported indices are distinct and in range, the resume pass counts exactly their chunks. */
  lemma {:induction false} ResumeSumIsPresentBytes(have: seq<int>, size: nat, n: nat)
    requires Distinct(have)
    requires forall x :: x in have ==> 0 <= x < n
    ensures ResumeSum(have, size) == PresentBytes(have, size, n)
  {
    if have == [] {
      PresentBytesNone(size, n);
    } else {
      var init, x := have[..|have| - 1], have[|have| - 1];
      assert have == init + [x];
      assert x in have;
      forall y | y in init ensures 0 <= y < n { assert y in have; }
      assert x !in init by {
        forall i | 0 <= i < |init| ensures init[i] != x { assert have[i] != have[|have| - 1]; }
      }
      ResumeSumIsPresentBytes(init, size, n);
      PresentBytesAdd(init, x, size, n);
      ResumeLengthIsChunkLength(x, size);
    }
  }

  lemma {:induction false} PresentBytesNone(size: nat, n: nat)
    ensures PresentBytes([], size, n) == 0
  {
    if n > 0 {
      PresentBytesNone(size, n - 1);
    }
  }

  lemma {:induction false} PresentBytesBounded(have: seq<int>, size: nat, n: nat)
    requires n <= TotalChunks(size)
    ensures 0 <= PresentBytes(have, size, n) <= BytesBelow(size, n)
  {
    if n > 0 {
      PresentBytesBounded(have, size, n - 1);
      ChunkTiling(size, n - 1);
    }
  }

  /** Resumed bytes never exceed the file when the probe reports distinct indices in range. */
  lemma ResumedBytesBounded(have: seq<int>, size: nat)
    requires Distinct(have)
    requires forall x :: x in have ==> 0 <= x < TotalChunks(size)
    ensures 0 <= ResumeSum(have, size) <= size
  {
    ResumeSumIsPresentBytes(have, size, TotalChunks(size));
    PresentBytesBounded(have, size, TotalChunks(size));
    ChunksSumToSize(size);
  }

  // ---------------------------------------------------------------------
  // The chunk loop (index.php:168-229)

  /** The indices below n that are not in have, in increasing order: the chunks the loop sends. */
  function Missing(have: seq<int>, n: nat): seq<nat>
  {
    if n == 0 then []
    else Missing(have, n - 1) + (if (n - 1) in have then [] else [n - 1])
  }

  /** Missing(have, n) lists exactly the indices below n that have lacks. */
  lemma {:induction false} MissingMembers(have: seq<int>, n: nat)
    ensures forall x :: x in Missing(have, n) <==> 0 <= x < n && x !in have
  {
    if n > 0 {
      MissingMembers(have, n - 1);
    }
  }

  /** The loop meets the missing chunks in strictly increasing order. */
  lemma {:induction false} MissingIncreasing(have: seq<int>, n: nat)
    ensures forall a, b :: 0 <= a < b < |Missing(have, n)| ==> Missing(have, n)[a] < Missing(have, n)[b]
  {
    if n > 0 {
      MissingIncreasing(have, n - 1);
      MissingMembers(have, n - 1);
      var m := Missing(have, n - 1);
      assert forall a :: 0 <= a < |m| ==> m[a] in m;
    }
  }

  lemma SumLengthsAppend(s: seq<nat>, x: nat, size: nat)
    ensures SumLengths(s + [x], size) == SumLengths(s, size) + ChunkLength(x, size)
  {
    assert (s + [x])[..|s|] == s;
  }

  function SumLengths(s: seq<nat>, size: nat): int {
    if s == [] then 0 else SumLengths(s[..|s| - 1], size) + ChunkLength(s[|s| - 1], size)
  }

  /** Present and missing chunks below n together make up all of them. */
  lemma {:induction false} PresentPlusMissing(have: seq<int>, size: nat, n: nat)
    ensures PresentBytes(have, size, n) + SumLengths(Missing(have, n), size) == BytesBelow(size, n)
  {
    if n > 0 {
      var m := Missing(have, n - 1);
      var len := ChunkLength(n - 1, size);
      PresentPlusMissing(have, size, n - 1);
      assert BytesBelow(size, n) == BytesBelow(size, n - 1) + len;
      if (n - 1) in have {
        assert PresentBytes(have, size, n) == PresentBytes(have, size, n - 1) + len;
        assert Missing(have, n) == m;
      } else {
        assert PresentBytes(have, size, n) == PresentBytes(have, size, n - 1);
        assert Missing(have, n) == m + [n - 1];
        SumLengthsAppend(m, n - 1, size);
      }
    }
  }

  /** The check point p (the test at the top of iteration p, or after the loop when p = totalChunks) sees abort. */
  predicate CancelSeen(cancelAt: Option<nat>, p: nat) {
    cancelAt.Some? && cancelAt.value <= p
  }

  /** How the loop ends: all indices done, abort seen at the top of an iteration, or a chunk rejected. */
  datatype LoopExit = Finished | Canceled(at: nat) | Failed(at: nat, message: string)

  /** The number of indices that were dealt with completely. */
  function Done(exit: LoopExit, totalChunks: nat): nat {
    match exit
    case Finished => totalChunks
    case Canceled(at) => at
    case Failed(at, _) => at
  }

  /** Chunk p was dealt with: abort was not seen at its check point, and it was delivered unless the probe had it. */
  predicate ChunkHandled(cancelAt: Option<nat>, have0: seq<int>, tries: seq<seq<Attempt>>, p: nat)
    requires p < |tries| && |tries[p]| > Retries
  {
    !CancelSeen(cancelAt, p) && (p !in have0 ==> SendChunk(tries[p], Retries).Delivered?)
  }

  /** Every chunk below n was dealt with, written as a chain the loop extends one index at a time. */
  predicate HandledBelow(cancelAt: Option<nat>, have0: seq<int>, tries: seq<seq<Attempt>>, n: nat)
    requires n <= |tries| && forall i :: 0 <= i < |tries| ==> |tries[i]| > Retries
  {
    n == 0 || (HandledBelow(cancelAt, have0, tries, n - 1) && ChunkHandled(cancelAt, have0, tries, n - 1))
  }

  lemma {:induction false} HandledBelowAll(cancelAt: Option<nat>, have0: seq<int>, tries: seq<seq<Attempt>>, n: nat)
    requires n <= |tries| && forall i :: 0 <= i < |tries| ==> |tries[i]| > Retries
    requires HandledBelow(cancelAt, have0, tries, n)
    ensures forall p :: 0 <= p < n ==> ChunkHandled(cancelAt, have0, tries, p)
  {
    if n > 0 {
      HandledBelowAll(cancelAt, have0, tries, n - 1);
    }
  }

  /** One step of the loop: how the missing list, have and the byte count grow at index idx. */
  lemma LoopStep(have0: seq<int>, sent: seq<nat>, idx: nat, size: nat)
    requires sent == Missing(have0, idx)
    ensures idx in have0 + sent <==> idx in have0
    ensures idx in have0 ==> Missing(have0, idx + 1) == sent
    ensures idx !in have0 ==>
      Missing(have0, idx + 1) == sent + [idx] &&
      have0 + sent + [idx] == have0 + (sent + [idx]) &&
      SumLengths(sent + [idx], size) == SumLengths(sent, size) + ChunkLength(idx, size)
  {
    MissingMembers(have0, idx);
    SumLengthsAppend(sent, idx, size);
  }

  /**
   * The for loop over idx.  cancelAt is the first check point that sees
   * abort; tries[idx] are the outcomes of the attempts to send chunk idx.
   * sent lists the chunks whose request was started, in order.
   */
  method ChunkLoop(size: nat, totalChunks: nat, have0: seq<int>, uploaded0: int,
                   cancelAt: Option<nat>, tries: seq<seq<Attempt>>)
    returns (have: seq<int>, uploadedBytes: int, sent: seq<nat>, exit: LoopExit)
    requires |tries| >= totalChunks
    requires forall i :: 0 <= i < |tries| ==> |tries[i]| > Retries
    ensures Done(exit, totalChunks) <= totalChunks
    ensures forall p :: 0 <= p < Done(exit, totalChunks) ==> ChunkHandled(cancelAt, have0, tries, p)
    ensures exit.Canceled? ==> exit.at < totalChunks && CancelSeen(cancelAt, exit.at)
    ensures exit.Failed? ==>
      exit.at < totalChunks && !CancelSeen(cancelAt, exit.at) && exit.at !in have0 &&
      SendChunk(tries[exit.at], Retries).Rejected? &&
      exit.message == SendChunk(tries[exit.at], Retries).message
    ensures have == have0 + Missing(have0, Done(exit, totalChunks))
    ensures sent == Missing(have0, Done(exit, totalChunks)) + (if exit.Failed? then [exit.at] else [])
    ensures uploadedBytes == uploaded0 + SumLengths(Missing(have0, Done(exit, totalChunks)), size)
  {
    have, uploadedBytes, sent := have0, uploaded0, [];
    exit := Finished;
    var idx := 0;
    while idx < totalChunks
      invariant 0 <= idx <= totalChunks
      invariant HandledBelow(cancelAt, have0, tries, idx)
      invariant sent == Missing(have0, idx)
      invariant have == have0 + sent
      invariant uploadedBytes == uploaded0 + SumLengths(sent, size)
      invariant exit == Finished
    {
      if CancelSeen(cancelAt, idx) {
        exit := Canceled(idx);
        assert Done(exit, totalChunks) == idx;
        break;
      }
      var chunkStart := idx * ChunkSize;
      var chunkEnd := Min(chunkStart + ChunkSize, size);
      var thisChunkBytes := chunkEnd - chunkStart;
      LoopStep(have0, sent, idx, size);
      if idx in have {
        assert ChunkHandled(cancelAt, have0, tries, idx);
        idx := idx + 1;
        continue;
      }
      var outcome := SendChunk(tries[idx], Retries);
      if outcome.Rejected? {
        sent := sent + [idx];
        exit := Failed(idx, outcome.message);
        assert Done(exit, totalChunks) == idx;
        break;
      }
      assert ChunkHandled(cancelAt, have0, tries, idx);
      uploadedBytes := uploadedBytes + thisChunkBytes;
      sent := sent + [idx];
      have := have + [idx];
      idx := idx + 1;
    }
    HandledBelowAll(cancelAt, have0, tries, Done(exit, totalChunks));
  }

  /** Every chunk the loop sent was one the probe did not report, reached before abort was seen. */
  lemma SentChunksPassed(cancelAt: Option<nat>, have0: seq<int>, tries: seq<seq<Attempt>>,
                         exit: LoopExit, totalChunks: nat, sent: seq<nat>)
    requires totalChunks <= |tries| && forall i :: 0 <= i < |tries| ==> |tries[i]| > Retries
    requires Done(exit, totalChunks) <= totalChunks
    requires forall p :: 0 <= p < Done(exit, totalChunks) ==> ChunkHandled(cancelAt, have0, tries, p)
    requires exit.Failed? ==> exit.at < totalChunks && !CancelSeen(cancelAt, exit.at) && exit.at !in have0
    requires sent == Missing(have0, Done(exit, totalChunks)) + (if exit.Failed? then [exit.at] else [])
    ensures forall i :: i in sent ==> i < totalChunks && i !in have0 && !CancelSeen(cancelAt, i)
  {
    var done := Done(exit, totalChunks);
    MissingMembers(have0, done);
    forall i | i in sent
      ensures i < totalChunks && i !in have0 && !CancelSeen(cancelAt, i)
    {
      if i in Missing(have0, done) {
        assert ChunkHandled(cancelAt, have0, tries, i);
      }
    }
  }

  /**
   * A loop that finishes, started from the probe's distinct in-range indices
   * and their resumed bytes, has counted every byte of the file exactly once
   * and ends with every index in have.
   */
  lemma FinishedLoopCoversFile(size: nat, have0: seq<int>)
    requires Distinct(have0)
    requires forall x :: x in have0 ==> 0 <= x < TotalChunks(size)
    ensures ResumeSum(have0, size) + SumLengths(Missing(have0, TotalChunks(size)), size) == size
    ensures forall i :: i in have0 + Missing(have0, TotalChunks(size)) <==> 0 <= i < TotalChunks(size)
  {
    var n := TotalChunks(size);
    ResumeSumIsPresentBytes(have0, size, n);
    PresentPlusMissing(have0, size, n);
    ChunksSumToSize(size);
    MissingMembers(have0, n);
  }

  /**
   * The page goes on to finalize (the loop ran to the end and abort is not
   * seen after it) exactly when abort is never seen and every chunk the probe
   * lacked was delivered.
   */
  lemma LoopReachesFinalize(exit: LoopExit, totalChunks: nat, have0: seq<int>,
                            cancelAt: Option<nat>, tries: seq<seq<Attempt>>)
    requires |tries| >= totalChunks
    requires forall i :: 0 <= i < |tries| ==> |tries[i]| > Retries
    requires Done(exit, totalChunks) <= totalChunks
    requires forall p :: 0 <= p < Done(exit, totalChunks) ==> ChunkHandled(cancelAt, have0, tries, p)
    requires exit.Canceled? ==> exit.at < totalChunks && CancelSeen(cancelAt, exit.at)
    requires exit.Failed? ==>
      exit.at < totalChunks && exit.at !in have0 && SendChunk(tries[exit.at], Retries).Rejected?
    ensures (exit.Finished? && !CancelSeen(cancelAt, totalChunks)) <==>
      (!CancelSeen(cancelAt, totalChunks) &&
       forall p :: 0 <= p < totalChunks && p !in have0 ==> SendChunk(tries[p], Retries).Delivered?)
  {
    if exit.Finished? {
      forall p | 0 <= p < totalChunks && p !in have0
        ensures SendChunk(tries[p], Retries).Delivered?
      {
        assert ChunkHandled(cancelAt, have0, tries, p);
      }
    } else if exit.Failed? {
      assert SendChunk(tries[exit.at], Retries).Rejected?;
    }
  }

  // ---------------------------------------------------------------------
  // The start and cancel handlers (index.php:126-250)

  /** The finalize request the page sends (its query parameters). */
  datatype FinalizeRequest = FinalizeRequest(fileId: string, fileName: string, totalChunks: nat)

  /** What the finalize fetch yields: the JSON reply, or a failed request. */
  datatype FinalizeReply = Replied(ok: bool, name: string, url: string, error: Option<string>) | Unreachable

  /** How a press of the start button ends. */
  datatype Outcome =
    | NoFile                         // no file chosen
    | UploadCanceled                 // abort seen before a chunk or right after the last one
    | ChunkFailed(index: nat, message: string)  // a chunk ran out of retries
    | Completed(name: string, url: string)      // finalize answered ok
    | FinalizeRejected(message: string)         // finalize answered not ok
    | FinalizeUnreachable                        // the finalize request itself failed

  /** The page's state that outlives one press of the start button. */
  class UploadPage {
    /** Set by the cancel button, cleared when an upload starts. */
    var abort: bool
    /** localStorage's lastUploadId. */
    var lastUploadId: Option<string>

    constructor (stored: Option<string>)
      ensures !abort && lastUploadId == stored
    {
      abort := false;
      lastUploadId := stored;
    }

    /** The cancel handler. */
    method Cancel()
      modifies this`abort
      ensures abort
    {
      abort := true;
    }

    /**
     * The start handler.  probe is the probe's list (None when it failed),
     * cancelAt the first check point at which abort is seen, tries[idx] the
     * attempt outcomes of chunk idx and reply the answer to finalize.
     */
    method Start(file: Option<FileInfo>, probe: Option<seq<int>>, cancelAt: Option<nat>,
                 tries: seq<seq<Attempt>>, reply: FinalizeReply)
      returns (outcome: Outcome, uploadedBytes: int, sent: seq<nat>, request: Option<FinalizeRequest>)
      requires file.Some? ==> |tries| >= TotalChunks(file.value.size)
      requires forall i :: 0 <= i < |tries| ==> |tries[i]| > Retries
      modifies this
      ensures file.None? ==>
        outcome == NoFile && sent == [] && request.None? &&
        abort == old(abort) && lastUploadId == old(lastUploadId)
      ensures file.Some? ==>
        var f := file.value;
        var total := TotalChunks(f.size);
        var have0 := HaveAfterProbe(probe);
        && (request.Some? <==>
              !CancelSeen(cancelAt, total) &&
              forall p :: 0 <= p < total && p !in have0 ==> SendChunk(tries[p], Retries).Delivered?)
        && (request.Some? ==>
              request.value == FinalizeRequest(StableId(f), f.name, total) &&
              sent == Missing(have0, total) &&
              uploadedBytes == ResumeSum(have0, f.size) + SumLengths(Missing(have0, total), f.size))
        && (request.Some? && (forall x :: x in have0 ==> 0 <= x < total) ==> uploadedBytes == f.size)
        && (request.None? ==> !abort ==> outcome.ChunkFailed?)
        && (request.Some? ==> !abort)
        && (outcome.UploadCanceled? <==> abort)
        && (outcome.ChunkFailed? ==>
              request.None? && outcome.index < total && outcome.index !in have0 &&
              !CancelSeen(cancelAt, outcome.index) &&
              SendChunk(tries[outcome.index], Retries).Rejected? &&
              outcome.message == SendChunk(tries[outcome.index], Retries).message)
        && (forall i :: i in sent ==> i < total && i !in have0 && !CancelSeen(cancelAt, i))
        && (outcome.Completed? <==> request.Some? && reply.Replied? && reply.ok)
        && lastUploadId == (if outcome.Completed? then None else Some(StableId(f)))
    {
      if file.None? {
        return NoFile, 0, [], None;
      }
      var f := file.value;
      abort := false;
      var totalChunks := TotalChunks(f.size);
      var fileId := StableId(f);
      lastUploadId := Some(fileId);

      var have := HaveAfterProbe(probe);
      uploadedBytes := ResumedBytes(have, f.size);
      var have0, uploaded0 := have, uploadedBytes;

      var exit;
      have, uploadedBytes, sent, exit := ChunkLoop(f.size, totalChunks, have, uploadedBytes, cancelAt, tries);
      LoopReachesFinalize(exit, totalChunks, have0, cancelAt, tries);
      SentChunksPassed(cancelAt, have0, tries, exit, totalChunks, sent);
      request := None;
      match exit {
        case Failed(at, message) =>
          return ChunkFailed(at, message), uploadedBytes, sent, None;
        case Canceled(_) =>
          abort := true;
        case Finished =>
          abort := CancelSeen(cancelAt, totalChunks);
      }
      if abort {
        outcome := UploadCanceled;
        return;
      }
      if forall x :: x in have0 ==> 0 <= x < totalChunks {
        FinishedLoopCoversFile(f.size, have0);
      }
      request := Some(FinalizeRequest(fileId, f.name, totalChunks));
      match reply {
        case Replied(ok, name, url, error) =>
          if ok {
            outcome := Completed(name, url);
            lastUploadId := None;
          } else {
            outcome := FinalizeRejected(if error.Some? && error.value != "" then error.value else "Finalize failed.");
          }
        case Unreachable =>
          outcome := FinalizeUnreachable;
      }
    }
  }
}
