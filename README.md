# Resumable chunked upload, modelled in Dafny

The system is a resumable, chunked file upload. The page (`index.php`)
splits a file into 10 MiB chunks. It asks the endpoint which chunks it
already has, then sends the rest one at a time, retrying each up to three
times. Finally it asks the endpoint to assemble the file. The endpoint
(`upload_chunk.php`) answers three requests:

- a probe lists the `.part<N>` entries of a session directory;
- a store writes one chunk under `<fileName>.part<chunkIndex>`;
- a finalize checks that every part is present, picks an output name that
  collides with no existing file, concatenates the parts in index order and
  removes the session directory.

The filesystem is modelled as two finite maps held by the class
`UploadChunk.ChunkStore`:

- `staging` maps a fileId to its session directory, itself a map from entry
  name to bytes;
- `output` maps an output name to bytes.

Each request branch is a method on these maps.

On the page side:

- the chunk arithmetic, `stableId` and the `sendChunk` retry recursion are
  functions;
- the resume pass and the chunk loop are methods with loops;
- the page state that outlives one press of the start button (the `abort`
  flag and localStorage's `lastUploadId`) lives in the class
  `UploadClient.UploadPage`.

The network is an oracle passed in as parameters:

- `tries[idx]` holds the attempt outcomes for chunk idx;
- `probe` is the probe's list, or None when the probe failed;
- `reply` is the answer to finalize;
- `cancelAt` is the first loop check point at which the cancel button has
  set `abort`.

The clock value `date('Ymd_His')` is passed in as `stamp`.

Files:

- `common.dfy`: Option, bytes, decimal rendering and parsing (intval and
  string interpolation of integers), and splitting at the last occurrence
  of a character.
- `upload_names.dfy`: `sanitizeName`, part names and the probe's pattern,
  pathinfo and the collision candidates, `rawurlencode`.
- `upload_chunk.dfy`: the endpoint: Probe, Store, Finalize and the
  concatenation they define.
- `upload_client.dfy`: the page: chunk ranges, `stableId`, `sendChunk`, the
  resume pass, the chunk loop and the start and cancel handlers.
- `protocol.dfy`: how the two sides fit together:
  - the slices the page sends, concatenated by finalize, give back the file;
  - store and finalize agree on the part names;
  - a zero-byte file never passes finalize.

Facts about the code that the model states as written:

- The retry delay is `1000 * (4 - retries)` ms, so the waits are 1000,
  2000 and 3000 ms as the retries are used up (index.php:114, 119).
- Finalize writes the output directly under its final name
  (upload_chunk.php:70).
- The `$fileName === ''` rejection of a store (upload_chunk.php:102) can
  never fire, because `sanitizeName` never returns the empty string
  (`UploadNames.SanitizeName`).
- The page shows the finalize error when it is a non-empty string and
  "Finalize failed." otherwise (index.php:239).

Behaviour of the code that the model makes explicit:

- A zero-byte file has zero chunks. Its finalize request is therefore
  always refused as invalid (`Protocol.FinalizeAcceptsOnlyNonEmptyFiles`).
- A fileName that sanitizes to the fallback name (`""`, `"."` or `".."`
  after replacement) is named after the clock. A store and a finalize made
  in different seconds then look for different part names
  (`Protocol.FallbackNamesDependOnClock`).

## Model

| member | source | states |
|---|---|---|
| Common.NatToString | index.php:95 | a size renders as a non-empty digit string with no leading zero unless it is 0 |
| Common.ParseNatToString | upload_chunk.php:34 | reading back the digits of a rendered number gives that number |
| Common.NatToStringInjective | index.php:95 | different numbers render differently |
| Common.IntToString | index.php:95 | a rendered integer (lastModified) is non-empty and contains no dot |
| Common.IntToStringInjective | index.php:95 | different integers, negative ones included, render differently |
| Common.SplitLast | upload_chunk.php:61 | the split exists exactly when the separator occurs; the input is the part before, the separator and the part after, and the part after holds no separator |
| Common.SplitLastOf | upload_chunk.php:61 | a string "a" + c + "b" with no c in b splits into exactly a and b |
| UploadNames.FallbackName | upload_chunk.php:21 | "upload_" followed by a timestamp is a safe name |
| UploadNames.ReplaceRuns | upload_chunk.php:19 | the replacement produces only word characters, '-' and '.'; it is no longer than the input; it is empty only for empty input; it leaves a string unchanged exactly when the string already has only those characters |
| UploadNames.ReplaceRunsAppend | upload_chunk.php:19 | after a kept character no run is open: the rest of the string is replaced on its own |
| UploadNames.ReplaceRunsSplit | upload_chunk.php:19 | a maximal non-empty run of characters outside [\w\-.] becomes exactly one '_', and the text on each side is replaced independently |
| UploadNames.SanitizeName | upload_chunk.php:18-24 | the result is safe: only word characters, '-' and '.', and never "", "." or ".."; a safe name is returned unchanged, and so is a replacement result that is safe |
| UploadNames.SanitizeIdempotent | upload_chunk.php:59 | sanitizing a sanitized name again, at whatever time, changes nothing |
| UploadNames.SanitizeFixedPoint | upload_chunk.php:18-24 | sanitizeName returns its argument exactly when the argument is already safe |
| UploadNames.IntValDigits | upload_chunk.php:34 | intval of a digit string is its value when that fits, and PHP_INT_MAX when the value exceeds it |
| UploadNames.TrailingDigits | upload_chunk.php:34 | the result is the maximal run of digits ending the string: a suffix, all digits, preceded by a non-digit or by nothing |
| UploadNames.TrailingDigitsOf | upload_chunk.php:34 | a non-digit (or nothing) followed by digits d has exactly d as its trailing run |
| UploadNames.PartName | upload_chunk.php:115 | no own ensures; `UploadNames.PartIndexOfPartName` states that the probe reads the stored index back from it, and `UploadNames.PartNameInjective` that different names or indices give different part names |
| UploadNames.PartNameInjective | upload_chunk.php:115 | two part names are equal only for the same name and the same index |
| UploadNames.PartIndex | upload_chunk.php:34 | no own ensures; `UploadNames.PartIndexMatches` and `UploadNames.PartIndexOnlyParts` state in both directions which entries it accepts and the index it reads, and `UploadNames.PartIndexOfPartName` and `UploadNames.PartIndexNeedsDigits` give the stored and the ignored cases |
| UploadNames.PartIndexMatches | upload_chunk.php:34 | every "<stem>.part<digits>", with or without one final newline, matches the probe pattern with intval of the digits |
| UploadNames.PartIndexOnlyParts | upload_chunk.php:34 | every entry the probe pattern accepts is "<stem>.part<digits>" with at most one final newline, read as intval of those digits; every other entry is ignored |
| UploadNames.PartIndexOfPartName | upload_chunk.php:34 | the probe reads back exactly the index a chunk was stored under |
| UploadNames.PartIndexNeedsDigits | upload_chunk.php:34 | an entry ending in a character other than a digit or a newline is ignored by the probe |
| UploadNames.PathParts | upload_chunk.php:61 | pathinfo's filename and extension: with an extension the name is filename + "." + extension with no dot in the extension; without one there is no dot at all |
| UploadNames.Candidate | upload_chunk.php:64 | no own ensures; `UploadNames.CandidateLonger`, `UploadNames.CandidateInjective` and `UploadNames.CandidateIsSafe` carry its properties |
| UploadNames.CandidateLonger | upload_chunk.php:64 | a candidate name is longer than its base, so it never equals the base |
| UploadNames.CandidateInjective | upload_chunk.php:64 | different counters give different candidate names |
| UploadNames.CandidateIsSafe | upload_chunk.php:64 | the candidates of a sanitized name are safe names |
| UploadNames.Utf8 | upload_chunk.php:88 | a character encodes to its shortest UTF-8 form: 1 to 4 bytes by code point range, a single byte exactly when it is ASCII, a lead byte tagged with the length, then continuation bytes |
| UploadNames.Utf8RoundTrip | upload_chunk.php:88 | decoding the UTF-8 bytes of a character gives back its code point |
| UploadNames.HexDigit | upload_chunk.php:88 | the digit of 0 .. 9 is '0' .. '9' and that of 10 .. 15 is 'A' .. 'F' |
| UploadNames.PercentEncode | upload_chunk.php:88 | each byte becomes three characters |
| UploadNames.PercentEncodeAt | upload_chunk.php:88 | byte i becomes, at position 3 * i, '%' followed by its two uppercase hex digits |
| UploadNames.RawUrlEncode | upload_chunk.php:88 | no own ensures; `UploadNames.RawUrlEncodeOfNameChars` and `UploadNames.EscapedChar` state what it keeps and what it escapes |
| UploadNames.RawUrlEncodeOfNameChars | upload_chunk.php:88 | a sanitized name is left unchanged by rawurlencode |
| UploadNames.EscapedChar | upload_chunk.php:88 | any character other than a letter, a digit, '_', '-', '.' or '~' becomes, for each of its UTF-8 bytes, '%' and that byte's two uppercase hex digits |
| UploadChunk.ProbeStep | upload_chunk.php:33-35 | visiting one more directory entry adds its index to the list exactly when the pattern accepts it |
| UploadChunk.ProbeAfterStore | upload_chunk.php:115 | after storing part i, a probe reports what it reported before plus i |
| UploadChunk.FinalizeName | upload_chunk.php:44 | the name finalize uses is safe, and a missing fileName gives the fallback name "upload_<stamp>" |
| UploadChunk.Assembled | upload_chunk.php:72-78 | no own ensures; `UploadChunk.AssembledPrefix`, `UploadChunk.AssembledPart`, `UploadChunk.AssembledIgnoresOtherEntries` and `Protocol.ReassemblyRestoresFile` carry its properties |
| UploadChunk.AssembledPrefix | upload_chunk.php:72-78 | the concatenation of the first m parts is a prefix of that of the first n |
| UploadChunk.AssembledPart | upload_chunk.php:72-78 | part i sits in the output right after parts 0 .. i-1 |
| UploadChunk.AssembledIgnoresOtherEntries | upload_chunk.php:72-78 | only parts 0 .. total-1 matter: other entries and higher indices leave the output unchanged |
| UploadChunk.FirstFreeUnique | upload_chunk.php:59-67 | the collision rule determines a single name |
| UploadChunk.ChunkStore.Probe | upload_chunk.php:28-39 | with no session directory the list is empty; otherwise it holds exactly the indices of the entries the pattern accepts, one per such entry, and each index occurs as many times as there are entries it is read from |
| UploadChunk.ProbeCountStep | upload_chunk.php:33-35 | visiting one more entry raises the count of its index by one when the pattern accepts it, and no other count changes |
| UploadChunk.PartsWithAdd | upload_chunk.php:34 | adding an entry to the visited set adds one to the number of entries read as index v exactly when the entry is read as v |
| UploadChunk.ChunkStore.Store | upload_chunk.php:97-120 | for each error (bad parameters, missing or failed chunk, no directory, failed move) the result and staging are given; on success exactly entry "<name>.part<idx>" of the session is set to the payload, and every other entry and session is kept; the output area never changes |
| UploadChunk.ChunkStore.Finalize | upload_chunk.php:42-90 | invalid parameters, a missing directory and a missing part (the smallest index) fail and change nothing; otherwise the output gains exactly one file, under the first free name, holding part0 ++ ... ++ part(total-1); the session is removed, and the url is "uploads/" + rawurlencode(name) |
| UploadChunk.ChunkStore.PickFreeName | upload_chunk.php:59-67 | the chosen name is free: the base when the base is free, otherwise the candidate with the smallest free k >= 1; it is safe |
| UploadChunk.ChunkStore.WriteAssembled | upload_chunk.php:70-79 | the output maps the final name to the concatenation of the parts in index order and is otherwise unchanged |
| UploadChunk.ChunkStore.RemoveSession | upload_chunk.php:81-86 | every entry and then the session directory are gone; other sessions stay |
| UploadClient.TotalChunks | index.php:143 | the chunk count is the ceiling of size / CHUNK_SIZE, and it is 0 exactly for an empty file |
| UploadClient.ChunkStart | index.php:172 | no own ensures; `UploadClient.ChunkTiling` states where each chunk starts |
| UploadClient.ChunkEnd | index.php:173 | no own ensures; `UploadClient.ChunkTiling` states where each chunk ends |
| UploadClient.ChunkLength | index.php:174 | no own ensures; `UploadClient.ChunkTiling`, `UploadClient.ChunksDisjoint` and `UploadClient.ChunksSumToSize` state the lengths |
| UploadClient.ChunkTiling | index.php:172-174 | every chunk is non-empty and inside the file; each ends where the next starts; the last ends at the end of the file; all but the last hold CHUNK_SIZE bytes |
| UploadClient.ChunksDisjoint | index.php:172-174 | chunks with different indices share no byte |
| UploadClient.BytesBelowPrefix | index.php:172-174 | chunks 0 .. n-1 together cover min(n * CHUNK_SIZE, size) bytes |
| UploadClient.ChunksSumToSize | index.php:172-174 | the chunk lengths add up to the file size |
| UploadClient.StableId | index.php:94-96 | no own ensures; `UploadClient.StableIdInjective` states that it tells files apart and `Protocol.FinalizeAcceptsOnlyNonEmptyFiles` uses that it is never empty |
| UploadClient.StableIdInjective | index.php:94-96 | files with different name, size or lastModified get different ids |
| UploadClient.FailureMessage | index.php:113-121 | no own ensures; `UploadClient.SendChunk` states that a rejection carries the message of the last attempt |
| UploadClient.SendChunk | index.php:106-124 | at most `retries` waits, the j-th being 1000 * (4 - retries + j) ms; a delivery ends on a 200 reply; a rejection used every retry and carries the last attempt's message |
| UploadClient.SendChunkDelivered | index.php:106-124 | the chunk is delivered exactly when one of the first retries + 1 attempts gets status 200, and delivery stops at the first such attempt |
| UploadClient.DefaultRetrySchedule | index.php:106 | with the default of 3 retries: at most 4 attempts, after waits of 1000, 2000 and 3000 ms |
| UploadClient.HaveAfterProbe | index.php:151-152 | the set has no repetitions and holds exactly the reported indices, and is empty when the probe failed |
| UploadClient.SetOf | index.php:103 | new Set(list) has no repetitions and the same members as the list |
| UploadClient.ResumeLength | index.php:156 | no own ensures; `UploadClient.ResumeLengthIsChunkLength` states that it is the chunk's length for an index in range |
| UploadClient.ResumeSum | index.php:154-157 | no own ensures; `UploadClient.ResumedBytes` computes it and `UploadClient.ResumeSumIsPresentBytes` states what it counts |
| UploadClient.ResumeLengthIsChunkLength | index.php:156 | the amount added for a reported index is that chunk's length |
| UploadClient.ResumedBytes | index.php:154-157 | the resume pass computes the sum over the reported indices of min(CHUNK_SIZE, size - idx * CHUNK_SIZE) |
| UploadClient.ResumeSumIsPresentBytes | index.php:154-157 | for distinct reported indices in range, that sum counts exactly the lengths of those chunks |
| UploadClient.ResumedBytesBounded | index.php:154-157 | for distinct reported indices in range, the resumed bytes lie between 0 and the file size |
| UploadClient.Missing | index.php:168-180 | no own ensures; `UploadClient.MissingMembers` and `UploadClient.MissingIncreasing` state which chunks it lists and in what order |
| UploadClient.MissingMembers | index.php:177-180 | the chunks the loop sends below n are exactly the indices below n the probe did not report |
| UploadClient.MissingIncreasing | index.php:168 | they are sent in strictly increasing order |
| UploadClient.PresentPlusMissing | index.php:154-222 | resumed chunks plus sent chunks cover all bytes of chunks 0 .. n-1 |
| UploadClient.SentChunksPassed | index.php:168-180 | every chunk the loop sent is below totalChunks, was not reported by the probe and was reached before abort was seen |
| UploadClient.ChunkLoop | index.php:168-229 | every index before the stop point is passed without abort, and sent unless reported; a cancel stops at a check point that sees abort; a failure is a rejected chunk the probe did not report; have, the chunks sent in order and uploadedBytes grow by exactly the missing chunks and their lengths |
| UploadClient.FinishedLoopCoversFile | index.php:154-229 | a loop that finishes from distinct in-range reported indices ends with uploadedBytes == size and have = [0, totalChunks) |
| UploadClient.LoopReachesFinalize | index.php:231 | finalize is asked for exactly when abort is never seen and every chunk not reported was delivered |
| UploadClient.UploadPage.Cancel | index.php:250 | the cancel button sets abort |
| UploadClient.UploadPage.Start | index.php:126-248 | no file: nothing happens; otherwise finalize is requested exactly when abort is never seen and every missing chunk is delivered, with the stableId, the name and totalChunks, after sending exactly the missing chunks; uploadedBytes then equals the size; outcome is UploadCanceled exactly when abort is set, a ChunkFailed outcome names a chunk below totalChunks that the probe did not report, that was reached without abort and that was rejected, with the rejection message; every chunk sent is below totalChunks, was not reported and was reached before abort was seen; lastUploadId is the file's id unless finalize answered ok |
| Protocol.FileSlice | index.php:188 | the slice sent as chunk idx has that chunk's length |
| Protocol.AssembledSlices | upload_chunk.php:72-78 | concatenating the first n slices gives the file's first min(n * CHUNK_SIZE, size) bytes |
| Protocol.ReassemblyRestoresFile | upload_chunk.php:72-78 | when the session holds each chunk the page cut, finalize's concatenation is the original file |
| Protocol.RequestsAgreeOnName | upload_chunk.php:44 | for a name the pattern makes usable, store and finalize sanitize it alike, and finalize's second sanitizing changes nothing |
| Protocol.FallbackNamesDependOnClock | upload_chunk.php:21 | a name that falls back to "upload_<stamp>" gives different part names at different stamps |
| Protocol.FinalizeAcceptsOnlyNonEmptyFiles | upload_chunk.php:46 | the page's finalize request passes the parameter check exactly when the file is not empty |

## Left out

- HTML, CSS and every DOM update: the status text, the progress bars and
  the chunk counter. They are presentation only.
- Throughput, ETA and percentages: `fmtBytes`, `fmtRate`, `fmtETA`,
  `performance.now()` and the 250 ms sampling. They are floating-point
  display computations driven by the wall clock.
- XMLHttpRequest, fetch, JSON and `setTimeout`. An attempt is an abstract
  outcome. A delay is a returned number of milliseconds. The recursion
  through promise callbacks is a plain recursive function.
- `upload.onprogress` and `chunkLoaded`. They only feed the display.
- Request routing on the HTTP method and on the presence of `fileId` and
  `finalize` (upload_chunk.php:28, 42, 93-95). Each branch is its own
  method, and a request reaches the branch it names.
- The HTTP status code and the message strings of the exceptions
  (upload_chunk.php:121-123). Errors are the constructors of
  `UploadChunk.Error`, and the chunk error keeps its code.
- The top-level directory creation (upload_chunk.php:15-16). It is setup.
- UploadChunk.ChunkStore.Finalize: fopen failures are not modelled. A
  failed open of the output (upload_chunk.php:70-71) creates no file and
  throws. A failed open of part i (upload_chunk.php:74-75) throws after
  parts 0 .. i-1 were copied, leaving a partly written output under the
  final name. The model assumes every open succeeds. The results of
  `stream_copy_to_stream` and `fclose` (upload_chunk.php:76, 79) are not
  checked either: a short copy (disk full, an I/O error) still removes the
  session and answers ok with a truncated output. The model assumes every
  copy completes.
- mkdir races and move_uploaded_file internals. These are the two outcomes
  of `StoreIO`, where `mkdirOk` means that the directory exists afterwards.
- The best-effort `@unlink`/`@rmdir` cleanup. It is modelled as always
  succeeding.
- Unicode `\w` under `/u`. Word characters are ASCII letters, digits and
  `_`. Invalid UTF-8, on which `preg_replace` returns null, is not
  modelled.
- `pathinfo` corner cases. The filename and extension come from a split at
  the last dot.
- UploadNames.RawUrlEncode: PHP's `rawurlencode` works on the bytes of
  the string. The model takes each character as a Unicode code point and
  escapes its UTF-8 bytes. The names it is applied to are sanitized, hence
  ASCII, and for them the url is "uploads/" + name either way.
- UploadChunk.ChunkStore.Probe: `scandir` returns the entries sorted in
  ascending order. The model leaves that order out, so the list is
  specified by its members, the count of each index and its length. The
  `.` and `..` entries are not modelled, since the pattern rejects them.
- fileId as a path component (path traversal, `..` in fileId). It is an
  opaque map key. In particular a probe with the empty fileId builds the
  staging root itself as its directory (upload_chunk.php:30), which exists,
  and so lists the `.part<N>` entries directly under that root; the model
  treats "" as an ordinary key and answers the empty list unless a session
  is stored under it. The page never sends it, since `UploadClient.StableId` is never
  empty.
- Concurrent requests. Each method runs alone, and two finalizes of one
  session do not race.
- The wall clock of `date('Ymd_His')`. One stamp per request is a
  parameter. A request makes at most one `date` call: in a finalize, the
  call at upload_chunk.php:44 runs only without a fileName and the one at
  upload_chunk.php:21 only on the fallback, and the second sanitizing at
  upload_chunk.php:59 is given a safe name and makes none. One stamp per
  request therefore loses nothing.
- localStorage beyond the single `lastUploadId`.
- Floating-point `Math.ceil(file.size / CHUNK_SIZE)` for sizes beyond 2^53.
  Chunk counts use exact integer arithmetic.
- UploadClient.ChunkLoop: the cancel button is an oracle, namely the first
  check point that sees `abort`. Once `abort` is seen it stays set, so the
  model does not capture a click arriving between two check points in any
  other way.
- UploadClient.UploadPage.Start: a probe that answers with indices
  outside `[0, totalChunks)` is handled as the code does. The
  `uploadedBytes == size` conclusion is stated only for in-range indices.
