# DriveS3 Gateway: a verified model

DriveS3 Gateway serves an S3 API on top of Google Drive. This project models its
algorithmic core in Dafny and proves what that core promises. It needs nothing but
Dafny 4.11; `dafny verify dfyconfig.toml` checks all of it.

**Byte streams.** `Bytes` and `Lookahead` hold byte strings, chunked arrival and bounded
lookahead. `MultipartForm` is the form-upload parser, `AwsChunked` the decoder of signed
chunks, `StreamingUpload` the resumable-upload orchestrator, `DriveStorage` the storage
contract behind it, `ObjectCrypto` the seekable counter mode, `Range` and `RangedRead`
ranged reads of encrypted objects, `S3Upload` the part uploader of the backup client.
Each is a class or method with the source's own loops over chunks that the network chose,
proved equal to a function of the whole byte string.

**Time and rates.** `ScheduleTime` turns wall-clock times into instants and finds the next
run, `RateLimit` is the token bucket and the bounded least-recently-used map of them,
`QuotaMeter` the usage rings against a plain log of calls.

**Protocols over whole runs.** `Staging` is the stage, upload, commit, recover and clean-up
protocol, where a crash may fall between any two writes of the database; `BackupSchedule`
the scheduler; `ObjectLock` retention and legal hold over sequences of requests, the
deletion of the bucket among them.

**Codecs and decisions.** `SigV4` is percent-encoding and the canonical query, `Totp` base32
on wrapping 32-bit words (`JsBits` is JavaScript's bitwise arithmetic, `Digits` decimal and hexadecimal digits), `Wildcard` and `Cidr`
the two matchers of bucket policies, `Policy` and `Authorization` the decision on a request.

## What the proofs found

Where a promise does not hold of the code, the code is kept as it is, a lemma gives a
concrete case, and another says exactly when it does hold.

- Bounded lookahead (apps/server/src/s3/multipart-form.ts:100-107): past the limit, whether
  a delimiter is found depends on how the network cut the body
  (`Lookahead.FindIndependentOfChunks`).
- A wall-clock minute inside a forward jump that does not fall on a whole minute is missed
  (`ScheduleTime.MinuteReadingExact`), and a jump across midnight can lose a run
  (`ScheduleTime.NextRunIsFirst`, `ScheduleTime.MidnightJumpSkipsARun`).
- `retryAfterMs` is too short when the clock has stepped back, and never enough when the
  capacity is below one (`RateLimit.RetryAfterExact`).
- The usage rings lose calls when the clock steps back, or in windows of more than a day
  (`QuotaMeter.DriveQuotaMeter.Window` has the exact condition).
- Staging: a crash between marking a row failed and queueing its file loses the file; so
  does a commit that keeps the replaced object under version `null` when the history has
  one already. The active object's file is put in the deletion queue by an import whose
  item cannot be marked after its resumed commit, and by CopyObject and
  CompleteMultipartUpload when a step after their commit throws. Of the modelled events
  these are all (`Staging.EventOutcome`).
- The comment on CIDR ranges says a malformed range never matches. That holds exactly of
  those whose first piece is no address or whose second is nothing between 0 and 32 to
  `Number` (`Cidr.MalformedNeverMatchesExactly`): `a.b.c.d/` matches every address, and
  whatever follows a second slash is ignored. Well-formed ranges are all accepted
  (`Cidr.WellFormedAccepted`).
- The comment on owner-only actions says only an owner may perform them. Editors may, and
  viewers may read the policy (`Authorization.OwnerOnlyExactly`).
- A policy that grants to everyone through `NotPrincipal` is not called public
  (`Policy.PublicExactly`).
- Pruning compares retention dates as text. It agrees with the rules exactly when the text
  sorts as the date stands (`ObjectLock.PruningAgreesExactly`); of dates the gateway writes
  that is the years up to 9999, and later ones are pruned at once
  (`ObjectLock.WrittenDatesAgreeExactly`). A date that does not parse keeps refusing deletes
  for ever, as its comment says, and is pruned or not by its text.
- Some requests end a retention or a legal hold without asking the rules about the version
  as it is: deleting its bucket, which counts as empty when all its versions are archived;
  the dashboard's version delete; CompleteMultipartUpload and form uploads (PostObject) over
  a current version, which pass no versioning; a null version's replacement by a null delete
  marker; any write, DeleteObjects and the dashboard's delete outside an Enabled bucket, and
  over a null version whose id the history has; the promotion of an archived version, which
  leaves its lock behind; and a retention change or an S3 DELETE that asked about the lock
  before it changed (`ObjectLock.ProtectionEndsExactly`, `ObjectLock.ComplianceEndsExactly`,
  `ObjectLock.LegalHoldEndsExactly`, `ObjectLock.UnaskedRuns`, `ObjectLock.StaleRetention`).

## Model

| member | source | states |
|---|---|---|
| Lookahead.FindSound | apps/server/src/s3/multipart-form.ts:100-107 | The bounded search over arriving chunks, if it finds anything, finds the first occurrence in the whole body, and it does find it whenever that ends within the limit |
| Lookahead.FindWithinLimit | apps/server/src/s3/multipart-form.ts:100-107 | What the search finds ends within the limit and one more chunk, unless it was buffered already |
| Lookahead.FindIndependentOfChunks | apps/server/src/s3/multipart-form.ts:100-107 | It answers alike for every cutting of the bytes if and only if there is no delimiter or it ends within one byte of the limit |
| MultipartForm.SearchBuffer | apps/server/src/s3/multipart-form.ts:57-70 | The search loop finds the first occurrence |
| MultipartForm.BodyCursor.FindWithin | apps/server/src/s3/multipart-form.ts:100-107 | The cursor loses no byte, for every chunking finds what the whole body has within the limit, and never buffers more than the limit and one chunk |
| MultipartForm.BodyCursor.Ensure | apps/server/src/s3/multipart-form.ts:115-120 | Bytes are buffered until there are enough or the body has ended, and none is lost |
| MultipartForm.ReleaseKeepsFile | apps/server/src/s3/multipart-form.ts:289-293 | Releasing bytes that cannot begin a delimiter leaves the rest of the file, and how it ends, the same |
| MultipartForm.FileStream.Pull | apps/server/src/s3/multipart-form.ts:273-305 | One pull emits the next bytes of the file, closes exactly at the delimiter or fails when there is none |
| MultipartForm.FileStream.Drain | apps/server/src/s3/multipart-form.ts:273-311 | For every chunking the stream yields exactly the bytes before the first delimiter, and closes normally if and only if there is one; it buffers less than a delimiter and one chunk, however long the file is |
| MultipartForm.TruncatedFileNeverCloses | apps/server/src/s3/multipart-form.ts:279-303 | Without a closing delimiter the stream always ends in error, having emitted only a prefix of the content |
| MultipartForm.ParseMultipartForm | apps/server/src/s3/multipart-form.ts:175-264 | For every chunking the parser returns the whole-body parse when each header block and value fits its limit, and otherwise that or a refusal for size, never another form; all the while it holds at most the limit (or one byte) and one chunk |
| MultipartForm.Marks | apps/server/src/s3/multipart-form.ts:175-200 | The delimiters and line ends as text |
| MultipartForm.ParseExactly | apps/server/src/s3/multipart-form.ts:175-264 | Of every body: it has no first delimiter and is malformed, or it is fields within the limits and then closes, opens a file part, or is wrong in one of six ways, and the result is that and nothing else |
| MultipartForm.AcceptedIsComplete | apps/server/src/s3/multipart-form.ts:202-264 | A form accepted without a file had its closing delimiter, one with a file a header block that names it, and the fields are within their limit |
| MultipartForm.CutOffIsRefused | apps/server/src/s3/multipart-form.ts:202-205 | A well-formed form without a file that is cut off anywhere before its last dash is refused |
| MultipartForm.ParseInvertsRender | apps/server/src/s3/multipart-form.ts:175-311 | Whatever well-formed form is rendered, its fields, file headers and exact file bytes are read back |
| MultipartForm.FirstValueWins | apps/server/src/s3/multipart-form.ts:258-261 | Of a repeated field the first value is kept; no field is invented or lost |
| AwsChunked.Decoder.ReadLine | apps/server/src/s3/aws-chunked.ts:42-58 | A header line is found whole for every chunking, or refused past 8 KiB |
| AwsChunked.Decoder.Pull | apps/server/src/s3/aws-chunked.ts:74-107 | One pull takes the step of the whole-stream decoder; the signing key is wiped exactly when the stream has ended |
| AwsChunked.Decoder.DecodeAll | apps/server/src/s3/aws-chunked.ts:73-107 | For every chunking a run emits what the whole-stream decoder emits and ends as it does; only a header past the limit stops it sooner, after a prefix |
| AwsChunked.DecodeInvertsEncode | apps/server/src/s3/aws-chunked.ts:27-107 | The decoder inverts the encoder for every split of the payload and any hexadecimal spelling of the sizes |
| AwsChunked.EmittedIsAuthentic | apps/server/src/s3/aws-chunked.ts:60-101 | For any bytes whatever, each emitted chunk stands in the stream under a signature that extends the chain from the seed, and a normal close means that the empty chunk was signed and any declared length was met |
| AwsChunked.EmittedCarriesChain | apps/server/src/s3/aws-chunked.ts:60-101 | For any bytes whatever, the k-th emitted chunk stands in the stream in a frame whose signature is the chain, from the seed, over all chunks up to and with it |
| AwsChunked.FrameCarriesChain | apps/server/src/s3/aws-chunked.ts:60-71 | In any stream of chunks under chained signatures, the k-th frame carries the chain over the first k chunks |
| AwsChunked.HeaderExactly | apps/server/src/s3/aws-chunked.ts:76-82 | A chunk header is read if and only if it is hexadecimal digits, the mark and 64 lower-case hexadecimal digits, after a byte-order mark or not |
| AwsChunked.StepExactly | apps/server/src/s3/aws-chunked.ts:74-101 | The first frame of any stream is refused with a fault if and only if it has that fault |
| AwsChunked.FailureExactly | apps/server/src/s3/aws-chunked.ts:73-107 | A run that fails does so at the frame after its authentic chunks, for the fault that frame has, or for another length than was declared |
| DriveStorage.InMemoryDriveStorage.UploadResumableChunk | apps/server/src/drive/in-memory-storage.ts:365-403 | A chunk at the committed offset is taken in full and the last makes the blob; at any other offset nothing changes |
| DriveStorage.InMemoryDriveStorage.DownloadObject | apps/server/src/drive/in-memory-storage.ts:307-341 | The blob, or the slice its range header asks for |
| DriveStorage.ConcatChunks | apps/server/src/drive/in-memory-storage.ts:462-470 | The copies at running offsets make the concatenation |
| StreamingUpload.AlignChunk | apps/server/src/drive/upload-streaming.ts:212-215 | Every chunk target is a positive multiple of 262144 |
| StreamingUpload.AlignExactly | apps/server/src/drive/upload-streaming.ts:212-215 | The target is the largest multiple of 262144 up to the configured size, and at least one |
| StreamingUpload.PlanShape | apps/server/src/drive/upload-streaming.ts:139-184 | Offsets are contiguous, every chunk but the last has the same size and announces the declared length, exactly the last is final and has the real one, and together they cover the body, for a body of any length |
| StreamingUpload.UploadMultipart | apps/server/src/drive/upload-streaming.ts:63-100 | The single-shot path stores the enciphered body with the digests of the plaintext, and a body past the limit leaves no blob |
| StreamingUpload.UploadResumable | apps/server/src/drive/upload-streaming.ts:102-192 | For every chunking the stored blob is the enciphered body, a body past the limit leaves no blob, and the session was sent exactly the plan |
| StreamingUpload.StreamingUpload | apps/server/src/drive/upload-streaming.ts:49-61 | Both routes have the same outcome; a declared length past the limit is refused unread |
| ObjectCrypto.CounterBlockAt | apps/server/src/security/object-crypto.ts:37-49 | The block is the IV plus offset/16 as a big-endian number, wrapping within the block; offsets that are negative or unsafe are refused |
| ObjectCrypto.CarryStep | apps/server/src/security/object-crypto.ts:43-47 | One step of the byte loop keeps the value that is being added up |
| ObjectCrypto.SeekedCrypt | apps/server/src/security/object-crypto.ts:72-87 | A cipher started at the sought block and moved on by the offset within it continues the same keystream |
| ObjectCrypto.CryptInvolution | apps/server/src/security/object-crypto.ts:56-87 | Decrypting at a position undoes encrypting there |
| ObjectCrypto.CryptExactly | apps/server/src/security/object-crypto.ts:56-87 | Counter mode as in section 6.5 of NIST SP 800-38A: byte by byte the XOR with the block that the IV plus the block number is enciphered to |
| ObjectCrypto.TransformThrough | apps/server/src/security/object-crypto.ts:89-117 | The transform of a stream is the transform of its bytes, for every chunking |
| ObjectCrypto.EncryptStream | apps/server/src/security/object-crypto.ts:56-63 | The encryption of the whole stream from position zero |
| ObjectCrypto.DecryptStream | apps/server/src/security/object-crypto.ts:72-87 | What comes out is the decryption at the given offset, for every chunking |
| Range.ResolvesToWanted | apps/server/src/s3/range.ts:21-49 | A range resolves to exactly the bytes its meaning asks for, and is refused exactly when it asks for none |
| Range.ForwardedHeaderReadBack | apps/server/src/s3/range.ts:42-48 | The header that is forwarded is read by the storage as the very same span |
| Range.HeaderExactly | apps/server/src/s3/range.ts:21-49 | Every header: without the unit, in any case and after trimming, the whole object; several ranges are not served; digits around one dash ask for what they say; all else is refused |
| Range.ResolvedExactly | apps/server/src/s3/range.ts:33-49 | Numbers that JavaScript cannot hold are refused, and a resolved range carries its total and its header |
| Range.SliceExactly | apps/server/src/drive/in-memory-storage.ts:307-341 | The storage answers a header with the bytes from its first number, if any, to its second, if any |
| RangedRead.SpanDecrypts | apps/server/src/services/encryption-service.ts:120-168 | Any span of the stored bytes, decrypted at its start, is that span of the plaintext |
| RangedRead.AcceptedSpan | apps/server/src/s3/copy-source.ts:155-171 | The storage answers an accepted range's forwarded header with exactly its span |
| RangedRead.OpenStream | apps/server/src/s3/copy-source.ts:155-183 | For every accepted range and every chunking, what comes out is exactly that slice of the original plaintext |
| ScheduleTime.ZonedTimeToInstant | apps/server/src/backup/schedule-time.ts:204-222 | The candidate loop returns the least instant at which the zone's clock reads the time or, if it was skipped, the instant reading it plus the size of the jump |
| ScheduleTime.ZonedTimeSharp | apps/server/src/backup/schedule-time.ts:196-222 | The same of the function that the loop refines, and the instant is within 14 hours of the same time in UTC |
| ScheduleTime.ZonedTimeShows | apps/server/src/backup/schedule-time.ts:209-220 | The same at the clock's resolution of minutes, for changes on a whole minute |
| ScheduleTime.SampledOffsets | apps/server/src/backup/schedule-time.ts:204-207 | The offsets tried are those a day and a half before and after |
| ScheduleTime.MinuteReadingExact | apps/server/src/backup/schedule-time.ts:209-220 | The minute reading is right for every wall-clock minute if and only if the jump is backward or on a whole minute |
| ScheduleTime.NormalizeNormalizes | apps/server/src/backup/schedule-time.ts:61-117 | What is accepted is normalized, keeps its frequency, and is unchanged when normalized again |
| ScheduleTime.NormalizeExactly | apps/server/src/backup/schedule-time.ts:61-117 | Exactly which timings are accepted, with which limits and defaults, and as what |
| ScheduleTime.TimesOfDay | apps/server/src/backup/schedule-time.ts:61-117 | The accepted times of day are the minutes of a day with two digits each |
| ScheduleTime.NextRunAt | apps/server/src/backup/schedule-time.ts:120-144 | The search loop refines the function of the following rows; in every zone of the stated kind it returns a strictly later run |
| ScheduleTime.NextRunOnClock | apps/server/src/backup/schedule-time.ts:120-144 | A daily or weekly schedule at h:m next runs when the zone's clock reads h:m on the first date from today, a listed weekday counted from Monday 5 January 1970 if weekly, for which that is still to come |
| ScheduleTime.IntervalRuns | apps/server/src/backup/schedule-time.ts:120-128 | An interval schedule runs at equal distances in every zone, and an on-change one looks every minute |
| ScheduleTime.NextRunIsLater | apps/server/src/backup/schedule-time.ts:120-144 | For every normalized timing the next run exists and is strictly later; the throw is never reached |
| ScheduleTime.SearchEnds | apps/server/src/backup/schedule-time.ts:131-144 | The search ends at the first matching date whose run is still to come, within eight days |
| ScheduleTime.DueIncreases | apps/server/src/backup/schedule-time.ts:204-222 | Later dates fall due strictly later, whatever the jump between them |
| ScheduleTime.NextRunFromDue | apps/server/src/backup/schedule-time.ts:120-144 | From one date's run, the next is that of the next matching date |
| ScheduleTime.IterationVisits | apps/server/src/backup/schedule-time.ts:120-144 | Iterated from its own results the schedule runs on the matching dates one by one |
| ScheduleTime.EveryMatchVisited | apps/server/src/backup/schedule-time.ts:109-144 | Every matching date is visited, exactly once |
| ScheduleTime.NextRunIsFirst | apps/server/src/backup/schedule-time.ts:119-144 | It is the first moment after its argument if and only if yesterday's run is not still to come |
| ScheduleTime.MidnightJumpSkipsARun | apps/server/src/backup/schedule-time.ts:127-144 | A concrete zone and time where a run is lost |
| RateLimit.TokenBucket.TakeAt | apps/server/src/security/rate-limit.ts:36-59 | The bucket's take and refill refine the functions of the following rows and keep the tokens within zero and the capacity |
| RateLimit.RunBound | apps/server/src/security/rate-limit.ts:36-59 | Over any sequence of takes, even with a clock that steps back, tokens stay within the capacity and what was allowed plus what is left is at most what there was plus what came in |
| RateLimit.BurstBound | apps/server/src/security/rate-limit.ts:36-59 | Between any two takes, however long the bucket was idle before, what is allowed never exceeds the capacity plus the rate times the time elapsed since the first of them |
| RateLimit.DecidedByWindows | apps/server/src/security/rate-limit.ts:36-59 | For any clock, a take from a bucket that was full at its first take is allowed if and only if no window that ends there has more takes than the capacity and what came in since; and what remains is how many more there is room for |
| RateLimit.BurstExactly | apps/server/src/security/rate-limit.ts:36-45 | Of takes at one moment a full bucket allows as many as it has whole tokens |
| RateLimit.RetryAfterExact | apps/server/src/security/rate-limit.ts:36-45 | A take exactly retryAfterMs after a refusal succeeds if and only if the capacity is at least one and the clock was behind by no more than the rounding |
| RateLimit.RetryAfterIsLeast | apps/server/src/security/rate-limit.ts:42-44 | With a clock that has not stepped back the advice is right and no earlier millisecond is |
| RateLimit.RetryAfterSteppedClock | apps/server/src/security/rate-limit.ts:42-59 | A concrete stepped-back clock for which the advice is too short |
| RateLimit.KeyedRateLimiter.TakeKey | apps/server/src/security/rate-limit.ts:79-93 | The map of bucket objects in insertion order refines the limiter of the following rows; no two keys share a bucket and at most maxKeys are held |
| RateLimit.BoundedDecidesAsUnbounded | apps/server/src/security/rate-limit.ts:67-93 | The limiter holds the most recently taken keys, and decides as an unbounded map of buckets in every run where fewer than maxKeys others were taken since each key's previous take |
| RateLimit.LimiterDecides | apps/server/src/security/rate-limit.ts:79-93 | In every run where keys come back soon enough each decision is that of the windows over the key's own takes, whatever other keys did |
| RateLimit.FirstTake | apps/server/src/security/rate-limit.ts:79-93 | A key that is not held starts with a full bucket |
| RateLimit.FollowingIsSince | apps/server/src/security/rate-limit.ts:79-91 | The keys after a key in the recency order are exactly the others taken since its last take |
| RateLimit.RunStaysBounded | apps/server/src/security/rate-limit.ts:84-91 | In every run at most maxKeys keys are held |
| QuotaMeter.Write | apps/server/src/drive/quota-meter.ts:150-154 | One write rolls the slot in place if it held another stamp, and adds the call |
| QuotaMeter.WriteHolds | apps/server/src/drive/quota-meter.ts:90-104 | Each write keeps the ring equal to the log's live counts, whatever the clock does |
| QuotaMeter.RingReports | apps/server/src/drive/quota-meter.ts:212-220 | For any log and any clock, the slots in a span sum to exactly the live calls of the span |
| QuotaMeter.LiveExact | apps/server/src/drive/quota-meter.ts:150-154 | The live calls give the log's own count if and only if no call that counts lost its slot to a later one |
| QuotaMeter.NothingLost | apps/server/src/drive/quota-meter.ts:194-225 | With calls in non-decreasing time, a window no longer than its ring loses nothing |
| QuotaMeter.TallyExactly | apps/server/src/drive/quota-meter.ts:90-104 | What each figure counts: throttled calls, errors that were not throttled, and the three kinds |
| QuotaMeter.WindowExactly | apps/server/src/drive/quota-meter.ts:194-202 | Which calls a window spans, to the second up to ten minutes and to the minute above |
| QuotaMeter.HourExactly | apps/server/src/drive/quota-meter.ts:227-229 | The hour of a user is the window of 3600 seconds |
| QuotaMeter.MeterSizes | apps/server/src/drive/quota-meter.ts:125-148 | After any log: the sizes of the rings, at most 200 users, the totals, and the last 50 throttled calls, in order |
| QuotaMeter.DriveQuotaMeter.Record | apps/server/src/drive/quota-meter.ts:125-148 | A recorded call is counted in both rings, the user's ring, the totals and the throttle list, which keeps the newest 50 |
| QuotaMeter.DriveQuotaMeter.EvictOldestUser | apps/server/src/drive/quota-meter.ts:169-179 | Removes the first of the users whose last call is the oldest, and no other |
| QuotaMeter.DriveQuotaMeter.AddEntry | apps/server/src/drive/quota-meter.ts:156-164 | A new user is put last, and at most 200 are ever tracked |
| QuotaMeter.DriveQuotaMeter.Window | apps/server/src/drive/quota-meter.ts:194-225 | A window reports the log's own count if and only if none of its calls lost its slot; with a steady clock and at most a day it always does; kinds sum to requests |
| QuotaMeter.DriveQuotaMeter.UserUsages | apps/server/src/drive/quota-meter.ts:227-247 | One row for each tracked user with requests in the last hour, by falling requests and then by id |
| QuotaMeter.RowsExactly | apps/server/src/drive/quota-meter.ts:227-245 | A row for every user with requests in the last hour, for no other, and with that user's own figures |
| QuotaMeter.EntryExact | apps/server/src/drive/quota-meter.ts:227-247 | With a steady clock a user's row is exactly the log's count of that user's calls in the last hour since the entry was made |
| QuotaMeter.UsersWithinHour | apps/server/src/drive/quota-meter.ts:227-247 | The rows' last-hour requests together never exceed the log's count for the 3600-second window |
| QuotaMeter.SteppedClockLoses | apps/server/src/drive/quota-meter.ts:150-154 | A concrete stepped-back clock for which a ten-minute window reports too little |
| QuotaMeter.TwoDaysLose | apps/server/src/drive/quota-meter.ts:194-202 | A concrete two-day window that reports too little |
| Staging.CommitKeeps | apps/server/src/db/repositories/objects.ts:251-524 | The commit makes the new file active and sends the replaced one to the history or the queue; a file is lost exactly when the version slot is taken |
| Staging.CommitPlaces | apps/server/src/db/repositories/objects.ts:316-498 | Where the replaced object goes, case by case of the versioning, its version and its slot |
| Staging.RowMovesExactly | apps/server/src/db/repositories/object-staging.ts:154-195 | A row is recorded once, settled once, and then left alone |
| Staging.FinishComesTo | apps/server/src/services/object-service.ts:142-195 | Uncut, the end of an upload commits the row, or fails it and queues the file, exactly by the check, the refusal and the free key |
| Staging.ResumeComesTo | apps/server/src/services/drive-import-service.ts:172-202 | Uncut, what a re-run item makes of the row an earlier run left |
| Staging.RecoverComesTo | apps/server/src/jobs/staging-recovery.ts:19-45 | Uncut, recovery fails a stale row and queues its file if it has one |
| Staging.HistoryKept | apps/server/src/db/repositories/objects.ts:320-361 | While every commit to a key has versioning enabled and a free slot and the key is not removed, every file committed there stays its object's or a version's, over any run |
| Staging.NeverFinalized | apps/server/src/jobs/staging-recovery.ts:27-33 | An unsettled row's file is never the active one, so recovery never takes a row for committed |
| Staging.RecoverRun | apps/server/src/jobs/staging-recovery.ts:19-45 | Recovery cut at any write loses nothing; only the row it stopped at may be queued and unsettled, and when it completes none is |
| Staging.FirstSuspect | apps/server/src/db/repositories/object-staging.ts:196-207 | The row an interrupted recovery left half-done is the first that the next one looks at |
| Staging.EventOutcome | apps/server/src/services/object-copy-service.ts:80-177 | For every event cut at any write: the file of an active object or kept version is queued if and only if a resumed import's mark throws after its commit or a later step of a request throws while its committed object is there, and otherwise a recorded file is lost if and only if the event is one of the two that leak |
| Staging.NoActiveFileQueued | apps/server/src/jobs/orphan-cleanup.ts:45-107 | In every run of the modelled events without those two, no queued or deleted file is ever an active object's or a kept version's |
| Staging.NoFileLost | apps/server/src/services/object-copy-service.ts:147-177 | In every run of the modelled events without those two and without a leaking one, every file recorded by markUploaded is held by an unsettled row, the namespace, the history or the queue until it is deleted |
| Staging.CommitsAtMostOnce | apps/server/src/services/drive-import-service.ts:172-202 | However often an import item is re-run and wherever crashes fall, its request commits at most one object |
| Staging.CrashLeaks | apps/server/src/services/object-copy-service.ts:160-173 | A concrete run in which a crash loses a file |
| Staging.SecondNullLeaks | apps/server/src/db/repositories/objects.ts:316-361 | A concrete run in which a second null version is lost |
| Staging.ThrowingMarkQueuesActive | apps/server/src/services/drive-import-service.ts:178-196 | A concrete run that queues an active object's file |
| Staging.LateStepQueuesActive | apps/server/src/s3/operations/copy-object.ts:142-210 | A concrete run in which a step after a copy's commit throws and the active object's file is queued |
| Staging.LateOutcome | apps/server/src/s3/operations/multipart-complete.ts:188-241 | A request whose later step throws, at any time after its commit, queues the active file if its object is still there, and else leaves the state sound |
| Staging.Gateway.FinishUpload | apps/server/src/services/object-service.ts:142-195 | What the upload's end writes, up to a crash after any number of writes |
| Staging.Gateway.ResumeItem | apps/server/src/services/drive-import-service.ts:172-202 | What a re-run item writes on the row an earlier run left, up to a crash |
| Staging.Gateway.RecoverStaleStaging | apps/server/src/jobs/staging-recovery.ts:14-47 | What the recovery loop writes over its rows, up to a crash |
| Staging.CleanupWorker.RunOnce | apps/server/src/jobs/orphan-cleanup.ts:38-112 | A row leaves the queue exactly when its file is gone; a refused one stays with one attempt more, tried again daily from the twelfth; other rows are untouched |
| Staging.RetryExactly | apps/server/src/jobs/orphan-cleanup.ts:80-107 | When a refused deletion is tried again |
| BackupSchedule.BackupScheduleService.RunDue | apps/server/src/services/backup-schedule-service.ts:177-201 | A pass over a schedule refines the function of the following rows and keeps an enabled schedule below the failure limit |
| BackupSchedule.TimedQueuedExactly | apps/server/src/services/backup-schedule-service.ts:203-226 | A schedule by the clock queues a run exactly when it is due, looks, has a healthy destination, has something to copy or does not mind, and the run can be created |
| BackupSchedule.TimedPassExactly | apps/server/src/services/backup-schedule-service.ts:177-226 | All that a pass does to such a schedule: when it pauses, counts a failure, and what it records |
| BackupSchedule.OnChangePassExactly | apps/server/src/services/backup-schedule-service.ts:239-282 | All that a pass does to an on-change schedule |
| BackupSchedule.HeldSinceExactly | apps/server/src/services/backup-schedule-service.ts:245-298 | Since when a pass holds changes: once in each period of the least interval it looks whatever the clock of the writes says |
| BackupSchedule.EndExactly | apps/server/src/services/backup-schedule-service.ts:352-378 | All that a run's end does to the row |
| BackupSchedule.BackupScheduleService.FireOnChange | apps/server/src/services/backup-schedule-service.ts:239-282 | The on-change part of a pass, from the row read before the slot was claimed |
| BackupSchedule.BackupScheduleService.ClaimSlot | apps/server/src/db/repositories/backup-schedules.ts:232-241 | A slot is taken if and only if the schedule is on and stands at it, and once taken nobody can take it again |
| BackupSchedule.BackupScheduleService.RacingPasses | apps/server/src/services/backup-schedule-service.ts:180-191 | Of two passes that read the same due slot, whatever their clocks say, exactly the first takes it, and its next lies after now |
| BackupSchedule.BackupScheduleService.RecordRunResult | apps/server/src/services/backup-schedule-service.ts:352-363 | A run's end keeps an enabled schedule below the failure limit, resets, keeps or raises the count, switches the schedule off only for a failure that reaches the limit, and leaves slot and waiting changes alone |
| BackupSchedule.BackupScheduleService.Update | apps/server/src/db/repositories/backup-schedules.ts:189-224 | An edit keeps an enabled schedule below the failure limit; switching on forgives all failures and forgets when changes started waiting, and an edit that changes neither switch keeps both |
| BackupSchedule.QueuedExactly | apps/server/src/services/backup-schedule-service.ts:239-282 | The exact passes in which an on-change schedule queues a run |
| BackupSchedule.PendingStays | apps/server/src/services/backup-schedule-service.ts:235-282 | pending_since stays fixed over any passes, ends of runs and runs by hand until a pass queues a run or finds nothing left to copy |
| BackupSchedule.MaximumWaitHolds | apps/server/src/services/backup-schedule-service.ts:258-281 | Whatever passes, ends of runs and runs by hand went by, the first pass past the maximum wait that can start a run queues one |
| BackupSchedule.BulkUploadWaits | apps/server/src/services/backup-schedule-service.ts:229-265 | While writes keep coming and the wait is not over no pass queues a run, whatever runs end or are started by hand |
| BackupSchedule.NoticedExactly | apps/server/src/services/backup-schedule-service.ts:284-298 | Remaining work is noticed by exactly the first pass, one after a newer write, and the first in a new period |
| BackupSchedule.NoticedInNewPeriod | apps/server/src/services/backup-schedule-service.ts:284-298 | Over two passes that look, work the first left unnoticed is noticed by the second in a new period |
| BackupSchedule.SlotClaimedOnce | apps/server/src/services/backup-schedule-service.ts:180-191 | For every normalized timing and regular zone, a due pass moves the slot to a time after now, and no pass before that time does anything |
| BackupSchedule.EnabledBelowLimit | apps/server/src/services/backup-schedule-service.ts:352-378 | In every run of passes, results, edits and runs by hand an enabled schedule is below the failure limit |
| BackupSchedule.PausedAtLimit | apps/server/src/services/backup-schedule-service.ts:372-378 | A schedule that keeps failing is paused at the limit and stays so until it is edited |
| BackupSchedule.FailureMeansBlocked | apps/server/src/services/backup-schedule-service.ts:276-281 | A pass counts a failure only when a run was due and could not start, and its changes keep waiting |
| S3Upload.ChunkReader.Read | apps/server/src/backup/chunk-reader.ts:13-37 | For every chunking, exactly the next size bytes, fewer only at the end |
| S3Upload.PiecesShape | apps/server/src/backup/s3-client.ts:305-319 | The parts concatenate to the stream and all but the last hold exactly the part size |
| S3Upload.OnePutExactly | apps/server/src/backup/s3-client.ts:295-320 | One PUT exactly when the stream fits in one part; otherwise a creation, the parts numbered from one in order, and the completion with the tags they were answered with |
| S3Upload.UploadStream | apps/server/src/backup/s3-client.ts:285-331 | For every chunking the exact requests sent; it succeeds exactly when nothing fails and there are at most 10000 parts; it stops at the first failure, at the limit or where the source breaks; any failure after the creation ends with the abort, none before it does, and the source is cancelled |
| S3Upload.PartSizeFits | apps/server/src/backup/s3-client.ts:333-338 | A stream no longer than the hint needs at most 9999 parts |
| S3Upload.PartSizeExactly | apps/server/src/backup/s3-client.ts:333-338 | The configured size or, if larger, the least whole number of MiB with which 9999 parts hold the hint |
| S3Upload.SendWithRetries | apps/server/src/backup/s3-client.ts:191-207 | Only retryable failures are followed by another attempt, up to the limit |
| SigV4.UriEncode | apps/server/src/auth/sigv4-canonical.ts:22-43 | What the loop writes is the encoding of the following rows, and decodes to its input |
| SigV4.DecodeInvertsEncode | apps/server/src/auth/sigv4-canonical.ts:17-43 | Percent-decoding undoes the encoding, with slashes encoded or kept |
| SigV4.EncodeInjective | apps/server/src/auth/sigv4-canonical.ts:17-43 | No two texts have the same encoding |
| SigV4.EncodesAs | apps/server/src/auth/sigv4-canonical.ts:17-43 | The unreserved characters of section 2.3 of RFC 3986 stay, and any other byte becomes a percent sign and two upper-case digits |
| SigV4.BuildCanonicalQuery | apps/server/src/auth/sigv4-canonical.ts:67-72 | Encoding, sorting the encodings and joining give the canonical query, which is read back as exactly the parameters, each as often as it was given |
| SigV4.CanonicalText | apps/server/src/auth/sigv4-canonical.ts:66-72 | The canonical query is name=value of every parameter, encoded, joined by ampersands, by encoded name and then by encoded value |
| SigV4.LexExactly | apps/server/src/auth/sigv4-canonical.ts:69-70 | That order is by the smaller character where two texts first differ, and a beginning before the whole |
| SigV4.CanonicalExactly | apps/server/src/auth/sigv4-canonical.ts:66-72 | Two parameter lists have the same canonical query if and only if they are the same multiset |
| SigV4.SentAsSigned | apps/server/src/backup/s3-client.ts:266-277 | The canonical query, parsed and canonicalized again, is itself, so what is sent is what was signed |
| Totp.Base32Encode | apps/server/src/security/totp.ts:13-29 | On the never-masked wrapping accumulator the loop writes the bits of the input in groups of five |
| JsBits.BitwiseExactly | apps/server/src/security/totp.ts:13-47 | JavaScript's and, or and exclusive or, bit by bit |
| JsBits.ShlExactly | apps/server/src/security/totp.ts:13-47 | Its left shift drops the high bits of the thirty-two and brings in zeros |
| Totp.Base32Decode | apps/server/src/security/totp.ts:31-47 | On the same accumulator the loop recovers as many whole bytes as the symbols hold |
| Totp.DecodeInvertsEncode | apps/server/src/security/totp.ts:13-47 | Whatever decodes an encoding is what was encoded |
| Totp.EncodedLength | apps/server/src/security/totp.ts:13-29 | n bytes give the ceiling of 8n/5 symbols |
| Totp.RoundTrip | apps/server/src/security/totp.ts:13-47 | Decoding the encoding of any byte array gives it back |
| Wildcard.LexedIsPattern | apps/server/src/s3/policy.ts:257-259 | The built regular expression is read back as exactly the pattern's own tokens: nothing can be injected |
| Wildcard.MatchesExactly | apps/server/src/s3/policy.ts:250-260 | A value matches if and only if it is the pattern with each star replaced by any run of UTF-16 code units and each question mark by one |
| Wildcard.SyntaxCharacters | apps/server/src/s3/policy.ts:257-259 | Which characters are escaped, and what stands for any character |
| Wildcard.UnitsCons | apps/server/src/s3/policy.ts:255-260 | A character is one code unit, or a high and a low surrogate |
| Cidr.ToInt | apps/server/src/s3/policy.ts:299-310 | Shifting in four octets on 32-bit words gives the address as a number, and anything else is refused |
| Cidr.AddressExactly | apps/server/src/s3/policy.ts:299-310 | A text is an address if and only if it is four numbers of one to three digits up to 255 with dots between, the first the most significant |
| Cidr.IpInCidr | apps/server/src/s3/policy.ts:293-318 | An address is in a range if and only if both are addresses and their top bits agree as quotients by 2^(32-bits) |
| Cidr.HoldsSomeExactly | apps/server/src/s3/policy.ts:292-318 | A range holds some address if and only if its first piece is one and its second, if any, is a number from 0 to 32 |
| Cidr.MalformedNeverMatchesExactly | apps/server/src/s3/policy.ts:292-318 | A malformed range never matches if and only if its first piece is no address or its second is no number from 0 to 32 |
| Cidr.WellFormedAccepted | apps/server/src/s3/policy.ts:292-318 | A well-formed range is never refused, given that its digits are read as decimal |
| Cidr.SecondSlashIgnored | apps/server/src/s3/policy.ts:293-297 | Whatever follows a second slash changes no answer |
| Cidr.EmptyPrefixHoldsAll | apps/server/src/s3/policy.ts:292-297 | A malformed range, one that ends in a slash, holds every address |
| Policy.MatchesConditions | apps/server/src/s3/policy.ts:339-381 | All conditions hold, an unavailable key satisfying exactly the negated operators |
| Policy.ConditionExactly | apps/server/src/s3/policy.ts:339-381 | When a condition holds, operator by operator, with a value and without one |
| Policy.KeysExactly | apps/server/src/s3/policy.ts:320-337 | What each of the four condition keys reads; others are unavailable |
| Policy.NegationIsOpposite | apps/server/src/s3/policy.ts:346-378 | A negated operator holds exactly when its positive one does not |
| Policy.EvaluatePolicy | apps/server/src/s3/policy.ts:391-406 | A Deny that applies anywhere wins, then an Allow that applies |
| Policy.AppliesExactly | apps/server/src/s3/policy.ts:391-406 | When a statement applies to a request: whom it names, what it reaches by glob patterns, and all its conditions |
| Policy.ScopeExactly | apps/server/src/s3/policy.ts:270-282 | Which actions and resources a statement reaches, with and without NotAction and NotResource |
| Policy.PrincipalExactly | apps/server/src/s3/policy.ts:284-290 | Whom a statement names |
| Policy.OrderDoesNotMatter | apps/server/src/s3/policy.ts:391-406 | Reordering or repeating statements changes nothing |
| Policy.AddingIsMonotone | apps/server/src/s3/policy.ts:391-406 | Adding a Deny never allows more and adding an Allow never refuses more |
| Policy.PublicExactly | apps/server/src/s3/policy.ts:408-415 | Exactly which policies reach the anonymous public, and which of them are called public |
| Policy.NotPrincipalIsNotCalledPublic | apps/server/src/s3/policy.ts:408-415 | A concrete policy that grants everything to everyone and is not called public |
| Authorization.OwnerOnlyExactly | apps/server/src/services/authorization-service.ts:193-234 | An owner-only action is allowed exactly when no statement denies it and the caller is the owner, an editor or, for reading the policy, a viewer; no Allow and no ACL is among the reasons |
| Authorization.AllowedExactly | apps/server/src/services/authorization-service.ts:193-255 | Any other action is allowed exactly when no statement denies it, to the owner either, and a statement, ownership, the role or an ACL grants it; without credentials a write needs an Allow or the bucket's own public-read-write ACL |
| Authorization.DecisionExactly | apps/server/src/services/authorization-service.ts:55-255 | The whole decision, action by action and ACL by ACL, in one condition |
| Authorization.VisibleExactly | apps/server/src/services/authorization-service.ts:74-79 | Which permissions make a bucket show itself |
| Authorization.AskedAs | apps/server/src/services/authorization-service.ts:193-217 | What the policy is asked about a request |
| Authorization.GrantsDoNotReachOwnerOnly | apps/server/src/services/authorization-service.ts:64-70 | Other Allows and other ACLs leave an owner-only decision as it is |
| Authorization.AmendingIsMonotone | apps/server/src/services/authorization-service.ts:193-237 | Amending one bucket's policy is monotone in the final decision and leaves other buckets alone |
| Authorization.AnonymousReachesOnlyOne | apps/server/src/services/authorization-service.ts:129-187 | An anonymous request reaches a bucket if and only if it alone of its name lets the request through |
| Authorization.AuthenticatedReachesOnlyOne | apps/server/src/services/authorization-service.ts:147-187 | With credentials but no bucket of the name, exactly the only bucket that lets the request through or, if none does, the only visible one |
| Authorization.NoExistenceOracle | apps/server/src/services/authorization-service.ts:174-186 | To an anonymous caller "not permitted" and "does not exist" are the same answer |
| ObjectLock.ComplianceHolds | apps/server/src/s3/object-lock.ts:40-128 | Under COMPLIANCE until t a version stays so, with a date no earlier, through any requests before t none of which is one that ends it; bypasses are no exception |
| ObjectLock.ComplianceOverRuns | apps/server/src/s3/object-lock.ts:40-128 | With a non-decreasing clock that has not reached t the same holds over every run of retention changes that have seen the lock as it is, hold toggles, S3 version deletes and prunes and, with versioning enabled, deletes of the key and writes committed with the bucket's own versioning, which form uploads and multipart completion are not |
| ObjectLock.GovernanceHolds | apps/server/src/s3/object-lock.ts:62-128 | Under either mode a version stays retained until t in runs with no owner bypass and no request that does not ask |
| ObjectLock.ProtectionEndsExactly | apps/server/src/s3/object-lock.ts:62-128 | Of the requests that change or delete a version's row, the deletion of its bucket included, exactly which end a retention before its date: the owner bypassing GOVERNANCE, and those that do not ask the rules about the version as it is |
| ObjectLock.DeleteExactly | apps/server/src/s3/object-lock.ts:62-84 | When a deletion is allowed, and why not |
| ObjectLock.ReplacementExactly | apps/server/src/s3/object-lock.ts:97-128 | When a retention may be replaced |
| ObjectLock.PlacesExactly | apps/server/src/services/object-service.ts:300-345 | Where a version goes when its key is written or deleted, or it is promoted |
| ObjectLock.KeptAsCommitted | apps/server/src/db/repositories/objects.ts:316-361 | A write keeps a version exactly when the commit keeps the object's file in the history |
| ObjectLock.ComplianceEndsExactly | apps/server/src/s3/object-lock.ts:62-128 | Exactly which of them end COMPLIANCE before its date; no bypass does |
| ObjectLock.UnaskedRuns | apps/server/src/services/bucket-service.ts:125-148 | In an Enabled bucket a version under COMPLIANCE is destroyed before its date by a form upload or multipart completion, by a write and the dashboard, and by a delete of its key and the deletion of the bucket |
| ObjectLock.StaleRetention | apps/server/src/s3/operations/lock.ts:100-124 | Of two retention changes that read the unlocked version, the second puts an earlier GOVERNANCE date in the place of COMPLIANCE |
| ObjectLock.PromotionUnlocks | apps/server/src/s3/operations/objects.ts:496-539 | An archived version promoted by a deletion loses its lock, and then anyone allowed to delete can delete it |
| ObjectLock.LegalHoldEndsExactly | apps/server/src/s3/object-lock.ts:62-84 | Exactly which of these requests end a legal hold |
| ObjectLock.LegalHoldHolds | apps/server/src/s3/object-lock.ts:68-68 | While nobody lifts a legal hold no run of the requests that ask destroys the version |
| ObjectLock.PruningAgreesExactly | apps/server/src/db/repositories/object-versions.ts:252-263 | Pruning takes what a delete without bypass could if and only if no retention date sorts, as text, otherwise than it stands in time |
| ObjectLock.WrittenDatesAgreeExactly | apps/server/src/db/repositories/object-versions.ts:252-263 | For dates as the gateway writes them, it does so if and only if there is a hold, no mode, or a year up to 9999 |
| ObjectLock.IsoOrder | apps/server/src/db/repositories/object-versions.ts:252-263 | ISO texts sort as their instants up to the year 9999, and texts of later years before all of them |
| ObjectLock.UnreadableDateExactly | apps/server/src/s3/object-lock.ts:36-45 | A date that does not parse refuses every delete without bypass, under COMPLIANCE every delete, and is pruned exactly when its text sorts up to today's |
| ObjectLock.UnreadableTexts | apps/server/src/db/repositories/object-versions.ts:252-263 | A concrete unreadable text that is never pruned and one that is pruned at once |

## Left out

- HMAC, AES, SHA-256 and MD5 are uninterpreted functions; wrapping of data keys, SigV4A and the derivation of signing keys are not modelled.
- Regular expressions over part headers, `TextDecoder`, Unicode case folding, `Intl`, `URL` and `Number` on text are parameters; a time zone is a function from instants to offsets. `parseBoundary` and the header regexes of multipart-form.ts are not modelled.
- Texts are their UTF-8 bytes in `SigV4`; strings with unpaired surrogates are left out.
- Google Drive itself, OAuth, HTTP routing, the dashboard and the command-line scripts. Drive commits each chunk in full; short commits and transport errors of the request body are left out, except that the backup client's source may fail (`S3Upload`).
- Identifiers made at random (files, sessions, versions, rows) are fresh counters; row columns that no branch reads are dropped.
- Abort signals, drive-limit slots and upload locks, which only end or delay the modelled steps.
- The token bucket is over real numbers and part sizes over integers; rounding of floating point is left out, and so are the `perMinute` figure and the ISO dates of `QuotaMeter`.
- QuotaMeter.DriveQuotaMeter.UserUsages: `localeCompare` is any total preorder on ids, and the order among ids it calls equal is not stated. A user's own ring is a value in the map, not an array updated in place.
- QuotaMeter.NothingLost: needs a clock that does not step back, as the source's own comment on windows assumes; `QuotaMeter.LiveExact` says what any clock gives.
- S3Upload.UploadStream: part sizes are at least one byte, as the configuration has them; a part size of zero would upload an empty object.
- BackupSchedule.BackupScheduleService.RunDue: one schedule in one atomic pass; the batch over several schedules and edits in the middle of a pass are left out. Parsing of requests (`timingFrom`, `sameTiming`) is not modelled.
- Staging: an object's `missing` status is left out, and so is the deletion of a bucket, which takes its staging and version rows with it; the folder scan of an import (`scanPage`) and marking its items are not modelled; a mark that throws after a resumed commit is.
- Staging.NoActiveFileQueued: speaks of the modelled events; deleting an object of a versioned bucket (apps/server/src/services/object-service.ts:300-345), deleting, pruning and promoting versions are none, nor are `Staging.NoFileLost` and `Staging.EventOutcome` about them. Recovery runs before requests are served and its staleness limit never moves back, as at start-up in apps/server/src/index.ts.
- Staging.FirstSuspect: ties of `updated_at` are taken to be broken by row id, an order the query does not ask for.
- ObjectLock: a version is its row. Dates before the year 0, the checks that parse a retention date from a request, the grants behind each request (`bypass`, `owner` and `viewer` are what they were found to be), crashes half-way through a request, restoring a database snapshot and the loss of bytes on Drive are left out; which events queue the file of a row that is still there is in `Staging.EventOutcome`.
- ScheduleTime.ZonedTimeSharp: offsets are whole minutes within 14 hours, with at most one change within a day and a half either side; `ScheduleTime.NextRunIsLater` and the rows after it also need changes of less than a day.
- The choice of encryption keys (`planFor`, `resolveKey`), the lookups of `resolveCopySource` and canonical headers, which only add branches without a deeper property.
- JSON parsing of policies and XML parsing of lock requests: the parsed values are modelled.
