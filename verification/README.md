# Stowage proofs

A Dafny model of the embedded S3 proxy of Stowage and of the state machines around it, with proofs about it.

- **Admission and quota.** `Admission` is the protocol of an upload through the proxy as a transition system: key slot,
  global slot, quota check, landing at the backend, recording, release, with scans and deletes in between and steps of
  different requests interleaved. `QuotaBound` proves the overshoot bound over all runs, `QuotaTight` that it is attained
  and exactly when it holds. `QuotaService` holds the limiter and the quota service as classes proved against the steps of the protocol.
- **aws-chunked streams.** `ChunkCodec` is one decoding step of each reader, `ChunkReading` a Read call and any schedule
  of them, `ChunkStreams` soundness, completeness, round trips and the agreement of the two decoders, `ChunkReaders` the
  two readers as classes.
- **Canonicalisation and escaping.** `Escaping`, `HeaderKeys`, `HeaderValues`, `CanonicalQueries` and `CanonicalRequests`,
  over bytes (`ByteStrings`); `Int64` holds the 64-bit arithmetic.
- **Caches and rings against a log.** `SigningKeys`, `IdentityCaching`, `MetricsRing`, `RateLimiting`.
- **Pipelines and runs.** `AuditPipeline`, `PrefixCopy`, `PostPolicies` with `LimitedReading` and `PostUploads` for a
  whole browser-form upload, `Rotation`.

Code that updates state is a class or a loop method proved against a specification function; the theorems are about
those functions, over all inputs and all runs. What those functions compute is stated apart from their bodies by lemmas
whose names mostly end in `Exactly`, `ReadsBack` or `Binds`. HMAC, SHA-256, FNV and the object-key rule are parameters,
so the results hold for every choice of them. Clocks, list replies, failing calls and the order in which a map yields
its keys are inputs or non-deterministic choices. Bodies under a mutex are single steps.

Where the code does less than one might read into it, the model follows the code, a lemma shows an input, and another gives
the exact condition:

- The quota bound needs a usage baseline. Without one, and with the inline scan failing, nothing is bounded
  (`NoBaselineNoBound`). The check adds in 64 bits, so a declared length that takes the sum out of them passes any quota
  (`FitsExactly`, `ClimbBreaksBound`, `HighStartBreaksBound`). Apart from these two the bound always holds
  (`BoundedExactly`).
- The doc comment of a POST policy speaks of all conditions holding; of several conditions on one field only the last of
  each kind is kept, and of several length ranges only the last (`OverriddenConditionLost`, `OverriddenRangeLost`,
  `NothingLostExactly`).
- The prefix copy refuses a destination under the source. A source under the destination is let through and can overwrite
  source objects (`CopyUpOverwrites`, `SourceSafeExactly`).
- The byte-limited reader lets one byte more than the maximum pass when the source reports its end together with its last
  bytes, and refuses everything under the largest maximum, where its cap wraps around (`OneByteOver`,
  `LargestMaximumRefusesAll`, `UploadLimit`).
- The expiry annotation is cut to whole seconds, so a rotated-out credential can be swept up to a second before the overlap
  is over (`EarlySweep`, `FullOverlapExactly`).
- Time-based rotation waits for a recorded rotation that only a rotation records, so it never starts (`NoFirstRotation`,
  `RotatesExactly`); the comment in the code says it starts after the interval.
- The signing-key cache is right exactly when the fingerprint separates the secrets of each access key
  (`CollisionMisleads`, `CacheRefinesDerivation`).

## Model

| member | source | states |
|---|---|---|
| `Admission.SlotInvStep` | internal/s3proxy/concurrency.go:55-98 | Every step of the protocol keeps: global occupancy equals the admitted, unreleased requests; each key's occupancy equals its admitted and globally waiting ones and those between the two receives of a release; both stay within their caps. |
| `Admission.SlotInvRun` | internal/s3proxy/concurrency.go:55-98 | The slot invariant holds after every run, in every interleaving. |
| `Admission.OccupancyExact` | internal/s3proxy/concurrency.go:55-98 | From an empty limiter on, the slot invariant holds in every reachable state. |
| `Admission.KeyShare` | internal/s3proxy/concurrency.go:15-98 | In every reachable state one key holds at most its cap of global slots, however many of its requests queue. |
| `Admission.SlotsGranted` | internal/s3proxy/concurrency.go:74-89 | In every reachable state a waiting request gets its slot exactly while fewer than the cap of holders are there, and always without a cap. |
| `Admission.QueuedHoldsNothing` | internal/s3proxy/concurrency.go:18-22 | In every reachable state, what a request queued on its key finds occupied is made by the other requests alone. |
| `Admission.RefusalRestores` | internal/s3proxy/concurrency.go:74-89 | In every reachable state, whatever happened while the request waited, a refused acquire leaves every occupancy as the other requests alone make it. |
| `Admission.ReleaseNeverBlocks` | internal/s3proxy/concurrency.go:90-97 | In every reachable state each of the two receives of a release finds its slot occupied, whatever happens between them, so neither waits. |
| `Admission.FitsExactly` | internal/quotas/quotas.go:144-178 | The 64-bit comparison of the check is right unless usage plus length leaves 64 bits, and then it passes. |
| `Admission.CheckExactly` | internal/quotas/quotas.go:144-178 | The check step in plain arithmetic: refused exactly for a known length against a positive hard quota and known usage whose sum exceeds the quota within 64 bits; everything else passes, buckets without a quota among them; only a scan that was needed changes usage. |
| `QuotaBound.PassedKeepsBound` | internal/quotas/quotas.go:144-178 | An upload that passes the check keeps stored plus pending bytes within quota h plus (G-1)·min(m, h). |
| `QuotaBound.QuotaInvCheck` | internal/s3proxy/server.go:435-443 | The check step, with or without a scan, keeps the quota invariant. |
| `QuotaBound.QuotaInvRecord` | internal/s3proxy/server.go:489-493 | Recording, with 64-bit addition, keeps the quota invariant. |
| `QuotaBound.QuotaInvScan` | internal/quotas/quotas.go:231-263 | Replacing the baseline by a scan in the middle of other uploads keeps the quota invariant. |
| `QuotaBound.QuotaInvStep` | internal/s3proxy/server.go:404-493 | Every step of the protocol keeps the quota invariant. |
| `QuotaBound.QuotaInvRun` | internal/s3proxy/server.go:404-493 | The quota invariant holds after every run. |
| `QuotaBound.QuotaOvershoot` | internal/quotas/quotas.go:144-193 | With G global slots and uploads of at most m bytes, stored bytes never exceed the hard quota h plus (G-1)·min(m, h) in any run, and the 64-bit sums of the check never wrap. |
| `QuotaTight.Upload` | internal/quotas/quotas.go:144-193 | Between quiet states: an upload that the check lets pass lands, is recorded and gives both slots back. |
| `QuotaTight.OvershootAttained` | internal/quotas/quotas.go:144-193 | For every configuration and from every start some run stores exactly the bound, so it is the best one. |
| `QuotaTight.NoBaselineNoBound` | internal/quotas/quotas.go:149-178 | For every configuration, quota and upload size: from a start without baseline some run, with inline scans failing, stores more than any given amount. |
| `QuotaTight.ClimbBreaksBound` | internal/quotas/quotas.go:170-193 | If a scan with all slots unrecorded can take usage to where one more upload leaves 64 bits, some run stores more than the bound. |
| `QuotaTight.HighStartBreaksBound` | internal/quotas/quotas.go:170-193 | If usage starts that high, some run stores more than the bound. |
| `QuotaTight.BoundedExactly` | internal/quotas/quotas.go:144-193 | From a start within the quota whose baseline, if any, covers what is stored: every run stays within quota plus (G-1)·min(m, h) exactly when there is a baseline and no sum of the check can leave 64 bits. |
| `QuotaService.ConcurrencyLimiter.constructor` | internal/s3proxy/concurrency.go:37-47 | A new limiter holds no slots. |
| `QuotaService.ConcurrencyLimiter.EnterKey` | internal/s3proxy/concurrency.go:65-79 | Takes the key slot exactly when one is free, as the protocol's step does. |
| `QuotaService.ConcurrencyLimiter.EnterGlobal` | internal/s3proxy/concurrency.go:80-89 | Takes the global slot exactly when one is free, as the protocol's step does. |
| `QuotaService.ConcurrencyLimiter.WaitForKey` | internal/s3proxy/concurrency.go:74-78 | The wait for a key slot ends at the first try that finds room, whatever others do to the slots in between, or with the context. |
| `QuotaService.ConcurrencyLimiter.WaitForGlobal` | internal/s3proxy/concurrency.go:80-89 | The wait for a global slot, likewise. |
| `QuotaService.ConcurrencyLimiter.Acquire` | internal/s3proxy/concurrency.go:55-98 | With others changing the slots between tries: refused per key exactly when no try found room, otherwise granted at the first try with global room, otherwise the key slot is handed back and nothing else changes. |
| `QuotaService.ConcurrencyLimiter.Release` | internal/s3proxy/concurrency.go:90-97 | Gives back what a granted acquire took. |
| `QuotaService.WrapOnce` | internal/quotas/quotas.go:231-263 | A running 64-bit sum equals the full sum wrapped once. |
| `Int64.Wrap64Exactly` | internal/quotas/quotas.go:231-263 | Wrap-around is the one 64-bit number that differs by a multiple of 2^64. |
| `QuotaService.AddPage` | internal/quotas/quotas.go:231-263 | The inner loop adds a page's sizes and count to the totals. |
| `QuotaService.WalkPages` | internal/quotas/quotas.go:231-263 | The paging loop yields the sum and count of all listed sizes, and nothing if a page fails. |
| `QuotaService.ScanCountsAll` | internal/quotas/quotas.go:231-263 | Over any pages, a scan counts every object of every page. |
| `QuotaService.ScanFails` | internal/quotas/quotas.go:231-263 | A page that fails before the last one, or no last page, fails the scan. |
| `QuotaService.SumConcat` | internal/quotas/quotas.go:231-263 | Sums add up over pages. |
| `QuotaService.CacheKeyInjective` | internal/quotas/quotas.go:111 | Backend and bucket can be read back from the cache key when backend ids hold no slash. |
| `QuotaService.Service.constructor` | internal/quotas/quotas.go:88-109 | A new service has no baselines, no back-off and no inline scan running. |
| `QuotaService.Service.Scan` | internal/quotas/quotas.go:231-263 | A successful scan sets the baseline and clears the back-off; a failed one changes nothing. |
| `QuotaService.Service.Recorded` | internal/quotas/quotas.go:183-193 | Moves an existing baseline by the upload and creates none. |
| `QuotaService.Service.CheckUpload` | internal/quotas/quotas.go:144-225 | Passes without a positive hard quota and without known usage; otherwise passes exactly when usage plus upload is within the quota, or leaves 64 bits; the service is left as the specification of the check says, with other calls between its sections. |
| `QuotaService.CheckedAlone` | internal/quotas/quotas.go:144-225 | Undisturbed, a check leaves the inline-scan slots as they were, and scans exactly with a quota, without a baseline, ten minutes after a failed scan at the earliest and with no other scan running; a scan stores a baseline or a back-off. |
| `QuotaService.OneInlineScan` | internal/quotas/quotas.go:202-219 | While one check holds a bucket's inline-scan slot, no other check scans the bucket, whatever interleaves. |
| `ChunkCodec.HexNumberOfDigits` | internal/sigv4verifier/chunked.go:240-261 | Reading a written hexadecimal size gives the size back, for every size. |
| `ChunkCodec.HexNumberPositional` | internal/sigv4verifier/chunked.go:240-261 | Hex sizes are positional, the high digits first. |
| `ChunkCodec.DigitTable` | internal/sigv4verifier/chunked.go:240-261 | The value of a hex digit is its place in the table, in either case. |
| `ChunkCodec.ParseSizeExactly` | internal/sigv4verifier/chunked.go:240-261 | The sizes that parse: hex digits within 64 bits, a plus sign allowed, a minus sign for zero only. |
| `ChunkCodec.ParseHeaderText` | internal/sigv4verifier/chunked.go:240-261 | Parsing a written chunk header gives its size and signature back. |
| `ChunkCodec.ParseHeaderExactly` | internal/sigv4verifier/chunked.go:240-261 | A header parses exactly when it is a size, the first semicolon and chunk-signature= with an even number of hex digits in either case, with white space around the parts. |
| `ChunkCodec.TrimEolExactly` | internal/sigv4verifier/chunked.go:87-95 | Line ends, and nothing else, are cut off. |
| `ChunkCodec.HexEncodeInjective` | internal/sigv4verifier/chunked.go:137-152 | Hex encoding of a digest loses nothing. |
| `ChunkCodec.HexEncodeReadsBack` | internal/sigv4verifier/chunked.go:137-152 | Hex text reads back byte by byte, the high digit first. |
| `ChunkCodec.StringToSignInjective` | internal/sigv4verifier/chunked.go:137-152 | The chunk's string to sign determines the previous signature and the chunk's hash. |
| `ChunkCodec.StringToSignLines` | internal/sigv4verifier/chunked.go:129-145 | The string to sign is six lines: algorithm, date, scope of day, region and service, previous signature, hash of nothing, hash of the data. |
| `ChunkCodec.StringToSignBinds` | internal/sigv4verifier/chunked.go:137-145 | For texts without line feeds, strings to sign of two contexts agree only if date, scope, previous signature and data hash do. |
| `ChunkCodec.SignatureBinds` | internal/sigv4verifier/chunked.go:137-152 | With injective hashes and texts without line feeds, a chunk signature binds the signing key, date, scope, previous signature and data. |
| `ChunkCodec.ScopeBinds` | internal/sigv4verifier/chunked.go:139 | A scope determines day, region and service, where day and region hold no slash. |
| `ChunkCodec.SizesAgree` | internal/sigv4verifier/chunked.go:189-261 | Whatever header the signed reader accepts, the unsigned reader takes the same size from it. |
| `ChunkCodec.NextAgrees` | internal/sigv4verifier/chunked.go:87-238 | A chunk the signed reader accepts is the chunk the unsigned reader finds at the same place. |
| `ChunkReading.ReadStepExact` | internal/sigv4verifier/chunked.go:62-78 | A Read hands on the front of what is to come, at most what was asked, and its signal is right. |
| `ChunkReading.RunExact` | internal/sigv4verifier/chunked.go:62-78 | Over any schedule of Reads, delivered plus future bytes are constant. |
| `ChunkReading.RunProgress` | internal/sigv4verifier/chunked.go:62-78 | Each Read of positive size delivers at least a byte until all is delivered, whatever empty Reads lie between. |
| `ChunkReading.AnySchedule` | internal/sigv4verifier/chunked.go:62-187 | For every stream and schedule: delivered bytes are a prefix of the decoded payload; end of stream and each error come exactly after everything was delivered and decoding ended so. |
| `ChunkReading.SignalsAreSticky` | internal/sigv4verifier/chunked.go:62-78 | Once a Read failed or ended the stream, every later Read says the same and delivers nothing. |
| `ChunkStreams.FrameAccepted` | internal/sigv4verifier/chunked.go:87-127 | A correctly signed frame at the front is accepted and only it is consumed. |
| `ChunkStreams.AcceptedFrame` | internal/sigv4verifier/chunked.go:87-152 | Whatever is accepted is a correctly signed frame at the front of the input. |
| `ChunkStreams.FrameRefused` | internal/sigv4verifier/chunked.go:97-152 | A frame with another signature, and one over 64 MiB, is refused, with the right error. |
| `ChunkStreams.UnsignedExactly` | internal/sigv4verifier/chunked.go:189-238 | The unsigned reader takes a chunk exactly when one of at most 64 MiB is spelled at the front. |
| `ChunkStreams.TrailerCutShort` | internal/sigv4verifier/chunked.go:189-238 | A trailer cut short is tolerated at a plain end and an error at a fault. |
| `ChunkStreams.SignedSound` | internal/sigv4verifier/chunked.go:87-152 | For every input the decoded payload is the data of frames whose signatures chain from the seed; a clean end comes only at a verified zero-size chunk. |
| `ChunkStreams.SignedComplete` | internal/sigv4verifier/chunked.go:87-152 | Every chain closed by a valid zero-size frame decodes to its data, whatever follows. |
| `ChunkStreams.SignedReaderSafety` | internal/sigv4verifier/chunked.go:62-152 | For every stream and every schedule of Reads, only bytes of verified, chained chunks are released, and clean EOF only after the verified final chunk. |
| `ChunkStreams.SignedFormatCollisionFree` | internal/sigv4verifier/chunked.go:137-152 | With collision-free hashes, chunk signatures are collision-free. |
| `ChunkStreams.ChainDetermined` | internal/sigv4verifier/chunked.go:87-152 | Two chains of equal length with the same final signature have the same seed and carry the same data. |
| `ChunkStreams.SignedRoundTrip` | internal/sigv4verifier/chunked.go:87-152 | Decoding an encoded signed stream gives the concatenated chunks and a clean end. |
| `ChunkStreams.UnsignedRoundTrip` | internal/sigv4verifier/chunked.go:189-238 | The same for unsigned streams, with any trailer lines. |
| `ChunkStreams.DecodersAgree` | internal/sigv4verifier/chunked.go:87-238 | On any stream the signed decoder accepts to the end, the unsigned decoder yields identical bytes. |
| `ChunkStreams.CodecRoundTrip` | internal/sigv4verifier/chunked.go:62-261 | For every list of non-empty chunks of at most 64 MiB and every schedule with enough Reads of positive size, both readers return exactly the chunks and then end. |
| `ChunkStreams.ReadersAgree` | internal/sigv4verifier/chunked.go:62-238 | If the signed reader ends cleanly under one schedule, the unsigned reader returns the same bytes and ends cleanly under any other. |
| `ChunkReaders.ChunkedReader.constructor` | internal/sigv4verifier/chunked.go:38-47 | A new signed reader starts from the seed signature with nothing pending. |
| `ChunkReaders.ChunkedReader.ReadNextChunk` | internal/sigv4verifier/chunked.go:87-127 | One decoding step: on success data, signature and rest are those of the verified chunk; on failure nothing becomes pending. |
| `ChunkReaders.ChunkedReader.Read` | internal/sigv4verifier/chunked.go:62-78 | The loop of Read is the step the schedule theorems are about. |
| `ChunkReaders.UnsignedChunkedReader.constructor` | internal/sigv4verifier/chunked.go:160-162 | A new unsigned reader has nothing pending. |
| `ChunkReaders.UnsignedChunkedReader.DropTrailer` | internal/sigv4verifier/chunked.go:189-238 | The trailer loop consumes the lines up to the blank one. |
| `ChunkReaders.UnsignedChunkedReader.ReadNextChunk` | internal/sigv4verifier/chunked.go:189-238 | One decoding step of the unsigned format. |
| `ChunkReaders.UnsignedChunkedReader.Read` | internal/sigv4verifier/chunked.go:171-187 | The loop of Read is the step the schedule theorems are about. |
| `Escaping.AwsURLEncode` | internal/sigv4verifier/canonical.go:187-214 | The one-pass loop computes the percent-encoding that the lemmas below invert. |
| `Escaping.AwsPathEscape` | internal/s3proxy/rewrite.go:202-225 | The scan with its fast path and the escaping loop compute one escape function. |
| `Escaping.AwsKeyEscape` | internal/s3proxy/rewrite.go:186-195 | Splitting, escaping in place and joining computes the key escape. |
| `Escaping.SegmentAgrees` | internal/s3proxy/rewrite.go:202-241 | On a segment the two independent encoders write the same text. |
| `Escaping.KeyEncodersAgree` | internal/s3proxy/rewrite.go:168-225 | On every key, split-escape-join equals the one-pass encoder that keeps slashes. |
| `Escaping.DecodeEncoded` | internal/sigv4verifier/canonical.go:187-207 | Percent-decoding recovers every encoded text (sections 2.1 and 2.3 of RFC 3986). |
| `Escaping.EncodedInjective` | internal/sigv4verifier/canonical.go:187-207 | The encoder is injective. |
| `Escaping.EncodedAlphabet` | internal/sigv4verifier/canonical.go:187-207 | Encoded text holds unreserved bytes and '%' only, so no '&', '=' or line feed. |
| `Escaping.EncodedExactly` | internal/sigv4verifier/canonical.go:187-214 | Letters, digits and "-_.~" stay, a slash where slashes are kept; every other byte becomes '%' and two upper-case hex digits. |
| `Escaping.RawPathDecodes` | internal/s3proxy/rewrite.go:161-182 | The raw outbound path decodes to the outbound path, for every bucket and key. |
| `Escaping.ClassifyOutbound` | internal/s3proxy/router.go:27-54 | Classifying the outbound path of any slash-free, non-empty bucket and any key returns them. |
| `Escaping.VirtualHostRoute` | internal/s3proxy/router.go:28-42 | A virtual-hosted request, in any case and with any port and suffix list, is classified to its bucket and key. |
| `Escaping.HostNameStripsPort` | internal/s3proxy/router.go:28-31 | The host is lower-cased and rid of its port. |
| `Escaping.PathStyleRoute` | internal/s3proxy/router.go:44-53 | A path-style request is classified to its bucket and key. |
| `Escaping.PathStyleExactly` | internal/s3proxy/router.go:44-53 | Every path is cut at its first slash after the leading one, into bucket and key. |
| `Escaping.ServiceLevel` | internal/s3proxy/router.go:44-48 | The bare host asks for the service itself. |
| `Escaping.VirtualExactly` | internal/s3proxy/router.go:33-42 | A host is virtual exactly when some suffix leaves a non-empty bucket in front of it. |
| `Escaping.VirtualHostFlattens` | internal/s3proxy/router.go:27-54 | Virtual-hosted and path-style requests for the same object flatten to the same outbound path. |
| `CanonicalQueries.KeysOf` | internal/sigv4verifier/canonical.go:99-103 | The collected keys are the map's keys, each once, in whatever order. |
| `CanonicalQueries.CanonicalQuery` | internal/sigv4verifier/canonical.go:95-124 | The result does not depend on map order: it is the text of the sorted pairs. |
| `CanonicalQueries.WritePairs` | internal/sigv4verifier/canonical.go:104-123 | The outer loop writes the '&'-joined pairs of the sorted keys. |
| `CanonicalQueries.WriteValues` | internal/sigv4verifier/canonical.go:108-122 | The inner loop appends one pair per value, with '&' before all but the very first. |
| `CanonicalQueries.PairTextInjective` | internal/sigv4verifier/canonical.go:112-121 | A pair can be read back from its text. |
| `CanonicalQueries.PairReadsBack` | internal/sigv4verifier/canonical.go:112-121 | Cut at its first '=', the text of a pair decodes to the key in front and the value behind. |
| `CanonicalQueries.QueryReadsBack` | internal/sigv4verifier/canonical.go:95-124 | Split at '&', the canonical query decodes pair by pair to the query's pairs in order. |
| `CanonicalQueries.TextsInjective` | internal/sigv4verifier/canonical.go:95-124 | Equal texts come from equal lists of pairs. |
| `CanonicalQueries.PairsSorted` | internal/sigv4verifier/canonical.go:95-124 | The written pairs are in order, by key and then by value. |
| `ByteStrings.LeqExactly` | internal/sigv4verifier/canonical.go:103-109 | Keys and values are ordered by bytes: the first difference decides, the smaller byte comes first, and a prefix before its continuations. |
| `CanonicalQueries.PairsCount` | internal/sigv4verifier/canonical.go:95-124 | Every pair of the query is written as often as it occurs. |
| `CanonicalQueries.QueryCanonical` | internal/sigv4verifier/canonical.go:95-124 | Two queries have equal canonical strings exactly when they hold the same multiset of pairs, on all maps. |
| `CanonicalQueries.QueryTextOneLine` | internal/sigv4verifier/canonical.go:95-124 | A canonical query never spans lines. |
| `HeaderValues.TrimAndCollapse` | internal/sigv4verifier/canonical.go:156-182 | The loop with its two flags computes the collapsed value. |
| `HeaderValues.CollapseIdempotent` | internal/sigv4verifier/canonical.go:156-182 | A collapsed value is its own collapsed form. |
| `HeaderValues.CollapsedExactly` | internal/sigv4verifier/canonical.go:156-182 | Stated on pieces of the text: white space around goes, each run of blanks outside quotes becomes one space, plain and quoted text stays, an unclosed quote runs to the end. |
| `HeaderValues.FormExists` | internal/sigv4verifier/canonical.go:156-182 | Every value with something on it has such pieces. |
| `ByteStrings.TrimSpacePadded` | internal/sigv4verifier/canonical.go:157 | Trimming takes the white space off both ends and nothing else. |
| `HeaderKeys.SameKeyExactly` | internal/sigv4verifier/canonical.go:139-144 | Two header names that are tokens look up the same values exactly when they differ at most in case. |
| `HeaderKeys.CanonicalKeyIdempotent` | internal/sigv4verifier/canonical.go:139-144 | Canonicalising a key twice, as the lookup does, changes nothing. |
| `HeaderKeys.CanonicalKeyExactly` | internal/sigv4verifier/canonical.go:144 | A token is upper-case at its start and after each hyphen, lower-case elsewhere; other names stay. |
| `CanonicalRequests.CanonicalHeaderValue` | internal/sigv4verifier/canonical.go:139-154 | The value of a header is the values under its canonical key, comma-joined and collapsed; empty when it is missing. |
| `CanonicalRequests.HeaderValueExactly` | internal/sigv4verifier/canonical.go:139-154 | The value of a header is its comma-joined values in that collapsed form, and nothing for a missing header. |
| `CanonicalRequests.PlainHeaderValue` | internal/sigv4verifier/canonical.go:139-154 | Values without white space and quotes come through as they are, joined with commas. |
| `CanonicalRequests.CanonicalHeaders` | internal/sigv4verifier/canonical.go:128-137 | The loop writes one line per signed header, in list order. |
| `CanonicalRequests.CanonicalRequest` | internal/sigv4verifier/canonical.go:43-58 | The builder writes the canonical text. |
| `CanonicalRequests.TextIsJoinedLines` | internal/sigv4verifier/canonical.go:43-58 | The canonical text is its fields as lines. |
| `CanonicalRequests.RequestLayout` | internal/sigv4verifier/canonical.go:43-58 | Read line by line, the canonical text is method, path, query, a name:value line for each signed header in order, an empty line, the list of names and the payload hash. |
| `CanonicalRequests.CanonicalURIExactly` | internal/sigv4verifier/canonical.go:83-91 | A path with a leading slash is itself; any other gets one. |
| `ByteStrings.CaseExactly` | internal/sigv4verifier/canonical.go:46 | Case changes pair the two alphabets and touch nothing else. |
| `CanonicalRequests.RequestInjective` | internal/sigv4verifier/canonical.go:43-182 | For newline-free requests with ';'-free signed names: equal canonical strings exactly when method, path, query, signed-header list, every signed header's collapsed value and payload hash agree. |
| `CanonicalRequests.ExtractSignedHeaders` | internal/sigv4verifier/canonical.go:217-228 | The extracted list is the sorted list of the kept names. |
| `CanonicalRequests.KeepAll` | internal/sigv4verifier/canonical.go:219-225 | Its loop keeps the lower-cased, trimmed, non-empty elements. |
| `CanonicalRequests.ExtractedNames` | internal/sigv4verifier/canonical.go:217-228 | Extracted names are sorted, lower-case, trimmed, non-empty and free of ';', for every input. |
| `CanonicalRequests.ExtractedExactly` | internal/sigv4verifier/canonical.go:217-228 | A name is extracted exactly when some list element is that name, in any case and with white space around. |
| `CanonicalRequests.ExtractWritten` | internal/sigv4verifier/canonical.go:217-228 | A written list of clean names is extracted whole, each as often as it occurs, in order. |
| `CanonicalRequests.ExtractRoundTrip` | internal/sigv4verifier/canonical.go:217-228 | Writing the extracted names back and extracting again changes nothing. |
| `RateLimiting.PruneFront` | internal/auth/ratelimit.go:66-73 | The pruning loop drops exactly the leading events not after the cutoff. |
| `RateLimiting.RateLimiter.constructor` | internal/auth/ratelimit.go:38-44 | A new limiter has no events for any key. |
| `RateLimiting.RateLimiter.Allow` | internal/auth/ratelimit.go:46-79 | Verdict and new event list follow from the key's own list; every other key is untouched, whatever the hash. |
| `RateLimiting.TailInv` | internal/auth/ratelimit.go:53-79 | In every run in which the key's own clock readings are ordered, the list is the tail of the admission history, and what it dropped stays out of the window. |
| `RateLimiting.ListIsFilteredHistory` | internal/auth/ratelimit.go:53-79 | The pruned list is the whole history filtered by the cutoff; a call is refused exactly when the maximum of admissions lies in its window. |
| `RateLimiting.SpreadInv` | internal/auth/ratelimit.go:53-79 | Admissions that are the maximum apart in the log are a window apart in time. |
| `RateLimiting.WindowLimit` | internal/auth/ratelimit.go:53-79 | In every run in which the key's own clock readings are ordered, no half-open window holds more than the maximum of admissions for it. |
| `MetricsRing.SlotOkBump` | internal/metrics/metrics.go:107-138 | Recording, with the lazy rotation, keeps a slot right. |
| `MetricsRing.SlotOfHour` | internal/metrics/metrics.go:153-185 | For an hour of the last day, its slot stands for that hour or the hour had no events. |
| `MetricsRing.MergeInto` | internal/metrics/metrics.go:153-185 | Per-backend counts are added, whatever the map order. |
| `MetricsRing.RingStep` | internal/metrics/metrics.go:107-138 | Recording keeps all 24 slots right. |
| `MetricsRing.RingInv` | internal/metrics/metrics.go:107-138 | All 24 slots are right after every run. |
| `MetricsRing.RingRefinesLog` | internal/metrics/metrics.go:107-185 | In every run with a clock that does not go back, each of the last 24 hours reads as the full log has it. |
| `MetricsRing.HourCounts` | internal/metrics/metrics.go:107-185 | In numbers: requests are the logged events of the hour, errors those with a status of 500 or more. |
| `MetricsRing.TallyIsCount` | internal/metrics/metrics.go:107-185 | A tally is the number of matching log entries. |
| `MetricsRing.BackendSumsCount` | internal/metrics/metrics.go:127-137 | Per-backend sums are the numbers of that backend's events, and a backend is listed exactly when it has some; events without a backend count for none. |
| `MetricsRing.Service.constructor` | internal/metrics/metrics.go:89-95 | A new service agrees with the empty log. |
| `MetricsRing.Service.Record` | internal/metrics/metrics.go:107-138 | Updates one slot in place and keeps the ring in agreement with the extended log. |
| `MetricsRing.Service.ReadHour` | internal/metrics/metrics.go:162-182 | The point of an hour and its per-backend counts are the log's. |
| `MetricsRing.Service.TakeSnapshot` | internal/metrics/metrics.go:153-185 | The 24 points, both totals and the per-backend sums equal the counts of logged events in those hours. |
| `AuditPipeline.InvStep` | internal/audit/async.go:47-164 | Every step of submitters and drainer keeps the conservation invariant. |
| `AuditPipeline.InvRun` | internal/audit/async.go:47-164 | The conservation invariant holds along every run. |
| `AuditPipeline.PipelineInv` | internal/audit/async.go:47-164 | In every reachable state: handed on, batch and queue are together the accepted events in order; accepted plus dropped is submitted; the queue stays within capacity; every steady-state batch holds 1 to 256 events. |
| `AuditPipeline.SubmitExactly` | internal/audit/async.go:47-57 | An event that finds room is accepted behind all earlier ones; one that finds the queue full is dropped. |
| `AuditPipeline.SubmitDecided` | internal/audit/async.go:47-57 | Over runs, an event counts as dropped exactly when the queue held its capacity when it came, whatever follows. |
| `AuditPipeline.RecordedIsHandedOn` | internal/audit/async.go:47-164 | End to end: an event recorded while there is room, before the final drain, has been handed on when Run returns. |
| `AuditPipeline.CoveredRun` | internal/audit/async.go:93-164 | Events accepted by some moment stay covered, in order, by what is delivered or on its way. |
| `AuditPipeline.ShutdownDelivers` | internal/audit/async.go:119-123 | From the start, when Run has returned, everything accepted before its final drain has been handed on in order, and nothing but accepted events. |
| `AuditPipeline.AsyncRecorder.constructor` | internal/audit/async.go:31-43 | A new recorder is in the initial state, with the default capacity where none is given. |
| `AuditPipeline.AsyncRecorder.Record` | internal/audit/async.go:47-57 | Queued at the end while there is room, counted as dropped when the queue is full; a Submit step. |
| `AuditPipeline.AsyncRecorder.Producers` | internal/audit/async.go:47-57 | Producers between two steps of the drainer extend the run by Submit steps only. |
| `AuditPipeline.AsyncRecorder.HandOn` | internal/audit/async.go:100-112 | Either kind of inner recorder receives the batch in order. |
| `AuditPipeline.AsyncRecorder.Receive` | internal/audit/async.go:124-164 | One receive is the pulling step of the protocol. |
| `AuditPipeline.AsyncRecorder.Finish` | internal/audit/async.go:100-140 | The flush is the closing step of the protocol. |
| `AuditPipeline.AsyncRecorder.Coalesce` | internal/audit/async.go:130-139 | The coalescing loop, with producers in between, is a run of pulls that ends where a flush is due. |
| `AuditPipeline.AsyncRecorder.DrainInto` | internal/audit/async.go:155-164 | The drain loop, with producers in between, is a run of pulls that ends with the queue empty. |
| `AuditPipeline.AsyncRecorder.DrainBurst` | internal/audit/async.go:124-140 | With any producers in between, a run whose own steps are head, pulls and flush: at most 256 events, at least the queued ones up to that, none lost, in order. |
| `AuditPipeline.AsyncRecorder.DrainAll` | internal/audit/async.go:120-164 | With any producers in between, a run whose own steps are the shutdown drain; the queue is empty and all accepted events were handed on in order. |
| `IdentityCaching.IdentityCache.constructor` | internal/auth/cache.go:43-48 | A new cache is empty. |
| `IdentityCaching.IdentityCache.Lookup` | internal/auth/cache.go:56-80 | Answer, touch signal and the moved last-seen time of a lookup. |
| `IdentityCaching.IdentityCache.Insert` | internal/auth/cache.go:85-101 | The new entry, or nothing when the cache is off. |
| `IdentityCaching.IdentityCache.Evict` | internal/auth/cache.go:104-111 | Removes one session. |
| `IdentityCaching.IdentityCache.EvictUser` | internal/auth/cache.go:116-127 | Removes exactly the user's sessions, whatever the map order. |
| `IdentityCaching.IdentityCache.EvictStale` | internal/auth/cache.go:131-142 | Removes exactly the stale entries. |
| `IdentityCaching.AgreesRun` | internal/auth/cache.go:56-142 | In every run in which no reaping read a later clock, the entry of each session is that of its standing Put. |
| `IdentityCaching.CacheAgreesWithLog` | internal/auth/cache.go:56-142 | A lookup hits with an answer exactly when that is the latest Put of the session, with no later Invalidate of it or InvalidateUser of its user, no older than the time to live and not past session expiry. |
| `IdentityCaching.DisabledCacheEmpty` | internal/auth/cache.go:85-101 | Without a time to live the cache never holds anything. |
| `IdentityCaching.ReapInvisible` | internal/auth/cache.go:131-142 | Reaping changes no later answer and no later touch signal, whatever happens in between. |
| `IdentityCaching.TouchesSpacedOut` | internal/auth/cache.go:68-79 | Two touch signals for a session with no Put between are more than the half idle window apart. |
| `IdentityCaching.FirstTouch` | internal/auth/cache.go:68-79 | The first lookup after a Put, with the entry fresh, asks for a touch exactly when the session was last seen more than the half idle window ago. |
| `IdentityCaching.NextTouch` | internal/auth/cache.go:68-79 | After a touch, the next lookup asks exactly when that touch is more than the window ago. |
| `IdentityCaching.NoTouchNoChange` | internal/auth/cache.go:68-79 | A lookup within the window asks for nothing and changes nothing. |
| `PostPolicies.ParseExactly` | internal/s3proxy/postpolicy.go:147-235 | A condition parses exactly when the document spells it: the object form, or the array of eq, starts-with or content-length-range, the field in any case and with or without the dollar sign. |
| `PostPolicies.ParsedExactly` | internal/s3proxy/postpolicy.go:114-118 | A document parses exactly when each of its elements spells its condition, in order. |
| `PostPolicies.ParseRoundTrip` | internal/s3proxy/postpolicy.go:147-218 | Writing conditions down and parsing them gives them back. |
| `PostPolicies.FoldConditions` | internal/s3proxy/postpolicy.go:114-218 | The loop folds the parsed conditions; the first malformed one rejects the document. |
| `PostPolicies.EnforcePolicy` | internal/s3proxy/postpolicy.go:286-321 | Accepts exactly what the policy accepts, independent of map order; a reported field really violates it. |
| `PostPolicies.LastInPolicy` | internal/s3proxy/postpolicy.go:147-218 | The last condition of each kind on a field is in the folded policy. |
| `PostPolicies.EqIsLast` | internal/s3proxy/postpolicy.go:147-218 | A demanded value comes from the last equality on the field. |
| `PostPolicies.PrefixIsLast` | internal/s3proxy/postpolicy.go:147-218 | A demanded prefix comes from the last starts-with on the field. |
| `PostPolicies.PolicyExact` | internal/s3proxy/postpolicy.go:147-321 | Folding and enforcing accepts a form exactly when every non-signing field is named by some condition and the last equality and last starts-with of each field hold. |
| `PostPolicies.CheckForm` | internal/s3proxy/postobject.go:174-205 | Parsing, the bucket test and enforcement together pass a form exactly when all conditions are well-formed, a bucket field agrees with the URL, and the form with that bucket meets the list, the proxy's signing fields being exempt. |
| `PostUploads.ParsedRanges` | internal/s3proxy/postpolicy.go:198-211 | Every length range that parses is ordered, non-negative and within 64 bits. |
| `PostUploads.RangeIsLast` | internal/s3proxy/postpolicy.go:198-211 | The folded policy has a length range exactly when the document has one, and it is the last one. |
| `PostUploads.UploadExact` | internal/s3proxy/postobject.go:174-300 | A whole upload is accepted exactly when the form meets the condition list and the size its last length range, or the default ceiling without one. |
| `PostUploads.ServePost` | internal/s3proxy/postobject.go:174-300 | Form, limited reader and minimum together: refused exactly when the form fails, stored exactly when form and size meet the list, and then stored whole. |
| `PostUploads.OverriddenConditionLost` | internal/s3proxy/postpolicy.go:147-218 | Two equalities on one field: a form that breaks the first is accepted. |
| `PostUploads.OverriddenRangeLost` | internal/s3proxy/postpolicy.go:209-210 | Two length ranges: a file that breaks the first is accepted. |
| `PostUploads.RangeExceeded` | internal/s3proxy/postobject.go:253 | A single length range: a file of one byte more is accepted from a source that reports its end with its last bytes. |
| `PostUploads.NothingLostExactly` | internal/s3proxy/postpolicy.go:147-321 | Accepted uploads satisfy all conditions, length ranges included, exactly when each is implied by the folded policy, or that policy accepts no upload at all. |
| `SigningKeys.Verifier.constructor` | internal/sigv4verifier/verifier.go:84-103 | A new verifier has no cached keys. |
| `SigningKeys.Verifier.SigningKey` | internal/sigv4verifier/verifier.go:105-119 | A hit under the same fingerprint changes nothing; anything else derives and overwrites. |
| `SigningKeys.Verifier.InvalidateSigningKeys` | internal/sigv4verifier/verifier.go:130-135 | Deleting entry by entry leaves nothing. |
| `SigningKeys.EntriesAreDerived` | internal/sigv4verifier/verifier.go:105-119 | In every run each entry is the derivation, in its own scope, of some secret of its access key. |
| `SigningKeys.DeriveIsChain` | internal/sigv4verifier/verifier.go:391-396 | The signing key is the keyed-hash chain from "AWS4" and the secret over date, region, service and "aws4_request". |
| `SigningKeys.DeriveBinds` | internal/sigv4verifier/verifier.go:391-396 | With an injective keyed hash the signing key binds secret, date, region and service, and nothing else. |
| `SigningKeys.CollisionMisleads` | internal/sigv4verifier/verifier.go:105-125 | With two secrets of one access key under one fingerprint but different keys, some run answers with the wrong key. |
| `SigningKeys.CacheRefinesDerivation` | internal/sigv4verifier/verifier.go:105-135 | Every lookup in every interleaving equals the four-step derivation of its secret, exactly when the fingerprint separates the secrets of each access key. |
| `LimitedReading.CountingLimitedReader.constructor` | internal/s3proxy/postobject.go:56-61 | A new reader has let nothing through; its cap may be any number, a wrapped one included. |
| `LimitedReading.CountingLimitedReader.Read` | internal/s3proxy/postobject.go:63-80 | One Read, capped to what remains. |
| `LimitedReading.DeliversPrefix` | internal/s3proxy/postobject.go:63-80 | For every cap and schedule the delivered bytes are a prefix of the source within the cap, and all of it at a clean end. |
| `LimitedReading.EndDecided` | internal/s3proxy/postobject.go:63-80 | How the reads end depends on the cap and the source's length alone. |
| `LimitedReading.UploadLimit` | internal/s3proxy/postobject.go:63-253 | For every 64-bit maximum: clean end exactly when the maximum is below 2^63-1 and the source is no longer than it (one byte more if it reports its end with its last bytes); otherwise too large. |
| `LimitedReading.LargestMaximumRefusesAll` | internal/s3proxy/postobject.go:67-253 | Under the maximum 2^63-1 the cap wraps and the first read refuses every upload. |
| `LimitedReading.ReadAll` | internal/s3proxy/postobject.go:63-253 | Reading the file to its end, whatever the sizes asked and given, ends as that condition says and then has handed on the whole file. |
| `LimitedReading.OneByteOver` | internal/s3proxy/postobject.go:253 | A source of one byte over the maximum that reports its end with its last bytes passes whole. |
| `PrefixCopy.VisitOne` | internal/api/backends.go:1000-1022 | One object: skipped, failed, or copied and counted. |
| `PrefixCopy.WalkPage` | internal/api/backends.go:994-1023 | The inner loop visits a page up to the cancellation. |
| `PrefixCopy.WalkPages` | internal/api/backends.go:973-1028 | The outer loop visits the pages in order, and all listed objects when it reports neither cancellation nor failure. |
| `PrefixCopy.CopyPrefix` | internal/api/backends.go:897-1028 | Rejected exactly when a prefix is invalid or the destination lies under the source in one bucket; otherwise the walk over the listed objects, however paged. |
| `PrefixCopy.AcceptsExactly` | internal/api/backends.go:877-934 | Let through exactly with valid prefixes, in different buckets or with a destination that does not continue the source. |
| `PrefixCopy.ListedAll` | internal/api/backends.go:973-1028 | Over any pages, the walk covers every object of every page. |
| `PrefixCopy.ListedInPart` | internal/api/backends.go:985-993 | Without the last page the walk covers the pages before, and says so. |
| `PrefixCopy.TargetInjective` | internal/api/backends.go:1000-1001 | Distinct source keys get distinct destination keys. |
| `PrefixCopy.SeparateExactly` | internal/api/backends.go:925-934 | No destination key can lie in the source exactly when neither prefix is a prefix of the other or the buckets differ. |
| `PrefixCopy.SourceKept` | internal/api/backends.go:973-1028 | A walk between separate prefixes leaves every source object as it was, whatever fails. |
| `PrefixCopy.CountedOnce` | internal/api/backends.go:994-1023 | Copied, failed and skipped add up to the objects visited. |
| `PrefixCopy.CountersExact` | internal/api/backends.go:1020-1021 | Copied and bytes are the number and sizes of the objects really copied. |
| `PrefixCopy.SkippedExactly` | internal/api/backends.go:1002-1006 | Skipped are the placeholders that would get the empty key, and nothing else. |
| `PrefixCopy.Landed` | internal/api/backends.go:1064-1119 | Every copied object's original content is at its destination after the walk. |
| `PrefixCopy.NothingElse` | internal/api/backends.go:973-1028 | Nothing changes but destinations of copied objects. |
| `PrefixCopy.PrefixCopied` | internal/api/backends.go:887-1028 | Without failures, every source key src+rel has its content at dst+rel and the source is unchanged. |
| `PrefixCopy.CopyUpOverwrites` | internal/api/backends.go:925-934 | Copying from a prefix to a proper prefix of it can overwrite a source object. |
| `PrefixCopy.SourceSafeExactly` | internal/api/backends.go:925-934 | For an accepted request, the source survives every walk exactly when the prefixes are separate. |
| `Rotation.Reconciler.constructor` | internal/operator/controller/bucketclaim_controller.go:417-437 | The reconciler starts from the listed credentials. |
| `Rotation.Reconciler.MarkExpiring` | internal/operator/controller/bucketclaim_controller.go:386-395 | Exactly the listed, updatable keys without an expiry get this one. |
| `Rotation.Reconciler.EnsureCredential` | internal/operator/controller/bucketclaim_controller.go:287-384 | Returns an existing credential without expiry, the new one on rotation; a failed call changes nothing. |
| `Rotation.Reconciler.SweepExpired` | internal/operator/controller/bucketclaim_controller.go:397-415 | Removes expired credentials only, as far as deletes succeed. |
| `Rotation.Reconciler.Reconcile` | internal/operator/controller/bucketclaim_controller.go:152-206 | A reconcile is the step the run theorems are about. |
| `Rotation.ReconcileExactly` | internal/operator/controller/bucketclaim_controller.go:287-395 | A reconcile that gets through writes a credential exactly when a rotation is due or none is active; exactly when one is due it marks the active ones it can update with the policy's seconds, or five minutes, from the marking time, cut to the second; it then records the time, cut likewise. |
| `Rotation.ActiveStep` | internal/operator/controller/bucketclaim_controller.go:287-330 | No reconcile loses the last credential without expiry, neither after ensuring nor after sweeping. |
| `Rotation.ActiveBetweenWrites` | internal/operator/controller/bucketclaim_controller.go:299-415 | Between any two writes of a reconcile, with any of the marks and any of the deletes done, a credential without expiry is left. |
| `Rotation.AlwaysActive` | internal/operator/controller/bucketclaim_controller.go:287-437 | Once there is a credential without expiry there is one after every run, whatever calls fail. |
| `Rotation.FirstCredential` | internal/operator/controller/bucketclaim_controller.go:293-329 | A reconcile that gets through leaves a credential without expiry. |
| `Rotation.OnlyExpiredGo` | internal/operator/controller/bucketclaim_controller.go:386-415 | A reconcile removes a credential exactly when its recorded expiry has passed and the delete goes through, and never changes a recorded expiry. |
| `Rotation.AnnotationStays` | internal/operator/controller/bucketclaim_controller.go:386-415 | An annotated credential stays with its expiry until a sweep at or after it, in every run. |
| `Rotation.RotatedOutSurvives` | internal/operator/controller/bucketclaim_controller.go:314-325 | In every run a rotated-out credential exists and is usable up to its recorded expiry. |
| `Rotation.NoFirstRotation` | internal/operator/controller/bucketclaim_controller.go:370-384 | A claim without a recorded rotation never rotates, in any run, since only a rotation records one. |
| `Rotation.RotationPossible` | internal/operator/controller/bucketclaim_controller.go:370-384 | With a recorded rotation some run of at most two reconciles rotates. |
| `Rotation.RotatesExactly` | internal/operator/controller/bucketclaim_controller.go:370-384 | Some run rotates exactly when a rotation is already recorded. |
| `Rotation.RecordedSince` | internal/operator/controller/bucketclaim_controller.go:195-197 | After a recorded rotation the recorded time never goes back. |
| `Rotation.RotationsSpaced` | internal/operator/controller/bucketclaim_controller.go:370-384 | A rotation after a recorded one comes at least the policy's interval after the recorded time, in every run. |
| `Rotation.ExpiryReaches` | internal/operator/controller/bucketclaim_controller.go:317-393 | The recorded expiry reaches the full overlap exactly when the marking time, cut to the second, is not before the write, and is less than a second short otherwise. |
| `Rotation.FullOverlapExactly` | internal/operator/controller/bucketclaim_controller.go:314-415 | A credential just rotated out stays usable for the full overlap in every continuation of the run exactly when the marking time, cut to the second, is not before its successor's write. |
| `Rotation.OverlapButOneSecond` | internal/operator/controller/bucketclaim_controller.go:314-415 | In every run it stays usable up to one second short of the overlap, whatever the clock. |
| `Rotation.EarlySweep` | internal/operator/controller/bucketclaim_controller.go:393 | A run in which a credential is swept before the overlap is over. |

## Left out

- QuotaBound.QuotaOvershoot: assumes that failed uploads store nothing, that a landing adds at most its declared length, that scans are atomic, a fixed limit, a baseline not below what is stored, and sums within 64 bits, which `BoundedExactly` shows to be needed; uploads of unknown length pass unchecked and count with length 0; dashboard and browser-form uploads, which bypass the slots, are not in the protocol.
- QuotaService.ConcurrencyLimiter.Acquire: the number of tries before the context is done is an input; fairness between waiters is not modelled.
- CanonicalRequests.ExtractedNames: lower-casing and trimming are on ASCII only.
- CanonicalRequests.RequestInjective: lower-casing, upper-casing and trimming are on ASCII only.
- ChunkReaders.ChunkedReader.Read: the buffered source is the rest of the stream as a value, so split reads of the underlying connection are not visible; after a failed step the rest of the stream is not specified.
- QuotaService.CacheKeyInjective: only for backend ids without a slash.
- MetricsRing.Service.TakeSnapshot: asks for an hour of at least 23, below which the source indexes a negative slot.
- Rotation.AlwaysActive: takes generated keys as new and reads of the API server as current; no claim that a first rotation ever happens; `NoFirstRotation` shows that none does.
- Rotation.Reconciler.EnsureCredential: durations are unbounded, so the 64-bit overflow of intervals over about 292 years is not modelled; re-stamping the quota on a credential has no effect on expiry and appears only as a call that may fail.
- PrefixCopy.CopyPrefix: the object-key rule is a parameter; listings are given replies, not re-read from the store while the walk writes to it; metadata, quota checks and the event stream are outside, a quota refusal being one of the failures.
- PostPolicies.FoldConditions: JSON parsing, base64 and the expiry of the policy are outside.
- PostUploads.ServePost: the backend takes what it is sent; its failures, the quota check on the maximum, the key template and the redirect are outside, and the deletion of a file below the minimum is taken to succeed.
- SigningKeys.Verifier.SigningKey: HMAC and the fingerprint are parameters; key bytes are compared as values.
- Header parsing, presigned requests, clock skew and signature comparison of the verifier: mostly field checks.
- Multipart uploads as a whole: parts are uploads of their own.
- HTTP handlers, routing tables, CORS, cookies, XML and JSON, logging and metrics export: plumbing.
- Storage in SQLite, the Kubernetes client, informers and the AWS driver: abstract maps and failing calls here.
- Backend registry, touch batcher, merged sources, secret sealing and role checks: would only add easy members.
- Data races below the mutexes, and liveness of any kind.
