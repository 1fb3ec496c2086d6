# A model of the minio-go client's core, with proofs

This project models the parts of the client library that keep state or do arithmetic worth
proving, and proves what they promise: the bucket policy algebra, the chunk-signing upload
stream, multipart upload and compose, the decoder of S3 Select responses, the protocol between
an open object and its goroutine, and percent-encoding. Code that changes things step by step
is written as methods with loops and as classes with fields, each proved against a function on
values; the results that span calls, runs and interleavings are lemmas about those functions.

`dafny verify dfyconfig.toml` checks the whole project.

## The files

| files | source | subject |
|---|---|---|
| Wildcard, Resources, Conditions, Policy | pkg/policy | matching of resources, and `SetPolicy` as the library performs it |
| PolicyGrants, PolicyBuckets, PolicyOthers, PolicyRead, PolicyMeaning, PolicyRuns, PolicyGap | pkg/policy | what a statement list grants, what a removal leaves, `GetPolicy` and its meaning for any list, runs of `SetPolicy` as a map |
| ChunkEncoding, ChunkChain, StreamingReader | pkg/s3signer | the chunked body, its length and its parser; the chain of signatures; the reader that produces it |
| PartSize, UploadPool, StreamUpload | api-put-object*.go | part sizes in float64, the worker pool as a transition system, the sequential uploads |
| Compose | api-compose-object.go | validation, even splits and server-side copying |
| SelectHeaders, SelectNames, SelectFraming, SelectDecoder, SelectEvents, SelectReplies, SelectCuts | api-select.go | the event stream: headers and their names, frames, the decoder's loop, what a caller receives, also of a body that breaks off |
| ObjectProtocol, ObjectReader, ObjectRuns | api-get-object.go | requests and responses, the two objects behind them, runs of calls |
| Utf8, UrlEncoding, QueryEncoding | pkg/s3utils/utils.go | range loops over strings, `EncodePath`, `QueryEncode` |

## What the proofs found

The code is modelled as it is. Where it does not do what its name, its comments or its
callers suggest, the exact condition is proved.

- `resourceMatch` never misses a match, and is exact if and only if the pattern does not overlap
  itself (`Wildcard.ExactIffNotSelfOverlapping`): it looks for what follows the first star in
  the whole resource, not behind the literal prefix.
- Setting a policy can take away bucket grants that other prefixes of the same bucket need, so
  that `GetPolicy` reads none for them. Two causes are shown by runs: the bucket's grants hang
  together with another prefix of it (`PolicyGap.SetNoneHidesOtherPrefix`), or its statements
  are shared with another bucket, and then any call for the bucket drops it from them, even one
  that sets none for a prefix without a policy (`PolicyGap.SetNoneHidesSharedBucket`). The
  exact condition, on the list that `SetPolicy` is called with, is
  `PolicyBuckets.WithPolicyBucketGrantsIff` for every grant on the bucket and
  `PolicyRuns.SetKeepsReadBackIff` for what `GetPolicy` then returns.
- The announced length of a signed stream is the true one if and only if the body is not empty;
  for an empty body it is 0, and 86 bytes are sent (`ChunkEncoding.LengthIsAnnounced`).
- The limit of 10000 parts is exceeded by one for sizes just above a multiple of 10000 times
  128 MiB (`PartSize.PartsCountBound`), and exactly for those the parallel upload can hang: the
  queue of 10000 parts is filled before any worker starts (`StreamUpload.ParallelUploadHangsIff`).
- A Select response that breaks off can look complete. Inside the next message this is so if
  and only if `SelectCuts.CutUnnoticed` holds (`SelectCuts.CutIsUnnoticedIff`): behind 0, 4 or 8
  bytes of the prelude; inside the headers where reading them runs into the end of the file,
  which `SelectHeaders.ParseCutHeaders` decides for every position; up to the end of the payload
  of a well-formed event, if the XML decoder does not object, but not inside its checksum; and
  anywhere behind the headers of an end event (`SelectCuts.TailCutByLength`,
  `SelectCuts.EndCutIsUnnoticed`).
- When a stat or fetch fails, later calls on the object are safe if and only if it did not fail
  with `io.EOF` (`ObjectRuns.ExitIsSafeIffNotEOF`). A response body is lost exactly by a first
  read while one is open and by a stat that fails while one is open (`ObjectRuns.StepLosesIff`);
  over whole runs, closing the object accounts for all other bodies
  (`ObjectRuns.ClosingAccountsForBodies`).
- `ReadAt` moves later reads: a `Read` behind it goes on in the body that the `ReadAt` opened, not
  where the reads before it were (`ObjectRuns.ReadAtMovesReads`), which the contract of
  `io.ReaderAt` excludes.
- `EncodePath` is inverted by percent-decoding if and only if the string is valid UTF-8
  (`UrlEncoding.InverseIffValid`). Its branch for runes that cannot be encoded, which the
  comment there describes, is never taken: other bytes become the encoding of U+FFFD.

## Model

| member | source | states |
|---|---|---|
| Wildcard.Index | pkg/policy/bucket-policy.go:660-666 | the leftmost occurrence of a piece, or -1 if and only if there is none |
| Wildcard.ResourceMatch | pkg/policy/bucket-policy.go:644-668 | the cutting loop decides exactly the predicate that the other wildcard results are about |
| Wildcard.MatchesIsComplete | pkg/policy/bucket-policy.go:644-668 | greedy leftmost cutting accepts every string that the wildcard meaning of the pattern accepts |
| Wildcard.ExactIffNotSelfOverlapping | pkg/policy/bucket-policy.go:644-668 | the matcher equals the wildcard meaning on all resources if and only if the pattern does not overlap itself |
| Wildcard.StarFreeIsExact | pkg/policy/bucket-policy.go:651-654 | the meaning of a pattern without stars is equality |
| Wildcard.PrefixPattern | pkg/policy/bucket-policy.go:655-667 | a pattern X* with X free of stars accepts exactly the strings that begin with X |
| Resources.ObjectResourceInjective | pkg/policy/bucket-policy.go:345-346 | two (bucket, prefix) pairs with the same object resource are the same pair |
| Resources.MatchingResources | pkg/policy/bucket-policy.go:554-559 | an object resource matches b/x* exactly when it is b/y* for a prefix y of x |
| Conditions.AddValues | pkg/policy/bucket-policy-condition.go:26-32 | adding values for a key is a merge with a one-key map |
| Conditions.CopyConditionKeyMap | pkg/policy/bucket-policy-condition.go:55-63 | the copy equals the original |
| Conditions.MergeConditionKeyMap | pkg/policy/bucket-policy-condition.go:66-78 | the filled map is the union, value sets united key by key |
| Conditions.AddConditions | pkg/policy/bucket-policy-condition.go:84-90 | adding under an operator is a merge with a one-operator map |
| Conditions.MergeConditionMap | pkg/policy/bucket-policy-condition.go:100-116 | the filled map is the union of both levels |
| Conditions.MergeListsBoth | pkg/policy/bucket-policy-condition.go:66-116 | a value is listed in the merge if and only if one side lists it |
| Policy.ListingCondition | pkg/policy/bucket-policy.go:182-188 | adding to empty maps gives the condition that lists one prefix |
| Policy.RemoveObjectActions | pkg/policy/bucket-policy.go:268-279 | a lone object resource loses its read and write actions, otherwise the resource goes |
| Policy.RemovePrefixValue | pkg/policy/bucket-policy.go:293-318 | deleting the prefix, the emptied key and the emptied operator leaves the condition without the prefix |
| Policy.RemoveReadOnly | pkg/policy/bucket-policy.go:283-319 | the listing half of the removal, with and without a prefix |
| Policy.RemoveBucketActions | pkg/policy/bucket-policy.go:282-340 | which bucket actions go, by whether reading and writing are in use elsewhere |
| Policy.GetInUsePolicy | pkg/policy/bucket-policy.go:245-265 | reading or writing is in use if and only if another object statement of the bucket, free of the prefix, holds all its actions |
| Policy.RemoveFromStatement | pkg/policy/bucket-policy.go:354-367 | the part of the first loop that changes one statement |
| Policy.SweepStatements | pkg/policy/bucket-policy.go:353-394 | the first loop: what is kept, what is set aside and which prefixes are listed |
| Policy.CanSkipAside | pkg/policy/bucket-policy.go:396-404 | the second loop: whether the statements set aside are superfluous |
| Policy.RemoveStatements | pkg/policy/bucket-policy.go:344-430 | the whole removal equals the specification function that the grant lemmas are about |
| Policy.MergeStatement | pkg/policy/bucket-policy.go:437-466 | which merge rule fires for two statements, and what it makes of the first |
| Policy.AppendStatement | pkg/policy/bucket-policy.go:436-473 | a statement is merged into the first that takes it, or added at the end unless it is empty |
| Policy.AppendStatements | pkg/policy/bucket-policy.go:476-482 | statement after statement |
| Policy.SetPolicy | pkg/policy/bucket-policy.go:628-641 | removal and then appending: the function that runs are made of |
| PolicyGrants.NewStatementsGrant | pkg/policy/bucket-policy.go:157-242 | the new statements grant exactly what the policy stands for, on the bucket and on the objects |
| PolicyGrants.MergeKeepsShape | pkg/policy/bucket-policy.go:437-466 | merging two statements of the shapes the library builds gives such a statement again, whichever rule fires |
| PolicyGrants.MergeKeepsGrants | pkg/policy/bucket-policy.go:437-466 | a merged statement grants exactly what its two parts granted, whichever rule fires |
| PolicyGrants.AppendAddsGrants | pkg/policy/bucket-policy.go:436-473 | appending one statement adds exactly its grants |
| PolicyGrants.AppendAllAddsGrants | pkg/policy/bucket-policy.go:436-482 | appending preserves meaning: the grants afterwards are the union of the two sides |
| PolicyGrants.StripGrants | pkg/policy/bucket-policy.go:268-340 | stripping one statement takes away exactly the grants on b/x*, away from the bucket's own resource |
| PolicyGrants.SweepGrants | pkg/policy/bucket-policy.go:353-394 | so does the loop over all statements |
| PolicyGrants.RemovedGrants | pkg/policy/bucket-policy.go:344-430 | so does the whole removal, and the list keeps its shape |
| PolicyGrants.WithPolicyGrants | pkg/policy/bucket-policy.go:628-641 | `SetPolicy` rewrites the grants on the prefix's resource and leaves every other resource but the bucket's alone |
| PolicyGrants.WithPolicyBucketGrants | pkg/policy/bucket-policy.go:628-641 | `SetPolicy` leaves every bucket grant that its policy needs |
| PolicyBuckets.StripBucketGrants | pkg/policy/bucket-policy.go:268-340 | stripping one statement leaves a bucket grant if and only if the statement is about that bucket alone and, for uploads and unconditioned listing, writing or reading is in use, and for the listing of a prefix, that prefix is not the removed one |
| PolicyBuckets.SweptGrants | pkg/policy/bucket-policy.go:353-394 | which bucket grants the first loop leaves among the statements it keeps, and which among those it sets aside |
| PolicyBuckets.RemovedBucketGrants | pkg/policy/bucket-policy.go:344-430 | the whole removal leaves a bucket grant if and only if a condition on the list it is given holds, through the statements set aside and the last check for the plain bucket statement |
| PolicyBuckets.WithPolicyBucketGrantsIff | pkg/policy/bucket-policy.go:628-641 | after `SetPolicy` a bucket grant holds if and only if the policy stands for it or that condition holds of the list before |
| PolicyOthers.SetKeepsForeign | pkg/policy/bucket-policy.go:628-641 | on every list: denials and statements that are not for everyone are neither changed, dropped, reordered nor added |
| PolicyOthers.RemovedKeeps | pkg/policy/bucket-policy.go:344-430 | on every list: statements about other buckets, without any of the library's actions, or with a condition and not about the bucket itself, stay as they are |
| PolicyOthers.ConditionKeepsActions | pkg/policy/bucket-policy.go:282-340 | on every statement: one with a condition loses no action unless its condition goes, and that only if it is about the bucket alone |
| PolicyOthers.SetKeepsOthers | pkg/policy/bucket-policy.go:628-641 | on every list: a statement about other buckets stays with its actions, principals and conditions, and only gets resources of this bucket |
| PolicyRead.FuncMatch | pkg/policy/bucket-policy.go:554-559 | the statement's resources that match are selected, no others |
| PolicyRead.ScanMatches | pkg/policy/bucket-policy.go:560-573 | the inner loop takes over the flags of longer matches and unites those of equally long ones, in any order of the set |
| PolicyRead.ScanObjects | pkg/policy/bucket-policy.go:554-573 | one step of the object half keeps what the scan knows true of the statements seen |
| PolicyRead.ScanBucket | pkg/policy/bucket-policy.go:574-579 | one step of the bucket half |
| PolicyRead.ScanStatement | pkg/policy/bucket-policy.go:553-580 | both halves, as the loop body chooses between them |
| PolicyRead.Scan | pkg/policy/bucket-policy.go:553-580 | the object flags are those of the statements that own a matching resource of maximal length, the bucket flags those of all |
| PolicyRead.GetPolicy | pkg/policy/bucket-policy.go:542-594 | for every list of statements, the one-pass scan returns what the declarative rule says |
| PolicyRead.RuleIgnoresOrder | pkg/policy/bucket-policy.go:542-594 | the result depends neither on the order of statements nor on repetitions |
| PolicyMeaning.ObjectFlagsAreGrants | pkg/policy/bucket-policy.go:526-539 | for every statement and any of its resources, the object flags say which object actions it lets everyone do |
| PolicyMeaning.BucketFlagsOfStatement | pkg/policy/bucket-policy.go:485-523 | for every statement, the bucket flags say what it lets everyone do with the bucket: listing without a condition, for the prefixes that it names, or for all but those |
| PolicyMeaning.PolicyRuleByGrants | pkg/policy/bucket-policy.go:542-594 | for every list, denials and foreign conditions included, a readable or a writable policy is returned if and only if the list grants certain actions on the bucket and a longest resource for the prefix grants certain actions on its objects |
| PolicyRuns.RunRefinesMap | pkg/policy/bucket-policy.go:628-641 | after any run, the grants on a prefix's objects are those of the last policy set for it, none if none was |
| PolicyRuns.ReadBackIsLongestPrefix | pkg/policy/bucket-policy.go:542-594 | after any run, the object flags that are read back are those of the longest set prefix |
| PolicyRuns.ReadBackNeverExceeds | pkg/policy/bucket-policy.go:542-594 | reading back never reports more than the longest set prefix was given |
| PolicyRuns.GetAfterSet | pkg/policy/bucket-policy.go:542-641 | on every list that a run reaches, a readable or writable policy that is set is read back |
| PolicyRuns.ReadBackIsExactIffBucketGrantsHold | pkg/policy/bucket-policy.go:542-594 | after any run, the policy of the longest set prefix is read back if and only if the list holds the bucket grants it needs |
| PolicyRuns.SetKeepsReadBackIff | pkg/policy/bucket-policy.go:542-641 | after any run, setting a policy leaves any other prefix's entry of the map to be read back if and only if the list before lets its bucket grants stay, or the new policy gives them |
| PolicyRuns.OtherBucketsUntouched | pkg/policy/bucket-policy.go:628-641 | setting a policy never changes what is read back for another bucket |
| PolicyGap.SetNoneHidesOtherPrefix | pkg/policy/bucket-policy.go:245-340 | for any two prefixes of any bucket, a run after which a set write-only policy is read back as none |
| PolicyGap.SharedBucketIsDropped | pkg/policy/bucket-policy.go:282-430 | when the bucket's location is granted only together with other buckets, setting none for any prefix hides all policies of the bucket |
| PolicyGap.SetNoneHidesSharedBucket | pkg/policy/bucket-policy.go:245-482 | for any two buckets, a run after which a set read-only policy is read back as none, though only a prefix that never had a policy was set to none |
| ChunkEncoding.HexRoundTrip | pkg/s3signer/request-signature-streaming.go:111-113 | the chunk size in hexadecimal reads back, and contains no separator |
| ChunkEncoding.SignedChunksConcat | pkg/s3signer/request-signature-streaming.go:162-183 | signing is a fold: the second part of a list of chunks is signed from the last signature of the first |
| ChunkEncoding.ParseSignedChunk | pkg/s3signer/request-signature-streaming.go:81-123 | the chunk grammar reads a signed chunk back, with its signature |
| ChunkEncoding.ParseEncoding | pkg/s3signer/request-signature-streaming.go:81-183 | parsing the whole stream, checking every signature against the chain from the seed, returns the body |
| ChunkEncoding.LengthIsAnnounced | pkg/s3signer/request-signature-streaming.go:53-77 | the announced length is the true one if and only if the body is not empty |
| ChunkChain.SignedLines | pkg/s3signer/request-signature-streaming.go:81-92 | the string that is signed has six lines: algorithm, date, scope, previous signature, empty hash, hash of the data |
| ChunkChain.SignatureBinds | pkg/s3signer/request-signature-streaming.go:115-123 | without a collision, the signatures of two chunks agree if and only if the chunks and the signatures before them do |
| ChunkChain.ChainBinds | pkg/s3signer/request-signature-streaming.go:81-183 | without a collision, the last signature of a list of chunks determines the seed, every chunk and their order |
| ChunkChain.HexDigits | pkg/s3signer/request-signature-streaming.go:111-113 | the size of a chunk is written in lower-case hexadecimal without a leading zero |
| StreamingReader.StreamingReader.SignChunk | pkg/s3signer/request-signature-streaming.go:162-183 | the buffered chunk is signed behind those before it, chained to the previous signature |
| StreamingReader.StreamingReader.FillChunk | pkg/s3signer/request-signature-streaming.go:252-299 | reads until a chunk is complete or the body ends, for every fragmentation by a progressing base reader; only a mismatch of lengths is an error |
| StreamingReader.StreamingReader.Take | pkg/s3signer/request-signature-streaming.go:247-301 | hands out the next bytes of the buffer, EOF only from an empty one |
| StreamingReader.StreamingReader.Read | pkg/s3signer/request-signature-streaming.go:244-301 | delivers the next bytes of the stream and keeps the invariant; EOF only behind the last of them |
| StreamingReader.CompleteIsNext | pkg/s3signer/request-signature-streaming.go:267-278 | a chunk that the reader takes for complete is the next one of the 64 KiB split |
| StreamingReader.DeliveredIsPrefix | pkg/s3signer/request-signature-streaming.go:244-301 | whatever was read so far is a prefix of the one fixed encoding |
| StreamingReader.UnterminatedDoesNotParse | pkg/s3signer/request-signature-streaming.go:280-293 | no prefix of a list of chunks without the empty one is a complete upload |
| StreamingReader.MismatchNeverCompletes | pkg/s3signer/request-signature-streaming.go:280-293 | if the body has not the declared length, nothing that any run delivers is a complete upload |
| StreamingReader.ReadToEnd | pkg/s3signer/request-signature-streaming.go:202-301 | a caller with buffers of any sizes gets exactly the encoding, which parses to the body; a wrong length ends in an error |
| PartSize.CeilIsExact | api-put-object-common.go:106-115 | the rounded float64 quotient, rounded up, is the exact integer ceiling |
| PartSize.OptimalPartInfoIsExact | api-put-object-common.go:70-119 | the float64 computation gives the counts of exact integer arithmetic |
| PartSize.PartsTile | api-put-object-common.go:113-119 | the parts tile the object, and the last one is not empty and not longer than the others |
| PartSize.ConfiguredPassesIff | api-put-object-common.go:83-104 | which configured part sizes pass, with the wrap-around of the unsigned value and of the product |
| PartSize.ConfiguredRefusalIsTrue | api-put-object-common.go:83-104 | the reason to refuse a configured part size is true of it |
| PartSize.OptimalPartInfoOkIff | api-put-object-common.go:70-119 | which sizes and configured part sizes are accepted |
| PartSize.PartsCountBound | api-put-object-common.go:106-115 | at most 10001 parts, and at most 10000 if and only if the size is not of the one exceptional form |
| PartSize.DispatchGuards | api-put-object.go:139-166 | what is sent to a multipart upload never divides by zero, and which sizes are then refused |
| PartSize.DispatchSingleIff | api-put-object.go:139-166 | an upload goes out in one request if and only if its known size is below the configured part size, so that parts would be refused, or below 128 MiB without one |
| UploadPool.StepKeepsInv | api-put-object-streaming.go:143-216 | the invariant of the pool holds over every step of producer, workers and collector |
| UploadPool.ExitedStays | api-put-object-streaming.go:143-190 | a worker exits by quitting or by failing, and takes no part in the run after that |
| UploadPool.RunKeepsInv | api-put-object-streaming.go:143-216 | so it does over every interleaving |
| UploadPool.DrawKeepsWorkers | api-put-object-streaming.go:156-165 | overwriting the worker's own part size is harmless: whoever drew the last part finds the queue empty |
| UploadPool.StepKeepsCount | api-put-object-streaming.go:132-216 | queued, in-flight, pending and collected parts together stay the same number |
| UploadPool.RangesTile | api-put-object-streaming.go:153-166 | the ranges of the parts tile the object |
| UploadPool.AllCollected | api-put-object-streaming.go:198-224 | in any state of any interleaving, once n parts are collected they are 1..n, each once, and their sizes sum to the size |
| UploadPool.CompletedParts | api-put-object-streaming.go:198-224 | a completed upload lists exactly the parts 1..n, each stored with its own range |
| UploadPool.CompletedIsWhole | api-put-object-streaming.go:143-224 | what the server assembles from a completed upload is the object |
| UploadPool.CompleteIsPossible | api-put-object-streaming.go:217-231 | once all parts are collected, completing the upload with 1..n in order is possible |
| UploadPool.NeverStuck | api-put-object-streaming.go:132-216 | with at most as many parts as the queue holds, a running upload can always take a step that is no failure |
| UploadPool.HangsIffTooManyParts | api-put-object-streaming.go:132-149 | some run hangs if and only if there are more parts than the queue holds |
| UploadPool.RunsEnd | api-put-object-streaming.go:143-216 | no run has more than 5n + 2w + 2 steps |
| UploadPool.StuckRunsHaveEnded | api-put-object-streaming.go:132-231 | with at most as many parts as the queue holds, a run that cannot be continued has completed with the parts 1..n if nothing was refused, and has ended in an error otherwise |
| StreamUpload.UploadPart | api-put-object-streaming.go:282-294 | a part that is accepted is stored under its number and recorded; a rejected one changes nothing |
| StreamUpload.ListParts | api-put-object-streaming.go:307-318 | the list for completion is 1..n if and only if all parts were recorded; otherwise the error names one that was not |
| StreamUpload.PutObjectMultipartStreamNoChecksum | api-put-object-streaming.go:234-329 | succeeds if and only if the stream is long enough and no part is rejected, and then the server has its first size bytes, in parts of the announced sizes; an error is true of the stream or the server |
| StreamUpload.PutObjectMultipartStreamNoLength | api-put-object.go:168-267 | succeeds if and only if no part that the stream takes is rejected, and then has stored what fits, in exactly that many parts, all full but the last; the whole stream if and only if it is not longer than the parts |
| StreamUpload.PartCountReaches | api-put-object.go:211-247 | a stream takes at most k parts if and only if it is not longer than k parts |
| StreamUpload.PartsAndLast | api-put-object.go:211-247 | all parts but the last are full, and the last has the rest, which is empty only for an empty stream |
| StreamUpload.ParallelUploadHangsIff | api-put-object-streaming.go:91-232 | with the part size that the library chooses, the parallel upload can hang if and only if the size gets one part too many |
| Compose.CalculateEvenSplits | api-compose-object.go:525-565 | the two arrays hold the start and end of every part of the even split |
| Compose.EvenCovers | api-compose-object.go:548-563 | the offsets begin at the start of the range and end at its end |
| Compose.EvenStep | api-compose-object.go:548-563 | the parts are contiguous |
| Compose.EvenLengthsDiffer | api-compose-object.go:548-563 | two parts of a source differ by at most one byte, and the longer ones come first |
| Compose.EvenLengthBounds | api-compose-object.go:512-565 | no part above 5 GiB, none below 5 MiB unless the source is |
| Compose.PartsRequiredIsCeil | api-compose-object.go:512-519 | the number of parts is the ceiling of the quotient |
| Compose.LargestSourceFits | api-compose-object.go:512-519 | a source of 5 TiB takes all the parts that an upload may have, a smaller one no more |
| Compose.CheckSource | api-compose-object.go:367-396 | the checks on one source: its size, or a reason to refuse it that is true of it |
| Compose.Validate | api-compose-object.go:357-416 | the loop accepts exactly the requests of the declarative predicate and sums sizes and parts; a refusal names a reason that is true of the request |
| Compose.CopyPart | api-compose-object.go:471-490 | one part is listed behind the others: what the server assembles from the list grows by the next bytes of the source, within the limits of the upload |
| Compose.CopySource | api-compose-object.go:455-491 | one source's parts, listed in order, assemble to exactly its requested range behind what was listed before, and keep the limits |
| Compose.CopySources | api-compose-object.go:446-491 | the parts of all sources assemble to the concatenation of the requested ranges |
| Compose.ComposeObjectWithProgress | api-compose-object.go:357-500 | the destination is the concatenation of the requested ranges: the first source's object when that is copied whole, otherwise what the server assembles from the list that the upload is completed with; at most 10000 parts, none above 5 GiB, only the very last below 5 MiB |
| Compose.CopyIsWhole | api-compose-object.go:418-423 | when the shortcut is taken, the first source is all that was asked for |
| SelectHeaders.ParseEncodedHeaders | api-select.go:431-495 | reading the headers of a message inverts encoding them, later values replacing earlier ones |
| SelectHeaders.ParseCutHeaders | api-select.go:431-495 | what reading headers gives when they are cut at any byte inside any header |
| SelectHeaders.BigEndian | api-select.go:497-514 | numbers on the wire have the most significant byte first |
| SelectNames.KeyIgnoresCase | api-select.go:431-455 | two names are one key if and only if they differ in nothing but the case of letters |
| SelectNames.LastHeaderCounts | api-select.go:431-470 | the headers read give, under each name, the value of its last header, with the leading colon taken off |
| SelectNames.NamedCounts | api-select.go:431-470 | a header counts wherever it stands, if none of its name follows |
| SelectFraming.TrueLengths | api-select.go:398-427 | a prelude reads back to its lengths and its checksum |
| SelectFraming.BehindFraming | api-select.go:298-336 | behind the prelude the decoder is at the headers, and `PayloadLen` is the true payload length |
| SelectFraming.DecodeFrame | api-select.go:298-390 | a message is handled by its headers and its true payload, and the next iteration starts at the next message |
| SelectFraming.DecodeFrames | api-select.go:298-390 | a stream of messages adds their outputs in order, and decoding goes on behind them |
| SelectFraming.DecodeCutFrame | api-select.go:298-390 | a message cut inside its payload hands on what is there and then meets the end of the file |
| SelectFraming.AcceptedIsFrame | api-select.go:298-390 | what the decoder accepts is an encoding: it inverts the encoder in the other direction, too |
| SelectDecoder.Body.ReadFull | api-select.go:497-524 | a full read through the tee, with the end of the file told from a short read |
| SelectDecoder.Body.CheckCRC | api-select.go:527-538 | the checksum is compared with what was summed before it is read |
| SelectDecoder.Body.ProcessPrelude | api-select.go:405-427 | twelve bytes are read and checked, or the error names the number that was short |
| SelectDecoder.Window.Draw | api-select.go:318-323 | reading through the limit moves the window and changes neither what is behind it nor what is summed up to its end |
| SelectDecoder.Window.ExtractString | api-select.go:487-494 | one read into a zeroed buffer |
| SelectDecoder.Window.ExtractHeaderType | api-select.go:458-470 | reads a header's name as the parser does |
| SelectDecoder.Window.ExtractHeaderValue | api-select.go:474-484 | reads a header's value as the parser does |
| SelectDecoder.Window.ExtractHeader | api-select.go:431-455 | the loop over the headers computes the parser's map or error, and leaves the window empty |
| SelectDecoder.HandleEvent | api-select.go:328-383 | every message and event type has the effect of the specification, and reads as much of the body |
| SelectDecoder.DecodeXml | api-select.go:356-381 | progress and statistics: content type, XML decoder, bytes read |
| SelectDecoder.DecodeMessage | api-select.go:300-390 | one iteration computes one message of the specification |
| SelectDecoder.Start | api-select.go:298-395 | the goroutine writes and closes its pipe exactly as the specification function says |
| SelectEvents.RecordsComeFirst | api-select.go:298-395 | well-formed events put their records in front of whatever follows |
| SelectEvents.RecordsComeOut | api-select.go:298-395 | any sequence of well-formed records, progress, statistics and ignored events, then End: the records in order, and a clean end |
| SelectEvents.FieldsAreNamed | api-select.go:328-341 | the decoder looks up message type, event type, content type, error code and error message under their own names |
| SelectReplies.FieldsByHeader | api-select.go:328-341 | each of them is the value of the header of that name, for any headers around it |
| SelectReplies.StopsBehindRecords | api-select.go:328-383 | which messages end a response and how, by the values of their headers; the caller has the records before them |
| SelectReplies.ResponseComesOut | api-select.go:298-395 | a response built of records, progress, statistics and continuation messages, then End: the content of all records in order, and a clean end |
| SelectReplies.ServerErrorComesOut | api-select.go:333-336 | broken off by an error message: the content so far, and the server's code and message |
| SelectEvents.MissingEndIsUnnoticed | api-select.go:311-316 | without the end event the caller sees the same clean end |
| SelectEvents.CutRecordsAreUnnoticed | api-select.go:350-355 | so it does when the body is cut inside the content of some records |
| SelectCuts.CutIsUnnoticedIff | api-select.go:298-395 | for any well-formed events and every proper prefix of the next message, the caller sees a clean end if and only if the condition on the prefix holds |
| SelectCuts.HeaderCutAt | api-select.go:431-455 | inside header i, the condition is one on the byte position and the headers before |
| SelectCuts.TailCutByLength | api-select.go:328-390 | behind the headers of a well-formed event: unnoticed if and only if the cut is not inside the checksum and the XML decoder accepts the payload that is there |
| SelectCuts.EndCutIsUnnoticed | api-select.go:341-345 | behind the headers of an end event every cut is unnoticed |
| ObjectProtocol.RequestsAreAnswered | api-get-object.go:66-200 | in a safe state every request meets a live goroutine that answers it |
| ObjectProtocol.ExchangeIsAnswered | api-get-object.go:264-292 | an exit of the goroutine comes with an error that will stick, and otherwise a body that was read from is open |
| ObjectProtocol.StepKeepsSafe | api-get-object.go:264-577 | every call keeps this: an exited goroutine implies a sticky error other than EOF, a live one that was read from has an open body |
| ObjectProtocol.RunIsSafe | api-get-object.go:264-577 | so does every run of calls, if the network does not fail with EOF |
| ObjectProtocol.NeverPanics | api-get-object.go:66-200 | from the opening on, no call sends to an exited goroutine or reads a missing body |
| ObjectReader.Worker.Handle | api-get-object.go:66-200 | one round of the goroutine's loop is the protocol's round |
| ObjectReader.Object.WorkerExit | api-get-object.go:68-75 | the goroutine of a closed object makes the protocol's exit, and no body that it held stays open |
| ObjectReader.Object.DoGetRequest | api-get-object.go:264-292 | a request, its response, and what is remembered of it |
| ObjectReader.Object.Read | api-get-object.go:309-360 | makes the protocol's step and keeps the object safe |
| ObjectReader.Object.Stat | api-get-object.go:363-389 | makes the protocol's step and keeps the object safe |
| ObjectReader.Object.ReadAt | api-get-object.go:395-461 | makes the protocol's step and keeps the object safe |
| ObjectReader.Object.SeekTo | api-get-object.go:507-552 | the new offset by whence, or the reason why there is none |
| ObjectReader.Object.Seek | api-get-object.go:472-552 | makes the protocol's step and keeps the object safe |
| ObjectReader.Object.Close | api-get-object.go:555-577 | makes the protocol's step and keeps the object safe, whatever state it is in |
| ObjectRuns.ReadsDeliverPrefix | api-get-object.go:309-360 | with reads only, whatever fails, the delivered bytes are the object's prefix of length currOffset, until an error other than EOF sticks |
| ObjectRuns.WholeRead | api-get-object.go:309-360 | a read of n bytes gets the next n, or what is left, and EOF exactly with the last byte |
| ObjectRuns.ReadsDeliverWhole | api-get-object.go:309-360 | reads deliver the object from the beginning as far as they ask for it |
| ObjectRuns.ReadReadsOn | api-get-object.go:66-130 | which body a read takes its bytes from, when it fetches a new one, what it leaves of it and with which error |
| ObjectRuns.ReadEndsIff | api-get-object.go:296-360 | a read saves EOF if and only if it brings the position to the end of an object of known size |
| ObjectRuns.OnlySeekClearsEnd | api-get-object.go:296-552 | a saved EOF is cleared by a seek that succeeds, by no other call, and no other error is ever cleared |
| ObjectRuns.EndSticks | api-get-object.go:296-552 | behind the end of the object, in any run without a successful seek, reads deliver nothing and send nothing |
| ObjectRuns.SeekSucceedsIff | api-get-object.go:472-552 | on an object of known size, exactly which seeks succeed and where they lead, and which fail with EOF; the next read fetches anew |
| ObjectRuns.SeekWithoutSizeIff | api-get-object.go:472-552 | on an object of unknown size, exactly which seeks succeed and where they lead; seeking from the end is refused |
| ObjectRuns.ReadAtSendsIff | api-get-object.go:395-418 | a ReadAt sends a request if and only if its offset lies inside the object as far as known; otherwise it answers EOF and changes only the position |
| ObjectRuns.ReadAtFetches | api-get-object.go:395-461 | every ReadAt that sends a request is answered from the beginning of a body of its own |
| ObjectRuns.ReadAtMovesReads | api-get-object.go:395-461 | the error of a ReadAt, and that reads behind it go on in its body |
| ObjectRuns.StatTells | api-get-object.go:363-389 | Stat tells what is known, or asks and remembers, or ends the goroutine |
| ObjectRuns.ClosedRefuses | api-get-object.go:555-577 | in any run, a closed object answers every call with the same error and sends nothing |
| ObjectRuns.DeadPanicsIff | api-get-object.go:264-577 | behind the exit of the goroutine some calls panic if and only if the saved error does not stick |
| ObjectRuns.ExitsIffNetFails | api-get-object.go:66-200 | a request ends the goroutine if and only if the stat or fetch that it makes fails, and the object saves that error for good unless it is EOF |
| ObjectRuns.ExitIsSafeIffNotEOF | api-get-object.go:66-200 | when the stat or fetch that a call makes fails, later calls are safe if and only if it did not fail with EOF |
| ObjectRuns.StepLosesIff | api-get-object.go:66-200 | which calls lose an open response body, and that every other call accounts for all bodies |
| ObjectRuns.ClosingAccountsForBodies | api-get-object.go:66-200 | after any run, closing the object leaves one open body for each call that lost one, and no others |
| ObjectRuns.ShortReadThenReadAtLeaks | api-get-object.go:93-106 | reading any object at once into a larger buffer, and then a part of it, loses a body |
| Utf8.EncodesBack | pkg/s3utils/utils.go:237-257 | decoding a well-formed encoding and encoding the rune gives the same bytes |
| Utf8.DecodesBack | pkg/s3utils/utils.go:237-257 | encoding a rune and decoding gives the rune |
| Utf8.KeptIffValid | pkg/s3utils/utils.go:237-257 | ranging over a string loses nothing if and only if it is valid UTF-8 |
| UrlEncoding.EncodeBytes | pkg/s3utils/utils.go:252-257 | the inner loop encodes every byte of a rune |
| UrlEncoding.EncodePath | pkg/s3utils/utils.go:232-261 | the loop with its shortcut computes the encoding of the string's runes |
| UrlEncoding.ReservedIsKept | pkg/s3utils/utils.go:222-235 | the shortcut agrees with the loop |
| UrlEncoding.EncodedByte | pkg/s3utils/utils.go:237-257 | which one-byte strings are kept and which triplet, with upper-case digits, the others become |
| UrlEncoding.EncodedInvalidByte | pkg/s3utils/utils.go:237-257 | a byte that begins no rune becomes the encoding of U+FFFD |
| UrlEncoding.EncodedIsTriplets | pkg/s3utils/utils.go:237-257 | the result consists of characters that stand for themselves and of triplets with upper-case digits |
| UrlEncoding.DecodeEncoded | pkg/s3utils/utils.go:232-261 | percent-decoding gives the string back, up to the bytes that are not UTF-8 |
| UrlEncoding.InverseIffValid | pkg/s3utils/utils.go:232-261 | percent-decoding is the inverse if and only if the string is valid UTF-8 |
| QueryEncoding.ComponentDecodes | pkg/s3utils/utils.go:191-193 | encoding the slashes as well changes nothing about what decoding gives |
| QueryEncoding.ComponentChars | pkg/s3utils/utils.go:210-216 | no separator occurs in an encoded key or value |
| QueryEncoding.SortedKeys | pkg/s3utils/utils.go:203-207 | the keys, met in any order of the map, are listed in order |
| QueryEncoding.LessIffSmaller | pkg/s3utils/utils.go:203-207 | the order is ascending: by the first byte that differs, a beginning before its continuation |
| QueryEncoding.RunesKeepOrder | pkg/s3utils/utils.go:203-207 | it orders characters by their code points |
| QueryEncoding.OrderIsUnique | pkg/s3utils/utils.go:203-207 | the key order depends on nothing but the keys |
| QueryEncoding.WriteKey | pkg/s3utils/utils.go:208-218 | one key's values follow what was written before |
| QueryEncoding.QueryEncode | pkg/s3utils/utils.go:198-220 | the result is a function of the map's contents: that of its one sorted key list |
| QueryEncoding.ParseJoined | pkg/s3utils/utils.go:208-218 | splitting and decoding finds every pair again, in order |
| QueryEncoding.QueryRoundTrip | pkg/s3utils/utils.go:198-220 | for valid UTF-8, reading the query string gives every key's values in order, and nothing else |

## Left out

- ObjectRuns.ReadsDeliverPrefix: says nothing about content after `Seek` or `ReadAt`, because `getObject` does not send the range it is given and the content then depends on the server.
- SelectDecoder.Start: does not model a reader that closes the pipe early, and takes every read to fill its buffer as far as the body goes.
- UploadPool.CompletedParts: gives each worker an error variable of its own; the source's workers write a shared named result, but what counts is the value each one sends.
- Policy: string sets are values. In the source they are shared references changed in place, which no list that `SetPolicy` builds can observe. Actions, effects, operators and condition keys are datatypes with a case for other names; a nil inner condition map and an empty one are the same.
- Policies other than the four valid ones, `GetPolicies`, and the JSON form of statements.
- HMAC, SHA-256, CRC32 and the XML decoder are parameters; credentials and the headers of requests are left out.
- Errors other than EOF of the readers below the signing stream and the uploads, and negative content lengths.
- Overflow of 64-bit sums over source sizes in a compose: the sizes are mathematical integers.
- float64 is a rounding function that, between 0 and 2^53, keeps the order and is exact on integers, and from 2^-53 on has relative error 2^-53; outside that range nothing is said of it, and no size that the proofs are about leaves it.
- The Signature Version 2 upload path, fallback to a single request after an access error, and abort of a failed upload.
- The If-Match condition of later fetches, HTTP transport, retries, and the mutex of an open object, whose calls are atomic steps here.
- ACLs, notifications, lifecycle, post policies, credential providers, endpoint tables and the bucket-name rules are not modelled.
