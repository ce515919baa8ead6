# rdlp: a verified model of the downloader, the cipher toolkit and the controllers

A Dafny 4.11 model of three parts of the rdlp workspace, with proofs about whole runs of each.
`dafny verify dfyconfig.toml` checks the project.

**The fragment downloader.** `ResumeProtocol` is the downloader as a state machine over an output file, an
atomically replaced sidecar and an ordered window of concurrent fetches. One history is any number of runs of any
lists, interleaved with cancellations, fetch and file errors, failed saves and crashes. A crash leaves *any* bytes in
the output and *any* sidecar ever written (a stale sidecar outlives a fresh start, and nothing is synced). Checksum
collisions are not assumed away: the safety theorems end in "or the history met a collision", and a collision
(`ResumeProtocol.CollisionAt`) is a comparison of two different byte strings of one length, one of them the prefix a
sidecar was saved over, whose checksums are equal. `DownloadLoop` is the same function written as the
imperative program it is; every call of it is proved to be one run of the machine, so the theorems hold of the code
and not only of the abstraction. `Crc32`, `Fingerprint` with `ManifestReader`, `Revalidate` with `AnchorStrength`,
`Retry`, `SaveTracker` and `Fragments` are the parts it stands on.

**The cipher toolkit.** `JsInt` and `Prng` model the 64-bit emulation of JavaScript's 32-bit arithmetic bit by bit on
integers; `Reference` is the same in plain unsigned arithmetic and `Inverses` runs it backwards. `FullPeriod` derives
when a congruential step runs through all 2^32 words and what that means for the mixed outputs; `Generator` applies it
to the seven algorithms. `Shuffle` and `Transposition` are the in-place array algorithms, proved equal to functions
that are then shown to be invertible.

**The controllers.** `Adaptive` is the chunk-size controller as a class whose state is tied to the sequence of all
calls made on it; `AdaptiveLaws` proves what every such sequence keeps. `SpeedMeter`, `Chunking` and `Registry` are
the rate meter, the static chunk sizes and the search-site arbitration.

## What the proofs found

- **Init segments are deduplicated by URL alone** (`crates/rdlp-downloader/src/fragments.rs:389`). A fragment that
  moves to another byte range of the init URL its predecessor used goes out under the wrong init segment.
  `Fragments.DecodeOrderExactly` shows these are the only lists on which section 4.3.2.5 of RFC 8216 is missed, and
  `Fragments.DecodeOrderCanFail` exhibits one.
- **An equal fingerprint does not mean equal bytes**, even without a hash collision: the fingerprint ignores hosts
  and queries, the init plan compares whole init URLs. `ResumeLimits.RotatedInitTokenChangesTheStream` gives two such
  lists; `ResumeLimits.SameManifestSamePieces` gives the exact condition.
- **A run stopped after its last save loses everything**: a cancellation noticed then, or a final flush that fails,
  leaves a sidecar that counts all fragments; the completeness gate refuses it, and the next run starts from nothing.
  Of all runs that end in an error or a cancellation, their anchor not being refuted, these and those whose last step
  was an error of the output file that damaged the recorded prefix are the only ones that lose confirmed progress
  (`ResumeProgress.ProgressIsLostExactly`; `ResumeLimits.LateCancelKeepsNothing` and
  `ResumeLimits.LateFlushKeepsNothing` give the histories). A torn write behind the prefix is harmless.
- **What safety takes is known exactly**: completed outputs are whole if and only if any two states of one list agree
  on what can be resumed or are told apart by the probe (`ResumeLimits.SafetyExactly`); wherever that fails,
  `ResumeLimits.ChangedOriginCanBeSpliced` builds the spliced output.
- **At most one fragment is written after a cancellation**, at any concurrency; the documentation at
  `crates/rdlp-downloader/src/fragments.rs:80-84` promises up to `concurrent_fragments - 1` extra ones. The model
  follows the code.
- `crates/rdlp-downloader/src/fragments/state.rs:107-112` calls a sidecar with fragments but no bytes physically
  impossible. Empty fragment bodies produce it (`ResumeLimits.EmptyFragmentsAreForgotten`), and they alone do
  (`ResumeLimits.RejectedAsImpossibleExactly`); the model keeps the rejection, and such a run starts again.
- **The retry gate is consulted before the allowance**, so the last permitted attempt of a fetch, failing
  transiently, costs a budget token with no retry following. The conservation law states this exactly.
- **A 206 that withholds its complete length is judged by the rule for full responses**
  (`Revalidate.UndisclosedLengthNeedsTheDate`).
- `FMIX32_C1` and `FMIX32_C2` are not the multipliers of the reference MurmurHash3 finalizer. The constants here are
  the code's; being odd is all the bijection needs.
- `XorshiftShifts::new` accepts a zero shift, with which the step is constant.

## Assumptions

The origin enters as a function from URL and byte range to bytes, the URL parser as a function from URLs to paths;
both are arbitrary. `Identifiable` is the hypothesis of the safety theorem: any two jobs of one fingerprint and length
either have the same resumable prefixes, or the first offers a validator that no answer for the second confirms.
`UnchangedOrigin` (one fingerprint and length, one stream) and `StrongAnchors` (fragment 0 always offers a validator,
probes are answered truthfully, and a validator one state of the origin offered names another state of the same list
only if their bytes are equal) both imply it. `ResumeLimits` shows that `Identifiable` is necessary as well as
sufficient, derives `UnchangedOrigin` from one origin that serves by path, and says what `Identifiable` and
`StrongAnchors` come to in terms of the headers an origin serves. Rates and durations in seconds are reals;
instants are integer nanoseconds. Machine widths are explicit where they matter (`I32`, `I64`, `U32`, `U64`).

## Model

| member | source | states |
|---|---|---|
| `Fragments.PlanInits` | crates/rdlp-downloader/src/fragments.rs:385-398 | One pass over the whole list plans an init fetch exactly where an init group opens: where a fragment declares an init segment and stands first, follows one without, or finds the decoder holding another URL's. A resumed run that skips into a group does not emit its init again. |
| `Fragments.InitOncePerGroup` | crates/rdlp-downloader/src/fragments.rs:385-398 | In terms of what a decoder holds: within a group the init segment goes out once and never again. |
| `Fragments.StreamIsRendered` | crates/rdlp-downloader/src/fragments.rs:437-452 | On every list the bytes written are those of the units in decode order: each due init segment in front of its fragment, each unit fetched by its own URL and range. |
| `Fragments.EveryFragmentOnce` | crates/rdlp-downloader/src/fragments.rs:406-452 | Every fragment goes out exactly once, in list order. |
| `Fragments.ActiveInitUrl` | crates/rdlp-downloader/src/fragments.rs:385-398 | At every fragment that declares an init segment the decoder holds one with the declared URL, on every list. |
| `Fragments.DecodeOrderExactly` | crates/rdlp-downloader/src/fragments.rs:385-398 | The decoder meets every fragment under its own init segment if and only if no fragment moves to another byte range of its predecessor's init URL. |
| `Fragments.DecodeOrderCanFail` | crates/rdlp-downloader/src/fragments.rs:389-396 | For any media URLs, any init URL and any two different ranges of it, a two-fragment list on which it does not. |
| `Fragments.EstimateIsHonest` | crates/rdlp-downloader/src/fragments.rs:43-57 | A known length is the estimate. Otherwise it is absent exactly before the first fragment or on overflow, else the bytes so far scaled by the share of fragments done to within one byte, never below the bytes written, and exact at the end. |
| `ByteFold.FoldConcat` | crates/rdlp-downloader/src/fingerprint.rs:25-30 | Feeding is compositional: feeding a concatenation is feeding its parts in turn. |
| `Crc32.UpdateConcat` | crates/rdlp-downloader/src/fragments.rs:278-288 | A hasher seeded with a stored checksum continues the stream as if it had never stopped. |
| `Crc32.PolynomialIsGenerator` | crates/rdlp-downloader/src/atomic.rs:193-212 | The constant is the CRC-32 generator polynomial of IEEE 802.3, term by term. |
| `Crc32.RoundIsTimesX` | crates/rdlp-downloader/src/atomic.rs:193-212 | A round multiplies the state's polynomial by x modulo the generator. |
| `Crc32.ByteEntersAtTheTop` | crates/rdlp-downloader/src/atomic.rs:193-212 | A byte is added at the eight highest coefficients, its lowest bit at x^31. |
| `Crc32.AppendedChecksumIsRecognised` | crates/rdlp-downloader/src/atomic.rs:193-212 | A message followed by four bytes has the checksum of four zero bytes if and only if they are its own checksum, lowest byte first. |
| `Crc32.OnesCancelTheStart` | crates/rdlp-downloader/src/atomic.rs:193-212 | The hasher starts from all ones and hands out the complement. |
| `Crc32.OneByteCorruptionIsDetected` | crates/rdlp-downloader/src/atomic.rs:193-212 | A partial corrupted in exactly one byte never passes the checksum comparison. |
| `Crc32.FourByteCorruptionIsDetected` | crates/rdlp-downloader/src/atomic.rs:193-212 | Nor does one whose corruption is confined to four consecutive bytes. |
| `Crc32.PrefixChecksum` | crates/rdlp-downloader/src/atomic.rs:193-212 | The buffered read loop returns the checksum of exactly the first `len` bytes however short the reads are, and an error exactly when the file is shorter. |
| `Fingerprint.OneByteChangesTheFingerprint` | crates/rdlp-downloader/src/fingerprint.rs:25-30 | Two streams of one length that differ in one byte never share an FNV-1a-64 value. |
| `Fingerprint.FeedIsUndone` | crates/rdlp-downloader/src/fingerprint.rs:25-30 | The exclusive or comes before the multiplication: every hash is unwound byte by byte from the end by the inverse of the prime. |
| `Fingerprint.HashOfTheLetterA` | crates/rdlp-downloader/src/fingerprint.rs:182-188 | The published test vector. |
| `Fingerprint.PrimeIsInvertible` | crates/rdlp-downloader/src/fingerprint.rs:12-30 | Multiplying by the FNV prime permutes the 64-bit words. |
| `Fingerprint.ManifestIsInjective` | crates/rdlp-downloader/src/fragments/state.rs:75-86 | Two lists feed the same bytes if and only if all their path-reduced fields agree: no two adjacent fields can be confused. |
| `ManifestReader.ManifestReadsBack` | crates/rdlp-downloader/src/fragments/state.rs:58-86 | A reader of tags, eight-byte numbers and length-prefixed strings gets every field of every fragment back from the manifest, in its order, URLs reduced to their paths. |
| `Fingerprint.OptStrFrame` | crates/rdlp-downloader/src/fingerprint.rs:76-90 | Two tagged, length-prefixed strings followed by anything agree only if the strings and what follows agree. |
| `Fingerprint.OptRangeFrame` | crates/rdlp-downloader/src/fingerprint.rs:59-70 | The same for optional byte ranges. |
| `Fingerprint.Fnv1a64.FeedBytes` | crates/rdlp-downloader/src/fingerprint.rs:25-30 | The byte loop moves the hash by the fold over the bytes fed. |
| `Fingerprint.Fnv1a64.FeedU64` | crates/rdlp-downloader/src/fingerprint.rs:32-34 | Feeds the eight little-endian bytes. |
| `Fingerprint.Fnv1a64.FeedOptU64` | crates/rdlp-downloader/src/fingerprint.rs:36-47 | Feeds the tagged encoding, also for the bits of a duration. |
| `Fingerprint.Fnv1a64.FeedOptRange` | crates/rdlp-downloader/src/fingerprint.rs:59-70 | Feeds the tagged encoding of a byte range. |
| `Fingerprint.Fnv1a64.FeedOptStr` | crates/rdlp-downloader/src/fingerprint.rs:76-90 | Feeds the tagged, length-prefixed encoding of a string. |
| `Fingerprint.Fnv1a64.FeedUrlPath` | crates/rdlp-downloader/src/fingerprint.rs:96-103 | Feeds the path of an absolute URL and any other string whole. |
| `Fingerprint.Fnv1a64.FeedOptUrlPath` | crates/rdlp-downloader/src/fingerprint.rs:105-110 | Keeps an absent URL apart from an empty path. |
| `Fingerprint.FragmentFingerprint` | crates/rdlp-downloader/src/fragments/state.rs:75-86 | The computed fingerprint is the FNV-1a-64 of the list's manifest bytes. |
| `Revalidate.ConfirmedNamesCurrent` | crates/rdlp-downloader/src/revalidate.rs:69-103 | Whatever a truthful origin answers, `Confirmed` means it still serves what the anchor names. |
| `Revalidate.VerdictIsExact` | crates/rdlp-downloader/src/revalidate.rs:69-103 | Against an answer with all that RFC 9110 asks for, the anchor is confirmed if and only if it still names the representation and the answer is not a 416. |
| `Revalidate.UndisclosedLengthNeedsTheDate` | crates/rdlp-downloader/src/revalidate.rs:69-96 | For a 206 without a complete length, an unchanged date anchor is confirmed if and only if the 206 repeats the date. |
| `Revalidate.OnlySilenceIsAnError` | crates/rdlp-downloader/src/revalidate.rs:69-96 | An outage is an error and never a verdict; every answer is a verdict, and `RangeUnsatisfiable` exactly for a 416's range without a length. |
| `Revalidate.RefusalsSayWhy` | crates/rdlp-http/src/validator.rs:289-345 | A refusal names the missing, weak or different field of the anchor's kind, and a 206 is excused only for not repeating a date. |
| `Revalidate.OfferedValidatorNamesItself` | crates/rdlp-http/src/validator.rs:247-263 | What a response offers is its own strong tag, or without any tag its own date, and then only when that second is over. |
| `AnchorStrength.TagDecidesAlone` | crates/rdlp-http/src/validator.rs:247-251 | A strong tag is always offered; a weak or malformed one rules the date out as well. |
| `AnchorStrength.DateOfferedExactly` | crates/rdlp-http/src/validator.rs:252-263 | Without a tag the date is offered, verbatim, if and only if it is an IMF-fixdate and at least one second older than `Date`. |
| `AnchorStrength.OfferedDateNamesOneRevision` | crates/rdlp-http/src/validator.rs:247-263 | Of an origin that stamps its revisions by the second, an offered date names only the revision it came from, whatever changes follow. |
| `AnchorStrength.ConfirmedDateMeansUnchanged` | crates/rdlp-downloader/src/revalidate.rs:69-103 | A truthful origin that confirms such a date still serves that revision. |
| `AnchorStrength.FreshDateCanNameTwo` | crates/rdlp-http/src/validator.rs:252-263 | A date less than one second old can come to name a second revision. |
| `AnchorStrength.OfferedExactlyWhenSafe` | crates/rdlp-http/src/validator.rs:247-263 | The rule is exact: a date is offered if and only if no change that could follow would carry it too. |
| `ResumeSafety.InvariantHolds` | crates/rdlp-downloader/src/fragments.rs:151-596 | Every step of every history that met no collision keeps: each saved sidecar describes a prefix of the stream of the job that saved it, the disk's sidecar is one of them, and a streaming run has written exactly the prefix it counts. |
| `ResumeSafety.CompletedOutputIsWhole` | crates/rdlp-downloader/src/fragments.rs:171-596 | After any history in which any two jobs of one list agree on what can be resumed or are told apart by the probe, success leaves the uninterrupted concatenation of all fragments of the representation served, stale sidecars and crashes included, or some comparison met two different byte strings of one length with equal checksums. |
| `ResumeSafety.UnchangedIsIdentifiable` | crates/rdlp-downloader/src/fragments/state.rs:58-86 | An origin that keeps the bytes of every list meets that hypothesis. |
| `ResumeSafety.StrongIsIdentifiable` | crates/rdlp-http/src/validator.rs:247-345 | So does one that changes, answers truthfully, and tells its states apart by the validators it offers. |
| `ResumeSafety.CompletedOutputIsTheStream` | crates/rdlp-downloader/src/fragments.rs:171-596 | The theorem against an unchanged origin. |
| `ResumeSafety.CompletedOutputIsOneRepresentation` | crates/rdlp-downloader/src/fragments.rs:193-277 | The theorem when the origin changes back and forth and each state's offered validator tells it from the others: a completed output never mixes two representations. |
| `ResumeSafety.WritesFollowTheList` | crates/rdlp-downloader/src/fragments.rs:406-515 | In whatever order fetches finish, the output is the first `done` pieces in list order and the sidecar about to be saved describes it. |
| `ResumeSafety.SlotsHoldTheirEntries` | crates/rdlp-downloader/src/fragments.rs:406-466 | Under every order in which fetches finish, slot k of the window is the fetch of entry `done + k` and holds that entry's bytes once they are there. |
| `ResumeSafety.EndOfStreamIsEndOfList` | crates/rdlp-downloader/src/fragments.rs:467-596 | A run that finds its stream exhausted has written every entry of the list. |
| `ResumeSafety.WindowInvariantHolds` | crates/rdlp-downloader/src/fragments.rs:342-466 | The window never exceeds the concurrency nor the list, and a fragment written after the token fired is the last one. |
| `ResumeSafety.FetchesAreBounded` | crates/rdlp-downloader/src/fragments.rs:342-357 | At most `max(1, concurrency)` fetches are ever in progress. |
| `ResumeLimits.WindowCanFill` | crates/rdlp-downloader/src/fragments.rs:342-466 | And that many can be, short of the end of the list. |
| `ResumeSafety.AtMostOneFragmentAfterCancel` | crates/rdlp-downloader/src/fragments.rs:469-566 | Once the token has fired at most one more fragment is written before the run returns: of any two later steps of the loop not both are writes. |
| `ResumeProgress.RunKeeps` | crates/rdlp-downloader/src/fragments.rs:171-576 | At every step of a run that neither crashes nor completes, the sidecar on disk keeps at least the confirmed fragments; until the run returns, its checksum fits the output. |
| `ResumeProgress.FaultBehindThePrefixIsHarmless` | crates/rdlp-downloader/src/fragments.rs:246-256 | An error of the output file that leaves the recorded prefix in place does not damage it, whatever bytes follow. |
| `ResumeProgress.StoppedRunKeepsProgress` | crates/rdlp-downloader/src/fragments.rs:176-576 | A run ended by an error of any kind (fetch, probe, startup, write, flush) or by a cancellation, with any saves failing, keeps what its gates confirmed if and only if the sidecar it leaves does not count every fragment and no error of the output file damaged the recorded prefix; otherwise the next run keeps nothing. |
| `ResumeProgress.OnlyLateStopsLoseProgress` | crates/rdlp-downloader/src/fragments.rs:176-576 | With the recorded prefix undamaged, such a loss happens only in a run that left a full sidecar and was cancelled or failed its final flush. |
| `ResumeProgress.ProgressIsLostExactly` | crates/rdlp-downloader/src/fragments.rs:468-576 | On the run's own steps: confirmed progress is lost if and only if the run saved a sidecar that counts every fragment and its last step was the look at a fired token or a failed final flush, or its last step was an error of the output file that damaged the recorded prefix. |
| `ResumeLimits.SameManifestSamePieces` | crates/rdlp-downloader/src/fragments.rs:385-398 | Lists with equal manifests stand for the same bytes if and only if they plan their init fetches alike. |
| `ResumeLimits.RotatedInitTokenChangesTheStream` | crates/rdlp-downloader/src/fragments/state.rs:58-86 | For any media URLs, any two init URLs of one path and a non-empty init segment there: two lists with equal manifests and different bytes. |
| `ResumeLimits.OneOriginIsUnchanged` | crates/rdlp-downloader/src/fragments/state.rs:58-86 | One origin serving by path, without fingerprint collisions and with agreeing init plans, meets the hypothesis of the safety theorem. |
| `ResumeLimits.DifferentTagsSuffice` | crates/rdlp-http/src/validator.rs:247-263 | Two states with different strong entity tags satisfy `StrongAnchors`, whatever their dates. |
| `ResumeLimits.TwoStatesAreTold` | crates/rdlp-http/src/validator.rs:247-345 | Two states of one list with different bytes satisfy it if and only if both offer a validator and neither's names the other. |
| `ResumeLimits.ChangedOriginCanBeSpliced` | crates/rdlp-downloader/src/fragments.rs:193-227 | For any two jobs of one list, the first without a validator that tells them apart, and any boundary at which their prefixes differ and are not empty, some history completes the output spliced there, with no checksum at fault. |
| `ResumeLimits.SafetyExactly` | crates/rdlp-downloader/src/fragments.rs:171-596 | Every completed, collision-free history leaves its run's own stream if and only if any two jobs of one list agree on what can be resumed or are told apart by the probe. |
| `ResumeLimits.ToldApartByName` | crates/rdlp-http/src/validator.rs:247-345 | Against origins that may answer anything true, the probe tells two states apart if and only if the first offers a validator that does not name the second. |
| `ResumeLimits.SafetyAgainstTruthfulOrigins` | crates/rdlp-downloader/src/fragments.rs:193-227 | The exact condition for safety against such origins, in terms of the headers they serve. |
| `ResumeLimits.LateCancelKeepsNothing` | crates/rdlp-downloader/src/fragments.rs:558-566 | For any list resumable at some fragment, a history in which a resumed run writes and saves everything, is cancelled, and leaves nothing to resume. |
| `ResumeLimits.LateFlushKeepsNothing` | crates/rdlp-downloader/src/fragments.rs:568-576 | The same when the final flush fails, although every byte arrived. |
| `ResumeLimits.RejectedAsImpossibleExactly` | crates/rdlp-downloader/src/fragments/state.rs:107-125 | In an identifiable world, a sidecar left by any collision-free history is rejected by the job that saved it if and only if every fragment it counts was empty. |
| `ResumeLimits.EmptyFragmentsAreForgotten` | crates/rdlp-downloader/src/fragments/state.rs:107-125 | Any run cut short while all it wrote was empty leaves such a sidecar, and the next run starts from nothing. |
| `DownloadLoop.Storage.WriteAll` | crates/rdlp-downloader/src/fragments.rs:507-515 | A write replaces the bytes at the position, keeps all others, and at the end of the file appends. |
| `DownloadLoop.Storage.Truncate` | crates/rdlp-downloader/src/fragments.rs:246-311 | The file is cut or zero-extended to the length asked for. |
| `DownloadLoop.GateAndProbe` | crates/rdlp-downloader/src/fragments.rs:171-227 | The gates and the probe are steps of the machine; resuming means the disk's own sidecar passed them all, anything else starts from a new state. |
| `DownloadLoop.VerifyPrefix` | crates/rdlp-downloader/src/fragments.rs:246-277 | Truncation and checksum are steps of the machine; streaming resumes only on a prefix of the recorded length and checksum. |
| `DownloadLoop.StartFresh` | crates/rdlp-downloader/src/fragments.rs:300-311 | A fresh start leaves an empty file and the machine's fresh streaming state, or fails. |
| `DownloadLoop.Position` | crates/rdlp-downloader/src/fragments.rs:289-299 | A resumed run stands at the recorded length, or fails. |
| `DownloadLoop.OpenAndVerify` | crates/rdlp-downloader/src/fragments.rs:228-288 | Opening and verifying end in the resumed state exactly when the recorded prefix has its checksum, in a fresh start otherwise, or in a failure exactly at an error of opening, truncating or reading. |
| `DownloadLoop.Prepare` | crates/rdlp-downloader/src/fragments.rs:171-311 | The run reaches its loop in the machine's streaming state with counters, file length and file position in agreement, having kept exactly the fragments that gates, probe and checksum confirm; it fails exactly when one of the operations on that way does. |
| `DownloadLoop.SaveSidecar` | crates/rdlp-downloader/src/atomic.rs:92-111 | A save replaces the sidecar entirely or not at all. |
| `DownloadLoop.AppendAndSave` | crates/rdlp-downloader/src/fragments.rs:480-542 | One fragment is appended, the checksum, count and length advance with it, fragment 0 sets the anchor, and the sidecar becomes exactly that state when the save succeeds. |
| `DownloadLoop.WriteOne` | crates/rdlp-downloader/src/fragments.rs:468-566 | One turn of the loop is a run of machine steps; it goes on exactly when the item was fetched and written and the token has not fired, and otherwise returns the item's own error. |
| `DownloadLoop.WriteLoop` | crates/rdlp-downloader/src/fragments.rs:468-596 | The loop is a run of the machine that succeeds exactly when every item goes through and the flush holds, is cancelled exactly when the first item to stop it is a cancellation, and leaves every saved fragment counted; success reports the length of the file. |
| `DownloadLoop.Close` | crates/rdlp-downloader/src/fragments.rs:568-596 | Flushing and removing the sidecar end the run; success reports the length of the file. |
| `DownloadLoop.GateThenWrite` | crates/rdlp-downloader/src/fragments.rs:151-596 | The whole call is one run of the machine from the disk it found to the disk it leaves. |
| `DownloadLoop.DownloadPreResolvedFragments` | crates/rdlp-downloader/src/fragments.rs:151-596 | The call refines the machine whatever the surroundings do, the origin having answered the probe of the recorded anchor. It succeeds, fails and is cancelled exactly when it must, and without success leaves every saved fragment counted. Where the origin is identifiable success means the file holds the complete stream, unit by unit in decode order, or the history met a collision. |
| `Retry.FragmentRetryBudget.ForList` | crates/rdlp-downloader/src/fragments/budget.rs:55-62 | The budget is the saturating product of the allowance and a tenth of the list, at least one. |
| `Retry.BudgetIsATenth` | crates/rdlp-downloader/src/fragments/budget.rs:37-62 | The budget averages a tenth of an allowance per fragment on lists of ten or more, and is at least one fragment's allowance on any list. |
| `Retry.RetriedExactly` | crates/rdlp-core/src/retry.rs:124-158 | Retried are 429, statuses from 500 on and transport failures, nothing else. |
| `Retry.FragmentRetryBudget.TryConsume` | crates/rdlp-downloader/src/fragments/budget.rs:69-75 | A token is granted exactly when one is left. |
| `Retry.WithRetry` | crates/rdlp-downloader/src/retry.rs:157-200 | One fetch: at most `max_retries + 1` attempts, retrying exactly transient failures, a token per retry plus one only when the allowance ends in a transient failure, a fatal error free of charge, an uncancelled fetch counting attempts less one, a token that fires ending the request or the sleep it falls in; and the loop is a walk of its task through the shared pool that ends with the same budget, counter, attempts and outcome. |
| `Retry.TokensAreConserved` | crates/rdlp-downloader/src/fragments.rs:670-690 | Under every interleaving of all fetches, tokens left, retries counted and tokens drawn in vain add up to the budget, so retries never exceed it. |
| `Retry.AttemptsAreBounded` | crates/rdlp-downloader/src/fragments.rs:670-690 | Under every interleaving each fetch makes at most `max_retries + 1` attempts, and an uncancelled one counted all but its first. |
| `Retry.FatalErrorsAreFree` | crates/rdlp-downloader/src/retry.rs:157-172 | A fatal error moves neither budget nor counter, and to the end of every schedule the tokens its fetch drew are the retries it took before. |
| `Retry.TallyIsAttemptsLessOne` | crates/rdlp-downloader/src/fragments.rs:186-191 | When every fetch has ended uncancelled the shared counter is all attempts less one per fetch. |
| `SaveTracker.SaveFailureTracker.RecordFailure` | crates/rdlp-downloader/src/atomic.rs:256-265 | The saturating count, the notice and the latch after a failure. |
| `SaveTracker.SaveFailureTracker.RecordSuccess` | crates/rdlp-downloader/src/atomic.rs:267-269 | A success clears the count and keeps the latch. |
| `SaveTracker.NoteSidecarSaves` | crates/rdlp-downloader/src/atomic.rs:239-291 | Over a whole series of saves the notice comes exactly at the save that first completes a row of `threshold` failures. |
| `SaveTracker.TrailingExactly` | crates/rdlp-downloader/src/atomic.rs:239-270 | A row of n failures is n failures at the end of the results. |
| `SaveTracker.AtMostOneNotice` | crates/rdlp-downloader/src/atomic.rs:239-270 | Once a notice was due, none is due again. |
| `JsInt.ToSigned32` | crates/rdlp-crypto/src/js_int.rs:14-16 | The narrowed value is the 32-bit integer congruent to the argument. |
| `Prng.ProductFits` | crates/rdlp-crypto/src/prng.rs:152-154 | A product of a state and a 32-bit multiplier, plus a 32-bit increment, never overflows 64 bits. |
| `Prng.WidenedXorshiftIsXorshift` | crates/rdlp-crypto/src/prng.rs:138-143 | For all shifts below 32 the 64-bit emulation computes the unsigned 32-bit xorshift. |
| `Prng.XorshiftPermutesExactly` | crates/rdlp-crypto/src/prng.rs:104-143 | A xorshift permutes the words if and only if none of its shifts is zero. |
| `Prng.AcceptedShiftsPermuteExactly` | crates/rdlp-crypto/src/prng.rs:104-118 | A triple of bytes is accepted and gives a permutation if and only if all three are 1 to 31. |
| `Prng.XorshiftAvoidsZero` | crates/rdlp-crypto/src/prng.rs:138-143 | With nonzero shifts only zero is mapped to zero. |
| `Prng.Fmix32Permutes` | crates/rdlp-crypto/src/prng.rs:172-178 | The finalizer permutes the words. |
| `Prng.RotateScramblePermutes` | crates/rdlp-crypto/src/prng.rs:189-196 | The rotate scrambler permutes the words for every rotation. |
| `Inverses.Fmix32IsUndone` | crates/rdlp-crypto/src/prng.rs:172-178 | The finalizer and its explicit inverse, step by step in reverse, undo each other. |
| `Inverses.RotateScrambleIsUndone` | crates/rdlp-crypto/src/prng.rs:189-196 | So do the rotate scrambler and its inverse, for every rotation. |
| `Inverses.MxsIsUndone` | crates/rdlp-crypto/src/prng.rs:221-227 | So do the multiply-xorshift mixer and its inverse, for any two multipliers with inverses. |
| `Inverses.XorshiftIsUndone` | crates/rdlp-crypto/src/prng.rs:138-143 | So do a xorshift with nonzero shifts and its inverse. |
| `FullPeriod.LcgClosedForm` | crates/rdlp-crypto/src/prng.rs:152-154 | The n-th state of a congruential sequence in closed form, for all constants. |
| `FullPeriod.LcgFullCycleExactly` | crates/rdlp-crypto/src/prng.rs:152-154 | A congruential step returns to every seed after exactly 2^32 steps if and only if its multiplier is 1 modulo 4 and its increment odd. |
| `FullPeriod.WeylFullCycle` | crates/rdlp-crypto/src/prng.rs:162-164 | So does a Weyl step with an odd increment. |
| `FullPeriod.StatesRepeatExactly` | crates/rdlp-crypto/src/prng.rs:152-164 | On a full cycle two steps agree if and only if they lie a multiple of 2^32 apart. |
| `FullPeriod.EveryWordOnce` | crates/rdlp-crypto/src/prng.rs:244-336 | A full cycle through a permuting mixer yields every word exactly once in any 2^32 consecutive outputs. |
| `FullPeriod.EveryByteEquallyOften` | crates/rdlp-crypto/src/prng.rs:269-281 | Masked to bytes, each value then appears exactly 2^24 times. |
| `FullPeriod.MxsPermutesExactly` | crates/rdlp-crypto/src/prng.rs:221-226 | The multiply-xor-shift mixer permutes the words if and only if both multipliers are odd. |
| `Generator.ByteGenerator.constructor` | crates/rdlp-crypto/src/prng.rs:262-265 | A new generator stands at its seed with nothing drawn. |
| `Generator.ByteGenerator.New` | crates/rdlp-crypto/src/prng.rs:257-266 | A generator exists exactly for the identifiers 1 to 7. |
| `Generator.AdvanceIsReference` | crates/rdlp-crypto/src/prng.rs:284-336 | Every state step on signed, widened integers is the step in unsigned 32-bit arithmetic, constants written out. |
| `Generator.EmitIsReference` | crates/rdlp-crypto/src/prng.rs:172-227 | So is every word drawn, that of algorithm 6 included. |
| `Generator.BytesAreReference` | crates/rdlp-crypto/src/prng.rs:269-336 | So is the whole stream, byte for byte. |
| `Generator.ByteGenerator.NextByte` | crates/rdlp-crypto/src/prng.rs:269-336 | The n-th call returns the n-th byte of the unsigned reference stream of algorithm and seed. |
| `Inverses.DrawIsUndone` | crates/rdlp-crypto/src/prng.rs:284-336 | Every state step of every algorithm is undone by its explicit inverse. |
| `Inverses.SeedFromAnyWord` | crates/rdlp-crypto/src/prng.rs:269-336 | Except for algorithm 6, any one word drawn, wherever it stands, gives the seed back. |
| `Generator.StatesCycleExactly` | crates/rdlp-crypto/src/prng.rs:284-336 | With the constants in use the states of algorithms 1, 3, 4, 6 and 7 have period exactly 2^32 from every seed, and those of algorithm 2 do not. |
| `Generator.AdvancePermutes` | crates/rdlp-crypto/src/prng.rs:284-336 | No algorithm's state step maps two states to one. |
| `Generator.SeedComesBack` | crates/rdlp-crypto/src/prng.rs:284-336 | Every algorithm returns to every seed within 2^32 steps: its states are purely periodic. |
| `Generator.XorshiftStaysNonzero` | crates/rdlp-crypto/src/prng.rs:297-300 | Algorithm 2 reaches zero at some step if and only if it was seeded with zero. |
| `Generator.EmitPermutesExactly` | crates/rdlp-crypto/src/prng.rs:284-336 | Every algorithm's output function permutes the words except that of algorithm 6. |
| `Generator.EveryWordDrawnOnce` | crates/rdlp-crypto/src/prng.rs:284-336 | Algorithms 1, 3, 4 and 7 draw every word exactly once in any 2^32 consecutive draws. |
| `Generator.BytesEquallyOften` | crates/rdlp-crypto/src/prng.rs:269-336 | Their bytes are exactly uniform over any 2^32 consecutive draws. |
| `Shuffle.SwapAll` | crates/rdlp-crypto/src/shuffle.rs:14-27 | The in-place loop asks for the bounds `len` down to 2 and performs the shuffle of the answers, or stops at the first answer outside its bound. |
| `Shuffle.SeededShuffle` | crates/rdlp-crypto/src/shuffle.rs:12-29 | The result is a fresh, shuffled copy if and only if every draw is in range; exactly `len - 1` draws are then made. |
| `Shuffle.ShuffleIsInvertible` | crates/rdlp-crypto/src/shuffle.rs:12-29 | The result is a rearrangement, and replaying the swaps in reverse is a two-sided inverse. |
| `Shuffle.FirstDrawComesLast` | crates/rdlp-crypto/src/shuffle.rs:14-27 | The first draw picks the last item of the result; the rest is the shuffle of the items left, the last one having taken the picked one's place. |
| `Shuffle.ZeroDrawsRotate` | crates/rdlp-crypto/src/shuffle.rs:61-64 | Drawing zero every time moves the first item to the end. |
| `Shuffle.EveryArrangementOnce` | crates/rdlp-crypto/src/shuffle.rs:12-29 | Every arrangement is reached by some in-range draws, and for distinct items by exactly one sequence of them. |
| `Shuffle.DrawsShow` | crates/rdlp-crypto/src/shuffle.rs:14-27 | On distinct items different draws never give the same result. |
| `Transposition.SortedColumns` | crates/rdlp-crypto/src/transposition.rs:6-10 | Every column once, by code point, equal characters from left to right. |
| `Transposition.ColumnOrderIsUnique` | crates/rdlp-crypto/src/transposition.rs:6-10 | That order is unique, so any stable sort computes it. |
| `Transposition.FillRows` | crates/rdlp-crypto/src/transposition.rs:65-74 | The row-by-row fill leaves position `r * n + c` of the text in cell (r, c) and spaces behind the end. |
| `Transposition.FillColumns` | crates/rdlp-crypto/src/transposition.rs:29-39 | The column-by-column fill leaves position `k * rows + r` of the text in row r of the k-th sorted column and spaces behind the end. |
| `Transposition.ColumnarTranspose` | crates/rdlp-crypto/src/transposition.rs:55-84 | The nested loops over the grid compute the transposition, the empty key being the identity. |
| `Transposition.ColumnarUntranspose` | crates/rdlp-crypto/src/transposition.rs:18-48 | The nested loops over the grid compute its counterpart. |
| `Transposition.TransposedAt` | crates/rdlp-crypto/src/transposition.rs:76-83 | Where each character of the text, padding included, ends up. |
| `Transposition.UntransposedAt` | crates/rdlp-crypto/src/transposition.rs:29-47 | Where each character is put back. |
| `Transposition.UntransposeUndoes` | crates/rdlp-crypto/src/transposition.rs:12-84 | For every text and every non-empty key, untransposing the transposed text gives the text followed by spaces up to a multiple of the key length. |
| `Transposition.TransposeUndoes` | crates/rdlp-crypto/src/transposition.rs:12-84 | So does transposing the untransposed text. |
| `Transposition.RoundTripsExactly` | crates/rdlp-crypto/src/transposition.rs:12-84 | Either round trip is exact if and only if the key is empty or its length divides that of the text. |
| `Adaptive.AdaptiveController.constructor` | crates/rdlp-downloader/src/adaptive.rs:177-189 | The controller starts in slow start at the level clamped to 2 to 7, with no call made. |
| `Adaptive.AdaptiveController.NextChunk` | crates/rdlp-downloader/src/adaptive.rs:292-308 | Hands out the next range, of 64 KiB doubled once per level or what is left, and None exactly when nothing is; it is one more of the calls the state follows from. |
| `Adaptive.AdaptiveController.ReportChunkComplete` | crates/rdlp-downloader/src/adaptive.rs:315-322 | A report is one more call of the sequence and leaves the assignment alone. |
| `Adaptive.AdaptiveController.ReportSegmentComplete` | crates/rdlp-downloader/src/adaptive.rs:331-354 | So is a segment report, which also keeps the playing time per download time of positive durations. |
| `Adaptive.AdaptiveController.RecordSample` | crates/rdlp-downloader/src/adaptive.rs:359-373 | A sample that took time enters a history of eight, which when full gives up its oldest; every full interval adjusts. |
| `Adaptive.AdaptiveController.Adjust` | crates/rdlp-downloader/src/adaptive.rs:390-404 | An adjustment dispatches on the phase with the average before and after. |
| `AdaptiveLaws.HistoryIsTheLastEight` | crates/rdlp-downloader/src/adaptive.rs:359-366 | After every sequence of calls the history is that of the last eight rates reported. |
| `Adaptive.LevelSizes` | crates/rdlp-downloader/src/adaptive.rs:40-49 | Level k is 64 KiB times 2^k. |
| `AdaptiveLaws.EveryRunRests` | crates/rdlp-downloader/src/adaptive.rs:359-516 | After every sequence of calls: level within 2 to 7 and fixed for playlists, a previous average in the steady phase, fewer than three pending plateaus, and `floor(reports / max(1, interval))` adjustments. |
| `AdaptiveLaws.SteadyStays` | crates/rdlp-downloader/src/adaptive.rs:407-516 | Whatever calls follow, the steady phase is never left. |
| `AdaptiveLaws.EwmaStaysWithin` | crates/rdlp-downloader/src/adaptive.rs:378-385 | The average lies between the least and the greatest sample of the history. |
| `AdaptiveLaws.EwmaForgets` | crates/rdlp-downloader/src/adaptive.rs:378-385 | While samples stay equal the average closes three tenths of its distance to them each time. |
| `AdaptiveLaws.EwmaIsWeighted` | crates/rdlp-downloader/src/adaptive.rs:378-385 | The average in closed form: three tenths of each sample but the oldest, shrunk by seven tenths for every newer one. |
| `AdaptiveLaws.SlowStartExactly` | crates/rdlp-downloader/src/adaptive.rs:407-464 | After every sequence of calls: the run is in slow start if and only if no average has fallen and none has repeated three times in a row, and until then the level is two for the first average and two for every rise above its start, at most 7. |
| `AdaptiveLaws.FirstFallSheds` | crates/rdlp-downloader/src/adaptive.rs:440-451 | The first fall of the averages sheds two levels, no lower than 2, and ends slow start. |
| `AdaptiveLaws.SteadyThresholds` | crates/rdlp-downloader/src/adaptive.rs:467-516 | In the steady phase, in terms of the rates themselves: two levels down below 70 % of the previous average, none from 70 % to 90 %, one up from 90 %, a zero baseline included. |
| `AdaptiveLaws.SteadyDecides` | crates/rdlp-downloader/src/adaptive.rs:467-516 | In every run a steady decision moves the level by -2, 0 or +1 as the new average stands below 70 %, below 90 % or at 90 % or more of the one before, within 2 to 7. |
| `AdaptiveLaws.ConstantThroughputLevel` | crates/rdlp-downloader/src/adaptive.rs:407-516 | Under constant throughput, at whatever rate, the level is a function of the number of reports alone: `min(7, min(7, L + 2) + n - 4)` after n >= 5 adjustments. |
| `AdaptiveLaws.ChunksTileTheFile` | crates/rdlp-downloader/src/adaptive.rs:292-308 | However calls interleave, the ranges are non-empty and contiguous, None is answered exactly when they reach the end, and they number between `ceil(total / 8 MiB)` and `ceil(total / 256 KiB)`. |
| `AdaptiveLaws.EveryByteInOneRange` | crates/rdlp-downloader/src/adaptive.rs:292-308 | Every byte handed out lies in exactly one range. |
| `SpeedMeter.SpeedMeter.Update` | crates/rdlp-downloader/src/progress.rs:57-97 | An observation less than 50 ms after the last accepted one changes nothing; any other becomes the next accepted sample, and window and readout are the functions of all accepted samples. |
| `SpeedMeter.SpeedMeter.Trim` | crates/rdlp-downloader/src/progress.rs:67-74 | The trimming loop drops exactly the leading samples that are too old. |
| `SpeedMeter.WindowIsBounded` | crates/rdlp-downloader/src/progress.rs:57-79 | The window holds at most 61 samples, 50 ms apart and within 3 s, and leaves out only older ones, whatever the clock does. |
| `SpeedMeter.ReadoutExactly` | crates/rdlp-downloader/src/progress.rs:76-106 | There is a readout if and only if two samples are recent, that is, the last two are at most 3 s apart. |
| `SpeedMeter.RawRateSpansTheWindow` | crates/rdlp-downloader/src/progress.rs:76-93 | The raw rate times the window's span is the bytes gained from its first sample to its last. |
| `SpeedMeter.BurstsDoNotShow` | crates/rdlp-downloader/src/progress.rs:76-93 | Samples inside the window do not move it. |
| `SpeedMeter.FirstReadoutIsRaw` | crates/rdlp-downloader/src/progress.rs:94-97 | The first readout, and the first after a pause, is the raw rate. |
| `SpeedMeter.ReadoutForgets` | crates/rdlp-downloader/src/progress.rs:94-97 | At a constant raw rate every sample closes three tenths of the readout's distance to it. |
| `SpeedMeter.ReadoutStaysWithin` | crates/rdlp-downloader/src/progress.rs:76-97 | The readout stays within any bounds that hold between neighbouring samples, falling totals included as long as the upper bound admits zero, and equals an exact rate, whatever bursts occur between them. |
| `SpeedMeter.ReadoutNeverExceeds` | crates/rdlp-downloader/src/progress.rs:76-97 | If no pair of neighbouring samples exceeds a rate, the readout never does. |
| `Chunking.NextIsLeast` | crates/rdlp-downloader/src/chunking.rs:88-89 | The rounded size is a power of two and no smaller one reaches the target. |
| `Chunking.AutoIsLeastPowerOfTwo` | crates/rdlp-downloader/src/chunking.rs:78-90 | The automatic size is the least power of two of at least 64 KiB that reaches a 1024th of the file or 8 MiB. |
| `Chunking.AutoIsMonotone` | crates/rdlp-downloader/src/chunking.rs:78-90 | A larger file never gets smaller chunks. |
| `Chunking.PanicsExactly` | crates/rdlp-downloader/src/chunking.rs:101-121 | The calculation succeeds if and only if a fixed size is a power of two and a legacy count is between one and the file size. |
| `Chunking.ChunksCoverTheFile` | crates/rdlp-downloader/src/chunking.rs:101-121 | For every strategy `(n - 1) * c < size <= n * c`, an empty file has no chunks, and c is the automatic size, the fixed one, or the file divided by the count asked for. |
| `Chunking.AutoCount` | crates/rdlp-downloader/src/chunking.rs:78-121 | From 64 MiB to 8 GiB the automatic size gives 513 to 1025 chunks. |
| `Chunking.LegacyCountExactly` | crates/rdlp-downloader/src/chunking.rs:101-121 | The legacy strategy yields at least the count asked for, and exactly it if and only if that count divides the file size. |
| `Registry.ResolvesExactly` | crates/rdlp-extractor/src/lib.rs:273-307 | The filter and maximum pipeline finds exactly the winner of the policy: the best plugin that may compete, highest priority first and then earliest, or else the first built-in; and it fails exactly when no registration matches the name. |
| `Registry.NamesMatchExactly` | crates/rdlp-extractor/src/lib.rs:273-316 | Names match if and only if they differ at most in the case of the letters A to Z. |
| `Registry.PluginFoundIsBest` | crates/rdlp-extractor/src/lib.rs:273-307 | A plugin found has the highest priority of all that may answer for the name, and came first among those with it. |
| `Registry.BuiltinFoundIsFirst` | crates/rdlp-extractor/src/lib.rs:273-307 | A built-in found is the first of its name, and no plugin may answer for it. |
| `Registry.BystanderChangesNothing` | crates/rdlp-extractor/src/lib.rs:273-307 | Inserting, at any position, a registration with another name, or a plugin that claims no override of a built-in's name, leaves the winner the object it was. |
| `Registry.ExtractorRegistry.RegisterSearch` | crates/rdlp-extractor/src/lib.rs:207-209 | Registration inserts at the end. |
| `Registry.ExtractorRegistry.DistinctSearchExtractors` | crates/rdlp-extractor/src/lib.rs:312-322 | The loop lists exactly the first registration of each name, in order. |
| `Registry.ListingIsFaithful` | crates/rdlp-extractor/src/lib.rs:312-336 | The listed names differ pairwise, every registered name is listed where it first occurs, and all of them resolve. |

## Left out

- Generator.StatesCycleExactly: says nothing about the length of algorithm 5's cycles, which depends on the constants with no algebraic reason; that its states are purely periodic is proved.
- Generator.EmitPermutesExactly: of algorithm 6 only that its output function is no permutation; how its outputs are distributed is not modelled.
- Revalidate.VerdictIsExact: requires the answer to be complete; what weaker truthful answers lead to is stated by the two lemmas beside it.
- ResumeSafety.CompletedOutputIsTheStream: allows for a history in which two different prefixes of one length with equal checksums were compared, which no proof can exclude for a 32-bit checksum; corruption confined to four consecutive bytes is excluded outright.
- DownloadLoop.WriteLoop: sees the ordered stream of concurrent fetches through what it yields in list order; every order in which the fetches behind it finish is covered by the state machine.
- DownloadLoop.Storage.WriteAll: is modelled without the runtime's write buffer; a write or flush that fails, noticed or not, may leave any bytes in the file.
- Retry.WithRetry: takes its attempts and the cancellation as given outcomes; delays, jitter and the order of the backoff library's own bookkeeping are reduced to "gate, then allowance"; its walk is of one task, and other tasks' moves between its own are covered by the pool's invariants.
- Transposition.SortedColumns: stands for the library's stable sort by its result; the sorting algorithm itself is not modelled.
- Shuffle.SeededShuffle: lengths are unbounded, so the fallbacks for a length or draw beyond the platform's word, which the source notes as unreachable, have no counterpart.
- Adaptive.AdaptiveController.ReportChunkComplete: rates are reals, so rounding of the averages and of the ratio test is not captured; a plateau means equal averages.
- SpeedMeter.SpeedMeter.Update: instants are integer nanoseconds and rates reals; rounding of the gate and of the readout is not captured, and the guards that the sample spacing makes unreachable (`elapsed <= 0`, an empty window) have no counterpart.
- Registry.ResolvesExactly: compares names by characters with ASCII folding; `list_search_sites`, which lower-cases by Unicode rules, is not modelled.
- Parsing of entity tags and dates: a response's fields enter classified, a date with the second it names.
- HTTP transport, TLS, redirects, same-origin header filtering and response decoding.
- URL parsing and resolution: a function parameter, with a failure of resolution among the startup faults.
- Serialization of the sidecar, its size bound, its version constant and its time stamp; a sidecar that cannot be read counts as absent.
- Temporary files and rename behind the atomic save: one all-or-nothing step.
- Progress callbacks, log messages and their wording, including the clause that describes a level change.
- `find_extractor` for URLs, plugin trust and manifests: plain filtering or input and output.
- The remaining cipher helpers (`radix`, `hash`, `homoglyph`, `signal`): correct but easy members.
- DASH, the chunked HTTP downloader around the controller, the desktop interface and configuration.
