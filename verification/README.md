# Verification of rbr-tpw's growing deployments

`rbr-tpw` offloads RBR instruments. A deployment is kept as one file that only grows: each offload reads the bytes the
logger has added, appends them to the image on disk, writes a record, and publishes the deployment again from the whole
image. Everything an earlier offload knew has to be recovered from the final image, logger clocks restart in the middle
of a record, a link or a machine can fail at any point, and the data cannot be read a second time once a logger is
erased. This project models that machinery in Dafny and proves what it promises, for all images, all offload histories
and all points of failure.

`dafny verify dfyconfig.toml` checks the whole project.

## What is modelled

* **Time resolution** (`ClockSegments`, `TimeResolution`, `ResolutionLaws`, `ClockSets`, `AppendStability`,
  `Provenance`). Where a logger's clock restarted; which offload can time the samples on a restarted clock; the loop
  over arrays that re-times or drops them. The published arrays are characterised without the loop, that
  characterisation has exactly one answer, and the rest is proved of it: what is conserved, what stays monotone, what
  the provenance table says, and what publishing again later leaves as it was: always the samples before the clock
  segment of the last offload then, and all of them once the logger has restarted and every later offload saw that.
* **Memory images** (`SoloDecoder`, `SoloWalk`, `SoloLaws`, `SoloRoundTrip`, `DecodedTimes` for the RBRsolo;
  `SectionedDecoder`, `SectionedWalk`, `SectionedLaws`, `SectionedRoundTrip` for duets and concertos; `SampleTiming` and
  `Numbers` for both; `OffloadViews` and `Republication` on top). The walk over candidate words equals a word-by-word
  parser; numbers written byte by byte, header, readings and events, are read back as they were; sample times are those
  of the events before them; bytes are conserved; decoding a prefix of an image gives a prefix of its decode. From these
  it follows which times are published, and append stability is proved of images of both kinds and their offload
  records, not only of arrays.
* **Downloads and storage** (`Download`, `IncrementalDownload`, `Store`, `StoreLaws`, `Offloading`, `OffloadRuns`). The
  block loop that resumes from a part file; the incremental read that compares the ends of what is held; saving and
  recording. `Station` is one logger's directory, its methods may stop anywhere, and every stop leaves a disk the next
  offload can use. A link, a part file or a station that is `steady` meets no failure, and then the contracts say that
  the work is done. `OffloadRuns` follows one logger through any run of logging on, being erased and enabled again, and
  offloads stopped anywhere: every record holds the memory of its time, and no deployment mixes two enablings.
* **Concurrency** (`Monitor`). Block transfers and timing-critical steps of any number of threads, as a transition
  system; a block under the condition variable's lock is one step, since only waiting gives the lock up.
* **Smaller parts** (`Evaluate`, `Crc`, `ClockSkew`, `HostClock`, `EventPlacement`).
  Memoised evaluation of channels that refer to one another; the two CRC-16 forms; the error bound of the measured clock
  skew; events among samples.

The specification of a loop or a class is a function of its inputs or of the old state, and the laws are lemmas about
that function; the methods, which keep the source's loops, arrays and fields, are proved equal to it.

Bytes are integers below 256, times are unbounded integers of milliseconds, and seconds with fractions are reals. The
event checksum is a parameter of the decoders (`Crc` models the concrete one), SHA-256 is equality of bytes, replacing
a file is one step, and an append may leave any prefix. What the serial link returns is the logger's bytes, a failure,
or fewer bytes than asked for. Offloads of one logger start at strictly increasing times.

## Where the code is narrower than its comments

* No run of samples is meant to go on past a clock set between two offloads (`src/rbr_tpw/rawbin.py:497-502`). What
  the earlier offload saw is such a boundary for a later one exactly when that later one saw a sample past the
  boundary or a restart at or past it (`ClockSets.ClockSetEndsRunsExactly`), and then no sample from before is timed by
  it (`ClockSets.ClockSetProtects`). Otherwise the skew of the newly set clock can time them:
  `ClockSets.ClockSetMissed` gives the views for which it does.
* A long event record whose length byte is 2 passes the size test and is then read past its end
  (`src/rbr_tpw/equations.py:283-304`). The model returns the error `ShortLongRecord`, and
  `SectionedRoundTrip.ShortLongRecordFails` gives such an image; the laws hold of every image that decodes.
* A marker word cut off from its record at the very end of an RBRsolo image is dropped and counted nowhere
  (`src/rbr_tpw/rawbin.py:238-240`). `SoloRoundTrip.BytesConserved` says exactly when bytes go uncounted, and
  `SoloRoundTrip.LoneMarkerUncounted` gives such an image.
* `event_indices` agrees with a search of the whole record, where the clock never steps back, only for events on the
  same side of 2001 as the first sample (`src/rbr_tpw/rawbin.py:361-366`); `EventPlacement.WholeRecordExactly` is the
  exact condition.
* An incremental read vouches for the two ends of the held image. Beyond two blocks the middle is taken on trust, and
  `IncrementalDownload.IncrementalEqualsFull` says that this is exactly what it depends on. In the same way a part file
  is trusted once its header matches, and `Download.CompleteExactly` says what that depends on.
* So records are proved true of every run in which the memories of two enablings can be told apart
  (`OffloadRuns.TellApart`): their headers differ, and the later one does not repeat all the data of the earlier one.
  `OffloadRuns.RunsExist` gives such a run.

## Model

| member | source | states |
|---|---|---|
| ClockSegments.Starts | src/rbr_tpw/rawbin.py:405-416 | The method's starts are ordered and hold, at each index, the first restart event there, else a backward step; a restart after the last sample counts. |
| ClockSegments.StartsUnique | src/rbr_tpw/rawbin.py:405-416 | The specification of the starts has at most one answer. |
| ClockSegments.NoBackwardStepInside | src/rbr_tpw/rawbin.py:334-336 | Starts are complete: between consecutive ones the clock never steps back. |
| TimeResolution.FindOffload | src/rbr_tpw/rawbin.py:519-544 | Trying the candidates from the latest back finds the greatest admissible offload, or none. |
| TimeResolution.ResolveSegments | src/rbr_tpw/rawbin.py:504-552 | The loop over segments that updates the three arrays in place computes the specified state. |
| TimeResolution.CheckIncreasing | src/rbr_tpw/rawbin.py:556-562 | Times are published only if strictly increasing; otherwise the first bad step is reported. |
| ResolutionLaws.ResolveIsOutcome | src/rbr_tpw/rawbin.py:504-552 | The result meets a declaration without a loop: each segment's fate is that of its latest admissible offload, judged against the published arrays. |
| ResolutionLaws.OutcomeUnique | src/rbr_tpw/rawbin.py:504-552 | That declaration holds of the published arrays and of no others. |
| ResolutionLaws.SamplesConserved | src/rbr_tpw/rawbin.py:545-555 | Samples kept plus samples counted as dropped are all samples. |
| ResolutionLaws.UnflaggedUntouched | src/rbr_tpw/rawbin.py:510-516 | A sample on a clock that was never reset is published as recorded. |
| ResolutionLaws.OneFatePerSegment | src/rbr_tpw/rawbin.py:521-547 | All reset-clock samples of a segment are shifted by the greatest admissible offload's skew, or all dropped because none is admissible. |
| ResolutionLaws.MovedExactly | src/rbr_tpw/rawbin.py:527 | A skew moves a time by its nearest number of milliseconds, the even one halfway between two, and there is one such time. |
| ResolutionLaws.CorrectedToNearest | src/rbr_tpw/rawbin.py:519-541 | Every kept reset-clock sample is moved so by the skew of the offload that times its segment. |
| ResolutionLaws.CorrectionsKeepTimeMonotone | src/rbr_tpw/rawbin.py:508-562 | With flagged samples last, kept times increase if and only if the recorded ones did, whatever the views and skews: the corrections never cause the refusal. |
| ResolutionLaws.StartsLeaveNoBackwardStep | src/rbr_tpw/rawbin.py:405-416 | Completeness of the starts carries over to the segments in force. |
| ResolutionLaws.CorrectionsBounded | src/rbr_tpw/rawbin.py:530-534 | Every corrected sample lands in or after 2001, and, if its offload had seen it, no later than that offload plus 5 s. |
| ResolutionLaws.ChecksCoverRun | src/rbr_tpw/rawbin.py:524-534 | Although the checks of an offload look at two samples only, they pass if and only if its skew puts every reset-clock sample of the segment after the last kept one, not before 2001, and, where it had seen it, no later than itself plus 5 s. |
| ClockSets.ClockSetEndsRunsExactly | src/rbr_tpw/rawbin.py:497-506 | An offload's clock segment starts at or past a clock set if and only if it saw a sample past the boundary or a restart at or past it. |
| ClockSets.ClockSetProtects | src/rbr_tpw/rawbin.py:497-544 | An offload that times a sample from before a clock set saw neither. |
| ClockSets.ClockSetMissed | src/rbr_tpw/rawbin.py:497-544 | Views for which a sample is timed with the skew of the clock set after it, although the offload before could time it. |
| ClockSets.ClockSetEndsRunsOfImages | src/rbr_tpw/ncwrite.py:137-160 | The same condition for the views and starts of every RBRsolo image and its records. |
| AppendStability.OldSamplesUnchanged | src/rbr_tpw/rawbin.py:504-552 | A record extended past its end, with old views settled, resolves to the same times, flags and keep bits below the old end. |
| AppendStability.PublishedPastIsStable | src/rbr_tpw/rawbin.py:497-547 | The same from the raw starts and views: new starts at or past the old end unseen by old views, and new views that saw the first of them, change nothing published before. |
| AppendStability.SettledPastIsStable | src/rbr_tpw/rawbin.py:497-547 | Whatever later offloads find, with or without a restart, no sample before the last old offload's clock segment changes its published time, flag or keep bit. |
| Provenance.CurrentMonotone | src/rbr_tpw/rawbin.py:505-506 | An offload that saw no less is on no earlier a clock segment. |
| Provenance.ProvenanceTable | src/rbr_tpw/rawbin.py:534-538 | Correction rows are ordered, disjoint and name later and later offloads; they account for exactly the samples marked corrected, and each of those was moved by the row's skew to the nearest millisecond. |
| Provenance.KeptIndex | src/rbr_tpw/ncwrite.py:389-392 | The running count gives, for each index clamped to the record, the number of samples kept before it. |
| Provenance.KeptPosition | src/rbr_tpw/ncwrite.py:389-392 | A kept sample is found on the output axis at its own kept index. |
| Provenance.RangeOnAxis | src/rbr_tpw/ncwrite.py:383-386 | A correction's range on the output axis covers exactly the kept samples of its range. |
| SampleTiming.AssignTimes | src/rbr_tpw/rawbin.py:266-282 | Filling the arrays anchor by anchor gives a set with an anchor that anchor's time, every other set one period more than the set before it, the first of all the later of start and enabling, and each set the number and the flags of its last anchor. |
| SampleTiming.DatedUnique | src/rbr_tpw/rawbin.py:266-282 | No other times, flags and anchor numbers do. |
| SampleTiming.AnchorRange | src/rbr_tpw/rawbin.py:276-280 | An anchor dates exactly the sets from its own index to the next anchor's: every set once. |
| SoloWalk.Decode | src/rbr_tpw/rawbin.py:204-286 | The decoder with its candidate walk equals the word-by-word reference decoder on every image, errors included; a set that a dating event precedes has that event's time, and the others follow period by period. |
| SoloWalk.Walk | src/rbr_tpw/rawbin.py:228-255 | The walk over marked words finds the readings, events and corrupt records of the left-to-right parse. |
| SoloWalk.ScanTiles | src/rbr_tpw/rawbin.py:228-255 | Every word of the body belongs to exactly one token. |
| SoloWalk.EventsOrdered | src/rbr_tpw/rawbin.py:252-254 | Event indices never go back and never pass the last complete sample set. |
| SoloLaws.PrefixStability | src/rbr_tpw/rawbin.py:223-286 | Decoding an image cut anywhere past its header gives a prefix of the decode, with the set and event counts the full decode gives by end byte. |
| Numbers.ReadsBack | src/rbr_tpw/rawbin.py:225-226 | Four bytes are read as the number they were written from, the lowest byte first. |
| SoloRoundTrip.HeaderChecked | src/rbr_tpw/rawbin.py:184-221 | A header's length, times, period and features are read as written at their places, and the image is refused in exactly the cases the checks name, by feature bits too. |
| SoloRoundTrip.EncodedDecodesBack | src/rbr_tpw/rawbin.py:204-286 | Any header and any stream of readings, events and garbled records, written as numbers, decode back to those numbers in order, with the times the events give. |
| SoloRoundTrip.GarbledRecordVanishes | src/rbr_tpw/rawbin.py:242-250 | A record with a bad checksum removes its own two words: readings, error codes, times, events and trailing bytes are as without it, but for the place in the image of the events after it. |
| SoloRoundTrip.BytesConserved | src/rbr_tpw/rawbin.py:236-259 | Header, sample sets, records and trailing bytes make up the image if and only if it does not end in a lone marker word. |
| SoloRoundTrip.LoneMarkerUncounted | src/rbr_tpw/rawbin.py:238-240 | An image on which the uncounted word occurs. |
| OffloadViews.Seen | src/rbr_tpw/ncwrite.py:151-160 | Binary search on the end bytes, and the count of events, give what each offload's image held. |
| OffloadViews.EndBytesSorted | src/rbr_tpw/rawbin.py:304-307 | The end bytes of a decode increase, so the binary search is sound. |
| OffloadViews.SeenIsOwnDecode | src/rbr_tpw/ncwrite.py:151-160 | Those counts are the ones the offload's own image would have decoded to. |
| OffloadViews.MakeViews | src/rbr_tpw/ncwrite.py:111-148 | One view per record, its skew against UTC; the clock was set if and only if two skews on the same reference lie further apart than drift and uncertainties allow and no event since the offload before, the first included, reset the clock. |
| OffloadViews.GrowingSizesGiveGrowingViews | src/rbr_tpw/ncwrite.py:137-160 | Non-decreasing image sizes give views that have seen no fewer samples and events. |
| Republication.StartsGrow | src/rbr_tpw/rawbin.py:469-472 | The clock-segment starts of an earlier image are the first of the later one's; the others lie at or past its end and are new. |
| Republication.SegmentStartsExactly | src/rbr_tpw/rawbin.py:405-416 | A clock segment starts at the first clock-reset event before a sample set, or where there is none at a backward step of the decoded times, and nowhere else. |
| Republication.PublishedTimes | src/rbr_tpw/ncwrite.py:413-421 | From a decode and its records: a sample set on a set clock is published as decoded; any other that is kept was moved by the skew of one of the offloads and lies in or after 2001. |
| Republication.DecodesGrow | src/rbr_tpw/ncwrite.py:408-421 | The decode of an earlier offload's image is the beginning of the final one's, and the events past it date samples past it. |
| Republication.RepublishingKeepsThePast | src/rbr_tpw/ncwrite.py:408-421 | From images and records of an RBRsolo: every sample set published before is published with the same time, flag and keep bit if it lies before the last old offload's clock segment, or if every later offload saw a restart. |
| Republication.SectionedKeepsThePast | src/rbr_tpw/ncwrite.py:408-421 | The same of a duet's or concerto's image, where the earlier one ended between event records. |
| SectionedLaws.Decode | src/rbr_tpw/equations.py:254-333 | The sectioned decoder equals its reference parser on every image, the failing long record included; its times follow from its anchors set by set. |
| SectionedWalk.ParseCovers | src/rbr_tpw/equations.py:275-307 | Accepted records and single words follow one another and cover the body once. |
| SectionedWalk.ValuesAreOutsideRecords | src/rbr_tpw/equations.py:297-309 | A word is a reading if and only if no accepted record holds it. |
| SectionedLaws.BytesConserved | src/rbr_tpw/equations.py:309-313 | Header, sample sets, event records and trailing bytes make up the image, always. |
| SectionedLaws.PrefixStability | src/rbr_tpw/equations.py:268-333 | A cut that splits no accepted event gives the prefix decode its end bytes predict, and events past it date sets past it. |
| SectionedLaws.CleanCutExactly | src/rbr_tpw/equations.py:275-309 | The readings of a cut image are a prefix of the full readings if and only if the cut splits no accepted event. |
| SectionedRoundTrip.ParsesBackExactly | src/rbr_tpw/equations.py:275-307 | Readings and records of all three lengths are parsed back item by item if and only if no reading happens to form an event record. |
| SectionedRoundTrip.EncodedDecodesBack | src/rbr_tpw/equations.py:268-333 | Such a stream, written as numbers, decodes to its readings, events, the times its anchors with milliseconds and flags give, and a count of readings that looked like events. |
| SectionedRoundTrip.HeaderChecked | src/rbr_tpw/equations.py:261-267 | An image is refused for exactly the channel count, features and periods the checks name. |
| SectionedRoundTrip.ShortLongRecordFails | src/rbr_tpw/equations.py:283-304 | A long record of two words with a good checksum, which is accepted and cannot be read. |
| Download.PartFile.Append | src/rbr_tpw/solo.py:240-242 | An append adds the block, or any prefix of it if interrupted. |
| Download.ReadMemory | src/rbr_tpw/solo.py:200-249 | A download ends, leaves the part file at every exit as its usable base followed by memory, and returns that base completed to the total; it does so unless the link or the machine fails or the part is too long. |
| Download.BaseExactly | src/rbr_tpw/solo.py:210-225 | A part file is resumed whole if it is of a segment or starts with the logger's header, and otherwise not used at all. |
| Download.CompleteExactly | src/rbr_tpw/solo.py:246-249 | A completed download is the memory if and only if its part file was sound. |
| Download.AttemptKeepsSound | src/rbr_tpw/solo.py:210-232 | An attempt, however it ends, leaves a sound part file sound, also for a memory that has grown since. |
| Download.ResumesSoundly | src/rbr_tpw/solo.py:200-249 | After any number of interrupted attempts on a growing logger the part file is still sound. |
| IncrementalDownload.FirstDifference | src/rbr_tpw/drivers.py:385-387 | The search for the first differing byte always finds one, and it is the first. |
| IncrementalDownload.VerifyWhole | src/rbr_tpw/drivers.py:375-392 | A whole read either extends the held image, every byte past the header compared, or is refused for a reason that is true of it. |
| IncrementalDownload.CheckEnds | src/rbr_tpw/drivers.py:395-408 | Reading back the first and last block accepts the held image if and only if both ends agree past the header; a refusal names a byte that differs. |
| IncrementalDownload.DownloadPlain | src/rbr_tpw/drivers.py:351-420 | Every outcome of a download: a new image, a verified one, or the held one extended by what follows it; a changed header only after a whole read, which is entered once; no false mismatch. |
| IncrementalDownload.HeaderCompared | src/rbr_tpw/drivers.py:366-373 | The changed header bytes are exactly those in which the logger's header differs from the one reported last, and the logger's is kept if and only if it is not how the held image begins. |
| IncrementalDownload.DownloadSectioned | src/rbr_tpw/drivers.py:233-262 | A sectioned image is accepted if it has the same header and starts with every byte held; otherwise the first break is named. |
| IncrementalDownload.ContinuesExactly | src/rbr_tpw/drivers.py:329-347 | An image that grew is taken for the same deployment if and only if its parsed header is as long as before; one that cannot be parsed is all header. |
| IncrementalDownload.IncrementalEqualsFull | src/rbr_tpw/drivers.py:393-420 | An incremental read is the memory past the header with nothing assumed up to two blocks, and beyond that if and only if the unread middle is unchanged. |
| IncrementalDownload.AppendOnlyGivesMemory | src/rbr_tpw/drivers.py:351-420 | On a logger that only appended, the result is its memory, incrementally or not. |
| IncrementalDownload.AcceptedExactly | src/rbr_tpw/drivers.py:375-392 | A whole read is accepted if and only if the memory holds every byte past the header, and a bare header only if unchanged. |
| Offloading.Station.FindDeployment | src/rbr_tpw/cli.py:318-366 | The search returns the deployment offloaded last with its records in order, cut back to the latest record, if and only if the file starts with what that record describes. |
| Offloading.Station.StoreDataset | src/rbr_tpw/cli.py:287-298 | A new file is there whole or not at all; a held file is only appended to, by any prefix if interrupted. |
| Offloading.Station.Fetch | src/rbr_tpw/cli.py:639-654 | A mismatch, and nothing else, falls back to a new deployment, using a full read already made; only the part files an offload uses change, and if those are sound, what was read is the memory's. |
| Offloading.Station.Offload | src/rbr_tpw/cli.py:634-734 | An offload stopped anywhere leaves one of four kinds of disk, keeps the invariant of the store, and removes part files only after recording; if the part files it uses are sound, its record is of the memory, and without a failure it is recorded and the part files are gone. |
| Offloading.RefusedExactly | src/rbr_tpw/drivers.py:369-408 | There is a true reason to start a new deployment if and only if the memory does not hold the one on disk. |
| Offloading.NothingIsLost | src/rbr_tpw/cli.py:664-734 | A recorded offload holds every byte of the memory, header included, if the saved bytes past the header are still there. |
| Offloading.DeploymentIsRecognised | src/rbr_tpw/cli.py:639-664 | A memory that holds the deployment on disk, its header changed or not, is recorded as an extension of it, never as a new one. |
| OffloadRuns.OffloadsCanComplete | src/rbr_tpw/solo.py:210-232 | On every run of logging, erasing, enabling and interrupted offloads, the part files the next offload would use are sound, so that it can complete, and the disk is in order. |
| OffloadRuns.EveryRecordIsTrue | src/rbr_tpw/cli.py:634-734 | On every such run, every record on disk gives the logger's memory, byte for byte, as it was when the record was made. |
| OffloadRuns.OneEnablingPerDeployment | src/rbr_tpw/drivers.py:351-420 | Two records of one deployment are of one enabling of the logger. |
| OffloadRuns.OneDeploymentPerEnabling | src/rbr_tpw/drivers.py:351-420 | From an RBRsolo offload that recorded data on, every record of the same enabling is of the same deployment and extends its image. |
| StoreLaws.StepKeepsInv | src/rbr_tpw/cli.py:287-366 | Wherever an offload stops, every record describes a prefix of its file, images of a stem only grow, and indices run 0, 1, 2, ... |
| StoreLaws.OthersUntouched | src/rbr_tpw/cli.py:342-350 | An offload removes no file and changes at most the candidate's, which keeps all its latest record describes. |
| StoreLaws.RunKeepsInv | src/rbr_tpw/cli.py:634-734 | The invariant holds after any run of offloads, each stopped anywhere. |
| StoreLaws.RecordsStay | src/rbr_tpw/cli.py:287-298 | A record once written stays and stays true of its file for the rest of the run. |
| StoreLaws.FindNeverRefuses | src/rbr_tpw/cli.py:331-355 | On any disk a run leaves, the search finds the last record of any deployment and its file passes the check. |
| StoreLaws.EveryRecordRebuilds | src/rbr_tpw/cli.py:979-1003 | Every record's file reads back as its image, and any record of a deployment leads to all of them in offload order. |
| StoreLaws.RawFileExactly | src/rbr_tpw/cli.py:979-1003 | A file is read back for a record if and only if it starts with the record's image. |
| Store.SortedAlready | src/rbr_tpw/cli.py:334-335 | Records numbered in order are left as they are by the sort. |
| Store.SortedByIndex | src/rbr_tpw/cli.py:334-335 | The sort orders records by offload index, then by start time, and loses none. |
| Monitor.StepKeepsInv | src/rbr_tpw/hostclock.py:22-63 | Every step of any thread, interruptions included, keeps: count equals transfers in flight, flag raised only by the lock's holder, no sleeper without cause. |
| Monitor.BodyRunsAlone | src/rbr_tpw/hostclock.py:39-63 | While a timing-critical body runs no transfer is in flight and no other body runs. |
| Monitor.NoDeadlock | src/rbr_tpw/hostclock.py:22-63 | Unless all threads are idle, one can go on without a failure. |
| Monitor.InFlightOnlyFalls | src/rbr_tpw/hostclock.py:26-36 | While the flag is up the transfers in flight only become fewer. |
| Monitor.WaiterEnters | src/rbr_tpw/hostclock.py:50-57 | Once they have ended, the waiting step is awake and its next step is its body. |
| Monitor.RunKeepsInv | src/rbr_tpw/hostclock.py:22-63 | The invariant holds along every interleaving of any number of threads. |
| Monitor.WaitIsBounded | src/rbr_tpw/hostclock.py:45-52 | Over any stretch of a run with the flag up, transfers take at most two steps each, and when they have taken them none is left. |
| Evaluate.ProblemExactly | src/rbr_tpw/equations.py:104-132 | A channel has a problem if and only if its references lead to something missing or in a circle. |
| Evaluate.ProblemIsTrue | src/rbr_tpw/equations.py:104-132 | The problem reported is at the end of a walk along the references: what is missing, not stored, or met again. |
| Evaluate.SameValue | src/rbr_tpw/equations.py:118-132 | A channel's values do not depend on which channels are being evaluated. |
| Evaluate.RememberedIsPlain | src/rbr_tpw/equations.py:119-129 | A remembered value is what plain recursion gives to any channel that leads to it. |
| Evaluate.Evaluator.Value | src/rbr_tpw/equations.py:118-132 | Memoised evaluation equals plain recursion, ends, and leaves no channel marked as being evaluated. |
| Evaluate.EvaluateAll | src/rbr_tpw/equations.py:134-143 | Every column gets its plain value or problem whatever was evaluated before it, and a problem exactly when its references lead to one. |
| Crc.ChecksExactly | src/rbr_tpw/crc.py:12-18 | A block checks if and only if its last two bytes are the checksum of the rest, high byte first; the reflected form likewise, low byte first. |
| Crc.OneByteChanges | src/rbr_tpw/crc.py:16-18 | Changing any one byte changes the checksum, so a block that checked no longer does. |
| Crc.ReflectedCrc | src/rbr_tpw/gen4.py:228-234 | The nested loops compute the reflected checksum. |
| Crc.ReflectedIsMirrored | src/rbr_tpw/gen4.py:228-234 | The reflected checksum is the bit-mirrored CCITT checksum of the bit-mirrored bytes, for every length. |
| Crc.VariantOfAppended | src/rbr_tpw/gen4.py:237-252 | Data with either checksum appended is recognised, in the order the readings are tried. |
| Crc.VariantExactly | src/rbr_tpw/gen4.py:237-252 | A block is taken for one of the two kinds if and only if it ends in that checksum, and for none otherwise. |
| Crc.CheckValues | src/rbr_tpw/gen4.py:228-234 | Both checksums of the digits 1 to 9 are the published check values. |
| ClockSkew.MeasureClockSkew | src/rbr_tpw/solo.py:159-197 | The polling loop collects the ticks between consecutive polls, and reports their median and the worst half bracket. |
| ClockSkew.MedianBounded | src/rbr_tpw/solo.py:186-193 | The median is as near the true skew as the worst half bracket. |
| ClockSkew.MedianIsMiddle | src/rbr_tpw/solo.py:186-193 | The median is the middle of the samples in order, or the mean of the middle two. |
| ClockSkew.CollectedBracketed | src/rbr_tpw/solo.py:172-185 | Every sample is within its own half bracket of the logger's true skew. |
| ClockSkew.BracketIsTight | src/rbr_tpw/solo.py:172-180 | The half bracket is no larger than the error can be. |
| ClockSkew.EveryTickCounts | src/rbr_tpw/solo.py:172-185 | Where the logger's second went up between two polls, one of them completed a sample. |
| ClockSkew.PollsUsedOnce | src/rbr_tpw/solo.py:181-185 | No poll is part of two samples. |
| HostClock.NtpOffset | src/rbr_tpw/hostclock.py:107-127 | Of the queries made, the lowest-delay reply is used; none is reported only if no reply came. |
| HostClock.OffsetBounded | src/rbr_tpw/hostclock.py:80-104 | An SNTP offset is off by at most half its delay plus the server's own root terms. |
| HostClock.OffsetBoundIsTight | src/rbr_tpw/hostclock.py:80-104 | And it can be off by as much. |
| ClockSkew.SkewBounded | src/rbr_tpw/ncwrite.py:85-90 | The recorded skew is as near the logger's true distance from UTC as the recorded uncertainties say. |
| HostClock.StampRoundTrip | src/rbr_tpw/hostclock.py:69-77 | A whole second survives the 32-bit NTP stamp if and only if it lies between 1968 and 2104. |
| EventPlacement.RunRises | src/rbr_tpw/rawbin.py:334-336 | Within a run between backward steps sample times never decrease. |
| EventPlacement.BoundsExactly | src/rbr_tpw/rawbin.py:334-336 | Runs end exactly where the clock steps back. |
| EventPlacement.EventIndices | src/rbr_tpw/rawbin.py:342-368 | The loop with its run pointer and binary search computes the specified place of each event. |
| EventPlacement.RunsOnlyAdvance | src/rbr_tpw/rawbin.py:355-359 | The run pointer never goes back. |
| EventPlacement.MovesOnExactly | src/rbr_tpw/rawbin.py:355-359 | An event moves to a later run if and only if one is left, the event is on the reset clock, and its run is not or it steps back by more than 60 s; only runs on a set clock are passed over. |
| EventPlacement.RestartsPlaced | src/rbr_tpw/rawbin.py:342-368 | Where runs begin with restarts so recognised, each restart is placed at the first sample of its run, and the events between stay in it. |
| EventPlacement.PlacedInRun | src/rbr_tpw/rawbin.py:360-366 | An event is placed in its run or right after it, and at the run's lower bound where both are on the same clock. |
| EventPlacement.WholeRecordExactly | src/rbr_tpw/rawbin.py:342-368 | Where the clock never steps back, the place is the whole record's lower bound if and only if event and first sample are on the same side of 2001. |

## Left out

* The text of notes and warnings, NetCDF and JSON encoding, attributes and history: string assembly and foreign formats.
* Serial link, prompts, lock handshake, timeouts and the configuration script: `Link.ReadData` stands for a block read.
* Threads' start and stop, console, status line, port discovery: operating-system plumbing.
* Gen3 and Gen4 drivers, `meta` objects and datasets that are rewritten whole: the store models one growing dataset of
  one logger.
* Parsing a sectioned header: `decode_l2` takes it parsed, and its own length is a parameter of `HeaderLength`.
* Fields of the RBRsolo header the decoder does not use, and the event kept in its last bytes: nothing depends on them.
* Segment numbers as an alternative to segment starts, and the single-offload form of `resolve_time_arrays`: they build
  one list of starts, or one view, and go through the same loop.
* Calibration arithmetic: the equations of `evaluate` are uninterpreted functions of what they refer to, and values that
  are not finite are part of them.
* Rounding of floating-point numbers: skews and clock readings are reals, and rounding to a millisecond is to even.
* 64-bit and 32-bit widths of times, counts and readings: integers are unbounded; words are 32 bits by construction.
* The half-millisecond thread switch interval and logging inside the monitor: they do not affect who waits for whom.
* An interruption between raising the monitor's flag and entering the block that lowers it: worker threads get none.
* The temporary file an atomic write leaves when it is interrupted: nothing reads it.
* A step of a clock that does not run at the host's rate: `ClockSkew` takes the skew as constant during a measurement.
* `scan_events`, changes between offloads, alarms and remaining time: messages about data that is saved anyway.
- OffloadRuns.EveryRecordIsTrue: takes a memory that is not empty to hold at least the 512 bytes of an RBRsolo header,
  because a header that grew and was then rewritten is compared only as far as it was held; and keeps a logger's memory
  as it is during an offload, which reads what was there when it began.
- Offloading.Station.Offload: does not say how many bytes were read from the logger; `IncrementalDownload` does.
- IncrementalDownload.DownloadSectioned: does not relate the logger's header to the held one beyond equality, since the
  parser of that header is a parameter.
- ClockSkew.MeasureClockSkew: does not model the sleep between ticks; a run of polls is any list of polls.
