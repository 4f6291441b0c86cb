# Verified model of the publisher's codecs, rewriters, queues and state machines

This project models, in Dafny, the parts of the media publisher where a mistake
would silently corrupt what subscribers receive, and proves what those parts promise.

- **LOCMAF** (`Vi64`, `Locmaf*`, `RunFormat`): the stateful full/delta codec of
  draft-einarsson-moq-locmaf-01 with its receiver as a specification. The encoder is
  a class; what it reads out of a chunk is what the chunk is written from, and for every
  sequence of calls the receiver recovers every chunk. Rebasing an encoded object is the
  encoding of the rebased chunk.
- **Live media queue** (`LiveMedia*`): limits, shedding to a keyframe boundary, and the
  rule that no video track resumes after a loss except on a keyframe, with the exact tracks
  for which it holds; audio is lost only for its time.
- **Catalog** (`Catalog*`): the publisher that chooses independent or delta catalogs
  (section 5.3 of draft-ietf-moq-msf-01), and a subscriber that replays its output and
  so holds what was last asked for.
- **CMAF rebase** (`Mp4Boxes`, `CmafRebase*`, `LoopOffset`): decode times raised in place,
  version 0 boxes widened, and every size, data offset and auxiliary offset still naming
  the same bytes of the reparsed result.
- **CMAF segmenter** (`TrunNormalize*`, `TrafSplit*`, `SegmenterTables`, `BoxWriter`,
  `CmafObject`, `Coalesce*`): normalizing a live moof, splitting one of several tracks,
  deriving sample offsets, and coalescing a progressive track into objects.
- **DASH ingest** (`ChunkedBody*`, `BoxStream`, `IngestPipeline`, `DashGroups`, `DashNumbers`):
  the chunk decoder (section 7.1 of RFC 9112), the streaming box reader, both together, and
  the group numbers shared by all tracks.
- **LOC** (`LocEncoder`, `LocFrames`, `ObjectProperties`, `LocIngest`, `LocRuns`, `LocQueue`,
  `SampleTable*`, `SampleLayout`, `FragmentReader`, `FragmentFields`, `FragmentWhole`,
  `ReadBack`): the track encoder and its property blocks, the queue that drops whole groups,
  the strict readers of progressive tables and of fragments; coalesced objects read back as
  the samples of the progressive file.
- **URLs and credentials** (`Decimals`, `MsfNamespace*`, `RangeUnion`, `MsfUrl*`, `Base64`).

Each module follows the form of its source. Objects whose methods update fields are
classes with those fields, loops are loops, and each method is proved equal to a
specification function; what the source promises is then proved about that function, over
whole runs where the promise is about runs. A result datatype or `Option` stands for an
exception. Integers are unbounded and every width the source relies on is written out.

What a reader or rewriter makes of its bytes is also stated without it: as the bytes that
stand at each place (`RunFormat.Stands`), and as the exact condition under which it succeeds.

Where code and expectations differ, the model follows the code and says exactly when they
meet: `CatalogRuns.PublishStaysExact`, `CatalogRuns.EndThrowsExactlyWhenEncrypted`,
`ChunkedBodyRuns.SplitIndependentExactly`, `CmafRebaseOffsets.OffsetFollowsExactly`,
`LiveMediaGaps.ResumesExactly`, `LocmafRebaseScan.AnswersExactly`, `MsfUrl.UrlRoundTrip`,
`SegmenterTables.SameShiftsExactly` and `SegmenterTables.SameSyncExactly` are
if-and-only-if statements; `CatalogRuns.VersionIsLost`, `LiveMediaGaps.OrderIsNeeded` and
`LocmafRebaseScan.EndlessScan` are concrete inputs.

`dafny verify dfyconfig.toml` checks the whole project.

## Model

| member | source | states |
|---|---|---|
| Vi64.RoundTrip | src/loop_timestamps.cpp:166-203 | reading back an encoded integer gives it, for every 64-bit value, and stops at its last byte whatever follows |
| Vi64.DecodeFits | src/loop_timestamps.cpp:166-203 | whatever is read is a 64-bit value |
| Vi64.Injective | src/locmaf_encoder.cpp:86-98 | the encoding is prefix-free: two encodings with anything after them that agree are of one value |
| Vi64.Append | src/locmaf_encoder.cpp:86-98 | `vi` appends exactly the encoding the reader inverts |
| Vi64.LocmafVarint | src/loop_timestamps.cpp:166-203 | `locmaf_varint` writes the same bytes as `vi` |
| Vi64.AppendInteger | src/cat4moq.cpp:41-65 | `append_integer` refuses exactly the values and drafts without a form, and otherwise writes it; from draft 17 on the same bytes as `vi` |
| Vi64.Read | src/loop_timestamps.cpp:166-203 | `read_locmaf_varint` is the decoder; the cursor moves only on success |
| LocmafChunk.BoxesTile | src/locmaf_encoder.cpp:44-59 | splitting a chunk into boxes loses no byte and every box carries its own length |
| LocmafChunk.SplitBoxes | src/locmaf_encoder.cpp:44-59 | the box loop computes that split or its error |
| LocmafChunk.LoopSamples | src/locmaf_encoder.cpp:313-335 | the sample loop with its running totals reads the specified table, which `LocmafReading.TrunExactly` ties to the bytes, or fails when the specification does |
| LocmafReading.TfhdExactly | src/locmaf_encoder.cpp:287-299 | a tfhd is read as these four values exactly when it is written with some of them, up to its end, and the track has the others as its defaults |
| LocmafReading.TfdtExactly | src/locmaf_encoder.cpp:300-305 | a tfdt is read as a time exactly when it is the version 0 or version 1 box of that time |
| LocmafReading.TrunExactly | src/locmaf_encoder.cpp:306-336 | a trun is read as a table exactly when it is written from it: each duration, size, flag word and offset the big-endian word of its entry, or else the default or the first-sample flags its flags select, its data behind the moof |
| LocmafReadingSenc.SencExactly | src/locmaf_encoder.cpp:217-255 | a senc is read as these vectors and subsamples exactly when it holds them row by row |
| LocmafReadingChunk.BoxesExactly | src/locmaf_encoder.cpp:44-59 | bytes split into these boxes exactly when they are these boxes one behind the other |
| LocmafReadingChunk.ChunkExactly | src/locmaf_encoder.cpp:256-371 | the encoder reads these values out of a chunk if and only if the chunk is boxes, a moof and its mdat that state them |
| LocmafReadingChunk.ExcludedExactly | src/locmaf_encoder.cpp:71-86 | a chunk is kept from the codec exactly for a sample group, subsample or licence box, as deep as containers go |
| LocmafReadingChunk.MeaningExactly | src/locmaf_encoder.cpp:256-385 | a chunk of clean boxes that state these values is sent as them and as nothing else |
| LocmafReadingChunk.ForeignGoesRaw | src/locmaf_encoder.cpp:256-286 | boxes of another shape, and movie fragments with boxes the codec lacks, are sent raw |
| LocmafTable.CompactionLossless | src/locmaf_encoder.cpp:313-360 | expanding the emitted fields with the defaults and the payload length gives back every duration, size, flag word and composition offset, the sample description and the encryption data |
| LocmafWire.BlockRoundTrip | src/locmaf_encoder.cpp:372-385 | a written property block reads back entry for entry |
| LocmafWire.ListRoundTrip | src/locmaf_encoder.cpp:372-385 | the integers of a field, plain or zig-zag deltas, read back exactly |
| LocmafWire.WriteField | src/locmaf_encoder.cpp:372-385 | `field` appends the entry: id, length for an odd id, values |
| LocmafWire.ObjectRoundTrip | src/locmaf_encoder.cpp:440-470 | a written object reads back as its prefix boxes, header kind, entries and payload |
| LocmafWire.RawRoundTrip | src/locmaf_encoder.cpp:405-440 | a chunk sent as raw boxes reads back as those bytes |
| LocmafCodec.DeltaFieldsRoundTrip | src/locmaf_encoder.cpp:405-470 | deleting the removed fields and patching the rest with the carried ones turns the previous table into the new one |
| LocmafCodec.RemovedExactly | src/locmaf_encoder.cpp:405-470 | the deletion list names exactly the fields the new chunk lacks |
| LocmafChoices.CompactSaysWhatIsNeeded | src/locmaf_encoder.cpp:298-360 | each field is there exactly when the defaults do not give its values: durations, sizes, flags and offsets listed only when they vary, once only when they are not the default |
| LocmafChoices.BlockExactly | src/locmaf_encoder.cpp:415-455 | a full header carries every field and the base time; a delta header exactly the fields that are new or changed, the vectors if they changed, and the deletion list if a field is gone |
| LocmafChoices.KindExactly | src/locmaf_encoder.cpp:387-470 | over every run, a chunk is sent under a delta header exactly when a full one was not asked for and it continues the chunk sent last: same group, next number, and a base time where that one ended |
| LocmafEncoder.ParseChunk | src/locmaf_encoder.cpp:256-371 | `parse` gives the compacted effective values, which `LocmafReadingChunk.ChunkExactly` ties to the bytes, or an error |
| LocmafEncoder.LocmafEncoder.constructor | src/locmaf_encoder.cpp:387-399 | a new encoder is the fresh state |
| LocmafEncoder.LocmafEncoder.Reset | src/locmaf_encoder.cpp:400-404 | `reset` is the fresh state again |
| LocmafEncoder.LocmafEncoder.Encode | src/locmaf_encoder.cpp:405-470 | one call is one step of the encoder; an error leaves every field as it was |
| LocmafEncoder.StepRoundTrip | src/locmaf_encoder.cpp:405-470 | a receiver in step recovers table, IV bytes, base decode time, prefix boxes and payload of the chunk, and stays in step |
| LocmafEncoder.RunRoundTrip | src/locmaf_encoder.cpp:387-470 | for every sequence of encode and reset calls a receiver in step recovers every accepted chunk, in order |
| LocmafEncoder.FreshRunRoundTrip | src/locmaf_encoder.cpp:387-470 | the same from a new encoder and a receiver that knows nothing |
| LocmafEncoder.TuneIn | src/locmaf_encoder.cpp:405-470 | a receiver that joins at the first object of a new group needs nothing earlier |
| LocmafEncoder.RefusalIsStateless | src/locmaf_encoder.cpp:405-470 | whether a chunk is refused does not depend on the encoder state |
| LocmafRebase.FullObjectRebased | src/loop_timestamps.cpp:282-358 | a rebased full object is byte for byte the object of the same chunk at the later base time |
| LocmafRebase.DeltaObjectRebased | src/loop_timestamps.cpp:282-358 | a delta object is left as it is |
| LocmafRebase.RebasesCompose | src/loop_timestamps.cpp:282-358 | two rebases are one by the sum |
| LocmafRebase.StepShifted | src/loop_timestamps.cpp:282-358 | a receiver of rebased objects sees each chunk at the later time, delta objects included |
| LocmafRebase.LoopedRun | src/loop_timestamps.cpp:282-358 | a whole rebased run decodes to the run, every time raised |
| LocmafRebaseScan.StopsSoonOrNever | src/loop_timestamps.cpp:321-333 | the property scan either stops within one turn for each offset of the block and one more, or never |
| LocmafRebaseScan.EndlessScan | src/loop_timestamps.cpp:321-333 | a twelve-byte object on which the scan never stops: a length past its block wraps the cursor back to where it was read |
| LocmafRebaseScan.BlockAgreesExactly | src/loop_timestamps.cpp:321-357 | the scan stops with the rebase of the block if and only if its cursor never wraps back into or ahead of the block, or fails from where it first lands |
| LocmafRebaseScan.AnswersExactly | src/loop_timestamps.cpp:282-358 | so for every object: the answer is its rebase if and only if it has no property block, or that holds of its block |
| LocmafRebaseScan.RebasedIsAnswered | src/loop_timestamps.cpp:282-358 | an object that has a rebase, as every one the encoder writes, is answered with it |
| LocmafRebaseScan.RebaseProperties | src/loop_timestamps.cpp:321-357 | on every block where it can answer, the property scan with its 64-bit cursor rewrites the field it stops at and nothing else, or fails |
| LocmafRebaseScan.RebaseLocmafTimestamps | src/loop_timestamps.cpp:282-358 | on every object it can answer on, the element scan gives the answer, the object unchanged with false, and the rebase whenever there is one |
| LiveMedia.PushEffect | src/live_media_queue.h:48-128 | one push keeps both limits and the counters, never lowers the boundary, and when no boundary recovers loses only the new fragment and fails from then on |
| LiveMedia.PopKeepsValid | src/live_media_queue.h:130-139 | a pop gives the front entry and keeps every invariant |
| LiveMedia.AudioIsNotGated | src/live_media_queue.h:200-218 | a fragment that is no keyframe and has neither SAP type 0 nor 2, on a track not seen to be video, is dropped only for its time |
| LiveMediaAudio.VideoExactly | src/live_media_queue.h:48-218 | over every run, a track counts as video exactly when a media fragment of it was pushed, before the queue failed, that is a keyframe or has SAP type 0 or 2 |
| LiveMediaAudio.AudioIsLostForItsTime | src/live_media_queue.h:48-218 | over every run, a track none of whose media fragments is such is never gated: each of its fragments is delivered or queued unless it starts below the boundary or the queue failed |
| LiveMediaRuns.VideoResumesAtKeyframes | src/live_media_queue.h:48-139 | over every run, on a track that starts as video and has no gap, a fragment that is delivered or still queued although the one before it on its track was dropped is a keyframe |
| LiveMediaGaps.ResumesExactly | src/live_media_queue.h:48-139 | a track that starts as video resumes only at keyframes in every run, whatever the limits, pops and other tracks, if and only if no keyframe is followed by neighbours of which the second is no keyframe and the first starts before both; fragments the queue can never hold count too |
| LiveMediaGaps.GapBreaksRule | src/live_media_queue.h:48-218 | for every track with such a gap, a run from an empty queue that breaks the rule |
| LiveMediaGaps.OrderIsNeeded | src/live_media_queue.h:200-218 | three fragments with a gap: a keyframe at 10, then 5 and 11 |
| LiveMediaQueue.MeasureDecides | src/live_media_queue.h:273-277 | the measured bounds decide exactly whether the content is within the limits |
| LiveMediaQueue.Measure | src/live_media_queue.h:220-271 | `measure` reports the bytes and span of all entries, or of those a boundary keeps |
| LiveMediaQueue.LiveMediaQueue.constructor | src/live_media_queue.h:41-46 | an empty valid queue |
| LiveMediaQueue.LiveMediaQueue.FindRecovery | src/live_media_queue.h:48-128 | finds the least keyframe time whose kept content fits, if there is one |
| LiveMediaQueue.LiveMediaQueue.Retain | src/live_media_queue.h:48-128 | keeps exactly the entries `should_retain` keeps, in order |
| LiveMediaQueue.LiveMediaQueue.EnterEntry | src/live_media_queue.h:48-128 | appends, and sheds to the recovery boundary when over a limit |
| LiveMediaQueue.LiveMediaQueue.PushFragment | src/live_media_queue.h:48-128 | `push` is the specified step on the object state, cached counters included |
| LiveMediaQueue.LiveMediaQueue.TryPop | src/live_media_queue.h:130-139 | `try_pop` is the specified pop, counters recomputed |
| LiveMediaQueue.LiveMediaQueue.MarkEof | src/live_media_queue.h:141-144 | only the end mark changes |
| LiveMediaQueue.LiveMediaQueue.Done | src/live_media_queue.h:151-154 | done exactly at the end mark with nothing queued |
| CatalogPublisher.CatalogPublisher.constructor | src/msf_catalog.cpp:971-1019 | a publisher that has published nothing |
| CatalogPublisher.CatalogPublisher.Emit | src/msf_catalog.cpp:971-992 | counters move only once the text exists |
| CatalogPublisher.CatalogPublisher.PublishCatalog | src/msf_catalog.cpp:1021-1146 | one publish is one step: nothing, a delta or an independent catalog, or a throw that changes nothing |
| CatalogPublisher.CatalogPublisher.Republish | src/msf_catalog.cpp:1148-1159 | the last catalog again as a new group |
| CatalogPublisher.CatalogPublisher.ForceIndependent | src/msf_catalog.cpp:1148-1159 | `force_independent` is that step |
| CatalogPublisher.CatalogPublisher.EndBroadcast | src/msf_catalog.cpp:1161-1175 | `end_broadcast` is that step, and the last one |
| CatalogPublisher.CatalogPublisher.Reset | src/msf_catalog.cpp:1012-1019 | `reset` forgets the catalog and keeps the settings |
| CatalogPublisher.CatalogPublisher.SetInitialGroup | src/msf_catalog.cpp:999-1005 | the first group to use |
| CatalogPublisher.CatalogPublisher.SetMaxDeltas | include/openmoq/publisher/msf_catalog.h:261 | the delta cap |
| CatalogPublisher.FindAdded | src/msf_catalog.cpp:1060-1111 | the loop over the new keyed map: stops at the first changed track, else lists the added ones |
| CatalogPublisher.FindRemoved | src/msf_catalog.cpp:1060-1111 | the removed ones |
| CatalogPublisher.MakeEndCatalog | src/msf_catalog.cpp:853-886 | the final catalog of the two ending modes |
| CatalogRuns.DifferFinds | src/msf_catalog.cpp:1060-1146 | what the differ finds is exactly the difference of the two keyed maps |
| CatalogRuns.DeltaReaches | src/msf_catalog.cpp:1060-1146 | adding and removing what it found turns the old track map into the new one |
| CatalogRuns.DeltaKeepsPublishable | src/msf_catalog.cpp:263-399 | after a delta the new catalog is one the publisher can write in full |
| CatalogValidation.ValidateCatalog | src/msf_catalog.cpp:263-399 | the loops over the lists and the sets of what was seen accept exactly the valid catalogs |
| CatalogValidation.ValidateTrack | src/msf_catalog.cpp:174-261 | the checks of one track, in order |
| CatalogValidation.ValidateNoStrayPercent | src/msf_catalog.cpp:135-166 | the scan from percent sign to percent sign accepts what the rule does |
| CatalogValidation.PercentsExactly | src/msf_catalog.cpp:135-166 | accepted are exactly the texts made of characters other than percent signs and of named variables |
| CatalogValidation.IsUuidString | src/msf_catalog.cpp:109-133 | the position loop accepts exactly the identifiers |
| CatalogValidation.UuidExactly | src/msf_catalog.cpp:109-133 | which are five groups of hexadecimal digits, 8, 4, 4, 4 and 12 of them, with dashes between |
| CatalogValidation.SerializeCatalog | src/msf_catalog.cpp:531-652 | a document exactly for a valid catalog whose fully written tracks are valid |
| CatalogRuns.JoinAnywhere | src/msf_catalog.cpp:1021-1146 | joining at object 0 of any group gives what the whole log gives |
| CatalogRuns.SubscriberHoldsLast | src/msf_catalog.cpp:1021-1146 | after any run, a subscriber who joined at object 0 of any group holds exactly the tracks, publish tracks, init data and content protections of `last_` |
| CatalogRuns.PublishStaysExact | src/msf_catalog.cpp:1089-1111 | version and isComplete follow too if and only if the publish is not a delta under a different version or isComplete |
| CatalogRuns.VersionIsLost | src/msf_catalog.cpp:1089-1111 | a new version beside a new track leaves subscribers on the old version |
| CatalogRuns.LocationsIncrease | src/msf_catalog.cpp:971-1146 | locations strictly increase, a group opens with an independent object 0 and only there, ids in a group count up by one |
| CatalogRuns.DeltasWithinCap | src/msf_catalog.cpp:1112-1146 | a group never holds more deltas than the largest cap that was set |
| CatalogRuns.ThrowsAndEnds | src/msf_catalog.cpp:971-1175 | a call that throws changes nothing; after the end nothing is emitted |
| CatalogRuns.ForceThrowsOnlyWithoutGroups | src/msf_catalog.cpp:1148-1159 | republishing fails only when group ids run out or the broadcast ended |
| CatalogRuns.EndThrowsExactlyWhenEncrypted | src/msf_catalog.cpp:853-886 | ending as video on demand throws exactly when a track of the last catalog is protected: the list is dropped but the references stay |
| CatalogDelivery.PublishTakesEffect | src/msf_catalog.cpp:1021-1146 | a publish emits nothing exactly when the last catalog agrees with the asked one in version, isComplete, protections, tracks, publish tracks and init data; otherwise the asked one becomes the last and one object says it: a delta when whole tracks came or went, nothing else changed and the cap allows, and the whole catalog in a new group if not |
| CatalogDelivery.PublishThrowsExactly | src/msf_catalog.cpp:1021-1146 | a publish throws exactly after the end, or when there is something to say and the asked catalog is invalid or a new group has no id left |
| CatalogDelivery.DeltaWritesExactly | src/msf_catalog.cpp:1112-1146 | a delta can be written exactly when the catalog it leads to can |
| CatalogDelivery.SubscriberHoldsAsked | src/msf_catalog.cpp:1021-1175 | after any run, a subscriber who joined at object 0 of any group holds exactly the tracks, publish tracks, init data and protections last asked for |
| CatalogDelivery.FinalIs | src/msf_catalog.cpp:853-886 | terminating states isComplete and drops every track; ending as video on demand makes every track not live, with the duration given for its name |
| CatalogDelivery.EndTakesEffect | src/msf_catalog.cpp:1161-1175 | an end that does not throw emits that catalog in full, alone in a new group |
| CatalogDelivery.OpensAtInitialGroup | src/msf_catalog.cpp:999-1019 | the first catalog of a broadcast, and the first after a reset, opens the first group last asked for |
| CatalogDelivery.ResetBegins | src/msf_catalog.cpp:1012-1019 | a reset forgets what was published and keeps what was set |
| CatalogProtection.AttachEffect | src/msf_catalog.cpp:798-833 | one entry per system and scheme, unique numbers, every reference resolves, no key of another track is lost, each system carries the key |
| CatalogProtection.AttachExactly | src/msf_catalog.cpp:798-833 | each entry is what it was, with the key where a system of the track asks for it under its scheme, or a new one with the next number, that key, that scheme and the init data of the first such system; the track refers to just those |
| CatalogProtection.NumberedIsUnique | src/msf_catalog.cpp:798-833 | no two entries share a reference id |
| CatalogProtection.AttachContentProtection | src/msf_catalog.cpp:798-833 | `attach_content_protection` computes that list and those references |
| ChunkedBody.ChunkedBodyDecoder.constructor | src/live_dash_ingest.cpp:191-193 | a decoder that waits for a size line |
| ChunkedBody.ChunkedBodyDecoder.AppendBytes | src/live_dash_ingest.cpp:194-200 | one append is adding the bytes and draining, or nothing after the end |
| ChunkedBody.ChunkedBodyDecoder.ParseAvailable | src/live_dash_ingest.cpp:225-302 | the loop is the specified drain |
| ChunkedBody.ChunkedBodyDecoder.TakeDecoded | src/live_dash_ingest.cpp:201-207 | hands out the decoded bytes once |
| ChunkedBodyRuns.SplitsAlike | src/live_dash_ingest.cpp:191-302 | any cut of a body with lines under 8192 bytes ends as one append of it |
| ChunkedBodyRuns.SplitIndependentExactly | src/live_dash_ingest.cpp:225-302 | for every body, every cut gives the same result if and only if every line is under 8192 bytes, or one append fails on a long line too and nothing is decoded from the first such line on |
| ChunkedBodyRuns.WellFormedDecodes | src/live_dash_ingest.cpp:225-302 | a well-formed body (section 7.1 of RFC 9112), cut anywhere, decodes to the concatenated chunk data |
| ChunkedBodyForm.CompletesExactly | src/live_dash_ingest.cpp:225-302 | bytes complete exactly when they start with a well-formed body, and then the decoder holds its data and what is behind it |
| ChunkedBodyForm.RefusedExactly | src/live_dash_ingest.cpp:225-302 | bytes are refused, and with which error, exactly when chunks are followed by a size line that is empty, goes wrong at a digit, overflows 64 bits or the limit, by data not ended by a line end, or by more than 8192 bytes without one |
| ChunkedBodyForm.ChunkSizeExactly | src/live_dash_ingest.cpp:243-277 | a size line is read as its hexadecimal number up to the first semicolon, or refused for its one fault |
| BoxStream.StreamingMp4Reader.constructor | src/mp4_box.cpp:1101-1103 | an empty reader |
| BoxStream.StreamingMp4Reader.Append | src/mp4_box.cpp:1101-1103 | the bytes go behind the unread ones |
| BoxStream.StreamingMp4Reader.NextBox | src/mp4_box.cpp:1115-1165 | the next whole top-level box, a wait, or an exception |
| BoxStream.StreamingMp4Reader.Compact | src/mp4_box.cpp:1167-1173 | only the consumed bytes go |
| BoxStream.StreamingMp4Reader.Ingest | src/live_dash_ingest.cpp:316-333 | the ingest loop gives the boxes of the specification |
| BoxStream.FeedTwice | src/mp4_box.cpp:1101-1173 | feeding two pieces gives what feeding them joined gives |
| BoxStream.NothingLost | src/mp4_box.cpp:1115-1165 | yielded plus unread bytes equal the input |
| BoxStream.BoxesComeBack | src/mp4_box.cpp:1115-1165 | whole boxes in a row come back as those boxes |
| BoxStream.TakesExactly | src/mp4_box.cpp:1115-1165 | what is taken out of some bytes is exactly the whole boxes they start with, under 32-bit or 64-bit sizes, and the reader is broken exactly when what is left starts with an impossible size |
| IngestPipeline.PipelineIgnoresCuts | src/live_dash_ingest.cpp:1166-1190 | the boxes, the unread bytes and the verdict do not depend on how the upload is cut |
| IngestPipeline.UploadYieldsItsBoxes | src/live_dash_ingest.cpp:1166-1190 | a well-formed chunked upload of whole boxes, cut anywhere, yields exactly those boxes |
| LocEncoder.MicrosecondsIsFloor | src/loc_packager.cpp:10-18 | the split conversion is the exact floor, and fails exactly when that needs more than 64 bits |
| LocFrames.FrameExactly | src/loc_packager.cpp:31-87 | a sample is skipped exactly when it is usable but leans on a frame that was not sent, and becomes an object exactly when it is usable, decodable, representable and can be numbered; the object states the microsecond floors of its own decode time, presentation time and duration, its own marks, and properties that read back as its timescale, marking, configuration and presentation time |
| LocFrames.PropertiesExactly | src/loc_packager.cpp:70-81 | the property block is refused exactly when the configuration or the block is too long |
| ObjectProperties.SerializesExactly | src/transport/moqt_control_messages.cpp:3252-3294 | a block is written exactly when the ids differ, every value has the form the parity of its id asks for and the block fits 64 KiB; reading it gives the properties in the order of their ids |
| ObjectProperties.SerializeObjectProperties | src/transport/moqt_control_messages.cpp:3252-3294 | the loop over the sorted properties writes that block, or refuses |
| LocEncoder.LocTrackEncoder.constructor | src/loc_packager.cpp:20-25 | an encoder that has started nothing |
| LocEncoder.LocTrackEncoder.RequireRandomAccess | src/loc_packager.cpp:27-29 | the next video frame must be independent |
| LocEncoder.LocTrackEncoder.EncodeSample | src/loc_packager.cpp:31-87 | one sample is the specified step: an object, a skip or an exception |
| LocEncoder.LocTrackEncoder.EncodeSamples | src/loc_packager.cpp:31-87 | the loop over the samples |
| LocRuns.EncodeKeepsChain | src/loc_packager.cpp:31-87 | an object continues its group or opens the next one with an independent frame, contiguous in decode time |
| LocRuns.GroupsOfChain | src/loc_packager.cpp:31-87 | each group of a chain starts independently and is contiguous |
| LocIngest.LiveDashIngestSession.constructor | src/live_dash_ingest.cpp:305-313 | an empty session |
| LocIngest.LiveDashIngestSession.EnqueueObject | src/live_dash_ingest.cpp:704-731 | drops whole groups until the object fits, or drops its own group |
| LocIngest.LiveDashIngestSession.IngestSample | src/live_dash_ingest.cpp:560-590 | encodes and enqueues one sample; an exception closes the session |
| LocIngest.LiveDashIngestSession.TryNextObject | src/live_dash_ingest.cpp:389-408 | takes the front object |
| LocRuns.DeliveredIsPrefix | src/live_dash_ingest.cpp:704-731 | after any run what was delivered of a group is a prefix of what its encoder produced, and the queue is within its depth and 16 MiB |
| LocRuns.DeliveredGroupsDecode | src/live_dash_ingest.cpp:704-731 | every delivered video group starts with an independent sample and has contiguous decode times |
| LocQueue.ShedExactly | src/live_dash_ingest.cpp:704-731 | the queue gives up the groups of its first objects, the fewest that bring it within its depth and 16 MiB, and remembers the last one of each track; within its bounds it gives up nothing |
| LocQueue.EnqueueExactly | src/live_dash_ingest.cpp:704-731 | an object of a group at or below the last one given up on its track is not queued; any other is, at the price of those groups |
| LocQueue.TakesInOrder | src/live_dash_ingest.cpp:389-408 | objects leave from the front, one a call, until none is left |
| LocQueue.BreaksExactly | src/live_dash_ingest.cpp:560-590 | a sample breaks the session exactly when it is of one of its tracks and neither encoded nor skipped, or has no group id left |
| DashGroups.DashSession.constructor | src/live_dash_ingest.cpp:305-313 | no group begun |
| DashGroups.DashSession.Number | src/live_dash_ingest.cpp:625-670 | one fragment gets the specified group and object number, or is dropped |
| DashGroups.SharedGroups | src/live_dash_ingest.cpp:625-670 | over every run with video, groups never go back, a track's objects in a group are numbered from 0 without a gap, and every video track begins each group with a keyframe at the one time the group begins |
| DashGroups.OwnGroups | src/live_dash_ingest.cpp:658-670 | without video each fragment is a group of its own and the groups of a track are consecutive |
| DashNumbers.NumberedExactly | src/live_dash_ingest.cpp:625-670 | over every run with video, a fragment becomes an object exactly when a keyframe has opened a group and there was an id for it, its track if video has a keyframe at the latest keyframe time, and a keyframe is at that time itself; its group counts the keyframes later than all before them and its id the objects of its track there |
| DashNumbers.OwnNumberedExactly | src/live_dash_ingest.cpp:658-670 | over every run without video, each fragment is the one object of the next group of its path and track, until one of them has no group id left |
| Mp4Boxes.ParseTiles | src/mp4_box.cpp:50-93 | parsed boxes tile the range up to a short tail, each where its header says |
| Mp4Boxes.Reparse | src/mp4_box.cpp:50-93 | boxes in their places parse as themselves |
| BoxWriter.BoxParsesExactly | src/mp4_box.cpp:17-93 | a written box of one of the eleven container types parses exactly when its payload does, into those children; a box of any other type is a leaf |
| BoxWriter.NestedParses | src/mp4_box.cpp:17-93 | down any path of containers, such as moov, trak, mdia, minf and stbl, the parser reaches the boxes inside |
| Mp4Boxes.ParseBoxRange | src/mp4_box.cpp:50-93 | the cursor loop with its recursion computes the parse |
| CmafRebaseTree.RebasedParses | src/loop_timestamps.cpp:215-280 | the result parses to a tree of the same shape, every header stating what it now holds |
| CmafRebaseSuccess.RebasesExactly | src/loop_timestamps.cpp:215-280 | a payload is rebased if and only if it parses, some fragment has a traf, every decode time is a whole version 1 one or a version 0 one that fits or can be widened, and where a fragment widens its headers are short, its offsets are relative to the moof and every moved offset fits |
| CmafRebaseValues.TrafTimeRaised | src/loop_timestamps.cpp:215-280 | the decode time of a traf rises by the delta, widened from 32 to 64 bits or not |
| CmafRebaseValues.TrunMoved | src/loop_timestamps.cpp:68-164 | a trun keeps everything but its offset, which moves by four bytes for each widening before its target |
| CmafRebaseValues.SaioMoved | src/loop_timestamps.cpp:68-164 | a saio keeps its layout and each entry moves so |
| CmafRebaseOffsets.DecodeTimesRaised | src/loop_timestamps.cpp:215-280 | every traf of every fragment of the reparsed result decodes later by the delta, modulo 64 bits |
| CmafRebaseOffsets.UntouchedBytesMove | src/loop_timestamps.cpp:215-280 | every byte no edit touches is in the result at its new position |
| CmafRebaseOffsets.OffsetFollowsExactly | src/loop_timestamps.cpp:50-164 | an offset follows its target if and only if no widening of another fragment lies between the fragment and the target |
| CmafRebaseOffsets.RunNamesSameByte | src/loop_timestamps.cpp:68-164 | in the reparsed result a run's data offset names the byte it named before |
| CmafRebaseOffsets.AuxiliaryNamesSameByte | src/loop_timestamps.cpp:68-164 | so does every saio entry |
| CmafRebaseInPlace.RebaseTime | src/loop_timestamps.cpp:215-280 | the in-place edit of one decode time box |
| CmafRebaseInPlace.AdjustTrun | src/loop_timestamps.cpp:68-164 | the in-place edit of one data offset, or false |
| CmafRebaseInPlace.AdjustSaio | src/loop_timestamps.cpp:68-164 | the in-place edit of one saio, or false |
| CmafRebaseInPlace.AdjustForWidenings | src/loop_timestamps.cpp:68-164 | the offset pass over a fragment writes the specified bytes |
| CmafRebaseInPlace.InsertWidenings | src/loop_timestamps.cpp:255-280 | inserting from the last widening to the first gives the specified bytes |
| CmafRebaseInPlace.RebaseCmafTimestamps | src/loop_timestamps.cpp:215-280 | true with the specified result, or false with the payload unchanged |
| LoopOffset.TicksIsNearest | src/loop_timestamps.cpp:207-213 | converting seconds and the rest apart gives the nearest tick to the exact offset |
| LoopOffset.CyclesAdvance | src/loop_timestamps.cpp:207-213 | a later cycle is never moved less than an earlier one |
| TrunNormalizeRead.TrunBack | src/cmaf_segmenter.cpp:480-494 | a normalized trun reads back as its samples whatever the defaults, and its data offset as written |
| TrunNormalizeMoves.SamplesKept | src/cmaf_segmenter.cpp:393-546 | normalizing keeps every sample's effective duration, size, flags and composition offset, and sets the data offset to the size of the new moof plus 8 |
| TrunNormalizeFields.RunExactly | src/cmaf_segmenter.cpp:430-478 | a run reads as these samples exactly when its bytes state them: each field the big-endian word of its entry in the order of the set flags, or else the default, the first-sample flags or 0 |
| TrunNormalizeFields.SamplesStated | src/cmaf_segmenter.cpp:393-546 | the normalized moof states every duration, size and flag word of those samples, and the offsets if there were any, as words at its trun |
| TrunNormalizeSuccess.NormalizesExactly | src/cmaf_segmenter.cpp:290-546 | a moof is normalized exactly when the first traf has a run that states samples, no other traf has a saio, and unless the size stays every saio holds its entries, each inside the fragment and able to follow, next to a senc or saiz |
| TrunNormalizeSuccess.WalksExactly | src/cenc.cpp:53-102 | the box walk finds a type exactly when a path of sound boxes leads to one |
| TrunNormalizeMoves.BytesMove | src/cmaf_segmenter.cpp:507-546 | every byte outside the rewritten fields stays, or moves by what the moof grew when it is behind the old run |
| TrunNormalizeMoves.AuxiliaryKept | src/cmaf_segmenter.cpp:252-391 | every auxiliary information offset that targets outside the trun names the byte it named before, wherever senc is |
| TrunNormalizeMoves.NormalizeTwice | src/cmaf_segmenter.cpp:393-546 | normalizing again, under any defaults, changes nothing |
| TrunNormalizeMethods.CorrectSaioOffsets | src/cmaf_segmenter.cpp:290-391 | the in-place entry loop computes the corrected box, or the exception |
| TrunNormalizeMethods.FindChildBoxSpan | src/cenc.cpp:53-102 | the box walk finds the type exactly when the specified walk does |
| TrunNormalizeMethods.ReadRun | src/cmaf_segmenter.cpp:430-478 | the sample loop reads the effective run |
| TrunNormalizeMethods.BuildTrun | src/cmaf_segmenter.cpp:480-494 | the builder writes the normalized trun |
| TrunNormalizeMethods.RebuildMoof | src/cmaf_segmenter.cpp:507-535 | the two child loops rebuild the moof |
| TrunNormalizeMethods.MaterializeLiveTrunDefaults | src/cmaf_segmenter.cpp:393-546 | the whole function computes the specified moof, or the exception |
| TrafSplit.PatchableExactly | src/cmaf_segmenter.cpp:1595-1605 | the data offset that is overwritten lies inside its traf if and only if the payload of the trun and the bytes behind the trun are twelve or more |
| TrafSplit.SplitKeepsRuns | src/cmaf_segmenter.cpp:1486-1615 | each traf becomes one part in order; its moof parses as the mfhd and that traf, changed only in the data offset, which names the bytes the old one named |
| TrafSplitFields.SpanExactly | src/cmaf_segmenter.cpp:1519-1590 | the bytes of a traf are taken to be a span exactly when its own boxes say so: one tfhd and one trun, no saio, the sizes the words at their strides or the default, the start the data offset from the moof or from the end of the run before |
| TrafSplitFields.SplitExactly | src/cmaf_segmenter.cpp:1486-1615 | a fragment of several tracks splits if and only if it has a mfhd and every traf so takes a span inside the payload of the mdat |
| TrafSplitFields.UnsplitExactly | src/cmaf_segmenter.cpp:1486-1500 | a fragment of at most one traf is left as it is, and bytes that do not start with a moof are refused |
| TrafSplitFields.PartsHoldRuns | src/cmaf_segmenter.cpp:1486-1615 | each part carries the bytes its traf states |
| TrafSplit.PartStandsAlone | src/cmaf_segmenter.cpp:1586-1612 | the same for one part |
| TrafSplit.TotalSize | src/cmaf_segmenter.cpp:1561-1579 | the size loop sums the run |
| TrafSplit.ReadSpan | src/cmaf_segmenter.cpp:1519-1590 | which bytes a traf's run takes, or the exception |
| TrafSplit.SplitLiveFragmentByTraf | src/cmaf_segmenter.cpp:1486-1615 | the loop over the trafs computes the specified parts |
| SampleTables.Reader.constructor | src/encoded_sample.cpp:20-39 | a reader at the start of a box |
| SampleTables.Reader.Get | src/encoded_sample.cpp:22-28 | a big-endian field, or nothing past the end |
| SampleTables.ReadSizes | src/encoded_sample.cpp:370-380 | accepts exactly the stsz tables that fill their box and fit the limit |
| SampleTables.ReadTiming | src/encoded_sample.cpp:381-411 | accepts exactly the timing tables of non-empty runs that cover the samples, and expands them |
| SampleTables.ReadSync | src/encoded_sample.cpp:412-428 | accepts exactly rising sample numbers, and marks them |
| SampleTables.ReadChunks | src/encoded_sample.cpp:429-440 | the chunk offsets of an exact stco or co64 box |
| SampleTables.ReadMappings | src/encoded_sample.cpp:440-459 | accepts exactly chunk mappings that start at 1 and rise within the chunks |
| SampleTableTexts.TablesExactly | src/encoded_sample.cpp:357-459 | a table set is read out of boxes exactly when the boxes are that table set written: sizes listed or one for all, runs of durations and offsets, rising sync samples, 32-bit or 64-bit chunk offsets and rising chunk mappings, each box to its last byte |
| SampleLayout.InForceIsLast | src/encoded_sample.cpp:461-466 | the advancing mapping index is the last entry that starts at or before the chunk |
| SampleLayout.MappingIsLast | src/encoded_sample.cpp:440-466 | so for every table set that is read |
| SampleLayout.Samples.constructor | src/encoded_sample.cpp:11-16 | no samples |
| SampleLayout.Samples.Push | src/encoded_sample.cpp:108-203 | a sample is added exactly when it has size and duration, fits the limits, lies in one mdat and can be presented |
| SampleLayout.ExpandChunks | src/encoded_sample.cpp:459-478 | the chunk loop accepts exactly the tables whose chunks hold all samples, each sound, and yields them |
| SampleLayout.Progressive | src/encoded_sample.cpp:357-478 | one track of a progressive file, from its boxes |
| SampleLayout.ExpansionIsTheLayout | src/encoded_sample.cpp:459-478 | as many samples as sizes, decode times the prefix sums, each sample in one mdat, the first of a chunk at the chunk offset and the next ones back to back |
| SampleLayout.ChunkHolds | src/encoded_sample.cpp:461-466 | a chunk adds the sample count of the last entry that starts at or before it |
| SampleLayout.AcceptedExactly | src/encoded_sample.cpp:108-203 | a track is accepted exactly when its chunks hold as many samples as it has sizes, together at most 512 MiB, and each has size and duration, lies in one mdat, has times below 2^63 and, of video, a picture that can be read |
| SegmenterTables.ParseTimingTable | src/cmaf_segmenter.cpp:624-636 | the segmenter's durations |
| SegmenterTables.ParseCompositionOffsets | src/cmaf_segmenter.cpp:638-664 | its composition offsets, cut or padded to the samples |
| SegmenterTables.ParseSyncSamples | src/cmaf_segmenter.cpp:808-829 | its sync flags |
| SegmenterTables.DeriveSampleOffsets | src/cmaf_segmenter.cpp:831-860 | its sample offsets, 64-bit sums included, or the exception |
| SegmenterTables.ParseTrackTables | src/cmaf_segmenter.cpp:868-896 | all its tables of a track |
| SegmenterTables.SameTables | src/cmaf_segmenter.cpp:868-896 | it reads the boxes the LOC reader accepts as the same tables but for composition offsets and sync flags |
| SegmenterTables.SameOffsets | src/cmaf_segmenter.cpp:831-860 | on accepted tables it derives the very same offsets |
| SegmenterTables.SameShiftsExactly | src/cmaf_segmenter.cpp:638-664 | composition offsets agree if and only if the box has version 1 or no offset reaches 2^31 |
| SegmenterTables.SameSyncExactly | src/cmaf_segmenter.cpp:808-829 | sync flags agree if and only if there is a stss box, or the track is not video, or it is empty |
| CmafObject.BuildTrunRangeBox | src/cmaf_segmenter.cpp:942-957 | the trun of a range of samples |
| CmafObject.BuildRemuxedFragmentRange | src/cmaf_segmenter.cpp:1003-1041 | the whole object of a range of samples |
| CmafObject.ObjectParses | src/cmaf_segmenter.cpp:1003-1041 | it parses as the moof and a mdat that holds the samples' bytes |
| Coalesce.VideoGroupStartTimes | src/cmaf_segmenter.cpp:1179-1190 | the times at which video groups begin |
| Coalesce.FindGopStarts | src/cmaf_segmenter.cpp:1222-1250 | where the groups of pictures of a track start |
| Coalesce.MarkedAreStarts | src/cmaf_segmenter.cpp:1222-1250 | starts rise from 0 and are exactly the marked samples |
| Coalesce.PiecesTile | src/cmaf_segmenter.cpp:1252-1258 | the pieces take every sample once, and exactly the starts open one |
| Coalesce.AppendCoalescedFragments | src/cmaf_segmenter.cpp:1205-1286 | the nested loops append exactly the objects of those pieces |
| CoalesceRuns.ObjectsPartition | src/cmaf_segmenter.cpp:1205-1286 | consecutive ids from 0, 1 to 120 samples each, each object taking up where the one before left off |
| CoalesceRuns.ObjectsAddUp | src/cmaf_segmenter.cpp:1252-1286 | the mdat payloads concatenate to the samples and the tick durations sum to the track |
| CoalesceRuns.RandomAccess | src/cmaf_segmenter.cpp:1262-1270 | of video, every sync sample begins an object, and SAP is 2 exactly there and 0 elsewhere; of any other track SAP is 1 |
| CoalesceRuns.AudioFollowsVideo | src/cmaf_segmenter.cpp:1229-1246 | no audio object runs across the start of a video group |
| CoalescePieces.StartsExactly | src/cmaf_segmenter.cpp:1222-1250 | a group of pictures starts exactly at the sync samples of a video track, and of any other at the samples that are the first in a video group |
| CoalescePieces.CutsExactly | src/cmaf_segmenter.cpp:1252-1258 | an object begins with a sample exactly when it is a multiple of 120 behind the start of its group of pictures |
| CoalescePieces.ObjectTimes | src/cmaf_segmenter.cpp:1262-1286 | each object starts with the durations of the samples before it, lasts those of its own, and is first shown when its first sample is, in whole microseconds of 64-bit products |
| FragmentReader.ReadHead | src/encoded_sample.cpp:214-240 | the tfhd fields and defaults, or the exception |
| FragmentReader.ReadTime | src/encoded_sample.cpp:241-246 | the decode time |
| FragmentReader.ReadRun | src/encoded_sample.cpp:249-281 | one trun, sample by sample |
| FragmentFields.HeadExactly | src/encoded_sample.cpp:214-240 | a tfhd gives this track and these defaults exactly when it is written so: fields of the set flags one behind the other, the defaults of the track for the others |
| FragmentFields.TimeExactly | src/encoded_sample.cpp:241-246 | a tfdt gives a time exactly when it is the box of that time |
| FragmentFields.RunExactly | src/encoded_sample.cpp:249-281 | a trun gives these samples exactly when it is written from their entries under any choice of flags, each sample behind the one before in bytes and in time and within the limits |
| FragmentWhole.FragmentExactly | src/encoded_sample.cpp:204-286 | a fragment reads as these samples exactly when its track fragments state them, run behind run and each from where the one before ends, with no box of encrypted or grouped samples |
| FragmentWhole.PairExactly | src/encoded_sample.cpp:573-586 | samples are read out of two byte strings exactly when they are a moof and a mdat of at most 512 MiB and the moof states those samples in that mdat |
| FragmentReader.ReadFragment | src/encoded_sample.cpp:204-286 | one moof |
| FragmentReader.ReadFragmentSamples | src/encoded_sample.cpp:573-586 | a moof and its mdat on their own |
| ReadBack.ObjectReadsBack | src/encoded_sample.cpp:573-586 | the strict reader gets the samples of a coalesced object back exactly |
| ReadBack.CoalescingIsLossless | src/cmaf_segmenter.cpp:1205-1286 | the objects of a track, read one after the other, give the very samples the LOC path reads from the progressive file |
| Decimals.DecimalRoundTrip | src/msf_url.cpp:106-125 | reading a printed number gives it back |
| Decimals.ReadU64 | src/msf_url.cpp:106-125 | accepts exactly the non-empty strings of digits whose number fits 64 bits, and gives that number |
| MsfNamespace.RoundTrip | src/msf_url.cpp:354-424 | decoding inverts encoding for every identifier whose elements are not empty |
| MsfNamespace.Injective | src/msf_url.cpp:354-376 | different identifiers never share an encoding |
| MsfNamespaceForm.DecodesExactly | src/msf_url.cpp:378-424 | a text decodes to an identifier exactly when it spells its elements, none empty, joined by hyphens and with the name behind a double one; a byte is spelled as a letter, digit or underscore, or as a dot and two hexadecimal digits of either case |
| MsfNamespace.EncodeNamespaceName | src/msf_url.cpp:354-376 | the encoding loops |
| MsfNamespace.DecodeNamespaceName | src/msf_url.cpp:378-424 | the decoding loops, or the exception |
| MsfNamespace.DecodeElement | src/msf_url.cpp:46-71 | one element unescaped, or the exception |
| RangeUnion.UnionKeeps | src/msf_url.cpp:207-266 | merging any sorted arrangement covers the same points with strictly separated ranges, and changes nothing that is separated already |
| RangeUnion.MergeKeeps | src/msf_url.cpp:207-266 | merging sorted ranges keeps the covered points |
| RangeUnion.MergeIdentity | src/msf_url.cpp:207-266 | separated ranges are merged already |
| RangeUnion.KeyIsLexicographic | src/msf_url.cpp:168-193 | the line locations are laid on is the lexicographic order of 64-bit pairs |
| RangeUnion.SortByKey | src/msf_url.cpp:207-240 | a sorted permutation |
| RangeUnion.UnionTimeRanges | src/msf_url.cpp:207-231 | `union_time_ranges`: same points, separated, idempotent |
| RangeUnion.UnionLocationRanges | src/msf_url.cpp:233-266 | `union_location_ranges`: the same for locations with open ends |
| MsfUrl.UrlRoundTrip | src/msf_url.cpp:426-550 | a URL is built and parses back as itself if and only if its components are well-formed: no delimiter where the parser would take it for one, no reserved extra name, valid ranges |
| MsfUrl.ParsedIsValid | src/msf_url.cpp:141-205 | whatever is accepted has plain components, and its ranges fit 64 bits and end no earlier than they start |
| MsfUrlForm.UrlExactly | src/msf_url.cpp:426-486 | a text is read as a URL exactly when it is made of a scheme in any mixture of cases, a host, port, path and query, an identifier, and parameters that say its fields: at most one connection and token, ranges that do not end before they start, the other names in order |
| MsfUrlForm.BuildRefusesExactly | src/msf_url.cpp:488-550 | building is refused exactly without a host, with a hash in the host or the path, or with an empty namespace, element or name |
| MsfUrl.ParseMsfUrl | src/msf_url.cpp:426-486 | `parse_msf_url`: the components with each range list replaced by its union |
| MsfUrl.BuildMsfUrl | src/msf_url.cpp:488-550 | the building loops |
| Base64.RoundTrip | src/cmsf_packager.cpp:81-95 | decoding inverts the padded encoder for every credential of 1 to 16384 bytes |
| Base64.UrlRoundTrip | src/cat4moq_dpop.cpp:41-64 | and the unpadded URL-safe one |
| Base64.AcceptedIsCanonical | src/cat4moq.cpp:137-171 | any accepted standard text is the encoding of what it decodes to |
| Base64.DecodingIsInjective | src/cat4moq.cpp:137-171 | standard decoding is injective |
| Base64.DecodeData | src/cat4moq.cpp:137-171 | the accumulator loop |
| Base64.DecodeToken | src/cat4moq.cpp:137-171 | `decode_base64_token` accepts exactly the canonical texts, and decodes them |
| Base64.EncodeStandard | src/cmsf_packager.cpp:81-95 | the padded encoder |
| Base64.EncodeUrlSafe | src/cat4moq_dpop.cpp:41-64 | the URL-safe encoder |

## Left out

- LocmafEncoder.LocmafEncoder.constructor: the defaults read from the init segment are a parameter; parsing that segment is not modelled.
- LocmafRebaseScan.RebaseProperties: not for blocks on which the source never stops (`LocmafRebaseScan.EndlessScan`), nor for those where the wrapped cursor finds a field ahead of the block, since the source then copies a range that ends before it begins.
- LiveMediaRuns.VideoResumesAtKeyframes: for tracks whose first fragment can be told to be video, since the queue takes no other for video until one can; without a gap, which is exactly when it holds (`LiveMediaGaps.ResumesExactly`).
- LiveMediaQueue.LiveMediaQueue.constructor: negative media-duration limits are not modelled.
- CatalogRuns.SubscriberHoldsLast: callers hand over whole catalogs, not ready-made delta lists; version and isComplete are the subject of `CatalogRuns.PublishStaysExact`.
- CatalogDelivery.SubscriberHoldsAsked: under the same conditions.
- CatalogPublisher.CatalogPublisher.Emit: the JSON text, floating-point frame rates and `generatedAt` are not modelled; serialization is a value or a throw.
- ChunkedBodyForm.CompletesExactly: for bytes appended at once; how they may be cut is `ChunkedBodyRuns.SplitIndependentExactly`.
- ChunkedBodyRuns.SplitsAlike: for lines under 8192 bytes; when it holds of other bodies is `ChunkedBodyRuns.SplitIndependentExactly`.
- Mp4Boxes.ParseBoxRange: a declared 64-bit size that would wrap the cursor is not modelled.
- CmafRebaseOffsets.RunNamesSameByte: for results up to 4 GiB and targets outside the edited boxes with no other fragment widening on the way, which `CmafRebaseOffsets.OffsetFollowsExactly` shows is needed.
- CmafRebaseOffsets.AuxiliaryNamesSameByte: under the same conditions.
- TrunNormalizeMoves.SamplesKept: for one moof with compact headers and no stray bytes, up to 4 GiB; the first traf and its first trun are the ones the source rewrites.
- TrunNormalizeFields.SamplesStated: under the same conditions; which moofs are normalized at all is `TrunNormalizeSuccess.NormalizesExactly`.
- TrunNormalizeMoves.AuxiliaryKept: under the same conditions; targets inside the trun, the two rewritten headers and the saio boxes themselves have no byte to keep.
- TrafSplit.SplitKeepsRuns: for a trun with room for the data offset its flags announce and a mfhd that states its size; when the traf itself has no such room (`TrafSplit.PatchableExactly`) the source writes out of bounds, here an exception.
- TrafSplitFields.PartsHoldRuns: under the same conditions; which fragments split at all is `TrafSplitFields.SplitExactly`.
- CoalescePieces.StartsExactly: of tracks other than video, for times in microseconds that never go back, as below the 64-bit wrap (`CoalescePieces.TimesInOrder`).
- BoxWriter.BoxParsesExactly: for boxes up to 4 GiB, since the size field holds 32 bits.
- SampleLayout.Samples.Push: the scan of a video sample's NAL units is a parameter that says refused, IDR or not.
- FragmentReader.ReadFragmentSamples: removing in-band parameter sets that match avcC is not modelled; whether a track is clear and of a supported codec is a flag.
- SegmenterTables.ParseTrackTables: tables must hold the entries they announce, since past their end the source reads out of bounds.
- ReadBack.CoalescingIsLossless: for tables both readers read alike and objects up to 512 MiB, the limit of the fragment reader.
- CoalesceRuns.AudioFollowsVideo: for times in microseconds that never go back, that is below the 64-bit wrap of the conversion.
- DashGroups.SharedGroups: the set of published tracks is fixed, and fragments arrive parsed.
- LoopOffset.TicksIsNearest: for offsets below the 64-bit wrap.
- Threads, locks, sockets, timers and signals: a locked method is one atomic step.
- Signing, tokens other than the credential text, file and stream reading, logging and clocks.
- Codec strings, language tables, SPS, hvcC, avcC and esds fields: flat copying.
- `fragment_timing` and `parse_fragment_samples`: their trun field orders differ from one another.
- `publish_with_failover`, `ReplayableLiveObjectSource`, command-line options and configuration reading.
