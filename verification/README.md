# Focus Vision PCVR: a verified model

Focus Vision PCVR streams SteamVR to a headset. This project models the parts of it that have to be
right for every input and every interleaving, and proves what they promise:

- **Video delivery.** Frames become Reed-Solomon code words (one, or one per slice, or none), wrapped in
  RTP (section 5.1 of RFC 3550) and FVP headers; the network loses, duplicates and reorders packets; the
  reassembler rebuilds frames from the headers alone. `Bytes`, `ErasureCode`, `SliceSplitter`, `FecLayout`,
  `FecEncoder`, `VideoPacket`, `FrameSender` are the sending side, `FrameReassembly` (specification) and
  `FrameReassembler` (mutable classes) the receiving side, `VideoDelivery`, `FrameDelivery`,
  `StreamDelivery`, `LossTolerance` and `ReceiverSafety` the theorems over whole runs. Reed-Solomon is a pair
  of functions with the hypothesis "any d of the n shards determine the data"; the module `XorCode` shows the
  hypothesis can be met.
- **Layer geometry** over exact reals: `Rotations`, `LayerCompose`, `LayerPlacement`, `LayerLookup`.
- **Settings.** `TomlTables` (deep merge), `ConfigLayers` (the engine's layers), `LocalConfig` (typed
  sections in a table with foreign keys), `SettingsCache` (the write-back cache as a state machine),
  `CompanionApp` (the same, updated in place).
- **Log scanners.** `LogText` (spans), `MaskMacs`, `MaskIpv4`, `MaskIpv6`, `MaskPins`, `MaskUserPaths`,
  `MaskEmails`; `MaskForms` spells out what they look for; `MaskedShapes`, `MaskChain` and `MaskSurvivors`
  for the maskers in a row. A text is a sequence of bytes, each written as the char with its code.
- **Session state.** `ControlFraming`, `BitrateController`, `ThermalGovernor`, `LossFeedback`,
  `SessionGuard`, `SwapTextures`.

Code that changes things step by step is a class or a method with loops, proved equal to a function on
values; the theorems are about those functions, over every run.

## Results worth knowing

- `BandwidthEstimator::update` adds two `u32` counts in 32 bits, which wraps in a release build: an interval
  loss above 1 is possible. It is a share exactly if received + lost is at most 2^32
  (`LossFeedback.IntervalLossIsShare`, `LossFeedback.LossAboveOne`).
- The settings cache keeps its promise from exactly the files whose managed keys have their types, if they
  were readable at start or give the defaults (`SettingsCache.GuaranteedExactly`). One key of the wrong type
  makes every section read as its default, so an edit of another section, saved without an error, is not
  what the file gives back (`SettingsCache.IllTypedFileBreaks`). A file that is locked at start, or at a
  reset, leaves every section it holds a value for apart from memory until that section is edited or a
  reset is written (`SettingsCache.RunsStayInStep`, `SettingsCache.ApartUntilTouched`).
- The maskers in a row do not leave a text without personal data. `1.2.3.4aa-bb-cc-dd-ee-ff` keeps its MAC
  address and `1.2.3.4pin=1234` its PIN: the digit before them hides them from `mask_macs` and `mask_pins`,
  and `mask_ipv4` takes the digit away. `a::2.1.2.3.4` keeps `.1.2.3.4`: with the 2 it is five numbers, and
  `mask_ipv6` takes the 2 away (`MaskSurvivors`). `MaskChain.WhatIsLeft`, `MaskChain.PinsOnTheWay` and
  `MaskChain.AddressesLeft` say exactly when.
- `/home/users/bob/` keeps its user name: the scan takes `users` for the name behind `/home/` and passes over
  the marker it starts (`MaskUserPaths.NestedNameIsKept`, `MaskUserPaths.MaskedExactly`).
- A poll without a temperature reading lifts the thermal cap, and the next cool one takes it down again to
  the ramp (`ThermalGovernor.OnlyBlindPollsCapAgain`, `ThermalGovernor.CapsAgain`).
- A frame whose packets mix with those of its neighbours is lost, or delivered again, exactly as its longest
  stretches have enough shards (`StreamDelivery.StreamDelivers`).
- Layer lookups go there and back to the same point; the way back fails exactly for a ray that ends up more
  than 10000 deep, which no field of view with edges within 7000 has (`LayerLookup.LookupRoundTrip`).
- The comment in slice.rs says the remainder bytes go to the first slice; the code gives one each to the
  first slices, and the model follows the code.

## Model

| member | source | states |
|---|---|---|
| FrameDelivery.EndToEnd | rust/streaming-engine/src/pipeline.rs:275-308 | For every frame, redundancy, slicing and starting receiver not holding the frame index, and every arrival sequence (loss, duplicates, reordering, packets that fail the header checks): the receiver emits exactly one frame, the original one (padded to whole shards unless sliced) with its index and keyframe bit, if every code word got as many distinct shards as it has data shards, and nothing otherwise |
| LossTolerance.LossTolerated | rust/streaming-engine/src/pipeline.rs:275-308 | A frame that goes protected comes out, once and intact, exactly if every code word misses at most max(1, ceil(data * redundancy)) of its shards, whatever is lost, repeated, reordered or mixed in with junk |
| LossTolerance.ParityOnTheWire | rust/streaming-engine/src/pipeline.rs:23-52 | On the batches as sent: every packet of a code word announces the batch's size and the same data count, which is ceil(bytes / 1200) for the frame or for the slice and its four bytes of length; a protected word has max(1, ceil(data * redundancy)) parity shards on top, an unprotected one none |
| LossTolerance.DataOnTheWire | rust/streaming-engine/src/pipeline.rs:68-79 | The first packets of a code word carry the frame, or the slice behind its little-endian length, 1200 bytes each in order, the last filled up with zeros |
| LossTolerance.FlagsOnTheWire | rust/streaming-engine/src/pipeline.rs:216-228 | Every packet sent has the keyframe bit in bit 0 and, of a sliced frame, its slice from bit 1 and the slice count from bit 5 on |
| FrameDelivery.SessionDelivers | rust/streaming-engine/src/pipeline.rs:447-522 | Transmissions one after the other, of frames that may come again, each of another index than the one before and each but the last with some packet arrived: exactly those whose code words all got enough shards come out, in order |
| StreamDelivery.StreamDelivers | rust/streaming-engine/src/pipeline.rs:447-522 | Packets of any frames in any order, lost, duplicated and mixed across frames: exactly the frames come out that get enough shards of every code word in one stretch of packets with none of another frame in it, once for each such stretch, in that order |
| StreamDelivery.StretchesAre | rust/streaming-engine/src/pipeline.rs:461-480 | Every stream is cut into stretches that hold its packets in order, each with its own frame, neighbours of different frames |
| FrameDelivery.PosedFrameReads | rust/streaming-engine/src/engine.rs:1446-1460 | A delivered pose-prefixed frame parses to the orientation (if finite) and the NAL data, padded unless sliced |
| FrameDelivery.PacketsOnTheWire | rust/streaming-engine/src/pipeline.rs:82-120 | Every packet sent is 1224 bytes with a valid header, numbered 0..n-1 in its batch and consecutively mod 2^16 across batches, with the marker on exactly the last packet of each batch |
| FrameDelivery.NothingSentExactly | rust/streaming-engine/src/pipeline.rs:189-308 | The encoder sends nothing exactly for an empty frame or an unprotected one of more than 4096 shards |
| FrameDelivery.XorRecoversEveryWord | rust/streaming-engine/fuzz/fuzz_targets/fuzz_fec.rs:70-79 | The recovery hypothesis on the codec is satisfiable: the one-parity XOR code meets it at redundancy 0 |
| FrameDelivery.RebuildsContent | rust/streaming-engine/src/pipeline.rs:423-444 | A code word's data shards give back the slice behind its length prefix, or the padded frame |
| VideoDelivery.ReceiverDelivers | rust/streaming-engine/src/pipeline.rs:454-522 | A receiver fed any arrivals of a well-sent frame emits it exactly once if every code word got enough shards, nothing otherwise; it then holds exactly the distinct shards that arrived, or is as before if none did |
| VideoDelivery.PendingHoldsStep | rust/streaming-engine/src/pipeline.rs:482-519 | One packet more: every group holds exactly the distinct shards that arrived for it and is decoded exactly once it has enough |
| FrameReassembly.FeedKeepsOk | rust/streaming-engine/src/pipeline.rs:454-522 | Every packet, malformed or conflicting, keeps the receiver invariant: max(1, slice_count) groups, received = stored shards, one shard length, data <= total <= 4096, an undecided group short of its data count |
| FrameReassembler.ShardGroup.Accept | rust/streaming-engine/src/pipeline.rs:400-420 | Stores a shard exactly if it fits the group's counts and length and is new; the whole new group state |
| FrameReassembler.ShardGroup.Reconstruct | rust/streaming-engine/src/pipeline.rs:423-444 | The group's data from its shards, decoding only if a data shard is missing; nothing if decoding or the length prefix fails |
| FrameReassembler.PendingFrame.AddShard | rust/streaming-engine/src/pipeline.rs:484-507 | One screened packet in its group: stored, and decoded or failed for good once enough shards are there |
| FrameReassembler.PendingFrame.DeliverIfComplete | rust/streaming-engine/src/pipeline.rs:508-521 | Takes the groups' data in order exactly if all are decoded |
| FrameReassembler.Reassembler.Feed | rust/streaming-engine/src/pipeline.rs:454-522 | The mutable receiver's state and result are those of the specification for every packet, with no index out of range |
| ReceiverSafety.AtMostOnePerRun | rust/streaming-engine/src/pipeline.rs:454-522 | A maximal run of valid packets with one frame index yields at most one frame, none if it was delivered before |
| ReceiverSafety.EmitsOnlyWithEnough | rust/streaming-engine/src/pipeline.rs:454-522 | For any packets at all, valid, malformed or conflicting: when a frame comes out, every group under the slice count of the run's first valid packet got at least as many distinct shards as the group's first packet names data shards, all with that packet's counts and shard length |
| ReceiverSafety.RunBacked | rust/streaming-engine/src/pipeline.rs:400-420 | After any packets of a run the receiver's slice count is that of the first valid one, each group's counts and shard length are those of the group's first packet, and an undecided group holds exactly the shards that fit it |
| ReceiverSafety.DataShardsDecide | rust/streaming-engine/src/pipeline.rs:423-444 | The shard that completes a group's data shards makes it the data, or of a slice the bytes its length says; a length past the end fails the group |
| ReceiverSafety.FailedNeverDelivers | rust/streaming-engine/src/pipeline.rs:484-507 | A frame with a code word that could not be decoded never comes out, whatever else arrives for it |
| FrameReassembly.ScreenedExactly | rust/streaming-engine/src/pipeline.rs:454-467 | By its bytes: a packet is let in exactly if it has a byte behind the headers, 1 to 4096 shards with 1 to all of them data, and a shard and slice number below their counts |
| FrameSender.FrameFecEncoder.Encode | rust/streaming-engine/src/pipeline.rs:275-308 | Returns the numbered batches of the frame's code words and advances the sequence number by the packets made; what those batches hold, parity included, is LossTolerance.ParityOnTheWire and DataOnTheWire |
| FrameSender.FrameFecEncoder.SetRedundancy | rust/streaming-engine/src/pipeline.rs:265-273 | All encoders, bulk and slices, work at one clamped redundancy afterwards |
| FrameSender.EncodeFrameWithoutFec | rust/streaming-engine/src/pipeline.rs:55-66 | One batch of plain shards, none for an empty frame or above 4096 |
| FrameSender.EncodeFrameToPacketsWithFec | rust/streaming-engine/src/pipeline.rs:23-52 | The frame as one code word with its parity (LossTolerance.ParityOnTheWire), unprotected only if the encoder fails |
| FrameSender.EffectiveSlices | rust/streaming-engine/src/pipeline.rs:188-193 | The largest slice count that is neither more than asked for, nor 15, nor more than the frame has bytes |
| FrameSender.EncodeFrameSliced | rust/streaming-engine/src/pipeline.rs:181-237 | One batch per slice with its length in front, or nothing if a slice cannot be encoded; the sequence number and the buffer pool afterwards, with the buffers of a dropped frame back in it |
| FrameSender.EncodeSlice | rust/streaming-engine/src/pipeline.rs:203-232 | One slice's shards encoded and wrapped, or nothing and no sequence number used |
| FrameSender.EncodersNeverFail | rust/streaming-engine/src/pipeline.rs:189-308 | At any redundancy with room for one data shard, no layout chosen reaches an encoder failure, sliced or bulk |
| FrameSender.DataShards | rust/streaming-engine/src/pipeline.rs:68-79 | The shards hold the data followed by zeros, ceil(len / 1200) of them, each 1200 bytes |
| FrameSender.UnslicedFrame | rust/streaming-engine/src/pipeline.rs:299-308 | An unsliced frame is one code word of its padded shards, sent unless receivers would refuse it |
| FrameSender.SlicedFrame | rust/streaming-engine/src/pipeline.rs:286-298 | A frame that the layout slices is sent with the code words of all its slices |
| FrameDelivery.FrameWordsGood | rust/streaming-engine/src/pipeline.rs:68-120 | Every code word of a frame has the layout's slice count, its own slice number and the keyframe bit in its flags, and any data-count of its shards rebuild the slice behind its length prefix, or the padded frame |
| FecLayout.LayoutRule | rust/streaming-engine/src/pipeline.rs:154-170 | In numbers: with slicing on, a frame of 16384 bytes or more gets the first count that fits from the configured one (0 as 1, above 15 as 15) up to 15; any other is bulk exactly if one code word holds it, else gets the first count that fits from 1; none fitting goes unprotected |
| FecLayout.ConfiguredCountUsed | rust/streaming-engine/src/pipeline.rs:154-170 | Hence a configured count that fits is the one used |
| FecLayout.LayoutClosedForm | rust/streaming-engine/src/pipeline.rs:154-170 | Closed form of the layout for every length: Unprotected exactly above 15*(1200*max - 4) bytes, and the slice count chosen |
| FecLayout.SlicedIsLeastFit | rust/streaming-engine/src/pipeline.rs:154-170 | Sliced(n): every slice with its prefix fits one code word, and no smaller allowed count does |
| FecLayout.FitsExactly | rust/streaming-engine/src/pipeline.rs:141-143 | n slices fit exactly if the frame is at most n times what one code word carries |
| FecEncoding.MaxDataShardsExact | rust/streaming-engine/src/transport/fec.rs:130-136 | A data count fits 256 shards with its parity exactly if it is at most max_data_shards, at every redundancy |
| FecEncoding.ParityIsLeast | rust/streaming-engine/src/transport/fec.rs:123-125 | The parity count is the least positive one that covers the share of the data the redundancy asks for |
| FecEncoding.FecEncoder.Encode | rust/streaming-engine/src/transport/fec.rs:33-72 | The cached instance never shows: the result is a fresh encode of the data, with the same errors |
| FecEncoding.FecEncoder.SetRedundancy | rust/streaming-engine/src/transport/fec.rs:110-117 | Clamped to 0..1; a change below epsilon is ignored |
| FecEncoding.RedundancyFollows | rust/streaming-engine/src/transport/fec.rs:110-117 | Afterwards the redundancy is the one asked for, brought into 0..1, but for at most 2^-23 |
| SliceSplitter.Split | rust/streaming-engine/src/transport/slice.rs:8-36 | The slices of the specification, for every length and count |
| SliceSplitter.SlicesConcatenate | rust/streaming-engine/fuzz/fuzz_targets/fuzz_slice.rs:26-31 | The slices concatenate to the frame |
| SliceSplitter.FirstSliceLargest | rust/streaming-engine/src/pipeline.rs:165-166 | The first slice is a largest one, of ceil(len / count) bytes |
| SliceSplitter.SliceLengths | rust/streaming-engine/src/transport/slice.rs:8-36 | Slice i has len / count bytes, and one more if i is below len mod count |
| XorCode.XorRecovers | rust/streaming-engine/fuzz/fuzz_targets/fuzz_fec.rs:70-79 | The XOR code recovers the data from any d of d + 1 shards |
| VideoPacket.FlagsRoundTrip | rust/common/src/protocol.rs:229-263 | Every flag field reads back what was encoded, masked to its width: slice values mod 16, the stream id mod 4 |
| VideoPacket.HeaderWritesBack | rust/streaming-engine/src/transport/rtp.rs:79-92 | Writing the header read from any packet gives the packet's header bytes again |
| VideoPacket.PacketReadsBack | rust/streaming-engine/src/transport/rtp.rs:30-45 | A receiver reads back the header and the shard |
| VideoPacket.RtpPacketizer.NextSequence | rust/streaming-engine/src/transport/rtp.rs:180-184 | Hands out consecutive sequence numbers mod 2^16 |
| VideoPacket.RtpPacketizer.TakeBuf | rust/streaming-engine/src/transport/rtp.rs:115-124 | The latest buffer of the pool, emptied, or a new one; the pool is one shorter |
| VideoPacket.ShardsToPackets | rust/streaming-engine/src/pipeline.rs:82-120 | One packet per shard in order, each in a buffer of the pool while there is one; none and no sequence number used above 4096 |
| VideoPacket.BatchPacket | rust/streaming-engine/src/pipeline.rs:82-120 | What a receiver reads of packet i of a batch: indices, counts, flags, marker, sequence number |
| VideoPacket.RtpPart | rust/streaming-engine/src/transport/rtp.rs:30-45 | Bytes 0 to 11 of a packet: 0x80, the marker and 97, the sequence number, the timestamp and the SSRC in network order (section 5.1 of RFC 3550) |
| VideoPacket.FvpPart | rust/streaming-engine/src/transport/rtp.rs:79-92 | Bytes 12 to 23: frame index, shard, shard count, flags and data count, little-endian |
| VideoPacket.SequenceSteps | rust/streaming-engine/src/transport/rtp.rs:180-184 | One packet after the other is numbered one higher, and 0 comes after 65535 |
| FramePose.PoseRoundTrip | rust/common/src/protocol.rs:161-197 | Parsing an encoded pose prefix gives the orientation if all four numbers are finite, none otherwise, and the data behind it |
| FramePose.FiniteExactly | rust/common/src/protocol.rs:161-197 | A bit pattern is finite exactly if its exponent is not 255 |
| FramePose.IdentityIsReadable | rust/common/src/protocol.rs:161-197 | The identity orientation comes through, one with an infinite component does not |
| FramePose.PosedExactly | rust/common/src/protocol.rs:161-197 | A frame is read as posed exactly if it has 20 bytes and starts with F, P and version 1; the data is what follows them |
| LayerCompose.RotationOf | driver/src/layer_compose.h:46-60 | Copies the 3x3 part and says whether its rows are orthonormal within 1e-2 and its determinant positive |
| LayerCompose.RadicandAtLeastOne | driver/src/layer_compose.h:69-94 | Every branch takes the root of at least one, for every matrix |
| LayerCompose.Divisor | driver/src/layer_compose.h:69-94 | The divisor of every branch is at least two, for every matrix |
| LayerCompose.QuaternionOf | driver/src/layer_compose.h:68-94 | The four branches fill x, y, z, w of the specified quaternion |
| LayerCompose.OrientationOf | driver/src/layer_compose.h:65-96 | True exactly for a rotation, with its quaternion; false leaves the output as it was |
| LayerCompose.OrientationIsExact | driver/src/layer_compose.h:65-96 | For every exact rotation the result is a unit quaternion whose rotation matrix is the input |
| Rotations.ColumnsOrthonormal | driver/src/layer_compose.h:43-60 | Orthonormal rows of a rotation give orthonormal columns |
| Rotations.TransposeIsInverse | driver/src/layer_compose.h:104-117 | The transpose of an exact rotation is its inverse on both sides |
| Rotations.RotationDetIsOne | driver/src/layer_compose.h:56-59 | The determinant of an exact rotation is one |
| Rotations.RotationKeepsNorm | driver/src/layer_compose.h:127-131 | A turn keeps lengths |
| LayerPlacement.Turn | driver/src/layer_compose.h:111-121 | R_layer^T R_scene, snapped to the identity exactly if every entry is within 1e-5 of it |
| LayerPlacement.Place | driver/src/layer_compose.h:106-122 | Not rotated for an unusable pose, else the snapped turn |
| LayerPlacement.PlacementsInvert | driver/src/layer_compose.h:106-122 | For exact rotations, placing in the two directions gives transposes that undo each other, snapped or not |
| LayerPlacement.PlacementsCompose | driver/src/layer_compose.h:106-122 | b over a then c over b turns like c over a: exactly if none is snapped, within 7e-5 in every entry always |
| LayerPlacement.RelativeComposes | driver/src/layer_compose.h:104-117 | The unsnapped turns compose exactly |
| LayerPlacement.SameDirection | driver/src/layer_compose.h:104-117 | What points somewhere in the world as seen by the scene's head does so, turned, as seen by the layer's |
| LayerLookup.LayerPoint | driver/src/layer_compose.h:127-137 | The point the turned ray goes through, unset behind the eye plane; true exactly if on the image |
| LayerLookup.LookupRoundTrip | driver/src/layer_compose.h:127-137 | There and back gives the same (x, y) whenever the second lookup succeeds, and it fails exactly for a ray ending up more than 10000 deep |
| LayerLookup.LookupAlwaysReturns | driver/src/layer_compose.h:127-137 | With edges at most 7000 out, every on-image point that the layer sees comes back to itself |
| LayerLookup.ImageEdges | driver/src/layer_compose.h:127-137 | (0, 0) is the eye's left and top edge and (1, 1) its right and bottom one |
| TomlTables.MergeTables | rust/companion-app/src/config.rs:272-283 | The loop over keys, recursive into tables, computes the specified merge |
| TomlTables.MergeKey | rust/companion-app/src/config.rs:274-281 | One key: a table merges into a table, anything else replaces |
| TomlTables.OverlayWins | rust/streaming-engine/src/config.rs:536-547 | A leaf path the overlay sets has the overlay's value |
| TomlTables.BaseKept | rust/streaming-engine/src/config.rs:536-547 | A path the overlay does not touch leads where the base's does |
| TomlTables.MergeTwice | rust/streaming-engine/src/config.rs:536-547 | Merging the same overlay again changes nothing |
| ConfigLayers.LoadLayered | rust/streaming-engine/src/config.rs:574-619 | Over the files: there is a table with a leaf at a path exactly if the last usable file that touches the path sets it; if it deserializes that is the config and the usable files, in order, are the applied ones; else the base alone is used exactly if it deserializes; else the defaults, with nothing applied |
| ConfigLayers.LastDefinerWins | rust/streaming-engine/src/config.rs:564-603 | A path of the stacked layers leads to a leaf exactly if that leaf was set by a layer that no later one touches there |
| LocalConfig.SaveTo | rust/companion-app/src/config.rs:181-187 | Merges the given sections into the existing table; nothing written if the file cannot be read, backed up or written |
| LocalConfig.ClearTable | rust/companion-app/src/config.rs:220-232 | Removes managed keys, and managed sections that leaves empty, key by key |
| LocalConfig.ClearFrom | rust/companion-app/src/config.rs:217-234 | The cleared file, or nothing written |
| LocalConfig.ClearIsExact | rust/companion-app/src/config.rs:217-234 | Exactly the managed keys are gone: every other path leads where it led |
| LocalConfig.ClearLeavesNoEmptySection | rust/companion-app/src/config.rs:217-234 | No managed section is left as an empty table, and one is removed only if it held nothing but managed keys |
| LocalConfig.ClearThenLoad | rust/companion-app/src/config.rs:189-195 | After clearing, loading gives the defaults, whatever the table held |
| LocalConfig.SaveThenLoad | rust/companion-app/src/config.rs:181-187 | After a save the file loads exactly if every section not saved had its types, and then gives the saved sections and the others unchanged |
| LocalConfig.SaveKeepsForeign | rust/companion-app/src/config.rs:174-187 | A save leaves every key the companion does not manage where it was |
| LocalConfig.ManagedIsSound | rust/companion-app/src/config.rs:8-114 | The defaults of the ten managed keys have the types they are read with |
| LocalConfig.ReadExactly | rust/companion-app/src/config.rs:8-114 | Which values a field of each kind takes: a count is an integer of 32 bits, an integer will do for a fraction, nothing else converts |
| SettingsCache.RunsStayInStep | rust/companion-app/src/main.rs:348-394 | Over every run of edits, flushes and resets with any disk failures, from any file that loads, read at start or not: of the sections with nothing pending, exactly those are not in the file as in memory that were not default in the file when it could not be read at start or be written at the latest reset, and were not edited since; a save is due exactly if something is pending |
| SettingsCache.ApartUntilTouched | rust/companion-app/src/ui/settings.rs:398-418 | Such a section stays so, with the old value in the file, until it is edited or a reset is written: no flush mends it |
| SettingsCache.RunsKeepForeign | rust/companion-app/src/config.rs:174-233 | Over every run from any file, every key the companion does not manage stays as it was |
| SettingsCache.NeverForgotten | rust/companion-app/src/main.rs:369-394 | A pending section stops being pending only by being written as it is in memory, or by a reset |
| SettingsCache.FlushOutcome | rust/companion-app/src/main.rs:235-237 | A flush that can write settles everything but the sections apart; one that cannot is due again exactly from five seconds later |
| SettingsCache.Debounced | rust/companion-app/src/main.rs:356-360 | A tick less than half a second after a change leaves it waiting; from then on it is flushed |
| SettingsCache.FlushLogs | rust/companion-app/src/main.rs:369-394 | A flush that writes tells of the recovery if the one before failed, then the waiting notes; one that fails says so unless the one before failed too |
| SettingsCache.FailuresKeepAll | rust/companion-app/src/main.rs:369-394 | However often a flush fails, settings, file and waiting changes stay, and the failure is told once |
| SettingsCache.ResetSays | rust/companion-app/src/ui/settings.rs:398-418 | A reset always takes in memory, leaves nothing waiting, and tells whether the file was cleared |
| SettingsCache.IllTypedFileBreaks | rust/companion-app/src/config.rs:150-161 | From every file with a managed key of the wrong type some edit, saved without an error, is not what the file gives back |
| SettingsCache.GuaranteedExactly | rust/companion-app/src/config.rs:142-163 | Memory and file stay together over every run of edits, saves, failed saves and written resets exactly from the starts where the file loads, and was readable or gives the defaults |
| CompanionApp.Companion.MarkConfigDirty | rust/companion-app/src/main.rs:348-354 | The latest note of each section, last; the time of the change |
| CompanionApp.Companion.FlushConfigIfDue | rust/companion-app/src/main.rs:356-360 | Flushes exactly when the last change is at least half a second old |
| CompanionApp.Companion.FlushConfig | rust/companion-app/src/main.rs:369-394 | The whole state after a successful, failed or empty flush, log included |
| CompanionApp.Companion.ResetToDefaults | rust/companion-app/src/ui/settings.rs:398-418 | Defaults in memory and on screen, nothing pending, the managed keys out of the file if it can be written |
| LogText.ReplaceSpans | rust/companion-app/src/export.rs:29-42 | The loop computes the text with every span replaced |
| LogText.KeptOutside | rust/companion-app/src/export.rs:29-42 | Every byte outside the spans is in the output, moved only by the masks before it |
| MaskMacs.MacSpans | rust/companion-app/src/export.rs:223-246 | The scan's spans, by the loop |
| MaskMacs.NoneMissed | rust/companion-app/src/export.rs:223-246 | No address starts outside the spans |
| MaskMacs.NoMacLeft | rust/companion-app/src/export.rs:223-246 | The output holds no MAC address |
| MaskMacs.MaskMacsTwice | rust/companion-app/src/export.rs:223-246 | Masking twice masks no more |
| MaskIpv4.QuadSpans | rust/companion-app/src/export.rs:253-290 | The spans of runs that are quads, by the nested loops |
| MaskIpv4.SpansAreQuads | rust/companion-app/src/export.rs:253-290 | Spans are in order, apart, in bounds, each the four numbers of a whole run of digits and dots |
| MaskIpv4.QuadsAreSpans | rust/companion-app/src/export.rs:253-290 | Every run that is a dotted quad has its span |
| MaskIpv4.NoQuadLeft | rust/companion-app/src/export.rs:253-290 | No run of digits and dots in the output is a dotted quad |
| MaskIpv4.MaskIpv4Twice | rust/companion-app/src/export.rs:253-290 | Masking twice masks no more |
| MaskForms.QuadExactly | rust/companion-app/src/export.rs:253-290 | Four numbers with single dots between them are a quad exactly if each is an octet |
| MaskForms.OctetExactly | rust/companion-app/src/export.rs:253-290 | A number is an octet exactly if it has one or two digits, or three that are at most 255 |
| MaskIpv6.Ipv6Spans | rust/companion-app/src/export.rs:295-329 | In order, apart, and exactly the trimmed runs that look like an address and touch no word |
| MaskIpv6.MaskIpv6 | rust/companion-app/src/export.rs:295-329 | The output is the text with exactly those spans replaced |
| MaskIpv6.NoV6Left | rust/companion-app/src/export.rs:295-329 | The output holds no colon-hex address |
| MaskForms.FullForm | rust/companion-app/src/export.rs:331-346 | Groups joined by colons are an address exactly if there are eight, each of one to four digits |
| MaskForms.CompressedForm | rust/companion-app/src/export.rs:331-346 | With a double colon between two lists of groups it is one exactly if they are two at least, at most nine with the gap, and none is longer than four |
| MaskChain.AddressesLeft | rust/companion-app/src/export.rs:23-26 | After mask_macs, mask_ipv4 and mask_ipv6 the text holds a dotted quad, or a MAC address, exactly if masking the colon-hex addresses exposes one, and a MAC address only if masking the quads exposed one |
| MaskChain.WhatIsLeft | rust/companion-app/src/export.rs:17-27 | The text after all maskers holds no colon-hex address, and a PIN, an e-mail address, a MAC address or a dotted quad exactly if masking the colon-hex addresses exposes one |
| MaskChain.PinsOnTheWay | rust/companion-app/src/export.rs:19-25 | No PIN is left after mask_pins, and each later masker up to mask_ipv4 leaves one exactly if masking its spans exposes one |
| MaskChain.EmailsOnTheWay | rust/companion-app/src/export.rs:21-25 | The same for e-mail addresses from mask_emails on |
| MaskedShapes.HoldsExactly | rust/companion-app/src/export.rs:31-46 | A text with spans masked holds a shape that no neighbour continues exactly if the spans leave such a stretch whole and mask whatever continued it |
| MaskSurvivors.MacBehindQuadSurvives | rust/companion-app/src/export.rs:223-290 | Every text that is a quad of digits with a dashed MAC address right behind it still holds the address after the address maskers |
| MaskSurvivors.QuadOfFiveSurvives | rust/companion-app/src/export.rs:253-329 | Every run of five digits whose first ends a compressed colon-hex address still holds a quad after the address maskers |
| MaskSurvivors.PinBehindQuadSurvives | rust/companion-app/src/export.rs:51-130 | Every short text that is a quad of digits with a key and its PIN right behind it still holds the PIN after all maskers |
| MaskPins.KeyValueStarts | rust/companion-app/src/export.rs:51-78 | The value starts of the scan, by the loops |
| MaskPins.StartsExactly | rust/companion-app/src/export.rs:51-78 | A position is among them exactly if a whole-word key with a : or = stands before it, anywhere in the text |
| MaskPins.PinsExactly | rust/companion-app/src/export.rs:115-130 | A span is masked exactly if it is the PIN of some key in the text |
| MaskPins.PinsApart | rust/companion-app/src/export.rs:115-130 | The PIN spans are in order, apart and in bounds, as no key starts among a PIN's digits |
| MaskPins.MaskPins | rust/companion-app/src/export.rs:115-130 | The output is the text with the PIN spans replaced |
| MaskPins.NoPinLeft | rust/companion-app/src/export.rs:115-130 | The output holds no PIN behind a whole-word key |
| MaskForms.PinExactly | rust/companion-app/src/export.rs:115-130 | Digits at a value are a PIN exactly if they are four to eight with no word byte behind them, in quotes or not |
| MaskUserPaths.UserSpans | rust/companion-app/src/export.rs:134-177 | The scan's spans, by the loops |
| MaskUserPaths.SpansAreNames | rust/companion-app/src/export.rs:134-177 | Spans are in order, apart, each a whole name after a users or home marker |
| MaskUserPaths.MaskedExactly | rust/companion-app/src/export.rs:134-177 | The name behind a marker, anywhere in the text, is masked exactly if it is there, not masked yet, and the marker is taken: no taken marker before it has it in the separators behind its word |
| MaskUserPaths.KeptExactly | rust/companion-app/src/export.rs:134-177 | Every byte of a marker's name is outside all spans exactly if that name is not masked |
| MaskUserPaths.NestedNameIsKept | rust/companion-app/src/export.rs:134-177 | In /home/users/bob/ the name bob is exposed and kept |
| MaskEmails.EmailSpans | rust/companion-app/src/export.rs:181-219 | The scan's spans, by the loops |
| MaskEmails.SpansAreAddresses | rust/companion-app/src/export.rs:181-219 | Spans are in order, apart, each a local part, an @ and a whole domain with a top level |
| MaskEmails.NoneMissed | rust/companion-app/src/export.rs:181-219 | An @ no span covers has no address around it that starts after the span before it |
| MaskEmails.NoEmailLeft | rust/companion-app/src/export.rs:181-219 | The output holds no e-mail address |
| MaskForms.TldExactly | rust/companion-app/src/export.rs:181-219 | A domain counts exactly if its last label is two letters or more and something stands before its dot |
| ControlFraming.ControlReader.TakeControlMessage | rust/streaming-engine/src/engine.rs:576-594 | The next message past empty frames, or why there is none, and the inbox after it; ends on any inbox |
| ControlFraming.ControlReader.OnRead | rust/streaming-engine/src/engine.rs:634-658 | After a read: the messages of inbox and chunk together, and less than 4 + 65536 bytes left unless the stream failed |
| ControlFraming.AnyCutting | rust/streaming-engine/src/engine.rs:634-658 | However a stream is cut into reads, its messages and its error are those of parsing it whole |
| ControlFraming.ParseMore | rust/streaming-engine/src/engine.rs:576-594 | Parsing goes on from what parsing a first part leaves |
| ControlFraming.FrameReadsBack | rust/streaming-engine/src/engine.rs:614-623 | A frame as sent reads back as its message exactly if it is at most 65536 bytes, whatever the 32-bit length wraps to; as too long if the length fits in 32 bits |
| ControlFraming.EmptyFramesPassedOver | rust/streaming-engine/src/engine.rs:576-594 | A stream parses to the same without an empty frame in front |
| ControlFraming.SentArrives | rust/streaming-engine/src/engine.rs:614-623 | Sent frames arrive whole and in order however the transport cuts them |
| BitrateController.TargetFallsWithWorseSignals | rust/streaming-engine/src/adaptive/bitrate_controller.rs:55-111 | With the loss pattern fixed, the target never rises with more loss or delay |
| BitrateController.TargetRisesWithRateAndCeiling | rust/streaming-engine/src/adaptive/bitrate_controller.rs:55-124 | The target never falls with a higher current rate or thermal ceiling |
| BitrateController.AlwaysSafe | rust/streaming-engine/src/adaptive/bitrate_controller.rs:179-297 | Over every call sequence: 10 Mbps <= rate <= setting <= 200 Mbps, and rate <= max(10 Mbps, ceiling) |
| BitrateController.RaisesExactlyWhenClean | rust/streaming-engine/src/adaptive/bitrate_controller.rs:94-98 | An adjustment raises the rate exactly if signals are clean, ten seconds passed and there is room |
| BitrateController.CleanStep | rust/streaming-engine/src/adaptive/bitrate_controller.rs:226-258 | A clean adjustment adds at least 500 kbps or lands on the effective ceiling |
| BitrateController.RecoversIn62 | rust/streaming-engine/src/adaptive/bitrate_controller.rs:226-258 | From any rate, 62 clean adjustments reach a fixed effective ceiling, and more stay there |
| BitrateController.AdjustsByShare | rust/streaming-engine/src/adaptive/bitrate_controller.rs:55-124 | The new rate in numbers: max(10 Mbps, min(rate * p / 100, setting, ceiling)) with p 80 for a sustained pattern or loss above 0.05, else 90 for a gradient above 2, else 95 for loss above 0.02, 105 for clean signals after ten seconds; a burst keeps the rate |
| BitrateController.SettingsApply | rust/streaming-engine/src/adaptive/bitrate_controller.rs:212-297 | What the other calls do to rate, setting and ceiling, in numbers |
| BitrateController.HeavyLossShrinks | rust/streaming-engine/src/adaptive/bitrate_controller.rs:55-91 | n adjustments under heavy loss take the rate to its n-fold cut by a fifth, or the floor |
| BitrateController.FallsIn14 | rust/streaming-engine/src/adaptive/bitrate_controller.rs:55-91 | From any rate, 14 adjustments in a row under heavy loss end at 10 Mbps |
| BitrateController.Controller.SetSettingMbps | rust/streaming-engine/src/adaptive/bitrate_controller.rs:212-216 | The setting and the rate under the thermal ceiling, in bounds |
| BitrateController.Controller.AdjustTo | rust/streaming-engine/src/adaptive/bitrate_controller.rs:226-258 | The whole new state, and whether the rate changed |
| BitrateController.Controller.SetThermalCeilingBps | rust/streaming-engine/src/adaptive/bitrate_controller.rs:280-291 | The ceiling applies to the live rate at once |
| BitrateController.Controller.ClearThermalCeiling | rust/streaming-engine/src/adaptive/bitrate_controller.rs:295-297 | The rate stays where it is |
| ThermalGovernor.Governor.TickAt | rust/streaming-engine/src/thermal.rs:96-165 | The whole new state, nothing on a skipped poll |
| ThermalGovernor.AlwaysSane | rust/streaming-engine/src/thermal.rs:96-165 | Over every run the multiplier lies between 0.5 and 1 |
| ThermalGovernor.Stages | rust/streaming-engine/src/thermal.rs:119-160 | Emergency 0.5, limit 0.7, the warning zone holds the cap; below it the cap goes down exactly if a ramp in flight is lower, and a poll that starts a ramp holds it |
| ThermalGovernor.OnlyBlindPollsCapAgain | rust/streaming-engine/src/thermal.rs:111-117 | After every run whose clock never goes back, a cool poll lowers the cap exactly if the poll before it found no reading, a ramp was in flight and it is not over yet |
| ThermalGovernor.CapsAgain | rust/streaming-engine/src/thermal.rs:111-117 | It happens: with the initial thresholds, readings 95, 50, none and 50 five seconds apart end at 1 and then at 2/3 |
| ThermalGovernor.StreakFollowsRamp | rust/streaming-engine/src/thermal.rs:137-160 | From every state, with a ramp in flight or not, over every streak of cool polls the multiplier is at the latest poll start + (1 - start)*min(1, t / recovery) of the ramp in flight, or of one that starts then, and never goes down after the first |
| ThermalGovernor.RecoveryEnds | rust/streaming-engine/src/thermal.rs:146-156 | In every such streak it is exactly 1, with no ramp left, from the first poll at or after the recovery time |
| ThermalGovernor.RampIsLinear | rust/streaming-engine/src/thermal.rs:137-160 | Before its time is up a ramp has gone the share of the way from its start to 1 that has passed of it |
| ThermalGovernor.WhenPolled | rust/streaming-engine/src/thermal.rs:96-118 | Switched off: no cap, no ramp. A poll before the interval is over changes nothing; a poll without a reading lifts the cap and keeps the ramp |
| LossFeedback.BandwidthEstimator.Update | rust/streaming-engine/src/adaptive/bandwidth_estimator.rs:35-53 | The smoothed loss after a report, with the 32-bit total wrapping, and the smoothed round-trip time |
| LossFeedback.AdaptiveState.OnHeartbeat | rust/streaming-engine/src/engine.rs:1187-1201 | The pending counts added up, saturating |
| LossFeedback.AdaptiveState.Tick | rust/streaming-engine/src/engine.rs:1226-1228 | The pending counts go to the estimator once |
| LossFeedback.CountsConserved | rust/streaming-engine/src/engine.rs:1185-1228 | Counts given to the estimator plus pending ones never exceed those heard, and equal them exactly if no pending sum saturates |
| LossFeedback.IntervalLossIsShare | rust/streaming-engine/src/adaptive/bandwidth_estimator.rs:35-41 | An interval's loss is at most 1 exactly if received + lost is at most 2^32 |
| LossFeedback.LossAboveOne | rust/streaming-engine/src/adaptive/bandwidth_estimator.rs:35-41 | A heartbeat whose counts wrap gives a smoothed loss of 2 |
| LossFeedback.SmoothedLossBetween | rust/streaming-engine/src/adaptive/bandwidth_estimator.rs:42-50 | The smoothed loss lies between the smallest and largest interval loss |
| LossFeedback.SmoothedLossIsShare | rust/streaming-engine/src/adaptive/bandwidth_estimator.rs:35-50 | Hence in [0, 1] while no interval's counts pass 2^32 together |
| LossFeedback.ReportCounts | rust/streaming-engine/src/adaptive/bandwidth_estimator.rs:35-50 | A report takes the estimate three tenths of the way, or all of it the first time, to x with x * (received + lost) = lost, the sum taken mod 2^32 |
| LossFeedback.TickCounts | rust/streaming-engine/src/engine.rs:1226-1228 | A tick does that once with the pending counts, and nothing without any |
| LossFeedback.HeartbeatsAdd | rust/streaming-engine/src/engine.rs:1187-1201 | Heartbeats between ticks add up, each count to 2^32 - 1 at most |
| LossFeedback.SteadyLoss | rust/streaming-engine/src/adaptive/bandwidth_estimator.rs:35-50 | Intervals that all lose the share p give exactly p |
| SessionGuard.EmptyBetweenSessions | rust/streaming-engine/src/engine.rs:1649-1688 | In every interleaving of any number of receiver threads with sessions, the inputs are empty from the end of a clear until the next authorize |
| SessionGuard.OnlyThePeerStores | rust/streaming-engine/src/tracking/receiver.rs:88-140 | Whatever is stored comes from the peer authorized at that moment, during its session |
| SessionGuard.UnlockedStoreLeaks | rust/streaming-engine/src/engine.rs:1680-1687 | If packets were stored after the read lock is given up, a run from the start would end with a pose stored, no peer and no session |
| SessionGuard.SessionCanEnd | rust/streaming-engine/src/engine.rs:1649-1688 | From every point of every run there are steps that end the session with the peer revoked and the inputs empty: no thread blocks it for good |
| SessionGuard.PeerIsHeard | rust/streaming-engine/src/tracking/receiver.rs:88-140 | In a session a waiting receiver can take the paired headset's packet through, and exactly its slot changes |
| SessionGuard.StrangersAreNotHeard | rust/streaming-engine/src/tracking/receiver.rs:88-107 | A packet from anyone else is dropped at the check and changes nothing |
| SessionGuard.StoredInItsSlot | rust/streaming-engine/src/tracking/receiver.rs:115-135 | Head pose, first and second controller go to their own slot; other packets and other slots to none |
| SwapTextures.SwapTextureSets.Create | driver/src/swap_textures.cpp:7-64 | A set of three textures at index 0 and its handles in order, or none if the device fails for one; its number is used up either way |
| SwapTextures.SwapTextureSets.Find | driver/src/swap_textures.cpp:66-71 | The first texture with the handle, of the set that has it |
| SwapTextures.SwapTextureSets.DestroySet | driver/src/swap_textures.cpp:73-83 | The whole set of the handle is gone from both lists, the others stay |
| SwapTextures.SwapTextureSets.DestroyAll | driver/src/swap_textures.cpp:85-96 | The sets of the process are gone from both lists, the others stay |
| SwapTextures.SwapTextureSets.NextIndices | driver/src/swap_textures.cpp:98-115 | Both eyes' sets advance, a shared one once; an unknown handle keeps its entry |
| SwapTextures.ReachableSetsAreWhole | driver/src/swap_textures.cpp:58-115 | In every reachable state with distinct live handles: exactly three textures a set, index = advances mod 3, each handle found as its own texture |
| SwapTextures.NextAdvancesOwners | driver/src/swap_textures.cpp:98-115 | Advancing touches exactly the sets of the two handles, each once |
| SwapTextures.RemovalTouchesNoOther | driver/src/swap_textures.cpp:73-96 | Removal keeps exactly the sets of other numbers, or of other processes |

## Left out

- LayerCompose.OrientationIsExact: exact reals, not 32-bit floats, and exact rotations, not matrices within the 1e-2 tolerance; the same holds for the other geometry theorems. The square root is a parameter that squares back to its argument.
- LayerLookup.LayerPoint: an eye of zero width or height, for which the code divides by zero and finds nothing, is excluded.
- StreamDelivery.StreamDelivers: the frames of one stream have different indices, so it is not longer than 2^32 frames, and the receiver starts on none of them.
- LayerPlacement.PlacementsCompose: the bound of seven snaps is not claimed to be the smallest.
- FecEncoding.ParityIsLeast: the redundancy is a real number, so `data_count as f32 * redundancy` is not rounded; `f32` and `f64` rounding is left out everywhere (redundancy, smoothing, multipliers, ratios), and so are NaN and infinite inputs. Bitrate multipliers are percentages and truncation is integer division.
- FrameDelivery.EndToEnd: Reed-Solomon's field arithmetic is a hypothesis on two functions, met by the XOR code for one parity shard; the crate itself is not part of this model.
- FrameReassembler.ShardGroup.Reconstruct: a failed decode leaves the stored shards as they were, where the crate may have filled some in; the group is marked failed and never looks at them again.
- VideoPacket.RtpPacketizer.TakeBuf: a pooled buffer's capacity is not modelled, only its contents.
- FrameSender.FrameFecEncoder.Encode: the SSRC is the constant the engine passes, and the metrics and log lines beside it are left out.
- LocalConfig.SaveThenLoad: a TOML array standing for a whole section, which serde would read as its fields in order, counts as a wrong type; arrays and dates are opaque values.
- SettingsCache.RunsStayInStep: no other program writes local.toml, the text form of TOML is taken to round-trip, and the one-time copy of the legacy file before the first save is not modelled; error texts in the log are shortened.
- ConfigLayers.LoadLayered: deserialization is a parameter, and `AppConfig::validate` is left out: independent range checks whose cross-field resets do not always establish the order of the thresholds.
- LossFeedback.BandwidthEstimator.Update: the time of the latest report, which nothing reads, is not kept.
- LossFeedback.AdaptiveState.Tick: burst detection, the delay-based estimator and the FEC response are free inputs of the bitrate controller or left out; the round-trip time is always 0 at the one call.
- LossFeedback.AdaptiveState.OnHeartbeat: of a heartbeat only the two packet counts; decode time and frame rate only reach the status file.
- SessionGuard.EmptyBetweenSessions: lock poisoning is left out, and the session's thread runs one session at a time, as the streaming loop does.
- SwapTextures.SwapTextureSets.Create: set numbers do not wrap at 2^32, and formats, views and the textures themselves are left out; what the device gives for each texture is an input.
- ControlFraming.ControlReader.OnRead: what the messages do (IDR requests, heartbeats, settings) and the silence limit are left out.
- MaskChain.WhatIsLeft: user names are not followed through the later maskers.
- `mask_ssids` is left out: nested keys such as `ssid=ssid=x` give overlapping spans there. So the maskers in a row start at `mask_pins`.
- `decode_packets_to_frame` (a test helper), `RtpDepacketizer`, `AdaptiveFecController`, sleep detection, transport feedback and view configuration encodings, status parsing, Touch profile, frame pacing: they would add easy members.
- Direct3D, NVENC, OpenVR, egui, adb, TLS, sockets, Tokio scheduling, audio, files and the registry: foreign calls. Time, disk outcomes, device handles, readings and packets are inputs.
- The encoder's rate against the controller's rate: sleep, wake and the thermal ceiling do not go through one path.
