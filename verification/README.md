# CrystalHD: a verified model

A Dafny model of the parts of CrystalHD whose correctness is hardest to see from the code,
with proofs. Six groups of modules:

- **H.264 range observation** (`H264*.dfy`). Emulation prevention, bit syntax with writers
  beside readers, the allocation-free cursor as a class, the SPS reader, Annex B framing,
  and the observer that binds slices to SPS generations across access units. The pure
  specification is the syntax of ITU-T H.264 (08/2024); each loop of the C headers is a
  method proved equal to it, and written parameter sets and slices are observed exactly when
  the standard makes them one picture.
- **Driver state machines** (`RetainedRx*.dfy`, `Session*.dfy`, `DecoderPhase*.dfy`). Each
  has a model (functions over a state and what the hardware answers), theorems over whole
  runs and over the exact outcome of each call, and a class whose methods take the driver's
  own steps and refine the model. For the retained receive registry the methods also record
  every intermediate state. The decoder's firmware is a ghost that may accept, reject, or
  act late without answering.
- **The configuration language** (`Config*.dfy`). The Python parser, serializer, resolver
  and launcher as specification; the native C++ reader as index loops that refine it; the
  specification itself against the grammar of RFC 8259 and the shapes of lines.
- **Runtime installation** (`RuntimeInstall*.dfy`). A file map, a fault schedule for every
  primitive, and a trace of the states a kill could leave behind.
- **The private slot store** (`SlotStore*.dfy`). Selection, rollback and two-step removal
  with exceptions raised before or after each step's effect.
- **Rooted path resolution** (`RootedPath.dfy`). The worklist loop against a resolution
  relation.

`dafny verify dfyconfig.toml` checks everything.

What the proofs say about the code that its text does not:

- `prepare_launch` decides that a value was unset from the end of its origin string. A
  profile called `unset` has an origin with that ending, so a value it requests is taken
  out of the child's environment. `ConfigLaunch.ChildSeesRequested` gives the exact
  condition, `ConfigLaunch.ProfileNamedUnsetIsLost` an instance.
- The slot store's exception handlers know only of renames whose next statement was
  reached. An interrupt right after a rename leaves a store that the next operation
  refuses; `SlotStoreTheorems.PublishKeepsIffSafe`, `RemoveKeepsIffSurvives` and
  `StepKeepsIffSafe` give the faults exactly, `InterruptedMoveBreaks` the smallest instance.
- A decoder phase is trusted after a resume only because the kernel resumes what it
  suspended (`DecoderPhaseTheorems.ResumeNeedsItsSuspend`).
- A string written by `json.dumps` is read back by the parser unless it holds a NUL or a
  high surrogate right before a low one; parsed strings hold neither.
- If the fsync after the pending marker's removal fails and the marker then cannot be
  written again, undo proceeds unmarked, and a kill during it can leave old and new leaves
  without a marker. `RuntimeInstallTheorems.UnmarkedMixIffLateFailure` shows that this is
  the only way, and `UndoCoveredIff` that a first marker covers all of an undo whatever
  else fails in it.
- The documentation of the path resolver says that absolute targets are interpreted inside
  the root. Python's paths keep a leading double slash as a part of its own, and such a
  target is not. `RootedPath.RootedIffPlainTargets` gives the trees this happens in,
  `DoubleSlashIsNotRooted` an instance.

## Model

| member | source | states |
|---|---|---|
| `Emulation.StripUndoesEscape` | include/crystalhd_h264_sps_range.h:36-59 | For every RBSP, dropping the emulation-prevention bytes from its escaped form gives the RBSP back, and the escaped form is one the reader accepts. |
| `Emulation.EscapeUndoesStrip` | include/crystalhd_h264_sps_range.h:75-90 | For every byte string the reader accepts, escaping what it strips gives exactly that byte string again. |
| `Emulation.WellEscapedIsImage` | include/crystalhd_h264_sps_range.h:75-90 | The accepted byte strings are exactly the image of the escaping function of section 7.3.1 of H.264. |
| `Emulation.EscapeInjective` | include/crystalhd_h264_sps_range.h:75-90 | Two RBSPs with the same escaped form are the same RBSP. |
| `Emulation.WellEscapedHasNoForbidden` | include/crystalhd_h264_sps_range.h:75-90 | An accepted payload contains none of 00 00 00, 00 00 01 and 00 00 02. |
| `Emulation.StripPrefix` | include/crystalhd_h264_range_binding.h:51-52 | Cutting a payload short never changes the RBSP bytes read before the cut. |
| `Emulation.Ebsp` | include/crystalhd_h264_sps_range.h:75-90 | The one-pass check answers true exactly for the properly escaped payloads. |
| `BitSyntax.GetPutU` | include/crystalhd_h264_sps_range.h:36-59 | Reading a fixed-width field inverts writing it, for every width and every value that fits, before any following bits. |
| `BitSyntax.PutGetU` | include/crystalhd_h264_sps_range.h:36-59 | What a fixed-width read takes from the bits is what writing its value puts there. |
| `BitSyntax.GetPutUE` | include/crystalhd_h264_sps_range.h:60-69 | Reading an unsigned Exp-Golomb code (section 9.1 of H.264) inverts writing it, for every value of at most 31 leading zeros. |
| `BitSyntax.PutGetUE` | include/crystalhd_h264_sps_range.h:60-69 | Every bit string the reader takes as an unsigned code is the code of the value it returns. |
| `BitSyntax.GetPutSE` | include/crystalhd_h264_sps_range.h:70-74 | The signed mapping of section 9.1.1 of H.264 is inverted, for both signs and zero. |
| `BitSyntax.PutGetSE` | include/crystalhd_h264_sps_range.h:70-74 | Every signed code read is the code of the value returned. |
| `BitCursor.Cursor.constructor` | include/crystalhd_h264_sps_range.h:95 | A fresh cursor stands before exactly the RBSP bits of the payload after the NAL header. |
| `BitCursor.Cursor.Refill` | include/crystalhd_h264_sps_range.h:41-54 | The next byte is fetched without losing or inventing a bit, and the cursor fails exactly when no bit is left. |
| `BitCursor.Cursor.NextBit` | include/crystalhd_h264_sps_range.h:56 | One step hands out the next RBSP bit and leaves the others. |
| `BitCursor.Cursor.Get` | include/crystalhd_h264_sps_range.h:36-59 | A read of n bits returns the next n RBSP bits and fails exactly when they run out. |
| `BitCursor.Cursor.Ue` | include/crystalhd_h264_sps_range.h:60-69 | The loop over leading zeros reads one unsigned code off the RBSP bits, or fails as the specification of the code does. |
| `BitCursor.Cursor.Se` | include/crystalhd_h264_sps_range.h:70-74 | The signed read takes one signed code off the RBSP bits. |
| `SpsSyntax.GetPutScaling` | include/crystalhd_h264_sps_range.h:116-126 | A scaling list with any deltas, including one that stops early, is read back as written. |
| `SpsSyntax.GetPutHigh` | include/crystalhd_h264_sps_range.h:108-129 | The High-profile block with any scaling matrix is read back as written. |
| `SpsSyntax.GetPutPoc` | include/crystalhd_h264_sps_range.h:133-146 | All three picture order count types are read back as written. |
| `SpsSyntax.GetPutGeometry` | include/crystalhd_h264_sps_range.h:147-156 | Reference count, size, frame and cropping fields are read back as written. |
| `SpsSyntax.GetPutVui` | include/crystalhd_h264_sps_range.h:157-175 | A VUI prefix with any aspect ratio, overscan and video signal block is read back as written. |
| `SpsSyntax.GetPutSps` | include/crystalhd_h264_sps_range.h:101-176 | For every in-scope SPS, parsing what the writer of sections 7.3.2.1.1 and E.1.1 of H.264 puts out returns that SPS, whatever bits follow. |
| `SpsSyntax.PutGetSps` | include/crystalhd_h264_sps_range.h:101-176 | Every bit string the parser accepts begins with the written form of the SPS it returns. |
| `SpsSyntax.ReadableIsWritten` | include/crystalhd_h264_sps_range.h:101-176 | A bit string is parsed if and only if it is the written form of some in-scope SPS followed by other bits. |
| `SpsSyntax.MapUnitsCount` | include/crystalhd_h264_sps_range.h:147-151 | The size reported of a picture is the number of its map units: exactly the raster positions of its columns and rows lie below it; it is zero exactly when a picture has more than 32 bits can count. |
| `SpsSyntax.FactsTell` | include/crystalhd_h264_sps_range.h:91-181 | Each reported field is said by the syntax elements alone, by the semantics of sections 7.4.2.1.1 and E.2.1 of H.264: presence and value of the range flag, order count type, widths, size. |
| `SpsReader.ReadHigh` | include/crystalhd_h264_sps_range.h:108-129 | The High-profile loops consume exactly that block of the syntax, or end with the status the source returns. |
| `SpsReader.ReadPoc` | include/crystalhd_h264_sps_range.h:133-146 | The picture order count branch refines its syntax, with the same rejections. |
| `SpsReader.ReadGeometry` | include/crystalhd_h264_sps_range.h:147-156 | The size and cropping reads refine their syntax; what the map-unit product means is SpsSyntax.MapUnitsCount. |
| `SpsReader.ReadVui` | include/crystalhd_h264_sps_range.h:157-175 | The VUI prefix reads refine their syntax, with the same rejections. |
| `SpsReader.ReadSpsRange` | include/crystalhd_h264_sps_range.h:91-181 | The imperative reader returns exactly the status and facts of the syntax for every byte string, and writes its result only when it returns OK. |
| `SpsNal.ReadWrittenSpsNal` | include/crystalhd_h264_sps_range.h:91-181 | Encode any in-scope SPS, add trailing bits and emulation prevention, read it: OK, and every reported field tells the encoded syntax element. |
| `SpsNal.AcceptedIsWritten` | include/crystalhd_h264_sps_range.h:91-181 | Whatever the reader accepts is the escaped form of an in-scope SPS, and every reported field tells its syntax element. |
| `SpsNal.AcceptsExactlyWritten` | include/crystalhd_h264_sps_range.h:91-181 | The reader returns OK if and only if the unit has an SPS header, 4 to 4096 bytes, and carries an escaped in-scope SPS. |
| `SpsNal.UnsupportedIffOutOfScope` | include/crystalhd_h264_sps_range.h:91-129 | The reader says unsupported if and only if the unit has an SPS header, 4 to 4096 bytes, is properly escaped, and its head is readable with a profile, chroma format or bit depth out of scope. |
| `AnnexB.FindStart` | include/crystalhd_h264_range_binding.h:161-171 | The scan returns the first start code at or after an index, with all its leading zeros, or the end of the data. |
| `AnnexB.SplitUndoesFrame` | include/crystalhd_h264_range_binding.h:183-250 | Any list of NAL units with no inner start code and no trailing zero, framed with any start-code lengths and trailing zeros, is recovered exactly. |
| `AnnexB.ScanFindsFirst` | include/crystalhd_h264_range_binding.h:161-171 | What the scan finds is the first start code there is, zero bytes before its 0x01 included, and it finds none only when there is none. |
| `AnnexB.UnitsIffFramed` | include/crystalhd_h264_range_binding.h:183-250 | An access unit is taken as a list of units if and only if it is a framing of that list and each unit can be framed. |
| `AnnexB.EscapedIsFramable` | include/crystalhd_h264_range_binding.h:160 | An escaped RBSP that ends in a nonzero byte can be framed this way. |
| `SliceSyntax.GetPutPpsIds` | include/crystalhd_h264_range_binding.h:36-47 | The two PPS identifiers are read back as written. |
| `SliceSyntax.GetPutPpsPicture` | include/crystalhd_h264_range_binding.h:68-92 | A PPS with one slice group and no redundant pictures is read back through its last qualifying flag, for any field values in range. |
| `SliceSyntax.GetPutOrder` | include/crystalhd_h264_range_binding.h:135-144 | The order-count fields of a slice header are read back as written, for each order type. |
| `SliceSyntax.GetPutPicture` | include/crystalhd_h264_range_binding.h:119-146 | A qualified slice header is read back as written. |
| `SliceSyntax.SamePictureIsStandard` | include/crystalhd_h264_range_binding.h:149-159 | Within the reader's scope, two slices have equal keys exactly when the first-slice rules of section 7.4.1.2.4 of H.264 see no new picture. |
| `RangeBinding.PpsPrefix` | include/crystalhd_h264_range_binding.h:36-47 | The PPS prefix method returns the two identifiers of the syntax, or refuses exactly where it does. |
| `RangeBinding.PpsPicturePrefix` | include/crystalhd_h264_range_binding.h:68-92 | The method qualifies a PPS exactly when its syntax holds, with the bottom-field flag it carries. |
| `RangeBinding.SlicePrefix` | include/crystalhd_h264_range_binding.h:48-61 | The 128-byte window read gives the first three codes of a slice that starts a picture, or refuses. |
| `RangeBinding.RangeState.ForgetAll` | include/crystalhd_h264_range_binding.h:30-35 | Both tables become invalid and nothing else changes. |
| `RangeBinding.RangeState.PicturePrefix` | include/crystalhd_h264_range_binding.h:109-147 | The picture key read through the tables is the specification's, for every slice. |
| `RangeBinding.RangeState.OnSps` | include/crystalhd_h264_range_binding.h:196-206 | An SPS updates tables, generation and exhaustion as the specification's step does. |
| `RangeBinding.RangeState.OnPps` | include/crystalhd_h264_range_binding.h:207-216 | A PPS updates its row, or invalidates all rows, as the specification's step does. |
| `RangeBinding.RangeState.OnSlice` | include/crystalhd_h264_range_binding.h:217-235 | A slice binds or checks the picture as the specification's step does. |
| `RangeBinding.RangeState.OnNal` | include/crystalhd_h264_range_binding.h:195-244 | Every unit type takes the branch of the specification's step. |
| `RangeBinding.RangeState.ObserveUnits` | include/crystalhd_h264_range_binding.h:186-250 | The scanning loop walks exactly the units that splitting the data gives. |
| `RangeBinding.RangeState.ObserveRange` | include/crystalhd_h264_range_binding.h:172-255 | The in-place observer gives the tables and snapshot of the pure observation, for every byte string and every table state. |
| `RangeTheorems.GenerationNamesOneSps` | include/crystalhd_h264_range_binding.h:201-232 | In any run from a zeroed state, two associated snapshots with equal generation have equal SPS id, range presence and range. |
| `RangeTheorems.ExhaustedForGood` | include/crystalhd_h264_range_binding.h:172-206 | In any run, from the access unit that exhausts the counter on, every snapshot is empty and no table entry is valid. |
| `RangeTheorems.MalformedForgetsAll` | include/crystalhd_h264_range_binding.h:178-246 | Each of the early exits, the one that exhausts the counter included, leaves all table entries invalid and an empty snapshot. |
| `RangeTheorems.ExhaustedAtTheLimit` | include/crystalhd_h264_range_binding.h:197-206 | A state becomes exhausted only in an access unit with an acceptable SPS that finds the last generation given away. |
| `RangeTheorems.FramedUnitsAreWalked` | include/crystalhd_h264_range_binding.h:183-250 | Observing a framed list is walking that list. |
| `RangeTheorems.FramingDoesNotMatter` | include/crystalhd_h264_range_binding.h:160-171 | Two framings of the same list within the size cap give the same tables and the same snapshot. |
| `SliceWindow.WindowIsHarmless` | include/crystalhd_h264_range_binding.h:109-149 | A slice header is read from the first 128 bytes of its unit if and only if it is read from the whole unit, with the same result. |
| `SliceWindow.SliceStartFitsWindow` | include/crystalhd_h264_range_binding.h:48-61 | The first three codes of a slice are found in the window exactly when the whole unit holds them, and are the same. |
| `RangeTheorems.AssociatedUnitIsOnePicture` | include/crystalhd_h264_range_binding.h:217-254 | An associated snapshot of several slices means that they start at macroblock 0, rise strictly, stay inside the picture and share one picture key. |
| `RangeTheorems.EncodedUnitIsObserved` | include/crystalhd_h264_range_binding.h:172-255 | Encode an SPS, a PPS naming it and a slice naming the PPS, frame them anyhow: the snapshot has a fresh generation, and its two flags are those of the encoded VUI. |
| `PictureUnits.EncodedPictureIsObservedIff` | include/crystalhd_h264_range_binding.h:172-255 | Write an SPS, a PPS naming it and any list of slices of that PPS, with one delimiter and any messages before the slices and ends after them, framed anyhow: the snapshot is associated, with a fresh generation and the encoded flags, if and only if the first slice is at macroblock 0 and several slices rise strictly inside the picture with no first-slice rule of section 7.4.1.2.4 of H.264 between any two; otherwise it is empty. |
| `PictureUnits.HeldPictureIsObservedIff` | include/crystalhd_h264_range_binding.h:172-255 | The same when the parameter sets came with an earlier access unit: the snapshot has the generation they got there, and the tables stay, or are forgotten when a sequence or stream ends. |
| `PictureUnits.AssociatedUnitIsClean` | include/crystalhd_h264_range_binding.h:178-254 | An associated access unit of any bytes has at most 8 MiB and 128 units, only slices, messages, acceptable parameter sets, one delimiter, ends and filler in it, and after the first slice only slices, ends and filler. |
| `RetainedRxTheorems.StepKeeps` | driver/linux/crystalhd_cmds.c:2307-2530 | Every registration, fetch, repost, retirement, stop, teardown and legacy call keeps the registry invariant. |
| `RetainedRxTheorems.RunIsSafe` | driver/linux/crystalhd_cmds.c:92-145 | At every point of every run: the hardware owns exactly the queued buffers, live mappings are the registry's, none undone is live, no byte address lies in two entries, at most one entry is borrowed, and a published registry has no legacy call inside. |
| `RetainedRxTheorems.LeaseHonouredOnce` | driver/linux/crystalhd_cmds.c:2410-2506 | In any run a lease (registration id and sequence) is honoured by at most one repost or retirement. |
| `RetainedRxTheorems.NeverAgain` | driver/linux/crystalhd_cmds.c:2456-2506 | Once a lease is spent, no later event of any run honours it. |
| `RetainedRxTheorems.NumbersNeverRepeat` | driver/linux/crystalhd_cmds.c:2317-2396 | At any two points of a run, equal registration ids are one registration in one slot, equal generations one owner's registry, and no id is ever also a generation. |
| `RetainedRxTheorems.LegacyKeeps` | driver/linux/crystalhd_cmds.c:150-181 | Entering and leaving the legacy path keep the counter equal to the calls inside, so it cannot wrap in either direction. |
| `RetainedRxOutcomes.LegacyEntersIff` | driver/linux/crystalhd_cmds.c:150-162 | A legacy call enters if and only if no registry is published and the 32-bit counter can grow. |
| `RetainedRxOutcomes.PublishesIff` | driver/linux/crystalhd_cmds.c:2317-2343 | A first registration publishes a registry if and only if the request is well formed and comes from the session's file, numbers and memory are left, and no legacy call or ring use is going on; it then belongs to the caller under a fresh generation. |
| `RetainedRxOutcomes.RegistersIff` | driver/linux/crystalhd_cmds.c:2344-2398 | A registration succeeds if and only if it is the owner's, aligned and well formed, has a free slot and the hardware's consent, and shares no byte with a live entry; admissible but for a shared byte it is refused as invalid and changes nothing. |
| `RetainedRxOutcomes.LendsIff` | driver/linux/crystalhd_cmds.c:2400-2454 | A completed buffer is lent if and only if its entry is queued in this capture epoch and belongs to the caller, nothing is stale and nothing else is borrowed; the entry alone changes, by one sequence number. |
| `RetainedRxOutcomes.AcknowledgesIff` | driver/linux/crystalhd_cmds.c:2021-2063 | A format change leaves the registry as it is if and only if its buffer was queued again in the same epoch; otherwise that buffer is detached. |
| `RetainedRxOutcomes.RepostsIff` | driver/linux/crystalhd_cmds.c:2456-2506 | A repost succeeds if and only if it names the caller's borrowed lease by id, generation, sequence and layout, the registry is current and the hardware takes the buffer. |
| `RetainedRxOutcomes.RetiresIff` | driver/linux/crystalhd_cmds.c:2456-2506 | A retirement succeeds if and only if it names the caller's lease, no failed device may still use it, and unmapping works; the slot is then free. |
| `RetainedRxOutcomes.RetiresAllIff` | driver/linux/crystalhd_cmds.c:2511-2530 | Retiring all succeeds if and only if it is admitted, capture stops and no mapping refuses; nothing is then mapped or owned by the hardware. |
| `RetainedRxDriver.RxCommand.LegacyRxEnter` | driver/linux/crystalhd_cmds.c:150-162 | A legacy call is admitted exactly when no registry is published and the counter can grow. |
| `RetainedRxDriver.RxCommand.LegacyRxLeave` | driver/linux/crystalhd_cmds.c:163-171 | Leaving takes the call off the counter. |
| `RetainedRxDriver.RxCommand.PublishRegistry` | driver/linux/crystalhd_cmds.c:2317-2343 | A first registration publishes the registry only with no legacy call inside and an idle ring, and draws its generation. |
| `RetainedRxDriver.RxCommand.InsertEntry` | driver/linux/crystalhd_cmds.c:2344-2398 | A new registration takes a free slot with a fresh id and a range overlapping no other, and is queued or withdrawn whole. |
| `RetainedRxDriver.RxCommand.Register` | driver/linux/crystalhd_cmds.c:2307-2398 | Registration refines publish then insert, and every state in between has hardware buffers queued and mapped. |
| `RetainedRxDriver.RxCommand.FetchBuffer` | driver/linux/crystalhd_cmds.c:2400-2454 | A fetch lends one completed buffer with the next sequence number, and every state in between is safe. |
| `RetainedRxDriver.RxCommand.AckFormatChange` | driver/linux/crystalhd_cmds.c:2021-2063 | A format-change acknowledgement requeues or releases the buffer, and every state in between is safe. |
| `RetainedRxDriver.RxCommand.RepostOne` | driver/linux/crystalhd_cmds.c:2456-2506 | A repost returns exactly the borrowed buffer of a valid lease to the hardware. |
| `RetainedRxDriver.RxCommand.RetireOne` | driver/linux/crystalhd_cmds.c:2456-2506 | A retirement unmaps exactly the borrowed buffer of a valid lease and frees its slot, or leaves all as it was. |
| `RetainedRxDriver.RxCommand.CleanupRegistry` | driver/linux/crystalhd_cmds.c:113-148 | Cleanup unmaps entries only once the hardware owns none, keeps those it could not unmap, and renews or frees the registry when none is left. |
| `RetainedRxDriver.RxCommand.RetireEverything` | driver/linux/crystalhd_cmds.c:2511-2530 | Retiring all stops capture first and then cleans up, every intermediate state being safe. |
| `RetainedRxDriver.RxCommand.CaptureFlush` | driver/linux/crystalhd_cmds.c:2641-2699 | A flush that unmaps stops capture and cleans up without asking who owns the registry, marks it stale on failure, and every intermediate state is safe. |
| `RetainedRxDriver.RxCommand.RetireAllQuiesced` | driver/linux/crystalhd_cmds.c:2900-2910 | With DMA off every queued buffer is given back before mappings are undone, unless a suspend keeps the registrations. |
| `RetainedRxDriver.QueuedExactlyOwned` | driver/linux/crystalhd_cmds.c:92-101 | In a valid state an entry is queued if and only if the hardware owns its buffer. |
| `SessionModel.StepKeeps` | driver/linux/crystalhd_cmds.c:290-497 | Every acquisition, failed acquisition, release, last close and deletion keeps pin, owner, lifetime and callback log in balance. |
| `SessionModel.EveryReferenceIsReturned` | driver/linux/crystalhd_cmds.c:336-361 | In any run each get is followed by that owner's retired and put, or belongs to the owner still adopted. |
| `SessionModel.EveryPutIsEarned` | driver/linux/crystalhd_cmds.c:336-361 | In any run each put comes right after its own get and retired, with hardware context and retained registry already gone. |
| `SessionModel.PinCoversSession` | driver/linux/crystalhd_cmds.c:350-361 | In any run one module reference is held exactly while the pin flag is set, and a published or adopted owner implies it. |
| `SessionModel.ReleaseIsAllOrNothing` | driver/linux/crystalhd_cmds.c:472-497 | A release by the owner gives up hardware, registry, owner, lease and pin together, or keeps token, lease, pin and log. |
| `SessionModel.FailedAcquireLease` | driver/linux/crystalhd_cmds.c:447-470 | An acquisition with a reference keeps a lease exactly when it keeps the pin, whatever failed. |
| `SessionOutcomes.RetireHwIff` | driver/linux/crystalhd_cmds.c:290-334 | Retirement succeeds if and only if every step it needs does, and then neither context nor registry is left. |
| `SessionOutcomes.AcquireSucceedsIff` | driver/linux/crystalhd_cmds.c:380-445 | A session is acquired if and only if the adapter is live, idle, unowned and unpinned, the owner is not null, and module, hardware, pools and link allow it. |
| `SessionOutcomes.FailedAcquireKeepsIff` | driver/linux/crystalhd_cmds.c:400-470 | A failed attempt leaves no pin and no owner, unless its own rollback failed. |
| `SessionOutcomes.ReleaseSucceedsIff` | driver/linux/crystalhd_cmds.c:472-497 | A release succeeds if and only if it is the owner's, the link is restored and everything is retired; it is a usage error exactly for anyone else. |
| `SessionOutcomes.CloseLastIff` | driver/linux/crystalhd_cmds.c:2833-2839 | The last close retires an unpublished session or an open context, and leaves a published session alone. |
| `SessionOutcomes.DeleteSucceedsIff` | driver/linux/crystalhd_cmds.c:3233-3266 | A deletion succeeds if and only if rings and registry go. |
| `SessionOutcomes.CycleReturns` | driver/linux/crystalhd_cmds.c:380-497 | Acquired with a reference and released, the adapter is as before, with exactly one get, retired and put of that owner more. |
| `SessionDriver.SessionCommand.RetireHwContext` | driver/linux/crystalhd_cmds.c:290-334 | Retirement stops, closes, frees and cleans in order and keeps the context at the first refusal. |
| `SessionDriver.SessionCommand.UnpinSession` | driver/linux/crystalhd_cmds.c:336-361 | The owner is notified and put before the module reference is dropped, once. |
| `SessionDriver.SessionCommand.RetireUnpublishedSession` | driver/linux/crystalhd_cmds.c:367-378 | Only a pinned session without an owner is retired here, after the link is restored. |
| `SessionDriver.SessionCommand.AcquireLocked` | driver/linux/crystalhd_cmds.c:380-445 | Acquisition pins first, publishes the owner last, and unwinds each failure to the state the model gives. |
| `SessionDriver.SessionCommand.AcquireRefLocked` | driver/linux/crystalhd_cmds.c:447-470 | A reference is adopted exactly for a pin this attempt took. |
| `SessionDriver.SessionCommand.ReleaseLocked` | driver/linux/crystalhd_cmds.c:472-497 | Release refines its model, including the retry of a failed acquisition by its lifetime owner. |
| `SessionDriver.SessionCommand.CloseLastUser` | driver/linux/crystalhd_cmds.c:2833-2839 | The last close of a file that is not the owner retires what an unpublished session or open context left. |
| `SessionDriver.SessionCommand.DeleteContext` | driver/linux/crystalhd_cmds.c:3233-3266 | Deletion frees rings and registry before it clears state and unpins. |
| `DecoderPhaseModel.StepKeeps` | driver/linux/crystalhd_cmds.c:813-1574 | Every allowed event keeps the phase honest about the firmware. |
| `DecoderPhaseTheorems.PhaseNeverOverstates` | driver/linux/crystalhd_cmds.c:813-1574 | In any run, BOOTSTRAPPED means booted with no channel, CONFIGURED an open idle channel, STARTED a streaming one, with no command left that could still act. |
| `DecoderPhaseTheorems.TransitionIsAllNothingOrQuarantined` | driver/linux/crystalhd_cmds.c:1117-1574 | A native transition reaches its phase, or is quarantined, or left phase and firmware untouched; only a torn download stays in COLD. |
| `DecoderPhaseTheorems.BootstrapOutcome` | driver/linux/crystalhd_cmds.c:1117-1191 | A bootstrap ends booted in exact INIT state, or restores the link state and is quarantined once the image was loaded. |
| `DecoderPhaseTheorems.OpenOutcome` | driver/linux/crystalhd_cmds.c:1193-1316 | Open is configured exactly when both commands were answered on channel 0, stays bootstrapped exactly when OPEN was rejected, and is quarantined otherwise. |
| `DecoderPhaseTheorems.StartOutcome` | driver/linux/crystalhd_cmds.c:1318-1456 | Start is streaming exactly when both commands were answered, configured again exactly when ACTIVATE was rejected, and quarantined otherwise. |
| `DecoderPhaseTheorems.AdmissionIff` | driver/linux/crystalhd_cmds.c:1201-1215 | Open, start, stop and close are admitted if and only if the adapter is present, of the newer chip, and the caller owns the session. |
| `DecoderPhaseTheorems.StopOutcome` | driver/linux/crystalhd_cmds.c:1501-1535 | Stop is tried if and only if the caller is entitled, a link with INIT is not suspended, paused or resuming, with capture and format change allowed, and an H.264 channel is STARTED; accepted it is CONFIGURED, rejected it stays STARTED, anything else is quarantined. |
| `DecoderPhaseTheorems.CloseOutcome` | driver/linux/crystalhd_cmds.c:1537-1574 | Close is tried if and only if the caller is entitled, the link is exactly INIT and an H.264 channel is CONFIGURED; accepted it is BOOTSTRAPPED, with its stream memory given back unless the device failed, rejected it stays CONFIGURED, anything else is quarantined. |
| `DecoderPhaseTheorems.DownloadSucceedsIff` | driver/linux/crystalhd_cmds.c:813-877 | A download succeeds if and only if it is the owner's, valid, on a working device in a link state that offers it, and loads; it then starts the tracking afresh, and otherwise at most the firmware changed. |
| `DecoderPhaseTheorems.BootstrapSucceedsIff` | driver/linux/crystalhd_cmds.c:1117-1191 | A bootstrap succeeds if and only if the image is fetched and loads, the device stays, and INIT is answered, by the same generation after a resume. |
| `DecoderPhaseTheorems.QuarantineHolds` | driver/linux/crystalhd_cmds.c:843-870 | Nothing but a verified download or a session boundary leads out of RECOVERY_REQUIRED, over any sequence of events. |
| `DecoderPhaseTheorems.BootstrapRecovers` | driver/linux/crystalhd_cmds.c:1117-1191 | An answered bootstrap leads out of it, with sequence number 1. |
| `DecoderPhaseTheorems.CycleReturns` | driver/linux/crystalhd_cmds.c:1193-1574 | Open, start, stop and close, all answered, return to the bootstrapped state with six sequence numbers used. |
| `DecoderPhaseTheorems.CaptureCycleReturns` | driver/linux/crystalhd_cmds.c:1501-1574 | A channel that streams with capture on, after a format change or not, is stopped; it is closed only once capture is off, and two sequence numbers were used. |
| `DecoderPhaseTheorems.SuspendOutcome` | driver/linux/crystalhd_cmds.c:2932-2987 | A suspend is reached if and only if capture, when on, stops and transmission is cancelled; the phase is then lost, and otherwise the adapter goes out of use with the rest unchanged. |
| `DecoderPhaseTheorems.ResumedRecovers` | driver/linux/crystalhd_cmds.c:2932-3031 | After a suspend and its resume no channel opens or starts, until an answered bootstrap leads back to BOOTSTRAPPED. |
| `DecoderPhaseTheorems.ResumeNeedsItsSuspend` | driver/linux/crystalhd_cmds.c:3005-3031 | A resume keeps the phase honest exactly when no phase vouches for the firmware, which is what a suspend before it ensures. |
| `DecoderPhaseTheorems.UnpairedResumeOverstates` | driver/linux/crystalhd_cmds.c:3005-3031 | Without that suspend, a torn download passes under a STARTED phase. |
| `DecoderPhaseDriver.DecoderCommand.FwExec` | driver/linux/crystalhd_cmds.c:989-1115 | An exchange moves state, link and firmware as the model says, for each kind of answer. |
| `DecoderPhaseDriver.DecoderCommand.DownloadLocked` | driver/linux/crystalhd_cmds.c:813-877 | A download is taken only in INVALID, RESUME or a quarantined INIT state, and resets tracking only when it loads. |
| `DecoderPhaseDriver.DecoderCommand.RequestFirmwareLocked` | driver/linux/crystalhd_cmds.c:906-960 | The checks before the download refuse in the source's order. |
| `DecoderPhaseDriver.DecoderCommand.BootstrapLocked` | driver/linux/crystalhd_cmds.c:1117-1191 | Bootstrap with its rollback refines the model. |
| `DecoderPhaseDriver.DecoderCommand.ChannelOpen` | driver/linux/crystalhd_cmds.c:1193-1316 | Open refines the model, stream memory included. |
| `DecoderPhaseDriver.DecoderCommand.ChannelStart` | driver/linux/crystalhd_cmds.c:1318-1456 | Start refines the model. |
| `DecoderPhaseDriver.DecoderCommand.ReleaseCmd` | driver/linux/crystalhd_cmds.c:1458-1499 | A stop or close command quarantines every answer but acceptance and rejection. |
| `DecoderPhaseDriver.DecoderCommand.ChannelStop` | driver/linux/crystalhd_cmds.c:1501-1535 | Stop refines the model. |
| `DecoderPhaseDriver.DecoderCommand.ChannelClose` | driver/linux/crystalhd_cmds.c:1537-1574 | Close refines the model. |
| `DecoderPhaseDriver.DecoderCommand.SuspendLocked` | driver/linux/crystalhd_cmds.c:2932-2987 | A suspend that gets as far as SUSPEND quarantines the phase; one that fails takes the adapter out of use. |
| `DecoderPhaseDriver.DecoderCommand.ResumeLocked` | driver/linux/crystalhd_cmds.c:3005-3031 | A resume leaves an unconfigured link alone and makes any other RESUME. |
| `ConfigUtf8.DecodeIffEncoded` | include/crystalhd-config.h:54-76 | Strict decoding by the byte ranges of section 4 of RFC 3629 accepts exactly the encodings of scalar values, and inverts the encoder. |
| `ConfigUtf8.EncodeInjective` | include/crystalhd-config.h:77-97 | Distinct texts, lone surrogates included, have distinct byte strings. |
| `ConfigUtf8.PlanIsRanges` | include/crystalhd-config.h:57-72 | The reader's numeric check of a gathered value and the byte ranges of RFC 3629 accept the same characters. |
| `ConfigUtf8.DecodeBytes` | include/crystalhd-config.h:54-76 | The native decoding loop refuses exactly what strict UTF-8 without a byte-order mark refuses, and returns the same code points. |
| `ConfigUtf8.EncodeText` | include/crystalhd-config.h:93-97 | The native encoding loop gives the text's bytes. |
| `ConfigText.StripPadded` | scripts/crystalhd-config.py:824 | Stripping takes away exactly the white space around a text. |
| `ConfigText.StripText` | include/crystalhd-config.h:106-111 | The native two-index loop strips as Python does. |
| `ConfigText.CutTerminated` | scripts/crystalhd-config.py:823 | A line ended by LF is cut off whole. |
| `ConfigJson.ParsedHasNoPair` | scripts/crystalhd-config.py:793-804 | A string parsed from decoded text never holds a high surrogate right before a low one, and no NUL. |
| `ConfigJsonGrammar.SpelledScans` | scripts/crystalhd-config.py:793-797 | Every string of the grammar of section 7 of RFC 8259, raw characters, eight short escapes and four digits in either case, is scanned to its quote with the meaning the grammar gives it, halves joined. |
| `ConfigJsonGrammar.ScansIffSpelled` | scripts/crystalhd-config.py:793-797 | The scanner returns a text and a rest if and only if the input is a closed string of that grammar with that meaning, before that rest. |
| `ConfigJsonGrammar.ParsesIff` | scripts/crystalhd-config.py:781-805 | parse_value returns a value if and only if the text denotes it: a word, the decimal of a number of up to ten digits, or a string of the grammar without NUL. |
| `ConfigJsonGrammar.WrittenIsShortest` | scripts/crystalhd-config.py:1979-1986 | No spelling of a string in printable ASCII is shorter than the one that is written. |
| `ConfigLines.CharactersListed` | scripts/crystalhd-config.py:823-824 | The line breaks and white space are exactly the characters that Python lists. |
| `ConfigLines.KeysAreShaped` | scripts/crystalhd-config.py:42 | A key is a lower-case letter followed by lower-case letters, digits, underscores and dots. |
| `ConfigLines.NamesAreShaped` | scripts/crystalhd-config.py:40 | A profile name is 1 to 64 letters, digits, dots, underscores and hyphens, the first a letter or digit. |
| `ConfigLines.OutputSizeIff` | scripts/crystalhd-config.py:364-380 | A size is accepted if and only if it is the decimals of two even numbers up to 4096 around an x, with at most 4096 times 2160 pixels. |
| `ConfigLines.LineIsCut` | scripts/crystalhd-config.py:823 | A line without breaks before a break is cut off, CR LF counting as one break. |
| `ConfigLines.BlankLine` | scripts/crystalhd-config.py:824-826 | A line of white space changes nothing. |
| `ConfigLines.CommentLine` | scripts/crystalhd-config.py:824-826 | A line whose first visible character is # changes nothing. |
| `ConfigLines.HeaderLine` | scripts/crystalhd-config.py:827-847 | A bracketed line opens a section if and only if it names one of the two fixed sections or a well-named profile, not yet opened. |
| `ConfigLines.EntryLine` | scripts/crystalhd-config.py:846-884 | A line of key, equals sign and value, with any white space around them, enters its value if and only if the key is new in an open section, the text denotes a value and the section takes it; otherwise it is refused. |
| `ConfigLines.OtherLinesAreEntries` | scripts/crystalhd-config.py:846-855 | Any other line is of that form, or is refused. |
| `ConfigLines.AdmitsIff` | scripts/crystalhd-config.py:864-884 | Metadata takes the number 1 as schema and names as selectors; settings and profiles take unset and what the key's rule accepts. |
| `ConfigLines.ReadsIff` | scripts/crystalhd-config.py:808-816 | Bytes are read as a text if and only if they are its UTF-8 form and it does not begin with a byte-order mark. |
| `ConfigLines.LinesAreRead` | scripts/crystalhd-config.py:823 | A document is parsed line by line, each by the laws above, whatever line break ends it; the last may have none. |
| `ConfigLines.DocumentIff` | scripts/crystalhd-config.py:808-887 | A document is parsed if and only if there are at most 64 KiB of it, it is read as a text, every line is accepted, and section crystalhd with schema 1 is among them. |
| `ConfigJsonReader.Escape` | include/crystalhd-config.h:130-135 | The four-digit loop returns the value of the digits, or refuses. |
| `ConfigJsonReader.NextCharacter` | include/crystalhd-config.h:144-176 | One turn of the string loop takes the next character of a JSON string, surrogate pairs joined. |
| `ConfigJsonReader.ParseString` | include/crystalhd-config.h:140-178 | The string loop accepts exactly the whole strings without NUL, and keeps them as UTF-8. |
| `ConfigJsonReader.ReadNumber` | include/crystalhd-config.h:179-185 | The digit loop accepts exactly the canonical numbers of up to ten digits, and stays within 64 bits. |
| `ConfigJsonReader.ReadValue` | include/crystalhd-config.h:136-186 | For every stripped text the native value parser accepts what parse_value accepts and gives the same value. |
| `ConfigJsonWriter.DecimalIsInteger` | scripts/crystalhd-config.py:1986 | A number written in decimal is read back, and is a canonical integer. |
| `ConfigJsonWriter.EscapedScans` | scripts/crystalhd-config.py:1985 | An escaped string without joinable halves is scanned back, whatever follows its quote. |
| `ConfigJsonWriter.ReadsBackIffWritable` | scripts/crystalhd-config.py:1979-1986 | A written value reads back as itself if and only if it is below ten digits and its string has no NUL and no joinable pair of halves. |
| `ConfigDocument.ParsedIsGood` | scripts/crystalhd-config.py:808-887 | Whatever parse_document returns has schema 1, valid names, and values its rules accept. |
| `ConfigReader.Name` | include/crystalhd-config.h:112-123 | The name loop accepts exactly the profile names, or the key names. |
| `ConfigReader.NamesEncoded` | include/crystalhd-config.h:112-123 | Checking the bytes of a name is checking its characters. |
| `ConfigReader.ReadOutputSize` | include/crystalhd-config.h:187-201 | The size loops accept exactly the bounded even WIDTHxHEIGHT strings. |
| `ConfigReader.Valid` | include/crystalhd-config.h:202-216 | The native rule check accepts exactly what the Python rule accepts. |
| `ConfigReader.EntryIgnoresPadding` | scripts/crystalhd-config.py:848-853 | Cutting a raw line at its equals sign, as Python does, and a stripped one, as the native reader does, is the same step. |
| `ConfigReader.HeaderLine` | include/crystalhd-config.h:236-248 | A section header opens the same section or is refused by both. |
| `ConfigReader.EntryLine` | include/crystalhd-config.h:249-263 | An entry is added by both or refused by both. |
| `ConfigReader.Parse` | include/crystalhd-config.h:221-267 | For every byte string and rule table the native parser accepts exactly what parse_document accepts and builds the same document. |
| `ConfigSchema.ReadConfiguration` | include/crystalhd-config-schema.h:3-26 | Over the real rule table the two parsers agree on every byte string. |
| `ConfigSchema.SchemaIsGood` | include/crystalhd-config-schema.h:3-35 | The schema's rules, native values and presets are a table on which the agreement of the two resolvers holds. |
| `ConfigSchema.ResolveConfiguration` | include/crystalhd-config.h:221-301 | From the bytes of two files the native side resolves to the values Python resolves to, or refuses with it. |
| `ConfigSerialize.EntriesParse` | scripts/crystalhd-config.py:908-919 | Written entries are read back one by one into the section they belong to. |
| `ConfigSerialize.DocumentParses` | scripts/crystalhd-config.py:922-929 | Reading the lines of a written document gives the document back, in whatever order its keys were written. |
| `ConfigSerialize.WrittenReads` | scripts/crystalhd-config.py:894-932 | The bytes of a written document parse to it, unless there are more than 64 KiB. |
| `ConfigSerialize.ParseUndoesSerialize` | scripts/crystalhd-config.py:894-932 | For every document the parser can return, if serialize_document succeeds then parsing its bytes yields the same document. |
| `ConfigSerialize.SerializeRefusesOnlyOversize` | scripts/crystalhd-config.py:894-932 | Such a document is refused exactly when its bytes exceed 64 KiB. |
| `ConfigWriter.Serialize` | scripts/crystalhd-config.py:894-932 | The line-by-line writer returns exactly the specified bytes or refusal. |
| `ConfigWriter.WriteSection` | scripts/crystalhd-config.py:903-920 | One section appends its header, entries and blank line, or refuses exactly on an unwritable entry. |
| `ConfigResolve.TopmostWins` | scripts/crystalhd-config.py:935-946 | However many layers are stacked, a key ends with the request of the topmost layer that mentions it, the native default when that request is unset, and its earlier value when no layer does. |
| `ConfigResolve.Precedence` | scripts/crystalhd-config.py:1151-1160 | A resolved value is decided by the user's profile, or else the system's, the user's settings, the system's, the preset, and last the native value; unset means the native value at each. |
| `ConfigResolve.UserSelects` | scripts/crystalhd-config.py:1139-1144 | The user's selector comes before the system's. |
| `ConfigResolve.ResolvedIsAccepted` | scripts/crystalhd-config.py:1129-1172 | Whatever the documents and the selection, every canonical key resolves, to its native default or to a value its own rule accepts. |
| `ConfigResolve.Apply` | include/crystalhd-config.h:268-270 | The native overlay of one layer, in any order, sets each key to its value or to the native default for unset. |
| `ConfigResolve.Depends` | include/crystalhd-config.h:292-299 | The four native dependency checks accept exactly what validate_managed accepts. |
| `ConfigResolve.Collect` | include/crystalhd-config.h:273-287 | The native reader stacks the layers of the preset, the documents and the selected profile in Python's order, or refuses as it does. |
| `ConfigResolve.Resolve` | include/crystalhd-config.h:271-301 | For every pair of parsed documents the native resolver gives the values Python's resolve gives, or refuses with it. |
| `ConfigLaunch.TablesAgree` | scripts/crystalhd-config.py:452-466 | Every variable is read for one key and written for no other. |
| `ConfigLaunch.EncodeAdapts` | scripts/crystalhd-config.py:1197-1212 | Encoding an accepted value for a child and adapting it again gives the value, also where it is encoded as absence. |
| `ConfigLaunch.ChildSeesRequested` | scripts/crystalhd-config.py:1247-1263 | A launched child reads the requested value of a key if and only if it does not come from a preset or profile named unset with a non-native value. |
| `ConfigLaunch.ChildSeesResolution` | scripts/crystalhd-config.py:1224-1283 | With any other names, the child reads exactly what was resolved, for every key and whichever layer, variable, override or unset supplied it. |
| `ConfigLaunch.ProfileNamedUnsetIsLost` | scripts/crystalhd-config.py:1257-1258 | A concrete accepted launch in which a profile named unset requests a trace and the child does not see it. |
| `ConfigLauncher.Resolution.ApplyLayer` | scripts/crystalhd-config.py:935-946 | Applying a layer sets value and origin of each key in it, in any order, and nothing else; it refuses exactly invalid layers. |
| `ConfigLauncher.Resolution.AdaptEnvironment` | scripts/crystalhd-config.py:949-1024 | Each present variable overrides its key with what its adapter reads. |
| `ConfigLauncher.Resolution.CheckCanonical` | scripts/crystalhd-config.py:1155-1158 | The overrides are checked over a copy of the managed values, which stay as they are. |
| `ConfigLauncher.Resolution.Resolve` | scripts/crystalhd-config.py:1150-1172 | With preset and profile selected, resolution accepts exactly consistent valid layers and gives each key its value and origin. |
| `ConfigLauncher.Resolution.WriteChild` | scripts/crystalhd-config.py:1247-1263 | Every adopted key is written to its variable or taken out of it, the rest of the environment staying. |
| `ConfigLauncher.PrepareLaunch` | scripts/crystalhd-config.py:1244-1273 | With selection and acknowledgements decided, a launch is refused exactly when no child is acceptable, and otherwise returns the one that is. |
| `ConfigLaunch.ManagedPrecedence` | scripts/crystalhd-config.py:1151-1160 | Value and origin of a managed key come from the user's profile, or else the system's, the user's settings, the system's, the preset, and last the native value. |
| `ConfigLaunch.LaunchPrecedence` | scripts/crystalhd-config.py:1167-1171 | Above the managed layers come the caller's override, with its own origin, and then the key's variable. |
| `ConfigLaunch.WritesIsShown` | scripts/crystalhd-config.py:1247-1267 | What a launch writes for a key is what the child shows in its variable, unless the parent's environment had decided it without an override. |
| `ConfigKeys.SchemaEntries` | include/crystalhd-config-schema.h:3-26 | For every canonical key the launcher's rule and native value are the schema's. |
| `ConfigKeys.ListedTextsAreRead` | scripts/crystalhd-config.py:973-1009 | A variable with a closed list is read as the value whose own text it holds, and as invalid with the native value as fallback for any other text. |
| `ConfigKeys.SwitchesAreRead` | scripts/crystalhd-config.py:960-1024 | A switch is on exactly for the text 1; the debug variable by being there. |
| `ConfigKeys.ModeIsRead` | scripts/crystalhd-config.py:979-981 | The mode is live exactly for the text 1, and otherwise strict. |
| `ConfigKeys.FreeTextsAreRead` | scripts/crystalhd-config.py:1010-1024 | A free text is its own value; an empty path means the native value. |
| `ConfigSelection.PrepareLaunch` | scripts/crystalhd-config.py:1224-1283 | A launch is refused exactly when preset or profile are unknown, unavailable or misnamed, the acknowledgements are not the required ones, or no child is acceptable. |
| `ConfigSelection.LaunchedIffAcknowledged` | scripts/crystalhd-config.py:1244-1273 | Everything else granted, a launch goes ahead if and only if the acknowledgements, each known and none given twice, are exactly the preset's and those of the risks that the child's environment shows and the parent's had not decided. |
| `ConfigSelection.ChosenNamesArePlain` | scripts/crystalhd-config.py:1132-1147 | Every selected preset and profile name is a valid one, so none holds a colon and only the name unset can look like an unset request. |
| `ConfigSelection.LaunchShowsRequested` | scripts/crystalhd-config.py:1224-1283 | Unless the selected preset or profile is named unset, every accepted launch shows the child the requested value of every key. |
| `ConfigSelection.ResolvesSame` | scripts/crystalhd-config.py:1129-1177 | The launcher accepts the same documents as the resolver the native reader is proved equal to, with the same value for every key. |
| `ConfigSelection.ChildSeesFiles` | scripts/crystalhd-config.py:1224-1283 | From the bytes of both files: for a key no variable sets, the child of an accepted launch reads what the files resolve to. |
| `RuntimeInstallTheorems.ForwardTracks` | scripts/install-runtime.py:362-384 | Every state between two steps of the forward path has exactly a prefix of the leaves new and is marked, or is whole; success has all new and no marker. |
| `RuntimeInstallTheorems.MixIsMarked` | scripts/install-runtime.py:361-385 | In every such state, and in every state of an announced undo, some old and some new leaf together mean the pending marker exists. |
| `RuntimeInstallTheorems.NewVersionIsWhole` | scripts/install-runtime.py:376-381 | Where the new leaves are a prefix, a visible new VERSION means every other leaf is new. |
| `RuntimeInstallTheorems.RestoreTries` | scripts/install-runtime.py:170-188 | One leaf is put back or left with its original still linked, no other leaf changes, and it succeeds exactly when its first primitive does. |
| `RuntimeInstallTheorems.UndoRestores` | scripts/install-runtime.py:385-414 | A successful undo restores every leaf, absences and the earlier marker; any other leaves each original in place or linked and each leaf old or new. |
| `RuntimeInstallTheorems.UndoSucceedsIff` | scripts/install-runtime.py:387-414 | An undo succeeds if and only if no restoring step and no repeated activation fails; its markers may fail. |
| `RuntimeInstallTheorems.UndoCoveredIff` | scripts/install-runtime.py:387-404 | Whatever else fails, every state of an undo is marked or entirely as before if and only if its first marker took effect, was there already, or nothing had changed. |
| `RuntimeInstallTheorems.UndoTracks` | scripts/install-runtime.py:190-200 | A successful undo passes only through prefixes, and only through marked ones if its first marker took effect or was not needed. |
| `RuntimeInstallTheorems.ForwardTicks` | scripts/install-runtime.py:362-384 | The forward path succeeds if and only if none of its primitives fails. |
| `RuntimeInstallTheorems.InstallEnds` | scripts/install-runtime.py:361-419 | The fault schedule decides the result: installed is all new without marker, restored is exactly the state before, and incomplete needs a second failure and stays recoverable. |
| `RuntimeInstallTheorems.InstallIsRestartable` | scripts/install-runtime.py:361-419 | Killed anywhere, the forward path leaves a marked prefix, and the undo a marked or untouched state if and only if it was announced. |
| `RuntimeInstallTheorems.LateFailureMixes` | scripts/install-runtime.py:383-391 | When only the fsync after the marker's removal fails and the marker cannot be written again, a kill during undo can leave any two changed leaves mixed and no marker. |
| `RuntimeInstallTheorems.UnmarkedMixIffLateFailure` | scripts/install-runtime.py:361-419 | Of an installation that ends installed or restored, some state is an unmarked mix if and only if it failed in that way. |
| `RuntimeInstallTheorems.MixNeedsLateFailure` | scripts/install-runtime.py:361-419 | Whatever else fails, and however it ends, no other failure leaves an unmarked mix. |
| `RuntimeInstallDriver.Installer.RestoreLeaf` | scripts/install-runtime.py:170-188 | Restoring a leaf with its retry of the link refines the model. |
| `RuntimeInstallDriver.Installer.RestorePayload` | scripts/install-runtime.py:190-200 | The reverse loop over the touched leaves, going on past failures, refines the model. |
| `RuntimeInstallDriver.Installer.GoForward` | scripts/install-runtime.py:361-384 | The forward path refines the model, touching each leaf before it is replaced. |
| `RuntimeInstallDriver.Installer.Rollback` | scripts/install-runtime.py:385-414 | The handler refines the model. |
| `RuntimeInstallDriver.Installer.InstallRuntime` | scripts/install-runtime.py:361-419 | The whole installation refines the model: result, leaves, links and every intermediate state. |
| `SlotStoreTheorems.StepKeepsIffSafe` | scripts/native-runtime-slots.py:447-584 | An operation keeps directories equal to records, selections retained and distinct, and no installation beside a pending removal, if and only if its faults are safe ones. |
| `SlotStoreTheorems.StoreStaysWhole` | scripts/native-runtime-slots.py:447-584 | So does a sequence of operations, if and only if the faults of each are safe. |
| `SlotStoreTheorems.PublishKeepsIffSafe` | scripts/native-runtime-slots.py:505-524 | Publishing a candidate keeps the store whole if and only if no interrupt falls between moving it in and recording it, and the handler's own steps work. |
| `SlotStoreTheorems.RemoveKeepsIffSurvives` | scripts/native-runtime-slots.py:542-581 | A removal of recorded slots keeps the store whole if and only if the step that raises had no unnoticed effect and the handler's own steps work, or the record was already replaced. |
| `SlotStoreTheorems.BrokenIsRefused` | scripts/native-runtime-slots.py:251-281 | What an unsafe fault leaves, the next operation refuses. |
| `SlotStoreTheorems.OnlyAuditedIsSelected` | scripts/native-runtime-slots.py:447-584 | The active slot changes only to a candidate that passed, to the audited previous slot, or to none. |
| `SlotStoreTheorems.PendingBlocks` | scripts/native-runtime-slots.py:466-467 | While a removal is pending, install, update and rollback change nothing. |
| `SlotStoreTheorems.InstallSucceedsIff` | scripts/native-runtime-slots.py:466-524 | An installation succeeds if and only if install finds no active slot and update finds one, the slot is new and fits, nothing is pending and the candidate passes; the slot is then selected and the earlier one previous. |
| `SlotStoreTheorems.FirstInstallSelects` | scripts/native-runtime-slots.py:468-524 | The first installation into a created store selects its slot, with nothing to roll back to. |
| `SlotStoreTheorems.RollbackSucceedsIff` | scripts/native-runtime-slots.py:525-535 | A rollback succeeds if and only if nothing is pending and an audited previous slot is there, and exchanges the two. |
| `SlotStoreTheorems.RemoveSucceedsIff` | scripts/native-runtime-slots.py:542-581 | A removal succeeds if and only if what was pending is finished and every step works; the store is then as created. |
| `SlotStoreTheorems.RollbackTwice` | scripts/native-runtime-slots.py:525-535 | Two rollbacks are the identity. |
| `SlotStoreTheorems.UpdateThenRollback` | scripts/native-runtime-slots.py:500-535 | A rollback after an update selects what was active before, and keeps the update as previous. |
| `SlotStoreTheorems.RemoveEmpties` | scripts/native-runtime-slots.py:542-581 | A removal without faults finishes what was pending and leaves an empty store. |
| `SlotStoreTheorems.InterruptedMoveBreaks` | scripts/native-runtime-slots.py:561-571 | The smallest instance: one slot, and an interrupt between its move and the handler's list. |
| `SlotStoreDriver.SlotStore.InstallSlot` | scripts/native-runtime-slots.py:468-524 | Install and update refine the model, undoing the rename when the record was not replaced. |
| `SlotStoreDriver.SlotStore.RollbackSlot` | scripts/native-runtime-slots.py:525-535 | Rollback swaps active and previous in one replacement. |
| `SlotStoreDriver.SlotStore.FinishPendingRemoval` | scripts/native-runtime-slots.py:419-444 | A pending removal is deleted and then unrecorded, or left to be tried again. |
| `SlotStoreDriver.SlotStore.UnselectPayload` | scripts/native-runtime-slots.py:558-575 | The slots move away one by one and are then unrecorded; a failure moves back what the handler knows of. |
| `SlotStoreDriver.SlotStore.RemoveAll` | scripts/native-runtime-slots.py:542-581 | Removal refines the model for every fault schedule. |
| `SlotStoreDriver.SlotStore.ExecuteCommand` | scripts/native-runtime-slots.py:447-584 | An inadmissible store is left alone; otherwise the command's model is followed. |
| `RootedPath.WithinIffWalks` | scripts/native-runtime-preflight.py:47-72 | The bounded walk finds an end exactly when the resolution relation leads there through at most that many links. |
| `RootedPath.WalkIsUnique` | scripts/native-runtime-preflight.py:47-72 | Resolution has at most one end and one number of links. |
| `RootedPath.DotIsNothing` | scripts/native-runtime-preflight.py:47-72 | An empty part or a dot changes nothing in a path. |
| `RootedPath.DotsAreParent` | scripts/native-runtime-preflight.py:47-72 | Two dots take back the directory before them, and refuse at the root. |
| `RootedPath.LinkIsTarget` | scripts/native-runtime-preflight.py:47-72 | A link resolves as its target in its place, or at the root if absolute, with one link less to spend. |
| `RootedPath.NameIsLooked` | scripts/native-runtime-preflight.py:47-72 | Any other name must be there, and be a directory if something follows. |
| `RootedPath.Inside` | scripts/native-runtime-preflight.py:47-72 | The worklist loop ends on every tree, and returns exactly the bounded walk's end within 40 links. |
| `RootedPath.FoundIsReal` | scripts/native-runtime-preflight.py:47-72 | A result has no dot parts, only real directories as proper prefixes, no link at its end, and is below the root when nothing outside was looked up. |
| `RootedPath.RootedIffPlainTargets` | scripts/native-runtime-preflight.py:52-71 | Every manifest path is looked up below the root if and only if no link there has a target that begins with exactly two slashes. |
| `RootedPath.FoundIsFixed` | scripts/native-runtime-preflight.py:47-72 | Walking a result again gives it back, in every tree; a result other than the root is a manifest path exactly when it is below the root. |
| `RootedPath.DoubleSlashIsNotRooted` | scripts/native-runtime-preflight.py:65-68 | An instance: a target beginning with exactly two slashes is not read as a path below the root. |

## Left out

- Null pointer arguments: the functions that only check for them refuse before any step that is modelled.
- Registers, PCI configuration, interrupts, wait queues, jiffies, the transmit path and the capture engine: the hardware layer is an oracle with stated answers.
- crystalhd_rx_pause_format and the native receive path beside the retained registry: straight-line users of the same hardware calls.
- The firmware research interface: it runs its own commands in phase COLD, like a file of the old interface.
- Wrap-around of the 64-bit capture epoch: it is a natural number here.
- Conformance of the rest of an SPS, and decoded pixel range: the reader makes no claim about them either.
- Section 7.3.1 of H.264 appends 03 after an RBSP that ends in a zero byte; the escaping function here does not, and the reader refuses such a unit, which no SPS or PPS with its trailing bits is.
- Python's json, re, str and pathlib: their behaviour is specified here as section 7 of RFC 8259, the patterns' meaning, and Python's lists of line breaks and white space.
- The sorted order of serialize_document: every order of keys and profiles is covered, the sorted one among them.
- Error messages and line numbers: refusals are compared, not their texts.
- ReadFile, UserPath, Project and the snapshot cache of the native reader, and file ownership checks: I/O around the modelled functions.
- The texts and JSON checks of the preset manifest, the comparison of process identities, and the two variables that switch the readers off in a child: a manifest entry is its settings, its status and its tokens.
- Command-line overrides come as typed requests: the conversion of their texts is not modelled.
- native_effect: only its READY part, which admits a launch, is modelled.
- The other installer targets, uninstallation, make, locks, directory creation and clean-up of earlier undo directories: no leaf of the payload depends on them.
- File contents, TAR extraction, digests and permissions of the slot store: a slot is its digest, and an audit is an input.
- Other ways for rename, mkdtemp or rmtree to fail half-way than before or after their effect.
- Changes to the file tree while a path is being resolved.
- The GStreamer and VA-API plug-ins, the player, the settings editor and packaging.
