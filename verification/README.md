# A verified model of the FPGA driver stack

This project models the algorithms and protocols inside a set of Linux drivers for FPGA cards and proves what
they promise. The drivers change device registers, buffers and lists step by step, so most of the model is
imperative: a class per driver object, methods with loops for its functions, each tied to a specification on
values, and lemmas about that specification. Hardware answers, interrupts, user requests and kernel calls whose
code is elsewhere are nondeterministic: a theorem holds for every answer and every moment.

| file | what it models | main results |
|---|---|---|
| `FileToAlias.dfy`, `AmbaAlias.dfy`, `AliasGlob.dfy` | device-version intervals and masked identifiers compiled to glob text | the emitted patterns mean the interval, exactly when; the masks always |
| `RegmapDump.dfy` | the cached register dump in debugfs | reads of any sizes join into the whole dump |
| `FpgaMgr.dfy` | contiguous and scatter-gather image loading | both deliver the same byte stream, and succeed together, exactly when |
| `DflEnum.dfy`, `DflParams.dfy` | device feature list enumeration and parameter chains | the walk stays in its window, passes over nothing, and commits each device its own features |
| `Stratix10.dfy` | service buffers shared with a mailbox callback | buffers in flight stay safe; 0 means all sent and all freed |
| `Sva.dfy` | shared-virtual-addressing handles under hot-unplug | over every run, each bind undone once, each record freed once |
| `Zynq.dfy` | the DMA queue fed from two contexts | commands are the mapped pieces in order, the last one flagged |
| `Cvp.dfy`, `Packing.dfy` | credit-throttled block writes | never past the credit granted; words are the packing of the image, of fragments exactly when |
| `SecUpdate.dfy`, `Pmci.dfy` | a secure update run with a cancel at any time | what every run leaves behind; when the flash gets the image; which cancels are lost |
| `DmaRegion.dfy` | the search tree of DMA regions | what search finds and insertion keeps among overlapping regions, exactly when |
| `Ports.dfy` | open counters, port release, SR-IOV | reachable-state invariants |
| `PtpTod.dfy` | clock rate and offset adjustment | rounding error of the drift fraction; exact offsets, exactly when |
| `PerfCounter.dfy` | split reads of a running counter, shared fabric counters | the value read is one the counter had |
| `AlteraSpi.dfy` | polled and interrupt-driven word transfers | same words sent, same bytes received; echo returns the buffer |
| `Common.dfy`, `Arithmetic.dfy`, `Numeral.dfy` | an option type, bytes, flattening; facts of division and products; hex digits | |

Where the code falls short of what it is for, the project keeps the code as it is, proves the exact condition
under which it meets its purpose, and states an input at which it does not:

- A decimal device-version entry whose upper bound lies above 0x9999 loses versions, and so does an open upper
  bound when the lower one carries out of the top digit (`Representable`, `Remains`; `TopBlockLost`: 0x0000 to 0xA000,
  `CarryLost`: from 0x9001). A pattern of three prefix digits with a free last digit prints neither a set nor a
  star (`FreeLastDigit`; `LastDigitLost`: 0x0100 to 0x0109).
- The contiguous image path refuses a data size beyond the image, the scatter path ignores it (`AgreeExactly`;
  `DataSizeOverrun`).
- Images whose size is not a multiple of four lose or damage their last bytes on the way to the flash
  (`BulkUploadExact`, `StagedUploadExact`, `StagedImageExact`; `FifthByteLost`: five bytes, `StagedWrong`).
- A DMA area that runs past the end of the 64-bit address space passes the containment check (`CheckExact`,
  `SearchExact`; `WrappedAreaPasses`). No caller in the repository passes such an area:
  drivers/fpga/dfl-afu-dma-region.c searches by start only (line 350), and insertion checks a region that
  dma_map_page has just placed (line 225).
- DMA regions may overlap, because the same pages can be mapped twice. Every covered area is found in every search
  tree of the stored regions exactly when none of them ends before one that starts earlier (`CoveredFoundExactly`;
  `OverlapHides`: of a region mapped over a smaller one the upper part is not found), and the region found is the
  one a scan finds exactly when they are disjoint (`ScanAgreesExactly`). Insertion keeps the first exactly when the
  new region does not end after one that starts later (`AddedKeepsEnds`), the second exactly when it is disjoint
  from all (`AddedKeepsOrder`). Search by start, which is what unmapping uses, is right in every tree.
- A cancel accepted after the write request and before the worker's prepare step is answered with 0 and forgotten:
  line 1442 of drivers/fpga/intel-m10-bmc-sec-update.c clears the flag. An accepted cancel fails to stop an update
  that otherwise succeeds only then, or when every block had been written (`SecUpdate.Update.UploadMain`;
  `CancelTooEarly`: a cancel right after the write request).
- A parameter block whose last header claims data beyond the feature is sized and copied all the same (`CopyInside`;
  `LastDataOutside`: 32 KiB from a feature of 4 KiB).
- A second write to the Stratix 10 driver after one that returned 0 finds every buffer freed and its slot locked, and
  with data to send it loops for ever (`Stratix10.S10.OpsWrite`).
- Fragments of an image that are not whole numbers of words reach a CvP device with padding between them
  (`FragmentsExact`; `PaddingShows`).
- Below 22889 Hz the clock's period range check accepts a truncated period (`RangeCheckExact`; `WrongPeriod`). A
  large negative clock offset is applied in the wrong direction (`AdjustTime`; `WrongDirection`). The comment on
  the coarse adjustment promises subtraction; the code passes the magnitude and adds.
- An interrupt-driven SPI transfer of no words sends one (`ModesAgree`; `NoWordsSendsOne`).
- A Zynq transfer that times out with D_P_DONE set counts as a success whatever is still to be queued, because
  line 435 of drivers/fpga/zynq-fpga.c has cleared what line 453 tests; only for hardware that sets D_P_DONE after
  the flagged command does that mean all was queued (`EarlyDoneAccepted`; `Zynq.Loader.OpsWrite`: every run in which
  the queue fills up and D_P_DONE is all that is reported).

## Model

| member | source | states |
|---|---|---|
| FileToAlias.IncBcd | scripts/mod/file2alias.c:238-273 | hands back the previous value and leaves the stepped one, computed digit by digit with a 64-bit accumulator |
| FileToAlias.NextDecimal | scripts/mod/file2alias.c:238-273 | on four decimal digits stepping is exactly plus or minus one, stays decimal, and no decimal number lies between |
| FileToAlias.DecMonotone | scripts/mod/file2alias.c:238-273 | digit order and decimal order are the same |
| FileToAlias.FindMode | scripts/mod/file2alias.c:292-302 | decimal exactly when every digit of both bounds is at most 9, the upper bound cut to 0x9999 |
| FileToAlias.RoundUp | scripts/mod/file2alias.c:305-329 | what the low tuple of a pass accepts is exactly what rounding the low bound up skips |
| FileToAlias.RoundDown | scripts/mod/file2alias.c:305-329 | the same for the high tuple and rounding down |
| FileToAlias.GapPass | scripts/mod/file2alias.c:305-332 | what a pass does when the upper bound is forced into decimal and the top block is lost |
| FileToAlias.GoingPass | scripts/mod/file2alias.c:305-332 | every pass keeps: the tuples so far accept exactly the versions outside the remaining bounds, disjointly |
| FileToAlias.LastOpen | scripts/mod/file2alias.c:275-338 | for an open upper bound the last tuple makes the result exact iff no carry left the top digit |
| FileToAlias.RangeSetMeans | scripts/mod/file2alias.c:190-213 | the printed bracket set contains exactly the digits between the bounds, across the gap between 9 and A |
| FileToAlias.DoUsbEntry | scripts/mod/file2alias.c:168-214 | the printed text matches a version, by glob rules, exactly when the tuple does, except for the tuples that lose their last digit |
| FileToAlias.DoUsbEntryMulti | scripts/mod/file2alias.c:275-338 | tuples accept exactly the interval iff Representable, and otherwise exactly what Kept says (everything, without an upper bound); pairwise disjoint iff bounded or Representable; texts accept what the tuples do, or nothing when the last digit is free; at most seven; none for a placeholder |
| FileToAlias.TopBlockLost | scripts/mod/file2alias.c:305-332 | what is emitted for decimal 0x0000 to 0xA000 accepts exactly the versions below 0x9000 |
| FileToAlias.CarryLost | scripts/mod/file2alias.c:305-332 | whatever is emitted for decimal 0x9001 and up is neither exact nor disjoint |
| FileToAlias.LastDigitLost | scripts/mod/file2alias.c:190-214 | for decimal 0x0100 to 0x0109 the tuples are exact and the texts are not |
| AmbaAlias.AndDigit | scripts/mod/file2alias.c:1152-1154 | bitwise and works digit by digit |
| AmbaAlias.AppendNibbleMask | scripts/mod/file2alias.c:1095-1129 | appends a free digit, the digit itself, or the set of all digits that agree under the mask |
| AmbaAlias.DigitMeans | scripts/mod/file2alias.c:1095-1129 | that expression matches a digit iff the digit agrees with the nibble under the mask |
| AmbaAlias.IdMeans | scripts/mod/file2alias.c:1150-1154 | a text of such expressions matches a number iff the number agrees under the whole mask |
| AmbaAlias.DoAmbaEntry | scripts/mod/file2alias.c:1137-1157 | refuses an identifier with bits outside its mask; otherwise the alias matches exactly the devices with (device & mask) == identifier |
| RegmapDump.Regmap.CalcTotLen | drivers/base/regmap/regmap-debugfs.c:181-191 | the line length, computed once |
| RegmapDump.Regmap.BuildCache | drivers/base/regmap/regmap-debugfs.c:109-155 | the cache is exactly the maximal runs of printable registers, at contiguous file positions |
| RegmapDump.Regmap.Lookup | drivers/base/regmap/regmap-debugfs.c:157-179 | in range: the register whose line holds the offset and that line's position; past the end: the end |
| RegmapDump.Regmap.GetDumpStart | drivers/base/regmap/regmap-debugfs.c:95-179 | on first build and on reuse the answer of a plain scan of the registers; the cache, once built, is kept |
| RegmapDump.Regmap.ScanForFinds | drivers/base/regmap/regmap-debugfs.c:95-179 | the plain scan finds the k-th printable register for every offset inside its line, none past the last |
| RegmapDump.Regmap.NextReadableReg | drivers/base/regmap/regmap-debugfs.c:193-213 | the printable register after this one, across run boundaries, or -EINVAL after the last |
| RegmapDump.LineReads | drivers/base/regmap/regmap-debugfs.c:250-270 | a line reads back: hex digits that stand for the register, a colon and a blank, hex digits that stand for its value or a row of X when it could not be read, a newline |
| RegmapDump.Regmap.FromFindsAll | drivers/base/regmap/regmap-debugfs.c:109-127 | the plain scan finds exactly the printable registers at multiples of the stride |
| RegmapDump.Regmap.ReadDebugfs | drivers/base/regmap/regmap-debugfs.c:215-282 | the whole lines that fit, from the first at or after the position on, each reading as its register with the value this call found or X; the position advances by what was returned; error cases change nothing |
| RegmapDump.Regmap.OneRead | drivers/base/regmap/regmap-debugfs.c:215-282 | a read at a line start serves at least one line unless at the end, and ends at a line start; its lines read as their registers |
| RegmapDump.Regmap.SessionDumps | drivers/base/regmap/regmap-debugfs.c:215-282 | from any line on, reads of any sizes until an empty one give exactly the remaining lines in order, each reading as its register with a value one of the reads found |
| RegmapDump.Regmap.SessionEnds | drivers/base/regmap/regmap-debugfs.c:215-282 | an empty read comes after at most as many reads as there are lines left |
| RegmapDump.Regmap.WholeDump | drivers/base/regmap/regmap-debugfs.c:215-282 | reading until an empty read yields one line for every printable register at a multiple of the stride, ascending, none skipped or repeated, each reading as that register with a value one of the reads found or X |
| FpgaMgr.Manager.ParseHeaderSg | drivers/fpga/fpga-mgr.c:212-259 | the gathering loop ends and returns the gathered prefix with the parser's last answer, never -EAGAIN |
| FpgaMgr.Manager.PrepareSg | drivers/fpga/fpga-mgr.c:293-342 | header parsing and write_init over a scatter list, with the state each error leaves; write_init is called at most once, with no bytes or with a part of the image from its start that holds the header, and its answer decides |
| FpgaMgr.Manager.BufLoadSg | drivers/fpga/fpga-mgr.c:361-412 | the scatter load: header skipping, data size, each fragment once, first error wins; write_init is called as PrepareSg says and, for a consistent parser, iff the header can be read; nothing is written unless it answered 0 |
| FpgaMgr.Manager.BufLoadMapped | drivers/fpga/fpga-mgr.c:414-448 | the contiguous load: size check, header skipping, data size, one write; write_init is called once unless the header is refused, with the whole image or with no bytes, and nothing is written unless it answered 0 |
| FpgaMgr.SkipFlattens | drivers/fpga/fpga-mgr.c:372-381 | skipping into a scatter list drops exactly that many bytes, and fails exactly when there are not that many |
| FpgaMgr.GatherSettles | drivers/fpga/fpga-mgr.c:212-259 | for a parser consistent on prefixes, gathering ends with its answer on the whole image |
| FpgaMgr.HeaderAgrees | drivers/fpga/fpga-mgr.c:293-342 | the scatter header phase sees that answer together with at least the header, or there is no readable header |
| FpgaMgr.ChunksAreTaken | drivers/fpga/fpga-mgr.c:383-405 | the fragments written are at any time a prefix of the data up to the data size, all of it if every write succeeds |
| FpgaMgr.SgDelivers | drivers/fpga/fpga-mgr.c:361-412 | what the scatter path hands to the write op, in terms of the concatenated image |
| FpgaMgr.MappedDelivers | drivers/fpga/fpga-mgr.c:414-448 | what the contiguous path hands to the write op, and which answer ends the load |
| FpgaMgr.SameStream | drivers/fpga/fpga-mgr.c:361-448 | if both paths succeed their outcomes are equal; the scatter path never delivers anything but a prefix |
| FpgaMgr.AgreeExactly | drivers/fpga/fpga-mgr.c:361-448 | the paths succeed on the same images iff the size check and the first header look agree |
| FpgaMgr.DataSizeOverrun | drivers/fpga/fpga-mgr.c:162-163 | a data size beyond the image fails one path and not the other |
| DflParams.DfhGetParamSize | drivers/fpga/dfl.c:1225-1250 | the size of the parameter block is the span of the header chain up to the end-of-parameters header; an error iff the chain leaves the feature before that header |
| DflParams.ChainShape | drivers/fpga/dfl.c:1225-1250 | headers of a chain ascend, stay inside the block, and only the last ends it |
| DflParams.CopyInside | drivers/fpga/dfl.c:1225-1319 | the copied block stays inside the feature iff the data of its last header does; that of the others always does, and a last header without a next offset passes the end by less than 16 bytes |
| DflParams.LastDataOutside | drivers/fpga/dfl.c:1225-1319 | a feature of 4 KiB for which 32 KiB are copied |
| DflParams.FindParam | drivers/fpga/dfl.c:1080-1101 | the search over the copied block follows the next-offset links |
| DflParams.SearchFollowsChain | drivers/fpga/dfl.c:1080-1101 | it visits the headers of the sizing walk, in that order |
| DflParams.SearchAgreesWithSizing | drivers/fpga/dfl.c:1225-1250 | when sizing succeeds the search returns the first header with the id, or none iff none has it, and its data lies inside the copied block |
| DflParams.DfhFindParam | drivers/fpga/dfl.c:1111-1127 | the data window starts right behind the header found and has the length its link gives |
| DflEnum.ReadFeatureSize | drivers/fpga/dfl.c:1038-1062 | the next-offset loop ends and computes the size characterised by SizeMeans |
| DflEnum.SizeMeans | drivers/fpga/dfl.c:1038-1062 | 4096 without a next offset, the next offset at the end of the list, otherwise the distance to the first following header that is not an interface, past the interfaces in between; the end after an interface that ends the list; 0 when the list runs out |
| DflEnum.FeatureSound | drivers/fpga/dfl.c:1533-1557 | one header keeps: window start plus length is the list end, resources inside the window, features in order |
| DflEnum.WalkSound | drivers/fpga/dfl.c:1559-1597 | the same over the rest of the walk, across every re-basing at an interface |
| DflEnum.EnumerateSound | drivers/fpga/dfl.c:1559-1597 | each group's features come from headers inside its own window and, unless absolute, their registers lie in the list; groups ascend |
| DflEnum.WalkHas | drivers/fpga/dfl.c:1559-1597 | an interface or private header visited whose registers are behind it, absolute or inside the list is in the result as the feature it describes, and nothing found is lost again |
| DflEnum.NothingPassedOver | drivers/fpga/dfl.c:1559-1597 | every such header of a list enumerated with success, of version 0 or 1, is in some device with its own identifier, revision and version |
| DflEnum.EnumerateExact | drivers/fpga/dfl.c:1273-1597 | a list is enumerated with success iff no header on it is a reason to give up; the headers visited then fall into one window for each interface, and each group has exactly the type and the features the headers of its window stand for, in order |
| DflEnum.EveryAfuLands | drivers/fpga/dfl.c:1392-1504 | every AFU of a port, by NEXT_AFU or by a header in its window, is a feature 0xff of its own group over the number of KiB the capability gives; nothing else is a feature 0xff but a private header with that identifier |
| DflEnum.FiuExact | drivers/fpga/dfl.c:1455-1504 | an interface closes the group before it and opens one with its own header and, for a port, its AFU, or gives up for a reason |
| DflEnum.DenseResources | drivers/fpga/dfl.c:865-925 | a device has the type of its interface and its features in order; all but the interface header get the resource indices 0, 1, 2, ... and each index is its own feature's range |
| DflEnum.Binfo.CreateFeatureDevData | drivers/fpga/dfl.c:821-933 | the device built from the collected features |
| DflEnum.Binfo.CommitDev | drivers/fpga/dfl.c:998-1022 | the collected group becomes one more device and collection starts afresh |
| DflEnum.Binfo.CreateFeatureInstance | drivers/fpga/dfl.c:1273-1390 | one feature added with its version's register range, or skipped, or the error specified; any other failure is a kernel call's |
| DflEnum.Binfo.ParseFeatureFiu | drivers/fpga/dfl.c:1455-1504 | commits the device so far and re-bases the window at the interface, as FiuExact characterises it |
| DflEnum.Binfo.ParseFeatureList | drivers/fpga/dfl.c:1559-1597 | success means exactly the groups that EnumerateExact characterises were committed, one device each; unless a kernel call failed the answer is that of the list |
| Stratix10.QueuedIsSafe | drivers/fpga/stratix10-soc.c:239-271 | a buffer in flight is allocated, locked and still holds what was submitted |
| Stratix10.ReturnedInv | drivers/fpga/stratix10-soc.c:142-168 | the service layer giving a buffer up keeps every slot locked for a reason and changes nothing of the driver's |
| Stratix10.UnlockedInv | drivers/fpga/stratix10-soc.c:119-134 | so does the callback's unlock |
| Stratix10.LockedInv | drivers/fpga/stratix10-soc.c:246-252 | the driver winning a lock gets a buffer that is allocated and neither queued nor on its way back |
| Stratix10.FilledInv | drivers/fpga/stratix10-soc.c:256-257 | filling the held buffer disturbs no queued payload |
| Stratix10.SubmittedInv | drivers/fpga/stratix10-soc.c:258-259 | queueing it keeps the invariant |
| Stratix10.FreedInv | drivers/fpga/stratix10-soc.c:71-93 | freeing a held buffer frees nothing queued |
| Stratix10.S10.UnlockBuf | drivers/fpga/stratix10-soc.c:119-134 | unlocks exactly the slot of the returned buffer |
| Stratix10.S10.ReceiveCallback | drivers/fpga/stratix10-soc.c:142-168 | sets the status bits and, with BUFFER_DONE only, unlocks the returned buffers |
| Stratix10.S10.SendBuf | drivers/fpga/stratix10-soc.c:239-271 | submits the next up to 512 KiB in a free buffer or submits nothing; never returns 0; -ENOBUFS only if every slot was locked, and always once every buffer is freed |
| Stratix10.S10.FreeBuffers | drivers/fpga/stratix10-soc.c:71-93 | true iff no slot has a buffer left, and then nothing is allocated or in flight |
| Stratix10.S10.AwaitStatus | drivers/fpga/stratix10-soc.c:311-339 | BUFFER_DONE or BUFFER_SUBMITTED gives 0, else ERROR gives -EFAULT, else silence gives -ETIMEDOUT; exactly the bit acted on is cleared |
| Stratix10.S10.OpsWrite | drivers/fpga/stratix10-soc.c:277-345 | in any call what it submits is always a prefix of its image; it ends with the first report or claim answer that is an error; 0 means none was, all of the image was submitted, every buffer freed, nothing in flight; with the buffers already freed it returns at once without data and never with data |
| Sva.StepInv | drivers/fpga/dfl-pci-sva.c:105-382 | every operation keeps: bind ledger balanced, live links between files and records, list exact, records accounted for |
| Sva.EveryRunIsSafe | drivers/fpga/dfl-pci-sva.c:105-382 | after any run: no file refers to a freed record, nothing is bound on a removed device, each bind is either undone once or held by an open file, each record is live or freed once |
| Sva.NothingLeaks | drivers/fpga/dfl-pci-sva.c:136-306 | with all files closed and devices gone, every bind was undone exactly once and every record freed exactly once |
| Sva.HistoryGrows | drivers/fpga/dfl-pci-sva.c:105-382 | no step takes back an undo or a free, and only bindings held are undone |
| Sva.RemovalIsFinal | drivers/fpga/dfl-pci-sva.c:136-306 | a removed record gets no device again and goes exactly with its last file |
| Sva.DeletedUnbinds | drivers/fpga/dfl-pci-sva.c:274-306 | removal leaves none of the device's open files bound, and keeps them open |
| Sva.Driver.Open | drivers/fpga/dfl-pci-sva.c:105-134 | opens iff the device is present and memory is there, the error otherwise; no other file changes |
| Sva.Driver.Bind | drivers/fpga/dfl-pci-sva.c:169-195 | returns the PASID iff the file ends up bound on a present device: the one bound before, else the one the IOMMU answers, or its error; no other file changes |
| Sva.Driver.Unbind | drivers/fpga/dfl-pci-sva.c:197-212 | undoes the file's binding and no other, or -ENODEV after removal |
| Sva.Driver.Release | drivers/fpga/dfl-pci-sva.c:136-167 | undoes, closes, and frees the record when it was the last of a removed device |
| Sva.Driver.AddDev | drivers/fpga/dfl-pci-sva.c:319-365 | at most one record per device; SVA stays enabled iff there is a record |
| Sva.Driver.DelDev | drivers/fpga/dfl-pci-sva.c:274-382 | unlists, force-unbinds every open file of the device and no other, frees the record iff none is open |
| Zynq.QueuedInOrder | drivers/fpga/zynq-fpga.c:160-210 | the commands decode to the mapped pieces once each in order; the flag is on the last piece of the table only |
| Zynq.FlagMeansAll | drivers/fpga/zynq-fpga.c:177-185 | a flagged command means the whole table was queued |
| Zynq.EarlyDoneAccepted | drivers/fpga/zynq-fpga.c:433-459 | clearing what is left before line 453 tests it changes the verdict iff pieces are left, D_P_DONE is reported and no error is: a failure then passes for a success |
| Zynq.Loader.StepDma | drivers/fpga/zynq-fpga.c:160-210 | queues on until the queue is full or nothing is left, exactly as many as it takes, and leaves the interrupt enabled that goes on with it |
| Zynq.Loader.Isr | drivers/fpga/zynq-fpga.c:212-236 | feeds on iff DMA is done without error and pieces remain; otherwise masks interrupts and completes |
| Zynq.Loader.Interrupts | drivers/fpga/zynq-fpga.c:212-236 | over any sequence of hardware steps and interrupts: the handler completes only with an error reported or everything queued and D_P_DONE reported, and nothing is queued after it has; while pieces are left a D_P_DONE alone raises nothing |
| Zynq.Loader.OpsWrite | drivers/fpga/zynq-fpga.c:384-483 | commands are a prefix of the table however interrupts fall; 0 iff the hardware reported the end and no error; for any hardware, success on completion means the whole table was queued; success after a timeout means it for hardware that reports the end only after the flagged command, and for other hardware every run in which the queue fills up and D_P_DONE alone is reported succeeds with pieces left; clock and mapping released on every path; misaligned tables write nothing |
| Cvp.CreditVisible | drivers/fpga/altera-cvp.c:229-263 | comparing totals modulo 256 tells that credit is left exactly when the device is not ahead by a positive multiple of 256 |
| Cvp.WrapKeepsLowByte | drivers/fpga/altera-cvp.c:245-247 | the 32-bit packet count may wrap without harm |
| Cvp.Conf.WaitForCredit | drivers/fpga/altera-cvp.c:229-263 | 0 only with credit left; -ETIMEDOUT only after 2001 reads, -EAGAIN only after a failed check, and neither when credit was left to begin with |
| Cvp.Conf.SendBlock | drivers/fpga/altera-cvp.c:265-283 | writes the packing of the block, whatever lies in memory past its end |
| Cvp.Conf.Write | drivers/fpga/altera-cvp.c:431-482 | in any call, behind what earlier calls wrote: a block is sent only under credit; written words pack a whole number of blocks of the image; success means all of it, with the error flag found clear after every 4 KiB and at the end; nothing is sent after a check that failed, and a failure has a cause |
| Cvp.Conf.WriteFragments | drivers/fpga/fpga-mgr.c:383-405 | fragments written one after another until one fails: on success each is packed apart, and together they pack the image when all before the last that has bytes are whole words |
| Cvp.FragmentsExact | drivers/fpga/fpga-mgr.c:383-405 | fragments of given sizes, packed apart, are the packing of the whole image for all contents iff every one followed by a non-empty one is a whole number of words |
| Cvp.PaddingShows | drivers/fpga/altera-cvp.c:265-283 | for images without zero bytes it is never the packing otherwise |
| Packing.PackedExactly | drivers/fpga/altera-cvp.c:265-283 | unpacking the words gives back the bytes and at most three zero bytes |
| Packing.LittleEndian | drivers/fpga/altera-cvp.c:265-283 | byte j of word k is byte 4 k + j of the image, the least significant first, or padding |
| Packing.WordsSplit | drivers/fpga/altera-cvp.c:265-283 | packing splits at word boundaries |
| Packing.MaskedTail | drivers/fpga/altera-cvp.c:274-280 | masking removes exactly what was read past the end |
| Pmci.FlashBulkWrite | drivers/mfd/intel-m10-bmc-pmci.c:54-86 | fails iff a wait for a chunk times out, with exactly the chunks before it in the FIFO; otherwise the FIFO gets all the specified words |
| Pmci.FifoIsPacking | drivers/mfd/intel-m10-bmc-pmci.c:54-86 | which words: the packing of the buffer, without its last partial word for the sizes the loop mishandles |
| Pmci.FifoExact | drivers/mfd/intel-m10-bmc-pmci.c:54-86 | the FIFO gets every byte iff the size is a multiple of 4 or fewer than 4 bytes past a multiple of 0x800 |
| Pmci.FifthByteLost | drivers/mfd/intel-m10-bmc-pmci.c:69-74 | of five bytes the fifth never reaches the FIFO |
| Pmci.StagedExact | drivers/fpga/intel-m10-bmc-sec-update.c:482-513 | a staged block is right for every image iff it is a whole number of words or the first block |
| Pmci.StagedBlockExact | drivers/fpga/intel-m10-bmc-sec-update.c:482-513 | a staged block is right iff it is a whole number of words or the odd bytes at its end equal those the code takes for them |
| Pmci.StagedWrong | drivers/fpga/intel-m10-bmc-sec-update.c:505 | for every later block with odd bytes at its end, an image that is staged wrongly |
| SecUpdate.BulkUploadExact | drivers/fpga/intel-m10-bmc-sec-update.c:1485-1513 | over a complete transfer through the FIFO the flash gets the image iff its size is one of those |
| SecUpdate.StagedUploadExact | drivers/fpga/intel-m10-bmc-sec-update.c:1485-1513 | through the staging area: for every image of a size iff the size is a multiple of 4 or a single block |
| SecUpdate.StagedImageExact | drivers/fpga/intel-m10-bmc-sec-update.c:1485-1513 | for one image iff its odd bytes at the end, if any, repeat those at that place of the first block |
| SecUpdate.LastBlockDecides | drivers/fpga/intel-m10-bmc-sec-update.c:1485-1513 | everything before the last block arrives intact on either path |
| SecUpdate.Update.SecPrepare | drivers/fpga/intel-m10-bmc-sec-update.c:1435-1481 | keeps the flash lock exactly on success, with the device ready; never touches a lock another holds, leaves the firmware state normal or untouched on error; refuses exactly the sizes 0 and past the staging area, and every other error has its cause in the registers, the lock or a cancel; every cancel accepted before is lost, and afterwards the flag says whether one was accepted since |
| SecUpdate.Update.SecFwWrite | drivers/fpga/intel-m10-bmc-sec-update.c:1485-1513 | one block at the offset to a device ready for data, or nothing; nothing at all once a cancel is pending |
| SecUpdate.Update.SecPollComplete | drivers/fpga/intel-m10-bmc-sec-update.c:1515-1548 | succeeds only with the device told to go ahead and then found at progress 0 or 8 with a good status; never once a cancel is pending; every error has its cause |
| SecUpdate.Update.SecCleanup | drivers/fpga/intel-m10-bmc-sec-update.c:1564-1574 | firmware state normal, lock released |
| SecUpdate.Update.RsuCancel | drivers/fpga/intel-m10-bmc-sec-update.c:1412-1433 | aborts only a device that is ready for data; never reports success |
| SecUpdate.Update.FlashLock | drivers/mfd/intel-m10-bmc-pmci.c:200-216 | takes the lock iff it was free |
| SecUpdate.Update.FlashUnlock | drivers/mfd/intel-m10-bmc-pmci.c:218-226 | called only with the lock held |
| SecUpdate.Update.IoctlWrite | drivers/fpga/fpga-image-load.c:153-210 | accepts a request iff both copies from user space, its fields, memory and the eventfd are in order, with the first failure as the answer; a refused one changes nothing |
| SecUpdate.Update.CancelTooEarly | drivers/fpga/fpga-image-load.c:282-290 | a cancel right after the write request is answered with 0; unless another follows, prepare never ends as cancelled and on success leaves no cancel pending |
| SecUpdate.Update.Cancel | drivers/fpga/fpga-image-load.c:282-290 | sets the flag and answers 0, only while an update is under way; an earlier cancel keeps its place |
| SecUpdate.Update.Transfer | drivers/fpga/fpga-image-load.c:110-126 | the loop ends; the blocks tile a prefix of the image, all of it on success |
| SecUpdate.Update.UploadMain | drivers/fpga/fpga-image-load.c:91-151 | every run ends idle, lock as found, firmware state normal, image and device reference dropped, one signal; no error means all blocks written, the device told once to go ahead and found at progress 0 or 8 with a good status, and the flash port given the packing of the image iff its size (or, staged, its odd bytes) allow it; no error although a cancel was accepted means it came before prepare, where it is lost, or after every block was written; only a cancel that is not lost ends a run as cancelled; a bus error or a refused size has its cause |
| DmaRegion.CheckExact | drivers/fpga/dfl-afu-dma-region.c:189-197 | the check means containment in every region iff the area does not run past the end of the address space |
| DmaRegion.WrappedAreaPasses | drivers/fpga/dfl-afu-dma-region.c:189-197 | an area that runs past the end of the address space passes for part of a page at its start |
| DmaRegion.TopRegionLost | drivers/fpga/dfl-afu-dma-region.c:189-197 | a region is found by its own start iff it does not end exactly at 2^64 |
| DmaRegion.RefusedForCause | drivers/fpga/dfl-afu-dma-region.c:208-240 | in every search tree a region is refused only when a stored one covers it or starts where it starts, and always when one starts there |
| DmaRegion.RefusedExactly | drivers/fpga/dfl-afu-dma-region.c:208-240 | in a tree whose ends ascend with its starts it is refused iff a stored one covers it or starts where it starts |
| DmaRegion.AddedKeepsOrder | drivers/fpga/dfl-afu-dma-region.c:208-240 | an accepted region is added to the others in a search tree still, of disjoint regions iff they were and it is disjoint from all |
| DmaRegion.AddedKeepsEnds | drivers/fpga/dfl-afu-dma-region.c:208-240 | an accepted region leaves ends ascending iff they were and it does not end after a region that starts later |
| DmaRegion.OverlapHides | drivers/fpga/dfl-afu-dma-region.c:208-338 | a region accepted over a smaller one is not found for an area it covers above that one |
| DmaRegion.SearchStep | drivers/fpga/dfl-afu-dma-region.c:308-338 | following one link loses no region that covers the area |
| DmaRegion.SearchIsScan | drivers/fpga/dfl-afu-dma-region.c:308-338 | the walk along the links finds what a scan finds: by start in every search tree, for an area in every tree of disjoint regions |
| DmaRegion.SearchExact | drivers/fpga/dfl-afu-dma-region.c:308-338 | in every tree of disjoint regions iff the area does not run past the end of the address space |
| DmaRegion.SearchFinds | drivers/fpga/dfl-afu-dma-region.c:308-338 | in a tree whose ends ascend the walk finds a covering region iff there is one |
| DmaRegion.CoveredFoundExactly | drivers/fpga/dfl-afu-dma-region.c:308-338 | every covered area is found in every search tree of the regions iff their ends ascend with their starts |
| DmaRegion.ScanAgreesExactly | drivers/fpga/dfl-afu-dma-region.c:308-338 | every search tree of the regions returns for every area what a scan returns iff they are disjoint |
| DmaRegion.RemovedKeepsOrder | drivers/fpga/dfl-afu-dma-region.c:249-258 | removal takes out exactly the region and its pages |
| DmaRegion.AddThenRemove | drivers/fpga/dfl-afu-dma-region.c:208-258 | adding and removing gives the same regions back, overlapping or not |
| DmaRegion.Afu.Add | drivers/fpga/dfl-afu-dma-region.c:208-240 | the link-following loop hangs the region exactly where the recursive insertion does, and refuses exactly when that does |
| DmaRegion.Afu.Find | drivers/fpga/dfl-afu-dma-region.c:308-338 | the loop is that walk, for any area in any tree; so it returns what a scan returns where SearchIsScan says, and a covering region iff there is one where ends ascend |
| DmaRegion.Afu.MapRegion | drivers/fpga/dfl-afu-dma-region.c:384-455 | accepted iff the area is whole pages, not empty, does not wrap, memory is there, pinning succeeds, the pages are contiguous, mapping answers and insertion accepts (iff nothing blocks it, where ends ascend), with the error of the first that fails; wherever the mapping lands, exactly the stored regions are mapped and their pages pinned; a failed call changes nothing; the regions stay disjoint iff the new one is disjoint from all, and keep ends ascending iff it does not end after a later one |
| DmaRegion.Afu.UnmapRegion | drivers/fpga/dfl-afu-dma-region.c:465-490 | removes the region that starts there iff there is one and it is not in use, with the error that says which; otherwise nothing changes |
| Ports.StepOk | drivers/fpga/dfl.c:1888-2049 | every operation keeps: counter equals open files plus one if released, exclusive means one, released means exclusive, released_port_num right |
| Ports.EveryRunIsSafe | drivers/fpga/dfl.h:361-388 | in every reachable state; and an open succeeds iff nobody holds the port exclusively and, for an exclusive one, nobody has it open |
| Ports.VfExactly | drivers/fpga/dfl.c:2015-2049 | VF configuration succeeds iff no port is released or exactly as many as asked for, and then switches exactly the released ports |
| Ports.ReleaseThenAssign | drivers/fpga/dfl.c:1888-1957 | assigning a released port back undoes the release |
| Ports.ReleaseExactly | drivers/fpga/dfl.c:1888-1915 | a port is released iff it exists, has a device and no file is open on it; it then has no device, is held exclusively and counts as released; every error changes nothing |
| Ports.AssignExactly | drivers/fpga/dfl.c:1929-1957 | it is assigned back iff it exists, is released and its device registers; it then has its device and nobody has it open |
| Ports.Container.ReleasePort | drivers/fpga/dfl.c:1888-1915 | the release step, through the exclusive open of the use counter |
| Ports.Container.AssignPort | drivers/fpga/dfl.c:1929-1957 | the assign step; the use counter never underflows |
| Ports.Container.ConfigPortsVf | drivers/fpga/dfl.c:2015-2049 | the configure step that VfExactly characterises, with the released ports counted by a loop |
| Ports.Container.SriovConfigure | drivers/fpga/dfl-pci.c:451-484 | iff no port is released or as many as asked for, and enabling succeeds, every released port serves a virtual function; if enabling fails they are in PF mode, otherwise nothing changes |
| PtpTod.RangeCheckExact | drivers/ptp/ptp_dfl_tod.c:140-142 | the range check is right for every advertised adjustment iff the clock runs at 22889 Hz or more |
| PtpTod.Reduced | drivers/ptp/ptp_dfl_tod.c:148-149 | dividing by the gcd keeps the fraction |
| PtpTod.GcdGreatest | drivers/ptp/ptp_dfl_tod.c:148-149 | every common divisor divides the one used |
| PtpTod.HalvedRatio | drivers/ptp/ptp_dfl_tod.c:151-155 | halving both parts moves the fraction by less than one over the halved denominator |
| PtpTod.Tod.DriftFor | drivers/ptp/ptp_dfl_tod.c:144-155 | the loop ends with the fewest halvings of the reduced fraction that fit 16 bits, exact without halving, otherwise within that bound |
| PtpTod.Tod.AdjustFine | drivers/ptp/ptp_dfl_tod.c:126-169 | accepted iff the truncated period fits; the period is the quotient, the drift registers that halved fraction, its rate 0 only for a drift of 0; refused changes nothing |
| PtpTod.NominalDrift | drivers/ptp/ptp_dfl_tod.c:137-158 | at 156.25 MHz and the nominal rate: period 0x66666, a drift of 2 every 5 cycles |
| PtpTod.Tod.CoarseAdjust | drivers/ptp/ptp_dfl_tod.c:98-124 | adds exactly the nanoseconds, carrying into seconds |
| PtpTod.Tod.AdjustTime | drivers/ptp/ptp_dfl_tod.c:171-224 | the clock moves by exactly delta iff delta is not negative or fine enough, that is at most 0xFFFFF steps of what the period leaves room for; fine adjustments leave the time alone, coarse ones the period; periods and counts fit 20 bits |
| PtpTod.WrongDirection | drivers/ptp/ptp_dfl_tod.c:181-210 | at a period of 6.4 ns, turning the clock back by 6291456 ns turns it forward by as much |
| PtpTod.WrongPeriod | drivers/ptp/ptp_dfl_tod.c:140-142 | for every clock below 22889 Hz, an advertised adjustment that is accepted with a period that does not fit |
| PerfCounter.SplitReadSound | drivers/fpga/dfl-fme-perf.c:269-286 | the value of a round that ends lies between the counter's first and last value, and is the first unless the counter ran 2^32 further |
| PerfCounter.RetryMeansCarry | drivers/fpga/dfl-fme-perf.c:269-286 | a repeated round has seen a carry |
| PerfCounter.HighFirstFails | drivers/fpga/dfl-fme-perf.c:269-286 | with the halves read in the other order the check would let a wrong value through |
| PerfCounter.Counter.Read | drivers/fpga/dfl-fme-perf.c:269-286 | the retry loop ends; the value returned lies between the counter at the last round's first read and at the end, and is the former unless the counter ran 2^32 further meanwhile |
| PerfCounter.Fabric.Init | drivers/fpga/dfl-fme-perf.c:363-412 | a new event is accepted iff none runs or it is of the port counted; running events keep their port |
| PerfCounter.Fabric.Destroy | drivers/fpga/dfl-fme-perf.c:414-420 | one user less, same port |
| AlteraSpi.EchoReturnsTx | drivers/spi/spi-altera-core.c:90-141 | a device that echoes gives back the transmit buffer, for word sizes 1, 2 and 4 |
| AlteraSpi.SentSendsBuffer | drivers/spi/spi-altera-core.c:90-115 | each word sent has its bytes of the buffer, the least significant first, or is 0 without a buffer |
| AlteraSpi.ReceivedStoresAnswers | drivers/spi/spi-altera-core.c:117-141 | each byte stored is that byte of the word shifted back |
| AlteraSpi.PosIsProduct | drivers/spi/spi-altera-core.c:90-141 | word k lies at byte bpw * k |
| AlteraSpi.Spi.Irq | drivers/spi/spi-altera-core.c:184-202 | one word in, the next one out, finalized with the last |
| AlteraSpi.Spi.Transfer | drivers/spi/spi-altera-core.c:143-202 | in either mode: the words due are sent in order, byte j of word k being byte bpw * k + j of the buffer, and byte j of the answer to word k stored there; the rest of the receive buffer is untouched |
| AlteraSpi.ModesAgree | drivers/spi/spi-altera-core.c:143-202 | the modes send the same words, and receive the same bytes, iff there is at least one word |
| AlteraSpi.NoWordsSendsOne | drivers/spi/spi-altera-core.c:163-172 | a transfer of no words sends the byte at the buffer in interrupt mode and nothing in polling mode |

## Left out

- FileToAlias and AmbaAlias: other device table entries, and the USB class and product fields before and after the
  version.
- RegmapDump: one value per register during a read call, no allocation failure, `max_register` plus stride below
  2^31, and ranges that start at a non-zero register.
- FpgaMgr: drivers with their own `write_sg`, memory allocation failure, mapping pages of a scatter list.
- DflEnum: interrupt resources are an oracle for each feature, GUIDs are not copied, 32-bit wrap of parameter
  sizes is excluded; the device bus, character devices and sysfs.
- Stratix10.S10.OpsWrite: that the loop ends when there are buffers depends on the service layer; the model looks at
  any bounded number of rounds.
- Stratix10: requesting reconfiguration and waiting for its completion.
- Sva: formatting of names, and an open that races with the record being freed after deregistration.
- Zynq: programming sequence before the transfer, sync-word check, byte swapping.
- Cvp: clock ratio, set-up and teardown register sequences.
- SecUpdate: a second write request while an update is in flight, and retimer loading beside it; log output.
- Pmci: reading the flash back.
- DmaRegion.Afu.MapRegion: regions that end at 2^64 or beyond; dma_map_page answers with bus addresses inside the
  address range of the device and its IOMMU, which no platform extends to the last byte (`TopRegionLost` says what
  the check makes of one that ends exactly there).
- DmaRegion: red-black rebalancing and the tree's nodes as objects (the tree is a value of the port, links are
  paths), pinning itself, destruction of all regions at close.
- Ports: port reset and interrupt clean-up at last close; the access bit on assignment.
- PtpTod: reading and setting the time; a clock rate of 0 and a period that leaves no room for a step, both
  divisions by zero; wrap of the time in nanoseconds.
- PerfCounter: event start and stop accounting; counters that wrap.
- AlteraSpi: chip select, target mode, and word sizes of three bytes (which transfer nothing). The buffers are
  given as memory; for an interrupt-driven transfer of no words that memory includes the one word it touches.
- Timing, lock order, and hardware that never answers.
