# Boot selection of HIPOS, modelled and proved

HIPOS devices decide at every power-on what to boot. This project models the three parts of the
repository that make the decision and proves what they promise each other.

**The boot configuration log** (`bootconfig`). A NAND partition of any number of erase blocks holds
a ring of 16-byte records. The record of greatest epoch says from which partition kernel and root
file system boot. A request writes a new record to the next block that takes it; a health flag is
cleared by programming a page again without erasing it.

- `Layout`, `Flash`: the record bit by bit, erase and program as bit operations, and a fault script
  that decides every device call, so that a theorem over all scripts is one over all faults.
- `BootConfig`: the C functions as methods of a class over a mutable array and a `Nand` object. Each
  is proved to compute what its specification function in `BootStore` says, or states its result.
- `Reading`, `RingSearch`, `NewRecord`, `Healthy`: what one operation does under every fault.
- `WrittenRecord`: what a request writes, field by field and bit by bit, and what it makes of a run.
- `TornCalls`: what erase and program calls leave behind that fail halfway, bit by bit.
- `PowerCut`, `CrashRuns`, `LogRuns`: what holds after every prefix of device calls, over every run
  with power cuts, and over every run without faults, where the ring is an append-only log.
- `UntameFaults`, `TornWrite`: every torn call outside the assumption breaks the theorems. `Cli`: the
  command line.

**The firmware slots** (the hipos-cyber-security bootloader). `Slots` has the last step of board
start-up, the toggling of the slot, and the persisted variables as a transition system with lost
saves. `Scripts` interprets the stored boot scripts, any command of which may fail, and gives their
text. `FitConf` computes a configuration name in a 32-byte buffer.

**The FIT manifest** (`fitimage.bbclass`). `Manifest` says which tree a list of images is meant to
become. `Dts` reads device tree source; `Its` and `ManifestWriter` print it line by line, and the
reader recovers the intended tree exactly if that tree can be printed. `ManifestProps` has the
properties of that tree, up to the agreement of its names with what the bootloader asks for.
`ManifestContents` says what is in it, node by node, and when there is one. `DeviceTreeFiles` is its
default list.

`dafny verify dfyconfig.toml` checks everything.

## Where the code differs from what one might expect

Each point is kept as the code has it and has its own theorem.

- The epoch is counted up in 32 bits without a check. At the last epoch a request reports success
  and does nothing but wear out a block (`NewRecord.RequestAtLastEpoch`, `NewRecord.RunAtLastEpoch`).
- A request that fails on all blocks leaves records in RAM that were never written, and does not
  read again (`NewRecord.FailureLeavesPhantom`). The command line rereads, which repairs it if
  reading works (`Cli.SetShowsTheTruth`).
- The reread clears one pointer's size per block, not one record's (`Reading.RereadAgreement`).
- The help text says that setting a partition clears all flags; the code sets both flags of the
  image to 1, which is "not booted, not healthy" in its inverted encoding, and keeps the other
  image's flags.
- A program that lands but is reported as failed leaves a record of the same epoch as the one then
  written in its place. Of equals the first is current, so the block that bc_ll_set_partition
  reports need not be the one that boots. It is current exactly as `NewRecord.SuccessIsCurrent`
  says; `NewRecord.ShadowWitness` has the stores and faults in which it is not.
- A torn program call that is reported as failed can leave a record that wins over the one written
  in its place (`TornWrite.TornWriteWins`), and a torn erase can raise an old record. The power-cut
  theorems allow every call that fails, except an erase that reaches some bit of magic or epoch but
  no 0 of the magic, and a program that reaches every 0 of the magic but not all bits of the choice
  (`TornCalls.TornErase`, `TornCalls.TornProgram`). Each call of these two kinds does break them, in
  some store (`UntameFaults.UntameEraseBreaks`, `UntameFaults.UntameProgramBreaks`).
- The boot scripts do not check whether a variable could be set. Kernel, root file system and
  command line are of one slot exactly if what could not be set was right already
  (`Scripts.SlotAgreement`, `Scripts.SetenvMustNotFail`).
- The bootloader cuts configuration names at 31 characters and takes paths without a directory as
  they are (`FitConf.NamesAgree`).
- The manifest always refers to kernel-1, whether or not it has a kernel
  (`ManifestProps.ReferencesResolve`).
- Nothing that is put into the manifest is checked or escaped: the text is read back as the
  intended tree exactly if that tree can be printed (`ManifestWriter.WriteManifest`,
  `Dts.QuotedReadsBack`).
- A device tree that is listed without a directory is included from the root directory, while fdtget
  is asked about the name as it is; any other path with just one slash before the base name is
  included as it was listed (`ManifestContents.DeviceTreesAreIncluded`).
- The signed images of a configuration leave out a device tree without a base name
  (`ManifestProps.SignaturesCover`), and an overlay's configuration can have the name of another
  one (`ManifestProps.ConfNamesAreUnique`).

## Model

| member | source | states |
|---|---|---|
| `Layout.RecordRoundTrip` | recipes-hipos/bootconfig/bootconfig/bootconfig-sources-1.1/src/lowlevel.h:24-39 | Any record written to a page, whatever follows it there, reads back as the same record: the packed little-endian bit fields lose nothing. |
| `Layout.PatternRoundTrip` | recipes-hipos/bootconfig/bootconfig/bootconfig-sources-1.1/src/lowlevel.h:24-39 | The other direction: every 128-bit pattern that can stand in flash is the image of the record it reads as. |
| `Layout.RecordBytes` | recipes-hipos/bootconfig/bootconfig/bootconfig-sources-1.1/src/lowlevel.h:32-39 | A page byte by byte: the magic is four characters, "Boot" exactly if they are those four; epoch and timestamp are little-endian in the next eight. |
| `Layout.RecordFlags` | recipes-hipos/bootconfig/bootconfig/bootconfig-sources-1.1/src/lowlevel.h:24-29 | And flag by flag: partition, not booted and not healthy are bits 109 to 111 for the kernel and 125 to 127 for the root file system, behind 13 reserved bits each. |
| `Flash.DecodePageImage` | recipes-hipos/bootconfig/bootconfig/bootconfig-sources-1.1/src/lowlevel.c:158-161 | The page of 0xFF with the record copied in front reads as that record. |
| `Flash.DecodeErased` | recipes-hipos/bootconfig/bootconfig/bootconfig-sources-1.1/src/lowlevel.c:147-149 | An erased page reads with a magic that is neither "Boot" nor "BAD!". |
| `BootConfig.BootConfig.constructor` | recipes-hipos/bootconfig/bootconfig/bootconfig-sources-1.1/src/lowlevel.c:244-261 | A fresh process zeroes RAM and reads all blocks; it is initialised exactly if some block could be read, and otherwise exits. |
| `BootConfig.BootConfig.CheckBlock` | recipes-hipos/bootconfig/bootconfig/bootconfig-sources-1.1/src/lowlevel.c:91-109 | The RAM record is marked "BAD!" exactly if the device reports the block bad; an error is told apart from a bad block; nothing else in RAM or flash changes. |
| `BootConfig.BootConfig.ReadBootBlock` | recipes-hipos/bootconfig/bootconfig/bootconfig-sources-1.1/src/lowlevel.c:114-137 | A block is read only if the check passes; EUCLEAN counts as success; on any other error RAM keeps what it had. |
| `BootConfig.BootConfig.DoWriteBootBlock` | recipes-hipos/bootconfig/bootconfig/bootconfig-sources-1.1/src/lowlevel.c:142-168 | Erase, then one page program of the padded record; every failure has its own code, and the flash is exactly what the replies of the device make of it. |
| `BootConfig.BootConfig.WriteErrorCheckBootBlock` | recipes-hipos/bootconfig/bootconfig/bootconfig-sources-1.1/src/lowlevel.c:171-196 | No erase or write on a block that fails its check; after a failed erase or write the block is checked again and marked in RAM if it went bad. |
| `BootConfig.BootConfig.UpdateBootBlock` | recipes-hipos/bootconfig/bootconfig/bootconfig-sources-1.1/src/lowlevel.c:200-225 | A block known to be bad is skipped; otherwise its RAM record becomes the previous one with the request applied and a 32-bit epoch counted up, and is written. What that is field by field is stated by WrittenRecord.WrittenPage. |
| `BootConfig.BootConfig.ReadBootConfig` | recipes-hipos/bootconfig/bootconfig/bootconfig-sources-1.1/src/lowlevel.c:228-238 | All blocks are read, in order; -1 exactly if none could be read. |
| `BootConfig.BootConfig.Reread` | recipes-hipos/bootconfig/bootconfig/bootconfig-sources-1.1/src/lowlevel.c:264-274 | RAM is cleared over as many bytes as there are blocks times the size of a pointer, then everything is read; before initialisation it exits. |
| `BootConfig.BootConfig.GetCurrent` | recipes-hipos/bootconfig/bootconfig/bootconfig-sources-1.1/src/lowlevel.c:277-307 | For all array sizes and contents: the least index among "Boot" blocks of the greatest epoch; NULL exactly if every "Boot" block has epoch 0; never a block marked bad. |
| `BootConfig.BootConfig.CurrentOrDummy` | recipes-hipos/bootconfig/bootconfig/bootconfig-sources-1.1/src/lowlevel.c:325-333 | Without a current record the last block becomes a zeroed dummy with all flags up, in RAM only, and the search starts from it. |
| `BootConfig.BootConfig.SetPartition` | recipes-hipos/bootconfig/bootconfig/bootconfig-sources-1.1/src/lowlevel.c:310-352 | The in-place loop over the array refines the recursive ring search of the specification, with the reread on success and none on failure; illegal partitions and calls before initialisation exit and change nothing. |
| `BootConfig.BootConfig.SetHealthy` | recipes-hipos/bootconfig/bootconfig/bootconfig-sources-1.1/src/lowlevel.c:355-426 | Both set-healthy functions: the flag is cleared in RAM first, then the whole padded page is programmed without an erase; a flag already clear writes nothing. |
| `BootStore.CurrentExists` | recipes-hipos/bootconfig/bootconfig/bootconfig-sources-1.1/src/lowlevel.c:288-306 | There is a current record as soon as any "Boot" record has an epoch other than 0. |
| `TornCalls.TornProgram` | recipes-hipos/bootconfig/bootconfig/bootconfig-sources-1.1/src/lowlevel.c:158-165 | A record that a failing program leaves on an erased page boots if and only if the call reached every 0 of the magic, and has the record's choice if and only if it reached every 0 of the choice; its epoch is never lower. |
| `TornCalls.TornErase` | recipes-hipos/bootconfig/bootconfig/bootconfig-sources-1.1/src/lowlevel.c:147-149 | What a failing erase leaves boots if and only if the call reached no 0 of the magic and all of its missing 1s; it keeps magic and epoch if and only if the call reached no 0 of them. |
| `Reading.RereadEffect` | recipes-hipos/bootconfig/bootconfig/bootconfig-sources-1.1/src/lowlevel.c:228-274 | Under every pattern of faults: what each block in RAM becomes, -1 exactly if no block was readable, and the contents of the flash are untouched at every moment. |
| `Reading.RereadAgreement` | recipes-hipos/bootconfig/bootconfig/bootconfig-sources-1.1/src/lowlevel.c:91-137 | After a reread a bad block says "BAD!"; one that was read, or read with corrected bit errors (117), equals the device record; of any other, each field is zero that lies within eb_cnt times the size of a pointer from the start of the array, and each other field is stale. |
| `Reading.InitEffect` | recipes-hipos/bootconfig/bootconfig/bootconfig-sources-1.1/src/lowlevel.c:244-261 | The same for a fresh process, where what cannot be read is zero. |
| `RingSearch.UpdateOneEffect` | recipes-hipos/bootconfig/bootconfig/bootconfig-sources-1.1/src/lowlevel.c:142-225 | An attempt on one block succeeds exactly if it is not known bad and check, erase, allocation and write all work; then the page is the padded record; it erases at most once; a failure leaves the new record or "BAD!" in RAM. |
| `RingSearch.SearchExact` | recipes-hipos/bootconfig/bootconfig/bootconfig-sources-1.1/src/lowlevel.c:335-342 | Every block before the one where the search stops fails; each attempted block is as if attempted alone, once; every other block and always the current one is untouched in flash and RAM. |
| `RingSearch.SearchFinds` | recipes-hipos/bootconfig/bootconfig/bootconfig-sources-1.1/src/lowlevel.c:335-347 | The search stops at the first block in ring order that passes, or comes back to the current one exactly if none passes. |
| `RingSearch.SetPartitionSucceeds` | recipes-hipos/bootconfig/bootconfig/bootconfig-sources-1.1/src/lowlevel.c:325-351 | bc_ll_set_partition returns 0 if and only if some block other than the current one passes, and -1 otherwise. |
| `RingSearch.SetPartitionOnFlash` | recipes-hipos/bootconfig/bootconfig/bootconfig-sources-1.1/src/lowlevel.c:325-351 | The first block to pass gets the new page; the current block and all blocks beyond the first to pass keep theirs; no block is erased twice. |
| `RingSearch.BadBlocksAreLeftAlone` | recipes-hipos/bootconfig/bootconfig/bootconfig-sources-1.1/src/lowlevel.c:208-211 | A block marked bad in RAM or reported bad is never erased or written. |
| `NewRecord.SuccessBootsRequest` | recipes-hipos/bootconfig/bootconfig/bootconfig-sources-1.1/src/lowlevel.c:213-224 | On success, with everything not bad readable at the reread and nothing readable of a higher epoch than the current record, under every tame fault: what boots is the old choice with exactly the requested image changed, flags up, if the epoch could be counted up; the new record is in RAM and counted up in 32 bits either way. |
| `NewRecord.SuccessIsCurrent` | recipes-hipos/bootconfig/bootconfig/bootconfig-sources-1.1/src/lowlevel.c:294-306 | If calls land wholly or not at all, and reading is as in SuccessBootsRequest: the block reported written is the current one if and only if the epoch before was not the last and no block of lower index was tried before it, written all right while the program call said that it failed, and can be read. |
| `NewRecord.ShadowWitness` | recipes-hipos/bootconfig/bootconfig/bootconfig-sources-1.1/src/lowlevel.c:183-195 | Such a store and such faults, for every store with a current record and two more good blocks after it: the request succeeds at the second, and the first is what boots. |
| `NewRecord.SuccessAtLastEpoch` | recipes-hipos/bootconfig/bootconfig/bootconfig-sources-1.1/src/lowlevel.c:218 | At the last epoch, under every such pattern of faults, a request that is reported done changes nothing that boots. |
| `WrittenRecord.WrittenPage` | recipes-hipos/bootconfig/bootconfig/bootconfig-sources-1.1/src/lowlevel.c:200-225 | Whatever fails: the page at which a request stops says "Boot", the epoch after the current one or 1, and the time; in the requested image the given partition, not booted, not healthy, and the old reserved bits; in the other image what booted before, or partition 0, not booted, not healthy; all that also bit by bit, and 0xFF behind. |
| `WrittenRecord.SuccessDoesRequest` | recipes-hipos/bootconfig/bootconfig/bootconfig-sources-1.1/src/lowlevel.c:213-224 | On success as in SuccessBootsRequest the record in RAM is that very one, and below the last epoch what boots is. |
| `WrittenRecord.RunDoesCommand` | recipes-hipos/bootconfig/bootconfig/bootconfig-sources-1.1/src/lowlevel.c:310-426 | After any fault-free run up to the last epoch, one more command does to what boots exactly what it is for, field by field: a request as above, a flag clearing one flag of the current record, a restart nothing. So the log entries are what was requested. |
| `WrittenRecord.EffectDoesCommand` | recipes-hipos/bootconfig/bootconfig/bootconfig-sources-1.1/src/lowlevel.c:310-426 | The same for the effect that runs with power cuts are about. |
| `NewRecord.FailureLeavesPhantom` | recipes-hipos/bootconfig/bootconfig/bootconfig-sources-1.1/src/lowlevel.c:344-347 | After a total failure there is no reread. What is current in RAM is what was before if and only if the epoch was the last, or every other block was known bad or is reported bad by the check before or after its attempt; all of it in terms of the store and the replies before the call. |
| `NewRecord.PhantomWitness` | recipes-hipos/bootconfig/bootconfig/bootconfig-sources-1.1/src/lowlevel.c:344-347 | For every store with a current record and another block not known bad: if all erases fail, a record that no page was changed for is current in RAM. |
| `NewRecord.RequestAtLastEpoch` | recipes-hipos/bootconfig/bootconfig/bootconfig-sources-1.1/src/lowlevel.c:218 | At the last epoch a request reports success, erases a block, and changes neither what boots nor which block is erased next. |
| `NewRecord.RunAtLastEpoch` | recipes-hipos/bootconfig/bootconfig/bootconfig-sources-1.1/src/lowlevel.c:310-352 | So over any run of requests at the last epoch one block takes all the erases, and nothing else changes: the bound in the log and wear theorems is needed. |
| `NewRecord.LogIsFull` | recipes-hipos/bootconfig/bootconfig/bootconfig-sources-1.1/src/lowlevel.c:213-352 | From every unused store, after exactly 2^32 - 1 requests and anything in between: what boots stays the last log entry whatever is requested next, and one block takes one more erase per request. |
| `PowerCut.PowerCutAtomicity` | recipes-hipos/bootconfig/bootconfig/bootconfig-sources-1.1/src/lowlevel.c:310-352 | After any prefix of the device calls of bc_ll_set_partition, the last of which may be cut halfway, a scan finds the old choice or exactly the requested one, whatever subset of the other blocks is readable: under all faults but the two kinds of torn calls that break it. |
| `UntameFaults.UntameProgramBreaks` | recipes-hipos/bootconfig/bootconfig/bootconfig-sources-1.1/src/lowlevel.c:158-165 | That exception is exact for programs: for every set of bits that reaches every 0 of the magic and not all of the choice, there are a store and a request such that a cut after this call boots neither. |
| `UntameFaults.UntameEraseBreaks` | recipes-hipos/bootconfig/bootconfig/bootconfig-sources-1.1/src/lowlevel.c:147-149 | And for erases: for every set of bits that reaches some bit of magic or epoch and no 0 of the magic, an old record is raised above the current one. |
| `PowerCut.InitMirrors` | recipes-hipos/bootconfig/bootconfig/bootconfig-sources-1.1/src/lowlevel.c:244-261 | A fresh process mirrors every block that it could read, has nothing bootable for any other, and boots what a scan of the readable blocks finds: under every pattern of faults. |
| `PowerCut.RereadMirrors` | recipes-hipos/bootconfig/bootconfig/bootconfig-sources-1.1/src/lowlevel.c:264-274 | The same for a reread, if every block that is not reported bad can be read. |
| `CrashRuns.CutScan` | recipes-hipos/bootconfig/bootconfig/bootconfig-sources-1.1/src/lowlevel.c:310-426 | The same as PowerCutAtomicity for every command, flag clearing and plain restarts included, and for cuts after its end; any block but the current one may go bad or unreadable meanwhile. |
| `CrashRuns.CrashRunExplained` | recipes-hipos/bootconfig/bootconfig/bootconfig-sources-1.1/src/lowlevel.c:244-426 | Safety over whole runs: after any number of commands each cut off anywhere, even within a call, between whatever erases and writes failed, and with blocks going bad, each reboot finds the choice of the last or what the command since was to make of it. A run ends early only if a reboot reads a block that could not be read before, or cannot read the current one. |
| `CrashRuns.ReliableRuns` | recipes-hipos/bootconfig/bootconfig/bootconfig-sources-1.1/src/lowlevel.c:244-426 | No run ends early if checks and reads never fail on a fixed set of good blocks. |
| `TornWrite.TornWriteWins` | recipes-hipos/bootconfig/bootconfig/bootconfig-sources-1.1/src/lowlevel.c:183-195 | One torn call at large: in every store of at least three good blocks with a current record, a torn, failed and skipped write leaves a record of the last epoch behind that is neither the old nor the requested one, boots, and can never be replaced. |
| `Slots.HabStates` | recipes-bsp/u-boot/u-boot-2024.01/hipos-cyber-security/himx0294.c:492-523 | 0 exactly on a device that is open by all four criteria, 1 exactly on one that is closed by all four, and otherwise -1. |
| `Slots.PrimaryIs` | recipes-bsp/u-boot/u-boot-2024.01/hipos-cyber-security/himx0294.c:553-575 | With `firmware` 1 the primary slot is B and otherwise A, a pending request turns that around; `firmware` is then the other one and `ustate` is 2. |
| `Healthy.ClearFlagInPlace` | recipes-hipos/bootconfig/bootconfig/bootconfig-sources-1.1/src/lowlevel.c:370-380 | The old page ANDed with the new padded record is the old page with that one flag bit cleared: all other bits and the padding stay, so programming without an erase is legal and stores the intended page. |
| `Healthy.ClearFlagCannotTear` | recipes-hipos/bootconfig/bootconfig/bootconfig-sources-1.1/src/lowlevel.c:378-384 | Even torn anywhere, a failed flag write leaves the page as it was or with just the flag cleared. |
| `Healthy.SetHealthyEffect` | recipes-hipos/bootconfig/bootconfig/bootconfig-sources-1.1/src/lowlevel.c:355-426 | Under every pattern of faults: RAM has the flag cleared, the page is old or cleared, cleared and mirrored on success, nothing is erased, no other block is touched; a flag already clear changes nothing at all. |
| `Healthy.SetHealthyBits` | recipes-hipos/bootconfig/bootconfig/bootconfig-sources-1.1/src/lowlevel.c:355-426 | Bit 111 is cleared for the kernel and bit 127 for the root file system, with 0, -1 and 1 returned exactly if it was clear or was written, if malloc fails, and if mtd_write fails. |
| `Healthy.FlagsCommute` | recipes-hipos/bootconfig/bootconfig/bootconfig-sources-1.1/src/lowlevel.c:355-426 | The two calls commute: always on RAM, and on the page if the last call of each order succeeds, whether or not the first did. Repeating either writes nothing, whatever became of it. |
| `LogRuns.CurrentOfLog` | recipes-hipos/bootconfig/bootconfig/bootconfig-sources-1.1/src/lowlevel.c:277-307 | In every reachable fault-free state, bc_ll_get_current is the last log entry, in the block written last. |
| `LogRuns.SoundDevice` | recipes-hipos/bootconfig/bootconfig/bootconfig-sources-1.1/src/lowlevel.c:91-168 | The assumption of the log theorems can be met for every set of bad blocks: by the device on which everything else works. |
| `LogRuns.FreshStart` | recipes-hipos/bootconfig/bootconfig/bootconfig-sources-1.1/src/lowlevel.c:244-261 | Where runs begin: a fresh process on a device whose good blocks were never written finds an unused store, with RAM mirroring the flash. |
| `LogRuns.SetKeeps` | recipes-hipos/bootconfig/bootconfig/bootconfig-sources-1.1/src/lowlevel.c:310-352 | A request appends one entry to the log on the next good block in ring order and keeps the representation. |
| `LogRuns.FlagKeeps` | recipes-hipos/bootconfig/bootconfig/bootconfig-sources-1.1/src/lowlevel.c:355-426 | Clearing a flag changes just the last log entry. |
| `LogRuns.RestartKeeps` | recipes-hipos/bootconfig/bootconfig/bootconfig-sources-1.1/src/lowlevel.c:244-261 | A restart keeps the log. |
| `LogRuns.LogRefinement` | recipes-hipos/bootconfig/bootconfig/bootconfig-sources-1.1/src/lowlevel.c:277-352 | From an unused device with any bad set and two good blocks, any sequence of requests, flag clearings and restarts refines the append-only log: the last entry boots and is current, and the good blocks hold exactly the last entries in ring order with consecutive epochs, those without an entry nothing bootable, if and only if at most 2^32 - 1 requests were made. |
| `LogRuns.WearLevelling` | recipes-hipos/bootconfig/bootconfig/bootconfig-sources-1.1/src/lowlevel.c:335-342 | In any such run, erase counts of two good blocks differ by at most one, each is the number of turns or one more, and bad blocks are never erased. |
| `Cli.MtdRoundTrip` | recipes-hipos/bootconfig/bootconfig/bootconfig-sources-1.1/src/main.c:147-154 | Under 32-bit wrap-around exactly mtd2 and mtd3 are accepted for the kernel and mtd4 and mtd5 for the root file system, for partitions 0 and 1; the number printed for the stored partition is the number given. |
| `Cli.Set` | recipes-hipos/bootconfig/bootconfig/bootconfig-sources-1.1/src/main.c:136-163 | A number other than mtd2, mtd3 for the kernel or mtd4, mtd5 for the root file system changes nothing; otherwise set, reread whatever the outcome, and show the current record. |
| `Cli.SetFlag` | recipes-hipos/bootconfig/bootconfig/bootconfig-sources-1.1/src/main.c:96-131 | Clears the flag of the current record, if there is one and it is up; two guards in a row are one. |
| `Cli.SetShowsTheTruth` | recipes-hipos/bootconfig/bootconfig/bootconfig-sources-1.1/src/main.c:136-163 | If every block not reported bad is readable at the end, none of them unread before and the once current one among them, what is shown is what booted before or what was requested, even though the result of the request is ignored; if it succeeded below the last epoch at a block that can be read, it is what was requested, field by field, and the MTD number shown is the one given. Blocks may go bad meanwhile. |
| `Slots.Board.GenerateBootcmd` | recipes-bsp/u-boot/u-boot-2024.01/hipos-cyber-security/himx0294.c:543-587 | In terms of the numbers in the environment and of the texts: exactly with upgrade_available and ustate 1 the slot is toggled, marked done, and persisted if the save lands; then `firmware` 1 gives setup_part_b in bootcmd and setup_part_a in altbootcmd, any other value the reverse; altbootcmd has the legacy path only with an update available and HAB state 0. |
| `Slots.Board.LateInit` | recipes-bsp/u-boot/u-boot-2024.01/hipos-cyber-security/himx0294.c:589-625 | Choice of the device tree file, HAB state, configuration name and boot commands, in this order, over the saved environment: the texts as in GenerateBootcmd, where the legacy path is there exactly with an update available on a device that is not enabled, reports success, is open and not secure at this very boot; the configuration name is that of the file chosen, if it could be set. |
| `Slots.ChosenFiles` | recipes-bsp/u-boot/u-boot-2024.01/hipos-cyber-security/himx0294.c:591-616 | Which board variant gets which device tree file: only the default is replaced, by one file for each of the three variants. |
| `Slots.ChosenNamesFit` | recipes-bsp/u-boot/u-boot-2024.01/hipos-cyber-security/himx0294.c:591-616 | And which configuration: the names asked for, literally; they are those under which the manifest has these files, and the longest base name has just the 26 characters that fit. |
| `Slots.BootTextFits` | recipes-bsp/u-boot/u-boot-2024.01/hipos-cyber-security/himx0294.c:577-583 | None of the four command texts is cut off by the 64-byte buffers; each is exactly the script it is meant to be. |
| `Slots.BootEndToEnd` | recipes-bsp/u-boot/u-boot-2024.01/hipos-cyber-security/himx0294.c:553-586 | From the numbers in the environment and the state of the device to every bootm, however commands fail: every bootm of bootcmd agrees with the primary slot, and every bootm of altbootcmd with the other one, each if and only if its settings worked or were right already as SlotAgreement says; a legacy image is reached exactly from altbootcmd, with an update available, on a device open by all four criteria, once its FIT image failed. |
| `Slots.RequestsAreConserved` | recipes-bsp/u-boot/u-boot-2024.01/hipos-cyber-security/himx0294.c:553-566 | Over any run of boots, lost saves and user steps: requests plus those pending at the start equal changes of the persisted slot plus withdrawals plus those pending at the end. So at most one change per request. |
| `Slots.SlotStability` | recipes-bsp/u-boot/u-boot-2024.01/hipos-cyber-security/himx0294.c:543-587 | The primary slot at the end of any run is that at its start if and only if requests and withdrawals together are even in number. |
| `Slots.BootsBetweenRequests` | recipes-bsp/u-boot/u-boot-2024.01/hipos-cyber-security/himx0294.c:543-587 | Between two requests every boot picks the same slot, however many power cuts lose the save. |
| `Scripts.BootScriptBoots` | recipes-bsp/u-boot/u-boot-2024.01/hipos-cyber-security/himx0294.h:129-143 | All that a boot command boots, under any failures: one or two bootms, what exactly was loaded for each and from where, and the slot on its command line; then it has booted or reset. |
| `Scripts.SlotAgreement` | recipes-bsp/u-boot/u-boot-2024.01/hipos-cyber-security/himx0294.h:129-143 | Interpreting the stored scripts from arbitrary variables, with any commands failing, with and without the legacy tail: every bootm reached has its boot partition, everything it loaded, the firmwareslot argument and the mounted root file system in one slot, if and only if the variables for loading could each be set or were right already, and the slot got onto each command line, from a firmwareslot that was set or right, or was there before. |
| `Scripts.SetenvWorks` | recipes-bsp/u-boot/u-boot-2024.01/hipos-cyber-security/himx0294.h:129-143 | So they agree, whatever loads and boots fail, if variables can be set. |
| `Scripts.SetenvMustNotFail` | recipes-bsp/u-boot/u-boot-2024.01/hipos-cyber-security/himx0294.h:140-141 | If just bootpart cannot be set, the kernel of one slot boots with the command line of the other. |
| `Scripts.TextsAreStored` | recipes-bsp/u-boot/u-boot-2024.01/hipos-cyber-security/himx0294.h:129-141 | The text that the environment stores for each script is that of the very commands which the interpreter runs for it. |
| `FitConf.BoardGenerateFitConf` | recipes-bsp/u-boot/u-boot-2024.01/hipos-cyber-security/himx0294.c:525-541 | The value computed in place in the zero-padded 32-byte buffer is "conf-" and the first 26 characters of the base name, for every path; a file without a directory is taken as it is. |
| `FitConf.NamesAgree` | classes/fitimage.bbclass:303-307 | The bootloader asks for the node the manifest emits if and only if the path has a directory and a base name of at most 26 characters. |
| `FitConf.NamesAreDistinct` | recipes-bsp/u-boot/u-boot-2024.01/hipos-cyber-security/himx0294.c:531-537 | A path asks for the node of another device tree exactly if that one's base name is its own cut to 26 characters; so within the bound the map is injective. |
| `Text.SplitAppend` | classes/fitimage.bbclass:404-405 | The space-joined accumulator re-splits to the same list with the new word at its end. |
| `Text.SpacesAre` | classes/fitimage.bbclass:404 | Which characters Python splits at, within ASCII, by their codes. |
| `Text.SplitLaid` | classes/fitimage.bbclass:404-405 | Splitting yields exactly the words of a text, with any white space before, between and after them. |
| `Text.PathSplits` | classes/fitimage.bbclass:405 | Every path is a directory, slashes and a base name; splitting yields the base name and the directory, or without one just the slashes. |
| `Dts.ReadInverts` | classes/fitimage.bbclass:135-350 | Any text that lexes to the tokens of a printable tree is read as exactly that tree: balanced, nothing left over. |
| `Dts.ReadIsPrintable` | classes/fitimage.bbclass:135-350 | The other direction: whatever is read from any text is a printable tree, with names that can stand as names, strings that can stand between quotes, and words. |
| `Dts.QuotedReadsBack` | classes/fitimage.bbclass:169 | Texts are written between quotes as they are: after anything, they are read back if and only if every quote and backslash in them is escaped. |
| `Its.Fd.constructor` | classes/fitimage.bbclass:135-138 | The version tag and the opened root node, literally. |
| `Its.Fd.OpenNode` | classes/fitimage.bbclass:149-150 | The exact line that opens a node; it opens exactly that node for the reader. |
| `Its.Fd.CloseNode` | classes/fitimage.bbclass:155-156 | The exact closing line; it adds the open node to the one below it. |
| `Its.Fd.CloseRoot` | classes/fitimage.bbclass:143-144 | The exact footer; it completes the tree, and then the reader recovers it if and only if all of it can be printed. |
| `Its.Fd.StringProp` | classes/fitimage.bbclass:168 | The exact line of a string property; it adds exactly that property. |
| `Its.Fd.IncbinProp` | classes/fitimage.bbclass:169 | The same for included files. |
| `Its.Fd.CellsProp` | classes/fitimage.bbclass:174-177 | The same for cells. |
| `Its.Fd.StringsProp` | classes/fitimage.bbclass:272-278 | The same for a comma-joined list of strings. |
| `ManifestWriter.EmitSectionKernel` | classes/fitimage.bbclass:158-181 | Writes exactly the intended kernel node, optional properties included. |
| `ManifestWriter.EmitSectionDtb` | classes/fitimage.bbclass:186-217 | Writes exactly the intended node of a device tree or overlay. |
| `ManifestWriter.EmitSectionRamdisk` | classes/fitimage.bbclass:223-246 | Writes exactly the intended ramdisk node. |
| `ManifestWriter.EmitSectionBootscript` | classes/fitimage.bbclass:248-264 | Writes exactly the intended boot script node. |
| `ManifestWriter.EmitSubsectionSignature` | classes/fitimage.bbclass:266-281 | Writes exactly the intended signature node. |
| `ManifestWriter.EmitSectionConfig` | classes/fitimage.bbclass:286-331 | Writes exactly the intended configuration, and before the first one the default property. |
| `ManifestWriter.EmitSectionConfigFdto` | classes/fitimage.bbclass:336-350 | Writes exactly the intended configuration of an overlay. |
| `ManifestWriter.EmitImage` | classes/fitimage.bbclass:387-459 | One round of the loop fails exactly if there is no intended node, and otherwise writes it and gathers its device trees. |
| `ManifestWriter.EmitImages` | classes/fitimage.bbclass:387-460 | The whole loop writes the image nodes in list order. |
| `ManifestWriter.EmitDtbConfs` | classes/fitimage.bbclass:467-478 | One configuration for each gathered device tree, the first after the default; fails exactly if one has no compatible string. |
| `ManifestWriter.EmitDtboConfs` | classes/fitimage.bbclass:479-490 | One configuration for each gathered overlay, where a failing fdtget is tolerated. |
| `ManifestWriter.WriteManifest` | classes/fitimage.bbclass:352-498 | Printer round trip for every image list: it succeeds exactly if there is an intended tree, and then the reader recovers exactly that tree from the text if and only if every name, string and word of it can be printed. |
| `ManifestProps.DeviceTreesAreKept` | classes/fitimage.bbclass:403-443 | The string accumulators split into exactly the device trees that the images list, in order: none lost, doubled or moved. |
| `ManifestProps.ConfigurationAt` | classes/fitimage.bbclass:465-490 | One configuration per device tree in order, then one per overlay in order, and no more. |
| `ManifestProps.DefaultIsFirst` | classes/fitimage.bbclass:302-306 | With a device tree: the default is the override, or else the first configuration's name, unless that is empty, when there is no default; with only overlays there is none. |
| `ManifestProps.SignatureCovers` | classes/fitimage.bbclass:309-329 | With signing on, the sign-images list of one configuration is the list of image properties that the node defines, if and only if the device tree has a base name; for overlays always. |
| `ManifestProps.SignaturesCover` | classes/fitimage.bbclass:309-350 | So over a whole manifest: every configuration signs exactly its images if and only if every device tree besides overlays has a base name. |
| `ManifestProps.ImageNodes` | classes/fitimage.bbclass:387-459 | The image nodes are, whole and in list order, those the images ask for. |
| `ManifestProps.ReferencesResolve` | classes/fitimage.bbclass:309-315 | Every kernel, fdt, ramdisk and bootscr reference names an emitted node if and only if there is a kernel item or no device tree besides overlays: kernelcount is fixed. |
| `ManifestProps.ImageNamesAreUnique` | classes/fitimage.bbclass:158-264 | Image node names are unique if and only if there is at most one kernel and one ramdisk, and the base names of device trees and the boot script files are distinct. |
| `ManifestProps.ConfNamesAreUnique` | classes/fitimage.bbclass:286-350 | Configuration names are unique if and only if device trees have distinct base names, overlays too, and no overlay's name is that of a device tree with the prefix. |
| `ManifestProps.SmallestManifest` | classes/fitimage.bbclass:387-497 | One kernel and one device tree with a compatible string make a manifest, whatever the variables are. |
| `ManifestContents.RootIs` | classes/fitimage.bbclass:135-150 | Every manifest has the description, one address cell, and the sections images and configurations. |
| `ManifestContents.ImagesAreDescribed` | classes/fitimage.bbclass:387-459 | The images section of every manifest: how many nodes, and node by node in list order exactly the properties that the image's type, its flags and the variables ask for, which variable for which property; the one hash node; for device trees the file of that base name in that directory. |
| `ManifestContents.DeviceTreesAreIncluded` | classes/fitimage.bbclass:404-443 | Over every manifest: the node of a device tree, an overlay or an fdtapply result includes the very path that was listed, and that fdtget is asked about, if and only if it has a directory and just one slash before its base name. |
| `ManifestContents.DefaultPathsArePlain` | classes/fitimage.bbclass:374-375 | Paths of the default list are of that form, if the deploy directory is given without a slash at its end. |
| `ManifestContents.ConfigurationsAreDescribed` | classes/fitimage.bbclass:465-490 | The configurations section of every manifest: one configuration for each device tree in order, then for each overlay, with exactly the properties that the list, the variables and fdtget ask for: the number and parts in the description, the references, the first word that fdtget prints, and every property of the signature. |
| `ManifestContents.DeviceTreesOfOne` | classes/fitimage.bbclass:399-443 | Which device trees an image lists, by its type: those of its files or the default, or the one result of fdtapply. |
| `ManifestContents.DeviceTreesConcat` | classes/fitimage.bbclass:387-443 | And a list of images: those of its images, one after the other. |
| `ManifestContents.OverlayCommandIs` | classes/fitimage.bbclass:423-435 | The fdtoverlay command: there is one exactly if the first file ends in .dtb and the others in .dtbo, and it names them all in order, in the deploy directory if they name none, and the result. |
| `ManifestContents.BuildSucceeds` | classes/fitimage.bbclass:387-497 | When the build makes a manifest, as an equivalence over the list, the variables and the tools: every image has a known type and what it needs, no boot script follows one with a file, there is a device tree or overlay, and fdtget works and prints something where it must. |
| `ManifestContents.DecimalReads` | classes/fitimage.bbclass:308 | The number in a configuration's description reads as that number, without zeros in front. |
| `DeviceTreeFiles.LessIs` | classes/fitimage.bbclass:373 | The order of the default list: a proper prefix comes first, and else the smaller character at the first place where two names differ. |
| `ManifestProps.BootloaderFindsConfiguration` | recipes-bsp/u-boot/u-boot-2024.01/hipos-cyber-security/himx0294.c:525-541 | Bootloader and manifest together: for a path with a directory and a base name of at most 26 characters that the image list brings, the configuration asked for at boot is in the manifest and names that device tree; if configuration names are unique, it is the only one of its name. |
| `DeviceTreeFiles.GetDtbs` | classes/fitimage.bbclass:362-377 | The default list: exactly the names with the suffix that are base names of what the kernel lists or in the directory; in the order that LessIs describes, so each once; each from the directory if it is there and from the deploy directory otherwise, with the paths spelled out. |
| `DeviceTreeFiles.DefaultTreesAreDistinct` | classes/fitimage.bbclass:371-377 | The default list re-splits into paths with exactly those base names, all distinct, so it never breaks unique node names by itself. |
| `DeviceTreeFiles.DefaultImageBrings` | classes/fitimage.bbclass:362-443 | An image that lists no files and has that default brings the nodes of exactly the device trees found, each once. |

## Left out

- ManifestWriter.WriteManifest: the reader keeps strings as they are spelled, escapes included, and knows neither comments nor expressions of device tree source, nor its limits on the length of names.
- PowerCut.PowerCutAtomicity: a power cut within a call leaves what some set of bits reached by a failing call leaves; bits that read differently from one time to the next are not modelled.
- CrashRuns.CrashRunExplained: a block that could not be read at one boot and can be at a later one may hold a record of any age, so nothing is claimed once that happens.
- Slots.SlotStability: bounds and wrap-around of the environment's numbers are not modelled; the variables are what parsing them returns.
- Scripts.SlotAgreement: which of the two boot commands runs, by the boot counter, is not modelled.
- FitConf.BoardGenerateFitConf: an unset fdt_file, which the code would dereference, is not modelled.
- Cli.Set: the number is taken as already scanned from `mtd%u`; every text that does not scan exits before anything else.
- BootConfig.BootConfig.constructor: opening the device and allocating memory, which exit on failure, are not modelled; a failing malloc of a page is.
- libmtd is replaced by the `Nand` class. A read that fails, other than with EUCLEAN, is taken to leave the buffer alone. Block numbers and contents are the library's; device driver state is not modelled.
- Timestamps are an arbitrary function of the block, and no property depends on them.
- The bit order of the packed fields is that of the little-endian target.
- Logging, and the printing of records other than the MTD numbers.
- Variables of the manifest are texts, as the recipe would print them: a variable that is unset and printed without a test would show as None, and that text stands for it. Warnings and notes are dropped; they do not change the manifest.
- fdtget and fdtoverlay answer arbitrarily, as functions of their input; uboot-mkimage, copying and deploying the result are left out.
- White space beyond ASCII in what Python splits.
- The other bootloader boards and board functions (pins, displays, buses, the HAB calls themselves, how a board variant is detected), the rest of the mount script, provisioning, network and tuning scripts: input and output of hardware and system, or finite tables.
