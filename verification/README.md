# MakOS verification

A Dafny model of the parts of MakOS where a mistake loses data or misplaces bytes: the journal
protocol that quarantines Cargo trees, the image builders and their readers, the text editor, the
browser's decoders, the dynamic linker, and the Snake game. The sources are Python tools, C
programs and one Python game; the model keeps their branches, constants and error paths.
`dafny verify dfyconfig.toml` checks the whole project.

## Reading order

| files | what they model |
|---|---|
| `MigrationFs`, `MigrationProtocol` | a file system with unsynced directory changes, and `quarantine_moved_cargo` as a state machine whose steps are single file-system calls |
| `MigrationSafety`, `MigrationConvergence`, `MigrationDurability`, `MigrationRecovery`, `MigrationVerdict` | what every killed, restarted and power-cut series of runs keeps, and when a run succeeds |
| `MigrationRun` | the command itself as a class, proved to take only steps of that machine |
| `FatFormat`, `FatImage`, `FatBuild`, `FatRead`, `FatBytes` | a FAT32 reader, the image `mkfat.py` promises, the builder, reading it back, and its fixed bytes |
| `FatProbe`, `FatRefuse` | the tool that patches its configuration, and the images it takes by their offsets |
| `DiskFile`, `Package*` | package installation, verification, listing and integration into a data image; `PackageRefuse` has the accepted images by their offsets and the refusal of damage |
| `Gpt`, `GptRead`, `GptBytes` | the partitioned disk, a checking reader of it, and its fixed bytes |
| `LiteralScan` | the chunked search for required literals |
| `TextModel`, `TextView` | the editor's commands on plain sequences, and its layout |
| `TextSession`, `TextRuns`, `TextKeys` | the whole editor as one value with one step per event, what holds of every run, and what each key does byte for byte |
| `TextEdit` | the editor over its fixed buffer, proved to take exactly those steps |
| `Chunked`, `ChunkedRfc` | the browser's chunked decoder, and the chunked body of RFC 9112 against it |
| `Dns`, `DnsHost`, `DnsParse`, `WordWrap`, `History` | its DNS client, line wrapping and address history |
| `Linker`, `LinkerRun`, `LinkerSlots` | relocation of two ELF images in one memory that also holds their tables, and the slots read back from that memory |
| `Snake` | the game loop |
| `Bytes` | little-endian fields, splices, and images written region by region |

## What came out

- A kill while the journal's temporary is being written leaves a partial temporary, and every later
  run refuses it (`PartialTempIsReached`). That is the only obstacle: `Convergence` proves a finished
  run succeeds if and only if it found no partial temporary, and `RecoveryConverges` proves the same
  after power losses, where a temporary's content may be anything.
- From any volume whatsoever the migration's exit code is decided by the entries it finds:
  `EndsExactly` gives the exact condition for 0, and proves that a refusal moves no tree.
- Kills alone and power losses alone are safe. Together they are not: if a run is killed after it
  unlinks the temporary and before it syncs the quarantine directory, while the journal's name is
  not yet on disk and the host tree still has to move, the next run takes the journal as installed
  without syncing that directory, and a power loss can then keep the moved tree and lose the
  journal. `KillWindow` proves that these kills, and no others, can do so.
  `WindowIsReached` shows that every first run with a host tree passes through the window.
- The chunked decoder accepts inputs that section 7.1 of RFC 9112 does not allow. `ConformsExactly`
  gives the exact condition under which an accepted input conforms: its last size line has a digit,
  every extension is well formed, and a trailer section and the closing line break follow. Each of
  the three can fail alone (`DigitlessInput`, `NamelessExtension`, `UnfinishedInputs`). Conversely,
  `AcceptsExactly` and `TakenLine` give what it refuses of conforming bodies: size lines longer than
  16 bytes, a blank before an extension, and bodies without room.
- Up then Down returns the editor's cursor if and only if the cursor's column is the smaller of the
  preferred column and the line length. `RunSettles` proves that this always holds in runs that use
  neither Delete nor Select All, and `StaleColumn` shows it failing after Select All.
- The browser's Back button differs from an unbounded history exactly on the oldest entry it still
  holds after older ones were dropped.

## Model

| member | source | states |
|---|---|---|
| `MigrationSafety.StepKeepsInv` | scripts/firefox_objdir.py:159-300 | every file-system call of the migration keeps the invariant that ties each tree and the journal to what was first found |
| `MigrationSafety.KillSafety` | scripts/firefox_objdir.py:159-300 | from any volume at rest, at every point of every series of runs killed between any two calls, each tree is as first found, or moved whole to its destination with an exact, singly linked journal and no temporary |
| `MigrationConvergence.PartialTempRefuses` | scripts/firefox_objdir.py:99-136 | a run that finds a partial temporary changes nothing at any step, and can only end with code 2 |
| `MigrationConvergence.Convergence` | scripts/firefox_objdir.py:181-300 | after any kills, a run that ends succeeds if and only if it found no partial temporary; success leaves every tree moved and only the exact journal; refusal leaves the volume as found |
| `MigrationConvergence.PartialTempIsReached` | scripts/firefox_objdir.py:272-279 | on every fresh object directory, a kill between creating and writing the temporary leaves a partial one |
| `MigrationConvergence.StepLowersRank` | scripts/firefox_objdir.py:181-300 | every call lowers a rank, whatever sizes the writes have |
| `MigrationConvergence.EveryRunEnds` | scripts/firefox_objdir.py:181-300 | no run takes more calls than the payload has bytes and forty, and until it is done a next call is possible |
| `MigrationDurability.JournalStepKeepsInv` | scripts/firefox_objdir.py:124-156 | linking, unlinking, syncing and validating the journal keep the durability invariant |
| `MigrationDurability.WriteStepKeepsInv` | scripts/firefox_objdir.py:227-279 | creating and writing the temporary keep the durability invariant |
| `MigrationDurability.MoveStepKeepsInv` | scripts/firefox_objdir.py:285-292 | moving a tree and syncing its directories keep the durability invariant |
| `MigrationDurability.PowerLossKeepsInv` | scripts/firefox_objdir.py:282-292 | losing power with any subset of the unsynced directory changes on disk keeps the durability invariant and finds a durably safe volume |
| `MigrationDurability.PowerLossSafety` | scripts/firefox_objdir.py:124-292 | at every point of every series of runs with power losses, and with kills outside one window, a power loss finds each tree as first found, or moved behind a durable exact journal in a durable quarantine directory |
| `MigrationDurability.KillWindow` | scripts/firefox_objdir.py:124-156 | a kill can lead, by way of later runs and a power loss, to a quarantined tree without its journal if and only if it falls between unlinking the temporary and syncing the quarantine directory, with the journal's name not settled on disk and the host tree still at its source |
| `MigrationDurability.WindowIsReached` | scripts/firefox_objdir.py:124-136 | the first run over any object directory with a host tree reaches that window |
| `MigrationRecovery.StepKeepsRecovery` | scripts/firefox_objdir.py:159-300 | every call keeps at most one file named as journal or temporary, complete and synced once it is named as the journal |
| `MigrationRecovery.PowerLossKeepsRecovery` | scripts/firefox_objdir.py:282-292 | so does losing power with any subset of the unsynced changes on disk |
| `MigrationRecovery.SpoiledTempRefuses` | scripts/firefox_objdir.py:99-136 | a run that finds a temporary with other content than the payload changes nothing and can only end with code 2 |
| `MigrationRecovery.RecoveryConverges` | scripts/firefox_objdir.py:181-300 | after any mix of power losses and of kills outside the unsafe window, a run that ends succeeds if and only if it found no temporary whose content differs from the payload; success leaves every tree moved and only the exact journal; refusal leaves the volume as found |
| `MigrationVerdict.ExactIs` | scripts/firefox_objdir.py:99-121 | the validation accepts exactly a caller-owned regular file of mode 0600 with the payload and no name beyond the journal and the temporary |
| `MigrationVerdict.AllowedIs` | scripts/firefox_objdir.py:227-263 | the check passes if and only if each tree is nowhere, a real directory at its source only, or a real directory at its destination only with a valid journal, and the parent of the target tree is no symbolic link |
| `MigrationVerdict.StepKeepsVerdict` | scripts/firefox_objdir.py:159-300 | whether a run will end with 0 is settled by what it finds: every call, with writes of any size, keeps the verdict both ways |
| `MigrationVerdict.EndsExactly` | scripts/firefox_objdir.py:159-300 | from any volume whatsoever, a finished run ended with 0 if and only if the quarantine directory is a directory or missing, journal and temporary are missing or name one exact record, and each tree is a real directory at its source, or at its destination behind a record, or nowhere; then every tree has moved; otherwise it ended with 2, no tree has moved, and without a record nothing has changed |
| `MigrationVerdict.EndsInstalled` | scripts/firefox_objdir.py:124-156 | a run that ends with 0 leaves the exact, singly linked journal and no temporary |
| `MigrationVerdict.UnrecordedTreeRefused` | scripts/firefox_objdir.py:227-263 | a quarantined tree without a record is refused with 2 and the volume is left as found |
| `MigrationRun.Migration.ValidateExactJournalFile` | scripts/firefox_objdir.py:99-121 | accepts exactly a regular file of mode 0600, the caller's, with the given link count and the exact payload; then the file holds the payload through any power loss; a refusal changes nothing |
| `MigrationRun.Migration.UnlinkTemporary` | scripts/firefox_objdir.py:134-156 | unlinks, syncs and revalidates by steps of the protocol, ending ready to go on or refused |
| `MigrationRun.Migration.InstallExactJournalTemp` | scripts/firefox_objdir.py:124-136 | takes only steps of the protocol from validating the temporary to the installed journal or to refusal |
| `MigrationRun.Migration.RecoverLinkedJournalTemp` | scripts/firefox_objdir.py:139-156 | takes only steps of the protocol from a journal linked with its temporary to the installed journal or to refusal |
| `MigrationRun.Migration.WriteTemporary` | scripts/firefox_objdir.py:272-279 | writes of any accepted sizes reach the whole payload and its sync by steps of the protocol |
| `MigrationRun.Migration.MoveTree` | scripts/firefox_objdir.py:286-292 | moves one tree and syncs both directories by steps of the protocol, or refuses an occupied destination |
| `MigrationRun.Migration.QuarantineMovedCargo` | scripts/firefox_objdir.py:159-300 | the whole command is a run of the protocol from start to its exit code; it returns 0 if and only if the volume was acceptable as found, with every tree moved and the journal installed, and otherwise 2 with no tree moved; from any volume at rest it is safe, and on a fresh object directory it returns 0 with everything migrated |
| `FatBuild.SizeFat` | scripts/mkfat.py:62-74 | for every volume size the sizing loop stops within two rounds with a FAT that has an entry for every cluster |
| `FatBuild.ClusterChain` | scripts/mkfat.py:41-44 | links exactly the clusters of one chain, ends it, and touches no other entry |
| `FatBuild.BuildFat` | scripts/mkfat.py:123-130 | both reserved entries, the directories and the three chains make exactly the FAT of the contents |
| `FatBuild.WriteCluster` | scripts/mkfat.py:138-142 | refuses data longer than a cluster and otherwise replaces exactly its bytes |
| `FatBuild.WriteFile` | scripts/mkfat.py:151-153 | writing cluster by cluster is writing the file in one piece |
| `FatBuild.MakeImage` | scripts/mkfat.py:62-157 | an image is built if and only if the files fit, and it holds exactly the promised regions and zeroes elsewhere |
| `FatImage.EntryRoundTrip` | scripts/mkfat.py:31-38 | a directory entry parses back to its name, attributes, cluster and size |
| `FatRead.MountImage` | scripts/mkfat.py:76-103 | an independent reader finds the geometry in the boot sector |
| `FatRead.FatEntryOf` | scripts/mkfat.py:114-134 | either FAT copy holds the right value for every cluster |
| `FatRead.FileChain` | scripts/mkfat.py:128-130 | following either FAT from a file's first cluster yields its clusters in order and stops |
| `FatRead.ReadBack` | scripts/mkfat.py:114-157 | for all loader, kernel and configuration contents that fit, following either FAT from the directory entries returns exactly those files, the loader as BOOTAA64.EFI on ARM images and as BOOTX64.EFI on the others |
| `FatRead.ChainsDisjoint` | scripts/mkfat.py:114-134 | no cluster belongs to two chains or to a directory, and both FATs agree on every cluster of the volume |
| `FatBytes.BootBytes` | scripts/mkfat.py:76-97 | the boot sector and its copy in sector 6 hold the parameters of the format, byte by byte |
| `FatBytes.BootNames` | scripts/mkfat.py:98-103 | and their names and signatures |
| `FatBytes.InfoBytes` | scripts/mkfat.py:105-112 | the information sector and its copy in sector 7, byte by byte |
| `FatBytes.Names` | scripts/mkfat.py:143-149 | the eleven bytes of each name spell it |
| `FatBytes.RootBytes` | scripts/mkfat.py:144-147 | the root holds the volume label, EFI, the kernel and the configuration, in this order, each with its attributes, first cluster and size |
| `FatBytes.SubdirectoryBytes` | scripts/mkfat.py:148-149 | EFI and BOOT begin with themselves and their parent and go on to BOOT and to the loader of the architecture |
| `FatProbe.ScanDirectory` | scripts/boot_test_aarch64_net_owner.py:106-112 | counts the entries of the name and finds the only one when there is one |
| `FatProbe.ConfigOffsets` | scripts/boot_test_aarch64_net_owner.py:90-126 | returns the two offsets for exactly the supported images |
| `FatRefuse.SupportedExactly` | scripts/boot_test_aarch64_net_owner.py:90-126 | an image is supported if and only if, read at the offsets of the image itself, the boot sector has the signatures and the geometry, exactly one of sixteen root entries has the name, and it is a regular file of 40 bytes in one cluster that both FATs end, with the standard configuration; the offsets to patch are its size and its content |
| `FatProbe.ImageSupported` | scripts/boot_test_aarch64_net_owner.py:90-126 | an image of mkfat is supported if and only if it carries the standard configuration, and then the offsets are those of its size field and content |
| `FatProbe.CompareChunk` | scripts/boot_test_aarch64_net_owner.py:141-146 | a chunk is accepted exactly if it differs only in the size field and the configuration |
| `FatProbe.AssertConfigOnlyClone` | scripts/boot_test_aarch64_net_owner.py:129-154 | accepts exactly the copies of equal length that differ only in the size field and the configuration and hold the probe's there |
| `FatProbe.ArmingIsRebuilding` | scripts/boot_test_aarch64_net_owner.py:157-167 | the patched image is the image mkfat would build from the probe configuration |
| `FatProbe.ArmedReads` | scripts/boot_test_aarch64_net_owner.py:157-167 | after arming, either FAT leads to the probe configuration, and to the kernel and loader as before |
| `FatProbe.ArmPrivateBoot` | scripts/boot_test_aarch64_net_owner.py:157-167 | arms an image of mkfat if and only if it carries the standard configuration; every armed image differs only in the allowed places |
| `DiskFile.CrcJoin` | scripts/mkpackage.py:102-112 | a checksum taken block by block is the checksum of the whole |
| `PackageFormat.FirstLbaOrder` | scripts/mkpackage.py:65-89 | each file's sectors end before those of every later file |
| `PackageFormat.HeaderRoundTrip` | scripts/mkpackage.py:125-128 | the header parses back and its seal is intact |
| `PackageFormat.EntryRoundTrip` | scripts/mkpackage.py:117-121 | an entry parses back to path, index, size, place and checksum, with an intact seal |
| `PackageRefuse.PathExactly` | scripts/mkpackage.py:38-49 | a path may be packaged if and only if it has 1 to 255 bytes, begins with a slash and is not /packages or below it |
| `PackageInstall.CopyPayload` | scripts/mkpackage.py:102-112 | copies the whole file and returns its checksum |
| `PackageInstall.WriteFile` | scripts/mkpackage.py:101-123 | adds the next payload, its padding and its record, and keeps every earlier one |
| `PackageInstall.LayOut` | scripts/mkpackage.py:59-96 | succeeds exactly for a nonempty tree with acceptable files, with each file's first sector and the end |
| `PackageInstall.Install` | scripts/mkpackage.py:52-133 | installs exactly the acceptable file sets, returns their count and size, keeps every byte it does not own, and leaves the image alone when it refuses |
| `PackageVerify.VerifyHeader` | scripts/verify_package.py:15-32 | accepts exactly the intact, in-bounds headers |
| `PackageVerify.VerifyEntry` | scripts/verify_package.py:36-68 | accepts exactly the intact, in-bounds entries with a new path and a matching payload checksum |
| `PackageVerify.Verify` | scripts/verify_package.py:13-70 | accepts exactly the verified images and returns their count and payload total |
| `PackageRefuse.HeaderIs` | scripts/verify_package.py:15-32 | the header is accepted if and only if its magic, seal, version, count and bounds are right at their offsets in the image |
| `PackageRefuse.RecordIs` | scripts/verify_package.py:36-68 | an entry is accepted if and only if magic, seal, flags, index, path, sector count, bounds and the payload checksum are right at their offsets |
| `PackageRefuse.VerifiedExactly` | scripts/verify_package.py:13-70 | an image verifies if and only if its header and each of its records are right byte by byte and no path occurs twice |
| `PackageRefuse.DamagedPayload` | scripts/verify_package.py:58-68 | an installed package whose payload no longer has its checksum is refused |
| `PackageRefuse.DamagedRecord` | scripts/verify_package.py:36-41 | an installed package with a record that no longer matches its seal is refused |
| `PackageRefuse.DamagedHeader` | scripts/verify_package.py:15-32 | an image with a header that does not match its seal is refused |
| `PackageRefuse.FaultyRecord` | scripts/verify_package.py:42-57 | a record out of its place, a path given twice and a payload past the end are refused |
| `PackageVerify.InstallVerifies` | scripts/verify_package.py:13-70 | every installed package verifies, with the exact number of files and bytes |
| `PackageVerify.NeighboursClear` | scripts/integrate_data_image.py:165-167 | sorted ranges are clear of each other if and only if neighbours are, empty ranges included |
| `PackageVerify.CheckOverlaps` | scripts/integrate_data_image.py:165-167 | sorting and comparing neighbours accepts exactly the range lists without overlap |
| `PackageVerify.PackageEntries` | scripts/integrate_data_image.py:138-168 | returns every path with its extent and bytes for exactly the verified images without overlapping payloads |
| `PackageVerify.InstallRecovers` | scripts/integrate_data_image.py:138-168 | an installed package gives back every path with its exact bytes, empty files included, in disjoint extents |
| `PackageClone.CopyRangeSparse` | scripts/integrate_data_image.py:98-112 | skipping zero blocks over zeroes copies the range exactly, and a short source is refused |
| `PackageClone.ClonePreservedRegions` | scripts/integrate_data_image.py:115-135 | clones exactly the images of the right size and layout: preserved regions equal, package region zero |
| `PackageClone.InstallStaysInside` | scripts/mkpackage.py:99-132 | installing changes no byte outside the package region |
| `PackageClone.Integrate` | scripts/integrate_data_image.py:115-135 | clone followed by install holds the package, and every byte outside the package region is the source image's |
| `Gpt.Align` | scripts/mkgpt.py:26-27 | the least aligned sector not below the value |
| `Gpt.CopySparse` | scripts/mkgpt.py:70-77 | skipping zero blocks over zeroes copies the content exactly |
| `Gpt.Build` | scripts/mkgpt.py:80-141 | builds a disk from exactly the pairs of nonempty, sector-aligned images |
| `GptRead.HeaderRoundTrip` | scripts/mkgpt.py:52-67 | a header parses back and its checksum, taken over a zeroed field, is intact |
| `GptRead.PartitionRoundTrip` | scripts/mkgpt.py:34-49 | an entry parses back to its type, identity and first and last sector |
| `GptRead.ReadEither` | scripts/mkgpt.py:107-118 | a reader that checks header and entry checksums gets the same table from the primary and from the backup header |
| `GptRead.DiskReadsBack` | scripts/mkgpt.py:80-141 | from the first or the last header, the same two disjoint aligned partitions are found, holding exactly the input images, and no third |
| `GptBytes.HeadersSay` | scripts/mkgpt.py:107-118 | the headers in the first and the last sector name each other, bound the same usable range, and carry the checksum of the table that stands, alike, beside each of them |
| `GptBytes.NamesSay` | scripts/mkgpt.py:100-106 | the two entries carry the identities of the source and the names MakOS ESP and MakOS Data in sixteen-bit characters |
| `GptBytes.ProtectiveSays` | scripts/mkgpt.py:119-122 | the protective partition has type 0xEE and reaches from sector 1 to the last sector, or as far as 32 bits do |
| `LiteralScan.TailOfTail` | scripts/integrate_data_image.py:393-397 | the carried tail is always the tail of everything read |
| `LiteralScan.SampleSuffices` | scripts/integrate_data_image.py:393-397 | a literal is in the data read so far exactly if it was before or is in the tail with the new block |
| `LiteralScan.DropFound` | scripts/integrate_data_image.py:394-396 | removes exactly the literals found in the sample |
| `LiteralScan.ScanRange` | scripts/integrate_data_image.py:385-398 | after a range exactly the literals without an occurrence in it are still missing, for every chunk size |
| `LiteralScan.Scan` | scripts/integrate_data_image.py:376-405 | accepts if and only if every literal stands contiguously inside some readable range, for every chunk size |
| `TextModel.InsertAllSplices` | user/aarch64_textedit.c:205-223 | typing byte by byte splices the accepted bytes in at the cursor |
| `TextModel.PasteSplices` | user/aarch64_textedit.c:307-334 | a paste leaves the text around the selection with the accepted bytes that fit between, cursor behind them |
| `TextModel.CutThenPaste` | user/aarch64_textedit.c:799-813 | cutting any selection of insertable bytes and pasting it restores the text |
| `TextModel.LineAround` | user/aarch64_textedit.c:142-154 | line start and line end enclose a newline-free line between newlines or the ends of the text |
| `TextModel.UpThenDown` | user/aarch64_textedit.c:268-293 | Up then Down across an existing line returns to the cursor if and only if its column is the smaller of the preferred column and the line length |
| `TextModel.DownThenUp` | user/aarch64_textedit.c:268-293 | Down then Up across an existing line returns to the cursor under exactly the same condition |
| `TextView.VisualMonotone` | user/aarch64_textedit.c:558-585 | on one line, later bytes are drawn where earlier ones have ended, tabs included |
| `TextView.ColumnsAdvance` | user/aarch64_textedit.c:576-583 | a newline returns to column 0, a tab reaches the next multiple of four, any other byte takes one column |
| `TextView.PointedCell` | user/aarch64_textedit.c:558-571 | points belong to cells of six by nine pixels from (8, 30) on, forty rows of 110, and points beside them to the nearest |
| `TextView.HitInvertsDraw` | user/aarch64_textedit.c:558-585 | any point of a cell drawn for a byte is mapped back to that byte's offset, for every text and scroll position |
| `TextView.HitUnique` | user/aarch64_textedit.c:558-585 | a point has one offset only |
| `TextSession.Shown` | user/aarch64_textedit.c:609-620 | the window start nearest to the old one that shows the given line or column |
| `TextSession.HitExists` | user/aarch64_textedit.c:558-585 | every point has an offset |
| `TextSession.PressClean` | user/aarch64_textedit.c:772-849 | every key keeps cursor and anchor within the text, the text within 2048 bytes, and a clean text equal to the saved one |
| `TextKeys.BackspaceKey` | user/aarch64_textedit.c:225-239 | key 8 removes exactly the selection, or else exactly the byte before the cursor, or at the start nothing; cursor, anchor, preferred column, dirty mark, status and saved text are given |
| `TextKeys.DeleteKey` | user/aarch64_textedit.c:241-252 | key 0x17 removes exactly the selection, or else exactly the byte at the cursor with the preferred column left as it was, or at the end nothing |
| `TextKeys.TypeKey` | user/aarch64_textedit.c:205-223 | a newline, tab or printing character replaces exactly the selection if there is room below 2048 bytes; a full buffer takes nothing and says so |
| `TextKeys.TypeThenBackspace` | user/aarch64_textedit.c:205-239 | without a selection Backspace undoes typing |
| `TextKeys.LeftThenDelete` | user/aarch64_textedit.c:225-259 | Left and Delete leave what Backspace leaves |
| `TextKeys.ArrowKeys` | user/aarch64_textedit.c:254-266 | keys 0x11 and 0x12 move by one byte within the text, drop the selection and prefer the new column |
| `TextKeys.HomeEndKeys` | user/aarch64_textedit.c:295-305 | keys 0x15 and 0x16 move to the two ends of the line, told by its newlines |
| `TextKeys.UpKey` | user/aarch64_textedit.c:268-293 | key 0x13 moves to the preferred column or the end of the line that ends just before this one, keeps the preferred column, and does nothing on the first line |
| `TextKeys.DownKey` | user/aarch64_textedit.c:268-293 | key 0x14 does so with the line that begins just after this one, and does nothing on the last line |
| `TextKeys.SelectAllKey` | user/aarch64_textedit.c:788-791 | key 0x84 puts the anchor at the start and the cursor at the end |
| `TextKeys.CopyKey` | user/aarch64_textedit.c:588-597 | key 0x85 puts exactly the selected bytes on a clipboard that takes them |
| `TextKeys.CutKey` | user/aarch64_textedit.c:799-806 | key 0x86 removes the selected bytes if and only if they reached the clipboard |
| `TextKeys.AcceptedByte` | user/aarch64_textedit.c:316-318 | a return is stored as a newline, newlines, tabs and printing characters as they are, and nothing of any other byte |
| `TextKeys.AcceptedJoin` | user/aarch64_textedit.c:315-324 | input is stored byte by byte in its order |
| `TextKeys.PasteKey` | user/aarch64_textedit.c:599-606 | key 0x87 replaces the selection by the acceptable bytes of what fits of the clipboard; a clipboard longer than 2048 bytes changes nothing |
| `TextKeys.SaveKeys` | user/aarch64_textedit.c:450-459 | keys 0x82 and 0x83 make the text clean only if the save succeeds; Escape closes exactly a clean editor and is refused otherwise |
| `TextKeys.OtherKeys` | user/aarch64_textedit.c:772-848 | every other key leaves text, cursor and marks alone |
| `TextKeys.CaretShown` | user/aarch64_textedit.c:609-620 | after every key the caret's line and byte column are in the window |
| `TextKeys.PointerEvents` | user/aarch64_textedit.c:743-766 | a press drops cursor and anchor at the byte pointed at, a drag moves the cursor, a release ends the drag, motion without a button does nothing |
| `TextRuns.ClosedStays` | user/aarch64_textedit.c:838-842 | nothing happens after the closing event |
| `TextRuns.ClosesClean` | user/aarch64_textedit.c:828-842 | in every run, an editor that has closed shows the saved text |
| `TextRuns.SavedIsLastSave` | user/aarch64_textedit.c:450-459 | after any run, the saved text is the one shown at its last successful save, or the first text if there was none |
| `TextRuns.CutPasteKeys` | user/aarch64_textedit.c:799-813 | the Cut and Paste keys restore the text for any selection of insertable bytes, and leave it on the clipboard |
| `TextRuns.UpDownKeys` | user/aarch64_textedit.c:780-783 | the Up and Down keys return to the cursor if and only if its column is the smaller of the preferred column and the line length |
| `TextRuns.DownUpKeys` | user/aarch64_textedit.c:780-783 | the Down and Up keys do so under exactly the same condition |
| `TextRuns.StepSettles` | user/aarch64_textedit.c:735-849 | every event but Delete and Select All keeps that condition |
| `TextRuns.RunSettles` | user/aarch64_textedit.c:735-849 | so in an editor just opened it holds throughout every run that uses neither key |
| `TextRuns.StaleColumn` | user/aarch64_textedit.c:788-791 | opening a text of two lines and pressing Select All, Up and Down leaves the cursor at the start of the second line, not at its end |
| `TextRuns.RunInsertable` | user/aarch64_textedit.c:205-223 | a text of insertable bytes stays one over every run, so any selection of it can be cut and pasted back |
| `TextEdit.Editor.constructor` | user/aarch64_textedit.c:436-448 | a readable file of at most 2048 bytes is loaded; anything else starts empty; the editor starts clean with cursor, window and preferred column at the start |
| `TextEdit.Editor.LineStartOf` | user/aarch64_textedit.c:142-147 | the loop finds the start of the line, for positions beyond the text too |
| `TextEdit.Editor.LineEndOf` | user/aarch64_textedit.c:149-154 | the loop finds the end of the line, for positions beyond the text too |
| `TextEdit.Editor.CursorLine` | user/aarch64_textedit.c:156-162 | the number of newlines before the cursor |
| `TextEdit.Editor.CursorColumn` | user/aarch64_textedit.c:164-166 | the distance from the line start |
| `TextEdit.Editor.DeleteSelection` | user/aarch64_textedit.c:187-203 | shifting bytes in the buffer removes exactly the selection, and only a real deletion changes dirty, status and preferred column |
| `TextEdit.Editor.Insert` | user/aarch64_textedit.c:205-223 | a typed byte replaces the selection as in the session; a full buffer takes nothing and says so |
| `TextEdit.Editor.Backspace` | user/aarch64_textedit.c:225-239 | removes the selection or the byte before the cursor, with the session's flags |
| `TextEdit.Editor.Delete` | user/aarch64_textedit.c:241-252 | removes the selection or the byte at the cursor; without a selection the preferred column stays |
| `TextEdit.Editor.Left` | user/aarch64_textedit.c:254-259 | moves back one byte, stops at the start, drops the selection and resets the preferred column |
| `TextEdit.Editor.Right` | user/aarch64_textedit.c:261-266 | moves on one byte, stops at the end, drops the selection and resets the preferred column |
| `TextEdit.Editor.Vertical` | user/aarch64_textedit.c:268-293 | moves to the preferred column of the line above or below, or changes nothing at the first or last line |
| `TextEdit.Editor.Home` | user/aarch64_textedit.c:295-299 | moves to the line start with preferred column zero |
| `TextEdit.Editor.End` | user/aarch64_textedit.c:301-305 | moves to the line end and prefers its column |
| `TextEdit.Editor.InsertBytes` | user/aarch64_textedit.c:307-334 | pasting equals deleting the selection and then typing the input that fits, byte by byte, with the session's flags, and counts what was added |
| `TextEdit.Editor.OffsetForLine` | user/aarch64_textedit.c:547-556 | the offset at which a line begins, or the end of the text |
| `TextEdit.Editor.OffsetAt` | user/aarch64_textedit.c:558-585 | the byte whose drawn cell holds the point, or the nearest end of its line |
| `TextEdit.Editor.Layout` | user/aarch64_textedit.c:639-671 | draws exactly one cell for each column of each byte visible in the window, tabs expanded |
| `TextEdit.Editor.AdjustView` | user/aarch64_textedit.c:609-620 | moves the window as the session does: just enough to show the caret's line and column |
| `TextEdit.Editor.Save` | user/aarch64_textedit.c:450-459 | only a successful save clears dirty and becomes the saved text |
| `TextEdit.Editor.Copy` | user/aarch64_textedit.c:588-597 | puts exactly the selection on the clipboard if the clipboard takes it, and changes nothing else |
| `TextEdit.Editor.Cut` | user/aarch64_textedit.c:799-806 | deletes the selection exactly if it reached the clipboard |
| `TextEdit.Editor.Paste` | user/aarch64_textedit.c:599-606 | pastes the clipboard, or nothing when it is longer than the buffer |
| `TextEdit.Editor.Point` | user/aarch64_textedit.c:743-766 | a press drops anchor and cursor at the point, a drag moves the cursor, a release ends the drag, other motion does nothing; preferred column and window follow |
| `TextEdit.Editor.Navigate` | user/aarch64_textedit.c:776-791 | each navigation key gives the session's cursor, selection and preferred column |
| `TextEdit.Editor.Handle` | user/aarch64_textedit.c:735-849 | each event takes the editor to exactly the session's next state, and closes it exactly on Escape over a clean text |
| `TextEdit.Editor.Run` | user/aarch64_textedit.c:735-849 | after any events the editor is exactly in the state that the steps up to the closing one lead to, and is closed exactly if one closed it, then over the saved text |
| `Chunked.DecodeEncode` | user/aarch64_browser.c:569-601 | every way of splitting a body into chunks decodes to that body if there is room and is refused if not |
| `Chunked.DecodeParses` | user/aarch64_browser.c:569-601 | every accepted input is a sequence of chunks whose joined data is the output |
| `Chunked.NumberBound` | user/aarch64_browser.c:573-587 | sixteen hexadecimal digits stay below 2^64, so the overflow guard refuses no line |
| `Chunked.ReadSize` | user/aarch64_browser.c:575-588 | the digit loop reads exactly the number before the extension, or refuses |
| `Chunked.FindBreak` | user/aarch64_browser.c:537-545 | finds the first line break or reports that there is none |
| `Chunked.DecodeChunks` | user/aarch64_browser.c:569-601 | decodes into the fixed buffer exactly what the grammar gives, within bounds, and leaves the buffer behind the result alone |
| `ChunkedRfc.ConformsExactly` | user/aarch64_browser.c:569-601 | an accepted input is a chunked body of RFC 9112 if and only if its last size line has a digit, every size line a proper extension or none, and a trailer section and closing line break follow |
| `ChunkedRfc.AcceptsExactly` | user/aarch64_browser.c:569-601 | a conforming body is accepted if and only if every size line is taken and there is room |
| `ChunkedRfc.TakenLine` | user/aarch64_browser.c:573-588 | a conforming size line is taken if and only if it has at most 16 bytes and no blank before its extension |
| `ChunkedRfc.HexDigits` | user/aarch64_browser.c:576-584 | a byte has a digit value if and only if it stands at that place in the alphabet 0 to 9 and a to f, in either case |
| `ChunkedRfc.OneDigit` | user/aarch64_browser.c:575-588 | a single digit is the size it stands for |
| `ChunkedRfc.NumberJoin` | user/aarch64_browser.c:575-588 | sizes are positional, the most significant digit first, and only digits make a size |
| `ChunkedRfc.DigitlessInput` | user/aarch64_browser.c:576-591 | an input accepted although its last size line has no digit, and otherwise proper |
| `ChunkedRfc.NamelessExtension` | user/aarch64_browser.c:576-591 | an input accepted although an extension has no name, and otherwise proper |
| `ChunkedRfc.UnfinishedInputs` | user/aarch64_browser.c:590-591 | inputs accepted although the closing line break is missing or replaced |
| `ChunkedRfc.SizeLine` | user/aarch64_browser.c:573-588 | every size below 2^64 has a size line that conforms and is taken |
| `ChunkedRfc.EverySplit` | user/aarch64_browser.c:569-601 | every way of cutting a body of at most 64 KiB into pieces has a conforming encoding that decodes to the pieces joined |
| `WordWrap.Document.Cut` | user/aarch64_browser.c:826-836 | a line ends with its source line, or, if that goes on past the window, at the last space that fits, or after a full row of a word too long for one |
| `WordWrap.Document.SkipBlank` | user/aarch64_browser.c:840-844 | steps over nothing but spaces and one newline, to the beginning of a source line, the end, or a byte that is no space |
| `WordWrap.Document.Wrap` | user/aarch64_browser.c:815-846 | for every document and width the lines are in order, apart, newline-free, no wider than the window and cut at the last space that fits; a line that does not begin its source line does not begin with a space; below 1024 lines only spaces and newlines are dropped; every length fits sixteen bits |
| `Dns.LabelsBound` | user/aarch64_browser.c:280-297 | a host has at most half as many labels as bytes, and its encoding is at most two bytes longer |
| `Dns.DnsName` | user/aarch64_browser.c:280-297 | encodes exactly the hosts with labels of 1 to 63 bytes whose encoding fits, as that encoding |
| `DnsHost.LabelsExactly` | user/aarch64_browser.c:280-297 | a host is cut into given labels if and only if they have 1 to 63 bytes and no dot, and joined with dots, perhaps one more behind the last, they are the host |
| `DnsHost.HostReadsBack` | user/aarch64_browser.c:280-297 | an encoded host can be read back from its labels, and a refused host is not spelled by any labels |
| `Dns.SkipEncodedHost` | user/aarch64_browser.c:299-317 | stepping over the encoding of any host of at most 253 bytes consumes exactly its bytes |
| `Dns.SkipNeedsSteps` | user/aarch64_browser.c:301-301 | a name of k labels needs more than k steps |
| `Dns.LongestHostNeedsAll` | user/aarch64_browser.c:299-317 | a host of 253 bytes with 127 labels whose encoding is stepped over with 128 steps and refused with 127 |
| `Dns.DnsSkipName` | user/aarch64_browser.c:299-317 | the loop steps over a name as the grammar does and never leaves the packet |
| `Dns.SkipQuestionSection` | user/aarch64_browser.c:326-331 | the loop steps over every question or refuses |
| `Dns.AnswerIsFirstAddress` | user/aarch64_browser.c:319-350 | on every well-formed response, told by the bytes of its header, the answer is the first IN A record, or none if there is none |
| `Dns.HeaderIs` | user/aarch64_browser.c:321-323 | a packet is taken for an answer if and only if its first bytes are the id of the query, the response bit is set and the response code is zero |
| `Dns.OtherHeadersRefused` | user/aarch64_browser.c:321-323 | another id, a query, an error code or fewer than twelve bytes give no address |
| `DnsParse.SkipParses` | user/aarch64_browser.c:299-317 | whatever the client steps over as a name is one: fewer labels than steps, each of 1 to 63 bytes, and the root or a pointer |
| `DnsParse.AnswerParses` | user/aarch64_browser.c:319-350 | the converse: whenever an address is returned, the packet has the header of a response to the query, well-formed questions as many as it says, and records of which the last read is the first IN A record with exactly that address |
| `Dns.DnsAnswerIpv4` | user/aarch64_browser.c:319-350 | the two loops compute that answer on every packet, well formed or not, within bounds |
| `History.History.RememberAddress` | user/aarch64_browser.c:883-900 | remembering a page does to the stored window what a visit does to the unbounded list; the page already shown changes nothing |
| `History.History.RestoreHistory` | user/aarch64_browser.c:952-959 | going to a held entry and reloading it moves both cursors alike and drops nothing, whether the load succeeds or fails |
| `History.History.Back` | user/aarch64_browser.c:993-995 | keeps the window aligned, and equals the unbounded Back if and only if an entry lies behind or none was ever dropped |
| `History.FirstPageIsForgotten` | user/aarch64_browser.c:890-896 | after nine pages, the eighth step back stays on the second page, where an unbounded history would reach the first |
| `History.VisitThenBack` | user/aarch64_browser.c:883-900 | a visit shows the page, Back shows the page left with all pages before it, and Forward returns |
| `History.BackAndForward` | user/aarch64_browser.c:993-998 | Back and Forward undo each other wherever they do something, and neither drops a page |
| `History.History.Forward` | user/aarch64_browser.c:996-998 | keeps the window aligned and drops nothing |
| `History.History.Visit` | user/aarch64_browser.c:902-950 | only a successful load enters the history |
| `History.History.Run` | user/aarch64_browser.c:883-959 | over every run of visits, back and forward, the stored entries are a suffix of the unbounded list with aligned cursors |
| `Linker.EffectAgree` | user/dynamic_linker.c:231-259 | what a relocation does depends only on its entry and the headers, symbols and strings |
| `Linker.LinkResult` | user/dynamic_linker.c:231-259 | with distinct slots away from the tables, linking succeeds if and only if every relocation can be made; then every slot holds base plus addend or first defined symbol plus addend, in a writable segment, and no other byte changed; a failure has the code of the first relocation that fails, after those before it |
| `LinkerSlots.WritableIs` | user/dynamic_linker.c:121-136 | the target test is true if and only if the word does not wrap and some program header, read at its ELF offsets, is a loaded segment with the write flag around it |
| `LinkerSlots.ResolveIs` | user/dynamic_linker.c:220-229 | the resolved value is that of the first symbol with a section whose name has the same bytes up to a zero |
| `LinkerSlots.EffectMeans` | user/dynamic_linker.c:231-259 | each entry, read at its ELF offsets, is written to the slot it names with the value it asks for, or has exactly the fault of its exit code: 84 for the target, 85 for the symbol, 86 for an undefined name, 87 for the type |
| `LinkerSlots.SlotValues` | user/dynamic_linker.c:231-259 | after code 0 every slot, read back from memory, holds base plus addend or the address of the first defined symbol of its name plus addend; any other code is that of the first faulty entry, and all slots before it hold their values |
| `LinkerSlots.TableEntries` | user/dynamic_linker.c:233-236 | the entries of a table are 24 bytes apart |
| `LinkerSlots.TableOrder` | user/dynamic_linker.c:272-278 | the library's two tables are relocated before the application's |
| `Linker.OrderDoesNotMatter` | user/dynamic_linker.c:272-278 | any reordering of the relocations succeeds alike and gives the same memory |
| `Linker.ReapplyingChangesNothing` | user/dynamic_linker.c:272-278 | applying the relocations again succeeds and changes no byte |
| `LinkerRun.Machine.EqualStrings` | user/dynamic_linker.c:111-119 | true exactly if both strings agree up to a first zero within the limit |
| `LinkerRun.Machine.WritableTarget` | user/dynamic_linker.c:121-136 | true exactly if the word does not wrap and some writable loaded segment holds it |
| `LinkerRun.Machine.ResolveName` | user/dynamic_linker.c:220-229 | the address of the first defined symbol of the name, or zero |
| `LinkerRun.Machine.RelocateTable` | user/dynamic_linker.c:231-259 | the loop makes the table's relocations one after the other, each seeing the stores before it, up to the first failure |
| `LinkerRun.Machine.Link` | user/dynamic_linker.c:272-278 | the four tables in the order of the program, stopping at the first failure |
| `Snake.LongestSnake` | snake.py:25-32 | a snake has at most 600 cells, and 600 exactly when it fills the grid |
| `Snake.FreeCells` | snake.py:26-31 | lists exactly the grid cells off the body, once each |
| `Snake.RandomFood` | snake.py:25-32 | a grid cell off the body, or none exactly when the body fills the grid |
| `Snake.MovedIsSnake` | snake.py:79-99 | a move is blocked if and only if it would not leave a path of distinct, adjacent cells of the grid |
| `Snake.NeverBack` | snake.py:69-81 | a head that does not reverse does not go back to its neck |
| `Snake.FoodInReach` | snake.py:82-90 | a move onto food is never blocked |
| `Snake.Game.Reset` | snake.py:35-37 | a new game: one cell, heading right, score zero |
| `Snake.Game.Handle` | snake.py:58-76 | one event changes what its key says and keeps the invariant; a reversal of the last move is never queued |
| `Snake.Game.Update` | snake.py:78-99 | a paused or finished game stands still; otherwise the head moves by one cell, up or down along its column or left or right along its row, as its direction says, and the snake grows on food or the game ends, exactly when the way is blocked or the grid is full |
| `Snake.Game.Run` | snake.py:53-99 | every run keeps the body distinct, in the grid and adjacent, the newest cells of its head's trail, the score its length less one, food off the body, and no food exactly when 600 cells are taken; it stops after the frame that asks it to |

## Left out

- Migration: reading the recorded roots and assignments, deriving the journal text, file modes under a umask, two commands running at once, and failures of single calls other than by ending the run.
- Migration: a file synced by a validation that is followed by a refusal counts as not synced, which only adds possible losses.
- Migration: the content of the trees; a tree is one directory with an identity, as a rename treats it.
- FAT images: `short_name` (the names used are written out), argument parsing, and writing the finished image to a file.
- FatProbe.ArmPrivateBoot: the copy is made in memory; the sparse copy of the image file and the tests that the destination is new are not modelled.
- Packages: walking the tree, `guest_path`, replacements and missing files; a file is its guest path and bytes. CRC-32 and SHA-256 are not spelled out: the checksum is an arbitrary step function, so every result holds whatever it computes, and the digest is replaced by the bytes it is taken of.
- PackageVerify.PackageEntries: paths stay bytes; decoding them as UTF-8, which can refuse a path, is not modelled.
- Gpt.Build: takes images shorter than 2^62 bytes, so that sector numbers fit their 64-bit fields; the temporary file and its rename are not modelled.
- LiteralScan.Scan: the ranges lie inside the image, as the ELF checks before the scan establish; the rest of `verify_aarch64_elf` is not modelled.
- Text editor: drawing, fonts and colours; the close request of a window is the Escape key by the time it is an event; the file and clipboard calls are given by their results. What a failed save leaves in the file is not claimed.
- TextView.HitInvertsDraw: is about cells drawn for bytes; the caret is placed and scrolled by its byte column, so on lines with tabs no such claim holds for it.
- Browser: HTTP header parsing, HTML extraction, sockets, and drawing.
- Linker: `parse_image`; the tables it finds are given, and the theorems take the headers, symbols, strings and entries to lie in one address space without wrapping, with strings ended by a zero as ELF demands.
- Snake: drawing and timing; the random choice is an arbitrary index.
- The QEMU drivers, the shell, the file manager, the kernel and the provenance scripts.
