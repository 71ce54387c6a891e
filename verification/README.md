# Verified models of a hobby kernel's hard parts

This project models, in Dafny 4.11, the parts of a small x86-64 kernel whose correctness is least obvious from
reading one function, and proves what they are for. `dafny verify dfyconfig.toml` checks all of it.

- `Bytes`, `BlockDevice`: little-endian words, C strings, 512-byte sectors, a block device whose operations may be refused.
- `FatTables`: the sixteen-slot write-back cache over the sectors of the first FAT.
- `FatChains`, `FatFiles`: cluster chains over a FAT seen as a sequence of words; what writes, frees and cuts do to all files of a volume.
- `FatRuns`, `FatDirRuns`: any sequence of calls on the files of a volume, and any sequence of lookups, opens and deletions in a directory.
- `FatVolume`: the mounted volume: allocator, chain freeing, cluster I/O, file read, write and truncate.
- `ShortNames`, `Directory`, `FatDirectory`: 8.3 names, directories as name maps, and lookup, creation and deletion on a volume.
- `Calendar`, `Cmos`: day counting, its inverse, Zeller's congruence in C arithmetic; the CMOS registers and the double read.
- `WindowList`: the compositor's doubly linked window list with z-order and focus.
- `Raster`: Bresenham lines, midpoint circles and filled circles on a clipped framebuffer.
- `RxRing`: the e1000 receive ring shared by driver and device.
- `EditorText`, `EditorBuffer`: the text editor's array of growable lines as one flat text with a cursor; save and open.
- `PathText`, `PathNormalizer`: the VFS path normaliser, its re-run on its own output buffer, and the mount search.

State the source changes in place is a class here, with a ghost field for the simple object the state stands for
(the FAT as a sequence, the bytes of every data cluster, the stacking order, the queue of frames, the text of every
line) and a `Valid()` predicate that ties the two together. Methods say what they do to the simple object; the
lemmas are about that object.

Where the code falls short of what one would expect, the model keeps the code and states the exact condition under
which the expectation holds:

- A FAT entry read that has to evict a dirty slot ignores a refused write-back (fs/fat32/fat32.c:374-379). If the
  load that follows succeeds, the changes in that slot are lost, and the table the clients see reverts to the device
  in that one sector; `LostWrite` is an instance with entries and values. If the load is refused as well, the slot
  keeps the changes but is marked clean, so no flush will write them; the cache still agrees with the device if and
  only if the device already had the sector (`FatTable.ReadEntry`, `ForgottenKeeps`).
- The allocator's search comes back to its start, and so gives up on a full volume, if and only if the hint is a data
  cluster (`ProbeReturns`). Allocating the last data cluster leaves the hint one past the end (fs/fat32/fat32.c:526).
  From there the allocator hands out a number that is no data cluster if that word of the FAT is free, starts again
  from the first data cluster if it is not, and never ends if the volume is full as well (`Volume.AllocCluster`,
  `SearchNeverEnds`). A series of allocations stays clear of the first and the last of these if and only if `Room`
  holds at its start (`RoomExact`).
- `fat32_free_chain` ends on every table, but an exact free count stays exact if and only if the walk does not run
  into an entry that is already free (`FatVolume.Volume.FreeChain`).
- Shrinking a file keeps one cluster fewer than the new size needs as soon as it needs two (`ShrinkCovers`).
- Deletions do not skip volume labels and lookups do; `DeleteAgreesWithFind`, `DeleteThenFind` and
  `CreateThenDelete` say exactly when that matters, and `LabelShadowsFile` is an instance.
- A timestamp survives the trip through a date if and only if its year fits in 16 bits; a time set in the CMOS clock
  is read back if and only if its year is 1900 to 2199.
- Joining two lines in the editor removes the second line even when its text did not fit into the first; a deletion
  of a newline is exact if and only if the text fitted (`Backspace`, `DeleteForward`).

## Model

| member | source | states |
|---|---|---|
| `BlockDevice.Overlay` | fs/fat32/fat32.c:600-616 | storing bytes on the device: they are read back as stored, and every other sector is unchanged |
| `BlockDevice.SpanAt` | fs/fat32/fat32.c:580-596 | the bytes of a cluster are those of its sectors, in order |
| `Bytes.WordOrder` | fs/fat32/fat32.c:393-395 | the lowest byte of a word comes first |
| `FatTables.OnDiskBytes` | fs/fat32/fat32.c:350-353 | entry c of the table is the word at byte 4c of the first FAT, lowest byte first |
| `FatTables.SpecialEntries` | fs/fat32/fat32.h:34-41 | the free, bad and end-of-chain values, and the error codes, as numbers |
| `FatTables.EvictedKeeps` | fs/fat32/fat32.c:425-434 | writing a dirty slot back and marking it clean changes nothing the clients see |
| `FatTables.LoadedKeeps` | fs/fat32/fat32.c:436-445 | reusing a clean slot for a sector no slot holds changes nothing the clients see |
| `FatTables.StoredKeeps` | fs/fat32/fat32.c:447-450 | changing one word in a cached sector changes exactly that entry of the table |
| `FatTables.FatTable.ReadEntry` | fs/fat32/fat32.c:349-396 | the table is unchanged and the masked entry is returned, BAD when the load is refused; with a refused write-back exactly the evicted sector reverts, or, if the load is refused too, the slot is marked clean and the cache agrees with the device if and only if the device had the sector |
| `FatTables.ForgottenKeeps` | fs/fat32/fat32.c:374-387 | marking a dirty slot clean without a write-back leaves a cache that agrees with the device if and only if the device had the sector |
| `FatTables.LostWrite` | fs/fat32/fat32.c:349-452 | an instance: sixteen successful writes, a read with its write-back refused, and the last entry written reads as before |
| `FatTables.FatTable.WriteEntry` | fs/fat32/fat32.c:398-452 | exactly when the device cooperates one entry changes, keeping its top four bits; otherwise none does; the error codes |
| `FatTables.FatTable.Flush` | fs/fat32/fat32.c:454-481 | it fails exactly when the device refuses the first-FAT write of a dirty slot; after success the first FAT is the table the clients see and the dirty sectors are in the second FAT unless the device refused that; nothing outside the FATs is touched |
| `FatTables.FatTable.Run` | fs/fat32/fat32.c:349-481 | for every device and every sequence of reads, writes and flushes, up to the first read with both its write-back and its load refused: a read fails exactly when its load is refused and otherwise returns the last value successfully written or, if its sector was lost since, the device's; exactly a read with its write-back refused loses a sector; a failed write changes nothing; a successful flush at the end brings the first FAT up to date |
| `FatTables.LastValueIs` | fs/fat32/fat32.c:394-395 | the entry after a run is what the history of successful writes and losses says, and without a loss its top four bits never change |
| `FatChains.ChainUnique` | fs/fat32/fat32.c:487-494 | its first cluster determines a chain |
| `FatChains.ProbeReturns` | fs/fat32/fat32.c:506-536 | the allocator's probing meets its start again if and only if the start is a data cluster |
| `FatChains.RoomStep` | fs/fat32/fat32.c:518-526 | there is room for m allocations if and only if there is room for one less after the first |
| `FatChains.RoomExact` | fs/fat32/fat32.c:506-536 | m allocations in a row each come back, with a data cluster or with 0 on a full volume, if and only if the room condition holds at the start |
| `FatChains.SearchNeverEnds` | fs/fat32/fat32.c:514-536 | from a used entry past the last data cluster of a full volume the search meets neither a free entry nor its start |
| `FatChains.AheadStep` | fs/fat32/fat32.c:514-527 | an allocation uses up at most one of the free clusters ahead of the hint |
| `FatChains.CutKeeps` | fs/fat32/fat32.c:1430-1437 | cutting a chain keeps the first part a chain, frees the rest, and touches no other entry |
| `FatChains.WalkCounts` | fs/fat32/fat32.c:550-571 | on every table, cyclic ones included, clusters visited = clusters that became free, plus one exactly when the walk runs into a free entry |
| `FatChains.WalkOfChain` | fs/fat32/fat32.c:550-565 | on a well-formed chain the walk visits exactly the chain and does not run into a free entry |
| `FatChains.GrownStep` | fs/fat32/fat32.c:1324-1327 | linking a free cluster to the end of a chain gives a chain and changes no other entry |
| `FatChains.GrownSpares` | fs/fat32/fat32.c:1324-1327 | every other chain is still a chain, and still disjoint from the grown one |
| `FatFiles.ContentSplice` | fs/fat32/fat32.c:1351-1364 | replacing bytes inside one cluster of a chain replaces the same bytes of the file's content and no others |
| `FatFiles.ProgressExtend` | fs/fat32/fat32.c:1319-1332 | extending a file by a zeroed cluster, or past the write position, keeps the bytes written so far and all old bytes |
| `FatFiles.OtherFileUntouched` | fs/fat32/fat32.c:1281-1393 | a write to one file leaves every other file's chain and bytes as they were |
| `FatFiles.RunSound` | fs/fat32/fat32.c:496-616 | over every run of creations, writes and cuts all chains stay acyclic, in range, closed and pairwise disjoint, and a file no call names keeps its bytes |
| `FatVolume.ClusterLayout` | fs/fat32/fat32.h:534-549 | data clusters are numbered from 2 and lie one after the other from the start of the data area to its end |
| `FatVolume.DataFrame` | fs/fat32/fat32.h:534-537 | FAT traffic never reaches a data cluster |
| `FatVolume.DataPut` | fs/fat32/fat32.h:534-537 | a cluster write changes that cluster alone, and no FAT or reserved sector |
| `FatVolume.Volume.ReadCluster` | fs/fat32/fat32.c:580-596 | the cluster's bytes, or an error and an untouched buffer |
| `FatVolume.Volume.WriteCluster` | fs/fat32/fat32.c:598-616 | exactly the named cluster takes the buffer's bytes; the error codes |
| `FatVolume.Volume.NextCluster` | fs/fat32/fat32.c:487-494 | the masked entry of a data cluster or BAD when the load is refused, an end mark otherwise; the table changes only on a refused write-back, and then in the sector it was for |
| `FatVolume.Volume.SetEntry` | fs/fat32/fat32.c:496-498 | one entry changes exactly when the volume is writable and the device cooperates; the error codes |
| `FatVolume.Volume.AllocCluster` | fs/fat32/fat32.c:500-540 | from a hint in range it ends; 0 exactly when no data cluster is free, else the first free one in cyclic order, the hint itself if that is free, and only it, marked EOF; an exact count stays exact; from a hint past the end, what each of the three cases does |
| `FatVolume.Volume.FreeChain` | fs/fat32/fat32.c:542-574 | on every table it ends and frees exactly the clusters visited; a known count grows by their number; an exact count stays exact if and only if the walk meets no free entry |
| `FatVolume.Volume.WriteFile` | fs/fat32/fat32.c:1281-1393 | any offset, length and chain: the bytes are in place, other old bytes and all other clusters and FAT entries unchanged, clusters added below the position zeroed, the first cluster of an empty file as it was outside the bytes written, the file still a chain; a partial result means a full volume and reaches the end of the file's last cluster, ERR_NOSPC means a full volume and a file that ends before the position; the size field |
| `FatVolume.Volume.ReadFile` | fs/fat32/fat32.c:1218-1279 | the bytes of the file's content from the offset, bounded by the size field and by the chain |
| `FatVolume.Volume.WriteThenRead` | fs/fat32/fat32.c:1218-1393 | reading the range of a write of n bytes back yields the first n bytes written |
| `FatVolume.PositionExact` | fs/fat32/fat32.c:1315-1316 | the 32-bit cluster count of a write loses nothing for offsets below 2^32 |
| `FatVolume.Volume.Truncate` | fs/fat32/fat32.c:1395-1444 | which clusters are kept in every branch (how many: `KeptExactly`); the others become free and no other entry changes; an exact count stays exact; the size field |
| `FatVolume.KeptExactly` | fs/fat32/fat32.c:1408-1437 | growth keeps all clusters, size 0 none, a shrink to at most one cluster all; any other shrink keeps the first k with k·size < new size <= (k+1)·size |
| `FatVolume.ShrinkCovers` | fs/fat32/fat32.c:1420-1437 | the clusters kept by a shrink cover the new size if and only if it fits in one cluster (or the 32-bit sum overflows) |
| `FatRuns.Perform` | fs/fat32/fat32.c:1281-1444 | each creation, write or truncation does what it is for: the result code, the new entry, and the bytes written or the clusters kept as the call says; every file stays a chain of its own |
| `FatRuns.Run` | fs/fat32/fat32.c:496-616 | for every volume and every sequence of calls, up to the first that names no file or is a write without room: every call does what it is for, all files stay well formed and apart, and a file no call names keeps its clusters and bytes; no write lacks room if the calls demand no more than the free clusters ahead of the hint, or if the last cluster is in use outside the files |
| `FatRuns.DemandBound` | fs/fat32/fat32.c:1315-1316 | the clusters a write may demand are those that cover the file up to the end of the write |
| `ShortNames.ToShortName` | fs/fat32/fat32.c:698-740 | the packed form: upper-cased legal characters of base and extension, cut to 8 and 3, padded |
| `ShortNames.LegalSet` | fs/fat32/fat32.c:715-721 | the legal characters by number: letters, digits and sixteen others |
| `ShortNames.EncodedBytes` | fs/fat32/fat32.c:698-740 | where each byte of a packed name comes from: base from 0, extension from 8, spaces elsewhere |
| `ShortNames.FormatShortName` | fs/fat32/fat32.c:677-696 | the unpacked form, zero-terminated |
| `ShortNames.Compare` | fs/fat32/fat32.c:656-675 | zero exactly when the name is, letter by letter up to case, the one the entry shows |
| `ShortNames.UpperSame` | fs/fat32/fat32.c:94-99 | two names have one upper-case form if and only if they agree letter by letter, each byte equal or one of 65 to 90 against the same plus 32 |
| `ShortNames.RoundTrip` | fs/fat32/fat32.c:677-740 | packing and unpacking gives the upper-case name if and only if the name is representable |
| `ShortNames.KeyOfEncoded` | fs/fat32/fat32.c:656-740 | a representable name in any letter case is found under its upper-case form once packed |
| `Directory.FindIsMapLookup` | fs/fat32/fat32.c:754-809 | a lookup finds a record exactly under the names of the name map, and finds the map's record |
| `Directory.FindExact` | fs/fat32/fat32.c:754-809 | a search finds the first record before the end mark that is in use, is no long-name piece and shows the name in some letter case, and nothing exactly when none does |
| `Directory.FindAnyCase` | fs/fat32/fat32.c:656-675 | names that differ in letter case only find the same record |
| `Directory.CreateThenFindAnyCase` | fs/fat32/fat32.c:698-809 | a file created under a name is found under it in every letter case |
| `Directory.AttributeBits` | fs/fat32/fat32.h:47-57 | which attribute bits make a volume label and which a long-name piece |
| `Directory.FirstClusterIs` | fs/fat32/fat32.h:565-567 | the first cluster is c if and only if bytes 26, 27, 20 and 21 hold its four bytes, lowest first |
| `Directory.WithCluster` | fs/fat32/fat32.h:574-577 | setting the first cluster stores those four bytes and changes no other |
| `Directory.CreateInserts` | fs/fat32/fat32.c:1046-1061 | a record under a new name adds that name to the map and changes nothing else in it |
| `Directory.CreatedWhere` | fs/fat32/fat32.c:1046-1162 | a new record takes the first slot marked 0xE5 or 0; a directory without one grows by the record and blank ones |
| `Directory.RecordBytes` | fs/fat32/fat32.c:1055-1061 | the bytes of a new record and of an erased one |
| `Directory.EraseRemoves` | fs/fat32/fat32.c:1196-1203 | erasing a listed record removes its name and no other; erasing another record leaves the map alone |
| `Directory.CreateThenFind` | fs/fat32/fat32.c:1031-1162 | creating a plain file adds exactly its name to the map, and keeps the directory well formed |
| `Directory.DeleteThenFind` | fs/fat32/fat32.c:1164-1212 | a deletion removes exactly its name, if and only if the record hit is no volume label or the name was not there |
| `Directory.DeleteAgreesWithFind` | fs/fat32/fat32.c:1178-1194 | deletion and lookup agree on the record if and only if the deletion does not hit a volume label |
| `Directory.LabelShadowsFile` | fs/fat32/fat32.c:1178-1194 | an instance: with a label in front of a file of the same name, the deletion erases the label and the file is still found |
| `Directory.CreateThenDelete` | fs/fat32/fat32.c:1031-1212 | creating and deleting gives the name map back if and only if no label of that name precedes the new slot |
| `FatDirectory.DirPut` | fs/fat32/fat32.c:1055-1061 | replacing one record of one cluster replaces exactly that record of the directory |
| `FatDirectory.FindEntry` | fs/fat32/fat32.c:754-809 | on a volume: found exactly when the name is in the directory's name map, and then the map's record, the first that shows the name in some letter case |
| `FatDirectory.CreateEntry` | fs/fat32/fat32.c:1031-1162 | for plain files: the record goes to the first unused slot or to a zeroed cluster added to a full directory; nothing outside the directory changes; the error codes, ERR_NOSPC only for a full directory on a full volume |
| `FatDirectory.DeleteEntry` | fs/fat32/fat32.c:1164-1212 | the first record that shows the name is erased, exactly the clusters met from the one its bytes 26, 27, 20 and 21 name are freed, no other record or cluster changes; the error codes |
| `FatDirRuns.Run` | fs/fat32/fat32.c:1031-1212 | for every sequence of lookups, opens and deletions in one directory, with names no volume label has and no deletion of `.` or `..`, up to the first creation from which the allocator would not come back: the directory implements a map from upper-case names to records, every result is the map's, a creation is refused only on a full volume, all files in it stay well formed and apart and keep their bytes, and no cluster outside the directory changes |
| `FatDirRuns.NotStuck` | fs/fat32/fat32.c:1123-1127 | only a creation of a new name, in a full directory and from a hint that is no data cluster, can stop a run |
| `FatDirRuns.DeleteSelf` | fs/fat32/fat32.c:1194-1203 | deleting a record that names the directory itself, as `.` does, frees every cluster of the directory |
| `Calendar.YearClosedForm` | drivers/timer/rtc.c:397-400 | adding up the years one by one gives the closed form with 477 leap years before 1970 |
| `Calendar.WeekdayCorrect` | drivers/timer/rtc.c:363-384 | for every valid date from 1970 Zeller's congruence, with C's remainder, gives the weekday that counting days gives |
| `Calendar.TimeToUnix` | drivers/timer/rtc.c:389-417 | on all field values: the exact number of seconds in 64 bits, 0 before 1970 |
| `Calendar.SplitMonths` | drivers/timer/rtc.c:447-452 | the month loop never passes December and splits the day of the year exactly |
| `Calendar.UnixToTime` | drivers/timer/rtc.c:422-458 | for every 64-bit timestamp a valid time with its weekday; exact up to the year 65535 |
| `Calendar.DayNumberInjective` | drivers/timer/rtc.c:389-408 | different valid dates have different day numbers |
| `Calendar.TimeRoundTrip` | drivers/timer/rtc.c:389-458 | every valid time of the years 1970 to 65535 survives the conversion to a timestamp and back |
| `Calendar.UnixRoundTrip` | drivers/timer/rtc.c:389-458 | a timestamp survives the conversion to a time and back if and only if its year is at most 65535 |
| `Cmos.BcdDigits` | drivers/timer/rtc.c:58-60 | a BCD byte has the tens in its high half and the ones in its low half |
| `Cmos.HourRegisterIs` | drivers/timer/rtc.c:288-304 | the hour register in all four modes: bit 7 exactly from noon on in 12 hour mode, below it 12, 1, ..., 11 |
| `Cmos.YearWithoutCentury` | drivers/timer/rtc.c:222-231 | a century that is not believed gives a year from 1981 to 2080 with the same last two digits |
| `Cmos.HourRoundTrip` | drivers/timer/rtc.c:197-304 | the hour register is decoded to the hour encoded, in all four modes |
| `Cmos.RegsRoundTrip` | drivers/timer/rtc.c:142-336 | decoding the registers of an accepted time gives it back if and only if its year is 1900 to 2199 |
| `Cmos.Clock.SetTime` | drivers/timer/rtc.c:252-336 | refused without effect exactly for fields out of range; otherwise the registers of the time |
| `Cmos.Clock.SetThenGet` | drivers/timer/rtc.c:142-336 | on a stopped clock the time set is read back if and only if its year is 1900 to 2199 |
| `Cmos.ReadStable` | drivers/timer/rtc.c:152-181 | the loop stops at the first attempt whose two passes agree, with the registers of its first pass; if fewer than 60 ticks lie between its seconds reads, all registers come from one clock state |
| `WindowList.Compositor.Unlink` | gui/compositor/compositor.c:920-939 | the window leaves the stacking order, the rest stays linked both ways |
| `WindowList.Compositor.Link` | gui/compositor/compositor.c:944-959 | the window is added in front, the list stays linked both ways |
| `WindowList.Compositor.SetActive` | gui/compositor/compositor.c:387-410 | the flag is on exactly the new active window, if any |
| `WindowList.Compositor.Create` | gui/compositor/compositor.c:117-195 | null exactly on the four failures; otherwise a new window on top, active |
| `WindowList.Compositor.Destroy` | gui/compositor/compositor.c:200-231 | exactly that window leaves; an active one passes the focus to the frontmost remaining |
| `WindowList.Compositor.Raise` | gui/compositor/compositor.c:321-345 | to the front and active, the others in order; no effect in front |
| `WindowList.Compositor.Lower` | gui/compositor/compositor.c:350-382 | to the back, the others in order, the focus where it was |
| `WindowList.Compositor.Minimize` | gui/compositor/compositor.c:578-598 | an active window passes the focus to the nearest visible window behind it that is not minimized, or to none |
| `WindowList.Compositor.Run` | gui/compositor/compositor.c:117-410 | over every run: links both ways, z-order strictly increasing, count, focus flag, and the stacking order, focus and minimized windows the operations call for |
| `WindowList.StackSound` | gui/compositor/compositor.c:117-195 | over every run window identities stay distinct, at most one window has the focus, and there are at most 64 |
| `Raster.DecisionValue` | drivers/video/framebuffer.c:651-669 | d = 2(x+1)² + y² + (y-1)² - 2r² on the way round a circle |
| `Raster.TrackStep` | drivers/video/framebuffer.c:662-668 | the loop step keeps the invariant that bounds each point's distance from the circle |
| `Raster.CircleExact` | drivers/video/framebuffer.c:684-705 | the points visited are exactly the lattice points of the octant with -y <= x²+y²-r² <= y-1 |
| `Raster.NearestInteger` | drivers/video/framebuffer.c:684-705 | so y is the integer nearest to sqrt(r²-x²) |
| `Raster.FilledCircle` | drivers/video/framebuffer.c:648-671 | the spans contain every lattice point of the disc and nothing beyond squared distance r²+r-1 |
| `Raster.Framebuffer.FillCircle` | drivers/video/framebuffer.c:648-671 | exactly the on-screen part of the spans is painted, so all of the disc |
| `Raster.Framebuffer.DrawCircle` | drivers/video/framebuffer.c:676-706 | exactly the on-screen mirror images of the octant are painted |
| `Raster.DrawnCircle` | drivers/video/framebuffer.c:676-706 | a drawn circle consists of exactly the lattice points nearest to the circle along their longer coordinate |
| `Raster.LineBound` | drivers/video/framebuffer.c:509-529 | after i x-steps and j y-steps the deviation j·dx - i·dy is at most half the longer side, with ties on one side only, and k steps move k along the longer axis |
| `Raster.LineEnds` | drivers/video/framebuffer.c:515-518 | the endpoint is met after max(dx, dy) steps and not before |
| `Raster.LineExact` | drivers/video/framebuffer.c:509-529 | the points visited are exactly those of the rectangle nearest to the ideal line along the shorter axis |
| `Raster.SegmentExact` | drivers/video/framebuffer.c:489-530 | the pixels of any line, axis-aligned or not, are exactly the nearest ones, both ends included |
| `Raster.Framebuffer.DrawLine` | drivers/video/framebuffer.c:489-530 | the loop ends, and exactly the on-screen pixels of the segment are painted |
| `Raster.Framebuffer.HLine` | drivers/video/framebuffer.c:407-421 | exactly the on-screen part of the span is painted |
| `RxRing.Ring.constructor` | drivers/network/e1000.c:269-276 | an empty ring with the tail one behind `rx_cur` |
| `RxRing.Ring.DeviceFill` | drivers/network/e1000.c:273-276 | the device fills at the head unless it has reached the tail; no waiting frame is overwritten |
| `RxRing.ArrivalAccepted` | drivers/network/e1000.c:269-276 | a packet that finds fewer than 254 waiting is accepted, or fewer than 255 when no receive is under way; one that finds 255 is not |
| `RxRing.Ring.Copy` | drivers/network/e1000.c:562-586 | the oldest waiting frame is taken: a good one hands over its bytes up to the caller's limit and their number, one with errors -1 and no bytes |
| `RxRing.Ring.ReceivePacket` | drivers/network/e1000.c:544-599 | an uninterrupted receive: all of a good frame that fits the limit, exactly the limit of one that does not, with their number as the code; -1 and no bytes for a frame with errors; the frame leaves the queue, the tail is one behind `rx_cur` again |
| `RxRing.Ring.Run` | drivers/network/e1000.c:544-599 | for every interleaving of packets with single driver steps the ring does what the queue does, and every result, the bytes handed over included, is the queue's; the done descriptors are those from `rx_cur` to the head |
| `RxRing.RunInOrder` | drivers/network/e1000.c:544-599 | over every run no accepted frame is lost, repeated or reordered, and each is handed over once, its bytes up to the limit of the call that took it |
| `EditorText.SplitLine` | apps/text_editor/editor.c:617-634 | splitting a line is inserting a newline at the flat offset |
| `EditorText.JoinedLines` | apps/text_editor/editor.c:546-563 | joining two lines is deleting the newline between them |
| `EditorText.Save` | apps/text_editor/editor.c:472-490 | the bytes written: the flat text, with a final newline unless the last line is empty |
| `EditorText.Open` | apps/text_editor/editor.c:377-420 | the lines read: pieces between newlines without a trailing CR, up to the first zero byte and 65536 lines, at least one |
| `EditorText.ReturnNewline` | apps/text_editor/editor.c:383-395 | a line that ends in CR and newline is read without both |
| `EditorText.SaveThenOpen` | apps/text_editor/editor.c:377-490 | opening what was saved gives the same lines, but for an empty last line that is not the only one |
| `EditorBuffer.Line.EnsureCapacity` | apps/text_editor/editor.c:70-103 | succeeds exactly when the room is there or allowed and memory is; the text and its terminator stay |
| `EditorBuffer.Line.InsertChar` | apps/text_editor/editor.c:108-124 | one character enters the line, or nothing changes; when which |
| `EditorBuffer.Line.DeleteChar` | apps/text_editor/editor.c:129-137 | one character leaves the line, or nothing changes past the end |
| `EditorBuffer.Editor.InsertLine` | apps/text_editor/editor.c:146-180 | the line enters the table, or nothing changes; when which |
| `EditorBuffer.Editor.InsertChar` | apps/text_editor/editor.c:513-529 | one character enters the flat text at the cursor, exactly when there is room |
| `EditorBuffer.Editor.Backspace` | apps/text_editor/editor.c:534-567 | the character before the cursor leaves the flat text, if and only if it is in the line or the joined line fits; a column past the end of the line only moves back |
| `EditorBuffer.Editor.DeleteForward` | apps/text_editor/editor.c:572-600 | the same for the character at the cursor, which keeps its line and column |
| `EditorBuffer.Editor.Newline` | apps/text_editor/editor.c:605-640 | a newline enters the flat text at the cursor; what happens on each failure |
| `EditorBuffer.Editor.Run` | apps/text_editor/editor.c:513-640 | any run of keystrokes, up to the first without room, refines the same edits of a flat text with a cursor |
| `EditorBuffer.Editor.BelowLimits` | apps/text_editor/editor.c:70-180 | with memory, below 4096 bytes a line and 65536 lines, every keystroke has room |
| `PathText.DotDotGoesUp` | fs/vfs/vfs.c:184-194 | a component followed by `..` is as if both were not there, anywhere in a path; at the root `..` does nothing |
| `PathText.DotStays` | fs/vfs/vfs.c:170-194 | `.` and extra slashes do nothing |
| `PathText.NameGoesDown` | fs/vfs/vfs.c:184-214 | any other component is added at the end |
| `PathText.NormalizedTwice` | fs/vfs/vfs.c:148-217 | normalising is idempotent |
| `PathText.NormalizedSame` | fs/vfs/vfs.c:148-217 | two paths have one normal form if and only if they lead to the same place |
| `PathText.FixedIffNormal` | fs/vfs/vfs.c:144-147 | the paths left alone are exactly those in normal form, said of their characters; results are in it |
| `PathText.CoversIsAncestor` | fs/vfs/vfs.c:443-448 | on normal paths the character test of the mount search finds exactly the ancestors |
| `PathNormalizer.PathBuffers.Tokenise` | fs/vfs/vfs.c:170-197 | the offsets left in the table are those of the strings of the stack; at most 2048 |
| `PathNormalizer.PathBuffers.Build` | fs/vfs/vfs.c:200-214 | the rendered stack, or refusal exactly when it does not fit |
| `PathNormalizer.PathBuffers.Normalize` | fs/vfs/vfs.c:148-217 | the stack semantics of `.`, `..` and repeated slashes, refused exactly when path or result is too long; the path may be the output buffer |
| `PathNormalizer.PathBuffers.NormalizeAgain` | fs/vfs/vfs.c:628-635 | the second normalisation, run on the output buffer, succeeds and changes no byte of it |
| `PathNormalizer.PathBuffers.GetMount` | fs/vfs/vfs.c:427-458 | the deepest active mount at an ancestor of the path, none exactly when there is none or the path is too long |

## Left out

- FatVolume and FatDirectory, beyond single FAT entries and single clusters, assume a device that refuses no operation (`Reliable`); what a refusal does is modelled in `FatTables` and for `NextCluster`, `SetEntry`, `ReadCluster` and `WriteCluster`.
- FatVolume.Volume.FreeChain: a refused entry write makes the code return before it adds the clusters already freed to the count (fs/fat32/fat32.c:554-557), so an exact count then goes wrong; a device that refuses is outside its contract.
- FatVolume.Volume.AllocCluster: needs a hint inside the FAT and a search that ends; a hint past the FAT reads sectors of the second FAT or of the data, which is not modelled.
- FatVolume.Volume.WriteFile: needs the room condition of `FatChains.Room`, because without it the file may be given a number that is no data cluster.
- FatVolume.Volume.WriteFile: bytes between the old end and the write position inside a cluster the file already had, or inside the first cluster of an empty file, are not zeroed by the code; the contract says that they stay as they were.
- FatVolume.Volume.WriteThenRead: is stated for ranges that end below 2^32, because the size field is 32 bits wide.
- FatTables.FatTable.Flush: says nothing of sectors of the second FAT that were not dirty, because evictions write only the first.
- FatTables.FatTable.Run: stops before a read with both its write-back and its load refused; what that read does is stated by `ReadEntry`.
- FatVolume.Volume.Truncate: says nothing of the content after a shrink beyond the clusters kept.
- FatVolume.ClusterSector: is computed in ideal integers; the 32-bit product of `fat32_cluster_to_sector` is not modelled.
- Geometry: sectors of 512 bytes only, because the cache lines have that size, and a first FAT large enough for all clusters.
- FatDirectory.CreateEntry: not for directories, whose branch writes past its one cluster buffer (fs/fat32/fat32.c:1075), and in a full directory only with room for one cluster.
- FatDirectory.DeleteEntry: needs a first cluster below 2^28, as in every record the driver writes.
- FatDirRuns.Run: names of volume labels are excluded; `Directory.DeleteThenFind` and `Directory.CreateThenDelete` say what happens with them. Deletions of `.` and `..` are excluded, which the path normaliser strips; `DeleteSelf` says what deleting `.` does. Looking before creating is what `vfs_open` does (fs/vfs/vfs.c:734-751).
- FAT32 mount and unmount, FSInfo write-back, long file names, path lookup across directories and the VFS callbacks.
- Cmos.ReadStable: the wait for the update flag is left out; that makes more reads possible, not fewer. The loop may go on for ever on a clock that never stands still, so what it returns is stated for the attempt on which it stops.
- Cmos assumes that the century register is present, as the driver's initialisation sets it (drivers/timer/rtc.c:123).
- Raster: coordinates are ideal integers; 32-bit overflow, the pitch and the address of a pixel are not modelled.
- WindowList: z-orders are ideal integers; geometry, dirty regions, titles and pixel buffers are not modelled. Flag bits are booleans.
- RxRing: transmission, interrupts and the splitting of packets over several descriptors; an accepted packet fits its buffer.
- EditorText.Open: allocation of every line succeeds.
- EditorText.Save: every write to the file succeeds.
- EditorBuffer: cursor movement, tabs, search and drawing. Whether an allocation succeeds is a parameter.
- PathNormalizer.PathBuffers.GetMount: mounting and unmounting are not modelled; the search looks at the first `count` slots, as the code does.
- Log output, null-pointer checks on handles, and locking.
