# Models of the MiSTer main program

The MiSTer main program runs on the ARM side of the board and serves the cores on the FPGA: it
turns disk and disc images into what a drive would deliver, moves sectors to and from the cores,
and hands slow work to a second thread. This project models the parts of it whose correctness
cannot be seen by reading one function, and proves what they are for.

**The LZH unpacker** (`Lzh*.dfy`). An adaptive Huffman tree in three tables that are swapped and
rebuilt in place, a shift register fed byte by byte, and a 4096-byte window. The tree keeps its
invariant through every update and every rebuild; register and window refine a plain bit string and
a plain history; and a ghost encoder over the same tree is undone by the unpacker. The loop stops as
soon as the last byte has been *fetched*, so the round trip holds exactly when the message's last
token begins before that: two bytes of padding are always enough, and without any a short last token is
lost. No code is ever longer than 21 bits.

**CD sectors** (`Cd*.dfy`). A cooked sector becomes the one valid Mode 1 sector with its header and
data: the table-driven code is the remainder of division by the generator polynomial, and all
codewords of the two Reed-Solomon layers have both syndromes zero. The track table of a whole cue
sheet, which can have a sector in two tracks, and which misplaces tracks of a third file;
and the packet READ of any range, sent in chunks that the host asks for, with the exact condition under
which a range of several tracks is read from the right places.

**The offload queue** (`Offload*.dfy`). Producer and worker as a system of atomic steps over a ring
of eight slots: safety, order, progress and draining over every interleaving. The waits are not
repeated when they return; which runs are safe whatever wakes the threads is stated exactly.

**IDE transfers** (`Ide*.dfy`). Reads and writes that can be suspended at every block boundary by a
time budget, by the core or by the other channel, with all of these left to free choice. Whatever
happens, the sectors arrive once each, in order, unless the host has set a block size of 0, with which
nothing moves.

**Floppy disks** (`Floppy*.dfy`, `Scl*.dfy`). Tracks of marks, gaps and checksums; the cyclic search
for address marks and sectors, on any track at all, and the tracks on which it comes back; storing
into a sector; the distribution of gaps; and the way from an SCL archive to a TRD image, byte by byte.

**Apple disk nibbles** (`Nibble*.dfy`). The 6-and-2 coding into buffers that are never cleared, and a
reader that finds every sector of a track by its marks alone, wherever it starts.

**Buttons** (`Autofire*.dfy`, `Trigger*.dfy`). Autofire patterns over frames, the table of held keys,
the level and edge of an analog trigger, and the keys of an axis that triggers share.

Objects that the program updates in place are classes here, with their loops; each method is proved
against a function or a predicate on values, and the lemmas are about those. What several proofs
share, such as code tables, layouts and the order of bytes, is determined by a second statement in
other terms (`LzhTables.dfy`, `CdLayout.dfy`, `CdOffsets.dfy`, `FloppyBytes.dfy`, `SclFormat.dfy`,
`SclBoot.dfy`, `NibbleBits.dfy`). `BitOps.dfy` has shifts, or, exclusive or and carry-less
multiplication on natural numbers. Widths are explicit: counters and registers wrap where the
program's do. Disk failures, time budgets, what the host writes and when it asks are
nondeterministic; files are byte sequences. `dafny verify dfyconfig.toml` verifies all of it.

Some properties that one would expect do not hold of the code as it is; they are stated with the
condition under which they do:

- the unpacked message (`LzhCodec.RoundTrip`, `LzhCodec.NoPadding`, `LzhLength.TwoBytesLost`);
- every sector in exactly one track (`CdTracks.ExactlyOne`, `CdTracks.Backwards`, `CdSheet.SheetStraight`),
  and every track in its place (`CdSheet.LengthGiven`, `CdSheet.ThirdFileShifted`);
- a range of sectors from its own tracks (`CdRead.RangeRight`, `CdRead.AcrossFiles`), the data of a
  sector (`CdRead.DataTaken`), chunks of eight sectors (`CdRead.Device.ChunkSize`, `CdRead.HugeReads`),
  and a first seek that is noticed to fail (`CdRead.Device.ServedFrom`);
- no job lost and no empty handler called (`Offload.SpuriousMatters`, `OffloadWaits.FineExactly`,
  `OffloadWaits.ProducerLosesJob`);
- the address of the last sector in the registers (`IdeAddress.PutGet`, `IdeAddress.LastOfTrack`), and
  blocks that straddle the start of the image (`IdeTransfer.PlacesExact`, `IdeTransfer.StraddlingBlock`);
- a transfer that comes nearer its end (`IdeChannel.Channel.ProcessRead`, `IdeChannel.Channel.NeverEnds`);
- a search for a sector that ends (`FloppyRounds.AllEnd`, `FloppyRounds.NeverEnds`), and one whose
  checksums stay in the track's buffer (`FloppyRounds.AllComeBack`, `FloppyRounds.CrcRunsOut`);
- a track of 6250 bytes, and one that stays in its buffer (`FloppyGaps.Fits`, `FloppyGaps.FitsBuffer`,
  `FloppyGaps.TooLong`, `FloppyGaps.TooManyMarks`, `FloppyGaps.BeyondBuffer`, `FloppyGaps.SumWraps`);
- a directory entry for every file (`SclImage.LeftOutInFile`, `SclImage.FullDiskLosesFile`), and the count
  of free sectors (`SclImage.FreeCountRight`, `SclImage.FullDiskShowsRoom`).

## Model

| member | source | states |
|---|---|---|
| LzhHuffman.HuffTree.StartHuff | DiskImage.cpp:3021-3043 | the start tables are the start tree, which is valid |
| LzhUpdate.StartValid | DiskImage.cpp:3026-3039 | the start tree is valid: frequencies in order below the sentinel, every inner node the sum of its two adjacent children, children below parents, `prnt` and `son` inverse, every symbol a leaf |
| LzhTables.StartCode | DiskImage.cpp:3026-3039 | the code of every node of the start tree: node x is number 627 - x of a binary heap, and its code that number's binary digits after the first, each turned round |
| LzhTables.StartWeight | DiskImage.cpp:3026-3031 | in the start tree every symbol counts once and symbol s is node s |
| LzhHuffman.HuffTree.Update | DiskImage.cpp:3085-3117 | from any valid tree and any symbol, the tables end as the value `Updated` says, and are valid again; the climb ends because node numbers grow |
| LzhHuffman.HuffTree.Raise | DiskImage.cpp:3093-3115 | one round with its scan and its exchange leaves exactly the tree `Bump`, and stands at the node that took the count |
| LzhHuffman.HuffTree.FindLeader | DiskImage.cpp:3096-3099 | the scan stops at the last node lighter than the new count |
| LzhHuffman.HuffTree.Exchange | DiskImage.cpp:3103-3112 | sons swapped, and the parents of all children of both nodes put right |
| LzhTree.BumpKeeps | DiskImage.cpp:3092-3116 | one round keeps the tree framed with only one sum still short by one, that of a strictly higher node; at the root nothing is owed and the tree is valid |
| LzhTree.BumpWeights | DiskImage.cpp:3093-3115 | one round changes no symbol's recorded frequency except that of the leaf it starts at |
| LzhUpdate.ClimbWeights | DiskImage.cpp:3091-3116 | the whole climb adds one to one symbol and to no other, however nodes are exchanged on the way |
| LzhUpdate.UpdatedWeights | DiskImage.cpp:3085-3117 | an update halves all frequencies exactly when the root is at its limit, then adds one to its symbol; the root is the total |
| LzhTables.RebuiltAt | DiskImage.cpp:3089-3089 | a tree is rebuilt before an update when its total has come to 32768, and only then |
| LzhHuffman.HuffTree.Reconst | DiskImage.cpp:3046-3080 | the in-place rebuild yields the tree `Rebuilt`, valid, with its root below the limit |
| LzhHuffman.HuffTree.CollectLeaves | DiskImage.cpp:3053-3062 | the leaves in their order, with halved counts, in the first half of the tables |
| LzhHuffman.HuffTree.JoinPairs | DiskImage.cpp:3064-3075 | the insertion loop yields the joined tables |
| LzhHuffman.HuffTree.InsertInto | DiskImage.cpp:3070-3074 | the overlapping block move and the store insert one entry and touch nothing behind it |
| LzhRebuild.SlotAbovePair | DiskImage.cpp:3066-3069 | each insertion lands above the pair it joins |
| LzhRebuild.JoinKeeps | DiskImage.cpp:3064-3075 | each insertion keeps the tables sorted, the children's indices right and the leaves complete |
| LzhRebuild.JoinConserves | DiskImage.cpp:3067-3074 | each insertion conserves the total of the leaves and of the nodes not joined yet |
| LzhRebuild.RebuiltValid | DiskImage.cpp:3046-3080 | rebuilding any valid tree gives a valid tree with its root below the limit |
| LzhRebuild.RebuiltWeights | DiskImage.cpp:3053-3062 | each symbol keeps a leaf, with (f + 1) / 2 for its frequency f |
| LzhTables.LeavesKept | DiskImage.cpp:3053-3062 | the leaves are taken over in the order in which they were, each with half its count |
| LzhTables.HalfIs | DiskImage.cpp:3058-3058 | halving rounds up |
| LzhTables.BehindEquals | DiskImage.cpp:3066-3069 | a joined pair goes behind all nodes that are no heavier, those of its own weight among them, and before all heavier ones |
| LzhReader.BitReader.GetBit | DiskImage.cpp:2989-3003 | the bits of the input, most significant first, then zeros for ever; the number of bits waiting afterwards |
| LzhReader.BitReader.GetByte | DiskImage.cpp:3005-3019 | the next eight bits of the same string as a number |
| LzhBits.LoadByte | DiskImage.cpp:2993-2998 | or-ing a shifted byte into the register appends eight bits to what it holds |
| LzhBits.TakeRest | DiskImage.cpp:3000-3001 | shifting the 32-bit register drops the bits delivered and keeps the others |
| LzhCodec.PrefixCode | DiskImage.cpp:2892-2960 | the two position tables describe a prefix code with a code for each of the 64 upper parts |
| LzhTables.CanonicalCode | DiskImage.cpp:2892-2960 | the two tables are the canonical code with 1, 3, 8, 12, 24 and 16 upper parts of 3 to 8 bits, in order: an upper part has exactly the patterns that begin with its code, and all 256 are used up |
| LzhTables.NoPatternUnused | DiskImage.cpp:2892-2960 | the code read does not depend on the bits behind it in the pattern |
| LzhTables.PositionParts | DiskImage.cpp:3134-3146 | a position is the upper part that the next eight bits show and the six bits behind its code |
| LzhCodec.ReadPositionBits | DiskImage.cpp:3134-3146 | the position written is the position read, and its length in bits is consumed |
| LzhUnpack.Unpacker.DecodePosition | DiskImage.cpp:3134-3146 | the value and the bits consumed are those of the format; always below 4096 |
| LzhCodec.WalkCode | DiskImage.cpp:3119-3128 | the root-to-leaf code of any node, followed bit by bit, arrives at that node |
| LzhCodec.ReadTokenBits | DiskImage.cpp:3119-3146 | in any valid tree, a token in that tree's code is the token read, and exactly its bits are consumed |
| LzhTables.FirstToken | DiskImage.cpp:3119-3173 | the bits of any first token, in full: a byte c is symbol c, and a copy of n bytes is symbol n + 253 with the position behind it |
| LzhUnpack.Unpacker.DecodeChar | DiskImage.cpp:3119-3132 | the symbol the bits lead to, and the tree updated for it |
| LzhUnpack.RingBack | DiskImage.cpp:3168-3172 | the slot a copy reads holds the byte position + 1 back in the history, overlapping or not |
| LzhUnpack.Unpacker.CopyBack | DiskImage.cpp:3170-3177 | a copy emits what the token means while the window moves under it |
| LzhCodec.CopyRepeats | DiskImage.cpp:3168-3177 | every byte a copy emits equals the one position + 1 places before it |
| LzhTables.FirstCopy | DiskImage.cpp:3021-3177 | a copy before any byte has come, from up to 4036 bytes back, is of spaces |
| LzhUnpack.LoopTest | DiskImage.cpp:3157-3157 | the test on the fetch pointer, as a condition on the number of bits delivered |
| LzhUnpack.Unpacker.Unpack | DiskImage.cpp:3148-3181 | tables, register and window together compute the decoding of the bit string, for any input and any former contents of the window |
| LzhCodec.RoundTrip | DiskImage.cpp:3148-3181 | a message encoded with the same tree and updates is a prefix of the output if and only if the loop still goes round at the message's last token |
| LzhCodec.TwoPaddingBytes | DiskImage.cpp:3157-3181 | with any two or more bytes after the packed bits every message comes back |
| LzhCodec.NoPadding | DiskImage.cpp:3157-3181 | without padding a message of two tokens or more comes back if and only if its last token is longer than 8 bits, from a byte boundary, or than 16 less the bit it starts at |
| LzhLength.CodeAtMost21 | DiskImage.cpp:3085-3117 | in any valid tree, so whatever came before, no symbol's code is longer than 21 bits: a node's grandparent weighs at least as much as the node and its parent together |
| LzhLength.TwoBytesLost | DiskImage.cpp:3157-3181 | of a message of two plain bytes of which the first is below 116 the second never comes back without padding |
| LzhLength.TwoZerosLost | DiskImage.cpp:3157-3181 | one such message |
| CdSector.Coder.FillTables | ide_cdrom.cpp:1142-1153 | the three tables are eight division steps, multiplication by alpha and division by 1 + alpha |
| CdGf.TimesOverThree | ide_cdrom.cpp:1146-1148 | division by 1 + alpha in GF(256) is the inverse of multiplication |
| CdGf.TimesThreeInjective | ide_cdrom.cpp:1148-1148 | no entry of the inverse table is written twice |
| CdLayout.FieldPolynomial | ide_cdrom.cpp:1146-1148 | alpha is 2, and its eighth power the sum of its fourth, third and second and 1, as the standard has the field |
| CdEdc.EdcTableStep | ide_cdrom.cpp:1156-1156 | a table step equals eight bit-serial steps |
| CdEdc.GeneratorFactors | ide_cdrom.cpp:1150-1150 | the constant is the product of the standard's two polynomials (clause 14.3 of ECMA-130) |
| CdEdc.EdcDivides | ide_cdrom.cpp:1155-1156 | the code of any message is its remainder: message and shifted register differ by a multiple of the generator |
| CdEdc.EdcResidue | ide_cdrom.cpp:1157-1160 | a message followed by its code leaves no remainder |
| CdEdc.EdcUnique | ide_cdrom.cpp:1157-1160 | no other four bytes leave none |
| CdCodeword.ParityComplete | ide_cdrom.cpp:1182-1184 | two bytes complete a codeword, with both syndromes zero, if and only if they are the parity bytes |
| CdCodeword.Equations | ide_cdrom.cpp:1171-1184 | a codeword is one exactly if the plain sum of its bytes is zero, and the sum of each byte times the power of alpha that counts the bytes behind it |
| CdSector.Coder.Parity | ide_cdrom.cpp:1171-1184 | the loop over a codeword yields its two parity bytes |
| CdSector.Coder.ParityLayer | ide_cdrom.cpp:1163-1186 | all 86 P or 52 Q codewords of a layer valid, nothing else changed |
| CdLayout.PColumn | ide_cdrom.cpp:1163-1181 | in the matrix of 26 rows of 43 words a P codeword is a column, its two parity bytes in the last two rows |
| CdLayout.QDiagonal | ide_cdrom.cpp:1163-1181 | a Q codeword is a diagonal: it begins at the head of a row, and each next byte is one row and one column on, round from the last row to the first |
| CdLayout.InOneColumn | ide_cdrom.cpp:1163-1181 | every byte from the header to the zeros is in exactly one P codeword, once |
| CdLayout.InOneDiagonal | ide_cdrom.cpp:1163-1181 | every byte from the header to the last P byte is in exactly one Q codeword, once |
| CdSector.LayerKept | ide_cdrom.cpp:1163-1186 | writing the Q layer leaves every P codeword valid |
| CdSector.Coder.Cook | ide_cdrom.cpp:1138-1187 | any header and data become a valid Mode 1 sector (ECMA-130, clauses 14.3 to 14.6 and Annex A), header and data untouched |
| CdSector.ValidIsMultiple | ide_cdrom.cpp:1155-1160 | the protected part of a valid sector is a multiple of the generator polynomial |
| CdSector.ValidUnique | ide_cdrom.cpp:1138-1187 | there is only one valid sector with given header and data |
| CdTracks.Drive.Add | ide_cdrom.cpp:218-301 | the table after a track is accepted, and exactly when it is, in 32-bit arithmetic |
| CdTracks.Drive.Find | ide_cdrom.cpp:172-190 | the first track that a sector is in, or none; the pregap flag exactly before the track's start |
| CdTracks.ExactlyOne | ide_cdrom.cpp:172-190 | for any table, every sector before the lead-out is in some track, and in one only if and only if the tracks end in order |
| CdTracks.StraightTracks | ide_cdrom.cpp:172-190 | in a table that goes forwards each sector before the lead-out is in exactly one track or the gap before it |
| CdTracks.SameFile | ide_cdrom.cpp:262-291 | a track of the same file keeps the table going forwards if and only if it does not begin before the track it closes |
| CdTracks.OtherFile | ide_cdrom.cpp:273-291 | a track of another file always does, within 32 bits |
| CdTracks.Backwards | ide_cdrom.cpp:218-301 | an accepted cue sheet, from the empty table on, with a sector in two tracks |
| CdSheet.SheetStraight | ide_cdrom.cpp:218-301 | for whole cue sheets: the table goes forwards if and only if, in each file, no track's index 0 lies before the index 1 of the track above it, less what the file's first track lags behind |
| CdSheet.LengthGiven | ide_cdrom.cpp:258-266 | the length that a track gets when the next one is of its file: what lies between them, and that lag besides |
| CdSheet.LagOnlyAfterTwo | ide_cdrom.cpp:262-285 | the lag is zero for every track but the first of a third or later file |
| CdSheet.ThirdFileShifted | ide_cdrom.cpp:262-285 | a sheet of three files in which the fourth track is put a hundred sectors too far on, on the disc and in its file |
| CdOffsets.NextInFile | ide_cdrom.cpp:258-268 | a track's data lies behind that of the track above it in the file by the sectors between their index 1, those before its index 0 being of the size of the track above; in 32 bits |
| CdOffsets.NextStart | ide_cdrom.cpp:258-268 | and its start, on the disc, by as many sectors and its pregap |
| CdOffsets.TrackInFile | ide_cdrom.cpp:218-301 | by induction over the sheet: the offset and the start of every track of a file of one sector size, from those of the file's first track |
| CdOffsets.SingleFile | ide_cdrom.cpp:218-301 | on a sheet of one file, the offset of track i is that of the first and the size times the sectors between their index 1; its start is so many sectors and all pregaps between on |
| CdOffsets.FirstInFile | ide_cdrom.cpp:271-286 | the first track of another file: its offset is where the file's data begins and the sectors between its index 0 and index 1; it starts behind the track above, which gets the least number of sectors that hold the rest of its file |
| CdOffsets.FirstTrack | ide_cdrom.cpp:238-252 | the first track of all: its offset and start |
| CdOffsets.Numbered | ide_cdrom.cpp:288-299 | the tracks of an accepted sheet are numbered on from the first, at most 100, with index 0 at or before index 1 |
| CdOffsets.Taken | ide_cdrom.cpp:288-299 | a track that is numbered so and does not begin before the one above it is always accepted |
| CdOffsets.WithIndex0 | ide_cdrom.cpp:218-301 | a file of raw sectors with index 0 of its second track at 1000 and index 1 at 1150: the offset 2704800, the start 1150, and 1000 sectors in the first track |
| CdRead.Device.Read | ide_cdrom.cpp:1059-1136 | one chunk of any range: the next sectors from the file of the track that the first one is in, of the number of the rule; zeros from a disk failure or the file's end on, and if there is no such track |
| CdRead.Device.Seek | ide_cdrom.cpp:1084-1088 | a first seek that fails is not noticed: reading begins wherever the file was |
| CdRead.Device.ReadSectors | ide_cdrom.cpp:1034-1057 | for sectors of 2048, 2336 and 2352 bytes, the bytes that the code takes for the data of the next sectors, the file left at the sector after; what lies behind the end of a file is whatever was in the buffer |
| CdRead.DataTaken | ide_cdrom.cpp:1046-1047 | the bytes taken are the sector's data, in every file, if and only if the sector does not have 2336 bytes |
| CdRead.Device.ChunkSize | ide_cdrom.cpp:1062-1071 | for every 32-bit count: the largest number of sectors up to eight that the host takes at once, or one, if and only if the count is at most eight or not within eight above a multiple of 2^30 |
| CdRead.HugeReads | ide_cdrom.cpp:1062-1071 | the chunks of a READ come to such a count, sooner or later, if and only if it asks for 2^30 sectors or more |
| CdRead.Device.Command | ide_cdrom.cpp:1555-1574 | a READ of 0 ends at once; any other has sent exactly its first chunk |
| CdRead.Device.Serve | ide.cpp:1114-1119 | however the host paces its requests, a command for any range ends with as many sectors sent as were asked for, in chunks by the rule |
| CdRead.Device.ServedRight | ide_cdrom.cpp:1080-1131 | a range within one track of a table that goes forwards, and within its file, has been sent from the right places, if the first seek went there and the disk did not fail |
| CdRead.Device.ServedFrom | ide_cdrom.cpp:1084-1088 | whatever the first seek has done, each sector is from the right place if and only if the position it left was right |
| CdRead.RangeRight | ide_cdrom.cpp:1080-1085 | for any table and any range: it is read from the right places, all of it, if and only if all its sectors are in tracks and every track that it reaches goes on in the file where the first one would |
| CdRead.RangeStraight | ide_cdrom.cpp:172-190 | in a table that goes forwards the sectors in tracks are those before the lead-out |
| CdRead.Device.RangeServed | ide_cdrom.cpp:1080-1131 | then each sector sent has the bytes of its own track |
| CdRead.AcrossFiles | ide_cdrom.cpp:1080-1085 | a range over two tracks in two files, which is read from the wrong file |
| Offload.StepInv | offload.cpp:23-122 | every step of producer and worker keeps the invariant of ring, counters and history, across 32-bit wrap |
| Offload.Safety | offload.cpp:23-65 | after every run: at most eight jobs in the ring, jobs run once each in the order handed over, no empty handler called, and a worker that has left has left nothing undone |
| Offload.NoneForgotten | offload.cpp:103-122 | in any run, whatever wakes the threads, the jobs brought are in the history once each and in order, but for one that still waits for room |
| Offload.WhoWaits | offload.cpp:33-114 | a call waits exactly if eight jobs are in the ring; the worker waits exactly if none is and it is not to stop, and leaves exactly if none is and it is |
| Offload.BusySlotKept | offload.cpp:55-56 | the producer never writes the slot in use outside the lock |
| Offload.NoDeadlock | offload.cpp:29-62 | no wake-up is lost and no reachable state is stuck; an idle system has run everything |
| Offload.StopProgress | offload.cpp:89-101 | after offload_stop every step brings the end nearer |
| Offload.StopDrains | offload.cpp:89-101 | after offload_stop every run is bounded, and ends with every job run and the worker gone |
| Offload.SpuriousMatters | offload.cpp:40-48 | every run is free of calls to an empty handler if and only if waits do not return without a signal; with a run that makes one |
| OffloadWaits.FineExactly | offload.cpp:33-122 | for each run, whatever wakes the threads: all jobs are kept, run in order, and no empty handler is called, at every point of it, if and only if no handler is called on an empty queue and no slot is filled or emptied that holds a job still to be run |
| OffloadWaits.SignalledCareful | offload.cpp:33-122 | every run in which waits return only when signalled is such a run |
| OffloadWaits.ProducerLosesJob | offload.cpp:109-114 | a run in which the producer wakes up too early, puts its job over the one about to be called, and that one is lost |
| IdeAddress.PutGet | ide.cpp:745-789 | for any geometry, the address written after a block reads back as the last sector sent if and only if it fits the registers |
| IdeAddress.ChsSteps | ide.cpp:753-760 | sector 1 of head 0 of cylinder 0 is number 0; the next sector is one on, the next head a track on, and the next cylinder as many tracks on as there are heads; in 32 bits |
| IdeAddress.LbaDigits | ide.cpp:748-751 | a linear address is in the registers byte by byte, the sector register lowest |
| IdeAddress.LastOfTrack | ide.cpp:745-789 | with 256 sectors to a track the last sector of a track does not |
| IdeTransfer.BlockCountIs | ide.cpp:791-802 | the count register modulo 256 always yields the right next block |
| IdeTransfer.PlacesExact | ide.cpp:804-816 | each sector of a transfer comes from where it belongs if and only if no block straddles the start of the image |
| IdeTransfer.StraddlingBlock | ide.cpp:804-816 | a transfer with such a block, at an offset of 32 |
| IdeTransfer.SentIs | ide.cpp:804-816 | each sector sent is the made-up one of its number, the image's that counts from where the image starts, or zeros from a failure on; read from there and as long as it is, the image itself |
| IdeTransfer.WholeStored | ide.cpp:905-941 | what is stored from where the image starts and as long as it is, is the image then |
| IdeChannel.Channel.SetMultiple | ide.cpp:1001-1010 | which block sizes are accepted: those up to 32, and 0 |
| IdeChannel.Channel.SetGeometry | ide.cpp:336-354 | the geometry and the offset after the command that sets them |
| IdeChannel.Channel.ReadSendBlock | ide.cpp:818-858 | the prefetched block is sent with its address, one interrupt, and the next block is in the buffer; or the read is over |
| IdeChannel.Channel.ReadContinue | ide.cpp:867-871 | wherever the loop is suspended, what has been sent so far is right and the read can go on |
| IdeChannel.Channel.ProcessRead | ide.cpp:873-890 | a read of n sectors (256 for a count of 0), in blocks of any accepted size, is under way or over, with everything sent so far right; it has moved on if and only if the block size is not 0, and with 0 it has sent nothing and is over, as a success, if and only if the count register is 0 |
| IdeChannel.Channel.ReadResult | ide.cpp:818-890 | a finished read, if the disk never failed and no block straddles the start of the image, has delivered sectors lba to lba + n - 1 once each, in order; the registers hold the last one if and only if it fits |
| IdeChannel.Channel.PassingResult | ide.cpp:818-890 | a read that goes past the last sector number of 32 bits, as from cylinder, head and sector 0, has delivered as many sectors of zeros |
| IdeChannel.Channel.WriteRecvBlock | ide.cpp:905-941 | a block from the host is stored in its place, with one interrupt per block and none before the first |
| IdeChannel.Channel.WriteContinue | ide.cpp:943-946 | wherever the loop is suspended, what has been received so far is stored and the write can go on |
| IdeChannel.Channel.ProcessWrite | ide.cpp:948-960 | a write is waiting for its next block or over; no interrupt without a block; with a block size of 0 nothing is received or stored |
| IdeChannel.Channel.WriteResult | ide.cpp:905-960 | a finished write, under the same conditions, has stored the sectors received at lba to lba + n - 1 in order and nothing else |
| IdeChannel.Channel.DataRequest | ide.cpp:1098-1109 | a data request continues the transfer that is waiting, and brings it nearer its end if and only if the block size is not 0 |
| IdeChannel.Channel.NeverEnds | ide.cpp:1098-1109 | a transfer in blocks of no sectors, once suspended, answers any number of data requests with empty blocks and is never over |
| IdeChannel.Interleaved | ide.cpp:81-137 | two channels resumed in any order both finish as each would alone, although what the host writes passes through one buffer that anything may overwrite between two requests |
| FloppyCrc.MakeCrc | DiskImage.cpp:862-875 | the loop computes the CRC of the stretch |
| FloppyBytes.StepIs | DiskImage.cpp:868-872 | a one that falls out at the top turns round bits 0, 5 and 12 of the shifted register: the polynomial is x^16 + x^12 + x^5 + 1 |
| FloppyBytes.AddedIs | DiskImage.cpp:867-867 | a byte goes into the upper half of the register |
| FloppyBytes.MarkCrc | DiskImage.cpp:862-875 | the CRC of three mark bytes is 0xCDB4 |
| FloppyCrc.Residue | DiskImage.cpp:862-875 | the register run over data and two more bytes ends at zero if and only if they are the CRC |
| FloppyCrc.ChangeDetected | DiskImage.cpp:862-875 | changing any one byte of any data changes its CRC |
| FloppyCrc.LateStart | DiskImage.cpp:951-970 | a CRC begun at the second or third mark byte is never the right one |
| FloppyTrack.Track.Format | DiskImage.cpp:1192-1294 | every byte and clock of a formatted track |
| FloppyBytes.TrackIs | DiskImage.cpp:1192-1294 | every byte of a formatted track: sixteen times gap, zeros, marks, address field with cylinder, side 0, number and size, CRC with its upper byte first, gap, zeros, marks, data field, CRC and gap; the clock is missing in the six marks of each and nowhere else |
| FloppyTrack.Track.SkipMarks | DiskImage.cpp:950-956 | on any track a run of marks is left at its end, round the track's end if need be; it fails exactly if all is marks |
| FloppyTrack.Track.FindAddress | DiskImage.cpp:922-982 | on any track, from any position, if the field's checksum can be taken: the first place round the track where a run of marks ends in an address field, or none if there is none, and what its CRC says |
| FloppySearch.InBufferExactly | DiskImage.cpp:862-974 | the checksum of a field can be taken, of bytes of the track's own buffer, if and only if its marks do not begin behind its end and it does not go on past the buffer; the length is a difference of 32-bit numbers |
| FloppyFields.AddressIsNext | DiskImage.cpp:947-980 | what is found is the next field behind the starting position, and there is none only if the track has none |
| FloppyTrack.Track.FormattedIs | DiskImage.cpp:922-982 | on a formatted track it is the next sector's; its CRC is right if and only if the search did not begin inside the mark |
| FloppyLayout.NoneBefore | DiskImage.cpp:947-980 | no address field begins between the start of a search and what it finds |
| FloppyTrack.Track.FindSector | DiskImage.cpp:988-1096 | on any track, if the checksums on the way can be taken: whether the search ends and, if so, that it stops at the first field, in the order visited, that has the number or is the first one again, and takes the data behind it |
| FloppySearch.DataKinds | DiskImage.cpp:1053-1072 | behind an address field it is the first run of marks, within two turns, that decides: a data field begins exactly with one of four bytes behind it |
| FloppySearch.EndsSoon | DiskImage.cpp:1018-1041 | a search that ends at all ends within as many fields as the track has bytes |
| FloppyFields.SearchComplete | DiskImage.cpp:1018-1041 | on any track whose fields do not begin within one another every search comes to an end, so that it comes back if and only if its checksums can be taken; and it finds the number if and only if some field carries it, at the first such field from where it began |
| FloppyRounds.AllEnd | DiskImage.cpp:1018-1041 | the searches for a number end, from everywhere on a track, if and only if every field is come to again or has a carrier of the number on its way |
| FloppyRounds.AllEndAbsent | DiskImage.cpp:1018-1041 | for a number that no field carries: if and only if each field is the next one behind the six bytes of some field |
| FloppyRounds.AllComeBack | DiskImage.cpp:922-1096 | they come back from everywhere if and only if, besides, the checksum of every address field that can be found can be taken, and that of the data behind each carrier |
| FloppyRounds.CrcRunsOut | DiskImage.cpp:947-974 | a track on which a search ends but a checksum of 2^32 - 34 bytes is asked for |
| FloppyRounds.NeverEnds | DiskImage.cpp:1018-1041 | a track on which it does not |
| FloppyTrack.Track.FormattedFinds | DiskImage.cpp:988-1096 | on a formatted track with any contents, from any position: sectors 1 to 16 are found with 256 bytes, good CRCs and disjoint data areas; any other number ends not found |
| FloppyTrack.Track.FormattedInBuffer | DiskImage.cpp:862-1096 | there all checksums can be taken |
| FloppyTrack.Round | DiskImage.cpp:1018-1041 | there the search visits the sixteen fields in cyclic order and knows when it is round |
| FloppyTrack.Track.ApplySectorCrc | DiskImage.cpp:877-917 | on any track, for any marked stretch, around the end or not: its CRC goes behind it and nothing else changes |
| FloppyTrack.Track.WriteSector | DiskImage.cpp:2283-2287 | storing into a found sector keeps the track formatted with the new contents; only that sector's data and CRC bytes change |
| FloppyTrack.Track.FormattedPage | DiskImage.cpp:1475-1477 | the 256 bytes that are read of a sector found are the page that the track holds |
| FloppyLayout.OnePage | DiskImage.cpp:877-917 | on a formatted track another page shows only in one sector's data and CRC |
| FloppyDisk.Disk.Format | DiskImage.cpp:1179-1296 | all tracks of a new disk formatted, each on its own buffers, with the TR-DOS information sector |
| FloppyBytes.NewDiskByte | DiskImage.cpp:1255-1278 | every byte of a new disk's sectors: zeros, but for the first free sector, type, free count, identifier and name in the ninth sector of the first track |
| FloppyDisk.Disk.FindSector | DiskImage.cpp:988-1013 | not found on a disk that is not ready or has no such track; else as on the track, whatever is on it, and whether the search ends |
| FloppyDisk.Disk.FormattedSector | DiskImage.cpp:988-1096 | on a formatted disk every search comes back, and gives the page of the image |
| FloppyDisk.Disk.Store | DiskImage.cpp:2272-2287 | a store changes one sector of the disk's contents and keeps every sector of every track findable |
| FloppyDisk.LastWrite | DiskImage.cpp:2273-2287 | after any sequence of stores each byte is what the last store to it wrote, or what it was |
| FloppyDisk.Disk.WriteTrd | DiskImage.cpp:1462-1487 | of any disk whose checksums can be taken: a file is written if and only if all the searches end; for each sector, track by track, it has the 256 bytes that the search gives, or the error text if it gives none or there is no disk |
| FloppyDisk.Disk.FormattedShown | DiskImage.cpp:1462-1487 | for a formatted disk that is the disk's contents |
| FloppyGaps.HandOut | DiskImage.cpp:1681-1696 | the gap loop ends, conserves the space, and stops only when no gap can grow |
| FloppyGaps.OneWay | DiskImage.cpp:1681-1696 | the gaps grow in rounds, each in its turn, so that they are determined by the number of sectors and the space there is |
| FloppyGaps.SizeDoubles | DiskImage.cpp:1080-1081 | each size code stands for twice the size of the one before, from 128 bytes on and in 32 bits |
| FloppyGaps.Distribute | DiskImage.cpp:1642-1699 | a set of sectors is refused if and only if what it needs, in 32 bits, is more than a track; any other gets gaps that the loop and the two tests can come to |
| FloppyGaps.Fits | DiskImage.cpp:1642-1699 | a planned track comes out at 6250 bytes or less if and only if it is empty or the four bytes set aside were there and its marks are not too many |
| FloppyGaps.NotCrowded | DiskImage.cpp:1698-1699 | the marks are never too many if every data field has data in it |
| FloppyGaps.TooManyMarks | DiskImage.cpp:1642-1699 | thirty sectors, twelve of them of size code 25, that need 2814 bytes and are made 6264 |
| FloppyGaps.SumWraps | DiskImage.cpp:1639-1655 | two sectors of 2^31 bytes, which pass the test as 34 bytes |
| FloppyGaps.FitsBuffer | DiskImage.cpp:1628-1699 | it stays within its buffer of 7274 bytes if and only if the four bytes were there or the widest gaps are not too much for it |
| FloppyGaps.TooLong | DiskImage.cpp:1642-1699 | seven sectors that need 6247 bytes and are made 7044 |
| FloppyGaps.BeyondBuffer | DiskImage.cpp:1628-1699 | fifteen sectors that need 6247 bytes and are made 7960 |
| FloppyGaps.Enough | DiskImage.cpp:1698-1699 | the arithmetic of it: data comes in units of 128 bytes |
| SclLoader.Check | DiskImage.cpp:2121-2192 | which archives are refused and how, and when the checksum warning is given |
| SclFormat.Reloaded | DiskImage.cpp:2121-2192 | an archive made of any files holds those files, in their order, and is taken for whole; there is a warning if and only if its last four bytes are not the sum of all others, lowest byte first |
| SclFormat.Truncated | DiskImage.cpp:2121-2186 | cut off anywhere, it is refused as corrupt |
| SclFormat.OtherFormat | DiskImage.cpp:2135-2147 | what is long enough and does not begin with SINCLAIR is refused for its format, and nothing else is |
| SclLoader.ReadScl | DiskImage.cpp:2119-2309 | a whole archive of any number of entries and up to 4048 sectors becomes the disk `OnDisk` describes, byte by byte, of as many tracks as it takes; any other input leaves the disk alone |
| SclBoot.IsBootExactly | DiskImage.cpp:2217-2220 | an entry counts as a boot file's if and only if its name and type are BOOT, four spaces and B, the letters in either case |
| SclBoot.BootsAgree | DiskImage.cpp:2217-2220 | two such entries have the same name and type but for the case of letters |
| SclBoot.AddsExactly | DiskImage.cpp:2211-2231 | a boot file is put in front if and only if no entry counts as one and there are at most 127 then, the deleted ones counting twice |
| SclBoot.DeletedCount | DiskImage.cpp:2214-2214 | the deleted entries are those whose name begins with byte 1 |
| SclBoot.BootInFront | DiskImage.cpp:2231-2261 | then the image file begins with the name boot, the boot file's sectors follow the directory, and the count at 0x8E4 has one more |
| SclBoot.GameGetsBoot | DiskImage.cpp:2119-2305 | an archive whose only file is called game: two files, the boot file first, and 2 at 0x8E4 of the image file |
| SclBoot.LeastTracks | DiskImage.cpp:2195-2202 | the disk has whole cylinders, at least 80, and no more than the files and the first track need |
| SclLoader.PlaceFile | DiskImage.cpp:2263-2295 | one file: its entry, and its sectors in order from the next free one, up to the end of the disk |
| SclLoader.PlaceBoot | DiskImage.cpp:2231-2261 | the built-in boot file in front |
| SclLoader.UpdateInfo | DiskImage.cpp:2297-2305 | the information sector of the finished disk |
| SclArchive.FlowArchived | DiskImage.cpp:2181-2190 | the files' sectors follow one another in the archive without gap or overlap |
| SclImage.FileContiguous | DiskImage.cpp:2279-2294 | in the image file each file is one piece, from 16 * FirstTrk + FirstSec on, whole if and only if the disk has room for it |
| SclImage.EntryByte | DiskImage.cpp:2265-2305 | each byte of each directory entry is in the image file, but where the information sector lies on it |
| SclImage.EntryInFile | DiskImage.cpp:2265-2277 | the directory entry of file i, other than 142 and 143, is at byte 16 * i of the image file and leads to the file |
| SclImage.InfoInFile | DiskImage.cpp:2297-2305 | the information sector in the image file: the next free sector, the free count in sixteen bits, the counts of files |
| SclImage.FreeCount | DiskImage.cpp:2223-2305 | the free count is what is free if and only if the disk has 160 tracks |
| SclImage.FreeCountRight | DiskImage.cpp:2223-2305 | for an archive: if and only if its files take 2544 sectors at most |
| SclImage.FullDiskShowsRoom | DiskImage.cpp:2223-2305 | an archive that fills a disk of 162 tracks, which then shows 65504 free sectors |
| SclImage.LeftOut | DiskImage.cpp:2265-2265 | a file that is counted is missing from the directory if and only if the files before it fill the disk; if all of them fit, it is empty |
| SclImage.LeftOutInFile | DiskImage.cpp:2265-2277 | in the image file: the sixteen bytes at 16 * i, and the last of them, are zero if and only if the files before file i fill the disk |
| SclImage.FullDiskLosesFile | DiskImage.cpp:2119-2305 | an archive of thirteen files that loads with a count of thirteen and no thirteenth entry |
| Nibble.JoinSplit | DiskImage.cpp:3265-3282 | the two 6-and-2 buffers hold the whole page |
| NibbleBits.GcrTable | DiskImage.cpp:3197-3205 | the disk bytes are those with the top bit set, two ones side by side below it and at most one pair of zeros side by side, but for 0xAA and 0xD5 |
| NibbleBits.GcrIncreasing | DiskImage.cpp:3197-3205 | and they stand in increasing order |
| NibbleBits.LowsInBits | DiskImage.cpp:3207-3282 | which two bits of which bytes each entry of the secondary buffer has, the lower bit of each pair first |
| Nibble.ChainUndone | DiskImage.cpp:3297-3306 | the running sums can be undone |
| NibbleBits.DataByte | DiskImage.cpp:3296-3309 | each of the 343 bytes of a data field in bits of the page: the exclusive or of a value and the one before it, first the low bits, then the upper six bits of each byte |
| NibbleTrack.EachPageOnce | DiskImage.cpp:3212-3218 | in both orderings each page of the image goes to exactly one sector |
| NibbleBits.SectorOrder | DiskImage.cpp:3211-3218 | which page goes into which sector: in a .po image the even sectors have the first eight pages and the odd ones the others; else the odd sectors count down from 7, the even ones from 14, the first and the last apart |
| NibbleBits.SectorAt | DiskImage.cpp:3359-3374 | where each sector is on the track, and what lies around its two fields |
| NibbleBits.FmBits | DiskImage.cpp:3223-3227 | the first byte of a pair has the bits of odd weight and the second those of even weight, in the even places, among ones |
| NibbleBits.AddressSum | DiskImage.cpp:3249-3252 | the four bytes of an address field sum up to zero |
| NibbleTrack.ParseWritten | DiskImage.cpp:3284-3313 | a data field read back is the page written, checksum and all |
| NibbleTrack.TrackRoundTrip | DiskImage.cpp:3358-3371 | a reader that knows only the marks recovers the sixteen sectors of any track in order, each with its address and its page |
| NibbleTrack.AnyStart | DiskImage.cpp:3358-3371 | and one that starts anywhere on the turning track finds the sectors still to come and then all sixteen |
| NibbleTrack.MarksInTrack | DiskImage.cpp:3237-3313 | 0xD5 occurs only as the first byte of a field |
| NibbleWriter.Writer.Encode62 | DiskImage.cpp:3265-3282 | the coding of a page does not depend on what earlier pages left in the buffers |
| NibbleWriter.Writer.WriteDataField | DiskImage.cpp:3284-3313 | the bytes written are the data field of the page |
| NibbleWriter.Writer.WriteAddressField | DiskImage.cpp:3237-3260 | the bytes written are the address field |
| NibbleWriter.Writer.ConvertTrack | DiskImage.cpp:3358-3371 | the raw track is filled exactly, from any state of the buffers |
| Autofire.Cycle | autofire.cpp:127-133 | in any stretch of one cycle's length, wherever it begins, the button is down for exactly as many frames as the pattern has ones |
| Autofire.HalfDown | autofire.cpp:209-232 | a rate in hertz, however its quotient is rounded, holds the button down for half of every cycle, rounded down |
| Autofire.NotFaster | autofire.cpp:211-219 | it is never faster than asked for, nor than 30 hertz, but for the longest cycle and for the part that the division has rounded away |
| Autofire.ShortestCycle | autofire.cpp:216-218 | the cycle is the shortest of at least 2 and at most 64 frames that is as long as asked for |
| Autofire.FastestBelow | autofire.cpp:209-218 | for up to 30 a second, the fastest rate that is not above the one asked for, but for the longest cycle; above that, one frame of two |
| Autofire.DownFirst | autofire.cpp:220-230 | the button is down in the first half of each cycle and up in the second |
| Autofire.ParseLiteral | autofire.cpp:253-273 | which literals are accepted, and the pattern they stand for |
| Autofire.BitsToStr | autofire.cpp:177-189 | the lowest bits, highest first, at most 64 |
| Autofire.PatternShown | autofire.cpp:177-189 | showing an accepted literal gives its digits back |
| Autofire.LiteralDown | autofire.cpp:127-273 | a pattern written out is gone through from its last digit to its first |
| AutofireKeys.KeyTable.Set | input.cpp:1982-2011 | one key gains or loses buttons, a new one is entered once and while there is room, no other key changes, and none changes its age |
| AutofireKeys.KeyTable.Tick | input.cpp:6279-6290 | the age of every key that holds something down, in 32 bits |
| AutofireKeys.KeyTable.BuildMask | input.cpp:2013-2036 | the buttons sent are exactly those that some key holds, filtered by autofire |
| AutofireKeys.Counted | input.cpp:2013-2036 | a key without autofire counts whenever it is held; one with it counts in as many frames of any cycle as its pattern has ones |
| Trigger.Normalize | input.cpp:2342-2385 | the level, for every axis range and combination of flags |
| Trigger.FullRange | input.cpp:2350-2384 | at rest the level is 0; pressed all the way it is 255 if and only if the trigger has any way to go |
| Trigger.LevelIs | input.cpp:2376-2384 | the level is 0 in the dead zone at rest, 255 in that at full press, and in between as many parts of 255 as the way is of the rest, rounded down |
| Trigger.DeadzoneIs | input.cpp:2376-2378 | a dead zone is a fiftieth of the way and at least five, or a quarter of a way shorter than 20 |
| Trigger.Ways | input.cpp:2350-2371 | from where to where each kind of trigger is pressed, on an axis from 0 to 255 |
| Trigger.Monotone | input.cpp:2376-2384 | pressing further never lowers the level |
| Trigger.NoChatter | input.cpp:2387-2436 | a level that moves by no more than the distance of the two thresholds flips the digital edge at most once |
| TriggerEdge.TriggerAxisEdge | input.cpp:2418-2440 | the two keys of an axis, for any triggers on it: each goes by the highest level of those that press it |
| TriggerEdge.KeyDown | input.cpp:2435-2436 | a key is down if and only if some trigger that presses it has come to its threshold |
| TriggerEdge.SideOf | input.cpp:2430-2433 | the keys of an axis are 768 and the next, and two more for each axis before; a trigger bound to neither presses the first exactly if it is on the negative side |
| Trigger.Thresholds | input.cpp:2387-2388 | a trigger goes down at three tenths of its level and up below two tenths |
| TriggerEdge.SharedNoChatter | input.cpp:2418-2440 | a key that triggers share changes at most once while their highest level moves by no more than that distance, whatever the other key does |
| TriggerEdge.Telling | input.cpp:6073-6088 | the events of a change lead from the old keys to the new, tell of no key twice or for nothing, and put releases before presses |

## Left out

- LzhUnpack.Unpacker.Unpack: the output is a sequence; the size of the caller's buffer, which the code does not test, is not modelled.
- LzhCodec.DCode, LzhCodec.DLen and Nibble.Gcr: the three constant tables are given by their runs of equal or consecutive entries; `LzhTables.CanonicalCode` and `NibbleBits.GcrTable` say which tables these are.
- Offload.Safety: one producer, as the waits are not repeated; several producers, handlers that hand over further jobs, and the hardware's memory order are not modelled. Each unlocked action of the worker is one step.
- IdeChannel.Channel.ProcessRead: a read past the limit of 32 bits is modelled for images that end before it, which is to say below 2 terabytes. Of a write past it the registers, interrupts and counts are stated, not what is stored.
- IdeChannel.Channel.ReadResult and WriteResult: are about blocks of one sector or more, and transfers within 32 bits. The drive's made-up first sectors are a function of the sector number; a block that straddles the start of the image is taken whole from one side, as in the code, and `IdeTransfer.PlacesExact` says when that is right.
- IdeChannel.Channel.WriteFile: a disk access succeeds or fails as a whole; a write that stops half-way is not modelled, nor is command 0xFA, which mounts an image.
- FloppyTrack.Track.FindAddress and FindSector: a checksum that would be taken of bytes outside the track's buffer has no meaning in the program, and such fields are excluded; `FloppyRounds.CrcRunsOut` has one, and `FloppySearch.InBufferExactly` and `FloppyRounds.AllComeBack` the condition. Tracks of length 0 or of 65536 bytes and more are left out.
- FloppySearch.SizeOf: size codes of 32 and more, whose shift C++ does not define, count like those from 25 on.
- FloppyDisk.Disk.Format: has two sides, which is what both callers ask for; so have all disks here.
- SclLoader.ReadScl: archives with more than 4048 sectors, where a byte no longer counts the tracks; the boot image is any sequence of fewer than 256 whole sectors.
- FloppyGaps.Distribute: the lengths of an FDI track, not its bytes; the same loop stands in the FDD and TD0 loaders.
- CdTracks.Drive.Add: what the cue sheet says, where a WAV file's data begins and how long a file is are inputs; parsing the text is left out.
- CdRead.Device.Read: READs of 2^30 sectors and more, for which `CdRead.HugeReads` has the condition. CHD images and audio are left out.
- CdSheet.SheetStraight: is about sheets whose sums fit 32 bits; `CdTracks.SameFile` and `CdTracks.OtherFile` have the single steps.
- Autofire.Cycle: counts frames without end; the wrap of the 32-bit frame counter is in `AutofireKeys.KeyTable.Tick` only. Names of rates and the list of rates in the configuration are left out; a rounded quotient is any real number.
- AutofireKeys.KeyTable.BuildMask: masks are sets of button numbers, and the autofire settings of the keys are a function; looking them up in their table is left out.
- Trigger.Normalize: an axis without limits counts as one with none to go.
- TriggerEdge.TriggerAxisEdge: the bindings are an input; looking them up in the maps of a device is left out, and so are axes without triggers.
- HOBETA, UDI, TD0 and FDD files: input validation over the same layout, of which the gap arithmetic and the sector operations are modelled.
- Subchannel, table of contents, mode pages, IDENTIFY data and capacity: constant tables and field copying.
- OSD, menus, fonts, bitmaps, recents, cheats, volume, video modes: user interface with shallow state.
- Configuration text, controller databases, joystick mapping and device quirks: string handling and device tables.
- HDMI CEC, SPI and FPGA registers, timers: register traffic; the engine's waits and time budgets are free choices in the model.
- Files, zip archives and directories: files are byte sequences with a position.
