# A verified model of a small FAT file system

The C++ class `FS` (fs.cpp) implements a tiny file system on a block device.

- Block 0 holds the root directory and block 1 holds the file allocation table (FAT).
- The FAT has one signed 16-bit entry per block. An entry is `FAT_FREE` (0), `FAT_EOF` (-1) or the index of the next block of a chain.
- A directory is one block of fixed-size records. Each record holds a name, a size, a first block, a type and access rights.
- A record is free when its name is empty.
- A sub-directory's slot 0 is a `..` record that points at its parent. The root has no such record.
- The class keeps a working directory (`currentDirectory`).
- It offers `format`, `create`, `cat`, `ls`, `cp`, `mv`, `rm`, `append`, `mkdir`, `cd` and `pwd`. Each returns an integer status code.

The project models this in two layers.

- **Value layer:** `Operations` describes each operation as a function from a `Volume` to a status code and a new `Volume`. A `Volume` is the geometry, the FAT as a sequence, the blocks, and the working directory. Each function covers every error code the
  code can return and the exact order in which it writes blocks.
- **Imperative layer:** `FileSystem.FS` is a class whose fields are the FAT and the block device, both arrays, and the working directory.
  - Its methods follow the code's loops: scans over the records, the free-block search, the read loop, the write loop, the linking loop, and the chain walks of `rm`, `append` and `pwd`.
  - Each method is proved to produce exactly the status and the new state that the matching `Operations` function gives.
- **Properties:** the module `Properties` proves what the operations mean when combined. Examples:
  - `create` followed by `cat` returns the content;
  - `rm` after `create` or `mkdir` restores the FAT;
  - `mv` keeps a file's content readable under its new name or in its new directory;
  - `cp` followed by `cat` gives the source's bytes;
  - `append` concatenates;
  - `mkdir`, then `cd`, then `pwd` prints the new path, and `cd ..` returns.

The model follows the code where it departs from what the code evidently intends. In particular:

- **Multi-block writes lose data.** The write loops of `create`, `cp` and `append` (fs.cpp:120-169, 407-453, 897-940) search for the lowest FREE block in every round, but mark nothing until the linking loop. So every round picks the same block and overwrites it. The linking loop then leaves the chain `b -> EOF`.
  - `Table.LinkChainCollapse` proves that this collapse happens.
  - `Operations.WriteContent` writes the effect down.
  - `Properties.CreateThenCatOverflow` proves that `cat` of a freshly created file longer than one block returns only the zero-padded last piece, which differs from the content.
  - Content of at most one block survives intact (`Properties.CreateThenCat`).
- **Failed operations can leak a block.** `create` writes the FAT before it finds that the directory is full (code 9). `cp` writes the FAT at fs.cpp:454, before every refusal of its record step: the name `..` (code 10), a target directory off the device (12), a duplicate name (14, 17) and a full directory (15, 18). The allocated block stays EOF while no record refers to it (`Properties.CreateFullLeaks`, `Properties.CpRefusedLeaks`).
- **A FREE entry is read as a link to block 0.** The chain walks of `rm` and `append` (fs.cpp:754-759, 866-869, 950-953) follow each entry as the index of the next block, and `FAT_FREE` is 0. A record can point at a freed block: after `mkdir P; cd P; mkdir C; mv C ..; cd ..; rm P`, the `..` record of C still names P's freed block. `rm ..` inside C then walks from that block to block 0, stops at block 0's EOF entry and frees the root directory's entry. The next `create` takes block 0 as the lowest FREE block and writes the file's bytes over the root directory. `Properties.OrphanedParentReached` proves that these commands lead there on a formatted four-block device, and `Properties.RmParentFreesRoot` then shows the corruption. The model's walks (`Table.Walk`, `Table.FreeLoop`) read FREE entries the same way, so `append` to such a record likewise takes the root block as the destination's last block.
- **`append` always works in the root directory**, whatever the working directory is (fs.cpp:783).
- **Only outside the root does `ls` skip slot 0**, where the `..` record sits (fs.cpp:296). The root has no `..` record.
- **`format` does not reset the working directory** (fs.cpp:18-60).
- **`mv` into a directory does not check for an existing record** with the same name in the target directory (fs.cpp:624-664).
- **`mv` into the working directory's own block loses the record.** mv writes the target block with the record added, then writes the working directory's block with the source slot cleared (fs.cpp:648-660). When the target record names the working directory's own block, the second write is made from the records read before the first, so it undoes the first: the record is in no directory, and mv returns 0. Such a target is reachable: after `mkdir X; cd X; mkdir c; mv c ..; cd ..; mv X c; cd c; mv .. X; cd X`, the last `..` record of X names X's own block, and mv looks up the target as the last record of that name. `Properties.MvIntoOwnBlockLoses` shows `create f; mv f ..` losing f there.
- **`cp` creates its record with READ|WRITE**, as `create` does. `mkdir` gives READ|WRITE|EXECUTE.
- **name lookups:** `cp`, `mv` and `append` take the last matching record, because their scans never stop early. `create`, `cat`, `rm`, `mkdir` and `cd` take the first.

`fs.h` and `disk.h` are not part of this model. Their constants are taken from the code's use of them:

| constant | value |
|---|---|
| `ROOT_BLOCK` | 0 |
| `FAT_BLOCK` | 1 |
| `FAT_FREE` | 0 |
| `FAT_EOF` | -1 |
| the empty first block | `0xFFFF` |
| name length | at most 55 characters |
| `READ` / `WRITE` / `EXECUTE` | 4 / 2 / 1 |

The block size and the number of records per block are parameters of the volume.

Files:

- `layout.dfy`: constants, records and blocks.
- `slots.dfy`: record scans.
- `table.dfy`: free search and chains.
- `content.dfy`: pieces of content and block filling.
- `operations.dfy`: the value layer.
- `fs.dfy`: the class.
- `properties.dfy`: the properties.

## Model

| member | source | states |
|---|---|---|
| Slots.FindFirst | fs.cpp:82-93 | the scan that stops at the first used record with the name returns the index of the first hit, or -1 when no record hits |
| Slots.FindLast | fs.cpp:356-372 | the scan that never stops early returns the index of the last hit, or -1 when none hits |
| Slots.CheckEmpty | fs.cpp:724-742 | a directory counts as empty exactly when every used record is named `..` |
| Slots.FirstIndex | fs.cpp:82-93 | the result is a hit with no hit before it, and -1 exactly when no record hits |
| Slots.LastIndex | fs.cpp:602-620 | the result is a hit with no hit after it, and -1 exactly when no record hits |
| Table.LowestFree | fs.cpp:1028-1036 | the result is a FREE entry with none below it (from the start index), and -1 exactly when there is none |
| Table.ScanFree | fs.cpp:124-133 | the loop over the FAT finds the lowest FREE block at or after the start, or -1 |
| Table.Walk | fs.cpp:754-759 | a walk that ends starts at its first block and has at most one block per step allowed; a FREE entry leads to block 0, as in the code's loops |
| Table.Chain | fs.cpp:754-759 | a well-formed chain starts at its head, never repeats a block, follows the FAT entry by entry (a FREE entry to block 0) and ends at an EOF entry |
| Table.FollowsShift | fs.cpp:754-759 | two positions of a walk that hold the same block are followed by the same blocks |
| Table.FollowsDistinct | fs.cpp:754-759 | a walk that reaches EOF never visits a block twice |
| Table.WalkExact | fs.cpp:754-759 | a walk that ended is found again with exactly as many steps as it has blocks |
| Table.WalkEnds | fs.cpp:754-759 | a walk that ends with any number of steps is the chain, so ChainOk excludes only walks that go round for ever or leave the table |
| Table.WalkShape | fs.cpp:754-759 | every walk that ends gives a sequence with exactly these properties |
| Table.WalkFuel | fs.cpp:754-759 | a walk that has ended is not changed by allowing more steps |
| Table.WalkFrame | fs.cpp:754-759 | changing a FAT entry off a walk leaves the walk unchanged |
| Table.DistinctBound | fs.cpp:754-759 | distinct blocks of a device number at most its block count, so a well-formed chain is found within that many steps |
| Table.ChainFrame | fs.cpp:754-759 | a chain is unchanged by writing a FAT entry that is not on it |
| Table.WalkCut | fs.cpp:936-953 | marking a block EOF keeps every ending walk ending, over blocks of the old walk |
| Table.ChainCut | fs.cpp:936-953 | after the write loop marks its block EOF, the destination's chain is still a chain, made of blocks of the old one |
| Table.ChainTail | fs.cpp:754-759 | a chain is its first block followed by the chain from the block that block links to |
| Table.ChainExtend | fs.cpp:948-954 | pointing a chain's EOF block at a FREE block that becomes EOF gives the old chain followed by exactly that block |
| Table.ExtendWalk | fs.cpp:948-954 | after the relink, the walk from any position of the old chain runs to its end and then to the new block |
| Table.Freed | fs.cpp:754-759 | after rm's loop, exactly the blocks of the chain are FREE and every other entry is unchanged |
| Table.UsedShrinks | fs.cpp:754-759 | each step of rm's loop that frees an allocated entry leaves strictly fewer allocated entries |
| Table.FreeLoop | fs.cpp:750-759 | rm's loop keeps the table's length and only ever sets entries FREE |
| Table.ChainFreed | fs.cpp:750-759 | started on a chain, rm's loop ends and frees exactly the chain's blocks |
| Table.FreeAlong | fs.cpp:750-759 | from any position of a chain, the loop ends and frees the remaining blocks on top of those already freed |
| Table.LinkChain | fs.cpp:159-169 | the linking loop changes only the entries of the listed blocks and leaves the last listed block EOF |
| Table.LinkChainCollapse | fs.cpp:159-169 | linking a block list that repeats one block `b` leaves the FAT with `b -> EOF`, whatever the list's length |
| Table.LinkChainDistinct | fs.cpp:159-169 | linking distinct blocks makes each point at the next and the last one EOF, and changes no other entry |
| Content.LastPiece | fs.cpp:120-155 | the piece the last round copies is non-empty, fits one block, and is at most the remaining content |
| Content.LastPieceSuffix | fs.cpp:120-155 | that piece is the tail of the content, and all of it when the content fits one block |
| Content.ChunkCount | fs.cpp:120-155 | the write loop runs no rounds for empty content; otherwise it runs the smallest count of blocks that covers the content |
| Content.RoundStep | fs.cpp:140-155 | one round of the write loop keeps the loop's progress invariant: rounds left, the last piece, and the piece written latest |
| Content.FillTail | fs.cpp:860-893 | filling a block buffer at an offset keeps the bytes before the offset and after the piece, and puts the piece in between |
| Layout.Pad | fs.cpp:140-155 | a zeroed block buffer with a piece copied to its start: the piece, then zeros up to the block size |
| Layout.AsInt16 | fs.cpp:251 | reading a record's unsigned first block as a signed FAT index gives EOF exactly for the empty-file value 0xFFFF and keeps every index below 0x8000 |
| Operations.ReadChain | fs.cpp:251-270 | the read loop takes at most `size` bytes along the chain, stops at EOF, and fails on an index off the device |
| Operations.WriteContent | fs.cpp:118-176 | writing empty content allocates nothing. A failed search changes nothing. Otherwise exactly the lowest FREE block becomes EOF and holds the zero-padded last piece, and nothing else changes |
| Operations.FileRecord | fs.cpp:175-181 | the record create writes is a READ|WRITE file with the given name, size and first block; lookups by that name find it, and cd and pwd never take it for a directory |
| Operations.PutDir | fs.cpp:1082-1085 | writing back a directory block changes only that block |
| Operations.FormatSpec | fs.cpp:18-60 | format always succeeds, keeps the geometry and the working directory, and gives a valid volume |
| Operations.CreateSpec | fs.cpp:64-208 | every refusal except code 9 leaves the volume unchanged. Code 9 keeps the leaked allocation. Every result is a valid volume with the same geometry |
| Operations.CatSpec | fs.cpp:211-272 | every status except success and a failed read comes with no output |
| Operations.Visible | fs.cpp:289-320 | ls lists only used records, and no more than the directory holds |
| Operations.LsSpec | fs.cpp:275-322 | ls succeeds exactly when the working directory is on the device; it then lists used records only, at most one directory's worth, and nothing on failure |
| Operations.CpSpec | fs.cpp:326-571 | every status except success and the refusals that come after the FAT write (10, 12, 14, 15, 17, 18) leaves the volume unchanged |
| Operations.CpStore | fs.cpp:462-566 | after the copy has been written, the record step leaves the FAT as it is and changes nothing when it refuses |
| Operations.Place | fs.cpp:495-566 | placing a record refuses a duplicate name or a full directory without change, and never touches the FAT |
| Operations.MvSpec | fs.cpp:575-682 | mv never touches the FAT or the working directory, and a refusal changes nothing |
| Operations.RmSpec | fs.cpp:685-774 | a refusal changes nothing; success keeps the geometry, for every record whose freeing loop ends, FREE entries included |
| Operations.LastBlockOf | fs.cpp:862-870 | the block the walk to the end of the destination's chain stops at is on the device |
| Operations.FillLast | fs.cpp:856-893 | filling the unused end of the last block takes no more than the appended bytes, and exactly what fits when it takes any; it writes blocks only |
| Operations.AppendSpec | fs.cpp:778-971 | every refusal except a failed allocation (code 7) leaves the volume unchanged |
| Operations.AppendBytes | fs.cpp:856-967 | once a non-empty source was read, append either succeeds or fails its allocation |
| Operations.Attach | fs.cpp:942-955 | hooking new blocks onto the destination changes the FAT only, and writes no block |
| Operations.MkdirSpec | fs.cpp:975-1088 | a refusal changes nothing; success keeps the geometry and the working directory |
| Operations.CdSpec | fs.cpp:1091-1146 | cd changes only the working directory, and a refusal changes nothing |
| Operations.LevelName | fs.cpp:1182-1195 | the name is empty exactly when no used directory record of the parent points at the block, and otherwise is the name of such a record |
| Operations.Climb | fs.cpp:1163-1199 | the walk to the root fails only with the two read errors of the loop |
| Operations.Prefix | fs.cpp:1197 | putting collected names in front keeps a walk's success or failure |
| Operations.PrefixPrefix | fs.cpp:1197 | collecting names in two steps equals collecting them at once |
| Operations.Reverse | fs.cpp:1202-1209 | the printing loop visits the names in reverse order |
| Operations.RenderPrefixJoins | fs.cpp:1201-1209 | after j names, the printing loop's output is "/" then the names joined by "/", with a trailing "/" while names remain |
| Operations.PwdSpec | fs.cpp:1150-1213 | pwd prints a path starting with "/" on success and nothing on failure |
| FileSystem.FS.constructor | fs.cpp:7-10 | the object starts in the root directory over the given table and blocks |
| FileSystem.FS.ReadDir | fs.cpp:986-993 | reading a directory block gives its records |
| FileSystem.FS.ReadData | fs.cpp:251-270 | the read loop returns exactly what the read specification gives, failure included |
| FileSystem.FS.WriteChunks | fs.cpp:118-176 | the write and link loops together produce exactly what WriteContent gives |
| FileSystem.FS.WriteRounds | fs.cpp:120-155 | every round writes a piece into the same lowest FREE block; the last piece stays and the FAT is unchanged |
| FileSystem.FS.LinkBlocks | fs.cpp:159-169 | the linking loop leaves the FAT that LinkChain describes |
| FileSystem.FS.LastOfChain | fs.cpp:862-870 | the walk to the end of the destination's chain ends at the chain's last block |
| FileSystem.FS.Format | fs.cpp:18-60 | format leaves exactly the state FormatSpec gives |
| FileSystem.FS.Create | fs.cpp:64-208 | create leaves exactly the status and state CreateSpec gives |
| FileSystem.FS.Cat | fs.cpp:211-272 | cat returns exactly the status and bytes CatSpec gives |
| FileSystem.FS.Ls | fs.cpp:275-322 | ls returns exactly the records LsSpec lists |
| FileSystem.FS.Cp | fs.cpp:326-571 | cp leaves exactly the status and state CpSpec gives |
| FileSystem.FS.StoreCopy | fs.cpp:462-566 | the record step of cp matches CpStore |
| FileSystem.FS.PlaceEntry | fs.cpp:495-566 | the duplicate and free-slot scans and the write-back match Place |
| FileSystem.FS.Mv | fs.cpp:575-682 | mv leaves exactly the status and state MvSpec gives |
| FileSystem.FS.Rm | fs.cpp:685-774 | rm leaves exactly the status and state RmSpec gives |
| FileSystem.FS.FreeChain | fs.cpp:750-759 | rm's loop frees exactly the blocks of the chain |
| FileSystem.FS.Append | fs.cpp:778-971 | append leaves exactly the status and state AppendSpec gives |
| FileSystem.FS.AppendBytes | fs.cpp:856-967 | the fill, write, link and attach steps together match AppendBytes |
| FileSystem.FS.HookNewBlock | fs.cpp:942-955 | the attach step links the destination's last block to the first new block, or makes that block the first |
| FileSystem.FS.FillLastBlock | fs.cpp:856-893 | filling the last block matches FillLast |
| FileSystem.FS.Mkdir | fs.cpp:975-1088 | mkdir leaves exactly the status and state MkdirSpec gives |
| FileSystem.FS.Cd | fs.cpp:1091-1146 | cd leaves exactly the status and working directory CdSpec gives |
| FileSystem.FS.Pwd | fs.cpp:1150-1213 | pwd returns exactly the status and path PwdSpec gives |
| FileSystem.FS.ClimbToRoot | fs.cpp:1160-1199 | the climbing loop collects exactly the names Climb gives, leaf first |
| FileSystem.RenderPath | fs.cpp:1201-1210 | the printing loop writes "/" followed by the names, root side first, joined by "/" |
| Properties.FirstIndexAt | fs.cpp:82-93 | a scan stopping at its first hit returns `k` when `k` hits and nothing before it does |
| Properties.SingleChain | fs.cpp:159-169 | a block whose entry is EOF is a one-block chain |
| Properties.FreeOne | fs.cpp:750-759 | rm's loop from a block whose entry is EOF ends and frees that block alone |
| Properties.ReadPrefix | fs.cpp:251-270 | reading up to one block from a one-block chain returns that block's leading bytes |
| Properties.ReadOneBlock | fs.cpp:251-270 | reading the stored length back from a block written with that content returns the content |
| Properties.OverlongRead | fs.cpp:251-270 | a size larger than the single block of a chain still returns just that block, because the loop stops at EOF |
| Properties.CreateRecord | fs.cpp:64-208 | a successful create puts the new record in the first free slot, and no record had the name. The name is then found there. Empty content owns no block; non-empty content owns exactly one new EOF block |
| Properties.CreateThenCat | fs.cpp:64-272 | cat after a successful create returns exactly the content when it fits one block |
| Properties.CreateThenCatOverflow | fs.cpp:120-169 | for longer content, the file's chain is a single block, and cat returns the zero-padded last piece, which is not the content |
| Properties.CreateFullLeaks | fs.cpp:159-199 | a create refused for a full directory (code 9) still leaves one new EOF block, while the directory is unchanged |
| Properties.CpRefusedLeaks | fs.cpp:407-561 | a cp refused after the FAT write (codes 10, 12, 14, 15, 17, 18) leaves the working directory and every other block unchanged, while the FAT may have gained one EOF block |
| Properties.VisibleMembers | fs.cpp:289-320 | a record is listed exactly when it is used and, outside the root, is not in slot 0 |
| Properties.FormatThenLs | fs.cpp:18-60 | after format, ls lists nothing |
| Properties.RmThenCat | fs.cpp:685-774 | after rm of a uniquely named record, the name is gone and cat reports code 2 |
| Properties.RmParentFreesRoot | fs.cpp:685-774 | on the volume left by `mkdir P; cd P; mkdir C; mv C ..; cd ..; rm P; cd C`, `rm ..` succeeds and frees the root block's FAT entry; the next create then allocates block 0, overwrites the root directory with its bytes and loses the record of C |
| Properties.OrphanedParentReached | fs.cpp:18-1110 | on a formatted four-block device, `mkdir P; cd P; mkdir C; mv C ..; cd ..; rm P; cd C` all return 0 and leave the volume that Properties.RmParentFreesRoot starts from |
| Properties.FormatBlank | fs.cpp:18-60 | format of a blank four-block device marks blocks 0 and 1 EOF and leaves an empty root |
| Properties.MkdirP | fs.cpp:975-1088 | mkdir P in the formatted root returns 0 and takes block 2, which holds the `..` record of the root |
| Properties.MkdirC | fs.cpp:975-1110 | cd P then mkdir C return 0; C takes block 3, whose `..` record names P's block |
| Properties.MvCUp | fs.cpp:576-1110 | mv C .. in P moves C's record into the root and returns 0; cd .. returns to the root |
| Properties.RmP | fs.cpp:685-774 | rm P succeeds, since P holds only its `..` record: P's record is cleared and block 2's entry becomes FREE |
| Properties.MvIntoOwnBlock | fs.cpp:576-664 | in a directory whose last `..` record names its own block, `mv f ..` returns 0 and leaves that block with f's slot cleared and nothing added |
| Properties.SelfParentHoldsF | fs.cpp:64-208 | before that move, f's record is in the working directory |
| Properties.SelfLostLacksF | fs.cpp:576-664 | after it, no block holds a record named f |
| Properties.MvIntoOwnBlockLoses | fs.cpp:648-660 | so mv reports success while the record it moved is in no directory |
| Properties.CreateThenRm | fs.cpp:64-208 | rm of a file just created succeeds and restores the FAT, so create's block is not lost |
| Properties.MkdirRecord | fs.cpp:975-1088 | a successful mkdir allocates the lowest FREE block from 2 as an EOF block that holds the `..` record, and places the new directory's record in the first free slot |
| Properties.MkdirThenRm | fs.cpp:685-1088 | rm of a directory just made succeeds and restores the FAT |
| Properties.MkdirCdPwd | fs.cpp:975-1213 | in the root, mkdir then cd into the new directory succeeds. pwd then prints "/name", and cd .. returns to the volume mkdir left |
| Properties.InChild | fs.cpp:1091-1199 | with the records in place, cd reaches the child, pwd names it, and `..` leads back |
| Properties.ReadChainFrame | fs.cpp:251-270 | the read loop depends only on the FAT and the blocks' bytes |
| Properties.DirRewriteBytes | fs.cpp:1082-1085 | rewriting a directory block changes nothing any file read sees |
| Properties.UsedSlotIsDir | fs.cpp:223-235 | a block in which a scan finds a used record holds directory records |
| Properties.UniqueFirstLast | fs.cpp:356-372 | for a name held by at most one record, the first-hit and last-hit scans agree |
| Properties.MvRename | fs.cpp:666-681 | after a rename, cat of the new name returns what cat of the old name did, and the old name is gone |
| Properties.MvIntoDir | fs.cpp:624-664 | moving a file into a directory, a subdirectory or the parent through `..`, leaves the FAT as it is and removes the name from the working directory; in the target, cat of the file returns what it did before. cd reaches a subdirectory by its name, and the parent by `..` when that record is slot 0 outside the root |
| Properties.MvIntoDirShape | fs.cpp:624-664 | mv into a directory empties the source slot, puts the record into the target's first free slot, and leaves every file's bytes as they were |
| Properties.MvIntoDirTop | fs.cpp:658-664 | after the move, the name is gone from the working directory and cd still reaches the target, by name or as the parent |
| Properties.MvIntoDirSub | fs.cpp:637-657 | in the target directory, cat of the moved file reads what it read before |
| Properties.CpRecord | fs.cpp:326-571 | a successful cp to a new name reads the source, writes the copy, puts a READ|WRITE record in the first free slot, and finds the new name there |
| Properties.CpThenCat | fs.cpp:326-571 | cat of the copy returns what cat of the source returns, for a source that fits one block |
| Properties.AppendReadsCat | fs.cpp:778-850 | append reads the source exactly as cat would |
| Properties.CatAt | fs.cpp:211-272 | cat of a file found at slot i reads that record's chain |
| Properties.TailBytes | fs.cpp:856-893 | the bytes a record uses in its last block: a whole block exactly when the size is a multiple of the block size |
| Properties.ReadFront | fs.cpp:251-270 | reading along linked blocks, all whole but the last, returns the bytes of the blocks before the last followed by what is read from the last |
| Properties.FrontStep | fs.cpp:251-270 | one whole block read in front of what is read behind it |
| Properties.FrontSame | fs.cpp:251-270 | the bytes of the blocks before the last depend only on those blocks |
| Properties.ReadAlong | fs.cpp:251-270 | the read loop reads the same on two volumes that agree on the chain's entries and bytes |
| Properties.AppendRoot | fs.cpp:942-967 | after a successful append the destination's slot holds the record grown by the appended count, with the new block as first block when it had none |
| Properties.CatReplaced | fs.cpp:211-272 | cat of a name whose first record was replaced by a file record of that name reads the new record |
| Properties.AppendToEmpty | fs.cpp:778-971 | append of up to one block to an empty root file: cat of it afterwards returns exactly the appended bytes |
| Properties.AppendChainShape | fs.cpp:856-955 | append into a file with blocks either keeps the FAT or links one new block behind the last, and leaves every block but the root as the write loop left it |
| Properties.FillShape | fs.cpp:856-893 | the fill takes nothing when the last block is full, and otherwise the bytes that fit, written after the used part of the last block |
| Properties.AppendWritesTail | fs.cpp:856-955 | the fill and write steps leave the last block filled and, when the bytes spill, one new lowest FREE block linked behind it holding the rest; no other block but the root changes |
| Properties.AppendFillsTail | fs.cpp:856-893 | the case where the appended bytes fit the unused end of the last block |
| Properties.AppendSpillsTail | fs.cpp:856-955 | the case where they spill into one new block |
| Properties.TailReads | fs.cpp:251-270 | after that write, the chain is still linked, the blocks before the last keep their bytes, and the last reads as its used bytes followed by all appended bytes |
| Properties.TailReadsFill | fs.cpp:251-270 | the same when the bytes fit the last block |
| Properties.TailReadsSpill | fs.cpp:251-270 | the same when they spill into the new block |
| Properties.SpillFacts | fs.cpp:897-955 | the spill case: the new block is off the chain and not the root, the last block is filled up and the new block holds the rest |
| Properties.SpillReads | fs.cpp:251-270 | reading the last block and the new block behind it gives the last block's used bytes and the appended bytes |
| Properties.KeepLinked | fs.cpp:942-955 | the relink keeps every link of the chain before its last block |
| Properties.KeepFront | fs.cpp:856-955 | the blocks of the chain before the last keep their bytes |
| Properties.TailFill | fs.cpp:856-893 | a last block filled with bytes that fit reads as its used part followed by those bytes |
| Properties.FillPrefix | fs.cpp:856-893 | a filled buffer up to the end of the piece is the old bytes followed by the piece |
| Properties.ReadStep | fs.cpp:251-270 | a round of the read loop that takes a whole block puts that block in front of the rest |
| Properties.TailSpill | fs.cpp:897-955 | the filled last block and the new block behind it read as the used part and all appended bytes |
| Properties.AppendThenCat | fs.cpp:778-971 | append of a source to a root file whose last block leaves room for all but at most one block of it: cat of the destination returns its old content followed by the source's content |
| Properties.AppendBytesThenCat | fs.cpp:856-967 | the same for the bytes append read, for an empty destination too |
| Properties.AppendChainThenCat | fs.cpp:856-967 | the same for a destination with blocks |
| Properties.AppendTailWritten | fs.cpp:856-967 | append into a file with blocks writes as AppendWritesTail says and grows the record by the appended count |
| Properties.TailThenCat | fs.cpp:211-272 | after such a write, cat of the destination returns its old content and the appended bytes |
| Properties.ChainThenCat | fs.cpp:211-272 | cat of a grown record whose chain reads as the old bytes and the appended ones returns exactly that |
| Properties.ChainReads | fs.cpp:251-270 | the destination's old size reads without error, and its grown size as its old bytes and the appended ones |
| Properties.ReadsGrown | fs.cpp:251-270 | the same, from the facts about the last block and the ones before it |
| Properties.GrownRead | fs.cpp:251-270 | linked blocks read their old size before and the grown size after, as the old bytes and the appended ones |
| Properties.WholeRead | fs.cpp:251-270 | linked blocks ending at EOF read as the bytes before the last and the used part of the last |
| Properties.LinkedRead | fs.cpp:251-270 | linked blocks whose last reads as some bytes read as the bytes before the last followed by those |
| Properties.AppendKeepsSource | fs.cpp:778-971 | when the source's blocks are allocated and neither chain meets the root's block or the other's, cat of the source prints the same after append, whatever append returned |
| Properties.AppendLeavesFile | fs.cpp:856-967 | append of read bytes leaves cat of any other name alone under the same hypotheses |
| Properties.CatSame | fs.cpp:211-272 | cat reads the same on two volumes that agree on the name's first record and on what reading it yields |
| Properties.AppendSlots | fs.cpp:942-967 | append keeps every root record but the destination's, and the destination's name and kind, whether it succeeds or not |
| Properties.AppendFrame | fs.cpp:856-955 | append changes no FAT entry and no block outside the root, the destination's chain and the lowest FREE block |
| Properties.AppendExtendsChain | fs.cpp:897-955 | after append, the destination's chain is still well formed. It is either unchanged or extended by exactly the lowest FREE block |

## Left out

- `chmod` (fs.cpp:1217-1221) is a stub that only prints and returns 0. It has no state effect to model.
- create reads its content from standard input, line by line. The model takes the content as a parameter instead.
- What `cat`, `ls` and `pwd` print is modelled as returned values. The column formatting of `ls` is not modelled.
- Output text and error messages are left out. So is `std::cout` in general.
- Records are modelled as values, not as bytes. The byte layout of a record and the truncation of names by `strncpy` beyond 55 characters are not modelled; longer names are refused first anyway.
- The FAT block on the device is represented by the table itself. The model does not hold it as bytes of block 1. Reading block 1 as a file or a directory therefore sees whatever block 1 held before.
- A block's bytes and its records are two views. The model keeps the one that was written last. A directory block read as bytes gives zeros, and a data block read as records gives empty slots. The code's reinterpretation of the same bytes is not modelled.
- Device read and write failures are left out: a device operation on an index that exists always succeeds. The status codes the code returns only for a failed read or write are therefore never produced, namely:
  - format 1-3;
  - create 4, 6, 7, 10;
  - cat 4;
  - cp 5, 8, 9, 16, 19;
  - mv 6, 7, 9;
  - rm 5-7;
  - append 1, 4, 6, 8-10;
  - mkdir 5, 7-9.

  A read of a block index that does not exist on the device is modelled as a failed read. It gives the code's status for that read, for example cat's 5, cd's 1 and 2, and mv's 2 and 4.
- `size` is an unsigned 32-bit field, and sizes are unbounded in the model. Appends that would wrap it past 2^32 are not modelled. Nor is the copy of a size into a signed 32-bit `int` counter: create's `textLeft` (fs.cpp:117), cat's `bytesToRead` (fs.cpp:252), cp's `bytesToRead` and `bytesLeftToWrite` (fs.cpp:386, 405), and append's `bytesLeftToRead` and `sourceFileBytesLeft` (fs.cpp:825, 854). From 2^31 bytes such a counter is negative, so its loop does nothing. create then writes no block but records the size cut to 32 bits (fs.cpp:178), cat prints nothing and returns 0, cp copies no bytes, and append returns 0 and changes nothing. The model reads and writes every byte of such content.
- Access rights are stored but never consulted by the code, so no operation checks them.
- Operations.RmSpec: requires `RmAllowed`, that is, that rm's freeing loop ends from the record's first block (`FreeEnds`). The loop follows FREE entries to block 0 as the code does; what is excluded is a loop that never ends, which happens only when it comes back to block 0 while block 0's entry is FREE, or an index off the table. FileSystem.FS.Rm and FileSystem.FS.FreeChain carry the same condition.
- Operations.AppendSpec: requires `AppendAllowed`, that is, that the walk along the destination's chain reaches an EOF entry on the table (`ChainOk`). FREE entries are followed to block 0 as the code does; what is excluded is a walk that goes round for ever, which the code's unbounded loops (fs.cpp:866-869, 950-953) would not leave, or one that indexes off the table. Operations.FillLast, Operations.AppendBytes, Operations.Attach, FileSystem.FS.Append, FileSystem.FS.AppendBytes, FileSystem.FS.LastOfChain, FileSystem.FS.HookNewBlock and FileSystem.FS.FillLastBlock carry the same condition.
- Operations.PwdSpec: requires `PwdAllowed`, that is, that the walk from the working directory through the `..` records reaches the root within one step per block or fails a read. The code loops otherwise.
- Properties.CreateThenCat, Properties.CpRefusedLeaks, Properties.CpThenCat, Properties.MkdirThenRm, Properties.AppendThenCat and Properties.AppendToEmpty: require that the working directory's block is allocated in the FAT (`CwdAllocated`). Without that, the newly allocated block can be the directory block itself.
- Properties.RmThenCat, Properties.MvRename, Properties.MvIntoDir, Properties.CpThenCat and Properties.AppendThenCat: require that the names involved are held by one record at most (`Unique`). The code itself allows duplicates in some paths, for instance through mv into a directory.
- Properties.CreateRecord and Properties.CpRecord: state the new block's content only when that block is not the working directory's own block.
- Properties.CpThenCat: is stated only for content that fits one block. Longer content is lost by the write loop, as Properties.CreateThenCatOverflow shows.
- Properties.AppendThenCat: is stated for at most one new block: the source's bytes must fit the unused end of the destination's last block plus one block. That covers an empty destination, a full last block, and a fill followed by one new block. Beyond that the write loop overwrites its one block, so the content is lost as for create. It also asks that the destination's record span its chain (`Spans`: the size matches the chain, whose blocks are allocated and miss the root block), as create, cp and append leave it, and that append runs in the root as working directory, so that cat reads the same directory.
- Properties.AppendKeepsSource: asks that the source's blocks be allocated, that neither chain pass through the root's block and that the two chains share no block. Without that, the fill or the write of append can land in the source's blocks or in the root directory. It also asks that append run with the root as working directory, so that cat reads the directory append rewrote.
- Properties.AppendExtendsChain: asks that the destination's blocks be allocated (`UsedChain`). A chain through a FREE entry runs into block 0, which the write loop can then take as its new block.
- Properties.MvIntoDir and Properties.MvIntoDirShape: ask that the target record name a block other than the working directory's own. For that block mv loses the moved record (see `Properties.MvIntoOwnBlockLoses`), so neither conclusion holds there. They also ask that the target block hold records (`Dir?`), since a data block read as records is empty in this model, and that the target have no record of the moved name. cd back into the parent through `..` is stated only when that record is slot 0 outside the root, where the code's cd looks for it.
