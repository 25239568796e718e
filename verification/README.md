# ReconOS verification

A Dafny model of the parts of ReconOS whose correctness is hardest to see, and proofs of
what they promise:

- the ReconFS image checker and its deliberate damage (`scripts/reconfs-check.py`);
- the window geometry state machine (`src/recon_appwin.c`);
- the flood-fill icon corner cutter (`scripts/cut-icon-corners.py`);
- the 2/pi table generator (`scripts/gen-two-over-pi.py`);
- the PNG reader and writer (`scripts/png8.py`);
- the running-application table (`src/recon_apps.c`);
- the crash-marker judge (`scripts/check-markers.py`);
- the file the crash workload writes (`kernel/core/reconfs_crash.c`).

`dafny verify dfyconfig.toml` checks everything. Nothing here runs the original programs.

## How the model is laid out

Code that changes state in place is a class or a method with loops, proved equal to a
function; what the source promises is then proved of the function.

| files | what they hold |
|---|---|
| `Bytes`, `Sequences`, `Arith` | bytes, fixed-width integers, sequences, powers, multiplication and division by counting |
| `Crc` | the reflected CRC-32 and why it notices one byte, or four in a row |
| `ReconImage`, `ReconReaders` | reading an image: superblocks, owner table, inodes, contents, directories |
| `ReconTree`, `ReconWalk`, `ReconVerdict`, `ReconCheck`, `ReconMeaning` | the walk, the comparison, and what a clean verdict means |
| `ReconDamage`, `ReconCaught`, `ReconTorn`, `ReconInPlace` | the three ways of breaking an image, and exactly when the checker notices |
| `ReconFields`, `ReconRecords`, `ReconPayload` | superblocks, inodes, directory records and the workload's file written out, and that exactly those are read |
| `ReconReport`, `ReconAltered` | what the report says, number by number; one byte of the workload's file altered |
| `ReconBlocks`, `ReconSmall`, `ReconSettings`, `ReconPromotion` | images written out byte by byte, and what the checker says of them |
| `Window`, `WindowRuns`, `WindowPointer`, `WindowGestures`, `WindowUndo`, `AppWindow` | one window: events, invariants, resizing and dragging, gestures in pointer positions, undoing a maximize, the class |
| `FloodFill`, `Feather` | the mask and the alpha channel |
| `TwoOverPi` | Machin's formula in integers, against the exact rational sums |
| `PngFilter`, `Png`, `PngReading` | row filters, chunk framing, and what a reading and a writing are |
| `AppTable`, `AppRefresh`, `AppRuns`, `Apps` | the application table: operations, refreshes, whole runs, the class |
| `Markers` | the crash-marker judge |

## What was found

Where the code does not keep a promise as it is worded, the code is modelled as it is, the
failure is shown, and the exact condition is proved.

- An owner of zero counts as "unclaimed". A clean verdict means that blocks are claimed once and
  are void just when unclaimed, if and only if nothing is claimed for owner zero
  (`ReconVerdict.OwnerZeroExactly`). `ReconSettings.DossierZeroHides` is an image that passes
  although a file numbered zero lists a block twice.
- Deliberate damage can be overlooked in one way only, and it can be read off the image before
  the damage: the first superblock slot is live, and the second looks like a superblock, has
  larger blocks and a later epoch, and carries the checksum of its bytes with the damage done
  (`ReconDamage.Poised`). The result passes if and only if that is so and the second slot's
  volume passes (`ReconCaught.ChecksumCaught`, `ReconCaught.UnallocatedCaught`).
  `ReconPromotion.OverlookedUnderCrc` is such an image, under CRC-32. If the second slot claims
  blocks no larger than the live ones it never happens.
- The `torn` mode is noticed exactly when the file, its last number raised, looks like a payload;
  for a file of eight bytes or more, when a round had been reported for it
  (`ReconTorn.TornExact`). `ReconSettings.TornUnnoticed` and `ReconSettings.TornNoticed` are
  images for both outcomes. For an inline file it hits the root inode instead, which the inode's
  checksum catches as long as the file's size keeps the four bytes inside the root inode's block
  (`ReconTorn.TornInlineCaught`); past the block, whatever follows is overwritten.
- A file of the crash workload is called whole if and only if it is one version as the workload
  stores it (`ReconPayload.WholeExactly`). Once any byte of it is altered the check reports it,
  except where the byte is one of the magic number: the file then no longer looks like a version
  and the image passes (`ReconPayload.AlteredReported`, `ReconAltered.AlteredCaught`). Head and
  tail of two rounds are whole only where the cut leaves one of them as it was
  (`ReconPayload.MixedExactly`).
- The marker judge does not look at the second copies of a number when the first copies agree
  (`Markers.CopiesAreNotCompared`).
- The PNG reader takes a last row that lacks up to one pixel exactly when its filter type is
  there and adds nothing (`Png.ReadsExactlyWhenRowsFit`, `Png.TruncatedFileAccepted`). The
  signature and the chunk checksums are not looked at.
- The feather softens every pixel whose 3 by 3 neighbourhood is mixed, straight sides
  included, although the comment beside it says otherwise (`Feather.FeatherIsShare`).
- `recon_apps_remove_client` does not guard against NULL: it then removes the first built-in
  (`AppTable.RemoveNullRemovesBuiltin`). `recon_apps_force_end` does not ask whether the
  application was asked to close (`AppRuns.ForceDoesNotWait`, `AppRuns.ForceGap`). Ids come
  round after 2^32 entries; they stay apart exactly as long as the next id is not in use
  (`AppTable.IdsApartExactly`). Once late, an entry stays late, so the branch that would let
  it be reported again is never taken under a positive monotonic clock.
- Hiding or minimizing a window does not end a resize (`WindowPointer.ResizeOutlivesHide`).
  A resize keeps the minimum height exactly when the bottom edge leaves room for it
  (`WindowPointer.MinimumKeptExactly`). A top snap goes back to where the drag ended, a side
  snap to where it began. Un-maximizing ignores the screen (`WindowUndo.UnmaximizeIgnoresScreen`).
  A screen change turns a half-screen snap into a full-screen one
  (`WindowUndo.SideSnapLost`). A window at (0, 0) is centred when it opens
  (`WindowUndo.OriginIsCentred`). The panel has the window's size exactly when the
  window has one, and a window can be open without (`WindowRuns.SeenExactly`,
  `WindowRuns.BufferCanDiffer`).

## Model

| member | source | states |
|---|---|---|
| `Bytes.UnpackPack` | scripts/reconfs-check.py:82-84 | a number that fits k bytes is read back from its packing |
| `Bytes.PackUnpack` | scripts/reconfs-check.py:82-84 | packing what was read gives the same bytes |
| `Crc.Crc32Reflected` | scripts/reconfs-check.py:87-95 | the bitwise loop computes the byte-by-byte checksum function |
| `Crc.AbsorbInjective` | scripts/reconfs-check.py:91-94 | one byte's step is injective in the state and in the byte |
| `Crc.CrcSingleByte` | scripts/reconfs-check.py:87-95 | messages of one length that differ in one byte have different checksums |
| `Crc.CrcBurst` | scripts/reconfs-check.py:87-95 | so have messages that differ only within four bytes in a row |
| `Crc.CrcNotices` | scripts/reconfs-check.py:87-95 | overwriting one byte or four with anything else changes the checksum |
| `Crc.SpelledMatches` | scripts/reconfs-check.py:87-95 | every message has a checksum that four bytes can hold, and carries its own |
| `Crc.CheckValue` | kernel/core/crc32.c:101-107 | the checksum of the characters 123456789 is 0xCBF43926, the published check value |
| `ReconImage.LoadPicksHighestEpoch` | scripts/reconfs-check.py:122-154 | the loaded slot validates and no validating slot has a higher epoch; the first wins a tie |
| `ReconImage.LoadAfterRewrite` | scripts/reconfs-check.py:122-154 | a rewrite that leaves the live slot alone keeps the chosen state if and only if the other slot does not validate or is not newer |
| `ReconFields.SlotExactly` | scripts/reconfs-check.py:119-147 | a slot is taken for a superblock if and only if magic, version 1, one of the five block sizes, the other fields and the checksum of the block stand written there |
| `ReconImage.DigitsSpell` | scripts/reconfs-check.py:163-181 | the slots taken on the way to a leaf are the base-per_index digits of its number, and spell it |
| `ReconReaders.Image.Load` | scripts/reconfs-check.py:122-154 | the loop over the two slots sets super, live and block size to the specified choice |
| `ReconReaders.Image.LeafBlock` | scripts/reconfs-check.py:163-181 | the method finds the specified leaf, or fails where it is specified to |
| `ReconReaders.DescendTable` | scripts/reconfs-check.py:163-181 | the loop dividing the span follows the digits of the leaf number, holes and overruns failing |
| `ReconReaders.Image.Owners` | scripts/reconfs-check.py:183-192 | the loop leaf by leaf builds the flat table |
| `ReconReaders.Image.Contents` | scripts/reconfs-check.py:211-239 | the loop block by block gathers the specified bytes, with every failure |
| `ReconReaders.Image.DirEntries` | scripts/reconfs-check.py:241-268 | the method lists the specified entries, in stored order; which those are is `ReconRecords.DirectoryExactly` |
| `ReconReaders.ScanStreams` | scripts/reconfs-check.py:252-268 | the streams are scanned in turn, the first nonsense failing the whole |
| `ReconReaders.ScanStream` | scripts/reconfs-check.py:253-267 | one stream gives the specified entries; which those are is `ReconRecords.StreamExactly` |
| `ReconReaders.ScanRecords` | scripts/reconfs-check.py:253-267 | the record loop terminates and yields the records up to a zero length |
| `ReconRecords.StreamExactly` | scripts/reconfs-check.py:253-267 | a stream can be listed if and only if it is records that fit and then an end, a zero length or too little left; the listing is the records whose child is not zero, in order |
| `ReconRecords.MisfitFails` | scripts/reconfs-check.py:260-262 | a record shorter than its head, longer than its stream or too short for its name fails the listing, after any records |
| `ReconRecords.DirectoryExactly` | scripts/reconfs-check.py:241-268 | a directory in blocks is listed if and only if every slot in use is a block of such records; the listing is theirs, slot after slot |
| `ReconRecords.InlineDirectoryExactly` | scripts/reconfs-check.py:244-246 | the same for a directory kept behind its inode |
| `ReconRecords.MisfitInDirectory` | scripts/reconfs-check.py:260-262 | a record that does not fit, in any block of a directory, fails its listing |
| `ReconMeaning.OwnersAreFlat` | scripts/reconfs-check.py:163-192 | entry q * per + r of the result is slot r of leaf q, found by the digits of q, at any depth |
| `ReconMeaning.ContentsAreBlocks` | scripts/reconfs-check.py:211-239 | a non-inline file has exactly size bytes, byte n * bs + r being byte r of direct slot n or indirect slot n - 12 |
| `ReconFields.InodeExactly` | scripts/reconfs-check.py:195-209 | a block is taken for an inode if and only if its fields, twelve direct slots and the indirect one included, and the checksum stand written there; the inode is those fields |
| `ReconFields.InlineContents` | scripts/reconfs-check.py:215-216 | an inline file is what follows the inode in its block, up to its size or the end of the block |
| `ReconMeaning.InodeRefusesByte` | scripts/reconfs-check.py:195-209 | a block with any one byte altered outside the checksum field is not accepted as that inode |
| `ReconMeaning.InodeRefusesByteUnderCrc` | scripts/reconfs-check.py:195-209 | the same under the CRC-32 of the format |
| `ReconTree.ClaimAllClean` | scripts/reconfs-check.py:319-326 | claims raise no problem exactly when each block is on the volume and unclaimed at its turn, and then mark it |
| `ReconTree.WalkOfTree` | scripts/reconfs-check.py:328-362 | walking a well-formed tree is making its claims in order and counting its inodes |
| `ReconTree.SilentWalk` | scripts/reconfs-check.py:328-362 | a walk that adds no problem has walked a tree of right parents, known types and depth at most 64 |
| `ReconTree.TableOfTree` | scripts/reconfs-check.py:364-383 | walking the owner table's structure is making its claims in order |
| `ReconTree.SilentTable` | scripts/reconfs-check.py:364-383 | a silent walk of the table has walked a tree of its depth |
| `ReconTree.CompareClean` | scripts/reconfs-check.py:396-406 | the comparison is silent exactly when the two lists agree block for block |
| `ReconTree.CompareSays` | scripts/reconfs-check.py:396-406 | which of the three problems is reported for which block: void but claimed, entered but unclaimed, or two different owners |
| `ReconTree.FirstClaimStands` | scripts/reconfs-check.py:319-326 | a block goes to the first owner other than zero that claims it, whatever is reported |
| `ReconWalk.Checker.constructor` | scripts/reconfs-check.py:314-317 | the marks start with the superblocks' run claimed for the archive |
| `ReconWalk.Checker.Claim` | scripts/reconfs-check.py:319-326 | the state after one claim, problem or mark |
| `ReconWalk.Checker.ClaimBlocks` | scripts/reconfs-check.py:344-360 | the state after claiming a list of blocks for one owner |
| `ReconWalk.Checker.ClaimTable` | scripts/reconfs-check.py:364-383 | the in-place table walk reaches the specified state and fails where it is specified to |
| `ReconWalk.Checker.Walk` | scripts/reconfs-check.py:328-362 | the in-place tree walk terminates on any image and reaches the specified state |
| `ReconWalk.Checker.WalkChildren` | scripts/reconfs-check.py:347-348 | the state after walking the entries of a directory in order |
| `ReconVerdict.VerdictExact` | scripts/reconfs-check.py:310-406 | no problem is reported if and only if the volume is one table and one tree whose claims fit and match the owner table |
| `ReconVerdict.OwnerZeroExactly` | scripts/reconfs-check.py:319-326 | on a volume that holds together, claims are distinct and void means unclaimed if and only if nothing is claimed for owner zero |
| `ReconVerdict.CheckerSound` | scripts/reconfs-check.py:310-406 | after a clean verdict a block claimed twice was first claimed for owner zero; claims are distinct and void means unclaimed if and only if no claim has that owner, and entries then match |
| `ReconVerdict.CheckerComplete` | scripts/reconfs-check.py:328-406 | a well-formed tree and table with distinct blocks and matching owners get zero problems and the right inode count |
| `ReconVerdict.TreeUnique` | scripts/reconfs-check.py:328-362 | a volume has at most one tree |
| `ReconVerdict.ClaimedExactlyWhenReached` | scripts/reconfs-check.py:328-362 | the tree's claims are exactly the blocks that paths from the root reach |
| `ReconVerdict.AllocatedExactlyWhenReached` | scripts/reconfs-check.py:310-406 | with every reachable object numbered, blocks are claimed once, entered under their owner, and void exactly when nothing reaches them |
| `ReconVerdict.LoopRejected` | scripts/reconfs-check.py:328-332 | a volume with a directory loop never passes |
| `ReconVerdict.PathFits` | scripts/reconfs-check.py:328-332 | in a volume with a tree no path from the root is longer than the depth allows |
| `ReconCheck.PassesParts` | scripts/reconfs-check.py:310-448 | an image passes exactly when it loads, walk and sweep agree in silence, the root can be listed and the wanted file is in order |
| `ReconCheck.RunCheck` | scripts/reconfs-check.py:310-448 | the program's order of steps gives the specified verdict, which `ReconMeaning.ImageExact`, `ReconReport.ReportExactly` and `ReconPayload.WholeExactly` pin |
| `ReconCheck.Differences` | scripts/reconfs-check.py:396-406 | the comparison loop lists the specified differences |
| `ReconCheck.Search` | scripts/reconfs-check.py:411-438 | the search for a wanted name gives the specified finding, which is `ReconReport.WantedExactly` |
| `ReconReport.WantedExactly` | scripts/reconfs-check.py:411-438 | a wanted name that is missing is reported, one there more than once is counted, and one there once has its file, round and problem reported |
| `ReconReport.AskingExactly` | scripts/reconfs-check.py:411-438 | asking for a name fails an image that passes without if and only if the root does not hold the name exactly once or its file is not in order |
| `ReconReport.ReportExactly` | scripts/reconfs-check.py:440-448 | epoch and block size are the ones stored in the live superblock, the names are the root directory's in order, target and round are what was found |
| `ReconReport.InodesCounted` | scripts/reconfs-check.py:328-362 | the inode count of an image that passes is that of its tree |
| `ReconReport.FileOwnExactly` | scripts/reconfs-check.py:349-360 | a file claims each block as often as it points to it, directly, through its indirect block, or as that block |
| `ReconReport.NodeSays` | scripts/reconfs-check.py:334-362 | what the walk takes an inode for by its type, 1 a file, 2 a directory, anything else unknown, its number and parent, and a directory's entries as its children |
| `ReconPayload.WholeExactly` | scripts/reconfs-check.py:280-307 | a file is one whole version of a round if and only if it is magic, round, length, checksum, round, bytes, round, written out, the checksum being of all the rest |
| `ReconPayload.WholeUnderCrc` | kernel/core/reconfs_crash.c:128-150 | under CRC-32 there is one way to store a version, and exactly that is whole |
| `ReconPayload.InspectExactly` | scripts/reconfs-check.py:428-436 | a readable file is reported exactly when it begins with the four bytes of the magic number and is no version; its round is reported exactly when it is one |
| `ReconPayload.AlteredNotWhole` | scripts/reconfs-check.py:293-305 | with any one byte altered, those of the checksum included, a whole version is not whole |
| `ReconPayload.AlteredReported` | scripts/reconfs-check.py:428-436 | the check then reports the file exactly when the byte is not one of the magic number |
| `ReconPayload.LengthTold` | scripts/reconfs-check.py:297-298 | whole versions with the same first twelve bytes are equally long, so nothing cut or lengthened is whole |
| `ReconPayload.MixedExactly` | scripts/reconfs-check.py:280-301 | the head of one round and the tail of another are whole if and only if the mix is one of the two, by the round numbers alone |
| `ReconPayload.CrcSingle` | scripts/reconfs-check.py:303-305 | a message has no more than one CRC-32 |
| `ReconPayload.FillPayload` | kernel/core/reconfs_crash.c:128-150 | the buffer filled in place is the version of that round with its checksum, which is returned |
| `ReconPayload.WorkloadIsWhole` | kernel/core/reconfs_crash.c:128-150 | what the workload stores is whole, 9001 bytes long and of its round |
| `ReconAltered.AlteredCaught` | scripts/reconfs-check.py:411-438 | on an image that passes with a round reported, any byte of the file altered: it passes after if and only if the byte is one of the magic number, or the second slot was poised and its volume passes |
| `ReconMeaning.PassedImage` | scripts/reconfs-check.py:310-406 | soundness for a whole image: one claim per block over superblocks, table and tree, matching entries, void exactly when unreached |
| `ReconMeaning.ImageExact` | scripts/reconfs-check.py:310-448 | an image passes if and only if it loads, can be swept and listed, the wanted file is in order, and it is one table and one tree whose claims fit and leave the owner table |
| `ReconMeaning.ImageComplete` | scripts/reconfs-check.py:310-448 | an image of a well-formed table and tree with distinct blocks and matching owners passes |
| `ReconBlocks.SuperReads` | scripts/reconfs-check.py:119-139 | a superblock written out field by field is plausible and parsed as meant |
| `ReconBlocks.InodeReads` | scripts/reconfs-check.py:195-209 | an inode written out and sealed is accepted and read as meant |
| `ReconBlocks.LeafReads` | scripts/reconfs-check.py:188-189 | a table leaf written out has the words it was made of |
| `ReconSettings.NumberedPasses` | scripts/reconfs-check.py:310-448 | an image with one numbered file, settings, passes exactly when the file is no payload or a whole one, in the sense of `ReconPayload.WholeExactly` |
| `ReconSettings.DossierZeroHides` | scripts/reconfs-check.py:319-326 | an image that passes although a block of a file numbered zero is listed twice, reached and void |
| `ReconSettings.SamplesUnderCrc` | scripts/reconfs-check.py:87-95 | that image and the two torn ones, under CRC-32 |
| `ReconDamage.SuccessorIs` | scripts/reconfs-check.py:498-499 | the byte-wise successor is the stored number plus one, and fails exactly when that no longer fits |
| `ReconDamage.LoadMoves` | scripts/reconfs-check.py:122-154 | damage past the second superblock leaves the loaded state alone, except exactly where the second slot was poised for it |
| `ReconCaught.Crc32Notices` | scripts/reconfs-check.py:87-95 | CRC-32 is a checksum that notices one-byte and four-byte changes |
| `ReconCaught.PassesIn` | scripts/reconfs-check.py:310-448 | a damaged image passes exactly when the volume with the new bytes does, or that of the second slot where it was poised |
| `ReconCaught.ChecksumCaught` | scripts/reconfs-check.py:465-467 | from any image that passes, the result passes if and only if the second slot was poised for the flipped byte and its volume passes |
| `ReconCaught.UnallocatedCaught` | scripts/reconfs-check.py:468-472 | the same for the eight zero bytes written over the entry of the root |
| `ReconTorn.TornExact` | scripts/reconfs-check.py:473-499 | for a plain settings file, unless the second slot was poised, the result passes if and only if the file with its last number raised does not look like a payload; from eight bytes on, if and only if no round had been reported |
| `ReconReport.TornTarget` | scripts/reconfs-check.py:480-486 | the torn file is the last of its name in the root directory, and without one the tearing fails |
| `ReconReport.TornPlace` | scripts/reconfs-check.py:491-496 | the tearing aims four bytes before the end of a file in its block, and at the end of the last direct slot's block for an empty one |
| `ReconTorn.TornInlineCaught` | scripts/reconfs-check.py:488-499 | for an inline file the root inode is hit, and the result passes if and only if the second slot was poised and its volume passes |
| `ReconTorn.PayloadTorn` | scripts/reconfs-check.py:280-307 | raising the last number never leaves a whole payload, and from eight bytes on what looks like a payload still does |
| `ReconSettings.TornBothWays` | scripts/reconfs-check.py:473-499 | on an image with a numbered settings file: it passes before, and after exactly when the file is no payload |
| `ReconSettings.TornUnnoticed` | scripts/reconfs-check.py:473-499 | an image on which tearing goes unnoticed |
| `ReconSettings.TornNoticed` | scripts/reconfs-check.py:473-499 | an image on which it is noticed |
| `ReconInPlace.PackInto` | scripts/reconfs-check.py:471-472 | the buffer is overwritten at that offset and nowhere else, or not at all |
| `ReconInPlace.Increment` | scripts/reconfs-check.py:498-499 | the stored 32-bit number is increased by one, or nothing is done when it cannot be |
| `ReconInPlace.DamageImage` | scripts/reconfs-check.py:451-504 | loading and the three modes on a mutable buffer give the specified image, failures leaving it alone |
| `ReconPromotion.Overlooked` | scripts/reconfs-check.py:465-467 | an image that passes before the damage and after it, under any checksum that notices |
| `ReconPromotion.OverlookedUnderCrc` | scripts/reconfs-check.py:465-467 | the same under CRC-32 |
| `WindowRuns.CreatedInv` | src/recon_appwin.c:500-565 | a new window meets the invariant |
| `WindowRuns.StepInv` | src/recon_appwin.c:364-724 | every event keeps visibility, buffer size and place in step |
| `WindowRuns.RunInv` | src/recon_appwin.c:598-604 | so does every run from creation |
| `WindowRuns.SeenExactly` | src/recon_appwin.c:598-604 | in every reachable state the panel is enabled exactly when open, not minimized and not desktop-hidden, has the size of the window exactly when the window has one, and its place |
| `WindowRuns.BufferCanDiffer` | src/recon_appwin.c:458-482 | the sizes do differ: any window shown and maximized before it is told of a screen |
| `WindowPointer.EdgesExactly` | src/recon_appwin.c:1073-1089 | opposite edges are never grabbed together; none is grabbed exactly in the middle; which one is follows from `WindowGestures.ResizeFollowsPointer` |
| `WindowPointer.HorizontalExactly` | src/recon_appwin.c:1126-1140 | the dragged side follows the pointer down to the minimum, the other edge stays |
| `WindowPointer.VerticalExactly` | src/recon_appwin.c:1142-1161 | the same upright, a dragged top stopping at the top of the screen and the bottom staying |
| `WindowPointer.MinimumKeptExactly` | src/recon_appwin.c:1114-1170 | exactly when a resize keeps the minimum size and the top of the screen |
| `WindowPointer.ResizeDependsOnLast` | src/recon_appwin.c:1114-1170 | after any run of motions the geometry depends only on the start and the last pointer position |
| `WindowPointer.ResizeKeepsPromises` | src/recon_appwin.c:1385-1397 | from press to last motion: undragged edges fixed, never below the minimum, never above the top; which edges they are is `WindowGestures.ResizeFollowsPointer` |
| `WindowGestures.ResizeFollowsPointer` | src/recon_appwin.c:1073-1170 | a press within six pixels of a border or corner and any motions: the edges there follow the pointer down to the least size and the opposite edges stay, in pointer positions alone |
| `WindowGestures.BorderGrabs` | src/recon_appwin.c:1073-1089 | an edge is taken hold of exactly within six pixels of a border |
| `WindowGestures.TruncExactly` | src/recon_appwin.c:1174-1185 | a pointer position becomes the whole number next to it towards zero |
| `WindowGestures.InsideExactly` | src/recon_appwin.c:1174-1185 | on the screen a pointer is inside a window from its left and top borders up to its right and bottom ones |
| `WindowPointer.ResizeOutlivesHide` | src/recon_appwin.c:663-724 | hiding or minimizing leaves the resize going; changing desktop ends it |
| `WindowPointer.DragDependsOnLast` | src/recon_appwin.c:1519-1543 | after any run of motions a drag depends only on its start and the last pointer position |
| `WindowPointer.DraggedReachable` | src/recon_appwin.c:1526-1539 | exactly when 80 pixels and the title bar stay on the screen |
| `WindowGestures.DragFollowsPointer` | src/recon_appwin.c:1519-1543 | a window taken by its title goes where the pointer goes, as far as 80 pixels of it and its title stay in reach |
| `WindowGestures.DragMovesAsFar` | src/recon_appwin.c:1519-1543 | by whole pixels and within reach it moves exactly as far as the pointer |
| `WindowPointer.HalvesTile` | src/recon_appwin.c:1293-1297 | the two halves lie side by side within the screen, at most a pixel apart |
| `WindowPointer.SnapFollowsPointer` | src/recon_appwin.c:1249-1309 | a window let go where it snaps ends up under the pointer; anywhere else it stays as it was |
| `WindowPointer.SnapMirrors` | src/recon_appwin.c:1249-1271 | left and right mirror each other, the top winning over both |
| `WindowGestures.DragEnds` | src/recon_appwin.c:1249-1335 | let go within eight pixels of the top it fills the screen, of a side it takes that half, and anywhere else it stays where it was dragged |
| `WindowGestures.ClickExactly` | src/recon_appwin.c:1311-1452 | a press on a caption button and a release on the same one closes, minimizes, maximizes or goes back; any other release does nothing |
| `WindowGestures.ToggleFlips` | src/recon_appwin.c:680-689 | with its desktop showing, a toggle shows what is hidden and hides what is shown |
| `WindowGestures.DesktopDecides` | src/recon_appwin.c:617-632 | an open window is seen exactly on its desktop, and leaving the desktop ends what is being dragged |
| `WindowGestures.MinimizeUndone` | src/recon_appwin.c:695-724 | restoring a minimized window gives it back as it was, without focus and not being dragged |
| `WindowGestures.HideUndone` | src/recon_appwin.c:634-678 | showing a hidden window gives it back, drawn in its place, unless that was the corner of the screen |
| `WindowGestures.CentredExactly` | src/recon_appwin.c:579-589 | the margins of a centred window differ by a pixel at most and are never negative |
| `WindowGestures.MoveExactly` | src/recon_appwin.c:432-456 | a move is exact where the window fits, and a maximized window is not moved |
| `WindowGestures.RememberedExactly` | src/recon_appwin.c:904-944 | a remembered size is used exactly when it is not too small, and a place exactly when 80 pixels and the title bar would be seen |
| `WindowGestures.EndsRemembered` | src/recon_appwin.c:1317-1335 | the end of any drag or resize is remembered, the way back for a maximized window, and so is maximizing and going back |
| `WindowGestures.CreatedExactly` | src/recon_appwin.c:500-565 | a new window has its application's size, or 400 by 300, and no less than the least |
| `WindowGestures.ScreenFills` | src/recon_appwin.c:364-398 | on a new screen a maximized window fills it, any other is clamped, and both are drawn there |
| `WindowGestures.FocusShows` | src/recon_appwin.c:1024-1033 | focusing an open window brings it back if it was minimized and does nothing else |
| `WindowGestures.SlideBegins` | src/recon_appwin.c:400-430 | an animation starts at its offset |
| `WindowGestures.SlideBetween` | src/recon_appwin.c:423-430 | on its way the window is never farther off than at the start, nor on the other side |
| `WindowPointer.ClampExactly` | src/recon_appwin.c:384-396 | the clamp leaves what fits, settles at once, ends on the screen exactly when the window is not larger, and picks the nearest place there |
| `WindowPointer.SlidePathIndependent` | src/recon_appwin.c:423-430 | a step of the animation does not depend on the steps before it |
| `WindowPointer.SlideLandsHome` | src/recon_appwin.c:400-430 | whatever the steps, the last lands the window exactly where it belongs |
| `WindowUndo.StepKeepsRestore` | src/recon_appwin.c:364-488 | no event changes what a maximized, undragged window goes back to |
| `WindowUndo.RunKeepsRestore` | src/recon_appwin.c:364-488 | nor does any run that leaves it maximized |
| `WindowUndo.RunKeepsRestoreUnreleased` | src/recon_appwin.c:364-488 | nor does any run without a release, whatever is being dragged |
| `WindowUndo.MaximizeUndone` | src/recon_appwin.c:458-488 | un-maximizing after any run that leaves it maximized gives back exactly the geometry from before, a drag under way included if it is not let go |
| `WindowUndo.MaximizedMidDrag` | src/recon_appwin.c:1273-1309 | a drag let go at a side after maximizing goes back to where it began, which is the geometry from before exactly if it had not moved |
| `WindowUndo.SideSnapUndone` | src/recon_appwin.c:1273-1309 | press, any drag, a side snap, any run while snapped: un-maximizing gives back the geometry from before the drag |
| `WindowUndo.TopSnapRestoresDragEnd` | src/recon_appwin.c:1278-1281 | a top snap goes back to the end of the drag |
| `WindowUndo.UnmaximizeIgnoresScreen` | src/recon_appwin.c:473-478 | going back is exact even when the screen has shrunk, so the window is on it exactly when its old place is |
| `WindowUndo.SideSnapLost` | src/recon_appwin.c:374-382 | after a screen change a side snap is what snapping again would give only on a screen of no width, and the way back is kept |
| `WindowUndo.RememberedAfterSave` | src/recon_appwin.c:873-944 | what one window saved, the next of its name shows: size, place, maximized state and the way back |
| `WindowUndo.OriginIsCentred` | src/recon_appwin.c:646-651 | a closed window at (0, 0) opens centred, and exactly when that is where it was |
| `AppWindow.Appwin.constructor` | src/recon_appwin.c:500-565 | the initial state, no smaller than the minimum |
| `AppWindow.Appwin.ApplyGeometry` | src/recon_appwin.c:358-362 | the panel takes size and place, refusing an empty size |
| `AppWindow.Appwin.KeepOnScreen` | src/recon_appwin.c:384-396 | the four clamps in order |
| `AppWindow.Appwin.OnScreenChanged` | src/recon_appwin.c:364-398 | the state after a screen change, and the invariant |
| `AppWindow.Appwin.MoveTo` | src/recon_appwin.c:432-456 | the state after a move, none when maximized, and the invariant |
| `AppWindow.Appwin.StartSlide` | src/recon_appwin.c:400-409 | the state at the start of an animation, and the invariant |
| `AppWindow.Appwin.SlideBack` | src/recon_appwin.c:423-430 | the state after a step of it, and the invariant |
| `AppWindow.Appwin.TurnMaximized` | src/recon_appwin.c:458-488 | the state after maximizing or going back; the invariant is kept |
| `AppWindow.Appwin.SaveGeometry` | src/recon_appwin.c:874-901 | the restore geometry is remembered for a maximized window, the present one otherwise, nothing without a title |
| `AppWindow.Appwin.RecallGeometry` | src/recon_appwin.c:904-944 | size if workable, place if reachable, maximized if it was, nothing without a title |
| `AppWindow.Appwin.DesktopShowing` | src/recon_appwin.c:617-632 | the state after a desktop change, and the invariant |
| `AppWindow.Appwin.ShowWindow` | src/recon_appwin.c:634-661 | the state after showing, and the invariant |
| `AppWindow.Appwin.HideWindow` | src/recon_appwin.c:663-678 | the state after hiding, and the invariant |
| `AppWindow.Appwin.ToggleWindow` | src/recon_appwin.c:680-689 | hides what is seen, shows the rest; the invariant is kept |
| `AppWindow.Appwin.MinimizeWindow` | src/recon_appwin.c:695-709 | the state after minimizing, and the invariant |
| `AppWindow.Appwin.RestoreWindow` | src/recon_appwin.c:711-724 | the state after restoring, and the invariant |
| `AppWindow.Appwin.FocusWindow` | src/recon_appwin.c:1024-1033 | focusing restores a minimized window |
| `AppWindow.Appwin.SetFocused` | src/recon_appwin.c:1035-1052 | only the focus changes |
| `AppWindow.Appwin.Centre` | src/recon_appwin.c:579-589 | centred in the space left, never off the top or left |
| `AppWindow.Appwin.Open` | src/recon_appwin.c:646-651 | opened, centred if never placed, and applied |
| `AppWindow.Appwin.DragEdges` | src/recon_appwin.c:1114-1170 | the geometry after one motion of a resize, and the invariant |
| `AppWindow.Appwin.FollowEdges` | src/recon_appwin.c:1114-1161 | the edges after a motion, worked out from the start |
| `AppWindow.Appwin.SnapTo` | src/recon_appwin.c:1273-1309 | the state after a snap, and the invariant |
| `AppWindow.Appwin.EndDrag` | src/recon_appwin.c:1317-1335 | the state once a drag is over: snapped if it was a move, remembered; the invariant is kept |
| `AppWindow.Appwin.FireCaption` | src/recon_appwin.c:1354-1369 | what a caption button does; the invariant is kept |
| `AppWindow.Appwin.ButtonUp` | src/recon_appwin.c:1317-1374 | the state after a release: drag ended, snapped, remembered, caption button fired; the invariant is kept |
| `AppWindow.Appwin.ButtonDown` | src/recon_appwin.c:1376-1452 | the state after a press: an edge grabbed or a drag begun; the invariant is kept; what the hand sees of it is in `WindowGestures` |
| `AppWindow.Appwin.PointerMoved` | src/recon_appwin.c:1474-1543 | the state after a motion, and the invariant |
| `AppWindow.Appwin.DragTo` | src/recon_appwin.c:1523-1541 | the place of a dragged window, within reach |
| `FloodFill.Visit` | scripts/cut-icon-corners.py:60-63 | a pixel is marked and queued exactly when it is on the picture, close enough and not seen |
| `FloodFill.CloseExactly` | scripts/cut-icon-corners.py:40-43 | close enough is within fourteen of the surround in each of a pixel's three bytes |
| `FloodFill.VisitBorder` | scripts/cut-icon-corners.py:47-49 | a close-enough border pixel ends up queued |
| `FloodFill.Seed` | scripts/cut-icon-corners.py:45-54 | every close-enough border pixel is queued, once |
| `FloodFill.Expand` | scripts/cut-icon-corners.py:57-63 | every close-enough neighbour of a pixel ends up queued |
| `FloodFill.OutsideMask` | scripts/cut-icon-corners.py:35-64 | a pixel is marked if and only if a 4-connected path of close-enough pixels joins it to the border, and none is queued twice |
| `FloodFill.ClosedHoldsPath` | scripts/cut-icon-corners.py:56-63 | marks closed under open neighbours hold every path from the border |
| `FloodFill.LeftDrops` | scripts/cut-icon-corners.py:56-63 | each queued pixel uses up one that never comes back, which is why the flood ends |
| `Feather.HardEdge` | scripts/cut-icon-corners.py:72 | alpha is 0 on the mask and 255 off it |
| `Feather.Gather` | scripts/cut-icon-corners.py:85-90 | the box holds the alpha of the neighbours on the picture |
| `Feather.Feathering` | scripts/cut-icon-corners.py:81-93 | every pixel is softened from the hard alpha, in place in a copy |
| `Feather.FeatherOne` | scripts/cut-icon-corners.py:84-92 | one more pixel is softened and no other touched |
| `Feather.FeatherExact` | scripts/cut-icon-corners.py:91-92 | clear exactly where the whole neighbourhood is outside, opaque exactly where none is, between 28 and 226 elsewhere |
| `Feather.FeatherIsShare` | scripts/cut-icon-corners.py:84-92 | the alpha of a pixel is 255 times the number of neighbours not outside, over the number of neighbours, rounded down |
| `Feather.SurroundIsMean` | scripts/cut-icon-corners.py:24-32 | the surround is the mean of the four corners, channel by channel, rounded down |
| `Feather.Cut` | scripts/cut-icon-corners.py:67-105 | each pixel keeps its three bytes and gets the alpha that walks from the border call for, the share of its neighbours they do not reach; only an empty picture, or one cut short of its last colours, fails |
| `Feather.CutRow` | scripts/cut-icon-corners.py:97-102 | one row of pixels, their bytes kept and their alpha from the walks |
| `TwoOverPi.ArcCot` | scripts/gen-two-over-pi.py:51-61 | the loop stops at the first zero term with the series' total |
| `TwoOverPi.TermIs` | scripts/gen-two-over-pi.py:57 | after n steps the term is unity div x^(2n+1), exactly |
| `TwoOverPi.TermIsFloor` | scripts/gen-two-over-pi.py:57 | the term is the floor of the exact term |
| `TwoOverPi.SumNear` | scripts/gen-two-over-pi.py:58 | however many terms are added, the exact sum stays within a geometric tail of its first term |
| `TwoOverPi.StepsBounded` | scripts/gen-two-over-pi.py:56-60 | how many steps a unit of 2^b allows |
| `TwoOverPi.ExactTermIs` | scripts/gen-two-over-pi.py:51-61 | the exact term is unity / x^(2n+1) |
| `TwoOverPi.TotalError` | scripts/gen-two-over-pi.py:58 | after n steps the total is within n + 1 of the exact rational partial sum |
| `TwoOverPi.SumsClose` | scripts/gen-two-over-pi.py:56-60 | however many terms are added after the k-th, the exact sum moves by no more than the tail left there |
| `TwoOverPi.LastTail` | scripts/gen-two-over-pi.py:56-60 | after the first zero term everything still to come in the exact series is below one |
| `TwoOverPi.ExactPiBounds` | scripts/gen-two-over-pi.py:63 | the exact sum lies between 3 and 4 units, however many terms |
| `TwoOverPi.ExactPiDigits` | scripts/gen-two-over-pi.py:63 | from five and two terms on the exact sum lies between 3.141592 and 3.141594 units |
| `TwoOverPi.MachinPi` | scripts/gen-two-over-pi.py:47-63 | both loops run to their first zero term, and the scaled pi is within 10 b + 50 of the exact sum of that many terms or any more, b being the bits of the unit |
| `TwoOverPi.WordsAssemble` | scripts/gen-two-over-pi.py:69-70 | the words reassemble to the target, each below 2^32 |
| `TwoOverPi.WordsOfTwoOverPi` | scripts/gen-two-over-pi.py:66-70 | the words hold the floor of the quotient by the exact sum, taken as far as the loops run or any further, give or take 2^-e, when the precision leaves e bits |
| `TwoOverPi.RoomForTruncations` | scripts/gen-two-over-pi.py:38-39 | 2400 bits and 64 words leave 300 bits |
| `TwoOverPi.Table` | scripts/gen-two-over-pi.py:66-70 | the same for the table as generated, give or take 2^-300 |
| `PngFilter.PaethIsNearest` | scripts/png8.py:50-52 | the predictor is the nearest of the three, ties going left, up, corner |
| `PngFilter.RestoreFiltered` | scripts/png8.py:39-53 | reconstructing a row filtered by any type gives the row; what is reconstructed is `PngReading.RowDecoded` |
| `PngFilter.FilterRestored` | scripts/png8.py:39-53 | and filtering a reconstructed row gives the raw row; what is reconstructed is `PngReading.RowDecoded` |
| `PngFilter.RestoreRow` | scripts/png8.py:37-54 | the in-place loop reconstructs the row or fails, short rows included; which row that is, is `PngReading.RowDecoded` |
| `PngReading.RowDecoded` | scripts/png8.py:37-54 | each byte of a row is the raw byte plus, modulo 256: the left neighbour, the upper one, half their sum rounded down, the nearest of the three, or nothing, by type |
| `PngReading.SubSums` | scripts/png8.py:43-44 | in a row of type 1 each byte is the sum, modulo 256, of its channel's raw bytes up to it |
| `PngReading.UpSums` | scripts/png8.py:45-46 | in rows of type 2 each byte is the raw byte plus those above it in its column, modulo 256 |
| `PngReading.NearestOne` | scripts/png8.py:49-53 | what type 4 adds is one of left, upper and corner with none of the three nearer to left plus upper minus corner |
| `Png.RowsOfScanlines` | scripts/png8.py:31-56 | rows filtered row by row in any way are read back as they were |
| `Png.RowsExactly` | scripts/png8.py:34-55 | the rows are taken if and only if all are there, or all but a pixel of the last, whose filter type adds nothing; the last is full if and only if all is there |
| `Png.ReadsExactlyWhenRowsFit` | scripts/png8.py:10-56 | so it is for whole files, however the data are split |
| `Png.TruncatedFileAccepted` | scripts/png8.py:10-56 | a file without its only pixel is read |
| `Png.CollectFramed` | scripts/png8.py:13-27 | the chunk walk finds exactly the chunks that were framed |
| `Png.ReadsAnyEncoding` | scripts/png8.py:10-56 | any signature, any extra chunks, any split of the data, any filters: the image is read |
| `Png.RoundTrip` | scripts/png8.py:10-74 | writing succeeds exactly when the data fits its length field, and reading it gives the same width, height, depth and rows |
| `Png.ReadRows` | scripts/png8.py:29-56 | the row loop gives the specified rows or fails |
| `Png.ReadPng` | scripts/png8.py:10-56 | the whole reader gives the specified image or fails; what its rows are is `PngReading.FileDecoded` |
| `PngReading.FileDecoded` | scripts/png8.py:29-56 | the rows of whatever file is read are decoded so from the data of all its data chunks, the first from a row of zeros |
| `PngReading.HeaderExactly` | scripts/png8.py:21-25 | a header is taken exactly when it says eight bits, true colour with or without alpha, and no interlace |
| `PngReading.HeaderLength` | scripts/png8.py:22 | a header that is taken has thirteen bytes |
| `PngReading.HeaderRefused` | scripts/png8.py:23-25 | a file with any other header is refused, whatever comes after it |
| `PngReading.CutLengthRefused` | scripts/png8.py:16-17 | a file that ends within the length of a chunk is refused |
| `Png.WritePng` | scripts/png8.py:59-74 | the whole writer gives the specified bytes or fails |
| `PngReading.WrittenIs` | scripts/png8.py:59-74 | a written file is the signature of the format and its header, data and end chunks |
| `PngReading.FrameSays` | scripts/png8.py:64-66 | a chunk says how long its body is and carries the checksum of its kind and body |
| `AppTable.Find` | src/recon_apps.c:83-99 | the first entry that matches, or none does |
| `AppTable.FindId` | src/recon_apps.c:101-108 | the first entry with that id, or none |
| `AppTable.AddKeeps` | src/recon_apps.c:110-147 | adding keeps keys apart, ids apart, shapes and the limit of 64 |
| `AppTable.IdsApartExactly` | src/recon_apps.c:116 | ids stay apart exactly when the next one is not in use |
| `AppTable.RemoveClientExactly` | src/recon_apps.c:149-159 | removing a client removes it and nothing else |
| `AppTable.RemoveNullRemovesBuiltin` | src/recon_apps.c:149-159 | NULL removes a built-in exactly when there is one |
| `AppRefresh.SeeAllComplete` | src/recon_apps.c:172-210 | everything running gets listed exactly when it fits together with what was listed |
| `AppRefresh.SweepKeeps` | src/recon_apps.c:212-219 | the backward swap-removal keeps exactly the entries seen |
| `AppRefresh.RefreshKeeps` | src/recon_apps.c:163-252 | a refresh keeps every promise of the table |
| `AppRefresh.OnlyRunning` | src/recon_apps.c:163-219 | after a refresh nothing is listed that is not running |
| `AppRefresh.RefreshComplete` | src/recon_apps.c:163-219 | one refresh lists exactly what runs if and only if old entries left room |
| `AppRefresh.TwoRefreshes` | src/recon_apps.c:163-219 | two refreshes list exactly what runs if and only if that is at most 64 |
| `AppRefresh.Survives` | src/recon_apps.c:185-209 | what is still running keeps its id and its close time |
| `AppRefresh.SurvivesMany` | src/recon_apps.c:185-209 | over any number of refreshes |
| `AppRefresh.Origin` | src/recon_apps.c:163-252 | an entry was listed before, as itself, or is new and unasked |
| `AppRefresh.RefreshShows` | src/recon_apps.c:185-209 | after a refresh an entry shows the title and the process of what runs under its key, the last to run |
| `AppRuns.StepSound` | src/recon_apps.c:110-347 | every event keeps what the table and the history say of each other |
| `AppRuns.RunSound` | src/recon_apps.c:110-347 | so does every run under a positive monotonic clock |
| `AppRuns.RunKeepsApart` | src/recon_apps.c:110-118 | in every run keys are apart, and ids for the first 2^32 entries |
| `AppRuns.ReportedOnce` | src/recon_apps.c:235-249 | J-002 is raised at most once per id, and only after asking; when is `AppRuns.RaisedExactly` |
| `AppRuns.RaisedExactly` | src/recon_apps.c:235-249 | in every run a refresh raises J-002 for an entry if and only if it was first asked to close more than 5000 ms before the look at the clock and not reported before |
| `AppRuns.ReportedExactly` | src/recon_apps.c:235-249 | by the end of a refresh a listed entry has been reported if and only if it was first asked more than 5000 ms before |
| `AppRuns.DescribedExactly` | src/recon_apps.c:285-300 | an entry is called not responding exactly when it was first asked more than 5000 ms before, and otherwise minimized or running as its window is |
| `AppRuns.ForceAfterAsking` | src/recon_apps.c:349-358 | forcing is offered exactly for a listed client with a process that was asked earlier |
| `AppRuns.BuiltinsLeftAlone` | src/recon_apps.c:259-300 | a built-in is never called not responding and never signalled |
| `AppRuns.ForceDoesNotWait` | src/recon_apps.c:360-375 | a client is signalled without having been asked |
| `AppRuns.ForceGap` | src/recon_apps.c:349-375 | that happens exactly for an unasked client with a process |
| `Apps.Registry.constructor` | src/recon_apps.c:55-58 | the table starts empty with id 1 next |
| `Apps.Registry.Init` | src/recon_apps.c:70-74 | empty, id 1 next |
| `Apps.Registry.Finish` | src/recon_apps.c:76-79 | empty, the next id kept |
| `Apps.Registry.EntryFor` | src/recon_apps.c:83-99 | the first matching entry |
| `Apps.Registry.EntryForId` | src/recon_apps.c:101-108 | the first entry with that id |
| `Apps.Registry.NewEntry` | src/recon_apps.c:110-118 | the next place and id, or nothing when full |
| `Apps.Registry.Register` | src/recon_apps.c:122-147 | the table after registration, every promise kept |
| `Apps.Registry.Unregister` | src/recon_apps.c:149-159 | the table after removal, every promise kept |
| `Apps.Registry.Drop` | src/recon_apps.c:155-156 | the last entry takes the place of the one removed |
| `Apps.Registry.MarkUnseen` | src/recon_apps.c:168-170 | every entry is marked unseen, nothing else changes |
| `Apps.Registry.LookAtWindows` | src/recon_apps.c:177-195 | the table after the shell's open windows are seen in order |
| `Apps.OpenOnesAre` | src/recon_apps.c:177-184 | the shell windows looked at are exactly those that are open |
| `Apps.Registry.LookAtToplevels` | src/recon_apps.c:197-210 | the table after the toplevels are seen in order |
| `Apps.Registry.Look` | src/recon_apps.c:185-209 | the table after one running thing is seen, every promise kept |
| `Apps.Registry.DropUnseen` | src/recon_apps.c:212-219 | the table after the backward removal, every promise kept |
| `Apps.Registry.Report` | src/recon_apps.c:235-249 | the judged entries and the ids raised; which are late is `AppRuns.RaisedExactly` |
| `Apps.Registry.RefreshAll` | src/recon_apps.c:163-252 | the whole refresh gives the specified table, count and reports, keeps every promise and lists only what runs; what is raised is `AppRuns.RaisedExactly` |
| `Apps.Registry.EndApp` | src/recon_apps.c:321-347 | the table after asking, every promise kept, and what is asked of the desktop |
| `Apps.Registry.MayForce` | src/recon_apps.c:349-358 | whether forcing is offered |
| `Apps.Registry.ForceEnd` | src/recon_apps.c:360-375 | terminate first, kill only if refused, nothing for anything but a client with a process |
| `Markers.ReadMarkerIs` | scripts/check-markers.py:28-45 | absent exactly without the front magic; its own number exactly when both ends carry it |
| `Markers.Survey` | scripts/check-markers.py:52-73 | the loop lists the whole and the torn blocks in order |
| `Markers.Missing` | scripts/check-markers.py:87-88 | the blocks below the highest marker that have none, in order |
| `Markers.JudgeKinds` | scripts/check-markers.py:75-96 | the verdict each combination of whole, torn and missing blocks gets |
| `Markers.Judge` | scripts/check-markers.py:48-96 | ok N if and only if blocks 0..N-1 carry their number at both ends and no other a marker; torn and gap exactly when, naming the first, what its two ends say, and how many there are |
| `Markers.WrittenRun` | scripts/check-markers.py:48-96 | an ordered, untorn writer leaves an unbroken run |
| `Markers.OrderedWritesAccepted` | scripts/check-markers.py:48-96 | every prefix it leaves is accepted with its length |
| `Markers.CopiesAreNotCompared` | scripts/check-markers.py:42-45 | overwriting a second copy, front or back, in any block never changes an accepted verdict |

## Premises

- ReconFS readers are written for any checksum; the damage results ask that it notices a
  change of one byte or of four in a row, and `ReconCaught.Crc32Notices` proves that of the
  checksum the format uses.
- A directory name is compared through a function from its bytes, standing for the decoding
  and lower-casing of the original; the name that is looked for is given in lower case.
- `ReconTorn.TornExact` is about a settings file that is the only one of its name, not inline,
  with its last four bytes in one block, on a volume whose objects are numbered. When the number
  at its end is the largest 32-bit one the tearing itself fails. `ReconTorn.TornInlineCaught` is
  about an inline file whose size keeps the bytes aimed at inside the root inode's block.
- PNG compression is a function and decompression undoes it on the data in question.
- Pointer positions are real numbers, converted to integers by dropping the fraction. Window
  coordinates do not overflow.
- Lists of running things hold no NULL, and the clock is positive and never goes back.

## Left out

- File reading and writing, argument parsing, printed text and the wording of problems in the Python scripts.
- Python's limits on memory and recursion: the owner table's depth and a file's size are not bounded by them here.
- Superblock and inode fields the checker never uses, and the double- and triple-indirect pointers it never follows.
- The kernel's own ReconFS and marker writers, but for the bytes of the crash workload's file: only the order of marker writes is used.
- The generator's comparison with published words, and 2/pi as a real number: the table is compared with the exact rational Machin sums.
- zlib and the PNG chunk checksum's inside.
- The percentage that `cut` returns for its report.
- Drawing, fades, fonts, icons, hit-region layout, tooltips, menus, help topics, titles and key handling of windows; what a hit test answers is a parameter.
- Callbacks into an application from a window's methods, and running out of memory for a panel.
- The registry key of a window's remembered geometry: the model keeps the values under one name, so a change of title is not followed.
- Which desktop a window belongs to, and the stacking order of panels.
- Memory figures and process lookups of the application table.
- ReconTorn.TornExact: does not cover a settings file whose last four bytes straddle two blocks, where two half numbers in unrelated blocks are changed, nor a volume with an unnumbered object, which may share the block that is changed with a directory.
- ReconTorn.TornInlineCaught: does not cover an inline file whose size runs past the root inode's block, where the bytes changed belong to whatever block follows.
- AppWindow.Appwin.ButtonUp: the application's click callback is not modelled, being code of the application.
- AppWindow.Appwin.ButtonDown: the application's click callback is not modelled, being code of the application.
- WindowUndo.MaximizeUndone: a drag under way when the window was maximized must not be let go; what happens when it is, at a side, is `WindowUndo.MaximizedMidDrag`.
- WindowPointer.SlidePathIndependent: stated for windows that have a size, since a panel refuses an empty one and keeps what it had.
- All other components of the repository.
