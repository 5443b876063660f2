# Leandros: memory management and measurement, verified

Leandros is a Rust operating system kernel with a Python harness that boots it under QEMU, looks at
the screen over VNC, talks to its serial console and scores what it finds. This project models the
parts of both whose correctness is an argument and not a glance, and proves it:

- **Physical memory** (`BuddyBlocks`, `Buddy`). Free memory is a set of nodes of the binary page
  tree; the allocator keeps intrusive doubly linked lists in the free pages themselves, with a
  bitmap of list heads. The lists always denote the one canonical (disjoint, fully coalesced) form
  of the free pages, so an allocation fails exactly when no aligned free run exists, and the pool
  after any run depends only on which pages are still in use.
- **Address spaces** (`Vma`, `AddressSpace`, `Teardown`). Splitting a region changes no page; `unmap_range` and
  `mprotect` change exactly the pages they name, and every frame is owned or handed back exactly as
  often as before. `Teardown` joins this to the reference counts of shared frames and to the allocator:
  with any number of address spaces, each count is the number of owners, nothing that unmapping gives
  back is refused, and a frame becomes free exactly when its last owner gives it up.
- **Screen capture and verdict** (`Grid`, `Framebuffer`, `Rfb`, `VncCapture`, `Colour`, `Verdict`, `Evidence`).
  An RFB client (RFC 6143, sections 7.6 and 7.7.1) over an arbitrarily cut stream, the framebuffer it
  assembles, the colour search, and the two-phase PASS verdict. `Evidence` joins them: a PASS is
  traced back to the rectangles the server sent.
- **Image files** (`Ppm`). The P6 writer and three families of reader.
- **Serial console** (`Probes`, `Serial`, `Patterns`, `Markers`, `Marks`). Cursor probes, the
  consumed buffer, numbered completion markers, and how all of it depends on where chunks are cut.
- **Traces** (`Liveness`, `TextLines`, `Stats`, `Windows`, `Phases`, `Runs`, `Sampled`, `Detector`).
  Difference boxes, statistics lines and phase windows from the text of a log, static runs, sampled
  differences, the window detector.

`Wrappers`, `Bytes` and `Grid` hold shared vocabulary: options and results, decimal and hexadecimal
printing, positions, boxes and tight bounding boxes. Code that updates state is a class or a method
with loops; its contract ties it to a specification function or a predicate about which the
theorems are stated. Where code and specification share a definition (which calls `free` refuses,
which flags a protection means, which bytes are a digit or a line break), a further theorem says what
that definition means in terms of pages, bytes or characters.

## Findings

- The verdict's PASS means "repainted" if and only if the two predicted colours differ by more than
  twice the tolerance in some channel; otherwise one static frame passes both phases
  (`Verdict.VerdictSoundIff`, `Verdict.StaticFramePasses`). `main` never checks this of its colours.
  One of its five criteria is idle: a frame that shows a colour the control frame lacks always
  differs from it (`Verdict.AbsentDiffers`).
- `free` refuses a double free only when the freed address is the first page of a free block that the
  bitmap covers. Freeing a page inside a free block goes through and leaves overlapping blocks
  (`Buddy.InteriorFreeIsNotDetected`). The comment at mm/src/buddy.rs:137-138 says that coverage is
  not a matter of correctness, but past it a plain double free goes through as well, and the page
  becomes its own successor on the list (`Buddy.UncoveredDoubleFreeIsNotDetected`). For every accepted
  call the allocator stays valid if and only if no page of the block was free
  (`Buddy.Allocator.Free`).
- `unmap_range` says that after its two splits every overlap is contained in the range. A device
  region is never split, so one that straddles an end stays whole
  (`AddressSpace.UnmapMissesDevice`): the range is left empty if and only if there is none
  (`AddressSpace.UnmapIsCompleteIff`).
- `mprotect` says it returns false for an invalid range; it returns true as soon as one region lies
  inside. Holes go unnoticed (`AddressSpace.MprotectMissesHole`), and so do device regions that
  straddle an end (`AddressSpace.MprotectMissesDevice`). Its result tells whether the whole range
  was reached if and only if the range is not empty and either it has neither, or only such device
  regions meet it (`AddressSpace.MprotectIsHonestIff`).
- `learn_liveness` skips a comparison between frames of different shapes, and gives up when a frame is
  missing. So a middle frame of another shape, or a missing one, hides what the other two show
  (`Liveness.OddMiddleLearnsNothing`, `Liveness.MissingFrameLearnsNothing`). Idle frames always agree
  outside the region learned if and only if no two of them have one shape with a position outside
  the region so far, while a frame is missing or the middle one has another shape
  (`Liveness.AlwaysAgreeIff`).
- The probe count per chunk loses exactly the probes that straddle a cut
  (`Probes.PerChunkMissesStraddling`), and a `read_until` for a MARK line whose duration is cut
  between two digits returns the shorter number, 6 for 60 (`Marks.MarkReadExtendsIff`,
  `Marks.MarkReadsDependOnChunks`), while the numbered markers are read alike however the stream is
  cut (`Markers.MarkerReadsAreChunkIndependent`).
- The PPM readers without comment support fail on every well-formed file with a comment in its header
  (`Ppm.CommentPartsReaders`); they agree with the readers of m13 and m17 exactly when no comment stands
  before a token or a token is no number (`Ppm.PlainAgreesIff`). The reader of m21 parts from those two
  on a magic with something glued to it, on space or a comment before it, on a maxval that is no
  number and on too few pixels (`Ppm.StrictAgreesIff`).
- The sampled difference of m17 can miss any change off its lattice, so "nothing found" means "equal"
  only for images of at most one pixel (`Sampled.NoneMeansEqualIff`). Its minima start at 2^30, so its
  box is that of the differences only for images without a sampled position past that
  (`Sampled.BoxIsTightIff`).

## Assumptions

- A stream is a byte sequence; how it is cut is an arbitrary schedule given as an argument, and a
  deadline is the end of that schedule. Sends succeed.
- The RFB server sends well-formed messages whose rectangles lie on the advertised screen, and may break
  off anywhere, inside a message too. A silence between messages ends a wait and is a budget that runs
  out; a silence inside one raises and is the end of the stream.
- A region backed by one block got it from the page allocator, so the block is aligned to its size.
- Text is ASCII, so a byte is a character.
- A ratio test is cross-multiplied: fill of at least 0.95 is `20 * n >= 19 * area`.
- Integers are unbounded, except that address ranges past 2^64 are refused as the kernel does.
- The page cache's references to a frame are a given number that unmapping does not change, and the
  block behind an eager region is never shared.

## Model

| member | source | states |
|---|---|---|
| `BuddyBlocks.AlignedRunIsOneBlock` | mm/src/buddy.rs:552-583 | in a canonical pool every aligned run of free pages lies inside one free block, so looking at list heads misses nothing |
| `BuddyBlocks.CanonicalFormIsUnique` | mm/src/buddy.rs:585-628 | two canonical pools with the same free pages are the same blocks: coalescing leaves no choice |
| `BuddyBlocks.AlignedIsFirst` | mm/src/buddy.rs:601 | the mask test for alignment accepts exactly the first pages of tree nodes |
| `BuddyBlocks.SplitPartitions` | mm/src/buddy.rs:572-577 | the block kept and the halves put back partition the block that was split |
| `BuddyBlocks.LargestBlock` | mm/src/buddy.rs:8-9 | the largest order is a block of one gibibyte |
| `BuddyBlocks.TakenIsCanonical` | mm/src/buddy.rs:552-583 | taking a block by splitting keeps the pool canonical and removes exactly the pages handed out |
| `BuddyBlocks.MergedPages` | mm/src/buddy.rs:617-627 | merging with free buddies adds exactly the freed block's pages |
| `BuddyBlocks.MergedIsCanonical` | mm/src/buddy.rs:617-627 | merging until no buddy is free keeps the pool canonical when the block was in use |
| `BuddyBlocks.FreeKeepsCanonicalIff` | mm/src/buddy.rs:595-628 | a free that passes the double-free test keeps the pool canonical if and only if no page of the block was free |
| `BuddyBlocks.CountsMove` | mm/src/buddy.rs:552-583 | the number of free pages falls by the size handed out |
| `BuddyBlocks.CountsReturn` | mm/src/buddy.rs:616 | the number of free pages rises by the size freed |
| `BuddyBlocks.StepConserves` | mm/src/buddy.rs:552-628 | each allocation or free keeps used and free pages apart and loses no page |
| `BuddyBlocks.RunConserves` | mm/src/buddy.rs:552-628 | the same over every run of allocations and frees |
| `BuddyBlocks.FragmentationHasNoHistory` | mm/src/buddy.rs:585-594 | two runs from one pool that end with the same pages in use end with the same free blocks |
| `Buddy.BitAndOrder` | mm/src/buddy.rs:119-124 | the head bit and the order stored in the page together say exactly which list the page heads |
| `Buddy.PushList` | mm/src/buddy.rs:166-176 | writing the node and relinking the old head gives a well-linked list with the page in front |
| `Buddy.SpliceList` | mm/src/buddy.rs:179-192 | relinking the neighbours of an entry gives a well-linked list without it |
| `Buddy.NoRunBelow` | mm/src/buddy.rs:527-550 | when no listed block starts low enough there is no aligned free run below the limit at all |
| `Buddy.AcceptedIsPlaceable` | mm/src/buddy.rs:597-607 | what passes the sanity checks is an aligned block inside memory, clear of the reserved ranges; before any region is known the end of memory is not checked |
| `Buddy.RefusedIsFirstFault` | mm/src/buddy.rs:595-612 | said of the pages a call names: it is refused for the first of the six faults it has, in the order of the checks, and accepted if it has none |
| `Buddy.OverlapsIff` | mm/src/buddy.rs:245-255 | comparing the ends of ranges finds exactly the stretches that share a page with a reserved range |
| `Buddy.EndsBelowIff` | mm/src/buddy.rs:527-550 | comparing the end of a block with the limit tells whether each of its bytes lies below it |
| `Buddy.InteriorFreeIsNotDetected` | mm/src/buddy.rs:595-612 | page 513 of the free block of pages 512 and 513 passes every check of `free`, and the pool ends up overlapping |
| `Buddy.PushAgainBreaks` | mm/src/buddy.rs:166-176 | pushing a page that is already on the list leaves memory on which no list is well linked |
| `Buddy.PushOfHeadBreaks` | mm/src/buddy.rs:166-176 | pushing a page that heads a block of any order leaves no lists that fit the memory |
| `Buddy.ListsAreDetermined` | mm/src/buddy.rs:158-163 | head words and link words determine the lists |
| `Buddy.UncoveredDoubleFreeIsNotDetected` | mm/src/buddy.rs:609-612 | past the bitmap's cover a plain double free passes every check, the page becomes its own successor, and no lists fit |
| `Buddy.Allocator.constructor` | mm/src/buddy.rs:119-143 | a new allocator is valid and holds no page |
| `Buddy.Allocator.PushFront` | mm/src/buddy.rs:166-176 | the list gains the page in front and all else stays intact, unless the page headed a block, and then nothing is left intact |
| `Buddy.Allocator.Unlink` | mm/src/buddy.rs:179-192 | exactly that entry leaves its list, and its block leaves the pool |
| `Buddy.Allocator.TryRemove` | mm/src/buddy.rs:194-221 | succeeds exactly when the page is on that list, by bitmap where covered and by walking elsewhere |
| `Buddy.Allocator.SplitDown` | mm/src/buddy.rs:572-577 | pushing the upper halves leaves exactly the pool of the specification |
| `Buddy.Allocator.TakeFrom` | mm/src/buddy.rs:556-579 | a listed block is cut down to the order asked for: its low end is handed out and no other page changes |
| `Buddy.Allocator.Alloc` | mm/src/buddy.rs:552-583 | fails if and only if no aligned free run of that order exists; otherwise hands out a free run, no other page changes, from the head of the lowest list that has one |
| `Buddy.Allocator.AllocBelow` | mm/src/buddy.rs:516-550 | the same for runs of which every byte lies below the limit |
| `Buddy.Allocator.TakeBuddy` | mm/src/buddy.rs:621-625 | the buddy is unlinked exactly when it is a free block of that order |
| `Buddy.Allocator.Merge` | mm/src/buddy.rs:619-626 | the coalescing loop on lists computes the merged block of the specification |
| `Buddy.Allocator.MergeAndPush` | mm/src/buddy.rs:617-628 | the pool becomes the merged pool, or, only if the block's first page headed a free block, the lists are corrupt |
| `Buddy.Allocator.Free` | mm/src/buddy.rs:595-628 | accepted if and only if the order is known, the block is aligned and not at 0, each page is in RAM and unreserved, and its first page is not a covered list head; only past the bitmap's cover can an accepted call corrupt the lists; after every accepted one the allocator is valid if and only if no page of the block was free, and otherwise no choice of lists would make it so |
| `Buddy.Allocator.ChooseOrder` | mm/src/buddy.rs:313-349 | the order picked at boot fits the room, the alignment and the reserved ranges |
| `Buddy.Region.HasIff` | mm/src/buddy.rs:319-323 | rounding a region's ends inwards leaves exactly the pages above the first mebibyte all of whose bytes are in it |
| `Buddy.Allocator.InitRegion` | mm/src/buddy.rs:313-345 | one region adds exactly its pages outside the reserved ranges, in coalesced blocks |
| `Buddy.Allocator.InitFromMap` | mm/src/buddy.rs:313-349 | after boot exactly those pages are free that lie with all their bytes in an available region, above the first mebibyte and in no reserved range |
| `Vma.FileAtIff` | mm/src/vmm.rs:1272-1368 | each byte of a page is a byte of the mapped file stretch, or zero behind its end |
| `Vma.SplitKeepsPages` | mm/src/vmm.rs:1272-1368 | frame, protection, file stretch, copy-on-write and written bit of every page are the same in the half it falls in |
| `Vma.SplitConserves` | mm/src/vmm.rs:1291-1317 | the two halves and the freed tail own each frame as often as the region did |
| `Vma.PagesToOrder` | mm/src/vmm.rs:1955-1960 | the least order whose block holds the pages |
| `Vma.TailBlock` | mm/src/vmm.rs:1946-1949 | the block chosen is aligned, fits, and is as large as both allow |
| `Vma.FreeTail` | mm/src/vmm.rs:1942-1953 | each frame of the tail is handed back once and no other, in blocks aligned to their size |
| `AddressSpace.SplitView` | mm/src/vmm.rs:1272-1368 | splitting one region of the table changes no page of the address space |
| `AddressSpace.SplitOwns` | mm/src/vmm.rs:1272-1368 | splitting one region changes ownership by the freed tail only |
| `AddressSpace.SweptView` | mm/src/vmm.rs:1405-1436 | when the ends of the range cut no region, editing whole regions edits exactly the pages of the range, except device regions that stick out |
| `AddressSpace.UnmapIsCompleteIff` | mm/src/vmm.rs:1370-1391 | unmapping empties the range if and only if no device region straddles an end |
| `AddressSpace.UnmapMissesDevice` | mm/src/vmm.rs:1370-1391 | a table on which unmapping two pages leaves one of them mapped |
| `AddressSpace.MprotectReachesAllIff` | mm/src/vmm.rs:1701-1784 | every page of the range is reached if and only if it has no hole and no device region straddles an end |
| `AddressSpace.MprotectIsCompleteIff` | mm/src/vmm.rs:1701-1784 | every page of the range has the protection afterwards if and only if there is no hole and the straddling device regions had it before |
| `AddressSpace.MprotectIsHonestIff` | mm/src/vmm.rs:1694-1701 | the result tells whether the whole range was reached if and only if the range is not empty and nothing of it is missed or nothing of it is touched |
| `AddressSpace.MprotectMissesHole` | mm/src/vmm.rs:1694-1701 | a table with a hole on which the call succeeds |
| `AddressSpace.MprotectMissesDevice` | mm/src/vmm.rs:1694-1701 | a table without a hole on which the call succeeds and a device page keeps its protection |
| `AddressSpace.Space.SplitAt` | mm/src/vmm.rs:1272-1368 | splits if and only if a non-device region has the page strictly inside; no page changes, every frame is conserved, nothing is cut there any more |
| `AddressSpace.Space.UnmapRange` | mm/src/vmm.rs:1379-1449 | exactly the pages of the range disappear (device regions that stick out excepted) and every frame is owned or freed as often as before |
| `AddressSpace.Space.Mprotect` | mm/src/vmm.rs:1701-1784 | refuses write with execute and overflow untouched; otherwise of exactly the pages of the range WRITABLE is set if and only if PROT_WRITE is asked for, EXECUTE if and only if PROT_EXEC is, PRESENT and USER always, never both of the former, and nothing else about them changes; frames are conserved, and it succeeds if and only if it concerned a page |
| `AddressSpace.FlagsForIff` | mm/src/vmm.rs:1721-1724 | the flags built are the only ones that allow just what is asked for |
| `AddressSpace.EditsKeepWriteXorExecute` | mm/src/vmm.rs:1694-1702 | an address space without pages both writable and executable has none after any unmapping or reprotecting |
| `Teardown.MayFreeIsAccepted` | mm/src/buddy.rs:595-612 | an aligned block of managed pages, none of them free, passes every check of `free` |
| `Teardown.SharedStep` | mm/src/pageref.rs:54-60 | lowering the count of a frame with several owners keeps every count equal to the number of owners |
| `Teardown.FreeStep` | mm/src/pageref.rs:61-66 | what is not shared has its last owner: freeing it is allowed, leaves no count behind and keeps all counts and the pool right |
| `Teardown.PageRefs.IncMany` | mm/src/pageref.rs:28-34 | each frame gains one owner for each time it is listed, and is tracked from then on |
| `Teardown.PageRefs.UnrefOrFree` | mm/src/pageref.rs:54-68 | a shared frame loses an owner and stays allocated; any other becomes free and is not refused |
| `Teardown.GivenUp` | mm/src/vmm.rs:1396-1448 | what a table gives up moves from its owners to what is to be handed back, block by block, with no owner lost or made |
| `Teardown.HandBack` | mm/src/vmm.rs:1447-1448 | frames and blocks handed back in turn: none is refused, the counts stay right, and exactly the frames that lose their last owner become free |
| `Teardown.Unmap` | mm/src/vmm.rs:1379-1449 | `unmap_range` with counts and allocator, whatever others hold: exactly the pages concerned disappear, a frame becomes free exactly when its last owner gives it up, and the invariant holds for the next call |
| `Teardown.EachMayUnmap` | mm/src/vmm.rs:1379-1449 | counts right for all address spaces and the page cache together allow each of them to unmap |
| `Teardown.SystemStaysRight` | mm/src/vmm.rs:1379-1449 | after any of them has unmapped they are right for all together again |
| `Teardown.SharingKeepsBooks` | mm/src/pageref.rs:1-34 | an address space that shares frames of others leaves the counts right if each share is counted |
| `Framebuffer.ShownIsLast` | artifacts/m9_vkcap_a64.py:205-216 | the byte a run of rectangles shows at a pixel is that of the last rectangle covering it |
| `Framebuffer.TruesCounts` | artifacts/m9_vkcap_a64.py:231-237 | the sum over `seen` is the number of positions marked |
| `Framebuffer.UnionSize` | artifacts/m9_vkcap_a64.py:231-237 | the union of the rectangles has the area of the screen exactly when every pixel is covered |
| `Framebuffer.Screen.constructor` | artifacts/m9_vkcap_a64.py:187-191 | a new screen is blank and nothing is seen |
| `Framebuffer.Screen.Blit` | artifacts/m9_vkcap_a64.py:205-216 | after any rectangles each byte of `fb` is what they show and `seen` is their union, in place |
| `Framebuffer.Screen.Uncovered` | artifacts/m9_vkcap_a64.py:231-237 | the result is the screen's area less the union, and zero exactly when all is covered |
| `Rfb.ParseEncoded` | artifacts/m9_vkcap_a64.py:196-230 | reading any well-formed message followed by anything returns that message and the rest |
| `Rfb.FramingIsKept` | artifacts/m9_vkcap_a64.py:196-230 | messages read from an encoded stream are the first ones sent and the rest encodes the others |
| `Rfb.ParseStands` | artifacts/m9_vkcap_a64.py:196-230 | more data changes no verdict of the reader but "too little" |
| `Rfb.CutShortIsShort` | artifacts/m9_vkcap_a64.py:143-150 | a message cut short anywhere is never taken for a message |
| `Rfb.U16Order` | artifacts/m9_vkcap_a64.py:204-206 | two-byte numbers are ordered as their bytes are, so the wire is big-endian |
| `Rfb.U32Order` | artifacts/m9_vkcap_a64.py:218-230 | the same of four bytes |
| `Rfb.I32Is` | artifacts/m9_vkcap_a64.py:206-208 | the encoding number is signed, and 0 only for four zero bytes |
| `Rfb.UpdateIff` | artifacts/m9_vkcap_a64.py:196-217 | byte by byte: the reader takes a string for an update of some rectangles if and only if their headers and data stand there, and reads just those bytes |
| `Rfb.Socket.Recv` | artifacts/m9_vkcap_a64.py:143-150 | whatever the cut, a receive takes a prefix of what is on the way, empty only when nothing is |
| `Rfb.RecvAll` | artifacts/m9_vkcap_a64.py:143-150 | returns exactly the next n bytes whatever the cuts, and fails exactly when fewer are to come |
| `Rfb.ReadRects` | artifacts/m9_vkcap_a64.py:199-217 | draws the rectangles the specification parses, in order, and leaves the rest of the stream |
| `Rfb.HandleMessage` | artifacts/m9_vkcap_a64.py:196-230 | consumes exactly one message of any kind, draws its rectangles, says whether it was an update; for given header bytes, which bytes are drawn and how many are consumed |
| `VncCapture.WaitMeaning` | artifacts/m9_vkcap_a64.py:195-230 | a wait ends behind the first update, out of patience or out of messages, and fails exactly when it runs into the end of a closed stream or a message cut short |
| `VncCapture.RunStopsAtCompletion` | artifacts/m9_vkcap_a64.py:191-234 | a capture never reads past the update that completes the screen |
| `VncCapture.GenerousRun` | artifacts/m9_vkcap_a64.py:191-234 | with budgets that outlast the stream it stops exactly at the completing update; without one it fails if the stream breaks off and has read all of it if not |
| `VncCapture.AwaitUpdate` | artifacts/m9_vkcap_a64.py:194-230 | the inner loop gets exactly as far as the wait of the specification, and fails exactly when that does |
| `VncCapture.Capture` | artifacts/m9_vkcap_a64.py:187-237 | for every stream, cut anywhere, every cut by the transport and all budgets: it fails or stops exactly where the specification says, showing exactly the messages read, with the rest unread and the uncovered pixels counted |
| `Colour.PixelChannels` | artifacts/m9_vkcap_a64.py:252-253 | the packed pixel's channels are the framebuffer's bytes 2, 1 and 0 |
| `Colour.FindColour` | artifacts/m9_vkcap_a64.py:267-296 | the exact number of pixels in tolerance, of exact matches, and the tight box of the former |
| `Colour.HitsFillBox` | artifacts/m9_vkcap_a64.py:267-296 | the count is at most the box's area, with equality exactly when every pixel of the box matches |
| `Verdict.Score` | artifacts/m9_vkcap_a64.py:299-313 | the score and box of one phase mean what the specification says |
| `Verdict.Judge` | artifacts/m9_vkcap_a64.py:450-522 | PASS if and only if both holds pass and fill one and the same box |
| `Verdict.PhaseOkIff` | artifacts/m9_vkcap_a64.py:496-508 | the five criteria on the bytes of the frames: at least nine tenths of the window have the colour up to 2 in each channel, all but a twentieth of the box do, the control has it nowhere and differs, no pixel is uncovered |
| `Verdict.PassesIff` | artifacts/m9_vkcap_a64.py:487-522 | PASS, for all frames and colours, is that of both phases with one box around both |
| `Verdict.PaintingPasses` | artifacts/m9_vkcap_a64.py:487-522 | a client that paints a box in the one colour and then in the other passes, whatever the colours |
| `Verdict.AbsentDiffers` | artifacts/m9_vkcap_a64.py:503-508 | a frame with a colour differs from every frame without it, so that criterion is idle |
| `Verdict.PassIsRepaint` | artifacts/m9_vkcap_a64.py:487-522 | PASS with separated colours means that the two captures differ on at least 90% of the shared box |
| `Verdict.StaticFramePasses` | artifacts/m9_vkcap_a64.py:487-522 | for any colours that are not separated, a run of one unchanging frame that passes |
| `Verdict.VerdictSoundIff` | artifacts/m9_vkcap_a64.py:267-313 | every PASS is a repaint if and only if the colours differ by more than twice the tolerance in some channel |
| `Evidence.Take` | artifacts/m9_vkcap_a64.py:153-237 | a capture shows what the rectangles read show, and counts the positions none of them covers |
| `Evidence.ColouredIsSent` | artifacts/m9_vkcap_a64.py:205-216 | a pixel of a capture has a colour if and only if the last rectangle over it sent it that |
| `Evidence.PassIsSent` | artifacts/m9_vkcap_a64.py:487-522 | PASS means that the server drew every pixel of both frames, and in one box sent at least nine tenths of the pixels first in the one colour and then in the other |
| `Ppm.NextToken` | artifacts/m13_cosmic_config.py:370-388 | one step of the scan takes the next header token; the scan ends on every byte string |
| `Ppm.ReadPpm` | artifacts/m17_census.py:136-155 | the index-advancing reader, with or without comments, computes the header specification, errors included |
| `Ppm.ReadPpmStrict` | artifacts/m21_cpr.py:192-214 | the same for the reader that also demands enough pixel bytes |
| `Ppm.PyNatIff` | artifacts/m17_census.py:136-155 | `int` takes exactly digits with single underscores between them, for the value of the digits |
| `Ppm.SignedIsRead` | artifacts/m17_census.py:136-155 | a sign before a printed number is read |
| `Ppm.CommentEnds` | artifacts/m13_cosmic_config.py:370-388 | a comment runs from its hash to the newline, and to the end of a file without one |
| `Ppm.ReadersAgree` | artifacts/m13_cosmic_config.py:370-388 | all readers return the same image for every header with any gaps, with comments in them for those that support it; the m21 reader exactly when white space follows the magic and the pixels suffice |
| `Ppm.PlainAgreesIff` | artifacts/m7z3_session.py:34-44 | on every byte string: the reader without comments agrees with those with them if and only if no comment stands before a token or one of the tokens is no number |
| `Ppm.CommentPartsReaders` | artifacts/m7z3_session.py:34-44 | on every well-formed file with a comment in a gap the one fails and the others succeed |
| `Ppm.StrictAgreesIff` | artifacts/m21_cpr.py:192-214 | on every byte string, by its tokens: exactly when the m21 reader sees what the other comment-aware ones see |
| `Ppm.LeadingGapIsSkipped` | artifacts/m21_cpr.py:192-206 | white space or comments before the magic are skipped by the m21 reader and fatal to the others |
| `Ppm.MaxvalIsIgnored` | artifacts/m21_cpr.py:207-211 | a maxval that is no number is ignored by the m21 reader and fatal to the others |
| `Ppm.Swizzle` | artifacts/m9_vkcap_a64.py:240-248 | the output holds red, green and blue of each framebuffer pixel in order |
| `Ppm.WritePpm` | artifacts/m9_vkcap_a64.py:240-248 | the file is the printed header and pixels whose colours are those `pixels` computes, and every reader reads it back as the same image |
| `Ppm.WriteReadRoundTrip` | artifacts/m9_vkcap_a64.py:240-253 | every reader returns the width, height and pixel bytes that were written |
| `Bytes.ValueOfShow` | artifacts/m9_vkcap_a64.py:240-248 | reading a printed number returns it, in every base |
| `Bytes.ShowInjective` | artifacts/m13_cosmic_config.py:241-256 | different numbers print differently |
| `Bytes.DigitsAre` | artifacts/m8_cursor.py:112-121 | the digits are 0 to 9 and a to f in either case, each with its value, and no other byte is one |
| `Probes.CountIsFound` | artifacts/driver_nobreak.py:700-712 | the non-overlapping count is the number of positions where a probe stands |
| `Probes.PerChunkMissesStraddling` | artifacts/m12_caps.py:107-118 | counting chunk by chunk loses exactly the probes that straddle a cut |
| `Probes.PerChunkCompleteIff` | artifacts/m12_caps.py:107-118 | it is complete if and only if no cut falls inside a probe |
| `Probes.Session.Pump` | artifacts/driver_nobreak.py:685-719 | whatever the chunks, `answered` and the replies sent equal the probes in the whole transcript |
| `Serial.Console.Send` | artifacts/m12_caps.py:87-98 | a send forgets all earlier text |
| `Serial.Console.Pump` | artifacts/m12_caps.py:99-118 | the buffer gains what arrives up to the first end of input; one reply for each probe seen in a chunk |
| `Serial.Console.ReadUntil` | artifacts/m12_caps.py:120-130 | texts read and the buffer are together all received since the send; a timeout consumes nothing; a match uses only that text |
| `Serial.StableReads` | artifacts/m12_caps.py:120-130 | for a stable pattern a read finds what one search of everything that arrives finds |
| `Serial.ChunkIndependentIff` | artifacts/m12_caps.py:120-130 | reads do not depend on the cuts if and only if a match found never changes when text is added |
| `Patterns.LeftmostIsFirst` | artifacts/m12_caps.py:120-130 | the search returns the first position that matches, or none does |
| `Patterns.ExtendsIffMatchDoes` | artifacts/m12_caps.py:120-130 | for a pattern anchored by a byte, adding text keeps the leftmost match exactly when it keeps that match's length |
| `Markers.MarkerReadsAreChunkIndependent` | artifacts/m13_cosmic_config.py:241-276 | the completion marker of any number is found alike however the stream is cut |
| `Markers.NoiseNoMatch` | artifacts/m13_cosmic_config.py:214-276 | redraws of the typed line cut short anywhere, output without a digit behind "M13-" and markers of other numbers match nowhere, whatever follows |
| `Markers.StatusIsOwn` | artifacts/m13_cosmic_config.py:241-276 | after any such noise, and behind output without a final newline, the status parsed is the one this attempt printed; without its marker there is none |
| `Markers.Runner.Attempt` | artifacts/m13_cosmic_config.py:241-276 | one attempt takes a fresh number and returns the status found in what arrived after its send |
| `Markers.Runner.Run` | artifacts/m13_cosmic_config.py:241-276 | the second attempt is made exactly when the first found nothing, with its own number |
| `Marks.MarkReadExtendsIff` | artifacts/m12_caps.py:120-130 | a MARK read survives added text if and only if the cut is not between digits of the duration |
| `Marks.MarkReadsDependOnChunks` | artifacts/m12_caps.py:700-710 | the line of a mark of 60 seconds, cut before its last digit, is read as 6 and consumed up to there; a search of the whole text reads 60 |
| `Liveness.Differences` | artifacts/m12_analyze.py:114-123 | the mask holds exactly the pixels that differ |
| `Liveness.Clear` | artifacts/m12_analyze.py:114-123 | exactly the excluded box is cleared, in place |
| `Liveness.Measure` | artifacts/m12_caps.py:384-396 | the number of set pixels and their tight box |
| `Liveness.DBox` | artifacts/m12_analyze.py:114-123 | the count and tight box of the changed pixels outside the exclusion |
| `Liveness.ChangedBox` | artifacts/m12_caps.py:407-426 | the same with a threshold, nothing for missing frames or different shapes, and an error exactly for a threshold of 0 with no change |
| `Liveness.Diff` | artifacts/m12_caps.py:384-394 | count and tight box of all changes, or nothing to compare |
| `Liveness.HullIsTight` | artifacts/m12_analyze.py:165-193 | the hull of two tight boxes is the tight box of both sets |
| `Liveness.LearnLiveness` | artifacts/m12_caps.py:490-507 | the region learned is the tight box of all that the comparisons, those between different shapes skipped, find; it is kept when a frame is missing or they find nothing |
| `Liveness.IdleFramesAgreeOutside` | artifacts/m12_caps.py:490-507 | for three frames of which the first two have one shape or the first and last have two, no two of them differ outside the region learned |
| `Liveness.AlwaysAgreeIff` | artifacts/m12_caps.py:490-507 | for all shapes, missing frames included, and every region so far: frames of those shapes always agree outside the region learned if and only if it is not the case that two of them have one shape with a position outside the region so far while a frame is missing or the middle one has another shape |
| `Liveness.OddMiddleLearnsNothing` | artifacts/m12_caps.py:496-502 | three frames, the middle one of another shape, from which nothing is learned though the first and last differ |
| `Liveness.MissingFrameLearnsNothing` | artifacts/m12_caps.py:493-496 | two frames that differ and a missing third, from which nothing is learned |
| `TextLines.SplitLines` | artifacts/m12_analyze.py:45-52 | the loop over line ends yields the lines of the specification, cut at every ASCII break `splitlines` knows, CR and newline together being one |
| `TextLines.LineEnds` | artifacts/m12_analyze.py:45-52 | a line ends at each break, at a return and newline together, and nowhere else |
| `TextLines.LinesOfUnlines` | artifacts/m12_analyze.py:45-52 | lines written out one after another are those read back |
| `Stats.FindAllPrinted` | artifacts/m8_cursor.py:105-125 | the fields found in a printed list are those printed, in order |
| `Stats.PrintedIsRead` | artifacts/m8_cursor.py:105-125 | a printed line is read as the dictionary of its fields, behind any text without the tag |
| `Stats.ParseLog` | artifacts/m8_cursor.py:115-125 | from the text of a log: the loop collects the records of its lines in order |
| `Stats.LogIsRead` | artifacts/m8_cursor.py:115-125 | the text of a log, split into lines again, yields exactly the records printed in it with a tick, whatever else it holds |
| `Stats.LogOfNumbers` | artifacts/m8_cursor.py:105-125 | numbers printed in hexadecimal, in either case and with any leading zeros, are read back by name from the text of a log |
| `Stats.DictHolds` | artifacts/m8_cursor.py:105-125 | with distinct names every printed value is recovered |
| `Stats.OrderDoesNotMatter` | artifacts/m8_cursor.py:105-125 | reordering the fields changes nothing |
| `Stats.InsertionKeepsOthers` | artifacts/m8_cursor.py:105-125 | inserting a field anywhere changes no other name's value |
| `Stats.Report` | artifacts/m8_cursor.py:217-266 | exit 0 if and only if in some adjacent pair both the tick and the pushes grow; the window is the leftmost with the most pushes among those that advance in ticks |
| `Windows.PhaseWindows` | artifacts/m12_analyze.py:45-71 | one window for each MARK, in order and disjoint, from its first sample after MARK to the last before its ENDMARK |
| `Windows.RowIsInside` | artifacts/m12_analyze.py:73-98 | both samples of a reported window lie between its marks, in order |
| `Windows.RowIff` | artifacts/m12_analyze.py:73-98 | where ticks never go back, a window is reported if and only if it is closed and the tick advances in it |
| `Windows.DeltaNonNegative` | artifacts/m12_analyze.py:73-98 | with non-decreasing counters a window's delta is not negative |
| `Windows.DeltasWithinAdvance` | artifacts/m12_analyze.py:45-98 | the deltas together never exceed the advance of the whole stream |
| `Phases.EventIsRead` | artifacts/m12_analyze.py:45-71 | a printed sample, MARK or ENDMARK is told for what it is with its values, and any other line for none of them |
| `Phases.TraceIsRead` | artifacts/m12_analyze.py:45-71 | the text of a trace, split and told apart, is the events printed in it, in order |
| `Phases.WindowsOf` | artifacts/m12_analyze.py:45-71 | from the text of a trace: the windows of its lines |
| `Runs.Group` | artifacts/g2_run2.py:47-52 | each pool's list holds its samples in order |
| `Runs.RunsSpell` | artifacts/g2_run2.py:47-64 | the runs written out are the samples |
| `Runs.RunsAreMaximal` | artifacts/g2_run2.py:47-64 | there is one run more than transitions, none empty, neighbours different |
| `Runs.StatsAreConsistent` | artifacts/g2_run2.py:47-64 | `n` and `distinct` count samples and values; distinct values are at most transitions plus one, and the longest run times that is at least n |
| `Runs.LongestIsStill` | artifacts/g2_run2.py:56-64 | some stretch of that many equal samples exists and none is longer |
| `Runs.TimesBracket` | artifacts/g2_run2.py:58-63 | unless the clock went back, `t0` and `t1` bracket all samples and the changes between them |
| `Runs.ConstantIff` | artifacts/g2_run2.py:116-127 | CONSTANT if and only if all samples are equal |
| `Runs.ConstantOutsideChanges` | artifacts/g2_run2.py:47-64 | the reported first and last change bracket all change and are changes themselves |
| `Sampled.DiffBox` | artifacts/m17_census.py:170-185 | for images of every size: the count of the sampled differences and their tight box, its minima capped at 2^30, or nothing exactly when there are none |
| `Sampled.DifferIff` | artifacts/m17_census.py:178-180 | two pixels differ if and only if one of their three bytes does or is missing in one image |
| `Sampled.BoxIsTightIff` | artifacts/m17_census.py:170-185 | the cap changes no box, for all images of a size, if and only if that size has no sampled position past 2^30 |
| `Sampled.SampledBoxIsInside` | artifacts/m17_census.py:170-185 | the sampled box lies inside the true one |
| `Sampled.NoneMeansHoles` | artifacts/m17_census.py:170-185 | no result means every 4x4 window of the image has an unchanged pixel |
| `Sampled.NoneMeansEqualIff` | artifacts/m17_census.py:170-185 | no result means no change, for all images of a size, if and only if that size has no pixel off the lattice |
| `Detector.WaitForWindow` | artifacts/m21_cpr.py:227-269 | the first dark probe strictly after a bright one, or none when there is no such pair |
| `Detector.SkippedIff` | artifacts/m21_cpr.py:227-269 | a probe never changes anything but positions if and only if it cannot be read or lies from 70 to 80 |

## Left out

- Buddy.Allocator.InitFromMap: requires memory-map regions that do not overlap, as the Limine boot protocol promises of usable entries, and lie inside physical memory; the range carved out for the bitmap is one of the reserved ranges given, and how it is chosen is not modelled.
- AddressSpace.Space.UnmapRange: takes page numbers, so rounding byte addresses to pages is not modelled; neither are page-table writes, TLB shootdown and file references (reference counts are modelled in `Teardown`).
- AddressSpace.Space.Mprotect: as for `UnmapRange`; the page-table entries it rewrites are not modelled.
- Rfb.Socket.Recv: does not fall silent while bytes are still to come, because a silence is modelled as the end of a budget or of the stream.
- Buddy.Allocator.Free: before any region is known the code checks no end of memory; the call must then lie inside it.
- Verdict.Judge: the hold captures are given; how `sample_hold` times and repeats them is not modelled.
- Physical memory, the head bitmap and the reserved table are fields of type `seq` and not arrays of machine words; the eight-slot limit of the table, allocation-site tags, link checks that panic, emergency reclaim and locking are not modelled.
- Page faults, copy-on-write, `clone_as` itself (`Teardown.SharingKeepsBooks` says what it must count), exit, `brk`, `mremap`, `madvise` and the chunked `PageVec`: the frames of a region are a plain sequence.
- The rest of the kernel: scheduler, file systems, drivers, IPC.
- QEMU command lines, processes, sockets, `select`, QMP and HMP clients, input injection and wall-clock time.
- The RFB handshake, and servers that send malformed messages or rectangles off the screen (a stream cut short is modelled).
- Regular expressions in general: the patterns used are written out as functions; removing ANSI sequences and UTF-8 replacement decoding are not modelled.
- Python's limit of 4300 digits in `int`, image hashing and PNG files.
- Colour censuses, mean luma and `teal_extent`, which would only add easy members, and the scripts that repeat the functions above.
