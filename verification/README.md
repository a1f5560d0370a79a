# Verified models of the SHIF-DRAM tree

This project models, in Dafny, the parts of the repository that carry real algorithmic weight, and proves what they
promise. The sources are the C and Python files that ship with it: gem5's bundled libelf, the x87 number helpers, the
IP checksum macros, the pipeline viewer, the configuration-time scripts, and the bit-sliced query programs.

`dafny verify dfyconfig.toml` checks everything.

## What is modelled

**libelf, writing.** `ElfLayout` holds the object that is written (class `ElfObject`) and the layout passes as methods
over it, with the class and the byte order taken from `e_ident`; `ElfLayoutTheorems` proves that headers, sections and
tables are ascending, disjoint and aligned, and `ElfHeaders` says what every header field of an updated object is.
`ElfImage` says what a file should contain: a list of regions, and fill bytes everywhere else. `ElfWriter` builds the
byte buffer in place and is proved to paint exactly that image; `ElfReader` opens an image the way `elf_memory` does and
reads headers and the section header table, and `ElfRoundTrip` relates what is read to what was written. Headers follow
chapter 4 of the System V gABI, byte by byte (`ElfFormat`). Numbers of sections or segments that do not fit the header
(extended numbering) are part of the model.

**libelf, descriptors.** `ElfLifecycle` models `elf_begin`, `elf_end` and archive members over an explicit heap, so
that freeing is visible, and proves an invariant of every run of calls. `TailQueue` models the singly-linked tail queue
with real nodes and the insertion of a section in it. `StrPtr` models both ways of looking up a string.

**Arithmetic.** `Fp80` (conversions between double and x87 extended format, section 3.4 of IEEE 754-2008 for the
double), `IpChecksum` (the unrolled checksum loop against section 2 of RFC 1071), `Bits` (words as naturals, bitwise
operations, the branch-free population count).

**Bit-sliced queries.** `Bitweave` relates row operations to one comparison per lane; `BitweaveQuery` models the row
program and what it counts; `BitweaveBaseline` models an iteration of the vector program, whose outputs overwrite its
inputs, and `BitweavePrinted` its two iterations.

**Scripts.** `ReorderBuffer` (the pipeline viewer's reordering queue), `CptUpgrader` (the checkpoint upgrade
scheduler), `ConfigText` and `CptFile` (what the configuration parser does to the tags, and the processing of a
file), `PortBinder` (the greedy port binder), `MemTree` (the recursive cache tree builder).

`Arith`, `Bytes` and `Options` hold shared arithmetic, bytes and byte orders, and the option type.

Code that updates state is modelled as classes and methods with loops; each method is tied to a function on values,
and the theorems are about those functions.

## Where the code does less than it seems to

- `elf_update` aborts on objects that its own layout accepts. The writer asserts that every section lies on the
  natural boundary of its type, and a section may ask for less (`ElfWriter.PackedCannotBeWritten` is such an object;
  `ElfLayoutTheorems.NaturalIff` says which sections are safe wherever they are put). With 0xff00 or more sections the
  section header table is not written, and in a 32-bit object whose table would start beyond 4 GB it is written over
  the contents. `ElfWriter.ElfUpdate` states the exact condition for success.
- `elf_update` writes objects that `elf_memory` refuses. A new executable header has no byte order set; the writer
  takes that for the order of the host and leaves the byte at zero, and the file cannot be opened again. Nor can one
  without sections that has 65535 segments or more, or the reserved string table index. The file of a successful update
  can be loaded in all other cases, but with more than 65535 segments their number is not read back, because the reader
  looks at section header 0 only when the number of sections is there (`ElfReader.NumbersReadIff`,
  `ElfRoundTrip.UpdateAndLoad`; `ElfRoundTrip.UnsetOrder` is an example of a file that cannot be loaded).
- `elf_strptr` on a table the library laid out: with descriptors of different alignments the recomputed positions
  differ from the stored ones. `StrPtr.LookupsAgreeIff` gives the exact condition.
- `elf_begin` on a malformed archive: the descriptor made by `elf_memory` is lost.
  `ElfLifecycle.EverythingIsFreedIff` shows that this is the only way to lose one.
- `fp80_cvffp64`: every denormal double comes out at half its value (`Fp80.ValueExactIffNormal`), and
  `fp80_cvtfp64` is off for results in the denormal range (`Fp80.DenormalRangeIsWrong`); the two errors cancel in a
  round trip.
- `ip_cksum_add` with fewer than two bytes adds sixteen words that follow the buffer (`IpChecksum.PlainSumIff`).
- The row query sets its equality masks to the integer 1, so it looks at one lane in 32. Its count is right if and
  only if no other lane has a value in range (`BitweaveQuery.CountIsAllIff`; `BitweaveQuery.LaneOneIsMissed` has one).
- The vector query adds to its sum after every slice (`BitweaveBaseline.SumIsHitsIff` says exactly when the sum of an
  iteration is nevertheless the number of values in range), and prints the sum of a second iteration, which reads the
  hit masks that the first one has written over its data. The printed number can be trusted for values of at most one
  bit and for no others (`BitweavePrinted.PrintedRightIff`); `BitweavePrinted.PrintedBlockwise`
  and `BitweavePrinted.PrintedByHits` are about given data.
- The pipeline viewer ends with an exception at the first fetch beyond its stopping point, because a call lacks an
  argument (`ReorderBuffer.Viewer.ProcessTrace`, `ReorderBuffer.StopsIff`).
- The port binder's comment says that one of the two listings of each connection can always be bound. It cannot
  (`PortBinder.SomeOrdersAreMissed`), and self-connections let the half-count check pass with a connection missing
  (`PortBinder.SelfConnectionsHideOthers`).
- The upgrader writes its tags through a parser that gives percent signs, semicolons and quotes a meaning
  (`ConfigText.OddTags`). Without semicolons, quotes and parentheses, a second run finds nothing to do if and only if
  the registered tags are non-empty words without percent signs (`CptFile.ProcessTwice`). A numbered checkpoint without
  a section for the tags is upgraded and then not written (`CptFile.ProcessFile`). When an upgrader file reuses the tag
  of an earlier numbered one, versions can be applied out of order (`CptFile.TakenOverTag`;
  `CptUpgrader.AlwaysAfterIff` says which orders are settled).

## Model

| member | source | states |
|---|---|---|
| `Arith.RoundUpMacro` | gem5/ext/libelf/elf_update.c:169 | rounding by remainder equals the macro's rounding by division |
| `Arith.RoundUpLeast` | gem5/ext/libelf/elf_update.c:205 | the rounded offset is the least multiple that is not below |
| `Bits.Pow2Test` | gem5/ext/libelf/elf_update.c:154-157 | a number is a power of two iff it is not zero and has no bit in common with its predecessor |
| `ElfFormat.ShdrRoundTrip` | gem5/ext/libelf/elf_types.m4:196-220 | a section header whose fields fit is decoded to itself, for both classes and byte orders |
| `ElfFormat.EhdrRoundTrip` | gem5/ext/libelf/elf_types.m4:102-135 | the same for the executable header |
| `ElfFormat.FieldByte` | gem5/ext/libelf/libelf_convert.m4:83-125 | byte j of a field, counted from its low end in the given byte order, is the value's j-th base-256 digit |
| `ElfFormat.ShdrBytes` | gem5/ext/libelf/elf_types.m4:196-220 | every field of a section header is at its absolute offset and has its width, in both classes and byte orders |
| `ElfFormat.EhdrBytes` | gem5/ext/libelf/elf_types.m4:102-135 | the same for the executable header, after the sixteen bytes of `e_ident` |
| `ElfLayout.CheckDescriptors` | gem5/ext/libelf/elf_update.c:136-160 | fails with the error of `DescriptorError`; otherwise the result is the largest alignment |
| `ElfLayout.DescriptorErrorIs` | gem5/ext/libelf/elf_update.c:141-156 | that error is about the first descriptor that does not suit: its type before its version before its alignment; there is none iff all suit |
| `ElfLayout.PlaceDescriptors` | gem5/ext/libelf/elf_update.c:162-173 | descriptors get the offsets of the specification `Place`, and the section its size |
| `ElfLayout.ComputeSectionExtents` | gem5/ext/libelf/elf_update.c:74-226 | refused exactly when `SectionError` says so; otherwise header, offset, size and end are those of `LayOutSection`, which `ElfHeaders.LaidHeader` describes field by field |
| `ElfLayout.UpdateSection` | gem5/ext/libelf/elf_update.c:185-225 | the section header fields and the new end of file are those of `PlaceSection`, which `ElfHeaders.LaidHeader` describes field by field |
| `ElfLayout.AcceptedAlign` | gem5/ext/libelf/elf_update.c:141-160 | the alignment of an accepted section that has descriptors is a power of two, no less than the one asked for |
| `ElfLayout.ElfObject.CheckOrder` | gem5/ext/libelf/elf_update.c:286-317 | the second pass never moves or rejects a section in library layout, and `nrc == rc` holds at its end |
| `ElfLayout.ElfObject.ResyncSections` | gem5/ext/libelf/elf_update.c:266-318 | fails iff some section is refused, with the error of the first such; otherwise all sections are laid out in order |
| `ElfLayout.ElfObject.ResyncElf` | gem5/ext/libelf/elf_update.c:320-495 | fails iff the version, the class in `e_ident`, or a section is refused, with that error or that of the first such section; otherwise the byte order is that of `e_ident`, and the size, the section list with extended numbers and the numbered header are those of the specification |
| `ElfLayoutTheorems.SectionPlacement` | gem5/ext/libelf/elf_update.c:162-225 | one section lies at or after the previous end, its descriptors ascending, inside it, each on its own alignment in the file |
| `ElfLayoutTheorems.SectionsDisjoint` | gem5/ext/libelf/elf_update.c:281-284 | any two file-occupying sections are disjoint and in list order |
| `ElfLayoutTheorems.SectionInside` | gem5/ext/libelf/elf_update.c:281-312 | every section lies between the headers and the section header table |
| `ElfLayoutTheorems.DescriptorsWellPlaced` | gem5/ext/libelf/elf_update.c:164-173 | in a whole file every descriptor of every section is aligned, inside, and disjoint from its neighbours |
| `ElfLayoutTheorems.HeaderTablesPlaced` | gem5/ext/libelf/elf_update.c:408-471 | both header tables are aligned, follow what comes before with the least gap, and end where the next part starts |
| `ElfLayoutTheorems.NaturalIff` | gem5/ext/libelf/elf_update.c:190-205 | a section lands on its type's boundary wherever the layout has got to iff its own alignment is a multiple of the natural one |
| `ElfLayoutTheorems.NaturalIfAsked` | gem5/ext/libelf/elf_update.c:136-160 | that holds when the header leaves the alignment to the library or a descriptor has the natural alignment |
| `ElfLayoutTheorems.NaturalSectionsAligned` | gem5/ext/libelf/elf_update.c:523-529 | files made of such sections satisfy the writer's assertion on every section |
| `ElfLayoutTheorems.PackedIsMisaligned` | gem5/ext/libelf/elf_update.c:523-529 | three accepted sections of which the last is laid out at offset 65 and fails the assertion |
| `ElfHeaders.LaidHeader` | gem5/ext/libelf/elf_update.c:162-225 | an occupying section with data, at offsets that its class can hold: its size is the end of its last descriptor, each descriptor at the first multiple of the alignment after the one before; its alignment is the largest of the one asked for, or the natural one, and those of the descriptors, and divides its offset, the least one after the previous section; its entry size is kept, or that of its elements, or 0 for bytes; name, type, flags, address, link and info are kept |
| `ElfHeaders.SectionHolds` | gem5/ext/libelf/elf_update.c:266-318 | the same of every section of a whole updated object, where section 0 also takes a number of segments that is too large |
| `ElfHeaders.EhdrHolds` | gem5/ext/libelf/elf_update.c:320-495 | every field of the executable header of an updated object: identification, sizes of entries, numbers, table offsets and the size of the file; the rest is kept |
| `ElfImage.PaintIsPainted` | gem5/ext/libelf/elf_update.c:501-600 | writing regions in order with fills between gives an image where every region byte and every gap byte is right |
| `ElfImage.FileFitsInMemorySize` | gem5/ext/libelf/libelf_msize.m4:47-101 | a translated descriptor never needs more bytes in the file than it was given |
| `ElfImage.LayoutIsChained` | gem5/ext/libelf/elf_update.c:281-284 | the layout gives the writer's precondition: regions ascend and fit |
| `ElfWriter.WriteScn` | gem5/ext/libelf/elf_update.c:501-600 | fails iff the section has no data, a descriptor cannot be translated, or its offset is not on the boundary of its type; otherwise its regions and gaps are in the buffer |
| `ElfWriter.WriteSections` | gem5/ext/libelf/elf_update.c:727-729 | the same for all sections |
| `ElfWriter.WriteTable` | gem5/ext/libelf/elf_update.c:735-767 | the section header table is in the buffer, gap before it filled |
| `ElfWriter.WriteTablePart` | gem5/ext/libelf/elf_update.c:735-772 | with a truncated table offset the table overwrites the buffer; both assertions hold iff the offset and the count fit the executable header, and then the table is in place |
| `ElfWriter.WriteHeaders` | gem5/ext/libelf/elf_update.c:663-721 | fails iff the byte order in `e_ident` is none that the translator knows; otherwise the executable header, in that order or the host's, and the program header table are in the buffer |
| `ElfWriter.WriteElf` | gem5/ext/libelf/elf_update.c:619-772 | succeeds iff the byte order is known or unset, every section can be written and lies on its boundary, and the table fits the executable header; then the buffer holds all regions and fills up to the computed size |
| `ElfWriter.Resync` | gem5/ext/libelf/elf_update.c:861-865 | fails iff a header or a section is refused, with that error; otherwise the object is ready for the writer, with the header and sections of the specification |
| `ElfWriter.ElfUpdate` | gem5/ext/libelf/elf_update.c:834-885 | succeeds iff the header is accepted, its byte order is known or unset, and `CanWrite` holds of the object as it was; the first complaint about header and sections is the error; on success the headers are those that `ElfHeaders` describes, the size returned is the computed one and the image's, and every byte of the image is a region byte or a fill byte |
| `ElfWriter.NaturalCanWrite` | gem5/ext/libelf/elf_update.c:834-885 | for natural sections with translatable data, only the section header table can make the update fail |
| `ElfWriter.PackedCannotBeWritten` | gem5/ext/libelf/elf_update.c:523-529 | accepted sections with translatable data that cannot be written |
| `ElfReader.LoadScn` | gem5/ext/libelf/elf_scn.c:40-118 | succeeds iff the entry size is right and the table lies in the file; then all entries, in order, after the one that extended numbering has already read |
| `ElfReader.IdentifyIff` | gem5/ext/libelf/elf_memory.c:61-79 | an image is taken for an object of a class, byte order and version iff its first seven bytes say so |
| `ElfReader.LoadableIs` | gem5/ext/libelf/libelf_ehdr.c:98-202 | an image can be loaded iff its header is current, its numbers are not reserved ones, what section header 0 has to say can be found there, and the table with entries of the right size lies in the file |
| `ElfReader.NumbersReadIff` | gem5/ext/libelf/libelf_ehdr.c:40-86 | of numbers stored as the standard says, that of sections is read; those of segments and the string table are read right iff the number of sections is extended too or they need not be |
| `ElfReader.LoadFile` | gem5/ext/libelf/elf_memory.c:61-79 | an image is loaded iff it passes the tests of `elf_memory`, `_libelf_ehdr` and `_libelf_load_scn`, that is, iff it is `Wellformed`; then class, byte order, header, the numbers of sections and segments, and the table are what is in it |
| `ElfReader.EhdrReadsBack` | gem5/ext/libelf/elf_update.c:663-683 | the header decoded from the image is the header written |
| `ElfReader.ShdrReadsBack` | gem5/ext/libelf/elf_update.c:735-767 | every table entry decoded from the image is the header written |
| `ElfReader.ContentsReadBack` | gem5/ext/libelf/elf_update.c:501-600 | every descriptor's bytes are in the image at its place |
| `ElfRoundTrip.LoadableIff` | gem5/ext/libelf/libelf_ehdr.c:138-199 | a file with the header of an updated object can be loaded iff `e_ident` names a byte order and no number was moved to a section header that is not there |
| `ElfRoundTrip.UpdateAndLoad` | gem5/ext/libelf/elf_update.c:834-885 | the update succeeds iff the conditions of `ElfUpdate` hold; the image then has all header fields as `ElfHeaders` describes them from the object before the call, the program headers, section headers and all contents where these headers say, and fill bytes in the gaps; it can be loaded iff the byte order was named and, without sections, no number was moved to section header 0; what is loaded is what is in the image, with the class, byte order and the very headers of the object, the number of segments iff it is at most 65535 |
| `ElfRoundTrip.UnsetOrder` | gem5/ext/libelf/libelf_ehdr.c:91 | an object with the byte order left unset that can be written, in a file that cannot be loaded |
| `ElfRoundTrip.AllContentsReadBack` | gem5/ext/libelf/elf_update.c:501-600 | every section's contents are found through its own section header |
| `StrPtr.StrPtr` | gem5/ext/libelf/elf_strptr.c:42-134 | nothing for other sections or offsets out of range; else the look-up of the layout mode; a result is inside its descriptor |
| `StrPtr.DirectIff` | gem5/ext/libelf/elf_strptr.c:66-86 | on any list: byte k of descriptor i is found iff it is the byte at the offset and no descriptor before has the offset or another type |
| `StrPtr.DirectPlacedIff` | gem5/ext/libelf/elf_strptr.c:66-86 | in a laid-out section iff that byte of an addressable descriptor is at the offset |
| `StrPtr.RecomputedIff` | gem5/ext/libelf/elf_strptr.c:88-130 | on any list: byte k of descriptor i is found iff it is at the offset when the addressable descriptors are counted with their own alignments, and all of them up to there can be |
| `StrPtr.LookupReadsImage` | gem5/ext/libelf/elf_strptr.c:66-86 | in a written file the byte found is the byte of the image at that offset of the section |
| `StrPtr.LookupsAgreeIff` | gem5/ext/libelf/elf_strptr.c:66-130 | both look-ups agree on all offsets iff no recomputed start differs from the stored one |
| `StrPtr.UniformLookupsAgree` | gem5/ext/libelf/elf_strptr.c:88-130 | they agree on every library-made table of uniformly aligned byte descriptors |
| `StrPtr.MixedAlignmentsDisagree` | gem5/ext/libelf/elf_strptr.c:88-130 | a concrete table laid out by the library on which they differ |
| `TailQueue.Queue.InsertHead` | gem5/ext/libelf/elf_queue.h:260-264 | the node is first, the rest unchanged, the last link still right |
| `TailQueue.Queue.InsertTail` | gem5/ext/libelf/elf_queue.h:266-270 | the node is last |
| `TailQueue.Queue.InsertAfter` | gem5/ext/libelf/elf_queue.h:254-258 | the node follows the given one |
| `TailQueue.Queue.RemoveHead` | gem5/ext/libelf/elf_queue.h:295-299 | the first node is gone |
| `TailQueue.Queue.Remove` | gem5/ext/libelf/elf_queue.h:280-293 | exactly the given node is gone |
| `TailQueue.InsertSection` | gem5/ext/libelf/elf_update.c:233-264 | on any list: the section is inserted where the search stops iff there is room there, else the list is unchanged |
| `TailQueue.SortedInsert` | gem5/ext/libelf/elf_update.c:233-264 | in a list in file order there is room iff the section neither touches nor overlaps another, and inserting it keeps the order |
| `TailQueue.MoveSection` | gem5/ext/libelf/elf_update.c:303-306 | removing and reinserting keeps the members, and puts the section where the search over the others stops |
| `TailQueue.MovedAscends` | gem5/ext/libelf/elf_update.c:296-310 | when the occupying sections passed are in file order and reach beyond this one, and the others end below it, the move succeeds iff it collides with none of them; then the occupying ones are in file order with it, and the rest is untouched |
| `ElfLifecycle.Library.ElfEnd` | gem5/ext/libelf/elf_end.c:36-85 | the loop up the parent chain computes `End` and keeps the invariant; `EndCloses` and `EndKeepsIff` say what that is |
| `ElfLifecycle.Library.ElfBegin` | gem5/ext/libelf/elf_begin.c:82-154 | succeeds iff the command, the descriptor passed with its file and command, and the image allow it; returns that descriptor, with one more activation, iff it is not an archive, and otherwise a fresh one with one activation, the kind of the image, the given file and command, and the archive as parent; nothing else changes but the archive's count; keeps the invariant |
| `ElfLifecycle.Library.OpenFile` | gem5/ext/libelf/elf_begin.c:39-80 | succeeds iff an object can be made of the image, except that an archive opened for update is ended again; what the new descriptor is |
| `ElfLifecycle.Library.OpenArMember` | gem5/ext/libelf/libelf_ar.c:279-321 | a member is linked to its archive, which counts it |
| `ElfLifecycle.Library.ElfMemory` | gem5/ext/libelf/elf_memory.c:34-89 | a descriptor is returned iff the image is an object, an archive or neither, and what it is; a malformed archive leaves one that nobody has |
| `ElfLifecycle.BeginIff` | gem5/ext/libelf/elf_begin.c:94-153 | elf_begin succeeds iff it writes or updates without a descriptor, reads an image that can be opened, or is given a descriptor opened for reading on the same file that is not an archive or has such a member |
| `ElfLifecycle.BeginIs` | gem5/ext/libelf/elf_begin.c:94-153 | the whole state after each kind of call, failed ones included |
| `ElfLifecycle.ReclaimSettles` | gem5/ext/libelf/elf_end.c:50-82 | the release loop leaves links and counts exact, nothing unheld, and no open descriptor touched |
| `ElfLifecycle.RunInv` | gem5/ext/libelf/elf_end.c:36-85 | after every legal run: parents of live descriptors are live archives, child counts are exact, every live descriptor is held |
| `ElfLifecycle.LiveIsNeeded` | gem5/ext/libelf/elf_end.c:52-61 | every live descriptor has an activated one inside it |
| `ElfLifecycle.BeginOpens` | gem5/ext/libelf/elf_begin.c:146-153 | a successful call opens one handle on the descriptor it returns, a failed one none |
| `ElfLifecycle.EndCloses` | gem5/ext/libelf/elf_end.c:42-48 | a call closes one handle of its descriptor and of no other |
| `ElfLifecycle.EndKeepsIff` | gem5/ext/libelf/elf_end.c:50-82 | after a call exactly those descriptors remain that are still activated or have one inside that is |
| `ElfLifecycle.UpdateOfArchiveFails` | gem5/ext/libelf/elf_begin.c:73-77 | opening an archive for update changes nothing |
| `ElfLifecycle.LostIff` | gem5/ext/libelf/elf_memory.c:81-88 | a run loses a descriptor iff one of its calls reads a malformed archive |
| `ElfLifecycle.EverythingIsFreedIff` | gem5/ext/libelf/elf_end.c:36-85 | when every handle has been ended, nothing is left iff no malformed archive was read |
| `ElfLifecycle.MalformedArchiveLeaks` | gem5/ext/libelf/elf_memory.c:81-88 | a run of one call that loses a descriptor |
| `ReorderBuffer.Viewer.PrintInsts` | gem5/util/o3-pipeview.py:167-188 | sort, drain down to the threshold, print what the filter keeps |
| `ReorderBuffer.Viewer.QueueInst` | gem5/util/o3-pipeview.py:159-164 | append and drain past the upper threshold |
| `ReorderBuffer.Viewer.ProcessTrace` | gem5/util/o3-pipeview.py:70-150 | looks at the lines from the first fetch not before the starting point up to the first one beyond the stopping point; ends with an exception iff there is such; the k-th instruction queued has the sequence number, tick and text of the last fetch before the k-th retirement there, that line's tick as its own, and one mark for each retirement at tick 0 since the fetch; prints the kept ones |
| `ReorderBuffer.SkipToStart` | gem5/util/o3-pipeview.py:83-107 | the two skipping loops find the first fetch at or after the first line that starts |
| `ReorderBuffer.StopsIff` | gem5/util/o3-pipeview.py:128-150 | the loop is cut short iff some fetch is beyond the stopping point; otherwise it queues one instruction per retirement, which `CollectIs` describes |
| `ReorderBuffer.CollectIs` | gem5/util/o3-pipeview.py:123-144 | over line indices: which instruction is queued at which retirement, and how many |
| `ReorderBuffer.FirstRetirementMark` | gem5/util/o3-pipeview.py:137-141 | the text of an instruction that retires for the first time is marked iff its tick is 0 |
| `ReorderBuffer.BoundedDisorderIsRepaired` | gem5/util/o3-pipeview.py:47-52 | if no instruction is late by more than the lower threshold, the output is the stable sort of the trace |
| `ReorderBuffer.SortIsStable` | gem5/util/o3-pipeview.py:154-169 | the sort keeps equal sequence numbers in arrival order |
| `ReorderBuffer.OutputIsPermutation` | gem5/util/o3-pipeview.py:146-149 | whatever the disorder, every instruction leaves the queue exactly once |
| `ReorderBuffer.PrintedLines` | gem5/util/o3-pipeview.py:170-188 | each line is printed as often as it was queued iff it is kept, and in order when disorder is bounded |
| `ReorderBuffer.OnePlaceMoreIsTooMuch` | gem5/util/o3-pipeview.py:51-52 | the bound is tight: for all thresholds, in either order, a trace late by one more comes out unsorted |
| `Fp80.CvfFp64` | gem5/ext/fputils/fp80.c:193-225 | the code with its loop computes `FromFp64` |
| `Fp80.NormaliseLoop` | gem5/ext/fputils/fp80.c:212-222 | the loop shifts the top bit to the integer bit and counts the shifts |
| `Fp80.RoundTrip` | gem5/ext/fputils/fp80.c:148-225 | every double that is not a NaN survives conversion to fp80 and back |
| `Fp80.NanRoundTrip` | gem5/ext/fputils/fp80.c:172-182 | a NaN stays a NaN of the same sign and quietness |
| `Fp80.ClassKept` | gem5/ext/fputils/fp80.c:125-140 | class and sign are kept, denormals becoming normal |
| `Fp80.ToFp80IsMonotone` | gem5/ext/fputils/fp80.c:193-225 | conversion of non-negative finite doubles is strictly increasing |
| `Fp80.NormalsAreExact` | gem5/ext/fputils/fp80.c:201-207 | normal doubles keep their value |
| `Fp80.DenormalsAreHalved` | gem5/ext/fputils/fp80.c:212-224 | denormal doubles get half their value |
| `Fp80.ValueExactIffNormal` | gem5/ext/fputils/fp80.c:193-225 | a finite non-zero double keeps its value iff it is normal |
| `Fp80.Truncates` | gem5/ext/fputils/fp80.c:153-162 | in the normal range the result is the value truncated by less than one unit in the last place |
| `Fp80.ToFp64IsMonotone` | gem5/ext/fputils/fp80.c:153-170 | from there up the conversion is monotone and overflow gives infinity |
| `Fp80.SignKept` | gem5/ext/fputils/fp80.c:148-190 | the result has the sign of the number, whatever it is |
| `Fp80.NegationKeptIff` | gem5/ext/fputils/fp80.c:148-190 | flipping the sign bit flips that of the result and nothing else, except exactly for the NaN whose negative is the real indefinite |
| `Fp80.ResultClass` | gem5/ext/fputils/fp80.c:148-190 | the result is infinite iff the number is or its exponent is too large, a NaN iff the number is one, quiet iff that is, and normal iff the exponent fits |
| `Fp80.ResultIsZeroIff` | gem5/ext/fputils/fp80.c:163-166 | below the normal doubles the result is zero iff the kept bits are a power of two of the first binade or everything is shifted out |
| `Fp80.NanPatterns` | gem5/ext/fputils/fp80.c:172-182 | the bits that each kind of NaN becomes |
| `Fp80.DenormalRangeIsDoubled` | gem5/ext/fputils/fp80.c:163-166 | from the second binade below the normal doubles, the result is that of twice the value |
| `Fp80.SpecialsAreExact` | gem5/ext/fputils/fp80.c:193-211 | an infinity or a NaN keeps sign and fraction in fp80 |
| `Fp80.DenormalRangeIsWrong` | gem5/ext/fputils/fp80.c:163-166 | below, as far as the C shift is defined, the fraction is the right one iff it is at the top of the first binade or vanishes |
| `Fp80.RightFractionIs` | gem5/ext/fputils/fp80.c:163-166 | the right fraction is the one whose value is the number's, rounded down to a multiple of the least double |
| `Fp80.DeepFractionIsZero` | gem5/ext/fputils/fp80.c:163-166 | further down the right fraction is zero |
| `IpChecksum.CksumAdd` | gem5/ext/dnet/ip.h:427-476 | the unrolled loop adds `DuffSum` to the accumulator, exactly when that fits an int and with wrap-around otherwise |
| `IpChecksum.DuffIsPlainSum` | gem5/ext/dnet/ip.h:430-475 | for two or more bytes that is the sum of the zero-padded buffer, on either byte order |
| `IpChecksum.PlainSumIff` | gem5/ext/dnet/ip.h:433-471 | the sum depends on the buffer alone iff there are two bytes |
| `IpChecksum.ShortBufferReadsBeyond` | gem5/ext/dnet/ip.h:433-471 | for none or one byte, a memory on which the sum differs |
| `IpChecksum.NoOverflow` | gem5/ext/dnet/ip.h:22 | no packet up to the maximal length overflows the accumulator |
| `IpChecksum.CarryIsComplement` | gem5/ext/dnet/ip.h:478-483 | folding the carries gives the complement of the one's-complement sum |
| `IpChecksum.AcceptedIff` | gem5/ext/dnet/ip.h:478-483 | a sum verifies iff it is a positive multiple of 65535 |
| `IpChecksum.ByteOrderIndependent` | gem5/ext/dnet/ip.h:427-483 | for every length from two, even or odd, both byte orders store the same checksum bytes |
| `IpChecksum.InsertedChecksumVerifies` | gem5/ext/dnet/ip.h:427-483 | for every length, storing the checksum in a zeroed word of the buffer makes the buffer verify |
| `Bits.UPopcountIsCount` | microworkloads/bitweave-buddy.c:30-34 | the folding population count is the number of set bits, for every word |
| `Bitweave.StepRowLanes` | microworkloads/bitweave-buddy.c:112-150 | the four cases of row operations do the same comparison step on every lane |
| `Bitweave.LaneCompares` | microworkloads/bitweave-buddy.c:112-150 | after all slices a lane's four bits say how its value compares with the constants |
| `Bitweave.QueryCompares` | microworkloads/bitweave-buddy.c:99-150 | the same for every lane of the rows |
| `Bitweave.SecondPassIsIdle` | microworkloads/bitweave-buddy.c:108-150 | a second iteration from unreset masks changes no mask |
| `BitweaveQuery.RowCount` | microworkloads/bitweave-buddy.c:152-158 | the population counts of the output add up to the lanes strictly in range |
| `BitweaveQuery.Buddy.StepAt` | microworkloads/bitweave-buddy.c:118-149 | the in-place row operations of a case compute the specification's step on that row only |
| `BitweaveQuery.Buddy.StepSlice` | microworkloads/bitweave-buddy.c:113-149 | the same for all rows of a slice |
| `BitweaveQuery.Buddy.Pass` | microworkloads/bitweave-buddy.c:112-150 | one iteration runs all slices on every row |
| `BitweaveQuery.Buddy.CountResult` | microworkloads/bitweave-buddy.c:152-158 | the output rows and their total count |
| `BitweaveQuery.RunQuery` | microworkloads/bitweave-buddy.c:92-162 | both iterations count exactly the enabled values strictly between the constants; that is all of them iff no value outside lane 0 of its word is in range |
| `BitweaveQuery.RowIsAllIff` | microworkloads/bitweave-buddy.c:99-105 | in a row, the lanes that the integer 1 enables give all values in range iff no other lane has one |
| `BitweaveQuery.CountIsAllIff` | microworkloads/bitweave-buddy.c:99-105 | the same for all rows |
| `BitweaveQuery.LaneOneIsMissed` | microworkloads/bitweave-buddy.c:99-105 | a table with one value in range that the program does not count |
| `BitweaveBaseline.GeneralIsFourCases` | microworkloads/bitweave-baseline.c:127-130 | the vector formula equals the four-case step of the row program |
| `BitweaveBaseline.QueryBlock` | microworkloads/bitweave-baseline.c:115-133 | a block's reads see the original data although its output may overwrite its first vector |
| `BitweaveBaseline.Query` | microworkloads/bitweave-baseline.c:73-134 | every read of an iteration sees the original data; afterwards vector i is the hit mask of block i and the rest is unchanged |
| `BitweaveBaseline.BlockSumIsHitsIff` | microworkloads/bitweave-baseline.c:125-133 | a block's sum is its number of hits iff none was decided before the last slice |
| `BitweaveBaseline.SumIsHitsIff` | microworkloads/bitweave-baseline.c:115-134 | the sum of one iteration is at least the number of values in range, and equal iff every block is decided late |
| `BitweaveBaseline.EarlyDecisionIsCountedTwice` | microworkloads/bitweave-baseline.c:131-132 | a block whose sum is too large |
| `BitweavePrinted.Program` | microworkloads/bitweave-baseline.c:95-138 | the number printed is the sum of an iteration over the vectors that the first iteration has overwritten with hit masks |
| `BitweavePrinted.UntouchedBlock` | microworkloads/bitweave-baseline.c:96-134 | blocks past the overwritten vectors are counted alike in both iterations |
| `BitweavePrinted.PrintedIfUnchanged` | microworkloads/bitweave-baseline.c:96-138 | if the hit masks are what the vectors held, the printed number is that of the first iteration, and right iff every block is decided late |
| `BitweavePrinted.PrintedBlockwise` | microworkloads/bitweave-baseline.c:96-138 | for given data: if every overwritten block adds its values in range and every other block is decided late, the printed number is right; when no overwritten block adds less, only then |
| `BitweavePrinted.SecondReads` | microworkloads/bitweave-baseline.c:96-133 | a lane of an overwritten vector reads as whether the same lane of the block with its number is in range |
| `BitweavePrinted.PrintedByHits` | microworkloads/bitweave-baseline.c:96-138 | when overwriting takes no block's values out of range, the printed number is right iff every block as read again has as many values in range, all decided late |
| `BitweavePrinted.TwoBitValuesGoWrong` | microworkloads/bitweave-baseline.c:96-138 | for every number of blocks, two-bit data on which the first iteration is right and the printed number too small |
| `BitweavePrinted.LongValuesGoWrong` | microworkloads/bitweave-baseline.c:96-138 | for every longer length and every number of blocks, data on which the printed number is wrong |
| `BitweavePrinted.PrintedRightIff` | microworkloads/bitweave-baseline.c:95-138 | the printed number is the number of values in range for all data and constants iff values have at most one bit or there are none |
| `CptUpgrader.Ready` | gem5/util/cpt_upgrader.py:103-107 | ready iff every dependency is among the tags |
| `CptUpgrader.ApplyAll` | gem5/util/cpt_upgrader.py:181-195 | terminates; applies missing upgrades once, each after its dependencies; ends at the least closed set; succeeds iff that has every upgrade |
| `CptUpgrader.ApplyRound` | gem5/util/cpt_upgrader.py:190-195 | a round in any order keeps the history legal and adds exactly the ready upgrades |
| `CptUpgrader.EndIsUnique` | gem5/util/cpt_upgrader.py:183-195 | the final tags do not depend on the order within rounds |
| `CptUpgrader.FailsIffKnot` | gem5/util/cpt_upgrader.py:185-188 | it gives up iff some missing upgrades wait for each other or for a tag nobody provides |
| `CptUpgrader.AlwaysAfterIff` | gem5/util/cpt_upgrader.py:181-195 | one missing upgrade comes after another in every legal history iff it is not in the least closed set of the registry without the other |
| `CptUpgrader.Upgraders.Add` | gem5/util/cpt_upgrader.py:78-101 | the dictionaries refer to the new upgrader |
| `CptUpgrader.Upgraders.LinkLegacy` | gem5/util/cpt_upgrader.py:124-128 | fails iff version 3 exists without version 2; else links exactly the unbroken run of versions |
| `CptUpgrader.Upgraders.LinkedIsChain` | gem5/util/cpt_upgrader.py:124-128 | the registry then has the whole chain of versions |
| `CptUpgrader.VersionsInOrder` | gem5/util/cpt_upgrader.py:124-128 | in every legal history a legacy upgrade comes after all earlier versions |
| `CptUpgrader.VersionTagsDownClosed` | gem5/util/cpt_upgrader.py:157-161 | a numbered checkpoint starts with all earlier versions of what it has |
| `ConfigText.AcceptedIsReadable` | gem5/util/cpt_upgrader.py:201 | a text without references can be got iff it can be set |
| `ConfigText.ReloadedKeeps` | gem5/util/cpt_upgrader.py:141-149 | reading the file again keeps the words of a text without semicolons and quotes |
| `ConfigText.OddTags` | gem5/util/cpt_upgrader.py:166-167 | tags that are refused, halved, cut off or lost on the way through the parser |
| `ConfigText.JoinAccepted` | gem5/util/cpt_upgrader.py:201 | without references, a list of tags in any order can be set iff each tag can |
| `CptFile.ConvertVersion` | gem5/util/cpt_upgrader.py:154-165 | fails iff a version has no upgrade; else the tags of versions 2 to its own |
| `CptFile.ProcessFile` | gem5/util/cpt_upgrader.py:151-205 | each outcome up to the upgrades if and only if its cause; after them, tags are refused for a bad percent sign first and for a missing section then, the first iff some tag has one when none has a parenthesis; a rewritten file lists all tags, with a legal history of exactly the missing upgrades |
| `CptFile.AllReadBackIff` | gem5/util/cpt_upgrader.py:166-201 | of the tags written, the registered ones are all read back iff they are words without percent signs |
| `CptFile.ProcessTwice` | gem5/util/cpt_upgrader.py:197-205 | after a rewrite, a second run finds nothing to do iff all registered tags are such words; after a run that writes nothing, a second one ends the same; both results are outcomes of `ProcessFile`, the second on what the first wrote |
| `CptFile.LoadAll` | gem5/util/cpt_upgrader.py:118-122 | for all files: the upgrader found by a tag or a version is the last one loaded that has it |
| `CptFile.UpgradeNumbered` | gem5/util/cpt_upgrader.py:118-205 | from any upgrader files to the rewritten checkpoint: the registry and the version names are those of the last files that have them, linked along the unbroken run of versions; fails iff version 3 comes without version 2; the legacy versions are applied in order unless a later file takes over the tag of one |
| `CptFile.LoadedOnce` | gem5/util/cpt_upgrader.py:118-128 | the files determine the registry and the version names |
| `CptFile.TakenOverTag` | gem5/util/cpt_upgrader.py:97-100 | three files of which the last takes over a tag; in the registry loaded from them version 3 can come before version 2 |
| `PortBinder.BindPorts` | gem5/configs/example/read_config.py:278-332 | on any list: a look-up fails iff a connection whose source is next in line has a target that is nowhere a source; otherwise the bindable ones are made in sorted order, and refused iff they are not half of the list |
| `PortBinder.SortFacts` | gem5/configs/example/read_config.py:140-142 | the list is sorted by object, port and index, and is a permutation |
| `PortBinder.SortOrderIs` | gem5/configs/example/read_config.py:140-142 | the order is that of the sources, then the targets: by object, port and index, with names in lexicographic order |
| `PortBinder.NoPortTwice` | gem5/configs/example/read_config.py:310-319 | no two connections made share a port, so none is made twice or from both sides |
| `PortBinder.UsedIffBehind` | gem5/configs/example/read_config.py:291-319 | the connections at a port are made in index order 0, 1, 2, ... without gaps |
| `PortBinder.HalfCountCheck` | gem5/configs/example/read_config.py:321-324 | if the check passes, every connection was made iff there is no self-connection; without them the check passes iff every one was made |
| `PortBinder.GreedyIsBest` | gem5/configs/example/read_config.py:299-319 | the check passes iff some choice of one listing per connection can be made in list order |
| `PortBinder.BindSymmetric` | gem5/configs/example/read_config.py:278-332 | the whole binder on the lists its documentation asks for |
| `PortBinder.GatherPortConnections` | gem5/configs/example/read_config.py:258-276 | one connection per peer, with its index as source, which `GatheredIff` describes |
| `PortBinder.GatheredIff` | gem5/configs/example/read_config.py:258-276 | a connection is gathered iff some object has its source port and lists its target at that index |
| `PortBinder.GatheredSymmetricIff` | gem5/configs/example/read_config.py:278-281 | what is gathered is listed from both sides iff every listed peer lists the port back at the named index |
| `PortBinder.BindObjects` | gem5/configs/example/read_config.py:352-359 | a configuration whose peers are mutual and not themselves never misses a port; if it is bound, every listed connection is made from one side, each port's in index order, and nothing else; it is bound iff some choice of sides could be made in sorted order |
| `PortBinder.GatheredOnce` | gem5/configs/example/read_config.py:352-355 | what is gathered lists each port once as a source |
| `PortBinder.SelfConnectionsHideOthers` | gem5/configs/example/read_config.py:278-324 | for all names in this order, the binder accepts a list and leaves one of its connections unmade |
| `PortBinder.SomeOrdersAreMissed` | gem5/configs/example/read_config.py:278-324 | for all names in this order, the binder refuses a list whose connections can all be made in some order |
| `MemTree.NumTesters` | gem5/configs/example/memtest.py:114-125 | the loops compute the sum of tester counts times products of fan-outs |
| `MemTree.MakePrototypes` | gem5/configs/example/memtest.py:187-200 | one prototype per level, each the previous one scaled: size, associativity and misses in flight are those of L1 times the product of the fan-outs, the latency times a power of ten |
| `MemTree.TotalIsSubtree` | gem5/configs/example/memtest.py:114-125 | the sum over levels is the count by recursion |
| `MemTree.Builder.NewSubsystem` | gem5/configs/example/memtest.py:225-231 | the next name of the level, keeping all names distinct |
| `MemTree.Builder.MakeCacheLevel` | gem5/configs/example/memtest.py:222-283 | stays in bounds; fails iff the uppermost level has no cache below; moves each counter by the subtree's subsystems; every tester and both sides of every cache made are connected, none of them twice; what is made is part of a tree to the plan and has the planned number of caches |
| `MemTree.CachesAre` | gem5/configs/example/memtest.py:256-262 | the caches made by recursion are one for every subsystem but the lowest and one for every tester below the uppermost level |
| `MemTree.BuildTree` | gem5/configs/example/memtest.py:150-286 | builds iff the specification is accepted, and otherwise reports its first fault; exactly the checked number of testers, the number of caches in closed form; all testers and caches connected and agreeing on it, only to subsystems that exist; every crossbar has exactly its caches for subtrees, the L1 cache grown by the fan-outs, and for testers, and every crossbar but the lowest is on exactly one cache of the level below; distinct subsystem names, counters equal to products of fan-outs |

## Left out

- libelf with `ELF_F_LAYOUT` set: layout by the application, where the program header is written at the running offset and not at `e_phoff`.
- libelf input and output: `mmap`, `write`, `lseek` and `malloc` failure, where a failure is one result; of the error code, only what the layout passes set.
- libelf sections that are not dirty, raw data of files opened for update, and objects without an executable header.
- ElfWriter.ElfUpdate: requires that the computed size does not overflow `off_t`, which C leaves undefined; truncation of 32-bit offsets is modelled.
- ElfWriter.WriteElf: the translation of a descriptor is an input (`file`), with the sizes that `_libelf_xlate` gives it; the translation routines of the element types other than the two headers are not modelled.
- ElfReader.LoadScn: sums of offsets and table sizes do not wrap around at 64 bits.
- TailQueue.MovedAscends: says nothing about lists with a section that occupies no space but has an extent reaching the moved one; `MoveSection` covers all lists.
- TailQueue.Queue.Remove: does not model that the removed node's link is overwritten in debug builds.
- ElfLifecycle: contents of files are reduced to what `elf_memory` finds in them; section reclaiming inside `elf_end` is not modelled.
- ElfLifecycle.RunInv: runs pass only pointers to descriptors that have not been freed, which the library demands of its callers.
- Fp80.DenormalRangeIsWrong: covers shift counts below 64; beyond, the shift in `fp80_cvtfp64` is undefined in C, and `ToFp64` shifts everything out.
- IpChecksum.CksumAdd: the host's byte order is a parameter; overflow, undefined in C, wraps around.
- ReorderBuffer.Viewer.ProcessTrace: lines are given as parsed; store completions and the text of a printed line are not modelled.
- BitweaveQuery.RunQuery: works on whole rows; a last row that the allocation does not fill is not modelled. Bits of the constants beyond 32 slices read as zero, where the C shift is undefined. The result does not wrap, since the number of values is an `int`.
- BitweaveBaseline.Query: the vector width is a parameter, four words in the program.
- BitweavePrinted.PrintedBlockwise: when some overwritten blocks add too little and others too much, these can cancel, and then it is one way only.
- CptFile.ProcessFile: what the upgrade functions do to the checkpoint, and the rest of the configuration file, are not modelled; applied upgrades are recorded by tag. Line breaks inside a value and references to other options are not resolved.
- CptFile.ProcessTwice: its first if-and-only-if is for tags without semicolons, quotes and parentheses, and with percent signs in registered tags only; with those, the outcome depends on the order in which the set of tags is written.
- CptUpgrader.Upgraders.Add: executing the upgrader file and its attribute defaults are not modelled.
- PortBinder.GatherPortConnections: an object named `Null`, for which the code returns no list, is not modelled.
- PortBinder: parsing port names from text and assigning the object attributes.
- PortBinder.BindSymmetric: requires the symmetric list without self-connections; other lists are covered by `BindPorts` and `HalfCountCheck`.
- MemTree.Builder.MakeCacheLevel: objects are numbered, not built; tester intervals and limits are left out.
- microworkloads/sad_plus.c: the row adder and the reduction, whose steps do not follow their own comments and which start from an uninitialised row.
- gem5/util/protolib.py: the decoding of variable-length numbers, which moves its shift on the last byte only.
- gem5/ext/libelf/elf_hash.c: the symbol hash, a loop over the characters of a name.
- The simulator's configuration scripts other than the three named: construction of simulator objects that are not part of the repository's own logic.
