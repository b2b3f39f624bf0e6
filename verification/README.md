# Steed in Dafny

Steed stores JSON records by column. A record is parsed in place, its fields are matched to a schema tree,
and every leaf of the schema gets items of a repetition level, a definition level and a value. A column's
items are packed bit by bit into blocks of whole records (CABs). A query selects some leaves, reads their
columns in step and rebuilds every record as a nested binary row. This project models that way from text
to row, layer by layer, and joins the layers in two theorems: assembling what was shredded is the projection
on the selected leaves (`RoundTrip.AssembleStriped`), and the same with everything in between, from JSON text
in a buffer over stored files to the bytes of the rows (`TextTable.TextToRows`).

## How the model is built

- `Paths`, `FsmTable`: selected columns as sorted paths; the vectors of shared levels and the transition
  table, filled in the four passes of the source and proved to be a closed form.
- `Records`: a record, the items it leaves in a column (striping, the reference for the shredder), the row that
  a set of columns can express (projection, the reference for the assembler), and the row's bytes.
- `BuildSpec`, `BuildFacts`, `Machine`, `Occurrences`, `Runs`, `RoundTrip`: the record builder as a machine on
  values, the assembling loop as a machine that reads one item a step, and the proof, by induction on the
  record, that it rebuilds the projection.
- `Projection`: what the projected row keeps, and the order of its ids.
- `Layout`, `RecordBuilder`, `Assembler`: the classes that work on a byte buffer, proved to do what the machines do.
- `RowCodec`, `RowReader`: binary structs, written and read back, looked up, and re-opened.
- `Bits`, `BitVector`, `BitResume`, `BoolVector`, `CabFormat`, `CabImage`, `ColumnItems`, `Cab`, `CabWriter`:
  packing, appending, units, merging and blocks.
- `CabReader`, `BlockReader`, `ColumnReader`: reading a file and a block back, seeking a record, and the cursor.
- `JsonTree`, `JsonText`, `JsonTokens`, `JsonParser`, `JsonPrint`: the arena, the in-place parser and its inverse.
- `Schema`, `SchemaTree`, `Typing`, `Striping`, `Shredder`, `Alignment`: the schema tree and its growth, the column
  item generator with its appearance counters, and columns that are created late.
- `ActiveColumns`, `Pipeline`, `ActiveTable`, `ColumnAssembler`, `EndToEnd`, `TextTable`: which columns take part at a
  record, the batches of rows, and the layers joined.
- `Witnesses`: inputs for which the code does less than it intends.

An object whose fields the source updates is a class here, and each of its methods is proved against a function
on values; what the source promises is then proved about the functions.

## Where the code does less than it intends

Each of these is kept as the code has it, with the exact condition under which the intended property holds, and an
input that breaks it.

- A block whose items are all trivial is flushed before its counters are published, unless it is the last one
  (src/steed/store/CABLayouter.cpp:38-51, src/steed/store/CAB.cpp:35). A file gives back its items if and only if no
  earlier block is of that kind (`CabReader.FileBack`), and a seek to a record in such a block never ends
  (`CabReader.SearchHaltsIff`). Nine records without the leaf show both (`SilentBlocks.NineAbsent`,
  `SilentBlocks.FirstTrapped`). The end-to-end theorems ask for columns without such a block.
- A bit vector that was opened for reading computes its next word with swapped arguments
  (src/steed/util/BitVector_inline.h:80, src/steed/util/BitVector_inline.h:124). What then becomes of every bit when
  values are appended, and for which memory the result is right, is `BitResume.AppendedIff`. It is right for all
  values, in memory that is zero up to the next word, if and only if at most 64 bits were in use and their number
  divides 64 or the vector ends before the computed next word (`BitResume.KeepsAllIff`). `BitResume.NinthLost` loses a
  stored value, `BitResume.StaleShown` shows a bit that is not the vector's. With no values at all the computation
  divides by zero; `BitVectors.BitVector.Init2Read` fails there.
- A column that is created inside a record gets items for the elements it has missed. They are the right ones if
  and only if at most one level of the path has earlier elements and none of these contains the path's next node
  (`Alignment.AlignIff`; two records that break it are `Alignment.TwoLevelsWrong` and `Alignment.DeeperContentWrong`).
- The parser asserts before it sees the closing bracket that the element index is below 4096, so arrays hold at most
  4095 elements: a written record is accepted if and only if all its arrays do (`JsonPrint.RecordPrinted`); 4096 elements
  are refused (`LongArrays.LongRefused`).
- A buffer smaller than the configured longest row makes `getNext` report the end of the table before it is doubled
  (src/steed/assemble/ColumnAssembler.cpp:108-124): `ColumnAssembler.ColumnAssembler.GetNext` says exactly when, and
  `SmallBuffers.FirstRowMissed` is a row of 8 bytes that a buffer of 8 bytes does not give.
- After a search has run past the last block, a seek to an earlier record reports the end of the column;
  `ColumnReader.ColumnReader.Prepare2ReadRecord` says exactly which records can be reached, and
  `LostSeeks.SeekBack` loses record 0.

## Modelling choices

- Builders are values in the builder's vectors; a reserved size word is four zero bytes until it is written.
- Memory under packed bits is an array of bits in little-endian order; a unit's value region is a byte array of its own.
- Leaf values are byte strings: of one fixed length, or ended by a NUL. What a data type makes of a value's text is a
  parameter. Lengths are unbounded; a value length of 2^32 - 1 or more has no offset width in the source either.
- What the writer decides from buffer sizes (room left, expected items of a unit) is a parameter, and the results hold
  for every choice. `ColumnReader` and its `CABReader` are one class.
- Missing items behind the end of a column and bytes behind a text read as a stale value and as NUL.

## Model

| member | source | states |
|---|---|---|
| Paths.LcpUnique | src/steed/schema/SchemaPath.h:177-192 | the level of the lowest common ancestor of two paths is the one length at which they agree below and differ above |
| FsmTable.LowestSameLevel | src/steed/schema/SchemaPath.h:177-192 | counting the positions where two paths agree gives the length of their common prefix, because in a tree a node fixes its ancestors |
| FsmTable.AgreeingIsLcp | src/steed/schema/SchemaPath.h:177-192 | for two paths of one tree the number of agreeing positions is the prefix length, for every cut of the paths |
| Paths.Plan.SameMin | src/steed/assemble/FSMTable.h:232-250 | over sorted paths, the level that two columns share is the minimum over the neighbours between them, through any column in between |
| Paths.Plan.CommonMin | src/steed/assemble/FSMTable.h:206-227 | the same for the deepest repeated level that two columns share |
| Paths.Plan.ReptLevelDeepest | src/steed/assemble/FSMTable.cpp:35-78 | the computed level is repeated (or 0) and no deeper level of the path up to the bound is |
| FsmTable.FSMTable.InitCommonLevel | src/steed/assemble/FSMTable.cpp:35-78 | every neighbour entry is the level, and the repeated level, that the column shares with the one before it |
| FsmTable.FSMTable.GetCommonReptLevel | src/steed/assemble/FSMTable.h:206-227 | the fold over neighbours returns the repeated level shared by any two columns |
| FsmTable.FSMTable.GetLowestSameLevel | src/steed/assemble/FSMTable.h:232-250 | the fold over neighbours returns the level shared by any two columns |
| FsmTable.FSMTable.EnterColumns | src/steed/assemble/FSMTable.cpp:84-153 | the pass over earlier columns leaves, at each level it enters, the least column that shares that level |
| FsmTable.FSMTable.FillGaps | src/steed/assemble/FSMTable.cpp:84-153 | the downward pass gives every level the entry of the next entered level above it |
| FsmTable.FSMTable.EraseSingles | src/steed/assemble/FSMTable.cpp:84-153 | the last pass removes exactly the levels at which the column cannot repeat |
| FsmTable.FSMTable.InitTransTable | src/steed/assemble/FSMTable.cpp:84-153 | the four passes give the closed form of every transition: the next column up to the shared repeated level, otherwise the least earlier column that shares the level, otherwise none |
| FsmTable.FSMTable.InitFSMTable | src/steed/assemble/FSMTable.cpp:159-178 | the flat table holds the transition of every column and level |
| FsmTable.FSMTable.Init | src/steed/assemble/FSMTable.h:166-185 | after initialisation the table and the level vectors are those of the plan |
| FsmTable.FSMTable.Get | src/steed/assemble/FSMTable.h:153-154 | a lookup returns the closed-form transition |
| Paths.Plan.FirstLeast | src/steed/assemble/FSMTable.cpp:84-153 | the target of a backward transition shares the level, and no column before it does |
| Paths.Plan.NextBack | src/steed/assemble/FSMTable.cpp:84-153 | inside the columns of a repeated node, the last column goes back to the first one at the node's level |
| Paths.Plan.NextMeans | src/steed/assemble/FSMTable.cpp:84-153 | a transition at a repeated level goes to the next column exactly when that lies below the same array of the schema, and otherwise to the first column below the array; a record that begins goes on to the next column |
| BuildFacts.DescendOpens | src/steed/store/RecordBuilder.cpp:34-127 | moving below a node opens exactly the objects on the way |
| BuildFacts.MoveLeaf | src/steed/store/RecordBuilder.cpp:34-127 | a move to a leaf and its value put the value behind the field's name, or as one more element of its array |
| BuildFacts.LeafIntoArray | src/steed/store/RecordBuilder_inline.h:118-141 | a leaf value becomes the content of the array's last element |
| BuildFacts.CloseFinished | src/steed/store/RecordBuilder_inline.h:212-225 | closing finished levels packages each object and hands its bytes to the member above |
| BuildFacts.FinishArray | src/steed/store/RecordBuilder.cpp:185-232 | returning over an array packages all its elements, with an empty one for an element that received nothing |
| BuildFacts.CloseElemNext | src/steed/store/RecordBuilder.cpp:185-232 | returning to the next element of an array keeps the elements so far and opens a new one |
| Machine.RemainingPop | src/steed/assemble/RecordNestedAssembler.cpp:48-122 | every item that is read makes the number of unread items smaller, so the loop ends |
| Occurrences.HopBack | src/steed/assemble/RecordNestedAssembler.cpp:48-122 | with the next item repeating at a node's level, the machine goes from the node's last column to its first one and stays at that level |
| Occurrences.HopForward | src/steed/assemble/RecordNestedAssembler.cpp:48-122 | with the next item not repeating inside, the machine goes on to the next column at the level both share |
| Runs.RunElem | src/steed/assemble/RecordNestedAssembler.cpp:48-122 | reading the columns below one occurrence of a node consumes exactly its items and builds exactly its row |
| Runs.RunElems | src/steed/assemble/RecordNestedAssembler.cpp:48-122 | the elements of an array, from any one on, are read in order and appended |
| Runs.RunMembers | src/steed/assemble/RecordNestedAssembler.cpp:48-122 | the members of an object are read child by child, present or absent, and only present ones appear |
| RoundTrip.AssembleStriped | src/steed/assemble/RecordNestedAssembler.cpp:35-138 | shred and assemble is the projection: for every sorted set of columns and every record that fits the schema, assembling the striped items gives the bytes of the projected record, fails no assertion, takes no undefined transition, reads every item of the record once, and stops with all columns at their next record |
| RoundTrip.AssembleTable | src/steed/assemble/ColumnAssembler.cpp:106-141 | the same for a whole table: the rows are the projections of the records in order |
| RoundTrip.StripeAllAtRecord | src/steed/assemble/RecordNestedAssembler.cpp:118-138 | between records every column stands at a record's first item |
| Projection.RestripeRecord | src/steed/assemble/RecordNestedAssembler.cpp:35-138 | the projected row keeps all that the selected columns hold: read as a record again it fits the same schema and leaves the same items in every selected column |
| Projection.MemberOf | src/steed/store/RecordBuilder.cpp:133-179 | a selected node's member is in the row exactly when the record has it, with the projection of its content |
| Projection.ProjectSorted | src/steed/store/RecordBuilder.cpp:133-179 | every object in a row, at any depth, has strictly growing field ids |
| Projection.MembersExact | src/steed/store/RecordBuilder.cpp:133-179 | an id is in a projected object if and only if it is selected and the record has the member |
| Projection.LookupMember | src/steed/store/RowObjectOperator.h:142-148 | looking an id up in an assembled record finds it if and only if it is selected and present, and then at the bytes of its projected content |
| Layout.BytesConserved | src/steed/store/RecordBuilder_inline.h:118-301 | at every point of a run, the bytes that the buffer has grown are the open size words, the accounted value lengths and the pending struct |
| Layout.PackagedStruct | src/steed/store/RowStructBuilder_inline.h:72-82 | packaging in place leaves the bytes of a whole struct where its size word was reserved |
| Layout.StepPackArray | src/steed/store/RecordBuilder_inline.h:241-270 | packaging an array in the buffer represents packaging it in the abstract builder |
| Layout.StepPackObject | src/steed/store/RecordBuilder_inline.h:274-287 | packaging an object in the buffer represents packaging it in the abstract builder |
| Layout.LevelOpened | src/steed/store/RecordBuilder_inline.h:83-93 | opening an object reserves its size word and keeps every lower level where it was |
| RecordBuilder.RecordBuilder.Begin2Build | src/steed/store/RecordBuilder_inline.h:82-91 | an idle builder starts with one open object behind what is in the buffer |
| RecordBuilder.RecordBuilder.Move2Level | src/steed/store/RecordBuilder.cpp:34-127 | a move that fails no assertion does in the buffer what the abstract move does |
| RecordBuilder.RecordBuilder.AppendField2Struct | src/steed/store/RecordBuilder.cpp:133-179 | a new member, or the same one again with its array opened once |
| RecordBuilder.RecordBuilder.AppendElement2Array | src/steed/store/RecordBuilder_inline.h:98-111 | one more element, with the one before it complete |
| RecordBuilder.RecordBuilder.AppendLeaf | src/steed/store/RecordBuilder_inline.h:118-140 | a leaf value goes to the last element or member and is accounted once |
| RecordBuilder.RecordBuilder.Return2Level | src/steed/store/RecordBuilder_inline.h:147-207 | does in the buffer what the abstract return does |
| RecordBuilder.RecordBuilder.Return2BuildObject | src/steed/store/RecordBuilder_inline.h:212-224 | packages the levels above the target and keeps the last struct pending |
| RecordBuilder.RecordBuilder.Return2BuildArray | src/steed/store/RecordBuilder.cpp:185-232 | closes an element and, when the next one begins, leaves a hole for it |
| RecordBuilder.RecordBuilder.PackageArray | src/steed/store/RecordBuilder_inline.h:241-269 | the open array becomes the pending struct |
| RecordBuilder.RecordBuilder.PackageObject | src/steed/store/RecordBuilder_inline.h:274-286 | the open object becomes the pending struct and its level is gone |
| RecordBuilder.RecordBuilder.End2Build | src/steed/store/RecordBuilder_inline.h:291-300 | the returned size is that of the packaged record, which is what the buffer has grown by |
| Assembler.RecordNestedAssembler.GetCommonLevel | src/steed/assemble/RecordNestedAssembler.h:187-218 | the level to return to, from the table, is the one the machine returns to |
| Assembler.RecordNestedAssembler.Reinit | src/steed/assemble/RecordNestedAssembler.h:163-182 | a change of columns gives the table and the builder of the new columns |
| Assembler.RecordNestedAssembler.TakeItem | src/steed/assemble/RecordNestedAssembler.cpp:52-80 | one turn reads the column's next item and moves the builder as the machine does |
| Assembler.RecordNestedAssembler.MoveOn | src/steed/assemble/RecordNestedAssembler.cpp:82-122 | the table lookup and the return lead where the machine jumps |
| Assembler.RecordNestedAssembler.Turns | src/steed/assemble/RecordNestedAssembler.cpp:48-122 | the loop over readers and buffer reaches the machine's outcome |
| Assembler.RecordNestedAssembler.Assemble | src/steed/assemble/RecordNestedAssembler.cpp:35-138 | the buffer grows by exactly the machine's row, the readers stand behind the record, and the size check at the end never fails |
| Bits.UsedBitsLeast | src/steed/util/Utility.h:58-64 | the computed number of bits is the least that holds the value |
| Bits.BytesLeast | src/steed/util/Utility.h:71-73 | the computed number of bytes is the least that holds the bits |
| Bits.AlignBeginIff | src/steed/util/Utility.h:101-103 | the aligned begin is the one multiple that is at most the number and less than the alignment in front of it |
| Bits.CalcUsedBitNum | src/steed/util/Utility.h:58-64 | the shifting loop counts the bits of a value |
| Bits.PackElement | src/steed/util/BitVector_inline.h:171-195 | element i of packed values is the i-th value |
| Bits.PackedBit | src/steed/util/BitVector_inline.h:171-223 | in memory, bit k of the i-th value is the bit w * i + k, counted from the least significant bit of the first byte |
| Bits.PackConcat | src/steed/util/BitVector_inline.h:199-223 | packing two sequences one after the other is packing their concatenation |
| Bits.OctetsConcat | src/steed/store/CAB.cpp:89-114 | bit strings of whole bytes concatenate byte by byte |
| Bits.BitsOfOctets | src/steed/store/CAB.cpp:89-114 | the bytes of a bit string give the bits back, padded |
| BitVectors.BitVector.Init2Write | src/steed/util/BitVector_inline.h:87-101 | an empty vector over bytes that are all cleared, and nothing else changes |
| BitVectors.BitVector.Init2Read | src/steed/util/BitVector_inline.h:105-127 | a vector that reads the values packed in its memory, with the next word as the code computes it; it fails exactly when the values do not fit or, because of a division by zero, when there are none |
| BitVectors.BitVector.CopyContent | src/steed/util/BitVector_inline.h:131-150 | the whole bytes in use of another vector, with its values, counters and next word; refused, with nothing changed, exactly when that one is larger |
| BitVectors.BitVector.Get | src/steed/util/BitVector_inline.h:171-195 | reads the i-th value for every i, across unit boundaries |
| BitVectors.BitVector.Set | src/steed/util/BitVector_inline.h:154-167 | changes its own value and nothing else, and no bit outside the vector |
| BitVectors.BitVector.Append | src/steed/util/BitVector_inline.h:199-223 | in a vector that was opened for writing: adds the value behind the others and changes no earlier one; in memory of any content: what becomes of every bit, and of the next word; never a bit outside the capacity |
| BitResume.OpenedIff | src/steed/util/BitVector_inline.h:204-220 | which append opens the c-th word: the first whose value ends behind the words before it, but no earlier than the c-th append |
| BitResume.AppendsBit | src/steed/util/BitVector_inline.h:199-250 | every bit of a vector after any number of appends, for every memory, capacity and place of the next word |
| BitResume.AppendedIff | src/steed/util/BitVector_inline.h:199-250 | any number of appends gives the packed values, stored and new, if and only if no bit that is set is cleared after it was put there and, behind the stored values, no bit of the memory shows through where nothing is cleared |
| BitResume.KeepsAllIff | src/steed/util/BitVector_inline.h:105-127 | appending behind values that were read is right whatever the values are, in memory that is zero up to the next word, if and only if at most 64 bits were in use and their number divides 64 or the vector ends before the computed next word |
| BitResume.NinthLost | src/steed/util/BitVector_inline.h:105-127 | nine values 255 of eight bits are opened for reading and a tenth is appended: the ninth then reads as 0 |
| BitResume.StaleShown | src/steed/util/BitVector_inline.h:105-127 | eight values of eight bits are opened for reading in front of a set bit and a zero is appended: it reads as 1 |
| BoolVectors.FirstSetRight | src/steed/util/BoolVector.cpp:30-61 | the table of first set bits holds the lowest set bit of every number |
| BoolVectors.PopCountRight | src/steed/util/BoolVector.cpp:64-88 | the table of counts holds the number of set bits of every number |
| BoolVectors.BoolVector.GetNextSetBit | src/steed/util/BoolVector.cpp:108-140 | returns the first set bit at or behind an index among the bits in use, or none exactly when none is set |
| BoolVectors.BoolVector.GetPopCount | src/steed/util/BoolVector.cpp:143-168 | returns the number of set bits in a range, up to the last bit in use by default |
| BoolVectors.BoolVector.SetBitByRange | src/steed/util/BoolVector_inline.h:45-96 | sets the bits of the range and no other bit of the memory; an empty range or one past the bits in use is refused without a change |
| BoolVectors.BoolVector.ClearBitByRange | src/steed/util/BoolVector_inline.h:101-152 | the same for clearing |
| BoolVectors.CountDecides | src/steed/util/BoolVector.h:130-142 | comparing the count of a range decides whether all, or any, of its bits are set |
| CabFormat.DecodeEncode | src/steed/base/RepetitionType.h:94-148 | every repetition level that a column can have survives its encoding in 0, 1 or full bits, and 0 is kept apart from the others |
| CabFormat.NoneRepeated | src/steed/store/CABOperator.h:123-147 | a level that a column can have is at most its deepest repeated level, and is that level when only one node of the path repeats |
| CabFormat.LevelWidths | src/steed/store/CABOperator.h:123-147 | a repetition level takes no bit in a column without repeated nodes, one bit with a single one, and otherwise the least number of bits that hold the deepest repeated level; a definition level takes the least number that hold the depth |
| CabFormat.StoredLevel | src/steed/base/RepetitionType.h:94-148 | with a single repeated node a level is stored as 1 when it repeats and as 0 when it does not; otherwise as it is |
| CabFormat.CountedFacts | src/steed/store/CABItemInfo.h:94-102 | a block's counters are the number of items, of records and of items that carry something |
| CabFormat.CountedExact | src/steed/store/CABItemInfo.h:91-101 | the counters of a block are the numbers of its items, of those without a value and of those with both levels 0 |
| CabFormat.TypeFacts | src/steed/store/CABItemInfo.h:81-89 | the block type is crucial exactly when some item has a value, and trivial exactly when every item is |
| CabImage.ReadBack | src/steed/store/ColumnItemArray_inline.h:114-153 | every item of a stored block, of any type and for fixed and variable-length leaves, reads back as it was written |
| CabImage.StoredLength | src/steed/store/CAB.cpp:33-88 | the length of a stored block: each kind of levels in the least number of whole bytes, and where values are stored a place for each, or four bytes for each offset and the bytes of the texts; nothing for a silent block |
| CabImage.OffsetWord | src/steed/base/BinaryValueArray_inline.h:254-262 | the offset of a text is the length of the texts before it, and 2^32 - 1 for a missing value |
| CabImage.LevelsBack | src/steed/store/ColumnItemArray_inline.h:241-269 | repetition and definition levels read back from the packed segments |
| CabImage.FixedBack | src/steed/base/BinaryValueArray_inline.h:119-123 | a fixed-length value lies at its index |
| CabImage.TextValueBack | src/steed/base/BinaryValueArray_inline.h:317-323 | the offset of a text leads to its bytes up to the NUL |
| ColumnItems.ValueArray.WriteNull | src/steed/base/BinaryValueArray_inline.h:344-420 | a missing value takes the invalid offset, or a null value's place |
| ColumnItems.ValueArray.WriteValue | src/steed/base/BinaryValueArray_inline.h:344-385 | a value goes behind the others, into a new buffer when the current one is full, and its offset is the bytes before it |
| ColumnItems.ColumnItemArray.constructor | src/steed/store/ColumnItemArray_inline.h:85-107 | the level vectors and values of an empty array lie side by side in one buffer |
| ColumnItems.ColumnItemArray.Write | src/steed/store/ColumnItemArray_inline.h:276-364 | one more item with its levels and value, or no change when there is no room |
| Cabs.SegmentConcat | src/steed/store/CAB.cpp:89-114 | for units of whole bytes, the segments of two units one after the other are the segment of all their items, with offsets rebased |
| Cabs.CAB.CreateMinorUnit | src/steed/store/CAB_inline.h:311-349 | the units so far are kept, and an empty one takes over whose capacity is the least multiple of 8 for the expected items |
| Cabs.CAB.Write | src/steed/store/CAB_inline.h:219-300 | adds the item to the block and counts it, or refuses it exactly when a new record finds the block full |
| Cabs.CAB.MergeSegment | src/steed/store/CAB.cpp:89-114 | one segment of all units equals the segment of all items as one array |
| Cabs.CAB.Merge2Buffer | src/steed/store/CAB.cpp:32-83 | the merged bytes are those of the whole block as one array |
| Cabs.CAB.GetMergedUsed | src/steed/store/CAB_inline.h:131-199 | the announced number of bytes is the length of the merged bytes |
| Cabs.MergedIsStored | src/steed/store/CAB.cpp:32-83 | the merged bytes of a block are what the reader expects for its items |
| CabWriter.BlocksAligned | src/steed/store/CAB.h:208-209 | for all runs: no item is lost, a record never spans two blocks, every block in front of the last holds exactly its capacity of records, and every block begins with a record |
| CabWriter.RecordsBefore | src/steed/store/CABWriter_inline.h:50-83 | block k begins with record k times the capacity |
| CabWriter.CABWriter.constructor | src/steed/store/CABWriter.cpp:31-80 | an empty column whose records are counted from the block boundary at or below the given record |
| CabWriter.CABWriter.Write | src/steed/store/CABWriter.cpp:101-168 | the item goes behind all earlier ones; a full block is flushed first; the record count is the aligned begin plus the records written |
| CabWriter.CABWriter.Flush | src/steed/store/CABWriter.cpp:213-259 | the file grows by the block's bytes and its directory entry |
| CabWriter.CABWriter.Close | src/steed/store/CABWriter_inline.h:34-45 | the finished file is that of all items written |
| BlockReaders.BlockReader.constructor | src/steed/store/ColumnItemArray_inline.h:114-153 | the two vectors of a loaded block are opened for reading where the block has them |
| BlockReaders.BlockReader.Read | src/steed/store/ColumnItemArray_inline.h:241-269 | reading an item from the block's memory through the bit vectors gives the item that the block's bytes stand for, with the level of the item behind it |
| BlockReaders.PackUnpacked | src/steed/util/BitVector_inline.h:171-195 | reading all values out of a bit string and packing them again gives the bits back |
| BlockReaders.PublishedReads | src/steed/store/CAB_inline.h:361-376 | every block of a file can be opened for reading, and unless it is silent its items read back as they were written |
| CabReader.FileBack | src/steed/store/CABLayouter.cpp:38-51 | a file gives back every item, in order, if and only if no block in front of the last is made only of trivial items: such a block is flushed before its counters are published |
| SilentBlocks.NineAbsent | src/steed/store/CABLayouter.cpp:38-51 | nine records without the leaf, in blocks of eight, can be written and are not read back |
| CabReader.FileDirectory | src/steed/store/CABReader_inline.h:103-221 | the directory of every written file has contiguous blocks, except for the counters of silent ones |
| CabReader.SearchHaltsIff | src/steed/store/CABReader_inline.h:196-221 | the search for a record's block ends if and only if the record does not fall into a silent block in front of the last |
| SilentBlocks.FirstTrapped | src/steed/store/CABReader_inline.h:196-221 | in the file of these nine records the search for the first one does not end, from whatever block it starts |
| ColumnReader.SkipFinds | src/steed/store/CABReader_inline.h:131-151 | skipping n records stops at the n-th item with repetition level 0, or at the end |
| ColumnReader.ColumnReader.GetRecdRange | src/steed/store/CABReader_inline.h:103-126 | the range of a record ends at the next item with level 0 |
| ColumnReader.ColumnReader.SkipRecds | src/steed/store/CABReader_inline.h:131-151 | the loop returns the index that skipping whole records reaches |
| ColumnReader.ColumnReader.CalcCABIndex | src/steed/store/CABReader_inline.h:196-204 | the search ends at the block whose directory entry counts the record, and fails exactly when no entry does or the start lies outside |
| ColumnReader.ColumnReader.LoadCAB4Record | src/steed/store/ColumnReader_inline.h:80-92 | loads the block of the record when it is not the current one |
| ColumnReader.ColumnReader.Prepare2ReadRecord | src/steed/store/ColumnReader_inline.h:99-121 | stands at the record's first item exactly when the record can be reached from here |
| ColumnReader.ColumnReader.ReadItem | src/steed/store/ColumnReader_inline.h:128-133 | returns the item under the cursor and the level of the next one, and keeps the record index in step with the item index |
| LostSeeks.SeekBack | src/steed/store/CABReader_inline.h:196-221 | a new reader finds record 0; another one that was first asked for a record behind the last block does not |
| Striping.RecordItems | src/steed/parse/ColumnItemGenerator.cpp:34-223 | every record gives every leaf column one or more items: exactly the first has level 0, every level is 0 or that of a repeated node, repetition <= definition <= depth, and a value is there exactly at full depth |
| SchemaTrees.SchemaTree.AddNode | src/steed/schema/SchemaTree_inline.h:148-170 | over all runs a node's field id is its index; a new node has the given name, type and category one level below its parent, which lists it last; its path is its parent's and itself, and no other node or path changes |
| SchemaTrees.LookupAdded | src/steed/parse/ColumnItemGenerator.cpp:229-274 | after a field that was not found has been added, it is found at the new node, and every field that was found before is found at the same node as before |
| SchemaTrees.SchemaTree.UpdateSchema | src/steed/parse/ColumnItemGenerator.cpp:229-274 | finds a field's node or adds it with the field's key, type and category; afterwards the field is found, and every earlier successful look-up still gives its node |
| Schema.LookupIff | src/steed/parse/ColumnItemGenerator.cpp:229-251 | a field belongs to the child with its name, type and category, or, when it is a repeated array that has none, to the child for indexed arrays of that name, and to no other node |
| SchemaTrees.ExtendedValid | src/steed/schema/SchemaTree_inline.h:148-170 | adding a node that its parent does not have yet keeps parents before children and every node listed once |
| Schema.PathThrough | src/steed/schema/SchemaTree_inline.h:92-106 | the paths of the tree's nodes continue the paths of their ancestors |
| Typing.TypedConforms | src/steed/parse/ColumnItemGenerator.cpp:229-274 | a record whose fields the schema knows fits it along every leaf path |
| Typing.KindOf | src/steed/parse/JSONBinTree.h:212-237 | an array is looked up as repeated exactly when it has elements and all are of one type, and then by their data type; any other array is an indexed one |
| Typing.FieldShape | src/steed/parse/ColumnItemGenerator_inline.h:96-141 | a field's content has the elements of a repeated array where its node is one for arrays; a leaf's text where it has no children; and is an object otherwise |
| Typing.MemberIff | src/steed/parse/ColumnItemGenerator.cpp:32-77 | a node has a member exactly when one of the fields that belong to it is neither null nor an object or array without elements |
| Typing.PrunedMembers | src/steed/parse/ColumnItemGenerator.cpp:32-77 | at every object the members are those of the object without its members that are null, {} or [] |
| Shredder.RecordPruned | src/steed/parse/ColumnItemGenerator.cpp:32-77 | a record leaves the same items in every column as the record without its members that are null, {} or [] |
| Shredder.ColumnItemGenerator.CheckChildAppeared | src/steed/parse/ColumnItemGenerator.cpp:186-223 | every leaf below a child that did not appear gets one null, and all counters below the node are cleared |
| Shredder.ColumnItemGenerator.GenerateByField | src/steed/parse/ColumnItemGenerator.cpp:34-81 | an object adds to every leaf column below its node what striping gives |
| Shredder.ColumnItemGenerator.GenerateByNaiveArray | src/steed/parse/ColumnItemGenerator.cpp:87-124 | the elements of an array add their items, the first at the inherited level and the others at the array's |
| Shredder.ColumnItemGenerator.Generate | src/steed/parse/ColumnItemGenerator_inline.h:57-137 | the dispatch on the field's type adds what striping gives for its content |
| Shredder.ColumnItemGenerator.GenerateRecord | src/steed/parse/ColumnItemGenerator_inline.h:57-91 | a record adds to every leaf column exactly its striping, and every counter is back at zero |
| Alignment.AlignColumnWriter | src/steed/parse/CollectionWriter.cpp:72-130 | a column created in record k starts at the block boundary at or below k and holds exactly k minus that boundary trivial items; the current record's items go to the text buffer |
| Alignment.BeforePrefix | src/steed/parse/CollectionWriter.cpp:100-126 | the reference: the items that striping gives in front of the leaf's first occurrence, and the level that is due there |
| Alignment.AlignIff | src/steed/parse/CollectionWriter.cpp:100-126 | the items put in for the current record are those of striping if and only if at most one level of the path has earlier elements and none of these has the path's next node |
| Alignment.TwoLevelsWrong | src/steed/parse/CollectionWriter.cpp:100-126 | a record with two repeated levels for which they differ |
| Alignment.DeeperContentWrong | src/steed/parse/CollectionWriter.cpp:100-126 | a record with one repeated level, whose earlier element has the next node, for which they differ |
| ActiveColumns.AssembleColumn.constructor | src/steed/assemble/AssembleColumn.h:115-140 | no column is current, every valid record index is queued once and in order, and the depth covers all paths |
| ActiveColumns.AssembleColumn.Need2Update | src/steed/assemble/AssembleColumn.h:147-155 | true exactly when a column has become valid since the last call |
| ActiveColumns.AssembleColumn.UpdateColumn | src/steed/assemble/AssembleColumn.h:162-181 | the current columns are those valid at the record, in path order |
| ActiveColumns.AssembleColumn.Prepare | src/steed/assemble/ColumnAssembler.cpp:145-152 | at every record, whatever was asked before, the current columns are exactly those valid at it, and the assembler is told exactly when they change |
| ActiveColumns.AssembleActive | src/steed/assemble/ColumnAssembler.cpp:145-172 | assembling the columns that are valid at a record gives its projection on them |
| RowReader.HeaderBack | src/steed/store/RowStructOperator.h:134-173 | size word, element number and offset width of a packaged struct read back |
| RowReader.OffsetFits | src/steed/store/RowInfo.h:183-206 | every offset fits the width that the length of all values selects |
| RowReader.StructLength | src/steed/store/RowInfo.h:183-206 | a packaged struct has a size word, its values, two bytes for an id, an offset for every element in 1 byte up to 255 bytes of values, in 2 bytes up to 65535 and in 4 bytes above, and one more word |
| RowReader.StructWords | src/steed/store/RowInfo.h:56-170 | the first word of a struct is its size and the last one its number of elements, with the flag 1, 2 or 3 for the offset width in the two high bits |
| RowReader.OffsetAt | src/steed/store/RowStruct_inline.h:76-88 | offset i is the length of the values before it, at each of the three widths |
| RowReader.RowIdAt | src/steed/store/RowObjectOperator.h:131-137 | id i of an object reads back |
| RowReader.ElementBack | src/steed/store/RowStruct_inline.h:92-96 | the bytes at element i, with the size the reader computes, are its value; an object's last size still has the ids in it |
| RowReader.EncodeShown | src/steed/store/RowObjectOperator.h:131-163 | for any nesting of objects and arrays, anywhere in a buffer, the getters show the row that was packaged: counts, ids, offsets and value slices without the ids |
| RowReader.LookupID | src/steed/store/RowObjectOperator.h:142-148 | over growing ids the binary search finds an id if and only if it is there |
| RowReader.Reopen | src/steed/store/RowObjectOperator.h:168-193 | the loop recovers ids and offsets, the value length and the buffer without the trailer |
| RowReader.ReopenHolds | src/steed/store/RowObjectOperator.h:168-193 | what is recovered from a packaged object is what its builder held |
| RowReader.ReopenAppendPackage | src/steed/store/RowStructBuilder_inline.h:60-82 | re-opening an object, appending members and packaging it again gives the bytes of packaging all members at once |
| JsonTrees.JSONBinTree.GetNextChild | src/steed/parse/JSONBinTree.h:117-135 | the child is clean, new or left by an earlier record, and only the parent changes |
| JsonTrees.JSONBinTree.Clear | src/steed/parse/JSONBinTree.h:100-112 | no node belongs to a record any more, and all children stay for the next one |
| JsonTrees.SiblingKept | src/steed/parse/JSONBinTree.h:117-135 | what is built below one child leaves the trees of its siblings alone |
| JsonText.ValueEnds | src/steed/parse/JSONRecordNaiveParser.cpp:162-205 | every NUL of a value lies behind its first character and at the latest where the next token begins |
| JsonTokens.TokensIntact | src/steed/parse/JSONRecordNaiveParser.cpp:35-205 | no NUL destroys a token: the tree read through the overwritten text shows exactly the keys and values of the source |
| JsonParser.JSONRecordNaiveParser.SkipWhitespace | src/steed/parse/JSONRecordNaiveParser.h:82-91 | stops at the next token, and reports the end of the text |
| JsonParser.JSONRecordNaiveParser.SkipString | src/steed/parse/JSONRecordNaiveParser.h:96-115 | stops behind the closing quote, over escaped characters |
| JsonParser.JSONRecordNaiveParser.SkipNumber | src/steed/parse/JSONRecordNaiveParser.h:120-139 | stops behind the last character of a number, and reports the end of the text exactly when that is there |
| JsonParser.JSONRecordNaiveParser.SkipChars | src/steed/parse/JSONRecordNaiveParser.h:162-172 | skips the given number of characters unless the text ends |
| JsonParser.JSONRecordNaiveParser.ParseValue | src/steed/parse/JSONRecordNaiveParser.cpp:162-205 | on accepted text: the node's tree is that of the value, the buffer has a NUL behind each of its tokens and nothing else changed, and the delimiter was read before it was overwritten; on any text: only nodes below the given one change |
| JsonParser.JSONRecordNaiveParser.ParseObject | src/steed/parse/JSONRecordNaiveParser.cpp:35-102 | on accepted text the members become the node's children in order, and the cursor stands behind the brace |
| JsonParser.JSONRecordNaiveParser.ParseArray | src/steed/parse/JSONRecordNaiveParser.cpp:109-156 | the same for elements, keyed by their index |
| JsonParser.JSONRecordNaiveParser.Parse | src/steed/parse/JSONRecordNaiveParser.h:46-47 | a record parsed into a cleared arena, whatever earlier records left there and in the buffer, shows its own keys and values; the text behind it is untouched |
| JsonPrint.TokenTyped | src/steed/parse/JSONType.h:70-92 | the first character tells the type of every token: a quoted one is a string, one of digits a number, and true, false and null are themselves |
| JsonPrint.ValueBegins | src/steed/parse/JSONRecordNaiveParser.cpp:163-205 | a value is read only where a brace, a bracket, a quote, a digit, a minus sign or one of the letters t, f and n begins it |
| JsonPrint.TokenExact | src/steed/parse/JSONRecordNaiveParser.h:81-91 | in front of a token exactly the blanks are skipped: space, tab, line feed, vertical tab, form feed, carriage return |
| JsonPrint.NumberExact | src/steed/parse/JSONRecordNaiveParser.h:119-139 | a number goes on over digits, signs, the point and the exponent letter, and over nothing else |
| JsonPrint.RecordPrinted | src/steed/parse/JSONRecordNaiveParser.cpp:35-205 | parsing inverts writing: a record of any shape with any white space is accepted if and only if every array has fewer than 4096 elements, and then gives back its keys, values, the type of every value, and nesting |
| LongArrays.LongRefused | src/steed/parse/JSONRecordNaiveParser.cpp:105-160 | a written record with an array of 4096 elements is refused |
| JsonPrint.ParsePrinted | src/steed/parse/JSONRecordNaiveParser.cpp:35-205 | the in-place parser on a written record: the tree shows the keys, tokens, types and nesting that were written |
| Pipeline.Locate | src/steed/store/CABReader_inline.h:131-151 | the item that begins record r stands where the items of the records before it end |
| Pipeline.RecordInBlock | src/steed/store/CAB.h:208-209 | in its block, the items of a record are followed by nothing or by the next record |
| Pipeline.RecordsCounted | src/steed/store/CABReader_inline.h:196-221 | the directory counts exactly the records of the column |
| Pipeline.PrepareColumnReader | src/steed/assemble/ColumnAssembler.cpp:154-162 | all current columns go to the record, or the table has no such record |
| Pipeline.AssembleRecord | src/steed/assemble/ColumnAssembler.cpp:106-141 | the buffer grows by the projection of the record and every reader is in front of the next one; behind the last record nothing changes |
| ColumnAssembler.ColumnAssembler.BufferMore | src/steed/assemble/ColumnAssembler.cpp:106-141 | the buffer gets the next rows in order, never more than its capacity, and none exactly when the table is at its end or a row might not fit |
| ColumnAssembler.ColumnAssembler.GetNext | src/steed/assemble/ColumnAssembler.cpp:81-102 | over all calls the rows of the table are handed out once each and in order, at the begin that is returned; 0 is returned if and only if no buffered row is left and either all rows were handed out or the buffer is smaller than the configured longest row |
| SmallBuffers.FirstRowMissed | src/steed/assemble/ColumnAssembler.cpp:81-124 | a table of one row that fits its buffer of 8 bytes: with the longest row configured to 16 bytes it seems to be at its end before the row was given |
| ColumnAssembler.RowLength | src/steed/assemble/ColumnAssembler.cpp:98-101 | an assembled row begins with its own length, which leads to the next row |
| Pipeline.AssembleTable | src/steed/assemble/ColumnAssembler.cpp:106-141 | assembling stored files to their end gives the projections of all records in order |
| Pipeline.StoreColumn | src/steed/parse/CollectionWriter.cpp:33-66 | writing all items of a column gives its file, however units and buffers grow |
| Pipeline.StoreAndAssemble | src/steed/assemble/ColumnAssembler.cpp:106-172 | storing shredded columns and assembling the files gives the projections of all records in order |
| ActiveTables.UpdateColumns | src/steed/assemble/ColumnAssembler.cpp:147-152 | in front of every record the assembler works with exactly the columns that are valid at it |
| ActiveTables.AssembleNext | src/steed/assemble/ColumnAssembler.cpp:145-172 | at a record the valid columns are prepared and assembled: the buffer grows by the projection on them, and the readers of columns that are not valid yet are left alone |
| ActiveTables.AssembleLate | src/steed/assemble/ColumnAssembler.cpp:106-172 | a stored table whose columns become valid at different records, each file beginning with its own first block: every row is the projection on the columns that are valid at its record |
| ActiveTables.StoreAndAssembleLate | src/steed/assemble/ColumnAssembler.cpp:106-172 | the same from the shredded items: every column is written from the first record of the block in which its leaf was created, read back and assembled |
| EndToEnd.SelectedPlan | src/steed/assemble/ColumnAssembler.cpp:57-61 | the sorted paths of distinct leaves of a schema tree are a proper set of columns |
| EndToEnd.ShredAll | src/steed/parse/ColumnItemGenerator_inline.h:57-91 | the records of a table leave in every leaf column their items one after the other |
| EndToEnd.ShredStoreAssemble | src/steed/assemble/ColumnAssembler.cpp:106-172 | parsed records in, rows out: shred, store in blocks, read back and assemble is the projection, record by record |
| TextTable.ElementKey | src/steed/parse/JSONRecordParser.cpp:35-48 | the key of an array's element is its index in decimal |
| TextTable.WrittenKey | src/steed/schema/SchemaTree_inline.h:215-221 | the key of a written member is what stands between its quotes |
| TextTable.WrittenToken | src/steed/parse/JSONTypeMapper.cpp:38-57 | a written string becomes a string leaf, a number a double, true and false a boolean, each with the token's text, and null a field that holds nothing |
| TextTable.WrittenStruct | src/steed/parse/JSONRecordNaiveParser.cpp:35-155 | a written object or array becomes an object or array field with one child for every part |
| TextTable.ParseBatch | src/steed/parse/ColumnParser_inline.h:128-185 | a batch of written records in one buffer, parsed in one reused arena, gives the records that were written |
| TextTable.TextToRows | src/steed/assemble/ColumnAssembler.cpp:106-172 | JSON text in, rows out: parse, shred, store, read back and assemble gives the projections of the written records on the selected leaves |

## Left out

- `JsonParser.JSONRecordNaiveParser.ParseObject`: on text that is not accepted the contract says which nodes can change and
  that the cursor does not go back, not which error code is returned; `abort` and a failed assertion are a return of -1.
- `TextTable.TextToRows`: asks for records the schema already knows, for rows below 4 GiB, and for columns without a silent
  block in front of the last; columns that are created on the way are covered by `Alignment` and `ActiveTable`.
- `EndToEnd.ShredStoreAssemble`: as `TextTable.TextToRows`, from parsed records on.
- `EndToEnd.ShredAll`: asks for records whose fields the schema knows, as the next four do; a field that is new goes
  through `SchemaTrees.SchemaTree.AddNode` and `Alignment.AlignColumnWriter`, which are not joined with these.
- `Shredder.ColumnItemGenerator.GenerateRecord`: asks for fields that the schema knows.
- `Shredder.ColumnItemGenerator.Generate`: asks for fields that the schema knows.
- `Shredder.ColumnItemGenerator.GenerateByField`: asks for fields that the schema knows, each at most once in an object.
- `Shredder.ColumnItemGenerator.GenerateByNaiveArray`: asks for elements with fields that the schema knows.
- `Pipeline.StoreAndAssemble`: asks for columns without a silent block in front of the last.
- `Pipeline.AssembleTable`: the columns are valid from record 0 on; other tables are `ActiveTables.AssembleLate`.
- `ActiveTables.StoreAndAssembleLate`: asks for one column that is valid from record 0 on, and takes the items of a late
  column as striping gives them; that the items before the leaf's first record are these is `Alignment.AlignIff`.
- `RecordBuilder.RecordBuilder.Move2Level`: asks for a move that fails no assertion; assembling never makes another
  (`RoundTrip.AssembleStriped`).
- `TextTable.ParseBatch`: uses one arena for all records of a batch, where the source keeps one for each slot and clears it
  after its record has been shredded.
- `ColumnItems.ValueArray.WriteValue`: models the chain of value buffers, not the growth factor that sizes the next unit.
- `BoolVectors.BoolVector.GetNextSetBit`: bytes are words of 8 bits; the other word-wise operations of the class (flip, merge) are
  bytewise maps and are left out.
- Files, directories, buffers on disk and configuration: a file is the sequence of blocks flushed to it.
- The LZ4 compressor: only the empty compressor is ever selected.
- Appending to an existing table (`CABAppender`): it rests on the next-word computation above.
- Matrix arrays, arrays of nulls and schema templates: unfinished in the source. Indexed arrays are objects keyed by index.
- `createNode` is modelled through the node it adds and the column it aligns; the node arrays that it enlarges are not.
- Value statistics, bloom filters, appearance statistics and debug output.
- Number formatting, floating point and regular expressions: a leaf value is its bytes.
- 32-bit wrap-around of lengths and 16-bit overflow of field ids: sizes are bounded where a row or a file is read back.
