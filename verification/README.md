# CoreFoundation containers and codecs

Dafny models, with proofs, of the algorithmic parts of the CoreFoundation sources that the
repository carries under `CF-1153.18`:

- **Binary property lists** (`Plist*.dfy`). The writer flattens an object graph into an indexed
  list, streams it through a fixed buffer while recording offsets, and appends an offset table and
  a trailer. The reader validates the trailer and decodes recursively with a per-offset cache and a
  path set. `PlistFormat` says what bytes stand for, independently of both; the reader decides
  exactly that, and the writer produces files that stand for what was written.
  `PlistMarkers` gives the reading of each marker byte in numbers.
- **The array** (`Array*.dfy`). A centred deque whose repositioning chooses among four ways of
  moving values; every mutation is a splice of a sequence with an exact log of retains and releases.
- **The hash table** (`Hash*.dfy`). Open addressing with linear, double or exponential probing over
  sentinel-encoded buckets with tombstones, growth and shrink policies, widening counts and a 16-bit
  tombstone counter refines a map from key classes to entries. The invariant says where a key's bucket
  lies on its probe path; `HashProbe` and `HashCover` prove when the probes come to every bucket.
- **UTF-8** (`Utf8*.dfy`). The strict converters between UTF-16 (section 2 of RFC 2781) and UTF-8
  (sections 3 and 4 of RFC 3629), and their length functions.
- **Big numbers** (`BigNum*.dfy`). Five base-billion digits and a sign: arithmetic, comparison,
  machine integers and decimal text.
- **The bit vector** (`Bit*.dfy`). A range mapper that works a bucket at a time, against its
  meaning bit by bit.
- **The binary heap** (`BinaryHeap.dfy`). Sifting a hole, copying and draining.

`dafny verify dfyconfig.toml` checks the project. Classes and arrays stand where the source updates
structures in place; methods with loops are proved against functions on sequences and maps, and the
lemmas are about those. Bit operations on numbers are stated with division and remainder, except in
the bit vector, whose buckets are 8-bit words. Sizes are unbounded integers; widths are explicit
where arithmetic wraps: UTF-8 offsets and lengths, the property list's sized reads, the tombstone
counter, and the conversions of big numbers.

Where the code does less than one would expect of it, the model keeps what the code does, the exact
condition is proved, and an input that fails is named: dictionary keys that are containers are
written but not read (`RoundTrip`, `ContainerKeyIsNotRead`), 128-bit integers lose their high half
(`RoundTripExact`, `HighHalfIsLost`), 32-bit infinities come back in 64 bits (`InfinityIsWidened`),
the length function for UTF-8 counts lone surrogates that the encoder refuses
(`CountedMeetsEncoded`, `LoneSurrogateIsCounted`), the decoder reports a character as consumed that
it had no room for (`FromUtf8`, `CutPairIsConsumed`), an addition can leave a digit of one billion
(`Add`, `LimitIsNotCarried`), comparison tells zeros of different signs apart (`Compare`,
`ZerosOfBothSigns`), parsing truncates what is above 36 digits to 32 bits (`FromCString`,
`TopIsTruncated`), a full count in a bag cannot be undone (`RemoveUndoesAdd`, `FullCountStays`),
bags whose totals wrap compare equal (`AreEqual`, `FullBagEqualsEmpty`), the rank below a substitute
is read back as a word of ones when it moves up (`InsertKeepsRanking`, `FullNumbering`), and bits
are lost when a range that starts inside a byte crosses its end (`GetBits`, `CrossingRange`).

## Model

| member | source | states |
|---|---|---|
| PlistRoundTrip.RoundTrip | iOSLearnigDemo/General/SourceLib/CF-1153.18/CFBinaryPList.c:610-707 | For every acyclic object graph whose values, counts and file have 64-bit sizes, the file that the writer produces is accepted by the reader's trailer check; it decodes if and only if all dictionary keys are scalars, and then to the written tree with its numbers in the reader's canonical form and to no other value |
| PlistRoundTrip.RoundTripExact | iOSLearnigDemo/General/SourceLib/CF-1153.18/CFBinaryPList.c:610-707 | The value itself comes back if and only if its dictionary keys are scalars, none of its numbers needs the high half of a 128-bit integer, and none is a 32-bit infinity or NaN or a 64-bit NaN other than the shared one |
| PlistTransfer.WriteThenParse | iOSLearnigDemo/General/SourceLib/CF-1153.18/CFBinaryPList.c:610-1608 | The writer and the reader in turn: what the stream took parses if and only if all dictionary keys are scalars, to the canonical value, which is the value itself where no number is among those that the reader changes |
| PlistTransfer.ContainerKeyIsNotRead | iOSLearnigDemo/General/SourceLib/CF-1153.18/CFBinaryPList.c:1514-1520 | A dictionary with an empty array for a key is written, and its file is accepted but stands for nothing |
| PlistTransfer.HighHalfIsLost | iOSLearnigDemo/General/SourceLib/CF-1153.18/CFBinaryPList.c:1105-1118 | The number 2 to the 64 is written and read back as 0 |
| PlistTransfer.InfinityIsWidened | iOSLearnigDemo/General/SourceLib/CF-1153.18/CFNumber.c:1054-1065 | A 32-bit infinity is written, and read back as the shared 64-bit one |
| PlistTransfer.NumberIsReadAs | iOSLearnigDemo/General/SourceLib/CF-1153.18/CFBinaryPList.c:1079-1166 | The file of one 128-bit integer or real stands for its canonical form, and for the number itself if and only if that is the same |
| PlistRoundTrip.FileAccepted | iOSLearnigDemo/General/SourceLib/CF-1153.18/CFBinaryPList.c:759-847 | Every finished file passes the whole trailer and offset-table validation, and its top offset is the position of the first object |
| PlistRoundTrip.FileFrame | iOSLearnigDemo/General/SourceLib/CF-1153.18/CFBinaryPList.c:647-707 | A file has at least 40 bytes, begins with the eight bytes of "bplist00" and has six zero bytes where its last 32 begin |
| PlistRoundTrip.ReadsBack | iOSLearnigDemo/General/SourceLib/CF-1153.18/CFBinaryPList.c:1061-1559 | At the offset recorded for an object stands the canonical form of its tree, through shared subobjects and any nesting |
| PlistRoundTrip.ReadsOnlyBack | iOSLearnigDemo/General/SourceLib/CF-1153.18/CFBinaryPList.c:1061-1559 | Nothing but that canonical tree stands there, and it stands there only when dictionary keys are scalars |
| PlistRoundTrip.WidthsOfFile | iOSLearnigDemo/General/SourceLib/CF-1153.18/CFBinaryPList.c:652-694 | The reference and offset widths of a file are large enough for its objects and its offsets and are ones the reader takes |
| PlistReader.TryParse | iOSLearnigDemo/General/SourceLib/CF-1153.18/CFBinaryPList.c:1566-1608 | On every byte string: success exactly when the trailer is accepted and the top object stands for a value, which is the result; the nested calls are at most 17 plus the size of the object area, reference cycles included |
| PlistReader.CreateObject | iOSLearnigDemo/General/SourceLib/CF-1153.18/CFBinaryPList.c:1061-1078 | With or without the per-offset cache and with or without the path set, success exactly when the offset stands for a value; the cache stays sound, the path set is restored, and the calls stay within the bound |
| PlistReader.CreateKids | iOSLearnigDemo/General/SourceLib/CF-1153.18/CFBinaryPList.c:1299-1435 | The loop over references reads every member or finds one that has no value, and leaves cache and path set sound |
| PlistReader.CreateContainer | iOSLearnigDemo/General/SourceLib/CF-1153.18/CFBinaryPList.c:1299-1556 | Arrays, sets and dictionaries decode exactly when all members do and dictionary keys are scalars, with the path set made past depth 15 |
| PlistReader.PathExtends | iOSLearnigDemo/General/SourceLib/CF-1153.18/CFBinaryPList.c:1323-1328 | Entering a member keeps the path set a set of offsets above the member |
| PlistReader.PathFits | iOSLearnigDemo/General/SourceLib/CF-1153.18/CFBinaryPList.c:1072-1078 | Offsets on a path are distinct and inside the object area, which is what bounds the recursion |
| PlistReader.BadKidSpoilsContainer | iOSLearnigDemo/General/SourceLib/CF-1153.18/CFBinaryPList.c:1376-1435 | A container with a member that has no value has none itself |
| PlistFormat.DenotesUnique | iOSLearnigDemo/General/SourceLib/CF-1153.18/CFBinaryPList.c:1061-1559 | An offset stands for at most one value, so a cached value is the value that decoding again would give |
| PlistFormat.CycleHasNoMeaning | iOSLearnigDemo/General/SourceLib/CF-1153.18/CFBinaryPList.c:1323-1328 | An object that can reach itself through references stands for nothing, so refusing it on the path loses no value |
| PlistFormat.ContainerAboveKid | iOSLearnigDemo/General/SourceLib/CF-1153.18/CFBinaryPList.c:1299-1438 | Every value of a container is strictly larger than the value of each member, so a cached object cannot reach an ancestor |
| PlistFormat.AboveTransitive | iOSLearnigDemo/General/SourceLib/CF-1153.18/CFBinaryPList.c:1323-1328 | The same along any chain of references |
| PlistTrailer.CheckTrailer | iOSLearnigDemo/General/SourceLib/CF-1153.18/CFBinaryPList.c:776-830 | The arithmetic on the trailer accepts exactly the trailers whose widths, counts and regions fit the file, over unbounded integers |
| PlistTrailer.CheckSizes | iOSLearnigDemo/General/SourceLib/CF-1153.18/CFBinaryPList.c:799-816 | The overflow-checked 64-bit product and sums accept exactly the tables that end where the trailer starts |
| PlistTrailer.CheckedMul | iOSLearnigDemo/General/SourceLib/CF-1153.18/CFBinaryPList.c:70-75 | The 64-bit product, with an error exactly if it does not fit |
| PlistTrailer.CheckedAdd | iOSLearnigDemo/General/SourceLib/CF-1153.18/CFBinaryPList.c:64-68 | The 64-bit sum, with an error exactly if it does not fit |
| PlistTrailer.CheckOffsetTable | iOSLearnigDemo/General/SourceLib/CF-1153.18/CFBinaryPList.c:832-838 | The scan accepts exactly the tables whose every entry points below the table |
| PlistTrailer.GetTopLevelInfo | iOSLearnigDemo/General/SourceLib/CF-1153.18/CFBinaryPList.c:759-847 | The whole validation decides one predicate on the bytes and yields the trailer, the top offset and its marker |
| PlistTrailer.TrailerFitsData | iOSLearnigDemo/General/SourceLib/CF-1153.18/CFBinaryPList.c:759-830 | An accepted trailer keeps every table entry and reference within the bytes |
| PlistBytes.GetSizedInt | iOSLearnigDemo/General/SourceLib/CF-1153.18/CFBinaryPList.c:735-757 | The sized read is the big-endian number of the bytes, modulo 2 to the 64, for every width |
| PlistBytes.SizedIntReads | iOSLearnigDemo/General/SourceLib/CF-1153.18/CFBinaryPList.c:735-757 | Reading a big-endian field of up to eight bytes gives the number that was written |
| PlistBytes.NumberOfBigEndian | iOSLearnigDemo/General/SourceLib/CF-1153.18/CFBinaryPList.c:735-757 | Big-endian bytes denote the number they were made from |
| PlistBytes.ByteCount | iOSLearnigDemo/General/SourceLib/CF-1153.18/CFBinaryPList.c:589-606 | The chosen width is the least of 1, 2, 4 and 8 bytes that holds the count |
| PlistBytes.LeastWidthUnique | iOSLearnigDemo/General/SourceLib/CF-1153.18/CFBinaryPList.c:589-606 | Only one width is the least |
| PlistFlatten.Flattener.Flatten | iOSLearnigDemo/General/SourceLib/CF-1153.18/CFBinaryPList.c:543-585 | The recursive flattening with its unique set gives the tables of the flattening function |
| PlistFlatten.FlattenedIsSound | iOSLearnigDemo/General/SourceLib/CF-1153.18/CFBinaryPList.c:543-585 | The tables stay consistent in both directions, uniqued objects occur once, and everything reachable is numbered |
| PlistFlatten.TopIsFirst | iOSLearnigDemo/General/SourceLib/CF-1153.18/CFBinaryPList.c:637-656 | The top object has index 0 and all its members are numbered |
| PlistFlatten.ListedTwice | iOSLearnigDemo/General/SourceLib/CF-1153.18/CFBinaryPList.c:543-585 | Only containers, booleans, nulls and UIDs can stand in the list more than once |
| PlistFlatten.MembersInOrder | iOSLearnigDemo/General/SourceLib/CF-1153.18/CFBinaryPList.c:543-585 | The list of a container of distinct leaves is the container and then its members in order |
| PlistFlatten.EntriesReflectTree | iOSLearnigDemo/General/SourceLib/CF-1153.18/CFBinaryPList.c:543-585 | The list holds an object that cannot be written if and only if the tree does |
| PlistEncoding.FlattenedIsEncodable | iOSLearnigDemo/General/SourceLib/CF-1153.18/CFBinaryPList.c:543-585 | For every value in range, the flattener numbers all members of all objects it lists, so that every listed object can be encoded |
| PlistEncoding.IntForm | iOSLearnigDemo/General/SourceLib/CF-1153.18/CFBinaryPList.c:329-350 | The bytes of an integer, marker and width for each range of numbers |
| PlistEncoding.CountForm | iOSLearnigDemo/General/SourceLib/CF-1153.18/CFBinaryPList.c:385-390 | The bytes of a count, for each range of counts |
| PlistEncoding.UIDForm | iOSLearnigDemo/General/SourceLib/CF-1153.18/CFBinaryPList.c:352-371 | The bytes of a UID, marker and width for each range of numbers |
| PlistEncoding.UnicodeForm | iOSLearnigDemo/General/SourceLib/CF-1153.18/CFBinaryPList.c:391-404 | A text with a unit of 0x80 or above takes marker 0x60, the number of units, and all its units in two bytes |
| PlistEncoding.UnicodeUnits | iOSLearnigDemo/General/SourceLib/CF-1153.18/CFBinaryPList.c:391-404 | Each unit is written high byte first |
| PlistAppend.TablesFit | iOSLearnigDemo/General/SourceLib/CF-1153.18/CFBinaryPList.c:631-656 | The tables of a value meet everything the file format asks of them as soon as objects and bytes do not exceed the machine's integers |
| PlistFlatten.AddKeeps | iOSLearnigDemo/General/SourceLib/CF-1153.18/CFBinaryPList.c:543-585 | Adding an object keeps the tables consistent and every earlier index |
| PlistWriter.WriteBuffer.WriteBytes | iOSLearnigDemo/General/SourceLib/CF-1153.18/CFBinaryPList.c:169-205 | Bytes reach the stream in order, or the error is set |
| PlistWriter.WriteBuffer.BufferFlush | iOSLearnigDemo/General/SourceLib/CF-1153.18/CFBinaryPList.c:207-210 | After a flush the stream has received everything written so far, or the error is set |
| PlistWriter.WriteBuffer.BufferWrite | iOSLearnigDemo/General/SourceLib/CF-1153.18/CFBinaryPList.c:212-237 | For any sizes of writes, the bytes emitted and the buffered prefix together are everything written so far |
| PlistAppend.AppendInt | iOSLearnigDemo/General/SourceLib/CF-1153.18/CFBinaryPList.c:329-350 | Adds 0x10 and one byte up to 255, 0x11 and two bytes up to 65535, 0x12 and four bytes up to 2 to the 32, and 0x13 and eight bytes from there on, high byte first |
| PlistAppend.AppendUID | iOSLearnigDemo/General/SourceLib/CF-1153.18/CFBinaryPList.c:352-371 | Adds 0x80 and one byte up to 255, 0x81 and two bytes up to 65535, and 0x83 and four bytes from there on, high byte first |
| PlistAppend.AppendCount | iOSLearnigDemo/General/SourceLib/CF-1153.18/CFBinaryPList.c:385-390 | A count below 15 stands in the marker; a larger one follows marker plus 15 as an integer of least width |
| PlistAppend.AppendString | iOSLearnigDemo/General/SourceLib/CF-1153.18/CFBinaryPList.c:373-404 | If all units are below 0x80, adds marker 0x50 with the count and a byte for each unit; otherwise marker 0x60 with the count and two bytes for each unit |
| PlistAppend.AppendNumber | iOSLearnigDemo/General/SourceLib/CF-1153.18/CFBinaryPList.c:408-454 | Negative integers take eight bytes in two's complement behind 0x13, 128-bit integers sixteen behind 0x14, reals their bits behind 0x22 or 0x23 |
| PlistAppend.AppendScalar | iOSLearnigDemo/General/SourceLib/CF-1153.18/CFBinaryPList.c:408-491 | Adds exactly the bytes that the format gives a scalar: 0x08 or 0x09 for a boolean, 0x33 and eight bytes for a date, 0x40 with its length and the bytes themselves for data |
| PlistAppend.AppendObject | iOSLearnigDemo/General/SourceLib/CF-1153.18/CFBinaryPList.c:456-541 | Adds a scalar, or the marker 0xa0 or 0xd0 with the number of members or of pairs and then the references; refuses exactly nulls and sets, and adds nothing for them |
| PlistAppend.WriteObjects | iOSLearnigDemo/General/SourceLib/CF-1153.18/CFBinaryPList.c:654-676 | Every recorded offset is the final position of its object |
| PlistAppend.WriteOffsets | iOSLearnigDemo/General/SourceLib/CF-1153.18/CFBinaryPList.c:684-688 | The table lists those positions in the chosen width |
| PlistAppend.Finish | iOSLearnigDemo/General/SourceLib/CF-1153.18/CFBinaryPList.c:680-707 | Table, trailer and last flush complete the file, and the length is returned only if the stream took all of it |
| PlistAppend.Write | iOSLearnigDemo/General/SourceLib/CF-1153.18/CFBinaryPList.c:610-707 | Writing succeeds exactly for writable trees on a stream that does not fail, and then the stream has received exactly the file |
| PlistParse.ParseScalarBack | iOSLearnigDemo/General/SourceLib/CF-1153.18/CFBinaryPList.c:1079-1298 | Decoding the bytes of any scalar gives its canonical form, whatever stands around them |
| PlistParse.ParseContainerBack | iOSLearnigDemo/General/SourceLib/CF-1153.18/CFBinaryPList.c:1299-1320 | Decoding the head of a container gives its kind, its count and the place of its references |
| PlistTrees.CanonIsIdentity | iOSLearnigDemo/General/SourceLib/CF-1153.18/CFBinaryPList.c:1113-1118 | The canonical form differs from the value exactly where the high half of a 128-bit integer is dropped or a special real is replaced by a shared 64-bit number |
| PlistTrees.SpecialReals | iOSLearnigDemo/General/SourceLib/CF-1153.18/CFNumber.c:1054-1065 | Which bit patterns are replaced by the shared infinities and the shared NaN, and that all others stay |
| PlistMarkers.SimpleMarkers | iOSLearnigDemo/General/SourceLib/CF-1153.18/CFBinaryPList.c:1085-1097 | Below 0x10 the reader takes 0x00 for null, 0x08 for false and 0x09 for true, and nothing else |
| PlistMarkers.IntegerMarkers | iOSLearnigDemo/General/SourceLib/CF-1153.18/CFBinaryPList.c:1098-1127 | Integers of one, two and four bytes are unsigned, of eight bytes signed, of sixteen bytes keep their low half; longer ones are refused |
| PlistMarkers.RealMarkers | iOSLearnigDemo/General/SourceLib/CF-1153.18/CFBinaryPList.c:1128-1189 | 0x22, 0x23 and 0x33 with four or eight bytes are reals and a date with those bits, and nothing else of their kinds is read |
| PlistMarkers.TextMarkers | iOSLearnigDemo/General/SourceLib/CF-1153.18/CFBinaryPList.c:1190-1279 | Data, ASCII and UTF-16 text of fewer than 15 elements are read element by element, and refused when they reach the offset table |
| PlistMarkers.UIDMarkers | iOSLearnigDemo/General/SourceLib/CF-1153.18/CFBinaryPList.c:1280-1298 | A UID of up to eight bytes is read if it is below 2 to the 32 |
| PlistMarkers.ContainerMarkers | iOSLearnigDemo/General/SourceLib/CF-1153.18/CFBinaryPList.c:1299-1438 | 0xa0, 0xc0 and 0xd0 with a count below 15 are an array, a set and a dictionary of that many members or pairs, whose references follow the marker |
| ArrayDeque.MutableArray.RepositionDequeRegions | iOSLearnigDemo/General/SourceLib/CF-1153.18/CFArray.c:775-859 | In each of its branches, the values left and right of the range end up around a gap of the new size, and the slack is zero or as it was allocated; a new store is taken exactly when the old one is too small or an insertion leaves less slack than the margin |
| ArrayDeque.MutableArray.Reallocate | iOSLearnigDemo/General/SourceLib/CF-1153.18/CFArray.c:795-817 | The first branch copies both sides around the gap in a new store of rounded capacity, centred to within one bucket |
| ArrayDeque.MutableArray.MoveC | iOSLearnigDemo/General/SourceLib/CF-1153.18/CFArray.c:819-826 | The second branch moves the right side by one overlapping move, and the left side stays |
| ArrayDeque.MutableArray.MoveA | iOSLearnigDemo/General/SourceLib/CF-1153.18/CFArray.c:827-835 | The third branch moves the left side and the left index, and the right end stays |
| ArrayDeque.MutableArray.Recenter | iOSLearnigDemo/General/SourceLib/CF-1153.18/CFArray.c:836-859 | The last branch re-centres, in the order in which neither overlapping move destroys the other side |
| ArrayDeque.MutableArray.ReplaceValues | iOSLearnigDemo/General/SourceLib/CF-1153.18/CFArray.c:910-918 | The old prefix and suffix stay around the new values, each stored as it is or as the retain callback returns it; the log gains one retain for each new value, then one release for each replaced one, in order, and none for a missing callback |
| ArrayDeque.MutableArray.ReplaceRange | iOSLearnigDemo/General/SourceLib/CF-1153.18/CFArray.c:922-993 | Every mutation is a splice: the contents become the old prefix, the new values and the old suffix; new values are retained before the replaced ones are released |
| ArrayDeque.MutableArray.AppendValue | iOSLearnigDemo/General/SourceLib/CF-1153.18/CFArray.c:686-693 | The value stands at the end, as it is or as the retain callback returns it, and is logged as retained only with that callback |
| ArrayDeque.MutableArray.InsertValueAtIndex | iOSLearnigDemo/General/SourceLib/CF-1153.18/CFArray.c:722-729 | The value stands at the index, as it is or as the retain callback returns it, the rest has moved up, and nothing else is logged |
| ArrayDeque.MutableArray.RemoveValueAtIndex | iOSLearnigDemo/General/SourceLib/CF-1153.18/CFArray.c:753-760 | The value is gone, released if there is a callback, and the rest has moved down |
| ArrayDeque.MutableArray.SetValueAtIndex | iOSLearnigDemo/General/SourceLib/CF-1153.18/CFArray.c:695-720 | One value is exchanged for another, as it is or as the retain callback returns it, retained before the old is released; at the end it appends |
| ArrayDeque.MutableArray.ExchangeValuesAtIndices | iOSLearnigDemo/General/SourceLib/CF-1153.18/CFArray.c:733-751 | Two values trade places, and nothing is retained or released |
| ArrayDeque.MutableArray.RemoveAllValues | iOSLearnigDemo/General/SourceLib/CF-1153.18/CFArray.c:762-772 | The contents are empty and, with a release callback, each value is released once, in order |
| ArrayDeque.MutableArray.ReleaseRange | iOSLearnigDemo/General/SourceLib/CF-1153.18/CFArray.c:197-240 | Exactly the values of the range are released, and the others stay |
| ArrayDeque.RoundUpBounds | iOSLearnigDemo/General/SourceLib/CF-1153.18/CFArray.c:46-49 | A rounded capacity is above what was asked for and at most twice it |
| ArrayRetain.Apply | iOSLearnigDemo/General/SourceLib/CF-1153.18/CFArray.c:686-772 | Each operation of the array changes contents and retain log as the step function of a run says |
| ArrayRetain.StepConserves | iOSLearnigDemo/General/SourceLib/CF-1153.18/CFArray.c:935-958 | Each operation keeps the multiset of retained and not yet released values equal to the contents |
| ArrayRetain.RunConserves | iOSLearnigDemo/General/SourceLib/CF-1153.18/CFArray.c:197-240 | So does every run from the empty array |
| ArrayRetain.Perform | iOSLearnigDemo/General/SourceLib/CF-1153.18/CFArray.c:686-772 | A whole run of operations on an array leaves exactly the contents and the log of callbacks that the run on sequences gives, and a log in balance with the contents stays in balance |
| ArrayRetain.NeverReleasedEarly | iOSLearnigDemo/General/SourceLib/CF-1153.18/CFArray.c:935-958 | At every moment inside a splice, each value is still retained as often as it was stored before or as it is stored after |
| ArrayRetain.SetConserves | iOSLearnigDemo/General/SourceLib/CF-1153.18/CFArray.c:695-720 | A set keeps the balance although it works outside the splice |
| ArraySearch.BSearchValues | iOSLearnigDemo/General/SourceLib/CF-1153.18/CFArray.c:1074-1100 | The power-of-two search returns the place, counted from the location, before which all elements are smaller and from which on none is, for every length below 2 to the 31 |
| ArraySearch.FirstProbe | iOSLearnigDemo/General/SourceLib/CF-1153.18/CFArray.c:1088-1091 | The first probe leaves two overlapping windows of which the right one is chosen |
| ArraySearch.ProbeLess | iOSLearnigDemo/General/SourceLib/CF-1153.18/CFArray.c:1092-1097 | A probe that finds a smaller element moves the window up |
| ArraySearch.ProbeNotLess | iOSLearnigDemo/General/SourceLib/CF-1153.18/CFArray.c:1092-1097 | A probe that does not keeps the window |
| HashSlots.EncodingIsFaithful | iOSLearnigDemo/General/SourceLib/CF-1153.18/CFBasicHash.c:492-556 | An encoded word never looks empty or deleted, and it decodes to itself if and only if it is not one of the two substitutes |
| HashProbe.LinearCovers | iOSLearnigDemo/General/SourceLib/CF-1153.18/CFBasicHashFindBucket.m:153-157 | Linear probing comes to every bucket from every hash code, within as many turns as there are buckets |
| HashProbe.LinearClosedForm | iOSLearnigDemo/General/SourceLib/CF-1153.18/CFBasicHashFindBucket.m:57-66 | The bucket looked at on each turn is the first one plus the number of turns, wrapped once |
| HashCover.LinearProbesCover | iOSLearnigDemo/General/SourceLib/CF-1153.18/CFDictionary.c:130-131 | In all table sizes the probes of the linear style, which dictionaries, sets and bags use, come to every bucket |
| HashCover.DoubleCovers | iOSLearnigDemo/General/SourceLib/CF-1153.18/CFBasicHashFindBucket.m:158-162 | Double hashing, with any second hash between one and the table size, comes to every bucket of a table of prime size |
| HashCover.DoubleIsInjective | iOSLearnigDemo/General/SourceLib/CF-1153.18/CFBasicHashFindBucket.m:67-80 | No two turns of double hashing look at the same bucket |
| HashCover.ExponentialCovers | iOSLearnigDemo/General/SourceLib/CF-1153.18/CFBasicHashFindBucket.m:163-178 | Exponential probing comes to every bucket of a table whose root is primitive, as long as products of two indices fit a word |
| HashCover.ExponentialClosedForm | iOSLearnigDemo/General/SourceLib/CF-1153.18/CFBasicHashFindBucket.m:163-178 | The bucket looked at on each turn is congruent to the first hash plus the second times the power of the root |
| HashCover.RootMakesPrime | iOSLearnigDemo/General/SourceLib/CF-1153.18/CFBasicHash.c:221-264 | Only a prime has a primitive root, so the table of roots answers for the table of sizes |
| HashCover.AllProbesCover | iOSLearnigDemo/General/SourceLib/CF-1153.18/CFBasicHash.c:221-264 | The probes of each style come to every bucket in all table sizes it uses: unconditionally for linear probing, from the table of roots for exponential probing, and from that and one further prime for double hashing |
| HashSlots.PathStays | iOSLearnigDemo/General/SourceLib/CF-1153.18/CFBasicHashFindBucket.m:110-135 | Probes that come to a bucket before any empty one still do so after every change that empties no bucket |
| HashSlots.EmptyingLosesKeys | iOSLearnigDemo/General/SourceLib/CF-1153.18/CFBasicHashFindBucket.m:110-135 | Why removal writes a tombstone: with two keys of one hash code, emptying the bucket of the first leaves the second in the table but out of reach of its probes |
| HashSlots.AddModels | iOSLearnigDemo/General/SourceLib/CF-1153.18/CFBasicHash.c:1259-1286 | Filling a free slot with a new key adds exactly its entry |
| HashSlots.WriteReached | iOSLearnigDemo/General/SourceLib/CF-1153.18/CFBasicHash.c:1259-1298 | Writing a key to a bucket on its own probe path keeps every key reachable |
| HashSlots.ReplaceModels | iOSLearnigDemo/General/SourceLib/CF-1153.18/CFBasicHash.c:1288-1298 | Overwriting a live slot with an equal key changes exactly its entry |
| HashSlots.EraseModels | iOSLearnigDemo/General/SourceLib/CF-1153.18/CFBasicHash.c:1300-1313 | A tombstone removes exactly one entry |
| HashSlots.EraseReached | iOSLearnigDemo/General/SourceLib/CF-1153.18/CFBasicHash.c:1300-1313 | A tombstone keeps every other key reachable by its probes |
| HashSlots.CountIsLeftBehind | iOSLearnigDemo/General/SourceLib/CF-1153.18/CFBasicHash.c:1300-1308 | The removal of a bucket, which takes one from its count, removes its entry if and only if the count was one; otherwise a count stays on the tombstone |
| HashSlots.RecountModels | iOSLearnigDemo/General/SourceLib/CF-1153.18/CFBasicHash.c:628-686 | A changed count changes exactly one entry |
| HashSlots.FindFree | iOSLearnigDemo/General/SourceLib/CF-1153.18/CFBasicHashFindBucket.m:110-126 | A table that is not full of live slots has one to fill |
| HashState.NotFurtherOn | iOSLearnigDemo/General/SourceLib/CF-1153.18/CFBasicHashFindBucket.m:110-191 | A search that meets an empty bucket, or has looked at as many buckets as there are, has not missed its key |
| HashState.EmptyAhead | iOSLearnigDemo/General/SourceLib/CF-1153.18/CFBasicHashFindBucket.m:110-126 | In a table without tombstones that is not full, the probes of every key come to an empty bucket |
| HashState.EraseSound | iOSLearnigDemo/General/SourceLib/CF-1153.18/CFBasicHash.c:1300-1313 | A tombstone keeps the whole invariant and takes one entry |
| HashState.AddSound | iOSLearnigDemo/General/SourceLib/CF-1153.18/CFBasicHash.c:1259-1286 | Filling a bucket on the new key's path keeps the whole invariant and adds one entry |
| HashState.AddedSays | iOSLearnigDemo/General/SourceLib/CF-1153.18/CFBasicHash.c:1332-1350 | What an addition leaves: a new class has the key, the value and count one; a present one keeps key and value and counts one more up to the largest; all other classes keep their entries |
| HashState.ReplacedSays | iOSLearnigDemo/General/SourceLib/CF-1153.18/CFBasicHash.c:1352-1362 | What a replacement leaves: a present class has the new key and value and the old count, an absent one stays absent, and all others keep their entries |
| HashState.AssignedSays | iOSLearnigDemo/General/SourceLib/CF-1153.18/CFBasicHash.c:1364-1376 | What a set leaves: the class has the new key and value, with the old count or one, and all others keep their entries |
| HashState.RemovedSays | iOSLearnigDemo/General/SourceLib/CF-1153.18/CFBasicHash.c:1378-1391 | What a removal leaves: the class goes if its count was one, else counts one less unless it is full, and all others keep their entries |
| HashState.CountLimits | iOSLearnigDemo/General/SourceLib/CF-1153.18/CFBasicHash.c:569-686 | The largest counts of one, two, four and eight bytes |
| HashSizes.IndexForCapacity | iOSLearnigDemo/General/SourceLib/CF-1153.18/CFBasicHash.c:702-708 | The least table size that can carry the load is chosen |
| HashSizes.LeastForSays | iOSLearnigDemo/General/SourceLib/CF-1153.18/CFBasicHash.c:702-708 | The least size for a load carries it, and no smaller one does |
| HashSizes.CapacityGrows | iOSLearnigDemo/General/SourceLib/CF-1153.18/CFBasicHash.c:1140-1142 | One size more still carries the load, for tables that grow fast |
| HashSizes.LoadFits | iOSLearnigDemo/General/SourceLib/CF-1153.18/CFBasicHash.c:225-259 | The load limit never exceeds the buckets |
| HashTable.BasicHash.InvariantSays | iOSLearnigDemo/General/SourceLib/CF-1153.18/CFBasicHash.c:308-326 | The invariant that every operation keeps: one live slot for each key class, to which the probes for its hash code come before any empty bucket; `used_buckets` equal to the live slots and to the entries; `deleted` equal to the tombstones within 16 bits; and used at most capacity at most buckets |
| HashTable.BasicHash.FindBucket | iOSLearnigDemo/General/SourceLib/CF-1153.18/CFBasicHashFindBucket.m:45-191 | The probing loop in each style: the live bucket of an equal key if there is one, else the first bucket on the key's probes that is not live, unless all are |
| HashTable.BasicHash.Probe | iOSLearnigDemo/General/SourceLib/CF-1153.18/CFBasicHashFindBucket.m:107-191 | The same for the loop by itself, which stops at an empty bucket and is right because every key is reachable |
| HashTable.BasicHash.FindBucketNoCollision | iOSLearnigDemo/General/SourceLib/CF-1153.18/CFBasicHashFindBucket.m:107-191 | The probing loop of a rehash stops at an empty bucket on the key's path, in a table without tombstones |
| HashTable.BasicHash.Rehash | iOSLearnigDemo/General/SourceLib/CF-1153.18/CFBasicHash.c:1127-1249 | Growing, shrinking and cleaning keep the contents and every key reachable, drop all tombstones and choose the least size for the load, or the next one for fast growth by one entry |
| HashTable.BasicHash.Reinsert | iOSLearnigDemo/General/SourceLib/CF-1153.18/CFBasicHash.c:1199-1232 | The loop over the old buckets moves every live entry once and with its count, to a bucket on its path in the new size |
| HashTable.BasicHash.IncSlotCount | iOSLearnigDemo/General/SourceLib/CF-1153.18/CFBasicHash.c:569-676 | The count grows by one, widening all counts first only as far as this one needs, and no other count changes |
| HashTable.BasicHash.BumpCounts | iOSLearnigDemo/General/SourceLib/CF-1153.18/CFBasicHash.c:569-626 | Wider counts keep their values |
| HashTable.BasicHash.AddAt | iOSLearnigDemo/General/SourceLib/CF-1153.18/CFBasicHash.c:1259-1286 | An absent key gets its entry on its own probe path whether or not the table must grow first, and a reused tombstone is no longer counted |
| HashTable.BasicHash.ReplaceAt | iOSLearnigDemo/General/SourceLib/CF-1153.18/CFBasicHash.c:1288-1298 | The entry has the new key and value and its old count, and all other classes keep their entries |
| HashTable.BasicHash.RemoveAt | iOSLearnigDemo/General/SourceLib/CF-1153.18/CFBasicHash.c:1300-1330 | Exactly the entry goes, all other keys stay reachable, and afterwards the tombstones are fewer than a quarter of the buckets, or none, or the table is small |
| HashTable.BasicHash.Tidy | iOSLearnigDemo/General/SourceLib/CF-1153.18/CFBasicHash.c:1313-1329 | Shrinking and cleaning keep the contents, also when the 16-bit tombstone count has rolled over; the size changes exactly when the load would fit two sizes less (five for fast growth), and the tombstones go exactly then or when they fill a quarter |
| HashTable.BasicHash.AddValue | iOSLearnigDemo/General/SourceLib/CF-1153.18/CFBasicHash.c:1332-1350 | A new class has the key and the value with count one, a present one keeps both and counts one more until it is full, all others keep their entries; the result tells whether anything changed |
| HashTable.BasicHash.ReplaceValue | iOSLearnigDemo/General/SourceLib/CF-1153.18/CFBasicHash.c:1352-1362 | A present class has the new key and value and its old count, an absent one stays absent, and all others keep their entries |
| HashTable.BasicHash.SetValue | iOSLearnigDemo/General/SourceLib/CF-1153.18/CFBasicHash.c:1364-1376 | The class has the new key and value, with its old count or one, and all others keep their entries |
| HashTable.BasicHash.RemoveValue | iOSLearnigDemo/General/SourceLib/CF-1153.18/CFBasicHash.c:1378-1391 | Takes one from a count or drops the entry, leaves full counts alone, ignores the substitutes, keeps all other entries and returns the former count |
| HashTable.BasicHash.GetCountOfKey | iOSLearnigDemo/General/SourceLib/CF-1153.18/CFBasicHash.c:943-951 | The count of the key, zero if absent or not storable |
| HashTable.BasicHash.RemoveAllValues | iOSLearnigDemo/General/SourceLib/CF-1153.18/CFBasicHash.c:1407-1411 | The table is empty and has no buckets |
| HashTable.BasicHash.SetCapacity | iOSLearnigDemo/General/SourceLib/CF-1153.18/CFBasicHash.c:1251-1257 | The contents stay and every requested load that the largest size carries fits |
| HashRuns.Run | iOSLearnigDemo/General/SourceLib/CF-1153.18/CFBasicHash.c:1332-1411 | Over every run of operations that a caller may make, the table keeps its invariant, reachability included, and stands for the map that the same run gives |
| HashRuns.RunLinear | iOSLearnigDemo/General/SourceLib/CF-1153.18/CFDictionary.c:130-131 | The same for a new table with linear probing, as dictionaries, sets and bags have it, with no hypothesis on the probes |
| HashRuns.RemoveUndoesAdd | iOSLearnigDemo/General/SourceLib/CF-1153.18/CFBasicHash.c:1338-1391 | Removing a key undoes adding it if and only if the key was new, or is counted and the addition did not fill its count |
| HashRuns.FullCountStays | iOSLearnigDemo/General/SourceLib/CF-1153.18/CFBasicHash.c:1338-1391 | A count one below the largest is filled by an addition and then stays full |
| HashRuns.TablesAreWellCounted | iOSLearnigDemo/General/SourceLib/CF-1153.18/CFBasicHash.c:628-686 | Counts in a sound table are positive and fit a CFIndex |
| HashRank.AddIntValueAndInc | iOSLearnigDemo/General/SourceLib/CF-1153.18/CFBasicHash.c:1413-1443 | A new key is put at a rank and the ranks from there on are stored one up as renumbering stores them, whether or not the table grows |
| HashRank.RemoveIntValueAndDec | iOSLearnigDemo/General/SourceLib/CF-1153.18/CFBasicHash.c:1445-1465 | Of the keys with a rank, the one in the last bucket, counted once, goes, and the ranks above are stored one down |
| HashRank.Renumber | iOSLearnigDemo/General/SourceLib/CF-1153.18/CFBasicHash.c:1428-1438 | The renumbering loop shifts every value once and finds the last bucket with the pivot |
| HashRank.InsertKeepsRanking | iOSLearnigDemo/General/SourceLib/CF-1153.18/CFBasicHash.c:1413-1443 | The new key gets its rank and those from there on move one up, a numbering of the keys by 0 to n-1 becoming one by 0 to n in the same order, if and only if n is below the first substitute, which renumbering would store |
| HashRank.FullNumbering | iOSLearnigDemo/General/SourceLib/CF-1153.18/CFBasicHash.c:1413-1443 | A table of as many numbered keys as the first substitute, to which one more at the front leaves no numbering |
| HashRank.WithdrawKeepsRanking | iOSLearnigDemo/General/SourceLib/CF-1153.18/CFBasicHash.c:1445-1465 | The key with the rank goes and those above move one down, which numbers the others in the same order |
| HashRank.WithdrawUndoesInsert | iOSLearnigDemo/General/SourceLib/CF-1153.18/CFBasicHash.c:1413-1465 | Removing the rank just inserted restores the numbering if and only if there are fewer keys than the first substitute |
| HashRank.InsertThenRemove | iOSLearnigDemo/General/SourceLib/CF-1153.18/CFBasicHash.c:1413-1465 | The same on a table, across any rehash on the way |
| HashEqual.GetCount | iOSLearnigDemo/General/SourceLib/CF-1153.18/CFBasicHash.c:931-941 | The sum of the counts of all entries as far as a CFIndex keeps it, or their number without counts |
| HashEqual.AreEqual | iOSLearnigDemo/General/SourceLib/CF-1153.18/CFBasicHash.c:971-989 | True exactly by the verdict on totals kept in 64 bits and on the walk over the first table; it agrees with equality of the contents if and only if the tables do not mislead it; where both totals fit a CFIndex it means the same key classes with the same counts and, in dictionaries, equal values |
| HashEqual.VerdictIsRight | iOSLearnigDemo/General/SourceLib/CF-1153.18/CFBasicHash.c:971-989 | The verdict is equality of contents except exactly where the totals differ by a multiple of 2 to the 64 and the first table is part of the second, or seem to be zero; totals below 2 to the 64 never mislead |
| HashEqual.FullBagSeemsEmpty | iOSLearnigDemo/General/SourceLib/CF-1153.18/CFBasicHash.c:931-976 | Two full counts and a count of two add up to 2 to the 64, and the verdict takes such contents for empty ones |
| HashEqual.FullBagEqualsEmpty | iOSLearnigDemo/General/SourceLib/CF-1153.18/CFBasicHash.c:971-989 | Two bags built by additions, one with those counts and one empty, are reported equal |
| HashEqual.Walk | iOSLearnigDemo/General/SourceLib/CF-1153.18/CFBasicHash.c:991-1002 | The walk over the first table, which stops once all used buckets were met, decides whether each entry is in the second |
| HashEqual.CoverageDecides | iOSLearnigDemo/General/SourceLib/CF-1153.18/CFBasicHash.c:971-989 | With equal totals, inclusion one way is equality |
| HashEqual.TotalOfPart | iOSLearnigDemo/General/SourceLib/CF-1153.18/CFBasicHash.c:971-989 | A part of the contents has the total of the whole only if it is the whole |
| Utf8Forms.GrammarIsEncoding | iOSLearnigDemo/General/SourceLib/CF-1153.18/CFBuiltinConverters.c:999-1011 | Every sequence of the grammar in section 4 of RFC 3629 is the encoding of the scalar it spells |
| Utf8Forms.EncodingInGrammar | iOSLearnigDemo/General/SourceLib/CF-1153.18/CFBuiltinConverters.c:923-944 | Every scalar's encoding is in the grammar |
| Utf8Forms.EncodingKeepsOrder | iOSLearnigDemo/General/SourceLib/CF-1153.18/CFBuiltinConverters.c:923-944 | Encodings compare byte by byte as their characters do, as section 1 of RFC 3629 promises |
| Utf8Forms.KnownEncodings | iOSLearnigDemo/General/SourceLib/CF-1153.18/CFBuiltinConverters.c:923-944 | The examples in section 7 of RFC 3629 and section 5 of RFC 2781 |
| Utf8Forms.OneBegins8 | iOSLearnigDemo/General/SourceLib/CF-1153.18/CFBuiltinConverters.c:1013-1106 | At most one character begins at the front of any bytes |
| Utf8Encoder.ToUtf8Core | iOSLearnigDemo/General/SourceLib/CF-1153.18/CFBuiltinConverters.c:923-944 | The shifted bytes are the encoding of the character, written only if all of it fits |
| Utf8Encoder.ReadUnit | iOSLearnigDemo/General/SourceLib/CF-1153.18/CFBuiltinConverters.c:962-974 | A unit or surrogate pair is read exactly where a character begins; lone surrogates stop the encoder |
| Utf8Encoder.ToUtf8 | iOSLearnigDemo/General/SourceLib/CF-1153.18/CFBuiltinConverters.c:946-986 | For every input and capacity, the encoder consumes the longest run of whole well-formed characters that fits and writes exactly its encoding; without a capacity it counts all of them |
| Utf8Encoder.ScalarsArePrefix | iOSLearnigDemo/General/SourceLib/CF-1153.18/CFBuiltinConverters.c:946-986 | What it reads is a prefix after which no character begins |
| Utf8Encoder.ScalarsAreGreatest | iOSLearnigDemo/General/SourceLib/CF-1153.18/CFBuiltinConverters.c:946-986 | Every other well-formed prefix is a prefix of that |
| Utf8Encoder.ToUtf8Len | iOSLearnigDemo/General/SourceLib/CF-1153.18/CFBuiltinConverters.c:1108-1123 | The 32-bit sum over all units and pairs |
| Utf8Encoder.CountedMeetsEncoded | iOSLearnigDemo/General/SourceLib/CF-1153.18/CFBuiltinConverters.c:1108-1123 | The length agrees with the encoder if and only if the input is well formed, and is larger otherwise |
| Utf8Encoder.LoneSurrogateIsCounted | iOSLearnigDemo/General/SourceLib/CF-1153.18/CFBuiltinConverters.c:1108-1123 | A lone surrogate is counted for three bytes, and the encoder writes none |
| Utf8Decoder.IsLegalUtf8 | iOSLearnigDemo/General/SourceLib/CF-1153.18/CFBuiltinConverters.c:999-1011 | Accepts exactly the sequences of the grammar |
| Utf8Decoder.Assemble | iOSLearnigDemo/General/SourceLib/CF-1153.18/CFBuiltinConverters.c:1050-1056 | Shifting and subtracting the magic offset in 32 bits spells the character of a legal sequence |
| Utf8Decoder.FrontDecides | iOSLearnigDemo/General/SourceLib/CF-1153.18/CFBuiltinConverters.c:1026-1034 | The length announced by the first byte decides: the cut sequence is legal exactly if some character begins there |
| Utf8Decoder.ReadPiece | iOSLearnigDemo/General/SourceLib/CF-1153.18/CFBuiltinConverters.c:1026-1056 | Finds the character that begins at a position, or a byte to replace, exactly when there is one |
| Utf8Decoder.StrayIsReplaced | iOSLearnigDemo/General/SourceLib/CF-1153.18/CFBuiltinConverters.c:1026-1056 | Where no character begins, one byte is replaced by U+FFFD if the length it announces has room and the decoder is lossy or the byte is 0xA9; otherwise decoding stops |
| Utf8Decoder.FromUtf8 | iOSLearnigDemo/General/SourceLib/CF-1153.18/CFBuiltinConverters.c:1013-1106 | For every input and room, writes exactly the units of the most leading pieces that fit; the reported number of consumed bytes is theirs, plus four if and only if the room ends between the units of a surrogate pair of the input |
| Utf8Decoder.CutIsNext | iOSLearnigDemo/General/SourceLib/CF-1153.18/CFBuiltinConverters.c:1086-1095 | A pair of the input that the room cuts is the first piece that does not fit |
| Utf8Decoder.FromUtf8Len | iOSLearnigDemo/General/SourceLib/CF-1153.18/CFBuiltinConverters.c:1125-1192 | Equals the decoder's count without a limit, on every byte string |
| Utf8Decoder.PiecesArePrefix | iOSLearnigDemo/General/SourceLib/CF-1153.18/CFBuiltinConverters.c:1013-1106 | The decoder takes everything up to the first place where no piece begins |
| Utf8RoundTrip.DecodeUndoesEncode | iOSLearnigDemo/General/SourceLib/CF-1153.18/CFBuiltinConverters.c:946-1106 | Decoding the encoding of any units gives a prefix of them, and all of them if and only if they are well-formed UTF-16 |
| Utf8RoundTrip.EncodeUndoesDecode | iOSLearnigDemo/General/SourceLib/CF-1153.18/CFBuiltinConverters.c:946-1106 | Encoding what was decoded from any bytes gives them back if and only if they are legal UTF-8 |
| Utf8RoundTrip.EncodingDecodes | iOSLearnigDemo/General/SourceLib/CF-1153.18/CFBuiltinConverters.c:1013-1106 | An encoding decodes to its characters and to nothing else |
| Utf8RoundTrip.LegalIsEncoding | iOSLearnigDemo/General/SourceLib/CF-1153.18/CFBuiltinConverters.c:999-1011 | Every legal byte string is the encoding of some characters |
| Utf8RoundTrip.EncodingIsLegal | iOSLearnigDemo/General/SourceLib/CF-1153.18/CFBuiltinConverters.c:923-944 | Every encoding is legal |
| Utf8RoundTrip.Transcode | iOSLearnigDemo/General/SourceLib/CF-1153.18/CFBuiltinConverters.c:946-1192 | Both converters in turn, with buffers of exactly the sizes that the length functions report, give any well-formed text back |
| Utf8RoundTrip.CutPairIsConsumed | iOSLearnigDemo/General/SourceLib/CF-1153.18/CFBuiltinConverters.c:1092-1093 | With room for one unit, the decoder writes nothing of a character of four bytes and reports all four as consumed |
| BigNum.AddDigits | iOSLearnigDemo/General/SourceLib/CF-1153.18/CFBigNumber.c:465-480 | The sum of the magnitudes is the magnitude of the digits plus the carry times 10 to the 45 |
| BigNum.SubDigits | iOSLearnigDemo/General/SourceLib/CF-1153.18/CFBigNumber.c:481-509 | The borrow chain ends with carry 0, and the digits are the exact difference |
| BigNum.Add | iOSLearnigDemo/General/SourceLib/CF-1153.18/CFBigNumber.c:465-509 | Exact on signed values up to the carry of equal signs, digit by digit; the result has proper digits if and only if no position of an equal-sign sum comes to exactly one billion; a zero difference takes the first operand's sign |
| BigNum.Sub | iOSLearnigDemo/General/SourceLib/CF-1153.18/CFBigNumber.c:511-515 | Exact on signed values, up to 10 to the 45 where the carry is set |
| BigNum.LimitIsNotCarried | iOSLearnigDemo/General/SourceLib/CF-1153.18/CFBigNumber.c:471-476 | The sum of 999999999 and 1 is returned with the digit one billion and no carry |
| BigNum.SumDigitsBelow | iOSLearnigDemo/General/SourceLib/CF-1153.18/CFBigNumber.c:465-480 | The digits of a sum are at most one billion, and below it if and only if no position comes to exactly that |
| BigNum.Compare | iOSLearnigDemo/General/SourceLib/CF-1153.18/CFBigNumber.c:416-431 | Less, equal or greater as the values are, except if and only if both are zero with different signs |
| BigNum.ZerosOfBothSigns | iOSLearnigDemo/General/SourceLib/CF-1153.18/CFBigNumber.c:416-431 | A negative zero is reported less than zero |
| BigNum.AbsoluteLessThan | iOSLearnigDemo/General/SourceLib/CF-1153.18/CFBigNumber.c:435-445 | Digits compared from the top decide which magnitude is smaller |
| BigNum.Neg | iOSLearnigDemo/General/SourceLib/CF-1153.18/CFBigNumber.c:448-463 | The value is negated, and a zero keeps its sign |
| BigNumInts.InitWithInt64 | iOSLearnigDemo/General/SourceLib/CF-1153.18/CFBigNumber.c:122-135 | Every 64-bit integer becomes proper digits of its value, the smallest one included |
| BigNumInts.GetInt64 | iOSLearnigDemo/General/SourceLib/CF-1153.18/CFBigNumber.c:236-244 | The value comes back if and only if 64 bits can hold it |
| BigNumInts.InitWithInt128 | iOSLearnigDemo/General/SourceLib/CF-1153.18/CFBigNumber.c:138-157 | Every 128-bit integer becomes proper digits of its value |
| BigNumInts.GetInt128 | iOSLearnigDemo/General/SourceLib/CF-1153.18/CFBigNumber.c:247-257 | The value comes back if and only if 128 bits can hold it |
| BigNumText.ToCString | iOSLearnigDemo/General/SourceLib/CF-1153.18/CFBigNumber.c:518-538 | A negative number gives a minus sign first, another a plus sign if and only if one is asked for. For every buffer with room for sign and terminator: without leading zeros as many leading digits of the numeral as fit, with them as many last digits as fit behind zeros; all digits from 47 bytes on |
| BigNumText.FromCString | iOSLearnigDemo/General/SourceLib/CF-1153.18/CFBigNumber.c:540-571 | Any text is read behind its sign and zeros nine characters at a time, each by `atol` in 32 bits; for a numeral the value is exact if and only if it is below 2 to the 32 times 10 to the 36, with proper digits up to 45 significant ones |
| BigNumText.TopIsTruncated | iOSLearnigDemo/General/SourceLib/CF-1153.18/CFBigNumber.c:566-569 | A 5 with 45 zeros is parsed with the top digit 705032704 |
| BigNumText.NumeralDenotes | iOSLearnigDemo/General/SourceLib/CF-1153.18/CFBigNumber.c:527-536 | The printed digits without leading zeros denote the magnitude |
| BigNumText.PrintThenParse | iOSLearnigDemo/General/SourceLib/CF-1153.18/CFBigNumber.c:518-571 | Printing any number with or without leading zeros or plus sign and parsing the text gives the same digits and the same sign |
| BigNumText.DigitsAreUnique | iOSLearnigDemo/General/SourceLib/CF-1153.18/CFBigNumber.c:416-431 | Proper digits of equal magnitude are equal |
| BigNumText.PrintedDenotes | iOSLearnigDemo/General/SourceLib/CF-1153.18/CFBigNumber.c:527-528 | The digits printed in nines denote the magnitude |
| BigNumText.DigitsCount | iOSLearnigDemo/General/SourceLib/CF-1153.18/CFBigNumber.c:518-571 | The characters of the ten digits have their usual values and places |
| BitBuckets.MaskBits | iOSLearnigDemo/General/SourceLib/CF-1153.18/CFBitVector.c:107-113 | The mask selects exactly the bits from bottom to top |
| BitBuckets.ShiftReadsBit | iOSLearnigDemo/General/SourceLib/CF-1153.18/CFBitVector.c:115-119 | The shifted bit is the bit counted from the most significant |
| BitBuckets.NibblesCountBits | iOSLearnigDemo/General/SourceLib/CF-1153.18/CFBitVector.c:323-333 | The nibble table, looked up twice, counts the set bits of a bucket |
| BitMapper.ApplyMapper | iOSLearnigDemo/General/SourceLib/CF-1153.18/CFBitVector.c:323-333 | Each bucket function does to every bit of a bucket what it means for one bit |
| BitMapper.GetBucketBits | iOSLearnigDemo/General/SourceLib/CF-1153.18/CFBitVector.c:365-399 | The extraction of one bucket adds its masked byte to the output, or, for a range that starts inside a byte, overwrites the first byte with it, shifted by the bits to skip |
| BitMapper.WithinByte | iOSLearnigDemo/General/SourceLib/CF-1153.18/CFBitVector.c:365-399 | A range inside one byte is extracted by that shift |
| BitMapper.SkipStep | iOSLearnigDemo/General/SourceLib/CF-1153.18/CFBitVector.c:372-397 | Each turn of an extraction that starts inside a byte replaces all that was extracted before |
| BitMapper.MapBucket | iOSLearnigDemo/General/SourceLib/CF-1153.18/CFBitVector.c:284-316 | One bucket's turn extends the mapped range by the bits of the bucket |
| BitMapper.CountBucket | iOSLearnigDemo/General/SourceLib/CF-1153.18/CFBitVector.c:323-333 | One bucket's turn counts the matching bits of the range in it |
| BitMapper.CountsAddUp | iOSLearnigDemo/General/SourceLib/CF-1153.18/CFBitVector.c:335-344 | The counts of both values add up to the length of the range |
| BitMapper.CountIsSize | iOSLearnigDemo/General/SourceLib/CF-1153.18/CFBitVector.c:323-344 | A count is the size of the set of matching positions in the range |
| BitMapper.NoneCounted | iOSLearnigDemo/General/SourceLib/CF-1153.18/CFBitVector.c:346-350 | A count is zero exactly if no bit of the range has the value |
| BitVector.Vector.InternalMap | iOSLearnigDemo/General/SourceLib/CF-1153.18/CFBitVector.c:284-316 | Ramping up, whole buckets and ramping down together map exactly the range, and count or extract exactly its bits |
| BitVector.Vector.GetCountOfBit | iOSLearnigDemo/General/SourceLib/CF-1153.18/CFBitVector.c:335-344 | The number of positions in the range with the value, and nothing changes |
| BitVector.Vector.ContainsBit | iOSLearnigDemo/General/SourceLib/CF-1153.18/CFBitVector.c:346-350 | Whether some bit of the range has the value |
| BitVector.Vector.GetBits | iOSLearnigDemo/General/SourceLib/CF-1153.18/CFBitVector.c:401-411 | For every range: its bits packed most significant first with a zero tail if it starts on a byte boundary or lies within a byte, and otherwise one byte from its last bucket; nothing in the vector changes |
| BitVector.CrossingRange | iOSLearnigDemo/General/SourceLib/CF-1153.18/CFBitVector.c:365-411 | For every range that starts inside a byte and crosses its end there is a vector whose bits come out wrong |
| BitVector.Vector.FlipBits | iOSLearnigDemo/General/SourceLib/CF-1153.18/CFBitVector.c:486-492 | Exactly the bits of the range change |
| BitVector.Vector.SetBits | iOSLearnigDemo/General/SourceLib/CF-1153.18/CFBitVector.c:501-511 | Exactly the bits of the range take the value |
| BitVector.Vector.SetAllBits | iOSLearnigDemo/General/SourceLib/CF-1153.18/CFBitVector.c:513-528 | Exactly the bits below the count take the value |
| BitVector.Vector.SetCount | iOSLearnigDemo/General/SourceLib/CF-1153.18/CFBitVector.c:456-473 | Old bits stay and new bits read zero, whatever the grown store held |
| BitVector.Vector.Grow | iOSLearnigDemo/General/SourceLib/CF-1153.18/CFBitVector.c:437-446 | A grown or shrunk store keeps the counted bits |
| BitVector.Vector.GetBitAtIndex | iOSLearnigDemo/General/SourceLib/CF-1153.18/CFBitVector.c:352-356 | Reads the bit of the bucket for index divided by eight, counted from the most significant |
| BitVector.Vector.SetBitAtIndex | iOSLearnigDemo/General/SourceLib/CF-1153.18/CFBitVector.c:494-499 | One bit takes the value and no other changes |
| BitVector.Vector.FlipBitAtIndex | iOSLearnigDemo/General/SourceLib/CF-1153.18/CFBitVector.c:475-480 | One bit changes and no other |
| BinaryHeap.Heap.AddValue | iOSLearnigDemo/General/SourceLib/CF-1153.18/CFBinaryHeap.c:367-396 | Heap order stays and exactly the value is added; if it is not less than its parent it stays at the end |
| BinaryHeap.Heap.SiftHoleUp | iOSLearnigDemo/General/SourceLib/CF-1153.18/CFBinaryHeap.c:382-395 | The hole moves up until the value settles: a heap of the same items, unmoved if they were a heap already |
| BinaryHeap.Heap.RemoveMinimumValue | iOSLearnigDemo/General/SourceLib/CF-1153.18/CFBinaryHeap.c:398-430 | Heap order stays and exactly one item goes, which the comparator does not find greater than any |
| BinaryHeap.Heap.SiftHoleDown | iOSLearnigDemo/General/SourceLib/CF-1153.18/CFBinaryHeap.c:413-429 | The hole moves to smaller children until the value settles: a heap of exactly the items left |
| BinaryHeap.Heap.GetMinimumIfPresent | iOSLearnigDemo/General/SourceLib/CF-1153.18/CFBinaryHeap.c:314-319 | The comparator does not find the returned value greater than any item |
| BinaryHeap.Heap.CreateCopy | iOSLearnigDemo/General/SourceLib/CF-1153.18/CFBinaryHeap.c:266-269 | The copy holds the items in the same bucket order, because no item sifts |
| BinaryHeap.Heap.GetValues | iOSLearnigDemo/General/SourceLib/CF-1153.18/CFBinaryHeap.c:321-337 | The values are a permutation of the items in which the comparator finds none greater than a later one, and the heap itself is unchanged |
| BinaryHeap.Heap.Grow | iOSLearnigDemo/General/SourceLib/CF-1153.18/CFBinaryHeap.c:355-365 | There is room for one more and the items stay |
| BinaryHeap.RootIsMinimum | iOSLearnigDemo/General/SourceLib/CF-1153.18/CFBinaryHeap.c:308-312 | In heap order the comparator does not find the root greater than any item |
| BinaryHeap.OrderedSays | iOSLearnigDemo/General/SourceLib/CF-1153.18/CFBinaryHeap.c:384-390 | Heap order says that the comparator finds no item greater than a child of it |
| BinaryHeap.SiftUp | iOSLearnigDemo/General/SourceLib/CF-1153.18/CFBinaryHeap.c:384-390 | Moving a parent into the hole leaves only the hole's new place in question |
| BinaryHeap.SiftDown | iOSLearnigDemo/General/SourceLib/CF-1153.18/CFBinaryHeap.c:415-428 | Moving the smaller child into the hole does the same downwards |
| BinaryHeap.DrainStep | iOSLearnigDemo/General/SourceLib/CF-1153.18/CFBinaryHeap.c:331-335 | Taking the root keeps the output sorted and below what is left |

## Left out

- Garbage-collector flags, write barriers, Objective-C dispatch, allocation failure, debug assertions, descriptions and threads, in all components.
- App headers, view controllers, bundles, preferences and CFBase: declarations, plumbing or dispatch.
- PlistReader.CreateObject: does not model mutable options, key paths and other filters, because they select among values and do not change how bytes are read.
- PlistReader.CreateContainer: dictionaries are kept as the list of keys and values that the reader passes on; how CFDictionary merges equal keys is not part of this model.
- PlistFormat: which decoded objects are shared, and the integer type that a cached CFNumber has; strings are their UTF-16 units, and bytes from 0x80 on in an ASCII string are the units of ISO Latin 1, as CFString.c:592-597 and CFStringEncodings.c:444-445 have it. Reals are their IEEE bit patterns, with infinities and NaN replaced as CFNumber.c:1054-1065 has it.
- PlistAppend.Write: does not model sets, URLs and UUIDs as input or the data and null targets of the write buffer; objects number fewer than 2 to the 32, and the failure of the stream is a script.
- PlistAppend.AppendObject: 128-bit integers are written as the source writes them, but are in the exact round trip only where their high half is zero.
- ArrayDeque.MutableArray.ReplaceValues: counts stay below the largest that the capacity arithmetic in a C int allows, and new values that alias the store are not modelled.
- ArraySearch.BSearchValues: the comparator is a consistent order; `CFQSortArray` is not part of this model.
- HashCover.AllProbesCover: that the roots are primitive and the last table size is prime is a hypothesis for the styles that no collection of the library asks for; tables with linear probing need neither.
- HashCover.ExponentialProbesCover: the last table size is not used with exponential probing, because products of two of its indices do not fit 64 bits; folding instead of dividing on 32-bit ARM is not modelled.
- HashTable.BasicHash.AddValue: the hash callback agrees on equal keys and is given on their classes; retain and release callbacks are taken as the identity, and the mutation counter for fast enumeration, the hash cache, indirect keys and weak or strong modes are not modelled.
- HashRank.RemoveIntValueAndDec: for a rank that some key has, the last one with a count of one, because the source leaves a count behind on a tombstone (`CountIsLeftBehind`) and indexes out of bounds otherwise.
- HashEqual.GetCount: sums that overflow a CFIndex wrap, as the machine has it; the C standard leaves them undefined.
- HashEqual.AreEqual: equality callbacks are equivalence relations, given by the class of each word.
- CFBasicHash enumeration, copying, counting of values and removal at an index: they only read, or repeat what is modelled.
- Utf8Encoder.ToUtf8: does not model the HFS+ mode, which lets lone surrogates and five- and six-byte forms through.
- Utf8Decoder.FromUtf8: does not model decomposition and the lenient mode; the tests for surrogates and for numbers beyond UTF-16 that follow the legality test are not repeated, because a legal sequence spells a scalar.
- The 8-bit code page converters: tables.
- BigNum.Add: the result is a new value, so operands that alias the result are not modelled, and digits of one billion or more as input are not.
- BigNumText.ToCString: buffers without room for the sign and the terminator.
- BigNumText.FromCString: `atol` is clamped at the ends of a long, where the C standard leaves overflow undefined.
- The 8-, 16- and 32-bit and unsigned conversions of big numbers, and conversion to CFNumber: easier cases of the signed 64- and 128-bit ones.
- BitVector.Vector.GetBits: the bytes written are returned, not stored through a pointer, so what the other bytes of the buffer held is not modelled.
- BitVector equality: it compares the stale bits behind the count.
- BinaryHeap.Heap.AddValue: retain callbacks are taken as the identity; counts stay below 2 to the 30, where rounding the capacity in a C int would overflow.
- BinaryHeap equality: its test is inverted for comparators that return zero on equality.
