# CoreFoundation collections and formats, verified

This project models eight parts of CoreFoundation (CF-1153.18) in Dafny and proves that the packed or
fast form each of them uses does what its simple meaning says.

* **Binary property lists** (`Bytes`, `Plist*`): the writer that flattens an object graph with uniquing
  and emits it through a fixed buffer in the shortest forms, and the reader that validates a trailer and rebuilds objects with
  an offset-keyed cache and a path set that starts at depth 16. Reading what was written gives the value
  back, with its exact condition; the cache cannot be observed; the reader terminates and accepts exactly
  acyclic, decodable graphs, from files of exactly one shape.
* **Hash tables** (`Hash*`, `BasicHash`): open addressing with tombstones, substituted sentinels, widening
  counters, growing, shrinking and integer renumbering. Any run of operations is the fold of the map or
  multiset operations, the table's size is the fold of the growth rule, and retains and releases balance.
* **Arrays** (`ArrayDeque`, `ArraySearch`): range replacement inside a deque block in all of its move
  cases, the power-of-two binary search and the exchange sort.
* **UTF-8** (`Utf8`, `Utf8Text`, `Utf8Convert`): conversion in both directions and both length functions,
  against section 3 and section 4 of RFC 3629 and section 2 of RFC 2781.
* **Big numbers** (`BigNum`, `BigNumText`): five base-10^9 digits with sign in 32 bits each, when their
  arithmetic, comparison and decimal text are exact, and by how much they are off otherwise.
* **Heaps** (`BinaryHeap`), **bit vectors** (`Bits`, `BitVector`) and the **application preferences**
  cache (`Preferences`).

Code that changes things in place is modelled by classes and arrays whose methods are proved against
functions on values; the laws are lemmas about those functions. Integer widths, wrap-around and
truncation are written out where they matter. `dafny verify dfyconfig.toml` checks all files.

Where the code does not meet the plain statement of a law, the code is kept, an input that shows it is
given, and the exact condition is proved: dictionary keys that are collections and wide integers in
property lists (`RoundTripExactly`), strings and UIDs that the reader would take from fewer bytes
(`StringIsShortestExactly`, `UidIsShortest`), bag totals beyond 64 bits (`AnswerIsRightExactlyWhen`), digit sums
equal to the base (`SumIsNormalExactly`), sums and differences of digits that are not normal (`Add`,
`NearlyNormalAdds`), comparison with a negative zero (`Compare`), text that does not fit its buffer or its
digits (`TextRoundTrip`, `FromCString`), the reported consumption before a surrogate pair that does not fit
(`FromUtf8`), room of 2^32 bytes and more (`NoRoomIsExact`), capacities from 2^30 on (`RoundUpIsEnough`),
and removal of a domain that occurs three times or more (`PrunedKeeps`).

How the parts are modelled:

* An object graph is its unfolding with the address of the object at every node, so shared objects occur
  several times with one address; the uniquing set compares by address or by content, and every theorem
  holds for both. Floating-point numbers and dates are their eight or four bytes. Dictionaries are keys
  followed by values, in the order the dictionary lists them.
* The reader is stated over a graph of offsets that a byte string decodes to; a byte-level decoder gives
  that graph for every accepted file.
* Streams, key callbacks, comparators and standard domains are parameters: a sequence of replies for a
  stream, a representative and a hash code for each key, a comparison function, an optional domain.
* Allocation always succeeds. The points where the code halts (a substitute word as key or value, a table
  beyond the largest size) are preconditions.

## Model

| member | source | states |
|---|---|---|
| Bytes.GetSizedInt | CF-1153.18/CFBinaryPList.c:735-757 | for any number of bytes, the loads for 1, 2, 4 and 8 bytes and the loop for the others return the big-endian number modulo 2^64 |
| Bytes.SizedIntOfBigEndian | CF-1153.18/CFBinaryPList.c:735-757 | a number written big-endian in a width it fits reads back |
| PlistLayout.SizeFor | CF-1153.18/CFBinaryPList.c:589-606 | the chosen width is 1, 2, 4 or 8 and the count fits it |
| PlistLayout.SizeForIsLeast | CF-1153.18/CFBinaryPList.c:589-606 | no smaller width of the four would do |
| PlistLayout.ByteCount | CF-1153.18/CFBinaryPList.c:589-606 | the shifting loop and its rounding up compute that width |
| PlistFlatten.FlattenKeeps | CF-1153.18/CFBinaryPList.c:543-585 | flattening any graph, under either uniquing rule, keeps every number within the list and leading to an equal object, and gives every child of a listed container a number |
| PlistFlatten.FlattenListsOnce | CF-1153.18/CFBinaryPList.c:543-585 | each string, number, date and data value the uniquing set identifies is listed once |
| PlistFlatten.FlattenListsUnknown | CF-1153.18/CFBinaryPList.c:543-585 | an object without an encoding is listed exactly when the graph contains one |
| PlistFlatten.Flattener.Run | CF-1153.18/CFBinaryPList.c:543-585 | the recursive procedure over the growing list, table and uniquing set computes that flattening |
| PlistOrder.ListedInOrder | CF-1153.18/CFBinaryPList.c:543-585 | for any graph and either uniquing rule the list is the preorder of the graph, from which exactly those strings, numbers, dates and data are left out that are like one met before |
| PlistOrder.FirstsDiffer | CF-1153.18/CFBinaryPList.c:543-585 | no two listed objects of those kinds are alike |
| PlistOrder.WrittenOnce | CF-1153.18/CFBinaryPList.c:549-560 | with uniquing by content no two listed leaves have equal content, unless they are booleans or UIDs |
| PlistWriter.WriteBuffer.WriteBytes | CF-1153.18/CFBinaryPList.c:169-205 | whatever the stream answers, it receives a prefix of the bytes; all of them unless the error is set, and the error is set exactly when the last reply asked for was zero or less, all earlier ones having been positive; nothing is written or asked after an error |
| PlistWriter.WriteBuffer.Flush | CF-1153.18/CFBinaryPList.c:207-210 | without an error the destination then holds everything written so far |
| PlistWriter.WriteBuffer.Write | CF-1153.18/CFBinaryPList.c:212-237 | destination plus buffer always hold exactly what was written: the buffered writer refines plain appending, for pieces of any size |
| PlistWriter.WriteBuffer.AppendInt | CF-1153.18/CFBinaryPList.c:329-350 | appends the encoding of the number |
| PlistWriter.WriteBuffer.AppendUid | CF-1153.18/CFBinaryPList.c:352-371 | appends the encoding of the UID |
| PlistWriter.WriteBuffer.AppendString | CF-1153.18/CFBinaryPList.c:373-404 | appends the ASCII or the UTF-16 form with its count; the marker is the one of the ASCII form exactly when all characters are ASCII |
| PlistWriter.WriteBuffer.AppendNumber | CF-1153.18/CFBinaryPList.c:408-454 | appends the encoding of a number, in 16 bytes when it has the 128-bit type |
| PlistWriter.WriteBuffer.AppendObject | CF-1153.18/CFBinaryPList.c:456-541 | appends the encoding of an object, or reports that it has none |
| PlistWriter.WriteObject | CF-1153.18/CFBinaryPList.c:658-676 | records the offset of an object and appends it |
| PlistWriter.WriteOffsets | CF-1153.18/CFBinaryPList.c:680-690 | appends the offset table in the chosen width |
| PlistWriter.WritePlist | CF-1153.18/CFBinaryPList.c:610-707 | for every sequence of stream replies the destination holds a prefix of the file; a non-zero length means the whole file and its exact length; when every object has an encoding the length is zero if and only if the last reply asked for was the first of zero or less |
| PlistLayout.LayoutLength | CF-1153.18/CFBinaryPList.c:680-706 | header, objects, table and trailer add up to the length |
| PlistLayoutProofs.WrittenTrailerIsAccepted | CF-1153.18/CFBinaryPList.c:652-706 | every table entry of a written file lies before the table, and widths and sizes satisfy all checks of the reader |
| PlistLayoutProofs.WriterIsAccepted | CF-1153.18/CFBinaryPList.c:759-847 | the validator accepts every file the writer lays out and starts at the first object |
| PlistShortest.FileIsTight | CF-1153.18/CFBinaryPList.c:652-706 | offsets and references of a written file have the least widths that hold the end of the objects and their number, and the file is header, objects, table and trailer |
| PlistReader.CheckedMul | CF-1153.18/CFBinaryPList.c:64-75 | the overflow flag is exact and the product right without it |
| PlistReader.CheckedAdd | CF-1153.18/CFBinaryPList.c:64-75 | the overflow flag is exact and the sum right without it |
| PlistReader.CheckTrailer | CF-1153.18/CFBinaryPList.c:759-820 | the sequence of tests with 64-bit overflow checks accepts exactly the trailers whose sizes add up |
| PlistReader.CheckTopLevel | CF-1153.18/CFBinaryPList.c:759-847 | for any bytes, the checks and the loop over the offset table give what the specification of an acceptable file gives |
| PlistForms.AcceptedExactly | CF-1153.18/CFBinaryPList.c:759-847 | the validator accepts exactly the byte strings put together from a header, objects, a table whose entries lie before it, and a trailer whose widths and counts fit |
| PlistForms.AcceptableIsAccepted | CF-1153.18/CFBinaryPList.c:759-847 | such a file is read from the object the top entry leads to |
| PlistReader.ParsePlist | CF-1153.18/CFBinaryPList.c:1566-1608 | validation and the recursive reader with cache and path compute the specified parse of any bytes, and no recursive call is deeper than 16 levels plus the number of objects |
| PlistGraph.Reader.CreateObject | CF-1153.18/CFBinaryPList.c:1061-1125 | the reader that updates its cache and path in place computes that function, and the deepest call it makes is at most 16 levels deeper than the number of distinct offsets |
| PlistGraph.Reader.CreateCollection | CF-1153.18/CFBinaryPList.c:1323-1435 | one collection: path bookkeeping, elements, and the cache entry when the result is immutable |
| PlistGraph.Reader.CreateElements | CF-1153.18/CFBinaryPList.c:1377-1526 | the element loop reads the references in order, stops at the first failure or collection key, and keeps the same bound on the depth |
| PlistGraphProofs.ReadReturnsMeaning | CF-1153.18/CFBinaryPList.c:1061-1559 | from any sound cache the reader returns a value exactly when a reader without cache, path and depth would |
| PlistGraphProofs.CacheIsTransparent | CF-1153.18/CFBinaryPList.c:1063-1073 | for all bytes, caches read from them and mutability options, reading with the cache succeeds exactly when reading without it does, and with the same value |
| PlistGraphProofs.NothingMutableIsShared | CF-1153.18/CFBinaryPList.c:1211-1276 | the cache never holds a collection when mutable containers are asked for, nor a string or data when mutable leaves are |
| PlistGraphProofs.ReadSucceedsExactlyWhenAcyclic | CF-1153.18/CFBinaryPList.c:1323-1328 | the reader succeeds exactly when nothing reachable lies on a cycle and everything reachable can be decoded |
| PlistScanProofs.ReadIntOfEncodeInt | CF-1153.18/CFBinaryPList.c:855-869 | reading a written count gives it back and ends where it ends |
| PlistScanProofs.ScanOfPrim | CF-1153.18/CFBinaryPList.c:1079-1321 | the bytes of any non-container object decode to its value, strings and data of any length included |
| PlistScanProofs.OffsetOfWrittenRef | CF-1153.18/CFBinaryPList.c:872-886 | a written reference leads to the offset the table holds for that object |
| PlistScanProofs.ScanOfContainer | CF-1153.18/CFBinaryPList.c:1377-1526 | the bytes of a container decode to the offsets of its children, in order |
| PlistForms.ScanFailsExactly | CF-1153.18/CFBinaryPList.c:1079-1321 | for any bytes and offset, decoding fails exactly outside the objects and where neither a fixed form with its bytes nor a counted form with its payload stands |
| PlistForms.CountFailsExactly | CF-1153.18/CFBinaryPList.c:855-869 | reading a count fails exactly when it is not in the marker and what follows is no number inside the objects that fits |
| PlistForms.CountIs | CF-1153.18/CFBinaryPList.c:855-869 | a count is the low half of the marker, or the number that follows in as many bytes as its marker says |
| PlistForms.PayloadIs | CF-1153.18/CFBinaryPList.c:1190-1279 | data and strings are exactly the bytes, or byte pairs, after the head |
| PlistForms.ReferenceIs | CF-1153.18/CFBinaryPList.c:872-886 | a reference of any collection leads to the table entry it numbers, or nowhere when there is none |
| PlistForms.ReaderUsesFormat | CF-1153.18/CFBinaryPList.c:247-267 | the kind of what is decoded is the one the format description gives for the marker |
| PlistForms.WriterUsesFormat | CF-1153.18/CFBinaryPList.c:247-267 | every object is written with a marker the format description gives for its kind |
| PlistForms.WriterUsesFormatForCollections | CF-1153.18/CFBinaryPList.c:481-535 | dictionaries and arrays are written with the markers the format description gives for them |
| PlistForms.NullIsRead | CF-1153.18/CFBinaryPList.c:1085-1089 | the null marker decodes to null |
| PlistForms.PaddedIntIsRead | CF-1153.18/CFBinaryPList.c:1098-1121 | a number in 1, 2, 4 or 8 bytes decodes to itself whether it needs them or not, eight bytes as signed |
| PlistForms.SetIsRead | CF-1153.18/CFBinaryPList.c:1323-1435 | the set form decodes to the offsets of its elements, in order |
| PlistShortest.StringIsShortestExactly | CF-1153.18/CFBinaryPList.c:373-404 | no accepted file holds the string in fewer bytes, if and only if it is not one of one-byte characters some of which are not ASCII |
| PlistShortest.StringMarker | CF-1153.18/CFBinaryPList.c:373-404 | the marker of a string is 5 exactly when all characters are ASCII, and 6 otherwise |
| PlistShortest.DataIsShortest | CF-1153.18/CFBinaryPList.c:467-474 | no accepted file holds data in fewer bytes |
| PlistShortest.IntIsShortest | CF-1153.18/CFBinaryPList.c:329-350 | no accepted file holds a number of the 64-bit type in fewer bytes |
| PlistShortest.CountIsShortest | CF-1153.18/CFBinaryPList.c:329-350 | however a count was written, the head the writer uses for it is no longer |
| PlistShortest.UidIsShortest | CF-1153.18/CFBinaryPList.c:352-371 | a UID is held in fewer bytes only by the three-byte form, for one that needs three |
| PlistShortest.ThreeByteUid | CF-1153.18/CFBinaryPList.c:352-371 | such a UID: 65536 is read from three bytes and written in four |
| PlistShortest.CollectionIsShortest | CF-1153.18/CFBinaryPList.c:481-535 | with references of the same width no collection of as many elements is held in fewer bytes |
| PlistShortest.WideIntBytes | CF-1153.18/CFBinaryPList.c:408-454 | a number of the 128-bit type is written in sixteen bytes that lose nothing of it |
| Plist.KeptIsDenoted | CF-1153.18/CFBinaryPList.c:1107-1120 | dropping the high half of 128-bit numbers loses nothing exactly when they all fit 64 bits |
| PlistRoundTrip.EncodeFailsExactly | CF-1153.18/CFBinaryPList.c:456-541 | the writer refuses a graph exactly when it contains an object without an encoding |
| PlistRoundTrip.RoundTrip | CF-1153.18/CFBinaryPList.c:610-707 | for every acyclic graph within the size limits, either uniquing rule and any mutability, reading the written file gives the value with sharing resolved, or rejects it exactly when a collection is a dictionary key |
| PlistRoundTrip.RoundTripExactly | CF-1153.18/CFBinaryPList.c:1107-1120 | the value read is the value written if and only if no collection is a dictionary key and no 128-bit number lies outside the unsigned 64-bit range |
| PlistRoundTrip.WideIntKeepsLowHalf | CF-1153.18/CFBinaryPList.c:1114-1118 | a 128-bit number comes back as its low 64 bits |
| PlistRoundTrip.ArrayAsKeyIsLost | CF-1153.18/CFBinaryPList.c:1516 | a dictionary whose key is an empty array is written and its file rejected |
| HashStore.MaskRoundTrip | CF-1153.18/CFBasicHash.c:493-514 | a value survives storing exactly when it is not one of the two substitutes, and never reads as empty or deleted |
| HashStore.Store.BumpCounts | CF-1153.18/CFBasicHash.c:569-626 | the same counts in wider counters |
| HashStore.Store.IncCounter | CF-1153.18/CFBasicHash.c:628-676 | one count goes up by one; the others keep their values through any widening |
| HashStore.Store.Fill | CF-1153.18/CFBasicHash.c:1275-1281 | a free bucket becomes live with count one; all others stay |
| HashStore.Store.Replace | CF-1153.18/CFBasicHash.c:1293-1297 | one live bucket gets a new key and value and keeps its count |
| HashStore.Store.Remove | CF-1153.18/CFBasicHash.c:1302-1308 | one live bucket becomes deleted |
| HashStore.Store.DecCount | CF-1153.18/CFBasicHash.c:678-687 | one count above one goes down by one |
| HashTables.TablesAreSane | CF-1153.18/CFBasicHash.c:225-259 | the constant tables leave room in every size and grow strictly |
| HashSteps.IndexForCapacity | CF-1153.18/CFBasicHash.c:702-708 | for every capacity the tables have room for, the least index with that room, or the one after it when growing fast |
| HashSteps.Probe | CF-1153.18/CFBasicHashFindBucket.m:107-180 | linear probing returns a live bucket with an equal key; otherwise a free bucket on an unbroken probe path if there is one, and -1 only if all are live |
| HashSteps.AbsentAfter | CF-1153.18/CFBasicHashFindBucket.m:107-125 | meeting an empty bucket, or all buckets, without meeting the key proves the key absent |
| HashSteps.FindEmpty | CF-1153.18/CFBasicHashFindBucket.m:107-125 | the first empty bucket on the probe path |
| HashSteps.Migrate | CF-1153.18/CFBasicHash.c:1198-1232 | moving every live bucket to new buckets keeps all entries and their counts and leaves no deleted bucket |
| HashModel.FillKeeps | CF-1153.18/CFBasicHash.c:1259-1286 | filling a free bucket reached by probing keeps every entry findable and adds one |
| HashModel.RemoveKeeps | CF-1153.18/CFBasicHash.c:1300-1312 | a deleted mark keeps every other entry findable |
| HashModel.SizeOfIndex | CF-1153.18/CFBasicHash.c:931-941 | the number of keys is the number of live buckets |
| BasicHash.Table.constructor | CF-1153.18/CFBasicHash.c:1583-1654 | an empty table |
| BasicHash.Table.FindBucket | CF-1153.18/CFBasicHash.c:718-722 | a positive count exactly for a key that is there, with its bucket and entry; otherwise a fillable bucket if one exists |
| BasicHash.Table.Rehash | CF-1153.18/CFBasicHash.c:1127-1249 | the same entries and the same retained words in fresh buckets, none deleted, at exactly the index the size rule gives for the requested room |
| BasicHash.Table.AddBucket | CF-1153.18/CFBasicHash.c:1259-1286 | adds one entry, rehashing first when the capacity is reached, to exactly the index the size rule gives; retains key and value once; needs no more than that such an index exists |
| BasicHash.Table.ReplaceBucket | CF-1153.18/CFBasicHash.c:1288-1298 | replaces key and value of one entry, keeps its count, retains the new and releases the old ones |
| BasicHash.Table.MarkDeleted | CF-1153.18/CFBasicHash.c:1300-1314 | one entry less, one deleted bucket more, the 16-bit counter possibly rolled over to zero |
| BasicHash.Table.Tidy | CF-1153.18/CFBasicHash.c:1315-1329 | a sparse table ends at the least index; otherwise the size stays and too many deleted buckets, or a rolled-over counter, end in none deleted; entries never change |
| BasicHash.Table.RemoveBucket | CF-1153.18/CFBasicHash.c:1300-1330 | removes one entry and releases its key and value once |
| BasicHash.Table.AddValue | CF-1153.18/CFBasicHash.c:1332-1350 | the entries change as the map operation says, a full count sticking; true exactly when they changed; a known key is accepted in a table of any size |
| BasicHash.Table.ReplaceValue | CF-1153.18/CFBasicHash.c:1352-1362 | changes only an entry that is there |
| BasicHash.Table.SetValue | CF-1153.18/CFBasicHash.c:1364-1376 | replaces or adds |
| BasicHash.Table.RemoveValue | CF-1153.18/CFBasicHash.c:1378-1391 | takes one from the count or removes the entry; returns the count before; the substitutes are never found |
| BasicHash.Table.SetCapacity | CF-1153.18/CFBasicHash.c:1251-1257 | no entry changes, the capacity suffices and the index is the one the size rule gives |
| BasicHash.Table.RemoveAllValues | CF-1153.18/CFBasicHash.c:1062-1119 | no entries left and every retain matched by a release |
| BasicHash.Table.AddIntValue | CF-1153.18/CFBasicHash.c:1413-1443 | a new key takes the number and those from there on move up, also when a rehash happens first; a known key changes nothing |
| BasicHash.Table.RemoveIntValue | CF-1153.18/CFBasicHash.c:1445-1465 | the key with the number goes and higher numbers move down |
| HashSpec.DenseShifts | CF-1153.18/CFBasicHash.c:1413-1465 | below 0xa5baadb9 keys no renumbered value can collide with a substitute |
| HashSpec.NumberingStaysDense | CF-1153.18/CFBasicHash.c:1413-1443 | numbers 0 to n-1 become 0 to n, each once |
| HashSpec.UnnumberingStaysDense | CF-1153.18/CFBasicHash.c:1445-1465 | numbers 0 to n-1 become 0 to n-2, each once |
| HashSpec.ShiftKeepsOrder | CF-1153.18/CFBasicHash.c:1413-1465 | the other keys keep their order when one is inserted or removed |
| HashSpec.UnnumberUndoesNumber | CF-1153.18/CFBasicHash.c:1445-1465 | removing what was just inserted restores every number |
| HashSpec.NumbersAre | CF-1153.18/CFBasicHash.c:1413-1443 | the new key has the number and every other number is the old one, or one more from there on |
| HashSpec.NumbersAreWithout | CF-1153.18/CFBasicHash.c:1445-1465 | the key is gone and every other number is the old one, or one less above it |
| HashRuns.Do | CF-1153.18/CFBasicHash.c:1332-1411 | each operation is the corresponding map operation, moves the table to exactly the index the size rule gives, and keeps the invariant and the balance of retains |
| HashRuns.Run | CF-1153.18/CFBasicHash.c:1127-1411 | after any sequence of operations of any length from any table, as long as no operation needs a larger size than there is, the entries are the fold of the map operations, the size is the fold of the size rule, `used` counts live buckets, `deleted` the tombstones, and retains minus releases equal the live buckets |
| HashRuns.RunFromEmpty | CF-1153.18/CFBasicHash.c:1127-1411 | the same from an empty table and the empty map |
| HashRuns.StepFits | CF-1153.18/CFBasicHash.c:1136-1144 | the size the rule picks has room for what any operation leaves, so the rule can be folded over a run |
| HashRuns.ShortRunsAreAllowed | CF-1153.18/CFBasicHash.c:702-708 | no operation of a run needs a larger size than there is if the entries and the length of the run together stay within the largest one |
| HashLaws.AddsAreCounted | CF-1153.18/CFBasicHash.c:1332-1350 | after any run that touches a class only by adding it, a bag counts it the smaller of LONG_MAX and the old count plus the adds, a set or dictionary once; an entry that was there keeps key and value |
| HashLaws.FirstAddGives | CF-1153.18/CFBasicHash.c:1332-1350 | the first add of an absent class gives key and value, whatever is added later |
| HashLaws.UntouchedStays | CF-1153.18/CFBasicHash.c:1332-1411 | a run leaves the entry of every class it does not touch |
| HashLaws.RemovesAreCounted | CF-1153.18/CFBasicHash.c:1378-1391 | after any run that touches a class only by removing it, the count is lower by the removals, the entry gone at none; a count of LONG_MAX sticks |
| HashLaws.RemovesUndoAdds | CF-1153.18/CFBasicHash.c:1332-1391 | in a bag as many removals as adds restore the entry if and only if the count did not reach LONG_MAX on the way, or was there already |
| HashLaws.LastSetWins | CF-1153.18/CFBasicHash.c:1364-1376 | after any run the last key and value set are the ones the class has, and its count goes on from before |
| HashLaws.ReplaceOnlyThere | CF-1153.18/CFBasicHash.c:1352-1362 | in any run replacing is setting for a class that is there, and nothing for one that is not |
| HashLaws.RemoveAllForgets | CF-1153.18/CFBasicHash.c:1407-1411 | what came before the removal of everything does not matter |
| HashLaws.AllowedExactly | CF-1153.18/CFBasicHash.c:702-708 | an operation is allowed exactly when it needs no larger size, or there is one, and one beyond it when growing fast |
| HashLaws.GrowsOnlyWhenFull | CF-1153.18/CFBasicHash.c:1259-1263 | a table grows only for a new key when it is full, to the least size for one more entry, or one beyond it |
| HashLaws.ShrinksFar | CF-1153.18/CFBasicHash.c:1315-1323 | a removal shrinks a table exactly when what is left would fit two sizes below, or five when growing fast, with room to spare, and drops at least that many sizes |
| HashLaws.ReservesExactly | CF-1153.18/CFBasicHash.c:1251-1257 | asking for a capacity moves a table exactly when it is more than the entries there are |
| HashQueries.UsedIsSize | CF-1153.18/CFBasicHash.c:931-941 | `used_buckets` is the number of entries |
| HashQueries.EntriesAreSound | CF-1153.18/CFBasicHash.c:628-676 | every table holds counts from 1 to LONG_MAX, and 1 without counts |
| HashQueries.Count | CF-1153.18/CFBasicHash.c:931-941 | the sum of all counts modulo 2^64 |
| HashQueries.CountOfKey | CF-1153.18/CFBasicHash.c:943-951 | the count of the entry, zero for an absent key or a substitute |
| HashQueries.MatchedTotalsAgree | CF-1153.18/CFBasicHash.c:971-989 | when every entry of one collection matches in the other, the totals agree exactly when the keys do |
| HashQueries.AreEqual | CF-1153.18/CFBasicHash.c:971-989 | the answer is the comparison of totals in 64 bits and of the entries of the first table; with totals below 2^64 it is yes exactly when keys, counts and, in dictionaries, values are equal |
| HashQueries.ComparisonIsExact | CF-1153.18/CFBasicHash.c:971-989 | with totals below 2^64 the answer is yes exactly when both have the same keys with equal counts and, in dictionaries, equal values, although only the first is walked |
| HashQueries.AnswerIsRightExactlyWhen | CF-1153.18/CFBasicHash.c:971-989 | for all collections: a no is right; the answer is right if and only if the totals differ in 64 bits, or they are not zero there and some entry has no match, or all entries match and the totals are equal before they are cut |
| HashQueries.OneValueDiffers | CF-1153.18/CFBasicHash.c:982 | dictionaries with the same keys and one unequal value are told apart |
| HashQueries.OverflowingTotalsCompareEqual | CF-1153.18/CFBasicHash.c:931-941 | a bag whose counts add up to 2^64 compares equal to an empty one, and to one with other keys and the same total |
| HashQueries.CompareEntries | CF-1153.18/CFBasicHash.c:991-1002 | stopping after as many live buckets as are used still compares every entry |
| HashQueries.FastEnumeration | CF-1153.18/CFBasicHash.c:1035-1052 | a batch is the next live keys in bucket order, and a batch that is not full ends the enumeration |
| HashQueries.Enumerate | CF-1153.18/CFBasicHash.c:1035-1052 | for any batch size, repeated calls until an empty batch give every stored key exactly once, in bucket order |
| ArrayDeque.RoundUpIsEnough | CF-1153.18/CFArray.c:47-50 | the rounded capacity is larger than the request exactly below 2^30 |
| ArrayDeque.RoundedIsPower | CF-1153.18/CFArray.c:47-50 | below 2^30 the rounded capacity is a power of two |
| ArrayDeque.RightMovedSpreads | CF-1153.18/CFArray.c:819-826 | moving the right part opens or closes the gap, keeps both parts and clears what was vacated |
| ArrayDeque.LeftMovedSpreads | CF-1153.18/CFArray.c:827-835 | the same for moving the left part |
| ArrayDeque.BothMovedSpreads | CF-1153.18/CFArray.c:836-858 | re-centering in either copy order keeps both parts although the moves overlap, and clears what was vacated |
| ArrayDeque.MoveWithin | CF-1153.18/CFArray.c:819-858 | an overlapping move |
| ArrayDeque.MutableArray.RetainAll | CF-1153.18/CFArray.c:934-943 | each new value is retained once |
| ArrayDeque.MutableArray.ReleaseValues | CF-1153.18/CFArray.c:197-240 | each value of the range is released once and its bucket cleared |
| ArrayDeque.MutableArray.Reallocate | CF-1153.18/CFArray.c:795-817 | a larger block with both parts in place and the gap between them, with as much free space on the left as on the right, or one less |
| ArrayDeque.MutableArray.Recenter | CF-1153.18/CFArray.c:836-858 | both parts in place with the gap between them |
| ArrayDeque.MutableArray.RepositionRegions | CF-1153.18/CFArray.c:775-859 | in all cases the parts before and after the range stay in order around a gap of the new size, inside the block; the block stays exactly when the new count fits and an insertion leaves enough slack; the size limit applies only where a new block is needed |
| ArrayDeque.MutableArray.ReplaceValues | CF-1153.18/CFArray.c:922-993 | the contents become prefix, new values, suffix; new values retained once and replaced ones released once; vacated buckets cleared; possible whenever the count stays, the block has room, or the new block is below the size limit |
| ArrayDeque.MutableArray.RemoveAllValues | CF-1153.18/CFArray.c:762-771 | empty, every value released once, storage given up |
| ArraySearch.BSearchValues | CF-1153.18/CFArray.c:1074-1100 | on any sorted range the result is the location plus the number of lesser values |
| ArraySearch.Search | CF-1153.18/CFArray.c:1080-1099 | the overlapping power-of-two windows end at the lower bound |
| ArraySearch.ZSort | CF-1153.18/CFArray.c:1006-1018 | the range is sorted, a permutation of itself, and nothing outside it changes |
| Utf8.IsLegal | CF-1153.18/CFBuiltinConverters.c:999-1011 | accepts exactly the byte sequences of section 4 of RFC 3629 |
| Utf8.EncodedIsLegal | CF-1153.18/CFBuiltinConverters.c:923-944 | what the writer emits for a scalar value is legal and the reader's sum and offset give the value back |
| Utf8.LegalIsEncoded | CF-1153.18/CFBuiltinConverters.c:1046-1056 | every legal sequence is the encoding of the value the reader computes |
| Utf8Laws.EncodingKeepsOrder | CF-1153.18/CFBuiltinConverters.c:923-944 | encodings have the order of the scalar values |
| Utf8Laws.PairsKeepOrder | CF-1153.18/CFBuiltinConverters.c:1092-1097 | above U+FFFF a scalar value is a high and a low surrogate in the order of the values; below it is its own unit |
| Utf8Convert.WriteScalar | CF-1153.18/CFBuiltinConverters.c:923-944 | writes the encoding in place when the room, cut to 32 bits, suffices, and nothing otherwise |
| Utf8Convert.NextScalar | CF-1153.18/CFBuiltinConverters.c:955-974 | the surrogate branches find the next scalar value or the lone surrogate |
| Utf8Convert.ToUtf8 | CF-1153.18/CFBuiltinConverters.c:946-986 | consumes a prefix on a scalar boundary, the bytes encode exactly that prefix, and it stops only at the end, at a lone surrogate or for lack of room |
| Utf8Convert.NoRoomIsExact | CF-1153.18/CFBuiltinConverters.c:976-980 | the writer stops exactly where the next scalar value does not fit, if and only if it is not one beyond ASCII with 2^32 bytes of room or more and too few in the low 32 bits |
| Utf8Convert.RoomIsCut | CF-1153.18/CFBuiltinConverters.c:976-980 | with more room it can stop although the value fits |
| Utf8Convert.NextToken | CF-1153.18/CFBuiltinConverters.c:1025-1056 | one turn of the reader: a legal sequence, a lone 0xA9, or a stop |
| Utf8Convert.FromUtf8 | CF-1153.18/CFBuiltinConverters.c:1013-1106 | writes the code units of a maximal run of sequences; the reported consumption is exact except that a pair with one unit of room left is counted as consumed |
| Utf8Convert.PairIntoOneUnit | CF-1153.18/CFBuiltinConverters.c:1092-1094 | U+10000 into one free unit: four bytes are reported as consumed and nothing is written |
| Utf8Convert.FromUtf8Len | CF-1153.18/CFBuiltinConverters.c:1125-1189 | for every byte string, the length the reader reports with enough room |
| Utf8Convert.ToUtf8Len | CF-1153.18/CFBuiltinConverters.c:1108-1123 | the sum of the widths modulo 2^32, a lone surrogate counting three |
| Utf8Convert.LengthIsExact | CF-1153.18/CFBuiltinConverters.c:1108-1123 | the count is what the writer uses exactly for well-formed input, and larger otherwise |
| Utf8Laws.LengthIsSum | CF-1153.18/CFBuiltinConverters.c:1108-1123 | the count is a sum over the code units: half a pair two, a lone surrogate three |
| Utf8Text.Scan16OfUtf16 | CF-1153.18/CFBuiltinConverters.c:955-974 | reading encoded scalar values gives them back |
| Utf8Laws.WellFormedExactly | CF-1153.18/CFBuiltinConverters.c:955-974 | what is read completely is exactly the text in which every high surrogate precedes a low one and every low one follows a high one |
| Utf8Laws.Scan16Stops | CF-1153.18/CFBuiltinConverters.c:955-974 | reading code units stops exactly at the end or at a surrogate without its partner |
| Utf8Text.Scan8OfUtf8 | CF-1153.18/CFBuiltinConverters.c:1013-1056 | the reader takes from encoded scalar values exactly those |
| Utf8Laws.Scan8OfTokens | CF-1153.18/CFBuiltinConverters.c:1025-1056 | any mixture of legal sequences and lone 0xA9 bytes is taken apart into exactly those |
| Utf8Laws.Scan8Stops | CF-1153.18/CFBuiltinConverters.c:1025-1056 | reading bytes stops exactly at the end or where no legal sequence and no 0xA9 starts |
| Utf8Laws.ReadAroundCopyright | CF-1153.18/CFBuiltinConverters.c:1034 | a lone 0xA9 between two texts is consumed as one byte and written as one U+FFFD, and both texts are read |
| Utf8Text.RoundTrip | CF-1153.18/CFBuiltinConverters.c:946-1106 | well-formed UTF-16 of any length survives the way to UTF-8 and back, surrogate pairs included |
| Utf8Text.RoundTripFromBytes | CF-1153.18/CFBuiltinConverters.c:946-1106 | so do bytes the reader takes completely, without lone 0xA9 |
| Utf8Convert.ThereAndBack | CF-1153.18/CFBuiltinConverters.c:946-1189 | counting, writing, counting and reading give back every well-formed text below 2^32 bytes |
| BigNum.TopDigitDecides | CF-1153.18/CFBigNumber.c:416-445 | on normal digits the most significant difference decides the order |
| BigNum.ValIsInjective | CF-1153.18/CFBigNumber.c:416-445 | equal values have equal normal digits |
| BigNum.AbsoluteLessThan | CF-1153.18/CFBigNumber.c:435-445 | for any 32-bit digits, true exactly when the most significant difference is in favour of the second; on normal digits that is when the first magnitude is less |
| BigNum.BelowIsLess | CF-1153.18/CFBigNumber.c:435-445 | on normal digits the order of the digits is the order of the values |
| BigNum.Compare | CF-1153.18/CFBigNumber.c:416-431 | for any 32-bit digits the order of signs and digits; on normal digits the order of the values exactly when it does not compare a zero with a negative zero |
| BigNum.ZeroAboveNegativeZero | CF-1153.18/CFBigNumber.c:430 | a zero compares as greater than a negative zero |
| BigNum.SumIsExact | CF-1153.18/CFBigNumber.c:468-479 | sum digits and final carry have exactly the value of the sum but for what 32-bit digit sums lose, although a digit sum equal to the base does not carry |
| BigNum.SumIsNormalExactly | CF-1153.18/CFBigNumber.c:470-478 | the result is normal if and only if no digit sum with its carry is the base itself |
| BigNum.HalfBillionTwice | CF-1153.18/CFBigNumber.c:471 | a sum with a digit equal to the base |
| BigNum.NoFinalBorrow | CF-1153.18/CFBigNumber.c:492-501 | for any 32-bit digits, taking what is not above from what is not below leaves no final borrow |
| BigNum.DifferenceOfLarger | CF-1153.18/CFBigNumber.c:492-501 | the difference is exact but for what negative digits gain by being cut to 32 bits, which is nothing if and only if one borrow always suffices; normal digits stay normal |
| BigNum.Add | CF-1153.18/CFBigNumber.c:465-509 | for any 32-bit digits and signs, value and carry together are the sum if and only if no digit sum wraps, or with mixed signs one borrow always suffices; otherwise they are off by exactly what the cut digits lose or gain; mixed signs never carry; operands may alias the result |
| BigNum.NormalAddsExactly | CF-1153.18/CFBigNumber.c:465-509 | normal digits always add exactly |
| BigNum.NearlyNormalAdds | CF-1153.18/CFBigNumber.c:465-509 | digits up to the base, as sums of normal digits have, add exactly with equal signs, and with mixed signs if and only if the base is never to be taken from a zero that is borrowed from |
| BigNum.DoubledLessBillionSquared | CF-1153.18/CFBigNumber.c:492-501 | such digits from which 10^18 cannot be taken: the second digit would be -1 |
| BigNum.Neg | CF-1153.18/CFBigNumber.c:448-463 | negates the value; a zero keeps its sign |
| BigNum.Sub | CF-1153.18/CFBigNumber.c:511-515 | for any 32-bit digits, value and carry together are the difference if and only if the digits add exactly with the sign of the negated operand, a zero keeping its sign |
| BigNumText.InitWithInt128 | CF-1153.18/CFBigNumber.c:138-157 | every 128-bit number gives normal digits with its value |
| BigNumText.GetInt128 | CF-1153.18/CFBigNumber.c:247-257 | the value modulo 2^128 as a signed number, and exactly the value when it fits |
| BigNumText.TextDenotes | CF-1153.18/CFBigNumber.c:526-527 | the 45 characters denote the magnitude if and only if the digits are normal, and a lesser number otherwise |
| BigNumText.PrintedIsPadded | CF-1153.18/CFBigNumber.c:526-527 | one digit is printed as its decimals, padded with zeros to nine characters |
| BigNumText.ShortestIsDecimals | CF-1153.18/CFBigNumber.c:533-536 | there is only one text of digits without a leading zero for a number |
| BigNumText.ToCString | CF-1153.18/CFBigNumber.c:518-538 | for every number and buffer with room for the sign: a minus stands first exactly for negative numbers, a plus exactly when asked for otherwise; then follow the first digits of the shortest decimal text, never with a leading zero, or with leading zeros exactly the last ones; they denote the number if and only if the digits are normal and it has no more digits than there is room for |
| BigNumText.BodyDenotes | CF-1153.18/CFBigNumber.c:528-537 | padded text keeps the last digits and its number is the residue; shortened text keeps the first ones; either is exact if and only if the number has no more digits than there is room for |
| BigNumText.BodyIsText | CF-1153.18/CFBigNumber.c:528-537 | the text is the start of the decimals of the number, or with leading zeros their end after zeros, for any room |
| BigNumText.FromCString | CF-1153.18/CFBigNumber.c:540-568 | for every text the digits are nine characters each from the end, read as the C library reads a number; for decimal text the magnitude is the number if and only if the number is below 2^32 * 10^36, and the digits are normal below 10^45 |
| BigNumText.AtolReads | CF-1153.18/CFBigNumber.c:560-566 | one digit is the number found after any space and an optional sign, up to the first other character, kept within 64 bits |
| BigNumText.ReadIsExactWhen | CF-1153.18/CFBigNumber.c:555-568 | the digits read have the number of the text as value if and only if the part left for the top digit fits 32 bits |
| BigNumText.TextRoundTrip | CF-1153.18/CFBigNumber.c:518-568 | with or without leading zeros and plus, for every buffer the text reads back with the same sign, and as the same digits if and only if they are normal and the buffer has room for the number |
| BinaryHeap.HoleUp | CF-1153.18/CFBinaryHeap.c:384-390 | moving the value above into the hole keeps a heap with a hole |
| BinaryHeap.HoleDown | CF-1153.18/CFBinaryHeap.c:414-428 | moving the lesser child into the hole keeps a heap with a hole |
| BinaryHeap.FirstIsLeast | CF-1153.18/CFBinaryHeap.c:308-312 | the first value of a heap is least |
| BinaryHeap.SiftUp | CF-1153.18/CFBinaryHeap.c:378-396 | a heap again, with exactly the new value added |
| BinaryHeap.SiftDown | CF-1153.18/CFBinaryHeap.c:413-429 | a heap again, with exactly the first value replaced |
| BinaryHeap.Queue.Grow | CF-1153.18/CFBinaryHeap.c:355-365 | room for one more, nothing lost |
| BinaryHeap.Queue.AddValue | CF-1153.18/CFBinaryHeap.c:367-396 | keeps heap order, adds exactly the value and retains it once |
| BinaryHeap.Queue.RemoveMinimumValue | CF-1153.18/CFBinaryHeap.c:398-430 | keeps heap order, takes out exactly one value, a least one, and releases it once; an empty heap stays as it is |
| BinaryHeap.Queue.GetMinimum | CF-1153.18/CFBinaryHeap.c:308-312 | a value of the heap that is not greater than any other, or NULL for an empty heap |
| BinaryHeap.Queue.RemoveAllValues | CF-1153.18/CFBinaryHeap.c:432-441 | an empty heap, every value released once |
| BinaryHeap.CreateCopy | CF-1153.18/CFBinaryHeap.c:266-269 | a heap with the same values, each retained once |
| BinaryHeap.GetValues | CF-1153.18/CFBinaryHeap.c:321-337 | a sorted permutation of the values; the heap is not changed, and the drained copy has released all it retained |
| Bits.MaskIsRange | CF-1153.18/CFBitVector.c:107-113 | the mask has exactly the bits from bottom to top |
| Bits.BucketMapped | CF-1153.18/CFBitVector.c:299-300 | a masked write of a mapped bucket maps exactly the bits of the mask |
| Bits.BucketCounted | CF-1153.18/CFBitVector.c:323-333 | the two nibble counts of a masked bucket count exactly the bits of that value in the range |
| BitVector.InternalMap | CF-1153.18/CFBitVector.c:284-316 | for every alignment and mapper exactly the bits in the range are mapped, and counting counts exactly them |
| BitVector.Vector.MapBits | CF-1153.18/CFBitVector.c:486-511 | setting, clearing and flipping change each bit of the range accordingly and no other |
| BitVector.Vector.GetCountOfBit | CF-1153.18/CFBitVector.c:335-344 | the number of bits with the value in the range; no bit changes |
| Bits.CountIsSize | CF-1153.18/CFBitVector.c:323-333 | the count is the number of places in the range that have the value |
| Bits.CountsAddUp | CF-1153.18/CFBitVector.c:335-344 | both counts add up to the length; setting makes one the length, flipping swaps them |
| Bits.FlipTwice | CF-1153.18/CFBitVector.c:486-498 | flipping a range twice restores it |
| BitVector.Vector.Grow | CF-1153.18/CFBitVector.c:437-446 | no bit is lost |
| BitVector.Vector.SetCount | CF-1153.18/CFBitVector.c:456-473 | cuts off the end or appends only zeros, whatever the memory held |
| BitVector.Vector.SetAllBits | CF-1153.18/CFBitVector.c:513-528 | every bit gets the value |
| Preferences.MergedIsFirstMatch | CF-1153.18/CFApplicationPreferences.c:267-291 | writing dictionaries over one another in reverse order is looking in the first domain that has the key |
| Preferences.FirstMatchIs | CF-1153.18/CFApplicationPreferences.c:267-291 | the answer is the value in the first domain that has the key, and there is none exactly when no domain has it |
| Preferences.AppPreferences.ComputeDictRep | CF-1153.18/CFApplicationPreferences.c:267-291 | the reverse loop builds that dictionary |
| Preferences.AppPreferences.CreateValueForKey | CF-1153.18/CFApplicationPreferences.c:313-325 | a cached lookup is the value in the first domain of the search list that holds the key |
| Preferences.AppPreferences.Set | CF-1153.18/CFApplicationPreferences.c:328-356 | the application domain changes as asked and the cache stays right, also when that domain is not searched |
| Preferences.AppPreferences.ForeignSet | CF-1153.18/CFApplicationPreferences.c:228-250 | a change by others followed by its message keeps the cache right |
| Preferences.World.DomainSet | CF-1153.18/CFPreferences.c:789-794 | the key then has the given value, or none; other keys and other domains keep theirs |
| Preferences.LookupAfterStoring | CF-1153.18/CFApplicationPreferences.c:328-356 | for every search list: other keys are answered as before; the key by the domains before the first occurrence of the one written, and else by the new value |
| Preferences.LookupAfterRemoving | CF-1153.18/CFApplicationPreferences.c:328-356 | for every search list: a removed key is answered as if the domain were not searched, other keys as before |
| Preferences.ReadsOwnWrites | CF-1153.18/CFApplicationPreferences.c:328-356 | after any run a stored value is seen by the next lookup of its key, unless a domain searched earlier holds it |
| Preferences.AppPreferences.Update | CF-1153.18/CFApplicationPreferences.c:298-302 | the cache is dropped |
| Preferences.AppPreferences.SetSearchList | CF-1153.18/CFApplicationPreferences.c:516-526 | the search list is the given one and the cache is dropped |
| Preferences.AppPreferences.AddDomain | CF-1153.18/CFApplicationPreferences.c:630-639 | the domain is first or last and the cache stays right |
| Preferences.Prune | CF-1153.18/CFApplicationPreferences.c:660-672 | the loop with its shrinking range leaves exactly the domains that are not reached |
| Preferences.PrunedKeeps | CF-1153.18/CFApplicationPreferences.c:660-672 | removal keeps all other domains in order, takes at least one occurrence if there is one, and all of them if and only if the stated condition on positions holds |
| Preferences.TwoAreRemovable | CF-1153.18/CFApplicationPreferences.c:665-669 | up to two occurrences always all go |
| Preferences.ThreeOccurrences | CF-1153.18/CFApplicationPreferences.c:669 | removing the second domain from 7, 5, 5, 5 leaves 7, 5 |
| Preferences.AppPreferences.RemoveDomain | CF-1153.18/CFApplicationPreferences.c:660-673 | the search list is what removal leaves, and the cache stays right |
| Preferences.AppPreferences.AddSuitePreferences | CF-1153.18/CFApplicationPreferences.c:535-596 | the four domains go where the standard domains say and the cache stays right |
| Preferences.SuiteOnlyAdds | CF-1153.18/CFApplicationPreferences.c:535-596 | the search list gains exactly the suite's domains |
| Preferences.SuiteLayout | CF-1153.18/CFApplicationPreferences.c:535-596 | the user domains stand just after the first application domain or on top, the any-user ones just after the first of the three domains looked for that is there or at the end, the host domain first in each pair, and no other domain moves |
| Preferences.SuiteAnswers | CF-1153.18/CFApplicationPreferences.c:535-596 | domains down to the application's own still answer first, then the suite's user domains, then the rest; a key no domain of the suite holds is answered as before |
| Preferences.Do | CF-1153.18/CFApplicationPreferences.c:228-673 | each operation is its effect on search list and domains as a function, with the answer a cache-free lookup gives |
| Preferences.Run | CF-1153.18/CFApplicationPreferences.c:228-673 | in every sequence of operations each cached answer, and the state at the end, is the one of the run without a cache |

## Left out

- Key-path filtered reading and single-key lookup in binary property lists.
- Property list files of 2^61 bytes and more, and graphs of 2^32 objects and more: object numbers are cut to 32 bits.
- Equality of dictionary keys after reading: the model returns keys and values as lists, so a file that repeats a key is not collapsed.
- Double and exponential probing, the hash cache and indirect keys: CFDictionary, CFSet and CFBag use linear probing without them.
- Retain callbacks that return another object than they were given.
- Copying a table, describing it, and enumeration by index ranges.
- ArrayDeque.MutableArray.ReplaceValues: states nothing when a new block would need 2^30 buckets or more, where rounding up a capacity shifts into the sign bit.
- Sorting by the merge sort of another file; only the exchange sort is modelled.
- Heap equality, bit vector equality and copying unaligned bits out of a bit vector.
- Conversion flags of UTF-8: decomposition, lossy and lenient reading, and the other built-in encodings.
- The 8, 16, 32 and 64-bit forms of big-number conversion, which are the 128-bit form with fewer digits.
- Readers of the preferences that run while a suite is being added: the operation is one completed step.
- Several preferences objects at once: setting a value through one does not drop the cache of another that searches the same domain.
- Garbage collection, write barriers, Objective-C dispatch, allocators, locks, description strings and error objects.
