# Verified model of the scheduler's codecs, buffers and queues

The project models eight source files and proves what they are for.

- **JSON text** (`src/util/cJSON.c`). `JsonParser.dfy` and `JsonPrinter.dfy` follow the recursive-descent parser and
  the printer with its growing or fixed buffer step by step. `JsonGrammar.dfy`, `JsonStrings.dfy` and
  `JsonRender.dfy` say which tree a text stands for and which text a tree is printed as, and `JsonRoundTrip.dfy`
  proves that the first undoes the second. `JsonSyntax.dfy`, with `JsonLiterals.dfy` for strings and
  `JsonNumerals.dfy` for numbers, is a concrete syntax of its own and proves that the parser accepts exactly its texts.
  `JsonMinify.dfy` has the in-place minifier, `JsonChunks.dfy` what it keeps of any text, `JsonCompare.dfy` the
  comparison, `ChildList.dfy` the doubly linked list of children.
- **Shared-memory queue** (`src/ipcs/shm-queue.c`). `ShmQueue.dfy` is a step system: one atomic step for each
  semaphore operation, buffer access and index update, any number of threads, any capacity of at least 1; what callers
  hand in and get back is recorded beside what the buffer sees.
- **Record cache** (`src/ipcs/shm-cache.c`). `ShmCache.dfy` keeps records of any length in a byte ring on which
  position `size` and position 0 are the same place.
- **Byte ring** (`src/util/circular_buffer.c`). `ByteRing.dfy` uses two 32-bit counters that overflow.
- **Bit stream** (`src/util/bitstream.h`). `BitCodes.dfy` defines the codes, `BitStream.dfy` the cursor that reads and
  writes them, `ByteCodes.dfy` relates bits to bytes.
- **AMF0** (`src/util/amf0.c`). `Amf0.dfy` writes and reads flat objects over the bit stream; `AmfRoundTrip.dfy` proves
  that the reader recovers what was written.
- **Timers** (`src/net/net-schedule.c`). `Timers.dfy` has the timer pass and the runs of one timer.
- **Base 64** (`src/util/base64.c`). `Base64.dfy`.

`Words.dfy` has the bit operations on machine words that the rest uses; sizes, shifts, masks and wrap-around are
written out wherever the source relies on them.

An object that the source updates in place is a class whose methods are proved against functions of its old state;
what the source promises is then proved about those functions. A property that fails for some inputs is stated with
the exact condition under which it holds (`MinifyFormatted`, `SameIsEqualValue`, `ReadBackExactly`, `ShortCode`,
`EncodeInvertsExactly`, `FirstPassCalls`).

Where the code and its own comments or documentation differ, the code is followed:

- `cJSON_PrintPreallocated` needs two bytes beyond the text, not the five that `src/util/cJSON.h:162` recommends.
- `createCircularBuffer` rounds size 0 to 4, not to the next power of two; and it gives up exactly when its allocation
  succeeds (`src/util/circular_buffer.c:28`), so the model starts from the state set at lines 33-36.
- `bs_read_ru` is said to look `n` bytes ahead; it looks `n` bits ahead.
- A `\u` escape whose four bytes are not all hexadecimal digits is read as code point 0, and its four bytes may be
  any, so that the pass that sizes a string and the pass that unescapes it can fall out of step (`StringIff`).
- A timer without a first delay can be called twice in its first pass, because the elapsed time used for the second
  decision is the one from before the first call.

## Model

| member | source | states |
|---|---|---|
| JsonRoundTrip.RoundTrip | src/util/cJSON.c:1104-1261 | Parsing the printed text of any tree of 32-bit integers, strings, arrays and objects, formatted or not, gives back the same tree and ends at the text's end exactly when containers nest at most 1000 deep; deeper trees are rejected |
| JsonSyntax.ValueIff | src/util/cJSON.c:1325-1377 | A value is accepted, with any number of containers open, if and only if a text of a concrete syntax written apart from the parser stands there and nests within the limit of 1000; its tree and its end are those of the text |
| JsonSyntax.DocumentIff | src/util/cJSON.c:1104-1181 | A whole input is accepted if and only if such a text stands behind an optional byte order mark and blanks |
| JsonSyntax.TerminatedIff | src/util/cJSON.c:1135-1143 | With a terminator demanded, the same inputs are accepted if and only if only bytes up to 32 follow the text and the last of them is 0 |
| JsonSyntax.Accepted | src/util/cJSON.c:1325-1729 | Every text of the syntax is read whole with its tree wherever it stands, or rejected for its nesting |
| JsonSyntax.Found | src/util/cJSON.c:1325-1729 | Everything that is read is a text of the syntax |
| JsonSyntax.ItemsFound | src/util/cJSON.c:1490-1531 | The elements that the array loop has read are texts between blanks, separated by commas and closed by a bracket |
| JsonSyntax.MembersFound | src/util/cJSON.c:1651-1711 | The members that the object loop has read are names, colons and texts between blanks, separated by commas and closed by a brace |
| JsonNumerals.NumberIff | src/util/cJSON.c:307-381 | A number is read if and only if the longest numeral of at most 63 bytes at its place has that value: sign, digits, point, digits and power of ten, each digit worth its place |
| JsonNumerals.ReadsValue | src/util/cJSON.c:355-355 | A numeral read whole has its value |
| JsonNumerals.NotLonger | src/util/cJSON.c:355-355 | No numeral at the start of what was copied is longer than what is consumed |
| JsonLiterals.StringIff | src/util/cJSON.c:781-908 | On any bytes, a string is read if and only if a literal stands there that the sizing pass delimits and the unescaping pass reads, with paired surrogates; its value is what its pieces mean up to the first NUL |
| JsonLiterals.StringAccepted | src/util/cJSON.c:781-908 | Every such literal is read, whatever follows it |
| JsonLiterals.StringFound | src/util/cJSON.c:781-908 | Everything read as a string is such a literal |
| JsonRoundTrip.ValueReadBack | src/util/cJSON.c:1325-1451 | The same for a value printed anywhere in a text, at any indentation and any parsing depth |
| JsonRoundTrip.ItemsReadBack | src/util/cJSON.c:1454-1611 | The elements of a printed array are read back in order up to the closing bracket, unless one nests too deeply |
| JsonRoundTrip.MembersReadBack | src/util/cJSON.c:1614-1843 | The members of a printed object are read back in order with their names, through any layout before the closing brace |
| JsonRoundTrip.NumberReadBack | src/util/cJSON.c:307-381 | A printed 32-bit integer is read back as the same number wherever no number character follows it |
| JsonRoundTrip.StrtodOfDecimal | src/util/cJSON.c:553-620 | The decimal digits of any integer stand for that integer and are consumed whole |
| JsonRoundTrip.DecimalShape | src/util/cJSON.c:553-620 | Printed integers have a minus sign exactly when negative, digits only, and no leading zero |
| JsonRender.LayoutBytes | src/util/cJSON.c:1552-1843 | The separators, tabs and line ends of printed arrays and objects, byte by byte: `, ` between items, one line and one tab per level for each member, a tab behind each colon; only commas and colons when unformatted |
| JsonStrings.QuotedInverse | src/util/cJSON.c:781-1030 | Unescaping a printed string gives back its bytes and ends behind the closing quote |
| JsonStrings.EscapeTable | src/util/cJSON.c:911-1030 | Which bytes are escaped and how: five control characters, quote and backslash by a letter, other control characters by `\u00` and two lower-case digits |
| JsonStrings.StringLiteral | src/util/cJSON.c:781-908 | A quoted sequence of well-formed pieces is accepted exactly when every surrogate escape is paired, and then stands for the meaning of its pieces up to the first NUL |
| JsonStrings.MeaningIffPaired | src/util/cJSON.c:660-716 | Pieces have a meaning exactly when each high surrogate is followed by a low one and no other low one occurs |
| JsonStrings.EscapedUnicode | src/util/cJSON.c:660-778 | Unicode scalar values spelled as escapes or surrogate pairs, with digits from the two tables in either case, mean the concatenation of their UTF-8 encodings |
| JsonStrings.HexDigits | src/util/cJSON.c:629-645 | The hexadecimal digits are the characters of "0123456789ABCDEF" and "0123456789abcdef" and no others, each worth its place |
| JsonStrings.Hex4Means | src/util/cJSON.c:623-656 | Four digits of these tables are worth their number in base 16, and 0 comes out when one byte is in neither |
| JsonStrings.ShortEscapes | src/util/cJSON.c:844-866 | The letters allowed behind a backslash, with the byte each stands for, `\/` included, and no others |
| JsonStrings.Utf8Inverse | src/util/cJSON.c:723-770 | The UTF-8 encoding determines the code point |
| JsonStrings.Utf8Shape | src/util/cJSON.c:723-770 | An encoding is the shortest for its code point and has as many bytes as its first byte says, the others being continuation bytes |
| JsonParser.EncodeUtf8 | src/util/cJSON.c:723-770 | The loop of masks and shifts, filling backwards, writes the UTF-8 encoding and nothing before it |
| JsonParser.ContinuationByte | src/util/cJSON.c:756-761 | Or-ing 0x80 and masking with 0xBF makes a continuation byte of the low six bits |
| JsonParser.FirstByte | src/util/cJSON.c:763-767 | Or-ing the mark and masking adds the remaining bits to it |
| JsonParser.SurrogateBits | src/util/cJSON.c:715-715 | The masked and shifted surrogate units combine to the code point they stand for |
| JsonParser.UnescapeFits | src/util/cJSON.c:794-885 | From any place, in step with the sizing loop or not, the bytes that an accepted rest of the string still yields fit the room that the sizing loop counted |
| JsonParser.ParseBuffer.SizeString | src/util/cJSON.c:794-825 | The sizing loop finds the closing quote, or that there is none, and counts one byte for each raw byte or escape |
| JsonParser.ParseBuffer.ParseString | src/util/cJSON.c:781-908 | On every input, accepted or not, no byte is written beyond what the sizing loop counted and the terminator; the outcome is the string the text stands for |
| JsonParser.ParseBuffer.Utf16LiteralToUtf8 | src/util/cJSON.c:660-778 | Decodes one escape or surrogate pair, fails on unpaired or truncated ones, and writes its UTF-8 encoding |
| JsonParser.ParseBuffer.ParseHex4 | src/util/cJSON.c:623-656 | The loop of shifts and sums gives the number that `Hex4Means` ties to the digit tables, 0 when one byte is not a digit |
| JsonParser.ParseBuffer.ParseNumber | src/util/cJSON.c:307-381 | At most 63 number characters are copied and the longest numeral in front of them is read |
| JsonParser.ParseBuffer.ParseValue | src/util/cJSON.c:1325-1377 | Accepts exactly the texts of `ValueIff`, returns their value, and moves the offset behind it; the depth is restored |
| JsonParser.ParseBuffer.ParseArray | src/util/cJSON.c:1454-1549 | The loop over elements returns the array the grammar assigns to the text, or fails exactly when there is none |
| JsonParser.ParseBuffer.ParseObject | src/util/cJSON.c:1614-1729 | The loop over members returns the object the grammar assigns to the text, or fails exactly when there is none |
| JsonParser.ParseBuffer.SkipWhitespace | src/util/cJSON.c:1047-1070 | Moves to the first byte above 32, or back onto the last byte when there is none |
| JsonParser.ParseBuffer.SkipByteOrderMark | src/util/cJSON.c:1073-1086 | Moves past a byte order mark at the start when at least two bytes follow it |
| JsonParser.ParseWithLengthOpts | src/util/cJSON.c:1104-1181 | Returns the tree a whole text stands for and where it ends, with or without the demand that the text ends there |
| JsonPrinter.PrintPreallocated | src/util/cJSON.c:1305-1322 | Succeeds exactly when the buffer has two bytes more than the text, and then holds the text and its terminator; no write falls outside |
| JsonPrinter.Print | src/util/cJSON.c:1196-1261 | Whatever reallocations occur, the result is the rendering of the tree and its terminator, if that is within the size limit |
| JsonPrinter.PrintBuffered | src/util/cJSON.c:1274-1303 | The same from any initial buffer size; negative sizes are refused |
| JsonPrinter.PrintBuffer.Ensure | src/util/cJSON.c:447-530 | Makes room exactly when the capacity allows it and keeps what was printed, in the same or a larger buffer |
| JsonPrinter.PrintBuffer.UpdateOffset | src/util/cJSON.c:533-543 | Moves the offset to the terminator of what was printed last |
| JsonPrinter.PrintBuffer.PrintNumber | src/util/cJSON.c:553-620 | Appends the decimal digits of an integer, or fails exactly when they do not fit |
| JsonPrinter.PrintBuffer.PrintStringPtr | src/util/cJSON.c:911-1030 | Appends the quoted and escaped string, sized by a first loop and written by a second, or fails exactly when it does not fit |
| JsonPrinter.PrintBuffer.PrintValue | src/util/cJSON.c:1380-1451 | Appends the rendering of any value behind what was printed, or fails exactly when two bytes more than it do not fit |
| JsonPrinter.PrintBuffer.PrintArray | src/util/cJSON.c:1552-1611 | The same for an array, whose elements are printed one level deeper |
| JsonPrinter.PrintBuffer.PrintObject | src/util/cJSON.c:1732-1843 | The same for an object with its indentation, names and line ends |
| JsonPrinter.RenderNoZero | src/util/cJSON.c:1380-1451 | A rendering is not empty and has no NUL, so its terminator marks its end |
| JsonMinify.MinifyFormatted | src/util/cJSON.c:2812-2907 | Minifying the formatted print of a tree gives its unformatted print if and only if no string or name ends in a backslash, except for a string behind which only closing brackets follow |
| JsonMinify.MinifyValue | src/util/cJSON.c:2861-2907 | With no string or name ending in a backslash, a printed value is minified to its unformatted print whatever follows it |
| JsonMinify.TidyIsEnough | src/util/cJSON.c:2839-2859 | A tree without strings or names that end in a backslash meets that condition |
| JsonMinify.BackslashKeepsBlank | src/util/cJSON.c:2839-2859 | An array whose first string is a backslash keeps a blank when minified |
| JsonMinify.StringScan | src/util/cJSON.c:2839-2859 | The string scan ends behind the closing quote, or runs on into the text when the string ends in a backslash |
| JsonMinify.Idempotent | src/util/cJSON.c:2861-2907 | On every text a second minify changes nothing |
| JsonChunks.MinifiedIff | src/util/cJSON.c:2812-2907 | However a text is cut into blanks, line and block comments, lone slashes, strings and other bytes, minifying keeps exactly its strings and other bytes, whole and in order; and every text can be cut so |
| JsonChunks.MinifiedChunks | src/util/cJSON.c:2861-2907 | Any valid cut gives what minifying keeps, unterminated comments and strings at the end included |
| JsonChunks.Cut | src/util/cJSON.c:2861-2907 | Every text has a valid cut |
| JsonMinify.Minify | src/util/cJSON.c:2861-2907 | In place, on every terminated text, the text becomes its minified form and a terminator; the write position never passes the read position and nothing behind the text changes |
| JsonMinify.MinifyString | src/util/cJSON.c:2839-2859 | Copies a string token down over the gap and leaves the text to come as it was |
| JsonMinify.SkipOneLineComment | src/util/cJSON.c:2812-2823 | Stops behind the line feed or at the terminator |
| JsonMinify.SkipMultiLineComment | src/util/cJSON.c:2825-2837 | Stops behind the end of the comment or at the terminator |
| JsonCompare.SameIsEqualValue | src/util/cJSON.c:3009-3132 | In either mode, trees of integers compare equal if and only if they denote the same value, with objects as finite maps, and every repeated name in either has equal values |
| JsonCompare.CompareDecidesValue | src/util/cJSON.c:3009-3132 | With distinct names in every object, comparison is equality of values |
| JsonCompare.CompareIsPartialEquivalence | src/util/cJSON.c:3009-3132 | Comparison of separate trees of integers is symmetric and transitive, and a tree equals its copies exactly where repeated names agree |
| JsonCompare.DistinctIsCoherent | src/util/cJSON.c:3009-3132 | Distinct names leave nothing to disagree |
| JsonCompare.RepeatedNameDiffersFromItself | src/util/cJSON.c:3091-3127 | An object with one name twice and different values compares unequal to an equal copy of itself |
| JsonCompare.IntegersClose | src/util/cJSON.c:546-550 | On 32-bit integers the relative tolerance is equality |
| JsonCompare.Compare | src/util/cJSON.c:3009-3132 | The walk over both trees computes that relation |
| JsonCompare.LookUpAll | src/util/cJSON.c:3091-3127 | The look-up loop of one direction finds every member of the first object, with an equal value, in the second |
| JsonCompare.GetObjectItem | src/util/cJSON.c:1898-1928 | Returns the first member of a name in the chosen case mode, if any |
| JsonCompare.CaseInsensitiveCompare | src/util/cJSON.c:133-154 | Is 0 exactly for names equal up to the case of letters |
| JsonCompare.LowerMeans | src/util/cJSON.c:133-154 | Names are equal without regard to case if and only if they are equal byte by byte up to upper and lower case of the letters A to Z |
| JsonCompare.FindMeans | src/util/cJSON.c:1898-1928 | A look-up gives the value of the first key that matches in the chosen mode, and nothing exactly when none does |
| ChildList.Item.GetArraySize | src/util/cJSON.c:1846-1867 | Counts the children |
| ChildList.Item.GetArrayItem | src/util/cJSON.c:1869-1896 | Returns the child at an index, or nothing outside the list |
| ChildList.Item.AddItemToArray | src/util/cJSON.c:1974-2005 | Appends a node not yet in the list and keeps the chain well formed, first child included; refuses nothing and itself |
| ChildList.Item.SuffixObject | src/util/cJSON.c:1946-1950 | Links two nodes both ways |
| ChildList.Item.DetachItemViaPointer | src/util/cJSON.c:2205-2239 | Removes a child, be it first, last or only, and clears its links; the rest keeps its order and shape |
| ChildList.Item.DetachItemFromArray | src/util/cJSON.c:2241-2249 | Removes the child at an index, or nothing outside the list |
| ChildList.Item.InsertItemInArray | src/util/cJSON.c:2281-2313 | Inserts before an index, or appends beyond the end; appending refuses the container itself |
| ChildList.Item.ReplaceItemViaPointer | src/util/cJSON.c:2315-2362 | Replaces one child in place, be it first, last or only, and clears the links of the old one |
| ChildList.Item.ReplaceItemInArray | src/util/cJSON.c:2364-2372 | Replaces the child at an index, or nothing outside the list |
| ChildList.Item.RemovedLinks | src/util/cJSON.c:2205-2239 | The links written by a removal form the chain of the shorter list |
| ChildList.Item.InsertedLinks | src/util/cJSON.c:2281-2313 | The links written by an insertion form the chain of the longer list |
| ChildList.Item.ReplacedLinks | src/util/cJSON.c:2315-2362 | The links written by a replacement form the chain of the updated list |
| ShmQueue.SharedQueue.constructor | src/ipcs/shm-queue.c:9-16 | Both indices at 0, no items, all slots free, the mutex free |
| ShmQueue.SharedQueue.Step | src/ipcs/shm-queue.c:25-51 | One atomic step of a producer or consumer on the shared struct; which item it carries on is fixed by `ReturnsWhatWasTaken` and `HoldsItemInTurn` |
| ShmQueue.NextKeepsInv | src/ipcs/shm-queue.c:25-51 | Every step of every thread keeps the counts of threads in each phase, the indices and the unread cells consistent |
| ShmQueue.TakenIsPrefix | src/ipcs/shm-queue.c:25-51 | In every interleaving the items taken are a prefix of the items written, and at most the capacity lies between |
| ShmQueue.NoOverwrite | src/ipcs/shm-queue.c:31-45 | A writer's cell never holds an unread item, and a reader's cell holds the oldest unread one |
| ShmQueue.ItemsConserved | src/ipcs/shm-queue.c:25-51 | In every interleaving, the items handed in are those carried by producers, those waiting in the buffer, those carried by consumers and those handed out: none is lost, doubled or changed |
| ShmQueue.ReturnsWhatWasTaken | src/ipcs/shm-queue.c:25-51 | In every interleaving, what was written is what was handed in less what producers still carry, and what was handed out is what was taken less what consumers still carry |
| ShmQueue.HoldsItemInTurn | src/ipcs/shm-queue.c:44-45 | A consumer that has just read carries the item that was written at its turn |
| ShmQueue.LetInExactly | src/ipcs/shm-queue.c:27-40 | With no operation in flight, a producer can start exactly while the queue is not full, a consumer exactly while it is not empty |
| ShmQueue.Conservation | src/ipcs/shm-queue.c:25-51 | Slots, items and operations in flight always add up to the capacity |
| ShmQueue.NotBothZero | src/ipcs/shm-queue.c:25-51 | With no operation in flight, slots and items are not both 0: they add up to the capacity |
| ShmQueue.MutualExclusion | src/ipcs/shm-queue.c:28-46 | No two threads are between taking and releasing the mutex |
| ShmQueue.NoDeadlock | src/ipcs/shm-queue.c:25-51 | While an operation is in flight, some operation in flight can take a step |
| ShmCache.Cache.constructor | src/ipcs/shm-cache.c:4-36 | An empty cache of the size asked for |
| ShmCache.Cache.GetDistance | src/ipcs/shm-cache.c:49-60 | The room between the write and the read position, in every arrangement of the two, is the size less the stored bytes |
| ShmCache.Cache.PutRecord | src/ipcs/shm-cache.c:77-122 | Terminates; drops exactly as many of the oldest records as `Dropped` says, keeps the others byte for byte and stores the new one last; a record larger than the cache empties it and fails; an empty list has equal indices |
| ShmCache.Dropped | src/ipcs/shm-cache.c:112-120 | The records dropped are the fewest that make the new one fit |
| ShmCache.Cache.Store | src/ipcs/shm-cache.c:87-111 | A record copied in two parts around the ring becomes the last one and touches no other |
| ShmCache.HeldUntouched | src/ipcs/shm-cache.c:87-111 | Writing into the free part of the ring, however it lies, leaves every stored record as it was |
| ShmCache.ChainLength | src/ipcs/shm-cache.c:49-60 | The stored regions follow each other around the ring from the read to the write position, `write_index == size` included |
| ShmCache.Cache.GetRecord | src/ipcs/shm-cache.c:124-154 | Returns the oldest record byte for byte and takes it off the list, or nothing from an empty one |
| ShmCache.ReadBackExactly | src/ipcs/shm-cache.c:138-150 | The copies of a get stay inside the memory and give back the record if and only if it is smaller than the cache or was stored at offset 0 |
| ShmCache.FullRecordIsMisread | src/ipcs/shm-cache.c:87-150 | In a cache of 20 bytes with both indices at 10, a get of a record of 20 bytes reads outside the memory |
| ShmCache.Cache.Put | src/ipcs/shm-cache.c:164-184 | Refuses sizes below 1, otherwise puts type, size and payload as one record |
| ShmCache.HeaderRoundTrip | src/ipcs/shm-cache.c:164-184 | Type, size and payload can be read back from a record |
| ShmCache.RunIsOrderly | src/ipcs/shm-cache.c:77-154 | For the list of records alone: after any puts and gets it is the longest run of the latest records that fits, short of those handed out or lost to a failed put, and gets choose accepted records in put order, each at most once |
| ShmCache.Perform | src/ipcs/shm-cache.c:77-154 | Any puts and gets performed on an empty cache, no record having exactly the cache's size, hand out the records that this history chooses, byte for byte, and leave the cache holding the records of the history |
| ByteRing.RoundSize | src/util/circular_buffer.c:4-16 | A power of two is kept, 0 becomes 4, anything else goes up to the next power of two |
| ByteRing.PowerMeans | src/util/circular_buffer.h:6-6 | The bit test accepts only powers of two |
| ByteRing.PowerPasses | src/util/circular_buffer.h:6-6 | The bit test accepts every power of two |
| ByteRing.WrappedMask | src/util/circular_buffer.c:69-97 | A counter that overflowed at 2^32 masks to the same cell as the unbounded counter, because the size divides 2^32 |
| ByteRing.CounterStep | src/util/circular_buffer.c:69-97 | Advancing a counter, across overflow too, moves its cell around the ring by as much |
| ByteRing.CircularBuffer.constructor | src/util/circular_buffer.c:33-36 | An empty ring of the rounded size |
| ByteRing.CircularBuffer.GetCircularBufferSize | src/util/circular_buffer.c:51-61 | The difference of the counters modulo 2^32 is the number of stored bytes |
| ByteRing.CircularBuffer.Write | src/util/circular_buffer.c:84-104 | Appends the longest prefix that fits and changes no stored byte |
| ByteRing.CircularBuffer.Read | src/util/circular_buffer.c:63-82 | Moves the oldest bytes, as many as asked for or stored, to the front of the caller's buffer |
| ByteRing.AppendStored | src/util/circular_buffer.c:90-99 | Bytes written behind the stored ones around the ring extend them |
| BitCodes.RoundTrip | src/util/bitstream.h:104-309 | On the bits of a buffer: any sequence of u(n), u8, ue and se codes laid over it where it fits reads back as the same values, and ends where the codes end |
| BitStream.WriteThenRead | src/util/bitstream.h:104-309 | A cursor at any bit writes any sequence of u(n), u8, ue and se elements that fits, a second cursor at the same bit reads the same kinds: the values are the same, both cursors end at the same bit, and no other bit changed |
| BitStream.WriteAll | src/util/bitstream.h:202-309 | Writing elements one after another changes exactly the bits of their codes, and none past the end |
| BitStream.ReadAll | src/util/bitstream.h:104-199 | Reading elements one after another returns what their codes stand for, on any bits |
| BitCodes.UeRoundTrip | src/util/bitstream.h:173-185 | The reader recovers a number from its Exp-Golomb code and stops behind it |
| BitCodes.ZeroRunMeans | src/util/bitstream.h:178-181 | On any bits, the reader counts zeros up to the first one, the 32nd zero or the last bit |
| BitCodes.SeTable | src/util/bitstream.h:187-309 | The numbers 0, 1, -1, 2, -2 and so on have the codes 0, 1, 2, 3, 4 and so on, in both directions |
| BitCodes.WideCode | src/util/bitstream.h:242-297 | Writing the number plus one on twice its bit length less one bit is the code of clause 9.1 of ITU-T H.264: zeros, a one, and as many bits |
| BitCodes.ShortCode | src/util/bitstream.h:296-296 | A code fits the 32 bits of one write if and only if the number is at most 65534 |
| BitStream.TableLength | src/util/bitstream.h:244-293 | The table look-up gives the true bit length of every non-zero word |
| BitStream.BitCursor.ReadU1 | src/util/bitstream.h:104-118 | Reads the bit at the cursor, 0 past the end, and moves on by one |
| BitStream.BitCursor.ReadU | src/util/bitstream.h:138-147 | Reads the number in the next n bits at any alignment, zeros past the end |
| BitStream.BitCursor.ReadU8 | src/util/bitstream.h:160-171 | The fast path and the loop read the same eight bits at every alignment and past the end |
| BitStream.BitCursor.ReadUe | src/util/bitstream.h:173-185 | Reads an Exp-Golomb number, also from damaged or truncated input with fewer than 31 leading zeros |
| BitStream.BitCursor.ReadSe | src/util/bitstream.h:187-199 | Odd codes are positive, even ones not |
| BitStream.BitCursor.WriteU1 | src/util/bitstream.h:202-216 | Changes that one bit of the buffer, and none past the end |
| BitStream.BitCursor.WriteU | src/util/bitstream.h:218-225 | Changes exactly those n bits, and none past the end |
| BitStream.BitCursor.WriteU8 | src/util/bitstream.h:229-240 | The fast path and the loop change the same eight bits at every alignment and past the end |
| BitStream.BitCursor.WriteUe | src/util/bitstream.h:242-297 | Writes the Exp-Golomb code of the number |
| BitStream.BitCursor.WriteSe | src/util/bitstream.h:299-309 | Writes the signed number as the code number of clause 9.1.1 |
| BitStream.BitCursor.ReadRu | src/util/bitstream.h:380-397 | Returns what reading would and puts the cursor back |
| BitStream.BitCursor.NextBits | src/util/bitstream.h:343-348 | Returns what reading would through a copy of the cursor |
| BitStream.BitCursor.ReadBytes | src/util/bitstream.h:311-320 | Copies the whole bytes there are and moves on by the number asked for |
| BitStream.BitCursor.WriteBytes | src/util/bitstream.h:322-331 | Stores the whole bytes that fit and changes no other bit |
| BitStream.BitCursor.ReadString | src/util/bitstream.h:362-378 | Refuses a string that its storage or the buffer cannot hold, otherwise reads it byte by byte |
| ByteCodes.OctetCode | src/util/bitstream.h:218-225 | A number of whole octets written bit by bit is those octets, high one first |
| ByteCodes.WordsAre | src/util/bitstream.h:138-147 | Two or three octets read bit by bit are their number, high octet first |
| AmfRoundTrip.ObjectRoundTrip | src/util/amf0.c:348-421 | On the bytes of a buffer: a non-empty flat object with distinct names, all in the table, is read back so that each entry has the value of its name in whatever order the table lists them, other entries are untouched, and the reader stops at the end marker |
| AmfRoundTrip.WriteThenRead | src/util/amf0.c:51-421 | The same for the calls: the writers write type byte, members and end marker where they fit, and `ReadObject` on a second cursor fills the table and stops at the marker |
| AmfRoundTrip.BooleanKept | src/util/amf0.c:97-288 | A boolean written as 0 leaves 0 in its entry, any other value leaves 1, and the rest of the entry is untouched |
| AmfRoundTrip.NoNameEnds | src/util/amf0.c:353-358 | A name that is empty, cut off, longer than 63 bytes or starts with a zero ends the reading with no entry touched |
| AmfRoundTrip.WriteFlatObject | src/util/amf0.c:51-220 | The named writers, one for each member, store the object's bytes and change no others |
| AmfRoundTrip.ObjectReads | src/util/amf0.c:348-371 | The reader goes through every member and stops at the end marker, or behind the first name that is not in the table, never earlier |
| AmfRoundTrip.MemberIsNoEnd | src/util/amf0.c:366-367 | The start of a member is never taken for the end marker |
| AmfRoundTrip.StringReads | src/util/amf0.c:242-258 | A counted string is read whole if its storage has a byte to spare |
| AmfRoundTrip.ItemReads | src/util/amf0.c:373-421 | A written number, boolean or string is read into its storage and consumed whole |
| Amf0.WireFormat | src/util/amf0.c:97-144 | Type bytes 0, 1 and 2, a double high byte first, 0 or 1 for a boolean, a 16-bit length before a text, as in sections 2.2 to 2.4 of the AMF0 specification |
| Amf0.MemberFormat | src/util/amf0.c:177-220 | Before each value come the 16-bit length of its name and the name |
| Amf0.StringFromMeans | src/util/amf0.c:242-258 | -1 when fewer bytes are left than counted, read whole when a byte of storage stays free, otherwise reported and left; a length cut off by the end never gives -1 |
| Amf0.ItemFromMeans | src/util/amf0.c:373-421 | What each type byte stores and consumes, by its number; types without payload take one byte |
| Amf0.WriteObject | src/util/amf0.c:51-59 | Stores 3, the object type byte |
| Amf0.WriteObjectEnd | src/util/amf0.c:62-70 | Stores 0, 0, 9 |
| Amf0.WriteBoolean | src/util/amf0.c:97-107 | Stores 1, the type byte, and then 0 if the value is 0 and 1 otherwise |
| Amf0.WriteDouble | src/util/amf0.c:110-129 | Stores 0, the type byte, and the eight bytes, high one first |
| Amf0.WriteString | src/util/amf0.c:132-144 | Stores 2, the type byte, the length in two bytes and the bytes |
| Amf0.WriteNamedString | src/util/amf0.c:177-190 | Stores name length, name and string |
| Amf0.WriteNamedDouble | src/util/amf0.c:193-205 | Stores name length, name and number |
| Amf0.WriteNamedBoolean | src/util/amf0.c:208-220 | Stores name length, name and boolean |
| Amf0.ReadDouble | src/util/amf0.c:222-240 | Fills the storage's first eight bytes in reverse order of reading |
| Amf0.ReadString | src/util/amf0.c:242-258 | On any input, reports the length or -1, stores the string if it is there and fits, and leaves the cursor where the source does |
| Amf0.FindObjectItem | src/util/amf0.c:336-346 | Finds the first entry of a name |
| Amf0.ReadObjectItem | src/util/amf0.c:373-421 | Stores what the type byte says, in that entry alone |
| Amf0.ReadObject | src/util/amf0.c:348-371 | The loop fills the table as the member-by-member reading of the bytes does, and returns the bytes left |
| Timers.FiringBound | src/net/net-schedule.c:53-97 | In every run a repeating timer is not called before its first call is due, nor more than 1 + (t - due) / repeat times by any time t, whatever its first delay |
| Timers.RunIsOnTime | src/net/net-schedule.c:53-97 | Call number n comes no earlier than n periods after the first is due |
| Timers.CalledWhenDue | src/net/net-schedule.c:66-77 | A pass that starts once the first call is due leaves a timer called, whether it repeats or not |
| Timers.OneShotCalls | src/net/net-schedule.c:66-82 | A timer that does not repeat has been called exactly once when a pass has started at or after its delay, not at all before that, and the pass after its call is the last it is in the queue for |
| Timers.CalledAgain | src/net/net-schedule.c:83-86 | A repeating timer is called again by any pass that starts a period after the end of an earlier pass by which it had been called |
| Timers.TakenOutExactly | src/net/net-schedule.c:78-92 | A pass takes a timer out exactly when it is marked, or does not repeat and was called before or had no delay to wait for |
| Timers.CallsAreSpaced | src/net/net-schedule.c:66-87 | Calls are at least one period apart unless the first pass makes two |
| Timers.FirstPassCalls | src/net/net-schedule.c:66-87 | The first pass calls a timer twice if and only if it has no first delay, repeats, and was added a period or more before |
| Timers.TwoCallsAtOnce | src/net/net-schedule.c:66-87 | A run in which two calls come at the same time |
| Timers.CalledOnce | src/net/net-schedule.c:78-82 | A timer that does not repeat is called at most once, not before its first delay, and the next visit is its last |
| Timers.TaskTimer.Visit | src/net/net-schedule.c:62-93 | One visit calls the function as often as `OneShotCalls`, `CalledAgain` and `FirstPassCalls` need, reads the clock after each call, and says whether the timer goes |
| Timers.TaskScheduler.TimerEvent | src/net/net-schedule.c:53-97 | One pass visits every timer once and keeps exactly those that stay, in order |
| Timers.TaskScheduler.AddTimerTask | src/net/net-schedule.c:157-182 | Queues a new timer stamped with the clock |
| Timers.TaskScheduler.AsyncDeleteTimerTask | src/net/net-schedule.c:203-224 | Marks a timer that is in the queue |
| Base64.DecodedEncoded | src/util/base64.c:42-95 | Decoding inverts encoding on every byte sequence |
| Base64.EncodeInvertsExactly | src/util/base64.c:42-95 | Encoding inverts decoding on a text of whole blocks if and only if it is canonical in the sense of sections 3.5 and 4 of RFC 4648 |
| Base64.UnusedBitsAreLost | src/util/base64.c:42-95 | Decoding "QR==" and encoding the result gives another text |
| Base64.EncodedBits | src/util/base64.c:42-70 | The symbols of a text carry the bits of the bytes in order, six at a time, followed by as few zeros as fill the last symbol |
| Base64.Encode | src/util/base64.c:42-70 | Writes the text of the bytes and returns its length; nothing behind it changes |
| Base64.Decode | src/util/base64.c:72-95 | Returns -1 for a text of partial blocks, otherwise writes the decoded bytes, on any symbols, and returns their number; it needs room for those bytes only |
| Base64.DecodeAll | src/util/base64.c:32-95 | Decoding into a buffer of exactly the computed size stays inside it |
| Base64.PadEnds | src/util/base64.c:80-93 | The first pad in the third or fourth place of a block ends the data after one or two bytes of it; nothing behind it is looked at |
| Base64.SizeIs | src/util/base64.c:27-30 | The encoded size is the length of the text |
| Base64.DecodedSize | src/util/base64.c:32-40 | Never less than what decoding writes, and equal to it exactly when pads stand only at the end and never in the third place alone |
| Base64.SymbolValue | src/util/base64.c:3-25 | The two character tables are inverse, and no symbol is the pad |
| Base64.Alphabet | src/util/base64.c:3-25 | The alphabet by its codes, `=` as 64, and 0 for every other byte |

## Left out

- JsonParser.ParseBuffer.ParseNumber: numbers are exact, without the rounding and overflow of a double, and the saturated `valueint` is not kept.
- JsonParser.ParseWithLengthOpts: does not say where a failed parse stopped, the error position.
- JsonParser.ParseBuffer.ParseString: string values are C strings, so a text is cut at an escaped NUL, as its readers would see it.
- JsonParser.UnescapeFits: speaks of accepted strings; that writes stay inside the allocation on rejected ones too is checked in `ParseString` and `UnescapeNext`, whose buffer has exactly that size.
- JsonPrinter.PrintBuffer.PrintNumber: prints 32-bit integers; other doubles, which go through `%1.15g`, are not modelled.
- JsonPrinter.PrintBuffer.Ensure: reallocation is a new array with the printed part copied; that the old one is freed is not modelled.
- JSON raw items, references, constant names, locales, allocation failure and the hook table.
- JSON trees are values in parsing, printing and comparison; the linked list behind them is in `ChildList.dfy` alone.
- JsonCompare.CompareIsPartialEquivalence: the identity test of `cJSON_Compare` (src/util/cJSON.c:3034) does not arise between values; one object passed twice is equal there whatever its names.
- JsonCompare.RepeatedNameDiffersFromItself: likewise speaks of two copies, not of one object passed twice.
- ChildList.Item.InsertItemInArray: a container inserted before one of its own children is left out, which the source links into its own list.
- ChildList.Item.AddItemToArray: behind other children the source keeps the node's `next`, so a node that is still linked elsewhere is left out there.
- `queue_destroy`, failing or interrupted semaphore calls and the fixed `QUEUE_SIZE`, which is a parameter here.
- The locks of the cache, the byte ring and the timer queue: each operation is one step.
- ShmCache.Cache.constructor: sizes from 2^31 up are left out; the source keeps its indices in an `int`.
- ShmCache.Cache.GetRecord: needs the oldest record to be smaller than the cache or to start at offset 0, since the copies of the source leave its memory otherwise (`ReadBackExactly`, `FullRecordIsMisread`). A caller meets this by never putting a record of exactly the cache's size, header included (`Perform`).
- ShmCache.Cache.Put: payloads stay 8 bytes short of the largest `int`, where the size of the record would overflow; the bytes of an `int` are those of a little-endian machine with 32-bit integers.
- ShmCache.RunIsOrderly: is about the list of records, where a record of exactly the cache's size is one like any other; what the code does is in `Perform`.
- ByteRing.RoundSize: sizes above 2^31 are left out, for which the source shifts by the word width.
- ByteRing.CircularBuffer.constructor: the same.
- BitStream.BitCursor.WriteUe: numbers above 65534 are left out, for which the source shifts by more than the word (`ShortCode`).
- BitStream.BitCursor.WriteSe: numbers beyond 32767 in magnitude are left out for the same reason.
- BitStream.BitCursor.ReadUe: 31 or more zeros in front are left out, for which the source shifts out of an `int`.
- BitStream.BitCursor.ReadSe: the same.
- The bit stream's skipping and peeking of one bit, `bs_next_bytes` and its position queries would add only easy members.
- Amf0.WriteObject: starts on a byte boundary, as do `WriteObjectEnd`, `WriteBoolean`, `WriteDouble`, `WriteString`, `WriteNamedString`, `WriteNamedDouble` and `WriteNamedBoolean`; AMF0 is made of bytes.
- Amf0.ReadDouble: starts on a byte boundary, as does `ReadString`.
- Amf0.ReadObjectItem: long strings, nested objects, arrays, null and date are not read, and an entry's storage must have 8 bytes and its declared size; the source takes both on trust.
- Amf0.ReadObject: the same for every entry it reads.
- Timers.TaskTimer.Visit: after taking a timer off the queue the source reads its deletion flag from freed memory, and if the flag is set it unlinks and frees the timer a second time (src/net/net-schedule.c:79-82 and 89-93); the model reads the flag's last value and takes the timer off once.
- Timers whose functions change the queue, `modifyTimerTask`, `deleteTimerTask` and timers added while a pass runs.
- The event loop, triggers, sockets, epoll, memory mapping, logging and wall-clock formatting are system calls with little logic of their own.
