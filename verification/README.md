# Models of the DMX and Art-Net node firmware

A Dafny model of the self-contained algorithms of a bare-metal DMX / Art-Net node, with lemmas about what these
algorithms are for. `dafny verify dfyconfig.toml` checks the whole project.

Code that updates state in place is modelled by a class with the same fields, or by a method with the same loops. Each
such method is specified by a function or relation on values (`View()`, `RunStep`, `MallocEffect`, `StepOf`, `Run`,
`Load`, ...), and the theorems are lemmas about these, mostly over whole runs.

| module | what it models |
|---|---|
| `Words`, `Arithmetic`, `Bits` | what the other modules share: fixed-width integers, products and quotients, bitwise operations |
| `ByteMemory`, `HeapLayout`, `Heap`, `HeapRuns` | the heap allocator on raw byte memory: block headers, bucket free lists, the word-by-word loops of calloc and realloc, and whole runs |
| `PollReply` | the four-slot poll-reply scheduler of the Art-Net node |
| `ConfigStore`, `ConfigRestart` | the configuration store, the machine that writes it back to flash, and restarts in the middle of an operation |
| `Calendar`, `FatTime` | gmtime, mktime and the packed FAT timestamp |
| `Strtok` | strtok with its static pointer, in memory |
| `Printf`, `PrintfFormat`, `PrintfC`, `HexText`, `Uuid` | the formatted output functions, how they compare with the C standard, and the UUID text form on top of them |
| `DmxSlotInfo` | the text form of DMX slot information |
| `Ema` | the integer exponential moving average |
| `DmxMerge` | HTP and LTP merging of two DMX sources |
| `CmdRing` | the command ring of the EVE display coprocessor |

Assumptions about what lies outside:

- Heap: `heap_low` is not 0 and a multiple of 16; the bucket table is any strictly ascending list of positive sizes
  (`lib-clib/src/gd32/malloc.h:29` is one); addresses and sizes have 32 bits; callers free and resize live pointers only
  and write inside their own blocks. Above the heap limit the address space has room for one more heap length, because
  `realloc` reads `newsize` bytes from a smaller block (`lib-clib/src/malloc.cpp:244-256`).
- Poll replies: the millisecond clock is a true time taken modulo 2^32. Sending a reply is an event in a ghost trace.
- Configuration store: an `Erase` that returns true has left the region blank; a `Write` that returns true has
  programmed every byte; programming only clears bits. An unfinished call may leave any state that this allows. Field
  updates do not touch the first 16 bytes, where the magic number and version are.
- Formatted output: built without floating point (`DISABLE_PRINTF_FLOAT`), with 32-bit `int`, `long` and pointers.
- Slot information: the memory behind the text's NUL reads as NULs, since the parser can step over the NUL.

Where the code does less than one would expect, the model keeps the code and a lemma says exactly when it does what it
should: a carve past the end of the address space (`Heap.Malloc`), an overflowing `calloc` product, a poll that arrives
when the clock reads 0, a second poll from an address that already waits in a later slot, `UpdateArray` with a prefix of
what is stored, a restart while the flash is being erased or written, mktime after 2039, FAT times before 1980,
`printf` directives that are not printed as the C standard says, `vsnprintf` sizes above `INT_MAX`, an EMA reset to a value too large for its shift, and free space computed from the ring's error value.

## Model

| member | source | states |
|---|---|---|
| HeapLayout.EveryAddressInOneBlock | lib-clib/src/malloc.cpp:113-141 | the blocks tile the region carved so far: every address of it lies in exactly one block |
| HeapLayout.ExactlyOneOwner | lib-clib/src/malloc.cpp:113-184 | every block is exactly one of live, on one free list (that of its own size), or retired |
| HeapLayout.PopKeeps | lib-clib/src/malloc.cpp:115-117 | unlinking the head of a free list keeps the tiling, all headers, and all lists acyclic and holding only free blocks of their size |
| HeapLayout.PushKeeps | lib-clib/src/malloc.cpp:172-183 | linking a freed block in front of its bucket's list keeps the same invariant |
| HeapLayout.CarveKeeps | lib-clib/src/malloc.cpp:118-143 | carving a block that ends below the limit keeps it |
| HeapLayout.RetireKeeps | lib-clib/src/malloc.cpp:172-184 | freeing a block larger than every bucket keeps it; the block is then retired |
| HeapLayout.DataWriteKeeps | lib-clib/src/malloc.cpp:149-150 | whatever a client writes into its own block, the invariant holds |
| HeapLayout.RoundedIsLeast | lib-clib/src/malloc.cpp:101-111 | a request is rounded up to the least bucket size that holds it, and left as it is when none does |
| Heap.CarveEndExact | lib-clib/src/malloc.cpp:121-124 | the 32-bit sums find the true end of the block exactly when it lies below 2^32, and otherwise an end inside the block |
| Heap.Heap.Malloc | lib-clib/src/malloc.cpp:94-151 | first fitting bucket, head of its list or a carved block, or null with nothing changed, and no other live block changes a byte: exactly when no carve is needed, or it ends below 2^32, or its wrapped end lies above the limit; otherwise the answer is a block that sticks out of the carved region |
| Heap.NullIff | lib-clib/src/malloc.cpp:97-137 | null is the answer iff the size is 0, or no free block of the rounded size is there and a new one would end above the limit |
| Heap.WrappedCarve | lib-clib/src/malloc.cpp:121-137 | such a call: the first one on a heap at 0x20000000, for 0xF0000000 bytes, is carved with an end below the heap |
| Heap.Heap.Free | lib-clib/src/malloc.cpp:153-184 | the block leaves the live ones and goes to the front of its bucket's list, or to none; no live block changes |
| Heap.MallocUndoesFree | lib-clib/src/malloc.cpp:94-184 | a request that rounds to the bucket of the block freed last gets that block, and the heap is as before the free |
| Heap.Heap.GetAllocated | lib-clib/src/malloc.cpp:77-91 | the header read back from memory gives the size of the block |
| Heap.ProductFits | lib-clib/src/malloc.cpp:191-192 | the 32-bit product is the product exactly when that does not overflow |
| Heap.Heap.Calloc | lib-clib/src/malloc.cpp:186-216 | what malloc does for the product modulo 2^32, with that many bytes zero; the block has room for all n * size bytes iff the product does not overflow |
| Heap.Heap.Realloc | lib-clib/src/malloc.cpp:218-264 | malloc, free, the same block, or a moved block whose first bytes in memory are all the old bytes, with the exact lists, sizes and carving pointer that malloc followed by free leave; every other live block keeps its bytes; without room nothing changes |
| Heap.CopyEffect | lib-clib/src/malloc.cpp:241-256 | the copy of newsize bytes out of a smaller block, over-reading into memory that may overlap the destination, delivers the old bytes and harms nothing else |
| ByteMemory.CopyWords | lib-clib/src/malloc.cpp:241-256 | the word loop followed by the byte loop is the plain forward byte copy, overlap included |
| ByteMemory.ZeroWords | lib-clib/src/malloc.cpp:200-211 | the word loop followed by the byte loop is the plain byte clear |
| ByteMemory.WordMoveIsFourByteMoves | lib-clib/src/malloc.cpp:246-249 | one word move is four byte moves in ascending order when the destination does not lie within the word just read |
| ByteMemory.ForwardCopyMeaning | lib-clib/src/malloc.cpp:246-256 | which byte ends up where in a forward copy |
| HeapRuns.RunIsolates | lib-clib/src/malloc.cpp:94-264 | over every run of malloc, calloc, realloc, free and client stores, a block keeps its size and bytes from any point at which it is live until it is freed, moved or written to |
| HeapRuns.CarvedIsPeak | lib-clib/src/malloc.cpp:94-264 | over every such run and for every bucket, the number of blocks ever carved is the peak of its blocks live at once |
| HeapRuns.Session.Malloc | lib-clib/src/malloc.cpp:94-151 | a call of malloc extends the run of its heap by exactly its step |
| HeapRuns.Session.Calloc | lib-clib/src/malloc.cpp:186-216 | the same for calloc |
| HeapRuns.Session.Realloc | lib-clib/src/malloc.cpp:218-264 | the same for realloc |
| HeapRuns.Session.Free | lib-clib/src/malloc.cpp:153-184 | the same for free |
| PollReply.RunKeeps | lib-artnet/include/artnetnode_inline_impl.h:290-313 | one Run call keeps the invariant: a running state has an occupied slot whose delay is over and a port in range; the trace is full volleys and at most one partial; no accepted poll is lost |
| PollReply.AddKeeps | lib-artnet/src/node/artnetnodehandlepoll.cpp:289-305 | queueing keeps the same invariant, also in the middle of a volley |
| PollReply.ModularElapsed | lib-artnet/include/artnetnode_inline_impl.h:294 | the wrapped difference of two clock readings is the true elapsed time modulo 2^32 and never more than it |
| PollReply.RepliesOfEveryRun | lib-artnet/include/artnetnode_inline_impl.h:290-313 | over every run: reply i * ports + j is port j of the i-th answered poll, each left more than the delay after its poll, and every accepted poll is answered once or still waits |
| PollReply.VolleysIndex | lib-artnet/include/artnetnode_inline_impl.h:299-303 | which poll and port stand at each position of a sequence of full volleys |
| PollReply.RunSpendsOne | lib-artnet/include/artnetnode_inline_impl.h:290-313 | with all delays over, each Run call takes exactly one unit off the remaining work |
| PollReply.RemainingBounds | lib-artnet/include/artnetnode_inline_impl.h:290-313 | the remaining work is at most 4 * (ports + 1) + 3 calls, and zero iff the queue is empty |
| PollReply.DrainsExactly | lib-artnet/include/artnetnode_inline_impl.h:290-313 | with no new polls and all delays over, the queue is empty after exactly the remaining number of calls, not earlier, and then all accepted polls have been answered |
| PollReply.AddRecordsIff | lib-artnet/src/node/artnetnodehandlepoll.cpp:289-305 | a poll is recorded iff a slot is empty with no earlier slot on the same address and the clock does not read 0 |
| PollReply.AddRecordsThisPoll | lib-artnet/src/node/artnetnodehandlepoll.cpp:289-305 | the same in terms of the arguments: bottom is kept as bottom, top as top, with the address and the time of the call |
| PollReply.AddKeepsOnePerAddressIff | lib-artnet/src/node/artnetnodehandlepoll.cpp:290-303 | at most one poll waits per address, iff no slot behind the one being filled holds that address |
| PollReply.DuplicateIsReachable | lib-artnet/src/node/artnetnodehandlepoll.cpp:290-303 | a run in which one address ends up waiting in two slots |
| PollReply.ArtNetNode.Run | lib-artnet/include/artnetnode_inline_impl.h:290-313 | the method takes exactly the step the theorems are about |
| PollReply.ArtNetNode.PollReplyQueueAdd | lib-artnet/src/node/artnetnodehandlepoll.cpp:289-305 | either the first empty slot, with none of the same address before it, holds the address, the port range and the time of this call and one poll with these fields is accepted, with all other slots as before; or no slot changes, but for an empty one that stays empty when the clock reads 0; nothing else of the node changes |
| ConfigStore.BootInv | lib-configstore/include/configstore.h:67-117 | start-up leaves a valid store and the invariant |
| ConfigStore.ConfigStore.constructor | lib-configstore/include/configstore.h:67-117 | byte by byte: the flash when its header is right, else the header over zeros and the machine started; either way the header is AvV, NUL and version 0, 1; without a device zeros |
| ConfigStore.StepKeeps | lib-configstore/include/configstore.h:515-612 | every update, reset and Flash call keeps the invariant: idle means flash and RAM agree, and erased or writing means that no change came since the erase |
| ConfigStore.TraceKeeps | lib-configstore/include/configstore.h:486-612 | the invariant holds after any number of events of any interleaving |
| ConfigStore.CompletedWriteFollowsErase | lib-configstore/include/configstore.h:593-602 | a write completes only over a completed erase with no store change since, and then flash equals the structure in RAM |
| ConfigStore.WriteCompletes | lib-configstore/include/configstore.h:593-602 | on a device that only clears bits, a finished write over a blank or partly written image yields the RAM image |
| ConfigStore.WriteFollowsErase | lib-configstore/include/configstore.h:515-612 | in every interleaving from start-up, each completed write comes after a completed erase with the store unchanged from then to the end of the write |
| ConfigStore.CommitPath | lib-configstore/include/configstore.h:559-612 | with a device whose every operation ends at once, a change is committed in six calls, state by state |
| ConfigStore.OneStepPerCall | lib-configstore/include/configstore.h:559-612 | every Flash call takes the next of these steps, except while an erase or a write is still under way |
| ConfigStore.IdleMeansCommitted | lib-configstore/include/configstore.h:559-612 | in every interleaving from start-up, idle means that the flash holds the structure as it is in RAM |
| ConfigStore.RestartLoadsCommittedOrDefault | lib-configstore/include/configstore.h:67-117 | with atomic device operations, a restart at any point loads the last completely written store or the default one |
| ConfigRestart.RestartIsWholeIff | lib-configstore/include/configstore.h:67-117 | over every run, atomic or not: whatever the device leaves within its contract, a restart loads the store last written in full or the default one, iff no device call was left unfinished since the last completed one, or the unfinished one is a write that can leave no other valid image than the committed one |
| ConfigRestart.Reach | lib-configstore/include/configstore.h:576-602 | everything that an unfinished erase or write may leave is reached by the same calls |
| ConfigRestart.TornEraseIsLoaded | lib-configstore/include/configstore.h:99-110 | a run from start-up whose restart loads blank fields under a valid header, left by an unfinished erase, also after a further update |
| ConfigRestart.TornWriteIsLoaded | lib-configstore/include/configstore.h:99-110 | the same, left by an unfinished write |
| ConfigStore.NoHeaderAfterReset | lib-configstore/include/configstore.h:126-129 | after a Reset the header stays invalid, whatever is updated later |
| ConfigStore.CommittedResetLoadsDefault | lib-configstore/include/configstore.h:126-129 | a restart after a committed Reset loads the default store, also when fields were updated in between |
| ConfigStore.UpdateArrayStoresIff | lib-configstore/include/configstore.h:498-513 | UpdateArray leaves the padded source in the field iff the source differs from the bytes compared or the field was zero behind them |
| ConfigStore.ArrayUpdatedBytes | lib-configstore/include/configstore.h:498-513 | the comparison, the clearing and the copy of UpdateArray, byte by byte |
| ConfigStore.SplicedBytes | lib-configstore/include/configstore.h:486-496 | the copy of UpdateField, byte by byte |
| ConfigStore.ConfigStore.UpdateField | lib-configstore/include/configstore.h:486-496 | byte by byte: the field holds the value and no byte outside it changes, and the machine restarts iff something changed |
| ConfigStore.ConfigStore.UpdateArray | lib-configstore/include/configstore.h:498-513 | byte by byte: nothing changes when the field starts with the source; otherwise it holds the source as far as it fits and zeros behind, no byte outside it changes, and the machine restarts |
| ConfigStore.ConfigStore.Reset | lib-configstore/include/configstore.h:126-129 | every byte zero and the machine restarted |
| ConfigStore.ConfigStore.Commit | lib-configstore/include/configstore.h:559-612 | one Flash call is one allowed step; its result says whether work is left; unless it ends, the state rank or the device's work falls |
| ConfigStore.ConfigstoreCommit | lib-configstore/include/configstore.h:654-657 | the loop ends, and with a device it ends idle with the unchanged RAM image in the flash |
| Calendar.Clock.Gmtime | lib-clib/src/time.cpp:65-117 | for every 32-bit time the fields form an existing date and time that counts to exactly that many seconds, with the right weekday and day of the year; other times are refused |
| Calendar.Mktime | lib-clib/src/time.cpp:120-172 | the seconds of every existing date and time up to 2039, -1 for all others, with no 32-bit overflow on the way |
| Calendar.MktimeUndoesGmtimeIff | lib-clib/src/time.cpp:65-172 | mktime gives back the time gmtime was given iff it lies before 2040 |
| Calendar.GmtimeUndoesMktime | lib-clib/src/time.cpp:65-172 | gmtime gives back all six fields of every tm that mktime accepts |
| Calendar.GmtimeAscends | lib-clib/src/time.cpp:65-117 | the fields grow lexicographically with the time, and determine it |
| Calendar.SecondsAscend | lib-clib/src/time.cpp:129-169 | the count of seconds orders existing dates and times like their fields |
| Calendar.TwelveMonthsAreAYear | lib-clib/src/time.cpp:34-50 | the month lengths add up to the year's days, so the month loop stays within December |
| Calendar.YearReached | lib-clib/src/time.cpp:85-98 | a time lies in or after a year iff its seconds reach the start of that year |
| Calendar.WeekdayAgrees | lib-clib/src/time.cpp:83 | the weekday is the one that the Gregorian table rule gives for the date |
| Bits.MaskIsRemainder | lib-fatfs/src/get_fattime.cpp:35-40 | masking k low bits is the remainder modulo 2^k |
| Bits.OrIsSum | lib-fatfs/src/get_fattime.cpp:42 | or with a field below the lowest set bit is addition |
| FatTime.PackBitsIsPack | lib-fatfs/src/get_fattime.cpp:35-42 | the casts, masks, shifts and ors on 32-bit words, negative fields included, are a sum of scaled remainders |
| FatTime.UnpackRecoversIff | lib-fatfs/src/get_fattime.cpp:35-42 | the bit fields give back date and time, seconds rounded down to even, iff the time is in or after 1980 |
| FatTime.PackOrder | lib-fatfs/src/get_fattime.cpp:31-44 | from 1980 on packed values keep time order and are equal iff the times share a two-second slot |
| FatTime.PackOrderFailsBefore1980 | lib-fatfs/src/get_fattime.cpp:35 | the last second of 1979 packs above the first of 1980 |
| FatTime.GetFattime | lib-fatfs/src/get_fattime.cpp:31-44 | for every time, the six fields that gmtime makes of it stand in seven, four, five, five, six and five bits, the year from 1980 on and before it wrapped |
| FatTime.FieldsInPlace | lib-fatfs/src/get_fattime.cpp:35-42 | the same about the sum |
| Strtok.Tokenizer.Strtok | lib-clib/src/strtok.cpp:58-101 | one call: the next token or null, the one delimiter overwritten, and where the next call goes on |
| Strtok.TokenizeAll | lib-clib/src/strtok.cpp:58-101 | a whole tokenisation answers the starts of all spans, in order, and memory differs only in the bytes cut |
| Strtok.SpansAreMaximalRuns | lib-clib/src/strtok.cpp:58-101 | the spans are exactly the maximal non-empty runs of characters none of which is in the delimiter string |
| Strtok.SpansAreRuns | lib-clib/src/strtok.cpp:66-99 | every span is a maximal run, and they ascend |
| Strtok.RunsAreSpans | lib-clib/src/strtok.cpp:66-99 | every maximal run is found |
| Strtok.CutBytes | lib-clib/src/strtok.cpp:89-96 | the only bytes overwritten are the delimiters directly behind a token |
| Strtok.TokenIsItsRun | lib-clib/src/strtok.cpp:58-101 | afterwards every token pointer is a NUL-terminated string that equals its run |
| Printf.Printer.PutChar | lib-clib/src/printf.cpp:62-73 | of all characters emitted, exactly the first ones below the capacity are stored, and nothing behind them changes |
| Printf.Printer.FormatHex | lib-clib/src/printf.cpp:75-126 | emits the number's text, without leaving its 64-byte buffer, for every width and precision; besides spaces only digits and letters of the case asked for |
| Printf.Printer.FormatInt | lib-clib/src/printf.cpp:128-178 | the same for decimal and signed numbers |
| Printf.Printer.FormatString | lib-clib/src/printf.cpp:287-310 | emits the precision-limited prefix, padded to the width on the side the flag says |
| Printf.NumeralDenotes | lib-clib/src/printf.cpp:89-94 | the digits denote the argument |
| Printf.NumeralDigits | lib-clib/src/printf.cpp:138-142 | they are digits of the base, without a leading zero |
| Printf.NumeralCase | lib-clib/src/printf.cpp:87-93 | no letter of the other case |
| Printf.NumberTextShape | lib-clib/src/printf.cpp:145-177 | the exact numbers of spaces, zeros and trailing spaces around sign and digits, for every width and precision and the zero flag |
| Printf.NumberTextLength | lib-clib/src/printf.cpp:145-177 | the length is the larger of the width and the signed, extended digits, but one more for zero-padded negatives |
| PrintfFormat.ReadDirective | lib-clib/src/printf.cpp:340-383 | flags, width, precision and length modifier as the specification function parses them |
| PrintfFormat.ParseReadsPiece | lib-clib/src/printf.cpp:340-383 | the parser reads every directive back from its text |
| PrintfFormat.RenderMeansPieces | lib-clib/src/printf.cpp:322-433 | a format written out of literals and directives is read back piece by piece, each directive gets its own arguments, and the pieces are printed in order |
| PrintfC.IntegerMeetsCIff | lib-clib/src/printf.cpp:75-178 | d, i, u, x and X print what section 7.21.6.1 of C11 prescribes, with the digits 0123456789abcdef for x and 0123456789ABCDEF for X, iff flag, width, precision, sign and number of digits meet a plain condition |
| PrintfC.StringMeetsCIff | lib-clib/src/printf.cpp:287-310 | s does, iff no negative precision cuts anything visible off |
| PrintfC.DirectiveMeetsCIff | lib-clib/src/printf.cpp:340-427 | every directive that the standard defines is printed as it says iff its condition holds; c iff its width is at most 1 |
| PrintfC.OneDirectiveMeetsCIff | lib-clib/src/printf.cpp:322-433 | the same from the format string and the argument list |
| PrintfC.FormatMeetsC | lib-clib/src/printf.cpp:322-433 | a format whose directives all meet their conditions is printed as the standard says |
| PrintfC.ZeroPaddedNegative | lib-clib/src/printf.cpp:151-159 | minus 42 with the directive %05d is printed as -00042, where the standard has -0042 |
| PrintfC.StandardTextIff | lib-clib/src/printf.cpp:385-427 | which directives the comparison with the standard covers: d, i, u, x and X always, c and s without what is undefined for them |
| PrintfC.OneStandardTextIff | lib-clib/src/printf.cpp:359-383 | a format of one directive is covered iff its arguments are there, for an asterisk two |
| PrintfC.NumeralIsC | lib-clib/src/printf.cpp:87-93 | the digits are those of the standard, each from the table of its letter case |
| PrintfC.PointerText | lib-clib/src/printf.cpp:312-320 | a pointer is printed as 0x and eight digits in lower case |
| PrintfC.UnknownConversion | lib-clib/src/printf.cpp:424-427 | a character that is no conversion is printed and then read again as text; the second of two percent signs starts a directive |
| PrintfFormat.Vprintf | lib-clib/src/printf.cpp:322-433 | emits exactly the rendered text and returns its length |
| PrintfFormat.Vsnprintf | lib-clib/src/printf.cpp:484-499 | stores the prefix that fits, for a size up to 2^31 - 1 that is the whole text or its first size - 1 characters; for a larger one nothing; then NUL, nothing behind changes, and the result is the unbounded length |
| PrintfFormat.StoredIsPromisedIff | lib-clib/src/printf.cpp:493 | the stored prefix is min(total, size - 1) characters iff the size fits an int or nothing is printed |
| PrintfFormat.Sprintf | lib-clib/src/printf.cpp:455-470 | the whole text and its NUL for every text shorter than 2^31 - 1, and that much of a longer one |
| HexText.HexDenotes | lib-clib/src/uuid_unparse.cpp:69-70 | fixed-width hexadecimal digits denote the number |
| HexText.HexCase | lib-clib/src/uuid_unparse.cpp:69-70 | in digits and letters of the case asked for |
| HexText.HexOfValue | lib-clib/src/uuid_parse.cpp:69-86 | reading k digits and writing the value in k digits gives them in lower case |
| HexText.NumeralIsHex | lib-clib/src/printf.cpp:75-107 | a zero-padded numeral is the fixed-width form |
| Uuid.UnparsePrints | lib-clib/src/uuid_unparse.cpp:69-114 | the real format strings, with the real arguments, print the 8-4-4-4-12 text form of section 3 of RFC 4122 |
| Uuid.UnparseBytes | lib-clib/src/uuid_unparse.cpp:69-103 | the digits of each of the sixteen bytes stand at their place, in the order of the bytes |
| Uuid.UnparseCase | lib-clib/src/uuid_unparse.cpp:105-123 | dashes, digits and letters of one case only |
| Uuid.ParseUndoesUnparse | lib-clib/src/uuid_parse.cpp:121-170 | uuid_parse gives back all 16 bytes from either letter case |
| Uuid.UnparseUndoesParse | lib-clib/src/uuid_unparse.cpp:105-119 | uuid_unparse_lower gives back every accepted text, in lower case |
| Uuid.UuidParse | lib-clib/src/uuid_parse.cpp:121-170 | succeeds iff the text has the 8-4-4-4-12 hexadecimal form, and leaves the output alone otherwise |
| Uuid.UuidUnparse | lib-clib/src/uuid_unparse.cpp:105-123 | writes the text and its NUL through sprintf, and nothing more: two digits for each byte in order, in the letter case asked for |
| Uuid.HexUint32 | lib-clib/src/uuid_parse.cpp:69-86 | the value of the digit run, modulo 2^32 |
| Uuid.UuidPack | lib-clib/src/uuid_parse.cpp:88-119 | the 16 bytes in network order |
| Uuid.PackUndoesUnpack | lib-clib/src/uuid_unparse.cpp:78-103 | packing gives back the bytes that were unpacked |
| Uuid.UnpackUndoesPack | lib-clib/src/uuid_parse.cpp:88-119 | unpacking gives back the fields that were packed |
| DmxSlotInfo.SlotTable.constructor | lib-dmxnode/include/dmxslotinfo.h:39-51 | every slot of the table gets the default type and category |
| DmxSlotInfo.SlotTable.FromString | lib-dmxnode/include/dmxslotinfo.h:69-93 | for a table of up to 32 slots, the entries up to the first malformed one go to the front, the rest keeps its values, and the 32-bit mask has one low bit for each |
| DmxSlotInfo.SetNextBit | lib-dmxnode/include/dmxslotinfo.h:88 | setting the next bit of a run of low ones makes it one longer |
| DmxSlotInfo.SlotTable.ToString | lib-dmxnode/include/dmxslotinfo.h:95-138 | the text names each slot whose mask bit is set, at the place given by the number of set bits below it, with commas between the entries, and is exactly as long as the number of set bits asks for |
| DmxSlotInfo.TextLists | lib-dmxnode/include/dmxslotinfo.h:95-138 | the same about the text function |
| DmxSlotInfo.SelectedAt | lib-dmxnode/include/dmxslotinfo.h:112-130 | a slot whose bit is set is selected, behind as many slots as there are bits set below it |
| DmxSlotInfo.SelectedCount | lib-dmxnode/include/dmxslotinfo.h:112-130 | there are as many selected slots as bits set within the table |
| DmxSlotInfo.SlotTextIs | lib-dmxnode/include/dmxslotinfo.h:117-126 | an entry is two upper-case digits for the type, a colon, and four for the category |
| DmxSlotInfo.SlotTable.Parse | lib-dmxnode/include/dmxslotinfo.h:147-210 | one entry, where the next one starts, or invalid |
| DmxSlotInfo.ParseAcceptsIff | lib-dmxnode/include/dmxslotinfo.h:147-210 | an entry is accepted iff it has up to two type digits up to a colon, four category digits and a comma, a space or NUL behind them, and its values are those of the digits |
| DmxSlotInfo.MalformedEnds | lib-dmxnode/include/dmxslotinfo.h:69-93 | the first malformed entry ends the list, and those before it are kept |
| DmxSlotInfo.ParseReadsSlot | lib-dmxnode/include/dmxslotinfo.h:117-126 | a printed slot is parsed back |
| DmxSlotInfo.EntriesOfText | lib-dmxnode/include/dmxslotinfo.h:69-93 | a printed list of slots is read back, all of them and in order |
| DmxSlotInfo.RoundTrip | lib-dmxnode/include/dmxslotinfo.h:69-138 | for up to 32 slots and every 32-bit mask that selects one: FromString on ToString in a fresh table puts each slot whose bit was set at the place given by the number of set bits below it, and the new mask has as many bits set as there were within the table |
| DmxSlotInfo.LowOnesSelectPrefix | lib-dmxnode/include/dmxslotinfo.h:112-130 | a mask of low-order ones selects the first slots |
| DmxSlotInfo.ExactRoundTrip | lib-dmxnode/include/dmxslotinfo.h:69-138 | for such a mask the round trip restores slots, places and mask |
| Ema.EMA.Filter | lib-device/include/ema.h:56-61 | one 16-bit step, whose output is the integer nearest to the sum of state and input over 2^k; from a state in bounds it is the step of the unbounded filter, stays in bounds, and the output is at most m |
| Ema.NearestOutput | lib-device/include/ema.h:56-61 | the output of the unbounded step is the integer nearest to that quotient |
| Ema.NearestWord | lib-device/include/ema.h:56-61 | the same for 16 bits with the wrapped sum, and the state keeps the rest of it |
| Ema.EMA.FilterAll | lib-device/include/ema.h:56-61 | a loop of calls makes the run that the theorems are about |
| Ema.EMA.Reset | lib-device/include/ema.h:54 | the one state that the value, added once, makes the shifted value; within bounds for every bound on the value, at rest on the value if it fits shifted in 16 bits, and with the first output in every case |
| Ema.ResetUnique | lib-device/include/ema.h:54 | no other state is a reset to the same value |
| Ema.ResetRests | lib-device/include/ema.h:54-61 | a filter reset to a value that fits, shifted, in 16 bits answers that value as long as it is the input |
| Ema.BoundedRun | lib-device/include/ema.h:56-61 | for every run of inputs up to m with m * 2^k below 2^16: no operation wraps, the state stays at most (2^k - 1) * m, no output exceeds m |
| Ema.ResetWithin | lib-device/include/ema.h:54 | reset to a value up to m starts such a run |
| Ema.ResetHoldsIff | lib-device/include/ema.h:54-61 | a filter reset to a value answers that value for it iff the shifted value fits in 16 bits |
| Ema.FirstOutput | lib-device/include/ema.h:54-61 | the first output in every case, the wrapped ones included |
| Ema.ConstantInputSettles | lib-device/include/ema.h:56-61 | on a constant input the outputs move monotonically to it without overshoot, reach it within as many steps as the initial gap, and stay |
| Ema.GapStep | lib-device/include/ema.h:56-61 | the gap between state and resting point shrinks strictly and never changes sign until the output is the input |
| DmxMerge.Data.MergeSourceA | lib-dmxnode/include/dmxnodedata.h:74-92 | sources, output and length of the port agree with its history of calls, this one added; after an HTP merge every byte of the frame is one of the latest values of the two sources and not less than either; no other port changes |
| DmxMerge.Data.MergeSourceB | lib-dmxnode/include/dmxnodedata.h:94-112 | the same for the other source |
| DmxMerge.OutputPort.MergeSourceA | lib-dmxnode/include/dmxnodedata.h:78-91 | the copies and the HTP loop keep one port in agreement with its history, and each byte of the frame is stored as the source stores it: the new byte for LTP, for HTP the larger of the two latest |
| DmxMerge.MergeHtp | lib-dmxnode/include/dmxnodedata.h:83-86 | each byte of the frame becomes one of the two source bytes and not less than either, and no other byte changes |
| DmxMerge.Data.SetSourceA | lib-dmxnode/include/dmxnodedata.h:55 | setting a source is an LTP merge |
| DmxMerge.Data.SetSourceB | lib-dmxnode/include/dmxnodedata.h:59 | the same for the other source |
| DmxMerge.Data.GetLength | lib-dmxnode/include/dmxnodedata.h:126-129 | the length is that of the last frame, unless cleared since |
| DmxMerge.Data.ClearOutput | lib-dmxnode/include/dmxnodedata.h:114-119 | the same for clearing, which leaves the sources alone |
| DmxMerge.Data.ClearOutputLength | lib-dmxnode/include/dmxnodedata.h:121-124 | the same for clearing the length |
| DmxMerge.Data.RestoreOutput | lib-dmxnode/include/dmxnodedata.h:136-141 | the same for restoring the output |
| DmxMerge.MergeAgrees | lib-dmxnode/include/dmxnodedata.h:74-112 | after a merge each source still holds the latest value that it sent for every slot |
| DmxMerge.LatestIs | lib-dmxnode/include/dmxnodedata.h:74-112 | the latest value of a source is that of its last merge with a frame that has the slot, or zero |
| DmxMerge.OutputIs | lib-dmxnode/include/dmxnodedata.h:74-141 | the output is what the last call that has the slot left there: the byte of an LTP frame, the larger latest value for HTP, zero, or the restored byte |
| DmxMerge.HtpOnlyIsPointwiseMax | lib-dmxnode/include/dmxnodedata.h:74-112 | in runs of HTP merges the output is one of the two source bytes and not less than either on all 512 slots, with varying lengths |
| DmxMerge.HtpAfter | lib-dmxnode/include/dmxnodedata.h:74-141 | HTP merges after any history: a slot they reach holds one of the latest values of the two sources, earlier ones included, and not less than either; the others keep their output |
| DmxMerge.HtpIgnoresInterleaving | lib-dmxnode/include/dmxnodedata.h:74-112 | histories that interleave the same merges of the sources differently give the same HTP output |
| DmxMerge.LtpDependsOnOrder | lib-dmxnode/include/dmxnodedata.h:91-111 | for LTP they need not |
| CmdRing.Hal.IncCmdPointer | lib-eve/source/EVE_HAL.cpp:355-359 | within the allowance the wrapped pointer goes on standing for the count of bytes written |
| CmdRing.Hal.CheckCmdFreeSpace | lib-eve/source/EVE_HAL.cpp:400-414 | for every register value the 16-bit difference between 4092 and the distance of the pointers modulo 4096; with the register's true value, 4092 bytes less those written and not yet consumed |
| CmdRing.StepRefines | lib-eve/source/EVE_HAL.cpp:355-414 | checks, writes and reads each keep the pointers a refinement of the counters |
| CmdRing.Hal.WaitCmdFifoEmpty | lib-eve/source/EVE_HAL.cpp:375-398 | polls until the first read that equals the write pointer or is the error value; 0xFF iff that read is the error value |
| CmdRing.PointersTellCounters | lib-eve/source/EVE_HAL.cpp:355-414 | fullness is written minus consumed, free plus full is 4092, equal pointers mean empty and never full, and no pointer is the error value |
| CmdRing.EveryRunRefines | lib-eve/source/EVE_HAL.cpp:355-414 | over every run, with free space that may have been read any time before, the wrapped pointers refine the two unbounded counters |
| CmdRing.WaitEnds | lib-eve/source/EVE_HAL.cpp:375-398 | polling a coprocessor that makes progress ends in time, and not before everything written was consumed |
| CmdRing.LowTwelveBits | lib-eve/source/EVE_HAL.cpp:405-409 | only the low twelve bits of the register count |
| CmdRing.FreeSpaceIff | lib-eve/source/EVE_HAL.cpp:408-411 | for any pointers free plus full is 4092 iff the ring is not fuller than that |
| CmdRing.FreeSpaceOnError | lib-eve/source/EVE_HAL.cpp:405-411 | what is reported as free space when the register holds the error value |

## Left out

- Heap.Heap.Calloc: required exactly where malloc answers soundly; for the other requests malloc hands out a block that reaches out of the heap, and the clearing loop writes over whatever is there.
- Heap.Heap.Realloc: the same when it has to call malloc, with the copying loop.
- PollReply.ArtNetNode.Run: which ports are enabled and targeted is decided inside SendPollReply, which is one event here, as are the packet and the UDP output.
- ConfigStore.ConfigStore.Commit: the software timer that calls it, and errors reported by the device.
- ConfigStore.ConfigStore.UpdateField: the setters and flag helpers built on it, and the layout of the structure, are not modelled field by field.
- Printf.Printer.FormatInt: negating the least int, as a value or as a precision, is undefined and taken to give 2^31; widths and totals are unbounded integers here.
- PrintfFormat.Vprintf: an unknown conversion is printed and not stepped over, as in the code; `%f` is not modelled (a build without floating point), and formats written out of pieces hold literals and the directives c, d, i, u, x, X, s and p.
- PrintfC.OneDirectiveMeetsCIff: the flag 0 with c or s, a precision with c, and l with c or s are undefined in the standard, and p is left to the implementation, so these have no standard text.
- PrintfC.CMeaning: the flags +, space and #, more than one flag, a width given by an argument, and the length modifiers other than l, none of which the code recognises.
- PrintfC.FormatMeetsC: one direction only, as directives that differ can still make up the same text together.
- PrintfFormat.Vsnprintf: size 0, which prints to the console.
- DmxSlotInfo.SlotTable.FromString: tables of more than 32 slots, for which the source shifts past its mask.
- DmxSlotInfo.SlotTable.ToString: the text is a sequence, so the 7 bytes reserved for each slot against 8 written do not show; a mask that is not 0 but selects no slot steps before the buffer in the source and is excluded.
- Ema.ResetHoldsIff: shifts up to 16.
- DmxMerge.Data.MergeSourceA: a frame is a value, so a data pointer into the port's own buffers is not modelled, nor is the pointer that Backup hands out.
- CmdRing.Hal.WaitCmdFifoEmpty: a register that never reads as the write pointer or the error value, where the loop does not end.
- localtime and the UTC offset, inet_aton and inet_ntoa, rand, the display and sensor drivers, SPI, I2C, GPIO and UART access.
- The Art-Net and E1.31 receive handlers, RDM discovery, JSON parameters, and the main loops.
- FormatFloat: floating point.
