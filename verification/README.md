# Yalnix: verified core algorithms

Dafny models of the parts of the Yalnix kernel and its user library whose
correctness is not obvious from reading them, with proofs about every input and
every run. `dafny verify dfyconfig.toml` checks the whole project. The machine
is the 32-bit one the system is built for: 4-byte words, 8 KB pages, 24-byte
block headers.

* **The user heap** (`BlockList`, `HeapModel`, `HeaderMemory`, `HeapContents`,
  `Heap`). A first-fit allocator whose doubly linked headers live in the bytes
  it manages. `HeapModel` says what each call does to the list of blocks and
  proves the laws of the allocator there. `Heap.UserHeap` is the code: a byte
  array, a break and the heap bounds, with every header read and written as
  words in the array. Each method is proved to do to memory what the model does
  to the list, and whole runs of public calls are stated for a client, as steps
  of a map from live pointers to byte strings.
* **Printing and scanning of integers** (`CText`, `Output`, `FormatInt`,
  `IntLayout`, `Vsnprintf`, `Directives`, `Strntoumax`, `Vsscanf`,
  `ScanDirectives`, `IntRoundTrip`, `PrintScan`). The text a format stands for is
  defined piece by piece (`Pieces`, `TextOf`, `IntText`) and so is what a scan
  takes from a buffer (`Scan`, `Parse`). The two character-driven machines, with
  their re-read characters, are proved against these. `IntLayout`, `Directives`
  and `ScanDirectives` say what these definitions mean in the terms of a format:
  what each flag, width, precision, length modifier and conversion does. Then the
  two are proved to undo each other.
* **Kernel frames and the Region 0 page table** (`FrameModel`, `FrameRuns`,
  `FrameBoot`, `FrameWitnesses`, `KernelMemory`). Bitmap, page table and kernel
  break as mutable state, proved against functions on values; safety, accounting
  and leaks over whole runs from boot on, failed grows included.
* **String algorithms and jrand48** (`Memmem`, `Tokenizer`, `Jrand48`,
  `ByteText`, `Arithmetic`).
* **The argument stack of LoadProgram** (`ArgStack`, with `Machine` for pages
  and words).

Choices of the model:

* The kernel's answer to a break request is a parameter: pages up to `limit`
  are granted. `Malloc`, `Free` and `Realloc` of a heap that is not initialised
  ask that the first pages are granted (`CanInit`); `Realloc` asks that the
  pointer is not that of a freed block (`NotStale`).
* Variadic arguments are a list of tagged values. `isspace` is the set 8..13,
  32 and 160.
* Lengths given to vsnprintf, strntoumax and memmem are limits inside the
  arrays passed. The `ghost` parameters of methods are proof only.
* The run of `Tokenizer.Strtok.Tokens` is the loop a caller of strtok writes.
* Booting asks for at least one region of physical memory, the smallest the
  hardware header allows.

Where code and comment differ the code is followed. The comment on
`requested_kernel_brk_page` (memory.c:21) speaks of the largest request before
VM; the code keeps the last one (memory.c:253-257), and so does the model. The
comment before `merge_free_pair` asks for two free blocks; the code accepts any.
vsnprintf prints `0` for a zero with precision 0 and keeps the `0` flag when a
precision is given, unlike the C standard.

Four properties that one might expect are false of the code. Each has an input
that shows it and the exact condition under which it holds.

* vsnprintf does not return for every format. Digits after a negative star make
  a precision below -1, which a `%s` takes for the length of its string
  (`Vsnprintf.RunawayInput`); widths, precisions and integer fields can leave the
  range of an int. `Vsnprintf.Vsnprintf` holds if and only if no such piece is
  reached.
* Decimal text read with base 0 is read as octal when it has a leading zero
  (`IntRoundTrip.OctalTrap`, `BaseZero`).
* FreeFrame of a frame that some page is on leaves the kernel unsound
  (`FrameWitnesses.ReleaseOfMappedFrame`, `FrameRuns.ReleaseSoundIff`).
* A grow of the kernel heap that fails leaves pages mapped above the break; if
  FreeFrame is used afterwards, a later grow can write over such a page and lose
  its frame (`FrameWitnesses.LeakAfterFailedGrow`). `FrameRuns.NoLeaksIff` and
  `RunLeaks` say exactly which runs lose which frames.

## Model

| member | source | states |
|---|---|---|
| BlockList.CoalesceCorrect | yalnix_project/etc/new_heap.c:333-343 | for every block list that tiles the heap, the sweep gives a list that tiles the same bytes, has the same used blocks and no two free neighbours |
| BlockList.CanonicalUnique | yalnix_project/etc/new_heap.c:333-343 | a list without free neighbours is determined by its used blocks and the bounds of the heap |
| BlockList.SweptStep | yalnix_project/etc/new_heap.c:336-342 | one turn of the sweep, a fusion in place or a move to the next block, leaves what the whole sweep will give unchanged |
| HeapModel.MallocCorrect | yalnix_project/etc/new_heap.c:412-506 | from any sound heap: the heap stays sound; NULL changes nothing; otherwise exactly one used block appears, at the returned pointer, with less than MINBLOCK of slack |
| HeapModel.MallocNullIff | yalnix_project/etc/new_heap.c:412-496 | malloc is NULL if and only if the length is 2^31 or more, or no free block is long enough and the page where the grown heap would end lies beyond the limit; so the exit for an odd merge (lines 491-496) is never taken |
| HeapModel.MallocLowest | yalnix_project/etc/new_heap.c:448-463 | when a free block is long enough, malloc does not grow and takes the front of such a block at the lowest address; the rest becomes a block if and only if 48 bytes or more are left |
| HeapModel.MallocGrows | yalnix_project/etc/new_heap.c:464-496 | when none is, the block begins at the old last block, if that was free, or at the old end of the heap, and the heap ends at the first page boundary that leaves room for a header and the rounded length |
| HeapModel.GrownCorrect | yalnix_project/etc/new_heap.c:474-496 | a grown heap ends in one free block that is big enough, merged with the old last block if that was free |
| HeapModel.FreeCorrect | yalnix_project/etc/new_heap.c:375-402 | free of any address inside a used block removes exactly that block and leaves a sound heap |
| HeapModel.FreeKeepsInv | yalnix_project/etc/new_heap.c:375-408 | free of any address at all keeps the heap sound, and changes nothing when no used block contains it |
| HeapModel.ReallocCorrect | yalnix_project/etc/new_heap.c:526-611 | on all three paths: NULL changes nothing; otherwise the block is replaced by one at the returned pointer with room for the new size, and every other used block stays |
| HeapModel.ReallocWhere | yalnix_project/etc/new_heap.c:576-609 | realloc of a live block stays at its pointer, with the heap bounds and the exact size of the block, if and only if the new size fits the block or the block with a free one that begins at its end; otherwise it answers with another pointer or NULL, exactly as malloc of the size does |
| HeapModel.MallocFreeRestores | yalnix_project/etc/new_heap.c:292-506 | a malloc that does not grow followed by free of its result restores the block list exactly |
| HeapModel.ApplyKeepsInv | yalnix_project/etc/new_heap.c:347-611 | every malloc, free and realloc keeps the heap sound, stale and foreign pointers included |
| HeapModel.RunKeepsInv | yalnix_project/etc/new_heap.c:347-611 | so does every run of calls |
| HeapModel.AllFreedIsOneBlock | yalnix_project/etc/new_heap.c:333-343 | after any run at all, once no used block is left the heap is a single free block of all its bytes less one header |
| HeaderMemory.FuseHeaders | yalnix_project/etc/new_heap.c:271-279 | the stores of the merge turn headers linked for a list into headers linked for the fused list and touch no payload byte |
| HeaderMemory.SplitHeaders | yalnix_project/etc/new_heap.c:317-327 | the same for the split |
| HeaderMemory.AbsorbHeaders | yalnix_project/etc/new_heap.c:587-591 | the same for realloc absorbing the next block |
| HeaderMemory.AppendHeaders | yalnix_project/etc/new_heap.c:484-485 | the same for the grown block hung behind the last one |
| HeaderMemory.JoinLinked | yalnix_project/etc/new_heap.c:271-279 | which three fields and which back link have to change when two neighbours become one block |
| HeaderMemory.SplitLinked | yalnix_project/etc/new_heap.c:317-327 | which fields have to change when a block is split |
| HeaderMemory.Memcpy | yalnix_project/etc/new_heap.c:605 | the bytes of the source are at the destination, and no other byte has changed |
| HeaderMemory.HeaderWords | yalnix_project/etc/new_heap.c:67-78 | the six fields of a header are the words at offsets 0, 4, 8, 12, 16 and 20 |
| HeapContents.ContentsAdded | yalnix_project/etc/new_heap.c:448-459 | a used block more in memory is one entry more in the map from live pointers to bytes |
| HeapContents.ContentsMoved | yalnix_project/etc/new_heap.c:575-609 | a used block replaced by one that begins with its bytes is one entry replaced, and all other entries stay |
| HeapContents.ContentsWritten | yalnix_project/etc/new_heap.c:66-78 | a store inside one live block changes that entry only |
| Heap.UserHeap.MergeFreePair | yalnix_project/etc/new_heap.c:243-283 | merges exactly when both blocks are free and then answers with the same block, otherwise with the next one; used payloads keep their bytes |
| Heap.UserHeap.SplitFreeBlock | yalnix_project/etc/new_heap.c:292-328 | splits a free block off exactly when a second one is worth while; used payloads keep their bytes |
| Heap.UserHeap.GarbageCollect | yalnix_project/etc/new_heap.c:333-343 | terminates, and the list in memory is the coalesced list; used blocks and their bytes are unchanged |
| Heap.UserHeap.SanityCheck | yalnix_project/etc/new_heap.c:116-156 | is silent exactly when the header is in order, and never warns on a block of a sound heap |
| Heap.UserHeap.SaneWords | yalnix_project/etc/new_heap.c:116-156 | a header is in order if and only if it lies in the heap, both magic words are right, used is at most size, and next is NULL or the end of the block |
| Heap.UserHeap.CheckReady | yalnix_project/etc/new_heap.c:194-212 | on a heap that is there: the tally and the silence of the next row |
| Heap.UserHeap.CheckHeap | yalnix_project/etc/new_heap.c:161-231 | creates the heap if need be and changes nothing else; counts all blocks, the used ones, their bytes and the free bytes; used + fragmentation + free + 24 per block is the size of the heap; the tallies count exactly the live pointers of the client; no warning |
| Heap.UserHeap.BrkUnlocked | yalnix_project/etc/yuserlib/yuser/libc.c:109-131 | moves the break to the rounded address if and only if the kernel grants the page or is not asked |
| Heap.UserHeap.InitHeap | yalnix_project/etc/yuserlib/yuser/libc.c:151-179 | the first heap is one free block of all bytes but the header |
| Heap.UserHeap.GrowHeap | yalnix_project/etc/yuserlib/yuser/libc.c:182-223 | on success the bytes from the old end to the page-rounded new end carry one free header; on failure nothing has changed; all used payloads are kept |
| Heap.UserHeap.FreeReady | yalnix_project/etc/new_heap.c:375-402 | free on the headers in memory is free on the list |
| Heap.UserHeap.ScanFit | yalnix_project/etc/new_heap.c:448-463 | the scan of malloc finds the first block that fits, or the last block |
| Heap.UserHeap.MallocReady | yalnix_project/etc/new_heap.c:448-504 | malloc on the headers in memory is malloc on the list, and used payloads keep their bytes |
| Heap.UserHeap.Extend | yalnix_project/etc/new_heap.c:474-496 | the growth half of malloc gives the grown list, or NULL and no change |
| Heap.UserHeap.Move | yalnix_project/etc/new_heap.c:600-609 | the third path of realloc: allocate, copy the used bytes, free the old block |
| Heap.UserHeap.Resize | yalnix_project/etc/new_heap.c:575-609 | realloc on the headers in memory is realloc on the list; the old used bytes are at the result; blocks used before and after keep their bytes |
| Heap.UserHeap.LiveDisjoint | yalnix_project/etc/new_heap.c:52-78 | live regions lie inside the heap, pairwise apart, with room for a header between them |
| Heap.UserHeap.Malloc | yalnix_project/etc/new_heap.c:412-506 | NULL leaves every live pointer and byte as it was; otherwise one fresh pointer of the rounded length is added and every other live byte is unchanged |
| Heap.UserHeap.Free | yalnix_project/etc/new_heap.c:347-409 | for every address: a live pointer is removed; an address inside a live block takes that block with it; any other address, NULL included, changes no live byte |
| Heap.UserHeap.Realloc | yalnix_project/etc/new_heap.c:526-611 | NULL leaves the old block live and unchanged; of a live pointer the answer is that pointer if and only if there is room at it or in a free block behind it, and then the heap does not grow, and otherwise it is NULL if and only if malloc of the size is; the entry moves, its first min(old, new) bytes are kept and all other entries are unchanged; of NULL it is malloc, with size 0 it is free, down to every live byte |
| Heap.UserHeap.LiveOrder | yalnix_project/etc/new_heap.c:375-381 | the block an address lies in is the nearest live region below it |
| Heap.UserHeap.FreeLive | yalnix_project/etc/new_heap.c:375-408 | free of an address anywhere inside a live block removes that block; any other address changes nothing |
| Heap.UserHeap.WriteLive | yalnix_project/etc/new_heap.c:66-78 | a client store inside its own block changes that byte and no header |
| Heap.UserHeap.Step | yalnix_project/etc/new_heap.c:347-611 | any one call is a step of the model and a step of the map from live pointers to bytes |
| Heap.UserHeap.RunCalls | yalnix_project/etc/new_heap.c:347-611 | over every legal run of calls and client stores, from the first call of the program on, each call is a step of the map from live pointers to bytes, and the heap in memory follows the list model |
| HeapContents.StepKeeps | yalnix_project/etc/new_heap.c:347-611 | a call that is not about a live region keeps it live with every byte |
| HeapContents.TraceKeeps | yalnix_project/etc/new_heap.c:347-611 | so over any stretch of any run a live region that no call is about keeps every byte, at whatever moment it came into being |
| FormatInt.IntTextWidth | yalnix_project/etc/yuserlib/common/vsnprintf.c:97-112 | the field is as wide as asked, or as wide as sign, prefix and number need |
| FormatInt.TickedLength | yalnix_project/etc/yuserlib/common/vsnprintf.c:87-95 | D digits in groups of a given size take (D-1)/size underscores |
| FormatInt.RemainingIsCut | yalnix_project/etc/yuserlib/common/vsnprintf.c:135-157 | counting down to the next underscore from the right puts one in front of every full group |
| FormatInt.WriteDigits | yalnix_project/etc/yuserlib/common/vsnprintf.c:135-157 | the right-to-left loop completes exactly the number in its field, never writes left of it or beyond n, and ends with no digit left over |
| FormatInt.Measure | yalnix_project/etc/yuserlib/common/vsnprintf.c:61-104 | digits and underscores counted before output are those of the text, and nchars leaves exactly the padding |
| FormatInt.Format | yalnix_project/etc/yuserlib/common/vsnprintf.c:44-166 | returns the length of the whole text and leaves in the buffer exactly as much of it as fits |
| IntLayout.DigitsBetweenPowers | yalnix_project/etc/yuserlib/common/vsnprintf.c:61-67 | a number takes k digits if and only if it lies between two neighbouring powers of the base |
| IntLayout.DigitLetters | yalnix_project/etc/yuserlib/common/vsnprintf.c:50-59 | digits are those of 0123456789abcdef, or of 0123456789ABCDEF in upper case |
| IntLayout.TickedFromRight | yalnix_project/etc/yuserlib/common/vsnprintf.c:135-157 | counted from the right every (skip+1)-th character is an underscore and the others are the digits in order |
| IntLayout.NumberLayout | yalnix_project/etc/yuserlib/common/vsnprintf.c:61-95 | the digits of the text stand for the magnitude and are as many as value, precision and the octal # ask for, at least one; groups of three, of four in base 16 |
| IntLayout.Layout | yalnix_project/etc/yuserlib/common/vsnprintf.c:97-133 | blanks, sign, prefix, zeros, number, blanks: which sign and prefix, and at most one kind of padding, chosen by the flags, up to the width |
| IntLayout.TextCase | yalnix_project/etc/yuserlib/common/vsnprintf.c:50-59 | the whole text has letters of one case only, the prefix included |
| Output.Emit | yalnix_project/etc/yuserlib/common/vsnprintf.c:42 | counts the character and writes it only if there is room |
| Vsnprintf.EmitBytes | yalnix_project/etc/yuserlib/common/vsnprintf.c:424-427 | emits the counted bytes, or from a negative count every byte there is and then reads past the end |
| Vsnprintf.EmitString | yalnix_project/etc/yuserlib/common/vsnprintf.c:406-436 | the string cut to its precision and padded to its width; with a precision below -1 padding up from it, all bytes, and a read past the end |
| Vsnprintf.StringWidth | yalnix_project/etc/yuserlib/common/vsnprintf.c:411-434 | a string that is not cut below zero takes the larger of its width and its length |
| Directives.ReadFlags | yalnix_project/etc/yuserlib/common/vsnprintf.c:206-231 | every run of flag characters sets exactly the flags of its characters |
| Directives.ReadWidth | yalnix_project/etc/yuserlib/common/vsnprintf.c:233-249 | the width is the decimal number written, or the absolute value of the int a star takes, which means left when negative |
| Directives.ReadPrec | yalnix_project/etc/yuserlib/common/vsnprintf.c:251-262 | the precision is the decimal number written, 0 if only a dot is, or the int a star takes, absent when negative |
| Directives.ReadModifiers | yalnix_project/etc/yuserlib/common/vsnprintf.c:264-285 | hh, h, none, l, z, t, ll, j, L and q name types of 1, 2, 4 and 8 bytes as the machine has them |
| Directives.ReadModifierRun | yalnix_project/etc/yuserlib/common/vsnprintf.c:264-296 | in any run of modifiers j, z and t forget what stands before them, and every h, l, L and q after that counts |
| Directives.SizeOfRank | yalnix_project/etc/yuserlib/common/vsnprintf.c:292-296 | and which size such a count stands for |
| Directives.ReadDirective | yalnix_project/etc/yuserlib/common/vsnprintf.c:195-296 | every directive is read as it is written: flags, width, precision, size, and then its conversion on the next argument |
| Directives.ArgumentOf | yalnix_project/etc/yuserlib/common/vsnprintf.c:298-476 | which conversions take an argument |
| Directives.IntegerConversion | yalnix_project/etc/yuserlib/common/vsnprintf.c:310-404 | %d and %i print signed decimal, %o octal, %u decimal, %x and %X hexadecimal in small and capital letters |
| Directives.PointerConversion | yalnix_project/etc/yuserlib/common/vsnprintf.c:299-308 | %p and %P print eight hexadecimal digits behind 0x or 0X |
| Directives.HexCase | yalnix_project/etc/yuserlib/common/vsnprintf.c:50-59 | %x and %p print no capital letter, %X and %P no small one |
| Directives.SizedValue | yalnix_project/etc/yuserlib/common/vsnprintf.c:310-385 | the value printed is that of the low bytes of the argument, in two's complement when the conversion is signed |
| Directives.StringConversion | yalnix_project/etc/yuserlib/common/vsnprintf.c:393-436 | a string is cut to its precision and has blanks behind it, or blanks or zeros in front of it, up to its width |
| Vsnprintf.OtherPiece | yalnix_project/etc/yuserlib/common/vsnprintf.c:438-475 | any other conversion character prints itself, and n prints nothing |
| Directives.LiteralsPrint | yalnix_project/etc/yuserlib/common/vsnprintf.c:193-203 | text without a percent sign prints itself |
| Directives.PercentPrints | yalnix_project/etc/yuserlib/common/vsnprintf.c:473-475 | two percent signs print one |
| Directives.LeftJustified | yalnix_project/etc/yuserlib/common/vsnprintf.c:206-225 | %-Nd prints what %d does and then blanks up to width N |
| Directives.PlusSign | yalnix_project/etc/yuserlib/common/vsnprintf.c:206-225 | %+d of a number that is not negative prints a plus sign and then what %d does |
| Vsnprintf.WidenedValue | yalnix_project/etc/yuserlib/common/vsnprintf.c:310-385 | the argument cast to its length modifier and widened has the same signed value when signed, the same value when not, and the same bits when cast back |
| Vsnprintf.Convert | yalnix_project/etc/yuserlib/common/vsnprintf.c:298-476 | every conversion prints its text, takes its argument and fails exactly when its piece is too wide or a runaway string |
| Vsnprintf.ReadSpec | yalnix_project/etc/yuserlib/common/vsnprintf.c:206-286 | one character inside a directive leaves what is still to be printed unchanged, or takes a width or precision out of an int; a character is read again only in a later state |
| Vsnprintf.PrintFineIff | yalnix_project/etc/yuserlib/common/vsnprintf.c:298-476 | printing a list of pieces goes well if and only if none is a runaway string or too wide for an int |
| Vsnprintf.RunFormat | yalnix_project/etc/yuserlib/common/vsnprintf.c:192-479 | the character-driven loop terminates and prints what the pieces of the format mean, up to the first that goes wrong |
| Vsnprintf.Vsnprintf | yalnix_project/etc/yuserlib/common/vsnprintf.c:168-488 | for every format, arguments and n: it returns if and only if no %c or %s is reached with a precision below -1 and nothing leaves the range of an int; then it has written exactly the first n-1 characters of the whole text and a NUL and touched nothing else, and what it returns is the length of the whole text if and only if an int can hold it |
| Vsnprintf.RunawayInput | yalnix_project/etc/yuserlib/common/vsnprintf.c:251-257 | the format "%.*0s" with a negative star is such a format |
| Strntoumax.Strntoumax | yalnix_project/etc/yuserlib/common/strntoumax.c:25-77 | value and end of the longest number after white space and one sign, with the base prefix, within the length limit, modulo 2^64 |
| Strntoumax.DigitLoop | yalnix_project/etc/yuserlib/common/strntoumax.c:67-71 | takes the longest run of digits and computes their value modulo 2^64 |
| ScanDirectives.ParseMeans | yalnix_project/etc/yuserlib/common/strntoumax.c:25-77 | for every text and base: white space, one sign, 0x for base 16 or 0x or 0 for base 0, and the longest run of digits of the base; the value of those digits, negated for a minus, modulo 2^64, and the end behind them |
| IntRoundTrip.ValueOfNumeral | yalnix_project/etc/yuserlib/common/vsnprintf.c:135-157 | enough digits, written right to left by remainders, stand for the value |
| IntRoundTrip.OwnBase | yalnix_project/etc/yuserlib/common/strntoumax.c:25-77 | for every 64-bit value, base 8, 10 or 16, width, precision and flags without the tick, strntoumax in that base gives the value back and stops at the end of the digits |
| IntRoundTrip.DecimalLeadsWithZero | yalnix_project/etc/yuserlib/common/vsnprintf.c:81-133 | a decimal other than 0 has a leading zero if and only if the precision exceeds its digits, or zero padding is asked for and the width exceeds sign and digits |
| IntRoundTrip.BaseZero | yalnix_project/etc/yuserlib/common/strntoumax.c:46-58 | with base 0, # octal and # hexadecimal are read back for every value; decimal if and only if the print arguments ask for no leading zeros or the magnitude is below 8 |
| IntRoundTrip.OctalTrap | yalnix_project/etc/yuserlib/common/strntoumax.c:52-55 | 8 printed with zero padding to width 2 is 08 and is read back as 0 |
| IntRoundTrip.OctalOfDecimal | yalnix_project/etc/yuserlib/common/strntoumax.c:52-55 | decimal digits read as octal give the same number below 8 and a smaller one from 8 on |
| Vsscanf.Skipspace | yalnix_project/etc/yuserlib/common/vsscanf.c:51-56 | stops at the first character that is no white space |
| Vsscanf.Convert | yalnix_project/etc/yuserlib/common/vsscanf.c:177-268 | an integer conversion takes the number at the cursor, fails on no digits, and ends the input at NUL |
| Vsscanf.Turn | yalnix_project/etc/yuserlib/common/vsscanf.c:99-160 | one character of the format leaves what is still to be scanned unchanged |
| Vsscanf.Vsscanf | yalnix_project/etc/yuserlib/common/vsscanf.c:70-401 | the character-driven loop terminates; stores, count and failure are those the format means, defined directive by directive |
| Vsscanf.FieldTakes | yalnix_project/etc/yuserlib/common/vsscanf.c:215-230 | an integer conversion passes over all white space and then takes at least one and at most width characters from the front |
| Vsscanf.ScanCounts | yalnix_project/etc/yuserlib/common/vsscanf.c:99-268 | for every format and buffer the count of conversions is the number of stores |
| ScanDirectives.SpaceIs | yalnix_project/etc/yuserlib/common/vsscanf.c:51-56 | white space is 8 to 13, 32 and 160 |
| ScanDirectives.DigitTable | yalnix_project/etc/yuserlib/common/strntoumax.c:11-22 | the values of the 62 characters that are digits of some base |
| ScanDirectives.PlainCharacter | yalnix_project/etc/yuserlib/common/vsscanf.c:107-114 | white space in the format passes over all white space; any other character must be there and is passed over, or the scan ends |
| ScanDirectives.PercentCharacter | yalnix_project/etc/yuserlib/common/vsscanf.c:101-114 | two percent signs ask for one |
| ScanDirectives.ReadScanWidth | yalnix_project/etc/yuserlib/common/vsscanf.c:122-141 | a width is the decimal number written, modulo 2^32; without one there is no bound but 2^32-1 |
| ScanDirectives.ReadScanModifiers | yalnix_project/etc/yuserlib/common/vsscanf.c:143-164 | length modifiers name the same sizes as in printing |
| ScanDirectives.ReadScanModifierRun | yalnix_project/etc/yuserlib/common/vsscanf.c:143-175 | in any run of modifiers, L and q forget what stands before them too |
| ScanDirectives.ReadScanDirective | yalnix_project/etc/yuserlib/common/vsscanf.c:117-268 | every integer directive is scanned as it is written: stars suppress store and count, then width, size and base, with the value cut to the size |
| PrintScan.EofIff | yalnix_project/etc/yuserlib/common/vsscanf.c:217-220 | for every format that begins with a plain directive and every buffer, the answer is EOF if and only if there is nothing but white space to read |
| PrintScan.PrintAll | yalnix_project/etc/yuserlib/common/vsnprintf.c:168-488 | a format of plain directives, each followed by any text without a percent sign, prints the numbers with those texts between |
| PrintScan.ScanThrough | yalnix_project/etc/yuserlib/common/vsscanf.c:99-268 | scanning such output with its own format stores every original value and leaves the rest of the format with the rest of the buffer |
| PrintScan.RoundTrip | yalnix_project/etc/yuserlib/common/vsscanf.c:70-401 | for any arguments and any plain integer directives with any length modifier, any text in front and any texts between and behind, white space or literals that do not begin with a letter or digit, the scan of the printed text with the same format converts every directive and stores the original values cut to their types |
| PrintScan.Mismatch | yalnix_project/etc/yuserlib/common/vsscanf.c:109-114 | when then a literal differs from the buffer, nothing more is stored and the count stands |
| PrintScan.PrintThenScan | yalnix_project/etc/yuserlib/common/vsscanf.c:70-401 | the same for the two functions as written, through a buffer |
| FrameModel.AllocIsFresh | yalnix_project/memory.c:111-125 | a frame AllocFrame returns is in no page and was not handed out before |
| FrameModel.GrowSafe | yalnix_project/memory.c:266-285 | a grow, failed or not, keeps: mapped frames exist, are marked used and are not shared |
| FrameModel.ShrinkSafe | yalnix_project/memory.c:287-298 | so does a shrink |
| FrameModel.GrowAccount | yalnix_project/memory.c:266-285 | a grow succeeds if and only if there are enough free frames; it takes one per page, and a failed one takes all |
| FrameModel.ShrinkAccount | yalnix_project/memory.c:287-298 | a shrink of mapped pages gives back one frame per page |
| FrameModel.GrowEffect | yalnix_project/memory.c:266-285 | a grow maps its pages, up to where it stops, to frames that were free, and changes no other page or frame |
| FrameModel.ShrinkEffect | yalnix_project/memory.c:287-298 | a shrink clears its pages, frees exactly their frames and changes nothing else |
| FrameModel.GrowShrinkRestores | yalnix_project/memory.c:266-298 | a successful grow and the shrink back restore the bitmap exactly, and the page table if and only if its pages were clear before |
| FrameModel.GrowEndIsReach | yalnix_project/memory.c:266-285 | a grow stops where the free frames run out: at the requested page or one page per free frame further |
| FrameModel.GrowLeaks | yalnix_project/memory.c:273-284 | a grow loses exactly the frames of the mapped pages it is asked for and has free frames to reach |
| FrameModel.ShrinkLeaksNothing | yalnix_project/memory.c:287-298 | a shrink loses no frame |
| FrameRuns.ReleaseSoundIff | yalnix_project/memory.c:128-136 | FreeFrame of a frame keeps the kernel sound if and only if the frame is in no page |
| FrameRuns.StepSound | yalnix_project/memory.c:237-308 | every SetKernelBrk, AllocFrame and FreeFrame of a frame in no page keeps the kernel sound and the text, data and stack pages unchanged |
| FrameRuns.RunSound | yalnix_project/memory.c:111-308 | frame safety over every run of such calls, with failed grows and retries |
| FrameRuns.RunAccount | yalnix_project/memory.c:111-308 | over every such run, free frames + break + frames handed out are what they were, less what failed grows took, plus used frames freed though nobody held them |
| FrameRuns.StepLeaks | yalnix_project/memory.c:111-308 | one call loses a frame exactly by writing over its page, and finds a lost one again exactly by FreeFrame of it |
| FrameRuns.RunLeaks | yalnix_project/memory.c:111-308 | after any such run the lost frames are exactly those lost before or written over by a grow of the run, and not freed since |
| FrameRuns.NoLeaksIff | yalnix_project/memory.c:266-285 | when only frames that were handed out are freed, a run loses no frame if and only if no grow finds a page mapped that it is asked for and has free frames to reach |
| FrameRuns.RunLeaksNothing | yalnix_project/memory.c:273-276 | without FreeFrame no grow of any run finds such a page, failed grows included |
| FrameRuns.CleanRun | yalnix_project/memory.c:237-308 | with FreeFrame none does in a run without a failed grow, and the pages above the break stay clear |
| FrameWitnesses.LeakAfterFailedGrow | yalnix_project/memory.c:273-276 | from a booted kernel, five calls with a failed grow and a FreeFrame that lose a frame |
| FrameWitnesses.ReleaseOfMappedFrame | yalnix_project/memory.c:128-136 | from a booted kernel, FreeFrame of a kernel stack frame makes it unsound |
| FrameBoot.SyncSafeIff | yalnix_project/memory.c:310-329 | frames given away before the sync make it unsafe exactly when one of them lies under the early kernel heap |
| FrameBoot.BootIsSound | yalnix_project/kernelstart.c:38-75 | the kernel that boot hands over is sound, has lost no frame and has clear pages above its break |
| FrameBoot.BootedProtections | yalnix_project/memory.c:143-186 | text is readable and executable and not writable; data, early heap and kernel stack are readable and writable and not executable; no other page is mapped |
| KernelMemory.KernelFrames.MarkFrameUsed | yalnix_project/memory.c:25-34 | marks a frame that exists, ignores any other number |
| KernelMemory.KernelFrames.FreeFrame | yalnix_project/memory.c:128-136 | frees a frame that exists, ignores any other number |
| KernelMemory.KernelFrames.AllocFrame | yalnix_project/memory.c:111-125 | the lowest free frame, now marked; or ERROR and no change when there is none |
| KernelMemory.KernelFrames.MapPage | yalnix_project/memory.c:209-235 | writes the one entry, or ERROR and no change for a page or frame that does not exist |
| KernelMemory.KernelFrames.GrowHeap | yalnix_project/memory.c:267-285 | the mapping loop is the grow of the model; its second failure branch is never taken |
| KernelMemory.KernelFrames.ShrinkHeap | yalnix_project/memory.c:287-298 | the unmapping loop is the shrink of the model |
| KernelMemory.KernelFrames.SetKernelBrk | yalnix_project/memory.c:237-308 | the page asked for is the first whose address is not below the one given; ERROR exactly when it lies below the first break, not below the kernel stack, or has more new pages than there are free frames, and then the break stays; SUCCESS makes it the break, and on a sound kernel every byte of the heap below the address can then be read and written; before VM only the request is recorded; afterwards one step of the model |
| KernelMemory.KernelFrames.Call | yalnix_project/memory.c:111-308 | any one call on the bitmap and the table in memory is one step of the model |
| KernelMemory.KernelFrames.RunCalls | yalnix_project/memory.c:111-308 | any run of calls on them is the run of the model, and sound at the end if it frees no frame of a page |
| KernelMemory.KernelFrames.InitPhysicalMemory | yalnix_project/memory.c:75-108 | the bitmap has the pages below the first break and the kernel stack marked |
| KernelMemory.KernelFrames.BuildRegion0PageTable | yalnix_project/memory.c:143-186 | page N on frame N: text without write, data and stack without execute, all else clear |
| KernelMemory.KernelFrames.SyncKernelBrkBeforeVM | yalnix_project/memory.c:310-329 | maps the pages between the two breaks to the frames of the same number |
| KernelMemory.KernelFrames.Boot | yalnix_project/kernelstart.c:27-75 | for any kernel-heap requests made before VM, boot ends in the sound kernel the laws about runs start from |
| Jrand48.Jrand48 | yalnix_project/etc/yuserlib/common/jrand48.c:8-24 | the new seed is (0x5deece66d * x + 11) mod 2^48 although the product wraps at 64 bits; the result is its upper 32 bits as a signed number |
| Jrand48.StepIsPermutation | yalnix_project/etc/yuserlib/common/jrand48.c:17 | every 48-bit state has exactly one successor and one predecessor |
| Jrand48.ComesBack | yalnix_project/etc/yuserlib/common/jrand48.c:17 | from any seed 2^48 steps lead back to it |
| Jrand48.NotBefore | yalnix_project/etc/yuserlib/common/jrand48.c:17 | and no fewer do |
| Jrand48.MeetsEveryState | yalnix_project/etc/yuserlib/common/jrand48.c:17 | from any seed every state is met: the period is full |
| Jrand48.TwiceMoved | yalnix_project/etc/yuserlib/common/jrand48.c:17 | 2^k steps twice over are a move of the same form for 2^(k+1) |
| Memmem.Memcmp | yalnix_project/etc/yuserlib/common/memcmp.c:7-19 | zero if and only if the bytes are equal, otherwise the difference of the first two that differ |
| Memmem.SafeSkip | yalnix_project/etc/yuserlib/common/memmem.c:24-43 | neither two-byte skip jumps over an occurrence |
| Memmem.Memmem | yalnix_project/etc/yuserlib/common/memmem.c:14-52 | the leftmost occurrence of a needle that is not empty, NULL if and only if there is none; all reads in bounds |
| Tokenizer.Strxspn | yalnix_project/etc/yuserlib/common/strxspn.c:11-29 | the longest run of bytes inside the set, or outside it; NUL always ends it |
| Tokenizer.Strpbrk | yalnix_project/etc/yuserlib/common/strpbrk.c:7-12 | the first byte in the set, NULL if and only if there is none |
| Tokenizer.Strtok.Strsep | yalnix_project/etc/yuserlib/common/strsep.c:7-21 | one field: everything up to the first delimiter, which becomes NUL; the cursor moves past it or becomes NULL |
| Tokenizer.Strtok.Next | yalnix_project/etc/yuserlib/common/strtok.c:7-19 | the next token past any delimiters; NULL exactly when only delimiters are left, and from then on; the inner loop terminates |
| Tokenizer.NextPiece | yalnix_project/etc/yuserlib/common/strtok.c:14-16 | past the delimiters at a place where a piece may begin stands one maximal piece, and no other begins before its end |
| Tokenizer.PieceIsString | yalnix_project/etc/yuserlib/common/strsep.c:15-17 | in the buffer afterwards every token is a C string with its own bytes |
| Tokenizer.Strtok.Tokens | yalnix_project/etc/yuserlib/common/strtok.c:7-19 | a full run gives exactly the maximal delimiter-free pieces, in order, then NULL; every delimiter of the buffer is NUL and nothing else has changed |
| ArgStack.Measure | yalnix_project/template.c:82-87 | the size is that of all arguments with their NULs |
| Machine.LittleEndian | yalnix_project/template.c:267-279 | a word in memory has its lowest byte first |
| ArgStack.Save | yalnix_project/template.c:152-162 | the saved copies stand one after the other, each a C string equal to its argument |
| ArgStack.Layout | yalnix_project/template.c:91-111 | for any arguments: pointer words, kept room and strings follow one another with less than 8 bytes of slack, strings are disjoint, the last ends at VMEM_1_LIMIT, the stack pointer is 8-aligned |
| ArgStack.Fit | yalnix_project/template.c:119-131 | the page count of the check in bytes: it passes exactly when one whole page is left above the data, and the stack pointer lies in the lowest counted page |
| ArgStack.BuildStack | yalnix_project/template.c:267-279 | argc, argv[i] pointing to a C string equal to argument i, two NULL words, zeros in between; nothing below the stack pointer changes |
| ArgStack.LoadArguments | yalnix_project/template.c:82-279 | a program is refused exactly when its arguments do not leave one whole page above its data; otherwise main finds its arguments as above, inside the counted stack pages |

## Left out

- The kernel's own copy of the allocator (yalnix_project/new_heap.c), which differs in how corruption is reported only.
- calloc, and sbrk with a nonzero increment: one call each of the modelled functions.
- Heap.UserHeap.InitHeap: not modelled when its break request fails, where the library itself announces odd behaviour; the public calls and CheckHeap ask for the same.
- Heap.UserHeap.Realloc: of the pointer of a freed block, the list-level model has it (HeapModel.ApplyKeepsInv) but nothing is said about bytes.
- Heap.UserHeap.RunCalls: the same two conditions on its calls.
- Heap.UserHeap.BrkUnlocked: the kernel side of the call is the parameter `limit`; nobody else moves the break.
- Trace output, the lock around allocator calls, the last-known return address and the abort helpers.
- Vsnprintf.Convert: the store of %n (its argument is taken); an argument of another kind than the directive reads as 0 or "(null)", and so does a missing one.
- Vsnprintf.Vsnprintf: the running count of characters does not wrap at 2^32, and nothing is said about what follows a fault.
- FormatInt.Measure: the magnitude of the most negative 64-bit value is 2^63, which the C expression gives on the target but the C standard leaves open.
- Vsscanf.Convert: %c, %s, %[ and %n end the scan as Unmodelled; other conversions are complete.
- Vsscanf.Vsscanf: the same conversions.
- PrintScan.RoundTrip: directives have no width, precision or flags; a number directly followed by a letter or digit is left out, because the scan may read on.
- KernelMemory.KernelFrames.BuildRegion0PageTable: its table is a fresh array, not a block of the kernel heap.
- KernelMemory.KernelFrames.SetKernelBrk: the TLB flush; the address is not negative.
- KernelMemory.KernelFrames.Boot: no growth of the kernel heap between the sync (kernelstart.c:48) and turning VM on (kernelstart.c:75).
- Region 1 page tables, processes, traps, the start of the idle process.
- ArgStack.LoadArguments: opening and reading the program file, loading its pages, the parts of the template left for its user; argument sizes do not overflow an int.
- Memmem.Memmem: haystack and needle are arrays; memory beyond them does not exist in the model.
- memcpy, memset and strcpy in assembly: the plain loops.
- Small one-loop string functions, which would only add easy members.
