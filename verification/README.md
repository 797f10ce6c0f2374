# Yerp kernel core: a Dafny model

This project models the parts of the Yerp kernel that hold state, walk pointers or interleave, and
proves what they keep over every run:

- **Physical page allocator** (`PageAllocator`, `PageAllocatorSpec`, `PageAllocatorTheorems`, `FreeStores`,
  `FreeList`, `RawMemory`): a free list threaded through the free pages of a byte array, in which an address
  of the bootloader's direct map names the same byte as the physical address. The class's pointers,
  counters and byte writes are proved against a state machine over the abstract list, call by call
  and over whole runs in which clients also write to memory; the theorems are about all runs of that machine.
  (The repository's own class stands behind a switched-off preprocessor conditional.) The compile-time
  switches `kPmmUseFifo`, `kPmmZeroOnAlloc`, `kPmmZeroOnFree`, `kPanicOnError` and the bootloader's
  direct-map offset are parameters (`Config`).
- **C string library** (`CString`, `Tokenizer`, `IntegerText`): loops over one shared byte array, so that
  aliasing is real; `strtok` keeps its static pointer in a class.
- **Formatter** (`FormatSpec`, `Formatter`): the serial port is the sequence of bytes sent so far.
- **Concurrency primitives** (`SpinLock`, `CallOnce`): any number of threads, one atomic instruction per step.
- **string_view** (`StringView`): signed comparison and how it relates to `strcmp`.
- `MachineWords` and `Numerals` hold the 64-bit arithmetic and the positional numerals that they share.

Nine promises do not hold of the code on all inputs. Each is stated with its exact condition, and with an
instance in which it fails:

- A region given to `addRegion` or `reserveRegion` is treated exactly if and only if it fits: it does not
  wrap, or it starts in the last page of the 64-bit space and wraps by less than a page (`RegionFits`).
  `alignUp` of an address in that page is 0, so otherwise such a base selects pages of low memory
  (`RegionExactIff`, `EntryExactIff`; instances `EmptyReservationTakesAll`, `TopEntryIsSkipped`).
- The stores of an accepted free push the page if and only if its address is not null and the page is not
  listed under its unmapped address (`FreePushesIff`). Address 0, which `tryAllocate` hands out when memory
  is exhausted, is never found by the double-free scan, and freeing it makes the allocator forget its list
  (`NullFreeForgetsList`; instance `NullFreeLosesPage`).
- Freeing a page that is already free is refused if and only if it is listed under its mapped address, which
  without a direct map is the only one. With a map, a page that came from the memory map is listed unmapped
  until its first free; freeing it while it is listed so is accepted, and cuts the list or makes it endless
  (`DoubleFreeCaughtIff`; instance `OffsetAcceptsDoubleFree`).
- The stores of `addRegion` push a page if and only if it is neither null nor already free (`AddPushesIff`).
  Adding free pages again, as a second `init` does, cuts the list or makes it endless (`AddListedBreaks`;
  instance `AddingAgainBreaksList`); a boot is free of this if and only if no page is brought in twice and
  the null page not at all (`BootIsLegalIff`).
- With a non-zero direct-map offset a freed page is linked under its offset address and later handed out
  under that address, so the set of pages is kept if and only if the offset is zero
  (`FreeOfHeldPageConservesIff`; instance `OffsetLosesPage`).
- A free that is not refused keeps the page accounts balanced if and only if the caller held the page
  (`FreeConservesIffHeld`; instance `StrayFreeUnbalances`).
- `string_view::compare` reads characters as signed, `strcmp` as unsigned; they agree in sign if and only if
  the first differing bytes lie in the same half (`ViewAgreesWithStrcmpIff`; instance `HighByteDisagrees`).
- A printed format specification parses back if and only if its type character can be told from the fields
  before it (`SpecRoundTripIff`; instance `DigitTypeIsWidth`).
- `itoa` writes a sign and digits if and only if the number is not negative or the base is ten; otherwise its
  remainders are negative and come out as characters below `0` (`SignedNumeralIff`; instance
  `NegativeHexIsGarbled`).

Where comments and code differ the code is followed: the fourth argument of the compare-exchange in
`call_once` is labelled `strong=false` but is the builtin's `weak` flag, so the exchange modelled is the
strong one. In `printf` a doubled brace is one brace only as long as arguments remain; the rest of the format
is then copied as it stands.

## Model

| member | source | states |
|---|---|---|
| MachineWords.BitAndIsBitwise | kernel/Source/core/pmm.hh:310-316 | the integer model of `&` sets a bit exactly when both operands have it |
| MachineWords.AlignDownIsFloor | kernel/Source/core/pmm.hh:314-316 | for every power-of-two alignment the mask gives the largest multiple not above the address |
| MachineWords.AlignUpIsCeiling | kernel/Source/core/pmm.hh:310-312 | for every power-of-two alignment the result is the smallest multiple not below the address, unless the addition wraps, and then it is 0 |
| MachineWords.WordArithmetic | kernel/Source/core/pmm.hh:52-86 | 64-bit sums and differences wrap modulo 2^64 and undo each other |
| RawMemory.StoreThenLoad | kernel/Source/core/pmm.hh:264-267 | a pointer stored in a page's bytes reads back, and pointers stored elsewhere are not disturbed |
| RawMemory.LittleEndian | kernel/Source/core/pmm.hh:264-267 | the byte at offset i of a stored pointer is its i-th digit in base 256 |
| FreeList.LinkedIsUnique | kernel/Source/core/pmm.hh:264-270 | memory and head denote one finite, duplicate-free list of pages |
| FreeList.PushFront | kernel/Source/core/pmm.hh:207-208 | the LIFO link puts the page in front of the unchanged list |
| FreeList.PushBack | kernel/Source/core/pmm.hh:196-200 | the link at the tail, before or after the page itself points to null, appends the page to the unchanged list |
| FreeStores.LinkPushes | kernel/Source/core/pmm.hh:196-212 | the stores of free, in the order of the code, push a non-null page on which no node lies, mapped or not, and touch only next pointers of free pages |
| FreeStores.FreePushesIff | kernel/Source/core/pmm.hh:149-212 | whatever the direct map: the stores of an accepted free leave a chain that spells the pushed list exactly when the mapped address is not null and the page is not listed unmapped |
| FreeStores.NullFreeForgetsList | kernel/Source/core/pmm.hh:169-212 | freeing the null page empties a LIFO list and loses the tail of a FIFO list, is accepted again and again, and makes the next freed page the whole list |
| FreeStores.NullFreeLosesPage | kernel/Source/core/pmm.hh:207-211 | an instance: one free page, and after two accepted frees of address 0 none |
| FreeStores.DoubleFreeCaughtIff | kernel/Source/core/pmm.hh:149-212 | freeing a page on which a free node lies is refused exactly when it is listed under its mapped address; otherwise it is accepted, and a FIFO list is cut behind that page, a LIFO list never ends |
| FreeStores.OffsetAcceptsDoubleFree | kernel/Source/core/pmm.hh:149-212 | an instance with the map at its usual place |
| FreeStores.AddPushesIff | kernel/Source/core/pmm.hh:285-303 | the stores of one turn of addRegion leave a chain that spells the pushed list exactly when the page is neither null nor one on which a node lies |
| FreeStores.AddListedBreaks | kernel/Source/core/pmm.hh:285-303 | adding a page that is already free cuts a FIFO list behind it, or makes the list endless if it is the last node or under LIFO |
| FreeStores.AddingAgainBreaksList | kernel/Source/core/pmm.hh:285-303 | an instance for either policy |
| FreeList.PopFront | kernel/Source/core/pmm.hh:115-116 | following the head's pointer leaves the rest of the list |
| FreeList.Unlink | kernel/Source/core/pmm.hh:233-234 | bypassing a node removes that node and no other |
| FreeList.WritesElsewhereKeepList | kernel/Source/core/pmm.hh:107-140 | arbitrary writes outside the free pages leave the list as it was |
| FreeList.FrameCount | kernel/Source/core/pmm.hh:272-273 | pages do not overlap, so there are at most memory size / 4096 of them and the counters cannot wrap |
| PageAllocatorSpec.AlignedRange | kernel/Source/core/pmm.hh:310-316 | page alignment up and down, with the wrap near the top of the address space |
| PageAllocatorSpec.PageMask | kernel/Source/core/pmm.hh:152 | the misalignment test is the remainder modulo the page size |
| PageAllocatorSpec.PagesAreTheMultiples | kernel/Source/core/pmm.hh:284 | the address loop visits each page-aligned address of the interval once |
| PageAllocatorSpec.PushAllOrder | kernel/Source/core/pmm.hh:284-303 | a region enters a FIFO list in increasing order at the back, a LIFO list in decreasing order in front |
| PageAllocatorSpec.OutsideIsFilter | kernel/Source/core/pmm.hh:224-242 | what reservation keeps is exactly the pages outside the interval, still without duplicates |
| PageAllocatorSpec.OutsideKeepsOrder | kernel/Source/core/pmm.hh:224-242 | any two kept pages stand in the same order as before |
| PageAllocatorTheorems.LegalStepConserves | kernel/Source/core/pmm.hh:107-308 | without an offset, every legal operation (clients free what they hold, regions are new and without the null page) keeps free, held and withdrawn pages disjoint, non-null and as many as the total, and adds exactly the region's pages |
| PageAllocatorTheorems.BooksBalance | kernel/Source/core/pmm.hh:255-273 | the numbers of free, held and withdrawn pages add up to the total |
| PageAllocatorTheorems.RunConserves | kernel/Source/core/pmm.hh:107-308 | the same over every legal run: no page is lost, duplicated or invented, and the total counts the pages ever added |
| PageAllocatorTheorems.NoDoubleHandOut | kernel/Source/core/pmm.hh:107-215 | between two grants of one page in a legal run there is a free of that page |
| PageAllocatorTheorems.FreeConservesIffHeld | kernel/Source/core/pmm.hh:149-215 | an accepted free keeps the accounts balanced exactly when the caller held the page |
| PageAllocatorTheorems.StrayFreeUnbalances | kernel/Source/core/pmm.hh:149-215 | an instance in which a page that nobody handed out is freed and counted |
| PageAllocatorTheorems.FreeOfHeldPageConservesIff | kernel/Source/core/pmm.hh:125-167 | freeing a held page keeps the set of pages exactly when the direct-map offset is zero |
| PageAllocatorTheorems.OffsetLosesPage | kernel/Source/core/pmm.hh:125-167 | an instance in which a client frees one page and is handed an address it never had |
| PageAllocatorTheorems.RunKeepsNoDup | kernel/Source/core/pmm.hh:107-308 | without an offset the list stays duplicate-free and without the null page over any run, legal or not, in which the null page is not freed and added regions are new |
| PageAllocatorTheorems.SecondFreeIsRefused | kernel/Source/core/pmm.hh:169-187 | without an offset, over any run in which the null page is not freed and added regions are new: until a freed page is granted again or reserved, every further free of it is reported and changes nothing |
| PageAllocatorTheorems.LifoUndoesFree | kernel/Source/core/pmm.hh:115-116 | without an offset, under LIFO an allocation after a free returns that page and restores the state |
| PageAllocatorTheorems.FifoOrder | kernel/Source/core/pmm.hh:196-206 | without an offset, under FIFO a page advances one place per allocation over any run without reservations and frees of the null page in which added regions are new |
| PageAllocatorTheorems.RegionExactIff | kernel/Source/core/pmm.hh:218-222 | the computed interval holds exactly the pages wholly inside the byte range if and only if the range fits |
| PageAllocatorTheorems.EmptyReservationTakesAll | kernel/Source/core/pmm.hh:217-253 | an instance: reserving no bytes at the last address withdraws every free page below the last one |
| PageAllocatorTheorems.ReserveRemovesExactly | kernel/Source/core/pmm.hh:217-253 | reservation of a fitting range removes exactly the free pages wholly inside it; the free count drops by their number, the total stays |
| PageAllocatorTheorems.ReserveKeepsOrder | kernel/Source/core/pmm.hh:217-253 | the pages left free keep their order |
| PageAllocatorTheorems.EntryExactIff | kernel/Source/core/pmm.hh:47-86 | a memory-map entry contributes exactly its aligned pages at or above 1 MiB if and only if it fits |
| PageAllocatorTheorems.TopEntryIsSkipped | kernel/Source/core/pmm.hh:51-63 | an instance: a usable entry that ends at the top of the address space contributes nothing |
| PageAllocatorTheorems.BootIsLegalIff | kernel/Source/core/pmm.hh:35-96 | booting is a legal run exactly when no entry brings in the null page and no page is brought in twice; the free pages are then those brought in, once each, and the total is their number |
| PageAllocatorTheorems.BootIsExact | kernel/Source/core/pmm.hh:35-96 | for any map of disjoint fitting entries the free pages are precisely the usable ones, once each, and the total is their number |
| PageAllocatorTheorems.BootExample | kernel/Source/core/pmm.hh:18-105 | an instance: the pages, in order, that a small memory map leaves free under FIFO |
| PageAllocatorTheorems.CallsReport | kernel/Source/core/pmm.hh:107-187 | over every run, call by call: allocate panics and tryAllocate gives the null pair exactly when nothing is free, otherwise both give the first free page; a free is refused exactly when misaligned or listed under the mapped address, and panics then exactly if panicOnError is set; no other call does any of this |
| PageAllocatorTheorems.TryingNeverPanics | kernel/Source/core/pmm.hh:142-147 | a run without allocate reports no panic when panicOnError is off |
| PageAllocator.PhysicalMemoryManager.constructor | kernel/Source/core/pmm.hh:269-273 | the initial fields represent the empty allocator |
| PageAllocator.PhysicalMemoryManager.Allocate | kernel/Source/core/pmm.hh:107-140 | whatever the direct map: panics exactly when the head is null, and otherwise returns the page at the head with its mapped address and pops it; clears exactly that page or changes no byte |
| PageAllocator.PhysicalMemoryManager.ZeroPage | kernel/Source/core/pmm.hh:127-132 | clears the 4096 bytes of the page and no others |
| PageAllocator.PhysicalMemoryManager.TryAllocate | kernel/Source/core/pmm.hh:142-147 | returns the null pair exactly when the head is null, and otherwise does as allocate |
| PageAllocator.PhysicalMemoryManager.Contains | kernel/Source/core/pmm.hh:169-187 | the double-free scan ends and finds a page exactly when it is free |
| PageAllocator.PhysicalMemoryManager.Free | kernel/Source/core/pmm.hh:149-215 | whatever the direct map: complains exactly about misaligned pages and pages listed under the mapped address, by a panic exactly when panicOnError is set, and then changes nothing; otherwise makes exactly the zeroing and linking stores and counts one page more, which is the machine's step unless the address is null or the page is listed unmapped; outside that page only next pointers of free pages change |
| PageAllocator.PhysicalMemoryManager.LinkFreed | kernel/Source/core/pmm.hh:196-214 | makes the linking stores and counts one page more |
| PageAllocator.PhysicalMemoryManager.UnlinkNode | kernel/Source/core/pmm.hh:227-236 | takes one node out, at the head or behind its predecessor |
| PageAllocator.PhysicalMemoryManager.Unchain | kernel/Source/core/pmm.hh:225-241 | one walk removes the page and keeps the others in order |
| PageAllocator.PhysicalMemoryManager.UnchainRange | kernel/Source/core/pmm.hh:224-242 | the outer loop leaves the old list filtered by the interval |
| PageAllocator.PhysicalMemoryManager.FindTail | kernel/Source/core/pmm.hh:244-252 | the tail is re-established as the last node |
| PageAllocator.PhysicalMemoryManager.ReserveRegion | kernel/Source/core/pmm.hh:217-253 | for every base and length, the pointers end up representing the machine's reservation step |
| PageAllocator.PhysicalMemoryManager.AddPage | kernel/Source/core/pmm.hh:285-306 | makes exactly the stores of one turn and counts the page; on a page that is neither null nor free already this pushes it, its flags are zero, and nothing outside free pages changes |
| PageAllocator.PhysicalMemoryManager.AddRegion | kernel/Source/core/pmm.hh:277-308 | every page of a region whose pages are frames and not free already is pushed and counted, whoever holds them |
| PageAllocator.PhysicalMemoryManager.Init | kernel/Source/core/pmm.hh:18-105 | on the real pointers, for any map that brings in frames and no page twice: the free pages are exactly those brought in, for a fitting disjoint map the usable ones, and both counters equal their number; an unavailable map panics |
| PageAllocator.PhysicalMemoryManager.ExecuteAny | kernel/Source/core/pmm.hh:107-253 | whatever the direct map: over any run of calls by clients that need not hold what they free, interleaved with their writes outside free pages, the chain, the counters and the tail keep representing the machine, every call reports what the machine says, and pages that are neither free nor freed hold what clients wrote; an accepted free must be of a page of memory that is not listed unmapped |
| PageAllocatorSpec.FramesAreLinkable | kernel/Source/core/pmm.hh:149-187 | without an offset that condition is met by every run in which the freed pages are frames, listed or not |
| PageAllocator.PhysicalMemoryManager.Execute | kernel/Source/core/pmm.hh:107-253 | a legal run, interleaved with writes, also keeps the accounts balanced, and a held page that is never freed holds what its owner wrote |
| PageAllocator.PhysicalMemoryManager.OwnerWrite | kernel/Source/core/pmm.hh:107-140 | a client's write outside the free pages leaves the allocator valid and unchanged |
| CString.Strlen | kernel/Source/util/string.c:140-146 | the distance to the first NUL |
| CString.Memmove | kernel/Source/util/string.c:25-40 | for any overlap in either direction the destination holds the old source bytes and nothing else changes |
| CString.CompareIsLexicographic | kernel/Source/util/string.c:80-107 | the comparison result is negative exactly for lexicographically smaller texts, zero exactly for equal ones, and antisymmetric |
| CString.CompareIsTransitive | kernel/Source/util/string.c:91-97 | the order is transitive, strictly unless all are equal |
| CString.Strcmp | kernel/Source/util/string.c:91-97 | compares the two texts |
| CString.Strncmp | kernel/Source/util/string.c:99-107 | compares the two texts cut to their first n bytes, and reads nothing beyond them |
| CString.Memcmp | kernel/Source/util/string.c:80-89 | compares the two ranges |
| CString.Strstr | kernel/Source/util/string.c:214-227 | the least position at which the needle occurs, or null exactly when it occurs nowhere |
| Tokenizer.RunsAreMaximal | kernel/Source/util/string.c:229-248 | the runs found by alternate skipping are exactly the maximal non-empty delimiter-free stretches, in order |
| Tokenizer.InString | kernel/Source/util/string.c:170-212 | the inner scan finds a byte exactly when it stands before the NUL |
| Tokenizer.DelimitersAreBytes | kernel/Source/util/string.c:170-212 | the delimiters are exactly the bytes before the NUL of the delimiter string, all of them |
| Tokenizer.Strspn | kernel/Source/util/string.c:170-183 | the number of leading bytes that stand before the NUL of the accept string, up to the first that does not |
| Tokenizer.Strpbrk | kernel/Source/util/string.c:200-212 | the first byte of the text that stands before the NUL of the accept string, or null if there is none |
| Tokenizer.Strtok.Next | kernel/Source/util/string.c:229-248 | one call: token, overwritten delimiter and remembered position, or null |
| Tokenizer.ResumeAdvances | kernel/Source/util/string.c:240-246 | a call changes only its own text, and the next call resumes on the untouched rest of it |
| Tokenizer.SessionFollowsRuns | kernel/Source/util/string.c:229-248 | the calls of a whole run return the starts of the runs and cut the text at their ends |
| Tokenizer.StrtokFindsAllRuns | kernel/Source/util/string.c:229-248 | a whole run yields exactly the maximal runs in order, every token reads back intact at the end, and only delimiters that end a run changed |
| Tokenizer.StrtokSplits | kernel/Source/util/string.c:229-248 | in terms of bytes alone: no token holds a byte of the delimiter string, each ends at such a byte or at the end of the text, they come in order and read as they did, and every byte of the text in no token is one of them |
| Tokenizer.Strtok.TokenizeAll | kernel/Source/util/string.c:229-248 | calling with the buffer and then with null produces that run on the real memory, in tokens + 1 calls, and splits the text at the bytes of the delimiter string |
| Numerals.DigitsDenote | kernel/Source/util/string.c:380-384 | repeated division gives digits in range, without leading zero, that denote the number |
| Numerals.DigitsAreUnique | kernel/Source/util/string.c:380-384 | every canonical digit sequence is the numeral of its value |
| Numerals.DigitCount | kernel/Source/util/string.c:380-386 | a number needs at most k digits exactly when it is below base^k |
| Numerals.LowFirstReversed | kernel/Source/util/string.c:380-387 | reversing the digits produced low end first gives the numeral |
| Numerals.FixedIsPadded | kernel/Source/core/format.hh:23-34 | a number that fits in k places is zero-padded to k digits, not cut |
| Numerals.FixedDenotes | kernel/Source/core/format.hh:23-34 | the k digits of a number that may not fit denote its remainder by base^k |
| IntegerText.Reverse | kernel/Source/util/string.c:355-366 | the range is reversed in place and nothing else changes |
| IntegerText.PutBackwards | kernel/Source/util/string.c:376-386 | before the reversal the buffer holds the digits low end first, the sign and the NUL |
| IntegerText.Itoa | kernel/Source/util/string.c:368-432 | for every base from 2 to 36 and every number, negative ones in any base included, the buffer holds what the remainders spell as a string, and nothing else changes |
| IntegerText.SignedNumeralIff | kernel/Source/util/string.c:368-388 | the text is a sign and the digits of the magnitude exactly when the number is not negative or the base is ten |
| IntegerText.NegativeHexIsGarbled | kernel/Source/util/string.c:368-388 | an instance: -3 in base 16 is written as a lone minus sign |
| IntegerText.NumeralExamples | kernel/Source/util/string.c:368-388 | instances: the characters of -255 in base ten and of 48879 in base 16 |
| IntegerText.NumeralDenotes | kernel/Source/util/string.c:368-388 | in every base from 2 to 36 the characters written for a non-negative number denote it |
| IntegerText.NumeralLength | kernel/Source/util/string.c:368-388 | the buffer a caller needs: the digits, a sign and the NUL |
| IntegerText.Atoi | kernel/Source/util/string.c:304-353 | the value of the leading digits after spaces and sign; the intermediate results stay in range exactly when the digits denote at most the maximum |
| IntegerText.NumberIsRead | kernel/Source/util/string.c:304-318 | spaces, at most one sign and digits up to the first other byte are read as the signed decimal number, whatever follows |
| IntegerText.EveryTextIsRead | kernel/Source/util/string.c:304-318 | every text is such spaces, sign, digits and rest |
| IntegerText.ParsedInvertsNumeral | kernel/Source/util/string.c:304-388 | reading a decimal numeral gives back its integer |
| IntegerText.PrintThenRead | kernel/Source/util/string.c:304-432 | on memory, atoi after itoa returns the integer without overflow |
| StringView.ViewAgreesWithStrcmpIff | kernel/Source/ktl/string_view:65-74 | compare and strcmp agree in sign exactly when the first differing bytes lie in the same half |
| StringView.HighByteDisagrees | kernel/Source/ktl/string_view:65-74 | an instance: the byte 200 against the letter d |
| StringView.SevenBitAgrees | kernel/Source/ktl/string_view:65-74 | on 7-bit text they always agree |
| StringView.ViewOrderIsTotal | kernel/Source/ktl/string_view:89-94 | the comparison operators order all contents totally |
| StringView.CompareViews | kernel/Source/ktl/string_view:65-74 | the loop computes the signed lexicographic order |
| StringView.ComputeLength | kernel/Source/ktl/string_view:80-86 | the length of a C string, as strlen has it |
| FormatSpec.SpecRoundTripIff | kernel/Source/core/format.hh:154-166 | parsing inverts printing for both flags, every width of the source's 32-bit type and every unambiguous type, and for no other type |
| FormatSpec.DigitTypeIsWidth | kernel/Source/core/format.hh:160-164 | an instance: 5 meant as the type is read as the width |
| FormatSpec.KindIsNoDigit | kernel/Source/core/format.hh:160-164 | a parsed type is never a digit |
| FormatSpec.IntegersAreShown | kernel/Source/core/format.hh:189-202 | an integer goes out as 0x, 0X or 0b exactly in the alternate form of x, X and b, then zeros or spaces as the flag says and as the width needs, then digits without leading zero that denote it in base 16, 16 and 2, or 10 for any other type, with small letters exactly for x |
| FormatSpec.ShownIsUnique | kernel/Source/core/format.hh:189-202 | that description leaves no choice: it fixes every byte |
| FormatSpec.PointersAreShown | kernel/Source/core/format.hh:215-218 | a pointer is padded capital hexadecimal without prefix, whatever its type character |
| FormatSpec.FormatExample | kernel/Source/core/format.hh:121-166 | an instance with a doubled brace, every field of a specification and a newline, byte for byte |
| FormatSpec.UnclosedPlaceholder | kernel/Source/core/format.hh:130-138 | a placeholder that is never closed takes the rest of the format as its specification |
| FormatSpec.UnusedArguments | kernel/Source/core/format.hh:117-144 | a format without opening brace is copied, and the arguments are ignored |
| FormatSpec.CrlfSplits | kernel/Source/core/format.hh:16-21 | puts maps each byte on its own, in order |
| FormatSpec.CrlfOfByte | kernel/Source/core/format.hh:16-21 | it sends 13 and 10 for 10 and any other byte as it is |
| FormatSpec.JoinedSplits | kernel/Source/core/format.hh:56-76 | between any two parts of a list there is a comma and a space, and nowhere else |
| FormatSpec.ListExample | kernel/Source/core/format.hh:60-90 | an instance: a list of two pairs, byte for byte |
| FormatSpec.PrintedExamples | kernel/Source/core/format.hh:50-107 | instances: the empty list, a wide text cut to its low bytes, an unsupported argument |
| FormatSpec.TextsArePrinted | kernel/Source/core/format.hh:47-115 | a string goes out up to its NUL, a view whole, an atomic as what it holds |
| Formatter.PlaceholderOutput | kernel/Source/core/format.hh:130-138 | for a placeholder in memory, whose specification reaches to the closing brace or to the NUL, the output is the first argument under the bytes in between, then what the rest of the string prints for the other arguments; its width is one of those read |
| FormatSpec.PrintfInvertsFlatten | kernel/Source/core/format.hh:117-144 | a format built from literals, doubled braces and placeholders with 32-bit widths prints the literals and the arguments' renderings in order, and no width overflows |
| Formatter.BuffersSuffice | kernel/Source/core/format.hh:233-295 | no 64-bit number outgrows the 16-, 64- and 24-byte buffers |
| Formatter.RenderingIsLossless | kernel/Source/core/format.hh:233-295 | reading a rendered number's characters gives the number, without leading zero |
| Formatter.FamiliesAgree | kernel/Source/core/format.hh:23-34 | the emitted fixed-width digits are the buffered rendering zero-padded to the same width, when the number fits |
| Formatter.FmtBase.Puts | kernel/Source/core/format.hh:16-21 | a string is sent with a carriage return before every newline |
| Formatter.FmtBase.PutHex | kernel/Source/core/format.hh:23-28 | sends 0x and the number's low digits in upper case at fixed width; the prefix alone if no digits are asked for |
| Formatter.FmtBase.PutBin | kernel/Source/core/format.hh:30-34 | sends 0b and the number's low bits at fixed width; the prefix alone if none are asked for |
| Formatter.FixedSpells | kernel/Source/core/format.hh:23-34 | the characters after the prefix are digits and capital letters, most significant first, that denote the number's remainder by base^k |
| Formatter.FmtBase.PutDec | kernel/Source/core/format.hh:36-44 | sends the decimal numeral |
| Formatter.FmtBase.FillDecimal | kernel/Source/core/format.hh:38-42 | all digits are produced, low end first, before the guard on the buffer applies |
| Formatter.FmtBase.SwapHalves | kernel/Source/core/format.hh:253-254 | the swap loop reverses the buffer in place |
| Formatter.FmtBase.MakeDecString | kernel/Source/core/format.hh:282-295 | the buffer holds the decimal numeral |
| Formatter.FmtBase.MakeHexString | kernel/Source/core/format.hh:233-258 | the buffer holds the hexadecimal numeral in the chosen case |
| Formatter.FmtBase.MakeBinString | kernel/Source/core/format.hh:260-280 | the buffer holds the binary numeral |
| Formatter.FmtBase.PrintPadded | kernel/Source/core/format.hh:297-309 | right-aligns the text in the field, with zeros or spaces |
| Formatter.FmtBase.ParseSpec | kernel/Source/core/format.hh:154-166 | reads the specification that its bytes spell, in order of fields; the 32-bit width does not overflow exactly when the width that is written fits |
| Formatter.FmtBase.RouteInt | kernel/Source/core/format.hh:189-202 | sends exactly the bytes that are promised of an integer under its specification |
| Formatter.FmtBase.Print | kernel/Source/core/format.hh:46-115 | prints a value of any kind; lists in brackets and pairs in parentheses, their parts printed in order with a comma and a space between |
| Formatter.FmtBase.Route | kernel/Source/core/format.hh:177-231 | sends an argument's rendering according to its kind, for every kind: integers and pointers under their specification, all others as print has them |
| Formatter.FmtBase.Printf | kernel/Source/core/format.hh:117-144 | for every format string and argument list, sends the format's output; no width overflows exactly when all the widths that are read fit |
| SpinLock.MutualExclusion | kernel/Source/ktl/atomic:112-143 | in every reachable state the flag is 1 exactly when some thread holds the lock, and at most one does |
| SpinLock.SectionsAreSerialised | kernel/Source/ktl/atomic:112-160 | shared and thread-local data are what running the sections whole in acquisition order gives |
| SpinLock.LogFollowsPrograms | kernel/Source/ktl/atomic:145-156 | every acquired section appears once, in its thread's own order |
| SpinLock.SomeoneCanMove | kernel/Source/ktl/atomic:116-127 | in every reachable state in which a thread spins, it or the holder can move on |
| SpinLock.TryLockReturns | kernel/Source/ktl/atomic:129-136 | a try_lock enters exactly when the flag was 0 and otherwise leaves its thread where it was, the flag set, the data and the other threads unchanged |
| SpinLock.LockSpins | kernel/Source/ktl/atomic:112-119 | lock goes to the loop, whatever the flag, and changes nothing else |
| SpinLock.OnlyLockSpins | kernel/Source/ktl/atomic:112-136 | a thread that never calls lock spins in no reachable state |
| SpinLock.HolderAlone | kernel/Source/ktl/atomic:145-156 | the holder, alone, comes out after its remaining actions and the unlock, the lock free and its actions done in order |
| SpinLock.ActionsRunInOrder | kernel/Source/ktl/atomic:145-156 | an instance: a section of two actions |
| SpinLock.EveryThreadCanLeave | kernel/Source/ktl/atomic:112-160 | from every reachable state there is a run after which all threads are idle and the flag is 0 |
| SpinLock.Lock.Exchange | kernel/Source/ktl/atomic:119-124 | sets the flag to 1 and succeeds exactly when it was 0 |
| SpinLock.Lock.TryLock | kernel/Source/ktl/atomic:129-136 | one exchange without waiting: the flag is 1 afterwards, and it succeeds exactly when it was 0 |
| SpinLock.Lock.Unlock | kernel/Source/ktl/atomic:138-142 | clears the flag |
| SpinLock.LockUsers.Perform | kernel/Source/ktl/atomic:112-160 | each instruction, executed in place on the lock and the data, is the machine's step |
| CallOnce.RunsExactlyOnce | kernel/Source/ktl/call_once:13-37 | the callable starts at most once; once any call has returned it has run exactly once, to its end, and its data is complete |
| CallOnce.StateOnlyGrows | kernel/Source/ktl/call_once:18-33 | the state only grows along a run, and at 2 neither it nor the data changes again |
| CallOnce.CallersReturnSoon | kernel/Source/ktl/call_once:18-35 | once the state is 2 every caller returns within two steps of its own |
| CallOnce.CallersFinish | kernel/Source/ktl/call_once:33-35 | with the state at 2 each own step lowers the number of steps a caller still needs |
| CallOnce.OwnerCanMove | kernel/Source/ktl/call_once:27-35 | in every reachable state in which a thread waits, the owner's next step is enabled and brings it closer to its store |
| CallOnce.FirstCallerReturns | kernel/Source/ktl/call_once:13-37 | one caller alone, from a fresh flag, has returned after as many steps as the callable has and five more, the state 2, the callable started and finished once and its data complete |
| CallOnce.StepsRunInOrder | kernel/Source/ktl/call_once:27-32 | an instance: a callable of two steps |
| CallOnce.SomeoneProgresses | kernel/Source/ktl/call_once:13-37 | in every reachable state in which a call has not returned, some enabled step lowers a measure over all callers |
| CallOnce.EveryCallCanReturn | kernel/Source/ktl/call_once:13-37 | from every reachable state there is a run after which every call has returned |
| CallOnce.OnceFlag.CompareExchangeStrong | kernel/Source/ktl/call_once:21-27 | stores the desired value exactly when the expected one was there |
| CallOnce.Callers.Advance | kernel/Source/ktl/call_once:13-37 | each instruction, executed in place on the flag, is the machine's step |

## Left out

- Formatter.FmtBase.ParseSpec: computes with unbounded widths and says when the source's 32-bit width would overflow, which is undefined there.
- IntegerText.Itoa: excludes the type's minimum in base ten, whose negation overflows, and bases outside 2 to 36: 0 divides by zero, 1 never ends, larger ones run out of letters.
- IntegerText.Atoi: computes with unbounded integers and says when the source's type would overflow, which is undefined there.
- PageAllocator.PhysicalMemoryManager.Free: requires an accepted page to lie in memory; the source would store a pointer wherever it is told.
- PageAllocator.PhysicalMemoryManager.ExecuteAny: after a free that breaks the list (FreePushesIff says which) nothing more is claimed; what the first such free leaves is in NullFreeForgetsList and DoubleFreeCaughtIff.
- PageAllocator.PhysicalMemoryManager.Init: requires the pages that entries bring in to lie in memory and none to come twice; what a page that comes twice does is in AddListedBreaks.
- PageAllocator.PhysicalMemoryManager.AddRegion: requires the pages to lie in memory and the page total to stay below 2^64.
- The direct map is page-aligned, lies above the memory and does not wrap.
- SpinLock.LockUsers.Perform: the spinning loop of lock is a repeated step, so no bound on waiting and no fairness is claimed.
- Panic ends the run in the source; here it is an outcome that leaves the state unchanged.
- Under LIFO nothing is claimed about the tail pointer, which may be stale and is never followed.
- Sequentially consistent steps only: no weak-memory effects, and no callable that calls call_once again on the same flag.
- The debug and warning messages of the allocator, and the port polling behind each byte sent.
- Signed arguments are their 64-bit images, an atomic argument is the value loaded from it, a wide text is the sequence of its characters; print of a pointer inside an array or a pair, which C++ turns into a truth value.
- strcpy, strncpy, strcat, strncat, strchr, strrchr, memchr, memset, strcspn, strnlen and the character classes not used by atoi: easy members, or not kept to the C contract (strncpy).
- strtol and strtoll, whose overflow test fires on ordinary inputs and which divide by a zero base.
- string_view's remove_prefix, remove_suffix and substr; ktl::atomic's load, store, exchange and fetch_add as such.
- Descriptor tables, interrupt entry, Limine and EFI wrappers, and the type-level library.
