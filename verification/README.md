# Prinbee storage engine: a verified model

This project models the storage engine of Prinbee and the arithmetic under it, and proves what its
code is meant to do. Every modelled operation that changes state in the C++ is a method of a class here,
with the same branches, constants and error cases; each is proved against functions and predicates whose
properties are then proved as lemmas.

* **512-bit integers and text** (`Bits`, `Words`, `BigArithmetic`, `Numerals`, `Uint512`, `Int512`,
  `Buffers`, `Convert`, `NumberGrammar`, `ReadExact`): eight 64-bit words updated in place by shifts, shift-and-add multiplication
  and shift-and-subtract division, printing and parsing, and the conversions between text and N-byte
  two's complement buffers. All claims are about the number the words stand for.
* **The free-space allocator** (`FreeLists`, `SpaceAccounting`, `FreeSpace`): DATA pages as a map of
  8-byte words, doubly linked free lists threaded through the free chunks, and a page of list heads
  indexed by size. `Consistent` says that the pages are tiled by chunks, that each free chunk is on the
  list of its size and on no other, and that next and previous words mirror each other.
* **The virtual buffer** (`Sequences`, `FlatBytes`, `VirtualBuffer`): a deque of buffers that behaves
  as one flat byte sequence.
* **The schema chain** (`FileBlocks`, `SchemaChain`): a byte string kept in linked pages of the file that are
  reused, added and given back; no two of them overlap.
* **Index blocks** (`EntryPacking`, `EntryIndex`, `IndirectTree`, `IndirectGrowth`, `IndirectIndex`,
  `PrimaryIndex`): the sorted packed entries, the tree that maps object identifiers to references and
  its growth when an identifier is handed out, and the key-to-slot index.
* **Field definitions** (`FieldNames`): the two recognizers against the grammars in their documentation.

What comes from outside is a parameter or a free choice: the address of a new DATA page, the capacity
the C++ library gives a vector, the bytes of a page a buffer is a window into. `add512` and `sub512` are
assembly that is not part of the repository's C++; they are written as 8-word ripple-carry loops.

Where the code does not do what is promised of it, the code is kept and the exact condition is proved:

* Text written in octal by `uint512_t::to_string` is read back as decimal digits: it denotes another, greater
  number from 8 on (`OctalReadsBack`), so that in 512 bits no number from 8 to 2^462 - 1 comes back
  (`OctalReadsIn512`), and above that none whose decimal reading fits 512 bits (`OctalReadsModulo`). An `0o`
  prefix is always refused.
* Overflow is not detected while a number is read, although a comment at prinbee/data/convert.cpp:498 says it
  is: of the number a text denotes (`Written`), however large, only the residue modulo 2^512 is kept. An
  unsigned field of N bits holds the number denoted exactly when that is below 2^N, but takes every text whose
  number is below 2^N modulo 2^512 (`UnsignedReadExact`): 2^512 is read as 0 at every width (`OverlongNumeral`).
* A signed field of N bits holds the number denoted exactly when it lies in [-2^(N-1), 2^(N-1) - 1]
  (`SignedReadExact`). It takes more: every text whose number is in that range modulo 2^512, and at 64, 128 and
  256 bits also those that are 2^(N-1) modulo 2^512. So 2^512 - 1 is read as -1 even at 8 bits
  (`AllOnesNumeral`), at 512 bits the numbers from 2^511 to 2^512 - 1 come out negative (`HighNumerals`), and
  2^63 is taken at 64 bits and comes out as -2^63 (`LeastMagnitudeNumeral`).
* `int512_t::from_string` keeps the number denoted exactly when it lies in [-2^511, 2^511 - 1], and never fails
  for one outside (`Int512.FromString`, `SignedWrapExact`).
* `integer_to_string` lets a non-negative number of up to 8 * k bits through where the size given is k bytes,
  while a negative one has to fit k bytes of two's complement (`IntegerPrintExact`); -1 counts as 0 bytes long
  (`SignedSizeFits`).
* `get_free_space` rounds in 32 bits: requests above 0xFFFFFFF4 bytes fail, and those above 0xFFFFFFFC
  get a chunk of 8 bytes (`RoundedFacts`, `GetFreeSpace`).
* When no list serves a request and 8 or 16 bytes of the new page would remain, the links of that rest
  are written over the end of the page. The lists are consistent after `get_free_space` exactly when this
  is not so (`GetFreeSpace`, `Overruns`, `OverrunExample`).
* Linking back a chunk of 8 or 16 bytes breaks the lists; the other sizes keep them (`LinkBack`). Such chunks
  are handed out, for instance to the first request of a new table (`SmallChunkReturned`). Every
  reference handed out is 4 past a multiple of 8, so the guard at the start of `release_space`
  (prinbee/block/block_free_space.cpp:507) refuses all of them (`GetFreeSpace`).
* The bounds checks of `pread` and `pwrite` add offset and size in 64 bits; past that a full read may come
  up short and a write that may not grow grows the buffer (`FullReadGuard`, `GrowthGuard`), as one byte at
  offset 2^64 - 1 does on any buffer (`WrappedExample`).
* `set_schema` keeps the size in 32 bits, so a schema is saved whole exactly when it is shorter than 2^32
  bytes (`SaveAndLoad`).
* `pinsert` at an offset past the end appends, so that `perase` at the same offset does not undo it; up to the end
  it does (`InsertThenErase`).
* A search in an entry index is a look-up in the map from key slots to references, whatever the entries,
  exactly when the key fills its slot (`LookupExact`): a shorter key finds every entry that starts with it
  (`ShortKeyFindsPrefix`).
* `set_key_size` adds in 32 bits, so the nine greatest sizes are refused like an empty key; a new size is taken
  even while there are entries, which then cannot be read (`SetKeySize`).
* `add_entry` does not look at a position it is given; the order survives exactly when the key belongs
  between the neighbours there (`AddEntry`, `InsertOrder`).
* In `row_insert`, the branch for an intermediate `TIND` block that overflows puts the old child back
  instead of the new block (prinbee/database/table.cpp:1072-1081). It is never reached: only the block on
  top can be too small (`NeverMissing`).

## Model

| member | source | states |
|---|---|---|
| BigUnsigned.Add512 | prinbee/bigint/add_sub.h:44 | the ripple-carry loop leaves the sum modulo 2^512 in the destination, also when both operands are the same words |
| BigUnsigned.Sub512 | prinbee/bigint/add_sub.h:49 | the borrow loop leaves the difference modulo 2^512 |
| BigUnsigned.Uint512.BitSize | prinbee/bigint/uint512.cpp:154-167 | the loop over the words finds the bit length of the value |
| Bits.BitLengthBounds | prinbee/bigint/uint512.cpp:154-167 | a bit length of k > 0 means 2^(k-1) <= value < 2^k |
| Bits.BitLengthUnique | prinbee/bigint/uint512.cpp:154-167 | and no other k has that property |
| BigUnsigned.Uint512.Compare | prinbee/bigint/uint512.cpp:298-309 | the comparison from the highest word down orders the values |
| Words.ValInjective | prinbee/bigint/uint512.cpp:298-309 | different words stand for different numbers |
| BigUnsigned.Uint512.AddAssign | prinbee/bigint/uint512.cpp:412-416 | addition modulo 2^512 |
| BigUnsigned.Uint512.SubAssign | prinbee/bigint/uint512.cpp:434-438 | subtraction modulo 2^512 |
| BigUnsigned.Uint512.Negate | prinbee/bigint/uint512.cpp:396-401 | the two's complement: minus the value modulo 2^512 |
| BigUnsigned.Uint512.Lsl | prinbee/bigint/uint512.cpp:170-217 | value times 2^n modulo 2^512 for every n, over the word move, the carried bits and n >= 512 |
| BigUnsigned.Uint512.CarryBitsUp | prinbee/bigint/uint512.cpp:204-216 | the loop that carries bits from word to word multiplies by 2^shift modulo 2^512 |
| BigUnsigned.Uint512.Lsr | prinbee/bigint/uint512.cpp:220-267 | value divided by 2^n, rounded down, for every n |
| BigUnsigned.Uint512.CarryBitsDown | prinbee/bigint/uint512.cpp:254-266 | the loop that carries bits down divides by 2^shift |
| BigUnsigned.Uint512.Div | prinbee/bigint/uint512.cpp:314-382 | dividend = quotient * divisor + remainder with remainder < divisor, for every divisor but 0, which fails and changes nothing |
| BigUnsigned.Uint512.DivideLoop | prinbee/bigint/uint512.cpp:360-379 | the loop of compare, subtract, halve refines the recursive long division |
| BigArithmetic.LongDivisionExact | prinbee/bigint/uint512.cpp:314-382 | shift-and-subtract over bit_size(lhs) - bit_size(rhs) + 1 turns is exact division |
| BigArithmetic.AlignedDivisor | prinbee/bigint/uint512.cpp:353-361 | the divisor shifted up to the dividend's bit size stays below 2^512, and its double is above the dividend |
| BigUnsigned.Uint512.MulAssign | prinbee/bigint/uint512.cpp:441-470 | the product modulo 2^512, also of a number with itself |
| BigUnsigned.Uint512.ShiftAndAdd | prinbee/bigint/uint512.cpp:454-467 | the loop refines recursive shift-and-add, and ends because the factor shrinks |
| BigArithmetic.ShiftAddProduct | prinbee/bigint/uint512.cpp:446-470 | shift-and-add modulo 2^512 is accumulator plus product modulo 2^512 |
| BigUnsigned.Uint512.FromString | prinbee/bigint/uint512.cpp:692-776 | fails on the texts that denote no number; otherwise yields the number denoted, modulo 2^512, which is the number itself exactly when it is below 2^512 |
| BigUnsigned.Uint512.ReadDigits | prinbee/bigint/uint512.cpp:703-775 | multiply-and-add over the digits computes the positional value modulo 2^512 and stops at a character that is no digit |
| BigUnsigned.Uint512.ToString | prinbee/bigint/uint512.cpp:779-906 | in every base from 2 to 36 the text is the introducer, if asked for, and the digits of the value in that base, in the letter case asked for, without a leading zero (`IsNumeral`); other bases fail |
| BigUnsigned.Uint512.TakeMasked | prinbee/bigint/uint512.cpp:816-854 | masking and shifting yields the same digits as division, for 2, 8 and 16 |
| BigUnsigned.Uint512.TakeDivided | prinbee/bigint/uint512.cpp:856-896 | repeated division yields the digits, last one first |
| Numerals.TextIsNumeral | prinbee/bigint/uint512.cpp:779-906 | in every base, case and with or without introducer: "0B", "0b", "0", "0X", "0x" or nothing, and then digits of that base and case whose positional value is the number, the first of them not zero |
| Numerals.DigitMeaning | prinbee/bigint/uint512.cpp:692-906 | a character stands for d exactly when it is the d-th of 0..9A..Z or of 0..9a..z |
| Numerals.DenotedGrammar | prinbee/bigint/uint512.cpp:692-776 | from_string reads binary digits behind 0b or 0B, hexadecimal ones behind 0x or 0X, decimal ones and the empty text as their positional value, and nothing else |
| Numerals.DigitsParse | prinbee/bigint/uint512.cpp:779-906 | the digits printed in a base read back as the number, in either case |
| Numerals.NoLeadingZero | prinbee/bigint/uint512.cpp:779-906 | a number other than 0 never starts with a zero digit |
| Numerals.CanonicalNumeral | prinbee/bigint/uint512.cpp:779-906 | the printed digits are the only numeral of the number without a leading zero |
| Numerals.TextParses | prinbee/bigint/uint512.cpp:692-906 | what to_string prints in base 10 and, with the introducer, in bases 2 and 16 denotes the number to from_string, whatever its size |
| Numerals.OctalReadsAsDecimal | prinbee/bigint/uint512.cpp:763-834 | octal text with its introducer is read as decimal digits |
| Numerals.OctalReadsBack | prinbee/bigint/uint512.cpp:763-834 | octal text denotes the number it was printed from exactly below 8, and a greater one for every number from 8 on |
| Numerals.OctalReadsModulo | prinbee/bigint/uint512.cpp:763-834 | in any number of bits the numbers below 8 come back, and no other number does whose decimal reading fits the bits |
| Numerals.OctalReadsIn512 | prinbee/bigint/uint512.cpp:763-834 | in 512 bits nothing wraps below 2^462, so there only the numbers below 8 come back |
| BigSigned.Int512.Compare | prinbee/bigint/int512.cpp:204-220 | signed high word first, then the low words: the order of the signed values |
| BigSigned.Int512.BitSize | prinbee/bigint/int512.cpp:262-294 | the bit length of the magnitude, the minimum included |
| BigSigned.Int512.Negate | prinbee/bigint/int512.cpp:526-531 | minus the value modulo 2^512 |
| BigSigned.Int512.SubAssign | prinbee/bigint/int512.cpp:562-566 | subtraction modulo 2^512 |
| BigSigned.Int512.FromString | prinbee/bigint/int512.cpp:925-962 | fails on the texts that denote no number; otherwise the words are the number denoted modulo 2^512, and the value is the number itself exactly when it lies in [-2^511, 2^511 - 1] |
| BigSigned.Int512.ToString | prinbee/bigint/int512.cpp:965-976 | for negative numbers a minus sign and then the numeral of the magnitude in the base and case asked for, the minimum included |
| BigSigned.SignedTextParses | prinbee/bigint/int512.cpp:925-976 | what to_string prints denotes the number to from_string, sign included, whatever its size |
| BigSigned.SignedDenotedGrammar | prinbee/bigint/int512.cpp:925-962 | one sign in front of what the unsigned reader takes: a minus negates, a plus does not |
| BigSigned.SignedWrapExact | prinbee/bigint/int512.cpp:526-531 | going through 512 bits of two's complement keeps a number exactly when it lies in [-2^511, 2^511 - 1] |
| Convert.ValueByteSize | prinbee/data/convert.cpp:219-250 | the loops find how many bytes are significant, keeping one 0xFF when a negative number would read as positive; `ByteSizeFits` and `SignedSizeFits` say what that is of the number |
| Convert.ByteSizeFits | prinbee/data/convert.cpp:219-250 | an unsigned buffer has at most k significant bytes exactly when its number is below 2^(8k) |
| ReadExact.SignedSizeFits | prinbee/data/convert.cpp:219-250 | a negative buffer has at most k significant bytes exactly when its number is at least -2^(8k-1), and none exactly for -1 |
| ReadExact.UnsignedPrintExact | prinbee/data/convert.cpp:454-477 | for every buffer, size of k bytes and base: out of range exactly from 2^(8k) on, no conversion for a base outside 2 to 36 but of the number 0, otherwise the numeral in that base |
| ReadExact.IntegerPrintExact | prinbee/data/convert.cpp:454-621 | for every buffer, size of k bytes and base: out of range exactly outside [-2^(8k-1), 2^(8k) - 1], otherwise the numeral of the number in that base; in bases 2, 8, 10 and 16 it denotes the number to string_to_int |
| Convert.StringToInt | prinbee/data/convert.cpp:253-427 | the pointer loops find the number the text denotes (spaces, sign, prefix, quotes, digits) and keep it modulo 2^512, or report that there is none |
| NumberGrammar.Grammar | prinbee/data/convert.cpp:253-427 | a text is a number exactly when it is blanks, one sign or none, digits in one of the notations 0x.. 0X.. 0b.. 0B.. 0.. x'..' X'..' or decimal, and blanks, up to the first NUL; it is then the positional value of the digits in that base, negated behind a minus sign; all other texts are invalid, and those with a minus sign where none is accepted |
| NumberGrammar.SpelledIsRead | prinbee/data/convert.cpp:253-427 | every text of that form is read as its number, with and without negative numbers accepted |
| Convert.ReadRun | prinbee/data/convert.cpp:312-385 | the digit loop computes the positional value modulo 2^512 of the longest run of digits |
| Convert.TimesBase | prinbee/data/convert.cpp:315-382 | multiplying by shifts and sums equals multiplying by the base modulo 2^512 |
| Convert.StringToUInteger | prinbee/data/convert.cpp:430-451 | takes the texts whose number modulo 2^512 has at most N bits and returns its N/8 low bytes; `UnsignedReadExact` says which numbers those are |
| Convert.UIntegerToString | prinbee/data/convert.cpp:454-477 | the numeral of the value in the base asked for, with its introducer and upper case letters, or fails when it is longer than the size given |
| Convert.StringToInteger | prinbee/data/convert.cpp:480-567 | takes the texts whose 512 bits, read as signed, the predicate `AcceptsSigned` lets through and returns the N/8 low bytes; `SignedReadExact` says which numbers those are |
| Convert.IsMinimum | prinbee/data/convert.cpp:488-550 | of the numbers with N significant bits, which ones the exclusive-or test lets through at each width |
| ReadExact.UnsignedReadExact | prinbee/data/convert.cpp:430-451 | for the number d a text denotes, however large: taken exactly when d mod 2^512 < 2^N, and the field holds d itself exactly when d < 2^N |
| ReadExact.SignedReadExact | prinbee/data/convert.cpp:480-567 | for the number d a text denotes, however large: taken exactly when d is in [-2^(N-1), 2^(N-1) - 1] modulo 2^512 or, at 64, 128 and 256 bits, is 2^(N-1) modulo 2^512; the field holds d modulo 2^N put in range, which is d exactly when d is in [-2^(N-1), 2^(N-1) - 1] |
| ReadExact.HighNumerals | prinbee/data/convert.cpp:480-567 | at 512 bits the numeral of every v from 2^511 up to 2^512 - 1 is taken and comes out as v - 2^512 |
| ReadExact.AllOnesNumeral | prinbee/data/convert.cpp:480-567 | the numeral of 2^512 - 1 is taken at every width and comes out as -1 |
| ReadExact.LeastMagnitudeNumeral | prinbee/data/convert.cpp:488-522 | at 64, 128 and 256 bits the numeral of 2^(N-1) is taken and comes out as -2^(N-1) |
| ReadExact.OverlongNumeral | prinbee/data/convert.cpp:430-451 | the numeral of 2^512 is taken at every width and comes out as 0 |
| Convert.PrintedDenotes | prinbee/data/convert.cpp:253-477 | the numeral of a number, with or without a minus sign, denotes that number to string_to_int, whatever its size |
| Convert.IntegerToString | prinbee/data/convert.cpp:570-621 | the numeral of the two's complement value in the base asked for, with sign, introducer and upper case letters |
| Convert.UnsignedRoundTrip | prinbee/data/convert.cpp:430-477 | reading undoes printing for every buffer of every width in bases 2, 8, 10 and 16 |
| Convert.SignedRoundTrip | prinbee/data/convert.cpp:480-621 | the same for signed buffers, the minimum and -1 included |
| FreeSpace.RoundUp | prinbee/utils.h:53-64 | the least multiple not below the value exactly when the sum fits in 64 bits |
| FreeSpace.HeadIndexOfChunk | prinbee/block/block_free_space.cpp:216-230 | the head for a chunk of n bytes is word n / 8 of the page |
| FreeSpace.Allocator.LinkSpace | prinbee/block/block_free_space.cpp:233-250 | writes the chunk's own links, the back link of the old head and the head, and nothing else |
| FreeLists.LinkKeeps | prinbee/block/block_free_space.cpp:233-250 | linking a chunk that is on no list puts it first on the list of its size and keeps pages, lists and chunks in use consistent |
| FreeSpace.Allocator.UnlinkSpace | prinbee/block/block_free_space.cpp:281-310 | takes a chunk off its list from any position, leaving it on none and all else consistent |
| FreeLists.UnlinkKeeps | prinbee/block/block_free_space.cpp:281-310 | the one or two words and the head written by unlinking mend the list around the chunk |
| FreeLists.SplitKeeps | prinbee/block/block_free_space.cpp:442-450 | cutting a chunk in two keeps the page tiled and touches no other chunk |
| FreeLists.UseKeeps | prinbee/block/block_free_space.cpp:461 | setting the allocated flag of a chunk that is on no list keeps everything consistent |
| FreeLists.PageKeeps | prinbee/block/block_free_space.cpp:470-497 | a new page with one chunk that fills it joins the tiled pages without touching the others |
| FreeLists.WordsApart | prinbee/block/block_free_space.cpp:350-502 | no word belongs to two chunks |
| FreeLists.MetaLayout | prinbee/block/block_free_space.cpp:120-175 | the bits of a meta word: size in the low 24, the allocated flag in bit 24, the other flags, and the upper half |
| FreeSpace.CutKeeps | prinbee/block/block_free_space.cpp:438-461 | cutting, linking the rest and handing the first part out leaves a consistent state |
| FreeSpace.FreshCut | prinbee/block/block_free_space.cpp:470-501 | the same for a new page whose rest can hold a link |
| FreeSpace.Allocator.TakeExact | prinbee/block/block_free_space.cpp:395-408 | an exact fit is handed out whole, and the state stays consistent |
| FreeSpace.Allocator.TakeLarger | prinbee/block/block_free_space.cpp:430-466 | a larger chunk is cut when 24 bytes or more remain, else handed out whole, and the state stays consistent |
| FreeSpace.Allocator.TakeFresh | prinbee/block/block_free_space.cpp:468-502 | a new page is cut; the state is consistent unless 8 or 16 bytes remain, and then a word past the page is overwritten and a head is in use that never may be |
| FreeSpace.Allocator.GetFreeSpace | prinbee/block/block_free_space.cpp:350-502 | which requests fail, changing nothing; otherwise which list or new page the chunk comes from: the best fit, a new page only when nothing fits; the chunk was in no use and overlaps none in use, whose words stay; exactly its size becomes used, and used plus free bytes stay pages times their space; the invariant holds afterwards exactly when the rest of a new page is not too small; the chunk holds the request exactly when it is at most 0xFFFFFFFC bytes; its reference is 4 past a multiple of 8, which release_space refuses |
| FreeSpace.FitPolicy | prinbee/block/block_free_space.cpp:393-471 | a new page only when no free chunk has the size wanted and none has max(256, size + 8) bytes or more; otherwise an exact chunk or the smallest of those |
| FreeSpace.ServedSafely | prinbee/block/block_free_space.cpp:350-502 | the chunk was free, overlaps no chunk in use, all of which stay as they were, and exactly its size moves from free to used bytes |
| FreeSpace.PageBytes | prinbee/block/block_free_space.cpp:468-502 | a new page adds its space to the free bytes |
| SpaceAccounting.Conserved | prinbee/block/block_free_space.cpp:313-323 | in every consistent state used plus free bytes are pages times the space of one page |
| FreeSpace.RoundedFacts | prinbee/block/block_free_space.cpp:360 | the 32-bit rounding: exact up to 0xFFFFFFF4, then 0, then 8 |
| FreeSpace.OverrunExample | prinbee/block/block_free_space.cpp:481-490 | requests of 4068 and 4076 bytes against 4096-byte pages overrun the page |
| FreeSpace.SmallHeads | prinbee/block/block_free_space.cpp:233-250 | a head in use for 8 or 16 bytes is inconsistent with any pages, chunks and lists whatever |
| FreeSpace.Allocator.LinkBack | prinbee/block/block_free_space.cpp:574 | the chunk becomes free and head of its list, consistently exactly when it has 24 bytes or more; exactly its size moves from used to free bytes |
| FreeSpace.SmallChunkReturned | prinbee/block/block_free_space.cpp:350-574 | on pages of any size, a new allocator serves a request of 4 bytes with a chunk of 8, and returning that breaks the invariant |
| VirtualBuffers.VirtualBuffer.AddBuffer | prinbee/data/virtual_buffer.cpp:150-163 | appends the window's bytes, or fails once the buffer was modified |
| VirtualBuffers.VirtualBuffer.PRead | prinbee/data/virtual_buffer.cpp:237-296 | copies the flat slice that is there and leaves the rest of the memory alone; a full read fails exactly when the 64-bit check does |
| VirtualBuffers.VirtualBuffer.PWrite | prinbee/data/virtual_buffer.cpp:299-429 | the flat bytes are overwritten in place and appended past the end, whatever the buffers, their stale tails and capacities |
| VirtualBuffers.VirtualBuffer.Overwrite | prinbee/data/virtual_buffer.cpp:330-372 | the loop over the buffers overwrites what is there and reports how much was written |
| VirtualBuffers.VirtualBuffer.Grow | prinbee/data/virtual_buffer.cpp:374-429 | the rest is appended, whatever spare capacity the last buffer has |
| VirtualBuffers.VirtualBuffer.PInsert | prinbee/data/virtual_buffer.cpp:432-515 | the flat bytes are spliced; the final throw is unreachable |
| VirtualBuffers.VirtualBuffer.PErase | prinbee/data/virtual_buffer.cpp:518-660 | the flat bytes are cut, over whole buffers, ends, starts and gaps; returns how many |
| VirtualBuffers.VirtualBuffer.PShift | prinbee/data/virtual_buffer.cpp:663-737 | a shift left drops n bytes, moves the rest down and fills the end; fails, changing nothing, exactly for a shift right or when offset + n is past the end |
| VirtualBuffers.VirtualBuffer.MoveDown | prinbee/data/virtual_buffer.cpp:691-717 | moving overlapping 4096-byte pieces by read and write is one flat move |
| VirtualBuffers.VirtualBuffer.FillEnd | prinbee/data/virtual_buffer.cpp:718-733 | the fill loop sets exactly the last n bytes |
| FlatBytes.FlatUpdate | prinbee/data/virtual_buffer.cpp:299-429 | exchanging one buffer changes only its own part of the flat sequence |
| FlatBytes.EditedBytes | prinbee/data/virtual_buffer.cpp:299-515 | where each byte is after a write or an insertion |
| FlatBytes.RemovedBytes | prinbee/data/virtual_buffer.cpp:518-737 | where each byte is after a removal or a shift |
| FlatBytes.ShiftIsEraseThenAppend | prinbee/data/virtual_buffer.cpp:663-737 | a shift left is an erase followed by an append of the fill |
| VirtualBuffers.GrowthGuard | prinbee/data/virtual_buffer.cpp:231-234 | a write the check lets through keeps the size exactly when offset + size fits in 64 bits |
| VirtualBuffers.FullReadGuard | prinbee/data/virtual_buffer.cpp:231-234 | a full read the check lets through gets all its bytes exactly when offset + size fits in 64 bits |
| VirtualBuffers.NarrowExact | prinbee/data/virtual_buffer.cpp:237-296 | the count returned is the true one exactly below 2^31, and right modulo 2^32 beyond |
| VirtualBuffers.WrappedExample | prinbee/data/virtual_buffer.cpp:231-234 | on any buffer the check lets one byte at offset 2^64 - 1 through: the write grows the buffer, the full read gets nothing |
| VirtualBuffers.InsertThenErase | prinbee/data/virtual_buffer.cpp:432-660 | removing what was inserted restores the bytes exactly when nothing was inserted or the offset did not lie past the end |
| VirtualBuffers.EraseThenInsert | prinbee/data/virtual_buffer.cpp:237-660 | reading, removing and inserting again any part restores the bytes, whatever the offset and size |
| VirtualBuffers.WriteThenRead | prinbee/data/virtual_buffer.cpp:237-429 | what was written is read back whole exactly when the offset did not lie past the end; all other bytes stay |
| SchemaChain.SchemaStore.AllocateBlock | prinbee/database/table.cpp:832-925 | a block that was not in use, zeroed and linked to nothing: the first of the pool, or the first of sixteen pages the file grows by, the others of which follow page by page and make up the pool |
| SchemaChain.NoOverlap | prinbee/database/table.cpp:832-948 | in every valid state the blocks, in use or free, are whole pages behind the header and before the end of the file, a page or more apart |
| SchemaChain.SchemaStore.FreeBlock | prinbee/database/table.cpp:928-948 | the block goes to the front of the pool; no block is lost |
| SchemaChain.SchemaStore.GetSchema | prinbee/block/block_schema.cpp:116-137 | the buffer reads as the bytes of the chain's blocks in order |
| SchemaChain.SchemaStore.SetSchema | prinbee/block/block_schema.cpp:140-212 | whatever acyclic chain there was, the chain then holds the schema's bytes in exactly as many blocks as they need at page size - 20 bytes each; surplus blocks are freed once each, in order; missing ones come from the pool; other blocks are untouched and none is lost |
| SchemaChain.SchemaStore.SaveAndLoad | prinbee/block/block_schema.cpp:116-212 | a schema that is saved and loaded comes back exactly when it is shorter than 2^32 bytes, and otherwise as its first (size modulo 2^32) bytes |
| SchemaChain.SchemaStore.WriteBlock | prinbee/block/block_schema.cpp:155-162 | one block takes the next piece of the schema, and the chain stays linked |
| SchemaChain.SchemaStore.FreeRest | prinbee/block/block_schema.cpp:169-183 | the blocks of the rest of the chain are freed once each and all others stay |
| EntryIndexes.EntryIndex.SetKeySize | prinbee/block/block_entry_index.cpp:157-171 | refused exactly for an empty key and when key size and prefix pass 32 bits; the block stays readable exactly when it was empty or the size is the same |
| EntryIndexes.EntryIndex.Search | prinbee/block/block_entry_index.cpp:219-262 | the binary search ends on an entry that compares equal or in the gap the key belongs in: exactly the entries in front of it have a smaller number in the bytes both have, for keys of any length |
| EntryIndexes.EntryIndex.FindEntry | prinbee/block/block_entry_index.cpp:198-263 | the reference of an entry that compares equal if there is one; otherwise 0, with the number of entries with a smaller key as position; with a key that fills its slot it answers from the map the entries stand for |
| EntryIndexes.EntryIndex.AddEntry | prinbee/block/block_entry_index.cpp:291-411 | which calls fail, changing nothing; otherwise exactly one entry is inserted, with flag, reference and zero-padded key; the order is kept exactly when the position is the right one, the keys then increase as big-endian numbers and the map gains exactly that binding |
| EntryIndexes.EntryIndex.InsertAt | prinbee/block/block_entry_index.cpp:372-411 | moving the bytes up and writing the entry leaves the packed bytes of the entries with one more, within the page |
| EntryIndexes.EntryIndex.WriteEntry | prinbee/block/block_entry_index.cpp:380-406 | the separate writes of flags, reference, key and padding are one packed entry |
| EntryPacking.GapUnique | prinbee/block/block_entry_index.cpp:198-266 | there is at most one insertion point, and none when the key is there |
| EntryPacking.InsertAscending | prinbee/block/block_entry_index.cpp:291-411 | a key put into its gap keeps the keys strictly ascending, padded or cut to the slot |
| EntryPacking.InsertOrder | prinbee/block/block_entry_index.cpp:291-411 | at a given position the order is kept exactly when the neighbours are on the right sides |
| EntryPacking.InsertBinds | prinbee/block/block_entry_index.cpp:291-411 | the entries as a map gain exactly one binding |
| EntryPacking.SearchIsLookup | prinbee/block/block_entry_index.cpp:198-263 | with keys that fill the slot, ending on an entry or in a gap is the look-up in that map |
| EntryPacking.LookupExact | prinbee/block/block_entry_index.cpp:198-263 | for every slot size and key: finding is the look-up in the map, whatever the entries, if and only if the key fills its slot |
| EntryPacking.ShortKeyFindsPrefix | prinbee/block/block_entry_index.cpp:221-262 | a key that is not longer than its slot compares equal to exactly the entries that start with it |
| EntryPacking.PackAt | prinbee/block/block_entry_index.cpp:227 | entry k lies at k times the entry size |
| EntryPacking.CompareIsOrder | prinbee/block/block_entry_index.cpp:239 | memcmp of byte strings of one length orders them as the big-endian numbers they are |
| EntryPacking.CompareFirst | prinbee/block/block_entry_index.cpp:239 | the first byte that differs decides |
| EntryPacking.AscendingIncreases | prinbee/block/block_entry_index.cpp:198-411 | entries are in order exactly when their keys strictly increase as numbers |
| EntryPacking.GapIsPlace | prinbee/block/block_entry_index.cpp:198-266 | a position is the gap exactly when the entries in front of it are those with a smaller number |
| IndirectIndex.IndirectIndexes.Power | prinbee/block/block_top_indirect_index.cpp:230-234 | the loop computes count^level modulo 2^64 |
| IndirectIndex.IndirectIndexes.TopPosition | prinbee/block/block_top_indirect_index.cpp:225-254 | slot and identifier within the slot, which stays in 1..count^level; no slot past the block |
| IndirectIndex.IndirectIndexes.TopGetReference | prinbee/block/block_top_indirect_index.cpp:183-197 | the reference in the slot; out of bounds an error or MISSING_FILE_ADDR |
| IndirectIndex.IndirectIndexes.TopSetReference | prinbee/block/block_top_indirect_index.cpp:213-222 | sets that slot and nothing else; out of bounds an error that changes nothing |
| IndirectIndex.IndirectIndexes.LeafPosition | prinbee/block/block_indirect_index.cpp:193-204 | identifier 1 has slot 0; none past the block |
| IndirectIndex.IndirectIndexes.Descend | prinbee/database/table.cpp:1306-1348 | the loop ends in the INDR block the tree leads to, with the identifier within it, or fails when there is none |
| IndirectIndex.IndirectIndexes.GetIndirectReference | prinbee/database/table.cpp:1306-1348 | the descent ends and returns what the tree stores for the identifier, or an error when it stores nothing |
| IndirectIndex.IndirectIndexes.SetIndirectReference | prinbee/block/block_indirect_index.cpp:181-190 | sets what is stored for one identifier and for no other |
| IndirectTree.LeafRecovers | prinbee/block/block_top_indirect_index.cpp:225-254 | the slot reached and the start of its block give the identifier back |
| IndirectTree.LeafInjective | prinbee/block/block_top_indirect_index.cpp:225-254 | different identifiers reach different slots |
| IndirectGrowth.LeadsAligned | prinbee/block/block_top_indirect_index.cpp:225-254 | every block on the way down from an aligned one starts at a multiple of what it holds when full |
| IndirectGrowth.DescentDigits | prinbee/block/block_top_indirect_index.cpp:225-254 | descending from the root, the slot taken at every level is that digit of id - 1 in base count |
| IndirectGrowth.LeafDigit | prinbee/block/block_indirect_index.cpp:193-204 | the slot an identifier ends in is its last digit, and the block there starts at id - 1 without that digit |
| IndirectTree.SetSlotStores | prinbee/block/block_indirect_index.cpp:181-190 | setting the slot of one identifier changes no other look-up |
| IndirectIndex.IndirectIndexes.PlaceOid | prinbee/database/table.cpp:1002-1173 | the identifier handed out next gets its slot, with the blocks that takes, and every other identifier keeps its own; a level comes on top, just one, exactly for the first identifier past the tree; an identifier that has its slot, freed ones among them, is found there and nothing changes |
| IndirectIndex.NoOverlap | prinbee/database/table.cpp:832-925 | in every valid state the index blocks are whole pages behind the header and before the end of the file, a page or more apart |
| IndirectIndex.IndirectIndexes.AddInSlot | prinbee/database/table.cpp:1049-1058 | one new INDR block in an empty slot |
| IndirectIndex.IndirectIndexes.AddTop | prinbee/database/table.cpp:1060-1128 | one new level on top when the block there is full, with the old tree in its first slot and one new INDR block in the second |
| IndirectIndex.IndirectIndexes.Deepen | prinbee/database/table.cpp:1114-1171 | all missing levels above a full INDR block at once, which stays reachable, and no block more than that |
| IndirectGrowth.RegrownKeeps | prinbee/database/table.cpp:1114-1171 | putting new levels above a block loses no identifier |
| IndirectGrowth.GrowTop | prinbee/database/table.cpp:1067-1093 | a block on top with the old tree in slot 0 finds everything the old tree found |
| IndirectGrowth.JustFull | prinbee/database/table.cpp:1060-1119 | an identifier without a slot whose predecessor has one is the first past the block |
| IndirectGrowth.NeverMissing | prinbee/database/table.cpp:1072-1081 | below the top no TIND block is ever too small |
| IndirectGrowth.StoredKept | prinbee/database/table.cpp:1020-1173 | growth keeps what is stored for every identifier |
| PrimaryIndexes.IndexBits | prinbee/block/block_primary_index.cpp:134-140 | the greatest number of bits for which all indices lie within the page |
| PrimaryIndexes.PrimaryIndex.KeyToIndex | prinbee/block/block_primary_index.cpp:143-170 | the big-endian value of the key modulo 2^size, always an index within the page, for keys of any length; on pages of 2^n bytes it is the value modulo the number of references in the page |
| PrimaryIndexes.BigEndianTail | prinbee/block/block_primary_index.cpp:143-170 | the last n bytes of a key are its value modulo 2^(8n) |
| PrimaryIndexes.PageLength | prinbee/block/block_primary_index.cpp:134-140 | 2^size references fit in the page, whether or not the page size is a power of two |
| PrimaryIndexes.PrimaryIndex.GetTopIndex | prinbee/block/block_primary_index.cpp:173-188 | the reference of the key's index, index 0 from the table's header |
| PrimaryIndexes.PrimaryIndex.SetTopIndex | prinbee/block/block_primary_index.cpp:191-206 | sets the reference of the key's index, no other one, and never the block's header |
| FieldNames.NameAlphabet | prinbee/utils.h:164-385 | names are made of the 26 letters in both cases, the underscore and the ten digits |
| FieldNames.ValidateBitFieldName | prinbee/utils.h:245-385 | accepts exactly the texts of the grammar name=name[:digits](/name[:digits])* with every name at most the length given |
| FieldNames.ScanFlags | prinbee/utils.h:295-382 | the four-state loop computes the acceptance of the rest of the text |
| FieldNames.ListAccepted | prinbee/utils.h:245-385 | every list of flags the grammar generates is accepted |
| FieldNames.AcceptedIsList | prinbee/utils.h:245-385 | whatever is accepted is such a list |
| FieldNames.ValidateCharFieldName | prinbee/utils.h:164-220 | accepts exactly name=digits with the name at most the length given |

## Left out

- `release_space` but for its last step: the alignment guard refuses every reference handed out, the flag test at prinbee/block/block_free_space.cpp:533 is the wrong way round and coalescing is marked unfinished in the code.
- Erasing a chunk on release in a secure table, and bytes that users write into chunks they hold.
- TakeFresh: the order of the last two header writes differs from the code's by nothing a reader of the memory could see afterwards; the new link's padding is written as zero at once because linking clears it.
- TakeFresh: after an overrun nothing is claimed about later calls, whose precondition no longer holds.
- StringToInt: no unit suffixes (`size_to_multiplicator`); only UNIT_NONE is modelled, the one unit any caller in the repository passes.
- The `0o` branch of `uint512_t::from_string` beyond the fact that it always fails.
- `int512_t::asr` and `int512_t::div` on negative numbers, whose sign handling is unfinished in the code.
- Floating point, dates, versions and the other typed-buffer conversions of convert.cpp.
- PWrite: on buffers backed by memory only; the block-backed branches drop offsets or are unfinished. Sizes stay below 2^64 bytes.
- Overwrite: on buffers backed by memory only, as PWrite.
- Grow: on buffers backed by memory only, as PWrite.
- PInsert: on buffers backed by memory only, as PWrite.
- PErase: on buffers backed by memory only, as PWrite.
- PShift: buffers backed by blocks, offsets whose sum with the shift passes 64 bits, and a shift by the least 64-bit integer, which has no negation.
- AddBuffer: a window holds the bytes its page had when it was added; later changes of the page are not modelled.
- SetSchema: the schema is held in memory of its own; saving from windows over the pages of the chain itself is not modelled.
- AllocateBlock: one kind of block in a file that exists; the first sixteen blocks of an empty file and the refusals of file types and of free blocks are not modelled.
- `load_file` and `save_file`, which are file input and output.
- Overflow of a full entry block into another one, and entries for duplicate keys: both are exceptions in the code and stay errors here.
- PlaceOid: the list of freed identifiers, the row data and the header's counters are not modelled; whether the identifier comes from that list is a parameter.
- KeyToIndex: pages of 2^35 bytes and more, where the code shifts a 32-bit mask by 32 bits.
- AddEntry: a given position past the number of entries, for which the code would move bytes from behind its page.
- Allocator: page sizes are multiples of 4096 up to 2^24 bytes, the limit of the 24-bit size field; the code caches the space of a page in a static variable for all tables, which one allocator does not show.
- C strings: a text holds no NUL character; a null pointer is an absent text.
- The bytes of block headers other than the fields named here, magic words, versions, locking, mapping and syncing of pages, tracing to `std::cerr`, and shared pointers' lifetimes.
- The daemon, proxy, console, event loop, sockets, scripts and languages; blocks that only get and set fields.
