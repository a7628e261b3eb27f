# A verified model of a hobby kernel's string library, console and FAT12 image builder

This project models the core of a small 32-bit x86 hobby kernel and of the
Python script that packs the kernel into a FAT12 floppy image:

- **`kernel/string.c`**: the freestanding C string and memory library
  (`strlen` … `hex_to_string`). A C pointer is an `array<byte>` together
  with an offset into it. Every routine is an imperative method with the
  source's own loops, except `strncpy`. Its copy loop as written can
  overrun the buffer (see Findings), so `StringLib.StrNCpy` uses a
  corrected copy loop: it counts up to `n`, stops before the NUL, and then
  pads with NULs. What the source's two loops store, counted, is modelled
  by `StringLib.StrNCpyStoresAsWritten`. Each method is proved against a
  specification function on byte sequences: `StringSpec` for strings and memory, and
  `NumberSpec` for `atoi`, `itoa`, `utoa` and the hexadecimal formatter.
  The lemmas about those functions carry the library's promises, for
  example that `strcmp` returns zero exactly on equal strings, that
  reversing twice restores the buffer, and that `atoi` reads back what
  `itoa` wrote. The character classes and case mappings are pure functions
  in `CType`.
- **`kernel/kernel.c`**: the VGA text console (`terminal_*`) and the two
  number formatters it prints with. `Terminal.Console` is a class whose
  fields are the cursor, the colour byte and the text buffer. Each method
  is tied to a pure function on a `Screen` value: `Put` for one character
  and `WriteAll` for a string of them. The lemmas say what a newline,
  carriage return, tab or any other (non-control) byte does to the screen.
- **`kernel/include/vga.h`** and **`kernel/include/types.h`**: the colour
  enumeration, the attribute and cell packing (`Vga`), and the `size_t`
  width, bit, alignment and min/max macros (`Types`). The macros are
  modelled on `bv32` so that the unsigned wrap-around is the machine's.
- **`create_fat12.py`**: the `FAT12Builder`. `Fat12Format` holds the
  on-disk encodings as functions: the layout, the little-endian fields, the
  boot sector and its BIOS Parameter Block, 8.3 names, DOS date and time,
  directory entries, and the packing of 12-bit FAT entries.
  `Fat12Builder.Builder` is a class with the builder's state: the image
  array, the FAT as a `seq<nat>` field, the list of directory entries and
  the next free cluster. Its methods `AddFile`, `WriteFat` and
  `WriteRootDirectory` state the new image and table in terms of those
  functions. The properties are lemmas: a field reads back what was
  written, the cluster chain of a file visits its clusters in order, and a
  packed FAT entry unpacks to the 12 bits it holds.

Python's exceptions become `Result` values. `'ascii'` encoding failures,
`struct.pack` range errors and a full FAT are each a distinct `Error`, and
the model keeps the partial effects Python leaves behind. One error is the
model's own: `ImageFull` refuses a file whose data would run past the end
of the image, which the source misplaces (see Findings). The clock that
`create_dir_entry` reads is an explicit `Stamp` parameter.

## Model

| member | source | states |
|---|---|---|
| Types.ToSize | kernel/include/types.h:16 | a `size_t` value lies in [0, 2^32) and is congruent to the mathematical value modulo 2^32 |
| Types.SizeMax | kernel/include/types.h:32 | `SIZE_MAX` is 2^32 - 1 |
| Types.Bit | kernel/include/types.h:41 | `BIT(n)` is a power of two with bit n set |
| Types.SetBit | kernel/include/types.h:42 | after `SET_BIT` bit n is set and every other bit is unchanged |
| Types.ClearBit | kernel/include/types.h:43 | after `CLEAR_BIT` bit n is clear and every other bit is unchanged |
| Types.ToggleBit | kernel/include/types.h:44 | `TOGGLE_BIT` flips bit n exactly and leaves the other bits unchanged |
| Types.ToggleTwice | kernel/include/types.h:44 | toggling the same bit twice restores the value |
| Types.ClearAfterSet | kernel/include/types.h:42-43 | clearing a bit after setting it equals clearing it directly |
| Types.CheckBit | kernel/include/types.h:45 | `CHECK_BIT`'s non-zero test holds exactly when all of `BIT(n)` is present in x |
| Types.IsAligned | kernel/include/types.h:50 | `IS_ALIGNED(x, a)` holds exactly when `ALIGN_DOWN(x, a) == x` |
| Types.AlignDown | kernel/include/types.h:49 | `ALIGN_DOWN` clears every bit under the mask a - 1, is at most x, and differs from x by exactly those bits |
| Types.AlignUp | kernel/include/types.h:48 | `ALIGN_UP(x, a)` is `ALIGN_DOWN` of x + a - 1 in wrapping 32-bit arithmetic, so no bit under a - 1 is set |
| Types.AlignedIffMultiple | kernel/include/types.h:50 | for a power-of-two a, `IS_ALIGNED(x, a)` holds exactly when x is a multiple of a |
| Types.MaskIffMultiple | kernel/include/types.h:50 | for a power-of-two a, the bit test `x & (a - 1) == 0` holds exactly when x is a multiple of a |
| Types.AlignDownRounds | kernel/include/types.h:49-50 | for a power-of-two alignment, `ALIGN_DOWN` gives a multiple of a that is at most x and less than a below it |
| Types.AlignUpRounds | kernel/include/types.h:48-50 | when x + a - 1 does not overflow, `ALIGN_UP` gives a multiple of a that is at least x and less than a above it |
| Types.AlignUpWraps | kernel/include/types.h:48 | when x + a - 1 overflows 32 bits, `ALIGN_UP` wraps to 0 |
| Types.AlignUpIdentity | kernel/include/types.h:48-50 | `ALIGN_UP` leaves an aligned value unchanged |
| Types.Min | kernel/include/types.h:53 | `MIN` returns one of its arguments and is at most both |
| Types.Max | kernel/include/types.h:54 | `MAX` returns one of its arguments and is at least both |
| Vga.CellCount | kernel/include/vga.h:7-8 | the text screen has 80 x 25 = 2000 cells |
| Vga.ColorValue | kernel/include/vga.h:12-29 | every colour of the enumeration is a 4-bit value |
| Vga.ColorValueRoundTrip | kernel/include/vga.h:12-29 | the enumeration values are distinct: decoding a colour's value gives the colour back |
| Vga.EntryColor | kernel/include/vga.h:32-34 | the attribute byte holds the foreground in the low nibble and the background in the high nibble |
| Vga.EntryColorRoundTrip | kernel/include/vga.h:32-34 | both colours decode back from the attribute byte |
| Vga.Entry | kernel/include/vga.h:36-38 | a cell holds the character in the low byte and the attribute in the high byte |
| Vga.EntryRoundTrip | kernel/include/vga.h:36-38 | the character and the attribute read back from a cell |
| Vga.EntryInjective | kernel/include/vga.h:36-38 | equal cells have equal characters and attributes |
| CType.ToLower | kernel/string.c:255-259 | the result is not upper-case, keeps the alphabetic class, maps only upper-case letters and shifts them by 'a' - 'A' |
| CType.ToUpper | kernel/string.c:261-265 | the result is not lower-case, keeps the alphabetic class, maps only lower-case letters and shifts them by 'a' - 'A' |
| CType.CaseRoundTrip | kernel/string.c:255-265 | `toupper(tolower(c)) == c` for upper-case c, and the converse for lower-case c |
| CType.IsPrint | kernel/string.c:251-253 | a printable value is 7-bit ASCII; the control characters below 32 and DEL are not printable |
| CType.IsDigit | kernel/string.c:239-241 | a digit is a value c with c - '0' in 0..9; digits are printable and are not letters |
| CType.IsAlpha | kernel/string.c:235-237 | a letter is exactly an upper- or a lower-case letter; letters are printable and are not digits |
| CType.IsAlnum | kernel/string.c:243-245 | an alphanumeric is an upper-case letter, a lower-case letter or a digit, and is printable |
| CType.IsSpace | kernel/string.c:247-249 | white space is never a letter or digit, and the space is the only printable white-space character |
| StringSpec.Length | kernel/string.c:10-15 | the length is the index of the first NUL |
| StringSpec.LengthUnique | kernel/string.c:10-15 | a string has only one length |
| StringSpec.CString | kernel/string.c:10-15 | a string's text has its length and contains no NUL |
| StringSpec.NPrefix | kernel/string.c:51-59 | the bytes `strncmp` may examine: at most n bytes of the string, all non-NUL, stopping only at a NUL |
| StringSpec.NPrefixOfShortString | kernel/string.c:51-59 | for a string shorter than n, those bytes are the whole string |
| StringSpec.NCopy | kernel/string.c:25-31 | `strncpy`'s n-byte result |
| StringSpec.NCopyShortSource | kernel/string.c:25-31 | a string shorter than n is copied with its NUL and then padded with NULs to n bytes |
| StringSpec.NCopyLongSource | kernel/string.c:25-31 | when the first n bytes hold no NUL, exactly those n bytes are copied with no terminator |
| StringSpec.CompareZeroIff | kernel/string.c:42-48 | `strcmp` is zero if and only if the two strings are equal |
| StringSpec.CompareAntisymmetric | kernel/string.c:42-48 | swapping the arguments of `strcmp` negates the result |
| StringSpec.CompareFirstStop | kernel/string.c:42-48 | `strcmp`'s result is the unsigned-char difference of the bytes where the strings first differ or the first string ends, all earlier bytes being equal and non-NUL |
| StringSpec.NCompareFirstStop | kernel/string.c:51-59 | a non-zero `strncmp` result is the unsigned-char difference at the first difference or NUL within the first n bytes, all earlier bytes being equal and non-NUL |
| StringSpec.NCompareZeroIff | kernel/string.c:51-59 | `strncmp` is zero if and only if the strings agree on their first n bytes, up to a NUL |
| StringSpec.NCompareSameHead | kernel/string.c:51-59 | the same for strings that begin with the same non-NUL byte |
| StringSpec.NCompareTail | kernel/string.c:51-59 | the same, reduced to the strings' tails |
| StringSpec.NPrefixSameHead | kernel/string.c:51-59 | equal leading non-NUL bytes: the prefixes agree if and only if the tails' prefixes agree |
| StringSpec.NPrefixDifferentHead | kernel/string.c:51-59 | differing leading bytes, or a NUL: `strncmp` is zero if and only if the prefixes agree |
| StringSpec.ReverseAt | kernel/string.c:268-278 | position k of the reversal holds byte len - 1 - k |
| StringSpec.ReverseByIndex | kernel/string.c:268-278 | a sequence that mirrors another byte by byte is its reversal |
| StringSpec.ReverseReverse | kernel/string.c:268-278 | reversing twice gives the sequence back |
| StringSpec.StrRevResult | kernel/string.c:268-278 | `strrev` keeps the buffer's size |
| StringSpec.StrRevResultOf | kernel/string.c:268-278 | a buffer whose string is reversed in place and whose other bytes are unchanged is `strrev`'s result |
| StringSpec.CStringOfPieces | kernel/string.c:34-39 | text x followed by text y and a NUL is the C string x + y |
| StringSpec.StrRevKeepsLength | kernel/string.c:268-278 | `strrev` leaves a string of the same length |
| StringSpec.StrRevTwice | kernel/string.c:268-278 | applying `strrev` twice restores the whole buffer |
| StringSpec.MemCompareZeroIff | kernel/string.c:106-117 | `memcmp` is zero if and only if the two regions are equal |
| StringSpec.MemCompareFirstMismatch | kernel/string.c:106-117 | a non-zero `memcmp` is the difference of the first pair of unequal bytes, with all earlier bytes equal |
| NumberSpec.AtoiSpaceNarrowerThanIsSpace | kernel/string.c:141-142 | every byte `atoi` skips is white space for `isspace`, but form feed is skipped by one and not the other |
| NumberSpec.SkipSpaces | kernel/string.c:141-142 | the leading run of space, tab, newline and carriage-return bytes is removed and the rest starts with none of them |
| NumberSpec.LeadingDigits | kernel/string.c:153-156 | the longest prefix of decimal digits |
| NumberSpec.DigitCharValue | kernel/string.c:182-186 | a digit value maps to '0'..'9' or 'a'..'z', and the character reads back as that value |
| NumberSpec.Digits | kernel/string.c:182-196 | every number has at least one digit |
| NumberSpec.DigitsWellFormed | kernel/string.c:182-196 | digits are '0'..'9' or lower-case letters, and the first digit is '0' only for the value 0 |
| NumberSpec.DigitsLength | kernel/string.c:182-186 | a value below base^k has at most k digits |
| NumberSpec.DigitsRoundTrip | kernel/string.c:182-196 | reading the digits in the same base gives the value back |
| NumberSpec.DecValueIsValueOf | kernel/string.c:153-156 | `atoi`'s digit accumulation is reading in base 10 |
| NumberSpec.ItoaSign | kernel/string.c:169-179 | an invalid base gives the empty string, and the text starts with '-' exactly for a negative value in base 10 |
| NumberSpec.DecimalDigitsAreDigits | kernel/string.c:182-186 | decimal digits are all '0'..'9' |
| NumberSpec.AtoiReadsDigits | kernel/string.c:136-159 | `atoi` on an optional '-', decimal digits and a NUL skips no space and reads back the digits' value |
| NumberSpec.ItoaAtoiRoundTrip | kernel/string.c:136-199 | `atoi` applied to `itoa`'s base-10 text gives back every value `itoa` accepts, and the result fits an `int` |
| NumberSpec.UtoaAtoiRoundTrip | kernel/string.c:202-232 | `atoi` applied to `utoa`'s base-10 text gives back every value up to `INT_MAX` |
| NumberSpec.HexString | kernel/string.c:289-298 | the text is "0x", eight hexadecimal digits and a NUL |
| NumberSpec.HexCharValue | kernel/string.c:289-298 | each hexadecimal digit character reads back as its nibble |
| NumberSpec.HexDigitsCase | kernel/string.c:289-298 | digits are '0'..'9' or letters of the requested case |
| NumberSpec.ParseHexPrefix | kernel/string.c:289-298 | the first k hexadecimal digits spell the value's top 4k bits |
| NumberSpec.HexRoundTrip | kernel/string.c:289-298 | reading the eight digits gives back every 32-bit value |
| StringLib.StrLen | kernel/string.c:10-15 | returns the index of the first NUL |
| StringLib.StrCpy | kernel/string.c:18-22 | copies the string and its NUL, so dest holds the same string, and touches no other byte |
| StringLib.StrNCpy | kernel/string.c:25-31 | stores exactly the n bytes of `NCopy` and touches no other byte (corrected loop; see Findings) |
| StringLib.PadWithNul | kernel/string.c:28-29 | writes NULs over the range and touches no other byte |
| StringLib.StrNCpyFirstLoop | kernel/string.c:27-29 | the first loop `while (n-- && (*dest++ = *src++))` stores the string and its NUL and leaves n - len - 1 counts when the string is shorter than n; otherwise it stores n bytes and its last `n--` on a zero counter leaves `SIZE_MAX` |
| StringLib.StrNCpyStoresAsWritten | kernel/string.c:27-29 | the total bytes both loops store: never fewer than n, and exactly n only when the string is shorter than n |
| StringLib.StrNCpyAsWrittenShortSource | kernel/string.c:27-29 | as written, a source shorter than n still makes `strncpy` store exactly n bytes |
| StringLib.StrNCpyAsWrittenOverrun | kernel/string.c:27-29 | as written, a source of n or more characters makes `strncpy` store n + `SIZE_MAX` bytes |
| StringLib.StrCat | kernel/string.c:34-39 | dest's string becomes the old string followed by src's, and only the bytes from the old NUL on change |
| StringLib.StrCmp | kernel/string.c:42-48 | returns the specification's comparison, which is zero if and only if the strings are equal |
| StringLib.StrNCmp | kernel/string.c:51-59 | returns the bounded comparison, which is zero if and only if the first n bytes agree up to a NUL |
| StringLib.StrChr | kernel/string.c:62-69 | finds the first position, NUL included, whose signed char equals c, or reports that none does |
| StringLib.MemSet | kernel/string.c:72-77 | fills the region with the value truncated to a byte and touches nothing else |
| StringLib.MemCpy | kernel/string.c:80-86 | the destination region equals the source region and nothing else changes |
| StringLib.MemMove | kernel/string.c:89-103 | the destination region receives the old contents of the source region even when they overlap, and nothing else changes |
| StringLib.MemCmp | kernel/string.c:106-117 | returns the byte-wise comparison, which is zero if and only if the regions are equal |
| StringLib.MemChr | kernel/string.c:120-128 | finds the first byte equal to the value truncated to a byte, or reports that none of the n bytes is |
| StringLib.BZero | kernel/string.c:131-133 | zeroes the region and touches nothing else |
| StringLib.Atoi | kernel/string.c:136-159 | returns `atoi`'s value of the string: spaces skipped, optional sign, leading decimal digits |
| StringLib.SkipAtoiSpaces | kernel/string.c:141-142 | stops at the first byte that is not a skipped white-space character |
| StringLib.ReadDecimal | kernel/string.c:153-156 | stops at the first non-digit and returns the digits' decimal value |
| StringLib.ReverseRange | kernel/string.c:192-196 | the range holds its old contents reversed and nothing else changes |
| StringLib.WriteDigits | kernel/string.c:182-196 | writes the value's digits, most significant first, and a NUL |
| StringLib.WriteDigitsReversed | kernel/string.c:182-186 | the digit loop writes the digits least significant first |
| StringLib.Itoa | kernel/string.c:162-199 | writes `ItoaString` and a NUL, or only a NUL for a base outside 2..36, and touches nothing else |
| StringLib.Utoa | kernel/string.c:202-232 | writes `UtoaString` and a NUL and touches nothing else |
| StringLib.SwapHalves | kernel/string.c:273-277 | the `len / 2` swaps leave the string's bytes in reverse order and change nothing else |
| StringLib.StrRev | kernel/string.c:268-278 | the buffer becomes `strrev`'s result; a null pointer changes nothing |
| StringLib.IntToString | kernel/string.c:281-283 | the buffer begins with `itoa`'s text and a NUL, and every byte after them is unchanged |
| StringLib.UintToString | kernel/string.c:285-287 | the buffer begins with `utoa`'s text and a NUL, and every byte after them is unchanged |
| StringLib.HexToString | kernel/string.c:289-298 | writes "0x", the eight digits and a NUL, and nothing else |
| Terminal.Put | kernel/kernel.c:87-121 | one character keeps the cursor on the screen and keeps the colour |
| Terminal.PutEffect | kernel/kernel.c:87-121 | control characters change only the cursor: newline goes to column 0 of the next row, wrapping, carriage return to column 0, and tab to the next multiple of 8 or, from column 72 on, to column 0 of the next row; any other byte (NUL, other control bytes and bytes from 0x80 included) is stored at the cursor and advances it by one cell, wrapping |
| Terminal.WriteAll | kernel/kernel.c:123-126 | writing a string keeps the cursor on the screen and keeps the colour |
| Terminal.WriteAllAppend | kernel/kernel.c:123-126 | writing x + y is writing x and then y |
| Terminal.WritePrintablePosition | kernel/kernel.c:112-126 | text free of newline, carriage return and tab advances the cursor by its length modulo the 2000 cells |
| Terminal.PutAdvances | kernel/kernel.c:112-120 | any byte other than newline, carriage return and tab advances the cursor by one cell modulo the screen |
| Terminal.WritePrintable | kernel/kernel.c:112-126 | text free of newline, carriage return and tab, of at most a screenful, lands in consecutive cells from the cursor, wrapping, in the current colour |
| Terminal.TabMask | kernel/kernel.c:102 | `(col + 8) & ~7` is col + 8 rounded down to a multiple of 8 |
| Terminal.TabStop | kernel/kernel.c:102 | the same, as an integer |
| Terminal.Cleared | kernel/kernel.c:70-81 | after initialisation the cursor is at the origin, the colour is light grey on black, and every cell is a space in that colour |
| Terminal.Console.constructor | kernel/kernel.c:14-17 | the console starts at row 0, column 0 with colour 0 on the given buffer |
| Terminal.Console.Initialize | kernel/kernel.c:70-81 | the console becomes the cleared screen |
| Terminal.Console.SetColor | kernel/kernel.c:83-85 | only the colour changes |
| Terminal.Console.AdvanceRow | kernel/kernel.c:90-92 | the row moves to the next one and wraps from the last row to 0; the column and colour are unchanged (the same step ends lines at kernel.c:105-107 and 117-119) |
| Terminal.Console.PutChar | kernel/kernel.c:87-121 | the new screen is `Put` of the old screen and the character |
| Terminal.Console.Write | kernel/kernel.c:123-126 | the new screen is `WriteAll` of the old screen and the first `size` bytes |
| Terminal.UintToHexString | kernel/kernel.c:37-46 | writes "0x", eight upper-case digits and a NUL, and nothing past the 11 bytes |
| Terminal.DecimalWidth | kernel/kernel.c:55-61 | a 32-bit value has at most 10 decimal digits, so the temporary buffer suffices |
| Terminal.DecimalDigitsReversed | kernel/kernel.c:58-61 | the digit loop writes the decimal digits least significant first |
| Terminal.CopyReversed | kernel/kernel.c:63-65 | the copy-back loop puts those bytes in reverse order at the front of the buffer |
| Terminal.UintToDecString | kernel/kernel.c:48-67 | the buffer begins with the decimal digits and a NUL ("0" for zero) and the rest is unchanged |
| Terminal.DecimalRoundTrip | kernel/kernel.c:48-67 | the decimal text reads back as the value, and only zero starts with '0' |
| Fat12Format.DefaultLayout | create_fat12.py:13-30 | a 1.44 MB image has 2880 sectors: FAT at sector 1, root directory at 19 over 14 sectors, data at 33, and 3072 FAT entries in 4608 bytes |
| Fat12Format.LE16RoundTrip | create_fat12.py:57-77 | a 16-bit little-endian field reads back as the value |
| Fat12Format.LE32RoundTrip | create_fat12.py:57-77 | a 32-bit little-endian field reads back as the value |
| Fat12Format.Ascii | create_fat12.py:162-175 | ASCII encoding keeps each character's code |
| Fat12Format.Fixed | create_fat12.py:162-175 | a fixed-size field is truncated or NUL-padded to its size |
| Fat12Format.CreateBootSector | create_fat12.py:46-85 | boot code over 512 bytes is rejected; otherwise the 512-byte sector holds the code, the BPB at bytes 3..62 and the signature 55 AA |
| Fat12Format.BootSectorFields | create_fat12.py:56-77 | every BPB field reads back at its offset: the OEM name, the geometry and count constants, zero hidden sectors, drive number and reserved byte, the extended signature, the serial number, the volume label and the file-system type; the total sector count goes to the 16- or the 32-bit field by size |
| Fat12Format.Upper | create_fat12.py:137-150 | upper-casing maps each character |
| Fat12Format.Fit | create_fat12.py:137-150 | `ljust(n)[:n]`: truncated or space-padded to n characters |
| Fat12Format.FirstDot | create_fat12.py:139-143 | the first '.' of the name, or none |
| Fat12Format.ConvertTo83 | create_fat12.py:137-150 | the 8.3 name has 11 characters and no lower-case letter |
| Fat12Format.ConvertTo83Parts | create_fat12.py:137-150 | a name without a dot becomes 8 characters and 3 spaces; otherwise the name before the first dot fills 8 characters and the text after it fills 3 |
| Fat12Format.DosDate | create_fat12.py:157 | the packed date fits 16 bits exactly for the years 1980..2107 |
| Fat12Format.DosTime | create_fat12.py:160 | the packed time fits 16 bits |
| Fat12Format.DateRoundTrip | create_fat12.py:157 | year, month and day unpack from the packed date |
| Fat12Format.TimeRoundTrip | create_fat12.py:160 | hour, minute and the even second unpack from the packed time |
| Fat12Format.CreateDirEntry | create_fat12.py:152-175 | a non-ASCII name is rejected, and the entry is 32 bytes exactly when the name is ASCII and the date, cluster and size fit their fields |
| Fat12Format.DirEntryFields | create_fat12.py:152-175 | each field of the entry reads back: the name, the archive attribute, the creation, access and modification stamps, a zero high cluster, the first cluster and the size |
| Fat12Format.EntryHead | create_fat12.py:162-175 | the name, attribute and creation and access stamps sit at their offsets |
| Fat12Format.EntryTail | create_fat12.py:162-175 | the high cluster, modification stamp, first cluster and size sit at their offsets |
| Fat12Format.ClustersNeeded | create_fat12.py:93-96 | the fewest clusters, and at least one, that hold the file |
| Fat12Format.ChainFat | create_fat12.py:98-111 | the allocated clusters link each to the next and the last holds the end-of-chain mark; other entries are unchanged |
| Fat12Format.ClusterChain | create_fat12.py:118-135 | following the chain visits only entries of the table |
| Fat12Format.ChainWalk | create_fat12.py:98-135 | following a freshly allocated chain visits the allocated clusters in order |
| Fat12Format.ChainWalkFrom | create_fat12.py:118-135 | the same, from any cluster in the chain |
| Fat12Format.FileInChainOrder | create_fat12.py:93-135 | the chain has one cluster per 512 bytes of data, the clusters lie at consecutive image offsets, and every cluster after the first holds some of the data |
| Fat12Format.PackFat | create_fat12.py:182-193 | one copy of the FAT is 4608 bytes |
| Fat12Format.FatEntry | create_fat12.py:182-193 | an unpacked entry is a 12-bit value |
| Fat12Format.FatRoundTrip | create_fat12.py:182-193 | every entry unpacks from the packed table as its low 12 bits |
| Fat12Format.EvenEntry | create_fat12.py:185-192 | even entries sit in the low 12 bits of their byte triple |
| Fat12Format.OddEntry | create_fat12.py:186-193 | odd entries sit in the high 12 bits of their byte triple |
| Fat12Format.RootArea | create_fat12.py:201-214 | the root directory area is 224 entries of 32 bytes |
| Fat12Format.RootAreaLayout | create_fat12.py:201-214 | entry i fills bytes 32i..32i+31, the rest is zero, and entries beyond 224 are dropped |
| Fat12Builder.Builder.constructor | create_fat12.py:13-44 | a zeroed image, free clusters from 2, no directory entries |
| Fat12Format.SliceAssign | create_fat12.py:128 | Python's slice assignment on the image: inside the image the chunk replaces the bytes at its offset and nothing else; from the end on it is appended at the end |
| Fat12Format.DataPastImageEndAsWritten | create_fat12.py:36-128 | as written, on the default image the FAT hands out cluster 2850, which lies past the image's end, and after a one-byte file in cluster 2849 the next file's data lands one byte past the old end instead of at cluster 2850's offset |
| Fat12Builder.Builder.AddFile | create_fat12.py:87-135 | data that would run past the end of the image is refused with nothing changed (corrected; see Findings); otherwise the FAT gains the file's chain; a full FAT fails with the image and directory unchanged; otherwise the next free cluster advances, the entry is appended or its error returned, and the data is written from the first cluster on |
| Fat12Builder.Builder.AllocateChain | create_fat12.py:98-111 | the allocation loop writes the chain and succeeds exactly when it fits the table |
| Fat12Builder.Builder.WriteChain | create_fat12.py:118-135 | the data loop writes the data at the first cluster's offset and nothing else |
| Fat12Builder.Builder.PackTable | create_fat12.py:182-193 | the packing loop produces `PackFat` of the table |
| Fat12Builder.Builder.WriteFat | create_fat12.py:177-199 | both FAT copies in the image hold the packed table and nothing else changes |
| Fat12Builder.Builder.WriteRootDirectory | create_fat12.py:201-214 | the root directory area holds the entries and nothing else changes |

## Left out

- `StringLib.Atoi`: the C `int` accumulator's overflow is not modelled; the result is the mathematical value of the digits, which is what the source computes when it fits an `int`.
- `StringLib.StrNCpy`: the corrected copy loop counts up and stops before the NUL, which the padding loop then writes. It does not keep the source's `n--` counter, because that counter wraps and overruns the buffer (see Findings). What the source's two loops store, counted, is modelled by `StringLib.StrNCpyStoresAsWritten`.
- `StringLib.Itoa`: `ItoaDefined` excludes `INT_MIN`, because negating it in C is undefined behaviour. It also excludes negative values in any supported base other than 10: only base 10 negates the value, and C's truncating `/` then makes `tmp_value - value * base` negative, which indexes before the digit table (kernel/string.c:185).
- `StringLib.IntToString`: `ItoaDefined` excludes the same inputs as for `StringLib.Itoa`: `INT_MIN`, and negative values in any base other than 10, which index before the digit table (kernel/string.c:185).
- `StringLib.StrCpy`, `StringLib.StrNCpy`, `StringLib.StrCat` and `StringLib.MemCpy` take the source and destination in distinct arrays. Overlapping regions are undefined for these routines, so aliasing within one buffer is not modelled.
- `StringLib.MemMove`: both regions are offsets in one array, so the source's pointer comparison `dest < src` becomes a comparison of offsets.
- `StringLib.StrNCmp` requires `n < 2^32`, the range of its `size_t` argument.
- Bit macros (`SET_BIT`, `CLEAR_BIT`, `TOGGLE_BIT`) update a variable in C; the model gives them as functions returning the new value.
- `Terminal.Console.Write`: `data` is a read-only sequence, so a buffer that aliases the VGA memory is not modelled.
- The console cursor is a `nat` bounded by the screen rather than a `size_t`; it never leaves the screen, so no wrap-around is lost.
- The VGA memory at physical address `0xB8000` is the console's `buffer` array, given to the constructor.
- `kernel_main`, `kprintf`, `terminal_writestring` and the GDT, IDT, memory and interrupt set-up in `kernel/kernel.c` are not part of this model; neither is `kernel/include/multiboot.h`.
- `create_fat12.py`'s `build()` and `main()` read and write files; the file I/O is left out, and the builder works on byte sequences given to it.
- `datetime.now()` becomes an explicit `Stamp` parameter of `AddFile` and `CreateDirEntry`.
- `Fat12Format.ConvertTo83`: the model upper-cases only 'a'..'z', while Python's `str.upper()` also maps non-ASCII characters, some of them to ASCII. Python encodes the name only after upper-casing it (create_fat12.py:140,165). So "straße.txt" becomes the pure-ASCII "STRASSE.TXT" there and the file is added. The model keeps 'ß', and `CreateDirEntry` returns `NotAscii`. Every name that is ASCII before upper-casing is treated the same as in the source.
- `Fat12Builder.Builder.AddFile` returns `ImageFull` and changes nothing when the file's data would run past the end of the image. The source raises no error there. Python clips an out-of-range slice, so a chunk whose cluster offset lies beyond the current end is appended at that end, not at the cluster's offset, and the image grows. On the default image this is reachable: the 3072-entry FAT hands out clusters up to 3071, but the 2880-sector image holds only clusters 2..2848. The source's behaviour is modelled by `Fat12Format.SliceAssign` and `Fat12Format.DataPastImageEndAsWritten` (see Findings), not by `AddFile`.
- `Fat12Builder.Builder.constructor` requires an image large enough for the boot sector, both FATs and the root directory, which the default 1.44 MB image is.
- The Python FAT holds arbitrary integers; `& 0xFFF` when packing is modelled as `% 4096` on `nat` entries.

## Findings

| source | as written | input that shows it | evidently intended | confidence | as-written member | corrected member |
|---|---|---|---|---|---|---|
| kernel/string.c:27-29 | `while (n-- && (*dest++ = *src++));` leaves the `size_t` counter at `SIZE_MAX` when the loop stops on the count, so `while (n-- > 0) *dest++ = '\0';` then stores `SIZE_MAX` further NULs past the n-byte buffer | `strncpy(dest, "ab", 1)`: the count runs out before the NUL, so n wraps and about 2^32 bytes are written | store exactly n bytes: the string, then NUL padding up to n (ISO C `strncpy`) | not executed | StringLib.StrNCpyAsWrittenOverrun | StringLib.StrNCpy |
| create_fat12.py:36-128 | the FAT has 3072 entries while the default image holds only clusters 2..2848, and `self.image[sector_offset:sector_offset + chunk_size] = …` clips an offset past the image's end, so such data is appended at the current end without an error | on the default image, after files that fill clusters 2..2848, add a one-byte file (cluster 2849, appended at the end) and then any file: its directory entry names cluster 2850, 512 bytes past the old end, but its data starts one byte past it | refuse a file whose data does not fit the image, leaving the image, FAT and directory as they were | not executed | Fat12Format.DataPastImageEndAsWritten | Fat12Builder.Builder.AddFile |
