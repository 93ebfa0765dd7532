# A verified model of the iDSK catalogue reader

iDSK reads Amstrad CPC disk images in the DSK container format and lists
their catalogue. This project models its reader core in Dafny:

- `DSK` holds a 0x80000-byte image. It locates sectors through the first
  track's descriptor table, reads the 64 CP/M directory slots and the
  1024-byte allocation blocks, counts the blocks in use, and renders the
  catalogue in two ways: a box-drawn table (`ReadDskDir`) and printf
  columns (`ReadDskDirSimple`).
- The packed structures of `catalog/types.h` are given as offset constants
  and decoders.
- Detection of an AMSDOS executable header works by checksum, with its
  byte-order swap.
- The test `ViewBasic` uses to tell tokenised BASIC from an ASCII listing.

Modules, one per file:

| file | module | what it holds |
|---|---|---|
| layout.dfy | `Layout` | bytes, packed offsets, little-endian words, the directory-entry codec |
| amsdos.dfy | `Amsdos` | the header checksum, `CheckAmsdos`, `StAmsdosEndian` |
| geometry.dfy | `Geometry` | the specification of every image read: sector positions (`PosData`), slots (`Directory`), blocks (`Block`), and what they are on a standard 9 x 512 image |
| free_space.dfy | `FreeSpace` | the set of used blocks and the free space |
| text.dfy | `Text` | `%d`, `%04X`, `GetTaille`, `formatCell`, printf padding, each with a parser that reads the text back |
| catalogue.dfy | `Catalogue` | names, extent chains, rows, and the two listings as functions of the image |
| dsk.dfy | `Disk` | the class `Dsk` and the loops of the source, each proved to compute the function above it |
| view_file.dfy | `ViewFile` | the tokenised-or-ASCII decision |

Each loop of the source is a method, in `Amsdos`, `Disk` or `Disk.Dsk`:
the checksum loop (`Amsdos.CheckAmsdos`), the nested sector walk, the
bitmap and its counter (`Disk.Dsk.FillBitmap` over `Disk.MarkEntry` and
`Disk.MarkBlocks`), the slot copy into `TabDir`, the extent-chain loop
(`Disk.ChainTotal`) and the string appends. Each is proved equal to a
specification function, some given in closed form and some, such as
`FreeSpace.UsedSet`, `Catalogue.UserPages` and `Catalogue.Body`, by
recursion. The properties are then proved about those functions:

- the iff of `CheckAmsdos`;
- the involution of the byte swap;
- the closed form of the sector walk;
- the structure of a block;
- the used-block count as the size of a set;
- round trips of every text conversion;
- the cell widths;
- the listing of an image whose body is blank.

Three behaviours of the code are easy to get wrong, and the model keeps
each as the code has it:

- **Blank body.** When every byte after the 0x100-byte header is zero, all
  64 slots are listed as `????????.???` of `0 K`. Every slot then reads as
  user 0, extent 0, which is neither deleted nor a continuation
  (`Catalogue.BlankListing`). The free space is 178 K.
- **Extent chains.** A chain goes on while the extent number is non-zero,
  whatever the owner. It sums only the pages of slots with the first slot's
  owner (`Catalogue.ChainEndFromExtentsOnly`, `Catalogue.TwoExtentChain`).
- **Header offsets.** The packed `StAmsdos` declaration puts `Adress` at
  0x13, `EntryAdress` at 0x18 and `Checksum` at 0x44
  (`Layout.AmsChecksumOff`). `CheckAmsdos` reads the stored checksum at
  0x43/0x44, one byte earlier. So `StAmsdosEndian` swaps bytes 0x44/0x45,
  not the checksum that `CheckAmsdos` tests. The published AMSDOS header
  keeps the load address at 0x15 and the entry address at 0x1A, but the
  Load and Exec columns show the words at 0x13 and 0x18, as the code does.

## Model

| member | source | states |
|---|---|---|
| `Layout.PackedLayouts` | catalog/types.h:17-76 | every named offset is the packed offset of its field in the declared field lists: disk header 0x100 bytes with NbTracks@0x30, NbHeads@0x31 and DataSize@0x32; sector descriptor 8 bytes with R@2, N@3 and SizeByte@6; track descriptor 0x100 bytes with NbSect@0x15 and the table @0x18; entry 32 bytes; StAmsdos 129 bytes with Adress@0x13, Length@0x16, EntryAdress@0x18, the tape words @0x3E/0x40 and Checksum@0x44 |
| `Layout.Word16` | catalog/dsk.cpp:54 | a WORD is below 0x10000, its low byte is the first byte and its high byte the second |
| `Layout.Int16` | catalog/types.h:32 | the signed `short SizeByte` lies in [-0x8000, 0x8000) and agrees with the unsigned word modulo 0x10000 |
| `Layout.EncodeDirEntry` | catalog/types.h:49-57 | 32 bytes: User@0, Nom@1..8, Ext@9..11, NumPage@12, Unused@13..14, NbPages@15, Blocks@16..31 |
| `Layout.DecodeDirEntry` | catalog/types.h:49-57 | decoding 32 bytes loses nothing: re-encoding the entry gives the same bytes |
| `Layout.DecodeEncodeDirEntry` | catalog/types.h:49-57 | encoding then decoding gives the entry back |
| `Amsdos.SumUpdate` | catalog/dsk.cpp:57-58 | changing one byte moves the sum by exactly the difference |
| `Amsdos.SumBound` | catalog/dsk.cpp:57-60 | a sum of n bytes is at most 255 n, so 67 bytes sum to less than 0x10000 |
| `Amsdos.CheckAmsdosIff` | catalog/dsk.cpp:47-60 | the `unsigned short` cast is lossless: a header is present iff the stored word equals the sum of bytes 0..66 and that sum is non-zero |
| `Amsdos.HeaderValid` | catalog/dsk.cpp:54-60 | the test as written, with the sum cast to `unsigned short`; a header that passes never stores checksum 0 |
| `Amsdos.CheckAmsdos` | catalog/dsk.cpp:47-61 | the result is true iff the buffer is non-null and passes the checksum test |
| `Amsdos.SealedHeaderValid` | catalog/dsk.cpp:54-60 | 67 bytes with a non-zero sum, followed by that sum little-endian, always pass, and the stored checksum is that sum |
| `Amsdos.CorruptStoredChecksumRejected` | catalog/dsk.cpp:54-60 | changing either stored checksum byte of a valid header makes it absent |
| `Amsdos.CorruptBodyRejected` | catalog/dsk.cpp:54-60 | changing any one of the 67 summed bytes of a valid header makes it absent |
| `Amsdos.Swap16` | catalog/dsk.cpp:26 | the swapped value fits a WORD |
| `Amsdos.Swap16Exchanges` | catalog/dsk.cpp:25-26 | `(w >> 8) \| (w << 8)` kept to 16 bits exchanges the word's two bytes |
| `Amsdos.EndianSwapped` | catalog/dsk.cpp:21-44 | bytes outside the six WORD fields are unchanged, and each WORD field holds its swapped value |
| `Amsdos.EndianSwapInvolution` | catalog/dsk.cpp:21-44 | swapping twice restores all 129 bytes |
| `Amsdos.SwapWord` | catalog/dsk.cpp:25-26 | in place, the two bytes of one WORD are exchanged and nothing else changes |
| `Amsdos.StAmsdosEndian` | catalog/dsk.cpp:21-44 | the copy with its six WORD fields swapped is the swapped header |
| `Geometry.MinSect` | catalog/dsk.cpp:70-73 | the minimum sector id is byte 0x11A, the R of the first descriptor of the first track |
| `Geometry.SectorBytes` | catalog/dsk.cpp:89-93 | a sector's length is never 0: the signed SizeByte when that is non-zero, else a positive multiple of 128 (`128 << N`) |
| `Geometry.FirstMatchFrom` | catalog/dsk.cpp:83-88 | the walk stops at the first ordinal whose sector id (or ordinal) matches the key; no earlier ordinal matches; NbSect if none does |
| `Geometry.FirstMatchOrdinal` | catalog/dsk.cpp:85-87 | by ordinal the walk stops at the key itself, or at NbSect when the key is not below it |
| `Geometry.PosData` | catalog/dsk.cpp:76-97 | a negative track gives 0x100; track t gives the position of the matching sector on track 0 plus t whole tracks, each a 0x100-byte header and the track's sector bytes |
| `Geometry.DirEntryAt` | catalog/dsk.cpp:100-110 | slot n is the 32 bytes at `(n & 15) * 32` into sector `(n >> 4) + MinSect` of track 2, 1 or 0 as MinSect is 0x41, 0x01 or other |
| `Geometry.Directory` | catalog/dsk.cpp:242-244 | 64 entries, entry n being slot n |
| `Geometry.FirstSectorOf` | catalog/dsk.cpp:121-128 | block b starts at ordinal `(2b) % 9` of track `(2b) / 9` plus the reserved tracks |
| `Geometry.NextSector` | catalog/dsk.cpp:137-140 | the second half is the next ordinal, rolling over to ordinal 0 of the next track after ordinal 8 |
| `Geometry.SectorHalf` | catalog/dsk.cpp:130-135 | each half is 512 bytes |
| `Geometry.Block` | catalog/dsk.cpp:113-119 | a block is 1024 bytes, and all zeros outside 0..255 |
| `Geometry.BlockHalves` | catalog/dsk.cpp:121-147 | an in-range block is its first sector then the next one, each read at sector id `ordinal + MinSect` or zeros when it leaves the image |
| `Geometry.StandardSizesBefore` | catalog/dsk.cpp:89-93 | on a standard track the sectors before ordinal k take 512k bytes |
| `Geometry.StandardFirstMatch` | catalog/dsk.cpp:83-88 | on a standard track sector id MinSect + k is found at ordinal k |
| `Geometry.StandardPosData` | catalog/dsk.cpp:76-97 | on a standard image sector MinSect + k of track t starts at 0x200 + 0x1300 t + 512 k |
| `Geometry.StandardHalf` | catalog/dsk.cpp:130-135 | on a standard image ordinal s of track t is logical sector 9t + s |
| `Geometry.StandardBlockFirstHalf` | catalog/dsk.cpp:121-135 | on a standard image the first half of block b is logical sector 2b after the reserved tracks |
| `Geometry.StandardBlockSecondHalf` | catalog/dsk.cpp:137-147 | on a standard image the second half of block b is logical sector 2b + 1 after the reserved tracks |
| `Geometry.StandardBlock` | catalog/dsk.cpp:113-150 | on a standard image block b is logical sectors 2b and 2b + 1 after the reserved tracks |
| `Geometry.StandardDirSlot` | catalog/dsk.cpp:100-110 | on a standard image slot n lies at entry n % 16 of the (n / 16)-th sector after the reserved tracks, inside the image |
| `Geometry.StandardDirReadable` | catalog/dsk.cpp:108 | every standard image has all 64 slots inside the image |
| `FreeSpace.CeilEighth` | catalog/dsk.cpp:161 | `(t + 7) >> 3` is the least r with 8r >= t |
| `FreeSpace.UsedSet` | catalog/dsk.cpp:153-173 | every block a live slot references is in the set |
| `FreeSpace.UsedSetMembers` | catalog/dsk.cpp:153-173 | a block is used iff some non-deleted slot lists it among its first `(NbPages + 7) >> 3` block bytes |
| `FreeSpace.DeletedSlotIgnored` | catalog/dsk.cpp:160 | whatever a deleted slot holds, it changes nothing in the used set |
| `FreeSpace.UsedSetBound` | catalog/dsk.cpp:154-168 | every used index is below 256, so at most 256 blocks are counted |
| `FreeSpace.FreeKB` | catalog/dsk.cpp:176-179 | free space plus the number of distinct used blocks is 178, with no clamping, so the free space lies in [-78, 178] |
| `Text.Decimal` | catalog/dsk.cpp:210 | at least one decimal digit and no leading zero |
| `Text.DecimalRoundTrip` | catalog/dsk.cpp:210 | the digits parse back to the number |
| `Text.DecimalLength` | catalog/dsk.cpp:209-210 | a number below 10^k takes at most k digits |
| `Text.IntToString` | catalog/dsk.cpp:290 | the text starts with '-' iff the number is negative |
| `Text.IntToStringRoundTrip` | catalog/dsk.cpp:290 | `to_string` parses back to the number |
| `Text.Hex4` | catalog/dsk.cpp:279-280 | exactly four upper-case hexadecimal digits |
| `Text.Hex4RoundTrip` | catalog/dsk.cpp:279-280 | the four digits parse back to the word |
| `Text.AddressText` | catalog/dsk.cpp:279-280 | `&` then four hexadecimal digits, five characters in all |
| `Text.AddressTextRoundTrip` | catalog/dsk.cpp:279-282 | the digits after `&` parse back to the header word |
| `Text.SizeText` | catalog/dsk.cpp:208-212 | `GetTaille` ends in " K" |
| `Text.SizeTextRoundTrip` | catalog/dsk.cpp:208-212 | dropping " K" and parsing gives the number back |
| `Text.Clip` | catalog/dsk.cpp:220-223 | content longer than the width is cut to its first `width` characters, shorter content is kept |
| `Text.LeftPad` | catalog/dsk.cpp:225-233 | the spaces before the content and the content fit the width |
| `Text.FormatCell` | catalog/dsk.cpp:219-236 | exactly `width` characters: the clipped content at its alignment offset and spaces everywhere else |
| `Text.CentredBalance` | catalog/dsk.cpp:226-229 | centring puts `padding / 2` spaces on the left and at most one more on the right |
| `Text.OtherAlignIsLeft` | catalog/dsk.cpp:230-234 | any alignment other than 'c' and 'r' pads on the right |
| `Text.FormatCellTruncates` | catalog/dsk.cpp:221-223 | content at least as wide as the cell is cut to the cell, whatever the alignment |
| `Text.PadRight` | catalog/dsk.cpp:353 | `%-Ns`: the text, then spaces up to N characters, never cut |
| `Text.PadLeft` | catalog/dsk.cpp:353 | `%Ns`: spaces up to N characters, then the text, never cut |
| `Catalogue.ShownChar` | catalog/dsk.cpp:255-257 | a shown name character is always in 0x20..0x7E |
| `Catalogue.RawName` | catalog/dsk.cpp:249-252 | `Nom` holds 12 bytes: the name, a dot and the extension |
| `Catalogue.DisplayName` | catalog/dsk.cpp:248-258 | 12 printable characters, '.' at index 8, each other one the shown form of its name or extension byte |
| `Catalogue.DisplayNameChars` | catalog/dsk.cpp:254-258 | a byte keeps its low 7 bits when they are printable and becomes '?' otherwise |
| `Catalogue.ChainEndFrom` | catalog/dsk.cpp:261-265 | the chain ends at the first later slot with extent number 0, or at 64; every slot in between has a non-zero extent number |
| `Catalogue.ChainEnd` | catalog/dsk.cpp:261-265 | a chain holds its first slot and ends at most at slot 64 |
| `Catalogue.UserPagesBound` | catalog/dsk.cpp:262-263 | the pages summed over a range of slots are at most 255 per slot |
| `Catalogue.SizeKBBound` | catalog/dsk.cpp:260-267 | the size shown never exceeds 2040 K |
| `Catalogue.ChainEndFromExtentsOnly` | catalog/dsk.cpp:265 | where a chain ends depends only on the extent numbers |
| `Catalogue.BlockAddresses` | catalog/dsk.cpp:273-283 | each column is "-" exactly when the block fails the checksum test; otherwise each is `&` and four more characters |
| `Catalogue.HeaderAddresses` | catalog/dsk.cpp:269-283 | the two columns are "-" together or neither is; a first block index of 0 is never read and gives "-" |
| `Catalogue.TwoExtentChain` | catalog/dsk.cpp:260-267 | a 128-record first extent and a 10-record second extent show 18 K for one owner and 16 K when the second extent has another owner |
| `Catalogue.HeaderAddressesMeaning` | catalog/dsk.cpp:269-283 | both columns are "-" together exactly when the first block index is 0 or that block has no header; otherwise each is `&` and four hexadecimal digits reading back as the word at 0x13 or 0x18 |
| `Catalogue.ListedUpTo` | catalog/dsk.cpp:246-247 | the listed slots, increasing, are exactly those neither deleted nor continuation extents |
| `Catalogue.ListedSlotsIff` | catalog/dsk.cpp:247 | a slot gets a row iff it is not deleted and holds extent 0 |
| `Catalogue.RowFor` | catalog/dsk.cpp:248-290 | the row of slot i: a 12-character name with '.' at index 8, a size ending in " K", the slot's user, and `HeaderAddresses` of the slot as Load and Exec |
| `Catalogue.RowsOf` | catalog/dsk.cpp:246-293 | one row per listed slot |
| `Catalogue.RowsOfSnoc` | catalog/dsk.cpp:246-293 | a further slot adds its row at the end |
| `Catalogue.Rows` | catalog/dsk.cpp:246-293 | as many rows as listed slots |
| `Catalogue.TableRowText` | catalog/dsk.cpp:286-292 | for any row, a table line is 57 characters, as wide as the borders, opening with '│' and closing with a newline |
| `Catalogue.TableRowLayout` | catalog/dsk.cpp:286-292 | every table line is 57 characters, like the borders, and holds the name unchanged at columns 2..13 |
| `Catalogue.FreeLine` | catalog/dsk.cpp:297 | the free-space line is 57 characters, between '│' borders, closed by a newline |
| `Catalogue.BoxedBodyLength` | catalog/dsk.cpp:292 | n table rows take 57 n characters |
| `Catalogue.TableText` | catalog/dsk.cpp:215-301 | the table is 57 (6 + L) characters for L listed slots: six frame lines and one line per listed slot |
| `Catalogue.SimpleRowText` | catalog/dsk.cpp:352-355 | a simple line ends with a newline; when every cell fits its width the columns are fixed: " User " at 38..43 and 45 + the user's digits characters in all |
| `Catalogue.SimpleRowFits` | catalog/dsk.cpp:352-355 | a simple-listing line never needs more than 99 characters, so the 100-byte buffer never cuts it |
| `Catalogue.FreeTail` | catalog/dsk.cpp:359 | after the rows, `"\n" + to_string(free) + "K free\n"` reads back as the free space |
| `Catalogue.SimpleText` | catalog/dsk.cpp:304-361 | the rows' lines, a newline, then a last line whose number parses back to the free space, followed by "K free" |
| `Catalogue.BodySnoc` | catalog/dsk.cpp:292 | a further row appends its line |
| `Catalogue.BodyStep` | catalog/dsk.cpp:246-294 | visiting slot i appends its row's line when it is listed and nothing otherwise |
| `Catalogue.BlankDirectory` | catalog/dsk.cpp:100-110 | with a blank body every slot is readable and holds user 0, extent 0, zero pages and zero blocks |
| `Catalogue.AllListedUpTo` | catalog/dsk.cpp:246-247 | when every slot is listed, the listed slots are 0, 1, ... in order |
| `Catalogue.BlankFree` | catalog/dsk.cpp:153-179 | with a blank body no block is used and 178 K are free |
| `Catalogue.BlankSlotRow` | catalog/dsk.cpp:248-290 | each blank slot shows as `????????.???`, `0 K`, "-", "-", user 0 |
| `Catalogue.BlankListing` | catalog/dsk.cpp:215-301 | a blank body gives 64 such rows in slot order and 178 K free |
| `Disk.StrNEqual` | catalog/dsk.cpp:203-204 | `strncmp(a, b, n) == 0`: equal first n bytes always compare equal, and a match has equal first bytes |
| `Disk.StrNEqualNoNul` | catalog/dsk.cpp:203-204 | against a NUL-free 8-byte signature, `strncmp(..., 8) == 0` is equality of the first 8 bytes |
| `Disk.Loaded` | catalog/dsk.cpp:194 | after the read the image holds the file's bytes first and its old bytes after them |
| `Disk.LoadedIntoBlank` | catalog/dsk.cpp:63-65 | a file read into a newly constructed image is followed by zeros |
| `Disk.BlockOfHalves` | catalog/dsk.cpp:130-147 | a buffer whose halves are the first sector of a block and the next one is that block |
| `Disk.MarkBlocks` | catalog/dsk.cpp:161-168 | after a live entry, the bitmap flags exactly the old marked set plus the entry's blocks, and the count grows by the number of new ones |
| `Disk.MarkEntry` | catalog/dsk.cpp:159-169 | after slot i, the flags and the count are those of the used set of slots 0..i |
| `Disk.ShowName` | catalog/dsk.cpp:248-258 | the name loop produces the display name |
| `Disk.ChainTotal` | catalog/dsk.cpp:260-265 | the chain loop sums the pages of the chain slots with slot i's owner |
| `Disk.FirstSector` | catalog/dsk.cpp:121-128 | the shifts and the reservation produce the track and ordinal of the block's first sector |
| `Disk.ReadWord` | catalog/dsk.cpp:279-280 | the header word read from the buffer is its little-endian word |
| `Disk.AddressColumns` | catalog/dsk.cpp:273-283 | the columns are the two address texts when `CheckAmsdos` accepts the block and "-" otherwise |
| `Disk.Dsk.constructor` | catalog/dsk.cpp:63-65 | the new image is all zeros |
| `Disk.Dsk.ReadDsk` | catalog/dsk.cpp:182-199 | a file larger than 0x80000 bytes is refused and leaves the image unchanged; otherwise the image becomes `Loaded(old image, file)` |
| `Disk.Dsk.CheckDsk` | catalog/dsk.cpp:202-205 | true iff the image starts with "MV - CPC" or "EXTENDED" |
| `Disk.Dsk.GetMinSect` | catalog/dsk.cpp:70-73 | returns the minimum sector id |
| `Disk.Dsk.SectorLength` | catalog/dsk.cpp:89-93 | a sector takes SizeByte bytes when that is non-zero and `128 << N` otherwise |
| `Disk.Dsk.WalkTrack` | catalog/dsk.cpp:82-94 | one track adds its header, then all its sector sizes, or on the target track only those before the first match |
| `Disk.Dsk.GetPosData` | catalog/dsk.cpp:76-97 | the nested walk equals `0x100 + (T + 1) 0x100 + T S + P`, where S is the sum of track 0's sector sizes and P the sizes before the first match (S if none); a negative track gives 0x100 |
| `Disk.Dsk.GetInfoDirEntry` | catalog/dsk.cpp:100-110 | returns slot n of the directory |
| `Disk.Dsk.CopySector` | catalog/dsk.cpp:131-135 | the 512 image bytes at pos, or zeros when they would leave the image, are copied and nothing else in the buffer changes |
| `Disk.Dsk.ReadHalf` | catalog/dsk.cpp:130-135 | one half of the buffer gets its sector, read by sector id `ordinal + MinSect` |
| `Disk.Dsk.ReadBloc` | catalog/dsk.cpp:113-150 | the buffer is block b: zeros outside 0..255, else the two sectors |
| `Disk.Dsk.FillBitmap` | catalog/dsk.cpp:153-173 | the count is the number of distinct blocks the live slots reference |
| `Disk.Dsk.GetFreeSpace` | catalog/dsk.cpp:176-179 | returns 178 minus that count |
| `Disk.Dsk.ReadDirectory` | catalog/dsk.cpp:242-244 | `TabDir` holds the 64 slots in order |
| `Disk.Dsk.HeaderColumns` | catalog/dsk.cpp:269-284 | the Load and Exec columns of an entry, as `HeaderAddresses` gives them |
| `Disk.Dsk.MakeRow` | catalog/dsk.cpp:248-290 | the name, size, address and owner columns of slot i |
| `Disk.Dsk.RowLine` | catalog/dsk.cpp:247-293 | slot i contributes its row's line when listed and nothing otherwise |
| `Disk.Dsk.ListRows` | catalog/dsk.cpp:242-294 | the appended lines are those of the listed slots' rows in slot order |
| `Disk.Dsk.ReadDskDir` | catalog/dsk.cpp:215-301 | the result is the table listing: borders and heading, one line per listed slot, then the free-space line |
| `Disk.Dsk.ReadDskDirSimple` | catalog/dsk.cpp:304-361 | the result is the column listing: one line per listed slot, a blank line, then "<free>K free" |
| `ViewFile.IsTokenised` | src/ViewFile.cpp:33-54 | `IsBasic` as left: tokenised for fewer than 4 bytes; from 4 bytes on, tokenised iff the first byte is not a digit and the first record looks tokenised |
| `ViewFile.ShortFileTokenised` | src/ViewFile.cpp:33-35 | a file shorter than 4 bytes is taken for tokenised BASIC |
| `ViewFile.DigitFirstIsAscii` | src/ViewFile.cpp:48-49 | a file of 4 bytes or more whose first byte is a digit is ASCII, whatever follows |
| `ViewFile.TokenisedIff` | src/ViewFile.cpp:35-54 | from 4 bytes on, tokenised iff the first byte is not a digit, 4 < bytes 0-1 as a little-endian word < the size, and 0 < bytes 2-3 as a word < 65000 |
| `ViewFile.OnlyProbeMatters` | src/ViewFile.cpp:35-54 | two buffers agreeing on their first 4 bytes are classified alike |
| `ViewFile.ShortRecordIsAscii` | src/ViewFile.cpp:44-52 | a first record length of at most 4 makes the file ASCII |

## Left out

- File access in `ReadDsk` (`fopen`, `fseek`, `ftell`, `fread`) is left out. The method takes the file's bytes, so a missing file and a short read are not modelled.
- `catalog/catalog.cpp` (argument parsing, console output, exit codes) is not part of this model.
- `isBigEndian` is left out. A little-endian host is assumed, so header words are read low byte first, and `StAmsdosEndian` is modelled as a standalone swap that the listings never call.
- The static buffers that `StAmsdosEndian`, `GetInfoDirEntry` and `ReadBloc` return are left out. The model returns fresh values, so aliasing between successive calls is not captured.
- `ViewBasic`'s calls to the `Basic` and `Ascii` decoders, `ViewDams`, `ViewDesass` and `ViewAscii` are left out. The globals `BufFile`, `TailleFic` and `Listing` are declared in headers that are not part of this model. Only the classification is modelled, with `BufFile` as unsigned bytes and `TailleFic` as an integer.
- The box-drawing border strings are opaque constants. Nothing is proved about their characters beyond the table width.
- Disk.Dsk.SectorLength: `128 << N` is computed without the 32-bit overflow it has for large N. Positions are unbounded integers, so `int` wrap-around in `GetPosData` is not modelled.
- Geometry.SectBase: descriptors past the 29 that `CPCEMUTrack` declares are read as the image bytes that follow, which is what the source's unchecked indexing reads when `NbSect` exceeds 29.
- Disk.ChainTotal: the source reads `TabDir[p + i]` before testing `p + i < 64`, so the last chain reads one slot past the array. The model tests the bound first. This gives the same result whenever that stray read does not fault.
- Disk.Dsk.FillBitmap: requires `NbPages <= 128` for every live slot. Above that the source reads past the 16 block bytes of the entry.
- Disk.Dsk.GetInfoDirEntry: requires the slot's 32 bytes to lie inside the image (`SlotReadable`). The listings and `GetFreeSpace` require this for all 64 slots (`DirReadable`), since the source reads without a check. `Geometry.StandardDirReadable` shows that every standard image meets it, and `Catalogue.BlankDirectory` shows that a blank body does.
- Disk.Dsk.ReadDskDir: the `snprintf` truncations are not modelled. `%d K` in 16 bytes and `&%04X` in 10 bytes cannot truncate: the size is at most 2040 (`Catalogue.SizeKBBound`) and the words are below 0x10000. The 100-byte line of the simple listing is proved never to be reached (`Catalogue.SimpleRowFits`).
- ViewFile.IsTokenised: the `int` reads of `BufFile[0] | BufFile[1] << 8` assume unsigned bytes. A signed `char` buffer is not modelled.
