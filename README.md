# tiffsnip in Dafny

tiffsnip reads a classic little-endian TIFF file (TIFF Revision 6.0, Section 2,
"TIFF Structure"). It checks the 8-byte header: the byte-order mark must be
"II" (0x4949) and the version 42. It then follows the chain of image file
directories (IFDs) from the header's first offset, numbering the pages from 1.
For each page, `scan_ifd` decodes the directory:
- a 16-bit entry count, read into a signed `short`;
- that many 12-byte entries: tag, type, count, value;
- a 32-bit next offset.

While scanning, it clears two flags, `strips_found` and `tiles_found`, when it
sees a StripOffsets (273) or TileOffsets (324) entry. The walk stops at a next
offset of 0, or right after the page whose number equals the page chosen for
deletion. It stops there even when that page's entries or link run past the end
of the file. The deletion branch of `scan_ifd` holds only comments, so the
program never writes to the file.

The model has four modules:
- `LittleEndian` (`little_endian.dfy`): byte, 16-bit and 32-bit types, little-endian reads and writes, and their round trips.
- `TiffFormat` (`tiff_format.dfy`): the constants, the `Header` and `IFD` records (`Header`, `Entry`), the decoded `Directory`, their decoders and the encoders that invert them, and two facts about slices of sequences used in their proofs.
- `TiffSnip` (`tiffsnip.dfy`): `ScanIfd` (the C function `scan_ifd`), and `Snip` with `FollowChain` (the C function `main`: its header checks, then its loop). They are methods over a file modelled as an `array<byte>`. They are proved against the specification functions `DecodeIfd`, `Execute` and `Walk`. `Walk`, `Enter` and `Visit` together specify one turn of the loop: a zero link ends the chain, a walk with no page to delete stops once it has visited more pages than the file has bytes, and otherwise the page is decoded and either the walk stops after it or follows its link.
- `TiffSnipProperties` (`tiffsnip_properties.dfy`): what a run does, stated over `Execute`.

No method has a `modifies` clause, so Dafny's frame rules guarantee that
the file's bytes are the same after a run as before. That includes the run
where `delete` is true for a page.

## Model

| member | source | states |
|---|---|---|
| `LittleEndian.U16OfLE16` | tiffsnip.c:7-18 | reading a 16-bit field back from the two bytes written least significant first gives the value, at any offset |
| `LittleEndian.LE16OfU16` | tiffsnip.c:7-18 | writing out a 16-bit field that was read gives back the exact two bytes it came from |
| `LittleEndian.U32OfLE32` | tiffsnip.c:7-18 | reading a 32-bit field back from its four little-endian bytes gives the value, at any offset |
| `LittleEndian.LE32OfU32` | tiffsnip.c:7-18 | writing out a 32-bit field that was read gives back the exact four bytes it came from |
| `TiffFormat.DecodeEncodeHeader` | tiffsnip.c:7-11 | the header is byte order at bytes 0-1, magic number at 2-3 and first-directory offset at 4-7; decoding an encoded header gives it back, whatever follows it |
| `TiffFormat.EncodeDecodeHeader` | tiffsnip.c:67-68 | the header decoded from a file accounts for exactly the file's first 8 bytes |
| `TiffFormat.DecodeEncodeEntry` | tiffsnip.c:13-18 | an entry is tag, type, count and value at offsets 0, 2, 4 and 8 of its 12 bytes; decoding an encoded entry gives it back |
| `TiffFormat.EncodeDecodeEntry` | tiffsnip.c:13-18 | a decoded entry accounts for exactly the 12 bytes it was read from |
| `TiffFormat.AsShort` | tiffsnip.c:22-23 | the count is the two's-complement reading of the 16-bit field: in [-0x8000, 0x8000) and equal to the raw field modulo 0x10000 |
| `TiffFormat.DecodeEncodeIfd` | tiffsnip.c:21-29 | a directory of fewer than 0x8000 entries placed anywhere in a file decodes back to itself: the count, then the entries in order, then the next offset |
| `TiffFormat.EncodeDecodeIfd` | tiffsnip.c:21-43 | a directory decoded at `o` with `n` entries lies within the file, takes exactly `2 + 12n + 4` bytes from `o`, and those bytes are its encoding; entry `i` is at `o + 2 + 12i` and the next offset at `o + 2 + 12n` |
| `TiffFormat.DecodeEntriesAt` | tiffsnip.c:28-29 | entry `i` of the entries read one after another from `o` is the entry decoded at `o + 12i` |
| `TiffFormat.IfdLayout` | tiffsnip.c:21-43 | a decoded directory lies within the file, its entry count is the 16-bit value at `o`, entry `i` is the entry at `o + 2 + 12i`, and its next offset is the 32-bit value at `o + 2 + 12n`, right after the last entry |
| `TiffFormat.DecodeIfdLocal` | tiffsnip.c:21-43 | the decoded directory depends only on the bytes of its span: a file that agrees there decodes to the same directory |
| `TiffSnip.ScanIfd` | tiffsnip.c:20-58 | returns the fault of `DecodeIfd` when the file ends before the count, the count is negative, or the file ends before the entries and link (a fault that carries the count read). Otherwise it returns exactly the directory `DecodeIfd` decodes there, whose next offset `IfdLayout` places right after the last entry. `stripsFound` is 0 iff some entry has tag 273 and `tilesFound` is 0 iff some entry has tag 324; both are otherwise 1. The result does not depend on `delete` |
| `TiffSnip.Snip` | tiffsnip.c:60-95 | `main`'s header checks followed by its chain loop compute exactly `Execute` of the file's bytes. The status `main` returns is 1 exactly when the file has an 8-byte header whose mark is not 0x4949 or whose version is not 42, and 0 exactly when the walk ends at a zero link or right after the page to delete, including a page to delete whose count was read but whose entries or link run past the end of the file. Declared without a `modifies` clause, so the file is not written |
| `TiffSnip.FollowChain` | tiffsnip.c:81-94 | `main`'s loop from a given first offset computes exactly `Walk` of the file's bytes: pages numbered from 1, `delete` passed for the page numbered `toDelete`, stopping at a zero link or right after that page, once that page's count is read; the file is not written |
| `TiffSnipProperties.HeaderGate` | tiffsnip.c:73-80 | the run stops on the header exactly when the file has 8 bytes whose mark is not 0x4949 or whose version is not 42. It then reads no directory; `Snip` returns status 1 exactly in this case. The byte order is checked before the version |
| `TiffSnipProperties.WalkPages` | tiffsnip.c:85-88 | pages of a walk are numbered on from the pages already seen. The first page is at the offset followed, and each later page is where the previous one's next offset points. Each page is the directory decoded at its nonzero offset |
| `TiffSnipProperties.WalkDelete` | tiffsnip.c:84-92 | `delete` is true exactly on the page numbered `toDelete`. Only the last page can carry that number, and it does exactly when the walk stopped for it. The walk never passes that number |
| `TiffSnipProperties.WalkStop` | tiffsnip.c:85-93 | a walk ends at a zero next offset (unless it already stopped for deletion), after the page to delete, at an undecodable directory, or after more pages than the file has bytes. An undecodable directory, or a page to delete cut short, is the one the last page's nonzero link (or the starting offset) points to. On the page to delete only a missing or negative count is a bad directory; a page to delete whose entries or link run past the end of the file still stops the walk for deletion |
| `TiffSnipProperties.ChainOrder` | tiffsnip.c:81-88 | with an accepted header the pages are numbered 1, 2, … The first page is the directory at the u32 of header bytes 4-7, and each later page is the one its predecessor links to |
| `TiffSnipProperties.Termination` | tiffsnip.c:85-94 | with an accepted header the walk ends with `EndOfChain` or `Deleted` (where `Snip` returns status 0) exactly at a zero next offset (a zero first offset visits no page) or right after the page to delete. That includes a page to delete whose count was read but whose entries or link run past the end of the file. A positive `toDelete` bounds the pages visited and rules out the cycle stop. A stop at an undecodable directory names the nonzero offset the header or the last page links to |
| `TiffSnipProperties.DeleteAtMostOnce` | tiffsnip.c:84-92 | `delete` is true for at most one visited page, the one numbered `toDelete`. Some page gets it exactly when the walk stopped for deletion, with `toDelete` equal to the page count. No page gets it when `toDelete` < 1 or the chain ends first. A page to delete cut short by the end of the file is not among the pages; the stop then says `toDelete` is one more than the page count |
| `TiffSnipProperties.CycleRevisits` | tiffsnip.c:85-93 | a run that stops for a cycle had no page to delete and visited some directory offset twice, so the source's loop would run forever |

## Left out

- The `printf` diagnostics are output text only.
- Opening the file, reading `argv`, and `atoi` are command-line plumbing. The page to delete is a plain `int` parameter of `Snip`. The file's bytes are an array parameter.
- The `page_num` parameter of `scan_ifd` only feeds a `printf`, so it is not modelled.
- `last_offset` in `main` is assigned and never read, so it is not modelled.
- The source reads fields by `fread` into packed structs, relying on a little-endian host. The model decodes little-endian bytes explicitly instead.
- The source does not check its `fread` results. A file too short for the header, or for a directory, leaves unread fields. The model stops there. It uses `ShortHeader` for the header. For a directory it uses `BadDirectory` with the `NoCount` or `Truncated` fault. The exception is the page to delete once its count is read: `main` returns 0 there without using the unread fields, and the model stops with `DeletedTruncated`.
- An entry count of 0x8000 or more is negative as a `short`, and would size a variable-length array below zero. The model stops with the `NegativeCount` fault instead.
- A count of 0 gives a zero-length array, which the model accepts as common compilers do.
- On a cyclic chain with no positive page to delete, the source loops forever; the model stops with `Cycle` after one page more than the file has bytes (`CycleRevisits` proves a directory then repeats). With a positive page to delete the model, like the source, stops at that page.
- The page counter is an `int` in the source, and it could only overflow on such an endless loop. The model stops before that.
- Snip: the exit status is -1 for a file shorter than the header, for an endless chain, and for a directory the walk could not read. That covers any count that is missing or negative. It also covers a directory before the page to delete whose entries or link run past the end of the file. The source has no defined result in these cases. Its reads are unchecked and it then goes on with a value it never read, it sizes an array by a negative count, or it never returns.
- The constants come from `tiff.h`, which is not part of this model. The model uses 0x4949, 42, 273 and 324, as libtiff defines them.
- The deletion branch of `scan_ifd` contains no code, so the model has no erasure, relinking, strip/tile byte-count handling or BigTIFF layout.
