# Verified model of the panel's image tools

This project models, in Dafny, the tools that build what the TC8 panel boots and the code that boots it: the Android
image tool `tools/avbtool` (sparse image files, dm-verity hash trees, AVB descriptors, vbmeta blobs and footers, RSA key
encoding), the sparse writer `tools/mksparse.py`, the WebSocket client of `smoke/catch_uboot.py`, the U-Boot environment
editor `tools/uboot_env_edit.py` and the boot selector `initramfs/init`.

`dafny verify dfyconfig.toml` checks everything.

## Layout

| file | content |
|---|---|
| Bytes.dfy, Struct.dfy | bytes, integers of fixed width, rounding, Python slices; `struct.pack` and `struct.unpack` |
| SparseFormat.dfy, SparseLayout.dfy | the sparse format as a bijection; where chunks lie; what patching and cutting a file does to it |
| ImageHandler.dfy | the image file object: a class that edits the file in place, proved against the flat image it stands for |
| MkSparse.dfy | the sparse writer and its coverage checker |
| HashTree.dfy | hash tree sizes, the loops that build the tree, what a root digest binds |
| Descriptors.dfy, Merging.dfy, VbMeta.dfy | descriptors, which of them are included from other images, the vbmeta blob |
| Footer.dfy, HashFooter.dfy, HashtreeFooter.dfy, ZeroHashtree.dfy | the footer commands on flat content, and their laws |
| AvbOps.dfy, HashtreeOps.dfy (and the second half of ZeroHashtree.dfy) | the same commands on image files, step by step, with rollback |
| OversizedBlob.dfy | blobs the partition has no room for, and what becomes of them |
| Verification.dfy, PackBoot.dfy | `verify_image` without signatures, and the boot recipe, on flat content |
| VerifyOps.dfy | `verify_image`, `make_vbmeta_image` and the boot recipe on image files, step by step |
| RsaKey.dfy | greatest common divisors, modular inverses, long integers, public key encoding |
| WebSocket.dfy | frames, the sender, the incremental receiver |
| UbootEnv.dfy | environment blocks and the editing commands |
| BootSelector.dfy | the boot script, power cuts, runs of boots |

## How to read it

- The image file object is a class with the program's own fields. `Anchored` says that the fields describe a chunk list,
  `Valid` that the counts on disk agree with it, and `Contents` is the flat file the handler stands for. Every operation's
  postcondition gives its exact success condition and the new contents. The footer commands are functions on flat content;
  the methods on image files are proved against them, so that one set of laws covers plain and sparse files.
- Hash functions and checksums are parameters. Digests have the length the library announces; nothing else is assumed.
  Binding theorems name the colliding inputs among those that were really hashed.
- Formats are stated twice: as packing and unpacking of a list of values, and in octets. The lemmas named `...Octets` say
  where each field of what is written lies, those named `...Parsed`, `...Is` or `...Iff` which octets are accepted and
  where each field is read from. Laws such as `HashTree.TreeIs`, `HashFooter.AddedContents`,
  `WebSocket.ServerStreamIsDecoded`, `UbootEnv.ParsedOctets` and `BootSelector.StagedIsApplied` give the outcome of whole
  operations without the functions the methods are proved against.
- Exceptions are results: `Err` carries the class of the exception. Names and other text are kept as their UTF-8 bytes.
- Where a command is only meaningful inside a domain (a sparse image is not read past its end, a plain image keeps at
  least the 28 bytes of a header), that is a precondition.

## What the proofs found

- A sparse file whose last payload is cut short is accepted when it is opened, because the program seeks over payloads
  (`SparseLayout.CutShortOpens`). Its payloads are all there exactly when the file is as long as its headers announce
  (`SparseLayout.CompleteIff`).
- An append to a sparse file writes the new counts before the chunk's header. When the counts fit and the header does not,
  the file cannot be opened any more; every other failed append leaves it as it was
  (`ImageHandling.ImageHandler.AppendChunk`). Truncating to a smaller size repairs it, truncating to the current size does
  nothing. Rolling back a footer command therefore restores the file unless the very first chunk it appends overflows:
  `AvbCommands.AddHashFooter` and `HashtreeCommands.AddHashtreeFooter` give that as the exact condition,
  `HashtreeCommands.TreeOverflowsItsChunk` and `PackBoot.HugeBlocksOverflow` images that meet it.
- On a plain file `append_dont_care` with a negative length shrinks the file, so the last block is written over a blob that
  does not fit the partition, and `add_hash_footer` succeeds: only the reserved size is checked, never that of the blob.
  The blob survives exactly when it fits or holds what the last block puts there anyway (`Footers.BlobFoundIff`); a blob of
  at most 64 KiB always fits for the block sizes `Footers.ReservationIff` names. Otherwise the image is found to have the
  descriptors of the overwritten area, and can be erased exactly when that area parses (`HashFooter.AddedParsesAs`).
  `OversizedBlob.PropertyIsOverwritten` is a plain image whose property silently ends in NULs, and
  `OversizedBlob.FooterIsStuck` one that can be neither parsed nor erased any more.
- `resize_image` and `zero_hashtree` have no rollback. On a sparse file that runs out of room they can leave a shorter
  image (`AvbCommands.ResizeImageOf`, `ZeroHashtree.ZeroHashtreeOf`), which opens unless a chunk just overflowed.
- `mksparse --verify` accepts files the image tool refuses: those with bytes behind the last chunk
  (`MkSparse.VerifyIgnoresTrailingJunk`), and those with a FILL or CRC32 chunk that announces other than four bytes of
  payload. There are no others (`MkSparse.ReadableIff`).
- A header read at or past the end of an image, where there are no bytes at all, is taken for a default header
  (`VbMeta.PastTheEnd`). `erase_footer` accepts every footer that points there (`Footers.EraseIff`).
- A vbmeta image is read as an image with a footer when its last 64 bytes happen to start with the footer magic
  (`PackBoot.BlobHasFooterIff`). For the boot recipe this is harmless, because the offset field then lies in padding and
  points at the same blob (`PackBoot.FooterOffsetIsZero`).
- An image added with its tree left out verifies only where zeroed trees are accepted, unless it is a single block
  (`Verification.AddedTreeAccepted`).
- An environment block without an end mark is read, but writing it back fails unless parsing dropped something: an entry
  without an equals sign, or one whose key comes again (`UbootEnv.WritableIff`; `UbootEnv.FullBlockCannotBeWritten` for
  the simplest such block).
- A mode argument with any value but `rw` seals the root and hides the maintenance flag, an empty value aside; the comment
  in the script names only `ro` and `rw` (`BootSelector.CmdlineBeatsFlag`).
- The comment on r squared in the key encoding speaks of the key size; the code uses the modulus' own bit length. The two
  agree when these are equal, and otherwise only for the divisors `RsaKey.RRIff` names. Key sizes are rounded up to powers
  of two when a key is read, so they differ for every 1536-bit key (`RsaKey.Keys1536Differ`), for whatever bit length lies
  in the upper third below its key size (`RsaKey.OwnRRDiffers`), and for modulus 77 (`RsaKey.RRDiffers`).

## Model

| member | source | states |
|---|---|---|
| Bytes.RoundToMultiple | tools/avbtool:239-253 | the result is the next multiple of size, less than size above the number, and the number itself when it is one |
| Bytes.LEAt | tools/avbtool:919-930 | octet i of the little-endian form of v is v / 256^i modulo 256 |
| Bytes.BEAt | tools/avbtool:1511-1532 | in the big-endian form that is octet i from the end |
| Struct.UnpackPack | tools/avbtool:2055-2063 | struct.unpack of a struct.pack result gives the packed values back, for every format used |
| Struct.PackUnpack | tools/avbtool:919-930 | re-packing what was unpacked from a buffer reproduces the buffer when the format has no pad bytes |
| SparseFormat.DecodeIff | tools/avbtool:798-917 | a file is read as the sparse image sp exactly when sp is well-formed and the file is its serialisation: no other bytes are accepted, no junk, counts match |
| SparseFormat.PlainIff | tools/avbtool:798-820 | a file is taken for a plain one exactly when it has 28 bytes and does not begin with 3a ff 26 ed; shorter files fail |
| SparseFormat.HeaderOctets | tools/avbtool:798-836 | in octets: where magic, version, header sizes, block size, both counts and checksum lie in the file header |
| SparseFormat.ChunkOctets | tools/avbtool:944-967 | in octets: type, block count and total size in the header of every chunk, with its payload behind |
| ImageHandling.ImageHandler.ReadHeader | tools/avbtool:798-917 | the header and chunk loop fail exactly when the file does not decode, with the same error, and otherwise leave chunk list, offsets, counts and size of the decoded image |
| ImageHandling.ImageHandler.ReadChunks | tools/avbtool:838-915 | the chunk loop records every chunk with its file and output offset and rejects wrong block counts and trailing bytes |
| ImageHandling.ImageHandler.ReadChunk | tools/avbtool:846-896 | one chunk: the type and size checks of each kind, what is recorded, and where the file position ends up, also past a truncated end |
| SparseLayout.ExpandAt | tools/avbtool:691-747 | where each chunk's bytes lie in the flat image |
| SparseLayout.LayoutAt | tools/avbtool:691-747 | where each chunk's header and payload lie in the file |
| SparseLayout.OctetAt | tools/avbtool:1086-1104 | the flat image holds at place i of chunk k octet i of a RAW payload, octet i modulo 4 of a FILL payload, else NUL |
| SparseLayout.OctetOf | tools/avbtool:1082-1104 | and every octet of the flat image lies in one of the chunks |
| SparseLayout.CompleteIff | tools/avbtool:846-915 | an opened file is never longer than its headers announce, and has all its payloads exactly when it is as long |
| SparseLayout.CutShortOpens | tools/avbtool:846-896 | a file whose last payload is cut short anywhere still opens, with the shorter payload |
| ImageHandling.BisectedChunk | tools/avbtool:1082-1084 | the bisected chunk holds the cursor for any layout, including empty chunks |
| ImageHandling.FillSlice | tools/avbtool:1094-1098 | the slice of the repeated fill is always long enough and in the right phase for an unaligned cursor |
| ImageHandling.TimesIsPattern | tools/avbtool:1094-1098 | a fill of four bytes repeated k times holds at place i the fill's octet i modulo 4 |
| ImageHandling.ImageHandler.ReadFrom | tools/avbtool:1086-1104 | the piece read from one RAW, FILL or DONT_CARE chunk is the flat image's bytes at the cursor |
| ImageHandling.ImageHandler.ContentsAt | tools/avbtool:1086-1104 | so for the contents an opened sparse file stands for: those octets of its payloads and NULs |
| ImageHandling.ImageHandler.ReadChunked | tools/avbtool:1066-1109 | the chunk loop returns the flat image from the cursor on, clamped at its end, and advances the cursor by that much |
| ImageHandling.ImageHandler.Read | tools/avbtool:1060-1109 | read(n) at cursor p is contents[p..p+n] clamped, for plain and sparse files alike; the one failure is a sparse image without chunks |
| ImageHandling.ImageHandler.Seek | tools/avbtool:1047-1058 | negative offsets are refused and leave the cursor, others set it |
| ImageHandling.Open | tools/avbtool:781-796 | opening a file gives a handler at cursor 0 that stands for the file's flat content |
| ImageHandling.ImageHandler.UpdateChunksAndBlocks | tools/avbtool:919-930 | the two counts are patched in place, or nothing is written when one does not fit |
| SparseLayout.PatchCounts | tools/avbtool:919-930 | patching the counts turns the serialisation with old counts into the one with new counts |
| SparseLayout.AppendChunkEncodes | tools/avbtool:932-967 | new counts plus header and payload at the end of the file are the serialisation of the image with the chunk appended |
| ImageHandling.ImageHandler.AppendChunk | tools/avbtool:932-967 | a chunk is added exactly when all fields fit 32 bits; after a failure the file is as it was, except that it cannot be opened exactly when both new counts fit but the chunk's own header does not (its size overflows, or the length is negative) |
| ImageHandling.ImageHandler.AppendRaw | tools/avbtool:969-1007 | contents grow by exactly the data, plain or sparse; exact failure condition, and which failures spoil the file |
| ImageHandling.ImageHandler.AppendFill | tools/avbtool:1009-1045 | contents grow by the repeated fill; exact failure condition, and failures leave the file as it is |
| ImageHandling.ImageHandler.AppendDontCare | tools/avbtool:932-967 | contents grow by NULs; on a plain file a negative length shrinks them, on a sparse one it is refused; which failures spoil the file |
| SparseLayout.CutChunkEncodes | tools/avbtool:1152-1181 | rewriting one chunk header, recounting and cutting the file serialises the image cut in mid-chunk |
| SparseLayout.DropChunksEncodes | tools/avbtool:1172-1191 | recounting and cutting the file at a chunk boundary serialises the shorter image |
| ImageHandling.ImageHandler.CutChunks | tools/avbtool:1146-1188 | shrinking, in mid-chunk or at a boundary, leaves a file that reads as exactly the prefix, and how many chunks it then has |
| ImageHandling.ImageHandler.Truncate | tools/avbtool:1119-1191 | contents become the old contents cut or NUL-extended; exact failure condition; a file left by a failed append is repaired by shrinking and left as it is at its own size |
| ImageHandling.ImageHandler.Run | tools/avbtool:759-765 | any run of appends and truncations does to the flat image what it does to a byte array, and the file on disk still decodes to it; on a plain file it succeeds exactly when every operation is well-formed, on a sparse one when there is room as well |
| ImageHandling.RunBoth | tools/avbtool:759-765 | a sparse and a plain handler of equal content stay equal under any run of operations; with 4096-byte blocks the plain run succeeds where the sparse one does, and the sparse one where the plain one does and there is room, truncations inside the header or a block aside |
| MkSparse.CollectRuns | tools/mksparse.py:76-93 | the nested run loops produce the coalesced chunk list |
| MkSparse.Convert | tools/mksparse.py:64-102 | the output is the serialisation of the coalesced image; fails exactly when a field exceeds 32 bits |
| MkSparse.ConvertedReadsBack | tools/mksparse.py:64-102 | the written file decodes to the same chunks in blocks of 4096, and these expand to the raw bytes with NULs up to the next multiple of 4096 |
| MkSparse.ConvertAndRead | tools/avbtool:798-917 | reading the converter's output whole through the image handler gives the padded raw bytes |
| MkSparse.LabelsMatch | tools/mksparse.py:80-93 | a block is covered by a DONT_CARE chunk exactly when it is all NUL |
| MkSparse.ChunksAlternate | tools/mksparse.py:80-93 | chunks are non-empty and alternate in type |
| MkSparse.ChunksMinimal | tools/mksparse.py:73-93 | no chunk list with the same labelling is shorter |
| MkSparse.Verify | tools/mksparse.py:105-147 | the checker accepts exactly the files with a fitting header whose chunk headers walk to the right coverage |
| MkSparse.VerifyAcceptsConverted | tools/mksparse.py:105-147 | whatever the converter writes is accepted |
| MkSparse.ReaderImpliesVerify | tools/mksparse.py:105-147 | of the files the image handler reads, exactly those in 4096-byte blocks without checksum whose chunks cover the rounded raw size are accepted |
| MkSparse.ReadableIff | tools/mksparse.py:117-140 | of the files the checker accepts, the image handler reads exactly those whose FILL and CRC32 headers all announce four bytes and whose last chunk ends at or behind the end of the file |
| MkSparse.VerifyIgnoresTrailingJunk | tools/mksparse.py:117-140 | so it refuses the converter's output with any bytes behind it, which the checker accepts |
| HashTree.LevelShrinks | tools/avbtool:4089-4097 | a level is strictly smaller than what it hashes when two entries fit a block, so the size loop ends |
| HashTree.LevelCount | tools/avbtool:4089-4097 | there are at most ceil(log2(ceil(size / block))) levels |
| HashTree.LevelsWhole | tools/avbtool:4089-4097 | every level size is a positive multiple of the block size |
| HashTree.LevelsTile | tools/avbtool:4099-4105 | the levels at their offsets are disjoint and cover the tree exactly |
| HashTree.TreeSizeMonotone | tools/avbtool:3720-3731 | a larger image has no smaller tree |
| HashTree.TreeSizeWhole | tools/avbtool:4089-4097 | the tree size is a multiple of the block size |
| HashTree.CalcHashLevelOffsets | tools/avbtool:4073-4107 | the loops compute the offsets and the size of the recursive definition |
| HashTree.LevelOffsets | tools/avbtool:4099-4105 | the offset of a level is the size of everything above it |
| HashTree.HashLevel | tools/avbtool:4206-4232 | the inner loop hashes the blocks of one level, read from the image or from the finished level below: entry n is the digest of salt, block n and NULs, with its padding |
| HashTree.GenerateHashTree | tools/avbtool:4173-4241 | the flat buffer is exactly the recursive tree with the top level first, and, in places of the buffer, every entry of every level is the salted digest of its block below and the root that of the first block |
| HashTree.LevelIs | tools/avbtool:4206-4232 | entry n of a level is the digest of salt, block n and NULs up to the block size, followed by the padding; there are as many entries as blocks, and NULs behind |
| HashTree.TreeIs | tools/avbtool:4173-4241 | in places of the buffer: the level at the last offset but over the image, each other over the one below it, the root over salt and first block; stated without the recursive definitions |
| HashTree.EntriesBind | tools/avbtool:4206-4229 | equal level entries mean equal data, or two of the inputs hashed for them collide |
| HashTree.RootBinds | tools/avbtool:4173-4241 | equal roots of images of one size mean equal images, or an input hashed for one collides with one hashed for the other |
| Descriptors.Encode | tools/avbtool:1511-1532 | the encoding is 16 bytes plus the announced number of following bytes |
| Descriptors.EncodeWhole | tools/avbtool:1511-1532 | every encoding is a multiple of 8 bytes |
| Descriptors.PropertyOctets | tools/avbtool:1342-1358 | in octets: tag, following bytes, both lengths, key NUL value NUL, and NULs |
| Descriptors.HashtreeOctets | tools/avbtool:1511-1532 | in octets: where every field of a hashtree descriptor lies, with name, salt and digest behind the 180 octets of the fixed part |
| Descriptors.HashOctets | tools/avbtool:1682-1700 | in octets: where every field of a hash descriptor lies |
| Descriptors.CmdlineOctets | tools/avbtool:1800-1813 | in octets: where every field of a kernel command line descriptor lies |
| Descriptors.ChainOctets | tools/avbtool:1911-1927 | in octets: where every field of a chain partition descriptor lies |
| Descriptors.PackableIff | tools/avbtool:1511-1532 | encoding a descriptor raises struct.error exactly when one of its numbers or lengths does not fit its field |
| Descriptors.PropertyRoundTrip | tools/avbtool:1294-1358 | a property descriptor is parsed back from its encoding |
| Descriptors.HashtreeRoundTrip | tools/avbtool:1425-1532 | a hashtree descriptor is parsed back from its encoding |
| Descriptors.HashRoundTrip | tools/avbtool:1621-1700 | a hash descriptor is parsed back from its encoding |
| Descriptors.CmdlineRoundTrip | tools/avbtool:1759-1813 | a kernel command line descriptor is parsed back from its encoding |
| Descriptors.ChainRoundTrip | tools/avbtool:1857-1927 | a chain partition descriptor is parsed back from its encoding |
| Descriptors.UnknownRoundTrip | tools/avbtool:1207-1252 | a descriptor of an unknown class is kept byte for byte |
| Descriptors.PropertyParsed | tools/avbtool:1294-1326 | exactly which bytes are accepted as a property - tag 0, the length of both texts rounded up, a key in UTF-8 - and where its texts are taken from |
| Descriptors.HashtreeParsed | tools/avbtool:1425-1480 | exactly which bytes are accepted as a hashtree descriptor and which octets each field is read from |
| Descriptors.HashParsed | tools/avbtool:1621-1660 | exactly which bytes are accepted as a hash descriptor - tag, length, algorithm name, name and digest length - and which octets each field is read from |
| Descriptors.CmdlineParsed | tools/avbtool:1759-1785 | exactly which bytes are accepted as a kernel command line, and which octets it is read from |
| Descriptors.ChainParsed | tools/avbtool:1857-1890 | exactly which bytes are accepted as a chain partition descriptor, and which octets its fields are read from |
| Descriptors.ParseFront | tools/avbtool:1979-1999 | the first 16 octets of a list say of which class and how long the first descriptor is; fewer are an error |
| Descriptors.Utf8Iff | tools/avbtool:1310-1326 | bytes decode as UTF-8 exactly when they are what code points other than surrogates encode to, in section 3 of RFC 3629 |
| Descriptors.ParseDescriptors | tools/avbtool:1979-1999 | the loop gives the descriptors of the recursive definition, or its first error |
| Descriptors.ParseEncodeAll | tools/avbtool:1979-1999 | parsing the concatenated encodings of any list of well-formed descriptors returns that list |
| Merging.KeyInjective | tools/avbtool:3206 | the merge key is equal for two descriptors exactly when type and partition name are |
| Merging.LastSeenWins | tools/avbtool:3200-3209 | the dictionary holds a key exactly when some descriptor has it, and then the last such one |
| Merging.MergedCanonical | tools/avbtool:3189-3211 | at most one included descriptor per type and partition name, all that were seen, in increasing key order |
| Merging.OrderIrrelevant | tools/avbtool:3189-3211 | with only distinct partition descriptors the order of the images does not matter |
| Merging.IncludedIdempotent | tools/avbtool:3189-3211 | including just the result again reproduces it |
| Merging.MergeLoop | tools/avbtool:3192-3209 | the nested loops over images and descriptors fill list and dictionary as specified |
| Merging.SortedValues | tools/avbtool:3210-3211 | walking the sorted keys gives the canonical order |
| Merging.IncludedIs | tools/avbtool:3189-3211 | in indices: the included descriptors are first those without a partition in the order met, then the last of each type and partition name, in increasing order of their keys, and nothing else |
| VbMeta.HeaderRoundTrip | tools/avbtool:2131-2213 | a header is parsed back from its 256 bytes |
| VbMeta.HeaderOctets | tools/avbtool:2191-2213 | in octets: where every field of the header lies, from AVB0 to the release string and the reserved NULs |
| VbMeta.ParseHeaderIff | tools/avbtool:2131-2165 | exactly which bytes are accepted as a header, and which octets each field is read from |
| VbMeta.AddProps | tools/avbtool:3144-3153 | properties are split at the first colon, in order; one without a colon is refused |
| VbMeta.MaxMinorIsLargest | tools/avbtool:2184-2194 | the required minor version is the largest any included image or requested feature asks for |
| VbMeta.GenerateVbmetaBlob | tools/avbtool:3038-3298 | the blob is header, empty authentication block and padded descriptors in the specified order, with the largest required minor version; fails exactly when a property is malformed, or a field of the header or of any descriptor encoded on the way does not fit |
| VbMeta.BlobLayout | tools/avbtool:3238-3262 | both blocks are 64-aligned and every offset and size pair is in bounds, none overlapping |
| VbMeta.BlobOctets | tools/avbtool:3225-3298 | in octets: header, descriptors one after the other and NULs; authentication size 0, auxiliary size the descriptors rounded up to 64 |
| VbMeta.BlobParses | tools/avbtool:2788-2828 | wherever an image holds a generated blob, parsing there recovers its header and its descriptors |
| VbMeta.GeneratedContents | tools/avbtool:3038-3298 | what parsing finds in a generated blob: the given descriptors, a property per text split at its first colon, a command line with flags 0 per text, then what is included, behind a header with the rollback index, flags, location and release asked for and the least version needed |
| VbMeta.GeneratedAgain | tools/avbtool:3189-3211 | building again from just the image that parses as the previous blob gives the same blob |
| VbMeta.PastTheEnd | tools/avbtool:2131-2140 | at or past the end of an image parsing finds a default header, all sizes 0, without descriptors |
| Footers.RoundTrip | tools/avbtool:2029-2063 | a footer is parsed back from its 64 bytes |
| Footers.FooterOctets | tools/avbtool:2054-2063 | in octets: AVBf, version, original size, blob offset, blob size and NULs |
| Footers.ParseIff | tools/avbtool:2029-2053 | 64 bytes are a footer exactly when they start with the magic |
| Footers.WithFooterHasFooter | tools/avbtool:3614-3624 | the footer written last is the one found, whatever the image holds |
| Footers.StrippedWithFooter | tools/avbtool:3503-3517 | stripping a finished image gives its content back, also when the blob did not fit |
| Footers.BlobInPlace | tools/avbtool:3597-3607 | the blob lies where the footer says when everything fits |
| Footers.FinishedOctets | tools/avbtool:3588-3624 | the finished image octet by octet: content, NULs, blob, NULs, and the footer in its last 64 octets |
| Footers.BlobClearOfFooterIff | tools/avbtool:3606-3612 | the blob ends in front of the last block exactly when content, blob and footer block fit the partition |
| Footers.BlobFoundIff | tools/avbtool:3597-3624 | the bytes of the blob are found at the footer's offset exactly when it fits, or its bytes from the last block on are what that block holds |
| Footers.RegionOverlaid | tools/avbtool:3597-3624 | what any part of the blob reads as in the finished image: its own bytes up to the last block, then those of that block |
| Footers.ReservationIff | tools/avbtool:3484-3492 | the reserved 64 KiB and 4 KiB are enough for every blob of at most 64 KiB exactly for block sizes whose multiple above 64 KiB is below the reservation |
| Footers.ReservedSizes | tools/avbtool:3484-3492 | among them are all block sizes up to 4096 and all divisors of 64 KiB |
| Footers.PlainReservation | tools/avbtool:3484-3492 | on plain files the size check leaves room even when the content is not whole blocks |
| Footers.EraseIff | tools/avbtool:2276-2313 | erase_footer succeeds exactly when there is a footer and it points at or past the end of the image or at something that parses |
| Footers.ResizeIff | tools/avbtool:2370-2415 | resize_image succeeds exactly on images with a footer that points at something that parses, for sizes of whole blocks with room for the last block behind the blob; content and blob stay, and behind them are NULs and the same footer |
| HashFooter.AddFillsPartition | tools/avbtool:3606-3624 | the result is exactly the partition size |
| HashFooter.AddIff | tools/avbtool:3484-3624 | add_hash_footer on flat content succeeds exactly when the partition is whole blocks, content and 69632 bytes fit it, the blob can be made and its sizes fit 64 bits |
| HashFooter.AddedOctets | tools/avbtool:3588-3624 | the result octet by octet: content, NULs up to whole blocks, blob, NULs, footer |
| HashFooter.AddedContents | tools/avbtool:3519-3586 | what is found in it: a hash descriptor with the salted digest of the content, properties, command lines and what is included, behind a header with the values asked for and the least version that serves |
| HashFooter.AddIdempotent | tools/avbtool:3503-3517 | adding twice equals adding once |
| HashFooter.AddedParses | tools/avbtool:2788-2828 | the finished image parses to its footer, the blob's header and exactly the blob's descriptors |
| HashFooter.AddedParsesAs | tools/avbtool:2788-2828 | whether or not the blob fits: the finished image is found to have its footer and header and the descriptors of the overlaid area, and erase_footer restores the content exactly when that area parses |
| HashFooter.AddedBlobFoundIff | tools/avbtool:3597-3624 | the byte-level condition for the blob add_hash_footer writes |
| HashFooter.FoundParses | tools/avbtool:2788-2828 | where the blob's bytes are found, parsing and erasing give what they give when it fits |
| OversizedBlob.AddedOversized | tools/avbtool:3484-3624 | for every content that leaves just the reserved space and properties too long for it, the command succeeds, the blob does not fit, and its descriptors are NULs from the last block on |
| OversizedBlob.PropertyIsOverwritten | tools/avbtool:3484-3624 | one property of 65600 letters: the image parses to a property that ends in NULs |
| OversizedBlob.BlobIsLost | tools/avbtool:3484-3624 | so the blob's bytes are not those at the footer's offset |
| OversizedBlob.FooterIsStuck | tools/avbtool:2276-2313 | two properties, the second behind the last block: the image cannot be parsed, and erase_footer refuses it |
| HashFooter.EraseAfterAdd | tools/avbtool:2276-2313 | erasing restores the content held before, to its last byte |
| HashFooter.ResizeAfterAdd | tools/avbtool:2370-2415 | adding for one size and resizing to another equals adding for the other |
| HashFooter.RollbackRestores | tools/avbtool:3625-3628 | on flat content, truncating to the original size after any of the steps restores the stripped content |
| AvbCommands.ParseImageFile | tools/avbtool:2788-2828 | parsing a file, plain or sparse, gives what parsing its flat content gives |
| AvbCommands.EraseFooterOf | tools/avbtool:2276-2313 | the command does to the file what it means for flat content; exact success condition, refusals leave the file as it is |
| AvbCommands.ResizeImageOf | tools/avbtool:2370-2415 | the same for resize_image, with its refusals; exact success condition on sparse and plain files, and what a failure behind the cut leaves |
| AvbCommands.StripFooter | tools/avbtool:3503-3517 | the image is cut to the size its footer names, if it has one |
| AvbCommands.AppendBlobAndFooter | tools/avbtool:3588-3624 | the four append steps give the finished image; after a failure the content is still in front, and a sparse file is spoiled, grown or as it was according to the size of the blob's chunk |
| AvbCommands.AddHashFooter | tools/avbtool:3408-3628 | the command succeeds exactly when it does on flat content and a sparse file has room, and leaves exactly that result; after a failure behind the stripping the file decodes to the stripped content, except that a sparse one cannot be opened exactly when the padded blob overflows its chunk |
| AvbCommands.AddEitherWay | tools/avbtool:3408-3628 | with 4096-byte blocks success on a sparse file means success on a plain one, with the same content of exactly the partition size; the converse where there is room |
| AvbCommands.Rollback | tools/avbtool:3625-3628 | truncating after a failure restores the content; the handler is valid again if it was or if the image shrank, and a file already of that size is left as it is |
| AvbCommands.RollbackFrom | tools/avbtool:3625-3628 | so rolling back leaves a file that decodes to the content, unless the first chunk appended overflowed |
| Bytes.RoundToPow2 | tools/avbtool:256-267 | the result is a power of two, at least the number and less than twice it |
| HashtreeFooter.TreeWithinReservation | tools/avbtool:3715-3731 | the tree of an image that passes the size check is no larger than the tree reserved for the partition |
| HashtreeFooter.CheckedImageFits | tools/avbtool:3715-3731 | any image that passes the size check has a non-negative DONT_CARE length and room for the footer block |
| HashtreeFooter.AddFillsPartition | tools/avbtool:3893-3912 | the result is exactly the partition size |
| HashtreeFooter.AddIff | tools/avbtool:3715-3750 | add_hashtree_footer on flat content succeeds exactly when the partition is whole blocks, grown content, the tree reserved for the partition and 69632 bytes fit it, and the blob and the footer can be made |
| HashtreeFooter.AddedOctets | tools/avbtool:3860-3912 | the result octet by octet: content, NULs up to whole blocks, tree, blob, NULs, footer |
| HashtreeFooter.AddedContents | tools/avbtool:3815-3860 | what is found in it: a hashtree descriptor with the fields asked for and the root of a tree over the grown content, which is the tree stored, then properties, command lines and what is included |
| HashtreeFooter.AddIdempotent | tools/avbtool:3752-3766 | adding twice equals adding once |
| HashtreeFooter.AddedParses | tools/avbtool:2788-2828 | the finished image parses to its footer and descriptors, the hashtree descriptor first |
| HashtreeFooter.AddedParsesAs | tools/avbtool:2788-2828 | whether or not the blob fits: footer, header and the descriptors of the overlaid area, with the exact condition for erasing |
| HashtreeFooter.EraseAfterAdd | tools/avbtool:2276-2313 | erasing the footer, tree and all, restores the content |
| HashtreeFooter.KeepTreeAfterAdd | tools/avbtool:2292-2313 | erasing with the tree kept leaves exactly the grown content and its tree |
| HashtreeFooter.ResizeAfterAdd | tools/avbtool:2370-2415 | adding for one size and resizing to another equals adding for the other |
| HashtreeCommands.MakeTree | tools/avbtool:3815-3842 | the descriptor names the tree that is stored, with the root digest of the grown content |
| HashtreeCommands.AddHashtreeFooter | tools/avbtool:3630-3917 | the command succeeds exactly when it does on flat content and a sparse file has room, and leaves exactly that result; after a failure behind the stripping the file decodes to the stripped content, except that a sparse one cannot be opened exactly when the tree (or the padded blob, without a tree) overflows its chunk |
| HashtreeCommands.TreeOverflowsItsChunk | tools/avbtool:969-1007 | an image for which it does: 512 GiB in one DONT_CARE chunk, with 32-byte digests |
| ZeroHashtree.OnlyRegionChanges | tools/avbtool:2341-2368 | outside tree and FEC data no byte changes; each of the two begins with ZeRoHaSH and is NUL behind it |
| ZeroHashtree.TargetIff | tools/avbtool:2324-2348 | the descriptor taken is the first hashtree descriptor in the list; refused are exactly the images that do not parse, have no footer or no such descriptor, or whose FEC data are not right behind the tree |
| ZeroHashtree.BlankedParses | tools/avbtool:2315-2368 | footer, blob and descriptors survive, and blanking again changes nothing |
| ZeroHashtree.EraseAfterBlanking | tools/avbtool:2315-2368 | erasing gives the same content whether or not the tree was blanked |
| ZeroHashtree.ZeroHashtreeOf | tools/avbtool:2315-2368 | the command blanks exactly the tree and FEC regions of the file and puts the tail back; refusals leave the file as it is; exact success condition on sparse files, and what a failure half-way leaves |
| Verification.ImageAcceptedIff | tools/avbtool:2539-2630 | verify_image accepts exactly the images that parse unsigned and whose descriptors all hold from the cursor they find: no chain partitions; for a hash a known algorithm and the salted digest of its file, or of the image itself from the cursor; for a hashtree acceptance over its file or the image |
| Verification.AddedHashAccepted | tools/avbtool:1702-1737 | the hash descriptor of an added footer is accepted on the finished image |
| Verification.AddedHashImageAccepted | tools/avbtool:2539-2638 | an image with an added hash footer is accepted as a whole, next to itself, exactly when the descriptors it includes from other images are |
| Verification.AddedTreeAccepted | tools/avbtool:1534-1592 | the hashtree descriptor is accepted on the finished image exactly unless several blocks were added without their tree and zeroed trees are not accepted |
| Verification.AddedTreeImageAccepted | tools/avbtool:2539-2638 | the same for a hashtree footer, where a left-out tree of more than one block counts only with zeroed trees accepted |
| Verification.TreeBinds | tools/avbtool:1534-1592 | two images accepted under one hashtree descriptor hold the same data, or hashed inputs collide |
| Verification.TreeRegionBinds | tools/avbtool:1581-1584 | two images accepted under one descriptor without zeroed trees, equal in the described data, hold the same stored tree |
| Verification.ChangedTreeAccepted | tools/avbtool:1572-1584 | any image that equals one with an added tree in front of that tree is accepted exactly when its tree is unchanged, or marked zeroed where that is allowed |
| Verification.ZeroedTreeAccepted | tools/avbtool:1572-1580 | after zero_hashtree the descriptor is accepted where zeroed trees are |
| Verification.ZeroThenErase | tools/avbtool:2315-2368 | zero_hashtree finds the tree that was added, and erasing afterwards still restores the content |
| VerifyCommands.VerifyHash | tools/avbtool:1702-1737 | the data read from the partition's file, or from the image at its cursor, is accepted exactly as specified |
| VerifyCommands.VerifyTree | tools/avbtool:1534-1592 | the tree is rebuilt and compared with root digest and stored tree as specified |
| VerifyCommands.VerifyAll | tools/avbtool:2616-2630 | the loop accepts exactly when every descriptor is accepted at the cursor left by those before it |
| VerifyCommands.VerifyImage | tools/avbtool:2539-2630 | the command on files, plain or sparse, passes exactly on the images accepted over the flat contents |
| VerifyCommands.MakeVbmetaImage | tools/avbtool:2956-3036 | the command over image files writes exactly the specified vbmeta image, or fails with its error |
| VerifyCommands.PackFiles | targets/tc8/boot.sh:18-30 | the recipe run on plain files, step by step, gives the specified three files, and verify_image passes over them |
| PackBoot.BlobHasFooterIff | tools/avbtool:2808-2813 | a blob on its own is taken for an image with footer exactly when its last 64 bytes start with the footer magic |
| PackBoot.MadeContents | tools/avbtool:2956-3036 | what make_vbmeta_image writes: properties and command lines asked for, what is included from the images, a header with the values asked for and the least version that serves, padded with NULs to the next multiple |
| PackBoot.ImagesAt | tools/avbtool:3003-3010 | every included image must parse, and gives its version and its descriptors |
| PackBoot.VbmetaAgain | tools/avbtool:2956-3036 | make_vbmeta_image over just the vbmeta image it made gives it again |
| PackBoot.BothIncluded | tools/avbtool:3189-3211 | boot's and dtbo's hash descriptors are both included, boot's first |
| PackBoot.FooterOffsetIsZero | targets/tc8/boot.sh:18-30 | should the recipe's vbmeta image be taken for one with footer, that footer still points at the same blob |
| PackBoot.PackedVerifies | targets/tc8/boot.sh:18-30 | for all boot and dtbo contents that fit and all salts of the default size, the recipe succeeds if the files can be opened; its vbmeta image parses to exactly the two hash descriptors, verify_image accepts it over the final images, and over other files exactly when these start with the described bytes or with others of the same digest |
| PackBoot.HugeBlocksOverflow | tools/avbtool:969-1007 | a sparse image whose blocks are so large that the padded blob of add_hash_footer overflows its chunk |
| RsaKey.Egcd | tools/avbtool:313-330 | the coefficients satisfy the Bezout identity |
| RsaKey.EgcdIsGreatest | tools/avbtool:313-330 | the result divides both numbers and every common divisor divides it |
| RsaKey.ModInvIff | tools/avbtool:333-351 | there is an inverse exactly for coprime numbers, it is reduced, and it is one |
| RsaKey.EncodeLong | tools/avbtool:270-289 | the loop writes the octets of the value from the top; sizes that are not whole octets are refused |
| RsaKey.DecodeLong | tools/avbtool:292-310 | the loop computes the big-endian value |
| RsaKey.LongRoundTrip | tools/avbtool:270-310 | decoding what was encoded gives the value modulo two to the number of bits |
| RsaKey.N0invIff | tools/avbtool:449-451 | n0inv exists exactly for odd moduli, fits 32 bits, and n times n0inv is -1 modulo 2^32 |
| RsaKey.MontgomeryStep | tools/avbtool:449-451 | adding the multiple n0inv picks clears the low 32 bits of any number |
| RsaKey.BitLengthBounds | tools/avbtool:453 | bit_length places the modulus between powers of two |
| RsaKey.RRIff | tools/avbtool:453-455 | for odd moduli r squared is the one of the key size exactly when the modulus divides 2^(2d) - 1, d being the distance of bit length and key size; always when the two are equal |
| RsaKey.OwnSize | tools/avbtool:425-433 | the key size the constructor takes is the bit length rounded up to a power of two, and holds the modulus |
| RsaKey.OwnRRIff | tools/avbtool:433-459 | r squared in the encoding of a key as it is read is that of its key size exactly when the modulus divides 2^(2d) - 1 |
| RsaKey.OwnRRDiffers | tools/avbtool:433-459 | it always is when the bit length is a power of two, and never when it is larger than two thirds of the key size and smaller than it |
| RsaKey.Keys1536Differ | tools/avbtool:433-459 | so never for 1536-bit keys, which are stored with 2048 |
| RsaKey.RRDiffers | tools/avbtool:433-459 | modulus 77, stored with eight bits, is encoded with another r squared than its key size gives |
| RsaKey.EncodeKey | tools/avbtool:435-459 | exactly which keys are encoded, the error of every other, and the encoding |
| RsaKey.KeyRoundTrip | tools/avbtool:454-459 | size, n0inv, modulus and r squared are read back from the encoding |
| WebSocket.MaskedTwice | smoke/catch_uboot.py:52 | masking twice gives the payload back |
| WebSocket.SentIsDecoded | smoke/catch_uboot.py:49-60 | a sent frame decodes to its payload in all three length forms, whatever follows |
| WebSocket.SentStreamIsDecoded | smoke/catch_uboot.py:49-120 | a stream of sent frames decodes to the payloads in order |
| WebSocket.SendBinary | smoke/catch_uboot.py:49-60 | exactly the specified frame is sent; payloads of 2^64 bytes or more are refused |
| WebSocket.FrameOctets | smoke/catch_uboot.py:49-60 | in octets: 82, length with the mask bit in its shortest form, mask, and payload octet i xor mask octet i modulo 4 |
| WebSocket.ServerFrameIs | smoke/catch_uboot.py:88-110 | an unmasked frame of any first octet and any length form decodes to its opcode and payload, whatever follows |
| WebSocket.MaskedFrameIs | smoke/catch_uboot.py:88-110 | a masked one to its unmasked payload |
| WebSocket.ServerStreamIsDecoded | smoke/catch_uboot.py:88-120 | a stream of server frames written out octet by octet gives the concatenated payloads of opcodes 0, 1 and 2, and only those |
| WebSocket.ServerStreamTakes | smoke/catch_uboot.py:88-120 | taking k frames off such a stream gives the payloads of its first k messages and leaves the others |
| WebSocket.ServerStreamIsCloseFree | smoke/catch_uboot.py:111-120 | a stream of opcodes 0, 1, 2, 9 and 10 is close-free, wherever it is taken up |
| WebSocket.FrameStable | smoke/catch_uboot.py:88-110 | bytes arriving behind a complete frame do not change it |
| WebSocket.TakeMore | smoke/catch_uboot.py:88-120 | decoding k frames and then l more is decoding k + l frames |
| WebSocket.DrainedIsBatch | smoke/catch_uboot.py:63-120 | however a stream was taken apart, once drained the data and the rest are those of batch decoding |
| WebSocket.Need | smoke/catch_uboot.py:69-78 | the buffer grows by what was received until it is long enough or nothing more comes |
| WebSocket.ReadFrame | smoke/catch_uboot.py:92-110 | a frame is returned exactly when the buffer holds a complete one, and it is that frame |
| WebSocket.RecvAllAvailable | smoke/catch_uboot.py:63-120 | a call returns the data of exactly the frames it consumed, in order; the leftover starts on a frame boundary and holds no complete frame unless the limit was reached; a close frame drops it; the loop ends |
| WebSocket.Session | smoke/catch_uboot.py:148-153 | over any number of calls and any arrival of the bytes, data and leftover together are batch decoding of all that was received on a close-free stream; when that is a stream of server messages, the data are the payloads of the first few and the leftover is the rest of them |
| UbootEnv.ParseEnv | tools/uboot_env_edit.py:103-127 | the loop gathers the dictionary of the recursive definition |
| UbootEnv.VerifyBlock | tools/uboot_env_edit.py:143-160 | the checker accepts exactly blocks of the right size and checksum whose entries are ASCII and have an equals sign |
| UbootEnv.HeldTexts | tools/uboot_env_edit.py:117-120 | every data area holds NUL-ended texts up to its end or its first empty one |
| UbootEnv.VerifiedOctets | tools/uboot_env_edit.py:143-160 | a block is accepted exactly when its first four octets are the checksum, lowest first, and all those texts are ASCII and have an equals sign |
| UbootEnv.ParsedOctets | tools/uboot_env_edit.py:103-127 | parsing leaves under each key the value of the last text that sets it, split at its first equals sign, and no other key |
| UbootEnv.SerializedOctets | tools/uboot_env_edit.py:130-140 | in octets: the checksum, lowest first, every key=value with its NUL in order, and NULs up to 4096, of which at least one; refused exactly for other than ASCII and for lack of room |
| UbootEnv.IsDictIff | tools/uboot_env_edit.py:114-127 | in a dictionary, and only there, any two entries have different keys |
| UbootEnv.ParsedIsClean | tools/uboot_env_edit.py:117-127 | whatever is parsed has distinct keys, no NULs and no equals sign in keys |
| UbootEnv.RoundTripIff | tools/uboot_env_edit.py:103-140 | a dictionary that can be written is read back in order exactly when it has no NULs and no equals signs in keys |
| UbootEnv.SerializedVerifies | tools/uboot_env_edit.py:143-160 | what is written from such a dictionary passes the checker |
| UbootEnv.GatherCost | tools/uboot_env_edit.py:117-140 | keeping every entry takes the space they take in the block; dropping a malformed entry or repeating a key saves at least two bytes |
| UbootEnv.WritableIff | tools/uboot_env_edit.py:103-140 | a block can be written back after parsing exactly when what was kept is ASCII and the block has an end mark, or some entry in front of it was malformed or repeated a key; the result verifies and is a fixed point |
| UbootEnv.FullBlockCannotBeWritten | tools/uboot_env_edit.py:130-140 | a block of one entry and no NUL at all is read but cannot be written back |
| UbootEnv.CmdModify | tools/uboot_env_edit.py:223-236 | all assignments in order, or nothing when one has no equals sign |
| UbootEnv.ModifiedOctets | tools/uboot_env_edit.py:223-236 | assignments are refused exactly when one has no equals sign; else the last one for a key decides and the other keys stay |
| UbootEnv.CmdDelete | tools/uboot_env_edit.py:239-248 | the named keys are gone, the rest is kept in order |
| UbootEnv.RemovedLookup | tools/uboot_env_edit.py:239-248 | deleted keys are gone and the others keep their values |
| UbootEnv.CmdPreset | tools/uboot_env_edit.py:251-265 | the preset written over a parsed block, or over nothing |
| UbootEnv.PresetLookup | tools/uboot_env_edit.py:260-264 | the preset sets slotaboot, slotbboot and bootcmd_ab, slot to b where there was none, and no other key |
| UbootEnv.PresetIdempotent | tools/uboot_env_edit.py:251-265 | running the preset on a block it wrote gives that block again |
| UbootEnv.ModifyThenDelete | tools/uboot_env_edit.py:223-248 | setting fresh keys and deleting them again gives the normalised block |
| BootSelector.Machine.ParseMode | initramfs/init:45-54 | the loop keeps the value of the last mode argument |
| BootSelector.CmdlineBeatsFlag | initramfs/init:88-96 | the last mode argument settles the mode whatever the flag says; any value but rw seals the root, an empty one leaves it to the flag |
| BootSelector.Machine.WaitForRoot | initramfs/init:76-86 | polling finds the root exactly when it appears within 100 tries |
| BootSelector.Machine.ApplyConfig | initramfs/init:98-126 | a staged blob is applied step by step as far as power lasts |
| BootSelector.StagedIsApplied | initramfs/init:98-126 | a staged blob is applied by the next boot that finds root and blob, can mount the root and keeps power, whatever command line and flag say: it is gone, every configured path holds its last value, dev, proc and sys exist, nothing else has changed |
| BootSelector.Machine.MountRoot | initramfs/init:128-174 | which root the system ends up on, for every mount outcome |
| BootSelector.Outcomes | initramfs/init:76-174 | how a boot that keeps power ends and which directories it makes, for each outcome of the mounts |
| BootSelector.Machine.Boot | initramfs/init:45-174 | the script makes exactly the specified changes in order, up to any power cut, and ends as specified |
| BootSelector.SealedBootKeepsRoot | initramfs/init:128-162 | without maintenance mode, a config apply or an overlay failure, boot and session leave the root partition alone |
| BootSelector.RootSafety | initramfs/init:88-162 | across any boots, sessions and power cuts a changed root has a boot with one of the three reasons behind it |
| BootSelector.BlobSafety | CONFIG-PARTITION.md:54-60 | in one run of the selector a staged blob disappears only after the complete apply, and is otherwise unchanged |
| BootSelector.StagedUntilApplied | CONFIG-PARTITION.md:54-60 | over any boots whose sessions stage nothing, the blob is there unchanged until a boot has applied it completely, and then it is gone |
| BootSelector.ConfiguredOrStaged | CONFIG-PARTITION.md:54-60 | over any boots, directly mounted roots included, the blob is still staged or every configured path holds its last value, as long as sessions leave those paths alone |
| BootSelector.ReapplyIsClean | CONFIG-PARTITION.md:57-60 | applying again after a power cut in mid-apply gives the result of one undisturbed apply |
| BootSelector.ConfigIsAtomic | CONFIG-PARTITION.md:54-60 | over any run of interrupted boots that do not mount the root directly, the blob is either still staged and leads to the same result, or gone with exactly that result reached |

## Left out

- Signing: only the algorithm NONE is modelled; RSA signatures, OpenSSL, key loading, public key metadata and certificates are foreign calls.
- Forward error correction: the `fec` program is foreign; `add_hashtree_footer` is modelled without it, `zero_hashtree` with its region.
- Hash and checksum internals: parameters of a fixed result size.
- Chain partitions given on the command line, `setup_rootfs_from_kernel` and `props_from_file` in blob generation: they read further files and would only add descriptors to the same list.
- Random salts, and the modes that only print or calculate a size: the salt is a parameter, the modes return early.
- `do_not_append_vbmeta_image` and `output_vbmeta_image`: the same blob written elsewhere.
- A partition size of 0 in `add_hashtree_footer`, and `dynamic_partition_size` in `add_hash_footer`: the size is an argument.
- Hash block sizes other than the image's own block size in `add_hashtree_footer`.
- CRC32 chunks in the operations that edit a sparse file (they are modelled when reading one), reads past the end of a sparse image, block sizes below 64 bytes, and images smaller than a block in hash trees: outside the intended use.
- VerifyCommands.VerifyImage: tree descriptors speak of an image of at least a block that is all there, as the tree loops need; descriptors of a sparse image name other files, and files next to it are not empty.
- VerifyCommands.MakeVbmetaImage: included sparse images are complete and point inside themselves.
- Chain partition descriptors in `verify_image`: modelled as refused, which is what happens without expected partitions.
- `info_image`, digests as text, `append_vbmeta_image`, A/B metadata, test images.
- AvbCommands.EraseFooterOf: a sparse image is one whose footer and header point inside it.
- ZeroHashtree.ZeroHashtreeOf: tree and FEC data are whole blocks inside the image, as `add_hashtree_footer` leaves them.
- RsaKey.KeyOf: the logarithm of the modulus is exact, where the program rounds a floating point number.
- ImageHandling.ImageHandler.Read: on a sparse image the cursor is at most at its end.
- ImageHandling.ImageHandler.ReadChunked: the same.
- AvbCommands.ParseImageFile: a sparse image is one whose footer and header point inside it, for the same reason; plain images may point anywhere.
- ImageHandling.ImageHandler.AppendRaw: sparse images take whole blocks even when the caller says the data need not be, since the program then spoils the file before it raises.
- VbMeta.GenerateVbmetaBlob: text in descriptors and the release string is assumed to decode as it does when parsed back, a release string to be at most 47 bytes long, which the program would otherwise cut, and the data of an unknown descriptor to be a multiple of 8 bytes; whatever else does not fit its field is modelled as failing.
- VbMeta.BlobLayout: with the algorithm NONE, which leaves the authentication block empty.
- UbootEnv.CmdPreset: the three command texts are parameters, not the program's own constants.
- WebSocket.RecvAllAvailable: a receive call gives what the script of events says; the limit of 8192 bytes a call is not needed for any of the results.
- The WebSocket handshake, the pacing of bursts and the search for the prompt: network and timing.
- BootSelector.Machine.Boot: mounts, device lookup and the applier are outcomes and lists of writes; what a person does in the rescue shell is not modelled, and unmounting before the fallback mount is taken to succeed.
- The cpio builder, boot image and device tree containers, the configuration blob writer and the partition table tool: straight-line layouts that would only add easy members.
- Builds, kernels, profiles and documentation.
