# A verified model of the recovery and update engines

This project models, in Dafny, the algorithmic engines of an Android-style recovery system and proves
what each of them is for. `dafny verify dfyconfig.toml` checks all of it.

* **Binary patches** (`applypatch/bsdiff.c`, `bspatch.c`, `utils.c`): the in-place prefix-doubling suffix sort, the
  scanning differ, and the decoder. Modules `SuffixOrder`, `SuffixGroups`, `SuffixTally`, `SuffixSort`,
  `SuffixBuckets`, `SuffixArrays`, `DiffSearch`, `PatchStream`, `BsDiff`, `LittleEndian`, `Encoding`, `BsPatch`.
* **Chunked image patches** (`applypatch/imgdiff.c`, `imgpatch.c`): cutting zip files and images into chunks, merging
  them in place, choosing sources, the file format, and its decoder. Modules `ImageFormat`, `ImagePatch`,
  `ImageChunks`, `ImageDiff`, `ImageRead`, `ImageMain`; `CodecWitness` shows that the laws asked of the codecs can be met.
* **The crash-safe patcher** (`applypatch/applypatch.c`, `freecache.c`): one run as a sequence of file-system states,
  any of which a crash may leave behind, and any number of runs. Modules `PatchRun`, `CrashSafety`, `CrashRecovery`,
  `Patcher`, `PartitionLoad`, `UpdateEndToEnd`.
* **The hash table and the zip directory** (`minzip/Hash.c`, `Hash.h`, `Zip.c`) and the **whole-file signature check**
  (`verifier.c`). Modules `HashSlots`, `RoundUp`, `HashTables`, `ZipDirectory`, `WholeFileSignature`.
* **Flash** (`mtdutils/mtdutils.c`, `rk29.c`): block-coalescing writes and reads around bad blocks, and aligned
  read-modify-write. Modules `FlashBlocks`, `Mtd`, `AlignedIo`.
* **Checksums** (`update_engine/flash_image.cpp`, `rkbootloader.cpp`, `crc.cpp`). Modules `Crc`, `CrcTable`, `Crc16`.
* **The bootloader control block** and the command file (`recovery.c`, `strlcpy.c`, `strlcat.c`). Modules `CStrings`,
  `CommandFile`, `BootControl`.

Code that works on arrays, buffers, files or fields in place is modelled by methods and classes that do the same, each
proved against a specification function or predicate; the lemmas then say what that specification means.

## The main results

1. `SuffixArrays.QSufSort` terminates on every text with the one suffix array of it (`SuffixOrder.SuffixArrayUnique`).
2. `BsDiff.Diff` and `BsPatch.ApplyPatchMem` are inverse: `BsPatch.PatchRoundTrip`, for all files and at any place
   in a larger file.
3. `ImageMain.PatchForImage` and `ImageMain.PatchForZip` write files that `ImagePatch.ApplyImagePatch` turns back
   into the target.
4. `CrashSafety.AlwaysSound`: over any number of runs and crashes the target is never seen half written and can still be
   had, if no run is fooled by the hash of an output that was cut short; `CrashRecovery.RunExactly`: how a run ends, by its
   guards; `CrashRecovery.CalmRunFinishes`: a run that nothing disturbs, or only a first attempt cut short, finishes;
   `UpdateEndToEnd.UpdateArrives` joins this with 2 and 3, for patches that fit, which do not fool.
5. `HashTables.HashTable` is a finite map; a table of the advertised size takes its entries without growing.
6. `Mtd.RoundTrip`: what is read is what was written and zero padding, however both sides are split and wherever the bad
   blocks are.
7. `Crc.Crc32Le`, `CrcTable.ChecksumIsBitwise`, `Crc16.Crc16`: the fast checksums are the plain ones, the 256 words of the
   table included.
8. `BootControl.Device.GetArgs`, `BootControl.StoredExactly`, `BootControl.Device.Reboot`: command line, block and file count
   in this order, and a storable command is replayed at every boot.

Some promises turned out to hold under a condition only; each of these is proved as an equivalence, most with an input that
fails beside it:

* `CrashRecovery.NeverLostExactly`: the patcher never loses the data exactly when the source is not named like the target
  with `.patch` behind it, because opening the temporary file would empty the source (`TempIsSource`), and no patch has a cut
  that deceives: its decoder takes the output cut short for all of it, the hash taken of less than all is the one wanted,
  what is left in the file has another, and in an update in place cannot be patched in its turn. Only the decoder of image
  patches can be so deceived (`DeceptionLoses`, `UpdateEndToEnd.CutLoses`), and not by a patch that makes the target it is
  given with, as long as hashes do not collide (`UpdateEndToEnd.FittingUnfooled`).
* `CrashRecovery.OriginalTouchedExactly`: the comment above `applypatch` says that the original is not touched until the
  desired replacement is there. It is away before that exactly when the run copies it to the cache and unlinks it, because the
  target's file system lacks room or the first attempt fails (`OriginalAwayExample`, in place).
* `CrashRecovery.SourceLeftExactly`: nor is it true that a source other than the target is not deleted on success. A run leaves
  its source behind exactly when it does not so back it up, or puts the new file in its place (`SourceLostExample`).
* `BsPatch.EndlessExactly`: the decoder of binary patches never returns exactly when the header is in order and, some
  triples further on, a compressed stream that has broken off is asked for more (`EndlessExample`).
* `ImageRead.EndlessExactly`: reading an image never ends exactly when the scan comes to `1f 8b 08` as the last three
  bytes, where a normal chunk gets no length (`EndlessExample`), or to a gzip header behind which inflating never meets the end
  of a stream (`CutOffExample`).
* `ImageDiff.DiffZips`: with repeated names in the target, a deflated chunk can lose the partner it was kept for, and its
  record then holds a length that was never set. `ImageDiff.Spent` follows the chunks of one name to say when
  (`SpentExample`); a patch comes out and rebuilds the target exactly when no name is spent, as when none repeats
  (`DistinctUnspent`).
* `ImagePatch.CutUnnoticed`: applying to a sink that is too small is noticed exactly when a raw or deflate chunk, not empty,
  runs over; of a normal chunk the result is ignored, and the output ends where the sink is full
  (`CutExample`).
* `FlashBlocks.AgreeExactly`: reader and writer agree on the blocks exactly when good blocks work, no block whose bad-block
  query is unsupported takes its write (the writer tries such blocks, the reader passes them over: `UnsupportedExample`), and
  no good block follows failed reads that raised the driver's error count, which the reader does not note after a failed read
  (`StaleExample`).
* `AlignedIo.ReportedRight`: `rk29_fwrite` reports what got onto the device exactly when it neither begins in the middle of
  a block that fails, whose bytes are counted before they are written (`OverReported`), nor runs over the end of a device that
  is no multiple of 16 KiB, where a part of a block is written and not counted (`UnderReported`).
* `CommandFile.TokenExactly`: a piece of the command file gives an argument exactly when something but line ends stands in
  front of its first NUL; else, as at an empty line (`BlankLine`), a missing string is copied. Plain lines up to 4094 bytes
  are all read (`FileRead`).
* `BootControl.StoredExactly`: arguments come back exactly when none is empty or holds a newline, there are at most 100
  with the program's name, and all but the last newline fits the field (`ForgottenExample`).
* `Encoding.OfftRoundTrip`, `Write4Read4`, `Write8Read8`: the number formats and the ranges they hold.

The comment above `ParseSha1` allows text behind the digits; the code refuses it (`PatchRun.DigestAlone`), and the model
follows the code.

## What is taken for granted

* Sizes fit the C types: files of a binary patch stay under 2^50 bytes, images and chunk counts under 2^31, written offsets
  under 2^63. Integers are otherwise unbounded, with widths written out where a format fixes them.
* bzip2, inflate and deflate are functions with laws: decompression undoes compression and does not look behind the end of a
  stream (`BsPatch.SelfDelimiting`), compression does not grow data absurdly (`ImageDiff.Modest`), and inflate says
  itself where its stream ends (`ImageRead.StreamEnds`). SHA-1, RSA and the streaming hash are functions; nothing is asked of
  RSA, and of the streaming hash that pieces may be joined. Of SHA-1, `CrashSafety` and `CrashRecovery.ExitCode` ask that no
  run is fooled (`Unfooled`: not both a cut output that the decoder takes for all of it, with the hash wanted, and a file with
  another), and `UpdateEndToEnd` that nothing a run hashes (source, saved copy, target found, outputs cut short) has the hash
  of a listed source, or of the new file, without being it.
* Source and target of the patcher are regular files outside `/cache`, and listings of the cache name files there.
* The surroundings (free space, directory listings, open files, failing calls, bad blocks) are parameters, and the
  theorems hold for all of them unless they say otherwise.

## Model

| member | source | states |
|---|---|---|
| SuffixOrder.BeforeMeans | applypatch/bsdiff.c:121-157 | the order used for suffixes is the lexicographic one: after a common part the first ends or has the smaller byte |
| SuffixOrder.SuffixArrayUnique | applypatch/bsdiff.c:121-157 | there is only one array of all suffix starts in increasing order, so the sort's contract fixes its result |
| SuffixOrder.BeforeShift | applypatch/bsdiff.c:139-154 | suffixes that agree on h bytes are ordered as what follows: the step of prefix doubling |
| SuffixGroups.KeyOrder | applypatch/bsdiff.c:60-119 | inside a group of suffixes alike on h bytes, a smaller number of the suffix h further on means a smaller suffix, even while numbers change |
| SuffixGroups.KeyEqual | applypatch/bsdiff.c:60-119 | and an equal number means agreement on 2h bytes |
| SuffixGroups.ExchangeState | applypatch/bsdiff.c:92-111 | swapping two entries of one group keeps the invariant that ties I, V and the groups |
| SuffixGroups.RenumberState | applypatch/bsdiff.c:115-116 | giving a leading part of a group its own number keeps the invariant |
| SuffixTally.PartingStep | applypatch/bsdiff.c:91-102 | one step of the three-way partition by exact counts keeps the three parts, whichever way the entry goes |
| SuffixTally.PartingDone | applypatch/bsdiff.c:104-111 | when both front parts are full, all that is left is greater than the pivot |
| SuffixSort.CountKinds | applypatch/bsdiff.c:83-89 | counts the entries below and equal to the pivot |
| SuffixSort.Gather | applypatch/bsdiff.c:65-76 | moves the entries of the least key in a short range to its front, all of one key, and nothing else changes |
| SuffixSort.PartFront | applypatch/bsdiff.c:91-102 | sends every entry of the front part where its key belongs, the invariant kept |
| SuffixSort.PartMiddle | applypatch/bsdiff.c:104-111 | and every entry left in the middle part |
| SuffixSort.Partition | applypatch/bsdiff.c:83-111 | splits a range into less, equal and greater keys: the middle is uniform on 2h bytes, and each part comes before the next |
| SuffixSort.NumberGroup | applypatch/bsdiff.c:115-116 | numbers a group with its last place and marks a group of one as sorted |
| SuffixSort.SplitShort | applypatch/bsdiff.c:64-81 | selection sort of a short range by 2h bytes, with the invariant kept |
| SuffixSort.Split | applypatch/bsdiff.c:60-119 | sorts a range by 2h bytes in place by ternary recursion; outside nothing moves, and every key read lies inside V |
| SuffixBuckets.SlotOrder | applypatch/bsdiff.c:126-132 | the places of the first pass are distinct and follow the first bytes |
| SuffixBuckets.FindSlot | applypatch/bsdiff.c:132-133 | every place from 0 to the length is some suffix's place |
| SuffixBuckets.SmallerAll | applypatch/bsdiff.c:126-128 | the running sums over all byte values add up to the length |
| SuffixBuckets.BucketState | applypatch/bsdiff.c:134-137 | after the first pass the sort's invariant holds for one byte |
| SuffixBuckets.BucketSingle | applypatch/bsdiff.c:136-137 | exactly one suffix in a bucket of size one, which may be marked sorted |
| SuffixArrays.PlaceSuffixes | applypatch/bsdiff.c:126-132 | counting sort by the first byte: every suffix stands in its slot, and buckets hold where each byte ends |
| SuffixArrays.Begin | applypatch/bsdiff.c:126-137 | I and V after the first pass satisfy the invariant for h = 1 |
| SuffixArrays.GroupPending | applypatch/bsdiff.c:146-148 | at an unsorted entry the group runs to the place its number gives, and all its keys are in range |
| SuffixArrays.Pass | applypatch/bsdiff.c:140-153 | one pass doubles the number of bytes that groups are sorted by, and past the length leaves everything sorted |
| SuffixArrays.AllDone | applypatch/bsdiff.c:139-156 | when every suffix is its own group, V is the inverse of the suffix array |
| SuffixArrays.QSufSort | applypatch/bsdiff.c:121-157 | terminates with I the suffix array of the text, the empty suffix first |
| DiffSearch.MatchLength | applypatch/bsdiff.c:159-167 | the length of the longest common prefix of two tails |
| DiffSearch.MatchLenAgrees | applypatch/bsdiff.c:159-167 | and that far the two tails are the same |
| DiffSearch.SearchKeeps | applypatch/bsdiff.c:169-193 | as long as a suffix that begins with the wanted byte stays between the bounds, bisection ends with a match |
| DiffSearch.SearchFinds | applypatch/bsdiff.c:169-193 | search returns a positive length exactly when the first byte occurs in the old file |
| BsDiff.CountUpTo | applypatch/bsdiff.c:287-290 | the score becomes the count of agreeing positions up to the end of the match |
| BsDiff.RollForward | applypatch/bsdiff.c:295-297 | taking the first position off the score leaves the count over the window that is left |
| BsDiff.ScanAhead | applypatch/bsdiff.c:283-301 | stops at the first position whose match is as long as the old offset scores, and not empty, or longer by more than 8; the score is always the recount of agreeing positions and never negative |
| BsDiff.StopsAt | applypatch/bsdiff.c:291-293 | which matches stop the scan: those as long as the old offset scores and not empty, and those more than eight longer |
| BsDiff.ExtendForward | applypatch/bsdiff.c:304-309 | the shortest extension of greatest worth, 2 times hits minus length |
| BsDiff.ExtendBackward | applypatch/bsdiff.c:311-318 | the same towards the front |
| BsDiff.WorthExample | applypatch/bsdiff.c:304-318 | extensions count two for a byte that agrees, less one for each byte |
| BsDiff.DivideOverlap | applypatch/bsdiff.c:320-333 | the first best place to divide an overlap |
| BsDiff.Fit | applypatch/bsdiff.c:304-333 | the extensions after trimming neither overlap nor leave the files |
| BsDiff.EmitDiff | applypatch/bsdiff.c:335-337 | appends the bytewise differences that the decoder's addition undoes |
| BsDiff.EmittedStep | applypatch/bsdiff.c:335-361 | emitting a triple spells the target as far as the next scan position, and the decoder's old position tracks lastpos |
| BsDiff.Diff | applypatch/bsdiff.c:243-362 | the triples, difference bytes and extra bytes spell the target exactly, with no length negative and the streams used up |
| PatchStream.OutputExtends | applypatch/bspatch.c:193-246 | what a prefix of the triples produces does not depend on what comes behind it |
| LittleEndian.LeRoundTrip | applypatch/utils.c:22-65 | a number that fits is read back from its bytes, lowest first |
| LittleEndian.LeFour | applypatch/utils.c:45-54 | four bytes are the number in which each is worth 256 times the one before |
| Encoding.OfftRoundTrip | applypatch/bsdiff.c:195-211 | the sign-magnitude form is read back exactly when the magnitude is below 2^63 |
| Encoding.Write4Read4 | applypatch/utils.c:22-43 | a 4-byte little-endian number is read back exactly when it fits 32 bits with sign |
| Encoding.Read4Exactly | applypatch/utils.c:22-54 | of all four bytes only those written for a number are read as it |
| Encoding.Write8Read8 | applypatch/utils.c:29-65 | an 8-byte little-endian number is read back exactly when it fits 64 bits with sign |
| BsPatch.WritePatch | applypatch/bsdiff.c:243-403 | writes header and three compressed streams, the lengths filled in afterwards; the file decodes to the target |
| BsPatch.FillBuffer | applypatch/bspatch.c:84-98 | fills just the part asked for with the next bytes of the stream; when they run out, fails behind the end of the stream, and never returns when its input has broken off |
| BsPatch.AddOld | applypatch/bspatch.c:220-225 | adds old bytes in place, modulo 256, where they exist, and touches nothing else |
| BsPatch.OneTriple | applypatch/bspatch.c:207-243 | one round of the decoder: the new bytes, or the fault that the sizes give |
| BsPatch.ControlLoop | applypatch/bspatch.c:193-246 | the in-place decoder computes what the decoding function says, errors included |
| BsPatch.ApplyPatchMem | applypatch/bspatch.c:123-252 | so does the whole decoder from the header on, for any patch and place: target, corruption in the order of the checks, no return, or Undefined where the C code reads behind the patch |
| BsPatch.DecodeRun | applypatch/bspatch.c:193-246 | from any triple on, decoding what the differ emitted yields the rest of the target and ends with the control stream |
| BsPatch.PatchRoundTrip | applypatch/bspatch.c:123-252 | decoding a written patch gives the target, wherever the patch stands in a larger file |
| BsPatch.StallsFrom | applypatch/bspatch.c:84-98 | from any triple on, decoding never returns exactly when some more triples get through and the next asks a broken stream for more than it has |
| BsPatch.EndlessExactly | applypatch/bspatch.c:84-246 | when the whole decoder never returns, from the header and the streams |
| BsPatch.EndlessExample | applypatch/bspatch.c:84-98 | a bare header that asks for one byte is such a patch |
| BsPatch.LoopExactly | applypatch/bspatch.c:193-246 | the control loop is done exactly when some first triples pass and spell a file of the wanted size, which is their output; it fails exactly when after some that pass one overruns, or asks a stream that is whole for more |
| BsPatch.DoneExactly | applypatch/bspatch.c:123-252 | when the whole decoder gives a file, for any patch, from the header and the triples |
| BsPatch.CorruptExactly | applypatch/bspatch.c:123-252 | and when it answers that the patch is corrupt |
| BsPatch.LayoutExample | applypatch/bsdiff.c:243-403 | a patch byte by byte: magic, three lengths, triples, difference and extra bytes |
| ImageFormat.HeaderSizeIsWritten | applypatch/imgdiff.c:936-952 | the computed total header size equals the bytes actually written |
| ImageFormat.OffsetIsPlace | applypatch/imgdiff.c:941-1005 | the offset recorded for each patch is where that patch stands in the file |
| ImageFormat.WriteImage | applypatch/imgdiff.c:936-1005 | writes the header, a record for each chunk with running offsets, and the patches |
| ImageFormat.FileLayoutExample | applypatch/imgdiff.c:936-1005 | a file of a normal, a deflate and a raw record, byte by byte |
| ImagePatch.ApplyImagePatch | applypatch/imgpatch.c:38-219 | the record parser and chunk reconstruction compute what the sinking function says, for a sink of any size: success with what was written and hashed, failure, or reads outside |
| ImagePatch.SinkMeans | applypatch/imgpatch.c:38-219 | with room for the output, applying succeeds exactly when every record decodes, and the file and the hash get that output |
| ImagePatch.RecordReads | applypatch/imgpatch.c:56-213 | each kind of record is parsed back and yields its chunk of the target |
| ImagePatch.RecordMeans | applypatch/imgpatch.c:60-216 | what any written record gives, whatever its source and patch are worth: a corrupt normal chunk gives nothing, and a deflate chunk is refused when its source does not inflate to the length recorded |
| ImagePatch.CutOffRefused | applypatch/imgpatch.c:60-116 | a record cut off by the end of the file, at any place, is refused |
| ImagePatch.OtherRefused | applypatch/imgpatch.c:60-213 | a record of no known kind is refused; a negative length of raw data is left undefined |
| ImagePatch.ApplyRun | applypatch/imgpatch.c:60-216 | from any record on the rest of the target comes out and the cursor ends behind the header |
| ImagePatch.ImageRoundTrip | applypatch/imgpatch.c:38-219 | a file written from records that yield the target's pieces decodes to the target |
| ImagePatch.CutUnnoticed | applypatch/imgpatch.c:85-213 | applied to a sink that may be too small, a good file ends with success exactly when all raw and deflate chunks fit; the sink then holds the target as far as there is room |
| ImagePatch.CutExample | applypatch/imgpatch.c:85-119 | a file of one normal chunk is applied with success to a sink without any room |
| ImagePatch.CutIsShort | applypatch/imgpatch.c:38-219 | on any sink a success has sunk and hashed the whole output, or hashed less than that |
| ImagePatch.CutBehind | applypatch/imgpatch.c:85-119 | a raw chunk and then a normal one, cut behind the first byte of the normal one: success, with the hash of the raw chunk alone |
| ImageChunks.MergeAdjacentNormalChunks | applypatch/imgdiff.c:704-752 | compacts the array in place to the merged list |
| ImageChunks.MergedTiles | applypatch/imgdiff.c:704-752 | the merged chunks still tile the image |
| ImageChunks.MergedDeflates | applypatch/imgdiff.c:704-752 | the deflate chunks and their order are untouched |
| ImageChunks.MergedApart | applypatch/imgdiff.c:704-752 | no two normal chunks are left side by side |
| ImageChunks.MergedParallel | applypatch/imgdiff.c:819-907 | lists of the same kinds stay of the same kinds and length, so merging never goes awry |
| ImageChunks.MergedWellFormed | applypatch/imgdiff.c:704-752 | merged chunks still describe the image's bytes |
| ImageChunks.TilesSpell | applypatch/imgdiff.c:936-1005 | the pieces of a tiling joined are the image |
| ImageDiff.TryReconstruction | applypatch/imgdiff.c:521-558 | comparing in buffers finds out whether deflating again gives the chunk's bytes |
| ImageDiff.ReconstructDeflateChunk | applypatch/imgdiff.c:566-591 | success means that the chosen level reproduces the chunk; failure that levels 6 and 9 both do not |
| ImageDiff.FixChunk | applypatch/imgdiff.c:847-888 | a target chunk stays deflated exactly when deflating its data at level 6 or 9 gives its bytes and it has a partner that is not the same deflate stream; otherwise both become normal, and all chunks so far are ready |
| ImageDiff.FindOther | applypatch/imgdiff.c:754-765 | turning a chunk normal leaves the partners of other names as they are |
| ImageDiff.MakePatch | applypatch/imgdiff.c:599-661 | the record made for a chunk yields that chunk's bytes of the target; exactly the normal chunks of at most 160 bytes, or no longer than their patch, are kept raw |
| ImageDiff.SourceFits | applypatch/imgdiff.c:909-934 | after fixing, a deflate chunk is patched from a chunk of its name, a normal one of a zip from the whole source, those of an image from the chunk at the same place; the source is of the same kind |
| ImageDiff.PatchChunks | applypatch/imgdiff.c:909-1005 | the file written for fixed chunks decodes to the target |
| ImageDiff.DiffImages | applypatch/imgdiff.c:816-907 | in image mode a patch comes out exactly when the merged lists have the same shape, and it rebuilds the target |
| ImageDiff.DiffZips | applypatch/imgdiff.c:847-1005 | in zip mode a patch comes out exactly when no name of the target runs out of partners, and it rebuilds the target |
| ImageDiff.SpentOther | applypatch/imgdiff.c:847-888 | whether a name runs out of partners does not depend on what is done to chunks of other names |
| ImageDiff.DistinctUnspent | applypatch/imgdiff.c:847-934 | no name runs out when none repeats in the target |
| ImageDiff.SpentExample | applypatch/imgdiff.c:847-934 | two target entries of one name and one source entry, for which it does |
| ImageRead.ReadImage | applypatch/imgdiff.c:368-511 | the scanning loop computes the reading function: chunks, refusal, malformed stream, or no end |
| ImageRead.GzipReads | applypatch/imgdiff.c:395-478 | a gzip section anywhere in an image (header, stream, checksum, length) is read as three chunks in front of what the rest gives, and refused when the length is not that of what the stream holds |
| ImageRead.PlainReads | applypatch/imgdiff.c:479-504 | bytes in which no gzip magic begins are one normal chunk in front of what the rest gives |
| ImageRead.ReadTiles | applypatch/imgdiff.c:368-511 | the chunks read tile the image and describe its bytes |
| ImageRead.EndlessExactly | applypatch/imgdiff.c:395-504 | reading never ends exactly when the scan comes to half a gzip magic at the end, or to a header behind which inflating never ends |
| ImageRead.EndlessExample | applypatch/imgdiff.c:479-504 | the three bytes 1f 8b 08 alone are such an image |
| ImageRead.CutOffExample | applypatch/imgdiff.c:444-453 | a gzip header with nothing behind it is one that does not end in half a magic |
| ImageRead.ReadZip | applypatch/imgdiff.c:293-353 | the chunks of a zip file tile it; every deflate chunk is some entry's (place, length, name, inflated data), and every entry inside the file has one; entries that do not overlap and lie inside the file are cut exactly when each inflates to its recorded size, and the failure says what is wrong |
| ImageMain.PatchForImage | applypatch/imgdiff.c:774-1005 | from two images to a patch file, which rebuilds the target |
| ImageMain.PatchForZip | applypatch/imgdiff.c:774-1005 | from two zip files with their directories to a patch file: what comes out rebuilds the target, and with sound directories and no name twice in the target it comes out exactly when all entries inflate to their sizes |
| CodecWitness.LawsCanBeMet | applypatch/bspatch.c:147-191 | there are codecs that meet all the laws the round trips ask for |
| PatchRun.ParseSha1 | applypatch/applypatch.c:426-450 | 40 hex digits and nothing else give the 20 bytes they spell |
| PatchRun.Sha1Exactly | applypatch/applypatch.c:426-450 | a string is read as a digest exactly when it has 40 characters, each the digit that printing the digest gives there, in lower or upper case |
| PatchRun.PrintedBack | applypatch/applypatch.c:426-450 | so what is printed is read back, in either case |
| PatchRun.DigestAlone | applypatch/applypatch.c:426-450 | a digest with anything behind it is refused |
| PatchRun.FindMatchingPatch | applypatch/applypatch.c:455-466 | the first patch whose key parses to the hash |
| CrashSafety.FreeCacheKeeps | applypatch/freecache.c:128-172 | making room on the cache touches neither source, target nor saved copy, also at a crash |
| CrashSafety.FreeCacheSpares | applypatch/freecache.c:110-172 | making room leaves alone, at every step, a file that is open, is the saved copy, or is not listed |
| CrashSafety.FreeCacheStops | applypatch/freecache.c:128-172 | files are deleted one at a time, none while there is room; it fails only when nothing is left to delete or the open files cannot be found out |
| CrashSafety.BackupSound | applypatch/applypatch.c:729-758 | at every step of backing up the source, the source or the saved copy is good, and afterwards the copy is |
| CrashSafety.AttemptsSound | applypatch/applypatch.c:690-847 | the retry loop passes through sound states only |
| CrashSafety.AttemptsMade | applypatch/applypatch.c:792-847 | when the attempts succeed, what the last one left and what it hashed is what the decoder makes, or what a cut that it does not notice left of that |
| CrashSafety.FinishSound | applypatch/applypatch.c:849-888 | so do the hash check, the renaming and the removal of the copy, when what is renamed has the hash that was taken |
| CrashSafety.RunSound | applypatch/applypatch.c:593-889 | a run started in a sound state passes through sound states only, whatever fails, reading and unlinking included, unless it is fooled by the hash of a cut output; and exits with 0 only when the target is done |
| CrashSafety.AlwaysSound | applypatch/applypatch.c:565-592 | over any runs and crashes, none of them fooled: the target is done, or source or saved copy can be patched; and the target is done, as it was, or (when it is its own source) away, never half written |
| CrashSafety.SuccessStays | applypatch/applypatch.c:565-573 | after a run that exited with 0, not fooled, all later runs that can read the target change nothing |
| CrashRecovery.AttemptsEnd | applypatch/applypatch.c:690-847 | the attempts succeed, fail or do not return exactly by their guards: room, backup, how the temporary file is written, and what the patch makes |
| CrashRecovery.RunExactly | applypatch/applypatch.c:593-889 | a run exits with 0, with 1 or not at all exactly by its guards, the hash of what was hashed among them; after a 0 the target holds what the last attempt left |
| CrashRecovery.UnreadMeans | applypatch/applypatch.c:610-667 | files that cannot be read are as if not there: without any the run exits with 1 and does nothing, without the source it turns to the saved copy |
| CrashRecovery.ExitCode | applypatch/applypatch.c:593-889 | a run that can read the target and is not fooled exits with 0 exactly when it leaves the target done; else with 1, or not at all |
| CrashRecovery.CalmRunFinishes | applypatch/applypatch.c:593-889 | from any safe state a run whose calls work finishes, with room for the target or else on the cache, made by deleting if need be; so does one whose first attempt is cut short and whose second works; and the target holds what the patch makes of the source or else of the saved copy |
| CrashRecovery.OriginalTouchedExactly | applypatch/applypatch.c:565-568 | the original is away before the target is done exactly when the run backs it up; and, when not fooled, it is only then changed at all before that |
| CrashRecovery.RoomExactly | applypatch/applypatch.c:690-758 | in a run that nothing else disturbs the original is taken away exactly when the target's file system has at most 256 KiB, or at most one and a half times the target's size |
| CrashRecovery.OriginalAwayExample | applypatch/applypatch.c:690-758 | an update in place without room, during which the file is away |
| CrashRecovery.SourceLeftExactly | applypatch/applypatch.c:581-586 | a run, however it ends, leaves its source exactly when it does not back it up, or puts the new file in its place |
| CrashRecovery.SourceLostExample | applypatch/applypatch.c:690-758 | a successful run without room that ends with the source gone |
| CrashRecovery.StatesExample | applypatch/applypatch.c:690-888 | every state of that run, with the names of the files: copy, source away, output beside the target, target, copy away |
| CrashRecovery.TempIsSource | applypatch/applypatch.c:792-803 | with source named as the temporary file, a crash after opening it leaves an unsafe state |
| CrashRecovery.DeceptionLoses | applypatch/applypatch.c:802-888 | a cut that deceives, in a run without room: exit 0, source and copy gone, and the target not done |
| CrashRecovery.NeverLostExactly | applypatch/applypatch.c:792-888 | no run ever loses the data exactly when the temporary file is not the source and no patch has a cut that deceives |
| Patcher.Disk.MakeFreeSpaceOnCache | applypatch/freecache.c:128-172 | the deletion loop passes through the states of its specification and says whether there is room |
| Patcher.Disk.WriteFile | applypatch/applypatch.c:306-335 | opening, emptying and writing a file, with every content a crash may leave |
| Patcher.Disk.BackUp | applypatch/applypatch.c:744-757 | room, copy and unlinking pass through the states of the specification |
| Patcher.Disk.ApplyTo | applypatch/applypatch.c:792-831 | opening and writing the temporary file passes through the states of its specification, for each way decoding and writing may go, and gives what was hashed |
| Patcher.Disk.TryToApply | applypatch/applypatch.c:690-847 | the retry loop with its flags passes through the states of its specification, and hands on what the last attempt hashed |
| Patcher.Disk.ApplyPatch | applypatch/applypatch.c:593-889 | the whole function, which compares the hash taken while writing, reaches the files, passes through the states and returns the code of the specified run |
| PartitionLoad.LoadPartitionContents | applypatch/applypatch.c:119-301 | succeeds exactly when a listed pair matches before an error ends the search, and then returns the contents of the least size that matches, repeated sizes included |
| UpdateEndToEnd.FittingPatches | applypatch/applypatch.c:455-466 | of the data a run meets, all that can be patched is a listed source and becomes the target, when none of it collides with a listed source |
| UpdateEndToEnd.FittingIsGood | applypatch/applypatch.c:815-826 | so with patches that fit, the patches for the source and the saved copy found are good |
| UpdateEndToEnd.DecoderBrief | applypatch/imgpatch.c:38-219 | the decoders, when they take a cut output for all of it, have hashed less than all |
| UpdateEndToEnd.FittingUnfooled | applypatch/applypatch.c:849-853 | so a run with patches that fit is not fooled, when what it hashes does not collide with the listed files |
| UpdateEndToEnd.UpdateArrives | applypatch/applypatch.c:565-592 | after any runs and crashes one run that nothing disturbs, or only a first attempt cut short, leaves exactly the new file in place, when nothing that the runs hash collides with the listed files |
| UpdateEndToEnd.ArrivesExample | applypatch/applypatch.c:593-889 | a configuration and a hash with collisions elsewhere that meet all of this |
| UpdateEndToEnd.CutLoses | applypatch/imgpatch.c:85-119 | with the real decoder, an image patch and a hash for which updating in place loses the data |
| UpdateEndToEnd.MakeUpdate | applypatch/bsdiff.c:243-403 | a binary patch made by the differ fits |
| UpdateEndToEnd.MakeImageUpdate | applypatch/imgdiff.c:774-1005 | so does a chunked patch made for an image of the same shape |
| HashSlots.ProbeEnds | minzip/Hash.c:191-212 | with fewer than all slots used, a probe meets an empty slot before it comes round |
| HashSlots.AbsentAt | minzip/Hash.c:191-212 | an empty slot at the end of a probe means that the key is in no slot |
| HashSlots.AddSlot | minzip/Hash.c:214-240 | filling the slot where the probe ended keeps every entry reachable from its home |
| HashSlots.RemoveSlot | minzip/Hash.c:255-285 | a tombstone keeps every other entry reachable |
| HashSlots.CountSet | minzip/Hash.c:150-170 | how setting one slot changes the counts of live entries and tombstones |
| RoundUp.RoundUpBitsIsLeast | minzip/Hash.c:30-46 | the bit smearing gives the least power of two not below its argument |
| RoundUp.RoundUpAgrees | minzip/Hash.c:30-46 | and the number it gives is the power of two that the table is made with |
| HashTables.CapacityHolds | minzip/Hash.h:79-85 | a table made with mzHashSize(n) takes n entries without growing, being at most five eighths full |
| HashTables.HashSizeLeast | minzip/Hash.h:79-85 | mzHashSize(n) is the least size that n entries leave less than five eighths full |
| HashTables.AddIsLoose | minzip/Hash.c:214-240 | adding keeps reachability, the counts and the map, before the load is checked |
| HashTables.RemoveIsSound | minzip/Hash.c:255-285 | removing leaves exactly the map without the key |
| HashTables.MovingEnd | minzip/Hash.c:137-172 | when all slots are moved the new table holds the same map and no tombstone |
| HashTables.HashTable.Create | minzip/Hash.c:48-72 | an empty map in a power-of-two table of at least the size asked for |
| HashTables.HashTable.Clear | minzip/Hash.c:74-97 | the empty map |
| HashTables.HashTable.CountTombStones | minzip/Hash.c:111-124 | the true number of tombstones, so the asserted equality holds |
| HashTables.HashTable.Resize | minzip/Hash.c:137-172 | doubles the table, drops tombstones and keeps the map |
| HashTables.HashTable.Lookup | minzip/Hash.c:179-248 | finds the item of a key that is there; else adds the given one, growing when loaded, or reports none |
| HashTables.HashTable.Remove | minzip/Hash.c:255-285 | takes out the item exactly when it is there, and counts the tombstone |
| HashTables.HashTable.IterNext | minzip/Hash.h:152-171 | steps to the next live entry and skips none |
| ZipDirectory.NameCmpTransitive | minzip/Zip.c:278-313 | the comparison of names is transitive |
| ZipDirectory.NameCmpMeans | minzip/Zip.c:249-313 | the comparison of names is the lexicographic one: behind a common front the first ends or has the smaller byte |
| ZipDirectory.FindTarget | minzip/Zip.c:281-313 | bisection finds a place with smaller or equal names before and greater or equal names behind |
| ZipDirectory.InsertSorted | minzip/Zip.c:278-326 | shifting and inserting keep the entries sorted and lose none |
| ZipDirectory.SortEntries | minzip/Zip.c:249-392 | the entries are a sorted permutation of the directory |
| ZipDirectory.IndexRecords | minzip/Zip.c:249-403 | every name of the directory is found, with an entry of that name, and no other name |
| ZipDirectory.FindZipEntry | minzip/Zip.c:505-512 | finds a name exactly when it is in the table |
| ZipDirectory.PrefixBetween | minzip/Zip.c:984-1022 | between two sorted names with a prefix all have it |
| ZipDirectory.BlockEnds | minzip/Zip.c:984-1022 | after the first mismatch behind a match nothing matches any more |
| ZipDirectory.Walk | minzip/Zip.c:984-1022 | the walk that stops early visits exactly the entries that a full scan for the prefix would |
| ZipDirectory.VisitBelow | minzip/Zip.c:952-1022 | exactly the entries are visited whose name is the directory (without one slash at its end), a slash, and anything; all when the directory is empty; in order |
| WholeFileSignature.FindEocd | minzip/Zip.c:212-224 | the backward scan stops at the last record mark with room for a record |
| WholeFileSignature.HashPart | verifier.c:148-166 | the chunks handed to the hash are the first bytes of the file in order |
| WholeFileSignature.VerifyFile | verifier.c:31-185 | fails unless the footer's record passes, then succeeds exactly when some key signs the covered part; for a package as it is made, with room for a signature, success is that some key signs all in front of the comment's length with the 256 bytes that end six bytes from the end |
| WholeFileSignature.PackageFits | verifier.c:60-135 | a package as it is made (body, record, comment that ends in the distance of the signature's block, ff ff and its own length) passes exactly when that distance is at least 262 |
| WholeFileSignature.PackageExample | verifier.c:60-135 | a package of a record and a comment of 280 bytes, byte by byte |
| WholeFileSignature.ReaderAgrees | verifier.c:91-135 | the record that passes is the one the archive reader finds, and the file is the hashed part, the two length bytes and the comment |
| FlashBlocks.AgreeExactly | mtdutils/mtdutils.c:290-329 | when reader and writer use the same blocks, wherever they start |
| FlashBlocks.AttemptsExample | mtdutils/mtdutils.c:416-471 | a block that works at either of two attempts is filled, also when its mark cannot be read; others are passed over |
| FlashBlocks.UnsupportedExample | mtdutils/mtdutils.c:316-329 | a block whose bad-block query is unsupported, written and not read |
| FlashBlocks.StaleExample | mtdutils/mtdutils.c:290-329 | a good block passed over for errors of the block before it |
| FlashBlocks.StreamNext | mtdutils/mtdutils.c:410-477 | the next block filled is the next part of the stream |
| Mtd.Writer.TryBlock | mtdutils/mtdutils.c:430-471 | two attempts to erase, write and verify; the block holds the data or is erased |
| Mtd.Writer.WriteBlock | mtdutils/mtdutils.c:410-477 | the data goes to the first block that takes it, those before it are noted, and no written block changes; on failure all blocks are noted and the position is where the C code leaves it |
| Mtd.HeadExactly | mtdutils/mtdutils.c:430-471 | after a write that found no block, the position is behind the last block that could be erased, or where it was |
| Mtd.Writer.Coalesce | mtdutils/mtdutils.c:483-496 | completes a block that was begun and writes it when full |
| Mtd.Writer.PutWhole | mtdutils/mtdutils.c:498-502 | writes complete blocks directly |
| Mtd.Writer.WriteData | mtdutils/mtdutils.c:479-506 | takes all data exactly when it fits, behind what came before, and leaves the blocks ahead alone |
| Mtd.Writer.EraseBlocks | mtdutils/mtdutils.c:508-547 | pads and writes a begun block, then erases the blocks asked for; a block marked bad or that cannot be erased is passed over, and nothing written and nothing behind them changes |
| Mtd.Writer.Close | mtdutils/mtdutils.c:549-559 | what waits is written with zeros behind it |
| Mtd.Writer.FindWriteStart | mtdutils/mtdutils.c:564-574 | the first block at or after a place that was not passed over |
| Mtd.SkippedExactly | mtdutils/mtdutils.c:401-408 | the blocks noted are those passed over, in order |
| Mtd.SkippedOn | mtdutils/mtdutils.c:401-408 | noting goes on where it stopped: what consecutive writes note joins to one list |
| FlashBlocks.StreamLength | mtdutils/mtdutils.c:479-506 | a partition holds the block size times the number of blocks that are filled |
| Mtd.Reader.ReadBlock | mtdutils/mtdutils.c:290-329 | reads the next block that reads well, with the error count noted only where the code notes it |
| Mtd.Reader.TakeBuffered | mtdutils/mtdutils.c:335-341 | takes what the buffer still has |
| Mtd.Reader.TakeWhole | mtdutils/mtdutils.c:344-348 | reads complete blocks directly |
| Mtd.Reader.ReadData | mtdutils/mtdutils.c:331-362 | the next bytes of the stream, exactly when there are so many |
| Mtd.WriteAll | mtdutils/mtdutils.c:479-559 | any sequence of writes and a close puts the padded payload on the partition |
| Mtd.RoundTrip | mtdutils/mtdutils.c:331-559 | any reads then return the payload and zeros, however both sides are cut and wherever the bad blocks are |
| AlignedIo.PWrite | mtdutils/rk29.c:316-318 | a write of a block puts on the device as much as it has room for, or nothing when it fails |
| AlignedIo.PatchBlock | mtdutils/rk29.c:303-314 | read, patch and write back changes only the part patched |
| AlignedIo.WriteBytes | mtdutils/rk29.c:272-335 | exactly the bytes up to the first block that is missing or fails change, and those of a block that only begins on the device |
| AlignedIo.FWrite | mtdutils/rk29.c:272-339 | and the items reported and the stream position follow |
| AlignedIo.ReportedRight | mtdutils/rk29.c:303-314 | when the report is the number of bytes that got onto the device |
| AlignedIo.OverReported | mtdutils/rk29.c:303-320 | a write begun inside a block that fails reports bytes that are not there |
| AlignedIo.UnderReported | mtdutils/rk29.c:314-330 | a block that only begins on the device is written in part and not reported |
| AlignedIo.AllWritten | mtdutils/rk29.c:272-335 | without failures, and without running over a device's odd end, the whole range that the device has is written and reported |
| AlignedIo.ReadBytes | mtdutils/rk29.c:208-266 | copies out exactly the bytes of the range that the device has |
| AlignedIo.FRead | mtdutils/rk29.c:208-270 | and the items and the stream position follow |
| AlignedIo.WriteThenRead | mtdutils/rk29.c:208-339 | reading a written range gives the data, and every other byte is as it was |
| Crc.WordStep | update_engine/flash_image.cpp:399-411 | mixing in a word and taking in four zero bytes is taking in its four bytes, for any table |
| Crc.Crc32Le | update_engine/flash_image.cpp:385-422 | the word-at-a-time form gives the bytewise checksum for every buffer, length and start address |
| Crc.IavbCrc32 | update_engine/rkbootloader.cpp:121-129 | the bytewise form gives the same checksum |
| Crc.TableIsBitwise | update_engine/rkbootloader.cpp:56-119 | with the table filled as section 8 of RFC 1952 says, that is the checksum bit by bit |
| CrcTable.EntryIsBitwise | update_engine/rkbootloader.cpp:56-100 | each of the 256 words is what eight bit steps make of its index |
| CrcTable.ChecksumIsBitwise | update_engine/rkbootloader.cpp:121-129 | so the checksum with that table is the bitwise one with both ends inverted |
| Crc16.BuildTable16 | update_engine/crc.cpp:101-121 | each entry is eight bit steps of its index, for any polynomial |
| Crc16.BitStep | update_engine/crc.cpp:112-117 | a step of the table's remainder and a step over the data differ by the shifted old remainder only |
| Crc16.ByteAgrees | update_engine/crc.cpp:130-131 | taking in a byte by the table is taking in its eight bits |
| Crc16.CrcCalculate | update_engine/crc.cpp:218-235 | eight steps over the bits of a byte, the highest first |
| Crc16.Crc16 | update_engine/crc.cpp:123-134 | the table-driven checksum is the fold of the bitwise one from 0 |
| Crc16.CrcCcitt | update_engine/crc.cpp:236-245 | the fold of the bitwise one from all ones |
| Crc16.CheckValues | update_engine/crc.cpp:100-245 | the check values of the generator x^16 + x^12 + x^5 + 1: 31c3 and 29b1 for "123456789" from 0 and from all ones |
| CStrings.Strlcpy | strlcpy.c:27-50 | copies what fits with a NUL behind it, leaves the rest of the buffer, and returns the source's length |
| CStrings.Strlcat | strlcat.c:29-55 | appends what fits with a NUL behind it, or nothing when there is no end in the buffer, and returns the length tried for |
| BootControl.Strtok | recovery.c:203-210 | takes the next non-empty line off the string in place |
| BootControl.ParseMessage | recovery.c:202-216 | the lines of the field, when the first is the program's name, at most 100 |
| BootControl.Serialize | recovery.c:239-244 | the field holds the program's name and the arguments, a line each, cut off at its size |
| BootControl.StoredExactly | recovery.c:200-245 | when what is written is read back as the same arguments |
| BootControl.ForgottenExample | recovery.c:200-245 | an empty argument does not come back |
| CommandFile.ReadLines | recovery.c:218-233 | the loop over the command file gives the program's name and the tokens of the pieces that fgets cuts, at most 100 together, or breaks off at a piece without a token |
| CommandFile.TokenExactly | recovery.c:228 | a piece has a token exactly when something but line ends stands before its first NUL |
| CommandFile.TokenPlace | recovery.c:228 | and it is what stands behind the first line ends, up to a line end or a NUL |
| CommandFile.LinesRead | recovery.c:218-233 | plain lines are read off one by one, whatever stands behind them |
| CommandFile.FileRead | recovery.c:218-233 | a file of plain lines, ended by newlines with or without carriage returns, gives these lines, as many as are wanted |
| CommandFile.LinesExample | recovery.c:218-233 | two lines, with either kind of end |
| CommandFile.LongLine | recovery.c:224-228 | a line of more than 4095 bytes is cut there and the rest taken for another |
| CommandFile.BlankLine | recovery.c:228 | an empty line that is reached breaks the reading off |
| BootControl.Device.GetArgs | recovery.c:186-246 | a command line of more than the program's name wins, whatever block and file hold; else the lines of a block that begins with "recovery"; else, of an empty block, the lines of the command file; the arguments found are in the block afterwards, which stays as it was when reading the file breaks off |
| BootControl.CommandKept | recovery.c:186-246 | a command file of plain lines is obeyed, and if they fit the block the next boot finds them there |
| BootControl.Device.Reboot | recovery.c:81-141 | every reboot before the end finds the same arguments and leaves the same text |
| BootControl.Device.FinishRecovery | recovery.c:290-320 | clears the block but for the flag and removes the command file |
| BootControl.NothingLeft | recovery.c:284-320 | the boot after that finds nothing to do |

## Left out

- UI, key handling, logging, mounting, formatting, downloads and process spawning: they promise nothing that could be proved here.
- Partition sources and targets (MTD: and EMMC:) of the patcher: the re-run for such targets is not covered by the invariant of regular files.
- Insides of bzip2, zlib, SHA-1, RSA, qsort and bsearch: functions with the laws named above.
- BsDiff.Diff: does not say which of the patches that spell the target is emitted; its size is not promised, and search does not
  always find the longest match, because comparing a suffix that is a proper prefix goes to the left.
- BsPatch.ApplyPatchMem: where the C code reads behind the patch, or a length in a triple is negative, the outcome is Undefined.
- ImageDiff.DiffZips: where a chunk has lost its partner the C code writes a file with a length never set; the model gives none.
- ImageRead.ReadZip: starts from the sorted directory; parsing its records is not modelled. An entry that overlaps the one
  before it or runs over the end of the file has the outcome Malformed.
- ImageChunks.MergeAdjacentNormalChunks: a chunk is either normal, deflate or raw, so stale fields of another kind are not represented.
- HashTables.HashTable.Lookup: masks with the size minus one are written as remainders, and freeing of items is not modelled.
- HashTables.HashTable.Resize: memory never runs out.
- ZipDirectory.IndexRecords: starts from the records' names; the other checks of the records are not modelled.
- ZipDirectory.VisitBelow: models which entries are visited; extraction itself and its return value are not modelled.
- WholeFileSignature.VerifyFile: a comment too short for the signature makes the C code read before its buffer; this is the outcome Outside.
- PatchRun.ParseSha1: strings end where they end; no NUL inside them.
- CrashSafety.AlwaysSound: a crash leaves any content in the file being written, and whole effects otherwise; directory updates are atomic.
- Patcher.Disk.ApplyPatch: the target named "-" is taken to be replaced by the source's name beforehand; changing owner and mode either works or fails as a whole.
- UpdateEndToEnd.UpdateArrives: a decoder that fails or does not return is taken to have written nothing; the other theorems
  allow any output. A sink for the chunked decoder is one with so much room.
- PatchRun.WholeRun: a file that cannot be read stays so for the run; a decoder that does not return ends the run with the code NEVER,
  after which only a kill helps.
- PartitionLoad.LoadPartitionContents: starts from the pairs of the name and from any order that sorting may give them.
- Mtd.Writer.WriteBlock: places are counted in blocks, and the part of a partition behind its last whole block is left out.
- AlignedIo.FWrite: reading a block that is there works.
- CommandFile.ReadLines: a failing read is the end of the file.
- BootControl.Device.GetArgs: reading and storing the block work, and storing is atomic.
- The IDB layout, the BCH and Galois tables, RC4, GPT fields, A/B slots, edify and safe_iop: only easier members beside these.
