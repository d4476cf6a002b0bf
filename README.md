# F.E.A.R. archive tools, modelled in Dafny

This project models the archive readers of the F.E.A.R. modding tools.

**dsPack reader.** At its centre is the dsPack reader (`dsPACKExtractor.py`), which has these parts:

- **MiniPack decompressor.** An LZ decoder with control bytes read from the least significant bit up. Each flag selects either a literal byte or a back-reference with a 12-bit distance and a 4-bit length, copied byte by byte into a zero-filled buffer of the announced size.
  - `MiniPack` holds the reference definition, a small-step state machine `Run` over the two nested loops, and `Decode`.
  - The class `MiniPack.MiniPackDecompressor` decodes in place on an `array`, and each of its methods is proved equal to that definition.
  - Python's negative bytearray index, where a distance larger than the cursor reads from the end of the buffer, is written out (`PyIndex`).
- **Header parser.** `DsPackFormat.ParseHeader` takes the byte order from the two accepted magic patterns, then reads eight u32 fields. Each field is checked as soon as it is read: counts are at most 100000, and offsets lie inside the archive.
- **Directory readers.** They read 24-byte file and folder records, with signed parent indices and cross-reference checks. Names come from a table of NUL-terminated ASCII names.
  - `DsPackFormat` holds the functions.
  - The class `DsPack.DsPackFile` holds the methods that fill its `namesData`, `files` and `folders` fields step by step.
- **Folder paths.** `FolderPaths` builds paths by following parent links. The source has no cycle guard: a parent cycle makes its recursion run until Python gives up. The model makes this explicit. The path of a folder exists exactly when its parent chain reaches a root, and a cycle makes the build fail with `Cycle`.
- **Extraction plan.** `DsPackExtract.ExtractFile` is `extract_file`'s classification into empty, raw, flagged or decoded. `ExtractPlan` is the sequence of directory creations and file writes `extract_all_files` performs, with "[Compressed]" inserted before the extension of a flagged entry.

**Sibling tools.** These are modelled as byte-level functions of the file's bytes:

- `ArchFormat`/`ArchExtract` (`ArchExtractor.py`):
  - the three fixed-size record decoders;
  - `sanitize_filename` and `normalize_path`;
  - the name-table lookup;
  - the 4-byte-padded block framing of `decompress_zlib_blocks`, with raw DEFLATE inflation as a parameter;
  - the folder-and-file walk;
  - the compression-method dispatch.
- `Bndl` (`BndlExtractor.py`): the header, the padded name-table walk, and the record loop.
- `TexConvert` (`TexConverter.py`): stripping and prepending the 12-byte "TEXR" header.
- `Snd` (`SNDExtractor.py`): the 284-byte bank header, the 40-byte chunk header, and the chunk loop that turns each sound into `wavs/<stem>/<stem>_<i>.wav`.

**Shared modules.** `Bytes` holds the integer types (`byte`, `u16`, `u32`), the little- and big-endian codecs, and Python's short-read and slice semantics. `Results` holds `Option` and `Result`.

**What becomes a parameter.** The archive is a byte sequence, and its length plays the part of `os.path.getsize`. The following are parameters of the functions that use them:

- the output directory;
- the file stem;
- the inflater that stands for `zlib`.

Directory creation and file writes are returned as lists of actions, not performed.

**Behaviours of the code worth noting:**

- In `decompress`, a full output buffer breaks only the bit loop. The next control byte is still read, and a further literal then raises IndexError.
- `build_folder_paths` has no cycle guard.
- `extract_all_files` returns nothing. It reports a failed entry by printing, so the model has no aggregate success flag, only the actions.

## Model

**Reference definitions.** The functions below write out what a part of the source computes. They have no contract of their own. What they compute is stated by the members after the arrow, which have rows in the table.

- `Bndl.ExtractBundle` (BndlExtractor.py:44-108) → `BundleGates`, `ExtractBundleGated`, `BundleAssembled`, `BundleRoundTrip`.
- `Bndl.ReadName` (BndlExtractor.py:32-41) → `ReadNameAdvances`, `ReadNameAscii`, `NameEntryReads`.
- `Bndl.Records` (BndlExtractor.py:76-103) → `RecordsCount`, `RecordsNames`, `RecordsRoundTrip`, `ExtractRecords`.
- `Bndl.RecordAt` (BndlExtractor.py:80-92) → `RecordReads`, `ReadRecord`.
- `ArchExtract.Walk` and `ArchExtract.FolderRest` (ArchExtractor.py:204-234) → `WalkClaims`, `OverclaimFails`, `ProcessFoldersAndFiles`, `ProcessFolderFiles`.
- `ArchExtract.ReadFrame` (ArchExtractor.py:97-116) → `FrameReads`, `ReadBlock`.
- `ArchExtract.DecompressBlocks` (ArchExtractor.py:87-135) → `DecompressZlibBlocks`, `BlockStream`, `StoredRoundTrip`, `StoredFramesDecompress`.
- `DsPackFormat.FileRecord` and `DsPackFormat.FolderRecord` (dsPACKExtractor.py:245-325) → `Files`, `FileEntryFields`, `FolderEntryFields`, `FileRecordRoundTrip`, `FolderRecordRoundTrip`, and the methods `DsPack.DsPackFile.ReadFileEntry` and `ReadFolderEntry`.
- `DsPackExtract.FileActions` (dsPACKExtractor.py:397-417) → `FileActionsPlace`, `DsPack.ExtractEntry`.
- `DsPackExtract.OutputPath` (dsPACKExtractor.py:398-404) → `OutputPathInFolder`.
- `DsPackExtract.MarkCompressed` (dsPACKExtractor.py:409-413) → `MarkKeepsExtension`, `MarkKeepsDirectory`, `MarkedTexture`.
- `DsPackExtract.Join` and `DsPackExtract.Dirname` (dsPACKExtractor.py:402-415) → `DirnameOfJoin`.
- `FolderPaths.PathWithin` and `FolderPaths.PathOf` (dsPACKExtractor.py:331-343) → `PathWithinRoot`, `PathWithinMore`, `FuelSuffices`, `PathOfExists`, `RootPath`, `ChildPath`.
- `Snd.Convert` and `Snd.Chunks` (SNDExtractor.py:96-137) → `ConvertWith`, `ConvertSoundToWave`, `ChunksShape`, `ChunksRead`, `ConvertLaidOut`.
- `Snd.Wav` (SNDExtractor.py:160-171) → `WavHeader`, `WavHeaderLayout`, `ProcessChunk`.
- `Snd.WavPath` (SNDExtractor.py:104, 165) → `WavPathsDistinct`, `DecimalRoundTrip`.
- `TexConvert.Unpack` (TexConverter.py:18-27) → `PackRoundTrip`, `HeaderBytes`.

| member | source | states |
|---|---|---|
| Bytes.U32RoundTrip | dsPACKExtractor.py:204-220 | a u32 unpacked from the four bytes that pack it, in either byte order, is the value that was packed |
| Bytes.U32BytesOfDecode | dsPACKExtractor.py:204-220 | packing the value unpacked from four bytes gives those four bytes back |
| Bytes.ReadU32 | dsPACKExtractor.py:213 | `struct.unpack` of a 4-byte read succeeds exactly when four bytes remain, and then yields the word at that position |
| Bytes.I32 | dsPACKExtractor.py:261 | the signed reading of a word lies in [-2^31, 2^31), agrees with the unsigned one modulo 2^32, and is negative exactly when the top bit is set |
| Bytes.I32Bits | dsPACKExtractor.py:261 | every 32-bit signed value is the signed reading of its two's-complement word (so -1 is representable) |
| Bytes.U16RoundTrip | SNDExtractor.py:15 | a u16 unpacked from the two bytes that pack it is the value that was packed |
| Bytes.U16BytesOfDecode | SNDExtractor.py:15 | packing the value unpacked from two bytes gives those bytes back |
| Bytes.U32sLe | ArchExtractor.py:16-18 | unpacking `'<' + 'I' * n` yields one word per four bytes, word k being the little-endian word at offset 4k |
| Bytes.U32sLeRoundTrip | ArchExtractor.py:16-18 | unpacking a packed run of little-endian words gives the words back |
| Bytes.ReadAt | dsPACKExtractor.py:356-357 | `seek(pos); read(n)` yields n bytes when they exist, otherwise what is left (nothing past the end), each byte being the file's byte at its position |
| Bytes.Slice | dsPACKExtractor.py:241 | a Python slice with non-negative bounds is clipped to the sequence and holds its bytes in order |
| Bytes.PaddingAligns | ArchExtractor.py:113 | `(4 - n % 4) % 4` is below 4, brings n to a multiple of four, and is zero exactly for aligned n |
| Bytes.NulFrom | dsPACKExtractor.py:236-238 | the scan stops at the first NUL at or after the offset, or at the table end, and every byte it passes is non-zero |
| Bytes.NulAfterName | dsPACKExtractor.py:236-238 | a NUL-free name stored with a terminating NUL ends exactly at that NUL |
| Bytes.AsciiText | dsPACKExtractor.py:241 | ASCII decoding keeps the length and maps each byte to the character with its code |
| Bytes.LenientText | ArchExtractor.py:148 | lenient decoding yields at most as many characters as bytes |
| Bytes.LenientTextAscii | ArchExtractor.py:148 | on ASCII bytes, lenient decoding agrees with strict ASCII decoding |
| Bytes.LenientTextChars | BndlExtractor.py:37 | lenient decoding yields ASCII characters only |
| MiniPack.PyIndex | dsPACKExtractor.py:128 | an index k into a bytearray of length n is valid exactly when -n <= k < n, and a negative one counts from the end |
| MiniPack.FlagsAsBits | dsPACKExtractor.py:108-112 | flag k of a control byte is its binary digit of weight 2^k, so the bits are consumed from the least significant up |
| MiniPack.Distance | dsPACKExtractor.py:123 | a back-reference distance, the high nibble of b1 above the eight bits of b0, is below 4096 (12 bits) |
| MiniPack.CopyLength | dsPACKExtractor.py:124 | a back-reference length `(b1 & 0x0F) + 3` lies in 3..18 |
| MiniPack.CopyBack | dsPACKExtractor.py:127-129 | a copy that completes keeps the buffer length and advances the cursor by its length, staying within the buffer |
| MiniPack.AfterToken | dsPACKExtractor.py:133-134 | after a token, the bit loop is left exactly when the output is full, and nothing else changes |
| MiniPack.Next | dsPACKExtractor.py:102-134 | each step of the nested loops keeps the state valid, makes progress (consuming input or moving the bit loop on), never shrinks the buffer and never moves the output cursor back |
| MiniPack.Run | dsPACKExtractor.py:102-134 | the loops end (in a state where the outer loop exits) or raise; the buffer keeps its size |
| MiniPack.Decode | dsPACKExtractor.py:95-136 | whenever decompression returns, its result has exactly the announced size; it raises exactly when the reference run of the two loops raises |
| MiniPack.BackRefToken | dsPACKExtractor.py:118-131 | a cleared flag with two input bytes left is a back-reference of the computed distance and length, after which both cursors move on |
| MiniPack.LiteralToken | dsPACKExtractor.py:112-116 | a set flag copies the next input byte to the output cursor and advances both cursors |
| MiniPack.ControlStep | dsPACKExtractor.py:102-108 | at the head of the outer loop, the next input byte becomes the control byte of a fresh bit loop |
| MiniPack.CopyBackFrame | dsPACKExtractor.py:127-129 | a back-reference copy changes only the bytes it writes |
| MiniPack.CopyBackSucceeds | dsPACKExtractor.py:127-129 | with a distance no larger than the buffer, a copy fails exactly when it runs past the buffer end |
| MiniPack.CopyBackRepeats | dsPACKExtractor.py:127-129 | a byte-at-a-time copy repeats a pattern: each byte written equals the byte one distance before it |
| MiniPack.NextTail | dsPACKExtractor.py:102-134 | a step never writes at or beyond its new output cursor |
| MiniPack.RunTail | dsPACKExtractor.py:102-134 | the loops leave every byte from the final output cursor on untouched |
| MiniPack.DecodeTailZero | dsPACKExtractor.py:98-120 | bytes the decoder never reaches stay zero, for instance when a lone back-reference byte stops decoding |
| MiniPack.LiteralRoundTrip | dsPACKExtractor.py:102-116 | data behind 0xFF control bytes, eight literals per group, decodes back to itself |
| MiniPack.RepeatedByte | dsPACKExtractor.py:118-131 | `01 41 01 00` with size 4 decodes to "AAAA" (an overlapping copy repeats the literal) |
| MiniPack.CopyPastEnd | dsPACKExtractor.py:127-129 | a back-reference running past the buffer end raises IndexError mid-copy |
| MiniPack.LiteralPastEnd | dsPACKExtractor.py:102-134 | a full buffer ends only the bit loop: the next control byte is read and a further literal raises IndexError |
| MiniPack.TruncatedBackReference | dsPACKExtractor.py:119-120 | a back-reference with one input byte left ends decoding without error and the buffer keeps its zeros |
| MiniPack.WrapCopy | dsPACKExtractor.py:128 | a distance larger than the output cursor reads from the end of the buffer |
| MiniPack.NegativeIndexWraps | dsPACKExtractor.py:128 | `07 41 42 43 08 00` decodes to "ABCBCB" through a negative read index |
| MiniPack.MiniPackDecompressor.constructor | dsPACKExtractor.py:89-93 | a new decompressor has no input, an empty buffer and both cursors at 0 |
| MiniPack.MiniPackDecompressor.Decompress | dsPACKExtractor.py:95-136 | decoding in place on a fresh buffer gives exactly `Decode`'s result, and on success the buffer holds it and all input is consumed |
| MiniPack.MiniPackDecompressor.DecodeGroup | dsPACKExtractor.py:108-134 | the bit loop over one control byte ends where the state machine leaves that bit loop, or raises where it does |
| MiniPack.MiniPackDecompressor.DecodeToken | dsPACKExtractor.py:112-131 | one literal or back-reference token updates the cursors and buffer exactly as one state-machine step |
| MiniPack.MiniPackDecompressor.CopyMatch | dsPACKExtractor.py:127-129 | the in-place copy loop succeeds exactly when the reference copy does and leaves the same buffer and cursor |
| DsPackFormat.ValidateCount | dsPACKExtractor.py:177-181 | a count passes, unchanged, exactly when it is at most 100000; otherwise the error is InvalidCount |
| DsPackFormat.ValidateOffset | dsPACKExtractor.py:158-162 | an offset passes, unchanged, exactly when it lies before the end of the archive; otherwise the error is InvalidOffset |
| DsPackFormat.ValidateCompressedLength | dsPACKExtractor.py:171-175 | a compressed length passes, unchanged, exactly when it is no longer than the archive; otherwise the error is InvalidCompressedLength |
| DsPackFormat.ParseHeader | dsPACKExtractor.py:183-220 | the header is rejected as InvalidMagic exactly when its first eight bytes are neither pattern; on success the byte order is the magic's, counts are at most 100000, offsets lie in the archive, and field k is the k-th word from offset 12 |
| DsPackFormat.HeaderRoundTrip | dsPACKExtractor.py:183-220 | every valid header, written with its magic, parses back to itself |
| DsPackFormat.HeaderFieldsRead | dsPACKExtractor.py:203-220 | bytes with a magic whose eight fields are those of a valid header parse to that header |
| DsPackFormat.NameAt | dsPACKExtractor.py:231-243 | a name is found only inside the table and is the ASCII text of the bytes up to the first NUL or the table end; it is found whenever those bytes are ASCII |
| DsPackFormat.NameRoundTrip | dsPACKExtractor.py:231-243 | an ASCII name stored at an offset reads back, whether a NUL or the table end terminates it |
| DsPackFormat.NonAsciiName | dsPACKExtractor.py:240-243 | a non-ASCII byte before the terminator makes the lookup return None |
| DsPackFormat.FileEntryAt | dsPACKExtractor.py:250-273 | a file record that reads has a non-empty name, a parent that is -1 or a folder index, a compressed size within the archive, and a data offset inside it |
| DsPackFormat.FileEntryFields | dsPACKExtractor.py:260-271 | a file record that reads holds, in order, the name at its name offset, the signed parent, both sizes, the unknown word and the data offset |
| DsPackFormat.FileRecordRoundTrip | dsPACKExtractor.py:250-282 | a well-formed file entry written as a 24-byte record, with its name in the table, reads back unchanged |
| DsPackFormat.FolderEntryAt | dsPACKExtractor.py:289-316 | a folder record that reads has a non-empty name, a parent that is -1 or a folder index, and first and last files in [-1, num_files] |
| DsPackFormat.FolderEntryFields | dsPACKExtractor.py:299-314 | a folder record that reads holds, in order, the name, parent, last and first subfolder, and first and last file |
| DsPackFormat.FolderRecordRoundTrip | dsPACKExtractor.py:289-325 | a well-formed folder entry written as a record, with its name in the table, reads back unchanged |
| DsPackFormat.Files | dsPACKExtractor.py:245-282 | the file directory read holds num_files entries, entry i being the record read at index i |
| DsPackFormat.FilesStep | dsPACKExtractor.py:275-282 | reading one more record that succeeds appends it to the entries read so far |
| DsPackFormat.FilesFirstFailure | dsPACKExtractor.py:250-273 | a failed file-directory read reports the error of the first record that fails, after all records before it were read |
| DsPackFormat.FilesStop | dsPACKExtractor.py:267-273 | the first failing file record ends the read with its error, however many records remain |
| DsPackFormat.Folders | dsPACKExtractor.py:284-325 | the folder directory read holds num_folders entries, entry i being the record read at index i |
| DsPackFormat.FoldersStep | dsPACKExtractor.py:318-325 | reading one more folder record that succeeds appends it |
| DsPackFormat.FoldersFirstFailure | dsPACKExtractor.py:289-316 | a failed folder-directory read reports the first failing record's error, after all records before it were read |
| DsPackFormat.FoldersStop | dsPACKExtractor.py:306-316 | the first failing folder record ends the read with its error |
| FolderPaths.PathWithinRoot | dsPACKExtractor.py:331-343 | within a given number of nested calls, a path exists exactly when the parent chain reaches a root in that many steps |
| FolderPaths.PathWithinMore | dsPACKExtractor.py:331-343 | more nesting never changes a path already found |
| FolderPaths.NeverRoot | dsPACKExtractor.py:331-343 | a chain that has not reached a root after n-1 steps never does (it is in a cycle) |
| FolderPaths.FuelSuffices | dsPACKExtractor.py:331-343 | a chain that reaches a root at all does so within n-1 steps, so n nested calls decide every path |
| FolderPaths.PathOfExists | dsPACKExtractor.py:331-343 | a folder has a path exactly when its parent chain reaches a root |
| FolderPaths.RootPath | dsPACKExtractor.py:336-337 | a root folder's path is its name |
| FolderPaths.ChildPath | dsPACKExtractor.py:338-340 | any other folder's path is its parent's path, "/" and its name, and exists exactly when the parent's does |
| FolderPaths.SelfParent | dsPACKExtractor.py:336-340 | a folder that is its own parent has no path |
| FolderPaths.AllPaths | dsPACKExtractor.py:327-348 | the build succeeds exactly when every folder has a path; its map then has exactly the keys 0..n-1, each mapped to that folder's path |
| FolderPaths.AllPathsFail | dsPACKExtractor.py:327-348 | one folder without a path makes the whole build fail |
| FolderPaths.AllPathsOf | dsPACKExtractor.py:345-348 | a map holding exactly the path of every folder is the build's result |
| DsPack.ReadArchive | dsPACKExtractor.py:421-430 | a successful analysis yields num_files well-formed files and num_folders folders with valid parents, and a path map with keys 0..n-1 holding each folder's path |
| DsPack.FilesWellFormed | dsPACKExtractor.py:250-273 | every file entry of a directory read successfully is well formed and names -1 or a folder as its parent |
| DsPack.FoldersParentsOk | dsPACKExtractor.py:306-308 | every folder entry of a directory read successfully names -1 or a folder as its parent |
| DsPack.WrittenEntries | dsPACKExtractor.py:399-417 | in an archive that reads, an entry is written exactly when its stored size is non-zero |
| DsPack.DsPackFile.constructor | dsPACKExtractor.py:139-152 | an opened archive holds its bytes and has read nothing yet |
| DsPack.DsPackFile.ReadHeader | dsPACKExtractor.py:183-224 | the header field is set to the parsed header exactly when parsing succeeds, and otherwise the error is parsing's and the field keeps its value |
| DsPack.DsPackFile.ReadNamesDirectory | dsPACKExtractor.py:226-229 | the names field becomes the bytes at the names offset, up to the names length |
| DsPack.DsPackFile.ReadStringAtOffset | dsPACKExtractor.py:231-243 | the scanning loop finds the same name as the reference lookup |
| DsPack.DsPackFile.ReadFileEntry | dsPACKExtractor.py:250-282 | the reads of one file record give the reference record read |
| DsPack.DsPackFile.ReadFolderEntry | dsPACKExtractor.py:289-325 | the reads of one folder record give the reference record read |
| DsPack.DsPackFile.ReadFileEntries | dsPACKExtractor.py:245-282 | `files` becomes the whole directory when it reads; on failure it keeps the records before the first failing one, whose error is returned |
| DsPack.DsPackFile.ReadFolderEntries | dsPACKExtractor.py:284-325 | `folders` becomes the whole folder directory, or the records before the first failing one with its error |
| DsPack.DsPackFile.GetFolderPath | dsPACKExtractor.py:331-343 | a path found is the folder's path and is memoised; the memo only grows and stays correct; giving up means the chain reaches no root within the allowed nesting |
| DsPack.DsPackFile.BuildFolderPaths | dsPACKExtractor.py:327-348 | the memoised loop gives the reference path map, or the cycle failure |
| DsPack.DsPackFile.MakeFolderDirs | dsPACKExtractor.py:385-395 | the output directory, then one directory per folder path, are created in index order |
| DsPack.DsPackFile.ExtractAllFiles | dsPACKExtractor.py:383-419 | the method performs exactly the directory creations and writes of the reference extraction plan |
| DsPack.DsPackFile.Analyze | dsPACKExtractor.py:421-430 | the four reads succeed exactly when the reference reading of the archive does, leaving its header, names, files and folders in the fields and returning its paths |
| DsPack.ExtractFileFrom | dsPACKExtractor.py:350-381 | reading the stored bytes and running the in-place decompressor gives the reference classification |
| DsPack.ExtractEntry | dsPACKExtractor.py:399-419 | one iteration of the file loop performs the entry's reference actions |
| DsPack.ExtractFiles | dsPACKExtractor.py:397-419 | the file loop performs the actions of every entry, in directory order |
| DsPackExtract.ExtractFile | dsPACKExtractor.py:350-381 | an entry yields nothing exactly when its stored size is 0; equal sizes give the stored bytes unflagged; stored bytes at least as long as the announced size are returned flagged; otherwise a successful MiniPack decoding is returned unflagged and a failed one returns the stored bytes flagged |
| DsPackExtract.ExtractedNonEmpty | dsPACKExtractor.py:350-409 | for an entry the directory reader accepts, `if data:` fails exactly for a stored size of 0, and a decoded result has the announced size |
| DsPackExtract.SplitExt | dsPACKExtractor.py:412 | the base and the extension concatenate to the path; there is an extension exactly when the last dot comes after the last slash with a non-dot character between them, and it then starts at that dot, holding no other dot and no slash |
| DsPackExtract.MarkKeepsExtension | dsPACKExtractor.py:410-413 | inserting "[Compressed]" keeps the extension and appends the marker to the base |
| DsPackExtract.MarkKeepsDirectory | dsPACKExtractor.py:410-415 | inserting the marker does not move the file to another directory |
| DsPackExtract.StripSlashes | dsPACKExtractor.py:393 | `strip('/')` is the part of the path after its leading slashes and before its trailing slashes, and has no slash at either end |
| DsPackExtract.DirnameOfJoin | dsPACKExtractor.py:402-415 | the directory created before a write is the one the file's name was joined onto |
| DsPackExtract.FileActionsPlace | dsPACKExtractor.py:399-417 | an entry is written exactly when it yields non-empty data, after creating its destination's directory; a flagged entry is written in that directory, with the same extension, under a different name |
| DsPackExtract.FolderDirs | dsPACKExtractor.py:385-395 | the output directory is created first, then folder i's directory, the output directory joined with its path stripped of slashes, as action i + 1 |
| DsPackExtract.OutputPathInFolder | dsPACKExtractor.py:389-404 | for a non-empty file name without '/' and an output directory without a trailing '/', a file is written into a directory the folder loop created: the output directory for a negative parent, and its folder's directory for a parent whose stripped path is non-empty |
| DsPackExtract.ExtractPlan | dsPACKExtractor.py:383-419 | extraction goes ahead exactly when every folder has a path (a parent cycle aborts it) |
| DsPackExtract.MarkedTexture | dsPACKExtractor.py:410-413 | "out/tex/wall.dtx" flagged becomes "out/tex/wall[Compressed].dtx" |
| DsPackExtract.MarkedDotName | dsPACKExtractor.py:410-413 | a name that only starts with a dot has no extension, so the marker goes at the end |
| ArchFormat.DecodeHeader | ArchExtractor.py:25-34 | a header decodes exactly from 48 bytes, as twelve little-endian words in order, with the last seven kept as `Unk` |
| ArchFormat.HeaderRoundTrip | ArchExtractor.py:25-34 | a header decodes back from its packed bytes |
| ArchFormat.DecodeFileEntry | ArchExtractor.py:41-52 | a file entry decodes exactly from 32 bytes, as eight little-endian words in declaration order |
| ArchFormat.FileEntryRoundTrip | ArchExtractor.py:41-52 | a file entry decodes back from its packed bytes |
| ArchFormat.DecodeFolderEntry | ArchExtractor.py:58-65 | a folder entry decodes exactly from 16 bytes, as four little-endian words |
| ArchFormat.FolderEntryRoundTrip | ArchExtractor.py:58-65 | a folder entry decodes back from its packed bytes |
| ArchFormat.SanitizeFilename | ArchExtractor.py:67-74 | sanitising keeps the length, keeps every valid character and replaces every other one with '_' |
| ArchFormat.SanitizeKeepsValid | ArchExtractor.py:71-72 | a name is left unchanged exactly when all its characters are valid |
| ArchFormat.SanitizeIdempotent | ArchExtractor.py:67-74 | sanitising twice is sanitising once |
| ArchFormat.SplitSeps | ArchExtractor.py:81 | splitting on both separators gives at least one piece and no piece contains a separator |
| ArchFormat.SplitJoin | ArchExtractor.py:81 | re-joining the pieces with '/' gives the name with every backslash turned into '/' |
| ArchFormat.JoinSplit | ArchExtractor.py:81 | splitting a '/'-join of separator-free pieces gives the pieces back |
| ArchFormat.SanitizeParts | ArchExtractor.py:82 | the kept components are non-empty and sanitised, and no more than the pieces |
| ArchFormat.SanitizePartsConcat | ArchExtractor.py:82 | the comprehension distributes over concatenation: the pieces are filtered and sanitised one by one, in order |
| ArchFormat.SanitizePartsAppend | ArchExtractor.py:82 | a further piece is dropped when empty and otherwise appended sanitised, after the components of the earlier pieces |
| ArchFormat.SanitizePartsAllEmpty | ArchExtractor.py:82 | pieces that are all empty give no component |
| ArchFormat.SplitSepsAt | ArchExtractor.py:81 | either separator splits the name into the pieces before it followed by the pieces after it |
| ArchFormat.SanitizePartsKeeps | ArchExtractor.py:82 | non-empty valid components are all kept unchanged |
| ArchFormat.NormalizePath | ArchExtractor.py:76-85 | the components are the sanitised non-empty pieces of the name split at `\` and `/`, so each is non-empty, valid and separator-free |
| ArchFormat.NormalizeAtSep | ArchExtractor.py:76-85 | a name with a separator normalises to the components before it followed by those after it |
| ArchFormat.NormalizePiece | ArchExtractor.py:76-85 | a separator-free name gives no component when empty and otherwise the one sanitised component |
| ArchFormat.NormalizeExample | ArchExtractor.py:76-85 | `a\\b:c/` (a, two backslashes, b:c, slash) normalises to `a` and `b_c`: both separators split, the empty pieces are dropped and ':' is replaced |
| ArchFormat.NormalizeIdempotent | ArchExtractor.py:76-85 | normalising a normalised path again changes nothing |
| ArchFormat.NormalizeValid | ArchExtractor.py:76-85 | a valid separator-free name normalises to itself alone |
| ArchFormat.NameFromTable | ArchExtractor.py:137-152 | an offset past the table gives "unknown"; an offset inside it gives the normalised text from the offset up to the next NUL or the table end, whose components are non-empty and valid |
| ArchFormat.NameFromTableFinds | ArchExtractor.py:137-152 | a valid name stored NUL-terminated in the table is found as that one component |
| ArchExtract.FrameReads | ArchExtractor.py:97-116 | a block is cut short exactly when its 8-byte header or its stored bytes read short; otherwise it holds the header's two sizes, exactly the stored bytes, and moves past the padding |
| ArchExtract.ReadBlock | ArchExtractor.py:97-116 | the reads of one loop iteration give the reference frame |
| ArchExtract.BlockStream | ArchExtractor.py:95-132 | once the bytes counted reach the announced size the loop ends successfully with nothing more |
| ArchExtract.DecompressZlibBlocks | ArchExtractor.py:87-135 | the accumulator loop gives the reference block decoding |
| ArchExtract.StoredBlockDecompress | ArchExtractor.py:119-120 | one stored block decodes to its contents whatever the inflater is |
| ArchExtract.StoredRoundTrip | ArchExtractor.py:95-132 | stored blocks come back out unchanged and in order, whatever the inflater and whatever follows |
| ArchExtract.StoredFramesDecompress | ArchExtractor.py:95-132 | stored blocks in an archive decode to their concatenated contents |
| ArchExtract.TruncatedBlockHeader | ArchExtractor.py:97-100 | a block header cut short fails the decoding |
| ArchExtract.ProcessSingleFile | ArchExtractor.py:236-268 | every outcome performs at least one action (the parent directory), and a file that extracts performs exactly two |
| ArchExtract.SingleFileOutcome | ArchExtractor.py:236-268 | the parent directory is created first; method 0 writes the raw bytes, method 9 the decoded blocks and fails when they do; any other method, or a name with no components, fails |
| ArchExtract.SingleFileWrites | ArchExtractor.py:249-264 | a file that extracts writes exactly one output file |
| ArchExtract.WalkClaims | ArchExtractor.py:207-231 | a successful walk consumes exactly the entries the folders claim, all within the file table, writing one file per entry |
| ArchExtract.OverclaimFails | ArchExtractor.py:221-224 | folders that claim more entries than the table holds always fail |
| ArchExtract.ProcessFoldersAndFiles | ArchExtractor.py:204-234 | the loop with its running file index gives the reference walk |
| ArchExtract.ProcessFolderFiles | ArchExtractor.py:221-229 | the inner loop for one folder performs the folder's file steps and hands over its final index to the next folder |
| ArchExtract.FileTable | ArchExtractor.py:176-184 | the file table holds FileCount entries, entry i decoded from the 32 bytes at 32i |
| ArchExtract.FolderTable | ArchExtractor.py:187-195 | the folder table holds FolderCount entries, entry i decoded from the 16 bytes at 16i |
| ArchExtract.ArchiveExtract | ArchExtractor.py:154-202 | an archive shorter than its header fails with nothing done; after the header, the three reads fail with nothing done exactly when the archive ends before the folder table does, and otherwise the result is the walk over the tables decoded from where the header places them |
| ArchExtract.ExtractTables | ArchExtractor.py:168-198 | the name table, file table and folder table are read back to back after the header; a short read of any fails with nothing done, otherwise the walk runs over the decoded tables |
| ArchExtract.FileTableRoundTrip | ArchExtractor.py:176-184 | decoding the stored bytes of a file table gives back its entries |
| ArchExtract.FolderTableRoundTrip | ArchExtractor.py:187-195 | decoding the stored bytes of a folder table gives back its entries |
| ArchExtract.ArchiveAssembled | ArchExtractor.py:154-202 | an archive written as header, name table, file table and folder table extracts by walking exactly the tables it was written with |
| ArchExtract.ArchiveWrites | ArchExtractor.py:154-229 | such an archive, when it succeeds, writes one file per entry its folders claim, all within the file table; folders claiming more entries than the table holds make it fail |
| Bndl.BndlMarkerSpells | BndlExtractor.py:9-10 | the marker word packs to the bytes "BNDL" |
| Bndl.DecodeHeader | BndlExtractor.py:20-29 | a bundle header decodes exactly from 24 bytes |
| Bndl.HeaderFields | BndlExtractor.py:23-29 | its six fields are the six little-endian words in field order |
| Bndl.HeaderRoundTrip | BndlExtractor.py:20-29 | a bundle header decodes back from its packed bytes |
| Bndl.ReadNameAdvances | BndlExtractor.py:32-41 | each name moves the table position forward by its length plus terminator, rounded up to a multiple of four |
| Bndl.ReadNameAscii | BndlExtractor.py:32-41 | an ASCII name is the bytes up to the NUL or table end, and the advance is their count, the terminator and the padding |
| Bndl.NameEntryReads | BndlExtractor.py:32-41 | a name stored with its NUL and padding reads back as itself and moves exactly past its entry |
| Bndl.RecordReads | BndlExtractor.py:80-92 | a record is short exactly when its size pair or its payload (of the second size) reads short |
| Bndl.ReadRecord | BndlExtractor.py:80-92 | the two reads of one iteration give the reference record |
| Bndl.HeaderOf | BndlExtractor.py:49-54 | a header is read exactly when 24 bytes are there |
| Bndl.BundleGates | BndlExtractor.py:49-63 | a short header or a wrong marker fails, an empty table or file count succeeds with nothing written, no more files than FileCount are written, and success with files writes all of them |
| Bndl.ExtractBundleGated | BndlExtractor.py:61-78 | past the gates, the records start after the name table and `Unk2` skipped words |
| Bndl.RecordsCount | BndlExtractor.py:78-103 | the loop writes one file per iteration and succeeds exactly when all FileCount files are written |
| Bndl.RecordsNames | BndlExtractor.py:95 | file i receives the i-th name of the sequential table walk |
| Bndl.ExtractRecords | BndlExtractor.py:76-103 | the loop with its stream and table cursors gives the reference record walk |
| Bndl.RecordsRoundTrip | BndlExtractor.py:78-103 | names and payloads laid out in order extract to those files, in order |
| Bndl.BundleAssembled | BndlExtractor.py:44-105 | a header, a name table and the records after them extract to the files they hold |
| Bndl.BundleRoundTrip | BndlExtractor.py:44-105 | writing a bundle of files and extracting it gives the files back |
| TexConvert.Pack | TexConverter.py:24-26 | a packed TEX header is 12 bytes |
| TexConvert.PackRoundTrip | TexConverter.py:24-26 | a packed header unpacks to itself |
| TexConvert.HeaderBytes | TexConverter.py:24-26 | twelve bytes unpack to a header exactly when they are that header packed |
| TexConvert.MarkersOfMagic | TexConverter.py:9-10 | the TEX and DDS markers are the little-endian words of "TEXR" and "DDS " |
| TexConvert.DefaultHeaderBytes | TexConverter.py:17-26 | the default header packs to "TEXR", 1 and 0 as little-endian words |
| TexConvert.TexToDds | TexConverter.py:65-88 | input shorter than 12 bytes fails as incomplete; conversion succeeds exactly when the input starts with "TEXR", and the output is then the input less its 12-byte header |
| TexConvert.DdsToTex | TexConverter.py:91-110 | input shorter than 4 bytes fails; conversion succeeds exactly when the input starts with "DDS ", and the output is the default header followed by the whole input |
| TexConvert.DdsTexRoundTrip | TexConverter.py:65-106 | converting a DDS image to TEX and back gives the image back |
| TexConvert.TexDdsRoundTrip | TexConverter.py:65-106 | a TEX texture survives conversion to DDS and back exactly when its header is the default one and its payload starts with "DDS " |
| Snd.DecodeHeader | SNDExtractor.py:25-39 | a bank header decodes exactly from 284 bytes, with a 65-word table |
| Snd.DecodeHeaderFields | SNDExtractor.py:29-39 | its six fields and then the table are the 71 little-endian words in order |
| Snd.HeaderRoundTrip | SNDExtractor.py:25-39 | a bank header decodes back from its packed bytes |
| Snd.DecodeChunkHeader | SNDExtractor.py:47-65 | a chunk header decodes exactly from 40 bytes |
| Snd.ChunkHeaderSizes | SNDExtractor.py:52-58 | its six u32 fields sit at offsets 0..20 |
| Snd.ChunkHeaderFormat | SNDExtractor.py:59-65 | its format fields are u16, u16, u32, u32, u16 and u16 at offsets 24..38 |
| Snd.ChunkHeaderRoundTrip | SNDExtractor.py:47-65 | a chunk header decodes back from its packed bytes |
| Snd.FmtChunkFields | SNDExtractor.py:80-87 | the fmt chunk holds the chunk header's format fields in '<2H2I2H' order |
| Snd.MarkersOfMagic | SNDExtractor.py:7-10 | the four markers are the little-endian words of "RIFF", "WAVE", "fmt " and "data" |
| Snd.WavHeader | SNDExtractor.py:68-93 | a header is produced exactly when the RIFF size fits a u32, and it is 44 bytes |
| Snd.WavHeaderPacks | SNDExtractor.py:70-93 | the header is the packing of the words the source passes, in the order it passes them |
| Snd.WavHeaderLayout | SNDExtractor.py:68-93 | the header is "RIFF", the file length less 8, "WAVE", "fmt ", 16, the fmt chunk, "data" and the sound's length |
| Snd.DecimalRoundTrip | SNDExtractor.py:165 | the decimal digits of an index read back as the index |
| Snd.WavPathsDistinct | SNDExtractor.py:165 | different sounds of one bank go to different files |
| Snd.ReadChunk | SNDExtractor.py:143-162 | a chunk read whole has a payload of DataSize + 24 bytes, within the bank |
| Snd.ReadStored | SNDExtractor.py:143-162 | a chunk stored as its packed header then its payload is read back whole |
| Snd.ProcessChunk | SNDExtractor.py:139-178 | a chunk that reads short creates nothing; one read whole creates exactly its WAV file, named after its index; when it converts, the next chunk starts right after this one's 40-byte header and its payload |
| Snd.ProcessRead | SNDExtractor.py:139-174 | a chunk read whole whose size fits converts to its WAV file (header then sound) and moves past the chunk |
| Snd.ProcessChunkAsWritten | SNDExtractor.py:166-171 | as written, no chunk converts, and any file created stays empty |
| Snd.ConvertWith | SNDExtractor.py:123-130 | the chunk loop from ChunkBaseOffset gives the reference conversion |
| Snd.ConvertSoundToWave | SNDExtractor.py:96-136 | the conversion with the header written as intended gives the reference conversion |
| Snd.ConvertSoundToWaveAsWritten | SNDExtractor.py:96-136 | the conversion as written gives the reference conversion over the as-written chunk step |
| Snd.ChunksShape | SNDExtractor.py:126-128 | a conversion creates at most one file per chunk, all of them when it succeeds, file k named after chunk k |
| Snd.AsWrittenNeverConverts | SNDExtractor.py:126-171 | as written, a bank converts only when FileCount is 0, and at most one file is created, empty |
| Snd.ChunksRead | SNDExtractor.py:126-128 | chunks laid out one after another all convert, in order |
| Snd.HeaderRead | SNDExtractor.py:111-116 | a bank starting with a packed header reads that header back |
| Snd.ConvertLaidOutWith | SNDExtractor.py:109-130 | a bank whose header counts and points at its chunks converts all of them, for any chunk step that reads stored chunks |
| Snd.ConvertLaidOut | SNDExtractor.py:109-130 | a bank whose header counts and points at its chunks converts to their WAV files |

## Left out

- `UI.py`: a PyQt front end. Its dsPack wrapper repeats `extract_file` and `analyze`, which are modelled once.
- File handles, `os.makedirs`/`mkdir`, output writes, `os.walk`/`rglob`, deletion of sources, and the `main` functions. The archive is an in-memory byte sequence, and the effects are a returned list of actions. The model does not capture a failure of the file system itself, such as a write that fails or a path that cannot be created.
- Raw DEFLATE inflation through `zlib.decompressobj(-15)`: a foreign call, given to `ArchExtract` as an `Inflater` parameter. A mismatch between the inflated size and the announced size only prints a warning, so it is not modelled.
- Printing, `print_tree`, `print_stats`, the analysis summary and its floating-point compression ratio. Also the unused `Section`/`DSPackHeader` classes, `ResourceEntry.guess_extension` and `FileSystem.add_path`, which the extraction never calls.
- Bndl.ExtractBundle: an empty name (the table cursor at the table end or at a NUL) is modelled as the write `Extracted("", data)`, a write to the target folder itself, since `Path(target_folder) / ''` is that folder. In Python, `open` then raises IsADirectoryError when the folder exists, which it does once an earlier record has been written there, and the extraction returns False. When the folder does not exist yet, a file takes its name. The model does not decide between the two, because the outcome depends on the file system.
- `Path.stem` of the SND bank: a parameter of the conversion.
- Bytes.LenientText: UTF-8 decoding with `errors='ignore'` keeps ASCII bytes and drops every other byte, so it is exact only for ASCII names. A multi-byte character that Python would keep is lost, and with it one step of the Bndl name-table advance, which counts decoded characters.
- DsPack.DsPackFile.GetFolderPath: the recursion is bounded by a fuel parameter, set to the number of folders by `BuildFolderPaths`. FolderPaths.FuelSuffices proves that this bound decides every path. On a parent cycle the model returns the failure `Cycle`, where Python raises RecursionError. Python also raises RecursionError on an acyclic chain deeper than its recursion limit (about 1000 nested calls); the model has no such limit and resolves those paths.
- ArchFormat.NormalizePath: a path is modelled as its list of components. `pathlib` rendering and its dropping of "." components are not modelled.
- DsPackExtract.SplitExt: follows `posixpath`. The Windows `os.sep` replacement in `extract_all_files` is left out: paths keep '/'.
- DsPack.DsPackFile.MakeFolderDirs: creates the folder directories in index order. Python iterates the memo in insertion order, where a parent can come before its child. Each call creates missing parents and accepts existing directories, so the directories that result are the same.
- DsPackExtract.ExtractPlan: on a parent cycle it returns only the failure. Python has already created the output directory by then (`os.makedirs(output_dir)` runs before `build_folder_paths`), and that one directory is not among the model's actions.
- TexConvert.TexToDds: the version and file type are read but not checked, so the model does not look at them either.
- Python exceptions are modelled as `Failure` values or as `ok == false` outcomes. The text of the error messages is not modelled.

## Findings

| source | as written | input that shows it | evidently intended | confidence | as-written member | corrected member |
|---|---|---|---|---|---|---|
| SNDExtractor.py:68-93 | `write_wav_header` hands the output file object to `struct.pack_into`, which accepts only a writable buffer, so the call raises. Every chunk that was read whole then fails, and its `.wav` file is left empty. | any bank with FileCount >= 1 whose first chunk header and payload are complete | the canonical 44-byte WAV header ("RIFF", size, "WAVE", "fmt ", 16, the fmt chunk, "data", size) written sequentially before the sound data | not executed | Snd.AsWrittenNeverConverts | Snd.ConvertLaidOut |
