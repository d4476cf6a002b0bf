/** The dsPack container as `DSPackFile` reads it: a 44-byte header (eight
    magic bytes that also fix the byte order, four padding bytes, then eight
    u32 counts, lengths and offsets), a table of NUL-terminated names, and
    two directories of 24-byte records, one per file and one per folder.

    Every read is a function of the archive bytes `s`; `|s|` plays the part
    of `os.path.getsize`.  A read past the end of the archive raises
    `struct.error` (Truncated); every failed check raises ValueError (the
    other error kinds).  The functions here are the reference definitions
    the `DsPackFile` methods are proved against. */
module DsPackFormat {
  import opened Results
  import opened Bytes

  datatype DsError =
    | Truncated
    | InvalidMagic
    | InvalidCount
    | InvalidOffset
    | InvalidCompressedLength
    | InvalidParent
    | InvalidFirstFile
    | InvalidLastFile
    | InvalidName

  /** The ceiling `validate_count` puts on the file and folder counts. */
  const MaxCount: nat := 100000

  /** "mgf " followed by 08 01 5A 5A: a little-endian archive. */
  const MagicLittle: seq<byte> := [0x6D, 0x67, 0x66, 0x20, 0x08, 0x01, 0x5A, 0x5A]
  /** " fgm" followed by 5A 5A 01 08: a big-endian archive. */
  const MagicBig: seq<byte> := [0x20, 0x66, 0x67, 0x6D, 0x5A, 0x5A, 0x01, 0x08]

  const HeaderSize: nat := 44
  const RecordSize: nat := 24

  // ---------------------------------------------------------------------------
  // Field reads and the validate_* checks
  // ---------------------------------------------------------------------------

  /** `struct.unpack(order + 'I', f.read(4))[0]` at `pos`. */
  function FieldAt(s: seq<byte>, pos: nat, order: ByteOrder): Result<u32, DsError> {
    if pos + 4 <= |s| then Success(U32At(s, pos, order)) else Failure(Truncated)
  }

  /** `validate_count`: at most 100000 (a u32 is never negative). */
  function ValidateCount(count: u32): (r: Result<u32, DsError>)
    ensures r.Success? <==> count as int <= MaxCount
    ensures r.Success? ==> r.value == count
    ensures r.Failure? ==> r.error == InvalidCount
  {
    if count > MaxCount then Failure(InvalidCount) else Success(count)
  }

  /** `validate_offset`: strictly inside the archive. */
  function ValidateOffset(offset: u32, fileSize: nat): (r: Result<u32, DsError>)
    ensures r.Success? <==> (offset as int) < fileSize
    ensures r.Success? ==> r.value == offset
    ensures r.Failure? ==> r.error == InvalidOffset
  {
    if offset >= fileSize then Failure(InvalidOffset) else Success(offset)
  }

  /** `validate_compressed_length`: no longer than the archive. */
  function ValidateCompressedLength(length: u32, fileSize: nat): (r: Result<u32, DsError>)
    ensures r.Success? <==> length as int <= fileSize
    ensures r.Success? ==> r.value == length
    ensures r.Failure? ==> r.error == InvalidCompressedLength
  {
    if length > fileSize then Failure(InvalidCompressedLength) else Success(length)
  }

  // `validate_length` only rejects negative values, which a u32 never is, so
  // the lengths it is applied to are read without a check.

  function CountAt(s: seq<byte>, pos: nat, order: ByteOrder): Result<u32, DsError> {
    var count :- FieldAt(s, pos, order);
    ValidateCount(count)
  }

  function OffsetAt(s: seq<byte>, pos: nat, order: ByteOrder): Result<u32, DsError> {
    var offset :- FieldAt(s, pos, order);
    ValidateOffset(offset, |s|)
  }

  function CompressedLengthAt(s: seq<byte>, pos: nat, order: ByteOrder): Result<u32, DsError> {
    var length :- FieldAt(s, pos, order);
    ValidateCompressedLength(length, |s|)
  }

  function SignedAt(s: seq<byte>, pos: nat, order: ByteOrder): Result<int, DsError> {
    var bits :- FieldAt(s, pos, order);
    Success(I32(bits))
  }

  // ---------------------------------------------------------------------------
  // Header
  // ---------------------------------------------------------------------------

  datatype Header = Header(
    bigEndian: bool,
    numFiles: u32, fileDirLength: u32, fileDirOffset: u32,
    numFolders: u32, folderDirLength: u32, folderDirOffset: u32,
    namesDirLength: u32, namesDirOffset: u32)
  {
    function Order(): ByteOrder {
      if bigEndian then BigEndian else LittleEndian
    }

    /** The eight u32 fields in the order they are stored. */
    function Fields(): seq<u32> {
      [numFiles, fileDirLength, fileDirOffset, numFolders, folderDirLength, folderDirOffset, namesDirLength, namesDirOffset]
    }
  }

  predicate HasMagic(s: seq<byte>) {
    |s| >= 8 && (s[..8] == MagicLittle || s[..8] == MagicBig)
  }

  /** What `read_header` checks of the fields it keeps. */
  predicate ValidHeader(h: Header, fileSize: nat) {
    && h.numFiles <= MaxCount && h.numFolders <= MaxCount
    && h.fileDirOffset < fileSize && h.folderDirOffset < fileSize && h.namesDirOffset < fileSize
  }

  /** `read_header`: the byte order from the magic, then the eight fields at
      offsets 12..44, each checked as soon as it is read. */
  function ParseHeader(s: seq<byte>): (r: Result<Header, DsError>)
    ensures r == Failure(InvalidMagic) <==> !HasMagic(s)
    ensures r.Success? ==> |s| >= HeaderSize && r.value.bigEndian == (s[..8] == MagicBig)
    ensures r.Success? ==> ValidHeader(r.value, |s|)
    ensures r.Success? ==> forall k :: 0 <= k < 8 ==> r.value.Fields()[k] == U32At(s, 12 + 4 * k, r.value.Order())
  {
    if !HasMagic(s) then Failure(InvalidMagic)
    else
      var order := if s[..8] == MagicLittle then LittleEndian else BigEndian;
      assert MagicLittle[0] != MagicBig[0];
      var numFiles :- CountAt(s, 12, order);
      var fileDirLength :- FieldAt(s, 16, order);
      var fileDirOffset :- OffsetAt(s, 20, order);
      var numFolders :- CountAt(s, 24, order);
      var folderDirLength :- FieldAt(s, 28, order);
      var folderDirOffset :- OffsetAt(s, 32, order);
      var namesDirLength :- FieldAt(s, 36, order);
      var namesDirOffset :- OffsetAt(s, 40, order);
      Success(Header(order.BigEndian?, numFiles, fileDirLength, fileDirOffset,
                     numFolders, folderDirLength, folderDirOffset, namesDirLength, namesDirOffset))
  }

  /** The header bytes an archive writer would produce for `h`, with zero
      padding. */
  function EncodeHeader(h: Header): (r: seq<byte>)
    ensures |r| == HeaderSize
  {
    (if h.bigEndian then MagicBig else MagicLittle) + [0, 0, 0, 0] + U32sBytes(h.Fields(), h.Order())
  }

  /** Any valid header survives encoding and parsing, whatever follows it. */
  lemma HeaderRoundTrip(h: Header, tail: seq<byte>)
    requires ValidHeader(h, HeaderSize + |tail|)
    ensures ParseHeader(EncodeHeader(h) + tail) == Success(h)
  {
    var s := EncodeHeader(h) + tail;
    var magic := if h.bigEndian then MagicBig else MagicLittle;
    assert s[..8] == magic;
    assert MagicLittle[0] != MagicBig[0];
    assert s[12..12 + 4 * 8] == U32sBytes(h.Fields(), h.Order());
    U32sBytesAt(s, 12, h.Fields(), h.Order());
    var f := h.Fields();
    assert U32At(s, 12 + 4 * 0, h.Order()) == f[0] && U32At(s, 12 + 4 * 1, h.Order()) == f[1];
    assert U32At(s, 12 + 4 * 2, h.Order()) == f[2] && U32At(s, 12 + 4 * 3, h.Order()) == f[3];
    assert U32At(s, 12 + 4 * 4, h.Order()) == f[4] && U32At(s, 12 + 4 * 5, h.Order()) == f[5];
    assert U32At(s, 12 + 4 * 6, h.Order()) == f[6] && U32At(s, 12 + 4 * 7, h.Order()) == f[7];
    HeaderFieldsRead(s, h);
  }

  lemma HeaderFieldsRead(s: seq<byte>, h: Header)
    requires |s| >= HeaderSize && ValidHeader(h, |s|)
    requires HasMagic(s) && (s[..8] == MagicBig <==> h.bigEndian)
    requires forall k :: 0 <= k < 8 ==> U32At(s, 12 + 4 * k, h.Order()) == h.Fields()[k]
    ensures ParseHeader(s) == Success(h)
  {
    var o := h.Order();
    var f := h.Fields();
    assert MagicLittle[0] != MagicBig[0];
    assert (if s[..8] == MagicLittle then LittleEndian else BigEndian) == o;
    assert U32At(s, 12 + 4 * 0, o) == f[0] && U32At(s, 12 + 4 * 1, o) == f[1];
    assert U32At(s, 12 + 4 * 2, o) == f[2] && U32At(s, 12 + 4 * 3, o) == f[3];
    assert U32At(s, 12 + 4 * 4, o) == f[4] && U32At(s, 12 + 4 * 5, o) == f[5];
    assert U32At(s, 12 + 4 * 6, o) == f[6] && U32At(s, 12 + 4 * 7, o) == f[7];
    assert CountAt(s, 12, o) == Success(h.numFiles) && FieldAt(s, 16, o) == Success(h.fileDirLength);
    assert OffsetAt(s, 20, o) == Success(h.fileDirOffset) && CountAt(s, 24, o) == Success(h.numFolders);
    assert FieldAt(s, 28, o) == Success(h.folderDirLength) && OffsetAt(s, 32, o) == Success(h.folderDirOffset);
    assert FieldAt(s, 36, o) == Success(h.namesDirLength) && OffsetAt(s, 40, o) == Success(h.namesDirOffset);
  }

  // ---------------------------------------------------------------------------
  // Name table
  // ---------------------------------------------------------------------------

  /** `read_string_at_offset`: None past the table, otherwise the bytes up to
      the first NUL (or the table end) when they are all ASCII. */
  function NameAt(names: seq<byte>, offset: nat): (r: Option<string>)
    ensures r.Some? ==> offset < |names| && AsciiName(r.value)
    ensures r.Some? ==> TextBytes(r.value) == names[offset..NulFrom(names, offset)]
    ensures offset < |names| && IsAscii(names[offset..NulFrom(names, offset)]) ==> r.Some?
  {
    if offset >= |names| then None
    else
      var bytes := names[offset..NulFrom(names, offset)];
      if IsAscii(bytes) then Some(AsciiText(bytes)) else None
  }

  predicate NulFree(name: string) {
    forall k :: 0 <= k < |name| ==> name[k] != 0 as char
  }

  predicate AsciiName(name: string) {
    forall k :: 0 <= k < |name| ==> name[k] as int < 0x80
  }

  /** A name stored at `|prefix|` is read back, whether a NUL ends it or the
      table does. */
  lemma NameRoundTrip(prefix: seq<byte>, name: string, rest: seq<byte>, terminated: bool)
    requires AsciiName(name) && NulFree(name) && (terminated || name != [])
    ensures NameAt(prefix + TextBytes(name) + (if terminated then [0] + rest else []), |prefix|) == Some(name)
  {
    var table := prefix + TextBytes(name) + (if terminated then [0] + rest else []);
    var end := |prefix| + |name|;
    forall k | |prefix| <= k < end
      ensures table[k] != 0
    {
      assert table[k] == TextBytes(name)[k - |prefix|];
    }
    assert end < |table| ==> table[end] == 0;
    assert NulFrom(table, |prefix|) == end;
    assert table[|prefix|..end] == TextBytes(name);
  }

  /** A non-ASCII byte before the terminator makes the name unreadable. */
  lemma NonAsciiName(names: seq<byte>, offset: nat, k: nat)
    requires offset <= k < |names| && names[k] >= 0x80
    requires forall j :: offset <= j < k ==> names[j] != 0
    ensures NameAt(names, offset) == None
  {
    assert NulFrom(names, offset) > k;
    assert names[offset..NulFrom(names, offset)][k - offset] == names[k];
  }

  // ---------------------------------------------------------------------------
  // Directory records
  // ---------------------------------------------------------------------------

  datatype FileEntry = FileEntry(
    name: string, parent: int,
    decompressedSize: u32, compressedSize: u32, unknown: u32, dataOffset: u32)

  datatype FolderEntry = FolderEntry(
    name: string, parent: int,
    lastSubfolder: int, firstSubfolder: int, firstFile: int, lastFile: int)

  /** -1 (a root) or the index of a folder. */
  predicate ParentOk(parent: int, numFolders: nat) {
    parent == -1 || 0 <= parent < numFolders
  }

  /** -1 or an index in [-1, num_files], as `read_folder_entries` checks
      first_file and last_file (the upper bound is inclusive). */
  predicate FileRefOk(ref: int, numFiles: nat) {
    -1 <= ref <= numFiles
  }

  /** What a file record that was read successfully guarantees. */
  predicate WellFormedFile(e: FileEntry, fileSize: nat, numFolders: nat) {
    && e.name != [] && ParentOk(e.parent, numFolders)
    && e.compressedSize <= fileSize && e.dataOffset < fileSize
  }

  /** What a folder record that was read successfully guarantees. */
  predicate WellFormedFolder(f: FolderEntry, numFiles: nat, numFolders: nat) {
    && f.name != [] && ParentOk(f.parent, numFolders)
    && FileRefOk(f.firstFile, numFiles) && FileRefOk(f.lastFile, numFiles)
  }

  function CheckParent(parent: int, numFolders: nat): Result<int, DsError> {
    if parent != -1 && (parent < 0 || parent >= numFolders) then Failure(InvalidParent) else Success(parent)
  }

  /** The first-file and last-file checks: -1, or at most `num_files`. */
  function CheckFileRef(ref: int, numFiles: nat, error: DsError): Result<int, DsError> {
    if ref != -1 && (ref < -1 || ref > numFiles) then Failure(error) else Success(ref)
  }

  /** `if not name: raise ValueError(...)`: a missing or empty name. */
  function CheckName(name: Option<string>): Result<string, DsError> {
    if name.None? || name.value == [] then Failure(InvalidName) else Success(name.value)
  }

  /** One iteration of `read_file_entries`: six fields read in order (the
      name offset, sizes and data offset checked as they are read), then the
      parent check, then the name lookup. */
  function FileEntryAt(s: seq<byte>, order: ByteOrder, pos: nat, numFolders: nat, names: seq<byte>): (r: Result<FileEntry, DsError>)
    ensures r.Success? ==> pos + RecordSize <= |s| && WellFormedFile(r.value, |s|, numFolders)
  {
    var nameOffset :- OffsetAt(s, pos, order);
    var parent :- SignedAt(s, pos + 4, order);
    var decompressedSize :- FieldAt(s, pos + 8, order);
    var compressedSize :- CompressedLengthAt(s, pos + 12, order);
    var unknown :- FieldAt(s, pos + 16, order);
    var dataOffset :- OffsetAt(s, pos + 20, order);
    var _ :- CheckParent(parent, numFolders);
    var name :- CheckName(NameAt(names, nameOffset));
    Success(FileEntry(name, parent, decompressedSize, compressedSize, unknown, dataOffset))
  }

  /** One iteration of `read_folder_entries`: the name offset (checked), five
      signed fields, then the parent, first-file and last-file checks, then
      the name lookup. */
  function FolderEntryAt(s: seq<byte>, order: ByteOrder, pos: nat, numFiles: nat, numFolders: nat, names: seq<byte>): (r: Result<FolderEntry, DsError>)
    ensures r.Success? ==> pos + RecordSize <= |s| && WellFormedFolder(r.value, numFiles, numFolders)
  {
    var nameOffset :- OffsetAt(s, pos, order);
    var parent :- SignedAt(s, pos + 4, order);
    var lastSubfolder :- SignedAt(s, pos + 8, order);
    var firstSubfolder :- SignedAt(s, pos + 12, order);
    var firstFile :- SignedAt(s, pos + 16, order);
    var lastFile :- SignedAt(s, pos + 20, order);
    var _ :- CheckParent(parent, numFolders);
    var _ :- CheckFileRef(firstFile, numFiles, InvalidFirstFile);
    var _ :- CheckFileRef(lastFile, numFiles, InvalidLastFile);
    var name :- CheckName(NameAt(names, nameOffset));
    Success(FolderEntry(name, parent, lastSubfolder, firstSubfolder, firstFile, lastFile))
  }

  /** A file record read successfully holds, in order, the offset of its
      name, the parent, both sizes, the unknown word and the data offset. */
  lemma FileEntryFields(s: seq<byte>, order: ByteOrder, pos: nat, numFolders: nat, names: seq<byte>)
    requires FileEntryAt(s, order, pos, numFolders, names).Success?
    ensures var e := FileEntryAt(s, order, pos, numFolders, names).value;
      && U32At(s, pos, order) < |s| && NameAt(names, U32At(s, pos, order)) == Some(e.name)
      && e.parent == I32(U32At(s, pos + 4, order))
      && e.decompressedSize == U32At(s, pos + 8, order) && e.compressedSize == U32At(s, pos + 12, order)
      && e.unknown == U32At(s, pos + 16, order) && e.dataOffset == U32At(s, pos + 20, order)
  {
  }

  /** A folder record read successfully holds, in order, the offset of its
      name, the parent, the last and first subfolder and the first and last
      file. */
  lemma FolderEntryFields(s: seq<byte>, order: ByteOrder, pos: nat, numFiles: nat, numFolders: nat, names: seq<byte>)
    requires FolderEntryAt(s, order, pos, numFiles, numFolders, names).Success?
    ensures var f := FolderEntryAt(s, order, pos, numFiles, numFolders, names).value;
      && U32At(s, pos, order) < |s| && NameAt(names, U32At(s, pos, order)) == Some(f.name)
      && f.parent == I32(U32At(s, pos + 4, order))
      && f.lastSubfolder == I32(U32At(s, pos + 8, order)) && f.firstSubfolder == I32(U32At(s, pos + 12, order))
      && f.firstFile == I32(U32At(s, pos + 16, order)) && f.lastFile == I32(U32At(s, pos + 20, order))
  {
  }

  /** Record `i` of the file directory. */
  function FileRecord(s: seq<byte>, h: Header, names: seq<byte>, i: nat): Result<FileEntry, DsError> {
    FileEntryAt(s, h.Order(), h.fileDirOffset + RecordSize * i, h.numFolders, names)
  }

  /** Record `i` of the folder directory. */
  function FolderRecord(s: seq<byte>, h: Header, names: seq<byte>, i: nat): Result<FolderEntry, DsError> {
    FolderEntryAt(s, h.Order(), h.folderDirOffset + RecordSize * i, h.numFiles, h.numFolders, names)
  }

  /** The records 0 .. n-1 read in order by `read`; the first record that
      fails decides the error. */
  function ReadRecords<T>(read: nat -> Result<T, DsError>, n: nat): (r: Result<seq<T>, DsError>)
    ensures r.Success? ==> |r.value| == n
    ensures r.Success? ==> forall i :: 0 <= i < n ==> read(i) == Success(r.value[i])
  {
    if n == 0 then Success([])
    else
      var before :- ReadRecords(read, n - 1);
      var entry :- read(n - 1);
      Success(before + [entry])
  }

  /** Records are read strictly in order: a failed read reports the error of
      the first record that fails, after every record before it was read. */
  lemma {:induction false} FirstFailure<T>(read: nat -> Result<T, DsError>, n: nat)
    requires ReadRecords(read, n).Failure?
    ensures exists i :: 0 <= i < n && read(i) == Failure(ReadRecords(read, n).error)
                        && (forall j :: 0 <= j < i ==> read(j).Success?)
  {
    var r := ReadRecords(read, n);
    if ReadRecords(read, n - 1).Failure? {
      assert r.error == ReadRecords(read, n - 1).error;
      FirstFailure(read, n - 1);
    } else {
      var before := ReadRecords(read, n - 1).value;
      assert read(n - 1) == Failure(r.error);
      assert forall j :: 0 <= j < n - 1 ==> read(j) == Success(before[j]);
    }
  }

  /** Once record `i` fails after all before it were read, every longer read
      fails with its error. */
  lemma {:induction false} ReadStops<T>(read: nat -> Result<T, DsError>, i: nat, n: nat)
    requires i < n && ReadRecords(read, i).Success? && read(i).Failure?
    ensures ReadRecords(read, n) == Failure(read(i).error)
    decreases n
  {
    if n > i + 1 {
      ReadStops(read, i, n - 1);
    }
  }

  /** Record `i` of the file directory, as a function of `i`. */
  function FileReader(s: seq<byte>, h: Header, names: seq<byte>): nat -> Result<FileEntry, DsError> {
    (i: nat) => FileRecord(s, h, names, i)
  }

  /** Record `i` of the folder directory, as a function of `i`. */
  function FolderReader(s: seq<byte>, h: Header, names: seq<byte>): nat -> Result<FolderEntry, DsError> {
    (i: nat) => FolderRecord(s, h, names, i)
  }

  /** The first `n` file records of the directory at `h.fileDirOffset`. */
  function Files(s: seq<byte>, h: Header, names: seq<byte>, n: nat): (r: Result<seq<FileEntry>, DsError>)
    ensures r.Success? ==> |r.value| == n
    ensures r.Success? ==> forall i :: 0 <= i < n ==> FileRecord(s, h, names, i) == Success(r.value[i])
  {
    ReadRecords(FileReader(s, h, names), n)
  }

  /** The first `n` folder records of the directory at `h.folderDirOffset`. */
  function Folders(s: seq<byte>, h: Header, names: seq<byte>, n: nat): (r: Result<seq<FolderEntry>, DsError>)
    ensures r.Success? ==> |r.value| == n
    ensures r.Success? ==> forall i :: 0 <= i < n ==> FolderRecord(s, h, names, i) == Success(r.value[i])
  {
    ReadRecords(FolderReader(s, h, names), n)
  }

  /** Reading one more record that succeeds appends it. */
  lemma FilesStep(s: seq<byte>, h: Header, names: seq<byte>, n: nat, before: seq<FileEntry>, entry: FileEntry)
    requires Files(s, h, names, n) == Success(before) && FileRecord(s, h, names, n) == Success(entry)
    ensures Files(s, h, names, n + 1) == Success(before + [entry])
  {
    assert FileReader(s, h, names)(n) == Success(entry);
  }

  lemma FoldersStep(s: seq<byte>, h: Header, names: seq<byte>, n: nat, before: seq<FolderEntry>, entry: FolderEntry)
    requires Folders(s, h, names, n) == Success(before) && FolderRecord(s, h, names, n) == Success(entry)
    ensures Folders(s, h, names, n + 1) == Success(before + [entry])
  {
    assert FolderReader(s, h, names)(n) == Success(entry);
  }

  /** The file directory is read strictly in order. */
  lemma FilesFirstFailure(s: seq<byte>, h: Header, names: seq<byte>, n: nat)
    requires Files(s, h, names, n).Failure?
    ensures exists i :: 0 <= i < n && FileRecord(s, h, names, i) == Failure(Files(s, h, names, n).error)
                        && (forall j :: 0 <= j < i ==> FileRecord(s, h, names, j).Success?)
  {
    var read := FileReader(s, h, names);
    FirstFailure(read, n);
    var i :| 0 <= i < n && read(i) == Failure(ReadRecords(read, n).error) && (forall j :: 0 <= j < i ==> read(j).Success?);
    assert forall j :: 0 <= j < i ==> read(j) == FileRecord(s, h, names, j);
  }

  /** The folder directory is read strictly in order. */
  lemma FoldersFirstFailure(s: seq<byte>, h: Header, names: seq<byte>, n: nat)
    requires Folders(s, h, names, n).Failure?
    ensures exists i :: 0 <= i < n && FolderRecord(s, h, names, i) == Failure(Folders(s, h, names, n).error)
                        && (forall j :: 0 <= j < i ==> FolderRecord(s, h, names, j).Success?)
  {
    var read := FolderReader(s, h, names);
    FirstFailure(read, n);
    var i :| 0 <= i < n && read(i) == Failure(ReadRecords(read, n).error) && (forall j :: 0 <= j < i ==> read(j).Success?);
    assert forall j :: 0 <= j < i ==> read(j) == FolderRecord(s, h, names, j);
  }

  /** A failing file record ends the read of the file directory. */
  lemma FilesStop(s: seq<byte>, h: Header, names: seq<byte>, i: nat, n: nat)
    requires i < n && Files(s, h, names, i).Success? && FileRecord(s, h, names, i).Failure?
    ensures Files(s, h, names, n) == Failure(FileRecord(s, h, names, i).error)
  {
    ReadStops(FileReader(s, h, names), i, n);
  }

  /** A failing folder record ends the read of the folder directory. */
  lemma FoldersStop(s: seq<byte>, h: Header, names: seq<byte>, i: nat, n: nat)
    requires i < n && Folders(s, h, names, i).Success? && FolderRecord(s, h, names, i).Failure?
    ensures Folders(s, h, names, n) == Failure(FolderRecord(s, h, names, i).error)
  {
    ReadStops(FolderReader(s, h, names), i, n);
  }

  /** `read_names_directory`: `names_dir_length` bytes from
      `names_dir_offset`, fewer at the end of the archive. */
  function NamesData(s: seq<byte>, h: Header): seq<byte> {
    ReadAt(s, h.namesDirOffset, h.namesDirLength)
  }

  // ---------------------------------------------------------------------------
  // Record encodings
  // ---------------------------------------------------------------------------

  predicate Int32(v: int) {
    -0x8000_0000 <= v < 0x8000_0000
  }

  /** The 24 bytes of a file record naming `nameOffset`. */
  function FileRecordBytes(order: ByteOrder, nameOffset: u32, e: FileEntry): (r: seq<byte>)
    requires Int32(e.parent)
    ensures |r| == RecordSize
  {
    U32sBytes([nameOffset, I32Bits(e.parent), e.decompressedSize, e.compressedSize, e.unknown, e.dataOffset], order)
  }

  /** The 24 bytes of a folder record naming `nameOffset`. */
  function FolderRecordBytes(order: ByteOrder, nameOffset: u32, f: FolderEntry): (r: seq<byte>)
    requires Int32(f.parent) && Int32(f.lastSubfolder) && Int32(f.firstSubfolder) && Int32(f.firstFile) && Int32(f.lastFile)
    ensures |r| == RecordSize
  {
    U32sBytes([nameOffset, I32Bits(f.parent), I32Bits(f.lastSubfolder), I32Bits(f.firstSubfolder),
               I32Bits(f.firstFile), I32Bits(f.lastFile)], order)
  }

  /** A well-formed file entry written as a record, with its name in the
      table, is read back unchanged. */
  lemma FileRecordRoundTrip(s: seq<byte>, order: ByteOrder, pos: nat, numFolders: nat, names: seq<byte>, nameOffset: u32, e: FileEntry)
    requires Int32(e.parent) && pos + RecordSize <= |s| && s[pos..pos + RecordSize] == FileRecordBytes(order, nameOffset, e)
    requires WellFormedFile(e, |s|, numFolders) && nameOffset < |s| && NameAt(names, nameOffset) == Some(e.name)
    ensures FileEntryAt(s, order, pos, numFolders, names) == Success(e)
  {
    var xs := [nameOffset, I32Bits(e.parent), e.decompressedSize, e.compressedSize, e.unknown, e.dataOffset];
    U32sBytesAt(s, pos, xs, order);
    assert U32At(s, pos + 4 * 0, order) == xs[0] && U32At(s, pos + 4 * 1, order) == xs[1];
    assert U32At(s, pos + 4 * 2, order) == xs[2] && U32At(s, pos + 4 * 3, order) == xs[3];
    assert U32At(s, pos + 4 * 4, order) == xs[4] && U32At(s, pos + 4 * 5, order) == xs[5];
    assert OffsetAt(s, pos, order) == Success(nameOffset);
    assert SignedAt(s, pos + 4, order) == Success(e.parent);
    assert FieldAt(s, pos + 8, order) == Success(e.decompressedSize);
    assert CompressedLengthAt(s, pos + 12, order) == Success(e.compressedSize);
    assert FieldAt(s, pos + 16, order) == Success(e.unknown);
    assert OffsetAt(s, pos + 20, order) == Success(e.dataOffset);
  }

  /** A well-formed folder entry written as a record, with its name in the
      table, is read back unchanged. */
  lemma FolderRecordRoundTrip(s: seq<byte>, order: ByteOrder, pos: nat, numFiles: nat, numFolders: nat, names: seq<byte>, nameOffset: u32, f: FolderEntry)
    requires Int32(f.parent) && Int32(f.lastSubfolder) && Int32(f.firstSubfolder) && Int32(f.firstFile) && Int32(f.lastFile)
    requires pos + RecordSize <= |s| && s[pos..pos + RecordSize] == FolderRecordBytes(order, nameOffset, f)
    requires WellFormedFolder(f, numFiles, numFolders) && nameOffset < |s| && NameAt(names, nameOffset) == Some(f.name)
    ensures FolderEntryAt(s, order, pos, numFiles, numFolders, names) == Success(f)
  {
    FolderFieldsRead(s, order, pos, nameOffset, f);
  }

  /** The six words of a folder record read back as its fields. */
  lemma FolderFieldsRead(s: seq<byte>, order: ByteOrder, pos: nat, nameOffset: u32, f: FolderEntry)
    requires Int32(f.parent) && Int32(f.lastSubfolder) && Int32(f.firstSubfolder) && Int32(f.firstFile) && Int32(f.lastFile)
    requires pos + RecordSize <= |s| && s[pos..pos + RecordSize] == FolderRecordBytes(order, nameOffset, f)
    requires nameOffset < |s|
    ensures OffsetAt(s, pos, order) == Success(nameOffset as nat)
    ensures SignedAt(s, pos + 4, order) == Success(f.parent) && SignedAt(s, pos + 8, order) == Success(f.lastSubfolder)
    ensures SignedAt(s, pos + 12, order) == Success(f.firstSubfolder) && SignedAt(s, pos + 16, order) == Success(f.firstFile)
    ensures SignedAt(s, pos + 20, order) == Success(f.lastFile)
  {
    var xs := [nameOffset, I32Bits(f.parent), I32Bits(f.lastSubfolder), I32Bits(f.firstSubfolder), I32Bits(f.firstFile), I32Bits(f.lastFile)];
    U32sBytesAt(s, pos, xs, order);
    assert U32At(s, pos + 4 * 0, order) == xs[0] && U32At(s, pos + 4 * 1, order) == xs[1];
    assert U32At(s, pos + 4 * 2, order) == xs[2] && U32At(s, pos + 4 * 3, order) == xs[3];
    assert U32At(s, pos + 4 * 4, order) == xs[4] && U32At(s, pos + 4 * 5, order) == xs[5];
  }
}
