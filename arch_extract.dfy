/** Extraction from a F.E.A.R. 2 `.arch01` archive: the block framing of
    `decompress_zlib_blocks`, the compression-method dispatch of
    `_process_single_file`, the running file index of
    `_process_folders_and_files`, and the table reads of `archive_extract`.

    Raw DEFLATE (`zlib.decompressobj(-15)`) is not modelled: it is the
    parameter `inflate`, which maps the compressed bytes already fed to the
    decompressor and the next block to the bytes it returns (None for
    `zlib.error`).  The archive is the byte sequence `s`; a read at position
    `pos` is `ReadAt`, and the file position moves by what was read.  The file
    system is the list of directory creations and file writes. */
module ArchExtract {
  import opened Results
  import opened Bytes
  import opened ArchFormat

  const ComMethodRaw: u32 := 0
  const ComMethodZlib: u32 := 9

  /** The decompressor as seen by the framing: previously fed bytes and the
      next block in, output (or a zlib error) out. */
  type Inflater = (seq<byte>, seq<byte>) -> Option<seq<byte>>

  // ---------------------------------------------------------------------------
  // decompress_zlib_blocks
  // ---------------------------------------------------------------------------

  /** Whether the framing succeeded, the bytes written to the output file,
      and where the input stream stands. */
  datatype Blocks = Blocks(ok: bool, out: seq<byte>, pos: nat)

  function Prepend(chunk: seq<byte>, b: Blocks): Blocks {
    Blocks(b.ok, chunk + b.out, b.pos)
  }

  /** One block of the stream as read at `pos`: an 8-byte header (stored
      size, decompressed size), the stored bytes, and the padding to a
      multiple of four, which may be cut short; or the position reached when
      the header or the stored bytes are cut short. */
  datatype Frame = Cut(end: nat) | Frame(stored: nat, size: nat, data: seq<byte>, next: nat)

  function ReadFrame(s: seq<byte>, pos: nat): (f: Frame)
  {
    if |s| < pos + 8 then Cut(if pos <= |s| then |s| else pos)
    else
      var n := U32At(s, pos, LittleEndian);
      if |s| < pos + 8 + n then Cut(|s|)
      else
        var end := pos + 8 + n + Padding(n);
        Frame(n, U32At(s, pos + 4, LittleEndian), s[pos + 8..pos + 8 + n], if end <= |s| then end else |s|)
  }

  /** A frame is the header's two sizes, then exactly the stored bytes, then
      whatever of the padding the stream still holds. */
  lemma FrameReads(s: seq<byte>, pos: nat)
    ensures ReadFrame(s, pos).Cut? <==> |ReadAt(s, pos, 8)| < 8 || |ReadAt(s, pos + 8, U32At(ReadAt(s, pos, 8), 0, LittleEndian))| < U32At(ReadAt(s, pos, 8), 0, LittleEndian)
    ensures ReadFrame(s, pos).Frame? ==>
      var f := ReadFrame(s, pos);
      && f.stored == U32At(ReadAt(s, pos, 8), 0, LittleEndian) && f.size == U32At(ReadAt(s, pos, 8), 4, LittleEndian)
      && f.data == ReadAt(s, pos + 8, f.stored)
      && f.next == pos + 8 + f.stored + |ReadAt(s, pos + 8 + f.stored, Padding(f.stored))|
  {
  }

  /** The input stream as the loop sees it: the frame at each position. */
  function FrameReader(s: seq<byte>): nat -> Frame {
    (pos: nat) => ReadFrame(s, pos)
  }

  /** The loop of `decompress_zlib_blocks` from stream position `pos`, with
      `total` bytes of the announced `compressedSize` already counted and
      `fed` already given to the decompressor.  Each frame counts its full
      padded length; a frame whose two sizes agree is copied without the
      decompressor. */
  function BlockStream(read: nat -> Frame, pos: nat, total: nat, compressedSize: nat, fed: seq<byte>, inflate: Inflater): (r: Blocks)
    ensures total >= compressedSize ==> r == Blocks(true, [], pos)
    decreases compressedSize - total
  {
    if total >= compressedSize then Blocks(true, [], pos)
    else
      match read(pos)
      case Cut(end) => Blocks(false, [], end)
      case Frame(n, d, data, next) =>
        var counted := total + 8 + n + Padding(n);
        if n == d then Prepend(data, BlockStream(read, next, counted, compressedSize, fed, inflate))
        else
          match inflate(fed, data)
          case None => Blocks(false, [], next)
          case Some(plain) => Prepend(plain, BlockStream(read, next, counted, compressedSize, fed + data, inflate))
  }

  /** `decompress_zlib_blocks(in_file, out_file, compressed_size)` with the
      input at `start`. */
  function DecompressBlocks(s: seq<byte>, start: nat, compressedSize: nat, inflate: Inflater): Blocks {
    BlockStream(FrameReader(s), start, 0, compressedSize, [], inflate)
  }

  lemma {:induction false} PrependTwice(a: seq<byte>, b: seq<byte>, r: Blocks)
    ensures Prepend(a, Prepend(b, r)) == Prepend(a + b, r)
  {
    assert a + (b + r.out) == (a + b) + r.out;
  }

  /** One iteration of the loop, for any stream. */
  lemma {:induction false} StreamStep(read: nat -> Frame, pos: nat, total: nat, compressedSize: nat, fed: seq<byte>, inflate: Inflater)
    requires total < compressedSize
    ensures read(pos).Cut? ==> BlockStream(read, pos, total, compressedSize, fed, inflate) == Blocks(false, [], read(pos).end)
    ensures read(pos).Frame? ==>
      var f := read(pos);
      var counted := total + 8 + f.stored + Padding(f.stored);
      BlockStream(read, pos, total, compressedSize, fed, inflate) ==
        if f.stored == f.size then Prepend(f.data, BlockStream(read, f.next, counted, compressedSize, fed, inflate))
        else if inflate(fed, f.data).None? then Blocks(false, [], f.next)
        else Prepend(inflate(fed, f.data).value, BlockStream(read, f.next, counted, compressedSize, fed + f.data, inflate))
  {
  }

  /** The reads of one loop iteration: the header, the stored bytes, and
      the padding when there is any. */
  method ReadBlock(s: seq<byte>, pos: nat) returns (f: Frame)
    ensures f == ReadFrame(s, pos)
  {
    var header := ReadAt(s, pos, 8);
    if |header| < 8 {
      return Cut(pos + |header|);
    }
    var n := U32At(header, 0, LittleEndian);
    var d := U32At(header, 4, LittleEndian);
    var data := ReadAt(s, pos + 8, n);
    if |data| < n {
      return Cut(pos + 8 + |data|);
    }
    var next := pos + 8 + n;
    var pad := Padding(n);
    if pad != 0 {
      next := next + |ReadAt(s, next, pad)|;
    }
    f := Frame(n, d, data, next);
  }

  /** The loop as it runs: an accumulator for the output file, a cursor for
      the input stream and the count of bytes consumed. */
  method DecompressZlibBlocks(s: seq<byte>, start: nat, compressedSize: nat, inflate: Inflater) returns (r: Blocks)
    ensures r == DecompressBlocks(s, start, compressedSize, inflate)
  {
    ghost var read := FrameReader(s);
    var totalRead: nat := 0;
    var pos: nat := start;
    var fed: seq<byte> := [];
    var out: seq<byte> := [];
    while totalRead < compressedSize
      invariant DecompressBlocks(s, start, compressedSize, inflate) == Prepend(out, BlockStream(read, pos, totalRead, compressedSize, fed, inflate))
      decreases compressedSize - totalRead
    {
      var frame := ReadBlock(s, pos);
      assert read(pos) == frame;
      StreamStep(read, pos, totalRead, compressedSize, fed, inflate);
      if frame.Cut? {
        return Blocks(false, out, frame.end);
      }
      pos, totalRead := frame.next, totalRead + 8 + frame.stored + Padding(frame.stored);
      if frame.stored == frame.size {
        PrependTwice(out, frame.data, BlockStream(read, pos, totalRead, compressedSize, fed, inflate));
        out := out + frame.data;
      } else {
        var plain := inflate(fed, frame.data);
        if plain.None? {
          return Blocks(false, out, pos);
        }
        PrependTwice(out, plain.value, BlockStream(read, pos, totalRead, compressedSize, fed + frame.data, inflate));
        out := out + plain.value;
        fed := fed + frame.data;
      }
    }
    r := Blocks(true, out, pos);
  }

  /** The bytes of one stored block (`n == d`) holding `chunk`, padded with
      zeros. */
  function StoredBlock(chunk: seq<byte>): (r: seq<byte>)
    requires |chunk| < 0x1_0000_0000
    ensures |r| == 8 + |chunk| + Padding(|chunk|)
  {
    U32Bytes(|chunk|, LittleEndian) + U32Bytes(|chunk|, LittleEndian) + chunk + seq(Padding(|chunk|), _ => 0)
  }

  /** A stored block at the start of the stream reads as its frame. */
  lemma {:induction false} StoredBlockReads(chunk: seq<byte>, tail: seq<byte>)
    requires |chunk| < 0x1_0000_0000
    ensures ReadFrame(StoredBlock(chunk) + tail, 0) == Frame(|chunk|, |chunk|, chunk, |StoredBlock(chunk)|)
  {
    var s := StoredBlock(chunk) + tail;
    var size := U32Bytes(|chunk|, LittleEndian);
    var pad: seq<byte> := seq(Padding(|chunk|), _ => 0);
    assert s == size + size + chunk + pad + tail;
    assert s[0..4] == size && s[4..8] == size;
    U32RoundTrip(s, 0, |chunk|, LittleEndian);
    U32RoundTrip(s, 4, |chunk|, LittleEndian);
    assert s[8..8 + |chunk|] == chunk;
  }

  /** `decompress_zlib_blocks` over one stored block copies its contents,
      whatever the decompressor is and whatever follows. */
  lemma StoredBlockDecompress(chunk: seq<byte>, tail: seq<byte>, inflate: Inflater)
    requires |chunk| < 0x1_0000_0000
    ensures DecompressBlocks(StoredBlock(chunk) + tail, 0, |StoredBlock(chunk)|, inflate)
            == Blocks(true, chunk, |StoredBlock(chunk)|)
  {
    var read := FrameReader(StoredBlock(chunk) + tail);
    StoredBlockReads(chunk, tail);
    assert read(0) == Frame(|chunk|, |chunk|, chunk, |StoredBlock(chunk)|);
    StreamStep(read, 0, 0, |StoredBlock(chunk)|, [], inflate);
    assert chunk + [] == chunk;
  }

  function Concat(chunks: seq<seq<byte>>): seq<byte> {
    if chunks == [] then [] else chunks[0] + Concat(chunks[1..])
  }

  /** The size of `chunks` as stored frames. */
  function FramedSize(chunks: seq<seq<byte>>): nat {
    if chunks == [] then 0 else 8 + |chunks[0]| + Padding(|chunks[0]|) + FramedSize(chunks[1..])
  }

  /** From `pos` on, `read` finds stored frames holding `chunks`, one after
      another. */
  ghost predicate StoredFrames(read: nat -> Frame, pos: nat, chunks: seq<seq<byte>>)
    decreases |chunks|
  {
    chunks != [] ==>
      var size := 8 + |chunks[0]| + Padding(|chunks[0]|);
      read(pos) == Frame(|chunks[0]|, |chunks[0]|, chunks[0], pos + size) && StoredFrames(read, pos + size, chunks[1..])
  }

  /** Stored frames come back out unchanged and in order, whatever the
      decompressor is and whatever follows them. */
  lemma {:induction false} StoredRoundTrip(read: nat -> Frame, pos: nat, total: nat, chunks: seq<seq<byte>>, fed: seq<byte>, inflate: Inflater)
    requires StoredFrames(read, pos, chunks)
    ensures BlockStream(read, pos, total, total + FramedSize(chunks), fed, inflate)
            == Blocks(true, Concat(chunks), pos + FramedSize(chunks))
    decreases |chunks|
  {
    if chunks != [] {
      var size := 8 + |chunks[0]| + Padding(|chunks[0]|);
      StoredRoundTrip(read, pos + size, total + size, chunks[1..], fed, inflate);
    }
  }

  /** The same for an archive: stored frames from `start` decompress to
      their contents. */
  lemma StoredFramesDecompress(s: seq<byte>, start: nat, chunks: seq<seq<byte>>, inflate: Inflater)
    requires StoredFrames(FrameReader(s), start, chunks)
    ensures DecompressBlocks(s, start, FramedSize(chunks), inflate) == Blocks(true, Concat(chunks), start + FramedSize(chunks))
  {
    StoredRoundTrip(FrameReader(s), start, 0, chunks, [], inflate);
  }

  /** A header cut short fails the whole decompression. */
  lemma TruncatedBlockHeader(s: seq<byte>, compressedSize: nat, inflate: Inflater)
    requires |s| < 8 && compressedSize > 0
    ensures !DecompressBlocks(s, 0, compressedSize, inflate).ok
  {
    assert FrameReader(s)(0) == Cut(|s|);
  }

  // ---------------------------------------------------------------------------
  // Folders and files
  // ---------------------------------------------------------------------------

  /** A path is its list of components below the file-system root. */
  datatype Action = MakeDir(path: seq<string>) | WriteFile(path: seq<string>, data: seq<byte>)

  datatype Outcome = Outcome(ok: bool, actions: seq<Action>)

  function Then(first: seq<Action>, rest: Outcome): Outcome {
    Outcome(rest.ok, first + rest.actions)
  }

  function Parent(path: seq<string>): seq<string> {
    if path == [] then [] else path[..|path| - 1]
  }

  /** The number of files an outcome writes. */
  function Writes(actions: seq<Action>): nat {
    if actions == [] then 0 else (if actions[0].WriteFile? then 1 else 0) + Writes(actions[1..])
  }

  lemma {:induction false} WritesAppend(a: seq<Action>, b: seq<Action>)
    ensures Writes(a + b) == Writes(a) + Writes(b)
    decreases |a|
  {
    if a == [] {
      assert a + b == b;
    } else {
      assert (a + b)[0] == a[0];
      assert (a + b)[1..] == a[1..] + b;
      WritesAppend(a[1..], b);
      assert Writes(a + b) == (if a[0].WriteFile? then 1 else 0) + Writes(a[1..] + b);
    }
  }

  /** `_process_single_file`: the entry's name below the folder, its parent
      directory created, the output file opened (so created) and filled by
      the compression method: method 0 copies `RawFileSize` bytes from
      `FileOffset`, method 9 decodes blocks from there, any other method
      leaves it empty and fails.  A name with no components names the folder
      itself, which cannot be opened for writing. */
  function ProcessSingleFile(s: seq<byte>, e: ArchFileEntry, table: seq<byte>, folder: seq<string>, inflate: Inflater): (r: Outcome)
    ensures |r.actions| >= 1
    ensures r.ok ==> |r.actions| == 2
  {
    var name := NameFromTable(table, e.nameOffset);
    var path := folder + name;
    if name == [] then Outcome(false, [MakeDir(Parent(path))])
    else if e.comMethod == ComMethodRaw then
      Outcome(true, [MakeDir(Parent(path)), WriteFile(path, ReadAt(s, e.fileOffset, e.rawFileSize))])
    else if e.comMethod == ComMethodZlib then
      var blocks := DecompressBlocks(s, e.fileOffset, e.comFileSize, inflate);
      Outcome(blocks.ok, [MakeDir(Parent(path)), WriteFile(path, blocks.out)])
    else
      Outcome(false, [MakeDir(Parent(path)), WriteFile(path, [])])
  }

  /** What `_process_single_file` does with one entry: the parent directory
      first; then, for a name with components, the one file written, holding
      the raw bytes for method 0 and the decoded blocks for method 9; any
      other method, or a name naming the folder itself, fails. */
  lemma {:induction false} SingleFileOutcome(s: seq<byte>, e: ArchFileEntry, table: seq<byte>, folder: seq<string>, inflate: Inflater)
    ensures var r := ProcessSingleFile(s, e, table, folder, inflate);
      && |r.actions| >= 1 && r.actions[0] == MakeDir(Parent(folder + NameFromTable(table, e.nameOffset)))
      && (NameFromTable(table, e.nameOffset) == [] ==> !r.ok)
      && (e.comMethod != ComMethodRaw && e.comMethod != ComMethodZlib ==> !r.ok)
      && (r.ok ==> |r.actions| == 2 && r.actions[1].WriteFile? && r.actions[1].path == folder + NameFromTable(table, e.nameOffset))
      && (e.comMethod == ComMethodRaw ==>
            (r.ok <==> NameFromTable(table, e.nameOffset) != []) &&
            (r.ok ==> r.actions[1].data == ReadAt(s, e.fileOffset, e.rawFileSize)))
      && (e.comMethod == ComMethodZlib ==>
            (r.ok <==> NameFromTable(table, e.nameOffset) != [] && DecompressBlocks(s, e.fileOffset, e.comFileSize, inflate).ok) &&
            (r.ok ==> r.actions[1].data == DecompressBlocks(s, e.fileOffset, e.comFileSize, inflate).out))
  {
  }

  /** A file that extracts writes exactly one output file. */
  lemma {:induction false} SingleFileWrites(s: seq<byte>, e: ArchFileEntry, table: seq<byte>, folder: seq<string>, inflate: Inflater)
    requires ProcessSingleFile(s, e, table, folder, inflate).ok
    ensures Writes(ProcessSingleFile(s, e, table, folder, inflate).actions) == 1
  {
    var acts := ProcessSingleFile(s, e, table, folder, inflate).actions;
    assert acts[1..][1..] == [];
    assert Writes(acts[1..]) == 1;
  }

  /** `_process_single_file` on the open archive and its name table, as the
      walk sees it: a file entry and the folder it belongs in. */
  type FileExtractor = (ArchFileEntry, seq<string>) -> Outcome

  function SingleFile(s: seq<byte>, table: seq<byte>, inflate: Inflater): FileExtractor {
    (e: ArchFileEntry, folder: seq<string>) => ProcessSingleFile(s, e, table, folder, inflate)
  }

  /** Every successful extraction writes one file. */
  ghost predicate WritesOne(extract: FileExtractor) {
    forall e: ArchFileEntry, folder: seq<string> :: extract(e, folder).ok ==> Writes(extract(e, folder).actions) == 1
  }

  lemma SingleFileWritesOne(s: seq<byte>, table: seq<byte>, inflate: Inflater)
    ensures WritesOne(SingleFile(s, table, inflate))
  {
    var extract := SingleFile(s, table, inflate);
    forall e: ArchFileEntry, folder: seq<string> | extract(e, folder).ok
      ensures Writes(extract(e, folder).actions) == 1
    {
      assert extract(e, folder) == ProcessSingleFile(s, e, table, folder, inflate);
      SingleFileWrites(s, e, table, folder, inflate);
    }
  }

  /** The folder and file tables, the name table and the target folder. */
  datatype Listing = Listing(folders: seq<ArchFolderEntry>, files: seq<ArchFileEntry>, table: seq<byte>, target: seq<string>)
  {
    /** `target_folder / get_string_from_table(name_table, folder.NameOffset)`. */
    function FolderDir(k: nat): seq<string>
      requires k < |folders|
    {
      target + NameFromTable(table, folders[k].nameOffset)
    }
  }

  /** The folder-and-file walk from folder `k` with the next file entry at
      `next`: folders with no files are skipped without using entries,
      others get their directory and take their next `FileCount` entries in
      order. */
  function Walk(l: Listing, extract: FileExtractor, k: nat, next: nat): Outcome
    decreases |l.folders| - k, if k < |l.folders| then l.folders[k].fileCount + 1 else 0
  {
    if k >= |l.folders| then Outcome(true, [])
    else if l.folders[k].fileCount == 0 then Walk(l, extract, k + 1, next)
    else Then([MakeDir(l.FolderDir(k))], FolderRest(l, extract, k, next, l.folders[k].fileCount))
  }

  /** The remaining `remaining` files of folder `k`, then the folders after
      it; running out of file entries fails. */
  function FolderRest(l: Listing, extract: FileExtractor, k: nat, next: nat, remaining: nat): Outcome
    requires k < |l.folders|
    decreases |l.folders| - k, remaining
  {
    if remaining == 0 then Walk(l, extract, k + 1, next)
    else if next >= |l.files| then Outcome(false, [])
    else
      var one := extract(l.files[next], l.FolderDir(k));
      if !one.ok then Outcome(false, one.actions)
      else Then(one.actions, FolderRest(l, extract, k, next + 1, remaining - 1))
  }

  /** One file of a folder: out of entries, failed, or written and on to the
      next. */
  lemma {:induction false} RestStep(l: Listing, extract: FileExtractor, k: nat, next: nat, remaining: nat)
    requires k < |l.folders| && remaining > 0
    ensures next >= |l.files| ==> FolderRest(l, extract, k, next, remaining) == Outcome(false, [])
    ensures next < |l.files| ==>
      var one := extract(l.files[next], l.FolderDir(k));
      FolderRest(l, extract, k, next, remaining)
        == if one.ok then Then(one.actions, FolderRest(l, extract, k, next + 1, remaining - 1)) else Outcome(false, one.actions)
  {
  }

  /** The file entries the folders from `k` on claim. */
  function Claimed(folders: seq<ArchFolderEntry>, k: nat): nat
    decreases |folders| - k
  {
    if k >= |folders| then 0 else folders[k].fileCount + Claimed(folders, k + 1)
  }

  /** A successful walk has used exactly the entries the folders claim, all
      within the file table, and written one file per entry. */
  lemma {:induction false} WalkClaims(l: Listing, extract: FileExtractor, k: nat, next: nat)
    requires WritesOne(extract)
    requires next <= |l.files| && Walk(l, extract, k, next).ok
    ensures next + Claimed(l.folders, k) <= |l.files|
    ensures Writes(Walk(l, extract, k, next).actions) == Claimed(l.folders, k)
    decreases |l.folders| - k, if k < |l.folders| then l.folders[k].fileCount + 1 else 0
  {
    if k < |l.folders| {
      if l.folders[k].fileCount == 0 {
        WalkClaims(l, extract, k + 1, next);
      } else {
        var dir := l.FolderDir(k);
        var rest := FolderRest(l, extract, k, next, l.folders[k].fileCount);
        assert Walk(l, extract, k, next) == Then([MakeDir(dir)], rest);
        RestClaims(l, extract, k, next, l.folders[k].fileCount);
        WritesAppend([MakeDir(dir)], rest.actions);
        assert Writes([MakeDir(dir)]) == 0 by {
          assert [MakeDir(dir)][1..] == [];
        }
      }
    }
  }

  lemma {:induction false} RestClaims(l: Listing, extract: FileExtractor, k: nat, next: nat, remaining: nat)
    requires WritesOne(extract)
    requires k < |l.folders| && next <= |l.files| && FolderRest(l, extract, k, next, remaining).ok
    ensures next + remaining + Claimed(l.folders, k + 1) <= |l.files|
    ensures Writes(FolderRest(l, extract, k, next, remaining).actions) == remaining + Claimed(l.folders, k + 1)
    decreases |l.folders| - k, remaining
  {
    if remaining == 0 {
      WalkClaims(l, extract, k + 1, next);
    } else {
      RestStep(l, extract, k, next, remaining);
      var one := extract(l.files[next], l.FolderDir(k));
      var rest := FolderRest(l, extract, k, next + 1, remaining - 1);
      RestClaims(l, extract, k, next + 1, remaining - 1);
      WritesAppend(one.actions, rest.actions);
    }
  }

  /** Folders that claim more entries than the table has always fail. */
  lemma OverclaimFails(l: Listing, extract: FileExtractor)
    requires WritesOne(extract) && Claimed(l.folders, 0) > |l.files|
    ensures !Walk(l, extract, 0, 0).ok
  {
    if Walk(l, extract, 0, 0).ok {
      WalkClaims(l, extract, 0, 0);
    }
  }

  /** `_process_folders_and_files`: a running `file_entry_index` across
      the folders, returning at the first failure. */
  method ProcessFoldersAndFiles(l: Listing, extract: FileExtractor) returns (r: Outcome)
    ensures r == Walk(l, extract, 0, 0)
  {
    var actions: seq<Action> := [];
    var fileEntryIndex := 0;
    for k := 0 to |l.folders|
      invariant Walk(l, extract, 0, 0) == Then(actions, Walk(l, extract, k, fileEntryIndex))
    {
      if l.folders[k].fileCount != 0 {
        var dir := l.FolderDir(k);
        var ok, written, index := ProcessFolderFiles(l, extract, k, fileEntryIndex);
        ghost var after := if ok then Walk(l, extract, k + 1, index) else Outcome(false, []);
        ThenTwice(actions, [MakeDir(dir)] + written, after);
        ThenTwice([MakeDir(dir)], written, after);
        actions := actions + ([MakeDir(dir)] + written);
        if !ok {
          assert actions + [] == actions;
          return Outcome(false, actions);
        }
        fileEntryIndex := index;
      }
    }
    r := Outcome(true, actions);
  }

  /** The inner loop of `_process_folders_and_files` for folder `k` (after
      its directory is created), from entry `start`: what it does, whether
      it got through, and where the index stands afterwards. */
  method ProcessFolderFiles(l: Listing, extract: FileExtractor, k: nat, start: nat)
    returns (ok: bool, written: seq<Action>, index: nat)
    requires k < |l.folders|
    ensures FolderRest(l, extract, k, start, l.folders[k].fileCount)
            == Then(written, if ok then Walk(l, extract, k + 1, index) else Outcome(false, []))
  {
    var dir := l.FolderDir(k);
    written, index := [], start;
    ghost var all := FolderRest(l, extract, k, start, l.folders[k].fileCount);
    assert all.actions == [] + all.actions;
    for j := 0 to l.folders[k].fileCount
      invariant all == Then(written, FolderRest(l, extract, k, index, l.folders[k].fileCount - j))
    {
      RestStep(l, extract, k, index, l.folders[k].fileCount - j);
      if index >= |l.files| {
        assert written + [] == written;
        return false, written, index;
      }
      var one := extract(l.files[index], dir);
      if !one.ok {
        assert (written + one.actions) + [] == written + one.actions;
        return false, written + one.actions, index;
      }
      ThenTwice(written, one.actions, FolderRest(l, extract, k, index + 1, l.folders[k].fileCount - j - 1));
      written := written + one.actions;
      index := index + 1;
    }
    ok := true;
  }

  lemma {:induction false} ThenTwice(a: seq<Action>, b: seq<Action>, r: Outcome)
    ensures Then(a, Then(b, r)) == Then(a + b, r)
  {
    assert a + (b + r.actions) == (a + b) + r.actions;
  }

  // ---------------------------------------------------------------------------
  // archive_extract
  // ---------------------------------------------------------------------------

  /** The `count` fixed-size records in `data`, decoded in order. */
  function FileTable(data: seq<byte>, count: nat): (r: seq<ArchFileEntry>)
    requires |data| >= FileEntrySize * count
    ensures |r| == count
    ensures forall i :: 0 <= i < count ==> DecodeFileEntry(data[i * FileEntrySize..(i + 1) * FileEntrySize]) == Success(r[i])
  {
    seq(count, i requires 0 <= i < count => DecodeFileEntry(data[i * FileEntrySize..(i + 1) * FileEntrySize]).value)
  }

  function FolderTable(data: seq<byte>, count: nat): (r: seq<ArchFolderEntry>)
    requires |data| >= FolderEntrySize * count
    ensures |r| == count
    ensures forall i :: 0 <= i < count ==> DecodeFolderEntry(data[i * FolderEntrySize..(i + 1) * FolderEntrySize]) == Success(r[i])
  {
    seq(count, i requires 0 <= i < count => DecodeFolderEntry(data[i * FolderEntrySize..(i + 1) * FolderEntrySize]).value)
  }

  /** Where the folder table ends: the header, the name table, the file
      table and the folder table are read one after another. */
  function TablesEnd(h: ArchHeader): nat {
    HeaderSize + h.nameTableSize + FileEntrySize * h.fileCount + FolderEntrySize * h.folderCount
  }

  /** The name table and the two entry tables of an archive that holds all
      of them, decoded from where the header places them. */
  function Layout(s: seq<byte>, h: ArchHeader, target: seq<string>): (l: Listing)
    requires |s| >= TablesEnd(h)
    ensures |l.table| == h.nameTableSize && |l.files| == h.fileCount && |l.folders| == h.folderCount
  {
    var filesPos := HeaderSize + h.nameTableSize;
    var foldersPos := filesPos + FileEntrySize * h.fileCount;
    Listing(FolderTable(s[foldersPos..TablesEnd(h)], h.folderCount), FileTable(s[filesPos..foldersPos], h.fileCount),
            s[HeaderSize..filesPos], target)
  }

  /** `archive_extract`: the header, the name table, `FileCount` file
      entries and `FolderCount` folder entries read one after another from
      the start, then the walk.  A short read of any of the four fails with
      nothing done, so the archive fails exactly when it ends before the
      folder table does. */
  function ArchiveExtract(s: seq<byte>, target: seq<string>, inflate: Inflater): (r: Outcome)
    ensures |s| < HeaderSize ==> r == Outcome(false, [])
    ensures r.ok ==> |s| >= HeaderSize
    ensures |s| >= HeaderSize ==>
      var h := DecodeHeader(s[0..HeaderSize]).value;
      && (|s| < TablesEnd(h) ==> r == Outcome(false, []))
      && (|s| >= TablesEnd(h) ==> r == Walk(Layout(s, h, target), SingleFile(s, Layout(s, h, target).table, inflate), 0, 0))
  {
    var headerData := ReadAt(s, 0, HeaderSize);
    if |headerData| < HeaderSize then Outcome(false, [])
    else
      assert headerData == s[0..HeaderSize];
      ExtractTables(s, DecodeHeader(headerData).value, target, inflate)
  }

  /** What `archive_extract` does after the header: the name table, then the
      file table, then the folder table, each read where the previous one
      ended (the archive fails unless it holds all three), then the walk. */
  function ExtractTables(s: seq<byte>, header: ArchHeader, target: seq<string>, inflate: Inflater): (r: Outcome)
    requires |s| >= HeaderSize
    ensures |s| < TablesEnd(header) ==> r == Outcome(false, [])
    ensures |s| >= TablesEnd(header) ==>
      r == Walk(Layout(s, header, target), SingleFile(s, Layout(s, header, target).table, inflate), 0, 0)
  {
    var tablePos := HeaderSize;
    var table := ReadAt(s, tablePos, header.nameTableSize);
    if |table| < header.nameTableSize then Outcome(false, [])
    else
      var filesPos := tablePos + header.nameTableSize;
      var fileData := ReadAt(s, filesPos, FileEntrySize * header.fileCount);
      if |fileData| < FileEntrySize * header.fileCount then Outcome(false, [])
      else
        var foldersPos := filesPos + FileEntrySize * header.fileCount;
        var folderData := ReadAt(s, foldersPos, FolderEntrySize * header.folderCount);
        if |folderData| < FolderEntrySize * header.folderCount then Outcome(false, [])
        else
          assert table == s[tablePos..filesPos] && fileData == s[filesPos..foldersPos];
          assert folderData == s[foldersPos..TablesEnd(header)];
          var listing := Listing(FolderTable(folderData, header.folderCount), FileTable(fileData, header.fileCount), table, target);
          assert listing == Layout(s, header, target);
          Walk(listing, SingleFile(s, listing.table, inflate), 0, 0)
  }

  /** Records written one after another. */
  function Records<T>(xs: seq<T>, encode: T -> seq<byte>): seq<byte> {
    if xs == [] then [] else encode(xs[0]) + Records(xs[1..], encode)
  }

  lemma {:induction false} RecordsLength<T>(xs: seq<T>, encode: T -> seq<byte>, w: nat)
    requires forall x :: |encode(x)| == w
    ensures |Records(xs, encode)| == w * |xs|
  {
    if xs != [] {
      RecordsLength(xs[1..], encode, w);
      assert w * |xs| == w * |xs[1..]| + w;
    }
  }

  lemma MulMono(a: nat, b: nat, w: nat)
    requires a <= b
    ensures a * w <= w * b
  {
  }

  /** Record `i` of records of width `w` is the `i`-th slice of that width. */
  lemma {:induction false} RecordsAt<T>(xs: seq<T>, encode: T -> seq<byte>, w: nat, i: nat)
    requires forall x :: |encode(x)| == w
    requires i < |xs|
    ensures |Records(xs, encode)| == w * |xs| && (i + 1) * w <= w * |xs|
    ensures Records(xs, encode)[i * w..(i + 1) * w] == encode(xs[i])
  {
    var head := encode(xs[0]);
    var tail := Records(xs[1..], encode);
    RecordsLength(xs, encode, w);
    RecordsLength(xs[1..], encode, w);
    assert (i + 1) * w <= w * |xs| by {
      MulMono(i + 1, |xs|, w);
    }
    assert Records(xs, encode) == head + tail;
    if i > 0 {
      RecordsAt(xs[1..], encode, w, i - 1);
      assert i * w == (i - 1) * w + w && (i + 1) * w == i * w + w;
      assert (head + tail)[i * w..(i + 1) * w] == tail[(i - 1) * w..i * w];
    }
  }

  function FileEntryBytes(e: ArchFileEntry): (r: seq<byte>)
    ensures |r| == FileEntrySize
  {
    U32sBytes(e.Words(), LittleEndian)
  }

  function FolderEntryBytes(f: ArchFolderEntry): (r: seq<byte>)
    ensures |r| == FolderEntrySize
  {
    U32sBytes(f.Words(), LittleEndian)
  }

  /** Decoding the stored file table gives back its entries. */
  lemma FileTableRoundTrip(files: seq<ArchFileEntry>)
    ensures |Records(files, FileEntryBytes)| == FileEntrySize * |files|
    ensures FileTable(Records(files, FileEntryBytes), |files|) == files
  {
    RecordsLength(files, FileEntryBytes, FileEntrySize);
    var r := FileTable(Records(files, FileEntryBytes), |files|);
    forall i | 0 <= i < |files|
      ensures r[i] == files[i]
    {
      RecordsAt(files, FileEntryBytes, FileEntrySize, i);
      FileEntryRoundTrip(files[i]);
    }
  }

  /** Decoding the stored folder table gives back its entries. */
  lemma FolderTableRoundTrip(folders: seq<ArchFolderEntry>)
    ensures |Records(folders, FolderEntryBytes)| == FolderEntrySize * |folders|
    ensures FolderTable(Records(folders, FolderEntryBytes), |folders|) == folders
  {
    RecordsLength(folders, FolderEntryBytes, FolderEntrySize);
    var r := FolderTable(Records(folders, FolderEntryBytes), |folders|);
    forall i | 0 <= i < |folders|
      ensures r[i] == folders[i]
    {
      RecordsAt(folders, FolderEntryBytes, FolderEntrySize, i);
      FolderEntryRoundTrip(folders[i]);
    }
  }

  /** The bytes of an archive: its header, the name table, the file table,
      the folder table, then whatever follows (the file data). */
  function ArchiveBytes(h: ArchHeader, table: seq<byte>, files: seq<ArchFileEntry>, folders: seq<ArchFolderEntry>, data: seq<byte>): seq<byte> {
    U32sBytes(h.Words(), LittleEndian) + table + Records(files, FileEntryBytes) + Records(folders, FolderEntryBytes) + data
  }

  /** An archive laid out as its header announces extracts by walking the
      folder and file tables it was written with. */
  lemma ArchiveAssembled(h: ArchHeader, table: seq<byte>, files: seq<ArchFileEntry>, folders: seq<ArchFolderEntry>,
                         data: seq<byte>, target: seq<string>, inflate: Inflater)
    requires |h.unk| == 7
    requires h.nameTableSize as int == |table| && h.fileCount as int == |files| && h.folderCount as int == |folders|
    ensures var s := ArchiveBytes(h, table, files, folders, data);
      ArchiveExtract(s, target, inflate) == Walk(Listing(folders, files, table, target), SingleFile(s, table, inflate), 0, 0)
  {
    var hb := U32sBytes(h.Words(), LittleEndian);
    var fb := Records(files, FileEntryBytes);
    var db := Records(folders, FolderEntryBytes);
    var s := ArchiveBytes(h, table, files, folders, data);
    RecordsLength(files, FileEntryBytes, FileEntrySize);
    RecordsLength(folders, FolderEntryBytes, FolderEntrySize);
    assert |h.Words()| == 12;
    PartsAt(s, hb, table, fb, db, data);
    LayoutOf(s, h, target, table, fb, db);
    HeaderRoundTrip(h);
    FileTableRoundTrip(files);
    FolderTableRoundTrip(folders);
  }

  /** The layout of an archive whose tables hold the given bytes. */
  lemma LayoutOf(s: seq<byte>, h: ArchHeader, target: seq<string>, table: seq<byte>, fb: seq<byte>, db: seq<byte>)
    requires |table| == h.nameTableSize && |fb| == FileEntrySize * h.fileCount && |db| == FolderEntrySize * h.folderCount
    requires HeaderSize + |table| + |fb| + |db| <= |s|
    requires s[HeaderSize..HeaderSize + |table|] == table && s[HeaderSize + |table|..HeaderSize + |table| + |fb|] == fb
    requires s[HeaderSize + |table| + |fb|..HeaderSize + |table| + |fb| + |db|] == db
    ensures Layout(s, h, target) == Listing(FolderTable(db, h.folderCount), FileTable(fb, h.fileCount), table, target)
  {
  }

  /** Where each of five consecutive parts sits in their concatenation. */
  lemma PartsAt(s: seq<byte>, a: seq<byte>, b: seq<byte>, c: seq<byte>, d: seq<byte>, e: seq<byte>)
    requires s == a + b + c + d + e
    ensures |s| == |a| + |b| + |c| + |d| + |e|
    ensures s[0..|a|] == a && s[|a|..|a| + |b|] == b && s[|a| + |b|..|a| + |b| + |c|] == c
    ensures s[|a| + |b| + |c|..|a| + |b| + |c| + |d|] == d
  {
  }

  /** Such an archive writes one file per entry its folders claim, and fails
      when they claim more entries than the file table holds. */
  lemma ArchiveWrites(h: ArchHeader, table: seq<byte>, files: seq<ArchFileEntry>, folders: seq<ArchFolderEntry>,
                      data: seq<byte>, target: seq<string>, inflate: Inflater)
    requires |h.unk| == 7
    requires h.nameTableSize as int == |table| && h.fileCount as int == |files| && h.folderCount as int == |folders|
    ensures var r := ArchiveExtract(ArchiveBytes(h, table, files, folders, data), target, inflate);
      && (r.ok ==> Claimed(folders, 0) <= |files| && Writes(r.actions) == Claimed(folders, 0))
      && (Claimed(folders, 0) > |files| ==> !r.ok)
  {
    var s := ArchiveBytes(h, table, files, folders, data);
    var l := Listing(folders, files, table, target);
    ArchiveAssembled(h, table, files, folders, data, target, inflate);
    SingleFileWritesOne(s, table, inflate);
    if Walk(l, SingleFile(s, table, inflate), 0, 0).ok {
      WalkClaims(l, SingleFile(s, table, inflate), 0, 0);
    }
  }
}
