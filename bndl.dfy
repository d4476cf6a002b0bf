/** The F.E.A.R. `.bndl` bundle: a 24-byte header of six little-endian words
    ('BNDL' first), a name table of NUL-terminated names each padded to a
    multiple of four bytes, an optional skip of `Unk2` words, then for every
    file an 8-byte pair of sizes followed by the file's bytes. The bundle is
    an in-memory byte sequence and the extracted files are returned as
    (name, bytes) pairs in the order they are written. */
module Bndl {
  import opened Results
  import opened Bytes

  /** The ValueError `BundleHeader` raises for a slice of the wrong length. */
  datatype BndlError = InvalidSize

  datatype BundleHeader = BundleHeader(
    marker: u32, version: u32, tableSize: u32, unk1: u32, unk2: u32, fileCount: u32)
  {
    /** The six stored words, in order. */
    function Words(): seq<u32> {
      [marker, version, tableSize, unk1, unk2, fileCount]
    }
  }

  const HeaderSize: nat := 24

  /** The bytes 'BNDL' read as a little-endian u32. */
  const BndlMarker: u32 := 0x4C44_4E42

  lemma BndlMarkerSpells()
    ensures U32Bytes(BndlMarker, LittleEndian) == ['B' as byte, 'N' as byte, 'D' as byte, 'L' as byte]
  {
  }

  // ---------------------------------------------------------------------------
  // Header
  // ---------------------------------------------------------------------------

  /** `BundleHeader(data)`: exactly 24 bytes, six words in field order. */
  function DecodeHeader(data: seq<byte>): (r: Result<BundleHeader, BndlError>)
    ensures r.Success? <==> |data| == HeaderSize
  {
    if |data| != HeaderSize then Failure(InvalidSize)
    else
      var w := U32sLe(data);
      Success(BundleHeader(w[0], w[1], w[2], w[3], w[4], w[5]))
  }

  /** The six fields are the six little-endian words, in field order. */
  lemma HeaderFields(data: seq<byte>)
    requires |data| == HeaderSize
    ensures forall k :: 0 <= k < 6 ==> DecodeHeader(data).value.Words()[k] == U32At(data, 4 * k, LittleEndian)
  {
    assert DecodeHeader(data).value.Words() == U32sLe(data);
  }

  /** A header decodes back from the bytes a writer would store for it. */
  lemma {:induction false} HeaderRoundTrip(h: BundleHeader)
    ensures DecodeHeader(U32sBytes(h.Words(), LittleEndian)) == Success(h)
  {
    U32sLeRoundTrip(h.Words());
  }

  // ---------------------------------------------------------------------------
  // Name table
  // ---------------------------------------------------------------------------

  /** A name and the table position after it. */
  datatype NameRead = NameRead(name: string, next: nat)

  /** `read_null_terminated_string`: the bytes from `pos` up to the first NUL
      (or the table end), decoded; the position then moves past the name,
      its terminator and the padding to a multiple of four. The advance
      counts decoded characters, not bytes. */
  function ReadName(table: seq<byte>, pos: nat): (r: NameRead)
  {
    var bytes := if pos <= |table| then table[pos..NulFrom(table, pos)] else [];
    var name := LenientText(bytes);
    var size := |name| + 1;
    NameRead(name, pos + size + Padding(size))
  }

  /** Every name moves the position forward by its terminated length
      rounded up to a multiple of four. */
  lemma ReadNameAdvances(table: seq<byte>, pos: nat)
    ensures var r := ReadName(table, pos);
      pos + |r.name| + 1 <= r.next <= pos + |r.name| + 4 && (r.next - pos) % 4 == 0
  {
    PaddingAligns(|ReadName(table, pos).name| + 1);
  }

  /** For a name of ASCII bytes the decoded name is exactly the bytes up to
      the NUL, and the advance is their count plus terminator and padding. */
  lemma ReadNameAscii(table: seq<byte>, pos: nat)
    requires pos <= |table| && IsAscii(table[pos..NulFrom(table, pos)])
    ensures var end := NulFrom(table, pos);
      ReadName(table, pos) == NameRead(AsciiText(table[pos..end]), end + 1 + Padding(end - pos + 1))
  {
    LenientTextAscii(table[pos..NulFrom(table, pos)]);
  }

  /** A name a bundle can store: ASCII, without NUL. */
  predicate StorableName(name: string) {
    forall k :: 0 <= k < |name| ==> 0 < name[k] as int < 0x80
  }

  /** The table bytes a name takes: itself, its NUL, the padding. */
  function EntrySize(name: string): nat {
    |name| + 1 + Padding(|name| + 1)
  }

  /** The table bytes of one name: the name, its NUL, zero padding. */
  function NameEntry(name: string): (r: seq<byte>)
    requires StorableName(name)
    ensures |r| == EntrySize(name)
  {
    TextBytes(name) + [0] + seq(Padding(|name| + 1), _ => 0)
  }

  /** A stored name reads back as itself and moves past its entry. */
  lemma {:induction false} NameEntryReads(prefix: seq<byte>, name: string, rest: seq<byte>)
    requires StorableName(name)
    ensures ReadName(prefix + NameEntry(name) + rest, |prefix|) == NameRead(name, |prefix| + EntrySize(name))
  {
    var bytes := TextBytes(name);
    forall k | 0 <= k < |bytes|
      ensures bytes[k] != 0
    {
      assert bytes[k] == name[k] as int;
    }
    LenientTextAscii(bytes);
    var after := seq(Padding(|name| + 1), _ => 0) + rest;
    assert prefix + NameEntry(name) + rest == prefix + bytes + [0] + after;
    NulAfterName(prefix, bytes, after);
  }

  // ---------------------------------------------------------------------------
  // Extraction
  // ---------------------------------------------------------------------------

  datatype Extracted = Extracted(name: string, data: seq<byte>)

  /** Whether extraction returned True, and the files written until it
      stopped. */
  datatype Outcome = Outcome(ok: bool, files: seq<Extracted>)

  function Then(done: seq<Extracted>, o: Outcome): Outcome {
    Outcome(o.ok, done + o.files)
  }

  /** One file's record at `pos`: cut short, or its payload and the
      position after it. */
  datatype Step = Short | Record(data: seq<byte>, next: nat)

  /** The 8-byte size pair at `pos` (its second word is the payload length)
      and the payload after it; either read coming back short cuts the
      record. */
  function RecordAt(s: seq<byte>, pos: nat): Step {
    if |s| < pos + 8 then Short
    else
      var size := U32At(s, pos + 4, LittleEndian);
      if |s| < pos + 8 + size then Short
      else Record(s[pos + 8..pos + 8 + size], pos + 8 + size)
  }

  /** RecordAt agrees with the file reads `read(8)` then `read(in_size)`,
      `in_size` being the second little-endian word of the pair. */
  lemma RecordReads(s: seq<byte>, pos: nat)
    ensures var sizes := ReadAt(s, pos, 8);
      && (|sizes| < 8 ==> RecordAt(s, pos).Short?)
      && (|sizes| == 8 ==>
            var size := U32At(sizes, 4, LittleEndian);
            var data := ReadAt(s, pos + 8, size);
            RecordAt(s, pos) == if |data| < size then Short else Record(data, pos + 8 + size))
  {
    if pos + 8 <= |s| {
      assert U32At(ReadAt(s, pos, 8), 4, LittleEndian) == U32At(s, pos + 4, LittleEndian);
    }
  }

  function RecordReader(s: seq<byte>): nat -> Step {
    (pos: nat) => RecordAt(s, pos)
  }

  function NameReader(table: seq<byte>): nat -> NameRead {
    (pos: nat) => ReadName(table, pos)
  }

  /** The loop over the last `count` files, with the stream at `pos` and the
      name table at `tablePos`: the record, then the next name of the table.
      A record cut short stops it with False. */
  function Records(read: nat -> Step, names: nat -> NameRead, pos: nat, tablePos: nat, count: nat): Outcome
    decreases count
  {
    if count == 0 then Outcome(true, [])
    else
      match read(pos)
      case Short => Outcome(false, [])
      case Record(data, next) =>
        var entry := names(tablePos);
        Then([Extracted(entry.name, data)], Records(read, names, next, entry.next, count - 1))
  }

  /** The header as read from the start of the stream (None when short). */
  function HeaderOf(s: seq<byte>): (r: Option<BundleHeader>)
    ensures r.Some? <==> |s| >= HeaderSize
  {
    var headerData := ReadAt(s, 0, HeaderSize);
    if |headerData| < HeaderSize then None else Some(DecodeHeader(headerData).value)
  }

  /** The header's fields are the first six words of the stream. */
  lemma HeaderWords(s: seq<byte>)
    requires |s| >= HeaderSize
    ensures forall k :: 0 <= k < 6 ==> HeaderOf(s).value.Words()[k] == U32At(s, 4 * k, LittleEndian)
  {
    var headerData := ReadAt(s, 0, HeaderSize);
    HeaderFields(headerData);
    assert forall k :: 0 <= k < 6 ==> U32At(headerData, 4 * k, LittleEndian) == U32At(s, 4 * k, LittleEndian);
  }

  lemma HeaderRead(s: seq<byte>)
    requires |s| >= HeaderSize
    ensures HeaderOf(s) == Some(DecodeHeader(ReadAt(s, 0, HeaderSize)).value)
  {
  }

  /** `extract_bundle_file`: the header (short ⇒ False), the marker (wrong ⇒
      False), an empty table or no files (⇒ True, nothing written), the name
      table (short ⇒ False), the skip of `Unk2` words, then the files. */
  function ExtractBundle(s: seq<byte>): (r: Outcome)
  {
    match HeaderOf(s)
    case None => Outcome(false, [])
    case Some(header) =>
      if header.marker != BndlMarker then Outcome(false, [])
      else if header.tableSize == 0 || header.fileCount == 0 then Outcome(true, [])
      else
        var table := ReadAt(s, HeaderSize, header.tableSize);
        if |table| < header.tableSize then Outcome(false, [])
        else
          // a zero Unk2 leaves the stream where it is
          var start := HeaderSize + header.tableSize + header.unk2 * 4;
          Records(RecordReader(s), NameReader(table), start, 0, header.fileCount)
  }

  /** Past the gates, extraction is the file loop over the table. */
  lemma ExtractBundleGated(s: seq<byte>, header: BundleHeader, table: seq<byte>)
    requires HeaderOf(s) == Some(header) && header.marker == BndlMarker
    requires header.tableSize != 0 && header.fileCount != 0
    requires ReadAt(s, HeaderSize, header.tableSize) == table && |table| == header.tableSize
    ensures ExtractBundle(s)
            == Records(RecordReader(s), NameReader(table), HeaderSize + header.tableSize + header.unk2 * 4, 0, header.fileCount)
  {
  }

  /** The header gates: a short header or a wrong marker fails, an empty
      table or file count succeeds with nothing written, and otherwise there
      are never more files than the header counts. */
  lemma BundleGates(s: seq<byte>)
    ensures var r := ExtractBundle(s);
      && (|s| < HeaderSize ==> r == Outcome(false, []))
      && (|s| >= HeaderSize ==>
          && (U32At(s, 0, LittleEndian) != BndlMarker ==> r == Outcome(false, []))
          && (U32At(s, 0, LittleEndian) == BndlMarker && (U32At(s, 8, LittleEndian) == 0 || U32At(s, 20, LittleEndian) == 0)
              ==> r == Outcome(true, []))
          && |r.files| <= U32At(s, 20, LittleEndian)
          && (r.ok && r.files != [] ==> |r.files| == U32At(s, 20, LittleEndian)))
  {
    if |s| >= HeaderSize {
      var header := HeaderOf(s).value;
      HeaderWords(s);
      assert header.Words()[0] == header.marker && header.Words()[2] == header.tableSize;
      assert header.Words()[5] == header.fileCount;
      if header.marker == BndlMarker && header.tableSize != 0 && header.fileCount != 0 {
        var table := ReadAt(s, HeaderSize, header.tableSize);
        if |table| == header.tableSize {
          var start := HeaderSize + header.tableSize + header.unk2 * 4;
          RecordsCount(RecordReader(s), NameReader(table), start, 0, header.fileCount);
        }
      }
    }
  }

  /** The loop writes one file per iteration: it returns True exactly when
      all `count` files were written. */
  lemma {:induction false} RecordsCount(read: nat -> Step, names: nat -> NameRead, pos: nat, tablePos: nat, count: nat)
    ensures var r := Records(read, names, pos, tablePos, count);
      |r.files| <= count && (r.ok <==> |r.files| == count)
    decreases count
  {
    if count > 0 && read(pos).Record? {
      RecordsCount(read, names, read(pos).next, names(tablePos).next, count - 1);
    }
  }

  /** The table position of the `i`-th name in a sequential walk from
      `tablePos`. */
  function NamePos(names: nat -> NameRead, tablePos: nat, i: nat): nat
    decreases i
  {
    if i == 0 then tablePos else NamePos(names, names(tablePos).next, i - 1)
  }

  /** File `i` receives the `i`-th name of the sequential table walk. */
  lemma {:induction false} RecordsNames(read: nat -> Step, names: nat -> NameRead, pos: nat, tablePos: nat, count: nat)
    ensures var r := Records(read, names, pos, tablePos, count);
      forall i :: 0 <= i < |r.files| ==> r.files[i].name == names(NamePos(names, tablePos, i)).name
    decreases count
  {
    if count > 0 && read(pos).Record? {
      var next := names(tablePos).next;
      RecordsNames(read, names, read(pos).next, next, count - 1);
      var r := Records(read, names, pos, tablePos, count);
      var rest := Records(read, names, read(pos).next, next, count - 1);
      forall i | 1 <= i < |r.files|
        ensures r.files[i].name == names(NamePos(names, tablePos, i)).name
      {
        assert r.files[i] == rest.files[i - 1];
      }
    }
  }

  // ---------------------------------------------------------------------------
  // The loop
  // ---------------------------------------------------------------------------

  /** One iteration's reads: the size pair, then the payload. */
  method ReadRecord(s: seq<byte>, pos: nat) returns (step: Step)
    ensures step == RecordAt(s, pos)
  {
    var sizes := ReadAt(s, pos, 8);
    if |sizes| < 8 {
      return Short;
    }
    var size: nat := U32sLe(sizes)[1];
    var data := ReadAt(s, pos + 8, size);
    if |data| < size {
      return Short;
    }
    return Record(data, pos + 8 + size);
  }

  /** The file loop with its two cursors, as written; `names` reads the
      name table (`NameReader(table)` in the extractor). */
  method ExtractRecords(s: seq<byte>, names: nat -> NameRead, start: nat, count: nat) returns (r: Outcome)
    ensures r == Records(RecordReader(s), names, start, 0, count)
  {
    ghost var read := RecordReader(s);
    var pos: nat, tablePos: nat := start, 0;
    var written: seq<Extracted> := [];
    for i := 0 to count
      invariant Records(read, names, start, 0, count) == Then(written, Records(read, names, pos, tablePos, count - i))
    {
      var step := ReadRecord(s, pos);
      assert read(pos) == step;
      if step.Short? {
        return Outcome(false, written);
      }
      var entry := names(tablePos);
      ThenTwice(written, [Extracted(entry.name, step.data)], Records(read, names, step.next, entry.next, count - i - 1));
      written := written + [Extracted(entry.name, step.data)];
      pos, tablePos := step.next, entry.next;
    }
    return Outcome(true, written);
  }

  lemma ThenTwice(a: seq<Extracted>, b: seq<Extracted>, o: Outcome)
    ensures Then(a, Then(b, o)) == Then(a + b, o)
  {
    assert a + (b + o.files) == (a + b) + o.files;
  }

  // ---------------------------------------------------------------------------
  // Writing a bundle, and reading it back
  // ---------------------------------------------------------------------------

  /** What a bundle can hold: storable names and 32-bit sizes. */
  predicate Packable(files: seq<Extracted>) {
    forall i :: 0 <= i < |files| ==> StorableName(files[i].name) && |files[i].data| < 0x1_0000_0000
  }

  /** The name table of `files`. */
  function NameTable(files: seq<Extracted>): seq<byte>
    requires Packable(files)
  {
    if files == [] then [] else NameEntry(files[0].name) + NameTable(files[1..])
  }

  /** One file's record: both sizes set to the payload length, then the
      payload. */
  function RecordBytes(data: seq<byte>): (r: seq<byte>)
    requires |data| < 0x1_0000_0000
    ensures |r| == 8 + |data|
  {
    U32sBytes([|data|, |data|], LittleEndian) + data
  }

  /** The records of `files`, one after another. */
  function Payloads(files: seq<Extracted>): seq<byte>
    requires Packable(files)
  {
    if files == [] then [] else RecordBytes(files[0].data) + Payloads(files[1..])
  }

  /** From `tablePos` on, `names` finds the names of `files` in order. */
  predicate NamesAt(names: nat -> NameRead, tablePos: nat, files: seq<Extracted>)
    decreases |files|, 1
  {
    files != [] ==> NameThen(names, tablePos, files)
  }

  /** The first name at `tablePos`, the rest of `files` after its entry. */
  predicate NameThen(names: nat -> NameRead, tablePos: nat, files: seq<Extracted>)
    requires files != []
    decreases |files|, 0
  {
    var next := tablePos + EntrySize(files[0].name);
    names(tablePos) == NameRead(files[0].name, next) && NamesAt(names, next, files[1..])
  }

  /** From `pos` on, `read` finds the records of `files` in order. */
  predicate PayloadsAt(read: nat -> Step, pos: nat, files: seq<Extracted>)
    decreases |files|, 1
  {
    files != [] ==> PayloadThen(read, pos, files)
  }

  /** The first record at `pos`, the rest of `files` after it. */
  predicate PayloadThen(read: nat -> Step, pos: nat, files: seq<Extracted>)
    requires files != []
    decreases |files|, 0
  {
    var next := pos + 8 + |files[0].data|;
    read(pos) == Record(files[0].data, next) && PayloadsAt(read, next, files[1..])
  }

  /** A stored name entry at `tablePos` reads back as its name. */
  lemma NameEntryAt(table: seq<byte>, tablePos: nat, name: string)
    requires StorableName(name)
    requires tablePos + |NameEntry(name)| <= |table| && table[tablePos..tablePos + |NameEntry(name)|] == NameEntry(name)
    ensures NameReader(table)(tablePos) == NameRead(name, tablePos + EntrySize(name))
  {
    var next := tablePos + |NameEntry(name)|;
    assert table == table[..tablePos] + NameEntry(name) + table[next..];
    NameEntryReads(table[..tablePos], name, table[next..]);
  }

  lemma {:induction false} NamesLaidOut(table: seq<byte>, tablePos: nat, files: seq<Extracted>)
    requires Packable(files)
    requires tablePos + |NameTable(files)| <= |table| && table[tablePos..tablePos + |NameTable(files)|] == NameTable(files)
    ensures NamesAt(NameReader(table), tablePos, files)
    decreases |files|
  {
    if files != [] {
      var next := NameHeadAt(table, tablePos, files);
      NamesLaidOut(table, next, files[1..]);
      assert NameThen(NameReader(table), tablePos, files);
    }
  }

  /** The first entry of a laid-out table reads back, and the rest of the
      table follows it. */
  lemma NameHeadAt(table: seq<byte>, tablePos: nat, files: seq<Extracted>) returns (next: nat)
    requires Packable(files) && files != []
    requires tablePos + |NameTable(files)| <= |table| && table[tablePos..tablePos + |NameTable(files)|] == NameTable(files)
    ensures next == tablePos + EntrySize(files[0].name)
    ensures NameReader(table)(tablePos) == NameRead(files[0].name, next)
    ensures Packable(files[1..])
    ensures next + |NameTable(files[1..])| <= |table| && table[next..next + |NameTable(files[1..])|] == NameTable(files[1..])
  {
    var entry := NameEntry(files[0].name);
    SplitWindow(table, tablePos, entry, NameTable(files[1..]));
    NameEntryAt(table, tablePos, files[0].name);
    next := tablePos + |entry|;
  }

  /** A stored record at `pos` reads back as its payload. */
  lemma RecordBytesAt(s: seq<byte>, pos: nat, data: seq<byte>)
    requires |data| < 0x1_0000_0000
    requires pos + 8 + |data| <= |s| && s[pos..pos + 8 + |data|] == RecordBytes(data)
    ensures RecordReader(s)(pos) == Record(data, pos + 8 + |data|)
  {
    var sizes := U32sBytes([|data|, |data|], LittleEndian);
    SplitWindow(s, pos, sizes, data);
    U32sBytesNth(s, pos, [|data|, |data|], LittleEndian, 1);
  }

  /** From `pos` on, `s` holds the records of `files` one by one. */
  predicate RecordsIn(s: seq<byte>, pos: nat, files: seq<Extracted>)
    decreases |files|, 1
  {
    files != [] ==> RecordThen(s, pos, files)
  }

  /** The first record's bytes at `pos`, the rest of `files` after them. */
  predicate RecordThen(s: seq<byte>, pos: nat, files: seq<Extracted>)
    requires files != []
    decreases |files|, 0
  {
    var data := files[0].data;
    |data| < 0x1_0000_0000 && pos + 8 + |data| <= |s| && s[pos..pos + 8 + |data|] == RecordBytes(data)
    && RecordsIn(s, pos + 8 + |data|, files[1..])
  }

  /** The encoded records, written after `prefix`, are there record by
      record. */
  lemma {:induction false} PayloadsSplit(prefix: seq<byte>, files: seq<Extracted>)
    requires Packable(files)
    ensures RecordsIn(prefix + Payloads(files), |prefix|, files)
    decreases |files|
  {
    if files != [] {
      var record := RecordBytes(files[0].data);
      var rest := Payloads(files[1..]);
      assert prefix + Payloads(files) == (prefix + record) + rest;
      assert ((prefix + record) + rest)[|prefix|..|prefix| + |record|] == record;
      PayloadsSplit(prefix + record, files[1..]);
    }
  }

  /** Records stored one by one read back one by one. */
  lemma {:induction false} RecordsInRead(s: seq<byte>, pos: nat, files: seq<Extracted>)
    requires RecordsIn(s, pos, files)
    ensures PayloadsAt(RecordReader(s), pos, files)
    decreases |files|
  {
    if files != [] {
      var next := RecordHeadAt(s, pos, files);
      RecordsInRead(s, next, files[1..]);
      assert PayloadThen(RecordReader(s), pos, files);
    }
  }

  /** The first stored record reads back, and the rest are stored after it. */
  lemma RecordHeadAt(s: seq<byte>, pos: nat, files: seq<Extracted>) returns (next: nat)
    requires files != [] && RecordsIn(s, pos, files)
    ensures next == pos + 8 + |files[0].data|
    ensures RecordReader(s)(pos) == Record(files[0].data, next)
    ensures RecordsIn(s, next, files[1..])
  {
    assert RecordThen(s, pos, files);
    RecordBytesAt(s, pos, files[0].data);
    next := pos + 8 + |files[0].data|;
  }

  /** The name table of `files` read from its start gives their names. */
  lemma NameTableReads(files: seq<Extracted>)
    requires Packable(files)
    ensures NamesAt(NameReader(NameTable(files)), 0, files)
  {
    var t := NameTable(files);
    assert t[0..|t|] == t;
    NamesLaidOut(t, 0, files);
  }

  /** The records of `files` written after any prefix read back in order. */
  lemma PayloadsAfter(prefix: seq<byte>, files: seq<Extracted>)
    requires Packable(files)
    ensures PayloadsAt(RecordReader(prefix + Payloads(files)), |prefix|, files)
  {
    PayloadsSplit(prefix, files);
    RecordsInRead(prefix + Payloads(files), |prefix|, files);
  }

  /** Files laid out in order come back out in that order, with their
      names and contents. */
  lemma {:induction false} RecordsRoundTrip(read: nat -> Step, names: nat -> NameRead, pos: nat, tablePos: nat, files: seq<Extracted>)
    requires NamesAt(names, tablePos, files) && PayloadsAt(read, pos, files)
    ensures Records(read, names, pos, tablePos, |files|) == Outcome(true, files)
    decreases |files|
  {
    if files != [] {
      var data := files[0].data;
      assert NameThen(names, tablePos, files) && PayloadThen(read, pos, files);
      RecordsRoundTrip(read, names, pos + 8 + |data|, tablePos + EntrySize(files[0].name), files[1..]);
      assert [files[0]] + files[1..] == files;
    }
  }

  /** The bytes of a bundle holding `files`, with `Unk2` zero. */
  function BundleBytes(version: u32, unk1: u32, files: seq<Extracted>): seq<byte>
    requires Packable(files) && |NameTable(files)| < 0x1_0000_0000 && |files| < 0x1_0000_0000
  {
    var header := BundleHeader(BndlMarker, version, |NameTable(files)|, unk1, 0, |files|);
    U32sBytes(header.Words(), LittleEndian) + NameTable(files) + Payloads(files)
  }

  /** A header, a name table and the records after them extract to the
      files that the table and the records hold. */
  lemma BundleAssembled(h: seq<byte>, t: seq<byte>, p: seq<byte>, header: BundleHeader, files: seq<Extracted>)
    requires Packable(files)
    requires |h| == HeaderSize && DecodeHeader(h) == Success(header)
    requires header.marker == BndlMarker && header.tableSize == |t| && header.unk2 == 0 && header.fileCount == |files|
    requires files != [] ==> t != []
    requires NamesAt(NameReader(t), 0, files) && PayloadsAt(RecordReader(h + t + p), |h| + |t|, files)
    ensures ExtractBundle(h + t + p) == Outcome(true, files)
  {
    var s := h + t + p;
    assert s[0..|h|] == h && s[|h|..|h| + |t|] == t;
    HeaderRead(s);
    if files != [] {
      ExtractBundleGated(s, header, t);
      RecordsRoundTrip(RecordReader(s), NameReader(t), HeaderSize + |t|, 0, files);
    }
  }

  /** Writing a bundle and extracting it gives back its files. */
  lemma BundleRoundTrip(version: u32, unk1: u32, files: seq<Extracted>)
    requires Packable(files) && |NameTable(files)| < 0x1_0000_0000 && |files| < 0x1_0000_0000
    ensures ExtractBundle(BundleBytes(version, unk1, files)) == Outcome(true, files)
  {
    var header := BundleHeader(BndlMarker, version, |NameTable(files)|, unk1, 0, |files|);
    var h := U32sBytes(header.Words(), LittleEndian);
    var t := NameTable(files);
    var p := Payloads(files);
    HeaderRoundTrip(header);
    NameTableReads(files);
    PayloadsAfter(h + t, files);
    BundleAssembled(h, t, p, header, files);
  }
}
