/** SNDExtractor.py: an SND sound bank is a 284-byte header (six u32 fields
    and a 65-entry table), then, from the header's chunk base offset, one
    chunk per sound: a 40-byte chunk header followed by DataSize + 24 bytes of
    sound data.  Each sound becomes a WAV file `wavs/<stem>/<stem>_<i>.wav`.
    The bank's bytes and its file stem are parameters, and the files a
    conversion writes are returned as values. */
module Snd {
  import opened Results
  import opened Bytes

  datatype SndError =
    | InvalidHeaderSize
    | InvalidChunkHeaderSize
    | FieldOutOfRange   // `struct.pack` of a value that does not fit a u32

  const SndHeaderSize: nat := 284
  const UnkTableLength: nat := 65
  const ChunkHeaderSize: nat := 40
  /** A chunk's sound data is 24 bytes longer than its DataSize field. */
  const DataSlack: nat := 24
  const WavHeaderSize: nat := 44

  // ---------------------------------------------------------------------------
  // SNDHeader and SNDChunkHeader
  // ---------------------------------------------------------------------------

  datatype SndHeader = SndHeader(
    version: u32, fileCount: u32, chunkEntryOffset: u32, chunkInfoOffset: u32,
    chunkBaseOffset: u32, unkCount: u32, unkTable: seq<u32>)
  {
    function Words(): seq<u32> {
      [version, fileCount, chunkEntryOffset, chunkInfoOffset, chunkBaseOffset, unkCount] + unkTable
    }
  }

  /** `SNDHeader(data)`: exactly 284 bytes, six words then the 65-word table
      (unpacking the two parts separately reads the same words as
      unpacking the whole). */
  function DecodeHeader(data: seq<byte>): (r: Result<SndHeader, SndError>)
    ensures r.Success? <==> |data| == SndHeaderSize
    ensures r.Success? ==> |r.value.unkTable| == UnkTableLength
  {
    if |data| != SndHeaderSize then Failure(InvalidHeaderSize)
    else
      var w := U32sLe(data);
      var h := SndHeader(w[0], w[1], w[2], w[3], w[4], w[5], w[6..]);
      assert h.Words() == w;
      Success(h)
  }

  /** Word `k` of a decoded header is the `k`-th little-endian u32 of the
      data: Version, FileCount, ChunkEntryOffset, ChunkInfoOffset,
      ChunkBaseOffset, UnkCount, then the table. */
  lemma DecodeHeaderFields(data: seq<byte>)
    requires |data| == SndHeaderSize
    ensures var w := DecodeHeader(data).value.Words();
      |w| == 71 && forall k :: 0 <= k < 71 ==> w[k] == U32At(data, 4 * k, LittleEndian)
  {
  }

  /** A header decodes back from the bytes a writer would store for it. */
  lemma HeaderRoundTrip(h: SndHeader)
    requires |h.unkTable| == UnkTableLength
    ensures DecodeHeader(U32sBytes(h.Words(), LittleEndian)) == Success(h)
  {
    var w := h.Words();
    U32sLeRoundTrip(w);
    assert w[6..] == h.unkTable;
  }

  datatype ChunkHeader = ChunkHeader(
    totalSize: u32, soundType: u32, sndChunkSize: u32, waveHeaderSize: u32,
    dataOffset: u32, dataSize: u32, comCode: u16, channelCount: u16,
    sampleRate: u32, streamRate: u32, blockAlign: u16, sampleSize: u16)

  /** `SNDChunkHeader(data)`: exactly 40 bytes laid out as '<6I2H2I2H'. */
  function DecodeChunkHeader(data: seq<byte>): (r: Result<ChunkHeader, SndError>)
    ensures r.Success? <==> |data| == ChunkHeaderSize
  {
    if |data| != ChunkHeaderSize then Failure(InvalidChunkHeaderSize)
    else
      Success(ChunkHeader(
        U32At(data, 0, LittleEndian), U32At(data, 4, LittleEndian), U32At(data, 8, LittleEndian),
        U32At(data, 12, LittleEndian), U32At(data, 16, LittleEndian), U32At(data, 20, LittleEndian),
        U16Le(data, 24), U16Le(data, 26),
        U32At(data, 28, LittleEndian), U32At(data, 32, LittleEndian),
        U16Le(data, 36), U16Le(data, 38)))
  }

  /** The format fields of a chunk header, packed '<2H2I2H': the last 16
      bytes of the chunk header and the body of a WAV file's fmt chunk. */
  function FmtChunk(c: ChunkHeader): (r: seq<byte>)
    ensures |r| == 16
  {
    U16LeBytes(c.comCode) + U16LeBytes(c.channelCount)
    + U32Bytes(c.sampleRate, LittleEndian) + U32Bytes(c.streamRate, LittleEndian)
    + U16LeBytes(c.blockAlign) + U16LeBytes(c.sampleSize)
  }

  /** The fmt chunk holds the chunk header's format fields in order. */
  lemma FmtChunkFields(c: ChunkHeader)
    ensures var f := FmtChunk(c);
      && U16Le(f, 0) == c.comCode && U16Le(f, 2) == c.channelCount
      && U32At(f, 4, LittleEndian) == c.sampleRate && U32At(f, 8, LittleEndian) == c.streamRate
      && U16Le(f, 12) == c.blockAlign && U16Le(f, 14) == c.sampleSize
  {
    var f := FmtChunk(c);
    assert f[0..2] == U16LeBytes(c.comCode) && f[2..4] == U16LeBytes(c.channelCount);
    assert f[4..8] == U32Bytes(c.sampleRate, LittleEndian) && f[8..12] == U32Bytes(c.streamRate, LittleEndian);
    assert f[12..14] == U16LeBytes(c.blockAlign) && f[14..16] == U16LeBytes(c.sampleSize);
    U16RoundTrip(f, 0, c.comCode);
    U16RoundTrip(f, 2, c.channelCount);
    U32RoundTrip(f, 4, c.sampleRate, LittleEndian);
    U32RoundTrip(f, 8, c.streamRate, LittleEndian);
    U16RoundTrip(f, 12, c.blockAlign);
    U16RoundTrip(f, 14, c.sampleSize);
  }

  /** `struct.pack('<6I2H2I2H', ...)` of a chunk header. */
  function EncodeChunkHeader(c: ChunkHeader): (r: seq<byte>)
    ensures |r| == ChunkHeaderSize
  {
    U32sBytes([c.totalSize, c.soundType, c.sndChunkSize, c.waveHeaderSize, c.dataOffset, c.dataSize], LittleEndian)
    + FmtChunk(c)
  }

  /** The six u32 fields of a packed chunk header read back. */
  lemma ChunkHeaderSizes(c: ChunkHeader)
    ensures var e := EncodeChunkHeader(c);
      && U32At(e, 0, LittleEndian) == c.totalSize && U32At(e, 4, LittleEndian) == c.soundType
      && U32At(e, 8, LittleEndian) == c.sndChunkSize && U32At(e, 12, LittleEndian) == c.waveHeaderSize
      && U32At(e, 16, LittleEndian) == c.dataOffset && U32At(e, 20, LittleEndian) == c.dataSize
  {
    var six := [c.totalSize, c.soundType, c.sndChunkSize, c.waveHeaderSize, c.dataOffset, c.dataSize];
    var f := FmtChunk(c);
    U32sBytesBefore(six, f, LittleEndian, 0);
    U32sBytesBefore(six, f, LittleEndian, 1);
    U32sBytesBefore(six, f, LittleEndian, 2);
    U32sBytesBefore(six, f, LittleEndian, 3);
    U32sBytesBefore(six, f, LittleEndian, 4);
    U32sBytesBefore(six, f, LittleEndian, 5);
  }

  /** The format fields of a packed chunk header read back. */
  lemma ChunkHeaderFormat(c: ChunkHeader)
    ensures var e := EncodeChunkHeader(c);
      && U16Le(e, 24) == c.comCode && U16Le(e, 26) == c.channelCount
      && U32At(e, 28, LittleEndian) == c.sampleRate && U32At(e, 32, LittleEndian) == c.streamRate
      && U16Le(e, 36) == c.blockAlign && U16Le(e, 38) == c.sampleSize
  {
    var a := U32sBytes([c.totalSize, c.soundType, c.sndChunkSize, c.waveHeaderSize, c.dataOffset, c.dataSize], LittleEndian);
    var f := FmtChunk(c);
    FmtChunkFields(c);
    FieldsAfter(a, f, 0);
    FieldsAfter(a, f, 2);
    FieldsAfter(a, f, 4);
    FieldsAfter(a, f, 8);
    FieldsAfter(a, f, 12);
    FieldsAfter(a, f, 14);
  }

  /** A chunk header decodes back from its packed bytes. */
  lemma ChunkHeaderRoundTrip(c: ChunkHeader)
    ensures DecodeChunkHeader(EncodeChunkHeader(c)) == Success(c)
  {
    ChunkHeaderSizes(c);
    ChunkHeaderFormat(c);
  }

  // ---------------------------------------------------------------------------
  // The WAV header
  // ---------------------------------------------------------------------------

  /** The four bytes "RIFF", "WAVE", "fmt " and "data", and the markers
      `struct.unpack('<I', ...)` makes of them (see MarkersOfMagic). */
  const RiffMagic: seq<byte> := [0x52, 0x49, 0x46, 0x46]
  const WaveMagic: seq<byte> := [0x57, 0x41, 0x56, 0x45]
  const FmtMagic: seq<byte> := [0x66, 0x6D, 0x74, 0x20]
  const DataMagic: seq<byte> := [0x64, 0x61, 0x74, 0x61]
  const RiffMarker: u32 := 0x4646_4952
  const WaveMarker: u32 := 0x4556_4157
  const FmtMarker: u32 := 0x2074_6D66
  const DataMarker: u32 := 0x6174_6164
  /** `struct.pack('<I', 16)`, the fmt chunk's length. */
  const FmtLength: seq<byte> := [16, 0, 0, 0]

  /** Each marker is the little-endian word of its four bytes. */
  lemma MarkersOfMagic()
    ensures U32At(RiffMagic, 0, LittleEndian) == RiffMarker
    ensures U32At(WaveMagic, 0, LittleEndian) == WaveMarker
    ensures U32At(FmtMagic, 0, LittleEndian) == FmtMarker
    ensures U32At(DataMagic, 0, LittleEndian) == DataMarker
  {
  }

  /** The header `write_wav_header` evidently means to write for `inSize`
      bytes of sound, one part after another: the RIFF header ('<4I' of the
      RIFF marker, the size, the WAVE and fmt markers, which pack to their own
      four bytes), the fmt chunk's length 16, the fmt chunk ('<2H2I2H') and
      the data chunk's header ('<2I').  Packing a size that does not fit a
      u32 raises. */
  function WavHeader(c: ChunkHeader, inSize: nat): (r: Result<seq<byte>, SndError>)
    ensures r.Success? <==> inSize + 36 < 0x1_0000_0000
    ensures r.Success? ==> |r.value| == WavHeaderSize
  {
    if inSize + 36 >= 0x1_0000_0000 then Failure(FieldOutOfRange)
    else
      Success(RiffMagic + U32Bytes(inSize + 36, LittleEndian) + WaveMagic + FmtMagic
        + FmtLength + FmtChunk(c)
        + (DataMagic + U32Bytes(inSize, LittleEndian)))
  }

  /** The header is the `struct` packing of the markers and sizes the source
      passes, in the order it passes them (the markers and the fmt chunk's
      length are parameters equal to the constants, so that the proof works
      on them symbolically). */
  lemma WavHeaderPacks(c: ChunkHeader, inSize: nat, riff: u32, wave: u32, fmt: u32, data: u32, fmtLength: u32)
    requires riff == RiffMarker && wave == WaveMarker && fmt == FmtMarker && data == DataMarker && fmtLength == 16
    requires inSize + 36 < 0x1_0000_0000
    ensures WavHeader(c, inSize).value ==
      U32sBytes([riff, inSize + 36, wave, fmt], LittleEndian)
      + U32Bytes(fmtLength, LittleEndian) + FmtChunk(c)
      + U32sBytes([data, inSize], LittleEndian)
  {
    PackedParts(inSize + 36, inSize, riff, wave, fmt, data, fmtLength);
  }

  /** The three runs of words `write_wav_header` packs, byte by byte. */
  lemma PackedParts(riffSize: u32, dataSize: u32, riff: u32, wave: u32, fmt: u32, data: u32, fmtLength: u32)
    requires riff == RiffMarker && wave == WaveMarker && fmt == FmtMarker && data == DataMarker && fmtLength == 16
    ensures U32sBytes([riff, riffSize, wave, fmt], LittleEndian) == RiffMagic + U32Bytes(riffSize, LittleEndian) + WaveMagic + FmtMagic
    ensures U32Bytes(fmtLength, LittleEndian) == FmtLength
    ensures U32sBytes([data, dataSize], LittleEndian) == DataMagic + U32Bytes(dataSize, LittleEndian)
  {
    RiffBytes(riffSize, riff, wave, fmt);
    U32Digits(fmtLength);
    DataBytes(dataSize, data);
  }

  /** '<4I' of the RIFF, WAVE and fmt markers around a size packs their own
      bytes around the size's. */
  lemma RiffBytes(size: u32, riff: u32, wave: u32, fmt: u32)
    requires riff == RiffMarker && wave == WaveMarker && fmt == FmtMarker
    ensures U32sBytes([riff, size, wave, fmt], LittleEndian) == RiffMagic + U32Bytes(size, LittleEndian) + WaveMagic + FmtMagic
  {
    MarkersOfMagic();
    MarkerBytes(RiffMagic, riff);
    MarkerBytes(WaveMagic, wave);
    MarkerBytes(FmtMagic, fmt);
    U32sBytesFour(riff, size, wave, fmt, LittleEndian);
    U32sBytesTwo(wave, fmt, LittleEndian);
  }

  /** '<2I' of the data marker and a size packs "data" then the size. */
  lemma DataBytes(size: u32, data: u32)
    requires data == DataMarker
    ensures U32sBytes([data, size], LittleEndian) == DataMagic + U32Bytes(size, LittleEndian)
  {
    MarkersOfMagic();
    MarkerBytes(DataMagic, data);
    U32sBytesTwo(data, size, LittleEndian);
  }

  /** A marker packs back to the four bytes it was unpacked from. */
  lemma MarkerBytes(magic: seq<byte>, marker: u32)
    requires |magic| == 4 && U32At(magic, 0, LittleEndian) == marker
    ensures U32Bytes(marker, LittleEndian) == magic
  {
    U32BytesOfDecode(magic, 0, LittleEndian);
    assert magic[0..4] == magic;
  }

  /** The canonical 44-byte WAV header: "RIFF", the file's length less 8,
      "WAVE", "fmt ", the fmt chunk's length, the fmt chunk holding the chunk
      header's format fields (FmtChunkFields), "data" and the length of the
      sound that follows. */
  lemma WavHeaderLayout(c: ChunkHeader, inSize: nat, h: seq<byte>)
    requires WavHeader(c, inSize) == Success(h)
    ensures |h| == WavHeaderSize
    ensures h[0..4] == RiffMagic && U32At(h, 4, LittleEndian) == |h| + inSize - 8
    ensures h[8..12] == WaveMagic && h[12..16] == FmtMagic && U32At(h, 16, LittleEndian) == |FmtChunk(c)|
    ensures h[20..36] == FmtChunk(c)
    ensures h[36..40] == DataMagic && U32At(h, 40, LittleEndian) == inSize
  {
    assert h[4..8] == U32Bytes(inSize + 36, LittleEndian);
    assert h[16..20] == FmtLength;
    assert h[40..44] == U32Bytes(inSize, LittleEndian);
    U32RoundTrip(h, 4, inSize + 36, LittleEndian);
    U32RoundTrip(h, 40, inSize, LittleEndian);
  }

  // ---------------------------------------------------------------------------
  // Output names
  // ---------------------------------------------------------------------------

  /** `str(n)` for a non-negative integer: its decimal digits, no leading
      zeros. */
  function Decimal(n: nat): (r: string)
    ensures |r| >= 1 && forall k :: 0 <= k < |r| ==> '0' <= r[k] <= '9'
    decreases n
  {
    if n < 10 then [(48 + n) as char] else Decimal(n / 10) + [(48 + n % 10) as char]
  }

  /** The number a string of decimal digits spells. */
  function DecimalValue(t: string): nat
    requires forall k :: 0 <= k < |t| ==> '0' <= t[k] <= '9'
    decreases |t|
  {
    if t == [] then 0 else 10 * DecimalValue(t[..|t| - 1]) + (t[|t| - 1] as int - 48)
  }

  /** Reading back the digits of `n` gives `n`. */
  lemma {:induction false} DecimalRoundTrip(n: nat)
    ensures DecimalValue(Decimal(n)) == n
    decreases n
  {
    if n >= 10 {
      DecimalRoundTrip(n / 10);
      var t := Decimal(n);
      assert t[..|t| - 1] == Decimal(n / 10);
    }
  }

  /** `wavs/<stem>/<stem>_<index>.wav`. */
  function WavPath(stem: string, index: nat): string {
    "wavs/" + stem + "/" + stem + "_" + Decimal(index) + ".wav"
  }

  /** Different sounds of one bank go to different files. */
  lemma WavPathsDistinct(stem: string, i: nat, j: nat)
    requires i != j
    ensures WavPath(stem, i) != WavPath(stem, j)
  {
    var prefix := "wavs/" + stem + "/" + stem + "_";
    var di, dj := Decimal(i), Decimal(j);
    assert WavPath(stem, i) == prefix + di + ".wav";
    assert WavPath(stem, j) == prefix + dj + ".wav";
    if WavPath(stem, i) == WavPath(stem, j) {
      assert |di| == |dj|;
      assert di == WavPath(stem, i)[|prefix|..|prefix| + |di|];
      assert dj == WavPath(stem, j)[|prefix|..|prefix| + |dj|];
      DecimalRoundTrip(i);
      DecimalRoundTrip(j);
    }
  }

  // ---------------------------------------------------------------------------
  // One chunk: _process_sound_file
  // ---------------------------------------------------------------------------

  datatype WavFile = WavFile(path: string, contents: seq<byte>)

  /** What one chunk leaves behind: the file it created, if any, and where
      the next chunk starts when it succeeded. */
  datatype Processed = Processed(created: seq<WavFile>, next: Option<nat>)

  /** The chunk at `pos`: its header and its sound data, or None when either
      read comes back short. */
  function ReadChunk(s: seq<byte>, pos: nat): (r: Option<(ChunkHeader, seq<byte>)>)
    ensures r.Some? ==> |r.value.1| == r.value.0.dataSize + DataSlack
    ensures r.Some? ==> pos + ChunkHeaderSize + |r.value.1| <= |s|
  {
    var chunkData := ReadAt(s, pos, ChunkHeaderSize);
    if |chunkData| != ChunkHeaderSize then None
    else
      var c := DecodeChunkHeader(chunkData).value;
      var inSize := c.dataSize + DataSlack;
      var sound := ReadAt(s, pos + ChunkHeaderSize, inSize);
      if |sound| != inSize then None
      else Some((c, sound))
  }

  /** The WAV file chunk `index` becomes: its header, then its sound; it is
      created before the header is packed, so it stays empty when that
      raises. */
  function Wav(stem: string, index: nat, c: ChunkHeader, sound: seq<byte>): WavFile {
    match WavHeader(c, |sound|)
    case Success(header) => WavFile(WavPath(stem, index), header + sound)
    case Failure(_) => WavFile(WavPath(stem, index), [])
  }

  /** `_process_sound_file` with the WAV header written as intended: a
      chunk read whole becomes `<stem>_<index>.wav`, its header then its
      sound, and the next chunk starts right after it. */
  function ProcessChunk(s: seq<byte>, pos: nat, index: nat, stem: string): (p: Processed)
    ensures |p.created| <= 1
    ensures forall w | w in p.created :: w.path == WavPath(stem, index)
    ensures p.next.Some? ==> |p.created| == 1 && pos + ChunkHeaderSize + DataSlack <= p.next.value <= |s|
    ensures p.next.Some? ==> ReadChunk(s, pos).Some? && p.next.value == pos + ChunkHeaderSize + |ReadChunk(s, pos).value.1|
    ensures ReadChunk(s, pos).None? <==> p.created == []
    ensures ReadChunk(s, pos).Some? ==> p.created == [Wav(stem, index, ReadChunk(s, pos).value.0, ReadChunk(s, pos).value.1)]
  {
    match ReadChunk(s, pos)
    case None => Processed([], None)
    case Some((c, sound)) =>
      var path := WavPath(stem, index);
      match WavHeader(c, |sound|)
      case Failure(_) => Processed([WavFile(path, [])], None)
      case Success(header) => Processed([WavFile(path, header + sound)], Some(pos + ChunkHeaderSize + |sound|))
  }

  /** `_process_sound_file` as written: `write_wav_header` hands the output
      file to `struct.pack_into`, which accepts only a writable buffer, so
      once a chunk has been read the call raises, the file stays empty and
      the chunk fails. */
  function ProcessChunkAsWritten(s: seq<byte>, pos: nat, index: nat, stem: string): (p: Processed)
    ensures p.next.None?
    ensures |p.created| <= 1 && forall w | w in p.created :: w.contents == []
  {
    match ReadChunk(s, pos)
    case None => Processed([], None)
    case Some(_) => Processed([WavFile(WavPath(stem, index), [])], None)
  }

  // ---------------------------------------------------------------------------
  // The bank: convert_sound_to_wave
  // ---------------------------------------------------------------------------

  /** The result of a conversion and the files it created, in order. */
  datatype Conversion = Conversion(ok: bool, wavs: seq<WavFile>)

  type ChunkStep = (seq<byte>, nat, nat, string) -> Processed

  /** Chunks `index` to `count - 1`, the first at `pos`: each one starts where
      the previous one ended, and the first failure stops the walk. */
  function Chunks(s: seq<byte>, pos: nat, index: nat, count: nat, stem: string, step: ChunkStep): Conversion
    requires index <= count
    decreases count - index, 1
  {
    if index == count then Conversion(true, []) else ChunksThen(s, pos, index, count, stem, step)
  }

  /** Chunk `index` and, when it succeeds, the rest. */
  function ChunksThen(s: seq<byte>, pos: nat, index: nat, count: nat, stem: string, step: ChunkStep): Conversion
    requires index < count
    decreases count - index, 0
  {
    var p := step(s, pos, index, stem);
    if p.next.None? then Conversion(false, p.created)
    else
      var rest := Chunks(s, p.next.value, index + 1, count, stem, step);
      Conversion(rest.ok, p.created + rest.wavs)
  }

  /** `convert_sound_to_wave` over a given chunk step: a whole header, then
      FileCount chunks from ChunkBaseOffset. */
  function Convert(s: seq<byte>, stem: string, step: ChunkStep): Conversion {
    var headerData := ReadAt(s, 0, SndHeaderSize);
    if |headerData| != SndHeaderSize then Conversion(false, [])
    else
      var header := DecodeHeader(headerData).value;
      Chunks(s, header.chunkBaseOffset, 0, header.fileCount, stem, step)
  }

  /** `convert_sound_to_wave`'s loop over a given chunk step: the stream
      cursor starts at ChunkBaseOffset and moves past each chunk as it is
      converted; the first chunk that fails ends the conversion. */
  method ConvertWith(s: seq<byte>, stem: string, step: ChunkStep) returns (ok: bool, wavs: seq<WavFile>)
    ensures Conversion(ok, wavs) == Convert(s, stem, step)
  {
    var headerData := ReadAt(s, 0, SndHeaderSize);
    if |headerData| != SndHeaderSize {
      return false, [];
    }
    var header := DecodeHeader(headerData).value;
    var pos: nat := header.chunkBaseOffset;
    wavs := [];
    for fileIndex := 0 to header.fileCount
      invariant var rest := Chunks(s, pos, fileIndex, header.fileCount, stem, step);
        Convert(s, stem, step) == Conversion(rest.ok, wavs + rest.wavs)
    {
      var p := step(s, pos, fileIndex, stem);
      wavs := wavs + p.created;
      if p.next.None? {
        return false, wavs;
      }
      pos := p.next.value;
    }
    assert wavs + [] == wavs;
    ok := true;
  }

  /** `convert_sound_to_wave`, each chunk converted by `_process_sound_file`
      with the header written as intended. */
  method ConvertSoundToWave(s: seq<byte>, stem: string) returns (ok: bool, wavs: seq<WavFile>)
    ensures Conversion(ok, wavs) == Convert(s, stem, ProcessChunk)
  {
    ok, wavs := ConvertWith(s, stem, ProcessChunk);
  }

  /** `convert_sound_to_wave` as written (see ProcessChunkAsWritten). */
  method ConvertSoundToWaveAsWritten(s: seq<byte>, stem: string) returns (ok: bool, wavs: seq<WavFile>)
    ensures Conversion(ok, wavs) == Convert(s, stem, ProcessChunkAsWritten)
  {
    ok, wavs := ConvertWith(s, stem, ProcessChunkAsWritten);
  }

  /** A chunk step that creates at most one file, named after the chunk's
      index, and exactly one when the walk goes on. */
  ghost predicate Shaped(step: ChunkStep) {
    forall s, pos, index, stem ::
      var p := step(s, pos, index, stem);
      && |p.created| <= 1
      && (p.created != [] ==> p.created[0].path == WavPath(stem, index))
      && (p.next.Some? ==> |p.created| == 1)
  }

  /** Both readings of `_process_sound_file` are shaped so. */
  lemma StepsShaped()
    ensures Shaped(ProcessChunk) && Shaped(ProcessChunkAsWritten)
  {
    forall s, pos, index, stem
      ensures var p := ProcessChunk(s, pos, index, stem);
        p.created != [] ==> p.created[0].path == WavPath(stem, index)
    {
      var p := ProcessChunk(s, pos, index, stem);
      if p.created != [] {
        assert p.created[0] in p.created;
      }
    }
  }

  /** A conversion writes one file per chunk it reaches, named after the
      chunk's index, and one per chunk when it succeeds. */
  lemma {:induction false} ChunksShape(s: seq<byte>, pos: nat, index: nat, count: nat, stem: string, step: ChunkStep)
    requires index <= count && Shaped(step)
    ensures var r := Chunks(s, pos, index, count, stem, step);
      && |r.wavs| <= count - index
      && (r.ok ==> |r.wavs| == count - index)
      && forall k :: 0 <= k < |r.wavs| ==> r.wavs[k].path == WavPath(stem, index + k)
    decreases count - index
  {
    if index < count {
      var p := step(s, pos, index, stem);
      if p.next.Some? {
        ChunksShape(s, p.next.value, index + 1, count, stem, step);
        var rest := Chunks(s, p.next.value, index + 1, count, stem, step);
        assert forall k :: 1 <= k < 1 + |rest.wavs| ==> (p.created + rest.wavs)[k] == rest.wavs[k - 1];
      }
    }
  }

  /** As written, no bank holding a sound converts: the first chunk read
      fails, so success means FileCount is 0, and every file created stays
      empty. */
  lemma AsWrittenNeverConverts(s: seq<byte>, stem: string)
    ensures var r := Convert(s, stem, ProcessChunkAsWritten);
      && (r.ok ==> |s| >= SndHeaderSize && DecodeHeader(s[..SndHeaderSize]).value.fileCount == 0)
      && |r.wavs| <= 1
      && forall k :: 0 <= k < |r.wavs| ==> r.wavs[k].contents == []
  {
    var headerData := ReadAt(s, 0, SndHeaderSize);
    if |headerData| == SndHeaderSize {
      var header := DecodeHeader(headerData).value;
      if header.fileCount > 0 {
        var p := ProcessChunkAsWritten(s, header.chunkBaseOffset, 0, stem);
        assert Chunks(s, header.chunkBaseOffset, 0, header.fileCount, stem, ProcessChunkAsWritten) == Conversion(false, p.created);
        assert forall k :: 0 <= k < |p.created| ==> p.created[k] in p.created;
      }
    }
  }

  // ---------------------------------------------------------------------------
  // A bank laid out by a writer converts to the files it describes
  // ---------------------------------------------------------------------------

  /** A chunk stored at `pos`: its packed header, then its sound of
      DataSize + 24 bytes, small enough for its WAV header. */
  predicate Stored(s: seq<byte>, pos: nat, c: ChunkHeader, sound: seq<byte>) {
    && |sound| == c.dataSize + DataSlack && |sound| + 36 < 0x1_0000_0000
    && pos + ChunkHeaderSize + |sound| <= |s|
    && s[pos..pos + ChunkHeaderSize] == EncodeChunkHeader(c)
    && s[pos + ChunkHeaderSize..pos + ChunkHeaderSize + |sound|] == sound
  }

  /** `chunks` are stored back to back from `pos`. */
  predicate LaidOut(s: seq<byte>, pos: nat, chunks: seq<(ChunkHeader, seq<byte>)>)
    decreases |chunks|
  {
    chunks != [] ==>
      && Stored(s, pos, chunks[0].0, chunks[0].1)
      && LaidOut(s, pos + ChunkHeaderSize + |chunks[0].1|, chunks[1..])
  }

  /** The file each chunk becomes, given its index, header and sound. */
  type WavOf = (nat, ChunkHeader, seq<byte>) -> WavFile

  /** The files `chunks` become, from `index` on. */
  function Files(chunks: seq<(ChunkHeader, seq<byte>)>, index: nat, wav: WavOf): (r: seq<WavFile>)
    decreases |chunks|
  {
    if chunks == [] then [] else [wav(index, chunks[0].0, chunks[0].1)] + Files(chunks[1..], index + 1, wav)
  }

  /** `Wav` for one bank. */
  function BankWav(stem: string): WavOf {
    (index: nat, c: ChunkHeader, sound: seq<byte>) => Wav(stem, index, c, sound)
  }

  /** The WAV files laid-out `chunks` should become, from `index` on. */
  function WavFiles(chunks: seq<(ChunkHeader, seq<byte>)>, index: nat, stem: string): seq<WavFile> {
    Files(chunks, index, BankWav(stem))
  }

  /** A chunk step that converts every stored chunk into its file and moves
      past it. */
  ghost predicate ReadsStored(s: seq<byte>, stem: string, step: ChunkStep, wav: WavOf) {
    forall pos: nat, index: nat, c, sound ::
      Stored(s, pos, c, sound) ==>
        step(s, pos, index, stem) == Processed([wav(index, c, sound)], Some(pos + ChunkHeaderSize + |sound|))
  }

  /** A stored chunk is read back whole. */
  lemma ReadStored(s: seq<byte>, pos: nat, c: ChunkHeader, sound: seq<byte>)
    requires Stored(s, pos, c, sound)
    ensures ReadChunk(s, pos) == Some((c, sound))
  {
    assert ReadAt(s, pos, ChunkHeaderSize) == EncodeChunkHeader(c);
    ChunkHeaderRoundTrip(c);
    assert ReadAt(s, pos + ChunkHeaderSize, c.dataSize + DataSlack) == sound;
  }

  /** `_process_sound_file`, as intended, converts a chunk it reads whole,
      when the chunk's size fits its WAV header, and moves past it. */
  lemma ProcessRead(s: seq<byte>, pos: nat, index: nat, c: ChunkHeader, sound: seq<byte>, stem: string)
    requires ReadChunk(s, pos) == Some((c, sound)) && |sound| + 36 < 0x1_0000_0000
    ensures ProcessChunk(s, pos, index, stem) == Processed([Wav(stem, index, c, sound)], Some(pos + ChunkHeaderSize + |sound|))
  {
  }

  lemma ProcessChunkReadsStored(s: seq<byte>, stem: string)
    ensures ReadsStored(s, stem, ProcessChunk, BankWav(stem))
  {
    forall pos: nat, index: nat, c, sound | Stored(s, pos, c, sound)
      ensures ProcessChunk(s, pos, index, stem) == Processed([BankWav(stem)(index, c, sound)], Some(pos + ChunkHeaderSize + |sound|))
    {
      ReadStored(s, pos, c, sound);
      ProcessRead(s, pos, index, c, sound, stem);
    }
  }

  /** Walking laid-out chunks with a step that reads stored chunks converts
      every one of them, in order. */
  lemma {:induction false} ChunksRead(s: seq<byte>, pos: nat, index: nat, chunks: seq<(ChunkHeader, seq<byte>)>, stem: string, step: ChunkStep, wav: WavOf)
    requires LaidOut(s, pos, chunks) && ReadsStored(s, stem, step, wav)
    ensures Chunks(s, pos, index, index + |chunks|, stem, step) == Conversion(true, Files(chunks, index, wav))
    decreases |chunks|
  {
    if chunks != [] {
      var next := pos + ChunkHeaderSize + |chunks[0].1|;
      assert step(s, pos, index, stem) == Processed([wav(index, chunks[0].0, chunks[0].1)], Some(next));
      ChunksRead(s, next, index + 1, chunks[1..], stem, step, wav);
    }
  }

  /** A bank starting with a packed header reads that header back. */
  lemma HeaderRead(s: seq<byte>, h: SndHeader)
    requires |h.unkTable| == UnkTableLength
    requires |s| >= SndHeaderSize && s[..SndHeaderSize] == U32sBytes(h.Words(), LittleEndian)
    ensures DecodeHeader(ReadAt(s, 0, SndHeaderSize)) == Success(h)
  {
    HeaderRoundTrip(h);
  }

  /** A bank whose header counts `chunks` and points at them converts to
      their files, with any chunk step that reads stored chunks. */
  lemma ConvertLaidOutWith(s: seq<byte>, stem: string, step: ChunkStep, wav: WavOf, h: SndHeader, chunks: seq<(ChunkHeader, seq<byte>)>)
    requires DecodeHeader(ReadAt(s, 0, SndHeaderSize)) == Success(h) && h.fileCount == |chunks|
    requires LaidOut(s, h.chunkBaseOffset, chunks) && ReadsStored(s, stem, step, wav)
    ensures Convert(s, stem, step) == Conversion(true, Files(chunks, 0, wav))
  {
    assert |ReadAt(s, 0, SndHeaderSize)| == SndHeaderSize;
    assert Convert(s, stem, step) == Chunks(s, h.chunkBaseOffset, 0, |chunks|, stem, step);
    ChunksRead(s, h.chunkBaseOffset, 0, chunks, stem, step, wav);
  }

  /** A bank whose header counts `chunks` and points at them converts to
      their WAV files; as written, the same bank fails (see
      AsWrittenNeverConverts). */
  lemma ConvertLaidOut(s: seq<byte>, stem: string, h: SndHeader, chunks: seq<(ChunkHeader, seq<byte>)>)
    requires |h.unkTable| == UnkTableLength && h.fileCount == |chunks|
    requires |s| >= SndHeaderSize && s[..SndHeaderSize] == U32sBytes(h.Words(), LittleEndian)
    requires LaidOut(s, h.chunkBaseOffset, chunks)
    ensures Convert(s, stem, ProcessChunk) == Conversion(true, WavFiles(chunks, 0, stem))
  {
    HeaderRead(s, h);
    ProcessChunkReadsStored(s, stem);
    ConvertLaidOutWith(s, stem, ProcessChunk, BankWav(stem), h, chunks);
  }
}
