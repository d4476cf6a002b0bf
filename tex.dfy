/** TexConverter.py: a TEX texture is a DDS image behind a 12-byte header of
    three little-endian words, the marker "TEXR", version 1 and file type 0.
    Both conversions are byte transforms: reading the source file and writing
    the target are the callers' business, so each conversion takes the
    source's bytes and returns the bytes it would write, or why it returns
    False. */
module TexConvert {
  import opened Results
  import opened Bytes

  /** Why a conversion returns False without writing anything. */
  datatype ConvertError =
    | IncompleteHeader   // a TEX file shorter than its 12-byte header
    | InvalidTexMarker
    | TooShort           // a DDS file that is empty or shorter than 4 bytes
    | InvalidDdsMarker

  /** The four bytes "TEXR" and "DDS ", and the markers `struct.unpack('<I', ...)`
      makes of them (see MarkersOfMagic). */
  const TexMagic: seq<byte> := [0x54, 0x45, 0x58, 0x52]
  const DdsMagic: seq<byte> := [0x44, 0x44, 0x53, 0x20]
  const TexMarker: u32 := 0x5258_4554
  const DdsMarker: u32 := 0x2053_4444

  /** The size of `HEADER_STRUCT`, three u32s. */
  const HeaderSize: nat := 12

  datatype TexHeader = TexHeader(marker: u32, version: u32, fileType: u32) {
    function Words(): seq<u32> {
      [marker, version, fileType]
    }
  }

  /** `TexHeader()` with its defaults. */
  const DefaultHeader: TexHeader := TexHeader(TexMarker, 1, 0)

  /** `HEADER_STRUCT.unpack` of the first 12 bytes. */
  function Unpack(data: seq<byte>): TexHeader
    requires |data| >= HeaderSize
  {
    TexHeader(U32At(data, 0, LittleEndian), U32At(data, 4, LittleEndian), U32At(data, 8, LittleEndian))
  }

  /** `TexHeader.pack`: 12 bytes that unpack to the same header. */
  function Pack(h: TexHeader): (r: seq<byte>)
    ensures |r| == HeaderSize
  {
    U32Bytes(h.marker, LittleEndian) + U32Bytes(h.version, LittleEndian) + U32Bytes(h.fileType, LittleEndian)
  }

  /** Each marker is the little-endian word of its four bytes. */
  lemma MarkersOfMagic()
    ensures U32At(TexMagic, 0, LittleEndian) == TexMarker
    ensures U32At(DdsMagic, 0, LittleEndian) == DdsMarker
  {
  }

  /** Comparing the first word with a marker is comparing the first four
      bytes with the marker's bytes. */
  lemma MarkerMatches(s: seq<byte>, magic: seq<byte>)
    requires |s| >= 4 && |magic| == 4
    ensures U32At(s, 0, LittleEndian) == U32At(magic, 0, LittleEndian) <==> s[..4] == magic
  {
    U32BytesOfDecode(s, 0, LittleEndian);
    U32BytesOfDecode(magic, 0, LittleEndian);
    assert magic[0..4] == magic;
    assert s[0..4] == s[..4];
  }

  /** `tex_convert_to_dds`: the input must hold a whole header whose marker
      is "TEXR"; the version and file type are read but not checked.  The
      output is everything after the header. */
  function TexToDds(src: seq<byte>): (r: Result<seq<byte>, ConvertError>)
    ensures |src| < HeaderSize ==> r == Failure(IncompleteHeader)
    ensures r.Success? <==> |src| >= HeaderSize && src[..4] == TexMagic
    ensures r.Success? ==> src == src[..HeaderSize] + r.value
  {
    if |src| < HeaderSize then Failure(IncompleteHeader)
    else
      var header := Unpack(src[..HeaderSize]);
      assert header.marker == U32At(src, 0, LittleEndian);
      MarkerMatches(src, TexMagic);
      MarkersOfMagic();
      if header.marker != TexMarker then Failure(InvalidTexMarker)
      else Success(src[HeaderSize..])
  }

  /** `dds_convert_to_tex`: the input must be at least four bytes long and
      begin with "DDS "; the output is the default header, then the whole
      input. */
  function DdsToTex(src: seq<byte>): (r: Result<seq<byte>, ConvertError>)
    ensures |src| < 4 ==> r == Failure(TooShort)
    ensures r.Success? <==> |src| >= 4 && src[..4] == DdsMagic
    ensures r.Success? ==> |r.value| == |src| + HeaderSize
    ensures r.Success? ==> r.value[..HeaderSize] == Pack(DefaultHeader) && r.value[HeaderSize..] == src
  {
    if |src| == 0 || |src| < 4 then Failure(TooShort)
    else
      var marker := U32At(src[..4], 0, LittleEndian);
      assert marker == U32At(src, 0, LittleEndian);
      MarkerMatches(src, DdsMagic);
      MarkersOfMagic();
      if marker != DdsMarker then Failure(InvalidDdsMarker)
      else
        var out := Pack(DefaultHeader) + src;
        assert out[..HeaderSize] == Pack(DefaultHeader);
        Success(out)
  }

  /** A packed header unpacks to the same header. */
  lemma PackRoundTrip(h: TexHeader)
    ensures Unpack(Pack(h)) == h
  {
    var r := Pack(h);
    assert r[0..4] == U32Bytes(h.marker, LittleEndian);
    assert r[4..8] == U32Bytes(h.version, LittleEndian);
    assert r[8..12] == U32Bytes(h.fileType, LittleEndian);
    U32RoundTrip(r, 0, h.marker, LittleEndian);
    U32RoundTrip(r, 4, h.version, LittleEndian);
    U32RoundTrip(r, 8, h.fileType, LittleEndian);
  }

  /** The default header is, byte for byte, "TEXR" 01 00 00 00 00 00 00 00. */
  lemma DefaultHeaderBytes(h: TexHeader)
    requires h == DefaultHeader
    ensures Pack(h) == TexMagic + [1, 0, 0, 0] + [0, 0, 0, 0]
  {
    U32BytesOfDecode(TexMagic, 0, LittleEndian);
    MarkersOfMagic();
    assert TexMagic[0..4] == TexMagic;
    assert U32Bytes(1, LittleEndian) == [1, 0, 0, 0] by { U32Digits(1); }
    assert U32Bytes(0, LittleEndian) == [0, 0, 0, 0] by { U32Digits(0); }
  }

  /** Converting a DDS image to TEX and back gives the image back. */
  lemma DdsTexRoundTrip(dds: seq<byte>)
    requires DdsToTex(dds).Success?
    ensures TexToDds(DdsToTex(dds).value) == Success(dds)
  {
    var tex := DdsToTex(dds).value;
    assert tex[..4] == Pack(DefaultHeader)[..4] == TexMagic by {
      DefaultHeaderBytes(DefaultHeader);
    }
  }

  /** Packing what twelve bytes unpack to gives the same twelve bytes. */
  lemma UnpackedBytes(t: seq<byte>)
    requires |t| >= HeaderSize
    ensures Pack(Unpack(t)) == t[..HeaderSize]
  {
    U32BytesOfDecode(t, 0, LittleEndian);
    U32BytesOfDecode(t, 4, LittleEndian);
    U32BytesOfDecode(t, 8, LittleEndian);
    assert t[..HeaderSize] == t[0..4] + t[4..8] + t[8..12];
  }

  /** Unpacking reads the first twelve bytes only. */
  lemma UnpackPrefix(t: seq<byte>)
    requires |t| >= HeaderSize
    ensures Unpack(t) == Unpack(t[..HeaderSize])
  {
  }

  /** Twelve bytes unpack to a header exactly when they are that header
      packed. */
  lemma HeaderBytes(t: seq<byte>, h: TexHeader)
    requires |t| >= HeaderSize
    ensures Unpack(t) == h <==> t[..HeaderSize] == Pack(h)
  {
    if Unpack(t) == h {
      UnpackedBytes(t);
    }
    if t[..HeaderSize] == Pack(h) {
      PackRoundTrip(h);
      UnpackPrefix(t);
    }
  }

  /** Converting a TEX texture to DDS and back gives the texture back exactly
      when its header is the default one (see HeaderBytes) and its payload
      is a DDS image: any other version or file type is lost on the way. */
  lemma TexDdsRoundTrip(tex: seq<byte>)
    requires TexToDds(tex).Success?
    ensures DdsToTex(TexToDds(tex).value) == Success(tex) <==>
      tex[..HeaderSize] == Pack(DefaultHeader) && |tex| >= HeaderSize + 4 && tex[HeaderSize..HeaderSize + 4] == DdsMagic
  {
    var dds := TexToDds(tex).value;
    assert dds == tex[HeaderSize..];
    if |dds| >= 4 {
      assert dds[..4] == tex[HeaderSize..HeaderSize + 4];
    }
  }
}
