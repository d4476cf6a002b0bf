/** The fixed records of a F.E.A.R. 2 `.arch01` archive (a 48-byte header,
    32-byte file entries and 16-byte folder entries, all little-endian u32
    fields), and the way the extractor turns name-table bytes into a safe
    relative path: split on both slash kinds, drop empty parts, and replace
    every character outside letters, digits and "-_.() " by '_'.

    Paths are sequences of components; `Path(*parts)` is that sequence. */
module ArchFormat {
  import opened Results
  import opened Bytes

  /** The ValueError the record constructors raise for a slice of the wrong
      length. */
  datatype ArchError = InvalidSize

  // ---------------------------------------------------------------------------
  // Records
  // ---------------------------------------------------------------------------

  datatype ArchHeader = ArchHeader(
    marker: u32, version: u32, nameTableSize: u32, folderCount: u32, fileCount: u32,
    unk: seq<u32>)
  {
    /** The twelve stored words, in order. */
    function Words(): seq<u32> {
      [marker, version, nameTableSize, folderCount, fileCount] + unk
    }
  }

  datatype ArchFileEntry = ArchFileEntry(
    nameOffset: u32, fileOffset: u32, fileOffsetPad: u32,
    comFileSize: u32, comFileSizePad: u32, rawFileSize: u32, rawFileSizePad: u32,
    comMethod: u32)
  {
    function Words(): seq<u32> {
      [nameOffset, fileOffset, fileOffsetPad, comFileSize, comFileSizePad, rawFileSize, rawFileSizePad, comMethod]
    }
  }

  datatype ArchFolderEntry = ArchFolderEntry(nameOffset: u32, unk1: u32, unk2: u32, fileCount: u32)
  {
    function Words(): seq<u32> {
      [nameOffset, unk1, unk2, fileCount]
    }
  }

  const HeaderSize: nat := 48
  const FileEntrySize: nat := 32
  const FolderEntrySize: nat := 16

  /** `TArchFileHeader(data)`: exactly 48 bytes, twelve words, the last
      seven kept together as `Unk`. */
  function DecodeHeader(data: seq<byte>): (r: Result<ArchHeader, ArchError>)
    ensures r.Success? <==> |data| == HeaderSize
    ensures r.Success? ==> |r.value.unk| == 7
    ensures r.Success? ==> forall k :: 0 <= k < 12 ==> r.value.Words()[k] == U32At(data, 4 * k, LittleEndian)
  {
    if |data| != HeaderSize then Failure(InvalidSize)
    else
      var w := U32sLe(data);
      var h := ArchHeader(w[0], w[1], w[2], w[3], w[4], w[5..12]);
      assert h.Words() == w;
      Success(h)
  }

  /** `TArchFileEntry(data)`: exactly 32 bytes, eight words in declaration
      order. */
  function DecodeFileEntry(data: seq<byte>): (r: Result<ArchFileEntry, ArchError>)
    ensures r.Success? <==> |data| == FileEntrySize
    ensures r.Success? ==> forall k :: 0 <= k < 8 ==> r.value.Words()[k] == U32At(data, 4 * k, LittleEndian)
  {
    if |data| != FileEntrySize then Failure(InvalidSize)
    else
      var w := U32sLe(data);
      var e := ArchFileEntry(w[0], w[1], w[2], w[3], w[4], w[5], w[6], w[7]);
      assert e.Words() == w;
      Success(e)
  }

  /** `TArchFolderEntry(data)`: exactly 16 bytes, four words. */
  function DecodeFolderEntry(data: seq<byte>): (r: Result<ArchFolderEntry, ArchError>)
    ensures r.Success? <==> |data| == FolderEntrySize
    ensures r.Success? ==> forall k :: 0 <= k < 4 ==> r.value.Words()[k] == U32At(data, 4 * k, LittleEndian)
  {
    if |data| != FolderEntrySize then Failure(InvalidSize)
    else
      var w := U32sLe(data);
      var f := ArchFolderEntry(w[0], w[1], w[2], w[3]);
      assert f.Words() == w;
      Success(f)
  }

  /** Each record decodes back from the bytes a writer would store for it. */
  lemma {:induction false} HeaderRoundTrip(h: ArchHeader)
    requires |h.unk| == 7
    ensures DecodeHeader(U32sBytes(h.Words(), LittleEndian)) == Success(h)
  {
    var w := h.Words();
    var bytes := U32sBytes(w, LittleEndian);
    U32sLeRoundTrip(w);
    assert U32sLe(bytes) == w;
    var r := DecodeHeader(bytes).value;
    assert r == ArchHeader(w[0], w[1], w[2], w[3], w[4], w[5..12]);
    assert w[5..12] == h.unk;
  }

  lemma {:induction false} FileEntryRoundTrip(e: ArchFileEntry)
    ensures DecodeFileEntry(U32sBytes(e.Words(), LittleEndian)) == Success(e)
  {
    U32sLeRoundTrip(e.Words());
  }

  lemma {:induction false} FolderEntryRoundTrip(f: ArchFolderEntry)
    ensures DecodeFolderEntry(U32sBytes(f.Words(), LittleEndian)) == Success(f)
  {
    U32sLeRoundTrip(f.Words());
  }

  // ---------------------------------------------------------------------------
  // sanitize_filename
  // ---------------------------------------------------------------------------

  /** A character of `"-_.() "`, `string.ascii_letters` or `string.digits`. */
  predicate ValidChar(c: char) {
    c == '-' || c == '_' || c == '.' || c == '(' || c == ')' || c == ' '
    || ('a' <= c <= 'z') || ('A' <= c <= 'Z') || ('0' <= c <= '9')
  }

  predicate ValidName(name: string) {
    forall k :: 0 <= k < |name| ==> ValidChar(name[k])
  }

  /** `sanitize_filename`: every character kept if valid, '_' otherwise. */
  function SanitizeFilename(name: string): (r: string)
    ensures |r| == |name| && ValidName(r)
    ensures forall k :: 0 <= k < |r| ==> r[k] == (if ValidChar(name[k]) then name[k] else '_')
  {
    seq(|name|, k requires 0 <= k < |name| => if ValidChar(name[k]) then name[k] else '_')
  }

  /** Sanitising leaves valid names alone, and only those. */
  lemma {:induction false} SanitizeKeepsValid(name: string)
    ensures SanitizeFilename(name) == name <==> ValidName(name)
  {
    if SanitizeFilename(name) == name {
      assert ValidName(SanitizeFilename(name));
    }
  }

  /** Sanitising twice is sanitising once. */
  lemma {:induction false} SanitizeIdempotent(name: string)
    ensures SanitizeFilename(SanitizeFilename(name)) == SanitizeFilename(name)
  {
    SanitizeKeepsValid(SanitizeFilename(name));
  }

  // ---------------------------------------------------------------------------
  // normalize_path
  // ---------------------------------------------------------------------------

  predicate IsSep(c: char) {
    c == '\\' || c == '/'
  }

  predicate NoSep(part: string) {
    forall k :: 0 <= k < |part| ==> !IsSep(part[k])
  }

  /** `re.split(r'[\\/]', name)`: the pieces between separators, empty ones
      included, so one more piece than separators. */
  function SplitSeps(name: string): (parts: seq<string>)
    ensures |parts| >= 1
    ensures forall i :: 0 <= i < |parts| ==> NoSep(parts[i])
  {
    if name == [] then [[]]
    else
      var rest := SplitSeps(name[1..]);
      if IsSep(name[0]) then [[]] + rest
      else [[name[0]] + rest[0]] + rest[1..]
  }

  /** Pieces joined with '/'. */
  function JoinSlash(parts: seq<string>): string
    requires |parts| >= 1
  {
    if |parts| == 1 then parts[0] else parts[0] + "/" + JoinSlash(parts[1..])
  }

  /** `name` with every backslash written as a slash. */
  function ForwardSlashes(name: string): (r: string)
    ensures |r| == |name|
    ensures forall k :: 0 <= k < |r| ==> r[k] == (if name[k] == '\\' then '/' else name[k])
  {
    if name == [] then [] else [if name[0] == '\\' then '/' else name[0]] + ForwardSlashes(name[1..])
  }

  /** Splitting loses nothing but the kind of each separator. */
  lemma {:induction false} SplitJoin(name: string)
    ensures JoinSlash(SplitSeps(name)) == ForwardSlashes(name)
  {
    if name != [] {
      SplitJoin(name[1..]);
      var rest := SplitSeps(name[1..]);
      if IsSep(name[0]) {
        JoinAfterSep(rest);
      } else {
        JoinAfterChar(name[0], rest);
      }
    }
  }

  lemma {:induction false} JoinAfterSep(rest: seq<string>)
    requires |rest| >= 1
    ensures JoinSlash([[]] + rest) == "/" + JoinSlash(rest)
  {
    assert ([[]] + rest)[1..] == rest;
  }

  lemma {:induction false} JoinAfterChar(c: char, rest: seq<string>)
    requires |rest| >= 1
    ensures JoinSlash([[c] + rest[0]] + rest[1..]) == [c] + JoinSlash(rest)
  {
    var p0 := [c] + rest[0];
    var parts := [p0] + rest[1..];
    if |rest| == 1 {
      assert parts == [p0];
    } else {
      assert parts[0] == p0 && parts[1..] == rest[1..];
      var tail := JoinSlash(rest[1..]);
      assert JoinSlash(parts) == p0 + "/" + tail;
      assert JoinSlash(rest) == rest[0] + "/" + tail;
      SeqAssoc(c, rest[0], "/" + tail);
    }
  }

  lemma {:induction false} SeqAssoc(c: char, a: string, b: string)
    ensures ([c] + a) + b == [c] + (a + b)
  {
  }

  /** Pieces without separators come back out of a split of their join. */
  lemma {:induction false} JoinSplit(parts: seq<string>)
    requires |parts| >= 1 && forall i :: 0 <= i < |parts| ==> NoSep(parts[i])
    ensures SplitSeps(JoinSlash(parts)) == parts
    decreases |parts|, |parts[0]|
  {
    if |parts[0]| > 0 {
      var first := parts[0];
      var shorter := [first[1..]] + parts[1..];
      assert NoSep(first[1..]);
      assert forall i :: 0 <= i < |shorter| ==> NoSep(shorter[i]);
      JoinSplit(shorter);
      var joined := JoinSlash(parts);
      assert JoinSlash(shorter) == joined[1..] by {
        if |parts| > 1 {
          assert shorter[1..] == parts[1..];
        }
      }
      assert joined[0] == first[0];
      assert [first[0]] + first[1..] == first;
      assert parts == [first] + shorter[1..];
    } else if |parts| > 1 {
      JoinSplit(parts[1..]);
      var joined := JoinSlash(parts);
      assert joined == "/" + JoinSlash(parts[1..]);
      assert joined[1..] == JoinSlash(parts[1..]);
      assert parts == [[]] + parts[1..];
    }
  }

  /** `[sanitize_filename(part) for part in parts if part]`. */
  function SanitizeParts(parts: seq<string>): (r: seq<string>)
    ensures |r| <= |parts|
    ensures forall i :: 0 <= i < |r| ==> r[i] != [] && ValidName(r[i])
  {
    if parts == [] then []
    else if parts[0] == [] then SanitizeParts(parts[1..])
    else [SanitizeFilename(parts[0])] + SanitizeParts(parts[1..])
  }

  /** `normalize_path(name)` as its list of components (none for
      `Path()`). */
  function NormalizePath(name: string): (r: seq<string>)
    ensures r == SanitizeParts(SplitSeps(name))
    ensures forall i :: 0 <= i < |r| ==> r[i] != [] && ValidName(r[i]) && NoSep(r[i])
  {
    var r := SanitizeParts(SplitSeps(name));
    assert forall i :: 0 <= i < |r| ==> NoSep(r[i]) by {
      forall i | 0 <= i < |r|
        ensures NoSep(r[i])
      {
        assert ValidName(r[i]);
      }
    }
    r
  }

  /** Sanitising pieces one list after another is sanitising their
      concatenation. */
  lemma {:induction false} SanitizePartsConcat(p: seq<string>, q: seq<string>)
    ensures SanitizeParts(p + q) == SanitizeParts(p) + SanitizeParts(q)
    decreases |p|
  {
    if p != [] {
      assert (p + q)[0] == p[0] && (p + q)[1..] == p[1..] + q;
      SanitizePartsConcat(p[1..], q);
      if p[0] != [] {
        var head := [SanitizeFilename(p[0])];
        assert SanitizeParts(p + q) == head + (SanitizeParts(p[1..]) + SanitizeParts(q));
        assert SanitizeParts(p) == head + SanitizeParts(p[1..]);
      }
    } else {
      assert p + q == q;
    }
  }

  /** A further piece is dropped when empty and otherwise sanitised and
      appended: the comprehension keeps the order of the pieces. */
  lemma SanitizePartsAppend(parts: seq<string>, p: string)
    ensures SanitizeParts(parts + [p]) == SanitizeParts(parts) + (if p == [] then [] else [SanitizeFilename(p)])
  {
    SanitizePartsConcat(parts, [p]);
    assert [p][1..] == [];
  }

  /** Nothing but empty pieces gives no component. */
  lemma {:induction false} SanitizePartsAllEmpty(parts: seq<string>)
    requires forall i :: 0 <= i < |parts| ==> parts[i] == []
    ensures SanitizeParts(parts) == []
  {
    if parts != [] {
      SanitizePartsAllEmpty(parts[1..]);
    }
  }

  /** A separator splits the name: the components before it, then those
      after it, whichever separator it is. */
  lemma {:induction false} SplitSepsAt(a: string, c: char, b: string)
    requires IsSep(c)
    ensures SplitSeps(a + [c] + b) == SplitSeps(a) + SplitSeps(b)
    decreases |a|
  {
    if a == [] {
      assert a + [c] + b == [c] + b;
      assert ([c] + b)[1..] == b;
    } else {
      var name := a + [c] + b;
      assert name[0] == a[0] && name[1..] == a[1..] + [c] + b;
      SplitSepsAt(a[1..], c, b);
    }
  }

  lemma NormalizeAtSep(a: string, c: char, b: string)
    requires IsSep(c)
    ensures NormalizePath(a + [c] + b) == NormalizePath(a) + NormalizePath(b)
  {
    SplitSepsAt(a, c, b);
    SanitizePartsConcat(SplitSeps(a), SplitSeps(b));
  }

  /** A piece without separators is one sanitised component, or none when
      it is empty. */
  lemma NormalizePiece(name: string)
    requires NoSep(name)
    ensures NormalizePath(name) == if name == [] then [] else [SanitizeFilename(name)]
  {
    JoinSplit([name]);
    assert JoinSlash([name]) == name;
  }

  /** `normalize_path("a\\\\b:c/")`: both separators split, the empty
      pieces between and after them are dropped, and ':' is replaced. */
  lemma NormalizeExample(name: string)
    requires name == "a\\\\b:c/"
    ensures NormalizePath(name) == ["a", "b_c"]
  {
    assert name == "a" + ['\\'] + ("" + ['\\'] + ("b:c" + ['/'] + ""));
    NormalizeAtSep("a", '\\', "" + ['\\'] + ("b:c" + ['/'] + ""));
    NormalizeAtSep("", '\\', "b:c" + ['/'] + "");
    NormalizeAtSep("b:c", '/', "");
    NormalizePiece("a");
    NormalizePiece("");
    NormalizePiece("b:c");
    assert SanitizeFilename("a") == "a";
    assert SanitizeFilename("b:c") == "b_c" by {
      assert !ValidChar(':');
    }
  }

  /** Components already sanitised and without separators are kept. */
  lemma {:induction false} SanitizePartsKeeps(parts: seq<string>)
    requires forall i :: 0 <= i < |parts| ==> parts[i] != [] && ValidName(parts[i])
    ensures SanitizeParts(parts) == parts
  {
    if parts != [] {
      SanitizeKeepsValid(parts[0]);
      SanitizePartsKeeps(parts[1..]);
    }
  }

  /** Normalising the joined result of a normalisation changes nothing. */
  lemma {:induction false} NormalizeIdempotent(name: string)
    requires NormalizePath(name) != []
    ensures NormalizePath(JoinSlash(NormalizePath(name))) == NormalizePath(name)
  {
    var parts := NormalizePath(name);
    JoinSplit(parts);
    SanitizePartsKeeps(parts);
  }

  // ---------------------------------------------------------------------------
  // get_string_from_table
  // ---------------------------------------------------------------------------

  /** `get_string_from_table`: "unknown" past the end of the table,
      otherwise the bytes up to the first NUL (or the end), decoded and
      normalised. */
  function NameFromTable(table: seq<byte>, offset: nat): (r: seq<string>)
    ensures offset >= |table| ==> r == ["unknown"]
    ensures offset < |table| ==> r == NormalizePath(LenientText(table[offset..NulFrom(table, offset)]))
    ensures forall i :: 0 <= i < |r| ==> r[i] != [] && ValidName(r[i])
  {
    if offset >= |table| then ["unknown"]
    else NormalizePath(LenientText(table[offset..NulFrom(table, offset)]))
  }

  /** A valid, separator-free name normalises to itself. */
  lemma {:induction false} NormalizeValid(name: string)
    requires name != [] && ValidName(name)
    ensures NormalizePath(name) == [name]
  {
    assert NoSep(name);
    JoinSplit([name]);
    SanitizePartsKeeps([name]);
  }

  /** A valid name stored NUL-terminated in the table is found as that
      single component. */
  lemma {:induction false} NameFromTableFinds(prefix: seq<byte>, name: string, rest: seq<byte>)
    requires name != [] && ValidName(name)
    ensures forall k :: 0 <= k < |name| ==> name[k] as int < 0x80
    ensures NameFromTable(prefix + TextBytes(name) + [0] + rest, |prefix|) == [name]
  {
    var bytes := TextBytes(name);
    assert forall k :: 0 <= k < |bytes| ==> bytes[k] != 0 by {
      forall k | 0 <= k < |bytes|
        ensures bytes[k] != 0
      {
        assert name[k] != 0 as char;
      }
    }
    var table := prefix + bytes + [0] + rest;
    var o := |prefix|;
    NulAfterName(prefix, bytes, rest);
    assert table[o..NulFrom(table, o)] == bytes;
    LenientTextAscii(bytes);
    assert LenientText(bytes) == name;
    NormalizeValid(name);
    assert NameFromTable(table, o) == NormalizePath(LenientText(bytes));
  }

}
