/** What `extract_all_files` does with a dsPack archive once its directories
    are read: classify each file entry (`extract_file`), compute where it
    goes, insert "[Compressed]" before the extension of entries that could
    not be decoded, and write every entry that yielded data.

    Paths are strings with POSIX semantics (`posixpath.join`, `dirname`,
    `splitext`); the file system itself is represented by the list of
    directory creations and file writes the extraction performs. */
module DsPackExtract {
  import opened Results
  import opened Bytes
  import opened MiniPack
  import opened DsPackFormat
  import opened FolderPaths

  // ---------------------------------------------------------------------------
  // extract_file
  // ---------------------------------------------------------------------------

  /** `extract_file`'s pair: the bytes to write (None for nothing) and whether
      they are the raw stored bytes of an entry that should have been
      decoded. */
  datatype Extracted = Extracted(data: Option<seq<byte>>, flagged: bool)

  /** The stored bytes of an entry: `seek(data_offset); read(compressed_size)`. */
  function Stored(s: seq<byte>, e: FileEntry): seq<byte> {
    ReadAt(s, e.dataOffset, e.compressedSize)
  }

  /** `extract_file`: nothing for an empty entry, the stored bytes when the
      sizes agree, the stored bytes flagged when they are already at least as
      long as the announced size or fail to decode, and the decoded buffer
      otherwise. */
  function ExtractFile(s: seq<byte>, e: FileEntry): (r: Extracted)
    ensures r.data.None? <==> e.compressedSize == 0
    ensures r.data.None? ==> !r.flagged
    ensures r.flagged ==> r.data == Some(Stored(s, e)) && e.compressedSize != e.decompressedSize
    ensures e.compressedSize != 0 && e.compressedSize == e.decompressedSize ==> r == Extracted(Some(Stored(s, e)), false)
    ensures r.data.Some? && !r.flagged && e.compressedSize != e.decompressedSize ==>
      |Stored(s, e)| < e.decompressedSize && Decode(Stored(s, e), e.decompressedSize) == Success(r.data.value)
    ensures (e.compressedSize != 0 && e.compressedSize != e.decompressedSize && |Stored(s, e)| < e.decompressedSize
             && Decode(Stored(s, e), e.decompressedSize).Success?) ==>
      r == Extracted(Some(Decode(Stored(s, e), e.decompressedSize).value), false)
    ensures (e.compressedSize != 0 && e.compressedSize != e.decompressedSize && |Stored(s, e)| < e.decompressedSize
             && Decode(Stored(s, e), e.decompressedSize).Failure?) ==>
      r == Extracted(Some(Stored(s, e)), true)
    ensures e.compressedSize != 0 && e.compressedSize != e.decompressedSize && |Stored(s, e)| >= e.decompressedSize ==>
      r == Extracted(Some(Stored(s, e)), true)
  {
    if e.compressedSize == 0 then Extracted(None, false)
    else
      var compressed := Stored(s, e);
      if e.compressedSize == e.decompressedSize then Extracted(Some(compressed), false)
      else if |compressed| >= e.decompressedSize then Extracted(Some(compressed), true)
      else
        match Decode(compressed, e.decompressedSize)
        case Success(data) => Extracted(Some(data), false)
        case Failure(_) => Extracted(Some(compressed), true)
  }

  /** For an entry as `read_file_entries` accepts it, `if data:` fails
      exactly for an empty entry: a decoded buffer has the announced size,
      and stored bytes start inside the archive. */
  lemma ExtractedNonEmpty(s: seq<byte>, e: FileEntry, numFolders: nat)
    requires WellFormedFile(e, |s|, numFolders)
    ensures ExtractFile(s, e).data.Some? && ExtractFile(s, e).data.value != [] <==> e.compressedSize != 0
    ensures ExtractFile(s, e).data.Some? && !ExtractFile(s, e).flagged && e.compressedSize != e.decompressedSize ==>
      |ExtractFile(s, e).data.value| == e.decompressedSize
  {
    if e.compressedSize != 0 {
      assert |Stored(s, e)| > 0;
    }
  }

  // ---------------------------------------------------------------------------
  // POSIX path operations
  // ---------------------------------------------------------------------------

  /** `p.rfind(c)`: the last index of `c`, or -1. */
  function RFind(p: string, c: char): (r: int)
    ensures -1 <= r < |p|
    ensures r >= 0 ==> p[r] == c
    ensures forall k :: r < k < |p| ==> p[k] != c
  {
    if |p| == 0 then -1 else if p[|p| - 1] == c then |p| - 1 else RFind(p[..|p| - 1], c)
  }

  /** RFind is the only index with its two properties. */
  lemma RFindUnique(p: string, c: char, r: int)
    requires -1 <= r < |p| && (r >= 0 ==> p[r] == c) && forall k :: r < k < |p| ==> p[k] != c
    ensures RFind(p, c) == r
  {
  }

  /** `os.path.splitext` (posixpath): the extension starts at the last dot
      after the last slash, unless everything between that slash and the dot
      is dots (a leading-dot name such as ".profile" has no extension). */
  function SplitExt(p: string): (r: (string, string))
    ensures r.0 + r.1 == p
    ensures r.1 != [] ==> r.1[0] == '.' && forall k :: 1 <= k < |r.1| ==> r.1[k] != '.' && r.1[k] != '/'
    ensures r.1 != [] ==> exists k :: RFind(p, '/') < k < |r.0| && p[k] != '.'
    ensures r.1 != [] <==> RFind(p, '.') > RFind(p, '/') && exists k :: RFind(p, '/') < k < RFind(p, '.') && p[k] != '.'
    ensures r.1 != [] ==> |r.0| == RFind(p, '.')
  {
    var sepIndex := RFind(p, '/');
    var dotIndex := RFind(p, '.');
    if dotIndex > sepIndex && exists k :: sepIndex < k < dotIndex && p[k] != '.' then
      (p[..dotIndex], p[dotIndex..])
    else
      (p, [])
  }

  const Marker: string := "[Compressed]"

  /** `f"{base}[Compressed]{ext}"` with `base, ext = os.path.splitext(path)`. */
  function MarkCompressed(p: string): string {
    SplitExt(p).0 + Marker + SplitExt(p).1
  }

  predicate NoChar(p: string, c: char) {
    forall k :: 0 <= k < |p| ==> p[k] != c
  }

  /** Inserting text free of `c` after the last `c` leaves the last `c`
      where it was. */
  lemma RFindInsert(p: string, i: nat, m: string, c: char)
    requires RFind(p, c) < i <= |p| && NoChar(m, c)
    ensures RFind(p[..i] + m + p[i..], c) == RFind(p, c)
  {
    var q := p[..i] + m + p[i..];
    var r := RFind(p, c);
    forall k | r < k < |q|
      ensures q[k] != c
    {
      if k >= i + |m| {
        assert q[k] == p[k - |m|];
      }
    }
    if r >= 0 {
      assert q[r] == p[r];
    }
    RFindUnique(q, c, r);
  }

  /** The marked path has the same extension as the original, and its base
      is the original base followed by the marker. */
  lemma MarkKeepsExtension(p: string)
    ensures SplitExt(MarkCompressed(p)) == (SplitExt(p).0 + Marker, SplitExt(p).1)
  {
    if SplitExt(p).1 != [] {
      MarkBeforeExtension(p);
    } else {
      MarkAtEnd(p);
    }
  }

  lemma MarkBeforeExtension(p: string)
    requires SplitExt(p).1 != []
    ensures SplitExt(MarkCompressed(p)) == (SplitExt(p).0 + Marker, SplitExt(p).1)
  {
    var base := SplitExt(p).0;
    var ext := SplitExt(p).1;
    var q := MarkCompressed(p);
    var qd := |base| + |Marker|;
    MarkedSlash(p);
    MarkedDot(p);
    assert q[|base|] == '[';
    assert q[..qd] == base + Marker && q[qd..] == ext;
  }

  /** Marking a path with an extension leaves its last slash in place. */
  lemma MarkedSlash(p: string)
    requires SplitExt(p).1 != []
    ensures RFind(p, '/') < |SplitExt(p).0|
    ensures RFind(MarkCompressed(p), '/') == RFind(p, '/')
  {
    var base := SplitExt(p).0;
    assert p[..|base|] == base && p[|base|..] == SplitExt(p).1;
    assert MarkCompressed(p) == p[..|base|] + Marker + p[|base|..];
    assert NoChar(Marker, '/');
    RFindInsert(p, |base|, Marker, '/');
  }

  /** In a marked path with an extension, the last dot is the extension's. */
  lemma MarkedDot(p: string)
    requires SplitExt(p).1 != []
    ensures RFind(MarkCompressed(p), '.') == |SplitExt(p).0| + |Marker|
  {
    var base := SplitExt(p).0;
    var ext := SplitExt(p).1;
    var q := MarkCompressed(p);
    var qd := |base| + |Marker|;
    assert q[qd..] == ext;
    forall k | qd < k < |q|
      ensures q[k] != '.'
    {
      assert q[k] == ext[k - qd];
    }
    assert q[qd] == '.';
    RFindUnique(q, '.', qd);
  }

  lemma MarkAtEnd(p: string)
    requires SplitExt(p).1 == []
    ensures SplitExt(MarkCompressed(p)) == (p + Marker, [])
  {
    var q := MarkCompressed(p);
    assert q == p + Marker;
    assert NoChar(Marker, '/') && NoChar(Marker, '.');
    assert p[..|p|] + Marker + p[|p|..] == q;
    RFindInsert(p, |p|, Marker, '/');
    RFindInsert(p, |p|, Marker, '.');
    forall k | RFind(q, '/') < k < RFind(q, '.')
      ensures q[k] == p[k]
    {
    }
    assert !(RFind(p, '.') > RFind(p, '/') && exists k :: RFind(p, '/') < k < RFind(p, '.') && p[k] != '.');
  }

  /** `s.rstrip('/')`. */
  function RStripSlashes(p: string): (r: string)
    ensures |r| <= |p| && r == p[..|r|] && (r == [] || r[|r| - 1] != '/')
    ensures forall k :: |r| <= k < |p| ==> p[k] == '/'
  {
    if p != [] && p[|p| - 1] == '/' then RStripSlashes(p[..|p| - 1]) else p
  }

  /** `os.path.dirname` (posixpath): everything up to the last slash, with
      trailing slashes removed unless it is all slashes. */
  function Dirname(p: string): string {
    var head := p[..RFind(p, '/') + 1];
    if head != [] && !NoCharBut(head, '/') then RStripSlashes(head) else head
  }

  /** Every character of `p` is `c`. */
  predicate NoCharBut(p: string, c: char) {
    forall k :: 0 <= k < |p| ==> p[k] == c
  }

  /** Marking a path does not move it to another directory. */
  lemma MarkKeepsDirectory(p: string)
    ensures Dirname(MarkCompressed(p)) == Dirname(p)
  {
    var (base, ext) := SplitExt(p);
    var q := MarkCompressed(p);
    assert p[..|base|] == base && p[|base|..] == ext;
    assert q == p[..|base|] + Marker + p[|base|..];
    assert NoChar(Marker, '/');
    if ext != [] {
      assert RFind(p, '/') < |base|;
    }
    RFindInsert(p, |base|, Marker, '/');
    var r := RFind(p, '/');
    assert q[..r + 1] == p[..r + 1];
  }

  /** `os.path.join(a, b)` (posixpath): an absolute `b` replaces `a`;
      otherwise a slash is added unless `a` is empty or already ends in one. */
  function Join(a: string, b: string): string {
    if |b| > 0 && b[0] == '/' then b
    else if a == [] || a[|a| - 1] == '/' then a + b
    else a + "/" + b
  }

  /** The directory `extract_all_files` creates before writing a file is the
      one it joined the file's name onto. */
  lemma DirnameOfJoin(a: string, b: string)
    requires a != [] && a[|a| - 1] != '/' && b != [] && NoChar(b, '/')
    ensures Dirname(Join(a, b)) == a
  {
    var p := Join(a, b);
    assert p == a + "/" + b;
    RFindUnique(p, '/', |a|);
    assert p[..|a| + 1] == a + "/";
    assert !NoCharBut(a + "/", '/') by {
      assert (a + "/")[|a| - 1] != '/';
    }
    assert RStripSlashes(a + "/") == RStripSlashes(a) == a;
  }

  /** The number of slashes `p` starts with. */
  function LeadingSlashes(p: string): (n: nat)
    ensures n <= |p| && (n < |p| ==> p[n] != '/')
    ensures forall k :: 0 <= k < n ==> p[k] == '/'
    decreases |p|
  {
    if p != [] && p[0] == '/' then
      var n := LeadingSlashes(p[1..]);
      assert forall k :: 0 < k < n + 1 ==> p[k] == p[1..][k - 1];
      n + 1
    else 0
  }

  /** `path.strip('/')`: what lies between the leading and the trailing
      slashes. */
  function StripSlashes(p: string): (r: string)
    ensures |r| <= |p|
    ensures r == [] || (r[0] != '/' && r[|r| - 1] != '/')
    ensures LeadingSlashes(p) + |r| <= |p| && r == p[LeadingSlashes(p)..LeadingSlashes(p) + |r|]
    ensures forall k :: LeadingSlashes(p) + |r| <= k < |p| ==> p[k] == '/'
    decreases |p|
  {
    if p != [] && p[0] == '/' then
      var r := StripSlashes(p[1..]);
      var n := LeadingSlashes(p[1..]);
      assert LeadingSlashes(p) == n + 1;
      assert p[n + 1..n + 1 + |r|] == p[1..][n..n + |r|];
      assert forall k :: n + 1 + |r| <= k < |p| ==> p[k] == '/' by {
        forall k | n + 1 + |r| <= k < |p| ensures p[k] == '/' {
          assert p[k] == p[1..][k - 1];
        }
      }
      r
    else
      assert LeadingSlashes(p) == 0;
      var r := RStripSlashes(p);
      assert r == p[0..|r|];
      r
  }

  // ---------------------------------------------------------------------------
  // extract_all_files
  // ---------------------------------------------------------------------------

  /** What extraction does to the file system, in order. */
  datatype Action = MakeDir(path: string) | WriteFile(path: string, data: seq<byte>)

  /** Every parent of a file entry names a folder that has a path. */
  predicate PathsCover(files: seq<FileEntry>, paths: map<nat, string>) {
    forall i :: 0 <= i < |files| ==> files[i].parent >= 0 ==> files[i].parent in paths
  }

  /** The unmarked destination of an entry: under its folder's directory, or
      directly in the output directory when its parent is negative. */
  function OutputPath(outDir: string, paths: map<nat, string>, e: FileEntry): string
    requires e.parent >= 0 ==> e.parent in paths
  {
    if e.parent >= 0 then Join(Join(outDir, StripSlashes(paths[e.parent])), e.name)
    else Join(outDir, e.name)
  }

  /** The writes for one entry: none when `extract_file` gave nothing (or
      nothing but an empty byte string), otherwise its directory and the
      file, at the marked path when the entry is flagged. */
  function FileActions(s: seq<byte>, outDir: string, paths: map<nat, string>, e: FileEntry): seq<Action>
    requires e.parent >= 0 ==> e.parent in paths
  {
    var x := ExtractFile(s, e);
    if x.data.None? || x.data.value == [] then []
    else
      var path := OutputPath(outDir, paths, e);
      var target := if x.flagged then MarkCompressed(path) else path;
      [MakeDir(Dirname(target)), WriteFile(target, x.data.value)]
  }

  /** A written entry lands in the directory of its unmarked destination, and
      a flagged one keeps its extension after the marker. */
  lemma FileActionsPlace(s: seq<byte>, outDir: string, paths: map<nat, string>, e: FileEntry)
    requires e.parent >= 0 ==> e.parent in paths
    ensures FileActions(s, outDir, paths, e) != [] <==> ExtractFile(s, e).data.Some? && ExtractFile(s, e).data.value != []
    ensures FileActions(s, outDir, paths, e) != [] ==>
      var target := FileActions(s, outDir, paths, e)[1].path;
      && FileActions(s, outDir, paths, e)[0] == MakeDir(Dirname(OutputPath(outDir, paths, e)))
      && Dirname(target) == Dirname(OutputPath(outDir, paths, e))
      && SplitExt(target).1 == SplitExt(OutputPath(outDir, paths, e)).1
      && (ExtractFile(s, e).flagged <==> target != OutputPath(outDir, paths, e))
  {
    var path := OutputPath(outDir, paths, e);
    MarkKeepsDirectory(path);
    MarkKeepsExtension(path);
    assert |MarkCompressed(path)| > |path|;
  }

  /** The directory creations: the output directory, then one per folder. */
  function FolderDirs(outDir: string, paths: map<nat, string>, n: nat): (r: seq<Action>)
    requires forall i :: 0 <= i < n ==> i in paths
    ensures |r| == n + 1
    ensures r[0] == MakeDir(outDir)
    ensures forall i :: 0 <= i < n ==> r[i + 1] == MakeDir(Join(outDir, StripSlashes(paths[i])))
  {
    if n == 0 then [MakeDir(outDir)]
    else FolderDirs(outDir, paths, n - 1) + [MakeDir(Join(outDir, StripSlashes(paths[n - 1])))]
  }

  /** A file lands in a directory the folder loop created: the output
      directory itself when its parent is negative, its folder's directory
      otherwise (for a plain file name and an output directory written
      without a trailing slash). */
  lemma OutputPathInFolder(outDir: string, paths: map<nat, string>, e: FileEntry, n: nat)
    requires forall i :: 0 <= i < n ==> i in paths
    requires e.parent < n
    requires outDir != [] && outDir[|outDir| - 1] != '/' && e.name != [] && NoChar(e.name, '/')
    ensures e.parent < 0 ==> Dirname(OutputPath(outDir, paths, e)) == FolderDirs(outDir, paths, n)[0].path
    ensures e.parent >= 0 && StripSlashes(paths[e.parent]) != [] ==>
      Dirname(OutputPath(outDir, paths, e)) == FolderDirs(outDir, paths, n)[e.parent + 1].path
  {
    if e.parent < 0 {
      DirnameOfJoin(outDir, e.name);
    } else if StripSlashes(paths[e.parent]) != [] {
      var dir := Join(outDir, StripSlashes(paths[e.parent]));
      assert dir == outDir + "/" + StripSlashes(paths[e.parent]);
      DirnameOfJoin(dir, e.name);
    }
  }

  /** The writes for the first `n` file entries, in order. */
  function FilesActions(s: seq<byte>, outDir: string, paths: map<nat, string>, files: seq<FileEntry>, n: nat): seq<Action>
    requires n <= |files| && PathsCover(files, paths)
    decreases n, 1
  {
    if n == 0 then [] else FilesThen(s, outDir, paths, files, n)
  }

  /** The writes for the first `n - 1` entries, then entry `n - 1`'s. */
  function FilesThen(s: seq<byte>, outDir: string, paths: map<nat, string>, files: seq<FileEntry>, n: nat): seq<Action>
    requires 0 < n <= |files| && PathsCover(files, paths)
    decreases n, 0
  {
    FilesActions(s, outDir, paths, files, n - 1) + FileActions(s, outDir, paths, files[n - 1])
  }

  /** The file loop's next iteration appends that file's actions. */
  lemma FilesActionsStep(s: seq<byte>, outDir: string, paths: map<nat, string>, files: seq<FileEntry>, n: nat)
    requires n < |files| && PathsCover(files, paths)
    ensures FilesActions(s, outDir, paths, files, n + 1) == FilesActions(s, outDir, paths, files, n) + FileActions(s, outDir, paths, files[n])
  {
    assert FilesActions(s, outDir, paths, files, n + 1) == FilesThen(s, outDir, paths, files, n + 1);
  }

  predicate FileParentsOk(files: seq<FileEntry>, numFolders: nat) {
    forall i :: 0 <= i < |files| ==> ParentOk(files[i].parent, numFolders)
  }

  /** `extract_all_files(output_dir)`: the folder paths (a parent cycle
      aborts it), the directories, then each file in directory order. */
  function ExtractPlan(s: seq<byte>, files: seq<FileEntry>, folders: seq<FolderEntry>, outDir: string): (r: Result<seq<Action>, PathError>)
    requires ParentsOk(folders) && FileParentsOk(files, |folders|)
    ensures r.Success? <==> AllPaths(folders).Success?
  {
    var paths :- AllPaths(folders);
    assert PathsCover(files, paths);
    Success(FolderDirs(outDir, paths, |folders|) + FilesActions(s, outDir, paths, files, |files|))
  }

  // ---------------------------------------------------------------------------
  // Worked paths
  // ---------------------------------------------------------------------------

  /** The marker goes before the extension. */
  lemma MarkedTexture(p: string)
    requires p == "out/tex/wall.dtx"
    ensures MarkCompressed(p) == "out/tex/wall[Compressed].dtx"
  {
    RFindUnique(p, '/', 7);
    RFindUnique(p, '.', 12);
    assert p[8] != '.';
    assert SplitExt(p) == (p[..12], p[12..]);
    assert p[..12] == "out/tex/wall" && p[12..] == ".dtx";
    assert "out/tex/wall" + Marker + ".dtx" == "out/tex/wall[Compressed].dtx";
  }

  /** A name that only starts with a dot has no extension: the marker goes at
      the end. */
  lemma MarkedDotName(p: string)
    requires p == "out/.cfg"
    ensures MarkCompressed(p) == "out/.cfg[Compressed]"
  {
    RFindUnique(p, '/', 3);
    RFindUnique(p, '.', 4);
  }
}
