/** `DSPackFile`: the reader object that holds an open archive and fills its
    fields step by step (`read_header`, `read_names_directory`,
    `read_file_entries`, `read_folder_entries`), then builds the folder paths
    and extracts.  The archive's bytes stand for the open file; each method
    is proved against the reference functions of DsPackFormat, FolderPaths
    and DsPackExtract. */
module DsPack {
  import opened Results
  import opened Bytes
  import opened MiniPack
  import opened DsPackFormat
  import opened FolderPaths
  import opened DsPackExtract

  /** Why `analyze` stops: a malformed directory, or a parent cycle among the
      folders (on which the source's recursion never returns). */
  datatype ArchiveError = Malformed(error: DsError) | FolderCycle

  /** Everything `analyze` reads from an archive. */
  datatype Archive = Archive(
    header: Header, names: seq<byte>,
    files: seq<FileEntry>, folders: seq<FolderEntry>, paths: map<nat, string>)

  /** What `analyze` reads: header, names, file directory, folder directory
      and folder paths, in that order, stopping at the first error. */
  function ReadArchive(s: seq<byte>): (r: Result<Archive, ArchiveError>)
    ensures r.Success? ==> ParentsOk(r.value.folders) && FileParentsOk(r.value.files, |r.value.folders|)
    ensures r.Success? ==> |r.value.files| == r.value.header.numFiles && |r.value.folders| == r.value.header.numFolders
    ensures r.Success? ==> forall i :: 0 <= i < |r.value.files| ==> WellFormedFile(r.value.files[i], |s|, |r.value.folders|)
    ensures r.Success? ==> r.value.paths.Keys == Below(|r.value.folders|)
    ensures r.Success? ==> forall i :: 0 <= i < |r.value.folders| ==> PathOf(r.value.folders, i) == Some(r.value.paths[i])
  {
    match ParseHeader(s)
    case Failure(e) => Failure(Malformed(e))
    case Success(h) =>
      var names := NamesData(s, h);
      match Files(s, h, names, h.numFiles)
      case Failure(e) => Failure(Malformed(e))
      case Success(files) =>
        FilesWellFormed(s, h, names, files);
        match Folders(s, h, names, h.numFolders)
        case Failure(e) => Failure(Malformed(e))
        case Success(folders) =>
          FoldersParentsOk(s, h, names, folders);
          match AllPaths(folders)
          case Failure(_) => Failure(FolderCycle)
          case Success(paths) => Success(Archive(h, names, files, folders, paths))
  }

  /** Every file record read from the directory is well formed. */
  lemma FilesWellFormed(s: seq<byte>, h: Header, names: seq<byte>, files: seq<FileEntry>)
    requires Files(s, h, names, h.numFiles) == Success(files)
    ensures forall i :: 0 <= i < |files| ==> WellFormedFile(files[i], |s|, h.numFolders)
    ensures FileParentsOk(files, h.numFolders)
  {
    forall i | 0 <= i < |files|
      ensures WellFormedFile(files[i], |s|, h.numFolders)
    {
      assert FileRecord(s, h, names, i) == Success(files[i]);
    }
  }

  /** Every folder record read from the directory names a folder (or -1)
      as its parent. */
  lemma FoldersParentsOk(s: seq<byte>, h: Header, names: seq<byte>, folders: seq<FolderEntry>)
    requires Folders(s, h, names, h.numFolders) == Success(folders)
    ensures ParentsOk(folders)
  {
    forall j | 0 <= j < |folders|
      ensures ParentOk(folders[j].parent, |folders|)
    {
      assert FolderRecord(s, h, names, j) == Success(folders[j]);
    }
  }

  /** Every entry of an archive that reads successfully, and only those with
      a non-zero stored size, ends up written by `extract_all_files`. */
  lemma WrittenEntries(s: seq<byte>, outDir: string, i: nat)
    requires ReadArchive(s).Success? && i < |ReadArchive(s).value.files|
    ensures
      var a := ReadArchive(s).value;
      FileActions(s, outDir, a.paths, a.files[i]) != [] <==> a.files[i].compressedSize != 0
  {
    var a := ReadArchive(s).value;
    ExtractedNonEmpty(s, a.files[i], |a.folders|);
    FileActionsPlace(s, outDir, a.paths, a.files[i]);
  }

  /** The header fields before `read_header` has run. */
  const NoHeader: Header := Header(false, 0, 0, 0, 0, 0, 0, 0, 0)

  class DsPackFile {
    /** The open archive; its length is `file_size`. */
    const contents: seq<byte>
    var header: Header
    var namesData: seq<byte>
    var files: seq<FileEntry>
    var folders: seq<FolderEntry>

    /** `__init__` followed by `__enter__`: the archive is open, nothing read. */
    constructor(contents: seq<byte>)
      ensures this.contents == contents && header == NoHeader
      ensures namesData == [] && files == [] && folders == []
    {
      this.contents := contents;
      header := NoHeader;
      namesData := [];
      files := [];
      folders := [];
    }

    /** `read_header`. */
    method ReadHeader() returns (r: Result<(), DsError>)
      modifies this
      ensures r.Success? <==> ParseHeader(contents).Success?
      ensures r.Failure? ==> r.error == ParseHeader(contents).error && header == old(header)
      ensures r.Success? ==> header == ParseHeader(contents).value
      ensures namesData == old(namesData) && files == old(files) && folders == old(folders)
    {
      var h := ParseHeader(contents);
      if h.Failure? {
        return Failure(h.error);
      }
      header := h.value;
      r := Success(());
    }

    /** `read_names_directory`. */
    method ReadNamesDirectory()
      modifies this
      ensures namesData == NamesData(contents, header)
      ensures header == old(header) && files == old(files) && folders == old(folders)
    {
      namesData := ReadAt(contents, header.namesDirOffset, header.namesDirLength);
    }

    /** `read_string_at_offset`: scan for the terminating NUL (or the end of
        the names), then decode as ASCII. */
    method ReadStringAtOffset(offset: nat) returns (r: Option<string>)
      ensures r == NameAt(namesData, offset)
    {
      if offset >= |namesData| {
        return None;
      }
      var end := offset;
      while end < |namesData| && namesData[end] != 0
        invariant offset <= end <= |namesData|
        invariant forall k :: offset <= k < end ==> namesData[k] != 0
        decreases |namesData| - end
      {
        end := end + 1;
      }
      assert end == NulFrom(namesData, offset);
      var bytes := namesData[offset..end];
      if IsAscii(bytes) {
        r := Some(AsciiText(bytes));
      } else {
        r := None;
      }
    }

    /** One iteration of `read_file_entries`: record `i`. */
    method ReadFileEntry(i: nat) returns (r: Result<FileEntry, DsError>)
      ensures r == FileRecord(contents, header, namesData, i)
    {
      var pos := header.fileDirOffset + RecordSize * i;
      var order := header.Order();
      var nameOffset :- OffsetAt(contents, pos, order);
      var parent :- SignedAt(contents, pos + 4, order);
      var decompressedSize :- FieldAt(contents, pos + 8, order);
      var compressedSize :- CompressedLengthAt(contents, pos + 12, order);
      var unknown :- FieldAt(contents, pos + 16, order);
      var dataOffset :- OffsetAt(contents, pos + 20, order);
      var _ :- CheckParent(parent, header.numFolders);
      var found := ReadStringAtOffset(nameOffset);
      var name :- CheckName(found);
      r := Success(FileEntry(name, parent, decompressedSize, compressedSize, unknown, dataOffset));
    }

    /** One iteration of `read_folder_entries`: record `i`. */
    method ReadFolderEntry(i: nat) returns (r: Result<FolderEntry, DsError>)
      ensures r == FolderRecord(contents, header, namesData, i)
    {
      var pos := header.folderDirOffset + RecordSize * i;
      var order := header.Order();
      var nameOffset :- OffsetAt(contents, pos, order);
      var parent :- SignedAt(contents, pos + 4, order);
      var lastSubfolder :- SignedAt(contents, pos + 8, order);
      var firstSubfolder :- SignedAt(contents, pos + 12, order);
      var firstFile :- SignedAt(contents, pos + 16, order);
      var lastFile :- SignedAt(contents, pos + 20, order);
      var _ :- CheckParent(parent, header.numFolders);
      var _ :- CheckFileRef(firstFile, header.numFiles, InvalidFirstFile);
      var _ :- CheckFileRef(lastFile, header.numFiles, InvalidLastFile);
      var found := ReadStringAtOffset(nameOffset);
      var name :- CheckName(found);
      r := Success(FolderEntry(name, parent, lastSubfolder, firstSubfolder, firstFile, lastFile));
    }

    /** `read_file_entries`: `files` is restarted and receives the records in
        order; when one fails, it keeps those before it. */
    method ReadFileEntries() returns (r: Result<(), DsError>)
      modifies this
      ensures r.Success? <==> Files(contents, header, namesData, header.numFiles).Success?
      ensures r.Success? ==> files == Files(contents, header, namesData, header.numFiles).value
      ensures r.Failure? ==> r.error == Files(contents, header, namesData, header.numFiles).error
      ensures r.Failure? ==>
        && Files(contents, header, namesData, |files|) == Success(files)
        && FileRecord(contents, header, namesData, |files|) == Failure(r.error)
      ensures header == old(header) && namesData == old(namesData) && folders == old(folders)
    {
      var s, h, names := contents, header, namesData;
      files := [];
      for i := 0 to h.numFiles
        invariant header == h && namesData == names && folders == old(folders)
        invariant Files(s, h, names, i) == Success(files)
      {
        var entry := ReadFileEntry(i);
        if entry.Failure? {
          FilesStop(s, h, names, i, h.numFiles);
          return Failure(entry.error);
        }
        FilesStep(s, h, names, i, files, entry.value);
        files := files + [entry.value];
      }
      r := Success(());
    }

    /** `read_folder_entries`, in the same way. */
    method ReadFolderEntries() returns (r: Result<(), DsError>)
      modifies this
      ensures r.Success? <==> Folders(contents, header, namesData, header.numFolders).Success?
      ensures r.Success? ==> folders == Folders(contents, header, namesData, header.numFolders).value
      ensures r.Failure? ==> r.error == Folders(contents, header, namesData, header.numFolders).error
      ensures r.Failure? ==>
        && Folders(contents, header, namesData, |folders|) == Success(folders)
        && FolderRecord(contents, header, namesData, |folders|) == Failure(r.error)
      ensures header == old(header) && namesData == old(namesData) && files == old(files)
    {
      var s, h, names := contents, header, namesData;
      folders := [];
      for i := 0 to h.numFolders
        invariant header == h && namesData == names && files == old(files)
        invariant Folders(s, h, names, i) == Success(folders)
      {
        var entry := ReadFolderEntry(i);
        if entry.Failure? {
          FoldersStop(s, h, names, i, h.numFolders);
          return Failure(entry.error);
        }
        FoldersStep(s, h, names, i, folders, entry.value);
        folders := folders + [entry.value];
      }
      r := Success(());
    }

    /** Every memoised path is the folder's path. */
    ghost predicate MemoOk(memo: map<nat, string>)
      reads this
    {
      && ParentsOk(folders)
      && forall k :: k in memo ==> k < |folders| && PathOf(folders, k) == Some(memo[k])
    }

    /** `get_folder_path(index)` with the memo `folder_paths`, allowed `fuel`
        nested calls; it gives up (None) only where the parent chain does not
        reach a root within that many steps. */
    method GetFolderPath(index: nat, memo: map<nat, string>, fuel: nat) returns (path: Option<string>, memo': map<nat, string>)
      requires ParentsOk(folders) && index < |folders| && MemoOk(memo)
      ensures MemoOk(memo') && memo.Keys <= memo'.Keys
      ensures path.Some? ==> PathOf(folders, index) == path && index in memo' && memo'[index] == path.value
      ensures path.None? ==> PathWithin(folders, index, fuel).None?
      decreases fuel
    {
      if index in memo {
        return Some(memo[index]), memo;
      }
      var folder := folders[index];
      var p: string;
      memo' := memo;
      if folder.parent == -1 {
        RootPath(folders, index);
        p := folder.name;
      } else if fuel == 0 {
        return None, memo;
      } else {
        var parentPath;
        parentPath, memo' := GetFolderPath(folder.parent, memo, fuel - 1);
        if parentPath.None? {
          return None, memo';
        }
        ChildPath(folders, index);
        p := parentPath.value + "/" + folder.name;
      }
      memo' := memo'[index := p];
      path := Some(p);
    }

    /** `build_folder_paths`. */
    method BuildFolderPaths() returns (r: Result<map<nat, string>, PathError>)
      requires ParentsOk(folders)
      ensures r == AllPaths(folders)
    {
      var memo: map<nat, string> := map[];
      for i := 0 to |folders|
        invariant MemoOk(memo)
        invariant forall k :: 0 <= k < i ==> k in memo
      {
        var p;
        p, memo := GetFolderPath(i, memo, |folders|);
        if p.None? {
          AllPathsFail(folders, i);
          return Failure(Cycle);
        }
        memo := memo[i := p.value];
      }
      AllPathsOf(folders, memo);
      r := Success(memo);
    }

    /** The directories `extract_all_files` creates before any file: the
        output directory, then one per folder path. */
    method MakeFolderDirs(outDir: string, paths: map<nat, string>) returns (actions: seq<Action>)
      requires forall i :: 0 <= i < |folders| ==> i in paths
      ensures actions == FolderDirs(outDir, paths, |folders|)
    {
      actions := [MakeDir(outDir)];
      for i := 0 to |folders|
        invariant actions == FolderDirs(outDir, paths, i)
      {
        actions := actions + [MakeDir(Join(outDir, StripSlashes(paths[i])))];
      }
    }

    /** `extract_all_files(output_dir)`: the directories and writes it
        performs, in order. */
    method ExtractAllFiles(outDir: string) returns (r: Result<seq<Action>, PathError>)
      requires ParentsOk(folders) && FileParentsOk(files, |folders|)
      ensures r == ExtractPlan(contents, files, folders, outDir)
    {
      var built := BuildFolderPaths();
      if built.Failure? {
        return Failure(built.error);
      }
      var paths := built.value;
      assert PathsCover(files, paths);
      var dirs := MakeFolderDirs(outDir, paths);
      var written := ExtractFiles(contents, files, outDir, paths);
      r := Success(dirs + written);
    }

    /** `analyze`: read the four directory structures, then build the folder
        paths. */
    method Analyze() returns (r: Result<map<nat, string>, ArchiveError>)
      modifies this
      ensures r.Success? <==> ReadArchive(contents).Success?
      ensures r.Failure? ==> r.error == ReadArchive(contents).error
      ensures r.Success? ==>
        var a := ReadArchive(contents).value;
        && header == a.header && namesData == a.names && files == a.files && folders == a.folders
        && r.value == a.paths
    {
      var h := ReadHeader();
      if h.Failure? {
        return Failure(Malformed(h.error));
      }
      ReadNamesDirectory();
      var f := ReadFileEntries();
      if f.Failure? {
        return Failure(Malformed(f.error));
      }
      var g := ReadFolderEntries();
      if g.Failure? {
        return Failure(Malformed(g.error));
      }
      var fs := Folders(contents, header, namesData, header.numFolders).value;
      assert forall i :: 0 <= i < |fs| ==> FolderRecord(contents, header, namesData, i) == Success(fs[i]);
      var paths := BuildFolderPaths();
      if paths.Failure? {
        return Failure(FolderCycle);
      }
      r := Success(paths.value);
    }
  }

  // ---------------------------------------------------------------------------
  // Extraction: these steps read only the archive's bytes
  // ---------------------------------------------------------------------------

  /** `extract_file`, running the decompressor on the stored bytes when
      they are shorter than the announced size. */
  method ExtractFileFrom(contents: seq<byte>, e: FileEntry) returns (r: Extracted)
    ensures r == ExtractFile(contents, e)
  {
    if e.compressedSize == 0 {
      return Extracted(None, false);
    }
    var compressed := ReadAt(contents, e.dataOffset, e.compressedSize);
    if e.compressedSize == e.decompressedSize {
      return Extracted(Some(compressed), false);
    }
    if |compressed| >= e.decompressedSize {
      return Extracted(Some(compressed), true);
    }
    var decompressor := new MiniPackDecompressor();
    var data := decompressor.Decompress(compressed, e.decompressedSize);
    if data.Success? {
      r := Extracted(Some(data.value), false);
    } else {
      r := Extracted(Some(compressed), true);
    }
  }

  /** One iteration of `extract_all_files`' file loop: the destination,
      `extract_file`, and the directory and file written when it gave
      data. */
  method ExtractEntry(contents: seq<byte>, outDir: string, paths: map<nat, string>, entry: FileEntry) returns (written: seq<Action>)
    requires entry.parent >= 0 ==> entry.parent in paths
    ensures written == FileActions(contents, outDir, paths, entry)
  {
    var outputPath := OutputPath(outDir, paths, entry);
    var x := ExtractFileFrom(contents, entry);
    written := [];
    if x.data.Some? && x.data.value != [] {
      var target := if x.flagged then MarkCompressed(outputPath) else outputPath;
      written := [MakeDir(Dirname(target)), WriteFile(target, x.data.value)];
    }
  }

  /** The file loop of `extract_all_files`. */
  method ExtractFiles(contents: seq<byte>, files: seq<FileEntry>, outDir: string, paths: map<nat, string>) returns (actions: seq<Action>)
    requires PathsCover(files, paths)
    ensures actions == FilesActions(contents, outDir, paths, files, |files|)
  {
    actions := [];
    for j := 0 to |files|
      invariant actions == FilesActions(contents, outDir, paths, files, j)
    {
      var written := ExtractEntry(contents, outDir, paths, files[j]);
      FilesActionsStep(contents, outDir, paths, files, j);
      actions := actions + written;
    }
  }
}
