/**
  Archiving of a finished log file: gzip it into `<name>.gz`, then delete the original.
  The DEFLATE encoding itself is a parameter `compress`.
*/
module FileArchive {
  import opened Wrappers
  import opened GoStrings
  import opened FileSystem

  /** The suffix of gzip archives; also the key that selects gzip archiving. */
  const GzipSuffix: string := ".gz"

  /** The archive functions there are. */
  datatype ArchiveFunc = GzipArchiveAndDelete

  /** The registry from lower-case file-name extension to archive function. */
  const Archivers: map<string, ArchiveFunc> := map[GzipSuffix := GzipArchiveAndDelete]

  /** The files after an archive step, and the error it returned. */
  datatype Outcome = Outcome(files: map<string, Bytes>, err: Option<IoError>)

  /**
    The effect of `gzipArchive(fileName)`: open `fileName + ".gz"` for appending (creating it),
    open the original, copy it through the compressor, then flush and close the compressor
    with their errors ignored.
  */
  function GzipArchiveEffect(files: map<string, Bytes>, dirs: set<string>, faults: Faults,
                             fileName: string, compress: Bytes -> Bytes): (r: Outcome)
    ensures var gz := fileName + GzipSuffix;
      && (r.err.None? <==>
            Openable(dirs, faults, gz) && fileName in files
            && fileName !in faults.open && fileName !in faults.copy)
      // The archive is created before the original is opened, and stays even when that fails.
      && (Openable(dirs, faults, gz) ==> gz in r.files)
      && (!Openable(dirs, faults, gz) ==> r == Outcome(files, Some(OpenFailed(gz))))
      // The compressed bytes are appended to what the archive held; nothing is truncated.
      && (r.err.None? ==>
            r.files[gz] == Contents(files, gz) + (if gz in faults.write then [] else compress(files[fileName])))
      && (r.err.Some? && gz in r.files ==> r.files[gz] == Contents(files, gz))
      // No file other than the archive is touched; the original is left as it was.
      && (forall p :: p != gz ==> (p in r.files <==> p in files))
      && (forall p :: p != gz && p in files ==> r.files[p] == files[p])
  {
    var gz := fileName + GzipSuffix;
    assert fileName != gz by {
      assert |gz| == |fileName| + 3;
    }
    if !Openable(dirs, faults, gz) then Outcome(files, Some(OpenFailed(gz)))
    else
      var created := if gz in files then files else files[gz := []];
      if fileName !in created then Outcome(created, Some(NotExist(fileName)))
      else if fileName in faults.open then Outcome(created, Some(OpenFailed(fileName)))
      else if fileName in faults.copy then Outcome(created, Some(CopyFailed(fileName)))
      else if gz in faults.write then Outcome(created, None)
      else Outcome(created[gz := created[gz] + compress(created[fileName])], None)
  }

  /**
    The effect of `gzipArchiveAndDelete(fileName)`: archive, and remove the original only when
    archiving returned no error.
  */
  function GzipArchiveAndDeleteEffect(files: map<string, Bytes>, dirs: set<string>, faults: Faults,
                                      fileName: string, compress: Bytes -> Bytes): (r: Outcome)
    ensures var gz := fileName + GzipSuffix;
      var archived := GzipArchiveEffect(files, dirs, faults, fileName, compress);
      // The original is removed only after a successful archive.
      && (fileName in files && fileName !in r.files ==> archived.err.None?)
      && (archived.err.Some? ==> r == archived)
      && (archived.err.None? ==>
            r.err == (if fileName in faults.remove then Some(RemoveFailed(fileName)) else None))
      // On success the original is gone and its compressed bytes were appended to the archive.
      && (r.err.None? ==>
            && fileName !in r.files && gz in r.files
            && r.files[gz] == Contents(files, gz) + (if gz in faults.write then [] else compress(files[fileName])))
      && (forall p :: p != gz && p != fileName ==> (p in r.files <==> p in files))
      && (forall p :: p != gz && p != fileName && p in files ==> r.files[p] == files[p])
  {
    var archived := GzipArchiveEffect(files, dirs, faults, fileName, compress);
    if archived.err.Some? then archived
    else if fileName in faults.remove then Outcome(archived.files, Some(RemoveFailed(fileName)))
    else Outcome(archived.files - {fileName}, None)
  }

  /**
    A failed write to the archive during the final flush is ignored, so the original is deleted
    although its bytes never reached the archive.
  */
  lemma FlushFailureLosesOriginal(files: map<string, Bytes>, dirs: set<string>, faults: Faults,
                                  fileName: string, compress: Bytes -> Bytes)
    requires Openable(dirs, faults, fileName + GzipSuffix) && fileName in files
    requires fileName !in faults.open && fileName !in faults.copy && fileName !in faults.remove
    requires fileName + GzipSuffix in faults.write
    ensures var r := GzipArchiveAndDeleteEffect(files, dirs, faults, fileName, compress);
      && r.err.None? && fileName !in r.files
      && r.files[fileName + GzipSuffix] == Contents(files, fileName + GzipSuffix)
  {
  }

  /** `gzipArchive(fileName)` on the file system `fs`. */
  method GzipArchive(fs: FileSystem, fileName: string, compress: Bytes -> Bytes) returns (err: Option<IoError>)
    requires fs.Valid()
    modifies fs
    ensures fs.Valid()
    ensures var r := GzipArchiveEffect(old(fs.files), old(fs.dirs), fs.faults, fileName, compress);
      fs.files == r.files && err == r.err
    ensures fs.dirs == old(fs.dirs) && fs.open == old(fs.open)
  {
    var gzFileName := fileName + GzipSuffix;
    assert fileName != gzFileName by {
      assert |gzFileName| == |fileName| + 3;
    }
    var gzFile, openErr := fs.OpenAppend(gzFileName);
    if openErr.Some? {
      return openErr;
    }
    var oldFile, readErr := fs.OpenRead(fileName);
    if readErr.Some? {
      fs.Close(gzFile);
      return readErr;
    }
    var data, copyErr := fs.ReadAll(oldFile);
    if copyErr.Some? {
      fs.Close(oldFile);
      fs.Close(gzFile);
      return copyErr;
    }
    // Flush and Close of the gzip writer: their error is dropped.
    var _ := fs.Write(gzFile, compress(data));
    fs.Close(oldFile);
    fs.Close(gzFile);
    return None;
  }

  /** `gzipArchiveAndDelete(fileName)` on the file system `fs`. */
  method RunGzipArchiveAndDelete(fs: FileSystem, fileName: string, compress: Bytes -> Bytes)
    returns (err: Option<IoError>)
    requires fs.Valid()
    modifies fs
    ensures fs.Valid()
    ensures var r := GzipArchiveAndDeleteEffect(old(fs.files), old(fs.dirs), fs.faults, fileName, compress);
      fs.files == r.files && err == r.err
    ensures fs.dirs == old(fs.dirs) && fs.open == old(fs.open)
  {
    err := GzipArchive(fs, fileName, compress);
    if err.Some? {
      return err;
    }
    err := fs.Remove(fileName);
  }

  /** Runs the archive function `f` on `fileName`. */
  method Run(f: ArchiveFunc, fs: FileSystem, fileName: string, compress: Bytes -> Bytes)
    returns (err: Option<IoError>)
    requires fs.Valid()
    modifies fs
    ensures fs.Valid()
    ensures var r := GzipArchiveAndDeleteEffect(old(fs.files), old(fs.dirs), fs.faults, fileName, compress);
      fs.files == r.files && err == r.err
    ensures fs.dirs == old(fs.dirs) && fs.open == old(fs.open)
  {
    match f
    case GzipArchiveAndDelete =>
      err := RunGzipArchiveAndDelete(fs, fileName, compress);
  }
}
