/**
  The part of the operating system's file system the hooks use: regular files by path,
  directories, and open handles.  Failures (permissions, a full disk, I/O errors) are not
  computed; they are given up front as a `Faults` value that says which operation fails on
  which path.
*/
module FileSystem {
  import opened Wrappers
  import opened GoStrings

  newtype byte = b: int | 0 <= b < 256

  type Bytes = seq<byte>

  /** The `error` values the file operations return, with the path they concern. */
  datatype IoError =
    | MkdirFailed(path: string)
    | OpenFailed(path: string)
    | NotExist(path: string)
    | CopyFailed(path: string)
    | WriteFailed(path: string)
    | RemoveFailed(path: string)

  /** For each operation, the paths on which it fails. */
  datatype Faults = Faults(mkdir: set<string>, open: set<string>, copy: set<string>,
                           write: set<string>, remove: set<string>)

  /** An `*os.File`: a handle number and the name it was opened with (`File.Name`). */
  datatype Handle = Handle(id: nat, name: string)

  /**
    Whether `os.OpenFile(name, O_APPEND|O_CREATE|O_WRONLY, 0664)` succeeds: the name is not
    empty, its directory exists and no fault is injected.
  */
  predicate Openable(dirs: set<string>, faults: Faults, name: string) {
    name != "" && Dir(name) in dirs && name !in faults.open
  }

  /** The contents of `name`, or nothing when it does not exist. */
  function Contents(files: map<string, Bytes>, name: string): Bytes {
    if name in files then files[name] else []
  }

  class FileSystem {
    /** Regular files by path. */
    var files: map<string, Bytes>
    /** Directories that exist. */
    var dirs: set<string>
    /** Numbers of the handles not yet closed. */
    var open: set<nat>
    /** The number the next handle gets. */
    var nextId: nat
    const faults: Faults

    /** Handle numbers are issued in order, and every file lies in a directory that exists. */
    ghost predicate Valid()
      reads this
    {
      && (forall id :: id in open ==> id < nextId)
      && (forall f :: f in files ==> Dir(f) in dirs)
    }

    constructor (files0: map<string, Bytes>, dirs0: set<string>, faults0: Faults)
      requires forall f :: f in files0 ==> Dir(f) in dirs0
      ensures Valid()
      ensures files == files0 && dirs == dirs0 && faults == faults0
      ensures open == {} && nextId == 0
    {
      files := files0;
      dirs := dirs0;
      faults := faults0;
      open := {};
      nextId := 0;
    }

    /**
      `os.MkdirAll(dir, os.ModeDir|0755)`: fails exactly on the paths the `mkdir` faults name,
      and otherwise leaves the directory in place.  A fault on a directory that already exists
      stands for one that cannot be inspected.
    */
    method MkdirAll(dir: string) returns (err: Option<IoError>)
      requires Valid()
      modifies this
      ensures Valid()
      ensures err == (if dir in faults.mkdir then Some(MkdirFailed(dir)) else None)
      ensures dirs == (if err.None? then old(dirs) + {dir} else old(dirs))
      ensures files == old(files) && open == old(open) && nextId == old(nextId)
    {
      if dir in faults.mkdir {
        return Some(MkdirFailed(dir));
      }
      dirs := dirs + {dir};
      return None;
    }

    /**
      `os.OpenFile(name, O_APPEND|O_CREATE|O_WRONLY, 0664)`: creates the file empty when it is
      missing, never truncates it, and returns a new handle.
    */
    method OpenAppend(name: string) returns (h: Handle, err: Option<IoError>)
      requires Valid()
      modifies this
      ensures Valid()
      ensures err.None? <==> old(Openable(dirs, faults, name))
      ensures err.Some? ==> err == Some(OpenFailed(name)) && unchanged(this)
      ensures err.None? ==>
        && h == Handle(old(nextId), name) && h.id !in old(open)
        && open == old(open) + {h.id} && nextId == old(nextId) + 1
        && files == (if name in old(files) then old(files) else old(files)[name := []])
      ensures dirs == old(dirs)
    {
      h := Handle(nextId, name);
      if !Openable(dirs, faults, name) {
        return h, Some(OpenFailed(name));
      }
      if name !in files {
        files := files[name := []];
      }
      open := open + {nextId};
      nextId := nextId + 1;
      return h, None;
    }

    /** `os.Open(name)`: opens an existing file for reading. */
    method OpenRead(name: string) returns (h: Handle, err: Option<IoError>)
      requires Valid()
      modifies this
      ensures Valid()
      ensures err == (if name !in old(files) then Some(NotExist(name))
                      else if name in faults.open then Some(OpenFailed(name))
                      else None)
      ensures err.Some? ==> unchanged(this)
      ensures err.None? ==>
        && h == Handle(old(nextId), name) && h.id !in old(open)
        && open == old(open) + {h.id} && nextId == old(nextId) + 1
      ensures files == old(files) && dirs == old(dirs)
    {
      h := Handle(nextId, name);
      if name !in files {
        return h, Some(NotExist(name));
      }
      if name in faults.open {
        return h, Some(OpenFailed(name));
      }
      open := open + {nextId};
      nextId := nextId + 1;
      return h, None;
    }

    /** `File.Close`; its error is only ever logged by the callers, so none is returned. */
    method Close(h: Handle)
      requires Valid()
      modifies this
      ensures Valid()
      ensures open == old(open) - {h.id}
      ensures files == old(files) && dirs == old(dirs) && nextId == old(nextId)
    {
      open := open - {h.id};
    }

    /**
      `File.Write` on a handle opened for appending.  Bytes written to a handle whose file has
      been removed go to the unlinked file and are lost.
    */
    method Write(h: Handle, data: Bytes) returns (err: Option<IoError>)
      requires Valid()
      modifies this
      ensures Valid()
      ensures err == (if h.id !in open || h.name in faults.write then Some(WriteFailed(h.name)) else None)
      ensures files == (if err.None? && h.name in old(files)
                        then old(files)[h.name := old(files)[h.name] + data]
                        else old(files))
      ensures dirs == old(dirs) && open == old(open) && nextId == old(nextId)
    {
      if h.id !in open || h.name in faults.write {
        return Some(WriteFailed(h.name));
      }
      if h.name in files {
        files := files[h.name := files[h.name] + data];
      }
      return None;
    }

    /** Reads a handle to its end, as `io.Copy` does with its source. */
    method ReadAll(h: Handle) returns (data: Bytes, err: Option<IoError>)
      ensures err == (if h.id !in open || h.name in faults.copy then Some(CopyFailed(h.name)) else None)
      ensures err.None? ==> data == Contents(files, h.name)
    {
      if h.id !in open || h.name in faults.copy {
        return [], Some(CopyFailed(h.name));
      }
      return Contents(files, h.name), None;
    }

    /** `os.Remove(name)`. */
    method Remove(name: string) returns (err: Option<IoError>)
      requires Valid()
      modifies this
      ensures Valid()
      ensures err == (if name !in old(files) then Some(NotExist(name))
                      else if name in faults.remove then Some(RemoveFailed(name))
                      else None)
      ensures files == (if err.None? then old(files) - {name} else old(files))
      ensures dirs == old(dirs) && open == old(open) && nextId == old(nextId)
    {
      if name !in files {
        return Some(NotExist(name));
      }
      if name in faults.remove {
        return Some(RemoveFailed(name));
      }
      files := files - {name};
      return None;
    }
  }
}
