/** The part of the operating system's file namespace the transfer engine uses:
    exclusive create, append, stat, open for reading and remove, on a flat
    namespace of regular files addressed by path. */
module FileSystem {

  newtype byte = x: int | 0 <= x < 256

  type Bytes = seq<byte>

  /** File sizes are int64 byte counts. */
  const MaxFileSize: int := 0x7fff_ffff_ffff_ffff

  /** Kinds of failure of a file-system call; the OS error text is abstracted to its kind. */
  datatype FsError = AlreadyExists | NotFound | PermissionDenied

  datatype Result<T> = Ok(value: T) | Err(error: FsError)

  /** files: the regular files and their contents, by path.
      denied: paths the process may neither create nor open (no permission,
      missing parent directory). */
  datatype Fs = Fs(files: map<string, Bytes>, denied: set<string>) {

    /** No file has the empty name, and every size fits an int64. */
    ghost predicate Valid() {
      && "" !in files
      && forall n :: n in files ==> |files[n]| <= MaxFileSize
    }
  }

  /** os.OpenFile(name, O_CREATE|O_EXCL|O_WRONLY): creates an empty file, or fails. */
  function CreateExcl(fs: Fs, name: string): (r: Result<Fs>)
  {
    if name == "" then Err(NotFound)
    else if name in fs.files then Err(AlreadyExists)
    else if name in fs.denied then Err(PermissionDenied)
    else Ok(fs.(files := fs.files[name := []]))
  }

  /** os.Stat(name).Size() */
  function StatFile(fs: Fs, name: string): (r: Result<nat>)
  {
    if name in fs.files then Ok(|fs.files[name]|) else Err(NotFound)
  }

  /** os.Open(name) followed by reading the whole file. */
  function ReadFile(fs: Fs, name: string): (r: Result<Bytes>)
  {
    if name !in fs.files then Err(NotFound)
    else if name in fs.denied then Err(PermissionDenied)
    else Ok(fs.files[name])
  }

  /** os.Remove(name) */
  function RemoveFile(fs: Fs, name: string): (r: Fs)
  {
    fs.(files := fs.files - {name})
  }

  /** Giving a file of the namespace new contents that fit an int64 size keeps it valid. */
  lemma WriteKeepsValid(fs: Fs, name: string, content: Bytes)
    requires fs.Valid() && name != "" && |content| <= MaxFileSize
    ensures fs.(files := fs.files[name := content]).Valid()
  {
  }

  /** Removing a file keeps the namespace valid. */
  lemma RemoveKeepsValid(fs: Fs, name: string)
    requires fs.Valid()
    ensures RemoveFile(fs, name).Valid()
  {
  }

  /** Creating a file that was absent and removing it again restores the namespace. */
  lemma RemoveFresh(fs: Fs, name: string, content: Bytes)
    requires name !in fs.files
    ensures RemoveFile(fs.(files := fs.files[name := content]), name) == fs
  {
    assert fs.files[name := content] - {name} == fs.files;
  }

  /** The file system itself, which the handlers change in place. */
  class Disk {
    var fs: Fs

    constructor (fs: Fs)
      ensures this.fs == fs
    {
      this.fs := fs;
    }

    method OpenExclusive(name: string) returns (created: bool, err: FsError)
      modifies this
      ensures created == CreateExcl(old(fs), name).Ok?
      ensures created ==> fs == CreateExcl(old(fs), name).value
      ensures !created ==> fs == old(fs) && err == CreateExcl(old(fs), name).error
    {
      var r := CreateExcl(fs, name);
      if r.Ok? {
        created, err := true, NotFound;
        fs := r.value;
      } else {
        created, err := false, r.error;
      }
    }

    /** One byte written through an open file at its end. */
    method Write(name: string, b: byte)
      requires name in fs.files
      modifies this
      ensures fs == old(fs).(files := old(fs).files[name := old(fs).files[name] + [b]])
    {
      fs := fs.(files := fs.files[name := fs.files[name] + [b]]);
    }

    method Stat(name: string) returns (r: Result<nat>)
      ensures r == StatFile(fs, name)
    {
      r := StatFile(fs, name);
    }

    method Open(name: string) returns (r: Result<Bytes>)
      ensures r == ReadFile(fs, name)
    {
      r := ReadFile(fs, name);
    }

    method Remove(name: string)
      modifies this
      ensures fs == RemoveFile(old(fs), name)
    {
      fs := RemoveFile(fs, name);
    }
  }
}
