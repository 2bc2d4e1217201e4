/** The slice of the local file system the program touches through `File` and
    `Directory`: which files exist (with their bytes), which directories
    exist, and which paths the current user cannot delete or create. */
module Files {
  import opened Optional

  type Bytes = seq<bv8>

  datatype FileSystem = FileSystem(
    files: map<string, Bytes>,
    dirs: set<string>,
    undeletable: set<string>,  // File.Delete on these throws
    uncreatable: set<string>)  // Directory.CreateDirectory / new FileStream on these throw

  predicate FileExists(fs: FileSystem, path: string) {
    path in fs.files
  }

  predicate DirExists(fs: FileSystem, path: string) {
    path in fs.dirs
  }

  /** `Directory.CreateDirectory(path)`: nothing to do when it exists, an
      exception (None) when a file of that name exists or the directory
      cannot be created. */
  function CreateDirectory(fs: FileSystem, path: string): (r: Option<FileSystem>)
    ensures r.None? <==> path !in fs.dirs && (path in fs.files || path in fs.uncreatable)
    ensures r.Some? ==> r.value.dirs == fs.dirs + {path} && r.value.files == fs.files
    ensures r.Some? ==> r.value.undeletable == fs.undeletable && r.value.uncreatable == fs.uncreatable
  {
    if path in fs.dirs then Some(fs)
    else if path in fs.files || path in fs.uncreatable then None
    else Some(fs.(dirs := fs.dirs + {path}))
  }

  /** `new FileStream(path, FileMode.Create)` followed by copying `content` into
      it: an exception (None) when the path is a directory or not creatable. */
  function CreateFile(fs: FileSystem, path: string, content: Bytes): (r: Option<FileSystem>)
    ensures r.None? <==> path in fs.dirs || path in fs.uncreatable
    ensures r.Some? ==> r.value.files == fs.files[path := content] && r.value.dirs == fs.dirs
    ensures r.Some? ==> r.value.undeletable == fs.undeletable && r.value.uncreatable == fs.uncreatable
  {
    if path in fs.dirs || path in fs.uncreatable then None
    else Some(fs.(files := fs.files[path := content]))
  }

  /** `File.Delete(path)` on an existing file: an exception (None) when the
      file cannot be deleted. */
  function DeleteFile(fs: FileSystem, path: string): (r: Option<FileSystem>)
    ensures r.None? <==> path in fs.undeletable
    ensures r.Some? ==> r.value.files == fs.files - {path} && r.value.dirs == fs.dirs
    ensures r.Some? ==> r.value.undeletable == fs.undeletable && r.value.uncreatable == fs.uncreatable
  {
    if path in fs.undeletable then None
    else Some(fs.(files := fs.files - {path}))
  }

  /** Creating a directory that is already there changes nothing, so
      creating it twice is the same as creating it once. */
  lemma CreateDirectoryIdempotent(fs: FileSystem, path: string)
    requires CreateDirectory(fs, path).Some?
    ensures CreateDirectory(CreateDirectory(fs, path).value, path) == CreateDirectory(fs, path)
  {
  }

  /** `FileMode.Create` truncates: writing a file twice leaves what a single
      write of the second content leaves. */
  lemma CreateFileOverwrites(fs: FileSystem, path: string, c1: Bytes, c2: Bytes)
    requires CreateFile(fs, path, c1).Some?
    ensures CreateFile(CreateFile(fs, path, c1).value, path, c2) == CreateFile(fs, path, c2)
  {
    assert fs.files[path := c1][path := c2] == fs.files[path := c2];
  }

  /** Creating a file that did not exist and deleting it again gives back
      the file system as it was. */
  lemma CreateThenDeleteRestores(fs: FileSystem, path: string, content: Bytes)
    requires path !in fs.files && path !in fs.undeletable
    requires CreateFile(fs, path, content).Some?
    ensures DeleteFile(CreateFile(fs, path, content).value, path) == Some(fs)
  {
    assert fs.files[path := content] - {path} == fs.files;
  }
}
