/**
 * File-backed parts and their storage: a fresh temporary directory holding
 * one randomly named file, removed file first and directory second when
 * the part is dropped. Storage is a value listing the files and
 * directories that exist; the random names are parameters.
 */
module FileParts {
  import opened Errors
  import opened Headers
  import opened Charsets

  /** A path, as its components. */
  type Path = seq<string>

  /** The files and directories that exist. */
  datatype Disk = Disk(files: set<Path>, dirs: set<Path>)

  /** A file-backed part: its headers, the file holding its body, the body's size and the directory made for it. */
  datatype FilePart = FilePart(headers: HeaderSet, path: Path, size: nat, tempdir: Path)

  /** The prefix of every temporary directory's name. */
  const TEMPDIR_PREFIX: string := "mime_multipart"

  function Parent(p: Path): Path
    requires |p| > 0
  {
    p[..|p| - 1]
  }

  /** Nothing exists inside `dir`. */
  predicate IsEmptyDir(disk: Disk, dir: Path)
  {
    (forall f | f in disk.files :: |f| == 0 || Parent(f) != dir) &&
    (forall d | d in disk.dirs :: |d| == 0 || Parent(d) != dir)
  }

  /** Every file and every directory but the root sits in an existing directory. */
  ghost predicate WellFormed(disk: Disk)
  {
    (forall f | f in disk.files :: |f| > 0 && Parent(f) in disk.dirs) &&
    (forall d | d in disk.dirs :: |d| == 0 || Parent(d) in disk.dirs)
  }

  /** Some file or directory already has this path. */
  predicate Taken(disk: Disk, path: Path)
  {
    path in disk.dirs || path in disk.files
  }

  /**
   * `TempDir::new`: makes the directory `root/prefix.nonce` for the first
   * random nonce whose name is free; fails when `root` is not a directory
   * or every candidate name is taken.
   */
  function CreateTempDir(disk: Disk, root: Path, prefix: string, nonces: seq<string>): (r: Result<(Path, Disk), Error>)
    ensures r.Success? ==> var (dir, after) := r.value;
            && root in disk.dirs && dir !in disk.dirs && dir !in disk.files
            && |dir| > 0 && Parent(dir) == root
            && (exists i :: 0 <= i < |nonces| && dir == root + [prefix + "." + nonces[i]] &&
                  forall j :: 0 <= j < i ==> Taken(disk, root + [prefix + "." + nonces[j]]))
            && after == Disk(disk.files, disk.dirs + {dir})
    ensures r.Failure? ==> r.error.Io?
    ensures r.Failure? && root in disk.dirs ==>
              forall i | 0 <= i < |nonces| :: Taken(disk, root + [prefix + "." + nonces[i]])
  {
    if root !in disk.dirs then Failure(Io("temporary directory root does not exist"))
    else if |nonces| == 0 then Failure(Io("too many temporary directories already exist"))
    else
      var dir := root + [prefix + "." + nonces[0]];
      if Taken(disk, dir) then
        var r := CreateTempDir(disk, root, prefix, nonces[1..]);
        assert r.Success? ==> exists i :: 0 <= i < |nonces| && r.value.0 == root + [prefix + "." + nonces[i]] &&
                                forall j :: 0 <= j < i ==> Taken(disk, root + [prefix + "." + nonces[j]]) by {
          if r.Success? {
            var i :| 0 <= i < |nonces[1..]| && r.value.0 == root + [prefix + "." + nonces[1..][i]] &&
                     forall j :: 0 <= j < i ==> Taken(disk, root + [prefix + "." + nonces[1..][j]]);
            assert nonces[1..][i] == nonces[i + 1];
            forall j | 0 <= j < i + 1 ensures Taken(disk, root + [prefix + "." + nonces[j]]) {
              if j > 0 { assert nonces[j] == nonces[1..][j - 1]; }
            }
          }
        }
        assert r.Failure? ==> forall i | 0 <= i < |nonces| :: Taken(disk, root + [prefix + "." + nonces[i]]) by {
          if r.Failure? {
            forall i | 0 <= i < |nonces| ensures Taken(disk, root + [prefix + "." + nonces[i]]) {
              if i > 0 { assert nonces[i] == nonces[1..][i - 1]; }
            }
          }
        }
        r
      else
        assert Parent(dir) == root;
        Success((dir, Disk(disk.files, disk.dirs + {dir})))
  }

  /**
   * `FilePart::new`: a fresh temporary directory, and in it a path named
   * by a random nonce; the file itself is not created yet, the size is 0.
   */
  function NewFilePart(headers: HeaderSet, disk: Disk, root: Path, dirNonces: seq<string>, fileNonce: string)
    : (r: Result<(FilePart, Disk), Error>)
    ensures r.Success? ==> var (part, after) := r.value;
            && part.headers == headers && part.size == 0
            && |part.path| > 0 && Parent(part.path) == part.tempdir
            && |part.tempdir| > 0 && Parent(part.tempdir) == root
            && part.tempdir !in disk.dirs && after.dirs == disk.dirs + {part.tempdir}
            && after.files == disk.files
    ensures r.Failure? ==> r.error.Io?
  {
    match CreateTempDir(disk, root, TEMPDIR_PREFIX, dirNonces)
    case Failure(e) => Failure(e)
    case Success((dir, after)) =>
      var path := dir + [fileNonce];
      assert Parent(path) == dir;
      Success((FilePart(headers, path, 0, dir), after))
  }

  /** On well-formed storage the new part's directory is empty and its file does not exist yet. */
  lemma NewFilePartIsFresh(headers: HeaderSet, disk: Disk, root: Path, dirNonces: seq<string>, fileNonce: string)
    requires WellFormed(disk)
    requires NewFilePart(headers, disk, root, dirNonces, fileNonce).Success?
    ensures var (part, after) := NewFilePart(headers, disk, root, dirNonces, fileNonce).value;
            WellFormed(after) && IsEmptyDir(after, part.tempdir) && part.path !in after.files
  {
    var (part, after) := NewFilePart(headers, disk, root, dirNonces, fileNonce).value;
    NothingInsideNewDir(disk, part.tempdir);
  }

  /** Nothing on well-formed storage lies inside a directory that does not exist. */
  lemma NothingInsideNewDir(disk: Disk, dir: Path)
    requires WellFormed(disk) && dir !in disk.dirs
    ensures IsEmptyDir(disk, dir)
    ensures forall f | f in disk.files :: |f| > 0 && Parent(f) != dir
  {
  }

  /** `File::create`: makes (or truncates) the file when its directory exists. */
  function CreateFile(disk: Disk, path: Path): (r: Result<Disk, Error>)
    requires |path| > 0
    ensures r.Success? <==> Parent(path) in disk.dirs && path !in disk.dirs
    ensures r.Success? ==> r.value == Disk(disk.files + {path}, disk.dirs)
  {
    if Parent(path) in disk.dirs && path !in disk.dirs then Success(Disk(disk.files + {path}, disk.dirs))
    else Failure(Io("cannot create file"))
  }

  /** `remove_file`: removes an existing file; reports whether it did. */
  function RemoveFile(disk: Disk, path: Path): (r: (Disk, bool))
    ensures r.1 <==> path in disk.files
    ensures r.0 == Disk(disk.files - {path}, disk.dirs)
  {
    if path in disk.files then (Disk(disk.files - {path}, disk.dirs), true) else (disk, false)
  }

  /** `remove_dir`: removes an existing, empty directory; reports whether it did. */
  function RemoveDir(disk: Disk, dir: Path): (r: (Disk, bool))
    ensures r.1 <==> dir in disk.dirs && IsEmptyDir(disk, dir)
    ensures r.1 ==> r.0 == Disk(disk.files, disk.dirs - {dir})
    ensures !r.1 ==> r.0 == disk
  {
    if dir in disk.dirs && IsEmptyDir(disk, dir) then (Disk(disk.files, disk.dirs - {dir}), true)
    else (disk, false)
  }

  /**
   * Dropping a file part: remove its file, then its directory, ignoring
   * whether either removal worked.
   */
  function Drop(part: FilePart, disk: Disk): (r: Disk)
    ensures r.files == disk.files - {part.path}
    ensures var emptied := Disk(disk.files - {part.path}, disk.dirs);
            r.dirs == if part.tempdir in disk.dirs && IsEmptyDir(emptied, part.tempdir)
                      then disk.dirs - {part.tempdir} else disk.dirs
  {
    var (afterFile, _) := RemoveFile(disk, part.path);
    var (afterDir, _) := RemoveDir(afterFile, part.tempdir);
    afterDir
  }

  /** `FilePart::filename`: the declared filename; none without a Content-Disposition header. */
  function Filename(part: FilePart, decode: Decoder): (r: Result<Option<string>, Error>)
    ensures part.headers.contentDisposition.None? ==> r == Success(None)
    ensures part.headers.contentDisposition.Some? ==>
              r == GetContentDispositionFilename(part.headers.contentDisposition.value, decode)
  {
    match part.headers.contentDisposition
    case Some(cd) => GetContentDispositionFilename(cd, decode)
    case None => Success(None)
  }

  /**
   * Dropping removes the part's file, and its directory too when the file
   * was all it held; nothing else is touched.
   */
  lemma DropRemoves(part: FilePart, disk: Disk)
    requires |part.path| > 0 && Parent(part.path) == part.tempdir
    ensures part.path !in Drop(part, disk).files
    ensures Drop(part, disk).files == disk.files - {part.path}
    ensures IsEmptyDir(Disk(disk.files - {part.path}, disk.dirs), part.tempdir) ==>
              Drop(part, disk).dirs == disk.dirs - {part.tempdir}
    ensures Drop(part, disk).dirs <= disk.dirs && disk.dirs - Drop(part, disk).dirs <= {part.tempdir}
  {
  }

  /**
   * The order matters: removing the directory first would fail while the
   * file is still in it, and the directory would be left behind.
   */
  lemma DirectoryFirstWouldLeak(part: FilePart, disk: Disk)
    requires |part.path| > 0 && Parent(part.path) == part.tempdir
    requires part.path in disk.files && part.tempdir in disk.dirs
    ensures !RemoveDir(disk, part.tempdir).1
    ensures part.tempdir in RemoveFile(RemoveDir(disk, part.tempdir).0, part.path).0.dirs
  {
    assert !IsEmptyDir(disk, part.tempdir);
  }

  /**
   * A part that got its file leaves storage as it found it once dropped:
   * the file goes, and then the now empty directory.
   */
  lemma LifecycleLeavesNoTrace(headers: HeaderSet, disk: Disk, root: Path, dirNonces: seq<string>, fileNonce: string)
    requires WellFormed(disk)
    requires NewFilePart(headers, disk, root, dirNonces, fileNonce).Success?
    requires var (part, after) := NewFilePart(headers, disk, root, dirNonces, fileNonce).value;
             CreateFile(after, part.path).Success?
    ensures var (part, after) := NewFilePart(headers, disk, root, dirNonces, fileNonce).value;
            Drop(part, CreateFile(after, part.path).value) == disk
  {
    var (part, after) := NewFilePart(headers, disk, root, dirNonces, fileNonce).value;
    DropRestores(part, disk, true);
  }

  /**
   * Dropping a part whose directory was new, with or without its file,
   * restores the storage that was there before the directory.
   */
  lemma DropRestores(part: FilePart, disk: Disk, withFile: bool)
    requires WellFormed(disk) && part.tempdir !in disk.dirs
    requires |part.path| > 0 && Parent(part.path) == part.tempdir
    ensures Drop(part, Disk(if withFile then disk.files + {part.path} else disk.files, disk.dirs + {part.tempdir})) == disk
  {
    NothingInsideNewDir(disk, part.tempdir);
    var files := if withFile then disk.files + {part.path} else disk.files;
    var afterFile := RemoveFile(Disk(files, disk.dirs + {part.tempdir}), part.path).0;
    assert afterFile.files == disk.files;
    EmptyAfterAdding(disk, part.tempdir);
    assert disk.dirs + {part.tempdir} - {part.tempdir} == disk.dirs;
  }

  /** A directory just added to well-formed storage holds nothing. */
  lemma EmptyAfterAdding(disk: Disk, dir: Path)
    requires WellFormed(disk) && dir !in disk.dirs
    ensures IsEmptyDir(Disk(disk.files, disk.dirs + {dir}), dir)
  {
    NothingInsideNewDir(disk, dir);
  }

  /**
   * A part whose file was never created (`File::create` failed, say) also
   * leaves no trace: removing the file fails and the directory goes.
   */
  lemma DropWithoutFileLeavesNoTrace(headers: HeaderSet, disk: Disk, root: Path, dirNonces: seq<string>, fileNonce: string)
    requires WellFormed(disk)
    requires NewFilePart(headers, disk, root, dirNonces, fileNonce).Success?
    ensures var (part, after) := NewFilePart(headers, disk, root, dirNonces, fileNonce).value;
            Drop(part, after) == disk
  {
    var (part, after) := NewFilePart(headers, disk, root, dirNonces, fileNonce).value;
    DropRestores(part, disk, false);
  }
}
