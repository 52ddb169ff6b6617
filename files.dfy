/** An abstract local filesystem: a path is the sequence of its components
    below one fixed root, and the state is the set of directories and a map
    from each regular file to its bytes. The operations are the filesystem
    calls the share script makes: `Path.mkdir(parents=True, exist_ok=True)`,
    the built-in `open(path, 'wb')` followed by `write`, and
    `Path.unlink(missing_ok=True)`. */
module Files {
  import opened Common

  type Path = seq<string>

  datatype FS = FS(files: map<Path, seq<byte>>, dirs: set<Path>)

  /** The root exists, nothing is both a file and a directory, and every
      entry's parent is a directory. */
  predicate WellFormed(fs: FS)
  {
    && [] in fs.dirs
    && fs.files.Keys !! fs.dirs
    && (forall p :: p in fs.dirs && p != [] ==> p[..|p| - 1] in fs.dirs)
    && (forall p :: p in fs.files && p != [] ==> p[..|p| - 1] in fs.dirs)
  }

  /** The names directly inside `d`: what `os.listdir(d)` enumerates. */
  function ChildNames(fs: FS, d: Path): set<string>
  {
    set p | p in fs.files.Keys + fs.dirs && |p| == |d| + 1 && p[..|d|] == d :: p[|d|]
  }

  lemma ChildNamesMember(fs: FS, d: Path, n: string)
    ensures n in ChildNames(fs, d) <==> d + [n] in fs.files || d + [n] in fs.dirs
  {
    if n in ChildNames(fs, d) {
      var p :| p in fs.files.Keys + fs.dirs && |p| == |d| + 1 && p[..|d|] == d && p[|d|] == n;
      assert p == d + [n];
    }
    if d + [n] in fs.files || d + [n] in fs.dirs {
      var p := d + [n];
      assert p[..|d|] == d && p[|d|] == n;
    }
  }

  /** Every leading part of `p`, from the root to `p` itself. */
  function Prefixes(p: Path): (r: set<Path>)
    ensures forall k :: 0 <= k <= |p| ==> p[..k] in r
  {
    set k | 0 <= k <= |p| :: p[..k]
  }

  /** `Path.mkdir(parents=True, exist_ok=True)`: it raises (None) when `p` or
      one of its ancestors is a file, and otherwise makes every missing
      ancestor and `p` itself a directory. */
  function AfterMkdir(fs: FS, p: Path): Option<FS>
  {
    if exists k :: 0 <= k <= |p| && p[..k] in fs.files then None
    else Some(FS(fs.files, fs.dirs + Prefixes(p)))
  }

  /** `open(p, 'wb')`: it raises (None) when `p` is a directory or its parent
      is not one, and otherwise creates or truncates `p` to an empty file. */
  function AfterOpen(fs: FS, p: Path): Option<FS>
  {
    if p == [] || p in fs.dirs || p[..|p| - 1] !in fs.dirs then None
    else Some(WithContent(fs, p, []))
  }

  /** The state with the file `p` holding `data`. */
  function WithContent(fs: FS, p: Path, data: seq<byte>): FS
  {
    FS(fs.files[p := data], fs.dirs)
  }

  /** Writing a file twice leaves the second content. */
  lemma OverwriteContent(fs: FS, p: Path, a: seq<byte>, b: seq<byte>)
    ensures WithContent(WithContent(fs, p, a), p, b) == WithContent(fs, p, b)
  {
    assert fs.files[p := a][p := b] == fs.files[p := b];
  }

  /** Unlinking a file just written leaves the state before the file existed,
      minus any older file at that path. */
  lemma UnlinkAfterWrite(fs: FS, p: Path, data: seq<byte>)
    requires p !in fs.dirs
    ensures AfterUnlink(WithContent(fs, p, data), p) == Some(FS(fs.files - {p}, fs.dirs))
  {
    assert fs.files[p := data] - {p} == fs.files - {p};
  }

  /** `Path.unlink(missing_ok=True)`: it raises (None) on a directory; a
      missing file is not an error. */
  function AfterUnlink(fs: FS, p: Path): Option<FS>
  {
    if p in fs.dirs then None else Some(FS(fs.files - {p}, fs.dirs))
  }

  /** A successful `mkdir` keeps the filesystem well formed and leaves `p`
      a directory, with no file touched. */
  lemma MkdirKeepsValid(fs: FS, p: Path)
    requires WellFormed(fs) && AfterMkdir(fs, p).Some?
    ensures WellFormed(AfterMkdir(fs, p).value)
    ensures p in AfterMkdir(fs, p).value.dirs && AfterMkdir(fs, p).value.files == fs.files
  {
    var after := AfterMkdir(fs, p).value;
    assert p[..0] == [];
    forall q | q in after.dirs && q != []
      ensures q[..|q| - 1] in after.dirs
    {
      if q !in fs.dirs {
        var k :| 0 <= k <= |p| && q == p[..k];
        assert q[..|q| - 1] == p[..k - 1];
      }
    }
    assert p[..|p|] == p;
  }

  /** A successful `open(..., 'wb')` keeps the filesystem well formed and
      leaves `p` an empty file. */
  lemma OpenKeepsValid(fs: FS, p: Path)
    requires WellFormed(fs) && AfterOpen(fs, p).Some?
    ensures WellFormed(AfterOpen(fs, p).value)
    ensures AfterOpen(fs, p).value == WithContent(fs, p, [])
  {
  }

  /** Writing to an existing file keeps the filesystem well formed. */
  lemma WriteKeepsValid(fs: FS, p: Path, data: seq<byte>)
    requires WellFormed(fs) && p in fs.files
    ensures WellFormed(WithContent(fs, p, data))
  {
  }

  /** A successful `unlink` keeps the filesystem well formed and leaves no
      file and no directory at `p`. */
  lemma UnlinkKeepsValid(fs: FS, p: Path)
    requires WellFormed(fs) && AfterUnlink(fs, p).Some?
    ensures WellFormed(AfterUnlink(fs, p).value)
    ensures p !in AfterUnlink(fs, p).value.files && p !in AfterUnlink(fs, p).value.dirs
  {
  }

  /** The local disk, updated in place by the download and the scan gate. */
  class Disk {
    var fs: FS

    predicate Valid()
      reads this
    {
      WellFormed(fs)
    }

    constructor (initial: FS)
      requires WellFormed(initial)
      ensures Valid() && fs == initial
    {
      fs := initial;
    }

    method Mkdir(p: Path) returns (ok: bool)
      requires Valid()
      modifies this
      ensures Valid()
      ensures ok == AfterMkdir(old(fs), p).Some?
      ensures fs == if ok then AfterMkdir(old(fs), p).value else old(fs)
      ensures ok ==> p in fs.dirs
    {
      ok := AfterMkdir(fs, p).Some?;
      if ok {
        MkdirKeepsValid(fs, p);
        fs := AfterMkdir(fs, p).value;
      }
    }

    method Open(p: Path) returns (ok: bool)
      requires Valid()
      modifies this
      ensures Valid()
      ensures ok == AfterOpen(old(fs), p).Some?
      ensures fs == if ok then WithContent(old(fs), p, []) else old(fs)
    {
      ok := AfterOpen(fs, p).Some?;
      if ok {
        OpenKeepsValid(fs, p);
        fs := AfterOpen(fs, p).value;
      }
    }

    /** `f.write(chunk)` on the file opened at `p`: its content grows by `chunk`. */
    method Write(p: Path, chunk: seq<byte>)
      requires Valid() && p in fs.files
      modifies this
      ensures Valid()
      ensures fs == WithContent(old(fs), p, old(fs).files[p] + chunk)
    {
      WriteKeepsValid(fs, p, fs.files[p] + chunk);
      fs := WithContent(fs, p, fs.files[p] + chunk);
    }

    method Unlink(p: Path) returns (ok: bool)
      requires Valid()
      modifies this
      ensures Valid()
      ensures ok == AfterUnlink(old(fs), p).Some?
      ensures fs == if ok then AfterUnlink(old(fs), p).value else old(fs)
    {
      ok := AfterUnlink(fs, p).Some?;
      if ok {
        UnlinkKeepsValid(fs, p);
        fs := AfterUnlink(fs, p).value;
      }
    }
  }
}
