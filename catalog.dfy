/** The two HTTP handlers of `ShareServer`: `/list`, which enumerates the
    categories (car directories) immediately under the shared directory with
    the `*.sto` names in each, and `/download/{car}/{fname}`, which serves one
    file. Both work on the abstract filesystem of module Files; the order in
    which a directory enumerates its entries is left unspecified, as it is by
    `os.listdir` and `Path.glob`. */
module Catalog {
  import opened Common
  import opened Files

  const StoSuffix := ".sto"

  /** The name matches the glob pattern `*.sto` (case-sensitive; `*` also
      matches a leading dot and the empty string). */
  predicate MatchesStoGlob(name: string)
  {
    EndsWith(name, StoSuffix)
  }

  /** `PurePath.suffix` of a last path component: the text from the last
      `'.'`, provided that dot is neither the first nor the last character. */
  function Suffix(name: string): string
  {
    match LastIndexOf(name, '.')
    case Some(i) => if 0 < i < |name| - 1 then name[i..] else ""
    case None => ""
  }

  /** The suffix is exactly `".sto"` iff the name ends in `".sto"` and has at
      least one character before it. */
  lemma SuffixIsSto(name: string)
    ensures Suffix(name) == StoSuffix <==> |name| > |StoSuffix| && EndsWith(name, StoSuffix)
  {
    var n := |name|;
    if n > 4 && EndsWith(name, StoSuffix) {
      assert name[n - 4..] == ".sto";
      assert name[n - 4] == '.' && name[n - 3] == 's' && name[n - 2] == 't' && name[n - 1] == 'o';
      var li := LastIndexOf(name, '.');
      assert li.Some? && li.value == n - 4;
    }
    if Suffix(name) == StoSuffix {
      var i := LastIndexOf(name, '.').value;
      assert name[i..] == StoSuffix;
      assert |name| - i == 4;
    }
  }

  /** The glob pattern accepts every name whose suffix is `".sto"`, and also
      the bare name `".sto"`, whose suffix is empty. */
  lemma SuffixStricterThanGlob(name: string)
    ensures Suffix(name) == StoSuffix ==> MatchesStoGlob(name)
    ensures MatchesStoGlob(StoSuffix) && Suffix(StoSuffix) == ""
  {
    SuffixIsSto(name);
    SuffixIsSto(StoSuffix);
  }

  /** `n` is listed under category `car` by `/list`: `car` is a directory of
      the shared root and `n` is an entry of it (file or directory) that
      matches `*.sto`. */
  predicate Listed(fs: FS, root: Path, car: string, n: string)
  {
    root + [car] in fs.dirs && n in ChildNames(fs, root + [car]) && MatchesStoGlob(n)
  }

  /** `[f.name for f in car_path.glob('*.sto')]`: each matching entry name of
      `dir` once, in an unspecified order. */
  method GlobSto(fs: FS, dir: Path) returns (names: seq<string>)
    ensures NoDup(names)
    ensures forall n :: n in names <==> n in ChildNames(fs, dir) && MatchesStoGlob(n)
  {
    names := [];
    var todo := ChildNames(fs, dir);
    while todo != {}
      invariant todo <= ChildNames(fs, dir)
      invariant NoDup(names)
      invariant forall n :: n in names <==> n in ChildNames(fs, dir) - todo && MatchesStoGlob(n)
      decreases |todo|
    {
      var n :| n in todo;
      if MatchesStoGlob(n) {
        names := names + [n];
      }
      todo := todo - {n};
    }
  }

  /** `handle_list`: None when `os.listdir` raises (the shared root is not a
      directory); otherwise the keys are exactly the immediate subdirectories
      of the root, and each value lists, once each, exactly the entries of
      that subdirectory matching `*.sto`. Files of the root are never keys,
      and nothing deeper than one level is listed. */
  method HandleList(fs: FS, root: Path) returns (r: Option<map<string, seq<string>>>)
    ensures r.None? <==> root !in fs.dirs
    ensures r.Some? ==> forall car :: car in r.value <==> root + [car] in fs.dirs
    ensures r.Some? ==> forall car, n :: car in r.value ==> (n in r.value[car] <==> Listed(fs, root, car, n))
    ensures r.Some? ==> forall car :: car in r.value ==> NoDup(r.value[car])
  {
    if root !in fs.dirs {
      return None;
    }
    var cars: map<string, seq<string>> := map[];
    var todo := ChildNames(fs, root);
    while todo != {}
      invariant todo <= ChildNames(fs, root)
      invariant forall car :: car in cars <==> car in ChildNames(fs, root) - todo && root + [car] in fs.dirs
      invariant forall car, n :: car in cars ==> (n in cars[car] <==> Listed(fs, root, car, n))
      invariant forall car :: car in cars ==> NoDup(cars[car])
      decreases |todo|
    {
      var car :| car in todo;
      if root + [car] in fs.dirs {
        var names := GlobSto(fs, root + [car]);
        cars := cars[car := names];
      }
      todo := todo - {car};
    }
    forall car | root + [car] in fs.dirs
      ensures car in cars
    {
      ChildNamesMember(fs, root, car);
    }
    return Some(cars);
  }

  /** The answer to `/download/{car}/{fname}`. */
  datatype Reply = NotFound | FileBody(content: seq<byte>)

  /** `handle_download`: the file's bytes when `root/car/fname` is a regular
      file whose suffix is `".sto"`, that is whose name ends in `".sto"` with
      something before it; NotFound in every other case. There is no check
      that the path stays inside the root. */
  function HandleDownload(fs: FS, root: Path, car: string, fname: string): (r: Reply)
    ensures r.FileBody? <==> root + [car, fname] in fs.files && |fname| > |StoSuffix| && EndsWith(fname, StoSuffix)
    ensures r.FileBody? ==> r.content == fs.files[root + [car, fname]]
  {
    SuffixIsSto(fname);
    var path := root + [car, fname];
    if path !in fs.files || Suffix(fname) != StoSuffix then NotFound
    else FileBody(fs.files[path])
  }

  /** What `/download` serves is what `/list` offers, restricted to regular
      files with at least one character before `".sto"`. */
  lemma DownloadServesListedFiles(fs: FS, root: Path, car: string, fname: string)
    requires WellFormed(fs)
    ensures HandleDownload(fs, root, car, fname).FileBody? <==>
      Listed(fs, root, car, fname) && root + [car, fname] in fs.files && |fname| > |StoSuffix|
  {
    ChildNamesMember(fs, root + [car], fname);
    var path := root + [car, fname];
    assert path == (root + [car]) + [fname];
    if path in fs.files {
      assert path[..|path| - 1] == root + [car];
    }
  }

  /** Two names that `/list` offers but `/download` refuses: a directory named
      `x.sto`, and a file named just `.sto`. */
  lemma ListedButRefused(fs: FS)
    requires fs == FS(map[["Car", ".sto"] := []], {[], ["Car"], ["Car", "x.sto"]})
    ensures WellFormed(fs)
    ensures Listed(fs, [], "Car", "x.sto") && HandleDownload(fs, [], "Car", "x.sto") == NotFound
    ensures Listed(fs, [], "Car", ".sto") && HandleDownload(fs, [], "Car", ".sto") == NotFound
  {
    assert ["Car", "x.sto"][..1] == ["Car"] && ["Car", ".sto"][..1] == ["Car"];
    assert [] + ["Car"] == ["Car"];
    assert ["Car"] + ["x.sto"] == ["Car", "x.sto"] && ["Car"] + [".sto"] == ["Car", ".sto"];
    ChildNamesMember(fs, ["Car"], "x.sto");
    ChildNamesMember(fs, ["Car"], ".sto");
    assert EndsWith("x.sto", StoSuffix) && EndsWith(".sto", StoSuffix);
    assert [] + ["Car", "x.sto"] == ["Car", "x.sto"] && [] + ["Car", ".sto"] == ["Car", ".sto"];
  }

  /** The scenario of a share holding `Supercar/setup1.sto`: the file is
      listed, downloading it yields its exact bytes, and a missing name is
      NotFound. */
  lemma SupercarScenario(fs: FS, content: seq<byte>)
    requires fs == FS(map[["Supercar", "setup1.sto"] := content], {[], ["Supercar"]})
    ensures WellFormed(fs)
    ensures Listed(fs, [], "Supercar", "setup1.sto")
    ensures HandleDownload(fs, [], "Supercar", "setup1.sto") == FileBody(content)
    ensures HandleDownload(fs, [], "Supercar", "missing.sto") == NotFound
  {
    var file := ["Supercar", "setup1.sto"];
    assert file[..1] == ["Supercar"] && ["Supercar"][..0] == [];
    SupercarListed(fs, content);
    SupercarServed(fs, content);
  }

  lemma SupercarListed(fs: FS, content: seq<byte>)
    requires fs == FS(map[["Supercar", "setup1.sto"] := content], {[], ["Supercar"]})
    ensures Listed(fs, [], "Supercar", "setup1.sto")
  {
    assert [] + ["Supercar"] == ["Supercar"] && ["Supercar"] + ["setup1.sto"] == ["Supercar", "setup1.sto"];
    ChildNamesMember(fs, ["Supercar"], "setup1.sto");
    assert EndsWith("setup1.sto", StoSuffix);
  }

  lemma SupercarServed(fs: FS, content: seq<byte>)
    requires fs == FS(map[["Supercar", "setup1.sto"] := content], {[], ["Supercar"]})
    ensures HandleDownload(fs, [], "Supercar", "setup1.sto") == FileBody(content)
    ensures HandleDownload(fs, [], "Supercar", "missing.sto") == NotFound
  {
    assert [] + ["Supercar", "setup1.sto"] == ["Supercar", "setup1.sto"];
    assert EndsWith("setup1.sto", StoSuffix);
    assert "missing.sto"[0] != "setup1.sto"[0];
    assert [] + ["Supercar", "missing.sto"] == ["Supercar", "missing.sto"] != ["Supercar", "setup1.sto"];
  }
}
