/** The pull download: `download_from_peer`, which streams a peer's
    `/download/{car}/{fname}` body into `dest_dir/fname` in reads of at most
    1024 bytes, and the download branch of `cli_main`, which scans the saved
    file and deletes it when the scan rejects it. */
module Transfer {
  import opened Common
  import opened Files
  import opened Scan
  import Catalog

  /** The size passed to `resp.content.read`. */
  const ReadSize := 1024

  /** What `session.get(url)` yields: either the request raises before a
      status arrives, or a status and a body whose reads succeed, except that
      the read numbered `failsAtRead` (from 0), if any, raises. */
  datatype Response =
    | Unreachable
    | Answer(status: int, body: seq<byte>, failsAtRead: Option<nat>)

  /** Why a download ends without a saved file: the exception that escapes. */
  datatype Failure = Connection | HttpStatus(code: int) | LocalIO | Payload

  datatype Download = Saved(path: Path) | Failed(failure: Failure)

  /** The successive non-empty results of `read(1024)` on `body`: full
      1024-byte pieces and a shorter last one. The read after them is empty. */
  function Chunks(body: seq<byte>): (r: seq<seq<byte>>)
    ensures forall i :: 0 <= i < |r| ==> 0 < |r[i]| <= ReadSize
    decreases |body|
  {
    if body == [] then []
    else if |body| <= ReadSize then [body]
    else [body[..ReadSize]] + Chunks(body[ReadSize..])
  }

  function Concat(cs: seq<seq<byte>>): seq<byte>
  {
    if cs == [] then [] else cs[0] + Concat(cs[1..])
  }

  lemma {:induction false} ConcatAppend(a: seq<seq<byte>>, b: seq<seq<byte>>)
    ensures Concat(a + b) == Concat(a) + Concat(b)
    decreases |a|
  {
    if a == [] {
      assert a + b == b;
    } else {
      assert (a + b)[0] == a[0] && (a + b)[1..] == a[1..] + b;
      ConcatAppend(a[1..], b);
    }
  }

  /** The chunks put back together are the body. */
  lemma {:induction false} ChunksConcat(body: seq<byte>)
    ensures Concat(Chunks(body)) == body
    decreases |body|
  {
    if |body| > ReadSize {
      ChunksConcat(body[ReadSize..]);
      assert body == body[..ReadSize] + body[ReadSize..];
    } else if body != [] {
      assert Concat([body]) == body + Concat([]);
    }
  }

  /** One read from position `pos`: the chunk it returns and the chunks after. */
  lemma ChunksStep(body: seq<byte>, pos: nat, end: nat)
    requires pos < |body| && end == (if pos + ReadSize <= |body| then pos + ReadSize else |body|)
    ensures Chunks(body[pos..]) == [body[pos..end]] + Chunks(body[end..])
  {
    var rest := body[pos..];
    if |rest| <= ReadSize {
      assert rest == body[pos..end];
      assert body[end..] == [];
    } else {
      assert rest[..ReadSize] == body[pos..end];
      assert rest[ReadSize..] == body[end..];
    }
  }

  lemma PrefixOfSum(a: seq<seq<byte>>, b: seq<seq<byte>>, c: seq<seq<byte>>)
    requires a + b == c
    ensures a == c[..|a|] && |a| <= |c|
  {
    assert c[..|a|] == (a + b)[..|a|];
  }

  /** One turn of the read loop at position `pos < |body|`: the chunk read is
      non-empty, and the chunks read so far grow by it, still covering the
      body up to the new position. */
  lemma StreamStep(body: seq<byte>, pos: nat, end: nat, chunks: seq<seq<byte>>)
    requires pos <= |body| && end == (if pos + ReadSize <= |body| then pos + ReadSize else |body|)
    requires body[pos..end] != []
    requires chunks + Chunks(body[pos..]) == Chunks(body)
    requires Concat(chunks) == body[..pos]
    ensures pos < end <= |body|
    ensures (chunks + [body[pos..end]]) + Chunks(body[end..]) == Chunks(body)
    ensures Concat(chunks + [body[pos..end]]) == body[..end]
    ensures body[..end] == body[..pos] + body[pos..end]
  {
    var chunk := body[pos..end];
    ChunksStep(body, pos, end);
    assert chunks + Chunks(body[pos..]) == (chunks + [chunk]) + Chunks(body[end..]);
    ConcatAppend(chunks, [chunk]);
    assert Concat([chunk]) == chunk + Concat([]);
    assert body[..end] == body[..pos] + chunk;
  }

  /** The stream breaks before its end-of-file read completes. */
  predicate BreaksMidStream(resp: Response)
    requires resp.Answer?
  {
    resp.failsAtRead.Some? && resp.failsAtRead.value <= |Chunks(resp.body)|
  }

  /** Everything `download_from_peer` does succeeds: the request, its status
      (`raise_for_status` accepts every status below 400), the `mkdir`, the
      `open`, and every read up to the empty one. */
  predicate Completes(fs: FS, resp: Response, destDir: Path, fname: string)
  {
    && resp.Answer? && resp.status < 400
    && AfterMkdir(fs, destDir).Some?
    && AfterOpen(AfterMkdir(fs, destDir).value, destDir + [fname]).Some?
    && !BreaksMidStream(resp)
  }

  /** The local disk after `download_from_peer`, whichever way it ends:
      untouched when the request or its status fails or `mkdir` raises; the
      directory made when `open` raises; the opened file holding the chunks
      read before a read raises; and otherwise the file holding the body. */
  function AfterDownload(fs: FS, resp: Response, destDir: Path, fname: string): FS
  {
    if resp.Unreachable? || resp.status >= 400 || AfterMkdir(fs, destDir).None? then fs
    else
      var made := AfterMkdir(fs, destDir).value;
      if AfterOpen(made, destDir + [fname]).None? then made
      else if BreaksMidStream(resp) then
        WithContent(made, destDir + [fname], Concat(Chunks(resp.body)[..resp.failsAtRead.value]))
      else WithContent(made, destDir + [fname], resp.body)
  }

  /** The `while True` loop of `download_from_peer`: read at most 1024 bytes,
      stop at the first empty read, append each chunk to the open file. The
      file ends up holding the chunks read, which are all of them unless a
      read raises. */
  method StreamBody(disk: Disk, out: Path, body: seq<byte>, failsAtRead: Option<nat>)
    returns (completed: bool, ghost chunks: seq<seq<byte>>)
    requires disk.Valid() && out in disk.fs.files && disk.fs.files[out] == []
    modifies disk
    ensures disk.Valid()
    ensures completed <==> !(failsAtRead.Some? && failsAtRead.value <= |Chunks(body)|)
    ensures chunks == if completed then Chunks(body) else Chunks(body)[..failsAtRead.value]
    ensures disk.fs == WithContent(old(disk.fs), out, Concat(chunks))
    ensures completed ==> Concat(chunks) == body
  {
    ghost var start := disk.fs;
    chunks := [];
    assert disk.fs == WithContent(start, out, []);
    var pos := 0;
    var done := 0;
    assert body[pos..] == body && body[..pos] == [];
    while true
      invariant disk.Valid() && out in disk.fs.files
      invariant pos <= |body| && done == |chunks|
      invariant chunks + Chunks(body[pos..]) == Chunks(body)
      invariant Concat(chunks) == body[..pos]
      invariant disk.fs == WithContent(start, out, body[..pos])
      invariant failsAtRead.None? || done <= failsAtRead.value
      decreases |body| - pos
    {
      PrefixOfSum(chunks, Chunks(body[pos..]), Chunks(body));
      if failsAtRead.Some? && failsAtRead.value == done {
        return false, chunks;
      }
      var end := if pos + ReadSize <= |body| then pos + ReadSize else |body|;
      var chunk := body[pos..end];
      done := done + 1;
      if chunk == [] {
        break;
      }
      StreamStep(body, pos, end, chunks);
      disk.Write(out, chunk);
      OverwriteContent(start, out, body[..pos], body[..end]);
      chunks := chunks + [chunk];
      pos := end;
    }
    assert body[pos..] == [] && body[..pos] == body;
    return true, chunks;
  }

  /** `download_from_peer(peer, car, fname, dest_dir)`. A connection failure
      or an error status raises before `dest_dir` is created or any file is
      opened. Otherwise `dest_dir` is created, `dest_dir/fname` is truncated,
      and the chunks are appended until the first empty read, so that the
      saved file is the whole body; a read that raises leaves the chunks read
      so far in the file. */
  method DownloadFromPeer(disk: Disk, resp: Response, destDir: Path, fname: string)
    returns (r: Download, ghost chunks: seq<seq<byte>>)
    requires disk.Valid()
    modifies disk
    ensures disk.Valid()
    ensures disk.fs == AfterDownload(old(disk.fs), resp, destDir, fname)
    ensures r.Saved? <==> Completes(old(disk.fs), resp, destDir, fname)
    ensures r.Saved? ==> r.path == destDir + [fname] && chunks == Chunks(resp.body)
    ensures r.Saved? ==> disk.fs == WithContent(AfterMkdir(old(disk.fs), destDir).value, r.path, resp.body)
    ensures resp.Unreachable? ==> r == Failed(Connection) && disk.fs == old(disk.fs)
    ensures resp.Answer? && resp.status >= 400 ==> r == Failed(HttpStatus(resp.status)) && disk.fs == old(disk.fs)
    ensures resp.Answer? && resp.status < 400 && AfterMkdir(old(disk.fs), destDir).None? ==>
      r == Failed(LocalIO) && disk.fs == old(disk.fs)
    ensures resp.Answer? && resp.status < 400 && AfterMkdir(old(disk.fs), destDir).Some? ==>
      var made := AfterMkdir(old(disk.fs), destDir).value;
      && (AfterOpen(made, destDir + [fname]).None? ==> r == Failed(LocalIO) && disk.fs == made)
      && (AfterOpen(made, destDir + [fname]).Some? && BreaksMidStream(resp) ==>
            && r == Failed(Payload)
            && chunks == Chunks(resp.body)[..resp.failsAtRead.value]
            && disk.fs == WithContent(made, destDir + [fname], Concat(chunks)))
  {
    chunks := [];
    if resp.Unreachable? {
      return Failed(Connection), chunks;
    }
    if resp.status >= 400 {
      return Failed(HttpStatus(resp.status)), chunks;
    }
    ghost var initial := disk.fs;
    var ok := disk.Mkdir(destDir);
    if !ok {
      assert AfterMkdir(initial, destDir).None?;
      return Failed(LocalIO), chunks;
    }
    ghost var made := disk.fs;
    assert made == AfterMkdir(initial, destDir).value;
    var out := destDir + [fname];
    ok := disk.Open(out);
    if !ok {
      assert AfterOpen(made, out).None?;
      return Failed(LocalIO), chunks;
    }
    assert AfterOpen(made, out).Some?;
    ghost var truncated := disk.fs;
    var completed;
    completed, chunks := StreamBody(disk, out, resp.body, resp.failsAtRead);
    OverwriteContent(made, out, [], Concat(chunks));
    assert completed <==> !BreaksMidStream(resp);
    if !completed {
      return Failed(Payload), chunks;
    }
    ChunksConcat(resp.body);
    return Saved(out), chunks;
  }

  /** How the download branch of `cli_main` ends: the download raised, the
      saved file was kept or removed, or the scan of the saved file raised. */
  datatype CliOutcome = Crashed(failure: Failure) | Kept(path: Path) | Removed(path: Path) | ScanRaised(path: Path)

  /** The download branch of `cli_main`: download into `directory/car`, then
      scan the saved file; a file the scan rejects is unlinked, an accepted
      one stays. A failed download raises before any scan, and a broken
      stream leaves its partial, unscanned file in place. A scan that raises
      ends the process with the whole downloaded file in place, unscanned. */
  method CliDownload(disk: Disk, resp: Response, directory: Path, car: string, fname: string, scan: ScanOutcome)
    returns (o: CliOutcome)
    requires disk.Valid()
    modifies disk
    ensures disk.Valid()
    ensures o.Crashed? <==> !Completes(old(disk.fs), resp, directory + [car], fname)
    ensures !o.Crashed? ==> o.path == directory + [car, fname]
    ensures !o.Crashed? ==> (o.Kept? <==> IsClean(scan)) && (o.Removed? <==> Rejects(scan)) && (o.ScanRaised? <==> scan.Raised?)
    ensures o.Kept? || o.ScanRaised? ==> resp.Answer? && o.path in disk.fs.files && disk.fs.files[o.path] == resp.body
    ensures o.Removed? ==> o.path !in disk.fs.files && o.path !in disk.fs.dirs
    ensures o.Removed? ==> !Catalog.Listed(disk.fs, directory, car, fname)
    ensures o == Crashed(Payload) ==> directory + [car, fname] in disk.fs.files
    ensures o.Crashed? ==> disk.fs == AfterDownload(old(disk.fs), resp, directory + [car], fname)
    ensures resp.Unreachable? || resp.status >= 400 ==> disk.fs == old(disk.fs)
    ensures o.Kept? || o.ScanRaised? ==> disk.fs == WithContent(AfterMkdir(old(disk.fs), directory + [car]).value, o.path, resp.body)
    ensures o.Removed? ==>
      var made := AfterMkdir(old(disk.fs), directory + [car]).value;
      disk.fs == FS(made.files - {o.path}, made.dirs)
  {
    var outDir := directory + [car];
    assert outDir + [fname] == directory + [car, fname];
    var r, chunks := DownloadFromPeer(disk, resp, outDir, fname);
    if r.Failed? {
      return Crashed(r.failure);
    }
    if scan.Raised? {
      return ScanRaised(r.path);
    }
    ScanVerdict(scan);
    if IsClean(scan) {
      return Kept(r.path);
    }
    ghost var made := AfterMkdir(old(disk.fs), outDir).value;
    assert r.path !in made.dirs;
    UnlinkAfterWrite(made, r.path, resp.body);
    var ok := disk.Unlink(r.path);
    assert ok;
    ChildNamesMember(disk.fs, outDir, fname);
    return Removed(r.path);
  }
}
