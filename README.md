# iRacing setup share: the decision logic, modelled and verified in Dafny

`share_setup.py` lets iRacing players share car setup files (`*.sto`)
peer to peer. A node that shares a directory scans it with `clamscan`,
writes its `ip:port` into the `"peers"` record of a Kademlia DHT, and serves
two HTTP routes: `/list` (the car directories of the shared root with the
`*.sto` names in each) and `/download/{car}/{fname}`. A node that searches
reads the `"peers"` record, asks every peer for its `/list`, shows each
offer as `peer - fname`, and downloads a chosen file in 1024-byte reads, then
scans it and deletes it when the scan rejects it.

This project models the logic between those collaborators. The DHT, the
HTTP client and server, the scanner and the machine's address are inputs
(recorded states, responses and outcomes):

| module | file | what it models |
|---|---|---|
| `Common` | `common.dfy` | `Option`, bytes, and the Python string operations the script uses (`sep in s`, `s.split(sep, 1)`, `f'{n}'` of an `int`), and the last-dot search and end test on which `PurePath.suffix` and the `*.sto` glob rest |
| `Discovery` | `discovery.dfy` | the two parses of the `host:port` bootstrap list (`ShareServer.__init__` and `fetch_peers`) |
| `PeerRegistry` | `registry.dfy` | the DHT `"peers"` record as a class with a write counter, the read-merge-write of `register_peer`, and `fetch_peers` |
| `Files` | `files.dfy` | an abstract local filesystem (directories plus files with their bytes) and the filesystem calls the script makes (`Path.mkdir`, the built-in `open` and `write`, `Path.unlink`), as a class `Disk` updated in place |
| `Catalog` | `catalog.dfy` | `handle_list` and `handle_download`, including `PurePath.suffix` and the `*.sto` glob |
| `Fanout` | `fanout.dfy` | `list_available` and the `peer - fname` display string with its parse |
| `Scan` | `scan.dfy` | the verdict of `scan_path` (fail-open when the scanner is missing) |
| `Transfer` | `transfer.dfy` | the chunk loop of `download_from_peer` and the download-scan-delete branch of `cli_main` |
| `Share` | `share.dfy` | `ShareServer` with `register_peer` and `start`, and the scan gate of the share branch of `cli_main` |

The filesystem is a value `FS(files, dirs)` whose paths are sequences of
components below one root: `files` maps each regular file to its bytes and
`dirs` is the set of directories. `os.listdir` and `Path.glob` enumerate in
an unspecified order, so `HandleList` and `GlobSto` pick entries from a set
and are specified by membership and absence of duplicates, not by order.

## Behaviour of the script worth knowing

- `handle_download` checks only that `root/car/fname` is a regular file
  whose suffix is `".sto"`. Nothing checks that the path stays inside the
  shared root.
- `register_peer` reads the record, appends locally, then writes the whole
  list back. A failed read followed by a successful write replaces the
  record with the single new address (`FailedReadOverwrites`). When two
  nodes both read before either writes, the second write, computed from the
  stale read, drops the first node's address (`RacingJoinsLoseFirst`).
- `download_from_peer` streams straight into `dest_dir/fname`, with no
  temporary file. A stream that breaks mid-way raises before the scan and
  leaves the partial, unscanned file in place (`CliDownload`, the
  `Crashed(Payload)` case).
- `scan_path` catches only `FileNotFoundError`. Any other exception from
  `subprocess.run`, such as a scanner that cannot be executed or output that
  does not decode, escapes it. After a completed download this ends the
  process with the downloaded file in place and unscanned (`CliDownload`,
  the `ScanRaised` case). In the share branch the node never starts.
- `/list` offers every entry matching `*.sto`, directories and the bare name
  `.sto` included. `/download` refuses both of those (`ListedButRefused`).
- The script has only the pull download: one HTTP request per file.

## Model

| member | source | states |
|---|---|---|
| Common.SplitOnce | share_setup.py:47 | for a non-empty `sep` (Python raises on an empty one), `s.split(sep, 1)` splits iff `sep` occurs; the two parts joined by `sep` give `s` back; the split is at the first occurrence |
| Common.IntToDecimal | share_setup.py:60 | the f-string text of an `int` is decimal digits without a leading zero (just `"0"` for zero), after a `'-'` when negative, and the digits denote its absolute value |
| Discovery.ParseBootstrapKeepsColonEntries | share_setup.py:47 | the `__init__` parse keeps exactly the entries that contain `':'`, in order; each pair rejoined with `':'` is the entry; no host contains `':'` |
| Discovery.FetchBootstrapContrast | share_setup.py:121-125 | the unfiltered parse of `fetch_peers` succeeds iff every entry has a `':'`; it then equals the `__init__` parse; the `__init__` parse ignores entries without `':'` |
| Discovery.WithColon | share_setup.py:47 | the `if ':' in b` filter keeps an entry iff it contains `':'` |
| PeerRegistry.Merged | share_setup.py:68-69 | the address is present afterwards; the old list is a prefix of the result; exactly one entry is added iff the address was absent; no duplicate is introduced |
| PeerRegistry.JoinedGrows | share_setup.py:58-73 | after a join whose read and write succeed, the record holds every entry read, in order, and the address; membership is exactly old entries plus the address; no duplicate is introduced |
| PeerRegistry.JoinIdempotent | share_setup.py:68 | after a join whose read and write succeed, a second join with the same address whose read succeeds does not write and leaves the record unchanged, whatever its write would do |
| PeerRegistry.SequentialJoinsKeepBoth | share_setup.py:58-73 | two joins in turn, both of whose reads and writes succeed, leave both addresses, and only those plus the entries read first |
| PeerRegistry.JoinsCommuteAsSets | share_setup.py:58-73 | the order of two successful joins does not change which addresses the record holds |
| PeerRegistry.FailedReadOverwrites | share_setup.py:61-67 | a failed read counts as `[]`, so the following write replaces the record with `[addr]` |
| PeerRegistry.RacingJoinsLoseFirst | share_setup.py:62-71 | two joins that read the same record before either writes: the first stores `a`; the second write, computed from the stale read, replaces it with a list holding `b` and not `a` |
| PeerRegistry.Registry.Set | share_setup.py:70-73 | a `dht.set` counts one write, and changes the record only when it succeeds |
| PeerRegistry.FetchPeers | share_setup.py:121-134 | `fetch_peers` fails iff a bootstrap entry has no `':'`; otherwise it returns the stored list, or `[]` when the read fails or the key is empty |
| PeerRegistry.TwoJoinsThenFetch | share_setup.py:58-73 | two distinct peers joining an empty record in turn, with every read and write succeeding, are then fetched (with a successful read) as exactly `[a, b]` |
| Files.MkdirKeepsValid | share_setup.py:157 | `mkdir(parents=True, exist_ok=True)` keeps the filesystem well formed, makes the path a directory and touches no file |
| Files.UnlinkKeepsValid | share_setup.py:296 | a successful `unlink` keeps the filesystem well formed and leaves nothing at the path |
| Files.Disk.Mkdir | share_setup.py:157 | the disk becomes the state after `mkdir`, or stays as it was when `mkdir` raises |
| Files.Disk.Open | share_setup.py:159 | `open(path, 'wb')` truncates the path to an empty file, or raises when the path is a directory or its parent is not one |
| Files.Disk.Write | share_setup.py:164 | `f.write(chunk)` appends the chunk to the file's content |
| Files.Disk.Unlink | share_setup.py:296 | `unlink(missing_ok=True)` removes the file; a missing file is not an error |
| Catalog.SuffixIsSto | share_setup.py:99 | `PurePath.suffix == '.sto'` iff the name ends in `.sto` with at least one character before it |
| Catalog.SuffixStricterThanGlob | share_setup.py:92-99 | every name with suffix `.sto` matches `*.sto`; the bare name `.sto` matches the glob but has an empty suffix |
| Catalog.GlobSto | share_setup.py:92 | each entry of the directory matching `*.sto` is returned exactly once, and nothing else |
| Catalog.HandleList | share_setup.py:87-93 | fails iff the root is not a directory; the keys are exactly the subdirectories of the root; each value holds, once each, exactly the `*.sto` entries of that subdirectory |
| Catalog.HandleDownload | share_setup.py:95-101 | the file's bytes iff `root/car/fname` is a regular file whose name ends in `.sto` with something before it; NotFound in every other case |
| Catalog.DownloadServesListedFiles | share_setup.py:92-101 | a name is served iff it is listed, is a regular file, and has a character before `.sto` |
| Catalog.ListedButRefused | share_setup.py:92-99 | a directory named `x.sto` and a file named `.sto` are both listed and both refused |
| Catalog.SupercarScenario | share_setup.py:87-101 | a share holding `Supercar/setup1.sto` lists it and serves its exact bytes; `Supercar/missing.sto` is NotFound |
| Fanout.ListAvailable | share_setup.py:137-149 | the result is the peer-by-peer flattening of the offered pairs; a peer whose request fails contributes nothing and does not abort the rest |
| Fanout.HitsAppend | share_setup.py:140 | peers are answered in input order: the result for `a + b` is the result for `a` followed by the result for `b` |
| Fanout.SilentPeerContributesNothing | share_setup.py:147-148 | removing a peer that did not answer, wherever it stands, does not change the result |
| Fanout.HitsLength | share_setup.py:137-149 | the result length is the sum of the lengths of the offered lists |
| Fanout.HitsMember | share_setup.py:137-149 | a pair is in the result iff its peer is in the list and offered that name for the car |
| Fanout.ParseItem | share_setup.py:257 | `split(' - ', 1)` unpacks iff `' - '` occurs, and the pair displayed again is the text |
| Fanout.ItemRoundTrip | share_setup.py:249-257 | `peer - fname` parses back to `(peer, fname)` iff `' - '` does not occur in `peer + ' '`; `fname` may contain `' - '` |
| Fanout.PeerEndingInDashBreaksRoundTrip | share_setup.py:249-257 | the peer `"a -"`, which holds no `' - '`, with file `"x"` parses back as `("a", "- x")` |
| Transfer.Chunks | share_setup.py:160-163 | each non-empty read returns between 1 and 1024 bytes |
| Transfer.ChunksConcat | share_setup.py:160-164 | the reads up to the first empty one, put together, are the whole body |
| Transfer.StreamBody | share_setup.py:159-164 | the loop appends every read to the opened file until the first empty read; completes iff no read raises; the file holds exactly the chunks read |
| Scan.ScanVerdict | share_setup.py:22-29 | `scan_path` passes iff the exit code is 0; any other exit code rejects; a scanner that is not installed passes (fail-open); any other exception from the scanner gives neither verdict; no outcome both passes and rejects |
| Transfer.DownloadFromPeer | share_setup.py:152-165 | the new disk is `AfterDownload` of the old one; saves iff the request, the status (below 400), `mkdir`, `open` and every read succeed; the saved file is `dest_dir/fname` with exactly the body; a connection failure or error status raises with the disk untouched; a broken stream leaves the chunks read so far |
| Transfer.CliDownload | share_setup.py:289-297 | a failed download raises before any scan; otherwise the file at `directory/car/fname` is kept iff the scan is clean (exit code 0, or no scanner: `scan_path`, share_setup.py:22-29), removed iff the scan rejects it, and left in place with the whole body, unscanned, iff the scan raises; a connection or status failure leaves the disk untouched; a kept or unscanned file holds the body and the disk is the made directory plus that file; a rejected file is gone, no longer listed, and the disk is the made directory without it; a crash leaves the state `download_from_peer` left; a broken stream leaves the partial file |
| Share.AddressDisplaysBack | share_setup.py:58-60 | a registered `ip:port` whose ip has no space survives the `peer - fname` display round trip |
| Share.ShareServer.constructor | share_setup.py:43-49 | the server keeps its directory and ports, and holds the filtered bootstrap parse |
| Share.ShareServer.RegisterPeer | share_setup.py:58-73 | the record becomes the join of the node's `ip:port`; one write happens iff the address was not read |
| Share.ShareServer.Start | share_setup.py:51-56 | registers the node's address, then serves |
| Share.CliShare | share_setup.py:270-277 | the node starts (registers and serves) iff the directory scan is clean; a clean scan changes the record and the write count exactly as `register_peer` does; a rejected directory or a raising scan leaves both unchanged |

## Left out

- The DHT transport (`Server.listen`, `bootstrap`, `get`, `set`, `stop`): a recorded state plus a read flag and a write flag stand for it.
- JSON encoding and decoding of the record and of `/list` answers: an undecodable record counts as a failed read, an undecodable answer as a silent peer.
- A `/list` answer whose JSON decodes to something other than a map from names to lists of strings: not representable. In the script, `{"Supercar": "abc"}` yields one pair per character (lines 145-146), and `null` raises at line 144, so that peer is skipped.
- A `"peers"` record whose JSON is not a list of strings: not representable in the model.
- The `int(p)` conversion of bootstrap ports (share_setup.py:54, 125): Python's integer grammar is not modelled, so ports stay text.
- The aiohttp server, routing, `AppRunner`, `FileResponse` and the client session: network I/O, replaced by values (`Response`, listings per peer).
- Short reads: `Chunks` assumes every read returns the full 1024 bytes until the last one, as a fully buffered body gives; the chunk boundaries of a slower stream are not modelled.
- Write failures during `f.write` (a full disk): not modelled.
- `get_ip` (share_setup.py:109-118): socket I/O; the address is an input.
- `setup_firewall` (share_setup.py:32-39): an OS command with no effect on the logic.
- The internals of `clamscan` and `subprocess.run`: the exit code, that the scanner is missing, or that running it raised some other exception (`Raised`), is an input. Which exception it was is not modelled.
- `ShareServer.stop` (share_setup.py:103-106) and the Ctrl+C loop of `cli_main`: shutdown plumbing.
- The `ShareWindow` GUI (share_setup.py:168-267), entirely: as indented, the window class cannot be defined (line 172 uses `self` in the class body), `download_selected` and `_download_async` are not methods, and errors inside its `asyncio` tasks do not end the process. Only the `peer - fname` display and its parse (lines 249 and 257) are modelled, as string functions.
- The listing branch of `cli_main` (share_setup.py:284-288): it prints the pairs in the `peer - fname` form that `Fanout.Item` models.
- `main`, argparse and the asyncio event loop (share_setup.py:300-329): CLI and concurrency plumbing. Concurrent joins are modelled only as `RacingJoinsLoseFirst`.
- Symbolic links, `.` and `..` components, and `Path.resolve`: a path is a plain sequence of names below the root. A traversal outside the root is therefore not representable.
- Empty names and names containing `/` in the download command's `car` and `fname` arguments: `pathlib` drops an empty component and splits one containing `/` into several, while the model appends each argument as a single name. `CliDownload` takes any name, so a download whose arguments hold `/` or are empty is modelled as if the text were one component.
- Console output (`print` at share_setup.py lines 28, 275, 278, 288, 294 and 297): not modelled; the list command's lines are modelled only as the `(peer, fname)` pairs that `ListAvailable` returns. The scanner's report is not modelled either, and a `NotInstalled` outcome is clean with no report.
- Case-insensitive glob matching on Windows: `*.sto` is matched case-sensitively.
- `unlink` on a path one of whose ancestors is a file: the model does not raise there.
- `HandleList` and `GlobSto`: the order of names is left unspecified, as `os.listdir` and `Path.glob` leave it.
