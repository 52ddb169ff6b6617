/** The sharing side: `ShareServer`, whose `start` registers the node's
    address in the DHT's `"peers"` record and then serves the two HTTP
    handlers, and the share branch of `cli_main`, which starts sharing only
    when the scan accepts the shared directory. The machine's address
    (`get_ip`) is an input. */
module Share {
  import opened Common
  import opened Files
  import opened Scan
  import opened Discovery
  import opened PeerRegistry
  import Fanout

  /** `f'{ip}:{port}'`: the address a node registers under. */
  function Address(ip: string, port: int): string
  {
    ip + Colon + IntToDecimal(port)
  }

  /** A registered address shown as `peer - fname` and parsed back returns
      the address and the file name, when the ip holds no space. */
  lemma AddressDisplaysBack(ip: string, port: int, fname: string)
    requires ' ' !in ip
    ensures Fanout.ParseItem(Fanout.Item(Address(ip, port), fname)) == Some((Address(ip, port), fname))
  {
    var s := Address(ip, port) + " ";
    assert forall i :: 0 <= i < |s| - 1 ==> s[i] != ' ' by {
      forall i | 0 <= i < |s| - 1
        ensures s[i] != ' '
      {
        if i < |ip| {
          assert s[i] == ip[i];
        } else if i > |ip| {
          assert s[i] == IntToDecimal(port)[i - |ip| - 1];
        }
      }
    }
    forall j: nat | j <= |s|
      ensures !OccursAt(s, Fanout.Separator, j)
    {
      if j + 3 <= |s| {
        assert s[j..j + 3][0] == s[j] != ' ';
      }
    }
    Fanout.ItemRoundTrip(Address(ip, port), fname);
  }

  /** The node that shares `directory`: its ports, its parsed bootstrap list,
      and whether its HTTP site is up. */
  class ShareServer {
    const directory: Path
    const port: int
    const dhtPort: int
    const bootstrap: seq<HostPort>
    var serving: bool

    /** `ShareServer(directory, port, dht_port, bootstrap)`: the bootstrap
        entries without a `':'` are dropped, the others split at their first
        `':'`. */
    constructor (directory: Path, port: int, dhtPort: int, entries: seq<string>)
      ensures this.directory == directory && this.port == port && this.dhtPort == dhtPort
      ensures bootstrap == ParseBootstrap(entries)
      ensures !serving
    {
      this.directory := directory;
      this.port := port;
      this.dhtPort := dhtPort;
      bootstrap := ParseBootstrap(entries);
      serving := false;
    }

    /** `register_peer`: read the record (empty on failure), and when the
        node's address is not in it, append the address and write the list
        back; a failing write is ignored. */
    method RegisterPeer(dht: Registry, ip: string, reachable: bool, writeOk: bool)
      modifies dht
      ensures dht.record == Joined(old(dht.record), Address(ip, port), reachable, writeOk)
      ensures dht.writes == old(dht.writes) + (if Writes(old(dht.record), Address(ip, port), reachable) then 1 else 0)
    {
      var addr := Address(ip, port);
      var peers := ReadPeers(dht.record, reachable);
      if addr !in peers {
        peers := peers + [addr];
        dht.Set(peers, writeOk);
      }
    }

    /** `start`: register the node's address, then bring up the HTTP site. */
    method Start(dht: Registry, ip: string, reachable: bool, writeOk: bool)
      modifies this, dht
      ensures serving
      ensures dht.record == Joined(old(dht.record), Address(ip, port), reachable, writeOk)
      ensures dht.writes == old(dht.writes) + (if Writes(old(dht.record), Address(ip, port), reachable) then 1 else 0)
    {
      RegisterPeer(dht, ip, reachable, writeOk);
      serving := true;
    }
  }

  /** The share branch of `cli_main`: the server is built first, then the
      directory is scanned, and the node starts (registers and serves) only
      when the scan accepts it; a rejected directory, or a scan that raises
      (the exception ends `cli_main` before `start`), leaves the record and
      its write count as they were. */
  method CliShare(directory: Path, port: int, dhtPort: int, entries: seq<string>, scan: ScanOutcome,
                  dht: Registry, ip: string, reachable: bool, writeOk: bool)
    returns (server: ShareServer)
    modifies dht
    ensures fresh(server)
    ensures server.directory == directory && server.port == port && server.bootstrap == ParseBootstrap(entries)
    ensures server.serving <==> IsClean(scan)
    ensures IsClean(scan) ==> dht.record == Joined(old(dht.record), Address(ip, port), reachable, writeOk)
    ensures IsClean(scan) ==>
      dht.writes == old(dht.writes) + (if Writes(old(dht.record), Address(ip, port), reachable) then 1 else 0)
    ensures !IsClean(scan) ==> dht.record == old(dht.record) && dht.writes == old(dht.writes)
  {
    server := new ShareServer(directory, port, dhtPort, entries);
    if !IsClean(scan) {
      return;
    }
    server.Start(dht, ip, reachable, writeOk);
  }
}
