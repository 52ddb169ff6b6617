/** The `"peers"` record of the DHT, as `register_peer` and `fetch_peers`
    read and write it. The DHT itself is a collaborator: its stored value is
    an `Option` (None: the key is absent or empty), a failed `get` (or an
    undecodable value) is the flag `reachable == false`, and a failed `set`
    is the flag `writeOk == false`. */
module PeerRegistry {
  import opened Common
  import Discovery

  /** `peers = []; data = await dht.get(key); if data: peers = json.loads(data)`,
      with every exception turning into the empty list. */
  function ReadPeers(record: Option<seq<string>>, reachable: bool): seq<string>
  {
    if reachable && record.Some? then record.value else []
  }

  /** The grow-only insert of `register_peer`: `addr` is appended at the end
      when it is absent, and the list is otherwise left as it is. */
  function Merged(peers: seq<string>, addr: string): (r: seq<string>)
    ensures addr in r
    ensures forall x :: x in r <==> x in peers || x == addr
    ensures |peers| <= |r| && r[..|peers|] == peers
    ensures |r| == if addr in peers then |peers| else |peers| + 1
    ensures NoDup(peers) ==> NoDup(r)
  {
    if addr in peers then peers else peers + [addr]
  }

  /** Whether `register_peer` calls `dht.set`: only when `addr` was not read. */
  predicate Writes(record: Option<seq<string>>, addr: string, reachable: bool)
  {
    addr !in ReadPeers(record, reachable)
  }

  /** The record after one `register_peer(addr)`: written only when `addr` was
      not in what was read, and then only if the `set` succeeds. */
  function Joined(record: Option<seq<string>>, addr: string, reachable: bool, writeOk: bool): Option<seq<string>>
  {
    if Writes(record, addr, reachable) && writeOk then Some(Merged(ReadPeers(record, reachable), addr))
    else record
  }

  /** After a join whose read and write both succeed, the record holds every
      entry read before it, in order, with `addr` present exactly once more
      than before at most, and no duplicate introduced. */
  lemma JoinedGrows(record: Option<seq<string>>, addr: string)
    ensures var after := Joined(record, addr, true, true);
      && after.Some?
      && addr in after.value
      && (forall x :: x in after.value <==> x in ReadPeers(record, true) || x == addr)
      && after.value[..|ReadPeers(record, true)|] == ReadPeers(record, true)
      && (record.Some? && NoDup(record.value) ==> NoDup(after.value))
  {
    if !Writes(record, addr, true) {
      assert ReadPeers(record, true) == record.value;
      assert record.value[..|record.value|] == record.value;
    }
  }

  /** Joining twice with the same address changes nothing the second time,
      and the second call does not write. */
  lemma JoinIdempotent(record: Option<seq<string>>, addr: string, writeOk: bool)
    ensures var once := Joined(record, addr, true, true);
      !Writes(once, addr, true) && Joined(once, addr, true, writeOk) == once
  {
    JoinedGrows(record, addr);
  }

  /** Two peers joining one after the other (each read seeing the previous
      write) both end up in the record, whatever the initial record held;
      the entries are those read first, then the two addresses if new. */
  lemma {:induction false} SequentialJoinsKeepBoth(record: Option<seq<string>>, a: string, b: string)
    ensures var after := Joined(Joined(record, a, true, true), b, true, true);
      && after.Some?
      && a in after.value && b in after.value
      && (forall x :: x in after.value <==> x in ReadPeers(record, true) || x == a || x == b)
  {
    JoinedGrows(record, a);
    JoinedGrows(Joined(record, a, true, true), b);
  }

  /** The joins commute as sets: the order of two successful joins does not
      change which addresses the record holds. */
  lemma {:induction false} JoinsCommuteAsSets(record: Option<seq<string>>, a: string, b: string)
    ensures var ab := Joined(Joined(record, a, true, true), b, true, true);
      var ba := Joined(Joined(record, b, true, true), a, true, true);
      forall x :: x in ab.value <==> x in ba.value
  {
    SequentialJoinsKeepBoth(record, a, b);
    SequentialJoinsKeepBoth(record, b, a);
  }

  /** A failed read is treated as an empty record, so a successful write that
      follows it replaces whatever the record held with the single entry
      `[addr]`: the earlier entries are lost. */
  lemma FailedReadOverwrites(peers: seq<string>, addr: string)
    ensures Joined(Some(peers), addr, false, true) == Some([addr])
  {
  }

  /** The record after a `register_peer(addr)` whose read saw `seen` while
      the record now holds `current`: the write, if any, is computed from
      `seen` and replaces `current`. */
  function StaleJoined(current: Option<seq<string>>, seen: Option<seq<string>>, addr: string, reachable: bool, writeOk: bool): (r: Option<seq<string>>)
    ensures current == seen ==> r == Joined(seen, addr, reachable, writeOk)
  {
    if Writes(seen, addr, reachable) && writeOk then Some(Merged(ReadPeers(seen, reachable), addr))
    else current
  }

  /** Two joins that both read `record` before either writes: the first
      write stores `a`, and the second, computed from the stale read,
      replaces it with a list that holds `b` but not `a` (last write wins). */
  lemma RacingJoinsLoseFirst(record: Option<seq<string>>, a: string, b: string)
    requires a != b && a !in ReadPeers(record, true) && b !in ReadPeers(record, true)
    ensures var first := Joined(record, a, true, true);
      var second := StaleJoined(first, record, b, true, true);
      && first == Some(ReadPeers(record, true) + [a])
      && second == Some(ReadPeers(record, true) + [b])
      && b in second.value && a !in second.value
  {
  }

  /** The DHT's `"peers"` record and the number of `set` calls made on it. */
  class Registry {
    var record: Option<seq<string>>
    var writes: nat

    constructor (initial: Option<seq<string>>)
      ensures record == initial && writes == 0
    {
      record := initial;
      writes := 0;
    }

    /** `dht.set('peers', json.dumps(value))`; a failing set changes nothing. */
    method Set(value: seq<string>, ok: bool)
      modifies this
      ensures writes == old(writes) + 1
      ensures record == if ok then Some(value) else old(record)
    {
      writes := writes + 1;
      if ok {
        record := Some(value);
      }
    }
  }

  /** `fetch_peers`: the bootstrap parse raises (None) when some entry lacks a
      `':'`; otherwise the result is the read of the record, empty on any
      failure. */
  function FetchPeers(bootstrap: seq<string>, record: Option<seq<string>>, reachable: bool): (r: Option<seq<string>>)
    ensures r.Some? <==> forall x :: x in bootstrap ==> ':' in x
    ensures r.Some? ==> r.value == (if reachable && record.Some? then record.value else [])
  {
    Discovery.FetchBootstrapContrast(bootstrap);
    match Discovery.FetchBootstrap(bootstrap)
    case None => None
    case Some(_) => Some(ReadPeers(record, reachable))
  }

  /** The scenario of two distinct peers joining an empty registry in turn:
      a third peer's fetch then returns exactly both addresses, in join order. */
  lemma TwoJoinsThenFetch(a: string, b: string)
    requires a != b
    ensures var rec := Joined(Joined(None, a, true, true), b, true, true);
      FetchPeers([], rec, true) == Some([a, b])
  {
    assert ReadPeers(None, true) == [] && Writes(None, a, true);
    assert Merged([], a) == [a];
    assert Joined(None, a, true, true) == Some([a]);
    assert ReadPeers(Some([a]), true) == [a] && Writes(Some([a]), b, true);
    assert Merged([a], b) == [a, b];
    assert Joined(Some([a]), b, true, true) == Some([a, b]);
  }
}
