/** Parsing of the `host:port` bootstrap list, in its two forms: the filtering
    comprehension of `ShareServer.__init__` and the unfiltered one of
    `fetch_peers`. Ports stay text; the later `int(p)` is not part of this model. */
module Discovery {
  import opened Common

  /** A bootstrap node as `(host, port)`, both still text. */
  type HostPort = (string, string)

  const Colon := ":"

  /** The entries that contain a `':'`, in their original order. */
  function WithColon(entries: seq<string>): (r: seq<string>)
    ensures forall x :: x in r ==> x in entries && ':' in x
    ensures forall x :: x in entries && ':' in x ==> x in r
    ensures |r| <= |entries|
  {
    if entries == [] then []
    else (if ':' in entries[0] then [entries[0]] else []) + WithColon(entries[1..])
  }

  /** `[tuple(b.split(':', 1)) for b in bootstrap if ':' in b]`. */
  function ParseBootstrap(entries: seq<string>): (r: seq<HostPort>)
    ensures |r| <= |entries|
  {
    if entries == [] then []
    else if ':' in entries[0] then
      ContainsChar(entries[0], ':');
      [SplitOnce(entries[0], Colon).value] + ParseBootstrap(entries[1..])
    else ParseBootstrap(entries[1..])
  }

  /** `[(h, p) for h, p in (b.split(':', 1) for b in bootstrap)]` before
      `int(p)`: one entry without a `':'` makes the unpacking raise, which
      None stands for. */
  function FetchBootstrap(entries: seq<string>): (r: Option<seq<HostPort>>)
  {
    if entries == [] then Some([])
    else
      match (SplitOnce(entries[0], Colon), FetchBootstrap(entries[1..]))
      case (Some(hp), Some(rest)) => Some([hp] + rest)
      case _ => None
  }

  /** Joins a parsed pair back into its `host:port` text. */
  function Rejoin(hps: seq<HostPort>): (r: seq<string>)
    ensures |r| == |hps|
  {
    if hps == [] then [] else [hps[0].0 + Colon + hps[0].1] + Rejoin(hps[1..])
  }

  /** The split half of a parsed entry never contains a `':'`. */
  lemma HostHasNoColon(s: string)
    requires ':' in s
    ensures SplitOnce(s, Colon).Some? && ':' !in SplitOnce(s, Colon).value.0
  {
    ContainsChar(s, ':');
    var host := SplitOnce(s, Colon).value.0;
    if ':' in host {
      var j :| 0 <= j < |host| && host[j] == ':';
      assert s[j..j + 1] == [':'];
      assert OccursAt(s, Colon, j);
    }
  }

  /** The comprehension keeps exactly the entries that contain a `':'`, in
      order; each becomes a pair whose host has no `':'` and which rejoined
      with `':'` gives the entry back. */
  lemma {:induction false} ParseBootstrapKeepsColonEntries(entries: seq<string>)
    ensures Rejoin(ParseBootstrap(entries)) == WithColon(entries)
    ensures forall i :: 0 <= i < |ParseBootstrap(entries)| ==> ':' !in ParseBootstrap(entries)[i].0
  {
    if entries != [] {
      ParseBootstrapKeepsColonEntries(entries[1..]);
      if ':' in entries[0] {
        HostHasNoColon(entries[0]);
        var hp := SplitOnce(entries[0], Colon).value;
        assert ParseBootstrap(entries) == [hp] + ParseBootstrap(entries[1..]);
        assert ([hp] + ParseBootstrap(entries[1..]))[1..] == ParseBootstrap(entries[1..]);
      }
    }
  }

  /** `fetch_peers` does not filter: its parse succeeds exactly when every
      entry has a `':'`, and then agrees with the filtering parse of
      `__init__`; an entry without `':'`, silently dropped by `__init__`,
      makes `fetch_peers` fail. */
  lemma {:induction false} FetchBootstrapContrast(entries: seq<string>)
    ensures FetchBootstrap(entries).Some? <==> forall x :: x in entries ==> ':' in x
    ensures FetchBootstrap(entries).Some? ==> FetchBootstrap(entries).value == ParseBootstrap(entries)
    ensures ParseBootstrap(entries) == ParseBootstrap(WithColon(entries))
  {
    if entries != [] {
      var head, tail := entries[0], entries[1..];
      FetchBootstrapContrast(tail);
      ContainsChar(head, ':');
      assert forall x :: x in entries <==> x == head || x in tail by {
        assert entries == [head] + tail;
      }
      if ':' in head {
        assert WithColon(entries) == [head] + WithColon(tail);
        assert ([head] + WithColon(tail))[1..] == WithColon(tail);
      } else {
        assert WithColon(entries) == WithColon(tail);
      }
    }
  }
}
