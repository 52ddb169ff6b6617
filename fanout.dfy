/** `list_available`: ask every known peer for its `/list` and collect the
    `(peer, fname)` pairs offered for one car; and the `peer - fname` text in
    which those pairs are shown and read back. Each peer's answer is
    abstracted as a value: a peer absent from `listings` is one whose request
    or JSON decoding failed. */
module Fanout {
  import opened Common

  /** A decoded `/list` answer: category -> item names. */
  type Listing = map<string, seq<string>>

  /** An offered item: `(peer, fname)`. */
  type Hit = (string, string)

  /** The names `peer` offers for `car`; nothing when it did not answer or has
      no such category. */
  function Offered(car: string, peer: string, listings: map<string, Listing>): seq<string>
  {
    if peer in listings && car in listings[peer] then listings[peer][car] else []
  }

  /** The pairs contributed by one peer, in its listing's order. */
  function PeerHits(car: string, peer: string, listings: map<string, Listing>): (r: seq<Hit>)
    ensures |r| == |Offered(car, peer, listings)|
    ensures forall i :: 0 <= i < |r| ==> r[i] == (peer, Offered(car, peer, listings)[i])
  {
    var names := Offered(car, peer, listings);
    seq(|names|, i requires 0 <= i < |names| => (peer, names[i]))
  }

  /** The pairs of all peers, peer by peer in input order. */
  function Hits(car: string, peers: seq<string>, listings: map<string, Listing>): seq<Hit>
  {
    if peers == [] then []
    else Hits(car, peers[..|peers| - 1], listings) + PeerHits(car, peers[|peers| - 1], listings)
  }

  /** The number of names offered over all peers, counted from the front. */
  function TotalOffered(car: string, peers: seq<string>, listings: map<string, Listing>): nat
  {
    if peers == [] then 0
    else |Offered(car, peers[0], listings)| + TotalOffered(car, peers[1..], listings)
  }

  /** `list_available(car, peers)`: the loop over peers that appends
      `(peer, fname)` for each name of `data[car]`, skipping a peer whose
      request fails without aborting the rest. */
  method ListAvailable(car: string, peers: seq<string>, listings: map<string, Listing>) returns (results: seq<Hit>)
    ensures results == Hits(car, peers, listings)
  {
    results := [];
    for i := 0 to |peers|
      invariant results == Hits(car, peers[..i], listings)
    {
      var peer := peers[i];
      assert peers[..i + 1][..i] == peers[..i];
      if peer in listings {
        var data := listings[peer];
        if car in data {
          var names := data[car];
          for j := 0 to |names|
            invariant results == Hits(car, peers[..i], listings) + PeerHits(car, peer, listings)[..j]
          {
            assert PeerHits(car, peer, listings)[..j + 1] == PeerHits(car, peer, listings)[..j] + [(peer, names[j])];
            results := results + [(peer, names[j])];
          }
          assert PeerHits(car, peer, listings)[..|names|] == PeerHits(car, peer, listings);
        }
      }
    }
    assert peers[..|peers|] == peers;
  }

  /** Peers are answered in input order: the result for a concatenation of
      peer lists is the concatenation of the results. */
  lemma {:induction false} HitsAppend(car: string, a: seq<string>, b: seq<string>, listings: map<string, Listing>)
    ensures Hits(car, a + b, listings) == Hits(car, a, listings) + Hits(car, b, listings)
    decreases |b|
  {
    if b == [] {
      assert a + b == a;
    } else {
      var b', last := b[..|b| - 1], b[|b| - 1];
      calc {
        Hits(car, a + b, listings);
        == { assert (a + b)[..|a + b| - 1] == a + b' && (a + b)[|a + b| - 1] == last; }
        Hits(car, a + b', listings) + PeerHits(car, last, listings);
        == { HitsAppend(car, a, b', listings); }
        (Hits(car, a, listings) + Hits(car, b', listings)) + PeerHits(car, last, listings);
        Hits(car, a, listings) + (Hits(car, b', listings) + PeerHits(car, last, listings));
      }
    }
  }

  /** A peer that did not answer contributes nothing, wherever it stands. */
  lemma SilentPeerContributesNothing(car: string, a: seq<string>, peer: string, b: seq<string>, listings: map<string, Listing>)
    requires peer !in listings
    ensures Hits(car, a + [peer] + b, listings) == Hits(car, a + b, listings)
  {
    var pa := a + [peer];
    assert Hits(car, pa, listings) == Hits(car, a, listings) by {
      assert pa[..|pa| - 1] == a && pa[|pa| - 1] == peer;
      assert PeerHits(car, peer, listings) == [];
    }
    HitsAppend(car, pa, b, listings);
    HitsAppend(car, a, b, listings);
  }

  /** The result has one pair per offered name: its length is the sum of the
      lengths of the offered lists. */
  lemma {:induction false} HitsLength(car: string, peers: seq<string>, listings: map<string, Listing>)
    ensures |Hits(car, peers, listings)| == TotalOffered(car, peers, listings)
    decreases |peers|
  {
    if peers != [] {
      HitsLength(car, peers[1..], listings);
      assert peers == [peers[0]] + peers[1..];
      HitsAppend(car, [peers[0]], peers[1..], listings);
      assert Hits(car, [peers[0]], listings) == Hits(car, [], listings) + PeerHits(car, peers[0], listings);
    }
  }

  /** A pair is in the result exactly when its peer is in the list, answered,
      and offered that name for the car. */
  lemma {:induction false} HitsMember(car: string, peers: seq<string>, listings: map<string, Listing>, h: Hit)
    ensures h in Hits(car, peers, listings) <==> h.0 in peers && h.1 in Offered(car, h.0, listings)
    decreases |peers|
  {
    if peers != [] {
      var init, last := peers[..|peers| - 1], peers[|peers| - 1];
      HitsMember(car, init, listings, h);
      assert peers == init + [last];
      var ph := PeerHits(car, last, listings);
      assert h in ph <==> h.0 == last && h.1 in Offered(car, last, listings) by {
        if h in ph {
          var i :| 0 <= i < |ph| && ph[i] == h;
        }
        if h.0 == last && h.1 in Offered(car, last, listings) {
          var i :| 0 <= i < |Offered(car, last, listings)| && Offered(car, last, listings)[i] == h.1;
          assert ph[i] == h;
        }
      }
    }
  }

  /** The separator between peer and file name in a displayed item. */
  const Separator := " - "

  /** `f'{peer} - {fname}'`. */
  function Item(peer: string, fname: string): string
  {
    peer + Separator + fname
  }

  /** `peer, fname = text.split(' - ', 1)`; None when the unpacking raises
      because the separator is missing. */
  function ParseItem(text: string): (r: Option<Hit>)
    ensures r.Some? <==> Contains(text, Separator)
    ensures r.Some? ==> Item(r.value.0, r.value.1) == text
  {
    SplitOnce(text, Separator)
  }

  /** Displaying a pair and parsing the text back returns the pair exactly
      when `" - "` does not occur in `peer + " "` (so neither inside the
      peer's text nor straddling its end, as for a peer ending in `" -"`);
      the file name may contain `" - "`. */
  lemma ItemRoundTrip(peer: string, fname: string)
    ensures ParseItem(Item(peer, fname)) == Some((peer, fname)) <==> !Contains(peer + " ", Separator)
  {
    var text := Item(peer, fname);
    var n := |peer|;
    ItemOccurrencesBeforeSeparator(peer, fname);
    if Contains(peer + " ", Separator) {
      var j: nat :| j <= |peer + " "| && OccursAt(peer + " ", Separator, j);
      assert OccursAt(text, Separator, j);
      assert Contains(text, Separator) by {
        assert j <= |text|;
      }
      var r := ParseItem(text).value;
      assert |r.0| <= j < n;
    } else {
      assert OccursAt(text, Separator, n) by {
        assert text[n..n + 3] == Separator;
      }
      SplitOnceAt(text, Separator, n);
      assert text[..n] == peer && text[n + 3..] == fname;
    }
  }

  /** Before the peer's end, `" - "` occurs in the displayed item exactly
      where it occurs in `peer + " "`, and every occurrence in `peer + " "`
      starts before the peer's end. */
  lemma ItemOccurrencesBeforeSeparator(peer: string, fname: string)
    ensures forall j: nat :: j < |peer| ==>
      (OccursAt(Item(peer, fname), Separator, j) <==> OccursAt(peer + " ", Separator, j))
    ensures forall j: nat :: OccursAt(peer + " ", Separator, j) ==> j < |peer|
  {
    var text := Item(peer, fname);
    var p := peer + " ";
    var n := |peer|;
    forall j: nat | j < n
      ensures OccursAt(text, Separator, j) <==> OccursAt(p, Separator, j)
    {
      if j + 3 <= n + 1 {
        assert text[j..j + 3] == p[j..j + 3];
      } else {
        assert text[j..j + 3][1] == text[n] == ' ';
      }
    }
  }

  /** A peer text without `" - "` is not enough: `"a -"` displayed with `"x"`
      reads back as peer `"a"` and file name `"- x"`. */
  lemma PeerEndingInDashBreaksRoundTrip()
    ensures !Contains("a -", Separator)
    ensures ParseItem(Item("a -", "x")) == Some(("a", "- x"))
  {
    assert !Contains("a -", Separator) by {
      forall j: nat | j <= 3 ensures !OccursAt("a -", Separator, j) {
        if j == 0 {
          assert "a -"[0..3][0] == 'a';
        }
      }
    }
    var text := Item("a -", "x");
    assert text == "a - - x";
    assert OccursAt(text, Separator, 1) by {
      assert text[1..4] == " - ";
    }
    assert !OccursAt(text, Separator, 0) by {
      assert text[0] == 'a';
    }
    SplitOnceAt(text, Separator, 1);
    assert text[..1] == "a" && text[4..] == "- x";
  }
}
