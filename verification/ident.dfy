/** The file-name fallback of `parse_pcap` in the grid plugin: a capture
    file `ESSID_BSSID.pcap` (or `BSSID.pcap`) names its network, and the
    compact hardware address is regrouped into colon-separated octets.
    The pcap content parser is an oracle whose answer, when there is one,
    replaces the fallback. */
module Ident {
  import opened Wrappers
  import opened Text

  /** The extension stripped from capture file names. */
  const PcapExt: string := ".pcap"

  /** A network as reported to the grid: its name and hardware address. */
  datatype Ap = Ap(essid: string, bssid: string)

  /** Unpacking `net_id.split('_')` into two names raised: the id had
      `parts` pieces. */
  datatype ParseError = UnpackError(parts: nat)

  /** The raw id of a capture file: its base name with every `.pcap`
      removed. */
  function NetId(name: string): (id: string)
    ensures id == name <==> !Contains(name, PcapExt)
  {
    RemoveAll(name, PcapExt)
  }

  /** Stripping `.pcap` from `stem + ".pcap"` gives back `stem` when the stem
      holds no `.pcap` of its own. */
  lemma {:induction false} NetIdOfStem(stem: string)
    requires !Contains(stem, PcapExt)
    ensures NetId(stem + PcapExt) == stem
  {
    var s := stem + PcapExt;
    if |stem| == 0 {
      assert s == PcapExt;
      assert s[|PcapExt|..] == "";
    } else {
      if |stem| >= |PcapExt| {
        assert s[..|PcapExt|] == stem[0..|PcapExt|];
        assert !OccursAt(stem, PcapExt, 0);
      } else {
        assert s[|stem|] == '.';
        assert s[..|PcapExt|][|stem|] == '.';
      }
      assert !StartsWith(s, PcapExt);
      assert s[1..] == stem[1..] + PcapExt;
      forall i | 0 <= i <= |stem| - 1 - |PcapExt|
        ensures !OccursAt(stem[1..], PcapExt, i)
      {
        assert !OccursAt(stem, PcapExt, i + 1);
        assert stem[1..][i..i + |PcapExt|] == stem[i + 1..i + 1 + |PcapExt|];
      }
      NetIdOfStem(stem[1..]);
      assert stem == [stem[0]] + stem[1..];
    }
  }

  /** Every `.pcap` is removed, not only a final one: the raw id of
      `x.pcapy` is the raw id of `x` followed by the raw id of `y`. */
  lemma {:induction false} NetIdSplices(x: string, y: string)
    ensures NetId(x + PcapExt + y) == NetId(x) + NetId(y)
  {
    var s := x + PcapExt + y;
    if |x| == 0 {
      assert s == PcapExt + y;
      assert StartsWith(s, PcapExt);
      assert s[|PcapExt|..] == y;
    } else if StartsWith(x, PcapExt) {
      assert s[..|PcapExt|] == x[..|PcapExt|];
      assert s[|PcapExt|..] == x[|PcapExt|..] + PcapExt + y;
      NetIdSplices(x[|PcapExt|..], y);
    } else {
      assert !StartsWith(s, PcapExt) by {
        if |x| < |PcapExt| {
          assert s[|x|] == '.';
          assert s[..|PcapExt|][|x|] == '.';
        } else {
          assert s[..|PcapExt|] == x[..|PcapExt|];
        }
      }
      assert s[1..] == x[1..] + PcapExt + y;
      NetIdSplices(x[1..], y);
      NetIdKeep(x, s, NetId(y));
    }
  }

  /** The inductive step of `NetIdSplices` where the first character is
      kept on both sides. */
  lemma NetIdKeep(x: string, s: string, tail: string)
    requires |x| > 0 && |s| > 0 && s[0] == x[0]
    requires !StartsWith(s, PcapExt) && !StartsWith(x, PcapExt)
    requires NetId(s[1..]) == NetId(x[1..]) + tail
    ensures NetId(s) == NetId(x) + tail
  {
    NetIdStep(s);
    NetIdStep(x);
  }

  /** Where no `.pcap` starts, the first character is kept. */
  lemma NetIdStep(s: string)
    requires |s| > 0 && !StartsWith(s, PcapExt)
    ensures NetId(s) == [s[0]] + NetId(s[1..])
  {
  }

  /** The `essid, bssid = ...` step: no `_` gives an empty name and the whole
      id as compact address; exactly one `_` splits the id; more than one
      makes the two-name unpacking raise. */
  function SplitId(id: string): (r: Result<(string, string), ParseError>)
    ensures r.Failure? <==> Occurrences(id, '_') >= 2
    ensures '_' !in id ==> r == Success(("", id))
    ensures r.Success? && '_' in id ==>
              r.value.0 + "_" + r.value.1 == id
              && '_' !in r.value.0 && '_' !in r.value.1
  {
    OccurrencesZero(id, '_');
    if '_' in id then
      var parts := Split(id, '_');
      JoinSplit(id, '_');
      if |parts| == 2 then Success((parts[0], parts[1]))
      else Failure(UnpackError(|parts|))
    else Success(("", id))
  }

  /** A name and a compact address without `_`, joined by `_`, split back
      into the same two fields. */
  lemma SplitIdJoin(essid: string, compact: string)
    requires '_' !in essid && '_' !in compact
    ensures SplitId(essid + "_" + compact) == Success((essid, compact))
  {
    var id := essid + "_" + compact;
    assert id[|essid|] == '_';
    SplitJoin([essid, compact], '_');
    assert Join('_', [essid, compact]) == id;
  }

  /** `zip(it, it)` over the characters: consecutive pairs, with a trailing
      odd character dropped. */
  function Pairs(s: string): (ps: seq<string>)
    ensures |ps| == |s| / 2
    ensures forall k :: 0 <= k < |ps| ==> ps[k] == s[2 * k..2 * k + 2]
  {
    if |s| < 2 then [] else [s[..2]] + Pairs(s[2..])
  }

  /** `':'.join(a + b for a, b in zip(it, it))`: the canonical hardware
      address built from its compact form. */
  function Canonical(compact: string): string {
    Join(':', Pairs(compact))
  }

  /** The canonical form is empty exactly when the compact form has fewer
      than two characters. */
  lemma CanonicalEmpty(compact: string)
    ensures Canonical(compact) == "" <==> |compact| < 2
  {
    if |compact| >= 2 {
      var ps := Pairs(compact);
      if |ps| == 1 {
        assert |Canonical(compact)| == 2;
      } else {
        assert |Canonical(compact)| >= 2;
      }
    }
  }

  /** Removing the colons of a canonical address gives back the longest
      even-length prefix of a colon-free compact form. */
  lemma {:induction false} CanonicalUncolon(compact: string)
    requires ':' !in compact
    ensures RemoveChar(Canonical(compact), ':') == compact[..|compact| - |compact| % 2]
  {
    if |compact| < 2 {
      assert compact[..|compact| - |compact| % 2] == "";
    } else {
      var head := compact[..2];
      var tail := compact[2..];
      assert ':' !in head && ':' !in tail by {
        assert forall k :: 0 <= k < |head| ==> head[k] == compact[k];
        assert forall k :: 0 <= k < |tail| ==> tail[k] == compact[k + 2];
      }
      CanonicalUncolon(tail);
      RemoveCharAbsent(head, ':');
      assert Pairs(compact) == [head] + Pairs(tail);
      if |tail| < 2 {
        assert Canonical(compact) == head;
        assert compact[..|compact| - |compact| % 2] == head;
      } else {
        assert Canonical(compact) == head + ":" + Canonical(tail);
        RemoveCharAppend(head + ":", Canonical(tail), ':');
        RemoveCharAppend(head, ":", ':');
        assert RemoveChar(":", ':') == "";
        assert compact[..|compact| - |compact| % 2]
            == head + tail[..|tail| - |tail| % 2];
      }
    }
  }

  /** Splitting a canonical address at its colons gives the octet pairs of
      a colon-free compact form. */
  lemma CanonicalOctets(compact: string)
    requires ':' !in compact && |compact| >= 2
    ensures Split(Canonical(compact), ':') == Pairs(compact)
  {
    var ps := Pairs(compact);
    forall k | 0 <= k < |ps|
      ensures ':' !in ps[k]
    {
      assert forall j :: 0 <= j < |ps[k]| ==> ps[k][j] == compact[2 * k + j];
    }
    SplitJoin(ps, ':');
  }

  /** `parse_pcap`: the essid and bssid derived from the file name, replaced
      by what the content parser extracted when it succeeded. Only the
      two-name unpacking can raise. */
  function ParsePcap(name: string, extracted: Option<Ap>): (r: Result<Ap, ParseError>)
    ensures r.Failure? <==> Occurrences(NetId(name), '_') >= 2
    ensures r.Success? && extracted.Some? ==> r.value == extracted.value
  {
    match SplitId(NetId(name))
    case Failure(e) => Failure(e)
    case Success((essid, compact)) =>
      Success(extracted.GetOr(Ap(essid, Canonical(compact))))
  }

  /** Without extraction, `ESSID_BSSID.pcap` parses to the name and the
      canonical form of the compact address. */
  lemma ParseFallback(essid: string, compact: string)
    requires '_' !in essid && '_' !in compact
    requires !Contains(essid + "_" + compact, PcapExt)
    ensures ParsePcap(essid + "_" + compact + PcapExt, None)
            == Success(Ap(essid, Canonical(compact)))
  {
    NetIdOfStem(essid + "_" + compact);
    SplitIdJoin(essid, compact);
  }

  /** Without extraction, `BSSID.pcap` parses to an empty name and the
      canonical form of the compact address. */
  lemma ParseFallbackNoName(compact: string)
    requires '_' !in compact
    requires !Contains(compact, PcapExt)
    ensures ParsePcap(compact + PcapExt, None) == Success(Ap("", Canonical(compact)))
  {
    NetIdOfStem(compact);
  }

  /** Without extraction, a file whose raw id is `essid_compact` parses to
      that name and the canonical form of the compact address, whatever
      copies of `.pcap` the removal took out of the file name. */
  lemma ParseFallbackId(name: string, essid: string, compact: string)
    requires NetId(name) == essid + "_" + compact
    requires '_' !in essid && '_' !in compact
    ensures ParsePcap(name, None) == Success(Ap(essid, Canonical(compact)))
  {
    SplitIdJoin(essid, compact);
  }

  /** Without extraction, a file whose raw id holds no `_` parses to an
      empty name and the canonical form of the whole raw id. */
  lemma ParseFallbackNoNameId(name: string)
    requires '_' !in NetId(name)
    ensures ParsePcap(name, None) == Success(Ap("", Canonical(NetId(name))))
  {
  }

  /** The octet pairs of a twelve-digit compact address. */
  lemma PairsExample()
    ensures Pairs("aabbccddeeff") == ["aa", "bb", "cc", "dd", "ee", "ff"]
  {
    var s := "aabbccddeeff";
    var ps := Pairs(s);
    assert ps[0] == s[0..2] == "aa";
    assert ps[1] == s[2..4] == "bb";
    assert ps[2] == s[4..6] == "cc";
    assert ps[3] == s[6..8] == "dd";
    assert ps[4] == s[8..10] == "ee";
    assert ps[5] == s[10..12] == "ff";
  }

  /** Six octets joined by colons. */
  lemma JoinExample()
    ensures Join(':', ["aa", "bb", "cc", "dd", "ee", "ff"]) == "aa:bb:cc:dd:ee:ff"
  {
    var ps := ["aa", "bb", "cc", "dd", "ee", "ff"];
    assert Join(':', ps[5..]) == "ff";
    assert ps[4..][1..] == ps[5..];
    assert Join(':', ps[4..]) == "ee:ff";
    assert ps[3..][1..] == ps[4..];
    assert Join(':', ps[3..]) == "dd:ee:ff";
    assert ps[2..][1..] == ps[3..];
    assert Join(':', ps[2..]) == "cc:dd:ee:ff";
    assert ps[1..][1..] == ps[2..];
    assert Join(':', ps[1..]) == "bb:cc:dd:ee:ff";
  }

  /** The canonical form of a twelve-digit compact address. */
  lemma CanonicalExample()
    ensures Canonical("aabbccddeeff") == "aa:bb:cc:dd:ee:ff"
  {
    PairsExample();
    JoinExample();
  }

  /** The file-name example `ESSID_BSSID.pcap` of the plugin's comments,
      without extraction: name and compact address split at the `_`. */
  lemma ParseExampleSplit()
    ensures ParsePcap("MyNet_aabbccddeeff.pcap", None)
            == Success(Ap("MyNet", Canonical("aabbccddeeff")))
  {
    var stem := "MyNet_aabbccddeeff";
    assert "MyNet" + "_" + "aabbccddeeff" == stem;
    assert '.' !in stem;
    assert stem + PcapExt == "MyNet_aabbccddeeff.pcap";
    NotContainsHead(stem, PcapExt);
    ParseFallback("MyNet", "aabbccddeeff");
  }

  /** The same example with the address in canonical form. */
  lemma ParseExampleNamed()
    ensures ParsePcap("MyNet_aabbccddeeff.pcap", None)
            == Success(Ap("MyNet", "aa:bb:cc:dd:ee:ff"))
  {
    ParseExampleSplit();
    CanonicalExample();
  }

  /** The file-name example `BSSID.pcap` of the plugin's comments, without
      extraction: an empty name and the whole id as compact address. */
  lemma ParseExampleNoSplit()
    ensures ParsePcap("aabbccddeeff.pcap", None)
            == Success(Ap("", Canonical("aabbccddeeff")))
  {
    assert '.' !in "aabbccddeeff";
    assert "aabbccddeeff" + PcapExt == "aabbccddeeff.pcap";
    NotContainsHead("aabbccddeeff", PcapExt);
    ParseFallbackNoName("aabbccddeeff");
  }

  /** The same example with the address in canonical form. */
  lemma ParseExampleUnnamed()
    ensures ParsePcap("aabbccddeeff.pcap", None)
            == Success(Ap("", "aa:bb:cc:dd:ee:ff"))
  {
    ParseExampleNoSplit();
    CanonicalExample();
  }

  /** A network name holding `_` (`My_Net_aabbccddeeff.pcap`) makes the
      file name ambiguous: parsing raises, whatever the content parser would
      have found. */
  lemma ParseAmbiguous(left: string, right: string, compact: string, extracted: Option<Ap>)
    requires !Contains(left + "_" + right + "_" + compact, PcapExt)
    ensures ParsePcap(left + "_" + right + "_" + compact + PcapExt, extracted).Failure?
  {
    var stem := left + "_" + right + "_" + compact;
    NetIdOfStem(stem);
    OccurrencesAppend(left + "_", right + "_" + compact, '_');
    OccurrencesAppend(left, "_", '_');
    OccurrencesAppend(right + "_", compact, '_');
    OccurrencesAppend(right, "_", '_');
    assert left + "_" + (right + "_" + compact) == stem;
    assert (right + "_") + compact == right + "_" + compact;
  }
}
