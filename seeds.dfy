/** `main`: the report read line by line, parsed, passed through the quality gates,
    sorted by availability, rid of hosts seen on several ports, capped per autonomous
    system, sorted by network and address, and printed one `host:port` per line. */
module Seeds {
  import opened Text
  import opened Patterns
  import opened Records
  import opened Parse
  import opened Gates
  import opened Ordering
  import opened Multiport
  import opened Asn

  // ---------------------------------------------------------------- printing

  /** Lines 164-168: `[host]:port` for IPv6, `host:port` otherwise. */
  function Format(r: Record): string
  {
    if r.net == IPv6 then "[" + r.ip + "]:" + Decimal(r.port) else r.ip + ":" + Decimal(r.port)
  }

  /** What a printed seed names: the kind of network, the host and the port. */
  datatype Endpoint = Endpoint(net: Net, host: string, port: nat)

  /** The endpoint a token names, read with the patterns of `parseline`. */
  function EndpointOf(tok: string): Option<Endpoint>
  {
    match AddressOf(tok)
    case V4Address(m) => Some(Endpoint(IPv4, m.host, DigitsValue(m.port)))
    case V6Address(m) => Some(Endpoint(IPv6, m.host, DigitsValue(m.port)))
    case OnionAddress(m) => Some(Endpoint(Onion, m.host, DigitsValue(m.port)))
    case NoAddress => None
  }

  /** A printed seed, read back with the patterns it was parsed with, names the record's
      own network, host and port. */
  lemma FormatReparses(r: Record)
    requires WellFormed(r)
    ensures EndpointOf(Format(r)) == Some(Endpoint(r.net, r.ip, r.port))
  {
    var port := Decimal(r.port);
    DecimalValue(r.port);
    match r.net
    case IPv4 =>
      var octets :| V4Host(r.ip, octets) && Ipv4Number(OctetValues(octets)) == r.ipnum;
      MatchIPv4Complete(octets, port);
    case IPv6 =>
      MatchIPv6Complete(r.ip, port);
      GrammarsExclusive(Format(r));
    case Onion =>
      MatchOnionComplete(r.ip[..16], port);
      GrammarsExclusive(Format(r));
  }

  /** A printed seed, read back as token 0 of a report line, locates the record's own
      network, host, port, number and sort key. */
  lemma LocateFormat(r: Record)
    requires WellFormed(r)
    ensures Locate(Format(r)) == Some(Location(r.net, r.ip, r.port, r.ipnum, r.sortKey))
  {
    var port := Decimal(r.port);
    DecimalValue(r.port);
    match r.net
    case IPv4 =>
      var octets :| V4Host(r.ip, octets) && Ipv4Number(OctetValues(octets)) == r.ipnum;
      LocateIPv4Text(octets, port, r.ipnum.value);
    case IPv6 =>
      LocateIPv6Text(r.ip, port);
    case Onion =>
      LocateOnionText(r.ip[..16], port);
  }

  /** The round trip of `parseline`. Take a well-formed record and tokens where:
      token 0 is the record's printed address; tokens 2, 8 and 10 are its last success,
      blocks and version printed with `'%i'`; token 9 is its service flags printed with
      `'%x'`; token 7 is a text that `float()` reads as its uptime, followed by `%`; tokens
      11 and 12 are its agent in double quotes, cut in two at some place. Such a line is
      accepted with exactly that record. */
  lemma ParseTokensOf(r: Record, t: seq<string>, up: string, k: nat, floatOf: string -> Option<real>)
    requires WellFormed(r) && |t| >= 13 && k <= |r.agent|
    requires t[0] == Format(r)
    requires t[2] == DecimalText(r.lastSuccess) && t[8] == DecimalText(r.blocks)
    requires t[10] == DecimalText(r.version) && t[9] == HexText(r.service)
    requires t[7] == up + "%" && floatOf(up) == Some(r.uptime)
    requires t[11] == "\"" + r.agent[..k] && t[12] == r.agent[k..] + "\""
    ensures ParseTokens(t, floatOf) == Accepted(r)
  {
    var loc := Location(r.net, r.ip, r.port, r.ipnum, r.sortKey);
    assert Locate(t[0]) == Some(loc) by { LocateFormat(r); }
    assert PyInt(t[2], 10) == Some(r.lastSuccess) by { PyIntDecimalText(r.lastSuccess); }
    assert PyInt(t[8], 10) == Some(r.blocks) by { PyIntDecimalText(r.blocks); }
    assert PyInt(t[10], 10) == Some(r.version) by { PyIntDecimalText(r.version); }
    assert PyInt(t[9], 16) == Some(r.service) by { PyIntHexText(r.service); }
    assert DropLast(t[7]) == up;
    QuotedAgent(t, r.agent, k);
    FieldsAccepted(t, loc, floatOf, r);
  }

  /** The same for the text of the line: the tokens joined by spaces. */
  lemma ParseLineOf(r: Record, t: seq<string>, up: string, k: nat, floatOf: string -> Option<real>)
    requires WellFormed(r) && |t| >= 13 && k <= |r.agent|
    requires t[0] == Format(r)
    requires t[2] == DecimalText(r.lastSuccess) && t[8] == DecimalText(r.blocks)
    requires t[10] == DecimalText(r.version) && t[9] == HexText(r.service)
    requires t[7] == up + "%" && floatOf(up) == Some(r.uptime)
    requires t[11] == "\"" + r.agent[..k] && t[12] == r.agent[k..] + "\""
    requires forall i :: 0 <= i < |t| ==> t[i] != [] && NoSpace(t[i])
    ensures ParseLine(Join(t), floatOf) == Accepted(r)
  {
    SplitJoin(t);
    ParseTokensOf(r, t, up, k, floatOf);
  }

  /** Each record's line, in order. */
  function SeedLines(s: seq<Record>): (out: seq<string>)
    ensures |out| == |s|
    ensures forall i :: 0 <= i < |s| ==> out[i] == Format(s[i])
  {
    if s == [] then [] else SeedLines(s[..|s| - 1]) + [Format(s[|s| - 1])]
  }

  // ---------------------------------------------------------------- the pipeline

  /** Lines 144-162, from the parsed records to the sorted seeds. */
  function Pipeline(cfg: Config, zmg: seq<Record>, asnOf: string -> Option<int>): seq<Record>
  {
    var byQuality := Sort(ByQualityDesc, QualityFilter(cfg, zmg));
    var capped := AsnFiltered(Singles(byQuality), cfg.maxPerAsn, cfg.nSeeds, asnOf);
    Sort(ByNetKey, capped)
  }

  /** What `main` prints, one string per line, or `None` where it raises. */
  function Seeds(lines: seq<string>, cfg: Config, floatOf: string -> Option<real>,
                 asnOf: string -> Option<int>): (r: Option<seq<string>>)
    ensures r.None? <==> exists i :: 0 <= i < |lines| && ParseLine(lines[i], floatOf).Raised?
  {
    match ParseAll(lines, floatOf)
    case None => None
    case Some(zmg) => Some(SeedLines(Pipeline(cfg, zmg, asnOf)))
  }

  /** Lines 139-168 with the configuration `cfg` (the script's own is `Defaults`): the
      standard input as `lines`, what is printed as the result. */
  method MakeSeeds(lines: seq<string>, cfg: Config, floatOf: string -> Option<real>,
                   asnOf: string -> Option<int>) returns (out: Option<seq<string>>)
    ensures out == Seeds(lines, cfg, floatOf, asnOf)
  {
    var parsed := ParseAll(lines, floatOf);
    if parsed.None? {
      return None;
    }
    var zmg := QualityFilter(cfg, parsed.value);
    zmg := Sort(ByQualityDesc, zmg);
    zmg := FilterMultiport(zmg);
    zmg := FilterByAsn(zmg, cfg.maxPerAsn, cfg.nSeeds, asnOf);
    zmg := Sort(ByNetKey, zmg);
    var printed := PrintSeeds(zmg);
    return Some(printed);
  }

  /** Lines 164-168: the loop that prints one line per seed. */
  method PrintSeeds(zmg: seq<Record>) returns (printed: seq<string>)
    ensures printed == SeedLines(zmg)
  {
    printed := [];
    for i := 0 to |zmg|
      invariant printed == SeedLines(zmg[..i])
    {
      assert zmg[..i + 1][..i] == zmg[..i];
      printed := printed + [Format(zmg[i])];
    }
    assert zmg[..|zmg|] == zmg;
  }

  // ---------------------------------------------------------------- what main promises

  /** The records before the IPv4 cap: the records passing the gates, sorted by
      availability, with every host seen on more than one port removed. */
  lemma PipelineStages(cfg: Config, zmg: seq<Record>, asnOf: string -> Option<int>)
    ensures var q := QualityFilter(cfg, zmg);
      var m := Singles(Sort(ByQualityDesc, q));
      (forall x :: x in m <==> x in q && KeyCount(q, x.sortKey) == 1) &&
      UniqueKeys(m) && Sorted(ByQualityDesc, m)
  {
    var q := QualityFilter(cfg, zmg);
    var s := Sort(ByQualityDesc, q);
    SinglesUnique(s);
    SinglesSorted(ByQualityDesc, s);
    forall x ensures x in Singles(s) <==> x in q && KeyCount(q, x.sortKey) == 1 {
      KeyCountPerm(s, q, x.sortKey);
      assert x in s <==> x in multiset(q);
    }
  }

  /** Every seed is a record read from the input that passed all five gates and whose
      host appeared on no other port among the records that passed. */
  lemma PipelineProvenance(cfg: Config, zmg: seq<Record>, asnOf: string -> Option<int>, x: Record)
    requires x in Pipeline(cfg, zmg, asnOf)
    ensures x in zmg && PassesGates(cfg, x)
    ensures KeyCount(QualityFilter(cfg, zmg), x.sortKey) == 1
  {
    var q := QualityFilter(cfg, zmg);
    var m := Singles(Sort(ByQualityDesc, q));
    var v4 := Filter(m, IsNet(IPv4));
    var capped := AsnFiltered(m, cfg.maxPerAsn, cfg.nSeeds, asnOf);
    PipelineStages(cfg, zmg, asnOf);
    assert x in multiset(capped);
    AsnFilteredMembers(m, cfg.maxPerAsn, cfg.nSeeds, asnOf, x);
  }

  /** IPv6 and onion records are not capped: such a record is a seed exactly when it
      passed the gates and its host appeared on no other port. */
  lemma PipelineKeepsNonIPv4(cfg: Config, zmg: seq<Record>, asnOf: string -> Option<int>, x: Record)
    requires x.net != IPv4
    ensures x in Pipeline(cfg, zmg, asnOf) <==>
      x in zmg && PassesGates(cfg, x) && KeyCount(QualityFilter(cfg, zmg), x.sortKey) == 1
  {
    var q := QualityFilter(cfg, zmg);
    var m := Singles(Sort(ByQualityDesc, q));
    var capped := AsnFiltered(m, cfg.maxPerAsn, cfg.nSeeds, asnOf);
    PipelineStages(cfg, zmg, asnOf);
    if x in Pipeline(cfg, zmg, asnOf) {
      PipelineProvenance(cfg, zmg, asnOf, x);
    }
    if x in zmg && PassesGates(cfg, x) && KeyCount(q, x.sortKey) == 1 {
      assert x in m;
      assert x in Filter(m, IsNet(x.net));
      assert x in capped;
      assert x in multiset(Pipeline(cfg, zmg, asnOf));
    }
  }

  /** The IPv4 seeds are the records the cap kept, in some order. */
  lemma PipelineIPv4(cfg: Config, zmg: seq<Record>, asnOf: string -> Option<int>)
    ensures var m := Singles(Sort(ByQualityDesc, QualityFilter(cfg, zmg)));
      multiset(Filter(Pipeline(cfg, zmg, asnOf), IsNet(IPv4))) ==
      multiset(AsnRun(Filter(m, IsNet(IPv4)), cfg.maxPerAsn, cfg.nSeeds, asnOf).result)
  {
    var m := Singles(Sort(ByQualityDesc, QualityFilter(cfg, zmg)));
    var capped := AsnFiltered(m, cfg.maxPerAsn, cfg.nSeeds, asnOf);
    AsnFilteredShape(m, cfg.maxPerAsn, cfg.nSeeds, asnOf);
    FilterPerm(Pipeline(cfg, zmg, asnOf), capped, IsNet(IPv4), IsNet(IPv4));
  }

  /** Line 160: at most `NSEEDS` IPv4 seeds, at most `MAX_SEEDS_PER_ASN` of them in any one
      autonomous system, and none whose system could not be looked up. */
  lemma PipelineCaps(cfg: Config, zmg: seq<Record>, asnOf: string -> Option<int>, asn: int)
    ensures var v4 := Filter(Pipeline(cfg, zmg, asnOf), IsNet(IPv4));
      (cfg.nSeeds >= 0 ==> |v4| <= cfg.nSeeds) &&
      (cfg.maxPerAsn >= 0 ==> AsnCount(v4, asnOf, asn) <= cfg.maxPerAsn) &&
      (forall x :: x in v4 ==> asnOf(x.ip).Some?)
  {
    var m := Singles(Sort(ByQualityDesc, QualityFilter(cfg, zmg)));
    var v4 := Filter(Pipeline(cfg, zmg, asnOf), IsNet(IPv4));
    var kept := AsnRun(Filter(m, IsNet(IPv4)), cfg.maxPerAsn, cfg.nSeeds, asnOf).result;
    PipelineIPv4(cfg, zmg, asnOf);
    AsnRunInvariant(Filter(m, IsNet(IPv4)), cfg.maxPerAsn, cfg.nSeeds, asnOf);
    assert |v4| == |multiset(v4)| == |multiset(kept)| == |kept|;
    FilterPerm(v4, kept, InAsn(asnOf, asn), InAsn(asnOf, asn));
    assert AsnCount(v4, asnOf, asn) == |multiset(Filter(v4, InAsn(asnOf, asn)))|;
    assert AsnCount(kept, asnOf, asn) == |multiset(Filter(kept, InAsn(asnOf, asn)))|;
    if cfg.maxPerAsn >= 0 {
      AsnPerSystemCap(Filter(m, IsNet(IPv4)), cfg.maxPerAsn, cfg.nSeeds, asnOf, asn);
    }
    forall x | x in v4 ensures asnOf(x.ip).Some? {
      assert x in multiset(kept);
    }
  }

  /** Line 162: the seeds come out in strictly increasing (network, key) order, so no two
      name the same host and the order is fixed by the set of seeds alone. */
  lemma PipelineSorted(cfg: Config, zmg: seq<Record>, asnOf: string -> Option<int>)
    ensures StrictlySorted(ByNetKey, Pipeline(cfg, zmg, asnOf))
  {
    var m := Singles(Sort(ByQualityDesc, QualityFilter(cfg, zmg)));
    var capped := AsnFiltered(m, cfg.maxPerAsn, cfg.nSeeds, asnOf);
    var out := Pipeline(cfg, zmg, asnOf);
    SinglesUnique(Sort(ByQualityDesc, QualityFilter(cfg, zmg)));
    AsnFilteredUnique(m, cfg.maxPerAsn, cfg.nSeeds, asnOf);
    UniqueKeysCount(capped);
    forall k ensures KeyCount(out, k) <= 1 { KeyCountPerm(out, capped, k); }
    UniqueKeysCount(out);
    SortedUniqueIsStrict(out);
  }

  /** The seeds are the one strictly ordered arrangement of themselves. */
  lemma PipelineCanonical(cfg: Config, zmg: seq<Record>, asnOf: string -> Option<int>, s: seq<Record>)
    requires StrictlySorted(ByNetKey, s) && multiset(s) == multiset(Pipeline(cfg, zmg, asnOf))
    ensures s == Pipeline(cfg, zmg, asnOf)
  {
    PipelineSorted(cfg, zmg, asnOf);
    StrictlySortedUnique(ByNetKey, s, Pipeline(cfg, zmg, asnOf));
  }

  /** Two well-formed records are ordered by availability one way or the other unless
      they share a sort key: a tie means the same host, and the host fixes the key. */
  lemma TiedShareKey(x: Record, y: Record)
    requires WellFormed(x) && WellFormed(y)
    ensures QualityLt(x, y) || QualityLt(y, x) || x.sortKey == y.sortKey
  {
    if x.ip != y.ip {
      StrLtTotal(x.ip, y.ip);
    } else {
      SameHostSameKey(x, y);
    }
  }

  /** Once every host seen on two ports is gone, well-formed records sorted by
      availability are in strictly decreasing order of it. */
  lemma SinglesStrict(s: seq<Record>)
    requires Sorted(ByQualityDesc, s) && forall x :: x in s ==> WellFormed(x)
    ensures StrictlySorted(ByQualityDesc, Singles(s))
  {
    var m := Singles(s);
    SinglesSorted(ByQualityDesc, s);
    SinglesUnique(s);
    forall i, j | 0 <= i < j < |m| ensures QualityLt(m[j], m[i]) {
      assert m[i] in m && m[j] in m;
      TiedShareKey(m[i], m[j]);
    }
  }

  /** The records that pass the gates, sorted, are records of the input. */
  lemma SortedFromInput(cfg: Config, zmg: seq<Record>)
    requires forall x :: x in zmg ==> WellFormed(x)
    ensures forall x :: x in Sort(ByQualityDesc, QualityFilter(cfg, zmg)) ==> WellFormed(x)
  {
    var q := QualityFilter(cfg, zmg);
    QualityFilterIsOneFilter(cfg, zmg);
    forall x | x in Sort(ByQualityDesc, q) ensures WellFormed(x) {
      assert x in multiset(Sort(ByQualityDesc, q));
      assert x in q;
    }
  }

  /** The order of the input does not matter. Records that tie in the availability sort
      have the same host and so the same sort key, and line 158 drops them all; what is
      left has one possible order. */
  lemma PipelineOrderFree(cfg: Config, zmg: seq<Record>, zmg': seq<Record>, asnOf: string -> Option<int>)
    requires multiset(zmg) == multiset(zmg')
    requires forall x :: x in zmg ==> WellFormed(x)
    ensures Pipeline(cfg, zmg, asnOf) == Pipeline(cfg, zmg', asnOf)
  {
    var q := QualityFilter(cfg, zmg);
    var q' := QualityFilter(cfg, zmg');
    QualityFilterIsOneFilter(cfg, zmg);
    QualityFilterIsOneFilter(cfg, zmg');
    FilterPerm(zmg, zmg', AllGates(cfg), AllGates(cfg));
    var s := Sort(ByQualityDesc, q);
    var s' := Sort(ByQualityDesc, q');
    forall x | x in zmg' ensures WellFormed(x) { assert x in multiset(zmg); }
    SortedFromInput(cfg, zmg);
    SortedFromInput(cfg, zmg');
    SinglesPerm(s, s');
    SinglesStrict(s);
    SinglesStrict(s');
    StrictlySortedUnique(ByQualityDesc, Singles(s), Singles(s'));
  }

  /** The order of the report's lines does not matter: the same lines in any order
      give the same output, or both raise. */
  lemma SeedsOrderFree(lines: seq<string>, lines': seq<string>, cfg: Config,
                       floatOf: string -> Option<real>, asnOf: string -> Option<int>)
    requires multiset(lines) == multiset(lines')
    ensures Seeds(lines, cfg, floatOf, asnOf) == Seeds(lines', cfg, floatOf, asnOf)
  {
    if ParseAll(lines, floatOf).Some? {
      ParseAllPerm(lines, lines', floatOf);
      ParsedWellFormed(lines, floatOf);
      PipelineOrderFree(cfg, ParseAll(lines, floatOf).value, ParseAll(lines', floatOf).value, asnOf);
    } else if ParseAll(lines', floatOf).Some? {
      ParseAllPerm(lines', lines, floatOf);
    }
  }

  /** Every printed line names the network, host and port of a record read from the input
      that passed all five gates. */
  lemma SeedsReparse(lines: seq<string>, cfg: Config, floatOf: string -> Option<real>,
                     asnOf: string -> Option<int>, i: nat)
    requires Seeds(lines, cfg, floatOf, asnOf).Some? && i < |Seeds(lines, cfg, floatOf, asnOf).value|
    ensures exists x :: (x in ParseAll(lines, floatOf).value && PassesGates(cfg, x) &&
      EndpointOf(Seeds(lines, cfg, floatOf, asnOf).value[i]) == Some(Endpoint(x.net, x.ip, x.port)))
  {
    var zmg := ParseAll(lines, floatOf).value;
    var out := Pipeline(cfg, zmg, asnOf);
    var x := out[i];
    PipelineProvenance(cfg, zmg, asnOf, x);
    var j :| 0 <= j < |lines| && ParseLine(lines[j], floatOf) == Accepted(x);
    ParseWellFormed(Split(lines[j]), floatOf);
    FormatReparses(x);
  }
}
