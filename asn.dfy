/** `filterbyasn`: the records are sorted into IPv4, IPv6 and onion; the IPv4 records are
    taken in order while there is room, at most `max_per_asn` of them per autonomous
    system, skipping those whose system cannot be looked up; then all IPv6 and onion
    records follow. The DNS query that names a host's autonomous system is the oracle
    `asnOf`: `Some(asn)` for an answer, `None` where the query or the reading of its
    answer raises. */
module Asn {
  import opened Text
  import opened Records

  /** The loop's variables: `result` and `asn_count`. */
  datatype AsnState = AsnState(result: seq<Record>, counts: map<int, int>)

  /** One round of the loop of lines 118-131 on record `ip`. Once `result` holds
      `max_total` records the loop breaks; a full state is left as it is, which is the
      same as leaving the loop. */
  function AsnStep(st: AsnState, ip: Record, maxPerAsn: int, maxTotal: int, asnOf: string -> Option<int>): AsnState
  {
    if |st.result| == maxTotal then st
    else
      match asnOf(ip.ip)
      case None => st
      case Some(asn) =>
        var c := if asn in st.counts then st.counts[asn] else 0;
        if c == maxPerAsn then AsnState(st.result, st.counts[asn := c])
        else AsnState(st.result + [ip], st.counts[asn := c + 1])
  }

  /** The loop's variables after the rounds on the records of `s`, in order. */
  function AsnRun(s: seq<Record>, maxPerAsn: int, maxTotal: int, asnOf: string -> Option<int>): AsnState
  {
    if s == [] then AsnState([], map[])
    else AsnStep(AsnRun(s[..|s| - 1], maxPerAsn, maxTotal, asnOf), s[|s| - 1], maxPerAsn, maxTotal, asnOf)
  }

  /** What `filterbyasn` returns. */
  function AsnFiltered(zmg: seq<Record>, maxPerAsn: int, maxTotal: int, asnOf: string -> Option<int>): seq<Record>
  {
    AsnRun(Filter(zmg, IsNet(IPv4)), maxPerAsn, maxTotal, asnOf).result +
    Filter(zmg, IsNet(IPv6)) + Filter(zmg, IsNet(Onion))
  }

  /** Lines 109-137. */
  method FilterByAsn(zmg: seq<Record>, maxPerAsn: int, maxTotal: int, asnOf: string -> Option<int>)
    returns (result: seq<Record>)
    ensures result == AsnFiltered(zmg, maxPerAsn, maxTotal, asnOf)
  {
    var zmgIPv4 := Filter(zmg, IsNet(IPv4));
    var zmgIPv6 := Filter(zmg, IsNet(IPv6));
    var zmgOnion := Filter(zmg, IsNet(Onion));
    result := CapIPv4(zmgIPv4, maxPerAsn, maxTotal, asnOf);
    result := result + zmgIPv6;
    result := result + zmgOnion;
  }

  /** Lines 116-131: the loop over the IPv4 records. */
  method CapIPv4(zmgIPv4: seq<Record>, maxPerAsn: int, maxTotal: int, asnOf: string -> Option<int>)
    returns (result: seq<Record>)
    ensures result == AsnRun(zmgIPv4, maxPerAsn, maxTotal, asnOf).result
  {
    result := [];
    var asnCount: map<int, int> := map[];
    var i := 0;
    while i < |zmgIPv4|
      invariant 0 <= i <= |zmgIPv4|
      invariant AsnRun(zmgIPv4[..i], maxPerAsn, maxTotal, asnOf) == AsnState(result, asnCount)
      decreases |zmgIPv4| - i
    {
      var ip := zmgIPv4[i];
      if |result| == maxTotal {
        AsnRunFull(zmgIPv4[..i], zmgIPv4[i..], maxPerAsn, maxTotal, asnOf);
        assert zmgIPv4[..i] + zmgIPv4[i..] == zmgIPv4[..|zmgIPv4|];
        i := |zmgIPv4|;
        break;
      }
      ghost var before := AsnState(result, asnCount);
      AsnRunPrefix(zmgIPv4, i, maxPerAsn, maxTotal, asnOf);
      match asnOf(ip.ip) {
        case None =>
          // The `except` branch: the diagnostic on stderr is not modelled.
        case Some(asn) =>
          if asn !in asnCount {
            asnCount := asnCount[asn := 0];
          }
          if asnCount[asn] == maxPerAsn {
            assert AsnStep(before, ip, maxPerAsn, maxTotal, asnOf) == AsnState(result, asnCount);
            i := i + 1;
            continue;
          }
          asnCount := asnCount[asn := asnCount[asn] + 1];
          result := result + [ip];
      }
      assert AsnStep(before, ip, maxPerAsn, maxTotal, asnOf) == AsnState(result, asnCount);
      i := i + 1;
    }
    assert zmgIPv4[..|zmgIPv4|] == zmgIPv4;
  }

  /** One more round of the loop. */
  lemma AsnRunPrefix(s: seq<Record>, i: nat, maxPerAsn: int, maxTotal: int, asnOf: string -> Option<int>)
    requires i < |s|
    ensures AsnRun(s[..i + 1], maxPerAsn, maxTotal, asnOf) == AsnStep(AsnRun(s[..i], maxPerAsn, maxTotal, asnOf), s[i], maxPerAsn, maxTotal, asnOf)
  {
    assert s[..i + 1][..i] == s[..i];
  }

  /** After the break nothing changes. */
  lemma {:induction false} AsnRunFull(p: seq<Record>, q: seq<Record>, maxPerAsn: int, maxTotal: int, asnOf: string -> Option<int>)
    requires |AsnRun(p, maxPerAsn, maxTotal, asnOf).result| == maxTotal
    ensures AsnRun(p + q, maxPerAsn, maxTotal, asnOf) == AsnRun(p, maxPerAsn, maxTotal, asnOf)
    decreases |q|
  {
    if q == [] {
      assert p + q == p;
    } else {
      var q' := q[..|q| - 1];
      assert (p + q)[..|p + q| - 1] == p + q';
      assert (p + q)[|p + q| - 1] == q[|q| - 1];
      AsnRunFull(p, q', maxPerAsn, maxTotal, asnOf);
    }
  }

  // ---------------------------------------------------------------- what the loop promises

  /** The records the oracle places in autonomous system `asn`. */
  function InAsn(asnOf: string -> Option<int>, asn: int): Record -> bool
  {
    (r: Record) => asnOf(r.ip) == Some(asn)
  }

  /** How many records of `s` the oracle places in autonomous system `asn`. */
  function AsnCount(s: seq<Record>, asnOf: string -> Option<int>, asn: int): nat
  {
    |Filter(s, InAsn(asnOf, asn))|
  }

  /** `counts` holds, for every autonomous system, how many records of `result` are in
      it (absent meaning none). */
  ghost predicate CountsAgree(st: AsnState, asnOf: string -> Option<int>)
  {
    forall a :: AsnCount(st.result, asnOf, a) == if a in st.counts then st.counts[a] else 0
  }

  /** `asn_count` counts the accepted records of each autonomous system. */
  lemma {:induction false} AsnRunCounts(s: seq<Record>, maxPerAsn: int, maxTotal: int, asnOf: string -> Option<int>)
    ensures CountsAgree(AsnRun(s, maxPerAsn, maxTotal, asnOf), asnOf)
  {
    if s != [] {
      var p := s[..|s| - 1];
      var x := s[|s| - 1];
      AsnRunCounts(p, maxPerAsn, maxTotal, asnOf);
      var st := AsnRun(p, maxPerAsn, maxTotal, asnOf);
      var st' := AsnRun(s, maxPerAsn, maxTotal, asnOf);
      AsnAppend(st.result, x, asnOf);
      if |st.result| != maxTotal && asnOf(x.ip).Some? {
        var asn := asnOf(x.ip).value;
        assert AsnCount(st.result, asnOf, asn) == if asn in st.counts then st.counts[asn] else 0;
      }
    }
  }

  /** No count passes `max_per_asn` and `result` never passes `max_total`, when these
      are not negative. */
  lemma {:induction false} AsnRunCaps(s: seq<Record>, maxPerAsn: int, maxTotal: int, asnOf: string -> Option<int>)
    ensures var st := AsnRun(s, maxPerAsn, maxTotal, asnOf);
      (maxPerAsn >= 0 ==> forall a :: a in st.counts ==> st.counts[a] <= maxPerAsn) &&
      (maxTotal >= 0 ==> |st.result| <= maxTotal)
  {
    if s != [] {
      AsnRunCaps(s[..|s| - 1], maxPerAsn, maxTotal, asnOf);
    }
  }

  /** Every accepted record was looked up successfully, and `result` is a subsequence of
      the records seen. */
  lemma {:induction false} AsnRunSubseq(s: seq<Record>, maxPerAsn: int, maxTotal: int, asnOf: string -> Option<int>)
    ensures var st := AsnRun(s, maxPerAsn, maxTotal, asnOf);
      (forall i :: 0 <= i < |st.result| ==> asnOf(st.result[i].ip).Some?) &&
      IsSubseq(st.result, s)
  {
    if s == [] {
    } else {
      var p := s[..|s| - 1];
      var x := s[|s| - 1];
      assert s == p + [x];
      AsnRunSubseq(p, maxPerAsn, maxTotal, asnOf);
      var st := AsnRun(p, maxPerAsn, maxTotal, asnOf);
      SubseqSnocRight(st.result, p, x);
      if AsnRun(s, maxPerAsn, maxTotal, asnOf).result != st.result {
        AsnAppend(st.result, x, asnOf);
        SubseqSnoc(st.result, p, x);
      }
    }
  }

  /** What holds of the loop's variables after every round. */
  lemma AsnRunInvariant(s: seq<Record>, maxPerAsn: int, maxTotal: int, asnOf: string -> Option<int>)
    ensures var st := AsnRun(s, maxPerAsn, maxTotal, asnOf);
      CountsAgree(st, asnOf) &&
      (maxPerAsn >= 0 ==> forall a :: a in st.counts ==> st.counts[a] <= maxPerAsn) &&
      (maxTotal >= 0 ==> |st.result| <= maxTotal) &&
      (forall i :: 0 <= i < |st.result| ==> asnOf(st.result[i].ip).Some?) &&
      IsSubseq(st.result, s)
  {
    AsnRunCounts(s, maxPerAsn, maxTotal, asnOf);
    AsnRunCaps(s, maxPerAsn, maxTotal, asnOf);
    AsnRunSubseq(s, maxPerAsn, maxTotal, asnOf);
  }

  lemma AsnAppend(r: seq<Record>, x: Record, asnOf: string -> Option<int>)
    ensures forall a :: AsnCount(r + [x], asnOf, a) == AsnCount(r, asnOf, a) + (if asnOf(x.ip) == Some(a) then 1 else 0)
    ensures forall i :: 0 <= i < |r| ==> (r + [x])[i] == r[i]
  {
    forall a ensures AsnCount(r + [x], asnOf, a) == AsnCount(r, asnOf, a) + (if asnOf(x.ip) == Some(a) then 1 else 0) {
      FilterConcat(r, [x], InAsn(asnOf, a));
    }
  }

  /** Lines 116-131, for `max_total >= 0`: at most `max_total` IPv4 records. */
  lemma AsnTotalCap(s: seq<Record>, maxPerAsn: int, maxTotal: int, asnOf: string -> Option<int>)
    requires maxTotal >= 0
    ensures |AsnRun(s, maxPerAsn, maxTotal, asnOf).result| <= maxTotal
  {
    AsnRunInvariant(s, maxPerAsn, maxTotal, asnOf);
  }

  /** For `max_per_asn >= 0`: at most `max_per_asn` records of any one system. */
  lemma AsnPerSystemCap(s: seq<Record>, maxPerAsn: int, maxTotal: int, asnOf: string -> Option<int>, asn: int)
    requires maxPerAsn >= 0
    ensures AsnCount(AsnRun(s, maxPerAsn, maxTotal, asnOf).result, asnOf, asn) <= maxPerAsn
  {
    AsnRunInvariant(s, maxPerAsn, maxTotal, asnOf);
  }

  /** A record whose lookup fails is never accepted; the accepted ones keep their order. */
  lemma AsnResolvedInOrder(s: seq<Record>, maxPerAsn: int, maxTotal: int, asnOf: string -> Option<int>)
    ensures var r := AsnRun(s, maxPerAsn, maxTotal, asnOf).result;
      (forall x :: x in r ==> asnOf(x.ip).Some?) && IsSubseq(r, s)
  {
    AsnRunInvariant(s, maxPerAsn, maxTotal, asnOf);
  }

  /** A record is left out only for a reason: the result was full, its lookup failed, or
      its system was at the cap when its turn came. */
  lemma {:induction false} AsnSkipReason(s: seq<Record>, maxPerAsn: int, maxTotal: int, asnOf: string -> Option<int>)
    requires s != []
    ensures var before := AsnRun(s[..|s| - 1], maxPerAsn, maxTotal, asnOf);
      var x := s[|s| - 1];
      var after := AsnRun(s, maxPerAsn, maxTotal, asnOf);
      (after.result == before.result + [x] ||
       (after.result == before.result &&
        (|before.result| == maxTotal || asnOf(x.ip).None? ||
         AsnCount(before.result, asnOf, asnOf(x.ip).value) == maxPerAsn)))
  {
    var p := s[..|s| - 1];
    AsnRunInvariant(p, maxPerAsn, maxTotal, asnOf);
  }

  // ---------------------------------------------------------------- the whole result

  /** Lines 134-136: the result is the accepted IPv4 records, then every IPv6 record,
      then every onion record, both in input order. Only IPv4 records are capped. */
  lemma AsnFilteredShape(zmg: seq<Record>, maxPerAsn: int, maxTotal: int, asnOf: string -> Option<int>)
    ensures var out := AsnFiltered(zmg, maxPerAsn, maxTotal, asnOf);
      var v4 := Filter(zmg, IsNet(IPv4));
      Filter(out, IsNet(IPv4)) == AsnRun(v4, maxPerAsn, maxTotal, asnOf).result &&
      Filter(out, IsNet(IPv6)) == Filter(zmg, IsNet(IPv6)) &&
      Filter(out, IsNet(Onion)) == Filter(zmg, IsNet(Onion))
  {
    var v4 := Filter(zmg, IsNet(IPv4));
    var v6 := Filter(zmg, IsNet(IPv6));
    var on := Filter(zmg, IsNet(Onion));
    var r := AsnRun(v4, maxPerAsn, maxTotal, asnOf).result;
    AsnRunSubseq(v4, maxPerAsn, maxTotal, asnOf);
    SubseqMembers(r, v4);
    FilterByNet(r, v6, on, IPv4);
    FilterByNet(r, v6, on, IPv6);
    FilterByNet(r, v6, on, Onion);
  }

  /** Filtering an IPv4, an IPv6 and an onion list, joined, by one network keeps that list. */
  lemma FilterByNet(r: seq<Record>, v6: seq<Record>, on: seq<Record>, n: Net)
    requires forall x :: x in r ==> x.net == IPv4
    requires forall x :: x in v6 ==> x.net == IPv6
    requires forall x :: x in on ==> x.net == Onion
    ensures n == IPv4 ==> Filter(r + v6 + on, IsNet(n)) == r
    ensures n == IPv6 ==> Filter(r + v6 + on, IsNet(n)) == v6
    ensures n == Onion ==> Filter(r + v6 + on, IsNet(n)) == on
  {
    FilterJoin3(r, v6, on, IsNet(n));
    FilterOneNet(r, IPv4, n);
    FilterOneNet(v6, IPv6, n);
    FilterOneNet(on, Onion, n);
    if n == IPv4 {
      assert r + [] + [] == r;
    } else if n == IPv6 {
      assert [] + v6 + [] == v6;
    } else {
      assert [] + [] + on == on;
    }
  }

  lemma FilterJoin3(a: seq<Record>, b: seq<Record>, c: seq<Record>, p: Record -> bool)
    ensures Filter(a + b + c, p) == Filter(a, p) + Filter(b, p) + Filter(c, p)
  {
    FilterConcat(a + b, c, p);
    FilterConcat(a, b, p);
  }

  /** Every record of the result is one of the input's. */
  lemma AsnFilteredMembers(zmg: seq<Record>, maxPerAsn: int, maxTotal: int, asnOf: string -> Option<int>, x: Record)
    requires x in AsnFiltered(zmg, maxPerAsn, maxTotal, asnOf)
    ensures x in zmg
  {
    var v4 := Filter(zmg, IsNet(IPv4));
    AsnRunSubseq(v4, maxPerAsn, maxTotal, asnOf);
    SubseqMembers(AsnRun(v4, maxPerAsn, maxTotal, asnOf).result, v4);
  }

  /** Filtering records of one kind of network by a kind keeps all or nothing. */
  lemma FilterOneNet(s: seq<Record>, m: Net, n: Net)
    requires forall x :: x in s ==> x.net == m
    ensures Filter(s, IsNet(n)) == if n == m then s else []
  {
    if n == m {
      FilterKeepsAll(s, IsNet(n));
    } else {
      assert forall i :: 0 <= i < |s| ==> s[i] in s;
      FilterNone(s, IsNet(n));
    }
  }

  /** No two records share a sort key afterwards if none did before. */
  lemma AsnFilteredUnique(zmg: seq<Record>, maxPerAsn: int, maxTotal: int, asnOf: string -> Option<int>)
    requires UniqueKeys(zmg)
    ensures UniqueKeys(AsnFiltered(zmg, maxPerAsn, maxTotal, asnOf))
  {
    var v4 := Filter(zmg, IsNet(IPv4));
    var v6 := Filter(zmg, IsNet(IPv6));
    var on := Filter(zmg, IsNet(Onion));
    var r := AsnRun(v4, maxPerAsn, maxTotal, asnOf).result;
    var out := r + v6 + on;
    AsnRunInvariant(v4, maxPerAsn, maxTotal, asnOf);
    UniqueKeysCount(zmg);
    forall k ensures KeyCount(out, k) <= 1 {
      KeyCountConcat(r + v6, on, k);
      KeyCountConcat(r, v6, k);
      SubseqKeyCount(r, v4, k);
      KeyCountByNet(zmg, k);
    }
    UniqueKeysCount(out);
  }
}
