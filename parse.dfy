/** `parseline`: one line of the crawler's report, split on whitespace, becomes a record,
    is skipped (`return None`), or raises an exception that nothing in the script catches.
    The IPv4 loop that packs the four octets into one number is a method; the parser
    itself is straight-line code and is a function. */
module Parse {
  import opened Text
  import opened Patterns
  import opened Records

  /** What `parseline` does with one line. */
  datatype LineResult = Accepted(rec: Record) | Skipped | Raised

  // ---------------------------------------------------------------- the IPv4 number

  function Pow2(k: nat): (p: nat)
    ensures p >= 1
  {
    if k == 0 then 1 else 2 * Pow2(k - 1)
  }

  /** Python's `x << k` for a non-negative `x`. */
  function Shl(x: nat, k: nat): nat
  {
    x * Pow2(k)
  }

  /** `ip` after the first `i` rounds of the loop: octet `k` shifted left by `8*(3-k)`,
      summed over `k < i`. */
  function PartialIp(o: seq<nat>, i: nat): nat
    requires i <= |o| <= 4
  {
    if i == 0 then 0 else PartialIp(o, i - 1) + Shl(o[i - 1], 8 * (3 - (i - 1)))
  }

  /** The number of the address whose octets have the values `o`, or `None` when one of
      them is above 255. */
  function Ipv4Number(o: seq<nat>): Option<nat>
    requires |o| == 4
  {
    if o[0] > 255 || o[1] > 255 || o[2] > 255 || o[3] > 255 then None
    else Some(o[0] * 0x100_0000 + o[1] * 0x1_0000 + o[2] * 0x100 + o[3])
  }

  /** The four octets of a 32-bit number, most significant first. */
  function OctetsOf(n: nat): (o: seq<nat>)
    requires n < 0x1_0000_0000
    ensures |o| == 4
  {
    var m1 := n / 0x100;
    var m2 := m1 / 0x100;
    [m2 / 0x100, m2 % 0x100, m1 % 0x100, n % 0x100]
  }

  /** Lines 57-61: the loop that range-checks each octet and adds it, shifted into place. */
  method PackIPv4(o: seq<nat>) returns (ip: Option<nat>)
    requires |o| == 4
    ensures ip == Ipv4Number(o)
  {
    var acc: nat := 0;
    for i := 0 to 4
      invariant forall k :: 0 <= k < i ==> o[k] <= 255
      invariant acc == PartialIp(o, i)
    {
      if o[i] > 255 {
        return None;
      }
      acc := acc + Shl(o[i], 8 * (3 - i));
    }
    PartialIpFull(o);
    return Some(acc);
  }

  lemma PartialIpFull(o: seq<nat>)
    requires |o| == 4
    ensures PartialIp(o, 4) == o[0] * 0x100_0000 + o[1] * 0x1_0000 + o[2] * 0x100 + o[3]
  {
    assert Pow2(2) == 4 && Pow2(4) == 16 by { assert Pow2(1) == 2; Pow2Add(2, 2); }
    assert Pow2(8) == 0x100 by { Pow2Add(4, 4); }
    assert Pow2(16) == 0x1_0000 by { Pow2Add(8, 8); }
    assert Pow2(24) == 0x100_0000 by { Pow2Add(16, 8); }
    assert PartialIp(o, 1) == o[0] * 0x100_0000;
    assert PartialIp(o, 2) == o[0] * 0x100_0000 + o[1] * 0x1_0000;
    assert PartialIp(o, 3) == o[0] * 0x100_0000 + o[1] * 0x1_0000 + o[2] * 0x100;
  }

  lemma {:induction false} Pow2Add(a: nat, b: nat)
    ensures Pow2(a + b) == Pow2(a) * Pow2(b)
  {
    if b > 0 {
      Pow2Add(a, b - 1);
      assert Pow2(a + b) == 2 * Pow2(a + b - 1);
    }
  }

  /** An accepted address is a 32-bit number. */
  lemma Ipv4Range(o: seq<nat>)
    requires |o| == 4 && Ipv4Number(o).Some?
    ensures Ipv4Number(o).value < 0x1_0000_0000
  {
  }

  /** The number is zero exactly for the address `0.0.0.0`. */
  lemma Ipv4Zero(o: seq<nat>)
    requires |o| == 4
    ensures Ipv4Number(o) == Some(0) <==> o == [0, 0, 0, 0]
  {
    if o == [0, 0, 0, 0] {
      assert o[0] == 0 && o[1] == 0 && o[2] == 0 && o[3] == 0;
    }
  }

  /** Unpacking the number gives back the octets. */
  lemma Ipv4Unpack(o: seq<nat>)
    requires |o| == 4 && Ipv4Number(o).Some?
    ensures OctetsOf(Ipv4Number(o).value) == o
  {
    var n := Ipv4Number(o).value;
    var m2 := o[0] * 0x100 + o[1];
    var m1 := m2 * 0x100 + o[2];
    assert n == m1 * 0x100 + o[3];
    DivModUnique(n, m1, o[3]);
    DivModUnique(m1, m2, o[2]);
    DivModUnique(m2, o[0], o[1]);
    assert [o[0], o[1], o[2], o[3]] == o;
  }

  /** Every 32-bit number is the number of its octets. */
  lemma Ipv4Pack(n: nat)
    requires n < 0x1_0000_0000
    ensures Ipv4Number(OctetsOf(n)) == Some(n)
  {
    var m1 := n / 0x100;
    var m2 := m1 / 0x100;
    assert n == m1 * 0x100 + n % 0x100;
    assert m1 == m2 * 0x100 + m1 % 0x100;
    assert m2 == m2 / 0x100 * 0x100 + m2 % 0x100;
    assert m2 / 0x100 < 0x100;
  }

  /** Division by 256 with remainder is unique. */
  lemma DivModUnique(n: nat, q: nat, r: nat)
    requires r < 0x100 && n == q * 0x100 + r
    ensures n / 0x100 == q && n % 0x100 == r
  {
  }

  /** The values of the four octet groups of an IPv4 match (`int(m.group(i+2))`). */
  function OctetValues(octets: seq<string>): (v: seq<nat>)
    requires IsOctetList(octets)
    ensures |v| == |octets|
    ensures forall i :: 0 <= i < |v| ==> v[i] == DigitsValue(octets[i])
  {
    seq(|octets|, i requires 0 <= i < |octets| => DigitsValue(octets[i]))
  }

  // ---------------------------------------------------------------- the address token

  /** Which pattern token 0 matched, and its groups. */
  datatype Address =
    | V4Address(m4: V4Match)
    | V6Address(m6: V6Match)
    | OnionAddress(mo: OnionMatch)
    | NoAddress

  /** Lines 35-43: token 0 against the IPv4, the IPv6 and the onion pattern, in that
      order. Since no token matches two of them, each kind is chosen exactly when its
      own pattern matches. */
  function AddressOf(tok: string): (a: Address)
    ensures a.V4Address? <==> MatchIPv4(tok).Some?
    ensures a.V6Address? <==> MatchIPv6(tok).Some?
    ensures a.OnionAddress? <==> MatchOnion(tok).Some?
    ensures a.V4Address? ==> MatchIPv4(tok) == Some(a.m4)
    ensures a.V6Address? ==> MatchIPv6(tok) == Some(a.m6)
    ensures a.OnionAddress? ==> MatchOnion(tok) == Some(a.mo)
  {
    GrammarsExclusive(tok);
    var m4 := MatchIPv4(tok);
    if m4.Some? then V4Address(m4.value)
    else
      var m6 := MatchIPv6(tok);
      if m6.Some? then V6Address(m6.value)
      else
        var mo := MatchOnion(tok);
        if mo.Some? then OnionAddress(mo.value) else NoAddress
  }

  /** What lines 35-67 take from token 0: the network, the host text (`zmgtr`), the
      port, the number (`ip`) and the sort key. */
  datatype Location = Location(net: Net, host: string, port: nat, ipnum: Option<nat>, key: SortKey)

  /** Lines 35-67: `None` for no pattern, the IPv6 host `::`, an octet above 255 and the
      address `0.0.0.0`. The port is `\d+`, so its `int()` cannot fail. */
  function Locate(tok: string): Option<Location>
  {
    match AddressOf(tok)
    case NoAddress => None
    case OnionAddress(m) => Some(Location(Onion, m.host, DigitsValue(m.port), None, TextKey(m.host)))
    case V6Address(m) =>
      if m.host == "::" then None
      else Some(Location(IPv6, m.host, DigitsValue(m.port), None, TextKey(m.host)))
    case V4Address(m) =>
      var n := Ipv4Number(OctetValues(m.octets));
      if n.None? || n.value == 0 then None
      else Some(Location(IPv4, m.host, DigitsValue(m.port), n, NumKey(n.value)))
  }

  /** The IPv4 text of octets that pack to a non-zero number is located with its groups. */
  lemma LocateIPv4Text(octets: seq<string>, port: string, n: nat)
    requires V4Groups(octets, port) && Ipv4Number(OctetValues(octets)) == Some(n) && n != 0
    ensures Locate(Dotted(octets) + ":" + port) ==
      Some(Location(IPv4, Dotted(octets), DigitsValue(port), Some(n), NumKey(n)))
  {
    MatchIPv4Complete(octets, port);
  }

  /** The IPv6 text of any host but `::` is located with its groups. */
  lemma LocateIPv6Text(host: string, port: string)
    requires IsV6HostText(host) && IsPortText(port) && host != "::"
    ensures Locate("[" + host + "]:" + port) ==
      Some(Location(IPv6, host, DigitsValue(port), None, TextKey(host)))
  {
    MatchIPv6Complete(host, port);
    GrammarsExclusive("[" + host + "]:" + port);
  }

  /** Every onion text is located with its groups. */
  lemma LocateOnionText(name: string, port: string)
    requires IsOnionName(name) && IsPortText(port)
    ensures Locate(name + ".onion" + ":" + port) ==
      Some(Location(Onion, name + ".onion", DigitsValue(port), None, TextKey(name + ".onion")))
  {
    MatchOnionComplete(name, port);
    GrammarsExclusive(name + ".onion" + ":" + port);
  }

  // ---------------------------------------------------------------- parseline

  /** `t[i]`, or `None` where Python's `sline[i]` raises `IndexError`. */
  function Index(t: seq<string>, i: nat): (r: Option<string>)
    ensures r.Some? <==> i < |t|
    ensures r.Some? ==> r.value == t[i]
  {
    if i < |t| then Some(t[i]) else None
  }

  /** Lines 78-81: with more than 11 tokens the agent is token 11 without its first
      character and token 12 without its last; otherwise token 11 without both. `None`
      where a token read is past the end. */
  function AgentOf(t: seq<string>): Option<string>
  {
    if |t| > 11 then
      var first := Index(t, 11);
      var second := Index(t, 12);
      if first.None? || second.None? then None
      else Some(DropFirst(first.value) + DropLast(second.value))
    else
      var only := Index(t, 11);
      if only.None? then None else Some(DropLast(DropFirst(only.value)))
  }

  /** The agent is read exactly when there are at least 13 tokens: a line of 12 fails at
      `sline[12]`, and the `else` branch is only taken with 11 tokens, where `sline[11]`
      fails. So it always comes from two tokens. */
  lemma AgentRaises(t: seq<string>)
    ensures AgentOf(t).Some? <==> |t| >= 13
    ensures |t| >= 13 ==> AgentOf(t) == Some(DropFirst(t[11]) + DropLast(t[12]))
  {
  }

  /** Lines 72-99, once the address is known: the conversions of tokens 7, 2 and 10
      (`float`, `int`, `int`), the agent, and the conversions of tokens 9 and 8
      (`int(_, 16)`, `int`), then the record. `floatOf` is Python's `float()`, `None`
      where it raises. */
  function Fields(t: seq<string>, loc: Location, floatOf: string -> Option<real>): LineResult
    requires |t| >= 11
  {
    var uptime := floatOf(DropLast(t[7]));
    var lastSuccess := PyInt(t[2], 10);
    var version := PyInt(t[10], 10);
    var agent := AgentOf(t);
    var service := PyInt(t[9], 16);
    var blocks := PyInt(t[8], 10);
    if uptime.None? || lastSuccess.None? || version.None? || agent.None? || service.None? || blocks.None? then
      Raised
    else
      Accepted(Record(loc.net, loc.host, loc.port, loc.ipnum, uptime.value, lastSuccess.value,
                      version.value, agent.value, service.value, blocks.value, loc.key))
  }

  /** An agent in double quotes, cut in two at any place, is read back whole. */
  lemma QuotedAgent(t: seq<string>, a: string, k: nat)
    requires |t| >= 13 && k <= |a|
    requires t[11] == "\"" + a[..k] && t[12] == a[k..] + "\""
    ensures AgentOf(t) == Some(a)
  {
    AgentRaises(t);
    assert DropFirst(t[11]) == a[..k] && DropLast(t[12]) == a[k..];
    assert a[..k] + a[k..] == a;
  }

  /** Tokens whose conversions and agent give the fields of `r`, at the location of `r`,
      are accepted with `r`. */
  lemma FieldsAccepted(t: seq<string>, loc: Location, floatOf: string -> Option<real>, r: Record)
    requires |t| >= 11 && loc == Location(r.net, r.ip, r.port, r.ipnum, r.sortKey)
    requires floatOf(DropLast(t[7])) == Some(r.uptime) && PyInt(t[2], 10) == Some(r.lastSuccess)
    requires PyInt(t[10], 10) == Some(r.version) && AgentOf(t) == Some(r.agent)
    requires PyInt(t[9], 16) == Some(r.service) && PyInt(t[8], 10) == Some(r.blocks)
    ensures Fields(t, loc, floatOf) == Accepted(r)
  {
  }

  /** `parseline` on the tokens of the line. The check of line 69 compares a token (a
      string) with the integer 0 and so never rejects; it has no counterpart here. */
  function ParseTokens(t: seq<string>, floatOf: string -> Option<real>): LineResult
  {
    if |t| < 11 then Skipped
    else
      match Locate(t[0])
      case None => Skipped
      case Some(loc) => Fields(t, loc, floatOf)
  }

  function ParseLine(line: string, floatOf: string -> Option<real>): LineResult
  {
    ParseTokens(Split(line), floatOf)
  }

  /** What every record `parseline` returns satisfies: the kind of network fixes the
      shape of the host text, the number and the sort key, and the agent, being cut from
      whitespace-separated tokens, holds no whitespace. */
  ghost predicate WellFormed(r: Record)
  {
    NoSpace(r.agent) &&
    match r.net
    case IPv4 =>
      r.ipnum.Some? && 0 < r.ipnum.value < 0x1_0000_0000 && r.sortKey == NumKey(r.ipnum.value) &&
      exists octets :: V4Host(r.ip, octets) && Ipv4Number(OctetValues(octets)) == r.ipnum
    case IPv6 =>
      r.ipnum.None? && r.sortKey == TextKey(r.ip) && IsV6HostText(r.ip) && r.ip != "::"
    case Onion =>
      r.ipnum.None? && r.sortKey == TextKey(r.ip) &&
      |r.ip| == 22 && IsOnionName(r.ip[..16]) && r.ip == r.ip[..16] + ".onion"
  }

  /** `ip` is the text of the four octet groups `octets`. */
  predicate V4Host(ip: string, octets: seq<string>)
  {
    |octets| == 4 && IsOctetList(octets) && ip == Dotted(octets)
  }

  /** The host text of a well-formed record fixes its network and its sort key. An IPv4
      host has a dot among its first four characters, an IPv6 host has no dot, and an
      onion host has sixteen letters and digits before its dot; two IPv4 hosts with one
      text have one list of octets. */
  lemma SameHostSameKey(x: Record, y: Record)
    requires WellFormed(x) && WellFormed(y) && x.ip == y.ip
    ensures x.net == y.net && x.sortKey == y.sortKey
  {
    if x.net == IPv4 {
      var o :| V4Host(x.ip, o) && Ipv4Number(OctetValues(o)) == x.ipnum;
      V4HostDot(x.ip, o);
      if y.net == IPv4 {
        var o' :| V4Host(y.ip, o') && Ipv4Number(OctetValues(o')) == y.ipnum;
        V4HostOctets(x.ip, o, o');
      }
    } else if y.net == IPv4 {
      var o :| V4Host(y.ip, o) && Ipv4Number(OctetValues(o)) == y.ipnum;
      V4HostDot(y.ip, o);
    } else if x.net != y.net {
      var onion := if x.net == Onion then x else y;
      OnionHostDot(onion);
    }
  }

  /** An onion host has its dot after sixteen letters and digits. */
  lemma OnionHostDot(r: Record)
    requires WellFormed(r) && r.net == Onion
    ensures |r.ip| > 16 && r.ip[16] == '.' && !IsV6Char(r.ip[16])
  {
    assert r.ip == r.ip[..16] + ".onion";
  }

  /** An IPv4 host has a dot right after its first octet, within its first four
      characters. */
  lemma V4HostDot(ip: string, octets: seq<string>)
    requires V4Host(ip, octets)
    ensures |octets[0]| <= 3 < 16 && |octets[0]| < |ip| && ip[|octets[0]|] == '.'
    ensures !IsV6Char(ip[|octets[0]|]) && !IsBase32(ip[|octets[0]|])
  {
    assert ip == octets[0] + "." + Dotted(octets[1..]);
  }

  /** One IPv4 text has one list of octets. */
  lemma V4HostOctets(ip: string, o: seq<string>, o': seq<string>)
    requires V4Host(ip, o) && V4Host(ip, o')
    ensures o == o'
  {
    MatchIPv4Complete(o, "0");
    MatchIPv4Complete(o', "0");
  }

  // ---------------------------------------------------------------- what parseline promises

  /** Lines 32-34: fewer than 11 tokens give `None`. */
  lemma ParseShort(line: string, floatOf: string -> Option<real>)
    requires |Split(line)| < 11
    ensures ParseLine(line, floatOf) == Skipped
  {
  }

  /** The `return None` paths of lines 35-67, all of them and only them. */
  lemma LocateNone(tok: string)
    ensures Locate(tok).None? <==>
      (MatchIPv4(tok).None? && MatchIPv6(tok).None? && MatchOnion(tok).None?) ||
      (MatchIPv6(tok).Some? && MatchIPv6(tok).value.host == "::") ||
      (MatchIPv4(tok).Some? &&
       (Ipv4Number(OctetValues(MatchIPv4(tok).value.octets)) in {None, Some(0)}))
  {
    var a := AddressOf(tok);
    if a.V4Address? {
      var n := Ipv4Number(OctetValues(a.m4.octets));
      assert n in {None, Some(0)} <==> n.None? || n.value == 0;
    }
  }

  /** The `return None` paths of `parseline`: too few tokens, or one of those of token 0. */
  lemma ParseSkipped(t: seq<string>, floatOf: string -> Option<real>)
    ensures ParseTokens(t, floatOf) == Skipped <==> |t| < 11 || Locate(t[0]).None?
  {
    if |t| >= 11 && Locate(t[0]).Some? {
      FieldsRaised(t, Locate(t[0]).value, floatOf);
    }
  }

  /** The exceptions: once the address is known, the line raises exactly when it has
      fewer than 13 tokens or one of the five conversions fails; otherwise it is accepted. */
  lemma FieldsRaised(t: seq<string>, loc: Location, floatOf: string -> Option<real>)
    requires |t| >= 11
    ensures Fields(t, loc, floatOf).Raised? <==>
      |t| < 13 || floatOf(DropLast(t[7])).None? || PyInt(t[2], 10).None? ||
      PyInt(t[10], 10).None? || PyInt(t[9], 16).None? || PyInt(t[8], 10).None?
    ensures !Fields(t, loc, floatOf).Skipped?
  {
    AgentRaises(t);
  }

  /** An accepted line had at least 13 tokens, and every field comes from its place. */
  lemma ParseAcceptedFields(t: seq<string>, floatOf: string -> Option<real>)
    requires ParseTokens(t, floatOf).Accepted?
    ensures |t| >= 13 && Locate(t[0]).Some?
    ensures var r := ParseTokens(t, floatOf).rec;
      var loc := Locate(t[0]).value;
      r.net == loc.net && r.ip == loc.host && r.port == loc.port &&
      r.ipnum == loc.ipnum && r.sortKey == loc.key &&
      Some(r.uptime) == floatOf(DropLast(t[7])) &&
      Some(r.lastSuccess) == PyInt(t[2], 10) &&
      Some(r.version) == PyInt(t[10], 10) &&
      Some(r.service) == PyInt(t[9], 16) &&
      Some(r.blocks) == PyInt(t[8], 10) &&
      r.agent == DropFirst(t[11]) + DropLast(t[12])
  {
    var loc := Locate(t[0]).value;
    assert ParseTokens(t, floatOf) == Fields(t, loc, floatOf);
    AgentRaises(t);
  }

  /** A located address: the kind is the first pattern that matched the token, and the
      host and port are that pattern's groups. */
  lemma LocateAddress(tok: string)
    requires Locate(tok).Some?
    ensures var loc := Locate(tok).value;
      (loc.net == IPv4 <==> MatchIPv4(tok).Some?) &&
      (loc.net == IPv6 <==> MatchIPv6(tok).Some?) &&
      (loc.net == Onion <==> MatchOnion(tok).Some?) &&
      (loc.net == IPv4 ==> loc.host == MatchIPv4(tok).value.host && loc.port == DigitsValue(MatchIPv4(tok).value.port)) &&
      (loc.net == IPv6 ==> loc.host == MatchIPv6(tok).value.host && loc.port == DigitsValue(MatchIPv6(tok).value.port)) &&
      (loc.net == Onion ==> loc.host == MatchOnion(tok).value.host && loc.port == DigitsValue(MatchOnion(tok).value.port))
  {
  }

  /** What token 0 fixes of a record: host shape, number and sort key. */
  lemma LocateWellFormed(tok: string)
    requires Locate(tok).Some?
    ensures var loc := Locate(tok).value;
      match loc.net
      case IPv4 =>
        loc.ipnum.Some? && 0 < loc.ipnum.value < 0x1_0000_0000 && loc.key == NumKey(loc.ipnum.value) &&
        exists octets :: V4Host(loc.host, octets) && Ipv4Number(OctetValues(octets)) == loc.ipnum
      case IPv6 =>
        loc.ipnum.None? && loc.key == TextKey(loc.host) && IsV6HostText(loc.host) && loc.host != "::"
      case Onion =>
        loc.ipnum.None? && loc.key == TextKey(loc.host) &&
        |loc.host| == 22 && IsOnionName(loc.host[..16]) && loc.host == loc.host[..16] + ".onion"
  {
    var a := AddressOf(tok);
    if a.V4Address? {
      var o := OctetValues(a.m4.octets);
      Ipv4Range(o);
      assert V4Host(a.m4.host, a.m4.octets);
    }
  }

  /** Every record `parseline` returns is well formed. */
  lemma ParseWellFormed(t: seq<string>, floatOf: string -> Option<real>)
    requires forall i :: 0 <= i < |t| ==> NoSpace(t[i])
    requires ParseTokens(t, floatOf).Accepted?
    ensures WellFormed(ParseTokens(t, floatOf).rec)
  {
    ParseAcceptedFields(t, floatOf);
    LocateWellFormed(t[0]);
    AgentNoSpace(t[11], t[12]);
  }

  lemma AgentNoSpace(a: string, b: string)
    requires NoSpace(a) && NoSpace(b)
    ensures NoSpace(DropFirst(a) + DropLast(b))
  {
    var x := DropFirst(a);
    var y := DropLast(b);
    assert forall i :: 0 <= i < |x| ==> x[i] == a[i + 1];
    assert forall i :: 0 <= i < |y| ==> y[i] == b[i];
    assert forall i :: 0 <= i < |x + y| ==> (x + y)[i] == if i < |x| then x[i] else y[i - |x|];
  }

  /** Line 69 never rejects: token 1 has no influence on the result. */
  lemma ParseIgnoresToken1(t: seq<string>, u: seq<string>, floatOf: string -> Option<real>)
    requires |t| == |u| >= 2
    requires forall i :: 0 <= i < |t| && i != 1 ==> t[i] == u[i]
    ensures ParseTokens(t, floatOf) == ParseTokens(u, floatOf)
  {
    assert t[0] == u[0];
    if |t| >= 11 && Locate(t[0]).Some? {
      var loc := Locate(t[0]).value;
      assert t[2] == u[2] && t[7] == u[7] && t[8] == u[8] && t[9] == u[9] && t[10] == u[10];
      AgentRaises(t);
      AgentRaises(u);
      if |t| >= 13 { assert t[11] == u[11] && t[12] == u[12]; }
      assert Fields(t, loc, floatOf) == Fields(u, loc, floatOf);
    }
  }

  // ---------------------------------------------------------------- all lines

  /** Line 144: the `None`s dropped from the parsed lines, in order. An exception on any
      line ends the script, modelled as `None`. */
  function Gather(rs: seq<LineResult>): (r: Option<seq<Record>>)
    ensures r.None? <==> exists i :: 0 <= i < |rs| && rs[i].Raised?
    ensures r.Some? ==> forall x :: x in r.value <==> Accepted(x) in rs
  {
    if rs == [] then Some([])
    else
      var rest := Gather(rs[1..]);
      assert forall i :: 0 < i < |rs| ==> rs[i] == rs[1..][i - 1];
      if rs[0].Raised? || rest.None? then None
      else Some((if rs[0].Accepted? then [rs[0].rec] else []) + rest.value)
  }

  /** The `None` filter keeps order and multiplicity: two stretches of lines give the
      records of the first followed by those of the second, and either one raising makes
      the whole raise. */
  lemma {:induction false} GatherConcat(a: seq<LineResult>, b: seq<LineResult>)
    ensures Gather(a + b) ==
      if Gather(a).None? || Gather(b).None? then None else Some(Gather(a).value + Gather(b).value)
  {
    if a == [] {
      assert a + b == b && Gather(a) == Some([]);
      if Gather(b).Some? { assert [] + Gather(b).value == Gather(b).value; }
    } else {
      var ab := a + b;
      assert ab[0] == a[0] && ab[1..] == a[1..] + b;
      var h := if a[0].Accepted? then [a[0].rec] else [];
      assert Gather(a) == if a[0].Raised? || Gather(a[1..]).None? then None else Some(h + Gather(a[1..]).value);
      assert Gather(ab) == if a[0].Raised? || Gather(ab[1..]).None? then None else Some(h + Gather(ab[1..]).value);
      GatherConcat(a[1..], b);
      if Gather(ab).Some? {
        var x, y := Gather(a[1..]).value, Gather(b).value;
        assert Gather(ab[1..]).value == x + y;
        assert h + (x + y) == (h + x) + y;
      }
    }
  }

  /** One line: its record, nothing, or the exception. */
  lemma GatherOne(x: LineResult)
    ensures Gather([x]) ==
      match x
      case Accepted(r) => Some([r])
      case Skipped => Some([])
      case Raised => None
  {
    assert [x][1..] == [];
    assert Gather([x][1..]) == Some([]);
    var none: seq<Record> := [];
    match x
    case Accepted(r) =>
      assert Gather([x]) == Some([r] + none);
      assert [r] + none == [r];
    case Skipped =>
      assert Gather([x]) == Some(none + none);
      assert none + none == [];
    case Raised =>
  }

  /** `f` on every line, in order. */
  function MapLines(lines: seq<string>, f: string -> LineResult): (rs: seq<LineResult>)
    ensures |rs| == |lines|
    ensures forall i :: 0 <= i < |lines| ==> rs[i] == f(lines[i])
  {
    seq(|lines|, i requires 0 <= i < |lines| => f(lines[i]))
  }

  lemma MapLinesConcat(a: seq<string>, b: seq<string>, f: string -> LineResult)
    ensures MapLines(a + b, f) == MapLines(a, f) + MapLines(b, f)
  {
    var l, r := MapLines(a + b, f), MapLines(a, f) + MapLines(b, f);
    forall i | 0 <= i < |l| ensures l[i] == r[i] {
      if i < |a| {
        assert (a + b)[i] == a[i];
      } else {
        assert (a + b)[i] == b[i - |a|];
      }
    }
  }

  function LineParser(floatOf: string -> Option<real>): string -> LineResult
  {
    line => ParseLine(line, floatOf)
  }

  /** Line 141: `parseline` on every line. */
  function ParseEach(lines: seq<string>, floatOf: string -> Option<real>): (rs: seq<LineResult>)
    ensures |rs| == |lines|
    ensures forall i :: 0 <= i < |lines| ==> rs[i] == ParseLine(lines[i], floatOf)
  {
    MapLines(lines, LineParser(floatOf))
  }

  /** Lines 141-144: every line parsed, then the `None`s dropped. */
  function ParseAll(lines: seq<string>, floatOf: string -> Option<real>): (r: Option<seq<Record>>)
    ensures r.None? <==> exists i :: 0 <= i < |lines| && ParseLine(lines[i], floatOf).Raised?
    ensures r.Some? ==> forall x :: x in r.value <==>
      exists i :: 0 <= i < |lines| && ParseLine(lines[i], floatOf) == Accepted(x)
  {
    GatherEach(lines, floatOf);
    Gather(ParseEach(lines, floatOf))
  }

  lemma GatherEach(lines: seq<string>, floatOf: string -> Option<real>)
    ensures var r := Gather(ParseEach(lines, floatOf));
      (r.None? <==> exists i :: 0 <= i < |lines| && ParseLine(lines[i], floatOf).Raised?) &&
      (r.Some? ==> forall x :: x in r.value <==>
        exists i :: 0 <= i < |lines| && ParseLine(lines[i], floatOf) == Accepted(x))
  {
    var rs := ParseEach(lines, floatOf);
    assert forall x :: Accepted(x) in rs <==> exists i :: 0 <= i < |lines| && rs[i] == Accepted(x);
  }

  /** Reading two stretches of the report gives the records of the first followed by
      those of the second, so a line that occurs twice gives its record twice. */
  lemma ParseAllConcat(a: seq<string>, b: seq<string>, floatOf: string -> Option<real>)
    ensures ParseAll(a + b, floatOf) ==
      if ParseAll(a, floatOf).None? || ParseAll(b, floatOf).None? then None
      else Some(ParseAll(a, floatOf).value + ParseAll(b, floatOf).value)
  {
    ParseEachConcat(a, b, floatOf);
    GatherConcat(ParseEach(a, floatOf), ParseEach(b, floatOf));
  }

  lemma ParseEachConcat(a: seq<string>, b: seq<string>, floatOf: string -> Option<real>)
    ensures ParseEach(a + b, floatOf) == ParseEach(a, floatOf) + ParseEach(b, floatOf)
  {
    MapLinesConcat(a, b, LineParser(floatOf));
  }

  /** A report of one line gives that line's record, nothing, or the exception. */
  lemma ParseAllOne(line: string, floatOf: string -> Option<real>)
    ensures ParseAll([line], floatOf) ==
      match ParseLine(line, floatOf)
      case Accepted(r) => Some([r])
      case Skipped => Some([])
      case Raised => None
  {
    assert ParseEach([line], floatOf) == [ParseLine(line, floatOf)];
    GatherOne(ParseLine(line, floatOf));
  }

  /** Reading the lines in another order gives the same records in another order. */
  lemma {:induction false} ParseAllPerm(a: seq<string>, b: seq<string>, floatOf: string -> Option<real>)
    requires multiset(a) == multiset(b) && ParseAll(a, floatOf).Some?
    ensures ParseAll(b, floatOf).Some?
    ensures multiset(ParseAll(a, floatOf).value) == multiset(ParseAll(b, floatOf).value)
    decreases |a|
  {
    if a == [] {
      assert b == [] by { assert |b| == |multiset(b)| == 0; }
    } else {
      var x := a[0];
      var j := PickLine(a, b);
      var b1, b2 := b[..j], b[j + 1..];
      var px := ParseAll([x], floatOf);
      var pa := ParseAll(a[1..], floatOf);
      assert px.Some? && pa.Some? && ParseAll(a, floatOf).value == px.value + pa.value by {
        ParseAllConcat([x], a[1..], floatOf);
      }
      ParseAllPerm(a[1..], b1 + b2, floatOf);
      var p1 := ParseAll(b1, floatOf);
      var p2 := ParseAll(b2, floatOf);
      assert p1.Some? && p2.Some? && ParseAll(b1 + b2, floatOf).value == p1.value + p2.value by {
        ParseAllConcat(b1, b2, floatOf);
      }
      assert ParseAll(b, floatOf) == Some(p1.value + px.value + p2.value) by {
        ParseAllConcat(b1, [x], floatOf);
        ParseAllConcat(b1 + [x], b2, floatOf);
      }
    }
  }

  /** Every record read from the report is well formed. */
  lemma ParsedWellFormed(lines: seq<string>, floatOf: string -> Option<real>)
    requires ParseAll(lines, floatOf).Some?
    ensures forall x :: x in ParseAll(lines, floatOf).value ==> WellFormed(x)
  {
    forall x | x in ParseAll(lines, floatOf).value ensures WellFormed(x) {
      var i :| 0 <= i < |lines| && ParseLine(lines[i], floatOf) == Accepted(x);
      ParseWellFormed(Split(lines[i]), floatOf);
    }
  }

  /** The first line of `a` taken out of its permutation `b`. */
  lemma PickLine(a: seq<string>, b: seq<string>) returns (j: nat)
    requires multiset(a) == multiset(b) && a != []
    ensures j < |b| && b[j] == a[0]
    ensures a == [a[0]] + a[1..] && b == (b[..j] + [a[0]]) + b[j + 1..]
    ensures multiset(a[1..]) == multiset(b[..j] + b[j + 1..])
  {
    assert a[0] in multiset(b);
    j :| 0 <= j < |b| && b[j] == a[0];
    var b1, b2 := b[..j], b[j + 1..];
    assert b == b1 + [a[0]] + b2;
    assert a == [a[0]] + a[1..];
    assert multiset(b) == multiset(b1) + multiset([a[0]]) + multiset(b2);
    assert multiset(b1 + b2) == multiset(b1) + multiset(b2);
    assert multiset(a) == multiset([a[0]]) + multiset(a[1..]);
    assert multiset(a[1..]) == multiset(a) - multiset([a[0]]);
    assert multiset(b1 + b2) == multiset(b) - multiset([a[0]]);
  }
}
