/** The four regular expressions of the seed script, written out as matchers over
    characters. Each address matcher returns the groups the script reads; its contract
    says the groups spell the text back in the pattern's shape, and a lemma says every
    text of that shape is matched with exactly those groups. `\d` is read as the ASCII
    digits. */
module Patterns {
  import opened Text

  /** Python's `$` matches at the end of the text and also just before a final newline.
      None of the patterns can end in a newline, so matching the text with that newline
      removed is the same as trying both places. */
  function DropFinalNewline(t: string): (u: string)
    ensures u == t || (t == u + "\n")
  {
    if |t| > 0 && t[|t| - 1] == '\n' then t[..|t| - 1] else t
  }

  lemma NoNewlineKept(t: string)
    requires |t| == 0 || t[|t| - 1] != '\n'
    ensures DropFinalNewline(t) == t
  {
  }

  // ---------------------------------------------------------------- IPv4

  /** Groups of `^((\d{1,3})\.(\d{1,3})\.(\d{1,3})\.(\d{1,3})):(\d+)$`:
      group 1 is `host`, groups 2 to 5 are `octets`, group 6 is `port`. */
  datatype V4Match = V4Match(host: string, octets: seq<string>, port: string)

  predicate IsOctetText(s: string) { 1 <= |s| <= 3 && AllDigits(s) }

  predicate IsPortText(s: string) { s != [] && AllDigits(s) }

  predicate IsOctetList(octets: seq<string>)
  {
    forall i :: 0 <= i < |octets| ==> IsOctetText(octets[i])
  }

  predicate V4Groups(octets: seq<string>, port: string)
  {
    |octets| == 4 && IsOctetList(octets) && IsPortText(port)
  }

  /** The octet texts joined by dots. */
  function Dotted(octets: seq<string>): string
    requires octets != []
  {
    if |octets| == 1 then octets[0] else octets[0] + "." + Dotted(octets[1..])
  }

  /** `\d{1,3}` followed by `sep`: the digits, and the text after `sep`. */
  function OctetThen(u: string, sep: char): (r: Option<(string, string)>)
    ensures r.Some? ==> IsOctetText(r.value.0) && u == r.value.0 + [sep] + r.value.1
  {
    var n := Run(u, Digit);
    if 1 <= n <= 3 && n < |u| && u[n] == sep then
      assert u == u[..n] + [sep] + u[n + 1..];
      Some((u[..n], u[n + 1..]))
    else None
  }

  lemma OctetThenOf(a: string, sep: char, rest: string)
    requires IsOctetText(a) && !IsDigit(sep)
    ensures OctetThen(a + [sep] + rest, sep) == Some((a, rest))
  {
    var u := a + [sep] + rest;
    assert u == a + ([sep] + rest);
    RunStopsAt(a, [sep] + rest, Digit);
    assert u[..|a|] == a;
    assert u[|a| + 1..] == rest;
  }

  /** `k` groups `\d{1,3}` separated by dots, then `:` and `\d+` to the end. */
  function OctetsThenPort(u: string, k: nat): (r: Option<(seq<string>, string)>)
    requires k >= 1
    ensures r.Some? ==>
      |r.value.0| == k && IsOctetList(r.value.0) && IsPortText(r.value.1) &&
      u == Dotted(r.value.0) + ":" + r.value.1
  {
    if k == 1 then
      var m := OctetThen(u, ':');
      if m.Some? && IsPortText(m.value.1) then Some(([m.value.0], m.value.1)) else None
    else
      var m := OctetThen(u, '.');
      if m.None? then None else
      var tail := OctetsThenPort(m.value.1, k - 1);
      if tail.None? then None else
      var octets := [m.value.0] + tail.value.0;
      assert octets[1..] == tail.value.0;
      Some((octets, tail.value.1))
  }

  lemma {:induction false} OctetsThenPortOf(octets: seq<string>, port: string)
    requires octets != [] && IsOctetList(octets) && IsPortText(port)
    ensures OctetsThenPort(Dotted(octets) + ":" + port, |octets|) == Some((octets, port))
  {
    if |octets| == 1 {
      LastOctetOf(octets[0], port);
      assert [octets[0]] == octets;
    } else {
      var tail := octets[1..];
      assert IsOctetList(tail) by {
        forall i | 0 <= i < |tail| ensures IsOctetText(tail[i]) {
          assert tail[i] == octets[i + 1];
        }
      }
      OctetsThenPortOf(tail, port);
      NextOctetOf(octets, port);
    }
  }

  lemma LastOctetOf(a: string, port: string)
    requires IsOctetText(a) && IsPortText(port)
    ensures OctetsThenPort(a + ":" + port, 1) == Some(([a], port))
  {
    OctetThenOf(a, ':', port);
  }

  lemma NextOctetOf(octets: seq<string>, port: string)
    requires |octets| >= 2 && IsOctetText(octets[0])
    requires OctetsThenPort(Dotted(octets[1..]) + ":" + port, |octets| - 1) == Some((octets[1..], port))
    ensures OctetsThenPort(Dotted(octets) + ":" + port, |octets|) == Some((octets, port))
  {
    var rest := Dotted(octets[1..]) + ":" + port;
    assert Dotted(octets) + ":" + port == octets[0] + ['.'] + rest;
    OctetThenOf(octets[0], '.', rest);
    assert [octets[0]] + octets[1..] == octets;
  }

  /** `PATTERN_IPV4.match(t)`. */
  function MatchIPv4(t: string): (r: Option<V4Match>)
    ensures r.Some? ==>
      V4Groups(r.value.octets, r.value.port) &&
      r.value.host == Dotted(r.value.octets) &&
      DropFinalNewline(t) == r.value.host + ":" + r.value.port
  {
    var m := OctetsThenPort(DropFinalNewline(t), 4);
    if m.None? then None else Some(V4Match(Dotted(m.value.0), m.value.0, m.value.1))
  }

  /** Every text of the IPv4 shape is matched, with its own groups. */
  lemma MatchIPv4Complete(octets: seq<string>, port: string)
    requires V4Groups(octets, port)
    ensures MatchIPv4(Dotted(octets) + ":" + port) == Some(V4Match(Dotted(octets), octets, port))
  {
    var t := Dotted(octets) + ":" + port;
    assert t[|t| - 1] == port[|port| - 1];
    assert DropFinalNewline(t) == t;
    OctetsThenPortOf(octets, port);
  }

  // ---------------------------------------------------------------- IPv6

  /** Groups of `^\[([0-9a-z:]+)\]:(\d+)$`. */
  datatype V6Match = V6Match(host: string, port: string)

  /** `[0-9a-z:]`. */
  predicate IsV6Char(c: char) { In(c, V6Host) }

  predicate IsV6HostText(s: string) { s != [] && forall i :: 0 <= i < |s| ==> IsV6Char(s[i]) }

  function MatchIPv6Body(u: string): (r: Option<V6Match>)
    ensures r.Some? ==>
      IsV6HostText(r.value.host) && IsPortText(r.value.port) &&
      u == "[" + r.value.host + "]:" + r.value.port
  {
    if |u| == 0 || u[0] != '[' then None
    else
      var n := Run(u[1..], V6Host);
      var rest := u[1 + n..];
      if 1 <= n && |rest| >= 2 && rest[0] == ']' && rest[1] == ':' && IsPortText(rest[2..]) then
        assert u == "[" + u[1..1 + n] + "]:" + rest[2..];
        Some(V6Match(u[1..1 + n], rest[2..]))
      else None
  }

  /** `PATTERN_IPV6.match(t)`. */
  function MatchIPv6(t: string): (r: Option<V6Match>)
    ensures r.Some? ==>
      IsV6HostText(r.value.host) && IsPortText(r.value.port) &&
      DropFinalNewline(t) == "[" + r.value.host + "]:" + r.value.port
  {
    MatchIPv6Body(DropFinalNewline(t))
  }

  lemma MatchIPv6Complete(host: string, port: string)
    requires IsV6HostText(host) && IsPortText(port)
    ensures MatchIPv6("[" + host + "]:" + port) == Some(V6Match(host, port))
  {
    var t := "[" + host + "]:" + port;
    assert t[|t| - 1] == port[|port| - 1];
    assert DropFinalNewline(t) == t;
    MatchIPv6BodyOf(host, port);
  }

  lemma MatchIPv6BodyOf(host: string, port: string)
    requires IsV6HostText(host) && IsPortText(port)
    ensures MatchIPv6Body("[" + host + "]:" + port) == Some(V6Match(host, port))
  {
    var t := "[" + host + "]:" + port;
    var tail := "]:" + port;
    assert t[1..] == host + tail;
    RunStopsAt(host, tail, V6Host);
    assert t[1..1 + |host|] == host;
    assert t[1 + |host|..] == tail;
    assert tail[2..] == port;
  }

  // ---------------------------------------------------------------- onion

  /** Groups of `^([abcdefghijklmnopqrstuvwxyz234567]{16}\.onion):(\d+)$`. */
  datatype OnionMatch = OnionMatch(host: string, port: string)

  predicate IsBase32(c: char) { ('a' <= c <= 'z') || ('2' <= c <= '7') }

  predicate IsOnionName(s: string) { |s| == 16 && forall i :: 0 <= i < 16 ==> IsBase32(s[i]) }

  function MatchOnionBody(u: string): (r: Option<OnionMatch>)
    ensures r.Some? ==>
      |r.value.host| == 22 && IsOnionName(r.value.host[..16]) &&
      r.value.host == r.value.host[..16] + ".onion" &&
      IsPortText(r.value.port) && u == r.value.host + ":" + r.value.port
  {
    if |u| >= 24 && IsOnionName(u[..16]) && u[16..22] == ".onion" && u[22] == ':' && IsPortText(u[23..]) then
      assert u == u[..22] + ":" + u[23..];
      assert u[..22] == u[..16] + u[16..22];
      Some(OnionMatch(u[..22], u[23..]))
    else None
  }

  /** `PATTERN_ONION.match(t)`. */
  function MatchOnion(t: string): (r: Option<OnionMatch>)
    ensures r.Some? ==>
      |r.value.host| == 22 && IsOnionName(r.value.host[..16]) &&
      r.value.host == r.value.host[..16] + ".onion" &&
      IsPortText(r.value.port) && DropFinalNewline(t) == r.value.host + ":" + r.value.port
  {
    MatchOnionBody(DropFinalNewline(t))
  }

  lemma MatchOnionComplete(name: string, port: string)
    requires IsOnionName(name) && IsPortText(port)
    ensures MatchOnion(name + ".onion" + ":" + port) == Some(OnionMatch(name + ".onion", port))
  {
    var t := name + ".onion" + ":" + port;
    assert t[|t| - 1] == port[|port| - 1];
    assert t[..16] == name;
    assert t[16..22] == ".onion";
    assert t[..22] == name + ".onion";
    assert t[23..] == port;
  }

  // ---------------------------------------------------------------- agent

  /** `^(/ZMGCore:2.2.(0|1|99)/)$` without the final-newline allowance. The two dots are
      not escaped, so each stands for any character other than a newline. */
  predicate AgentBody(u: string)
  {
    |u| >= 15 && u[..10] == "/ZMGCore:2" && u[10] != '\n' && u[11] == '2' && u[12] != '\n' &&
    u[13..] in {"0/", "1/", "99/"}
  }

  /** `PATTERN_AGENT.match(s)` is not `None`. */
  predicate AgentMatches(s: string) { AgentBody(DropFinalNewline(s)) }

  function AgentText(c1: char, c2: char, release: string): string
  {
    "/ZMGCore:2" + [c1] + "2" + [c2] + release + "/"
  }

  /** Every accepted agent is `/ZMGCore:2?2?R/` for a release R of 0, 1 or 99, with some
      character other than a newline in the places of the dots, optionally followed by
      one newline. */
  lemma AgentMatchesShape(s: string)
    requires AgentMatches(s)
    ensures exists c1: char, c2: char, release: string, nl: string ::
        c1 != '\n' && c2 != '\n' && release in {"0", "1", "99"} && nl in {"", "\n"} &&
        s == AgentText(c1, c2, release) + nl
  {
    var u := DropFinalNewline(s);
    var nl := if u == s then "" else "\n";
    var tail := u[13..];
    var release := tail[..|tail| - 1];
    assert tail == release + "/";
    assert release == "0" || release == "1" || release == "99" by {
      if tail == "0/" { assert release == "0"; }
      else if tail == "1/" { assert release == "1"; }
      else { assert tail == "99/" && release == tail[..2]; }
    }
    assert u[..13] == u[..10] + [u[10]] + "2" + [u[12]] by {
      assert u[11] == '2';
      assert u[..13] == u[..10] + u[10..13];
      assert u[10..13] == [u[10], u[11], u[12]];
    }
    assert u == u[..13] + tail;
    assert u == AgentText(u[10], u[12], release);
    assert s == u + nl;
  }

  /** Every text of that shape is accepted: the dots match any character but a newline. */
  lemma AgentTextMatches(c1: char, c2: char, release: string, nl: string)
    requires c1 != '\n' && c2 != '\n' && release in {"0", "1", "99"} && nl in {"", "\n"}
    ensures AgentMatches(AgentText(c1, c2, release) + nl)
  {
    var u := AgentText(c1, c2, release);
    var head := "/ZMGCore:2" + [c1] + "2" + [c2];
    assert u == head + (release + "/") && |head| == 13;
    assert u[|u| - 1] == '/';
    assert DropFinalNewline(u + nl) == u;
    assert u[..10] == "/ZMGCore:2";
    assert u[13..] == release + "/";
    assert release + "/" in {"0/", "1/", "99/"} by {
      if release == "0" { assert release + "/" == "0/"; }
      else if release == "1" { assert release + "/" == "1/"; }
      else { assert release + "/" == "99/"; }
    }
  }

  // ---------------------------------------------------------------- the three address grammars

  /** No token matches two of the address grammars: an IPv4 text starts with a digit and
      has a dot within its first four characters, an IPv6 text starts with `[`, an onion
      text starts with sixteen letters and digits. So trying them in the script's order
      or any other gives the same answer. */
  lemma GrammarsExclusive(t: string)
    ensures MatchIPv4(t).Some? ==> MatchIPv6(t).None? && MatchOnion(t).None?
    ensures MatchIPv6(t).Some? ==> MatchOnion(t).None?
  {
    var u := DropFinalNewline(t);
    if MatchIPv4(t).Some? {
      var o := MatchIPv4(t).value.octets;
      var port := MatchIPv4(t).value.port;
      var w := o[0];
      assert IsOctetText(w);
      assert u == w + "." + Dotted(o[1..]) + ":" + port;
      assert u[0] == w[0] && IsDigit(w[0]);
      assert u[|w|] == '.';
    }
    if MatchIPv6(t).Some? {
      assert u[0] == '[';
    }
  }
}
