/** The quality gates of `main`: five list comprehensions, each keeping the records that
    meet one condition, applied in a row to the parsed records. */
module Gates {
  import opened Text
  import opened Patterns
  import opened Records

  /** Line 146: the host is not one of `SUSPICIOUS_HOSTS`. */
  predicate NotSuspicious(cfg: Config, r: Record) { r.ip !in cfg.suspicious }

  /** Line 148: at least `MIN_BLOCKS` blocks. */
  predicate EnoughBlocks(cfg: Config, r: Record) { r.blocks >= cfg.minBlocks }

  /** Line 150: `service & 1 == 1`. On Python's unbounded integers `x & 1` is the
      remainder of `x` modulo 2 taken non-negative, which is Dafny's `%`. */
  predicate HasNetworkService(r: Record) { r.service % 2 == 1 }

  /** Line 152: strictly more than 50 percent uptime. */
  predicate GoodUptime(r: Record) { r.uptime > 50.0 }

  /** `re.sub(' ', '-', s)`. */
  function ReplaceSpaces(s: string): (r: string)
    ensures |r| == |s|
    ensures forall i :: 0 <= i < |s| ==> r[i] == (if s[i] == ' ' then '-' else s[i])
  {
    if s == [] then [] else [if s[0] == ' ' then '-' else s[0]] + ReplaceSpaces(s[1..])
  }

  /** Line 154: the agent, with spaces turned into dashes, matches `PATTERN_AGENT`. */
  predicate KnownAgent(r: Record) { AgentMatches(ReplaceSpaces(r.agent)) }

  /** All five conditions. */
  predicate PassesGates(cfg: Config, r: Record)
  {
    NotSuspicious(cfg, r) && EnoughBlocks(cfg, r) && HasNetworkService(r) && GoodUptime(r) && KnownAgent(r)
  }

  function SuspiciousGate(cfg: Config): Record -> bool { r => NotSuspicious(cfg, r) }
  function BlocksGate(cfg: Config): Record -> bool { r => EnoughBlocks(cfg, r) }
  function ServiceGate(): Record -> bool { r => HasNetworkService(r) }
  function UptimeGate(): Record -> bool { r => GoodUptime(r) }
  function AgentGate(): Record -> bool { r => KnownAgent(r) }
  function AllGates(cfg: Config): Record -> bool { r => PassesGates(cfg, r) }

  /** Lines 146-154, the comprehensions in the script's order. A record survives exactly
      when it meets all five conditions. */
  function QualityFilter(cfg: Config, s: seq<Record>): (r: seq<Record>)
    ensures forall x :: x in r <==> x in s && PassesGates(cfg, x)
  {
    var s1 := Filter(s, SuspiciousGate(cfg));
    var s2 := Filter(s1, BlocksGate(cfg));
    var s3 := Filter(s2, ServiceGate());
    var s4 := Filter(s3, UptimeGate());
    var s5 := Filter(s4, AgentGate());
    s5
  }

  /** The five comprehensions together are the one comprehension with all five
      conditions: the order in which the gates run does not matter. */
  lemma QualityFilterIsOneFilter(cfg: Config, s: seq<Record>)
    ensures QualityFilter(cfg, s) == Filter(s, AllGates(cfg))
  {
    var g12: Record -> bool := r => NotSuspicious(cfg, r) && EnoughBlocks(cfg, r);
    var g123: Record -> bool := r => g12(r) && HasNetworkService(r);
    var g1234: Record -> bool := r => g123(r) && GoodUptime(r);
    FilterTwice(s, SuspiciousGate(cfg), BlocksGate(cfg), g12);
    FilterTwice(s, g12, ServiceGate(), g123);
    FilterTwice(s, g123, UptimeGate(), g1234);
    FilterTwice(s, g1234, AgentGate(), AllGates(cfg));
  }

  /** The gates only remove records: the survivors keep their relative order. */
  lemma QualityFilterKeepsOrder(cfg: Config, s: seq<Record>)
    ensures IsSubseq(QualityFilter(cfg, s), s)
  {
    QualityFilterIsOneFilter(cfg, s);
    FilterIsSubseq(s, AllGates(cfg));
  }

  /** A parsed agent holds no whitespace, so the substitution of line 154 leaves it as it
      is. */
  lemma {:induction false} ReplaceSpacesNoSpace(s: string)
    requires NoSpace(s)
    ensures ReplaceSpaces(s) == s
  {
    if s != [] {
      assert IsSpace(' ');
      assert NoSpace(s[1..]) by { assert forall i :: 0 <= i < |s| - 1 ==> s[1..][i] == s[i + 1]; }
      ReplaceSpacesNoSpace(s[1..]);
      assert [s[0]] + s[1..] == s;
    }
  }
}
