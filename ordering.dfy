/** The two sorts of `main`: by `(uptime, lastsuccess, ip)` descending (line 156) and by
    `(net, sortkey)` ascending (line 162). Keys compare as Python compares tuples,
    strings and numbers. The sort is a specification function: it returns the records
    ordered by the key, as a permutation of its input. */
module Ordering {
  import opened Text
  import opened Records

  // ---------------------------------------------------------------- strings

  /** Python's `a < b` on strings: by code point, a proper prefix first. */
  predicate StrLt(a: string, b: string)
    decreases |a|
  {
    if a == [] then b != []
    else if b == [] then false
    else if a[0] != b[0] then a[0] < b[0]
    else StrLt(a[1..], b[1..])
  }

  lemma {:induction false} StrLtIrreflexive(a: string)
    ensures !StrLt(a, a)
  {
    if a != [] { StrLtIrreflexive(a[1..]); }
  }

  lemma {:induction false} StrLtTrans(a: string, b: string, c: string)
    requires StrLt(a, b) && StrLt(b, c)
    ensures StrLt(a, c)
    decreases |a|
  {
    if a != [] && a[0] == b[0] && b[0] == c[0] {
      StrLtTrans(a[1..], b[1..], c[1..]);
    }
  }

  lemma {:induction false} StrLtTotal(a: string, b: string)
    requires a != b
    ensures StrLt(a, b) || StrLt(b, a)
    decreases |a|
  {
    if a != [] && b != [] && a[0] == b[0] {
      assert a == [a[0]] + a[1..] && b == [b[0]] + b[1..];
      StrLtTotal(a[1..], b[1..]);
    }
  }

  lemma StrLtAsym(a: string, b: string)
    requires StrLt(a, b)
    ensures !StrLt(b, a)
  {
    if StrLt(b, a) {
      StrLtTrans(a, b, a);
      StrLtIrreflexive(a);
    }
  }

  /** "Not after" is transitive. */
  lemma StrLeTrans(a: string, b: string, c: string)
    requires !StrLt(b, a) && !StrLt(c, b)
    ensures !StrLt(c, a)
  {
    if StrLt(c, a) {
      if a != b && b != c {
        StrLtTotal(a, b);
        StrLtTotal(b, c);
        StrLtTrans(a, b, c);
        StrLtAsym(c, a);
      }
    }
  }

  // ---------------------------------------------------------------- network kinds

  /** The `'net'` value as the script spells it. */
  function NetName(n: Net): string
  {
    match n
    case IPv4 => "ipv4"
    case IPv6 => "ipv6"
    case Onion => "onion"
  }

  function NetRank(n: Net): nat
  {
    match n
    case IPv4 => 0
    case IPv6 => 1
    case Onion => 2
  }

  /** `'ipv4' < 'ipv6' < 'onion'`: comparing the names is comparing IPv4, IPv6 and onion
      in that order. */
  lemma NetNameOrder(a: Net, b: Net)
    ensures StrLt(NetName(a), NetName(b)) <==> NetRank(a) < NetRank(b)
  {
    assert StrLt("ipv4", "ipv6") by {
      assert "ipv4"[1..] == "pv4" && "ipv6"[1..] == "pv6";
      assert "pv4"[1..] == "v4" && "pv6"[1..] == "v6";
      assert "v4"[1..] == "4" && "v6"[1..] == "6";
    }
    assert !StrLt("ipv6", "ipv4") by {
      assert "ipv4"[1..] == "pv4" && "ipv6"[1..] == "pv6";
      assert "pv4"[1..] == "v4" && "pv6"[1..] == "v6";
      assert "v4"[1..] == "4" && "v6"[1..] == "6";
    }
    StrLtIrreflexive(NetName(a));
  }

  // ---------------------------------------------------------------- sort keys

  /** `sortkey` order: numbers by value, texts as strings. A number and a text are never
      compared by the script (the kind of network is compared first and fixes the kind
      of key); numbers are put first so that the order is total. */
  predicate KeyLt(a: SortKey, b: SortKey)
  {
    match (a, b)
    case (NumKey(m), NumKey(n)) => m < n
    case (TextKey(s), TextKey(t)) => StrLt(s, t)
    case (NumKey(_), TextKey(_)) => true
    case (TextKey(_), NumKey(_)) => false
  }

  lemma KeyLtTotal(a: SortKey, b: SortKey)
    requires a != b
    ensures KeyLt(a, b) || KeyLt(b, a)
  {
    if a.TextKey? && b.TextKey? { StrLtTotal(a.s, b.s); }
  }

  lemma KeyLeTrans(a: SortKey, b: SortKey, c: SortKey)
    requires !KeyLt(b, a) && !KeyLt(c, b)
    ensures !KeyLt(c, a)
  {
    if a.TextKey? && b.TextKey? && c.TextKey? { StrLeTrans(a.s, b.s, c.s); }
  }

  lemma KeyLtAsym(a: SortKey, b: SortKey)
    requires KeyLt(a, b)
    ensures !KeyLt(b, a)
  {
    if a.TextKey? && b.TextKey? { StrLtAsym(a.s, b.s); }
  }

  // ---------------------------------------------------------------- record orders

  /** Line 156: `(uptime, lastsuccess, ip)` of `x` is less than that of `y`. */
  predicate QualityLt(x: Record, y: Record)
  {
    x.uptime < y.uptime ||
    (x.uptime == y.uptime &&
     (x.lastSuccess < y.lastSuccess || (x.lastSuccess == y.lastSuccess && StrLt(x.ip, y.ip))))
  }

  /** Line 162: `(net, sortkey)` of `x` is less than that of `y`. */
  predicate NetKeyLt(x: Record, y: Record)
  {
    StrLt(NetName(x.net), NetName(y.net)) || (x.net == y.net && KeyLt(x.sortKey, y.sortKey))
  }

  /** The two sorts: line 156 with `reverse=True`, line 162 ascending. */
  datatype Order = ByQualityDesc | ByNetKey

  /** `x` must come before `y` in a list sorted by `o`. */
  predicate Before(o: Order, x: Record, y: Record)
  {
    match o
    case ByQualityDesc => QualityLt(y, x)
    case ByNetKey => NetKeyLt(x, y)
  }

  /** Nothing is out of order: no record must come before one that precedes it. */
  predicate Sorted(o: Order, s: seq<Record>)
  {
    forall i, j :: 0 <= i < j < |s| ==> !Before(o, s[j], s[i])
  }

  /** Every record must come before the next one: the order has no ties. */
  predicate StrictlySorted(o: Order, s: seq<Record>)
  {
    forall i, j :: 0 <= i < j < |s| ==> Before(o, s[i], s[j])
  }

  lemma BeforeAsym(o: Order, x: Record, y: Record)
    requires Before(o, x, y)
    ensures !Before(o, y, x)
  {
    match o
    case ByQualityDesc =>
      if y.uptime == x.uptime && y.lastSuccess == x.lastSuccess { StrLtAsym(y.ip, x.ip); }
    case ByNetKey =>
      NetNameOrder(x.net, y.net);
      NetNameOrder(y.net, x.net);
      if x.net == y.net { KeyLtAsym(x.sortKey, y.sortKey); }
  }

  /** "May come before" is transitive. */
  lemma BeforeNegTrans(o: Order, x: Record, y: Record, z: Record)
    requires !Before(o, y, x) && !Before(o, z, y)
    ensures !Before(o, z, x)
  {
    match o
    case ByQualityDesc =>
      if x.uptime == y.uptime == z.uptime && x.lastSuccess == y.lastSuccess == z.lastSuccess {
        StrLeTrans(z.ip, y.ip, x.ip);
      }
    case ByNetKey =>
      NetNameOrder(x.net, y.net);
      NetNameOrder(y.net, z.net);
      NetNameOrder(x.net, z.net);
      NetNameOrder(y.net, x.net);
      NetNameOrder(z.net, y.net);
      NetNameOrder(z.net, x.net);
      if x.net == y.net == z.net { KeyLeTrans(x.sortKey, y.sortKey, z.sortKey); }
  }

  /** Two records with different sort keys are never tied in the `(net, sortkey)` order. */
  lemma NetKeyTotal(x: Record, y: Record)
    requires x.sortKey != y.sortKey
    ensures Before(ByNetKey, x, y) || Before(ByNetKey, y, x)
  {
    NetNameOrder(x.net, y.net);
    NetNameOrder(y.net, x.net);
    KeyLtTotal(x.sortKey, y.sortKey);
  }

  // ---------------------------------------------------------------- the sort

  /** `x` put into the sorted `s` ahead of the first record it does not have to follow. */
  function Insert(o: Order, x: Record, s: seq<Record>): (r: seq<Record>)
    requires Sorted(o, s)
    ensures Sorted(o, r)
    ensures multiset(r) == multiset(s) + multiset{x}
  {
    if s == [] then [x]
    else if Before(o, s[0], x) then
      var rest := Insert(o, x, s[1..]);
      assert s == [s[0]] + s[1..];
      HeadLeadsInsert(o, s, x, rest);
      ConsSorted(o, s[0], rest);
      [s[0]] + rest
    else
      LeadsSorted(o, x, s);
      ConsSorted(o, x, s);
      [x] + s
  }

  lemma ConsSorted(o: Order, x: Record, s: seq<Record>)
    requires Sorted(o, s)
    requires forall j :: 0 <= j < |s| ==> !Before(o, s[j], x)
    ensures Sorted(o, [x] + s)
  {
    var r := [x] + s;
    forall i, j | 0 <= i < j < |r| ensures !Before(o, r[j], r[i]) {
      assert r[j] == s[j - 1];
      if i > 0 { assert r[i] == s[i - 1]; }
    }
  }

  /** A record that may lead a sorted list may lead each of its records. */
  lemma LeadsSorted(o: Order, x: Record, s: seq<Record>)
    requires Sorted(o, s) && s != [] && !Before(o, s[0], x)
    ensures forall j :: 0 <= j < |s| ==> !Before(o, s[j], x)
  {
    forall j | 0 < j < |s| ensures !Before(o, s[j], x) {
      BeforeNegTrans(o, x, s[0], s[j]);
    }
  }

  /** The head of `s`, which `x` must follow, may lead `x` inserted into the rest of `s`. */
  lemma HeadLeadsInsert(o: Order, s: seq<Record>, x: Record, rest: seq<Record>)
    requires Sorted(o, s) && s != [] && Before(o, s[0], x)
    requires multiset(rest) == multiset(s[1..]) + multiset{x}
    ensures forall j :: 0 <= j < |rest| ==> !Before(o, rest[j], s[0])
  {
    forall j | 0 <= j < |rest| ensures !Before(o, rest[j], s[0]) {
      assert rest[j] in multiset(rest);
      if rest[j] == x {
        BeforeAsym(o, s[0], x);
      } else {
        assert rest[j] in multiset(s[1..]);
        var k :| 0 <= k < |s[1..]| && s[1..][k] == rest[j];
        assert s[k + 1] == rest[j];
      }
    }
  }

  /** `s.sort(key=...)`: the records of `s`, ordered by `o`. */
  function Sort(o: Order, s: seq<Record>): (r: seq<Record>)
    ensures Sorted(o, r)
    ensures multiset(r) == multiset(s)
  {
    if s == [] then []
    else
      assert s == [s[0]] + s[1..];
      Insert(o, s[0], Sort(o, s[1..]))
  }

  /** Removing records keeps a list sorted. */
  lemma {:induction false} SortedSubseq(o: Order, a: seq<Record>, b: seq<Record>)
    requires IsSubseq(a, b) && Sorted(o, b)
    ensures Sorted(o, a)
    decreases |b|
  {
    if a != [] {
      if a[0] == b[0] {
        SortedSubseq(o, a[1..], b[1..]);
        SubseqMembers(a[1..], b[1..]);
        forall i, j | 0 <= i < j < |a| ensures !Before(o, a[j], a[i]) {
          assert a[j] == a[1..][j - 1] && a[j] in a[1..];
          var k :| 0 <= k < |b[1..]| && b[1..][k] == a[j];
          assert b[k + 1] == a[j];
          if i > 0 { assert a[i] == a[1..][i - 1]; }
        }
      } else {
        SortedSubseq(o, a, b[1..]);
      }
    }
  }

  /** Sorted by `(net, sortkey)` with no two sort keys alike, the order is strict. */
  lemma SortedUniqueIsStrict(s: seq<Record>)
    requires Sorted(ByNetKey, s) && UniqueKeys(s)
    ensures StrictlySorted(ByNetKey, s)
  {
    forall i, j | 0 <= i < j < |s| ensures Before(ByNetKey, s[i], s[j]) {
      NetKeyTotal(s[i], s[j]);
    }
  }

  /** A strictly sorted list is fixed by its elements: two strictly sorted lists of the
      same records are the same list. So the output of the final sort does not depend on
      how the sort is carried out. */
  lemma {:induction false} StrictlySortedUnique(o: Order, a: seq<Record>, b: seq<Record>)
    requires StrictlySorted(o, a) && StrictlySorted(o, b) && multiset(a) == multiset(b)
    ensures a == b
    decreases |a|
  {
    if a == [] {
      assert |b| == |multiset(b)| == 0;
    } else {
      StrictlySortedHeads(o, a, b);
      StrictlySortedTail(o, a);
      StrictlySortedTail(o, b);
      StrictlySortedUnique(o, a[1..], b[1..]);
    }
  }

  /** The rest of a strictly sorted list is strictly sorted, and holds the other records. */
  lemma StrictlySortedTail(o: Order, a: seq<Record>)
    requires StrictlySorted(o, a) && a != []
    ensures StrictlySorted(o, a[1..]) && a == [a[0]] + a[1..]
    ensures multiset(a[1..]) == multiset(a) - multiset{a[0]}
  {
    assert a == [a[0]] + a[1..];
    forall i, j | 0 <= i < j < |a| - 1 ensures Before(o, a[1..][i], a[1..][j]) {
      assert a[1..][i] == a[i + 1] && a[1..][j] == a[j + 1];
    }
  }

  /** Both lists start with the record that must come before all the others. */
  lemma StrictlySortedHeads(o: Order, a: seq<Record>, b: seq<Record>)
    requires StrictlySorted(o, a) && StrictlySorted(o, b) && multiset(a) == multiset(b)
    requires a != []
    ensures b != [] && a[0] == b[0]
  {
    assert a[0] in multiset(b);
    if a[0] != b[0] {
      var j :| 0 <= j < |b| && b[j] == a[0];
      assert b[0] in multiset(a);
      var i :| 0 <= i < |a| && a[i] == b[0];
      BeforeAsym(o, a[0], a[i]);
      assert false;
    }
  }
}
