/** The record `parseline` builds for an accepted report line, the script's constants, and
    the list operations the pipeline is made of: list comprehensions that filter, order-
    preserving subsequences, and counting records by `sortkey`. */
module Records {
  import opened Text

  /** The `'net'` field: `'ipv4'`, `'ipv6'` or `'onion'`. */
  datatype Net = IPv4 | IPv6 | Onion

  /** The `'sortkey'` field: the 32-bit number of an IPv4 address, the host text of an
      IPv6 or onion address. */
  datatype SortKey = NumKey(n: nat) | TextKey(s: string)

  /** The dictionary `parseline` returns. `ipnum` is `None` for IPv6 and onion hosts. */
  datatype Record = Record(
    net: Net,
    ip: string,
    port: nat,
    ipnum: Option<nat>,
    uptime: real,
    lastSuccess: int,
    version: int,
    agent: string,
    service: int,
    blocks: int,
    sortKey: SortKey)

  /** `NSEEDS`, `MAX_SEEDS_PER_ASN`, `MIN_BLOCKS` and `SUSPICIOUS_HOSTS`. */
  datatype Config = Config(nSeeds: int, maxPerAsn: int, minBlocks: int, suspicious: set<string>)

  /** The values the script is shipped with. */
  const Defaults: Config := Config(512, 2, 615801, {""})

  // ---------------------------------------------------------------- comprehensions

  /** `[x for x in s if p(x)]`. */
  function Filter(s: seq<Record>, p: Record -> bool): (r: seq<Record>)
    ensures |r| <= |s|
    ensures forall x :: x in r <==> x in s && p(x)
  {
    if s == [] then [] else (if p(s[0]) then [s[0]] else []) + Filter(s[1..], p)
  }

  /** `a` is `b` with some elements removed and the others kept in order. */
  predicate IsSubseq(a: seq<Record>, b: seq<Record>)
    decreases |b|
  {
    if a == [] then true
    else if b == [] then false
    else if a[0] == b[0] then IsSubseq(a[1..], b[1..])
    else IsSubseq(a, b[1..])
  }

  lemma {:induction false} SubseqRefl(a: seq<Record>)
    ensures IsSubseq(a, a)
  {
    if a != [] { SubseqRefl(a[1..]); }
  }

  /** A subsequence of `b` is one of `[x] + b` too. */
  lemma {:induction false} SubseqCons(a: seq<Record>, x: Record, b: seq<Record>)
    requires IsSubseq(a, b)
    ensures IsSubseq(a, [x] + b)
    decreases |b|, 1
  {
    assert ([x] + b)[1..] == b;
    if a != [] && a[0] == x {
      SubseqDropFirst(a, b);
    }
  }

  /** Dropping the first element keeps a subsequence. */
  lemma {:induction false} SubseqDropFirst(a: seq<Record>, b: seq<Record>)
    requires a != [] && IsSubseq(a, b)
    ensures IsSubseq(a[1..], b)
    decreases |b|, 0
  {
    assert [b[0]] + b[1..] == b;
    if a[0] == b[0] {
      if a[1..] != [] { SubseqCons(a[1..], b[0], b[1..]); }
    } else {
      SubseqDropFirst(a, b[1..]);
      if a[1..] != [] { SubseqCons(a[1..], b[0], b[1..]); }
    }
  }

  /** Every element of a subsequence is an element of the sequence. */
  lemma {:induction false} SubseqMembers(a: seq<Record>, b: seq<Record>)
    requires IsSubseq(a, b)
    ensures forall x :: x in a ==> x in b
    decreases |b|
  {
    if a != [] {
      assert b == [b[0]] + b[1..];
      if a[0] == b[0] { SubseqMembers(a[1..], b[1..]); assert a == [a[0]] + a[1..]; }
      else { SubseqMembers(a, b[1..]); }
    }
  }

  /** Removing elements twice is removing elements once. */
  lemma {:induction false} SubseqTrans(a: seq<Record>, b: seq<Record>, c: seq<Record>)
    requires IsSubseq(a, b) && IsSubseq(b, c)
    ensures IsSubseq(a, c)
    decreases |c|
  {
    if a != [] {
      assert b != [] && c != [];
      if b[0] == c[0] {
        if a[0] == b[0] {
          SubseqTrans(a[1..], b[1..], c[1..]);
        } else {
          SubseqTrans(a, b[1..], c[1..]);
        }
      } else {
        SubseqTrans(a, b, c[1..]);
        if a[0] == c[0] {
          SubseqDropFirst(a, c[1..]);
        }
      }
    }
  }

  /** A subsequence of `b` is one of `b + [x]` too. */
  lemma {:induction false} SubseqSnocRight(a: seq<Record>, b: seq<Record>, x: Record)
    requires IsSubseq(a, b)
    ensures IsSubseq(a, b + [x])
  {
    if a != [] {
      assert (b + [x])[0] == b[0] && (b + [x])[1..] == b[1..] + [x];
      if a[0] == b[0] { SubseqSnocRight(a[1..], b[1..], x); }
      else { SubseqSnocRight(a, b[1..], x); }
    }
  }

  /** Appending the same element to both keeps a subsequence. */
  lemma {:induction false} SubseqSnoc(a: seq<Record>, b: seq<Record>, x: Record)
    requires IsSubseq(a, b)
    ensures IsSubseq(a + [x], b + [x])
    decreases |b|
  {
    if a == [] {
      assert [] + [x] == [x];
      SubseqRefl([x]);
      assert IsSubseq([x], [x]);
      SubseqAppendLeft(b, [x]);
    } else {
      assert (a + [x])[0] == a[0] && (a + [x])[1..] == a[1..] + [x];
      assert (b + [x])[0] == b[0] && (b + [x])[1..] == b[1..] + [x];
      if a[0] == b[0] { SubseqSnoc(a[1..], b[1..], x); }
      else { SubseqSnoc(a, b[1..], x); }
    }
  }

  /** `c` is a subsequence of `b + c`. */
  lemma {:induction false} SubseqAppendLeft(b: seq<Record>, c: seq<Record>)
    ensures IsSubseq(c, b + c)
  {
    if b == [] {
      assert b + c == c;
      SubseqRefl(c);
    } else {
      SubseqAppendLeft(b[1..], c);
      assert b + c == [b[0]] + (b[1..] + c);
      SubseqCons(c, b[0], b[1..] + c);
    }
  }

  /** A comprehension keeps the surviving elements in their order. */
  lemma {:induction false} FilterIsSubseq(s: seq<Record>, p: Record -> bool)
    ensures IsSubseq(Filter(s, p), s)
  {
    if s != [] {
      FilterIsSubseq(s[1..], p);
      var r := Filter(s[1..], p);
      if p(s[0]) {
        assert Filter(s, p) == [s[0]] + r;
        assert (Filter(s, p))[1..] == r;
      } else {
        assert Filter(s, p) == r;
        SubseqCons(r, s[0], s[1..]);
        assert [s[0]] + s[1..] == s;
      }
    }
  }

  lemma {:induction false} FilterConcat(a: seq<Record>, b: seq<Record>, p: Record -> bool)
    ensures Filter(a + b, p) == Filter(a, p) + Filter(b, p)
  {
    if a == [] {
      assert a + b == b;
    } else {
      assert (a + b)[0] == a[0];
      assert (a + b)[1..] == a[1..] + b;
      FilterConcat(a[1..], b, p);
    }
  }

  /** Two comprehensions in a row are one whose condition is the conjunction. */
  lemma {:induction false} FilterTwice(s: seq<Record>, p: Record -> bool, q: Record -> bool, both: Record -> bool)
    requires forall x :: both(x) == (p(x) && q(x))
    ensures Filter(Filter(s, p), q) == Filter(s, both)
  {
    if s != [] {
      FilterTwice(s[1..], p, q, both);
      var r := Filter(s[1..], p);
      if p(s[0]) {
        assert Filter(s, p) == [s[0]] + r;
        assert ([s[0]] + r)[1..] == r;
      } else {
        assert Filter(s, p) == r;
      }
    }
  }

  /** A comprehension whose condition holds everywhere changes nothing. */
  lemma {:induction false} FilterKeepsAll(s: seq<Record>, p: Record -> bool)
    requires forall i :: 0 <= i < |s| ==> p(s[i])
    ensures Filter(s, p) == s
  {
    if s != [] {
      FilterKeepsAll(s[1..], p);
      assert [s[0]] + s[1..] == s;
    }
  }

  /** A comprehension whose condition no element meets is empty. */
  lemma {:induction false} FilterNone(s: seq<Record>, p: Record -> bool)
    requires forall i :: 0 <= i < |s| ==> !p(s[i])
    ensures Filter(s, p) == []
  {
    if s != [] {
      assert forall i :: 0 <= i < |s| - 1 ==> s[1..][i] == s[i + 1];
      FilterNone(s[1..], p);
    }
  }

  /** A comprehension only looks at the elements it is given. */
  lemma {:induction false} FilterSameOn(s: seq<Record>, p: Record -> bool, q: Record -> bool)
    requires forall i :: 0 <= i < |s| ==> p(s[i]) == q(s[i])
    ensures Filter(s, p) == Filter(s, q)
  {
    if s != [] {
      assert forall i :: 0 <= i < |s| - 1 ==> s[1..][i] == s[i + 1];
      FilterSameOn(s[1..], p, q);
    }
  }

  /** A comprehension keeps every copy of an element that meets the condition. */
  lemma {:induction false} FilterMultiplicity(s: seq<Record>, p: Record -> bool, x: Record)
    ensures multiset(Filter(s, p))[x] == if p(x) then multiset(s)[x] else 0
  {
    if s != [] {
      FilterMultiplicity(s[1..], p, x);
      assert s == [s[0]] + s[1..];
      assert multiset(s) == multiset{s[0]} + multiset(s[1..]);
    }
  }

  /** The same comprehension over the same elements keeps the same elements. */
  lemma FilterPerm(a: seq<Record>, b: seq<Record>, p: Record -> bool, q: Record -> bool)
    requires multiset(a) == multiset(b)
    requires forall x :: p(x) == q(x)
    ensures multiset(Filter(a, p)) == multiset(Filter(b, q))
  {
    forall x ensures multiset(Filter(a, p))[x] == multiset(Filter(b, q))[x] {
      FilterMultiplicity(a, p, x);
      FilterMultiplicity(b, q, x);
    }
  }

  // ---------------------------------------------------------------- sort keys

  /** How many records of `s` have sort key `k`. */
  function KeyCount(s: seq<Record>, k: SortKey): (n: nat)
    ensures n <= |s|
    ensures n > 0 <==> exists i :: 0 <= i < |s| && s[i].sortKey == k
  {
    if s == [] then 0
    else
      var rest := KeyCount(s[1..], k);
      assert forall i :: 0 < i < |s| ==> s[i] == s[1..][i - 1];
      (if s[0].sortKey == k then 1 else 0) + rest
  }

  /** No two records share a sort key. */
  predicate UniqueKeys(s: seq<Record>)
  {
    forall i, j :: 0 <= i < j < |s| ==> s[i].sortKey != s[j].sortKey
  }

  /** A record with key `k` at two places makes the count of `k` at least two. */
  lemma {:induction false} KeyCountTwice(s: seq<Record>, i: nat, j: nat)
    requires i < j < |s| && s[i].sortKey == s[j].sortKey
    ensures KeyCount(s, s[i].sortKey) >= 2
  {
    var t := s[1..];
    assert t[j - 1] == s[j];
    if i > 0 {
      assert t[i - 1] == s[i];
      KeyCountTwice(t, i - 1, j - 1);
    }
  }

  lemma {:induction false} UniqueKeysBound(s: seq<Record>, k: SortKey)
    requires UniqueKeys(s)
    ensures KeyCount(s, k) <= 1
  {
    if s != [] {
      var t := s[1..];
      assert UniqueKeys(t) by {
        forall i, j | 0 <= i < j < |t| ensures t[i].sortKey != t[j].sortKey {
          assert t[i] == s[i + 1] && t[j] == s[j + 1];
        }
      }
      UniqueKeysBound(t, k);
      if s[0].sortKey == k {
        forall i | 0 <= i < |t| ensures t[i].sortKey != k { assert t[i] == s[i + 1]; }
      }
    }
  }

  /** "No two share a key" is "every key occurs at most once". */
  lemma UniqueKeysCount(s: seq<Record>)
    ensures UniqueKeys(s) <==> forall k :: KeyCount(s, k) <= 1
  {
    if UniqueKeys(s) {
      forall k ensures KeyCount(s, k) <= 1 { UniqueKeysBound(s, k); }
    } else {
      var i, j :| 0 <= i < j < |s| && s[i].sortKey == s[j].sortKey;
      KeyCountTwice(s, i, j);
    }
  }

  /** The count of a key does not depend on the order of the records. */
  lemma {:induction false} KeyCountPerm(a: seq<Record>, b: seq<Record>, k: SortKey)
    requires multiset(a) == multiset(b)
    ensures KeyCount(a, k) == KeyCount(b, k)
    decreases |a|
  {
    if a == [] {
      assert b == [] by { assert |b| == |multiset(b)|; }
    } else {
      var x := a[0];
      assert x in multiset(b);
      var j :| 0 <= j < |b| && b[j] == x;
      var b' := b[..j] + b[j + 1..];
      PermRemoveHead(a, b, j);
      KeyCountPerm(a[1..], b', k);
      KeyCountRemove(b, j, k);
    }
  }

  /** Taking the first record off `a` and an equal one off `b` keeps them permutations. */
  lemma PermRemoveHead(a: seq<Record>, b: seq<Record>, j: nat)
    requires multiset(a) == multiset(b) && a != [] && j < |b| && b[j] == a[0]
    ensures multiset(a[1..]) == multiset(b[..j] + b[j + 1..])
  {
    MultisetRemove(a, 0);
    MultisetRemove(b, j);
    assert a[..0] + a[1..] == a[1..];
  }

  /** Taking the record at `j` off lowers the count of its key by one. */
  lemma KeyCountRemove(b: seq<Record>, j: nat, k: SortKey)
    requires j < |b|
    ensures KeyCount(b, k) == KeyCount(b[..j] + b[j + 1..], k) + (if b[j].sortKey == k then 1 else 0)
  {
    assert b == b[..j] + [b[j]] + b[j + 1..];
    KeyCountSplit(b[..j], b[j], b[j + 1..], k);
  }

  /** One more element of a prefix. */
  lemma PrefixSnoc(s: seq<Record>, i: nat)
    requires i < |s|
    ensures s[..i + 1] == s[..i] + [s[i]]
  {
  }

  /** Removing the element at `j` removes one occurrence of it. */
  lemma MultisetRemove(s: seq<Record>, j: nat)
    requires j < |s|
    ensures s == s[..j] + [s[j]] + s[j + 1..]
    ensures multiset(s[..j] + s[j + 1..]) == multiset(s) - multiset{s[j]}
  {
    assert s == s[..j] + [s[j]] + s[j + 1..];
  }

  lemma {:induction false} KeyCountConcat(a: seq<Record>, b: seq<Record>, k: SortKey)
    ensures KeyCount(a + b, k) == KeyCount(a, k) + KeyCount(b, k)
  {
    if a == [] {
      assert a + b == b;
    } else {
      assert (a + b)[1..] == a[1..] + b;
      KeyCountConcat(a[1..], b, k);
    }
  }

  /** Appending a record adds one to the count of its key and changes no other. */
  lemma KeyCountSnoc(s: seq<Record>, x: Record)
    ensures forall k :: KeyCount(s + [x], k) == KeyCount(s, k) + (if x.sortKey == k then 1 else 0)
  {
    forall k ensures KeyCount(s + [x], k) == KeyCount(s, k) + (if x.sortKey == k then 1 else 0) {
      KeyCountConcat(s, [x], k);
    }
  }

  lemma KeyCountSplit(a: seq<Record>, x: Record, b: seq<Record>, k: SortKey)
    ensures KeyCount(a + [x] + b, k) == KeyCount(a + b, k) + (if x.sortKey == k then 1 else 0)
  {
    KeyCountConcat(a + [x], b, k);
    KeyCountConcat(a, [x], k);
    KeyCountConcat(a, b, k);
  }

  /** A comprehension never adds occurrences of a key. */
  lemma {:induction false} FilterKeyCount(s: seq<Record>, p: Record -> bool, k: SortKey)
    ensures KeyCount(Filter(s, p), k) <= KeyCount(s, k)
  {
    if s != [] {
      FilterKeyCount(s[1..], p, k);
      KeyCountConcat(if p(s[0]) then [s[0]] else [], Filter(s[1..], p), k);
    }
  }

  /** Removing records never adds occurrences of a key. */
  lemma {:induction false} SubseqKeyCount(a: seq<Record>, b: seq<Record>, k: SortKey)
    requires IsSubseq(a, b)
    ensures KeyCount(a, k) <= KeyCount(b, k)
    decreases |b|
  {
    if a != [] {
      if a[0] == b[0] { SubseqKeyCount(a[1..], b[1..], k); }
      else { SubseqKeyCount(a, b[1..], k); }
    }
  }

  /** `net == n`, as a condition for a comprehension. */
  function IsNet(n: Net): Record -> bool { (r: Record) => r.net == n }

  /** The records of each kind of network together hold every key as often as `s` does. */
  lemma {:induction false} KeyCountByNet(s: seq<Record>, k: SortKey)
    ensures KeyCount(s, k) ==
      KeyCount(Filter(s, IsNet(IPv4)), k) + KeyCount(Filter(s, IsNet(IPv6)), k) + KeyCount(Filter(s, IsNet(Onion)), k)
  {
    if s != [] {
      KeyCountByNet(s[1..], k);
      FilterHeadCount(s, IsNet(IPv4), k);
      FilterHeadCount(s, IsNet(IPv6), k);
      FilterHeadCount(s, IsNet(Onion), k);
    }
  }

  lemma FilterHeadCount(s: seq<Record>, p: Record -> bool, k: SortKey)
    requires s != []
    ensures KeyCount(Filter(s, p), k) ==
      (if p(s[0]) && s[0].sortKey == k then 1 else 0) + KeyCount(Filter(s[1..], p), k)
  {
    KeyCountConcat(if p(s[0]) then [s[0]] else [], Filter(s[1..], p), k);
  }
}
