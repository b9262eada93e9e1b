/** `filtermultiport`: group the records by sort key in a dictionary that remembers the
    order in which keys first appeared, then keep the groups of one record. A host that
    reports several ports has one sort key for all of them and disappears entirely. */
module Multiport {
  import opened Records
  import opened Ordering

  /** `r` is the only record of `s` with its sort key. */
  function OnceIn(s: seq<Record>): Record -> bool { (r: Record) => KeyCount(s, r.sortKey) == 1 }

  function NotKey(k: SortKey): Record -> bool { (r: Record) => r.sortKey != k }

  /** What `filtermultiport` returns: the records whose sort key occurs once, in their
      input order. */
  function Singles(s: seq<Record>): seq<Record>
  {
    Filter(s, OnceIn(s))
  }

  /** Line 106: the first record of every group of one, groups in the order of `keys`
      (the dictionary's insertion order). */
  function Collect(keys: seq<SortKey>, hist: map<SortKey, seq<Record>>): seq<Record>
  {
    if keys == [] then []
    else
      var k := keys[|keys| - 1];
      Collect(keys[..|keys| - 1], hist) + LastSingle(k, hist)
  }

  /** What `Collect` adds for the last listed key. */
  function LastSingle(last: SortKey, hist: map<SortKey, seq<Record>>): seq<Record>
  {
    if last in hist && |hist[last]| == 1 then [hist[last][0]] else []
  }

  /** `keys` lists the dictionary's keys once each, and each key's list holds exactly the
      records of `p` with that key. */
  ghost predicate HistOf(p: seq<Record>, keys: seq<SortKey>, hist: map<SortKey, seq<Record>>)
  {
    (forall a, b :: 0 <= a < b < |keys| ==> keys[a] != keys[b]) &&
    (forall k :: k in hist <==> k in keys) &&
    (forall k :: k in hist <==> KeyCount(p, k) > 0) &&
    (forall k :: k in hist ==> |hist[k]| == KeyCount(p, k)) &&
    (forall k, j :: k in hist && 0 <= j < |hist[k]| ==> hist[k][j].sortKey == k)
  }

  /** Lines 101-106. `hist` is the `defaultdict`, `keys` the order of its keys. */
  method FilterMultiport(zmg: seq<Record>) returns (r: seq<Record>)
    ensures r == Singles(zmg)
  {
    var hist: map<SortKey, seq<Record>> := map[];
    var keys: seq<SortKey> := [];
    for i := 0 to |zmg|
      invariant HistOf(zmg[..i], keys, hist)
      invariant Collect(keys, hist) == Singles(zmg[..i])
    {
      var ip := zmg[i];
      var k := ip.sortKey;
      PrefixSnoc(zmg, i);
      if k !in hist {
        StepNew(zmg[..i], keys, hist, ip);
        keys := keys + [k];
        hist := hist[k := [ip]];
      } else {
        StepOld(zmg[..i], keys, hist, ip);
        hist := hist[k := hist[k] + [ip]];
      }
    }
    assert zmg[..|zmg|] == zmg;
    r := Collect(keys, hist);
  }

  // ---------------------------------------------------------------- one step of the loop

  /** The first record with its key: the key is appended, with a list of one. */
  lemma StepNew(p: seq<Record>, keys: seq<SortKey>, hist: map<SortKey, seq<Record>>, x: Record)
    requires HistOf(p, keys, hist) && Collect(keys, hist) == Singles(p)
    requires x.sortKey !in hist
    ensures HistOf(p + [x], keys + [x.sortKey], hist[x.sortKey := [x]])
    ensures Collect(keys + [x.sortKey], hist[x.sortKey := [x]]) == Singles(p + [x])
  {
    HistNew(p, keys, hist, x);
    SinglesNew(p, x);
    CollectNew(keys, hist, x);
  }

  lemma HistNew(p: seq<Record>, keys: seq<SortKey>, hist: map<SortKey, seq<Record>>, x: Record)
    requires HistOf(p, keys, hist)
    requires x.sortKey !in hist
    ensures HistOf(p + [x], keys + [x.sortKey], hist[x.sortKey := [x]])
  {
    var k := x.sortKey;
    var keys': seq<SortKey>, hist': map<SortKey, seq<Record>> := keys + [k], hist[k := [x]];
    KeyCountSnoc(p, x);
    forall a, b | 0 <= a < b < |keys'| ensures keys'[a] != keys'[b] {
      if b < |keys| { assert keys'[a] == keys[a] && keys'[b] == keys[b]; }
      else { assert keys'[a] == keys[a] && keys[a] in keys; }
    }
    forall k' ensures k' in hist' <==> k' in keys' {
      assert k' in keys' <==> k' in keys || k' == k;
    }
    forall k' ensures k' in hist' <==> KeyCount(p + [x], k') > 0 {
    }
    forall k' | k' in hist' ensures |hist'[k']| == KeyCount(p + [x], k') {
    }
  }

  /** A later record with the same key: it is appended to that key's list. */
  lemma StepOld(p: seq<Record>, keys: seq<SortKey>, hist: map<SortKey, seq<Record>>, x: Record)
    requires HistOf(p, keys, hist) && Collect(keys, hist) == Singles(p)
    requires x.sortKey in hist
    ensures HistOf(p + [x], keys, hist[x.sortKey := hist[x.sortKey] + [x]])
    ensures Collect(keys, hist[x.sortKey := hist[x.sortKey] + [x]]) == Singles(p + [x])
  {
    var k := x.sortKey;
    HistOld(p, keys, hist, x);
    SinglesOld(p, x);
    CollectOld(keys, hist, k, hist[k] + [x]);
  }

  lemma HistOld(p: seq<Record>, keys: seq<SortKey>, hist: map<SortKey, seq<Record>>, x: Record)
    requires HistOf(p, keys, hist)
    requires x.sortKey in hist
    ensures HistOf(p + [x], keys, hist[x.sortKey := hist[x.sortKey] + [x]])
  {
    var k := x.sortKey;
    var hist': map<SortKey, seq<Record>> := hist[k := hist[k] + [x]];
    KeyCountSnoc(p, x);
    forall k' ensures k' in hist' <==> KeyCount(p + [x], k') > 0 {
    }
    forall k' | k' in hist' ensures |hist'[k']| == KeyCount(p + [x], k') {
    }
    forall k': SortKey, j: int | k' in hist' && 0 <= j < |hist'[k']| ensures hist'[k'][j].sortKey == k' {
      if k' == k && j < |hist[k]| { assert hist'[k'][j] == hist[k][j]; }
    }
  }

  /** A record with a new key is a group of one so far. */
  lemma SinglesNew(p: seq<Record>, x: Record)
    requires KeyCount(p, x.sortKey) == 0
    ensures Singles(p + [x]) == Singles(p) + [x]
  {
    KeyCountSnoc(p, x);
    FilterConcat(p, [x], OnceIn(p + [x]));
    forall i | 0 <= i < |p| ensures OnceIn(p + [x])(p[i]) == OnceIn(p)(p[i]) {
      assert p[i].sortKey != x.sortKey;
    }
    FilterSameOn(p, OnceIn(p + [x]), OnceIn(p));
  }

  /** A record with a key seen before ends that key's group of one, if it was one. */
  lemma SinglesOld(p: seq<Record>, x: Record)
    requires KeyCount(p, x.sortKey) > 0
    ensures Singles(p + [x]) == Filter(Singles(p), NotKey(x.sortKey))
  {
    var k := x.sortKey;
    KeyCountSnoc(p, x);
    FilterConcat(p, [x], OnceIn(p + [x]));
    assert Filter([x], OnceIn(p + [x])) == [];
    var both: Record -> bool := r => OnceIn(p)(r) && NotKey(k)(r);
    forall i | 0 <= i < |p| ensures OnceIn(p + [x])(p[i]) == both(p[i]) {
      OnceInOld(p, x, p[i]);
    }
    FilterSameOn(p, OnceIn(p + [x]), both);
    FilterTwice(p, OnceIn(p), NotKey(k), both);
  }

  /** After a record with a key seen before, a key occurs once when it did before and is
      not that record's. */
  lemma OnceInOld(p: seq<Record>, x: Record, r: Record)
    requires KeyCount(p, x.sortKey) > 0
    ensures OnceIn(p + [x])(r) == (OnceIn(p)(r) && NotKey(x.sortKey)(r))
  {
    KeyCountConcat(p, [x], r.sortKey);
  }

  /** A new key appended to the dictionary with a list of one. */
  lemma CollectNew(keys: seq<SortKey>, hist: map<SortKey, seq<Record>>, x: Record)
    requires x.sortKey !in keys
    ensures Collect(keys + [x.sortKey], hist[x.sortKey := [x]]) == Collect(keys, hist) + [x]
  {
    var ks := keys + [x.sortKey];
    assert ks[..|ks| - 1] == keys;
    CollectFrame(keys, hist, x.sortKey, [x]);
  }

  /** Changing the list of a key that is not listed changes nothing. */
  lemma {:induction false} CollectFrame(keys: seq<SortKey>, hist: map<SortKey, seq<Record>>, k: SortKey, v: seq<Record>)
    requires k !in keys
    ensures Collect(keys, hist[k := v]) == Collect(keys, hist)
  {
    if keys != [] {
      CollectFrame(keys[..|keys| - 1], hist, k, v);
    }
  }

  /** The records `Collect` returns carry the listed keys. */
  lemma {:induction false} CollectKeys(keys: seq<SortKey>, hist: map<SortKey, seq<Record>>)
    requires forall k, j :: k in hist && 0 <= j < |hist[k]| ==> hist[k][j].sortKey == k
    ensures forall r :: r in Collect(keys, hist) ==> r.sortKey in keys
  {
    if keys != [] {
      var init := keys[..|keys| - 1];
      CollectKeys(init, hist);
      assert forall k :: k in init ==> k in keys;
    }
  }

  /** Growing the list of a listed key to two or more records drops that key's record. */
  lemma {:induction false} CollectOld(keys: seq<SortKey>, hist: map<SortKey, seq<Record>>, k: SortKey, v: seq<Record>)
    requires forall a, b :: 0 <= a < b < |keys| ==> keys[a] != keys[b]
    requires forall k', j :: k' in hist && 0 <= j < |hist[k']| ==> hist[k'][j].sortKey == k'
    requires k in keys && |v| >= 2
    ensures Collect(keys, hist[k := v]) == Filter(Collect(keys, hist), NotKey(k))
  {
    var init := keys[..|keys| - 1];
    var last := keys[|keys| - 1];
    CollectOldTail(keys, hist, k, v);
    FilterConcat(Collect(init, hist), LastSingle(last, hist), NotKey(k));
    if last == k {
      CollectOldLast(keys, hist, k, v);
    } else {
      InitKeys(keys, k);
      CollectOld(init, hist, k, v);
    }
  }

  /** A listed key other than the last is listed before it, and the earlier keys are
      still listed once each. */
  lemma InitKeys(keys: seq<SortKey>, k: SortKey)
    requires forall a, b :: 0 <= a < b < |keys| ==> keys[a] != keys[b]
    requires k in keys && keys[|keys| - 1] != k
    ensures var init := keys[..|keys| - 1];
      k in init && forall a, b :: 0 <= a < b < |init| ==> init[a] != init[b]
  {
    var init := keys[..|keys| - 1];
    var a :| 0 <= a < |keys| && keys[a] == k;
    assert init[a] == k;
    assert forall a, b :: 0 <= a < b < |init| ==> init[a] == keys[a] && init[b] == keys[b];
  }

  /** The last step of `Collect` before and after the list of `k` grows to two or more. */
  lemma CollectOldTail(keys: seq<SortKey>, hist: map<SortKey, seq<Record>>, k: SortKey, v: seq<Record>)
    requires forall k', j :: k' in hist && 0 <= j < |hist[k']| ==> hist[k'][j].sortKey == k'
    requires keys != [] && |v| >= 2
    ensures var last := keys[|keys| - 1];
      Collect(keys, hist) == Collect(keys[..|keys| - 1], hist) + LastSingle(last, hist) &&
      Collect(keys, hist[k := v]) ==
        Collect(keys[..|keys| - 1], hist[k := v]) + (if last == k then [] else LastSingle(last, hist)) &&
      Filter(LastSingle(last, hist), NotKey(k)) == (if last == k then [] else LastSingle(last, hist))
  {
    var last := keys[|keys| - 1];
    if last in hist && |hist[last]| == 1 {
      assert hist[last][0].sortKey == last;
    }
  }

  /** The case of `CollectOld` where the key is the last one listed. */
  lemma CollectOldLast(keys: seq<SortKey>, hist: map<SortKey, seq<Record>>, k: SortKey, v: seq<Record>)
    requires forall a, b :: 0 <= a < b < |keys| ==> keys[a] != keys[b]
    requires forall k', j :: k' in hist && 0 <= j < |hist[k']| ==> hist[k'][j].sortKey == k'
    requires keys != [] && keys[|keys| - 1] == k && |v| >= 2
    ensures Collect(keys[..|keys| - 1], hist[k := v]) == Filter(Collect(keys[..|keys| - 1], hist), NotKey(k))
  {
    var init := keys[..|keys| - 1];
    assert k !in init by {
      forall a | 0 <= a < |init| ensures init[a] != k { assert init[a] == keys[a]; }
    }
    CollectFrame(init, hist, k, v);
    CollectKeys(init, hist);
    FilterKeepsAll(Collect(init, hist), NotKey(k));
  }

  // ---------------------------------------------------------------- what filtermultiport promises

  /** A record survives exactly when no other record of the input has its sort key. */
  lemma SinglesMembers(s: seq<Record>, x: Record)
    ensures x in Singles(s) <==> x in s && KeyCount(s, x.sortKey) == 1
  {
  }

  /** No two records of the result share a sort key. */
  lemma SinglesUnique(s: seq<Record>)
    ensures UniqueKeys(Singles(s))
  {
    var r := Singles(s);
    forall k ensures KeyCount(r, k) <= 1 {
      FilterKeyCount(s, OnceIn(s), k);
      if KeyCount(r, k) > 0 {
        var i :| 0 <= i < |r| && r[i].sortKey == k;
        assert r[i] in r;
      }
    }
    UniqueKeysCount(r);
  }

  /** The result keeps the input order, so a sorted input stays sorted. */
  lemma SinglesSorted(o: Order, s: seq<Record>)
    requires Sorted(o, s)
    ensures IsSubseq(Singles(s), s) && Sorted(o, Singles(s))
  {
    FilterIsSubseq(s, OnceIn(s));
    SortedSubseq(o, Singles(s), s);
  }

  /** Which records survive depends only on which records there are, not on their order. */
  lemma SinglesPerm(a: seq<Record>, b: seq<Record>)
    requires multiset(a) == multiset(b)
    ensures multiset(Singles(a)) == multiset(Singles(b))
  {
    forall k ensures KeyCount(a, k) == KeyCount(b, k) { KeyCountPerm(a, b, k); }
    FilterPerm(a, b, OnceIn(a), OnceIn(b));
  }
}
