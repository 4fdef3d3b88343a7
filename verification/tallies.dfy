/** Python's `collections.Counter` as the metrics endpoints use it: counting
    keys in first-seen order, and `most_common(n)`.

    A counter is a list of (key, count) entries in insertion order, which is
    the order a Python dict iterates in. */
module Tallies {

  type Tally<K> = seq<(K, nat)>

  /** No key has two entries. */
  ghost predicate DistinctKeys<K>(c: Tally<K>) {
    forall i, j :: 0 <= i < j < |c| ==> c[i].0 != c[j].0
  }

  /** The keys of a counter, as a set. */
  ghost function KeySet<K>(c: Tally<K>): set<K> {
    set i | 0 <= i < |c| :: c[i].0
  }

  /** `c[k]`: a missing key counts zero. */
  function CountOf<K(==)>(c: Tally<K>, k: K): nat {
    if |c| == 0 then 0
    else (if c[0].0 == k then c[0].1 else 0) + CountOf(c[1..], k)
  }

  /** `sum(c.values())`. */
  function Total<K>(c: Tally<K>): nat {
    if |c| == 0 then 0 else c[0].1 + Total(c[1..])
  }

  /** `c[k] += 1`: the entry of `k` grows in place, or a new entry is appended. */
  function Bump<K(==)>(c: Tally<K>, k: K): (r: Tally<K>)
    ensures |r| == |c| || |r| == |c| + 1
    ensures Total(r) == Total(c) + 1
  {
    if |c| == 0 then [(k, 1)]
    else if c[0].0 == k then [(k, c[0].1 + 1)] + c[1..]
    else [c[0]] + Bump(c[1..], k)
  }

  /** The first entry and the rest of a non-empty counter. */
  lemma KeySetCons<K>(c: Tally<K>)
    requires |c| > 0
    ensures KeySet(c) == {c[0].0} + KeySet(c[1..])
  {
    forall x | x in KeySet(c) ensures x in {c[0].0} + KeySet(c[1..]) {
      var i :| 0 <= i < |c| && c[i].0 == x;
      if i > 0 { assert c[1..][i - 1].0 == x; }
    }
    forall x | x in KeySet(c[1..]) ensures x in KeySet(c) {
      var i :| 0 <= i < |c[1..]| && c[1..][i].0 == x;
      assert c[i + 1].0 == x;
    }
  }

  /** Bumping adds one to the bumped key's count and nothing to the others. */
  lemma {:induction false} BumpCount<K>(c: Tally<K>, k: K, j: K)
    ensures CountOf(Bump(c, k), j) == CountOf(c, j) + (if j == k then 1 else 0)
  {
    if |c| > 0 && c[0].0 != k {
      BumpCount(c[1..], k, j);
      assert ([c[0]] + Bump(c[1..], k))[1..] == Bump(c[1..], k);
    }
  }

  /** Bumping adds the bumped key to the key set. */
  lemma {:induction false} BumpKeySet<K>(c: Tally<K>, k: K)
    ensures KeySet(Bump(c, k)) == KeySet(c) + {k}
  {
    var r := Bump(c, k);
    KeySetCons(r);
    if |c| > 0 {
      KeySetCons(c);
      if c[0].0 == k {
        assert r[1..] == c[1..];
      } else {
        BumpKeySet(c[1..], k);
        assert r[1..] == Bump(c[1..], k);
      }
    }
  }

  /** The tail of a counter with distinct keys has distinct keys and lacks
      the head's key. */
  lemma TailDistinct<K>(c: Tally<K>)
    requires |c| > 0 && DistinctKeys(c)
    ensures DistinctKeys(c[1..]) && c[0].0 !in KeySet(c[1..])
  {
    forall i, j | 0 <= i < j < |c[1..]| ensures c[1..][i].0 != c[1..][j].0 {
      assert c[1..][i] == c[i + 1] && c[1..][j] == c[j + 1];
    }
    forall x | x in KeySet(c[1..]) ensures x != c[0].0 {
      var i :| 0 <= i < |c[1..]| && c[1..][i].0 == x;
      assert c[1..][i] == c[i + 1];
    }
  }

  /** Bumping keeps keys distinct. */
  lemma {:induction false} BumpDistinct<K>(c: Tally<K>, k: K)
    requires DistinctKeys(c)
    ensures DistinctKeys(Bump(c, k))
  {
    var r := Bump(c, k);
    if |c| > 0 && c[0].0 == k {
      forall i, j | 0 <= i < j < |r| ensures r[i].0 != r[j].0 {
        assert r[j] == c[j];
        if i > 0 { assert r[i] == c[i]; }
      }
    } else if |c| > 0 {
      var rest := Bump(c[1..], k);
      TailDistinct(c);
      BumpDistinct(c[1..], k);
      BumpKeySet(c[1..], k);
      forall i, j | 0 <= i < j < |r| ensures r[i].0 != r[j].0 {
        assert r[j] == rest[j - 1];
        assert r[j].0 in KeySet(rest);
        if i > 0 { assert r[i] == rest[i - 1]; }
      }
    }
  }

  /** Every count is positive. */
  ghost predicate Positive<K>(c: Tally<K>) {
    forall i :: 0 <= i < |c| ==> c[i].1 > 0
  }

  /** Bumping keeps every count positive. */
  lemma {:induction false} BumpPositive<K>(c: Tally<K>, k: K)
    requires Positive(c)
    ensures Positive(Bump(c, k))
  {
    var r := Bump(c, k);
    if |c| > 0 && c[0].0 != k {
      var rest := Bump(c[1..], k);
      assert Positive(c[1..]) by {
        forall i | 0 <= i < |c[1..]| ensures c[1..][i].1 > 0 {
          assert c[1..][i] == c[i + 1];
        }
      }
      BumpPositive(c[1..], k);
      forall i | 0 <= i < |r| ensures r[i].1 > 0 {
        if i > 0 { assert r[i] == rest[i - 1]; }
      }
    }
  }

  /** The counter built by `c[k] += 1` for every key of `keys`, in order: its
      keys are distinct and each entry has a positive count. */
  function Count<K(==)>(keys: seq<K>): (c: Tally<K>)
    ensures DistinctKeys(c) && Positive(c)
  {
    if |keys| == 0 then []
    else
      var init := Count(keys[..|keys| - 1]);
      BumpDistinct(init, keys[|keys| - 1]);
      BumpPositive(init, keys[|keys| - 1]);
      Bump(init, keys[|keys| - 1])
  }

  /** Each key is counted as often as it occurs, every key occurs, and the
      counts add up to the number of keys. */
  lemma {:induction false} CountCounts<K>(keys: seq<K>, k: K)
    ensures CountOf(Count(keys), k) == multiset(keys)[k]
    ensures KeySet(Count(keys)) == set x | x in keys
    ensures Total(Count(keys)) == |keys|
  {
    if |keys| > 0 {
      var init := keys[..|keys| - 1];
      var last := keys[|keys| - 1];
      CountCounts(init, k);
      BumpCount(Count(init), last, k);
      BumpKeySet(Count(init), last);
      assert keys == init + [last];
      assert multiset(keys) == multiset(init) + multiset{last};
      assert (set x | x in keys) == (set x | x in init) + {last};
    }
  }

  /** A counter with distinct keys has one entry per key, so `len(counter)` is
      the number of different keys counted. */
  lemma {:induction false} DistinctCard<K>(c: Tally<K>)
    requires DistinctKeys(c)
    ensures |c| == |KeySet(c)|
  {
    if |c| > 0 {
      TailDistinct(c);
      DistinctCard(c[1..]);
      KeySetCons(c);
    }
  }

  /** With distinct keys, an entry's count is its key's count. */
  lemma {:induction false} EntryCount<K>(c: Tally<K>, e: (K, nat))
    requires DistinctKeys(c) && e in c
    ensures CountOf(c, e.0) == e.1
  {
    TailDistinct(c);
    if c[0] == e {
      KeyAbsent(c[1..], e.0);
    } else {
      EntryCount(c[1..], e);
    }
  }

  /** A key without an entry counts zero. */
  lemma {:induction false} KeyAbsent<K>(c: Tally<K>, k: K)
    requires k !in KeySet(c)
    ensures CountOf(c, k) == 0
  {
    if |c| > 0 {
      KeySetCons(c);
      KeyAbsent(c[1..], k);
    }
  }

  /** With distinct keys, every key of the counter has the entry (key, count). */
  lemma {:induction false} KeyEntry<K>(c: Tally<K>, k: K)
    requires DistinctKeys(c) && k in KeySet(c)
    ensures (k, CountOf(c, k)) in c
  {
    var i :| 0 <= i < |c| && c[i].0 == k;
    EntryCount(c, c[i]);
  }

  /** Counts never increase along the list. */
  ghost predicate NonIncreasing<K>(s: Tally<K>) {
    forall i, j :: 0 <= i < j < |s| ==> s[i].1 >= s[j].1
  }

  /** Places `e` after every entry whose count is at least its own, so entries
      with equal counts keep their order. */
  function Insert<K>(e: (K, nat), s: Tally<K>): (r: Tally<K>)
    ensures multiset(r) == multiset(s) + multiset{e}
  {
    if |s| == 0 then [e]
    else if s[0].1 >= e.1 then
      assert s == [s[0]] + s[1..];
      [s[0]] + Insert(e, s[1..])
    else [e] + s
  }

  /** Inserting keeps every count at most a bound that the list and the new
      entry respect. */
  lemma InsertBounded<K>(e: (K, nat), s: Tally<K>, b: nat)
    requires e.1 <= b && forall x :: x in s ==> x.1 <= b
    ensures forall x :: x in Insert(e, s) ==> x.1 <= b
  {
    forall x | x in Insert(e, s) ensures x.1 <= b {
      assert x in multiset(Insert(e, s));
      if x != e { assert x in multiset(s); }
    }
  }

  /** An entry with a count at least every count of a non-increasing list
      extends it in order. */
  lemma ConsSorted<K>(x: (K, nat), s: Tally<K>)
    requires NonIncreasing(s) && forall y :: y in s ==> y.1 <= x.1
    ensures NonIncreasing([x] + s)
  {
    var r := [x] + s;
    forall i, j | 0 <= i < j < |r| ensures r[i].1 >= r[j].1 {
      assert r[j] == s[j - 1];
      if i > 0 { assert r[i] == s[i - 1]; } else { assert s[j - 1] in s; }
    }
  }

  /** Inserting into a non-increasing list keeps it non-increasing. */
  lemma {:induction false} InsertSorted<K>(e: (K, nat), s: Tally<K>)
    requires NonIncreasing(s)
    ensures NonIncreasing(Insert(e, s))
  {
    if |s| > 0 && s[0].1 >= e.1 {
      assert NonIncreasing(s[1..]) by {
        forall i, j | 0 <= i < j < |s[1..]| ensures s[1..][i].1 >= s[1..][j].1 {
          assert s[1..][i] == s[i + 1] && s[1..][j] == s[j + 1];
        }
      }
      InsertSorted(e, s[1..]);
      assert forall x :: x in s[1..] ==> x.1 <= s[0].1 by {
        forall x | x in s[1..] ensures x.1 <= s[0].1 {
          var j :| 0 <= j < |s[1..]| && s[1..][j] == x;
          assert s[1..][j] == s[j + 1];
        }
      }
      InsertBounded(e, s[1..], s[0].1);
      ConsSorted(s[0], Insert(e, s[1..]));
    } else if |s| > 0 {
      ConsSorted(e, s);
    }
  }

  /** `sorted(items, key=count, reverse=True)`, which is stable. */
  function SortDesc<K>(c: Tally<K>): (r: Tally<K>)
    ensures multiset(r) == multiset(c)
    ensures NonIncreasing(r)
  {
    if |c| == 0 then []
    else
      assert c == c[..|c| - 1] + [c[|c| - 1]];
      InsertSorted(c[|c| - 1], SortDesc(c[..|c| - 1]));
      Insert(c[|c| - 1], SortDesc(c[..|c| - 1]))
  }

  /** `most_common(n)`: the `n` entries with the largest counts, largest
      first; nothing for `n <= 0` and everything when `n` exceeds the size. */
  function MostCommon<K>(c: Tally<K>, n: int): (r: Tally<K>)
    ensures |r| == if n <= 0 then 0 else if n < |c| then n else |c|
    ensures NonIncreasing(r)
    ensures multiset(r) <= multiset(c)
    ensures forall x, y :: x in multiset(c) - multiset(r) && y in r ==> x.1 <= y.1
  {
    if n <= 0 then []
    else
      var sorted := SortDesc(c);
      var m := if n < |c| then n else |c|;
      TakeSplits(sorted, m);
      sorted[..m]
  }

  /** Cutting a non-increasing list leaves nothing after the cut larger than
      anything before it. */
  lemma TakeSplits<K>(s: Tally<K>, m: nat)
    requires m <= |s| && NonIncreasing(s)
    ensures multiset(s[..m]) <= multiset(s)
    ensures forall x, y :: x in multiset(s) - multiset(s[..m]) && y in s[..m] ==> x.1 <= y.1
  {
    assert s == s[..m] + s[m..];
    assert multiset(s) == multiset(s[..m]) + multiset(s[m..]);
    forall x, y | x in multiset(s) - multiset(s[..m]) && y in s[..m] ensures x.1 <= y.1 {
      assert x in multiset(s[m..]);
      var j :| 0 <= j < |s[m..]| && s[m..][j] == x;
      var i :| 0 <= i < m && s[i] == y;
      assert s[m + j] == x;
    }
  }
}
