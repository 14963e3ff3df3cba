/**
 * The per-record referrer analytics: a JavaScript Map from referrer string to
 * click count, kept as its entries in insertion order (the order the Map
 * iterates in), plus the top-referrers pipeline of the statistics handler:
 * entries, stable sort by descending count, first five, keys.
 */
module Referrers {

  /** One entry of the referrer Map. */
  datatype Entry = Entry(key: string, count: nat)

  /** The entry keys, in insertion order. */
  function Keys(refs: seq<Entry>): (ks: seq<string>)
    ensures |ks| == |refs|
  {
    seq(|refs|, i requires 0 <= i < |refs| => refs[i].key)
  }

  /** No key occurs twice: what makes a sequence of entries a Map. */
  predicate DistinctKeys(refs: seq<Entry>)
  {
    forall i, j :: 0 <= i < j < |refs| ==> refs[i].key != refs[j].key
  }

  /** The Map's get(key) || 0: the count stored for key, or 0 when the key is absent. */
  function Count(refs: seq<Entry>, key: string): (c: nat)
    ensures (forall i :: 0 <= i < |refs| ==> refs[i].key != key) ==> c == 0
  {
    if refs == [] then 0
    else if refs[0].key == key then refs[0].count
    else Count(refs[1..], key)
  }

  /** The sum of all counts. */
  function Total(refs: seq<Entry>): nat
  {
    if refs == [] then 0 else refs[0].count + Total(refs[1..])
  }

  /** Position of key in insertion order; |refs| when the key is absent. */
  function KeyIndex(refs: seq<Entry>, key: string): nat
  {
    if refs == [] then 0
    else if refs[0].key == key then 0
    else 1 + KeyIndex(refs[1..], key)
  }

  /**
   * A key the document's Map accepts: a Mongoose Map refuses, in set, a key that
   * contains '.' or starts with '$'.
   */
  predicate MapKeyAllowed(key: string)
  {
    '.' !in key && !(|key| > 0 && key[0] == '$')
  }

  /** The Map's set(key, (get(key) || 0) + 1): bump an existing entry in place, or append a new one. */
  function Bump(refs: seq<Entry>, key: string): (r: seq<Entry>)
    ensures Count(r, key) == Count(refs, key) + 1
  {
    if refs == [] then [Entry(key, 1)]
    else if refs[0].key == key then [Entry(key, refs[0].count + 1)] + refs[1..]
    else [refs[0]] + Bump(refs[1..], key)
  }

  /** Bumping key raises its count by one and leaves every other key's count alone. */
  lemma {:induction false} BumpCount(refs: seq<Entry>, key: string, k: string)
    ensures Count(Bump(refs, key), k) == Count(refs, k) + (if k == key then 1 else 0)
  {
    if refs != [] && refs[0].key != key {
      BumpCount(refs[1..], key, k);
    }
  }

  /** Bumping raises the total of all counts by exactly one. */
  lemma {:induction false} BumpTotal(refs: seq<Entry>, key: string)
    ensures Total(Bump(refs, key)) == Total(refs) + 1
  {
    if refs != [] && refs[0].key != key {
      BumpTotal(refs[1..], key);
    }
  }

  /** The keys of an entry followed by more entries. */
  lemma KeysCons(e: Entry, t: seq<Entry>)
    ensures Keys([e] + t) == [e.key] + Keys(t)
  {
    var r := [e] + t;
    forall i | 0 <= i < |r|
      ensures Keys(r)[i] == ([e.key] + Keys(t))[i]
    {
      if i > 0 {
        assert r[i] == t[i - 1];
      }
    }
  }

  /** Bumping keeps the insertion order: an existing key stays in place, a new key goes last. */
  lemma {:induction false} BumpKeys(refs: seq<Entry>, key: string)
    ensures Keys(Bump(refs, key)) == if key in Keys(refs) then Keys(refs) else Keys(refs) + [key]
  {
    if refs == [] {
      KeysCons(Entry(key, 1), []);
    } else {
      var h, t := refs[0], refs[1..];
      assert refs == [h] + t;
      KeysCons(h, t);
      var rest := Keys(t);
      if h.key != key {
        BumpKeys(t, key);
        KeysCons(h, Bump(t, key));
        assert (key in Keys(refs)) == (key in rest);
        if key !in rest {
          assert [h.key] + (rest + [key]) == ([h.key] + rest) + [key];
        }
      } else {
        KeysCons(Entry(key, h.count + 1), t);
        assert Keys(refs)[0] == key;
      }
    }
  }

  /** Bumping keeps a Map a Map: no key occurs twice afterwards either. */
  lemma BumpDistinct(refs: seq<Entry>, key: string)
    requires DistinctKeys(refs)
    ensures DistinctKeys(Bump(refs, key))
  {
    BumpKeys(refs, key);
    var b := Bump(refs, key);
    var ks, ks0 := Keys(b), Keys(refs);
    forall i, j | 0 <= i < j < |b|
      ensures b[i].key != b[j].key
    {
      assert b[i].key == ks[i] && b[j].key == ks[j];
      assert ks[i] == ks0[i] == refs[i].key;
      if j < |refs| {
        assert ks[j] == ks0[j] == refs[j].key;
      }
    }
  }

  /** An entry of a Map is what Count and KeyIndex find for its key. */
  lemma {:induction false} EntryLookup(refs: seq<Entry>, x: Entry)
    requires DistinctKeys(refs) && x in refs
    ensures KeyIndex(refs, x.key) < |refs| && refs[KeyIndex(refs, x.key)] == x
    ensures Count(refs, x.key) == x.count
  {
    if refs[0] != x {
      assert x in refs[1..];
      assert refs[0].key != x.key;
      EntryLookup(refs[1..], x);
    }
  }

  /** x goes before y in the statistics order of refs: higher count first, then earlier insertion. */
  predicate Before(refs: seq<Entry>, x: Entry, y: Entry)
  {
    x.count > y.count || (x.count == y.count && KeyIndex(refs, x.key) < KeyIndex(refs, y.key))
  }

  /** r lists its entries in the statistics order of refs. */
  predicate Ranked(refs: seq<Entry>, r: seq<Entry>)
  {
    forall i, j :: 0 <= i < j < |r| ==> Before(refs, r[i], r[j])
  }

  /** Insert e in front of the first entry whose count does not exceed e's. */
  function Insert(e: Entry, sorted: seq<Entry>): (r: seq<Entry>)
    ensures multiset(r) == multiset(sorted) + multiset{e}
  {
    if sorted == [] || e.count >= sorted[0].count then [e] + sorted
    else
      assert sorted == [sorted[0]] + sorted[1..];
      [sorted[0]] + Insert(e, sorted[1..])
  }

  /**
   * Sorting with the comparator (a, b) => b.count - a.count by a stable sort,
   * as an insertion sort: descending count, equal counts in insertion order.
   */
  function SortByCount(refs: seq<Entry>): (r: seq<Entry>)
    ensures multiset(r) == multiset(refs)
  {
    if refs == [] then []
    else
      assert refs == [refs[0]] + refs[1..];
      Insert(refs[0], SortByCount(refs[1..]))
  }

  /** Putting x in front of a ranked sequence whose entries all come after x keeps it ranked. */
  lemma RankedCons(refs: seq<Entry>, x: Entry, u: seq<Entry>)
    requires Ranked(refs, u)
    requires forall y :: y in u ==> Before(refs, x, y)
    ensures Ranked(refs, [x] + u)
  {
    var r := [x] + u;
    forall i, j | 0 <= i < j < |r|
      ensures Before(refs, r[i], r[j])
    {
      assert r[j] == u[j - 1];
      if i > 0 {
        assert r[i] == u[i - 1];
      }
    }
  }

  /** Inserting e keeps a sequence ranked when e belongs before every entry whose count it reaches. */
  lemma {:induction false} InsertRanked(refs: seq<Entry>, e: Entry, t: seq<Entry>)
    requires Ranked(refs, t)
    requires forall x :: x in t && x.count <= e.count ==> Before(refs, e, x)
    ensures Ranked(refs, Insert(e, t))
  {
    if t == [] {
    } else if e.count >= t[0].count {
      forall y | y in t
        ensures Before(refs, e, y)
      {
        var j :| 0 <= j < |t| && t[j] == y;
        assert j > 0 ==> Before(refs, t[0], t[j]);
      }
      RankedCons(refs, e, t);
    } else {
      var rest := t[1..];
      assert Ranked(refs, rest) by {
        forall i, j | 0 <= i < j < |rest|
          ensures Before(refs, rest[i], rest[j])
        {
          assert rest[i] == t[i + 1] && rest[j] == t[j + 1];
        }
      }
      InsertRanked(refs, e, rest);
      var u := Insert(e, rest);
      forall y | y in u
        ensures Before(refs, t[0], y)
      {
        assert y in multiset(u);
        if y != e {
          assert y in multiset(rest);
          var j :| 0 <= j < |rest| && rest[j] == y;
          assert t[j + 1] == y;
        }
      }
      RankedCons(refs, t[0], u);
    }
  }

  /** The sorted entries of a Map are in statistics order. */
  lemma {:induction false} SortRanked(refs: seq<Entry>)
    requires DistinctKeys(refs)
    ensures Ranked(refs, SortByCount(refs))
  {
    if refs != [] {
      var e, rest := refs[0], refs[1..];
      var t := SortByCount(rest);
      assert DistinctKeys(rest) by {
        forall i, j | 0 <= i < j < |rest|
          ensures rest[i].key != rest[j].key
        {
          assert rest[i] == refs[i + 1] && rest[j] == refs[j + 1];
        }
      }
      SortRanked(rest);
      forall x | x in t
        ensures x.key != e.key && KeyIndex(refs, x.key) == 1 + KeyIndex(rest, x.key)
      {
        assert x in multiset(rest);
        var i :| 0 <= i < |rest| && rest[i] == x;
        assert refs[i + 1] == x;
      }
      forall i, j | 0 <= i < j < |t|
        ensures Before(refs, t[i], t[j])
      {
        assert Before(rest, t[i], t[j]);
        assert t[i] in t && t[j] in t;
      }
      forall x | x in t && x.count <= e.count
        ensures Before(refs, e, x)
      {
      }
      InsertRanked(refs, e, t);
    }
  }

  function Min(a: int, b: int): int
  {
    if a < b then a else b
  }

  /** Key a is reported before key b: a has the higher count, or the same count and was inserted first. */
  predicate Precedes(refs: seq<Entry>, a: string, b: string)
  {
    Count(refs, a) > Count(refs, b) || (Count(refs, a) == Count(refs, b) && KeyIndex(refs, a) < KeyIndex(refs, b))
  }

  /**
   * The five most frequent referrer keys, most frequent first and equal counts
   * in insertion order: entries, sort, first five, keys.
   */
  function TopReferrers(refs: seq<Entry>): (top: seq<string>)
    requires DistinctKeys(refs)
    ensures |top| == Min(5, |refs|)
    ensures forall i :: 0 <= i < |top| ==> top[i] in Keys(refs)
    ensures forall i, j :: 0 <= i < j < |top| ==> top[i] != top[j]
    ensures forall i, j :: 0 <= i < j < |top| ==> Precedes(refs, top[i], top[j])
    ensures forall i, k :: 0 <= i < |top| && k in Keys(refs) && k !in top ==> Precedes(refs, top[i], k)
  {
    var sorted := SortByCount(refs);
    var top := Keys(sorted[..Min(5, |sorted|)]);
    TopReferrersOrder(refs, sorted, top);
    top
  }

  /** A Map with a single entry reports just that entry's key. */
  lemma TopOfOne(e: Entry)
    ensures TopReferrers([e]) == [e.key]
  {
    var top := TopReferrers([e]);
    assert Keys([e]) == [e.key];
    assert top[0] in Keys([e]);
  }

  /** What the sorted prefix says about the keys taken from it. */
  lemma TopReferrersOrder(refs: seq<Entry>, sorted: seq<Entry>, top: seq<string>)
    requires DistinctKeys(refs) && sorted == SortByCount(refs)
    requires top == Keys(sorted[..Min(5, |sorted|)])
    ensures |top| == Min(5, |refs|)
    ensures forall i :: 0 <= i < |top| ==> top[i] in Keys(refs)
    ensures forall i, j :: 0 <= i < j < |top| ==> top[i] != top[j]
    ensures forall i, j :: 0 <= i < j < |top| ==> Precedes(refs, top[i], top[j])
    ensures forall i, k :: 0 <= i < |top| && k in Keys(refs) && k !in top ==> Precedes(refs, top[i], k)
  {
    SortRanked(refs);
    SortedLookup(refs, sorted);
    PrefixKeys(sorted, Min(5, |sorted|));
    PrefixInKeys(refs, sorted, top);
    PrefixOrder(refs, sorted, top);
    PrefixBeatsRest(refs, sorted, top);
  }

  /** Keys taken in order from the front of the sorted Map entries are keys of the Map. */
  lemma PrefixInKeys(refs: seq<Entry>, sorted: seq<Entry>, top: seq<string>)
    requires forall q :: 0 <= q < |sorted| ==>
      KeyIndex(refs, sorted[q].key) < |refs| && Count(refs, sorted[q].key) == sorted[q].count &&
      Keys(refs)[KeyIndex(refs, sorted[q].key)] == sorted[q].key
    requires |top| <= |sorted| && forall i :: 0 <= i < |top| ==> top[i] == sorted[i].key
    ensures forall i :: 0 <= i < |top| ==> top[i] in Keys(refs)
  {
    forall i | 0 <= i < |top|
      ensures top[i] in Keys(refs)
    {
      assert Keys(refs)[KeyIndex(refs, sorted[i].key)] == top[i];
    }
  }

  /** Keys taken in order from the front of ranked Map entries are distinct and in reporting order. */
  lemma PrefixOrder(refs: seq<Entry>, sorted: seq<Entry>, top: seq<string>)
    requires Ranked(refs, sorted)
    requires forall q :: 0 <= q < |sorted| ==>
      KeyIndex(refs, sorted[q].key) < |refs| && Count(refs, sorted[q].key) == sorted[q].count
    requires |top| <= |sorted| && forall i :: 0 <= i < |top| ==> top[i] == sorted[i].key
    ensures forall i, j :: 0 <= i < j < |top| ==> top[i] != top[j] && Precedes(refs, top[i], top[j])
  {
    forall i, j | 0 <= i < j < |top|
      ensures top[i] != top[j] && Precedes(refs, top[i], top[j])
    {
      assert Before(refs, sorted[i], sorted[j]);
    }
  }

  /** A key taken from the front of ranked Map entries is reported before every key left behind. */
  lemma PrefixBeatsRest(refs: seq<Entry>, sorted: seq<Entry>, top: seq<string>)
    requires Ranked(refs, sorted) && multiset(sorted) == multiset(refs)
    requires forall q :: 0 <= q < |sorted| ==>
      KeyIndex(refs, sorted[q].key) < |refs| && Count(refs, sorted[q].key) == sorted[q].count &&
      Keys(refs)[KeyIndex(refs, sorted[q].key)] == sorted[q].key
    requires |top| <= |sorted| && forall i :: 0 <= i < |top| ==> top[i] == sorted[i].key
    ensures forall i, k :: 0 <= i < |top| && k in Keys(refs) && k !in top ==> Precedes(refs, top[i], k)
  {
    forall i, k | 0 <= i < |top| && k in Keys(refs) && k !in top
      ensures Precedes(refs, top[i], k)
    {
      var q := LeftOut(refs, sorted, top, k);
      assert Before(refs, sorted[i], sorted[q]);
    }
  }

  /** The keys of the first n entries, in order. */
  lemma PrefixKeys(sorted: seq<Entry>, n: nat)
    requires n <= |sorted|
    ensures |Keys(sorted[..n])| == n && forall i :: 0 <= i < n ==> Keys(sorted[..n])[i] == sorted[i].key
  {
    var prefix := sorted[..n];
    forall i | 0 <= i < n
      ensures Keys(prefix)[i] == sorted[i].key
    {
      assert prefix[i] == sorted[i];
    }
  }

  /** Each sorted entry is the Map's entry for its key. */
  lemma SortedLookup(refs: seq<Entry>, sorted: seq<Entry>)
    requires DistinctKeys(refs) && multiset(sorted) == multiset(refs)
    ensures |sorted| == |refs|
    ensures forall q :: 0 <= q < |sorted| ==>
      KeyIndex(refs, sorted[q].key) < |refs| && Count(refs, sorted[q].key) == sorted[q].count &&
      Keys(refs)[KeyIndex(refs, sorted[q].key)] == sorted[q].key
  {
    forall q | 0 <= q < |sorted|
      ensures KeyIndex(refs, sorted[q].key) < |refs| && Count(refs, sorted[q].key) == sorted[q].count
      ensures Keys(refs)[KeyIndex(refs, sorted[q].key)] == sorted[q].key
    {
      assert sorted[q] in multiset(refs);
      EntryLookup(refs, sorted[q]);
    }
    assert |sorted| == |multiset(sorted)| == |refs|;
  }

  /** A key of the Map that did not make the top list sits in the sorted entries past the cut. */
  lemma LeftOut(refs: seq<Entry>, sorted: seq<Entry>, top: seq<string>, k: string) returns (q: nat)
    requires multiset(sorted) == multiset(refs)
    requires |top| <= |sorted| && forall i :: 0 <= i < |top| ==> top[i] == sorted[i].key
    requires k in Keys(refs) && k !in top
    ensures |top| <= q < |sorted| && sorted[q].key == k
  {
    var m :| 0 <= m < |refs| && Keys(refs)[m] == k;
    assert refs[m] in multiset(sorted);
    q :| 0 <= q < |sorted| && sorted[q] == refs[m];
  }
}
