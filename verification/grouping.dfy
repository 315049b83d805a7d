/** Partitioning books by a caller-derived key, as the stream collector
    `groupingBy` does it: one pass in encounter order, appending each book to
    the list kept for its key and creating that list on first use. */
module Grouping {
  import opened BookRecord
  import opened Sequences

  /** The reference bucket for key `k`: the books of `s` whose key is `k`, in
      the order `s` has them. */
  function Bucket<K(==, !new)>(s: seq<Book>, key: Book -> K, k: K): (r: seq<Book>) {
    Filter(s, b => key(b) == k)
  }

  /** The bucket of `k` holds exactly the books of `s` whose key is `k`. */
  lemma BucketMembers<K(!new)>(s: seq<Book>, key: Book -> K, k: K)
    ensures forall b :: b in Bucket(s, key, k) <==> b in s && key(b) == k
  {
    FilterMembers(s, b => key(b) == k);
  }

  /** The bucket of a sequence extended by one book. */
  lemma BucketSnoc<K(!new)>(init: seq<Book>, b: Book, key: Book -> K, k: K)
    ensures Bucket(init + [b], key, k) == Bucket(init, key, k) + (if key(b) == k then [b] else [])
  {
    FilterSnoc(init, b, x => key(x) == k);
  }

  /** The bucket of a sequence with a known first book. */
  lemma BucketCons<K(!new)>(b: Book, t: seq<Book>, key: Book -> K, k: K)
    ensures Bucket([b] + t, key, k) == (if key(b) == k then [b] else []) + Bucket(t, key, k)
  {
    assert ([b] + t)[1..] == t;
  }

  /** A key no book carries has an empty bucket. */
  lemma BucketOfAbsentKey<K(!new)>(s: seq<Book>, key: Book -> K, k: K)
    requires forall i :: 0 <= i < |s| ==> key(s[i]) != k
    ensures Bucket(s, key, k) == []
  {
    FilterNone(s, b => key(b) == k);
  }

  /** One accumulation step: append `b` to the list for its key. */
  function Accumulate<K(==, !new)>(groups: map<K, seq<Book>>, key: Book -> K, b: Book): (r: map<K, seq<Book>>)
    ensures r.Keys == groups.Keys + {key(b)}
    ensures key(b) in r && r[key(b)] == (if key(b) in groups then groups[key(b)] else []) + [b]
    ensures forall k :: k in groups && k != key(b) ==> k in r && r[k] == groups[k]
  {
    var k := key(b);
    groups[k := (if k in groups then groups[k] else []) + [b]]
  }

  /** The grouping of `s` by `key`, built by folding `Accumulate` over `s`
      from left to right. Its keys are exactly the keys of the books, so no
      bucket is empty, and every bucket is the in-order filter of `s`. */
  function GroupBy<K(==, !new)>(s: seq<Book>, key: Book -> K): (r: map<K, seq<Book>>)
    ensures forall k :: k in r <==> exists i :: 0 <= i < |s| && key(s[i]) == k
    ensures forall k :: k in r ==> r[k] == Bucket(s, key, k)
    decreases |s|
  {
    if |s| == 0 then map[]
    else
      var init, b := s[..|s| - 1], s[|s| - 1];
      var groups := GroupBy(init, key);
      assert s == init + [b];

      var r := Accumulate(groups, key, b);
      assert forall k :: k in r ==> r[k] == Bucket(s, key, k) by {
        forall k | k in r ensures r[k] == Bucket(s, key, k) {
          BucketSnoc(init, b, key, k);
          if k !in groups {
            BucketOfAbsentKey(init, key, k);
          }
        }
      }
      r
  }

  /** The keys of the grouping are the image of the key function over the
      shelf: every book's key is present and no other key is. */
  lemma GroupByKeys<K(!new)>(s: seq<Book>, key: Book -> K)
    ensures GroupBy(s, key).Keys == set b | b in s :: key(b)
  {
    var r := GroupBy(s, key);
    forall k | k in r ensures k in set b | b in s :: key(b) {
      var i :| 0 <= i < |s| && key(s[i]) == k;
      assert s[i] in s;
    }
    forall k | k in set b | b in s :: key(b) ensures k in r {
      var b :| b in s && key(b) == k;
      var i :| 0 <= i < |s| && s[i] == b;
    }
  }

  /** The sum of the sizes of the buckets listed in `ks`. */
  ghost function TotalSize<K(!new)>(groups: map<K, seq<Book>>, ks: seq<K>): (r: nat)
    requires forall i :: 0 <= i < |ks| ==> ks[i] in groups
    decreases |ks|
  {
    if |ks| == 0 then 0 else |groups[ks[0]]| + TotalSize(groups, ks[1..])
  }

  /** The sum of the sizes of the reference buckets listed in `ks`. */
  ghost function BucketSizes<K(!new)>(s: seq<Book>, key: Book -> K, ks: seq<K>): (r: nat)
    decreases |ks|
  {
    if |ks| == 0 then 0 else |Bucket(s, key, ks[0])| + BucketSizes(s, key, ks[1..])
  }

  /** A value occurs once in a duplicate-free sequence that holds it. */
  lemma {:induction false} OccursOnce<K>(ks: seq<K>, x: K)
    requires NoDuplicates(ks)
    requires x in ks
    ensures multiset(ks)[x] == 1
    decreases |ks|
  {
    assert ks == [ks[0]] + ks[1..];
    if ks[0] != x {
      OccursOnce(ks[1..], x);
    } else {
      assert x !in ks[1..];
    }
  }

  /** Putting one more book in front adds one to each listed bucket that
      carries its key. */
  lemma {:induction false} BucketSizesCons<K(!new)>(b: Book, t: seq<Book>, key: Book -> K, ks: seq<K>)
    ensures BucketSizes([b] + t, key, ks) == BucketSizes(t, key, ks) + multiset(ks)[key(b)]
    decreases |ks|
  {
    if |ks| > 0 {
      BucketSizesCons(b, t, key, ks[1..]);
      assert ([b] + t)[1..] == t;
      assert ks == [ks[0]] + ks[1..];
    }
  }

  /** Every book lands in exactly one of the listed buckets when the list
      names every key once. */
  lemma {:induction false} BucketSizesCover<K(!new)>(s: seq<Book>, key: Book -> K, ks: seq<K>)
    requires NoDuplicates(ks)
    requires forall i :: 0 <= i < |s| ==> key(s[i]) in ks
    ensures BucketSizes(s, key, ks) == |s|
    decreases |s|
  {
    if |s| == 0 {
      BucketSizesEmpty(key, ks);
    } else {
      assert s == [s[0]] + s[1..];
      BucketSizesCons(s[0], s[1..], key, ks);
      OccursOnce(ks, key(s[0]));
      BucketSizesCover(s[1..], key, ks);
    }
  }

  lemma {:induction false} BucketSizesEmpty<K(!new)>(key: Book -> K, ks: seq<K>)
    ensures BucketSizes([], key, ks) == 0
    decreases |ks|
  {
    if |ks| > 0 {
      BucketSizesEmpty(key, ks[1..]);
    }
  }

  /** Summing the bucket sizes of the grouping over any duplicate-free
      enumeration of its keys gives the number of books grouped. */
  lemma {:induction false} GroupSizesSum<K(!new)>(s: seq<Book>, key: Book -> K, ks: seq<K>)
    requires NoDuplicates(ks)
    requires forall k :: k in ks <==> k in GroupBy(s, key)
    ensures TotalSize(GroupBy(s, key), ks) == |s|
  {
    TotalSizeIsBucketSizes(s, key, ks);
    BucketSizesCover(s, key, ks);
  }

  lemma {:induction false} TotalSizeIsBucketSizes<K(!new)>(s: seq<Book>, key: Book -> K, ks: seq<K>)
    requires forall i :: 0 <= i < |ks| ==> ks[i] in GroupBy(s, key)
    ensures TotalSize(GroupBy(s, key), ks) == BucketSizes(s, key, ks)
    decreases |ks|
  {
    if |ks| > 0 {
      TotalSizeIsBucketSizes(s, key, ks[1..]);
    }
  }
}
