/** Comparator-driven arrangement of books: a comparator is modelled by the
    relation `leq(a, b)`, "a may come before b", which is `compare(a, b) <= 0`
    for the caller's comparator. The sort is a stable insertion sort. */
module Ordering {
  import opened BookRecord
  import opened Sequences

  /** The contract a comparator must honour: every pair is comparable and the
      order is transitive. Equal-comparing books need not be equal. */
  ghost predicate TotalPreorder(leq: (Book, Book) -> bool) {
    && (forall a, b {:trigger leq(a, b), leq(b, a)} :: leq(a, b) || leq(b, a))
    && (forall a, b, c {:trigger leq(a, b), leq(b, c), leq(a, c)} :: leq(a, b) && leq(b, c) ==> leq(a, c))
  }

  /** Every earlier element may come before every later one. */
  predicate Sorted(leq: (Book, Book) -> bool, s: seq<Book>) {
    forall i, j :: 0 <= i < j < |s| ==> leq(s[i], s[j])
  }

  /** `a` and `b` compare as equal. */
  predicate Equivalent(leq: (Book, Book) -> bool, a: Book, b: Book) {
    leq(a, b) && leq(b, a)
  }

  /** The books of `s` that compare equal to `x`, in their order in `s`. */
  function EquivalenceClass(leq: (Book, Book) -> bool, s: seq<Book>, x: Book): (r: seq<Book>) {
    Filter(s, b => Equivalent(leq, b, x))
  }

  /** `r` keeps every class of equal-comparing books of `s` in the order `s`
      has them: the definition of a stable rearrangement. */
  ghost predicate Stable(leq: (Book, Book) -> bool, s: seq<Book>, r: seq<Book>) {
    forall x :: EquivalenceClass(leq, r, x) == EquivalenceClass(leq, s, x)
  }

  /** What a stable sort of `s` must return. */
  ghost predicate IsStableSortOf(leq: (Book, Book) -> bool, s: seq<Book>, r: seq<Book>) {
    && Sorted(leq, r)
    && multiset(r) == multiset(s)
    && Stable(leq, s, r)
  }

  /** The natural (title) order of books honours the comparator contract. */
  lemma NaturalOrderIsTotalPreorder()
    ensures TotalPreorder(TitleLeq)
  {
    forall a, b ensures TitleLeq(a, b) || TitleLeq(b, a) {
      StringLeqTotal(a.title, b.title);
    }
    forall a, b, c | TitleLeq(a, b) && TitleLeq(b, c) ensures TitleLeq(a, c) {
      StringLeqTransitive(a.title, b.title, c.title);
    }
  }

  /** The comparator with its arguments swapped, as `Comparator.reversed()`. */
  function Reversed(leq: (Book, Book) -> bool): (r: (Book, Book) -> bool) {
    (a: Book, b: Book) => leq(b, a)
  }

  lemma ReversedTotalPreorder(leq: (Book, Book) -> bool)
    requires TotalPreorder(leq)
    ensures TotalPreorder(Reversed(leq))
    ensures forall a, b :: Equivalent(Reversed(leq), a, b) <==> Equivalent(leq, a, b)
  {
  }

  /** Inserts `x` in front of the first element it may precede. Elements it
      skips compare strictly less than `x`, so `x` stays in front of every
      book that compares equal to it. */
  function Insert(leq: (Book, Book) -> bool, x: Book, ys: seq<Book>): (r: seq<Book>)
    ensures multiset(r) == multiset([x] + ys)
    ensures |r| == |ys| + 1
    decreases |ys|
  {
    if |ys| == 0 then [x]
    else if leq(x, ys[0]) then [x] + ys
    else
      assert ys == [ys[0]] + ys[1..];
      [ys[0]] + Insert(leq, x, ys[1..])
  }

  /** Inserting into a sorted sequence keeps it sorted. */
  lemma {:induction false} InsertSorted(leq: (Book, Book) -> bool, x: Book, ys: seq<Book>)
    requires TotalPreorder(leq)
    requires Sorted(leq, ys)
    ensures Sorted(leq, Insert(leq, x, ys))
    decreases |ys|
  {
    if |ys| > 0 {
      var r := Insert(leq, x, ys);
      if leq(x, ys[0]) {
        forall i, j | 0 <= i < j < |r| ensures leq(r[i], r[j]) {
          if i == 0 && j > 1 {
            assert leq(x, ys[0]) && leq(ys[0], ys[j - 1]);
          }
        }
      } else {
        var rest := Insert(leq, x, ys[1..]);
        InsertSorted(leq, x, ys[1..]);
        assert leq(ys[0], x);
        forall j | 0 < j < |r| ensures leq(r[0], r[j]) {
          var e := rest[j - 1];
          assert e in multiset([x] + ys[1..]);
          if e != x {
            assert e in ys[1..];
          }
        }
      }
    }
  }

  /** The class of `x` holds exactly the books of `s` equivalent to `x`. */
  lemma ClassMembers(leq: (Book, Book) -> bool, s: seq<Book>, x: Book)
    ensures forall b :: b in EquivalenceClass(leq, s, x) <==> b in s && Equivalent(leq, b, x)
  {
    FilterMembers(s, b => Equivalent(leq, b, x));
  }

  /** The class of `z` in a sequence with a known first element. */
  lemma EquivalenceClassCons(leq: (Book, Book) -> bool, b: Book, t: seq<Book>, z: Book)
    ensures EquivalenceClass(leq, [b] + t, z)
         == (if Equivalent(leq, b, z) then [b] else []) + EquivalenceClass(leq, t, z)
  {
    assert ([b] + t)[1..] == t;
  }

  /** Two books that do not compare in order are never both equivalent to a
      third one. */
  lemma NotBothEquivalent(leq: (Book, Book) -> bool, x: Book, y: Book, z: Book)
    requires TotalPreorder(leq)
    requires !leq(x, y)
    ensures !(Equivalent(leq, x, z) && Equivalent(leq, y, z))
  {
  }

  /** Swapping two neighbours that do not compare in order leaves every
      class unchanged. */
  lemma SwapNeighbours(leq: (Book, Book) -> bool, x: Book, y: Book, t: seq<Book>, z: Book)
    requires TotalPreorder(leq)
    requires !leq(x, y)
    ensures EquivalenceClass(leq, [y] + ([x] + t), z) == EquivalenceClass(leq, [x] + ([y] + t), z)
  {
    NotBothEquivalent(leq, x, y, z);
    EquivalenceClassCons(leq, y, [x] + t, z);
    EquivalenceClassCons(leq, x, t, z);
    EquivalenceClassCons(leq, x, [y] + t, z);
    EquivalenceClassCons(leq, y, t, z);
  }

  /** Insertion does not reorder equal-comparing books: `x` enters its class
      at the front, exactly where it stood in `[x] + ys`. */
  lemma {:induction false} InsertStable(leq: (Book, Book) -> bool, x: Book, ys: seq<Book>, z: Book)
    requires TotalPreorder(leq)
    ensures EquivalenceClass(leq, Insert(leq, x, ys), z) == EquivalenceClass(leq, [x] + ys, z)
    decreases |ys|
  {
    if |ys| > 0 && !leq(x, ys[0]) {
      var y, t := ys[0], ys[1..];
      assert ys == [y] + t;
      calc {
        EquivalenceClass(leq, Insert(leq, x, ys), z);
        EquivalenceClass(leq, [y] + Insert(leq, x, t), z);
        { EquivalenceClassCons(leq, y, Insert(leq, x, t), z);
          InsertStable(leq, x, t, z);
          EquivalenceClassCons(leq, y, [x] + t, z); }
        EquivalenceClass(leq, [y] + ([x] + t), z);
        { SwapNeighbours(leq, x, y, t, z); }
        EquivalenceClass(leq, [x] + ([y] + t), z);
      }
    }
  }

  /** Sorts `s` by `leq`, leaving `s` itself alone: the result is a sorted,
      stable permutation of `s`. */
  function InsertionSort(leq: (Book, Book) -> bool, s: seq<Book>): (r: seq<Book>)
    requires TotalPreorder(leq)
    ensures |r| == |s|
    ensures multiset(r) == multiset(s)
    ensures Sorted(leq, r)
    ensures Stable(leq, s, r)
    decreases |s|
  {
    if |s| == 0 then []
    else
      var tail := InsertionSort(leq, s[1..]);
      assert s == [s[0]] + s[1..];
      InsertSorted(leq, s[0], tail);
      assert Stable(leq, s, Insert(leq, s[0], tail)) by {
        forall z ensures EquivalenceClass(leq, Insert(leq, s[0], tail), z) == EquivalenceClass(leq, s, z) {
          InsertStable(leq, s[0], tail, z);
          EquivalenceClassCons(leq, s[0], tail, z);
          EquivalenceClassCons(leq, s[0], s[1..], z);
        }
      }
      Insert(leq, s[0], tail)
  }

  /** A sorted sequence is determined by its equivalence classes: two sorted
      sequences that agree on every class are equal. */
  lemma {:induction false} SortedByClassesUnique(leq: (Book, Book) -> bool, r1: seq<Book>, r2: seq<Book>)
    requires TotalPreorder(leq)
    requires Sorted(leq, r1) && Sorted(leq, r2)
    requires forall x :: EquivalenceClass(leq, r1, x) == EquivalenceClass(leq, r2, x)
    ensures r1 == r2
    decreases |r1|
  {
    if |r1| > 0 {
      assert leq(r1[0], r1[0]);
      ClassMembers(leq, r1, r1[0]);
      ClassMembers(leq, r2, r1[0]);
      assert r1[0] in r2;
    }
    if |r2| > 0 {
      assert leq(r2[0], r2[0]);
      ClassMembers(leq, r2, r2[0]);
      ClassMembers(leq, r1, r2[0]);
      assert r2[0] in r1;
    }
    if |r1| > 0 && |r2| > 0 {
      var a, b := r1[0], r2[0];
      assert a in r2 && b in r1;
      assert leq(a, b) && leq(b, a);
      assert r1 == [a] + r1[1..] && r2 == [b] + r2[1..];
      EquivalenceClassCons(leq, a, r1[1..], a);
      EquivalenceClassCons(leq, b, r2[1..], a);
      assert a == EquivalenceClass(leq, r1, a)[0] == EquivalenceClass(leq, r2, a)[0] == b;
      forall x ensures EquivalenceClass(leq, r1[1..], x) == EquivalenceClass(leq, r2[1..], x) {
        EquivalenceClassCons(leq, a, r1[1..], x);
        EquivalenceClassCons(leq, b, r2[1..], x);
        var head := if Equivalent(leq, a, x) then [a] else [];
        assert EquivalenceClass(leq, r1, x) == head + EquivalenceClass(leq, r1[1..], x);
        assert EquivalenceClass(leq, r2, x) == head + EquivalenceClass(leq, r2[1..], x);
        assert EquivalenceClass(leq, r1[1..], x) == EquivalenceClass(leq, r1, x)[|head|..];
      }
      SortedByClassesUnique(leq, r1[1..], r2[1..]);
      assert r1 == [a] + r1[1..] == [b] + r2[1..] == r2;
    }
  }

  /** The insertion sort is the one and only stable sort: a sequence meets the
      stable-sort specification exactly when it is the insertion sort's
      result. */
  lemma StableSortCharacterisation(leq: (Book, Book) -> bool, s: seq<Book>, r: seq<Book>)
    requires TotalPreorder(leq)
    ensures IsStableSortOf(leq, s, r) <==> r == InsertionSort(leq, s)
  {
    var sorted := InsertionSort(leq, s);
    if IsStableSortOf(leq, s, r) {
      SortedByClassesUnique(leq, r, sorted);
    }
  }
}
