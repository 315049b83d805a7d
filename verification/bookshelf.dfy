/** The shelf: books kept in insertion order, with non-destructive sorting
    and grouping queries over them. */
module BookShelf {
  import opened BookRecord
  import opened Sequences
  import opened Ordering
  import Grouping

  /** A shelf is the sequence of its books in the order they were added. */
  datatype Shelf = Shelf(books: seq<Book>)

  /** A newly constructed shelf. */
  function Empty(): (r: Shelf)
    ensures |r.books| == 0
  {
    Shelf([])
  }

  /** `books()`: the stored sequence. A Dafny sequence is a value, so the
      caller cannot change the shelf through it; unlike the Java read-only
      view, it holds the books present at the time of the call. */
  function Books(shelf: Shelf): (r: seq<Book>) {
    shelf.books
  }

  /** `add(books...)`: appends the arguments one at a time, in argument
      order, to the end of the shelf. */
  function Add(shelf: Shelf, toAdd: seq<Book>): (r: Shelf)
    ensures r.books == shelf.books + toAdd
    decreases |toAdd|
  {
    if |toAdd| == 0 then shelf
    else
      var next := Shelf(shelf.books + [toAdd[0]]);
      assert shelf.books + toAdd == next.books + toAdd[1..];
      Add(next, toAdd[1..])
  }

  /** The shelf after a series of `add` calls, one batch per call. */
  function AddAll(shelf: Shelf, batches: seq<seq<Book>>): (r: Shelf)
    decreases |batches|
  {
    if |batches| == 0 then shelf
    else Add(AddAll(shelf, batches[..|batches| - 1]), batches[|batches| - 1])
  }

  /** `add()` without arguments changes nothing. */
  lemma AddNothing(shelf: Shelf)
    ensures Add(shelf, []) == shelf
  {
  }

  /** Adding in two calls is adding the concatenation in one. */
  lemma AddTwice(shelf: Shelf, a: seq<Book>, b: seq<Book>)
    ensures Add(Add(shelf, a), b) == Add(shelf, a + b)
  {
    assert shelf.books + a + b == shelf.books + (a + b);
  }

  /** After any series of `add` calls on a new shelf, `books()` is every
      added book, batch after batch and in argument order within a batch,
      and its size is the total number added. */
  lemma {:induction false} BooksAfterAdds(batches: seq<seq<Book>>)
    ensures Books(AddAll(Empty(), batches)) == Flatten(batches)
    ensures |Books(AddAll(Empty(), batches))| == TotalLength(batches)
    decreases |batches|
  {
    if |batches| > 0 {
      var init := batches[..|batches| - 1];
      BooksAfterAdds(init);
    }
    FlattenLength(batches);
  }

  /** `arrange(comparator)`: a new sequence holding the shelf's books sorted
      by the comparator, stably; the shelf keeps its insertion order. */
  function ArrangeBy(shelf: Shelf, leq: (Book, Book) -> bool): (r: seq<Book>)
    requires TotalPreorder(leq)
    ensures |r| == |shelf.books|
    ensures multiset(r) == multiset(shelf.books)
    ensures forall i, j :: 0 <= i < j < |r| ==> leq(r[i], r[j])
    ensures forall x :: EquivalenceClass(leq, r, x) == EquivalenceClass(leq, shelf.books, x)
  {
    InsertionSort(leq, shelf.books)
  }

  /** The books of `s` with title `t`, in their order in `s`. */
  function WithTitle(s: seq<Book>, t: string): (r: seq<Book>) {
    Filter(s, (b: Book) => b.title == t)
  }

  /** `arrange()`: the books sorted ascending by title; books with equal
      titles keep their insertion order. */
  function Arrange(shelf: Shelf): (r: seq<Book>)
    ensures multiset(r) == multiset(shelf.books)
    ensures forall i, j :: 0 <= i < j < |r| ==> StringLeq(r[i].title, r[j].title)
    ensures forall t :: WithTitle(r, t) == WithTitle(shelf.books, t)
  {
    NaturalOrderIsTotalPreorder();
    var r := ArrangeBy(shelf, TitleLeq);
    forall t ensures WithTitle(r, t) == WithTitle(shelf.books, t) {
      TitleClass(r, Book(t, "", 0));
      TitleClass(shelf.books, Book(t, "", 0));
    }
    r
  }

  /** In the natural order a book's equivalence class is the books that
      share its title. */
  lemma TitleClass(s: seq<Book>, x: Book)
    ensures EquivalenceClass(TitleLeq, s, x) == WithTitle(s, x.title)
  {
    forall i | 0 <= i < |s|
      ensures Equivalent(TitleLeq, s[i], x) == (s[i].title == x.title)
    {
      TitleEquivalence(s[i], x);
    }
    FilterExtensional(s, (b: Book) => Equivalent(TitleLeq, b, x), (b: Book) => b.title == x.title);
  }

  /** Books that share a title are the same book. */
  predicate TitlesIdentify(s: seq<Book>) {
    forall i, j :: 0 <= i < |s| && 0 <= j < |s| && s[i].title == s[j].title ==> s[i] == s[j]
  }

  /** `arrange(naturalOrder().reversed())` on a shelf where books sharing a
      title are the same book is exactly the natural arrangement read
      backwards. */
  lemma ArrangeReversedIsReverse(shelf: Shelf)
    requires TitlesIdentify(shelf.books)
    ensures TotalPreorder(Reversed(TitleLeq))
    ensures ArrangeBy(shelf, Reversed(TitleLeq)) == Reverse(Arrange(shelf))
  {
    NaturalOrderIsTotalPreorder();
    ReversedTotalPreorder(TitleLeq);
    var asc := Arrange(shelf);
    var r := Reverse(asc);
    ReverseMultiset(asc);
    ReverseSortedDescending(asc);
    forall x ensures EquivalenceClass(Reversed(TitleLeq), r, x) == EquivalenceClass(Reversed(TitleLeq), shelf.books, x) {
      ReversedClassOfArranged(shelf, x);
    }
    StableSortCharacterisation(Reversed(TitleLeq), shelf.books, r);
  }

  /** Without `TitlesIdentify` the reversed arrangement is not the natural
      one read backwards: two different books with one title keep their
      insertion order under both comparators. */
  lemma SharedTitleKeepsOrder(a: Book, b: Book)
    requires a.title == b.title && a != b
    ensures TotalPreorder(Reversed(TitleLeq))
    ensures Arrange(Shelf([a, b])) == [a, b]
    ensures ArrangeBy(Shelf([a, b]), Reversed(TitleLeq)) == [a, b]
    ensures ArrangeBy(Shelf([a, b]), Reversed(TitleLeq)) != Reverse(Arrange(Shelf([a, b])))
  {
    NaturalOrderIsTotalPreorder();
    ReversedTotalPreorder(TitleLeq);
    TitleEquivalence(a, b);
    SortTwoEquivalent(TitleLeq, a, b);
    SortTwoEquivalent(Reversed(TitleLeq), a, b);
    var r := Reverse([a, b]);
    assert r[0] == b;
  }

  /** Two equal-comparing books stay in the order given. */
  lemma SortTwoEquivalent(leq: (Book, Book) -> bool, a: Book, b: Book)
    requires TotalPreorder(leq)
    requires leq(a, b)
    ensures InsertionSort(leq, [a, b]) == [a, b]
  {
    assert [a, b][1..] == [b];
    assert InsertionSort(leq, [b]) == [b];
  }

  /** Read backwards, an ascending arrangement is descending. */
  lemma ReverseSortedDescending(asc: seq<Book>)
    requires Sorted(TitleLeq, asc)
    ensures Sorted(Reversed(TitleLeq), Reverse(asc))
  {
  }

  /** On a shelf where titles identify books, the classes of the reversed
      natural arrangement under the reversed order are those of the shelf. */
  lemma ReversedClassOfArranged(shelf: Shelf, x: Book)
    requires TitlesIdentify(shelf.books)
    ensures EquivalenceClass(Reversed(TitleLeq), Reverse(Arrange(shelf)), x)
         == EquivalenceClass(Reversed(TitleLeq), shelf.books, x)
  {
    var asc := Arrange(shelf);
    ClassUnderReversed(Reverse(asc), x);
    ClassUnderReversed(shelf.books, x);
    FilterReverse(asc, (b: Book) => Equivalent(TitleLeq, b, x));
    TitleClass(asc, x);
    TitleClass(shelf.books, x);
    var c := WithTitle(shelf.books, x.title);
    assert EquivalenceClass(TitleLeq, asc, x) == c;
    FilterMembers(shelf.books, (b: Book) => b.title == x.title);
    forall i, j | 0 <= i < |c| && 0 <= j < |c| ensures c[i] == c[j] {
      assert c[i] in c && c[j] in c;
    }
    ReverseConstant(c);
  }

  /** Reversing a comparator leaves its equivalence classes alone. */
  lemma ClassUnderReversed(s: seq<Book>, x: Book)
    ensures EquivalenceClass(Reversed(TitleLeq), s, x) == EquivalenceClass(TitleLeq, s, x)
  {
    FilterExtensional(s, (b: Book) => Equivalent(Reversed(TitleLeq), b, x), (b: Book) => Equivalent(TitleLeq, b, x));
  }

  /** `groupBy(keyFunction)`: the shelf's books partitioned by key. Its keys
      are exactly the keys of the shelf's books and each bucket holds the
      books with that key in insertion order. */
  function GroupBy<K(==, !new)>(shelf: Shelf, key: Book -> K): (r: map<K, seq<Book>>)
    ensures forall k :: k in r <==> exists i :: 0 <= i < |shelf.books| && key(shelf.books[i]) == k
    ensures forall k :: k in r ==> r[k] == Grouping.Bucket(shelf.books, key, k)
  {
    Grouping.GroupBy(shelf.books, key)
  }

  /** `groupByPublicationYear()`: the books grouped by the year of their
      publication date; each bucket holds exactly the shelf's books of that
      year, in insertion order. */
  function GroupByPublicationYear(shelf: Shelf): (r: map<int, seq<Book>>)
    ensures forall y :: y in r <==> exists i :: 0 <= i < |shelf.books| && shelf.books[i].year == y
    ensures forall y :: y in r ==> r[y] == Grouping.Bucket(shelf.books, PublicationYear, y)
    ensures forall y, b :: y in r && b in r[y] ==> b in shelf.books && b.year == y
  {
    var r := GroupBy(shelf, PublicationYear);
    forall y | y in r {
      Grouping.BucketMembers(shelf.books, PublicationYear, y);
    }
    r
  }

  /** The shelf as a Java object: a mutable list of books behind the same
      operations. Queries carry no `modifies` clause, so they cannot change
      the stored order. */
  class ShelfObject {
    var books: seq<Book>

    /** `new BookShelf()`: an empty shelf. */
    constructor()
      ensures books == []
    {
      books := [];
    }

    /** `books()`: the stored books, in insertion order. */
    method Books() returns (r: seq<Book>)
      ensures r == books
    {
      r := books;
    }

    /** `add(books...)`: each argument is appended in turn. */
    method Add(toAdd: seq<Book>)
      modifies this
      ensures books == old(books) + toAdd
    {
      var i := 0;
      while i < |toAdd|
        invariant 0 <= i <= |toAdd|
        invariant books == old(books) + toAdd[..i]
      {
        books := books + [toAdd[i]];
        i := i + 1;
      }
      assert toAdd[..i] == toAdd;
    }

    /** `arrange(comparator)`: a sorted copy; the shelf is left as it was. */
    method ArrangeBy(leq: (Book, Book) -> bool) returns (r: seq<Book>)
      requires TotalPreorder(leq)
      ensures IsStableSortOf(leq, books, r)
    {
      r := InsertionSort(leq, books);
    }

    /** `arrange()`: a copy sorted by title, books sharing a title in
        insertion order; the shelf is left as it was. */
    method Arrange() returns (r: seq<Book>)
      ensures multiset(r) == multiset(books)
      ensures forall i, j :: 0 <= i < j < |r| ==> StringLeq(r[i].title, r[j].title)
      ensures forall t :: WithTitle(r, t) == WithTitle(books, t)
    {
      NaturalOrderIsTotalPreorder();
      r := ArrangeBy(TitleLeq);
      forall t ensures WithTitle(r, t) == WithTitle(books, t) {
        TitleClass(r, Book(t, "", 0));
        TitleClass(books, Book(t, "", 0));
      }
    }

    /** `groupBy(keyFunction)` on the stored books; the shelf is left as it
        was. */
    method GroupBy<K(==, !new)>(key: Book -> K) returns (r: map<K, seq<Book>>)
      ensures forall k :: k in r <==> exists i :: 0 <= i < |books| && key(books[i]) == k
      ensures forall k :: k in r ==> r[k] == Grouping.Bucket(books, key, k)
    {
      r := Grouping.GroupBy(books, key);
    }

    /** `groupByPublicationYear()` on the stored books; the shelf is left as
        it was. */
    method GroupByPublicationYear() returns (r: map<int, seq<Book>>)
      ensures forall y :: y in r <==> exists i :: 0 <= i < |books| && books[i].year == y
      ensures forall y :: y in r ==> r[y] == Grouping.Bucket(books, PublicationYear, y)
      ensures forall y, b :: y in r && b in r[y] ==> b in books && b.year == y
    {
      r := Grouping.GroupBy(books, PublicationYear);
      forall y | y in r {
        Grouping.BucketMembers(books, PublicationYear, y);
      }
    }
  }
}
