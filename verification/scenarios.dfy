/** The shelf's documented scenarios, stated for any books with the
    relevant features of the four books the scenarios use, and checked
    against those four books. */
module ShelfScenarios {
  import opened BookRecord
  import opened Sequences
  import opened Ordering
  import Grouping
  import opened BookShelf

  const EffectiveJava := Book("Effective Java", "Joshua Bloch", 2008)
  const CodeComplete := Book("Code Complete", "Steve McConnel", 2004)
  const MythicalManMonth := Book("The Mythical Man-Month", "Frederick Phillips Brooks", 1975)
  const CleanCode := Book("Clean Code", "Robert C. Martin", 2008)

  /** `a` comes strictly before `b` in the natural order. */
  predicate TitleBefore(a: Book, b: Book) {
    TitleLeq(a, b) && !TitleLeq(b, a)
  }

  /** The four books have the features the scenarios below rely on. */
  lemma ScenarioBooks()
    ensures TitleBefore(CodeComplete, EffectiveJava)
    ensures TitleBefore(EffectiveJava, MythicalManMonth)
    ensures EffectiveJava.year == 2008 && CodeComplete.year == 2004
    ensures MythicalManMonth.year == 1975 && CleanCode.year == 2008
  {
  }

  /** A new shelf is empty, and stays empty after `add()` with no books. */
  lemma EmptyShelfScenario()
    ensures Books(Empty()) == []
    ensures Books(Add(Empty(), [])) == []
  {
  }

  /** Two books added give a shelf of two books. */
  lemma TwoBooksScenario(a: Book, b: Book)
    ensures |Books(Add(Empty(), [a, b]))| == 2
  {
  }

  /** `arrange()` on three books added out of title order returns them in
      title order, while `books()` keeps insertion order. */
  lemma ArrangeByTitleScenario(first: Book, second: Book, third: Book)
    requires TitleBefore(second, first) && TitleBefore(first, third)
    ensures Arrange(Add(Empty(), [first, second, third])) == [second, first, third]
    ensures Books(Add(Empty(), [first, second, third])) == [first, second, third]
  {
    SortThree(first, second, third);
  }

  /** The insertion sort of three books, one insertion at a time. */
  lemma SortThree(first: Book, second: Book, third: Book)
    requires TitleBefore(second, first) && TitleBefore(first, third)
    ensures TotalPreorder(TitleLeq)
    ensures InsertionSort(TitleLeq, [first, second, third]) == [second, first, third]
  {
    NaturalOrderIsTotalPreorder();
    var s := [first, second, third];
    assert s[1..] == [second, third] && s[1..][1..] == [third];
    calc {
      InsertionSort(TitleLeq, s);
      Insert(TitleLeq, first, InsertionSort(TitleLeq, [second, third]));
      { SortTwoEquivalent(TitleLeq, second, third); }
      Insert(TitleLeq, first, [second, third]);
      { InsertPastOne(first, second, [third]); }
      [second, first, third];
    }
  }

  /** Inserting `x` behind a head it may not precede but before the rest. */
  lemma InsertPastOne(x: Book, y: Book, t: seq<Book>)
    requires |t| > 0 && !TitleLeq(x, y) && TitleLeq(x, t[0])
    ensures Insert(TitleLeq, x, [y] + t) == [y, x] + t
  {
    assert ([y] + t)[1..] == t;
  }

  /** `arrange(naturalOrder().reversed())` on the same three books returns
      them in descending title order. */
  lemma ArrangeReversedScenario(first: Book, second: Book, third: Book)
    requires TitleBefore(second, first) && TitleBefore(first, third)
    ensures TotalPreorder(Reversed(TitleLeq))
    ensures ArrangeBy(Add(Empty(), [first, second, third]), Reversed(TitleLeq)) == [third, first, second]
  {
    var shelf := Add(Empty(), [first, second, third]);
    ArrangeByTitleScenario(first, second, third);
    ThreeTitlesIdentify(first, second, third, shelf.books);
    ArrangeReversedIsReverse(shelf);
    ReverseOfThree(second, first, third);
  }

  /** Three books with three different titles. */
  lemma ThreeTitlesIdentify(first: Book, second: Book, third: Book, s: seq<Book>)
    requires TitleBefore(second, first) && TitleBefore(first, third)
    requires s == [first, second, third]
    ensures TitlesIdentify(s)
  {
    TitleEquivalence(first, second);
    TitleEquivalence(first, third);
    TitleEquivalence(second, third);
  }

  lemma ReverseOfThree(a: Book, b: Book, c: Book)
    ensures Reverse([a, b, c]) == [c, b, a]
  {
    var r := Reverse([a, b, c]);
    assert r[0] == c && r[1] == b && r[2] == a;
  }

  /** The keys present in a grouping of four books whose keys are
      `ka`, `kb`, `kc` and `kd`. */
  lemma KeysOfFour<K>(s: seq<Book>, key: Book -> K, groups: map<K, seq<Book>>, ka: K, kb: K, kc: K, kd: K)
    requires |s| == 4 && key(s[0]) == ka && key(s[1]) == kb && key(s[2]) == kc && key(s[3]) == kd
    requires forall k :: k in groups <==> exists i :: 0 <= i < |s| && key(s[i]) == k
    ensures groups.Keys == {ka, kb, kc, kd}
  {
    forall k | k in groups ensures k in {ka, kb, kc, kd} {
      var i :| 0 <= i < |s| && key(s[i]) == k;
      assert i == 0 || i == 1 || i == 2 || i == 3;
    }
    assert ka in groups && kb in groups && kc in groups && kd in groups;
  }

  /** The bucket of key `k` among four books, book by book. */
  lemma BucketOfFour<K(!new)>(a: Book, b: Book, c: Book, d: Book, key: Book -> K, k: K)
    ensures Grouping.Bucket([a, b, c, d], key, k)
      == (if key(a) == k then [a] else []) + (if key(b) == k then [b] else [])
       + (if key(c) == k then [c] else []) + (if key(d) == k then [d] else [])
  {
    Grouping.BucketCons(d, [], key, k);
    Grouping.BucketCons(c, [d], key, k);
    Grouping.BucketCons(b, [c, d], key, k);
    Grouping.BucketCons(a, [b, c, d], key, k);
    assert [c] + [d] == [c, d] && [b] + [c, d] == [b, c, d] && [a] + [b, c, d] == [a, b, c, d];
  }

  /** The groups of four books from 2008, 2004, 1975 and 2008, for any
      grouping with the characterisation `groupBy` promises. */
  lemma YearGroupsOfFour(a: Book, b: Book, c: Book, d: Book, s: seq<Book>, groups: map<int, seq<Book>>)
    requires a.year == 2008 && b.year == 2004 && c.year == 1975 && d.year == 2008
    requires s == [a, b, c, d]
    requires forall y :: y in groups <==> exists i :: 0 <= i < |s| && PublicationYear(s[i]) == y
    requires forall y :: y in groups ==> groups[y] == Grouping.Bucket(s, PublicationYear, y)
    ensures groups.Keys == {2008, 2004, 1975}
    ensures groups[2008] == [a, d] && groups[2004] == [b] && groups[1975] == [c]
  {
    forall y | y in groups ensures y in {2008, 2004, 1975} {
      var i :| 0 <= i < |s| && PublicationYear(s[i]) == y;
      assert i == 0 || i == 1 || i == 2 || i == 3;
    }
    assert PublicationYear(s[0]) == 2008 && PublicationYear(s[1]) == 2004 && PublicationYear(s[2]) == 1975;
    BucketOfFour(a, b, c, d, PublicationYear, 2008);
    BucketOfFour(a, b, c, d, PublicationYear, 2004);
    BucketOfFour(a, b, c, d, PublicationYear, 1975);
  }

  /** Grouping four books from 2008, 2004, 1975 and 2008 by publication year
      gives exactly those three years, with both 2008 books in insertion
      order. */
  lemma GroupByYearScenario(a: Book, b: Book, c: Book, d: Book)
    requires a.year == 2008 && b.year == 2004 && c.year == 1975 && d.year == 2008
    ensures var groups := GroupByPublicationYear(Add(Empty(), [a, b, c, d]));
      && groups.Keys == {2008, 2004, 1975}
      && groups[2008] == [a, d] && groups[2004] == [b] && groups[1975] == [c]
  {
    var s := [a, b, c, d];
    var shelf := Add(Empty(), s);
    assert shelf.books == s;
    YearGroupsOfFour(a, b, c, d, s, GroupByPublicationYear(shelf));
  }

  /** The groups of four books by four different authors, for any grouping
      with the characterisation `groupBy` promises. */
  lemma AuthorGroupsOfFour(a: Book, b: Book, c: Book, d: Book, s: seq<Book>, groups: map<string, seq<Book>>)
    requires a.author != b.author && a.author != c.author && a.author != d.author
    requires b.author != c.author && b.author != d.author && c.author != d.author
    requires s == [a, b, c, d]
    requires forall k :: k in groups <==> exists i :: 0 <= i < |s| && Author(s[i]) == k
    requires forall k :: k in groups ==> groups[k] == Grouping.Bucket(s, Author, k)
    ensures groups.Keys == {a.author, b.author, c.author, d.author}
    ensures groups[a.author] == [a] && groups[b.author] == [b]
    ensures groups[c.author] == [c] && groups[d.author] == [d]
  {
    KeysOfFour(s, Author, groups, a.author, b.author, c.author, d.author);
    BucketOfFour(a, b, c, d, Author, a.author);
    BucketOfFour(a, b, c, d, Author, b.author);
    BucketOfFour(a, b, c, d, Author, c.author);
    BucketOfFour(a, b, c, d, Author, d.author);
  }

  /** Grouping four books by four different authors gives one singleton
      group per author. */
  lemma GroupByAuthorScenario(a: Book, b: Book, c: Book, d: Book)
    requires a.author != b.author && a.author != c.author && a.author != d.author
    requires b.author != c.author && b.author != d.author && c.author != d.author
    ensures var groups := GroupBy(Add(Empty(), [a, b, c, d]), Author);
      && groups.Keys == {a.author, b.author, c.author, d.author}
      && groups[a.author] == [a] && groups[b.author] == [b]
      && groups[c.author] == [c] && groups[d.author] == [d]
  {
    var s := [a, b, c, d];
    var shelf := Add(Empty(), s);
    assert shelf.books == s;
    AuthorGroupsOfFour(a, b, c, d, s, GroupBy(shelf, Author));
  }

  /** The scenarios above for the four sample books: the shelf arranges them
      by title and by reversed title, and groups them by year and by
      author. */
  lemma SampleBooksScenarios()
    ensures Arrange(Add(Empty(), [EffectiveJava, CodeComplete, MythicalManMonth]))
         == [CodeComplete, EffectiveJava, MythicalManMonth]
    ensures TotalPreorder(Reversed(TitleLeq))
    ensures ArrangeBy(Add(Empty(), [EffectiveJava, CodeComplete, MythicalManMonth]), Reversed(TitleLeq))
         == [MythicalManMonth, EffectiveJava, CodeComplete]
    ensures var groups := GroupByPublicationYear(Add(Empty(), [EffectiveJava, CodeComplete, MythicalManMonth, CleanCode]));
      && groups.Keys == {2008, 2004, 1975}
      && groups[2008] == [EffectiveJava, CleanCode]
      && groups[2004] == [CodeComplete]
      && groups[1975] == [MythicalManMonth]
    ensures var groups := GroupBy(Add(Empty(), [EffectiveJava, CodeComplete, MythicalManMonth, CleanCode]), Author);
      && groups.Keys == {"Joshua Bloch", "Steve McConnel", "Frederick Phillips Brooks", "Robert C. Martin"}
      && groups["Joshua Bloch"] == [EffectiveJava]
      && groups["Steve McConnel"] == [CodeComplete]
      && groups["Frederick Phillips Brooks"] == [MythicalManMonth]
      && groups["Robert C. Martin"] == [CleanCode]
  {
    ScenarioBooks();
    ArrangeByTitleScenario(EffectiveJava, CodeComplete, MythicalManMonth);
    ArrangeReversedScenario(EffectiveJava, CodeComplete, MythicalManMonth);
    GroupByYearScenario(EffectiveJava, CodeComplete, MythicalManMonth, CleanCode);
    GroupByAuthorScenario(EffectiveJava, CodeComplete, MythicalManMonth, CleanCode);
  }
}
