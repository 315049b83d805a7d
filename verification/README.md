# BookShelf model

A Dafny model of the `BookShelf` class of the "books to read" sample, an
in-memory catalogue of book records. The shelf keeps its books in insertion
order and offers:

- `add(Book...)`, which appends the given books;
- `books()`, which returns a read-only view of the stored order;
- `arrange()` and `arrange(Comparator)`, which sort without side effects;
- `groupBy(Function)` and `groupByPublicationYear()`, which partition the
  books by a key.

Modules, one per file:

- `Sequences` (`sequences.dfy`): order-preserving `Filter`, `Flatten` and
  `Reverse` on sequences, with their algebra.
- `BookRecord` (`books.dfy`): the `Book` record, reduced to title, author and
  publication year. Its natural order is lexicographic by title. The file
  proves the string order reflexive, total, antisymmetric and transitive;
  `Ordering.NaturalOrderIsTotalPreorder` lifts these laws to the comparator
  contract.
- `Ordering` (`ordering.dfy`): a comparator is the relation `leq(a, b)`,
  meaning `compare(a, b) <= 0`, subject to the comparator contract
  (`TotalPreorder`).
  - `reversed()` swaps the arguments.
  - Sorting is a functional insertion sort. It is proved sorted, a
    permutation, and stable, where "stable" means every class of
    equal-comparing books keeps its order.
  - The insertion sort is also proved to be the only result meeting that
    specification.
- `Grouping` (`grouping.dfy`): the `groupingBy` collector, written as the
  fold it performs (for each book, `computeIfAbsent(key).add(book)`).
  - It is proved equal to a per-key reference: the order-preserving filter
    of the books on that key.
  - Its keys are proved to be the image of the key function.
  - Its bucket sizes are proved to sum to the number of books.
- `BookShelf` (`bookshelf.dfy`): the shelf as a value, `Shelf(books)`, with
  one pure function per public method. The class `ShelfObject` gives the same
  operations (`books()`, `add`, `arrange()`, `arrange(cmp)`, `groupBy` and
  `groupByPublicationYear()`) a mutable `books` field.
- `ShelfScenarios` (`scenarios.dfy`): the documented usage scenarios, stated
  for any books with the relevant features. `ScenarioBooks` checks that the
  four sample books have those features, and `SampleBooksScenarios` states
  the scenarios' results for those four books.

Design choices:

- `books()` returning `Collections.unmodifiableList(books)` is modelled by
  returning the stored `seq`. A Dafny sequence is an immutable value, so the
  caller cannot change the shelf through it.
- `arrange` takes a `Shelf` and returns a sequence, so the stored order
  cannot change. `ShelfObject.ArrangeBy` and `ShelfObject.Arrange` have no
  `modifies` clause.
- The stream's stable sort is modelled by an insertion sort. Any stable sort
  gives the same result, by `Ordering.StableSortCharacterisation`.

## Model

| member | source | states |
|---|---|---|
| BookShelf.Empty | src/main/java/bookstoread/BookShelf.java:17 | A new shelf holds no books. |
| ShelfScenarios.EmptyShelfScenario | src/test/java/bookstored/BookShelfSpec.java:62-75 | `books()` of a new shelf is empty, and stays empty after `add()` with no arguments. |
| BookShelf.ShelfObject.constructor | src/main/java/bookstoread/BookShelf.java:17 | `new BookShelf()` starts with an empty list of books. |
| BookShelf.Add | src/main/java/bookstoread/BookShelf.java:27-29 | Adding the books one at a time leaves the shelf holding the old books followed by the arguments, in argument order. |
| BookShelf.AddNothing | src/main/java/bookstoread/BookShelf.java:27-29 | `add()` with no arguments leaves the shelf unchanged. |
| BookShelf.AddTwice | src/main/java/bookstoread/BookShelf.java:27-29 | Two `add` calls in a row equal one call with the concatenated arguments. |
| BookShelf.BooksAfterAdds | src/main/java/bookstoread/BookShelf.java:17-29 | After any series of `add` calls on a new shelf, `books()` lists every added book, call after call and in argument order. Its size is the total number of books added. |
| ShelfScenarios.TwoBooksScenario | src/test/java/bookstored/BookShelfSpec.java:82-87 | Adding two books to a new shelf gives two books. |
| BookShelf.ShelfObject.Add | src/main/java/bookstoread/BookShelf.java:27-29 | The loop appends each argument in turn, so the field ends as the old books followed by the arguments. |
| BookShelf.Books | src/main/java/bookstoread/BookShelf.java:23-25 | `books()` on the shelf value is its stored books in insertion order; the scenarios state their results through it. |
| BookShelf.ShelfObject.Books | src/main/java/bookstoread/BookShelf.java:23-25 | `books()` returns exactly the stored books in stored order, as they stand at the call. |
| Ordering.NaturalOrderIsTotalPreorder | src/main/java/bookstoread/BookShelf.java:31-33 | The natural order (titles compared lexicographically) is total and transitive, so it meets the comparator contract. |
| BookRecord.TitleLeq | src/main/java/bookstoread/BookShelf.java:32 | The natural order of books: `a` may precede `b` when `a`'s title is lexicographically no greater than `b`'s. |
| BookRecord.TitleEquivalence | src/main/java/bookstoread/BookShelf.java:31-33 | Two books compare equal in the natural order exactly when their titles are equal. |
| Ordering.ReversedTotalPreorder | src/test/java/bookstored/BookShelfSpec.java:132 | A reversed comparator still meets the comparator contract and has the same equal-comparing pairs. |
| Ordering.InsertSorted | src/main/java/bookstoread/BookShelf.java:36 | Inserting into a sorted sequence keeps it sorted. |
| Ordering.InsertStable | src/main/java/bookstoread/BookShelf.java:36 | Insertion places a book in front of every book that compares equal to it and follows it, so no class of equal books changes order. |
| Ordering.InsertionSort | src/main/java/bookstoread/BookShelf.java:36 | The sort returns a sequence of the same length, a permutation of the input, sorted by the comparator, and stable. |
| Ordering.SortedByClassesUnique | src/main/java/bookstoread/BookShelf.java:36 | Two sorted sequences with the same classes of equal-comparing books are equal. |
| Ordering.StableSortCharacterisation | src/main/java/bookstoread/BookShelf.java:36 | A sequence is a sorted, stable permutation of the input if and only if it is the insertion sort's result. |
| BookShelf.ArrangeBy | src/main/java/bookstoread/BookShelf.java:35-37 | `arrange(cmp)` returns a permutation of the shelf's books, sorted by `cmp`, with every class of equal-comparing books in insertion order. The shelf is a value and is left as it was. |
| BookShelf.ShelfObject.ArrangeBy | src/main/java/bookstoread/BookShelf.java:35-37 | On the mutable shelf, `arrange(cmp)` returns a stable sort of the stored books and carries no `modifies` clause. |
| BookShelf.Arrange | src/main/java/bookstoread/BookShelf.java:31-33 | `arrange()` returns a permutation of the shelf's books in ascending title order, and books that share a title keep their insertion order. |
| BookShelf.ShelfObject.Arrange | src/main/java/bookstoread/BookShelf.java:31-33 | On the mutable shelf, `arrange()` returns a permutation of the stored books in ascending title order, with books that share a title in insertion order. |
| BookShelf.TitleClass | src/main/java/bookstoread/BookShelf.java:31-33 | Under the natural order, the books equal to `x` are exactly the books with `x`'s title. |
| BookShelf.ArrangeReversedIsReverse | src/test/java/bookstored/BookShelfSpec.java:130-139 | When no two different books share a title, `arrange(naturalOrder().reversed())` is the natural arrangement read backwards. |
| BookShelf.SharedTitleKeepsOrder | src/test/java/bookstored/BookShelfSpec.java:130-139 | Without that condition the claim fails: two different books with one title stay in insertion order under both comparators. |
| BookShelf.ReverseSortedDescending | src/test/java/bookstored/BookShelfSpec.java:139 | The ascending arrangement read backwards is sorted by the reversed comparator. |
| ShelfScenarios.ArrangeByTitleScenario | src/test/java/bookstored/BookShelfSpec.java:110-126 | Three books added out of title order are arranged by title, while `books()` keeps insertion order. |
| ShelfScenarios.ArrangeReversedScenario | src/test/java/bookstored/BookShelfSpec.java:129-140 | The same three books arranged by the reversed natural order come out in descending title order. |
| Grouping.Accumulate | src/main/java/bookstoread/BookShelf.java:46 | One collector step appends the book to its key's list, creating the list if absent, and leaves every other key alone. |
| Grouping.GroupBy | src/main/java/bookstoread/BookShelf.java:43-47 | The collector's fold yields a map whose keys are exactly the keys of the books. Each bucket is the order-preserving filter of the books on its key. |
| Grouping.GroupByKeys | src/main/java/bookstoread/BookShelf.java:43-47 | The key set equals the set of the key function's values over the books. |
| Grouping.BucketMembers | src/main/java/bookstoread/BookShelf.java:43-47 | A bucket holds exactly the books with that key. |
| Grouping.GroupSizesSum | src/main/java/bookstoread/BookShelf.java:43-47 | Summing the bucket sizes over a duplicate-free list of the keys gives the number of books on the shelf. |
| BookShelf.GroupBy | src/main/java/bookstoread/BookShelf.java:43-47 | `groupBy(f)` on a shelf: keys are the images of its books under `f`, and each bucket is the in-order filter of the shelf on that key. |
| BookShelf.ShelfObject.GroupBy | src/main/java/bookstoread/BookShelf.java:43-47 | On the mutable shelf, `groupBy(f)` has exactly the stored books' keys, and each bucket is the in-order filter of the stored books on its key; no `modifies` clause. |
| BookShelf.ShelfObject.GroupByPublicationYear | src/main/java/bookstoread/BookShelf.java:39-41 | On the mutable shelf, the year buckets are the in-order filters of the stored books on each year, and every book in a bucket is stored and from that year. |
| BookRecord.PublicationYear | src/main/java/bookstoread/BookShelf.java:40 | The grouping key of `groupByPublicationYear()`: the year of the book's publication date. |
| BookShelf.GroupByPublicationYear | src/main/java/bookstoread/BookShelf.java:39-41 | Grouping by publication year is `groupBy` with the year as key. Every book in a year's bucket is on the shelf and from that year. |
| ShelfScenarios.GroupByYearScenario | src/test/java/bookstored/BookShelfSpec.java:142-161 | Books from 2008, 2004, 1975 and 2008 give exactly three years, and the 2008 bucket holds both books in insertion order. |
| ShelfScenarios.GroupByAuthorScenario | src/test/java/bookstored/BookShelfSpec.java:163-184 | Four books by four authors give one singleton bucket per author. |
| ShelfScenarios.SampleBooksScenarios | src/test/java/bookstored/BookShelfSpec.java:110-184 | For the four sample books: `arrange()` gives Code Complete, Effective Java, The Mythical Man-Month; the reversed order gives them backwards; grouping by year gives 2008 → [Effective Java, Clean Code], 2004 → [Code Complete], 1975 → [The Mythical Man-Month]; grouping by author gives one singleton bucket per author. |

## Left out

- Capacity-bounded construction and its capacity-exceeded error: the tests
  call `new BookShelf(2)`, but BookShelf.java has no such constructor. The
  model follows the code, which has no capacity.
- `findBooksByTitle`: the tests call it, but BookShelf.java has no such
  method.
- `progress()` and the reading start and finish dates: there is no
  implementation, and the assertions are commented out.
- `BookFilter`, `BookPublishedYearFilter` and `CompositeFilter`: the tests
  exercise them, but no implementation of any of them is available, so
  there is nothing to model them against.
- The repeated timing test: it measures wall-clock time, not the shelf.
- `Collections.unmodifiableList` throwing `UnsupportedOperationException`:
  the model returns an immutable sequence, so there is no mutation to
  reject.
- BookShelf.Books: the Java result is a live read-only view of the field,
  so a later `add` shows through it; the model returns the shelf value's
  books, and a later `Add` yields a new shelf without changing them.
- BookShelf.ShelfObject.Books: the Java result is a live read-only view of
  the field, so a later `add` shows through it; the model returns the
  books as they stand at the call, and a later `Add` does not change a
  sequence already returned.
- `HashMap` iteration order of the grouping result: the result is an
  unordered Dafny `map`.
- `LocalDate` and `Year`: the publication date is reduced to its year,
  because that is the only part the shelf reads.
- BookShelf.GroupByPublicationYear: keys are plain `int` years, not
  `java.time.Year` objects.
- Book identity: Java compares books by reference. The model compares them
  structurally, so two distinct books with identical fields are one value.
- BookShelf.Arrange: `String.compareTo` compares UTF-16 code units, while
  the model compares Dafny characters (code points). The two orders differ
  only on characters outside the Basic Multilingual Plane.
- Comparators that break the comparator contract (where the JDK sort may
  throw) are excluded by the `TotalPreorder` precondition.
- Caller-supplied comparators and key functions are pure, total Dafny
  functions. In Java they may throw, and the exception leaves `arrange` or
  `groupBy`; they may also have side effects, which the model does not
  see, including the collector calling the key function exactly once per
  book in encounter order.
- `null` books, `null` keys and `null` comparators: a `null` key makes
  `groupingBy` throw, and the model has no `null`.
- ShelfScenarios.GroupByYearScenario and ShelfScenarios.GroupByAuthorScenario:
  stated for any four books with the tested years or authors, not only the
  four sample books. `ScenarioBooks` checks that the sample books qualify.
