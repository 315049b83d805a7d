/** The book records the shelf holds, and their natural order. */
module BookRecord {

  /** A book as the shelf sees it: title, author and the year of its
      publication date (the only part of the date the shelf uses). */
  datatype Book = Book(title: string, author: string, year: int)

  /** The key `groupByPublicationYear` groups by. */
  function PublicationYear(b: Book): (r: int) {
    b.year
  }

  /** The key of `groupBy(Book::getAuthor)`. */
  function Author(b: Book): (r: string) {
    b.author
  }

  /** Lexicographic order on strings, character by character, with a proper
      prefix ordered before the longer string. */
  predicate StringLeq(a: string, b: string)
    decreases |a|
  {
    |a| == 0 || (|b| > 0 && (a[0] < b[0] || (a[0] == b[0] && StringLeq(a[1..], b[1..]))))
  }

  /** The natural order of books: ascending by title. */
  predicate TitleLeq(a: Book, b: Book) {
    StringLeq(a.title, b.title)
  }

  lemma {:induction false} StringLeqReflexive(a: string)
    ensures StringLeq(a, a)
    decreases |a|
  {
    if |a| > 0 {
      StringLeqReflexive(a[1..]);
    }
  }

  lemma {:induction false} StringLeqTotal(a: string, b: string)
    ensures StringLeq(a, b) || StringLeq(b, a)
    decreases |a|
  {
    if |a| > 0 && |b| > 0 && a[0] == b[0] {
      StringLeqTotal(a[1..], b[1..]);
    }
  }

  lemma {:induction false} StringLeqAntisymmetric(a: string, b: string)
    requires StringLeq(a, b) && StringLeq(b, a)
    ensures a == b
    decreases |a|
  {
    if |a| > 0 {
      StringLeqAntisymmetric(a[1..], b[1..]);
      assert a == [a[0]] + a[1..];
      assert b == [b[0]] + b[1..];
    }
  }

  lemma {:induction false} StringLeqTransitive(a: string, b: string, c: string)
    requires StringLeq(a, b) && StringLeq(b, c)
    ensures StringLeq(a, c)
    decreases |a|
  {
    if |a| > 0 && a[0] == b[0] && b[0] == c[0] {
      StringLeqTransitive(a[1..], b[1..], c[1..]);
    }
  }

  /** Two books are equivalent in the natural order exactly when their titles
      are equal. */
  lemma TitleEquivalence(a: Book, b: Book)
    ensures TitleLeq(a, b) && TitleLeq(b, a) <==> a.title == b.title
  {
    if a.title == b.title {
      StringLeqReflexive(a.title);
    }
    if TitleLeq(a, b) && TitleLeq(b, a) {
      StringLeqAntisymmetric(a.title, b.title);
    }
  }
}
