/** The `byCategory` collection filter of the site generator: the books of a
    category, in collection order. Sequences are values here, so the filter cannot
    modify the collection it is given. */
module Filters {
  import JsBuiltins

  datatype BookData = BookData(category: string, title: string)
  datatype Book = Book(data: BookData)

  function ByCategory(books: seq<Book>, category: string): seq<Book> {
    JsBuiltins.Filter(books, (book: Book) => book.data.category == category)
  }

  /** The result holds exactly the books of the category, each as often as in the
      input, in their input order, and is no longer than the input. */
  lemma ByCategoryCorrect(books: seq<Book>, category: string)
    ensures forall b :: b in ByCategory(books, category) ==> b.data.category == category
    ensures forall b :: b in books && b.data.category == category ==> b in ByCategory(books, category)
    ensures forall b :: multiset(ByCategory(books, category))[b]
                        == if b.data.category == category then multiset(books)[b] else 0
    ensures JsBuiltins.IsSubsequence(ByCategory(books, category), books)
    ensures |ByCategory(books, category)| <= |books|
  {
    JsBuiltins.FilterPreservesOrder(books, (book: Book) => book.data.category == category);
  }

  /** No book of the category, in particular an empty collection, gives an empty result. */
  lemma ByCategoryEmpty(books: seq<Book>, category: string)
    ensures ByCategory(books, category) == [] <==> forall b :: b in books ==> b.data.category != category
    ensures books == [] ==> ByCategory(books, category) == []
  {
  }

  /** The unit test's collection: two design books around a leadership book. */
  lemma ByCategoryExample()
    ensures var b1 := Book(BookData("design", "Book 1"));
            var b2 := Book(BookData("leadership", "Book 2"));
            var b3 := Book(BookData("design", "Book 3"));
            && ByCategory([b1, b2, b3], "design") == [b1, b3]
            && ByCategory([b1, b2], "nonexistent") == []
  {
    var b1 := Book(BookData("design", "Book 1"));
    var b2 := Book(BookData("leadership", "Book 2"));
    var b3 := Book(BookData("design", "Book 3"));
    assert [b1, b2, b3][1..] == [b2, b3];
    assert [b2, b3][1..] == [b3];
    assert [b1, b2][1..] == [b2];
  }
}
