/** The client's book store (`useBookStore`): the list of books the library shows and the
    book being read. Each action is a pure transition from one state to the next. A book
    is the client's `Book` record; its chapters are carried along and never looked at. */
module BookStore {
  import opened Wrappers
  import opened Domain

  /** The client's `Book`: server identity, metadata and chapters. */
  datatype WebBook = WebBook(
    id: int,
    title: string,
    author: string,
    languageId: string,
    coverImagePath: Option<string>,
    chapters: seq<Chapter>)

  /** The store's state: the books, and the current book (`null` as `None`). */
  datatype BookState = BookState(books: seq<WebBook>, currentBook: Option<WebBook>)

  /** The state the store starts in. */
  function Initial(): (r: BookState)
    ensures r.books == [] && r.currentBook.None?
  {
    BookState([], None)
  }

  /** `setBooks`: replaces the books and nothing else. */
  function SetBooks(s: BookState, books: seq<WebBook>): (r: BookState)
    ensures r.books == books && r.currentBook == s.currentBook
  {
    s.(books := books)
  }

  /** `setCurrentBook`: replaces the current book and nothing else. */
  function SetCurrentBook(s: BookState, book: Option<WebBook>): (r: BookState)
    ensures r.currentBook == book && r.books == s.books
  {
    s.(currentBook := book)
  }

  /** The two setters touch different fields, so their order does not matter, and the
      last call of either wins. */
  lemma SettersCommute(s: BookState, books: seq<WebBook>, book: Option<WebBook>)
    ensures SetCurrentBook(SetBooks(s, books), book) == SetBooks(SetCurrentBook(s, book), books)
    ensures SetBooks(SetCurrentBook(s, book), books) == BookState(books, book)
  {
  }

  /** `addBook`: appends the book at the end; the books before it and the current book
      stay as they were. */
  function AddBook(s: BookState, book: WebBook): (r: BookState)
    ensures |r.books| == |s.books| + 1
    ensures r.books[..|s.books|] == s.books && r.books[|s.books|] == book
    ensures r.currentBook == s.currentBook
  {
    s.(books := s.books + [book])
  }

  /** `books.filter(book => book.id !== id)`: the books whose id is not `id`. */
  function Without(books: seq<WebBook>, id: int): (r: seq<WebBook>)
    ensures |r| <= |books|
    ensures forall b :: b in r <==> b in books && b.id != id
  {
    if books == [] then []
    else if books[0].id != id then [books[0]] + Without(books[1..], id)
    else Without(books[1..], id)
  }

  /** `removeBook`: drops every book with that id, and clears the current book exactly when
      it has that id. */
  function RemoveBook(s: BookState, id: int): (r: BookState)
    ensures forall i | 0 <= i < |r.books| :: r.books[i].id != id
    ensures forall b :: b in r.books <==> b in s.books && b.id != id
    ensures r.currentBook.None? <==> s.currentBook.None? || s.currentBook.value.id == id
    ensures r.currentBook.Some? ==> r.currentBook == s.currentBook
  {
    BookState(
      Without(s.books, id),
      if s.currentBook.Some? && s.currentBook.value.id == id then None else s.currentBook)
  }

  /** The filter works piece by piece: filtering a concatenation concatenates the filtered
      pieces. */
  lemma {:induction false} WithoutAppend(a: seq<WebBook>, b: seq<WebBook>, id: int)
    ensures Without(a + b, id) == Without(a, id) + Without(b, id)
    decreases |a|
  {
    if a == [] {
      assert a + b == b;
    } else {
      assert (a + b)[1..] == a[1..] + b;
      WithoutAppend(a[1..], b, id);
    }
  }

  /** Every other book is kept in its original place relative to the rest: a book with a
      different id sits between what is left of the books before it and what is left of
      the books after it. */
  lemma RemoveBookKeepsOrder(s: BookState, id: int, before: seq<WebBook>, x: WebBook, after: seq<WebBook>)
    requires s.books == before + [x] + after && x.id != id
    ensures RemoveBook(s, id).books == Without(before, id) + [x] + Without(after, id)
  {
    WithoutAppend(before + [x], after, id);
    WithoutAppend(before, [x], id);
    assert Without([x], id) == [x] by {
      assert [x][1..] == [];
    }
  }

  /** Filtering out an id that no book has keeps the list as it is. */
  lemma {:induction false} WithoutAbsent(books: seq<WebBook>, id: int)
    requires forall i | 0 <= i < |books| :: books[i].id != id
    ensures Without(books, id) == books
    decreases |books|
  {
    if books != [] {
      WithoutAbsent(books[1..], id);
      assert books == [books[0]] + books[1..];
    }
  }

  /** Removing an id that no book has leaves the books unchanged. */
  lemma RemoveAbsentBook(s: BookState, id: int)
    requires forall i | 0 <= i < |s.books| :: s.books[i].id != id
    ensures RemoveBook(s, id).books == s.books
  {
    WithoutAbsent(s.books, id);
  }

  /** Removing the same id twice is removing it once. */
  lemma RemoveBookIdempotent(s: BookState, id: int)
    ensures RemoveBook(RemoveBook(s, id), id) == RemoveBook(s, id)
  {
    RemoveAbsentBook(RemoveBook(s, id), id);
  }

  /** Removing a book just added, whose id no other book has, gives back the books as they
      were. */
  lemma RemoveUndoesAdd(s: BookState, book: WebBook)
    requires forall i | 0 <= i < |s.books| :: s.books[i].id != book.id
    ensures RemoveBook(AddBook(s, book), book.id).books == s.books
  {
    WithoutAppend(s.books, [book], book.id);
    WithoutAbsent(s.books, book.id);
    assert Without([book], book.id) == [] by {
      assert [book][1..] == [];
    }
  }
}
