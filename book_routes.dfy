/** The pure parts of the catalog handlers: the record an edit produces
    and the search filter. */
module BookRoutes {
  import opened Results
  import opened Text
  import opened BookModel

  /** The quantity read from a book form: the submitted number, or 1
      when the field is absent. */
  function FormQuantity(field: Option<int>): (q: int)
    ensures field.None? ==> q == 1
    ensures field.Some? ==> q == field.value
  {
    if field.Some? then field.value else 1
  }

  /** The record after the edit form: the new descriptive fields and
      quantity, with the shelf counter moved by the same difference as the
      quantity (and not clamped). */
  function EditedBook(b: Book, info: BookInfo, newQuantity: int): (r: Book)
    ensures r.info == info && r.quantity == newQuantity && r.dateAdded == b.dateAdded
    ensures r.quantity - r.availableQuantity == b.quantity - b.availableQuantity
  {
    var quantityDiff := newQuantity - b.quantity;
    b.(info := info, quantity := newQuantity, availableQuantity := b.availableQuantity + quantityDiff)
  }

  /** The edit keeps the shelf counter non-negative only when the new
      quantity covers the copies out on loan: one copy lent out and the
      quantity edited down to 0 leaves -1 copies on the shelf. */
  lemma EditCanMakeShelfNegative(info: BookInfo)
    ensures EditedBook(Book(info, 1, 0, 0), info, 0).availableQuantity == -1
  {
  }

  lemma {:induction false} EditKeepsShelfWithinQuantity(b: Book, info: BookInfo, newQuantity: int)
    requires b.availableQuantity <= b.quantity
    requires newQuantity >= b.quantity - b.availableQuantity
    ensures 0 <= EditedBook(b, info, newQuantity).availableQuantity <= newQuantity
  {
  }

  /** The text filter: the query occurs, ignoring ASCII case, in the
      title, the author or the ISBN. */
  predicate MatchesQuery(b: Book, query: string)
  {
    ContainsIgnoringCase(b.info.title, query) ||
    ContainsIgnoringCase(b.info.author, query) ||
    ContainsIgnoringCase(b.info.isbn, query)
  }

  /** The ids of the books the search page lists: an empty query or an
      empty category leaves that filter out; both filters must hold. */
  function SearchBooks(books: map<nat, Book>, query: string, category: string): (r: set<nat>)
    ensures forall id :: id in r <==>
      id in books &&
      (query != [] ==>
         IsSubstring(Lower(query), Lower(books[id].info.title)) ||
         IsSubstring(Lower(query), Lower(books[id].info.author)) ||
         IsSubstring(Lower(query), Lower(books[id].info.isbn))) &&
      (category != [] ==> books[id].info.category == category)
  {
    set id | id in books &&
             (query == [] || MatchesQuery(books[id], query)) &&
             (category == [] || books[id].info.category == category)
  }

  lemma SearchWithoutFiltersListsAll(books: map<nat, Book>)
    ensures SearchBooks(books, [], []) == books.Keys
  {
  }
}
