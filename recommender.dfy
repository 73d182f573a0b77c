/** The `BookRecommender` object: one book table that fetches grow, one
    cleaning pass reshapes, and recommendations read. */
module Recommender {
  import opened Wrappers
  import opened Books
  import opened Cleaning
  import opened Sampling

  /** The exceptions the recommender raises. */
  datatype Error =
    | MissingColumn(column: string)         // pandas' KeyError on a table without columns
    | NoRatedBooks(genre: Option<string>)   // "No rated books found for genre"

  class BookRecommender {
    /** `books_df`, one entry per row. */
    var books: seq<Book>
    /** Whether `books_df` has its columns yet: a fresh `pd.DataFrame()` has none
        until the first non-empty concat. */
    var hasColumns: bool

    ghost predicate Valid()
      reads this
    {
      !hasColumns ==> books == []
    }

    constructor ()
      ensures Valid() && books == [] && !hasColumns
    {
      books := [];
      hasColumns := false;
    }

    /** `fetch_books_data(genre)` on the search results `items`: the records of
        the rated items are appended after the existing rows, in item order. */
    method FetchBooksData(genre: string, items: seq<Item>)
      requires Valid()
      modifies this
      ensures Valid()
      ensures books == old(books) + ExtractAll(items, genre)
      ensures hasColumns == (old(hasColumns) || ExtractAll(items, genre) != [])
    {
      var booksData: seq<Book> := [];
      var i := 0;
      while i < |items|
        invariant 0 <= i <= |items|
        invariant booksData == ExtractAll(items[..i], genre)
      {
        assert items[..i + 1][..i] == items[..i];
        var book := ExtractBook(items[i], genre);
        if book.Some? {
          booksData := booksData + [book.value];
        }
        i := i + 1;
      }
      assert items[..i] == items;
      if |booksData| > 0 {
        books := books + booksData;
        hasColumns := true;
      }
    }

    /** `clean_data()`: fails with a KeyError on a table that never received a
        row, and otherwise replaces the table by its cleaned form. */
    method CleanData() returns (outcome: Outcome<Error>)
      requires Valid()
      modifies this
      ensures Valid() && hasColumns == old(hasColumns)
      ensures !hasColumns ==> outcome == Fail(MissingColumn("rating")) && books == old(books)
      ensures hasColumns ==> outcome == Pass && IsCleanedFrom(books, old(books))
    {
      if !hasColumns {
        return Fail(MissingColumn("rating"));
      }
      ghost var raw := books;
      books := CoercePublishedYears(books);
      books := KeepRows(books, IsRated);
      books := KeepRows(books, IsCounted);
      books := DropDuplicates(books);
      books := SortByRating(books);
      outcome := Pass;
      assert IsCleanedFrom(books, raw);
    }

    /** `get_random_recommendation(genre)`: some row of the genre's candidates,
        chosen freely; the table is not changed. */
    method GetRandomRecommendation(genre: Option<string>) returns (r: Result<Book, Error>)
      requires Valid()
      ensures IsGiven(genre) && !hasColumns ==> r == Failure(MissingColumn("genre"))
      ensures !hasColumns ==> r.Failure?
      ensures (hasColumns || !IsGiven(genre)) ==>
                && (r.Failure? <==> Candidates(books, genre) == [])
                && (r.Failure? ==> r.error == NoRatedBooks(genre))
                && (r.Success? ==> r.value in Candidates(books, genre))
    {
      if IsGiven(genre) && !hasColumns {
        return Failure(MissingColumn("genre"));
      }
      var candidates := Candidates(books, genre);
      if |candidates| == 0 {
        return Failure(NoRatedBooks(genre));
      }
      var k :| 0 <= k < |candidates|;
      r := Success(candidates[k]);
    }
  }
}
