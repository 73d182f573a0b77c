/** The genre view the recommender draws from (`get_random_recommendation`, minus the draw). */
module Sampling {
  import opened Wrappers
  import opened Text
  import opened Sequences
  import opened Books

  /** The argument asks for a genre: Python's `genre` is truthy. */
  predicate IsGiven(genre: Option<string>) {
    genre.Some? && genre.value != ""
  }

  /** The rows a recommendation is drawn from: the whole table when no genre is
      given, otherwise the rows whose genre equals it up to ASCII letter case. */
  function Candidates(books: seq<Book>, genre: Option<string>): (r: seq<Book>)
    ensures !IsGiven(genre) ==> r == books
    ensures IsGiven(genre) ==>
              forall b :: b in r <==> b in books && LowerAscii(b.genre) == LowerAscii(genre.value)
    ensures IsGiven(genre) ==>
              (r == [] <==> forall b :: b in books ==> LowerAscii(b.genre) != LowerAscii(genre.value))
  {
    if !IsGiven(genre) then books
    else
      var wanted := LowerAscii(genre.value);
      var keep := (b: Book) => LowerAscii(b.genre) == wanted;
      FilterIsEmpty(books, keep);
      Filter(books, keep)
  }
}
