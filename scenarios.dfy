/** A worked example: three fetched rows, the order cleaning must give them,
    and which of them each genre may recommend. */
module Scenarios {
  import opened Wrappers
  import opened Text
  import opened Sequences
  import opened Books
  import opened Cleaning
  import opened Sampling

  const A := Book("A", "Author A", "fantasy", YearText(UNKNOWN), 4.5, 10)
  const B := Book("B", "Author B", "fantasy", YearText(UNKNOWN), 4.5, 50)
  const C := Book("C", "Author C", "drama", YearText(UNKNOWN), 3.0, 5)

  /** None of the three rows is dropped: all are rated and their keys differ. */
  lemma ExampleSurvivors()
    ensures Survivors([A, B, C]) == [Coerce(A), Coerce(B), Coerce(C)]
  {
    var abc := [Coerce(A), Coerce(B), Coerce(C)];
    assert CoerceAll([A, B, C]) == abc;
    FilterKeepsAll(abc, IsRated);
    FilterKeepsAll(abc, IsCounted);
    assert KeepRated(CoerceAll([A, B, C])) == abc;
    DedupOfUniqueKeys(abc);
  }

  /** Equal ratings fall back to the ratings count: B, then A, then C. */
  lemma CleanedOrder(cleaned: seq<Book>)
    requires IsCleanedFrom(cleaned, [A, B, C])
    ensures cleaned == [Coerce(B), Coerce(A), Coerce(C)]
  {
    ExampleSurvivors();
    var a, b, c := Coerce(A), Coerce(B), Coerce(C);
    assert !RanksAtLeast(a, b) && !RanksAtLeast(c, b) && !RanksAtLeast(c, a);
    assert multiset(cleaned) == multiset{b, a, c};
    SortedThree(cleaned, b, a, c);
  }

  /** Three rows that strictly outrank one another have one sorted order. */
  lemma SortedThree(s: seq<Book>, x: Book, y: Book, z: Book)
    requires SortedByRating(s) && multiset(s) == multiset{x, y, z}
    requires !RanksAtLeast(y, x) && !RanksAtLeast(z, x) && !RanksAtLeast(z, y)
    ensures s == [x, y, z]
  {
  }

  /** "fantasy" may recommend A or B and never C; "horror" matches nothing,
      so the recommendation fails. */
  lemma GenreSamples(cleaned: seq<Book>)
    requires cleaned == [Coerce(B), Coerce(A), Coerce(C)]
    ensures forall x :: x in Candidates(cleaned, Some("Fantasy")) <==> x == Coerce(A) || x == Coerce(B)
    ensures Candidates(cleaned, Some("horror")) == []
  {
  }
}
