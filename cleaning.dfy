/** The one-time cleaning pass over the accumulated book table
    (`BookRecommender.clean_data`): numeric coercion of the year, removal of
    unrated rows, keep-first de-duplication on (title, authors), and a
    descending sort on (rating, ratings_count). */
module Cleaning {
  import opened Wrappers
  import opened Text
  import opened Sequences
  import opened Books

  // ---------------------------------------------------------------------------
  // Coercion of published_year
  // ---------------------------------------------------------------------------

  /** `pd.to_numeric(..., errors='coerce')` on one row's year cell: a numeral
      becomes its number, any other text becomes null, a number stays as it is.
      The other cells of the row are untouched. */
  function Coerce(b: Book): (r: Book)
    ensures r.publishedYear.YearNumber?
    ensures r == b.(publishedYear := r.publishedYear)
    ensures b.publishedYear.YearText? ==>
              (r.publishedYear.number.Some? <==> IsNumeral(b.publishedYear.text))
    ensures b.publishedYear.YearNumber? ==> r == b
  {
    match b.publishedYear
    case YearText(t) => b.(publishedYear := YearNumber(ParseNumeral(t)))
    case YearNumber(_) => b
  }

  function CoerceAll(rows: seq<Book>): seq<Book> {
    seq(|rows|, i requires 0 <= i < |rows| => Coerce(rows[i]))
  }

  /** The year cell of an extracted record, once coerced, is the year that
      opens the item's publication date, and null when the date is missing. */
  lemma CoercedYear(item: Item, genre: string, year: nat, rest: string)
    requires HasRating(item)
    requires Info(item).publishedDate == Some(Numeral(year) + rest)
    requires 1000 <= year <= 9999
    ensures Coerce(ExtractBook(item, genre).value).publishedYear == YearNumber(Some(year))
  {
    NumeralOfYear(year);
    var date := Numeral(year) + rest;
    assert date[..4] == Numeral(year);
    ParseNumeral_Numeral(year);
  }

  lemma CoercedMissingYear(item: Item, genre: string)
    requires HasRating(item)
    requires Info(item).publishedDate.None?
    ensures Coerce(ExtractBook(item, genre).value).publishedYear == YearNumber(None)
  {
  }

  method CoercePublishedYears(rows: seq<Book>) returns (out: seq<Book>)
    ensures out == CoerceAll(rows)
  {
    out := [];
    var i := 0;
    while i < |rows|
      invariant 0 <= i <= |rows|
      invariant out == CoerceAll(rows[..i])
    {
      out := out + [Coerce(rows[i])];
      i := i + 1;
    }
    assert rows[..i] == rows;
  }

  // ---------------------------------------------------------------------------
  // Removal of unrated rows
  // ---------------------------------------------------------------------------

  predicate IsRated(b: Book) {
    b.rating > 0.0
  }

  predicate IsCounted(b: Book) {
    b.ratingsCount > 0
  }

  /** `df[df['rating'] > 0]` followed by `df[df['ratings_count'] > 0]`. */
  function KeepRated(rows: seq<Book>): (r: seq<Book>)
    ensures forall b :: b in r <==> b in rows && IsRated(b) && IsCounted(b)
  {
    Filter(Filter(rows, IsRated), IsCounted)
  }

  /** One boolean mask applied to the table: the rows it keeps, in order. */
  method KeepRows(rows: seq<Book>, keep: Book -> bool) returns (out: seq<Book>)
    ensures out == Filter(rows, keep)
  {
    out := [];
    var i := 0;
    while i < |rows|
      invariant 0 <= i <= |rows|
      invariant out == Filter(rows[..i], keep)
    {
      assert rows[..i + 1][..i] == rows[..i];
      if keep(rows[i]) {
        out := out + [rows[i]];
      }
      i := i + 1;
    }
    assert rows[..i] == rows;
  }

  // ---------------------------------------------------------------------------
  // De-duplication on (title, authors), keeping the first occurrence
  // ---------------------------------------------------------------------------

  function Key(b: Book): (string, string) {
    (b.title, b.authors)
  }

  function KeySet(rows: seq<Book>): set<(string, string)> {
    set b | b in rows :: Key(b)
  }

  predicate NoDuplicateKeys(rows: seq<Book>) {
    forall i, j :: 0 <= i < j < |rows| ==> Key(rows[i]) != Key(rows[j])
  }

  /** The position of the first row whose (title, authors) is `k`. */
  function FirstIndexOfKey(rows: seq<Book>, k: (string, string)): (i: nat)
    requires k in KeySet(rows)
    ensures i < |rows| && Key(rows[i]) == k
    ensures forall j :: 0 <= j < i ==> Key(rows[j]) != k
  {
    var n := |rows| - 1;
    assert rows == rows[..n] + [rows[n]];
    if k in KeySet(rows[..n]) then FirstIndexOfKey(rows[..n], k) else n
  }

  /** `drop_duplicates(subset=['title', 'authors'])` with pandas' default `keep='first'`. */
  function Dedup(rows: seq<Book>): seq<Book> {
    if rows == [] then []
    else
      var n := |rows| - 1;
      var front := Dedup(rows[..n]);
      if Key(rows[n]) in KeySet(front) then front else front + [rows[n]]
  }

  /** De-duplication keeps every key, keeps each key once, and what it keeps
      for a key is the first row that carried it. */
  lemma {:induction false} DedupKeepsFirstOccurrences(rows: seq<Book>)
    ensures var d := Dedup(rows);
            && KeySet(d) == KeySet(rows)
            && NoDuplicateKeys(d)
            && forall b :: b in d ==> Key(b) in KeySet(rows) && b == rows[FirstIndexOfKey(rows, Key(b))]
  {
    if rows != [] {
      var n := |rows| - 1;
      var front := rows[..n];
      assert rows == front + [rows[n]];
      DedupKeepsFirstOccurrences(front);
      var d := Dedup(rows);
      var k := Key(rows[n]);
      assert KeySet(rows) == KeySet(front) + {k};
      forall b | b in d
        ensures Key(b) in KeySet(rows) && b == rows[FirstIndexOfKey(rows, Key(b))]
      {
        if b in Dedup(front) {
          FirstIndexAfterAppend(front, rows[n], Key(b));
        } else {
          assert b == rows[n] && k !in KeySet(front);
        }
      }
    }
  }

  /** A table without repeated keys is its own de-duplication. */
  lemma {:induction false} DedupOfUniqueKeys(rows: seq<Book>)
    requires NoDuplicateKeys(rows)
    ensures Dedup(rows) == rows
  {
    if rows != [] {
      var n := |rows| - 1;
      var front := rows[..n];
      assert NoDuplicateKeys(front) by {
        forall i, j | 0 <= i < j < n
          ensures Key(front[i]) != Key(front[j])
        {
          assert front[i] == rows[i] && front[j] == rows[j];
        }
      }
      DedupOfUniqueKeys(front);
      assert Key(rows[n]) !in KeySet(front) by {
        forall x | x in front
          ensures Key(x) != Key(rows[n])
        {
          var k :| 0 <= k < n && front[k] == x;
          assert front[k] == rows[k];
        }
      }
      assert rows == front + [rows[n]];
    }
  }

  lemma FirstIndexAfterAppend(front: seq<Book>, last: Book, k: (string, string))
    requires k in KeySet(front)
    ensures k in KeySet(front + [last])
    ensures FirstIndexOfKey(front + [last], k) == FirstIndexOfKey(front, k)
  {
  }

  /** The loop behind `drop_duplicates`: one pass with the set of keys seen so far. */
  method DropDuplicates(rows: seq<Book>) returns (out: seq<Book>)
    ensures out == Dedup(rows)
  {
    out := [];
    var seen: set<(string, string)> := {};
    var i := 0;
    while i < |rows|
      invariant 0 <= i <= |rows|
      invariant out == Dedup(rows[..i])
      invariant seen == KeySet(out)
    {
      assert rows[..i + 1][..i] == rows[..i];
      if Key(rows[i]) !in seen {
        out := out + [rows[i]];
        seen := seen + {Key(rows[i])};
      }
      i := i + 1;
    }
    assert rows[..i] == rows;
  }

  // ---------------------------------------------------------------------------
  // Sorting by (rating, ratings_count), both descending
  // ---------------------------------------------------------------------------

  /** `a` may stand before `b` in the sorted table. */
  predicate RanksAtLeast(a: Book, b: Book) {
    a.rating > b.rating || (a.rating == b.rating && a.ratingsCount >= b.ratingsCount)
  }

  predicate SortedByRating(rows: seq<Book>) {
    forall i, j :: 0 <= i < j < |rows| ==> RanksAtLeast(rows[i], rows[j])
  }

  /** Puts `b` into an already sorted table. */
  function InsertByRating(rows: seq<Book>, b: Book): (r: seq<Book>)
    requires SortedByRating(rows)
    ensures SortedByRating(r)
    ensures multiset(r) == multiset(rows) + multiset{b}
  {
    if rows == [] then [b]
    else if RanksAtLeast(b, rows[0]) then
      SortedCons(b, rows);
      [b] + rows
    else
      var rest := InsertByRating(rows[1..], b);
      assert rows == [rows[0]] + rows[1..];
      assert forall x :: x in rest ==> x in multiset(rows[1..]) + multiset{b};
      SortedCons(rows[0], rest);
      [rows[0]] + rest
  }

  /** A row that ranks at least as high as every row of a sorted table may head it. */
  lemma SortedCons(x: Book, rows: seq<Book>)
    requires SortedByRating(rows)
    requires forall y :: y in rows ==> RanksAtLeast(x, y)
    ensures SortedByRating([x] + rows)
  {
  }

  /** `sort_values(['rating', 'ratings_count'], ascending=[False, False])`.
      Rows with equal keys may end up in any order. */
  method SortByRating(rows: seq<Book>) returns (out: seq<Book>)
    ensures SortedByRating(out)
    ensures multiset(out) == multiset(rows)
  {
    out := [];
    var i := 0;
    while i < |rows|
      invariant 0 <= i <= |rows|
      invariant SortedByRating(out)
      invariant multiset(out) == multiset(rows[..i])
    {
      assert rows[..i + 1] == rows[..i] + [rows[i]];
      out := InsertByRating(out, rows[i]);
      i := i + 1;
    }
    assert rows[..i] == rows;
  }

  // ---------------------------------------------------------------------------
  // The whole pass
  // ---------------------------------------------------------------------------

  /** The rows that survive coercion, filtering and de-duplication, before sorting. */
  function Survivors(raw: seq<Book>): seq<Book> {
    Dedup(KeepRated(CoerceAll(raw)))
  }

  /** `cleaned` is what `clean_data` may leave behind for the table `raw`:
      the survivors, in some order sorted by rating. */
  predicate IsCleanedFrom(cleaned: seq<Book>, raw: seq<Book>) {
    SortedByRating(cleaned) && multiset(cleaned) == multiset(Survivors(raw))
  }

  /** Every cleaned row is rated, counted and has a numeric-or-null year. */
  lemma CleanedRowsAreRated(cleaned: seq<Book>, raw: seq<Book>)
    requires IsCleanedFrom(cleaned, raw)
    ensures forall b :: b in cleaned ==> IsRated(b) && IsCounted(b) && b.publishedYear.YearNumber?
  {
    var f := KeepRated(CoerceAll(raw));
    DedupKeepsFirstOccurrences(f);
    forall b | b in cleaned
      ensures IsRated(b) && IsCounted(b) && b.publishedYear.YearNumber?
    {
      assert b in multiset(Survivors(raw));
      assert b in f;
      assert b in CoerceAll(raw);
    }
  }

  /** No two cleaned rows share a (title, authors) pair. */
  lemma CleanedKeysAreUnique(cleaned: seq<Book>, raw: seq<Book>)
    requires IsCleanedFrom(cleaned, raw)
    ensures NoDuplicateKeys(cleaned)
  {
    DedupKeepsFirstOccurrences(KeepRated(CoerceAll(raw)));
    PermutationKeepsKeysUnique(Survivors(raw), cleaned);
  }

  /** The cleaned rows carry exactly the keys of the rated rows, and the row
      kept for a key is the first rated row with that key. */
  lemma CleanedKeepsFirstOccurrences(cleaned: seq<Book>, raw: seq<Book>)
    requires IsCleanedFrom(cleaned, raw)
    ensures var f := KeepRated(CoerceAll(raw));
            && KeySet(cleaned) == KeySet(f)
            && forall b :: b in cleaned ==> Key(b) in KeySet(f) && b == f[FirstIndexOfKey(f, Key(b))]
  {
    var f := KeepRated(CoerceAll(raw));
    var d := Survivors(raw);
    DedupKeepsFirstOccurrences(f);
    assert forall b :: b in cleaned <==> b in d by {
      forall b ensures b in cleaned <==> b in d {
        assert b in cleaned <==> b in multiset(cleaned);
        assert b in d <==> b in multiset(d);
      }
    }
    assert KeySet(cleaned) == KeySet(d);
  }

  /** A rated, counted row whose key no other row shares reaches the cleaned
      table, coerced; a non-numeric year only turns its year to null. */
  lemma RatedRowSurvives(cleaned: seq<Book>, raw: seq<Book>, i: nat)
    requires IsCleanedFrom(cleaned, raw)
    requires i < |raw| && IsRated(raw[i]) && IsCounted(raw[i])
    requires forall j :: 0 <= j < |raw| && j != i ==> Key(raw[j]) != Key(raw[i])
    ensures Coerce(raw[i]) in cleaned
    ensures raw[i].publishedYear.YearText? && !IsNumeral(raw[i].publishedYear.text) ==>
              Coerce(raw[i]).publishedYear == YearNumber(None)
  {
    var c := CoerceAll(raw);
    var f := KeepRated(c);
    assert c[i] == Coerce(raw[i]) && Key(c[i]) == Key(raw[i]);
    assert c[i] in f;
    CleanedKeepsFirstOccurrences(cleaned, raw);
    var k := Key(raw[i]);
    assert k in KeySet(cleaned);
    var b :| b in cleaned && Key(b) == k;
    var x := f[FirstIndexOfKey(f, k)];
    assert x in c;
    var j :| 0 <= j < |c| && c[j] == x;
    assert Key(raw[j]) == Key(x) == k;
    assert j == i;
    assert b == x;
  }

  /** Sorting does not depend on where duplicates were: a reordering of a table
      without repeated keys has none either. */
  lemma PermutationKeepsKeysUnique(a: seq<Book>, b: seq<Book>)
    requires multiset(a) == multiset(b)
    requires NoDuplicateKeys(a)
    ensures NoDuplicateKeys(b)
  {
    forall i, j | 0 <= i < j < |b|
      ensures Key(b[i]) != Key(b[j])
    {
      if b[i] == b[j] {
        RepeatedElementCountsTwice(b, i, j);
        UniqueKeysCountOnce(a, b[i]);
        assert false;
      } else {
        assert b[i] in multiset(a) && b[j] in multiset(a);
        var i' :| 0 <= i' < |a| && a[i'] == b[i];
        var j' :| 0 <= j' < |a| && a[j'] == b[j];
        assert i' != j';
      }
    }
  }

  lemma RepeatedElementCountsTwice(s: seq<Book>, i: nat, j: nat)
    requires i < j < |s| && s[i] == s[j]
    ensures multiset(s)[s[i]] >= 2
  {
    assert s == s[..j] + [s[j]] + s[j + 1..];
    assert s[..j][i] == s[i];
    assert multiset(s[..j])[s[i]] >= 1;
  }

  lemma {:induction false} UniqueKeysCountOnce(s: seq<Book>, x: Book)
    requires NoDuplicateKeys(s)
    ensures multiset(s)[x] <= 1
  {
    if s != [] {
      var n := |s| - 1;
      assert s == s[..n] + [s[n]];
      UniqueKeysCountOnce(s[..n], x);
      if x == s[n] {
        assert forall k :: 0 <= k < n ==> Key(s[..n][k]) != Key(x);
      }
    }
  }
}
