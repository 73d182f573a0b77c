# Book recommender: the book-table pipeline in Dafny

This project models the in-memory core of the `BookRecommender` class in
`Project.py`. The class collects book records from a catalogue search, one
genre at a time. It cleans the accumulated table once. It then recommends a
random book, optionally restricted to one genre. The model covers three steps.

- **Record extraction** (`fetch_books_data`). Each search result's `volumeInfo`
  becomes a flat record. A result without a truthy `averageRating` is skipped.
  A missing title or author list becomes "Unknown". Authors are joined with
  ", ". The year is the first four characters of `publishedDate`. Every record
  is tagged with the query genre. The records are appended to the table in
  result order (`Books`, `Recommender.BookRecommender.FetchBooksData`).
- **Cleaning** (`clean_data`). The year cell is coerced to a number or null.
  Rows without a positive rating and a positive ratings count are removed.
  Duplicates on (title, authors) are dropped, keeping the first. The rest is
  sorted by rating, then ratings count, both descending (`Cleaning`,
  `Recommender.BookRecommender.CleanData`).
- **Recommendation** (`get_random_recommendation`). With no genre, or an empty
  one, any row may be drawn. Otherwise only rows whose genre equals the
  argument up to letter case may be drawn. An empty candidate set raises an
  error (`Sampling`, `Recommender.BookRecommender.GetRandomRecommendation`).

The HTTP response is a parameter: `FetchBooksData` takes the response's `items`
list as a `seq<Item>`. The random draw is a free choice among the candidates.
Ratings are exact `real` values and ratings counts are `int`. The pandas table
is a `seq<Book>` field that the methods reassign.

Modules: `Wrappers` (Option, Result, Outcome), `Text` (case folding, author
joining, decimal numerals), `Sequences` (order-preserving filter), `Books`
(the item and record types, extraction), `Cleaning` (the cleaning pass and its
properties), `Sampling` (the genre candidates), `Recommender` (the class) and
`Scenarios` (a worked example with three books).

Three behaviours of the code that are easy to misread:

- An item is skipped when its `averageRating` is missing and also when it is 0
  (`not volume_info.get('averageRating')`, line 30).
- De-duplication runs before the sort and keeps the first occurrence, so the
  survivor of a duplicate key is determined: it is the first rated row with
  that key in table order (`Cleaning.CleanedKeepsFirstOccurrences`).
- A genre query on a table that never received a row fails with pandas'
  missing-column error rather than the "no rated books" error, because the
  `genre` column does not exist yet (line 80). Cleaning such a table fails the
  same way (line 55).

## Model

| member | source | states |
|---|---|---|
| `Text.LowerAscii` | Project.py:80 | The lower-cased text has the same length, holds no upper-case ASCII letter, and differs from the input only where the input had an upper-case letter, which becomes its lower-case partner |
| `Text.SplitJoinAuthors` | Project.py:35 | Joining a non-empty list of comma-free author names with ", " loses nothing: splitting the joined text at ", " gives back the list |
| `Text.ParseNumeral` | Project.py:57 | Numeric coercion of a text cell yields a number exactly when the text is a non-empty run of decimal digits, and null otherwise |
| `Text.ParseNumeral_Numeral` | Project.py:57 | Coercing the decimal numeral of any natural number gives that number back |
| `Sequences.Filter` | Project.py:60-61 | A row mask keeps exactly the rows that pass it and never yields more rows than it was given (order and multiplicity: `Sequences.FilterAppend`) |
| `Sequences.FilterAppend` | Project.py:60-61 | A mask respects table order and repeated rows: the kept rows of a concatenation are the kept rows of the first part followed by those of the second |
| `Sequences.FilterTwice` | Project.py:60-61 | Applying the rating mask and then the count mask selects the same rows as one mask on their conjunction |
| `Books.YearPrefix` | Project.py:37 | The year cell is "Unknown" for a missing or empty date, and otherwise the prefix of the date of length min(4, date length) |
| `Books.ExtractBook` | Project.py:27-40 | An item yields a record exactly when its volume info has a present, non-zero average rating; the record carries the query genre and that rating, and its year cell is text |
| `Books.ExtractedFields` | Project.py:34-39 | The extracted title is the item's title or "Unknown"; the authors are "Unknown" when absent and otherwise the ", " join of the item's list (so "" for an empty list), which splits back into that list when it is non-empty and no name holds a comma; the year is the date prefix; the count defaults to 0 |
| `Books.ExtractAll` | Project.py:25-41 | The rows one fetch builds number at most the items, all carry the query genre and a non-zero rating |
| `Books.ExtractAllAppend` | Project.py:26-41 | The rows built from two runs of items are those of the first run followed by those of the second, so rows follow item order and repeated items give repeated rows |
| `Books.ExtractAllOne` | Project.py:29-41 | A single item contributes exactly its own record when it is rated and nothing otherwise |
| `Books.ExtractAllRecords` | Project.py:26-41 | Every rated item contributes its record, every built row is the record of some item, and no row is built exactly when no item is rated |
| `Cleaning.Coerce` | Project.py:57 | Coercion turns the year cell into a number-or-null, a number exactly when the text is a numeral, leaves a coerced cell alone and changes no other cell |
| `Cleaning.CoercedYear` | Project.py:57 | For a rated item whose date starts with a four-digit year, the extracted and coerced year cell is that year |
| `Cleaning.CoercedMissingYear` | Project.py:37 | For a rated item without a date, the extracted year "Unknown" coerces to null |
| `Cleaning.CoercePublishedYears` | Project.py:57 | The coercion loop yields the coerced form of every row, row by row |
| `Cleaning.KeepRated` | Project.py:60-61 | After the two masks, a row is in the table exactly when it was there before and has rating > 0 and ratings count > 0 |
| `Cleaning.KeepRows` | Project.py:60-61 | The masking loop yields the filter of the table by the mask |
| `Cleaning.FirstIndexOfKey` | Project.py:64 | For a key present in the table, the position returned holds that key and no earlier row holds it |
| `Cleaning.DedupKeepsFirstOccurrences` | Project.py:64 | De-duplication keeps every (title, authors) key, keeps each key once, and the row kept for a key is the first row carrying it |
| `Cleaning.DedupOfUniqueKeys` | Project.py:64 | A table without repeated keys is unchanged by de-duplication |
| `Cleaning.DropDuplicates` | Project.py:64 | The one-pass loop with a set of seen keys computes the keep-first de-duplication |
| `Cleaning.InsertByRating` | Project.py:67-69 | Inserting a row into a table sorted by (rating, ratings count) descending keeps it sorted and adds exactly that row |
| `Cleaning.SortByRating` | Project.py:67-69 | The sort yields a permutation of its input in which every row ranks at least as high as every later row, with no order imposed among ties |
| `Cleaning.CleanedRowsAreRated` | Project.py:59-61 | Every row left by cleaning has rating > 0, ratings count > 0 and a coerced year |
| `Cleaning.CleanedKeysAreUnique` | Project.py:63-64 | No two rows left by cleaning share a (title, authors) pair |
| `Cleaning.CleanedKeepsFirstOccurrences` | Project.py:63-64 | Cleaning keeps exactly the keys of the rated rows, and the row it keeps for a key is the first rated row, in pre-sort order, with that key |
| `Cleaning.RatedRowSurvives` | Project.py:55-61 | A rated, counted row whose key no other row shares reaches the cleaned table; a non-numeric year only nulls its year cell and does not remove it |
| `Cleaning.PermutationKeepsKeysUnique` | Project.py:63-69 | Reordering a table whose keys are unique, as the sort does, keeps them unique |
| `Sampling.Candidates` | Project.py:80 | With no or an empty genre the candidates are the whole table; otherwise a row is a candidate exactly when it is in the table and its lower-cased genre equals the lower-cased argument, and there are none exactly when no row matches |
| `Recommender.BookRecommender.constructor` | Project.py:7-9 | A new recommender has an empty table without columns |
| `Recommender.BookRecommender.FetchBooksData` | Project.py:25-45 | The table becomes the old rows, unchanged and first, followed by the records of the rated items in item order; the columns exist once any row was appended |
| `Recommender.BookRecommender.CleanData` | Project.py:51-73 | On a table without columns it fails with a missing-column error and changes nothing; otherwise the new table is a sorted permutation of the coerced, rated, keep-first de-duplicated rows |
| `Recommender.BookRecommender.GetRandomRecommendation` | Project.py:75-90 | Without changing the table, it always fails on a table without columns: with a missing-column error for a genre query, and with "no rated books" otherwise; in every other case it fails with "no rated books" exactly when the candidates are empty, and otherwise returns one of the candidates |
| `Scenarios.ExampleSurvivors` | Project.py:55-64 | Three rated books with distinct keys all survive coercion, filtering and de-duplication |
| `Scenarios.CleanedOrder` | Project.py:66-69 | Books rated 4.5 with 10 ratings, 4.5 with 50 and 3.0 with 5 can only be cleaned into the order 4.5/50, 4.5/10, 3.0/5 |
| `Scenarios.GenreSamples` | Project.py:80-83 | In that table, "Fantasy" may recommend only the two fantasy books, and "horror" has no candidates, so the recommendation fails |

## Left out

- The HTTP request, `raise_for_status`, JSON decoding and the re-raise of request errors (lines 16-26, 47-49): network I/O. The response's `items` list is a parameter; a response without `items` is the empty sequence.
- `max_results` and `base_url` (lines 10, 12, 17-20): they only shape the request sent to the catalogue.
- The `print` calls in the exception handlers (lines 48, 72, 89): logging only.
- The `main` menu loop, `input`, `print` and `time.sleep` pacing (lines 92-172): user interface and process glue.
- `Recommender.BookRecommender.GetRandomRecommendation`: states that the result is some candidate, not that the draw is uniform; probability cannot be stated here.
- `Text.LowerAscii`: lower-cases ASCII letters only, where Python's `str.lower` also folds non-ASCII letters.
- `Text.ParseNumeral`: recognises non-empty digit strings only; signs, decimal points, exponents and surrounding blanks, which `pd.to_numeric` also accepts, make the cell null in the model.
- `Books.ExtractBook`: a key present with JSON `null` is treated as absent (Python's `get` would return None there, and `join` would raise); values of unexpected JSON types are not modelled.
- Rating and ratings-count coercion (lines 55-56) is the identity in the model, because extraction always produces numbers for those cells.
- pandas dtypes: a coerced year column holding a null is a float column in pandas (2005.0); the model keeps the year as an integer or null.
- `Recommender.BookRecommender.CleanData`: the steps are computed on sequence values and the result is assigned back to the field; `inplace=True` aliasing of the DataFrame is not modelled.
- Other structural errors that `clean_data` could re-raise (line 71) do not arise in a typed model; only the missing-column error is modelled.
