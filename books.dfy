/** Extraction of flat book records from the catalogue's search results
    (`BookRecommender.fetch_books_data`). */
module Books {
  import opened Wrappers
  import opened Text

  /** The `volumeInfo` object of one search result; an absent key is None. */
  datatype VolumeInfo = VolumeInfo(
    title: Option<string>,
    authors: Option<seq<string>>,
    publishedDate: Option<string>,
    averageRating: Option<real>,
    ratingsCount: Option<int>)

  /** One element of the response's `items` list. */
  datatype Item = Item(volumeInfo: Option<VolumeInfo>)

  /** The `published_year` cell: text as extracted, a number or null once cleaned. */
  datatype Year = YearText(text: string) | YearNumber(number: Option<int>)

  /** One row of the book table. */
  datatype Book = Book(
    title: string,
    authors: string,
    genre: string,
    publishedYear: Year,
    rating: real,
    ratingsCount: int)

  const UNKNOWN := "Unknown"

  /** `item.get('volumeInfo', {})`. */
  function Info(item: Item): VolumeInfo {
    item.volumeInfo.GetOr(VolumeInfo(None, None, None, None, None))
  }

  /** `volume_info.get('averageRating')` is truthy: present and non-zero. */
  predicate HasRating(item: Item) {
    Info(item).averageRating.Some? && Info(item).averageRating.value != 0.0
  }

  /** The year cell: the first four characters of a present, non-empty date,
      and "Unknown" otherwise. */
  function YearPrefix(date: Option<string>): (r: string)
    ensures date.None? || date.value == "" ==> r == UNKNOWN
    ensures date.Some? && date.value != "" ==>
              r <= date.value && |r| == if |date.value| < 4 then |date.value| else 4
  {
    if date.None? || date.value == "" then UNKNOWN
    else if |date.value| < 4 then date.value
    else date.value[..4]
  }

  /** The record one search result contributes under `genre`, or None when the
      result is skipped for want of a rating. */
  function ExtractBook(item: Item, genre: string): (r: Option<Book>)
    ensures r.Some? <==> HasRating(item)
    ensures r.Some? ==> && r.value.genre == genre
                        && r.value.rating == Info(item).averageRating.value
                        && r.value.rating != 0.0
                        && r.value.publishedYear.YearText?
  {
    var info := Info(item);
    if !HasRating(item) then None
    else Some(Book(
      info.title.GetOr(UNKNOWN),
      JoinAuthors(info.authors.GetOr([UNKNOWN])),
      genre,
      YearText(YearPrefix(info.publishedDate)),
      info.averageRating.value,
      info.ratingsCount.GetOr(0)))
  }

  /** The rows one fetch appends: the extracted records of the rated items, in item order. */
  function ExtractAll(items: seq<Item>, genre: string): (r: seq<Book>)
    ensures |r| <= |items|
    ensures forall b :: b in r ==> b.genre == genre && b.rating != 0.0
  {
    if items == [] then []
    else
      var n := |items| - 1;
      var front := ExtractAll(items[..n], genre);
      match ExtractBook(items[n], genre)
      case None => front
      case Some(b) => front + [b]
  }

  /** The appended rows are exactly the records of the rated items: every rated
      item contributes one, every row comes from some item, and nothing is
      appended when no item carries a rating. */
  lemma {:induction false} ExtractAllRecords(items: seq<Item>, genre: string)
    ensures var r := ExtractAll(items, genre);
            && (forall i :: 0 <= i < |items| && HasRating(items[i]) ==> ExtractBook(items[i], genre).value in r)
            && (forall b :: b in r ==> exists i :: 0 <= i < |items| && ExtractBook(items[i], genre) == Some(b))
            && (r == [] <==> forall i :: 0 <= i < |items| ==> !HasRating(items[i]))
  {
    if items != [] {
      var n := |items| - 1;
      var front := ExtractAll(items[..n], genre);
      ExtractAllRecords(items[..n], genre);
      var r := ExtractAll(items, genre);
      assert forall b :: b in front ==> b in r;
      forall i | 0 <= i < |items| && HasRating(items[i])
        ensures ExtractBook(items[i], genre).value in r
      {
        if i < n {
          assert items[..n][i] == items[i];
        }
      }
      forall b | b in r
        ensures exists i :: 0 <= i < |items| && ExtractBook(items[i], genre) == Some(b)
      {
        if b in front {
          var i :| 0 <= i < n && ExtractBook(items[..n][i], genre) == Some(b);
          assert items[..n][i] == items[i];
        } else {
          assert ExtractBook(items[n], genre) == Some(b);
        }
      }
      if r == [] {
        forall i | 0 <= i < |items| ensures !HasRating(items[i]) {
          if i < n {
            assert items[..n][i] == items[i];
          }
        }
      }
    }
  }

  /** The rows built from two runs of items are the rows of the first run
      followed by those of the second: one row per rated item, in item order. */
  lemma {:induction false} ExtractAllAppend(xs: seq<Item>, ys: seq<Item>, genre: string)
    ensures ExtractAll(xs + ys, genre) == ExtractAll(xs, genre) + ExtractAll(ys, genre)
  {
    if ys == [] {
      assert xs + ys == xs;
    } else {
      var n := |ys| - 1;
      ExtractAllAppend(xs, ys[..n], genre);
      var zs := xs + ys;
      assert zs[..|zs| - 1] == xs + ys[..n];
      assert zs[|zs| - 1] == ys[n];
    }
  }

  /** Each item contributes its own record, or nothing when it is unrated. */
  lemma ExtractAllOne(item: Item, genre: string)
    ensures ExtractAll([item], genre) == if HasRating(item) then [ExtractBook(item, genre).value] else []
  {
  }

  /** Title, author and year fields of an extracted record, each against the
      item it came from. */
  lemma ExtractedFields(item: Item, genre: string)
    requires HasRating(item)
    ensures var b := ExtractBook(item, genre).value;
            && (Info(item).title.Some? ==> b.title == Info(item).title.value)
            && (Info(item).title.None? ==> b.title == UNKNOWN)
            && (Info(item).authors.None? ==> b.authors == UNKNOWN)
            && (Info(item).authors.Some? ==> b.authors == JoinAuthors(Info(item).authors.value))
            && ((Info(item).authors.Some? && |Info(item).authors.value| >= 1 &&
                 (forall n <- Info(item).authors.value :: ',' !in n))
                ==> SplitAuthors(b.authors) == Info(item).authors.value)
            && b.publishedYear == YearText(YearPrefix(Info(item).publishedDate))
            && b.ratingsCount == Info(item).ratingsCount.GetOr(0)
  {
    var names := Info(item).authors;
    if names.Some? && |names.value| >= 1 && (forall n <- names.value :: ',' !in n) {
      SplitJoinAuthors(names.value);
    }
  }
}
