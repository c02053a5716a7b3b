/** The book queries of the API (api/routes/books.py) as list functions over
    the loaded books: lookup by id, search by title and category, the best
    rated books and the price-range filter. */
module BooksRoutes {
  import opened Text
  import opened Models
  import opened Collections

  // --------------------------------------------------------------- lookup

  /** get_book: the first book with the id, None for the 404 answer. */
  function GetBook(books: seq<Book>, id: int): (r: Option<Book>)
    ensures r.None? <==> forall i :: 0 <= i < |books| ==> books[i].id != id
    ensures r.Some? ==> r.value in books && r.value.id == id
  {
    if books == [] then None
    else if books[0].id == id then Some(books[0])
    else GetBook(books[1..], id)
  }

  /** The book found is the first one with the id, in list order. */
  lemma {:induction false} GetBookFirst(books: seq<Book>, id: int, i: nat)
    requires i < |books| && books[i].id == id
    requires forall j :: 0 <= j < i ==> books[j].id != id
    ensures GetBook(books, id) == Some(books[i])
  {
    if i > 0 {
      assert books[0].id != id;
      forall j | 0 <= j < i - 1 ensures books[1..][j].id != id {
        assert books[1..][j] == books[j + 1];
      }
      GetBookFirst(books[1..], id, i - 1);
    }
  }

  // --------------------------------------------------------------- search

  /** A query parameter takes part only when it is given and not empty. */
  predicate Given(q: Option<string>) { q.Some? && q.value != "" }

  /** `query.lower() in field.lower()`. */
  predicate Matches(query: string, field: string) { Contains(Lower(query), Lower(field)) }

  function TitleTest(t: string): Book -> bool { (b: Book) => Matches(t, b.title) }

  function CategoryTest(c: string): Book -> bool { (b: Book) => Matches(c, b.category) }

  /** search_books: the title filter, then the category filter, each applied
      only when its query is given. */
  function SearchBooks(books: seq<Book>, title: Option<string>, category: Option<string>): seq<Book>
  {
    var byTitle := if Given(title) then Filter(TitleTest(title.value), books) else books;
    if Given(category) then Filter(CategoryTest(category.value), byTitle) else byTitle
  }

  /** A book matches every query that is given. */
  predicate Wanted(title: Option<string>, category: Option<string>, b: Book)
  {
    && (Given(title) ==> Matches(title.value, b.title))
    && (Given(category) ==> Matches(category.value, b.category))
  }

  function WantedTest(title: Option<string>, category: Option<string>): Book -> bool
  {
    (b: Book) => Wanted(title, category, b)
  }

  /** What a search finds: exactly the books that match every given query,
      each as often as in the list and in list order; with no query, the
      whole list. */
  lemma SearchSpec(books: seq<Book>, title: Option<string>, category: Option<string>)
    ensures var r := SearchBooks(books, title, category);
      && (forall b :: b in r <==> b in books && Wanted(title, category, b))
      && (forall b :: multiset(r)[b] == if Wanted(title, category, b) then multiset(books)[b] else 0)
      && IsSubsequence(r, books)
      && (!Given(title) && !Given(category) ==> r == books)
  {
    SearchIsFilter(books, title, category);
    FilterMembers(WantedTest(title, category), books);
    FilterIsSubsequence(WantedTest(title, category), books);
  }

  /** The two filters in a row are one filter by both queries. */
  lemma SearchIsFilter(books: seq<Book>, title: Option<string>, category: Option<string>)
    ensures SearchBooks(books, title, category) == Filter(WantedTest(title, category), books)
  {
    var w := WantedTest(title, category);
    if Given(title) && Given(category) {
      var p, q := TitleTest(title.value), CategoryTest(category.value);
      FilterTwice(p, q, books);
      FilterSameTest(Both(p, q), w, books);
    } else if Given(title) {
      FilterSameTest(TitleTest(title.value), w, books);
    } else if Given(category) {
      FilterSameTest(CategoryTest(category.value), w, books);
    } else {
      FilterKeepsAll(w, books);
    }
  }

  /** The case of a query does not matter. */
  lemma SearchIgnoresCase(books: seq<Book>, title: string, category: Option<string>)
    ensures SearchBooks(books, Some(Lower(title)), category) == SearchBooks(books, Some(title), category)
  {
    LowerIdempotent(title);
    var lt := Lower(title);
    if title != "" {
      assert lt != "";
      FilterSameTest(TitleTest(lt), TitleTest(title), books);
    } else {
      assert lt == "";
    }
  }

  // ------------------------------------------------------------ top rated

  /** Python's s[:limit]: a negative limit counts from the end. */
  function SliceTo<T>(s: seq<T>, limit: int): (r: seq<T>)
    ensures r <= s
    ensures limit >= 0 ==> |r| == (if limit <= |s| then limit else |s|)
    ensures limit < 0 ==> |r| == (if |s| + limit >= 0 then |s| + limit else 0)
  {
    if limit >= 0 then (if limit <= |s| then s[..limit] else s)
    else if |s| + limit >= 0 then s[..|s| + limit]
    else []
  }

  /** Inserts a book in front of the first one rated no higher. */
  function Insert(x: Book, t: seq<Book>): seq<Book>
  {
    if t == [] || t[0].rating <= x.rating then [x] + t
    else [t[0]] + Insert(x, t[1..])
  }

  /** sorted(books, key=rating, reverse=True): highest rating first, equal
      ratings in list order. */
  function SortByRating(s: seq<Book>): seq<Book>
  {
    if s == [] then [] else Insert(s[0], SortByRating(s[1..]))
  }

  /** top_rated, with the default limit of 10 when none is given. */
  function TopRated(books: seq<Book>, limit: Option<int>): seq<Book>
  {
    SliceTo(SortByRating(books), if limit.Some? then limit.value else 10)
  }

  /** Each book rated no lower than the next. */
  predicate Descending(s: seq<Book>)
  {
    forall i :: 0 <= i < |s| - 1 ==> s[i].rating >= s[i + 1].rating
  }

  /** The books of one rating, in order. */
  function RatedAs(k: int, s: seq<Book>): seq<Book>
  {
    Filter((b: Book) => b.rating == k, s)
  }

  /** In a descending list every book is rated no lower than any later one. */
  lemma {:induction false} DescendingPairs(s: seq<Book>, i: nat, j: nat)
    requires Descending(s) && i <= j < |s|
    ensures s[i].rating >= s[j].rating
    decreases j - i
  {
    if i < j {
      DescendingPairs(s, i + 1, j);
    }
  }

  lemma {:induction false} InsertCount(x: Book, t: seq<Book>)
    ensures multiset(Insert(x, t)) == multiset(t) + multiset{x}
    ensures |Insert(x, t)| == |t| + 1
  {
    if t != [] && t[0].rating > x.rating {
      InsertCount(x, t[1..]);
      assert t == [t[0]] + t[1..];
    }
  }

  lemma {:induction false} InsertDescending(x: Book, t: seq<Book>)
    requires Descending(t)
    ensures Descending(Insert(x, t))
    ensures Insert(x, t)[0] == x || Insert(x, t)[0] == t[0]
  {
    if t != [] && t[0].rating > x.rating {
      var t' := t[1..];
      assert Descending(t') by {
        forall i | 0 <= i < |t'| - 1 ensures t'[i].rating >= t'[i + 1].rating {
          assert t'[i] == t[i + 1] && t'[i + 1] == t[i + 2];
        }
      }
      InsertDescending(x, t');
      InsertCount(x, t');
      var r := Insert(x, t);
      assert r == [t[0]] + Insert(x, t');
      assert t' != [] ==> t[0].rating >= t'[0].rating;
    }
  }

  /** Inserting a book puts it in front of every book of its rating and
      leaves the others of that rating in order. */
  lemma {:induction false} InsertRatedAs(k: int, x: Book, t: seq<Book>)
    ensures RatedAs(k, Insert(x, t)) == (if x.rating == k then [x] else []) + RatedAs(k, t)
  {
    if t == [] || t[0].rating <= x.rating {
    } else {
      InsertRatedAs(k, x, t[1..]);
      var r := Insert(x, t);
      assert r[1..] == Insert(x, t[1..]);
    }
  }

  /** The sort orders by rating, loses and adds nothing, and is stable. */
  lemma {:induction false} SortByRatingSpec(s: seq<Book>)
    ensures var r := SortByRating(s);
      && Descending(r)
      && multiset(r) == multiset(s)
      && |r| == |s|
      && forall k :: RatedAs(k, r) == RatedAs(k, s)
  {
    if s != [] {
      SortByRatingSpec(s[1..]);
      InsertDescending(s[0], SortByRating(s[1..]));
      InsertCount(s[0], SortByRating(s[1..]));
      assert s == [s[0]] + s[1..];
      forall k ensures RatedAs(k, SortByRating(s)) == RatedAs(k, s) {
        InsertRatedAs(k, s[0], SortByRating(s[1..]));
      }
    }
  }

  /** top_rated returns books in non-increasing rating, drawn from the list,
      min(limit, n) of them for a limit >= 0 and n + limit (at least 0) for a
      negative one. */
  lemma TopRatedShape(books: seq<Book>, limit: int)
    ensures var r := TopRated(books, Some(limit));
      && Descending(r)
      && multiset(r) <= multiset(books)
      && (limit >= 0 ==> |r| == (if limit <= |books| then limit else |books|))
      && (limit < 0 ==> |r| == (if |books| + limit >= 0 then |books| + limit else 0))
  {
    var t := SortByRating(books);
    SortByRatingSpec(books);
    var r := TopRated(books, Some(limit));
    assert t == r + t[|r|..];
    assert multiset(t) == multiset(r) + multiset(t[|r|..]);
  }

  /** No book left out is rated above a book returned. */
  lemma TopRatedBest(books: seq<Book>, limit: int, b: Book, i: nat)
    requires b in books && b !in TopRated(books, Some(limit))
    requires i < |TopRated(books, Some(limit))|
    ensures TopRated(books, Some(limit))[i].rating >= b.rating
  {
    var t := SortByRating(books);
    SortByRatingSpec(books);
    var r := TopRated(books, Some(limit));
    assert b in multiset(t);
    var j :| 0 <= j < |t| && t[j] == b;
    assert r[i] == t[i];
    DescendingPairs(t, i, j);
  }

  /** Stability: the books returned of each rating are the first books of
      that rating in the list, in list order. */
  lemma TopRatedStable(books: seq<Book>, limit: int, k: int)
    ensures RatedAs(k, TopRated(books, Some(limit))) <= RatedAs(k, books)
  {
    SortByRatingSpec(books);
    FilterPrefix((b: Book) => b.rating == k, TopRated(books, Some(limit)), SortByRating(books));
  }

  // ---------------------------------------------------------- price range

  /** price_range, with the defaults 0 and 1000 for a bound not given. */
  function PriceRange(books: seq<Book>, min: Option<real>, max: Option<real>): seq<Book>
  {
    var lo := if min.Some? then min.value else 0.0;
    var hi := if max.Some? then max.value else 1000.0;
    Filter((b: Book) => lo <= b.price <= hi, books)
  }

  /** Exactly the books priced within the bounds, each as often as in the
      list, in list order. */
  lemma PriceRangeSpec(books: seq<Book>, lo: real, hi: real)
    ensures var r := PriceRange(books, Some(lo), Some(hi));
      && (forall b :: b in r <==> b in books && lo <= b.price <= hi)
      && (forall b :: multiset(r)[b] == if lo <= b.price <= hi then multiset(books)[b] else 0)
      && IsSubsequence(r, books)
      && |r| <= |books|
  {
    FilterMembers((b: Book) => lo <= b.price <= hi, books);
    FilterIsSubsequence((b: Book) => lo <= b.price <= hi, books);
  }
}
