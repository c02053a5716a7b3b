/** The statistics of the API (api/routes/stats.py): the overview with the
    rating histogram, and the per-category counts and average prices, both
    built by updating dictionaries in loops. */
module StatsRoutes {
  import opened Models
  import opened Collections

  /** sum(b.price for b in books). */
  function SumPrices(books: seq<Book>): real
  {
    if books == [] then 0.0 else SumPrices(books[..|books| - 1]) + books[|books| - 1].price
  }

  /** The ratings of the books, in order. */
  function Ratings(books: seq<Book>): (r: seq<int>)
    ensures |r| == |books|
    ensures forall i :: 0 <= i < |books| ==> r[i] == books[i].rating
  {
    if books == [] then [] else Ratings(books[..|books| - 1]) + [books[|books| - 1].rating]
  }

  /** The categories of the books, in order. */
  function CategoryList(books: seq<Book>): (r: seq<string>)
    ensures |r| == |books|
    ensures forall i :: 0 <= i < |books| ==> r[i] == books[i].category
  {
    if books == [] then [] else CategoryList(books[..|books| - 1]) + [books[|books| - 1].category]
  }

  /** stats_overview: the number of books, their average price (0 without
      books) and how many books have each rating. */
  method StatsOverview(books: seq<Book>) returns (total: nat, avgPrice: real, ratingCounts: map<int, nat>)
    ensures total == |books|
    ensures avgPrice == if total == 0 then 0.0 else SumPrices(books) / (total as real)
    ensures ratingCounts == Histogram(Ratings(books))
    ensures forall r :: r in ratingCounts <==> r in Ratings(books)
    ensures forall r :: r in ratingCounts ==> ratingCounts[r] == multiset(Ratings(books))[r] >= 1
    ensures SumValues(ratingCounts) == total
  {
    total := |books|;
    avgPrice := if total != 0 then SumPrices(books) / (total as real) else 0.0;
    ratingCounts := map[];
    for i := 0 to |books|
      invariant ratingCounts == Histogram(Ratings(books[..i]))
    {
      assert books[..i + 1][..i] == books[..i];
      var r := books[i].rating;
      ratingCounts := ratingCounts[r := (if r in ratingCounts then ratingCounts[r] else 0) + 1];
    }
    assert books[..|books|] == books;
    HistogramCounts(Ratings(books));
    HistogramSum(Ratings(books));
  }

  /** A category's entry: in the first loop, the count and the running price
      sum; after the second, the count and the average price. */
  datatype CategoryStats = CategoryStats(count: nat, avgPrice: real)

  /** The dictionary after the first loop of stats_by_category. */
  function Totals(books: seq<Book>): map<string, CategoryStats>
  {
    if books == [] then map[]
    else
      var t := Totals(books[..|books| - 1]);
      var b := books[|books| - 1];
      var e := if b.category in t then t[b.category] else CategoryStats(0, 0.0);
      t[b.category := CategoryStats(e.count + 1, e.avgPrice + b.price)]
  }

  /** The prices of the books of one category, added up. */
  function CategorySum(books: seq<Book>, c: string): real
  {
    if books == [] then 0.0
    else
      var b := books[|books| - 1];
      CategorySum(books[..|books| - 1], c) + (if b.category == c then b.price else 0.0)
  }

  /** The counts of a dictionary of category entries. */
  function Counts(data: map<string, CategoryStats>): map<string, nat>
  {
    map c | c in data :: data[c].count
  }

  /** After the first loop each category present holds its number of books,
      at least 1, and the sum of their prices. */
  lemma {:induction false} TotalsSpec(books: seq<Book>)
    ensures Counts(Totals(books)) == Histogram(CategoryList(books))
    ensures forall c :: c in Totals(books) ==> Totals(books)[c].count >= 1
    ensures forall c :: c in Totals(books) ==> Totals(books)[c].avgPrice == CategorySum(books, c)
    ensures forall c :: c !in Totals(books) ==> CategorySum(books, c) == 0.0
  {
    if books != [] {
      var init := books[..|books| - 1];
      TotalsSpec(init);
      assert CategoryList(books)[..|books| - 1] == CategoryList(init);
    }
  }

  /** One more book adds one to its category's count and its price to the
      category's sum. */
  lemma TotalsNext(books: seq<Book>, i: nat)
    requires i < |books|
    ensures var t := Totals(books[..i]);
      var c := books[i].category;
      var e := if c in t then t[c] else CategoryStats(0, 0.0);
      Totals(books[..i + 1]) == t[c := CategoryStats(e.count + 1, e.avgPrice + books[i].price)]
  {
    assert books[..i + 1][..i] == books[..i];
  }

  /** stats_by_category: count and add up per category, then turn each sum
      into an average. */
  method StatsByCategory(books: seq<Book>) returns (data: map<string, CategoryStats>)
    ensures data.Keys == Totals(books).Keys
    ensures forall c :: c in data ==> data[c].count == Totals(books)[c].count >= 1
    ensures forall c :: c in data ==> data[c].avgPrice == CategorySum(books, c) / (data[c].count as real)
    ensures Counts(data) == Histogram(CategoryList(books))
  {
    data := map[];
    for i := 0 to |books|
      invariant data == Totals(books[..i])
    {
      TotalsNext(books, i);
      var cat := books[i].category;
      var e := if cat in data then data[cat] else CategoryStats(0, 0.0);
      data := data[cat := CategoryStats(e.count + 1, e.avgPrice + books[i].price)];
    }
    assert books[..|books|] == books;
    ghost var totals := data;
    TotalsCounted(books);
    var pending := data.Keys;
    while pending != {}
      invariant pending <= data.Keys == totals.Keys
      invariant forall c :: c in data ==> data[c].count == totals[c].count >= 1
      invariant forall c :: c in pending ==> data[c] == totals[c]
      invariant forall c :: c in data && c !in pending ==>
        data[c].avgPrice == totals[c].avgPrice / (totals[c].count as real)
      decreases |pending|
    {
      var cat :| cat in pending;
      data := data[cat := CategoryStats(data[cat].count, data[cat].avgPrice / (data[cat].count as real))];
      pending := pending - {cat};
    }
    AveragesSpec(books, data);
  }

  lemma TotalsCounted(books: seq<Book>)
    ensures forall c :: c in Totals(books) ==> Totals(books)[c].count >= 1
  {
    TotalsSpec(books);
  }

  /** Dividing each category's sum by its count gives its average price,
      and leaves the counts as they were. */
  lemma AveragesSpec(books: seq<Book>, data: map<string, CategoryStats>)
    requires data.Keys == Totals(books).Keys
    requires forall c :: c in data ==> data[c].count == Totals(books)[c].count >= 1
    requires forall c :: c in data ==>
      data[c].avgPrice == Totals(books)[c].avgPrice / (Totals(books)[c].count as real)
    ensures forall c :: c in data ==> data[c].avgPrice == CategorySum(books, c) / (data[c].count as real)
    ensures Counts(data) == Histogram(CategoryList(books))
  {
    TotalsSpec(books);
    SameCounts(data, Totals(books));
  }

  /** Entries with the same counts give the same counts. */
  lemma SameCounts(data: map<string, CategoryStats>, totals: map<string, CategoryStats>)
    requires data.Keys == totals.Keys
    requires forall c :: c in data ==> data[c].count == totals[c].count
    ensures Counts(data) == Counts(totals)
  {
  }

  // ------------------------------------------------------------ properties

  /** Each category's count is its number of books, and the counts add up
      to the number of books. */
  lemma CategoryCounts(books: seq<Book>)
    ensures forall c :: c in Totals(books) <==> c in CategoryList(books)
    ensures forall c :: c in Totals(books) ==> Totals(books)[c].count == multiset(CategoryList(books))[c]
    ensures SumValues(Counts(Totals(books))) == |books|
  {
    var t := Totals(books);
    TotalsSpec(books);
    HistogramCounts(CategoryList(books));
    HistogramSum(CategoryList(books));
    forall c ensures c in t <==> c in Counts(t) {
    }
    forall c | c in t ensures t[c].count == Counts(t)[c] {
    }
  }
}
