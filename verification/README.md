# Books-web-scrapping in Dafny

This project models the Books-web-scrapping pipeline. A scraper walks the
listing pages of a book catalogue, reads each book page and writes a CSV file
of nine columns. An API then loads that file and answers queries over the
books. The model covers:

- the value normalisers:
  - `rating_to_int` (`Scraper`);
  - `clean_price` (`Utils`);
  - `parse_price` and `parse_stock` (`ProcessData`).
- the field selection of `parse_book`, over an abstract view of the parsed
  page (`Scraper.Document`).
- the crawl loop `run_scraper`, as an imperative method over a finite chain of
  listing pages, proved against a specification function (`Crawler`).
- the CSV file between the two halves: the row the scraper writes and the map
  `csv.DictReader` reads back (`Persistence`).
- the row loader `load_books`, as an imperative method (`DataLoader`).
- the query handlers:
  - `get_book`, `search_books`, `top_rated` and `price_range`
    (`BooksRoutes`);
  - `get_categories` (`CategoriesRoutes`);
  - `stats_overview` and `stats_by_category`, as imperative methods over maps
    (`StatsRoutes`).

`Text` and `Collections` hold the Python built-ins these use:

- `str.strip`;
- `str.replace` with an empty replacement;
- `str.lower`;
- `in` on strings;
- `int()` and `str()` on integers;
- list comprehensions with a condition;
- dictionaries of counts.

Prices are exact `real`s, not binary floats.

### Where the code and the design description disagree

The model follows the code in both cases.

- **Ids of failed items.** The design says failed items consume no id, so ids
  run 1, 2, 3 without gaps. The code increments `idx` before it attempts an
  item (scripts/scraper.py:102), so a failed item leaves a gap.
  `Crawler.IdGapScenario` shows the ids 1 and 3 that result.
- **The stock field.** The design leaves the stock field's type open and
  recommends an integer count. The loader keeps it as verbatim text
  (api/data_loader.py:15, api/models.py:7). `Book.stock` is a string here.

## Model

| member | source | states |
|---|---|---|
| Scraper.RatingToInt | scripts/scraper.py:22-27 | the rating is always within 0..5 |
| Scraper.RatingToIntZero | scripts/scraper.py:22-27 | the rating is 0 exactly when no class token is one of "One".."Five" |
| Scraper.RatingToIntFirst | scripts/scraper.py:24-26 | otherwise it is the mapped value (1..5) of the first star word in list order |
| Scraper.RatingExample | scripts/scraper.py:22-27 | the classes ["star-rating", "Three", "One"] give 3 |
| Scraper.PriceText | scripts/scraper.py:35-41 | definition of the price text: the stripped price tag inside the product block, "" without the block or the tag |
| Scraper.StockText | scripts/scraper.py:35-43 | definition of the stock text: the stripped availability tag inside the product block, "" without the block or the tag |
| Scraper.Rating | scripts/scraper.py:35-45 | definition of the rating: rating_to_int of the star tag's classes inside the product block, 0 without the block or the tag; RatingToInt states its range |
| Scraper.Category | scripts/scraper.py:48-53 | definition of the category: the stripped third breadcrumb item, "" without the breadcrumb or with fewer than three items |
| Scraper.ScanUpcFails | scripts/scraper.py:58-63 | reading the table fails exactly when some "UPC" row has no td |
| Scraper.ScanUpcNoRow | scripts/scraper.py:57-63 | without a "UPC" row the upc stays "" |
| Scraper.ScanUpcLast | scripts/scraper.py:59-63 | the loop never breaks, so the last "UPC" row's stripped td wins |
| Scraper.ParseBookKeys | scripts/scraper.py:71-80 | that record has exactly the eight non-id columns of HEADERS |
| Scraper.ProjectRow | scripts/scraper.py:127-128 | definition of a written row: one cell per column of HEADERS, "" for a missing key; RowRoundTrip states that it reads back |
| Crawler.RunScraper | scripts/scraper.py:82-130 | the loop writes nothing when a listing page fails; otherwise it writes the header and one projected row per stored record of the specified crawl |
| Crawler.ScrapeCards | scripts/scraper.py:97-111 | the inner loop attempts the cards up to the cap, advances idx by that number, and appends each success under its own id |
| Crawler.KeepRow | scripts/scraper.py:101-105 | each stored record is its card's parse_book record, stored under id = the card's 1-based attempt position |
| Crawler.KeepAscending | scripts/scraper.py:101-105 | ids rise strictly along the results |
| Crawler.KeepComplete | scripts/scraper.py:101-108 | every card whose attempt succeeds is stored: a failure drops only its own card and does not stop the loop |
| Crawler.KeepLength | scripts/scraper.py:101-108 | no more records than attempted cards |
| Crawler.RoomAtMost | scripts/scraper.py:110-113 | within one page the loop stops at the card that brings idx to a truthy cap, and never before the first card; with a negative cap it attempts exactly one card of a non-empty page |
| Crawler.CrawlCapPositive | scripts/scraper.py:110-113 | with a positive cap c, at most c cards are attempted |
| Crawler.CrawlCapNegative | scripts/scraper.py:110-113 | a negative cap is truthy and already reached, so at most one card is attempted |
| Crawler.ResultsBound | scripts/scraper.py:110-113 | with a truthy cap c, len(results) <= max(c, 1) |
| Crawler.CrawlUncapped | scripts/scraper.py:96-97 | with None or 0 and every page loaded, every card of every page is attempted, in page order and then card order |
| Crawler.CrawlFails | scripts/scraper.py:92-93 | without a cap the run fails exactly when some page of the chain fails to load |
| Crawler.CrawlCapCount | scripts/scraper.py:97-117 | with a positive cap c and every page loading, exactly min(c, number of cards in the chain) cards are attempted |
| Crawler.CrawlNegativeCount | scripts/scraper.py:110-113 | with a negative cap, exactly min(1, cards on the first page) cards are attempted: an empty first page ends the crawl too |
| Crawler.CrawlPrefix | scripts/scraper.py:110-117 | with any cap, the attempted cards are a prefix of the uncapped crawl's cards |
| Crawler.SinglePassRemoval | scripts/scraper.py:100 | the removal makes one pass: "..././" leaves "../" |
| Crawler.IdGapScenario | scripts/scraper.py:101-108 | with the cards ok, failing, ok over two pages, the stored ids are 1 and 3 |
| Utils.CleanPrice | api/utils.py:1-11 | the price is never negative, 0 for "", and positive only if the text has a digit |
| Utils.KeepPriceCharsMembers | api/utils.py:6 | the filter keeps exactly the digits and dots, each as often as in the input, as a subsequence of the input |
| Utils.KeepPriceCharsIsFilter | api/utils.py:6 | the filter is a comprehension over the characters with the digit-or-dot test |
| Utils.KeepPriceCharsIdempotent | api/utils.py:6 | filtering twice is filtering once |
| Utils.CleanPriceCases | api/utils.py:6-11 | the price is 0 when the filtered text has no digit or more than one dot; otherwise it is the decimal value of the filtered text |
| Utils.DecimalTextDefined | api/utils.py:8 | float() succeeds on a digits-and-dots text exactly when it has a digit and at most one dot |
| Utils.DecimalTextValue | api/utils.py:8 | a.b reads as digits(a+b) / 10^len(b) |
| Utils.DecimalTextPoint | api/utils.py:8 | a.b reads as the digits of a plus the digits of b scaled down |
| Utils.DecimalTextInteger | api/utils.py:8 | a text without a dot reads as its integer value |
| Utils.CleanPricePound | api/utils.py:6-8 | "Â£51.77" gives 51.77 |
| Utils.CleanPriceTrailingDot | api/utils.py:8 | "5." gives 5 |
| Utils.CleanPriceLeadingDot | api/utils.py:8 | ".5" gives 0.5 |
| Utils.CleanPriceBadDots | api/utils.py:9-11 | "." and "1.2.3" give 0 |
| Utils.CleanPriceMinus | api/utils.py:6 | a minus sign is dropped, so "-3" gives 3 |
| Utils.CleanPriceComma | api/utils.py:6 | a comma is dropped, so "1,234" gives 1234 |
| ProcessData.MatchPrice | scripts/process_data.py:13 | the search fails exactly when the text has no digit; otherwise it returns the leftmost greedy match of digits, an optional '.' or ',', then digits |
| ProcessData.MatchPriceExact | scripts/process_data.py:13 | conversely, any leftmost greedy match is the one found |
| ProcessData.PriceSearchTextDigits | scripts/process_data.py:12 | removing "Â£" and newlines and stripping keeps the digits of the text exactly, in their order |
| ProcessData.ParsePriceNewline | scripts/process_data.py:12-16 | the newline is removed before the search, so "1\n2" gives 12 |
| ProcessData.ParsePriceSpec | scripts/process_data.py:9-16 | None exactly for a missing value or a text without digits; otherwise whole.frac of the leftmost match, never negative, with ',' read as the point |
| ProcessData.ParsePriceThousands | scripts/process_data.py:13-16 | "1,234.56" gives 1.234 |
| ProcessData.ParseStockSpec | scripts/process_data.py:18-22 | 0 for a missing value or no digit; otherwise the value of the first maximal digit run |
| ProcessData.ParseStockExact | scripts/process_data.py:21-22 | conversely, the first maximal digit run is the stock |
| ProcessData.ParseStockAvailable | scripts/process_data.py:21-22 | "In stock (22 available)" gives 22 |
| DataLoader.LoadBooks | api/data_loader.py:5-24 | the loop returns the loaded books of the specified row-by-row load, no more than the rows |
| DataLoader.LoadAllAppend | api/data_loader.py:9-24 | each row loads independently, in file order |
| DataLoader.SkipBadRow | api/data_loader.py:12-23 | a row whose id or rating is not an integer is skipped and later rows still load |
| DataLoader.BadIntRow | api/data_loader.py:12-23 | such a row loads as no book |
| DataLoader.LoadAllHas | api/data_loader.py:10-21 | every row that converts is loaded |
| DataLoader.LoadAllFrom | api/data_loader.py:10-21 | every loaded book comes from a row that converts to it |
| DataLoader.LoadAllLength | api/data_loader.py:6-24 | no more books than rows |
| DataLoader.LoadedPrices | api/data_loader.py:14 | every loaded price is non-negative |
| Persistence.Zip | api/data_loader.py:8 | the map read from a line has exactly the header's names as keys |
| Persistence.ZipAt | api/data_loader.py:8 | a name that does not recur later in the header maps to its own cell |
| Persistence.RowRoundTrip | api/data_loader.py:11-21 | a stored record, projected onto HEADERS and read back, loads as the book with the same id, rating and texts, and clean_price of its price |
| Persistence.FileRoundTrip | scripts/scraper.py:123-128 | the written file loads back as one book per stored record, in order |
| Persistence.ReadCardItem | scripts/scraper.py:71-80 | every record parse_book returns has the eight non-id columns, the rating an integer and the others text |
| Persistence.StoredRecords | scripts/scraper.py:101-105 | every record the crawl stores has all nine columns, with id and rating integers |
| Persistence.CrawlRoundTrip | scripts/scraper.py:101-128 | the file a crawl writes loads back in full, each record as the book it describes |
| BooksRoutes.GetBook | api/routes/books.py:16-20 | not found exactly when no book has the id; a found book has the id |
| BooksRoutes.GetBookFirst | api/routes/books.py:17-19 | the book returned is the first with the id |
| BooksRoutes.SearchSpec | api/routes/books.py:23-30 | the results are exactly the books matching every given query, lower-cased substring match, each as often as in the list and in list order; with no query, the whole list |
| BooksRoutes.SearchIsFilter | api/routes/books.py:25-29 | the two comprehensions in a row are one comprehension whose test is every given query |
| BooksRoutes.SearchIgnoresCase | api/routes/books.py:27 | a title query and its lower-case form find the same books |
| BooksRoutes.SortByRatingSpec | api/routes/books.py:34 | the sort is non-increasing by rating, a permutation, and stable |
| BooksRoutes.TopRatedShape | api/routes/books.py:33-34 | top_rated returns non-increasing ratings drawn from the books: min(limit, n) of them for limit >= 0, n + limit (at least 0) for a negative limit |
| BooksRoutes.TopRatedBest | api/routes/books.py:34 | no book left out is rated above a book returned |
| BooksRoutes.TopRatedStable | api/routes/books.py:34 | the books returned of each rating are the first of that rating in the input, in input order |
| BooksRoutes.SliceTo | api/routes/books.py:34 | [:limit] gives a prefix of min(limit, n) elements, or n + limit for a negative limit |
| BooksRoutes.PriceRangeSpec | api/routes/books.py:36-39 | exactly the books with min <= price <= max, each as often as in the list and in list order |
| CategoriesRoutes.CategoriesSpec | api/routes/categories.py:12-13 | the list is strictly ascending, never holds "", and holds exactly the non-empty categories of the books |
| CategoriesRoutes.CategoriesDistinct | api/routes/categories.py:13 | no category is listed twice |
| CategoriesRoutes.CategoriesEmpty | api/routes/categories.py:13 | with no books, or none with a category, the list is empty |
| CategoriesRoutes.LessTotal | api/routes/categories.py:13 | string order is total and irreflexive on different strings |
| CategoriesRoutes.LessTransitive | api/routes/categories.py:13 | string order is transitive |
| StatsRoutes.StatsOverview | api/routes/stats.py:13-19 | total is the number of books; avg is 0 without books and otherwise sum/total; the rating counts' keys are exactly the ratings present, each with its number of occurrences (>= 1), and the counts sum to total |
| StatsRoutes.StatsByCategory | api/routes/stats.py:22-30 | one entry per category present, count >= 1 (so the division is safe) equal to its number of books, and avg_price = the category's price sum / count |
| StatsRoutes.TotalsSpec | api/routes/stats.py:24-27 | after the first loop each category holds its number of books (>= 1) and its price sum |
| StatsRoutes.CategoryCounts | api/routes/stats.py:24-26 | the category counts sum to the number of books, and each is the category's number of occurrences |
| Collections.HistogramCounts | api/routes/stats.py:17-18 | a dictionary of counts has exactly the present values as keys, each with its number of occurrences |
| Collections.HistogramSum | api/routes/stats.py:17-18 | the counts sum to the length of the list |
| Collections.FilterMembers | api/routes/books.py:39 | a comprehension keeps exactly the elements passing its test, each as often as in the input |
| Collections.FilterIsSubsequence | api/routes/books.py:39 | a comprehension keeps input order |
| Collections.FilterTwice | api/routes/books.py:27-29 | two comprehensions in a row keep what passes both tests |
| Text.ParseIntRoundTrip | api/data_loader.py:12 | int() reads back what str() wrote for every integer |
| Text.StripKeepsDigits | scripts/process_data.py:12 | stripping keeps the digits of the text exactly, in their order |
| Text.RemoveAllKeepsDigits | scripts/process_data.py:12 | removing a pattern without digits keeps the digits of the text exactly, in their order |
| Text.Strip | scripts/scraper.py:34 | strip removes surrounding white space only, and leaves none at either end |
| Text.RemoveAllAbsent | scripts/process_data.py:12 | replace leaves a text without the pattern unchanged |
| ProcessData.ParsePrice | scripts/process_data.py:9-16 | definition of parse_price: None for a missing cell, the search on the cleaned text, float() of the match with ',' as the point; ParsePriceSpec states its result |
| ProcessData.ParseStock | scripts/process_data.py:18-22 | definition of parse_stock: 0 for a missing cell or no match, else int() of the first digit run; ParseStockSpec states its result |
| Scraper.ScanUpc | scripts/scraper.py:59-63 | definition of the loop over the table rows, which fails on a "UPC" row without td; ScanUpcFails, ScanUpcNoRow and ScanUpcLast state its result |
| Scraper.Upc | scripts/scraper.py:56-63 | definition of the upc lookup: "" without the table, else the table scan |
| Scraper.ParseBook | scripts/scraper.py:29-80 | definition of parse_book on a fetched page: None when a lookup raises, else the record of the eight selected fields; ParseBookKeys and Persistence.ReadCardItem state its keys and cell kinds |
| Crawler.ReadCard | scripts/scraper.py:100-103 | definition of one attempt: the URL with "../" removed, and parse_book's outcome on its page |
| Crawler.Room | scripts/scraper.py:97-111 | definition of how many cards of a page the inner loop attempts; RoomAtMost states its bounds |
| Crawler.Crawl | scripts/scraper.py:89-117 | definition of the cards the outer loop attempts, page by page; RunScraper is proved against it and CrawlCapCount, CrawlUncapped, CrawlFails and CrawlPrefix state it |
| Crawler.Keep | scripts/scraper.py:101-108 | definition of the stored records: each successful attempt under its 1-based position; KeepRow, KeepAscending and KeepComplete state it |
| Crawler.CsvFile | scripts/scraper.py:123-128 | definition of the file written: the header, then one projected row per record; RunScraper and FileRoundTrip state it |
| Persistence.ReadRow | api/data_loader.py:8 | definition of one csv.DictReader row; Zip and ZipAt state its keys and cells |
| Persistence.ReadFile | api/data_loader.py:8-9 | definition of the rows csv.DictReader yields: the first line names the columns, blank lines are skipped |
| DataLoader.ParseRow | api/data_loader.py:10-23 | definition of one try block of the loop; LoadAllHas, LoadAllFrom and RowRoundTrip state what it loads |
| DataLoader.LoadAll | api/data_loader.py:5-24 | definition of the books load_books returns; LoadBooks is proved against it and LoadAllAppend, LoadAllHas and LoadAllFrom state it |
| BooksRoutes.SearchBooks | api/routes/books.py:23-30 | definition of search_books; SearchSpec states its result |
| BooksRoutes.SortByRating | api/routes/books.py:34 | definition of the stable sort by rating, highest first; SortByRatingSpec states it |
| BooksRoutes.TopRated | api/routes/books.py:33-34 | definition of top_rated: the sort, then [:limit]; TopRatedShape, TopRatedBest and TopRatedStable state it |
| BooksRoutes.PriceRange | api/routes/books.py:36-39 | definition of price_range with the defaults 0 and 1000; PriceRangeSpec states its result |
| CategoriesRoutes.Categories | api/routes/categories.py:12-13 | definition of the sorted set of non-empty categories; CategoriesSpec states it |
| StatsRoutes.Totals | api/routes/stats.py:23-27 | definition of the dictionary the first loop of stats_by_category builds; TotalsSpec states it |
| Text.RemoveAll | scripts/process_data.py:12 | str.replace with an empty replacement: one left-to-right pass, never longer than the input; RemoveAllAbsent and SinglePassRemoval state more |
| Text.ParseInt | api/data_loader.py:12 | definition of int() on an optional sign and ASCII digits; ParseIntRoundTrip states it |
| Text.Lower | api/routes/books.py:27 | definition of str.lower on ASCII letters; SearchIgnoresCase uses it |

## Left out

- HTTP fetching (`requests`), `raise_for_status`, the BeautifulSoup lookups,
  `time.sleep` and `print`. The crawl receives each listing page as its cards
  plus a has-next flag, with None for a failed fetch. Each book page is a
  `Document` of the texts the lookups would find, with None for a failed
  fetch.
- `urljoin` and the next-link href. Card URLs arrive already resolved against
  the page URL, and the chain of listing pages arrives in next-link order.
  The crawl model requires that the chain ends: the last page read has no
  next link.
- The href lookup that sits outside the try block in
  scripts/scraper.py:99. A card without a link aborts the whole run in the
  source; here every card carries a URL and the outcome of `parse_book` on
  its page.
- CSV encoding, quoting and line endings, `open`, `os.makedirs` and the file
  path. A cell written is read back verbatim, and a file is a sequence of rows
  of cells. A missing file (api/data_loader.py:7) is not modelled.
- Persistence.ReadRow: for a short line, `csv.DictReader` fills the missing
  columns with None. Here they are simply absent. This differs only for the
  price: `clean_price(None)` is 0, whereas an absent key skips the row.
- The `main` of scripts/process_data.py (pandas file I/O). `pd.isna` is
  modelled as a None cell.
- Binary floating point. Prices, sums and averages are exact reals, and
  `round(..., 2)` in stats_overview and stats_by_category is left out.
- FastAPI routing, query parsing and pydantic validation.
  - `list_books` returns the list unchanged.
  - api/main.py and api/routes/health.py are not part of this model.
  - Loading the books once at import is not modelled.
  - The route order (`/{book_id}` declared before `/search`) is not
    modelled either.
- The order of keys in the JSON dictionaries.
- Unicode: `str.isdigit`, `str.lower`, `int()`, `float()` and the regex
  class `\d` are modelled on ASCII. `\d` in the searches of `parse_price`
  and `parse_stock` (scripts/process_data.py:13, 21) and `float()`
  (scripts/process_data.py:16) also accept non-ASCII decimal digits, which
  `ProcessData.MatchPrice` and `ProcessData.DigitRunEnd` do not treat as
  digits.
  `int()` is an optional sign and ASCII digits; the white space, underscores
  and non-ASCII digits it also accepts are not modelled. The `isspace` list
  used by `strip` is Python's full list.
- A concrete page for the UPC rule is not exhibited. `Scraper.ScanUpcLast`
  states the rule for every table.
