/** The CSV file as the scraper writes it (scripts/scraper.py) and the API
    reads it back (api/data_loader.py): csv.DictReader turns each line into
    a map from column name to cell text, and a record the scraper stored
    loads back as the book it describes. */
module Persistence {
  import opened Text
  import opened Models
  import opened Scraper
  import Utils
  import Collections
  import DataLoader
  import Crawler

  /** The column names zipped with the cells of one line; a name that
      occurs twice keeps its last cell, as dict(zip(...)) does. */
  function Zip(names: seq<string>, cells: seq<string>): (m: map<string, string>)
    requires |names| == |cells|
    ensures m.Keys == set k | k in names
  {
    if names == [] then map[]
    else
      var n := |names| - 1;
      Zip(names[..n], cells[..n])[names[n] := cells[n]]
  }

  /** csv.DictReader on one line: cells past the header are not named, and
      names past the end of the line get no cell. */
  function ReadRow(header: seq<string>, cells: seq<string>): map<string, string>
  {
    var n := if |header| <= |cells| then |header| else |cells|;
    Zip(header[..n], cells[..n])
  }

  /** The rows csv.DictReader hands out for a file: the first line names the
      columns, blank lines are skipped. */
  function ReadFile(file: seq<seq<string>>): seq<map<string, string>>
  {
    if file == [] then []
    else
      var lines := Collections.Filter((l: seq<string>) => l != [], file[1..]);
      seq(|lines|, i requires 0 <= i < |lines| => ReadRow(file[0], lines[i]))
  }

  /** A record as the crawl stores it: every column present, id and rating
      integers, every other value text. */
  predicate IsRecord(row: map<string, Cell>)
  {
    && "id" in row && row["id"].Int?
    && "title" in row && row["title"].Str?
    && "price" in row && row["price"].Str?
    && "stock" in row && row["stock"].Str?
    && "rating" in row && row["rating"].Int?
    && "category" in row && row["category"].Str?
    && "product_page_url" in row && row["product_page_url"].Str?
    && "upc" in row && row["upc"].Str?
    && "description" in row && row["description"].Str?
  }

  /** The book a record describes: its integers and texts, and its price
      text through clean_price. */
  function RecordBook(row: map<string, Cell>): Book
    requires IsRecord(row)
  {
    Book(row["id"].number, row["title"].text, Utils.CleanPrice(row["price"].text),
         row["stock"].text, row["rating"].number, row["category"].text,
         row["product_page_url"].text, row["upc"].text, row["description"].text)
  }

  // ------------------------------------------------------------ properties

  /** The cell of a name that does not occur again later in the header. */
  lemma {:induction false} ZipAt(names: seq<string>, cells: seq<string>, i: nat)
    requires |names| == |cells| && i < |names|
    requires forall j :: i < j < |names| ==> names[j] != names[i]
    ensures names[i] in Zip(names, cells) && Zip(names, cells)[names[i]] == cells[i]
  {
    var n := |names| - 1;
    if i < n {
      forall j | i < j < n ensures names[..n][j] != names[..n][i] {
        assert names[..n][j] == names[j];
      }
      ZipAt(names[..n], cells[..n], i);
    }
  }

  /** A full line read under the scraper's header gives each column its own
      cell. */
  lemma ReadHeaders(cells: seq<string>, i: nat)
    requires |cells| == |Headers| && i < |Headers|
    ensures Headers[i] in ReadRow(Headers, cells) && ReadRow(Headers, cells)[Headers[i]] == cells[i]
  {
    assert Headers[..9] == Headers && cells[..9] == cells;
    ZipAt(Headers, cells, i);
  }

  /** A stored record, projected onto the columns and read back, loads as
      the book it describes: no cell is lost or moved, and the integers
      survive str() and int(). */
  lemma RowRoundTrip(row: map<string, Cell>)
    requires IsRecord(row)
    ensures DataLoader.ParseRow(ReadRow(Headers, ProjectRow(row))) == Some(RecordBook(row))
  {
    var cells := ProjectRow(row);
    ProjectRowCells(row);
    var m := ReadRow(Headers, cells);
    ReadHeaders(cells, 0);
    ReadHeaders(cells, 1);
    ReadHeaders(cells, 2);
    ReadHeaders(cells, 3);
    ReadHeaders(cells, 4);
    ReadHeaders(cells, 5);
    ReadHeaders(cells, 6);
    ReadHeaders(cells, 7);
    ReadHeaders(cells, 8);
    ParseIntRoundTrip(row["id"].number);
    ParseIntRoundTrip(row["rating"].number);
    assert DataLoader.Columns <= m.Keys;
  }

  /** Rows that each convert to the matching book load as exactly those
      books. */
  lemma {:induction false} LoadAllConverts(rows: seq<map<string, string>>, books: seq<Book>)
    requires |rows| == |books|
    requires forall i :: 0 <= i < |rows| ==> DataLoader.ParseRow(rows[i]) == Some(books[i])
    ensures DataLoader.LoadAll(rows) == books
  {
    if rows != [] {
      var n := |rows| - 1;
      LoadAllConverts(rows[..n], books[..n]);
      DataLoader.LoadAllLast(rows);
      assert books == books[..n] + [books[n]];
    }
  }

  /** The whole file loads back: one book per stored record, in the order
      they were written. */
  lemma FileRoundTrip(results: seq<map<string, Cell>>)
    requires forall r :: 0 <= r < |results| ==> IsRecord(results[r])
    ensures DataLoader.LoadAll(ReadFile(Crawler.CsvFile(results))) ==
      seq(|results|, r requires 0 <= r < |results| => RecordBook(results[r]))
  {
    var file := Crawler.CsvFile(results);
    var body := file[1..];
    forall l | l in body ensures l != [] {
      var r :| 0 <= r < |results| && body[r] == l;
      ProjectRowCells(results[r]);
    }
    Collections.FilterKeepsAll((l: seq<string>) => l != [], body);
    var rows := ReadFile(file);
    var books := seq(|results|, r requires 0 <= r < |results| => RecordBook(results[r]));
    forall r | 0 <= r < |rows| ensures DataLoader.ParseRow(rows[r]) == Some(books[r]) {
      assert rows[r] == ReadRow(Headers, ProjectRow(results[r]));
      RowRoundTrip(results[r]);
    }
    LoadAllConverts(rows, books);
  }

  /** The record parse_book gives: every column but id, the rating an
      integer and the rest text. */
  predicate IsItem(item: map<string, Cell>)
  {
    && "title" in item && item["title"].Str?
    && "price" in item && item["price"].Str?
    && "stock" in item && item["stock"].Str?
    && "rating" in item && item["rating"].Int?
    && "category" in item && item["category"].Str?
    && "product_page_url" in item && item["product_page_url"].Str?
    && "upc" in item && item["upc"].Str?
    && "description" in item && item["description"].Str?
  }

  /** Every card read from a page holds such a record when reading it
      succeeds. */
  lemma ReadCardItem(url: string, page: Option<Document>)
    ensures var c := Crawler.ReadCard(url, page);
      c.outcome.Some? ==> IsItem(c.outcome.value)
  {
    if page.Some? && Upc(page.value).Some? {
      ParseBookFields(page.value, RemoveAll(url, "../"));
    }
  }

  /** Every record the crawl stores is a full record: the item with its id. */
  lemma StoredRecords(cards: seq<Crawler.Card>, first: int, r: nat)
    requires forall j :: 0 <= j < |cards| && cards[j].outcome.Some? ==> IsItem(cards[j].outcome.value)
    requires r < |Crawler.Keep(cards, first)|
    ensures IsRecord(Crawler.Keep(cards, first)[r])
  {
    Crawler.KeepRow(cards, first, r);
    var row := Crawler.Keep(cards, first)[r];
    assert IsItem(cards[Crawler.IdOf(row) - first].outcome.value);
  }

  /** So the file a crawl writes loads back in full: each stored record
      becomes the book it describes, with its id. */
  lemma CrawlRoundTrip(cards: seq<Crawler.Card>)
    requires forall j :: 0 <= j < |cards| && cards[j].outcome.Some? ==> IsItem(cards[j].outcome.value)
    ensures var results := Crawler.Keep(cards, 1);
      && (forall r :: 0 <= r < |results| ==> IsRecord(results[r]))
      && DataLoader.LoadAll(ReadFile(Crawler.CsvFile(results))) ==
        seq(|results|, r requires 0 <= r < |results| && IsRecord(results[r]) => RecordBook(results[r]))
  {
    var results := Crawler.Keep(cards, 1);
    forall r | 0 <= r < |results| ensures IsRecord(results[r]) {
      StoredRecords(cards, 1, r);
    }
    FileRoundTrip(results);
  }
}
