/** The book-page reader of the scraper (scripts/scraper.py): the star-rating
    lookup, the choice of each field over an abstract view of the parsed HTML
    page, and the projection of a stored record onto the CSV columns. */
module Scraper {
  import opened Text

  /** The CSV columns, in the order the file is written. */
  const Headers: seq<string> := ["id", "title", "price", "stock", "rating", "category",
                                 "product_page_url", "upc", "description"]

  // -------------------------------------------------------------- rating

  /** The star-rating table: the value of one of the five words, 0 for any
      other class token. */
  function StarValue(c: string): nat
  {
    if c == "One" then 1
    else if c == "Two" then 2
    else if c == "Three" then 3
    else if c == "Four" then 4
    else if c == "Five" then 5
    else 0
  }

  predicate IsStarWord(c: string) { c in {"One", "Two", "Three", "Four", "Five"} }

  /** rating_to_int: the value of the first class token that is a star word. */
  function RatingToInt(classes: seq<string>): (r: nat)
    ensures r <= 5
  {
    if classes == [] then 0
    else if IsStarWord(classes[0]) then StarValue(classes[0])
    else RatingToInt(classes[1..])
  }

  /** The rating is 0 exactly when no class token is a star word. */
  lemma {:induction false} RatingToIntZero(classes: seq<string>)
    ensures RatingToInt(classes) == 0 <==> forall k :: 0 <= k < |classes| ==> !IsStarWord(classes[k])
  {
    if classes != [] {
      RatingToIntZero(classes[1..]);
      if !IsStarWord(classes[0]) {
        forall k | 0 <= k < |classes| && k > 0 ensures IsStarWord(classes[k]) == IsStarWord(classes[1..][k - 1]) {
        }
      }
    }
  }

  /** Otherwise it is the value of the first star word, in list order. */
  lemma {:induction false} RatingToIntFirst(classes: seq<string>, i: nat)
    requires i < |classes| && IsStarWord(classes[i])
    requires forall k :: 0 <= k < i ==> !IsStarWord(classes[k])
    ensures 1 <= RatingToInt(classes) == StarValue(classes[i]) <= 5
  {
    if i > 0 {
      assert !IsStarWord(classes[0]);
      RatingToIntFirst(classes[1..], i - 1);
    }
  }

  lemma RatingExample()
    ensures RatingToInt(["star-rating", "Three", "One"]) == 3
  {
    RatingToIntFirst(["star-rating", "Three", "One"], 1);
  }

  // ------------------------------------------------------------ document

  /** The product block: the texts of the price and availability paragraphs
      and the class list of the star-rating paragraph, each None when that
      tag is absent. */
  datatype ProductMain = ProductMain(price: Option<string>, stock: Option<string>,
                                     ratingClasses: Option<seq<string>>)

  /** One row of the product information table: the texts of its first th
      and first td, None when the row has no such cell. */
  datatype TableRow = TableRow(th: Option<string>, td: Option<string>)

  /** What parse_book looks up in a book page: the h1 text, the product
      block, the texts of the breadcrumb items, the rows of the information
      table, and the text of the paragraph that follows the description
      block. None stands for a tag the page does not have. */
  datatype Document = Document(
    h1: Option<string>,
    productMain: Option<ProductMain>,
    breadcrumb: Option<seq<string>>,
    table: Option<seq<TableRow>>,
    description: Option<string>)

  /** A value of a scraped record: text, or the integer rating and id. */
  datatype Cell = Str(text: string) | Int(number: int)

  /** How the CSV writer renders a cell. */
  function CellText(c: Cell): string
  {
    match c
    case Str(t) => t
    case Int(n) => IntToString(n)
  }

  /** The stripped text of a tag, "" without the tag. */
  function TagText(t: Option<string>): string
  {
    if t.Some? then Strip(t.value) else ""
  }

  function PriceText(doc: Document): string
  {
    if doc.productMain.Some? then TagText(doc.productMain.value.price) else ""
  }

  function StockText(doc: Document): string
  {
    if doc.productMain.Some? then TagText(doc.productMain.value.stock) else ""
  }

  function Rating(doc: Document): nat
  {
    if doc.productMain.Some? && doc.productMain.value.ratingClasses.Some? then
      RatingToInt(doc.productMain.value.ratingClasses.value)
    else 0
  }

  function Category(doc: Document): string
  {
    if doc.breadcrumb.Some? && |doc.breadcrumb.value| >= 3 then Strip(doc.breadcrumb.value[2]) else ""
  }

  predicate IsUpcRow(row: TableRow) { row.th.Some? && Strip(row.th.value) == "UPC" }

  /** The table loop: every row whose header reads "UPC" overwrites upc with
      its stripped td text; such a row without a td raises (None). */
  function ScanUpc(rows: seq<TableRow>, upc: string): Option<string>
  {
    if rows == [] then Some(upc)
    else if IsUpcRow(rows[0]) then
      if rows[0].td.None? then None else ScanUpc(rows[1..], Strip(rows[0].td.value))
    else ScanUpc(rows[1..], upc)
  }

  function Upc(doc: Document): Option<string>
  {
    if doc.table.Some? then ScanUpc(doc.table.value, "") else Some("")
  }

  /** parse_book on a fetched page: the record without its id, or None when
      reading the page raises. */
  function ParseBook(doc: Document, url: string): Option<map<string, Cell>>
  {
    match Upc(doc)
    case None => None
    case Some(upc) =>
      Some(map[
        "title" := Str(TagText(doc.h1)),
        "price" := Str(PriceText(doc)),
        "stock" := Str(StockText(doc)),
        "rating" := Int(Rating(doc)),
        "category" := Str(Category(doc)),
        "product_page_url" := Str(url),
        "upc" := Str(upc),
        "description" := Str(TagText(doc.description))])
  }

  /** The CSV row written for a record: one cell per column, "" for a
      missing key. */
  function ProjectRow(row: map<string, Cell>): seq<string>
  {
    seq(|Headers|, k requires 0 <= k < |Headers| =>
      if Headers[k] in row then CellText(row[Headers[k]]) else "")
  }

  // ------------------------------------------------------------ properties

  /** Without the product block, price and stock are "" and the rating 0;
      without the star-rating tag the rating is 0; in every case the rating
      is within 0..5. */
  lemma ProductDefaults(doc: Document)
    ensures doc.productMain.None? ==> PriceText(doc) == "" && StockText(doc) == "" && Rating(doc) == 0
    ensures doc.productMain.Some? && doc.productMain.value.ratingClasses.None? ==> Rating(doc) == 0
    ensures 0 <= Rating(doc) <= 5
  {
  }

  /** The category is the stripped third breadcrumb item, "" when there are
      fewer than three. */
  lemma CategoryIsThirdItem(doc: Document)
    ensures doc.breadcrumb.Some? && |doc.breadcrumb.value| >= 3 ==> Category(doc) == Strip(doc.breadcrumb.value[2])
    ensures doc.breadcrumb.None? || |doc.breadcrumb.value| < 3 ==> Category(doc) == ""
  {
  }

  /** The table loop raises exactly when some UPC row has no td. */
  lemma {:induction false} ScanUpcFails(rows: seq<TableRow>, upc: string)
    ensures ScanUpc(rows, upc).None? <==>
      exists i :: 0 <= i < |rows| && IsUpcRow(rows[i]) && rows[i].td.None?
  {
    if rows != [] {
      ScanUpcFails(rows[1..], if IsUpcRow(rows[0]) && rows[0].td.Some? then Strip(rows[0].td.value) else upc);
      if exists i :: 0 <= i < |rows| && IsUpcRow(rows[i]) && rows[i].td.None? {
        var i :| 0 <= i < |rows| && IsUpcRow(rows[i]) && rows[i].td.None?;
        if i > 0 { assert rows[1..][i - 1] == rows[i]; }
      }
      if exists i :: 0 <= i < |rows[1..]| && IsUpcRow(rows[1..][i]) && rows[1..][i].td.None? {
        var i :| 0 <= i < |rows[1..]| && IsUpcRow(rows[1..][i]) && rows[1..][i].td.None?;
        assert rows[i + 1] == rows[1..][i];
      }
    }
  }

  /** Without any UPC row the initial "" stays. */
  lemma {:induction false} ScanUpcNoRow(rows: seq<TableRow>, upc: string)
    requires forall i :: 0 <= i < |rows| ==> !IsUpcRow(rows[i])
    ensures ScanUpc(rows, upc) == Some(upc)
  {
    if rows != [] {
      assert !IsUpcRow(rows[0]);
      ScanUpcNoRow(rows[1..], upc);
    }
  }

  /** The loop never breaks, so the last UPC row wins. */
  lemma {:induction false} ScanUpcLast(rows: seq<TableRow>, upc: string, i: nat)
    requires i < |rows| && IsUpcRow(rows[i]) && rows[i].td.Some?
    requires forall k :: 0 <= k < i ==> IsUpcRow(rows[k]) ==> rows[k].td.Some?
    requires forall k :: i < k < |rows| ==> !IsUpcRow(rows[k])
    ensures ScanUpc(rows, upc) == Some(Strip(rows[i].td.value))
  {
    var rest := rows[1..];
    var next := if IsUpcRow(rows[0]) then Strip(rows[0].td.value) else upc;
    ScanUpcStep(rows, upc);
    forall k | i - 1 < k < |rest| ensures !IsUpcRow(rest[k]) {
      assert rest[k] == rows[k + 1];
    }
    if i == 0 {
      ScanUpcNoRow(rest, next);
    } else {
      forall k | 0 <= k < i - 1 ensures IsUpcRow(rest[k]) ==> rest[k].td.Some? {
        assert rest[k] == rows[k + 1];
      }
      assert rest[i - 1] == rows[i];
      ScanUpcLast(rest, next, i - 1);
    }
  }

  /** One row of the table loop. */
  lemma ScanUpcStep(rows: seq<TableRow>, upc: string)
    requires rows != [] && (IsUpcRow(rows[0]) ==> rows[0].td.Some?)
    ensures ScanUpc(rows, upc) ==
      ScanUpc(rows[1..], if IsUpcRow(rows[0]) then Strip(rows[0].td.value) else upc)
  {
  }

  /** A page read without error yields all eight fields: the URL it was
      given, the chosen texts, and a rating within 0..5. */
  lemma ParseBookFields(doc: Document, url: string)
    requires Upc(doc).Some?
    ensures ParseBook(doc, url).Some?
    ensures var m := ParseBook(doc, url).value;
      && m["product_page_url"] == Str(url)
      && m["title"] == Str(TagText(doc.h1))
      && m["price"] == Str(PriceText(doc)) && m["stock"] == Str(StockText(doc))
      && m["rating"] == Int(Rating(doc)) && 0 <= Rating(doc) <= 5
      && m["category"] == Str(Category(doc))
      && m["upc"] == Str(Upc(doc).value)
      && m["description"] == Str(TagText(doc.description))
  {
    var m := ParseBook(doc, url).value;
    assert m["product_page_url"] == Str(url);
    assert m["title"] == Str(TagText(doc.h1));
    assert m["price"] == Str(PriceText(doc));
    assert m["stock"] == Str(StockText(doc));
    assert m["rating"] == Int(Rating(doc));
    assert m["category"] == Str(Category(doc));
    assert m["upc"] == Str(Upc(doc).value);
  }

  /** The record has exactly the columns of the header but the id. */
  lemma ParseBookKeys(doc: Document, url: string)
    requires Upc(doc).Some?
    ensures ParseBook(doc, url).Some?
    ensures ParseBook(doc, url).value.Keys == set k | k in Headers[1..]
  {
    var names := ["title", "price", "stock", "rating", "category", "product_page_url", "upc", "description"];
    assert Headers[1..] == names;
  }

  /** The written row has one cell per column, in column order. */
  lemma ProjectRowCells(row: map<string, Cell>)
    ensures |ProjectRow(row)| == |Headers| == 9
    ensures forall k :: 0 <= k < 9 && Headers[k] !in row ==> ProjectRow(row)[k] == ""
    ensures forall k :: 0 <= k < 9 && Headers[k] in row ==> ProjectRow(row)[k] == CellText(row[Headers[k]])
  {
  }
}
