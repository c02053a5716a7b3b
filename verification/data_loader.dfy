/** The CSV loader of the API (api/data_loader.py), over the rows as
    csv.DictReader hands them out: one map from column name to cell text per
    line of the file. */
module DataLoader {
  import opened Text
  import opened Models
  import Utils

  /** The columns the loader reads; a row without one of them raises
      KeyError. */
  const Columns: set<string> := {"id", "title", "price", "stock", "rating", "category",
                                 "product_page_url", "upc", "description"}

  /** The try block for one row: the Book, or None when it raises because a
      column is missing or id or rating is not an integer literal. The price
      goes through clean_price, which never raises; every other text is
      copied as it is. */
  function ParseRow(row: map<string, string>): Option<Book>
  {
    if !(Columns <= row.Keys) then None
    else
      var id := ParseInt(row["id"]);
      var rating := ParseInt(row["rating"]);
      if id.None? || rating.None? then None
      else
        Some(Book(id.value, row["title"], Utils.CleanPrice(row["price"]), row["stock"], rating.value,
                  row["category"], row["product_page_url"], row["upc"], row["description"]))
  }

  /** The books load_books returns for the rows, in file order. */
  function LoadAll(rows: seq<map<string, string>>): seq<Book>
  {
    if rows == [] then []
    else
      var n := |rows| - 1;
      LoadAll(rows[..n]) + (match ParseRow(rows[n]) case None => [] case Some(b) => [b])
  }

  /** load_books: append each row that converts, skip each row that raises. */
  method LoadBooks(rows: seq<map<string, string>>) returns (books: seq<Book>)
    ensures books == LoadAll(rows)
    ensures |books| <= |rows|
  {
    books := [];
    var i := 0;
    while i < |rows|
      invariant 0 <= i <= |rows|
      invariant books == LoadAll(rows[..i])
      invariant |books| <= i
    {
      assert rows[..i + 1][..i] == rows[..i];
      var b := ParseRow(rows[i]);
      if b.Some? {
        books := books + [b.value];
      }
      i := i + 1;
    }
    assert rows[..i] == rows;
  }

  // ------------------------------------------------------------ properties

  /** A row loads exactly when it has every column and its id and rating are
      integer literals; the book then holds the parsed integers, the cleaned
      price (never negative) and the other texts verbatim, stock included. */
  lemma ParseRowSpec(row: map<string, string>)
    ensures ParseRow(row).Some? <==>
      Columns <= row.Keys && ParseInt(row["id"]).Some? && ParseInt(row["rating"]).Some?
    ensures ParseRow(row).Some? ==>
      var b := ParseRow(row).value;
      && Some(b.id) == ParseInt(row["id"]) && Some(b.rating) == ParseInt(row["rating"])
      && b.price == Utils.CleanPrice(row["price"]) && b.price >= 0.0
      && b.title == row["title"] && b.stock == row["stock"] && b.category == row["category"]
      && b.productPageUrl == row["product_page_url"] && b.upc == row["upc"]
      && b.description == row["description"]
  {
  }

  /** Loading two runs of rows loads each run, in order: a row that fails
      affects no other row. */
  lemma {:induction false} LoadAllAppend(a: seq<map<string, string>>, b: seq<map<string, string>>)
    ensures LoadAll(a + b) == LoadAll(a) + LoadAll(b)
    decreases |b|
  {
    if b == [] {
      assert a + b == a;
    } else {
      var b' := b[..|b| - 1];
      assert (a + b)[..|a + b| - 1] == a + b';
      assert (a + b)[|a + b| - 1] == b[|b| - 1];
      LoadAllAppend(a, b');
    }
  }

  /** A row whose id or rating is not an integer is skipped silently and the
      rows after it still load. */
  lemma SkipBadRow(a: seq<map<string, string>>, row: map<string, string>, b: seq<map<string, string>>)
    requires "id" in row && "rating" in row
    requires ParseInt(row["id"]).None? || ParseInt(row["rating"]).None?
    ensures LoadAll(a + [row] + b) == LoadAll(a) + LoadAll(b)
  {
    BadIntRow(row);
    LoadAllSkip(a, row, b);
  }

  /** A row that loads as nothing leaves the rows around it as they load. */
  lemma LoadAllSkip(a: seq<map<string, string>>, row: map<string, string>, b: seq<map<string, string>>)
    requires LoadAll([row]) == []
    ensures LoadAll(a + [row] + b) == LoadAll(a) + LoadAll(b)
  {
    var front := LoadAll(a);
    LoadAllAppend(a, [row]);
    assert front + LoadAll([row]) == front;
    LoadAllAppend(a + [row], b);
  }

  /** A row whose id or rating is not an integer loads as nothing. */
  lemma BadIntRow(row: map<string, string>)
    requires "id" in row && "rating" in row
    requires ParseInt(row["id"]).None? || ParseInt(row["rating"]).None?
    ensures LoadAll([row]) == []
  {
    assert ParseRow(row).None?;
    LoadSkipped(row);
  }

  /** A last row that converts adds its book at the end. */
  lemma LoadAllLast(rows: seq<map<string, string>>)
    requires rows != [] && ParseRow(rows[|rows| - 1]).Some?
    ensures LoadAll(rows) == LoadAll(rows[..|rows| - 1]) + [ParseRow(rows[|rows| - 1]).value]
  {
  }

  lemma LoadSkipped(row: map<string, string>)
    requires ParseRow(row).None?
    ensures LoadAll([row]) == []
  {
    assert [row][..0] == [];
  }

  /** No more books than rows. */
  lemma {:induction false} LoadAllLength(rows: seq<map<string, string>>)
    ensures |LoadAll(rows)| <= |rows|
  {
    if rows != [] {
      LoadAllLength(rows[..|rows| - 1]);
    }
  }

  /** Every row that converts is loaded. */
  lemma {:induction false} LoadAllHas(rows: seq<map<string, string>>, i: nat)
    requires i < |rows| && ParseRow(rows[i]).Some?
    ensures ParseRow(rows[i]).value in LoadAll(rows)
  {
    var n := |rows| - 1;
    if i < n {
      assert rows[..n][i] == rows[i];
      LoadAllHas(rows[..n], i);
    }
  }

  /** Every loaded book comes from a row that converts to it. */
  lemma {:induction false} LoadAllFrom(rows: seq<map<string, string>>, b: Book)
    requires b in LoadAll(rows)
    ensures exists i :: 0 <= i < |rows| && ParseRow(rows[i]) == Some(b)
  {
    var n := |rows| - 1;
    if b in LoadAll(rows[..n]) {
      LoadAllFrom(rows[..n], b);
      var i :| 0 <= i < n && ParseRow(rows[..n][i]) == Some(b);
      assert rows[i] == rows[..n][i];
    } else {
      assert ParseRow(rows[n]) == Some(b);
    }
  }

  /** Every loaded price is non-negative. */
  lemma LoadedPrices(rows: seq<map<string, string>>)
    ensures forall b :: b in LoadAll(rows) ==> b.price >= 0.0
  {
    forall b | b in LoadAll(rows) ensures b.price >= 0.0 {
      LoadAllFrom(rows, b);
      var i :| 0 <= i < |rows| && ParseRow(rows[i]) == Some(b);
      ParseRowSpec(rows[i]);
    }
  }
}
