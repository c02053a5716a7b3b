/** The category list of the API (api/routes/categories.py): the distinct
    non-empty categories of the books, in Python's string order. */
module CategoriesRoutes {
  import opened Models

  /** Python's `a < b` on strings: code point by code point, a proper
      prefix first. */
  predicate Less(a: string, b: string)
  {
    if a == [] then b != []
    else if b == [] then false
    else if a[0] != b[0] then a[0] < b[0]
    else Less(a[1..], b[1..])
  }

  /** Each string strictly before the next. */
  predicate Ascending(s: seq<string>)
  {
    forall i :: 0 <= i < |s| - 1 ==> Less(s[i], s[i + 1])
  }

  /** Adds a string to an ascending list unless it is already there. */
  function InsertSorted(x: string, t: seq<string>): seq<string>
  {
    if t == [] then [x]
    else if x == t[0] then t
    else if Less(x, t[0]) then [x] + t
    else [t[0]] + InsertSorted(x, t[1..])
  }

  /** sorted(set(b.category for b in books if b.category)), built book by
      book. */
  function Categories(books: seq<Book>): seq<string>
  {
    if books == [] then []
    else
      var n := |books| - 1;
      var c := Categories(books[..n]);
      if books[n].category == "" then c else InsertSorted(books[n].category, c)
  }

  // ------------------------------------------------------------ the order

  lemma {:induction false} LessIrreflexive(a: string)
    ensures !Less(a, a)
  {
    if a != [] {
      LessIrreflexive(a[1..]);
    }
  }

  lemma {:induction false} LessTransitive(a: string, b: string, c: string)
    requires Less(a, b) && Less(b, c)
    ensures Less(a, c)
  {
    if a != [] && a[0] == b[0] && b[0] == c[0] {
      LessTransitive(a[1..], b[1..], c[1..]);
    }
  }

  /** Two different strings are ordered one way or the other, never both. */
  lemma {:induction false} LessTotal(a: string, b: string)
    ensures a != b ==> Less(a, b) != Less(b, a)
    ensures a == b ==> !Less(a, b)
  {
    if a == b {
      LessIrreflexive(a);
    } else if a != [] && b != [] && a[0] == b[0] {
      LessTotal(a[1..], b[1..]);
      assert a == [a[0]] + a[1..] && b == [b[0]] + b[1..];
    }
  }

  /** In an ascending list every string is before every later one. */
  lemma {:induction false} AscendingPairs(s: seq<string>, i: nat, j: nat)
    requires Ascending(s) && i < j < |s|
    ensures Less(s[i], s[j])
    decreases j - i
  {
    if i + 1 < j {
      AscendingPairs(s, i + 1, j);
      LessTransitive(s[i], s[i + 1], s[j]);
    }
  }

  // -------------------------------------------------------- the insertion

  /** Insertion keeps the list ascending and adds exactly the string. */
  lemma {:induction false} InsertSortedSpec(x: string, t: seq<string>)
    requires Ascending(t)
    ensures var r := InsertSorted(x, t);
      && Ascending(r)
      && (forall y :: y in r <==> y == x || y in t)
      && r != [] && (r[0] == x || r[0] == t[0])
  {
    if t != [] && x != t[0] && !Less(x, t[0]) {
      var t' := t[1..];
      assert Ascending(t') by {
        forall i | 0 <= i < |t'| - 1 ensures Less(t'[i], t'[i + 1]) {
          assert t'[i] == t[i + 1] && t'[i + 1] == t[i + 2];
        }
      }
      InsertSortedSpec(x, t');
      LessTotal(x, t[0]);
      assert t == [t[0]] + t';
      var r := InsertSorted(x, t);
      assert r == [t[0]] + InsertSorted(x, t');
      assert t' != [] ==> Less(t[0], t'[0]);
    }
  }

  // ------------------------------------------------------------ properties

  /** The list is strictly ascending (so without repeats), never holds "",
      and holds exactly the non-empty categories of the books. */
  lemma {:induction false} CategoriesSpec(books: seq<Book>)
    ensures var r := Categories(books);
      && Ascending(r)
      && "" !in r
      && (forall c :: c in r <==> c != "" && exists b :: b in books && b.category == c)
  {
    if books != [] {
      var n := |books| - 1;
      var init := books[..n];
      CategoriesSpec(init);
      var c := Categories(init);
      if books[n].category != "" {
        InsertSortedSpec(books[n].category, c);
      }
      assert books == init + [books[n]];
      forall x ensures x in Categories(books) <==> x != "" && exists b :: b in books && b.category == x {
        if x != "" && exists b :: b in books && b.category == x {
          var b :| b in books && b.category == x;
          if b in init {
            assert x in c;
          }
        }
      }
    }
  }

  /** Hence no category is listed twice. */
  lemma CategoriesDistinct(books: seq<Book>, i: nat, j: nat)
    requires i < j < |Categories(books)|
    ensures Categories(books)[i] != Categories(books)[j]
  {
    CategoriesSpec(books);
    AscendingPairs(Categories(books), i, j);
    LessIrreflexive(Categories(books)[i]);
  }

  /** Books without a category give an empty list, no books in particular. */
  lemma CategoriesEmpty(books: seq<Book>)
    requires forall b :: b in books ==> b.category == ""
    ensures Categories(books) == []
  {
    CategoriesSpec(books);
  }
}
