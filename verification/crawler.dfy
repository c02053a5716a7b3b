/** The crawl loop of the scraper (run_scraper in scripts/scraper.py) over a
    finite chain of listing pages: the id counter, the pages_limit cap, the
    stop at the last page, and the rows of the CSV file written at the end. */
module Crawler {
  import opened Text
  import opened Scraper

  /** A product card of a listing page: the book URL already resolved
      against the page URL, and what the try block's parse_book call gives
      for it: the record, or None when fetching or reading the page raises. */
  datatype Card = Card(url: string, outcome: Option<map<string, Cell>>)

  /** A listing page as fetched: its product cards in document order and
      whether it has a next link. */
  datatype Listing = Listing(cards: seq<Card>, hasNext: bool)

  /** The listing pages in the order the next links lead through them; None
      is a page whose fetch raises. Every page read without error has a next
      link exactly when it is not the last one. */
  predicate ValidChain(pages: seq<Option<Listing>>)
  {
    && |pages| > 0
    && forall p :: 0 <= p < |pages| && pages[p].Some? ==> (pages[p].value.hasNext <==> p < |pages| - 1)
  }

  /** The card for a book URL whose page was fetched as page (None when the
      fetch raises): parse_book reads the page under the URL with every
      "../" removed in one pass. */
  function ReadCard(url: string, page: Option<Document>): Card
  {
    Card(url, if page.None? then None else ParseBook(page.value, RemoveAll(url, "../")))
  }

  /** `pages_limit and idx >= pages_limit`: None and 0 set no cap. */
  predicate Reached(limit: Option<int>, idx: int)
  {
    limit.Some? && limit.value != 0 && idx >= limit.value
  }

  function Min(a: int, b: int): int { if a <= b then a else b }

  function Max(a: int, b: int): int { if a <= b then b else a }

  /** How many of the n cards of a page are attempted when idx cards were
      attempted before it: all of them without a cap; with a cap, the loop
      breaks after the card that brings idx to the cap, and never before the
      first card. */
  function Room(limit: Option<int>, idx: int, n: nat): nat
  {
    if limit.None? || limit.value == 0 then n
    else Min(n, Max(1, limit.value - idx))
  }

  function Prepend(here: seq<Card>, rest: Option<seq<Card>>): Option<seq<Card>>
  {
    match rest
    case None => None
    case Some(cards) => Some(here + cards)
  }

  /** The cards the crawl attempts from page p on, when idx cards were
      attempted before: None when a page it reaches fails to load. */
  function Crawl(pages: seq<Option<Listing>>, p: nat, idx: int, limit: Option<int>): Option<seq<Card>>
    decreases |pages| - p
  {
    if p >= |pages| then Some([])
    else
      match pages[p]
      case None => None
      case Some(page) =>
        var k := Room(limit, idx, |page.cards|);
        if Reached(limit, idx + k) || !page.hasNext then Some(page.cards[..k])
        else Prepend(page.cards[..k], Crawl(pages, p + 1, idx + k, limit))
  }

  /** The records kept from a run of attempted cards: the i-th card, when
      its attempt succeeds, is stored with id first + i. */
  function Keep(cards: seq<Card>, first: int): seq<map<string, Cell>>
  {
    if cards == [] then []
    else
      var n := |cards| - 1;
      Keep(cards[..n], first) +
        (match cards[n].outcome case None => [] case Some(item) => [item["id" := Int(first + n)]])
  }

  /** The file: the header row, then one projected row per record. */
  function CsvFile(results: seq<map<string, Cell>>): seq<seq<string>>
  {
    [Headers] + seq(|results|, i requires 0 <= i < |results| => ProjectRow(results[i]))
  }

  /** run_scraper: None when a listing page fails to load, since the file is
      written only after the loop; otherwise the rows of the file. */
  method RunScraper(pages: seq<Option<Listing>>, limit: Option<int>) returns (file: Option<seq<seq<string>>>)
    requires ValidChain(pages)
    ensures file.None? <==> Crawl(pages, 0, 0, limit).None?
    ensures file.Some? ==> file.value == CsvFile(Keep(Crawl(pages, 0, 0, limit).value, 1))
  {
    var results: seq<map<string, Cell>> := [];
    var idx := 0;
    var p := 0;
    ghost var done: seq<Card> := [];
    PrependNothing(Crawl(pages, 0, 0, limit));
    while true
      invariant 0 <= p < |pages|
      invariant idx == |done|
      invariant results == Keep(done, 1)
      invariant Crawl(pages, 0, 0, limit) == Prepend(done, Crawl(pages, p, idx, limit))
      decreases |pages| - p
    {
      if pages[p].None? {
        return None;
      }
      var page := pages[p].value;
      ghost var k := Room(limit, idx, |page.cards|);
      PageAdvance(pages, p, done, idx, limit);
      KeepAppend(done, page.cards[..k], 1);
      results, idx := ScrapeCards(page.cards, limit, results, idx);
      done := done + page.cards[..k];
      assert results == Keep(done, 1);
      if Reached(limit, idx) || !page.hasNext {
        break;
      }
      p := p + 1;
    }
    file := Some(CsvFile(results));
  }

  /** After page p the crawl either ends with the cards attempted so far or
      goes on from the next page. */
  lemma PageAdvance(pages: seq<Option<Listing>>, p: nat, done: seq<Card>, idx: int, limit: Option<int>)
    requires p < |pages| && pages[p].Some?
    requires Crawl(pages, 0, 0, limit) == Prepend(done, Crawl(pages, p, idx, limit))
    ensures var page := pages[p].value;
      var k := Room(limit, idx, |page.cards|);
      if Reached(limit, idx + k) || !page.hasNext then
        Crawl(pages, 0, 0, limit) == Some(done + page.cards[..k])
      else
        Crawl(pages, 0, 0, limit) == Prepend(done + page.cards[..k], Crawl(pages, p + 1, idx + k, limit))
  {
    var page := pages[p].value;
    var k := Room(limit, idx, |page.cards|);
    CrawlPage(pages, p, idx, limit);
    Prepend2(done, page.cards[..k], Crawl(pages, p + 1, idx + k, limit));
  }

  /** The loop over the cards of one page: each card first increments idx,
      then its record is stored under that id when reading it succeeds; the
      loop breaks once idx reaches the cap. */
  method ScrapeCards(cards: seq<Card>, limit: Option<int>, results0: seq<map<string, Cell>>, idx0: int)
    returns (results: seq<map<string, Cell>>, idx: int)
    ensures idx == idx0 + Room(limit, idx0, |cards|)
    ensures results == results0 + Keep(cards[..Room(limit, idx0, |cards|)], idx0 + 1)
  {
    ghost var k := Room(limit, idx0, |cards|);
    results, idx := results0, idx0;
    var i := 0;
    assert results == results0 + Keep(cards[..0], idx0 + 1);
    while i < |cards|
      invariant 0 <= i <= k <= |cards|
      invariant idx == idx0 + i
      invariant i > 0 ==> !Reached(limit, idx)
      invariant results == results0 + Keep(cards[..i], idx0 + 1)
    {
      RoomAhead(limit, idx0, |cards|, i);
      KeepNext(cards, i, idx0 + 1);
      idx := idx + 1;
      var item := cards[i].outcome;
      if item.Some? {
        ghost var stored := Keep(cards[..i], idx0 + 1);
        results := results + [item.value["id" := Int(idx)]];
        assert results == results0 + (stored + [item.value["id" := Int(idx)]]);
      }
      i := i + 1;
      if Reached(limit, idx) {
        break;
      }
    }
    RoomExact(limit, idx0, |cards|, i);
  }

  /** Storing two runs of cards one after the other numbers the second run
      after the first. */
  lemma {:induction false} KeepAppend(a: seq<Card>, b: seq<Card>, first: int)
    ensures Keep(a + b, first) == Keep(a, first) + Keep(b, first + |a|)
    decreases |b|
  {
    if b == [] {
      assert a + b == a;
    } else {
      var b' := b[..|b| - 1];
      assert (a + b)[..|a + b| - 1] == a + b';
      assert (a + b)[|a + b| - 1] == b[|b| - 1];
      KeepAppend(a, b', first);
    }
  }

  lemma PrependNothing(rest: Option<seq<Card>>)
    ensures Prepend([], rest) == rest
  {
    if rest.Some? {
      assert [] + rest.value == rest.value;
    }
  }

  lemma Prepend2(a: seq<Card>, b: seq<Card>, rest: Option<seq<Card>>)
    ensures Prepend(a, Prepend(b, rest)) == Prepend(a + b, rest)
  {
    if rest.Some? {
      assert a + (b + rest.value) == a + b + rest.value;
    }
  }

  /** One more card is stored, when it succeeds, after those before it. */
  lemma KeepStep(cards: seq<Card>, c: Card, first: int)
    ensures c.outcome.None? ==> Keep(cards + [c], first) == Keep(cards, first)
    ensures c.outcome.Some? ==>
      Keep(cards + [c], first) == Keep(cards, first) + [c.outcome.value["id" := Int(first + |cards|)]]
  {
    assert (cards + [c])[..|cards|] == cards;
  }

  /** The cards up to i + 1 store what the cards up to i store, then card
      i's record when it succeeds. */
  lemma KeepNext(cards: seq<Card>, i: nat, first: int)
    requires i < |cards|
    ensures cards[i].outcome.None? ==> Keep(cards[..i + 1], first) == Keep(cards[..i], first)
    ensures cards[i].outcome.Some? ==>
      Keep(cards[..i + 1], first) == Keep(cards[..i], first) + [cards[i].outcome.value["id" := Int(first + i)]]
  {
    assert cards[..i] + [cards[i]] == cards[..i + 1];
    KeepStep(cards[..i], cards[i], first);
  }

  /** Before the loop has broken, another card is within the page's room. */
  lemma RoomAhead(limit: Option<int>, idx: int, n: nat, i: nat)
    requires i < n && i <= Room(limit, idx, n)
    requires i > 0 ==> !Reached(limit, idx + i)
    ensures i + 1 <= Room(limit, idx, n)
  {
  }

  /** The loop over a page stops after exactly Room cards. */
  lemma RoomExact(limit: Option<int>, idx: int, n: nat, i: nat)
    requires i <= Room(limit, idx, n) && (i == n || (0 < i && Reached(limit, idx + i)))
    ensures i == Room(limit, idx, n)
  {
  }

  /** One page of the crawl: its first Room cards, then the rest of the chain
      unless the cap is reached or the page has no next link. */
  lemma CrawlPage(pages: seq<Option<Listing>>, p: nat, idx: int, limit: Option<int>)
    requires p < |pages| && pages[p].Some?
    ensures var page := pages[p].value;
      var k := Room(limit, idx, |page.cards|);
      Crawl(pages, p, idx, limit) ==
        if Reached(limit, idx + k) || !page.hasNext then Some(page.cards[..k])
        else Prepend(page.cards[..k], Crawl(pages, p + 1, idx + k, limit))
  {
  }

  // ------------------------------------------------------------ properties

  /** The id of a stored record. */
  function IdOf(row: map<string, Cell>): int
  {
    if "id" in row && row["id"].Int? then row["id"].number else 0
  }

  /** The records of the cards before the last one come first. */
  lemma KeepInit(cards: seq<Card>, first: int)
    requires cards != []
    ensures var K := Keep(cards, first);
      var K0 := Keep(cards[..|cards| - 1], first);
      && |K0| <= |K| <= |K0| + 1
      && K[..|K0|] == K0
      && (|K| == |K0| + 1 <==> cards[|cards| - 1].outcome.Some?)
      && (|K| == |K0| + 1 ==> K[|K0|] == cards[|cards| - 1].outcome.value["id" := Int(first + |cards| - 1)])
  {
  }

  /** Each stored record is the record of a card whose attempt succeeded,
      under the id first + the card's position. */
  lemma {:induction false} KeepRow(cards: seq<Card>, first: int, r: nat)
    requires r < |Keep(cards, first)|
    ensures var row := Keep(cards, first)[r];
      && "id" in row && row["id"].Int?
      && first <= IdOf(row) < first + |cards|
      && cards[IdOf(row) - first].outcome.Some?
      && row == cards[IdOf(row) - first].outcome.value["id" := Int(IdOf(row))]
  {
    var n := |cards| - 1;
    KeepInit(cards, first);
    var K0 := Keep(cards[..n], first);
    if r < |K0| {
      KeepRow(cards[..n], first, r);
      assert Keep(cards, first)[r] == K0[r];
      assert cards[..n][IdOf(K0[r]) - first] == cards[IdOf(K0[r]) - first];
    }
  }

  /** Ids rise strictly along the stored records. */
  lemma {:induction false} KeepAscending(cards: seq<Card>, first: int, r1: nat, r2: nat)
    requires r1 < r2 < |Keep(cards, first)|
    ensures IdOf(Keep(cards, first)[r1]) < IdOf(Keep(cards, first)[r2])
  {
    var n := |cards| - 1;
    KeepInit(cards, first);
    var K0 := Keep(cards[..n], first);
    assert Keep(cards, first)[r1] == K0[r1];
    if r2 < |K0| {
      KeepAscending(cards[..n], first, r1, r2);
      assert Keep(cards, first)[r2] == K0[r2];
    } else {
      KeepRow(cards[..n], first, r1);
    }
  }

  /** Every card whose attempt succeeds is stored, under id first + its
      position. */
  lemma {:induction false} KeepComplete(cards: seq<Card>, first: int, j: nat)
    requires j < |cards| && cards[j].outcome.Some?
    ensures exists r :: 0 <= r < |Keep(cards, first)| && IdOf(Keep(cards, first)[r]) == first + j
  {
    var n := |cards| - 1;
    KeepInit(cards, first);
    var K0 := Keep(cards[..n], first);
    if j < n {
      assert cards[..n][j] == cards[j];
      KeepComplete(cards[..n], first, j);
      var r :| 0 <= r < |K0| && IdOf(K0[r]) == first + j;
      assert Keep(cards, first)[r] == K0[r];
    } else {
      assert IdOf(Keep(cards, first)[|K0|]) == first + j;
    }
  }

  /** No more records than cards. */
  lemma {:induction false} KeepLength(cards: seq<Card>, first: int)
    ensures |Keep(cards, first)| <= |cards|
  {
    if cards != [] {
      KeepInit(cards, first);
      KeepLength(cards[..|cards| - 1], first);
    }
  }

  lemma {:induction false} RoomAtMost(limit: Option<int>, idx: int, n: nat)
    ensures Room(limit, idx, n) <= n
    ensures !Reached(limit, idx + Room(limit, idx, n)) ==> Room(limit, idx, n) == n
    ensures limit.Some? && limit.value > 0 && idx < limit.value ==> idx + Room(limit, idx, n) <= limit.value
    ensures limit.Some? && limit.value < 0 && idx >= 0 ==> Room(limit, idx, n) <= 1 && Reached(limit, idx + Room(limit, idx, n))
    ensures n >= 1 && limit.Some? && limit.value < 0 && idx >= 0 ==> Room(limit, idx, n) == 1
  {
  }

  /** With a positive cap c, the crawl attempts at most c cards in all. */
  lemma {:induction false} CrawlCapPositive(pages: seq<Option<Listing>>, p: nat, idx: int, limit: Option<int>)
    requires limit.Some? && limit.value > 0 && idx < limit.value
    requires Crawl(pages, p, idx, limit).Some?
    ensures idx + |Crawl(pages, p, idx, limit).value| <= limit.value
    decreases |pages| - p
  {
    if p < |pages| {
      var page := pages[p].value;
      var k := Room(limit, idx, |page.cards|);
      RoomAtMost(limit, idx, |page.cards|);
      if !(Reached(limit, idx + k) || !page.hasNext) {
        CrawlCapPositive(pages, p + 1, idx + k, limit);
      }
    }
  }

  /** A negative cap is truthy and already reached: the crawl attempts at
      most one card. */
  lemma CrawlCapNegative(pages: seq<Option<Listing>>, limit: Option<int>)
    requires limit.Some? && limit.value < 0
    requires Crawl(pages, 0, 0, limit).Some?
    ensures |Crawl(pages, 0, 0, limit).value| <= 1
  {
    if 0 < |pages| {
      RoomAtMost(limit, 0, |pages[0].value.cards|);
    }
  }

  /** With a positive cap c and every page loading, the crawl attempts
      exactly c cards in all, or every card of the chain when it has fewer. */
  lemma {:induction false} CrawlCapCount(pages: seq<Option<Listing>>, p: nat, idx: int, c: int)
    requires ValidChain(pages) && p < |pages|
    requires forall q :: p <= q < |pages| ==> pages[q].Some?
    requires c > 0 && idx < c
    ensures Crawl(pages, p, idx, Some(c)).Some?
    ensures |Crawl(pages, p, idx, Some(c)).value| == Min(c - idx, |ChainCards(pages, p)|)
    decreases |pages| - p
  {
    var page := pages[p].value;
    var n := |page.cards|;
    var k := Room(Some(c), idx, n);
    assert |ChainCards(pages, p)| == n + |ChainCards(pages, p + 1)|;
    if !(Reached(Some(c), idx + k) || !page.hasNext) {
      assert k == n;
      CrawlCapCount(pages, p + 1, idx + n, c);
    } else if !page.hasNext {
      assert ChainCards(pages, p + 1) == [];
    }
  }

  /** A negative cap stops the crawl after the first card of the first
      page, or after the first page when it has no card. */
  lemma CrawlNegativeCount(pages: seq<Option<Listing>>, idx: int, c: int)
    requires |pages| > 0 && pages[0].Some?
    requires c < 0 && idx >= 0
    ensures Crawl(pages, 0, idx, Some(c)).Some?
    ensures |Crawl(pages, 0, idx, Some(c)).value| == Min(1, |pages[0].value.cards|)
  {
    RoomAtMost(Some(c), idx, |pages[0].value.cards|);
  }

  /** So a run with a truthy cap stores at most max(cap, 1) records. */
  lemma ResultsBound(pages: seq<Option<Listing>>, limit: Option<int>)
    requires limit.Some? && limit.value != 0
    requires Crawl(pages, 0, 0, limit).Some?
    ensures |Keep(Crawl(pages, 0, 0, limit).value, 1)| <= (if limit.value > 0 then limit.value else 1)
  {
    KeepLength(Crawl(pages, 0, 0, limit).value, 1);
    if limit.value > 0 {
      CrawlCapPositive(pages, 0, 0, limit);
    } else {
      CrawlCapNegative(pages, limit);
    }
  }

  /** The cards of the chain from page p on, page by page, in document order. */
  function ChainCards(pages: seq<Option<Listing>>, p: nat): seq<Card>
    decreases |pages| - p
  {
    if p >= |pages| then []
    else (if pages[p].Some? then pages[p].value.cards else []) + ChainCards(pages, p + 1)
  }

  predicate Uncapped(limit: Option<int>) { limit.None? || limit.value == 0 }

  /** Without a cap every card of every page is attempted, in page order and
      then card order, when every page loads. */
  lemma {:induction false} CrawlUncapped(pages: seq<Option<Listing>>, p: nat, idx: int, limit: Option<int>)
    requires ValidChain(pages) && Uncapped(limit) && p < |pages|
    requires forall q :: p <= q < |pages| ==> pages[q].Some?
    ensures Crawl(pages, p, idx, limit) == Some(ChainCards(pages, p))
    decreases |pages| - p
  {
    var page := pages[p].value;
    assert page.cards[..|page.cards|] == page.cards;
    if p < |pages| - 1 {
      CrawlUncapped(pages, p + 1, idx + |page.cards|, limit);
    } else {
      assert !page.hasNext;
      assert ChainCards(pages, p + 1) == [];
      assert page.cards + [] == page.cards;
    }
  }

  /** Without a cap the run writes nothing exactly when some page of the
      chain fails to load. */
  lemma {:induction false} CrawlFails(pages: seq<Option<Listing>>, p: nat, idx: int, limit: Option<int>)
    requires ValidChain(pages) && Uncapped(limit) && p < |pages|
    ensures Crawl(pages, p, idx, limit).None? <==> exists q :: p <= q < |pages| && pages[q].None?
    decreases |pages| - p
  {
    if pages[p].Some? {
      var page := pages[p].value;
      if p < |pages| - 1 {
        CrawlFails(pages, p + 1, idx + |page.cards|, limit);
      } else {
        assert !page.hasNext;
      }
    }
  }

  /** With any cap, the attempted cards are a prefix of those the uncapped
      crawl attempts: page order, then card order. */
  lemma {:induction false} CrawlPrefix(pages: seq<Option<Listing>>, p: nat, idx: int, limit: Option<int>, idx2: int)
    requires Crawl(pages, p, idx, limit).Some? && Crawl(pages, p, idx2, None).Some?
    ensures Crawl(pages, p, idx, limit).value <= Crawl(pages, p, idx2, None).value
    decreases |pages| - p
  {
    if p < |pages| {
      var page := pages[p].value;
      var n := |page.cards|;
      var k := Room(limit, idx, n);
      RoomAtMost(limit, idx, n);
      assert page.cards[..n] == page.cards;
      if !(Reached(limit, idx + k) || !page.hasNext) {
        CrawlPrefix(pages, p + 1, idx + k, limit, idx2 + n);
      }
    }
  }

  /** A card read from a page carries the record of that page under its
      URL with "../" removed. */
  lemma ReadCardUrl(url: string, page: Option<Document>)
    requires ReadCard(url, page).outcome.Some?
    ensures ReadCard(url, page).outcome.value["product_page_url"] == Str(RemoveAll(url, "../"))
  {
    ParseBookFields(page.value, RemoveAll(url, "../"));
  }

  /** The removal is a single left-to-right pass, so "..././" leaves "../". */
  lemma SinglePassRemoval()
    ensures RemoveAll("..././", "../") == "../"
  {
    var s := "..././";
    assert s[..3] != "../" by { assert s[2] == '.'; }
    assert s[1..][..3] == "../";
    assert s[1..][3..] == "./";
  }

  /** A failed card still consumes an id: with cards ok, failing, ok over two
      pages, the crawl attempts all three and the records get ids 1 and 3. */
  lemma IdGapScenario(c1: Card, c2: Card, c3: Card)
    requires c1.outcome.Some? && c2.outcome.None? && c3.outcome.Some?
    ensures Crawl([Some(Listing([c1, c2], true)), Some(Listing([c3], false))], 0, 0, None) == Some([c1, c2, c3])
    ensures Keep([c1, c2, c3], 1) == [c1.outcome.value["id" := Int(1)], c3.outcome.value["id" := Int(3)]]
  {
    var pages := [Some(Listing([c1, c2], true)), Some(Listing([c3], false))];
    assert Crawl(pages, 1, 2, None) == Some([c3]) by {
      assert [c3][..1] == [c3];
    }
    assert [c1, c2][..2] == [c1, c2] && [c1, c2] + [c3] == [c1, c2, c3];
    KeepStep([], c1, 1);
    KeepStep([c1], c2, 1);
    KeepStep([c1, c2], c3, 1);
    assert [] + [c1] == [c1] && [c1] + [c2] == [c1, c2];
  }
}
