/**
 * Resolving ISBNs to records through a process-lifetime cache in front of the
 * remote lookup service, and the loop that resolves every parsed entry.
 *
 * The HTTP request and JSON decoding are the `Lookup` oracle: `None` stands for
 * a non-success status, `Some(raw)` for the decoded record.
 */
module Retrieval {
  import opened Wrappers
  import opened Books

  type Lookup = string -> Option<RawBook>

  /** The names of the remote record's authors, in the service's order. */
  function AuthorNames(authors: seq<RawAuthor>): seq<string> {
    seq(|authors|, i requires 0 <= i < |authors| => authors[i].name)
  }

  /** The record a successful fetch produces for `isbn` on row `row`. */
  function Normalise(isbn: string, row: int, raw: RawBook): BookData {
    BookData(row, Server, isbn, raw.title, raw.subtitle.GetOr("N/A"),
             Some(AuthorNames(raw.authors)), raw.numberOfPages.GetOr("N/A"), raw.publishDate)
  }

  /** The record a failed fetch returns: only the ISBN is set. */
  function Failed(isbn: string): BookData {
    Blank.(isbn := isbn)
  }

  /** A cache hit: the cached data, tagged with the current row and the cache as origin. */
  function FromCache(cached: BookData, row: int): BookData {
    BookData(row, Cache, cached.isbn, cached.title, cached.subtitle,
             cached.authors, cached.numberOfPages, cached.publishDate)
  }

  /** Every cached record is a successful server fetch stored under its own ISBN. */
  predicate CacheValid(cache: map<string, BookData>) {
    forall k :: k in cache ==>
      cache[k].isbn == k && cache[k].retrievalType == Server && cache[k].authors.Some?
  }

  /** `big` holds every entry of `small`, unchanged. */
  predicate Extends(big: map<string, BookData>, small: map<string, BookData>) {
    forall k :: k in small ==> k in big && big[k] == small[k]
  }

  /** The record one retrieval returns and the cache after it. */
  datatype Step = Step(record: BookData, cache: map<string, BookData>)

  /** One retrieval for `isbn` on row `row`, starting from `cache`. */
  function Retrieve(cache: map<string, BookData>, lookup: Lookup, isbn: string, row: int): Step {
    if isbn in cache then Step(FromCache(cache[isbn], row), cache)
    else match lookup(isbn)
      case None => Step(Failed(isbn), cache)
      case Some(raw) =>
        var book := Normalise(isbn, row, raw);
        Step(book, cache[isbn := book])
  }

  /** The records for `entries`, one retrieval per entry in order, and the final cache. */
  datatype Run = Run(records: seq<BookData>, cache: map<string, BookData>)

  function Aggregate(cache: map<string, BookData>, lookup: Lookup, entries: seq<Entry>): (run: Run)
    ensures |run.records| == |entries|
    decreases |entries|
  {
    if entries == [] then Run([], cache)
    else
      var before := Aggregate(cache, lookup, entries[..|entries| - 1]);
      var e := entries[|entries| - 1];
      var step := Retrieve(before.cache, lookup, e.isbn, e.rowNumber);
      Run(before.records + [step.record], step.cache)
  }

  /** Extending the records by one adds that record's request, if any. */
  lemma RequestedSnoc(records: seq<BookData>, b: BookData)
    ensures RequestedIsbns(records + [b])
      == RequestedIsbns(records) + (if b.retrievalType == Cache then [] else [b.isbn])
  {
    assert (records + [b])[..|records|] == records;
  }

  /**
   * One more record extends the request log by that record's request: the log
   * stays the initial log followed by the requests of the records so far.
   */
  lemma RequestLogStep(initial: seq<string>, records: seq<BookData>, b: BookData,
                       before: seq<string>, after: seq<string>)
    requires before == initial + RequestedIsbns(records)
    requires after == before + (if b.retrievalType == Cache then [] else [b.isbn])
    ensures after == initial + RequestedIsbns(records + [b])
  {
    var extra := if b.retrievalType == Cache then [] else [b.isbn];
    assert initial + RequestedIsbns(records) + extra == initial + (RequestedIsbns(records) + extra);
    RequestedSnoc(records, b);
  }

  /** The ISBNs of the records that needed a network request: every one not served from the cache. */
  function RequestedIsbns(records: seq<BookData>): seq<string>
    decreases |records|
  {
    if records == [] then []
    else
      var last := records[|records| - 1];
      RequestedIsbns(records[..|records| - 1]) + (if last.retrievalType == Cache then [] else [last.isbn])
  }

  // ---------------------------------------------------------------------------
  // One retrieval
  // ---------------------------------------------------------------------------

  /**
   * Cache hit: the result has the cached record's data, the current row and
   * `Cache` as origin; the cache is unchanged, and the network's answer plays
   * no part.
   */
  lemma HitServedFromCache(cache: map<string, BookData>, lookup: Lookup, isbn: string, row: int)
    requires isbn in cache
    ensures var s := Retrieve(cache, lookup, isbn, row);
      s.cache == cache && SameData(s.record, cache[isbn])
      && s.record.rowNumber == row && s.record.retrievalType == Cache
      && forall other: Lookup :: Retrieve(cache, other, isbn, row) == s
  {
  }

  /**
   * Miss with a successful fetch: the record has `Server` origin and the current
   * row, subtitle and page count fall back to "N/A", the authors are the names
   * in order, and the cache now maps the ISBN to exactly that record.
   */
  lemma MissStoresFetched(cache: map<string, BookData>, lookup: Lookup, isbn: string, row: int)
    requires isbn !in cache && lookup(isbn).Some?
    ensures var raw, s := lookup(isbn).value, Retrieve(cache, lookup, isbn, row);
      s.record.retrievalType == Server && s.record.rowNumber == row
      && s.record.isbn == isbn && s.record.title == raw.title
      && (raw.subtitle.Some? ==> s.record.subtitle == raw.subtitle.value)
      && (raw.subtitle.None? ==> s.record.subtitle == "N/A")
      && (raw.numberOfPages.Some? ==> s.record.numberOfPages == raw.numberOfPages.value)
      && (raw.numberOfPages.None? ==> s.record.numberOfPages == "N/A")
      && s.record.publishDate == raw.publishDate
      && s.record.authors.Some? && |s.record.authors.value| == |raw.authors|
      && (forall i :: 0 <= i < |raw.authors| ==> s.record.authors.value[i] == raw.authors[i].name)
      && s.cache == cache[isbn := s.record]
  {
  }

  /** Miss with a failed fetch: the cache is unchanged and the record carries only the ISBN. */
  lemma MissFailureLeavesCache(cache: map<string, BookData>, lookup: Lookup, isbn: string, row: int)
    requires isbn !in cache && lookup(isbn).None?
    ensures var s := Retrieve(cache, lookup, isbn, row);
      s.cache == cache && s.record == Blank.(isbn := isbn)
      && s.record.rowNumber == 0 && s.record.retrievalType == Unset && s.record.authors.None?
      && s.record.title == "" && s.record.subtitle == ""
      && s.record.numberOfPages == "" && s.record.publishDate == ""
  {
  }

  /**
   * The cache only grows, and an entry once stored is never replaced; the
   * cache stays valid; the record is always for the requested ISBN, and it is
   * a failure exactly when the ISBN was not cached and the network said no.
   */
  lemma RetrieveInvariants(cache: map<string, BookData>, lookup: Lookup, isbn: string, row: int)
    requires CacheValid(cache)
    ensures var s := Retrieve(cache, lookup, isbn, row);
      Extends(s.cache, cache) && CacheValid(s.cache)
      && s.cache.Keys <= cache.Keys + {isbn}
      && s.record.isbn == isbn
      && (s.record.retrievalType == Unset <==> s.record.authors.None?)
      && (s.record.retrievalType == Unset <==> isbn !in cache && lookup(isbn).None?)
      && (s.record.retrievalType != Unset ==> s.record.rowNumber == row)
      && (s.record.retrievalType != Unset ==> isbn in s.cache && SameData(s.record, s.cache[isbn]))
  {
  }

  // ---------------------------------------------------------------------------
  // The aggregation loop
  // ---------------------------------------------------------------------------

  /** Extending the entries by one adds one retrieval, from the cache the prefix left. */
  lemma AggregateSnoc(cache: map<string, BookData>, lookup: Lookup, entries: seq<Entry>, e: Entry)
    ensures var before := Aggregate(cache, lookup, entries);
      var step := Retrieve(before.cache, lookup, e.isbn, e.rowNumber);
      Aggregate(cache, lookup, entries + [e]) == Run(before.records + [step.record], step.cache)
  {
    assert (entries + [e])[..|entries|] == entries;
  }

  /** The loop step: one more retrieval turns the run over a prefix into the run over a longer one. */
  lemma AggregateStep(cache: map<string, BookData>, lookup: Lookup, entries: seq<Entry>, i: nat,
                      books: seq<BookData>, mid: map<string, BookData>, book: BookData, after: map<string, BookData>)
    requires i < |entries|
    requires Run(books, mid) == Aggregate(cache, lookup, entries[..i])
    requires Step(book, after) == Retrieve(mid, lookup, entries[i].isbn, entries[i].rowNumber)
    ensures Run(books + [book], after) == Aggregate(cache, lookup, entries[..i + 1])
  {
    assert entries[..i] + [entries[i]] == entries[..i + 1];
    AggregateSnoc(cache, lookup, entries[..i], entries[i]);
  }

  /**
   * One record per entry, in entry order: record i is what retrieving entry i
   * returns from the cache the first i entries left behind.
   */
  lemma {:induction false} AggregateAt(cache: map<string, BookData>, lookup: Lookup, entries: seq<Entry>, i: nat)
    requires i < |entries|
    ensures var run := Aggregate(cache, lookup, entries);
      var step := Retrieve(Aggregate(cache, lookup, entries[..i]).cache, lookup, entries[i].isbn, entries[i].rowNumber);
      |run.records| == |entries| && run.records[i] == step.record
      && Aggregate(cache, lookup, entries[..i + 1]).cache == step.cache
    decreases |entries|
  {
    var n := |entries|;
    var init := entries[..n - 1];
    assert entries == init + [entries[n - 1]];
    AggregateSnoc(cache, lookup, init, entries[n - 1]);
    if i < n - 1 {
      assert init[..i] == entries[..i] && init[..i + 1] == entries[..i + 1];
      AggregateAt(cache, lookup, init, i);
    } else {
      assert entries[..i + 1] == entries;
    }
  }

  /** Over any run the cache only grows, and it stays valid. */
  lemma {:induction false} AggregateGrowsCache(cache: map<string, BookData>, lookup: Lookup, entries: seq<Entry>)
    requires CacheValid(cache)
    ensures var run := Aggregate(cache, lookup, entries);
      Extends(run.cache, cache) && CacheValid(run.cache)
    decreases |entries|
  {
    if entries != [] {
      var init := entries[..|entries| - 1];
      var e := entries[|entries| - 1];
      AggregateGrowsCache(cache, lookup, init);
      RetrieveInvariants(Aggregate(cache, lookup, init).cache, lookup, e.isbn, e.rowNumber);
    }
  }

  /** The cache after a longer prefix of the entries extends the cache after a shorter one. */
  lemma {:induction false} AggregatePrefixGrows(cache: map<string, BookData>, lookup: Lookup, entries: seq<Entry>, i: nat, j: nat)
    requires CacheValid(cache) && i <= j <= |entries|
    ensures Extends(Aggregate(cache, lookup, entries[..j]).cache, Aggregate(cache, lookup, entries[..i]).cache)
    decreases j - i
  {
    if i < j {
      AggregatePrefixGrows(cache, lookup, entries, i, j - 1);
      var mid := Aggregate(cache, lookup, entries[..j - 1]).cache;
      AggregateGrowsCache(cache, lookup, entries[..j - 1]);
      AggregateSnoc(cache, lookup, entries[..j - 1], entries[j - 1]);
      assert entries[..j - 1] + [entries[j - 1]] == entries[..j];
      RetrieveInvariants(mid, lookup, entries[j - 1].isbn, entries[j - 1].rowNumber);
    }
  }

  /**
   * Every record is for its entry's ISBN; a successful record carries its
   * entry's row number; and a record is a failure (no authors, no origin)
   * exactly when its ISBN was not cached at that point and the network said no.
   */
  lemma RecordOfEntry(cache: map<string, BookData>, lookup: Lookup, entries: seq<Entry>, i: nat)
    requires CacheValid(cache) && i < |entries|
    ensures var r := Aggregate(cache, lookup, entries).records;
      |r| == |entries| && r[i].isbn == entries[i].isbn
      && (r[i].retrievalType == Unset <==> r[i].authors.None?)
      && (r[i].retrievalType == Unset ==> lookup(entries[i].isbn).None?)
      && (r[i].retrievalType != Unset ==> r[i].rowNumber == entries[i].rowNumber)
  {
    AggregateAt(cache, lookup, entries, i);
    AggregateGrowsCache(cache, lookup, entries[..i]);
    RetrieveInvariants(Aggregate(cache, lookup, entries[..i]).cache, lookup, entries[i].isbn, entries[i].rowNumber);
  }

  /**
   * An ISBN fetched twice: once an entry's lookup has succeeded, every later
   * entry with the same ISBN is served from the cache (no network request) with
   * the same data as the earlier record and its own row number.
   */
  lemma SecondFetchFromCache(cache: map<string, BookData>, lookup: Lookup, entries: seq<Entry>, i: nat, j: nat)
    requires CacheValid(cache) && i < j < |entries|
    requires entries[i].isbn == entries[j].isbn
    requires Aggregate(cache, lookup, entries).records[i].retrievalType != Unset
    ensures var r := Aggregate(cache, lookup, entries).records;
      r[j].retrievalType == Cache && SameData(r[j], r[i]) && r[j].rowNumber == entries[j].rowNumber
  {
    var isbn := entries[i].isbn;
    AggregateAt(cache, lookup, entries, i);
    AggregateAt(cache, lookup, entries, j);
    var ci := Aggregate(cache, lookup, entries[..i]).cache;
    AggregateGrowsCache(cache, lookup, entries[..i]);
    RetrieveInvariants(ci, lookup, isbn, entries[i].rowNumber);
    AggregatePrefixGrows(cache, lookup, entries, i + 1, j);
  }

  /** The cache after a run holds only the keys it started with and the ISBNs of the entries. */
  lemma {:induction false} AggregateKeys(cache: map<string, BookData>, lookup: Lookup, entries: seq<Entry>)
    ensures forall k :: k in Aggregate(cache, lookup, entries).cache ==>
      k in cache || exists j :: 0 <= j < |entries| && entries[j].isbn == k
    decreases |entries|
  {
    if entries != [] {
      var n := |entries|;
      var init := entries[..n - 1];
      AggregateKeys(cache, lookup, init);
      forall k | k in Aggregate(cache, lookup, entries).cache
        ensures k in cache || exists j :: 0 <= j < n && entries[j].isbn == k
      {
        if k != entries[n - 1].isbn && k !in cache {
          var j :| 0 <= j < n - 1 && init[j].isbn == k;
          assert entries[j].isbn == k;
        }
      }
    }
  }

  /**
   * An ISBN seen for the first time in the run, and not cached before it, is
   * fetched: its record is a server record when the network answers and a
   * failure when it does not.
   */
  lemma FirstSightingFetched(cache: map<string, BookData>, lookup: Lookup, entries: seq<Entry>, i: nat)
    requires i < |entries| && entries[i].isbn !in cache
    requires forall j :: 0 <= j < i ==> entries[j].isbn != entries[i].isbn
    ensures var r := Aggregate(cache, lookup, entries).records[i];
      r.retrievalType == (if lookup(entries[i].isbn).Some? then Server else Unset)
  {
    AggregateAt(cache, lookup, entries, i);
    AggregateKeys(cache, lookup, entries[..i]);
    assert entries[i].isbn !in Aggregate(cache, lookup, entries[..i]).cache;
  }

  /** The first successful fetch of an ISBN stays the cached record for the rest of the run. */
  lemma FirstFetchCanonical(cache: map<string, BookData>, lookup: Lookup, entries: seq<Entry>, i: nat)
    requires CacheValid(cache) && i < |entries|
    requires Aggregate(cache, lookup, entries).records[i].retrievalType == Server
    ensures var run := Aggregate(cache, lookup, entries);
      entries[i].isbn in run.cache && run.cache[entries[i].isbn] == run.records[i]
  {
    AggregateAt(cache, lookup, entries, i);
    AggregatePrefixGrows(cache, lookup, entries, i + 1, |entries|);
    assert entries[..|entries|] == entries;
  }

  // ---------------------------------------------------------------------------
  // The resolver's state
  // ---------------------------------------------------------------------------

  /** The resolver's process-lifetime cache, with a log of the ISBNs it sent to the network. */
  class Resolver {
    var cache: map<string, BookData>
    ghost var requests: seq<string>

    ghost predicate Valid()
      reads this
    {
      CacheValid(cache)
    }

    /** The cache starts empty. */
    constructor ()
      ensures Valid() && cache == map[] && requests == []
    {
      cache := map[];
      requests := [];
    }

    /** Whether `isbn` has a cached record; never touches the network. */
    method CheckCache(isbn: string) returns (cached: bool)
      ensures cached <==> isbn in cache
    {
      cached := isbn in cache;
    }

    /** Records `book` as the cached record for `isbn`. */
    method StoreInCache(isbn: string, book: BookData)
      modifies this`cache
      ensures cache == old(cache)[isbn := book]
    {
      cache := cache[isbn := book];
    }

    /**
     * One retrieval: served from the cache on a hit, otherwise fetched,
     * normalised and stored; a failed fetch returns a record with only its
     * ISBN set. Exactly the misses send a request.
     */
    method RetrieveBookData(lookup: Lookup, isbn: string, rowNumber: int) returns (book: BookData)
      requires Valid()
      modifies this
      ensures Valid()
      ensures Step(book, cache) == Retrieve(old(cache), lookup, isbn, rowNumber)
      ensures Extends(cache, old(cache))
      ensures requests == old(requests) + (if isbn in old(cache) then [] else [isbn])
      ensures book.isbn == isbn && (book.retrievalType == Cache <==> isbn in old(cache))
    {
      book := Blank.(isbn := isbn);
      var isDataCached := CheckCache(isbn);
      if !isDataCached {
        requests := requests + [isbn];
        var response := lookup(isbn);
        if response.Some? {
          var raw := response.value;
          book := book.(rowNumber := rowNumber);
          book := book.(title := raw.title);
          book := book.(subtitle := raw.subtitle.GetOr("N/A"));
          var names: seq<string> := [];
          var k := 0;
          while k < |raw.authors|
            invariant 0 <= k <= |raw.authors|
            invariant names == AuthorNames(raw.authors[..k])
          {
            names := names + [raw.authors[k].name];
            k := k + 1;
          }
          assert raw.authors[..k] == raw.authors;
          book := book.(authors := Some(names));
          book := book.(numberOfPages := raw.numberOfPages.GetOr("N/A"));
          book := book.(publishDate := raw.publishDate);
          book := book.(retrievalType := Server);
          StoreInCache(isbn, book);
        } else {
          // The source reports the failed ISBN on the console and returns the bare record.
        }
      } else {
        var cached := cache[isbn];
        book := BookData(rowNumber, Cache, cached.isbn, cached.title, cached.subtitle,
                         cached.authors, cached.numberOfPages, cached.publishDate);
      }
    }

    /**
     * One pass of the aggregation loop: retrieves entry `i` and appends its
     * record, keeping the records, the cache and the request log in step with
     * the first `i + 1` entries.
     */
    method RetrieveNext(lookup: Lookup, entries: seq<Entry>, i: nat, books: seq<BookData>,
                        ghost start: map<string, BookData>, ghost log: seq<string>)
      returns (next: seq<BookData>)
      requires Valid() && i < |entries|
      requires Run(books, cache) == Aggregate(start, lookup, entries[..i])
      requires requests == log + RequestedIsbns(books)
      modifies this
      ensures Valid()
      ensures Run(next, cache) == Aggregate(start, lookup, entries[..i + 1])
      ensures requests == log + RequestedIsbns(next)
    {
      ghost var mid := cache;
      ghost var sent := requests;
      var book := RetrieveBookData(lookup, entries[i].isbn, entries[i].rowNumber);
      AggregateStep(start, lookup, entries, i, books, mid, book, cache);
      RequestLogStep(log, books, book, sent, requests);
      next := books + [book];
    }

    /**
     * The loop over the parsed entries: one retrieval per entry, in order, each
     * result appended whether or not the lookup succeeded. The network sees one
     * request per record not served from the cache.
     */
    method RetrieveAll(lookup: Lookup, entries: seq<Entry>) returns (books: seq<BookData>)
      requires Valid()
      modifies this
      ensures Valid()
      ensures Run(books, cache) == Aggregate(old(cache), lookup, entries)
      ensures requests == old(requests) + RequestedIsbns(books)
    {
      books := [];
      var i := 0;
      while i < |entries|
        invariant 0 <= i <= |entries|
        invariant Valid()
        invariant Run(books, cache) == Aggregate(old(cache), lookup, entries[..i])
        invariant requests == old(requests) + RequestedIsbns(books)
      {
        books := RetrieveNext(lookup, entries, i, books, old(cache), old(requests));
        i := i + 1;
      }
      assert entries[..i] == entries;
    }
  }
}
