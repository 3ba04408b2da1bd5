/**
 * The whole run: parse the input lines, resolve every entry against a cache
 * that starts empty, and render the records as CSV.
 *
 * As written, a failed lookup's record is kept and its null author list makes
 * the renderer fail, so no CSV is produced. `CorrectedCsv` is the corrected pipeline,
 * which leaves such records out.
 */
module Pipeline {
  import opened Wrappers
  import opened Text
  import opened Books
  import opened InputParser
  import opened Retrieval
  import opened CsvGenerator

  /** The records of the run, one per parsed entry, failures included. */
  function Records(lines: seq<string>, lookup: Lookup): seq<BookData> {
    Aggregate(map[], lookup, ParseLines(lines)).records
  }

  /** The run as written: every record, failed or not, goes to the renderer. */
  function RunAsWritten(lines: seq<string>, lookup: Lookup): Option<string> {
    Csv(Records(lines, lookup))
  }

  /** One failed lookup anywhere in the run and the as-written pipeline produces no CSV. */
  lemma FailedLookupAbortsCsv(lines: seq<string>, lookup: Lookup, i: nat)
    requires i < |Records(lines, lookup)|
    requires Records(lines, lookup)[i].retrievalType == Unset
    ensures RunAsWritten(lines, lookup) == None
  {
    RecordOfEntry(map[], lookup, ParseLines(lines), i);
  }

  /** The smallest case: a single ISBN that the lookup service answers with an error status. */
  lemma FailedLookupExample()
    ensures RunAsWritten(["0000000000"], _ => None) == None
  {
    var lookup: Lookup := _ => None;
    var lines := ["0000000000"];
    ParseLinesRows(lines);
    assert |ParseLines(lines)| == 1 by {
      assert PieceCount(lines) == Count("0000000000", ',') + 1 by {
        assert lines[..0] == [];
      }
      CountZero("0000000000", ',');
    }
    FirstSightingFetched(map[], lookup, ParseLines(lines), 0);
    FailedLookupAbortsCsv(lines, lookup, 0);
  }

  /**
   * The records whose lookup succeeded, in their original order: every kept
   * record succeeded and comes from the input (`SuccessfulKeeps` and
   * `SuccessfulComplete` show that every record that succeeded is kept).
   */
  function Successful(records: seq<BookData>): (r: seq<BookData>)
    ensures |r| <= |records|
    ensures forall k :: 0 <= k < |r| ==> r[k].retrievalType != Unset && r[k] in records
    decreases |records|
  {
    if records == [] then []
    else
      var last := records[|records| - 1];
      Successful(records[..|records| - 1]) + (if last.retrievalType == Unset then [] else [last])
  }

  /** Filtering a prefix of the records gives a prefix of the filtered records. */
  lemma {:induction false} SuccessfulPrefix(records: seq<BookData>, i: nat)
    requires i <= |records|
    ensures Successful(records[..i]) <= Successful(records)
    decreases |records|
  {
    if i == |records| {
      assert records[..i] == records;
    } else {
      var init := records[..|records| - 1];
      assert records[..i] == init[..i];
      SuccessfulPrefix(init, i);
    }
  }

  /**
   * A record that succeeded is kept exactly once, right after the records
   * kept before it, at the position given by their number: so the filter
   * keeps the successful records in their original order and nothing else.
   */
  lemma SuccessfulKeeps(records: seq<BookData>, i: nat)
    requires i < |records| && records[i].retrievalType != Unset
    ensures Successful(records[..i + 1]) == Successful(records[..i]) + [records[i]]
    ensures |Successful(records[..i])| < |Successful(records)|
    ensures Successful(records)[|Successful(records[..i])|] == records[i]
  {
    assert records[..i + 1][..i] == records[..i];
    assert Successful(records[..i + 1]) == Successful(records[..i]) + [records[i]];
    SuccessfulPrefix(records, i + 1);
  }

  /** Every record whose lookup succeeded is among the kept records. */
  lemma SuccessfulComplete(records: seq<BookData>)
    ensures forall i :: 0 <= i < |records| && records[i].retrievalType != Unset ==> records[i] in Successful(records)
  {
    forall i | 0 <= i < |records| && records[i].retrievalType != Unset
      ensures records[i] in Successful(records)
    {
      SuccessfulKeeps(records, i);
    }
  }

  /** A record that failed is dropped: the filter keeps no more than the records before it did. */
  lemma SuccessfulDrops(records: seq<BookData>, i: nat)
    requires i < |records| && records[i].retrievalType == Unset
    ensures Successful(records[..i + 1]) == Successful(records[..i])
  {
    assert records[..i + 1][..i] == records[..i];
  }

  /** Nothing is dropped when no lookup failed. */
  lemma {:induction false} SuccessfulAll(records: seq<BookData>)
    requires forall i :: 0 <= i < |records| ==> records[i].retrievalType != Unset
    ensures Successful(records) == records
    decreases |records|
  {
    if records != [] {
      var init := records[..|records| - 1];
      SuccessfulAll(init);
      assert Successful(records) == init + [records[|records| - 1]];
      assert init + [records[|records| - 1]] == records;
    }
  }

  /** The filter keeps only records with an author list when every successful record has one. */
  lemma {:induction false} SuccessfulHaveAuthors(records: seq<BookData>)
    requires forall i :: 0 <= i < |records| && records[i].retrievalType != Unset ==> records[i].authors.Some?
    ensures Renderable(Successful(records))
    decreases |records|
  {
    if records != [] {
      var init := records[..|records| - 1];
      assert forall i :: 0 <= i < |init| ==> init[i] == records[i];
      SuccessfulHaveAuthors(init);
    }
  }

  /** Every record of the run that survives the filter has its author list. */
  lemma SuccessfulRenderable(lines: seq<string>, lookup: Lookup)
    ensures Renderable(Successful(Records(lines, lookup)))
  {
    var entries := ParseLines(lines);
    var records := Records(lines, lookup);
    forall i | 0 <= i < |records| && records[i].retrievalType != Unset
      ensures records[i].authors.Some?
    {
      RecordOfEntry(map[], lookup, entries, i);
    }
    SuccessfulHaveAuthors(records);
  }

  /**
   * The corrected run: the records of failed lookups are reported and left
   * out, and the rest are rendered; the text always starts with the header line.
   */
  function CorrectedCsv(lines: seq<string>, lookup: Lookup): (csv: string)
    ensures |csv| > |Header| && csv[..|Header| + 1] == Header + "\n"
  {
    SuccessfulRenderable(lines, lookup);
    Csv(Successful(Records(lines, lookup))).value
  }

  /**
   * The corrected run renders the header line and then one line for each
   * record whose lookup succeeded, in the order of the entries.
   */
  lemma RunRendersKept(lines: seq<string>, lookup: Lookup)
    ensures Renderable(Successful(Records(lines, lookup)))
    ensures CorrectedCsv(lines, lookup) == Header + "\n" + Terminated(Lines(Successful(Records(lines, lookup))))
  {
    SuccessfulRenderable(lines, lookup);
  }

  /** When every lookup succeeds, the corrected run renders exactly what the source renders. */
  lemma RunAgreesWithoutFailures(lines: seq<string>, lookup: Lookup)
    requires forall i :: 0 <= i < |Records(lines, lookup)| ==> Records(lines, lookup)[i].retrievalType != Unset
    ensures RunAsWritten(lines, lookup) == Some(CorrectedCsv(lines, lookup))
  {
    var records := Records(lines, lookup);
    SuccessfulAll(records);
    assert Renderable(records) by { SuccessfulRenderable(lines, lookup); }
  }

  /** Keeping the first and last of three records when only the middle one failed. */
  lemma SuccessfulOfThree(r: seq<BookData>)
    requires |r| == 3
    requires r[0].retrievalType != Unset && r[1].retrievalType == Unset && r[2].retrievalType != Unset
    ensures Successful(r) == [r[0], r[2]]
  {
    assert r[..2][..1] == r[..1] && r[..1][..0] == [];
    assert Successful(r[..1]) == [r[0]];
    assert Successful(r[..2]) == [r[0]];
  }

  /** Three entries with distinct ISBNs whose middle lookup fails: only the middle record fails. */
  lemma {:induction false} ThreeFetches(entries: seq<Entry>, lookup: Lookup)
    requires |entries| == 3
    requires entries[0].isbn != entries[1].isbn && entries[1].isbn != entries[2].isbn
    requires entries[0].isbn != entries[2].isbn
    requires lookup(entries[0].isbn).Some? && lookup(entries[1].isbn).None?
    requires lookup(entries[2].isbn).Some?
    ensures var r := Aggregate(map[], lookup, entries).records;
      r[0].retrievalType == Server && r[1].retrievalType == Unset && r[2].retrievalType == Server
      && r[0].rowNumber == entries[0].rowNumber && r[0].isbn == entries[0].isbn
      && r[2].rowNumber == entries[2].rowNumber && r[2].isbn == entries[2].isbn
  {
    FirstSightingFetched(map[], lookup, entries, 0);
    FirstSightingFetched(map[], lookup, entries, 1);
    assert forall j :: 0 <= j < 2 ==> entries[j].isbn != entries[2].isbn;
    FirstSightingFetched(map[], lookup, entries, 2);
    RecordOfEntry(map[], lookup, entries, 0);
    RecordOfEntry(map[], lookup, entries, 2);
  }

  /**
   * Three single-ISBN lines whose middle lookup fails: the corrected run keeps
   * two records, those of rows 1 and 3, and row 2 is absent.
   */
  lemma OneFailureAmongThree(a: string, b: string, c: string, lookup: Lookup)
    requires ',' !in a && ',' !in b && ',' !in c
    requires Trim(a) != Trim(b) && Trim(b) != Trim(c) && Trim(a) != Trim(c)
    requires lookup(Trim(a)).Some? && lookup(Trim(b)).None? && lookup(Trim(c)).Some?
    ensures var kept := Successful(Records([a, b, c], lookup));
      |kept| == 2 && kept[0].rowNumber == 1 && kept[0].isbn == Trim(a)
      && kept[1].rowNumber == 3 && kept[1].isbn == Trim(c)
  {
    var lines := [a, b, c];
    assert lines[0] == a && lines[1] == b && lines[2] == c;
    ParseLinesNoCommas(lines);
    var entries := ParseLines(lines);
    assert entries[0] == Entry(1, Trim(a)) && entries[1] == Entry(2, Trim(b)) && entries[2] == Entry(3, Trim(c));
    ThreeFetches(entries, lookup);
    var records := Aggregate(map[], lookup, entries).records;
    assert Records(lines, lookup) == records;
    SuccessfulOfThree(records);
  }
}
