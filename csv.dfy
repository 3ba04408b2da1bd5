/**
 * Rendering the resolved records as CSV text: a fixed header line, then one
 * line per record. Only the authors and the publish date are quoted; no field
 * is escaped. Each line ends with "\n", standing for the platform line break.
 */
module CsvGenerator {
  import opened Wrappers
  import opened Text
  import opened Books

  /** The header line: the column names separated by commas. */
  const Header: string :=
    "Row Number" + "," + "Data Retrieval Type" + "," + "ISBN" + "," + "Title" + ","
    + "Subtitle" + "," + "Author Name(s)" + "," + "Number of Pages" + "," + "Publish Date"

  /** The column names the header lists, in order. */
  const Columns: seq<string> :=
    ["Row Number", "Data Retrieval Type", "ISBN", "Title", "Subtitle",
     "Author Name(s)", "Number of Pages", "Publish Date"]

  /** The enum's name; the unnamed default value 0 renders as its number. */
  function TypeName(t: RetrievalType): string {
    match t
    case Unset => "0"
    case Server => "Server"
    case Cache => "Cache"
  }

  /**
   * The authors text: joined with ";" when there are several, joined with
   * nothing otherwise. Either way it is the ";"-join of the list.
   */
  function AuthorsText(authors: seq<string>): (r: string)
    ensures r == Join(";", authors)
  {
    if |authors| > 1 then Join(";", authors)
    else
      JoinShort("", ";", authors);
      Join("", authors)
  }

  /** A field wrapped in double quotes, with nothing inside escaped. */
  function Quoted(s: string): string {
    "\"" + s + "\""
  }

  /** The eight rendered fields of a record line, in column order. */
  function Fields(b: BookData): seq<string>
    requires b.authors.Some?
  {
    [IntToString(b.rowNumber), TypeName(b.retrievalType), b.isbn, b.title, b.subtitle,
     Quoted(AuthorsText(b.authors.value)), b.numberOfPages, Quoted(b.publishDate)]
  }

  /** A record's line: its fields in column order, separated by commas. */
  function RecordLine(b: BookData): string
    requires b.authors.Some?
  {
    Join(",", Fields(b))
  }

  /** Every record has an author list, so none makes the renderer dereference null. */
  predicate Renderable(records: seq<BookData>) {
    forall i :: 0 <= i < |records| ==> records[i].authors.Some?
  }

  /** The lines of the records, in order. */
  function Lines(records: seq<BookData>): (lines: seq<string>)
    requires Renderable(records)
    ensures |lines| == |records|
    decreases |records|
  {
    if records == [] then [] else Lines(records[..|records| - 1]) + [RecordLine(records[|records| - 1])]
  }

  /** Lines, each followed by a line break. */
  function Terminated(lines: seq<string>): string
    decreases |lines|
  {
    if lines == [] then "" else Terminated(lines[..|lines| - 1]) + lines[|lines| - 1] + "\n"
  }

  /**
   * The CSV text, or `None` when some record has no author list: the source
   * then fails with a null dereference and produces no text at all.
   */
  function Csv(records: seq<BookData>): (r: Option<string>)
    ensures r.None? <==> exists i :: 0 <= i < |records| && records[i].authors.None?
  {
    if Renderable(records) then Some(Header + "\n" + Terminated(Lines(records))) else None
  }

  /** One more record adds its line at the end. */
  lemma LinesSnoc(records: seq<BookData>, i: nat)
    requires i < |records| && Renderable(records[..i]) && records[i].authors.Some?
    ensures Renderable(records[..i + 1])
    ensures Lines(records[..i + 1]) == Lines(records[..i]) + [RecordLine(records[i])]
  {
    assert records[..i + 1][..i] == records[..i];
    assert forall k :: 0 <= k < i + 1 ==> records[..i + 1][k] == records[k];
  }

  /** The renderer's loop: a header line, then one line per record in list order. */
  method GenerateCsv(records: seq<BookData>) returns (csv: Option<string>)
    ensures csv == Csv(records)
  {
    var text := Header + "\n";
    var i := 0;
    while i < |records|
      invariant 0 <= i <= |records|
      invariant Renderable(records[..i])
      invariant text == Header + "\n" + Terminated(Lines(records[..i]))
    {
      var bookData := records[i];
      if bookData.authors.None? {
        // Reading the count of a null author list throws; no text is produced.
        return None;
      }
      var names := bookData.authors.value;
      var authors := if |names| > 1 then Join(";", names) else Join("", names);
      var rowData := IntToString(bookData.rowNumber) + "," + TypeName(bookData.retrievalType) + ","
        + bookData.isbn + "," + bookData.title + "," + bookData.subtitle + ","
        + Quoted(authors) + "," + bookData.numberOfPages + "," + Quoted(bookData.publishDate);
      assert Fields(bookData) == [IntToString(bookData.rowNumber), TypeName(bookData.retrievalType),
        bookData.isbn, bookData.title, bookData.subtitle, Quoted(authors), bookData.numberOfPages,
        Quoted(bookData.publishDate)];
      Join8(",", IntToString(bookData.rowNumber), TypeName(bookData.retrievalType), bookData.isbn,
            bookData.title, bookData.subtitle, Quoted(authors), bookData.numberOfPages,
            Quoted(bookData.publishDate));
      assert rowData == RecordLine(bookData);
      LinesSnoc(records, i);
      TerminatedSnoc(Header + "\n", Lines(records[..i]), rowData);
      text := text + rowData + "\n";
      i := i + 1;
    }
    assert records[..i] == records;
    csv := Some(text);
  }

  /** One more line adds it and a line break at the end. */
  lemma TerminatedSnoc(head: string, lines: seq<string>, x: string)
    ensures head + Terminated(lines) + x + "\n" == head + Terminated(lines + [x])
  {
    assert (lines + [x])[..|lines|] == lines;
    assert head + (Terminated(lines) + x + "\n") == head + Terminated(lines) + x + "\n";
  }

  /** Joining a prefix one part longer adds the separator and that part. */
  lemma JoinPrefix(sep: string, parts: seq<string>, k: nat)
    requires 1 <= k < |parts|
    ensures Join(sep, parts[..k + 1]) == Join(sep, parts[..k]) + sep + parts[k]
  {
    assert parts[..k + 1][..k] == parts[..k];
  }

  /** Joining eight parts written out. */
  lemma Join8(sep: string, a0: string, a1: string, a2: string, a3: string,
              a4: string, a5: string, a6: string, a7: string)
    ensures Join(sep, [a0, a1, a2, a3, a4, a5, a6, a7])
      == a0 + sep + a1 + sep + a2 + sep + a3 + sep + a4 + sep + a5 + sep + a6 + sep + a7
  {
    var f := [a0, a1, a2, a3, a4, a5, a6, a7];
    assert f[..8] == f;
    assert Join(sep, f[..1]) == f[0];
    JoinPrefix(sep, f, 1);
    JoinPrefix(sep, f, 2);
    JoinPrefix(sep, f, 3);
    JoinPrefix(sep, f, 4);
    JoinPrefix(sep, f, 5);
    JoinPrefix(sep, f, 6);
    JoinPrefix(sep, f, 7);
  }

  /** The header line is the column names joined with commas. */
  lemma HeaderIsJoin()
    ensures Header == Join(",", Columns)
  {
    Join8(",", "Row Number", "Data Retrieval Type", "ISBN", "Title", "Subtitle",
          "Author Name(s)", "Number of Pages", "Publish Date");
  }

  /** No column name holds a comma or a line break. */
  lemma ColumnsPlain()
    ensures forall i :: 0 <= i < |Columns| ==> ',' !in Columns[i] && '\n' !in Columns[i]
  {
  }

  /** The header line holds no line break. */
  lemma HeaderPlain()
    ensures '\n' !in Header
  {
    HeaderIsJoin();
    ColumnsPlain();
    JoinAvoids(",", Columns, '\n');
  }

  /** The header line lists exactly the eight column names. */
  lemma HeaderColumns()
    ensures Split(Header, ',') == Columns
  {
    HeaderIsJoin();
    ColumnsPlain();
    SplitJoin(Columns, ',');
  }

  /**
   * The authors field for each list length: no authors give "", one gives the
   * name, two give both names with ";" between.
   */
  lemma AuthorsExamples()
    ensures AuthorsText([]) == ""
    ensures AuthorsText(["A"]) == "A"
    ensures AuthorsText(["A", "B"]) == "A;B"
  {
    assert ["A", "B"][..1] == ["A"];
  }

  /** No text field and no author name of the record holds the character `c`. */
  predicate FieldsAvoid(b: BookData, c: char)
    requires b.authors.Some?
  {
    c !in b.isbn && c !in b.title && c !in b.subtitle && c !in b.numberOfPages
    && c !in b.publishDate && (forall k :: 0 <= k < |b.authors.value| ==> c !in b.authors.value[k])
  }

  /**
   * The fields of a record line can be read back by splitting it on commas,
   * provided the unescaped text fields hold no comma themselves.
   */
  lemma RecordFields(b: BookData)
    requires b.authors.Some? && FieldsAvoid(b, ',')
    ensures Split(RecordLine(b), ',') == Fields(b) && |Fields(b)| == |Columns|
  {
    IntToStringPlain(b.rowNumber);
    JoinAvoids(";", b.authors.value, ',');
    var f := Fields(b);
    forall i | 0 <= i < |f| ensures ',' !in f[i] {
      if i == 5 { assert f[5] == "\"" + AuthorsText(b.authors.value) + "\""; }
      if i == 7 { assert f[7] == "\"" + b.publishDate + "\""; }
    }
    SplitJoin(f, ',');
  }

  /** A header followed by terminated lines is the break-join of the header, the lines and a final "". */
  lemma {:induction false} TerminatedJoin(header: string, lines: seq<string>)
    ensures header + "\n" + Terminated(lines) == Join("\n", [header] + lines + [""])
    decreases |lines|
  {
    var parts := [header] + lines;
    JoinSnoc("\n", parts, "");
    if lines == [] {
      assert parts == [header];
    } else {
      var init, last := lines[..|lines| - 1], lines[|lines| - 1];
      TerminatedJoin(header, init);
      var before := [header] + init;
      assert parts == before + [last];
      JoinSnoc("\n", before, "");
      JoinSnoc("\n", before, last);
      var j := Join("\n", before);
      assert header + "\n" + Terminated(init) == j + "\n";
      calc {
        header + "\n" + Terminated(lines);
        header + "\n" + (Terminated(init) + last + "\n");
        (header + "\n" + Terminated(init)) + last + "\n";
        j + "\n" + last + "\n";
        Join("\n", parts) + "\n" + "";
      }
    }
  }

  /** Splitting a header and break-terminated lines at line breaks gives them back, then "". */
  lemma SplitTerminated(header: string, lines: seq<string>)
    requires '\n' !in header
    requires forall i :: 0 <= i < |lines| ==> '\n' !in lines[i]
    ensures Split(header + "\n" + Terminated(lines), '\n') == [header] + lines + [""]
  {
    TerminatedJoin(header, lines);
    var parts := [header] + lines + [""];
    forall i | 0 <= i < |parts| ensures '\n' !in parts[i] {
      if 0 < i <= |lines| { assert parts[i] == lines[i - 1]; }
    }
    SplitJoin(parts, '\n');
  }

  /** Line i is the line of record i. */
  lemma {:induction false} LinesAt(records: seq<BookData>, i: nat)
    requires Renderable(records) && i < |records|
    ensures Lines(records)[i] == RecordLine(records[i])
    decreases |records|
  {
    var n := |records|;
    var init := records[..n - 1];
    assert Lines(records) == Lines(init) + [RecordLine(records[n - 1])];
    if i < n - 1 {
      LinesAt(init, i);
      assert init[i] == records[i];
    }
  }

  /** A record whose fields hold no line break renders as a line without one. */
  lemma RecordLineNoBreak(b: BookData)
    requires b.authors.Some? && FieldsAvoid(b, '\n')
    ensures '\n' !in RecordLine(b)
  {
    IntToStringPlain(b.rowNumber);
    JoinAvoids(";", b.authors.value, '\n');
    var f := Fields(b);
    forall i | 0 <= i < |f| ensures '\n' !in f[i] {
      if i == 5 { assert f[5] == "\"" + AuthorsText(b.authors.value) + "\""; }
      if i == 7 { assert f[7] == "\"" + b.publishDate + "\""; }
    }
    JoinAvoids(",", f, '\n');
  }

  /** No rendered line holds a line break when no record's fields do. */
  lemma LinesNoBreak(records: seq<BookData>)
    requires Renderable(records)
    requires forall i :: 0 <= i < |records| ==> FieldsAvoid(records[i], '\n')
    ensures forall i :: 0 <= i < |Lines(records)| ==> '\n' !in Lines(records)[i]
  {
    forall i | 0 <= i < |Lines(records)| ensures '\n' !in Lines(records)[i] {
      LinesAt(records, i);
      RecordLineNoBreak(records[i]);
    }
  }

  /**
   * Splitting the CSV text at line breaks gives the header, then each record's
   * line in list order, then the empty text after the final break, provided no
   * field holds a line break.
   */
  lemma CsvLines(records: seq<BookData>)
    requires Renderable(records)
    requires forall i :: 0 <= i < |records| ==> FieldsAvoid(records[i], '\n')
    ensures Csv(records) == Some(Header + "\n" + Terminated(Lines(records)))
    ensures Split(Header + "\n" + Terminated(Lines(records)), '\n') == [Header] + Lines(records) + [""]
  {
    HeaderPlain();
    LinesNoBreak(records);
    SplitTerminated(Header, Lines(records));
  }
}
