/** Turning the lines of the input file into row-numbered ISBN entries. */
module InputParser {
  import opened Text
  import opened Books

  /** The pieces, each trimmed and tagged with the row number, in order. */
  function Tagged(pieces: seq<string>, row: int): (r: seq<Entry>)
    ensures |r| == |pieces|
    decreases |pieces|
  {
    if pieces == [] then []
    else Tagged(pieces[..|pieces| - 1], row) + [Entry(row, Trim(pieces[|pieces| - 1]))]
  }

  /** Entry i of the tagged pieces is piece i, trimmed, on the row. */
  lemma {:induction false} TaggedAt(pieces: seq<string>, row: int, i: nat)
    requires i < |pieces|
    ensures Tagged(pieces, row)[i] == Entry(row, Trim(pieces[i]))
    decreases |pieces|
  {
    var n := |pieces|;
    if i < n - 1 {
      TaggedAt(pieces[..n - 1], row, i);
      assert pieces[..n - 1][i] == pieces[i];
    }
  }

  /** The entries one line yields: a line with commas gives one per piece, else one for the line. */
  function ParseLine(line: string, row: int): seq<Entry> {
    if ',' in line then Tagged(Split(line, ','), row) else [Entry(row, Trim(line))]
  }

  /** The entries of all lines, line k (1-based) tagged with row number k. */
  function ParseLines(lines: seq<string>): seq<Entry>
    decreases |lines|
  {
    if lines == [] then []
    else ParseLines(lines[..|lines| - 1]) + ParseLine(lines[|lines| - 1], |lines|)
  }

  /** The number of entries the lines yield: one per comma-separated piece. */
  function PieceCount(lines: seq<string>): nat
    decreases |lines|
  {
    if lines == [] then 0 else PieceCount(lines[..|lines| - 1]) + Count(lines[|lines| - 1], ',') + 1
  }

  /** The entries of `entries` whose row number is `row`, in order. */
  function WithRow(entries: seq<Entry>, row: int): seq<Entry>
    decreases |entries|
  {
    if entries == [] then []
    else
      var last := entries[|entries| - 1];
      WithRow(entries[..|entries| - 1], row) + (if last.rowNumber == row then [last] else [])
  }

  /**
   * Both branches of the line parser agree: a line yields exactly the trimmed
   * pieces of splitting it on commas, empty pieces included, so a line with
   * n commas yields n + 1 entries and a line without one yields its own trim.
   */
  lemma ParseLinePieces(line: string, row: int)
    ensures var pieces := Split(line, ',');
      |ParseLine(line, row)| == |pieces| == Count(line, ',') + 1
      && forall i :: 0 <= i < |pieces| ==>
           ParseLine(line, row)[i] == Entry(row, Trim(pieces[i]))
    ensures ',' !in line ==> ParseLine(line, row) == [Entry(row, Trim(line))]
  {
    var pieces := Split(line, ',');
    if ',' !in line {
      SplitNoSep(line, ',');
    } else {
      forall i | 0 <= i < |pieces| ensures ParseLine(line, row)[i] == Entry(row, Trim(pieces[i])) {
        TaggedAt(pieces, row, i);
      }
    }
  }

  /** Every entry of a line carries that line's row number, and a line yields at least one. */
  lemma ParseLineRow(line: string, row: int)
    ensures |ParseLine(line, row)| == Count(line, ',') + 1
    ensures forall i :: 0 <= i < |ParseLine(line, row)| ==> ParseLine(line, row)[i].rowNumber == row
  {
    ParseLinePieces(line, row);
  }

  /** One entry per comma-separated piece of every line. */
  lemma {:induction false} ParseLinesCount(lines: seq<string>)
    ensures |ParseLines(lines)| == PieceCount(lines)
    decreases |lines|
  {
    if lines != [] {
      var n := |lines|;
      ParseLinesCount(lines[..n - 1]);
      ParseLineRow(lines[n - 1], n);
    }
  }

  /** Appending one line's entries, all on row n, to entries on rows 1 to n - 1. */
  lemma AppendBounds(a: seq<Entry>, b: seq<Entry>, n: int)
    requires n >= 1 && |b| > 0
    requires forall i :: 0 <= i < |a| ==> 1 <= a[i].rowNumber <= n - 1
    requires forall i :: 0 <= i < |b| ==> b[i].rowNumber == n
    ensures forall i :: 0 <= i < |a + b| ==> 1 <= (a + b)[i].rowNumber <= n
    ensures (a + b)[|a + b| - 1].rowNumber == n
    ensures (a + b)[0].rowNumber == if |a| > 0 then a[0].rowNumber else n
  {
    assert (a + b)[|a + b| - 1] == b[|b| - 1];
    if |a| == 0 { assert (a + b)[0] == b[0]; }
  }

  /** Appending one line's entries, all on row n, keeps rows ordered and stepping by at most one. */
  lemma AppendOrdered(a: seq<Entry>, b: seq<Entry>, n: int)
    requires forall i :: 0 <= i < |a| ==> a[i].rowNumber <= n - 1
    requires |a| > 0 ==> a[|a| - 1].rowNumber == n - 1
    requires forall i, j :: 0 <= i < j < |a| ==> a[i].rowNumber <= a[j].rowNumber
    requires forall i :: 0 < i < |a| ==> a[i].rowNumber - a[i - 1].rowNumber <= 1
    requires forall i :: 0 <= i < |b| ==> b[i].rowNumber == n
    ensures forall i, j :: 0 <= i < j < |a + b| ==> (a + b)[i].rowNumber <= (a + b)[j].rowNumber
    ensures forall i :: 0 < i < |a + b| ==> (a + b)[i].rowNumber - (a + b)[i - 1].rowNumber <= 1
  {
    var e := a + b;
    forall i, j | 0 <= i < j < |e| ensures e[i].rowNumber <= e[j].rowNumber {
      if j >= |a| {
        assert e[j] == b[j - |a|];
        if i >= |a| { assert e[i] == b[i - |a|]; } else { assert e[i] == a[i]; }
      } else {
        assert e[i] == a[i] && e[j] == a[j];
      }
    }
    forall i | 0 < i < |e| ensures e[i].rowNumber - e[i - 1].rowNumber <= 1 {
      if i > |a| {
        assert e[i] == b[i - |a|] && e[i - 1] == b[i - 1 - |a|];
      } else if i == |a| {
        assert e[i] == b[0] && e[i - 1] == a[|a| - 1];
      } else {
        assert e[i] == a[i] && e[i - 1] == a[i - 1];
      }
    }
  }

  /** Every row number is a line number; the first entry is on row 1 and the last on the last line. */
  lemma {:induction false} ParseLinesBounds(lines: seq<string>)
    ensures var e := ParseLines(lines);
      (forall i :: 0 <= i < |e| ==> 1 <= e[i].rowNumber <= |lines|)
      && (|lines| > 0 ==> |e| > 0 && e[0].rowNumber == 1 && e[|e| - 1].rowNumber == |lines|)
    decreases |lines|
  {
    if lines != [] {
      var n := |lines|;
      var init := lines[..n - 1];
      ParseLinesBounds(init);
      var a, b := ParseLines(init), ParseLine(lines[n - 1], n);
      ParseLineRow(lines[n - 1], n);
      assert ParseLines(lines) == a + b;
      AppendBounds(a, b, n);
    }
  }

  /** Rows never decrease along the entries and go up by at most one between neighbours. */
  lemma {:induction false} ParseLinesOrdered(lines: seq<string>)
    ensures var e := ParseLines(lines);
      (forall i, j :: 0 <= i < j < |e| ==> e[i].rowNumber <= e[j].rowNumber)
      && (forall i :: 0 < i < |e| ==> e[i].rowNumber - e[i - 1].rowNumber <= 1)
    decreases |lines|
  {
    if lines != [] {
      var n := |lines|;
      var init := lines[..n - 1];
      var a, b := ParseLines(init), ParseLine(lines[n - 1], n);
      assert ParseLines(lines) == a + b;
      ParseLinesOrdered(init);
      ParseLinesBounds(init);
      ParseLineRow(lines[n - 1], n);
      AppendOrdered(a, b, n);
    }
  }

  /**
   * Row numbers: every entry's row is a line number; the first entry is on row 1
   * and the last on the last line; rows never decrease and go up by at most one
   * between neighbours; and there is one entry per comma-separated piece.
   */
  lemma ParseLinesRows(lines: seq<string>)
    ensures var e := ParseLines(lines);
      |e| == PieceCount(lines)
      && (forall i :: 0 <= i < |e| ==> 1 <= e[i].rowNumber <= |lines|)
      && (forall i, j :: 0 <= i < j < |e| ==> e[i].rowNumber <= e[j].rowNumber)
      && (forall i :: 0 < i < |e| ==> e[i].rowNumber - e[i - 1].rowNumber <= 1)
      && (|lines| > 0 ==> |e| > 0 && e[0].rowNumber == 1 && e[|e| - 1].rowNumber == |lines|)
  {
    ParseLinesCount(lines);
    ParseLinesBounds(lines);
    ParseLinesOrdered(lines);
  }

  /** Selecting a row distributes over concatenation. */
  lemma {:induction false} WithRowAppend(a: seq<Entry>, b: seq<Entry>, row: int)
    ensures WithRow(a + b, row) == WithRow(a, row) + WithRow(b, row)
    decreases |b|
  {
    if b == [] {
      assert a + b == a;
    } else {
      var b0 := b[..|b| - 1];
      WithRowAppend(a, b0, row);
      assert (a + b)[..|a + b| - 1] == a + b0;
    }
  }

  /** No entry has the row: the selection is empty; every entry has it: nothing is dropped. */
  lemma {:induction false} WithRowAll(e: seq<Entry>, row: int)
    ensures (forall i :: 0 <= i < |e| ==> e[i].rowNumber != row) ==> WithRow(e, row) == []
    ensures (forall i :: 0 <= i < |e| ==> e[i].rowNumber == row) ==> WithRow(e, row) == e
    decreases |e|
  {
    if e != [] {
      WithRowAll(e[..|e| - 1], row);
    }
  }

  /** Selecting a row from one line's entries keeps all of them or none. */
  lemma WithRowOfLine(line: string, row: int, k: int)
    ensures WithRow(ParseLine(line, row), k) == if k == row then ParseLine(line, row) else []
  {
    ParseLineRow(line, row);
    WithRowAll(ParseLine(line, row), k);
  }

  /** The entries carrying row number k are exactly those the k-th line yields. */
  lemma {:induction false} ParseLinesGroup(lines: seq<string>, k: nat)
    requires 1 <= k <= |lines|
    ensures WithRow(ParseLines(lines), k) == ParseLine(lines[k - 1], k)
    decreases |lines|
  {
    var n := |lines|;
    var init := lines[..n - 1];
    var a, b := ParseLines(init), ParseLine(lines[n - 1], n);
    assert ParseLines(lines) == a + b;
    WithRowAppend(a, b, k);
    WithRowOfLine(lines[n - 1], n, k);
    if k < n {
      ParseLinesGroup(init, k);
      assert init[k - 1] == lines[k - 1];
      assert WithRow(a, k) + [] == WithRow(a, k);
    } else {
      ParseLinesBounds(init);
      WithRowAll(a, k);
      assert [] + b == b;
    }
  }

  /** Lines without commas yield one entry each: line k gives its own trim on row k. */
  lemma {:induction false} ParseLinesNoCommas(lines: seq<string>)
    requires forall k :: 0 <= k < |lines| ==> ',' !in lines[k]
    ensures |ParseLines(lines)| == |lines|
    ensures forall k :: 0 <= k < |lines| ==> ParseLines(lines)[k] == Entry(k + 1, Trim(lines[k]))
    decreases |lines|
  {
    if lines != [] {
      var n := |lines|;
      var init := lines[..n - 1];
      ParseLinesNoCommas(init);
      assert ParseLine(lines[n - 1], n) == [Entry(n, Trim(lines[n - 1]))];
      var e := ParseLines(lines);
      assert e == ParseLines(init) + [Entry(n, Trim(lines[n - 1]))];
      forall k | 0 <= k < n ensures e[k] == Entry(k + 1, Trim(lines[k])) {
        if k < n - 1 { assert init[k] == lines[k]; }
      }
    }
  }

  /** A line holding two ISBNs separated by a comma yields both, on the same row. */
  lemma ParseTwoOnALine(a: string, b: string, row: int)
    requires a != [] && !IsWhiteSpace(a[0]) && !IsWhiteSpace(a[|a| - 1]) && ',' !in a
    requires b != [] && !IsWhiteSpace(b[0]) && !IsWhiteSpace(b[|b| - 1]) && ',' !in b
    ensures ParseLine(a + "," + b, row) == [Entry(row, a), Entry(row, b)]
  {
    var line := a + "," + b;
    assert Join([','], [a, b]) == line;
    SplitJoin([a, b], ',');
    TrimOfTrimmed(a);
    TrimOfTrimmed(b);
    assert line[|a|] == ',';
    var pieces := Split(line, ',');
    TaggedAt(pieces, row, 0);
    TaggedAt(pieces, row, 1);
  }

  /**
   * Two lines, the first holding two ISBNs and the second one: the first two
   * entries are on row 1 and the third on row 2.
   */
  lemma ParseTwoLines(a: string, b: string, c: string)
    requires a != [] && !IsWhiteSpace(a[0]) && !IsWhiteSpace(a[|a| - 1]) && ',' !in a
    requires b != [] && !IsWhiteSpace(b[0]) && !IsWhiteSpace(b[|b| - 1]) && ',' !in b
    requires c != [] && !IsWhiteSpace(c[0]) && !IsWhiteSpace(c[|c| - 1]) && ',' !in c
    ensures ParseLines([a + "," + b, c]) == [Entry(1, a), Entry(1, b), Entry(2, c)]
  {
    var lines := [a + "," + b, c];
    assert lines[..2] == lines;
    assert lines[..0] == [];
    ParseLinesSnoc(lines, 0);
    ParseLinesSnoc(lines, 1);
    ParseTwoOnALine(a, b, 1);
    ParseLinePieces(c, 2);
    TrimOfTrimmed(c);
  }

  /**
   * The reading loop of the source: lines are visited in order with a row
   * counter starting at 1 that goes up once per line.
   */
  method ReadInputFile(lines: seq<string>) returns (entries: seq<Entry>)
    ensures entries == ParseLines(lines)
    ensures |entries| == PieceCount(lines)
    ensures forall i :: 0 <= i < |entries| ==> 1 <= entries[i].rowNumber <= |lines|
    ensures forall i :: 0 <= i < |entries| ==> entries[i].isbn == Trim(entries[i].isbn)
  {
    entries := [];
    var rowNumber := 1;
    var n := 0;
    while n < |lines|
      invariant 0 <= n <= |lines|
      invariant rowNumber == n + 1
      invariant entries == ParseLines(lines[..n])
    {
      var line := lines[n];
      ParseLinesSnoc(lines, n);
      if ',' in line {
        var isbnsSameLine := Split(line, ',');
        entries := AddPieces(entries, isbnsSameLine, rowNumber);
        rowNumber := rowNumber + 1;
      } else {
        entries := entries + [Entry(rowNumber, Trim(line))];
        rowNumber := rowNumber + 1;
      }
      n := n + 1;
    }
    assert lines[..n] == lines;
    ParseLinesCount(lines);
    ParseLinesBounds(lines);
    ParseLinesTrimmed(lines);
  }

  /** The inner loop over the pieces of a comma line: each is trimmed and added on the row. */
  method AddPieces(entries: seq<Entry>, pieces: seq<string>, row: int) returns (result: seq<Entry>)
    ensures result == entries + Tagged(pieces, row)
  {
    result := entries;
    var j := 0;
    while j < |pieces|
      invariant 0 <= j <= |pieces|
      invariant result == entries + Tagged(pieces[..j], row)
    {
      TaggedSnoc(pieces, row, j);
      result := result + [Entry(row, Trim(pieces[j]))];
      j := j + 1;
    }
    assert pieces[..j] == pieces;
  }

  /** One more line appends its entries, on the next row. */
  lemma ParseLinesSnoc(lines: seq<string>, n: nat)
    requires n < |lines|
    ensures ParseLines(lines[..n + 1]) == ParseLines(lines[..n]) + ParseLine(lines[n], n + 1)
  {
    assert lines[..n + 1][..n] == lines[..n];
  }

  /** One more piece appends its trimmed entry. */
  lemma TaggedSnoc(pieces: seq<string>, row: int, j: nat)
    requires j < |pieces|
    ensures Tagged(pieces[..j + 1], row) == Tagged(pieces[..j], row) + [Entry(row, Trim(pieces[j]))]
  {
    assert pieces[..j + 1][..j] == pieces[..j];
  }

  /** Every ISBN the parser produces is already trimmed. */
  lemma ParseLinesTrimmed(lines: seq<string>)
    ensures forall i :: 0 <= i < |ParseLines(lines)| ==> ParseLines(lines)[i].isbn == Trim(ParseLines(lines)[i].isbn)
  {
    forall i | 0 <= i < |ParseLines(lines)|
      ensures ParseLines(lines)[i].isbn == Trim(ParseLines(lines)[i].isbn)
    {
      IsbnTrimmed(lines, i);
    }
  }

  /** Every ISBN the parser produces is a trimmed piece. */
  lemma {:induction false} IsbnTrimmed(lines: seq<string>, i: nat)
    requires i < |ParseLines(lines)|
    ensures Trim(ParseLines(lines)[i].isbn) == ParseLines(lines)[i].isbn
    decreases |lines|
  {
    var n := |lines|;
    var a, b := ParseLines(lines[..n - 1]), ParseLine(lines[n - 1], n);
    assert ParseLines(lines) == a + b;
    if i < |a| {
      IsbnTrimmed(lines[..n - 1], i);
    } else {
      ParseLinePieces(lines[n - 1], n);
      var pieces := Split(lines[n - 1], ',');
      assert ParseLines(lines)[i].isbn == Trim(pieces[i - |a|]);
      TrimIdempotent(pieces[i - |a|]);
    }
  }
}
