/** app/utils/csv_parser.py: extracting license names from the rows of an
    uploaded CSV file, and the file-name check. Decoding and CSV splitting
    are done before: the input is the sequence of rows `csv.reader` yields,
    each a sequence of cells. */
module CsvParser {
  import opened Wrappers
  import opened Text

  type Row = seq<string>

  /** The name a row offers: its first cell, stripped, unless the row is
      empty or that cell is blank. */
  function CellName(row: Row): (r: seq<string>)
    ensures |r| <= 1
    ensures r != [] ==> row != [] && r[0] == Strip(row[0]) && r[0] != []
  {
    if row == [] || Strip(row[0]) == [] then [] else [Strip(row[0])]
  }

  /** The names of all non-blank rows, in row order: the reference the
      parsers are measured against. */
  function NonBlankNames(rows: seq<Row>): seq<string>
    decreases |rows|
  {
    if rows == [] then [] else CellName(rows[0]) + NonBlankNames(rows[1..])
  }

  /** What row `i` contributes to the result: nothing for an empty or blank
      row, nothing for row 0 when the header test holds of its first cell,
      the stripped first cell otherwise. */
  function RowName(rows: seq<Row>, i: int, isHeader: string -> bool): (r: seq<string>)
    requires 0 <= i < |rows|
  {
    if CellName(rows[i]) == [] then []
    else if i == 0 && isHeader(rows[i][0]) then []
    else CellName(rows[i])
  }

  /** The names kept from `rows` by a parse loop with header test
      `isHeader`, row by row. */
  function KeptNames(rows: seq<Row>, isHeader: string -> bool): seq<string>
    decreases |rows|
  {
    if rows == [] then []
    else KeptNames(rows[..|rows| - 1], isHeader) + RowName(rows, |rows| - 1, isHeader)
  }

  /** Reading one more row. */
  lemma KeptNamesSnoc(rows: seq<Row>, i: int, isHeader: string -> bool)
    requires 0 <= i < |rows|
    ensures KeptNames(rows[..i + 1], isHeader) == KeptNames(rows[..i], isHeader) + RowName(rows, i, isHeader)
  {
    assert rows[..i + 1][..i] == rows[..i];
  }

  /** Dropping the head of a sequence commutes with splitting off its last element. */
  lemma TailOfSnoc<T>(s: seq<T>)
    requires |s| > 1
    ensures s[1..] == s[..|s| - 1][1..] + [s[|s| - 1]]
  {
  }

  lemma {:induction false} NonBlankNamesSnoc(rows: seq<Row>, row: Row)
    ensures NonBlankNames(rows + [row]) == NonBlankNames(rows) + CellName(row)
    decreases |rows|
  {
    if rows != [] {
      var all := rows + [row];
      assert all[0] == rows[0] && all[1..] == rows[1..] + [row];
      NonBlankNamesSnoc(rows[1..], row);
      calc {
        NonBlankNames(all);
        CellName(rows[0]) + NonBlankNames(rows[1..] + [row]);
        CellName(rows[0]) + (NonBlankNames(rows[1..]) + CellName(row));
        (CellName(rows[0]) + NonBlankNames(rows[1..])) + CellName(row);
      }
    }
  }

  /** After row 0, every non-blank row is kept. */
  lemma {:induction false} KeptNamesAfterFirst(rows: seq<Row>, isHeader: string -> bool)
    requires rows != []
    ensures KeptNames(rows, isHeader) == RowName(rows, 0, isHeader) + NonBlankNames(rows[1..])
    decreases |rows|
  {
    if |rows| > 1 {
      var n := |rows| - 1;
      var init := rows[..n];
      KeptNamesAfterFirst(init, isHeader);
      assert RowName(init, 0, isHeader) == RowName(rows, 0, isHeader);
      TailOfSnoc(rows);
      NonBlankNamesSnoc(init[1..], rows[n]);
    } else {
      assert rows[..0] == [];
    }
  }

  /** Only row 0 can be skipped as a header: the kept names are the names of
      all non-blank rows, less row 0's when the header test holds of it. A
      later row that looks like a header is kept, and a blank row 0 skips
      nothing. */
  lemma KeptNamesSkipOnlyFirst(rows: seq<Row>, isHeader: string -> bool)
    ensures KeptNames(rows, isHeader)
         == if rows != [] && CellName(rows[0]) != [] && isHeader(rows[0][0])
            then NonBlankNames(rows[1..])
            else NonBlankNames(rows)
  {
    if rows != [] {
      KeptNamesAfterFirst(rows, isHeader);
    }
  }

  /** A name as the parsers return it: non-empty and already stripped. */
  predicate PlainName(name: string) {
    name != [] && Strip(name) == name
  }

  /** Every name in the reference list is non-empty and already stripped,
      and there is at most one per row. */
  lemma {:induction false} NonBlankNamesShape(rows: seq<Row>)
    ensures |NonBlankNames(rows)| <= |rows|
    ensures forall k :: 0 <= k < |NonBlankNames(rows)| ==> PlainName(NonBlankNames(rows)[k])
    decreases |rows|
  {
    if rows != [] {
      NonBlankNamesShape(rows[1..]);
      var head := CellName(rows[0]);
      var rest := NonBlankNames(rows[1..]);
      if head != [] {
        StripIdempotent(rows[0][0]);
        assert PlainName(head[0]);
      }
      assert forall k :: 0 <= k < |head| ==> PlainName(head[k]);
      assert NonBlankNames(rows) == head + rest;
    }
  }

  const HeaderKeywords: seq<string> := ["name", "license", "software", "product", "title"]

  /** The header test of `parse_licenses`: the first cell, lower-cased and
      stripped, contains one of the keywords. */
  predicate IsHeaderCell(cell: string) {
    exists keyword :: keyword in HeaderKeywords && Contains(Strip(Lower(cell)), keyword)
  }

  const NoLicensesError: string := "Error reading CSV file: No valid licenses found in CSV file"

  /** What `parse_licenses` returns for `rows`: the kept names, or the
      ValueError when none are kept. */
  function ParsedLicenses(rows: seq<Row>): (r: Result<seq<string>, string>)
    ensures r.Failure? <==> KeptNames(rows, IsHeaderCell) == []
    ensures r.Failure? ==> r.error == NoLicensesError
    ensures r.Success? ==> r.value == KeptNames(rows, IsHeaderCell)
  {
    var names := KeptNames(rows, IsHeaderCell);
    if names == [] then Failure(NoLicensesError) else Success(names)
  }

  /** `CSVParser.parse_licenses` on already-split rows. */
  method ParseLicenses(rows: seq<Row>) returns (r: Result<seq<string>, string>)
    ensures r == ParsedLicenses(rows)
  {
    var licenses: seq<string> := [];
    for i := 0 to |rows|
      invariant licenses == KeptNames(rows[..i], IsHeaderCell)
    {
      KeptNamesSnoc(rows, i, IsHeaderCell);
      var row := rows[i];
      if row == [] || Strip(row[0]) == [] {
        continue;
      }
      if i == 0 {
        var firstCell := Strip(Lower(row[0]));
        if exists keyword :: keyword in HeaderKeywords && Contains(firstCell, keyword) {
          continue;
        }
      }
      var licenseName := Strip(row[0]);
      if licenseName != [] {
        licenses := licenses + [licenseName];
      }
    }
    assert rows[..|rows|] == rows;
    if licenses == [] {
      return Failure(NoLicensesError);
    }
    return Success(licenses);
  }

  /** Every name `parse_licenses` returns is non-empty and already
      stripped, and there are at most as many names as rows. Which names
      these are (the stripped first cells of the non-blank rows, in row
      order, less row 0's when it is a header) is `KeptNamesSkipOnlyFirst`. */
  lemma ParsedLicensesShape(rows: seq<Row>)
    ensures ParsedLicenses(rows).Success? ==>
      && |ParsedLicenses(rows).value| <= |rows|
      && forall k :: 0 <= k < |ParsedLicenses(rows).value| ==> PlainName(ParsedLicenses(rows).value[k])
  {
    KeptNamesSkipOnlyFirst(rows, IsHeaderCell);
    if rows != [] {
      NonBlankNamesShape(rows[1..]);
    }
    NonBlankNamesShape(rows);
  }

  /** `CSVParser.validate_csv_format`: the lower-cased file name ends with
      ".csv". */
  function ValidateCsvFormat(filename: string): (ok: bool)
    ensures ok <==> |filename| >= 4 && Lower(filename)[|filename| - 4..] == ".csv"
  {
    EndsWith(Lower(filename), ".csv")
  }

  /** The check ignores case: a name is accepted exactly when its
      lower-cased form is. */
  lemma ValidateCsvFormatIgnoresCase(filename: string)
    ensures ValidateCsvFormat(Lower(filename)) == ValidateCsvFormat(filename)
  {
    LowerIdempotent(filename);
  }
}
