/** Export followed by import: the file GET /api/products/export writes, read
    back line by line and field by field and handed to the import handler,
    recreates every product under fresh ids. */
module RoundTrip {
  import opened Wrappers
  import opened Text
  import opened Csv
  import opened Catalog
  import opened ImportCsv
  import opened ExportCsv

  // ---------------------------------------------------------------------------
  // A reader for the exported text
  // ---------------------------------------------------------------------------

  /** A data line as a row: the i-th header names the i-th value; a header or
      value without a partner is ignored, and an earlier header wins over a later
      one of the same name. */
  function RowOf(header: seq<string>, values: seq<string>): (r: Row)
    ensures forall key :: key in r ==> key in header
    decreases |header|
  {
    if header == [] || values == [] then map[]
    else RowOf(header[1..], values[1..])[header[0] := values[0]]
  }

  predicate Distinct(header: seq<string>) {
    forall i, j :: 0 <= i < j < |header| ==> header[i] != header[j]
  }

  /** Under distinct headers of the same count as the values, each header looks up its own value. */
  lemma {:induction false} RowOfLookup(header: seq<string>, values: seq<string>)
    requires Distinct(header) && |header| == |values|
    ensures forall k :: 0 <= k < |header| ==>
              header[k] in RowOf(header, values) && RowOf(header, values)[header[k]] == values[k]
    decreases |header|
  {
    if header != [] {
      RowOfLookup(header[1..], values[1..]);
      forall k | 0 <= k < |header| ensures header[k] in RowOf(header, values)
                                           && RowOf(header, values)[header[k]] == values[k] {
        if k > 0 {
          assert header[k] == header[1..][k - 1];
          assert values[k] == values[1..][k - 1];
        }
      }
    }
  }

  /** The text split into lines, the first read as the header and each further
      one as a row under it. */
  function ReadCsv(doc: string): (rows: seq<Row>)
    ensures |rows| == |Split(doc, '\n')| - 1
  {
    var lines := Split(doc, '\n');
    var header := ParseRecord(lines[0]);
    seq(|lines| - 1, k requires 0 <= k < |lines| - 1 => RowOf(header, ParseRecord(lines[k + 1])))
  }

  // ---------------------------------------------------------------------------
  // What each exported product comes back as
  // ---------------------------------------------------------------------------

  /** The draft the import makes of a product's exported line: the name trimmed,
      NULL text read back as "". */
  function DraftOf(p: Product): (d: Draft)
    ensures d.name == Trim(p.name) && d.stock == p.stock
    ensures KeptName(p.name) ==> d.name == p.name
  {
    var d := Draft(Trim(p.name), Render(p.unit), Render(p.category), Render(p.brand), p.stock,
                   Render(p.status), Render(p.image));
    if KeptName(p.name) then TrimTrimmed(p.name); d else d
  }

  function Drafts(ps: seq<Product>): (ds: seq<Draft>)
    ensures |ds| == |ps|
    ensures forall k :: 0 <= k < |ps| ==> ds[k] == DraftOf(ps[k])
  {
    seq(|ps|, k requires 0 <= k < |ps| => DraftOf(ps[k]))
  }

  /** A name the import keeps as it is: not empty, and no white space at either end. */
  predicate KeptName(name: string) {
    name != [] && !IsSpace(name[0]) && !IsSpace(name[|name| - 1])
  }

  lemma ColumnsDistinct()
    ensures Distinct(Columns)
  {
    forall i, j | 0 <= i < j < |Columns| ensures Columns[i] != Columns[j] {
      assert |Columns[i]| != |Columns[j]| || Columns[i][0] != Columns[j][0];
    }
  }

  /** A row holding a product's exported texts normalises to the product's draft. */
  lemma NormalizeRow(row: Row, p: Product)
    requires p.name != []
    requires "name" in row && row["name"] == p.name
    requires "stock" in row && row["stock"] == IntToString(p.stock)
    requires Column(row, "unit") == Render(p.unit) && Column(row, "category") == Render(p.category)
    requires Column(row, "brand") == Render(p.brand) && Column(row, "status") == Render(p.status)
    requires Column(row, "image") == Render(p.image)
    ensures Normalize(row) == Some(DraftOf(p))
  {
    ParseIntOfIntToString(p.stock);
  }

  lemma LookupAt(header: seq<string>, values: seq<string>, k: nat)
    requires Distinct(header) && |header| == |values| && k < |header|
    ensures header[k] in RowOf(header, values) && RowOf(header, values)[header[k]] == values[k]
  {
    RowOfLookup(header, values);
  }

  /** Under the header, a product's line looks up its name and stock texts. */
  lemma RowNameStock(p: Product)
    ensures var row := RowOf(Columns, FieldTexts(p));
            && "name" in row && row["name"] == p.name
            && "stock" in row && row["stock"] == IntToString(p.stock)
  {
    ColumnsDistinct();
    LookupAt(Columns, FieldTexts(p), 1);
    LookupAt(Columns, FieldTexts(p), 5);
  }

  /** Under the header, a product's line looks up its other texts, NULL as "". */
  lemma RowTexts(p: Product)
    ensures var row := RowOf(Columns, FieldTexts(p));
            && Column(row, "unit") == Render(p.unit) && Column(row, "category") == Render(p.category)
            && Column(row, "brand") == Render(p.brand) && Column(row, "status") == Render(p.status)
            && Column(row, "image") == Render(p.image)
  {
    ColumnsDistinct();
    LookupAt(Columns, FieldTexts(p), 2);
    LookupAt(Columns, FieldTexts(p), 3);
    LookupAt(Columns, FieldTexts(p), 4);
    LookupAt(Columns, FieldTexts(p), 6);
    LookupAt(Columns, FieldTexts(p), 7);
  }

  /** A product's line, read under the header, normalises to the product's draft. */
  lemma RowReadsBack(p: Product)
    requires p.name != []
    ensures Normalize(RowOf(Columns, FieldTexts(p))) == Some(DraftOf(p))
  {
    RowNameStock(p);
    RowTexts(p);
    NormalizeRow(RowOf(Columns, FieldTexts(p)), p);
  }

  // ---------------------------------------------------------------------------
  // The round trip
  // ---------------------------------------------------------------------------

  lemma ReadCsvAt(doc: string, k: nat)
    requires k + 1 < |Split(doc, '\n')|
    ensures var lines := Split(doc, '\n');
            k < |ReadCsv(doc)| && ReadCsv(doc)[k] == RowOf(ParseRecord(lines[0]), ParseRecord(lines[k + 1]))
  {
  }

  lemma LineAt(ps: seq<Product>, lines: seq<string>, header: string, k: nat)
    requires lines == [header] + FormatRows(ps) && k < |ps|
    ensures lines[0] == header && lines[k + 1] == FormatProduct(ps[k])
  {
  }

  /** The `k`-th data line of such a text reads back as the `k`-th product's texts. */
  lemma ReadRow(ps: seq<Product>, doc: string, header: string, k: nat)
    requires Split(doc, '\n') == [header] + FormatRows(ps)
    requires ParseRecord(header) == Columns
    requires k < |ps|
    ensures k < |ReadCsv(doc)| && ReadCsv(doc)[k] == RowOf(Columns, FieldTexts(ps[k]))
  {
    LineAt(ps, Split(doc, '\n'), header, k);
    ReadCsvAt(doc, k);
    ExportRowReadsBack(ps[k]);
  }

  /** Text whose lines are a header reading back as the columns and then the
      lines of `ps`, whose names are not empty, reads back as one draft per
      product, in table order. */
  lemma ReadLines(ps: seq<Product>, doc: string, header: string)
    requires Split(doc, '\n') == [header] + FormatRows(ps)
    requires ParseRecord(header) == Columns
    requires forall k :: 0 <= k < |ps| ==> ps[k].name != []
    ensures NormalizeAll(ReadCsv(doc)) == Drafts(ps)
  {
    var rows := ReadCsv(doc);
    forall k | 0 <= k < |rows| ensures Normalize(rows[k]) == Some(Drafts(ps)[k]) {
      ReadRow(ps, doc, header, k);
      RowReadsBack(ps[k]);
    }
    CollectEvery(Normalize, rows, Drafts(ps));
  }

  /** Reading back an exported table whose values hold no line break and whose
      names are not empty gives one draft per product, in table order. */
  lemma ReadExport(ps: seq<Product>)
    requires NoLineBreaks(ps)
    requires forall k :: 0 <= k < |ps| ==> ps[k].name != []
    ensures NormalizeAll(ReadCsv(CsvDocument(ps))) == Drafts(ps)
  {
    ExportLines(ps);
    ReadLines(ps, CsvDocument(ps), HeaderLine());
  }

  /** Exporting such a table, then importing the text into an empty table, adds
      every product in table order under consecutive fresh ids, skips none, and
      keeps every name, stock and text field (NULL becoming ""). */
  lemma ExportThenImport(ps: seq<Product>, nextId: nat)
    requires NoLineBreaks(ps) && NamesUnique(ps)
    requires forall k :: 0 <= k < |ps| ==> KeptName(ps[k].name)
    ensures var st := ImportRun([], nextId, NormalizeAll(ReadCsv(CsvDocument(ps))));
            && st.added == Drafts(ps) && st.skipped == [] && st.duplicates == []
            && st.products == Inserted(nextId, Drafts(ps))
            && st.nextId == nextId + |ps|
  {
    ReadExport(ps);
    var ds := Drafts(ps);
    assert forall i, j :: 0 <= i < j < |ds| ==> !SameName(ds[i].name, ds[j].name);
    ImportFresh([], nextId, ds);
  }

  // ---------------------------------------------------------------------------
  // Where the round trip breaks
  // ---------------------------------------------------------------------------

  /** One product with a non-empty name, exported and imported again, becomes
      the row of its draft. */
  lemma ReimportOne(ps: seq<Product>, nextId: nat)
    requires |ps| == 1 && NoLineBreaks(ps) && ps[0].name != []
    ensures ImportRun([], nextId, NormalizeAll(ReadCsv(CsvDocument(ps)))).products
            == [Insert(nextId, DraftOf(ps[0]))]
  {
    ReadExport(ps);
    ImportOne(nextId, Drafts(ps));
  }

  lemma ImportOne(nextId: nat, ds: seq<Draft>)
    requires |ds| == 1
    ensures ImportRun([], nextId, ds).products == [Insert(nextId, ds[0])]
  {
    assert ds[..0] == [];
  }

  /** A name with white space at either end comes back trimmed: a product named
      " Pen" is imported as "Pen". */
  lemma PaddedNameTrimmed(p: Product, nextId: nat)
    requires NoLineBreaks([p])
    requires p.name != [] && (IsSpace(p.name[0]) || IsSpace(p.name[|p.name| - 1]))
    ensures var st := ImportRun([], nextId, NormalizeAll(ReadCsv(CsvDocument([p]))));
            && |st.products| == 1 && st.products[0].name == Trim(p.name)
            && st.products[0].name != p.name
  {
    ReimportOne([p], nextId);
    TrimChanges(p.name);
  }

  lemma TrimChanges(name: string)
    requires name != [] && (IsSpace(name[0]) || IsSpace(name[|name| - 1]))
    ensures Trim(name) != name
  {
  }

  /** A product with the empty name, which the import itself can create from a
      name of blanks, is dropped when its export is imported again. */
  lemma EmptyNameDropped(p: Product, nextId: nat)
    requires NoLineBreaks([p]) && p.name == []
    ensures NormalizeAll(ReadCsv(CsvDocument([p]))) == []
    ensures ImportRun([], nextId, NormalizeAll(ReadCsv(CsvDocument([p])))).products == []
  {
    BlankRowRead([p]);
    DropAll(ReadCsv(CsvDocument([p])));
  }

  lemma BlankRowRead(ps: seq<Product>)
    requires |ps| == 1 && NoLineBreaks(ps) && ps[0].name == []
    ensures |ReadCsv(CsvDocument(ps))| == 1 && Normalize(ReadCsv(CsvDocument(ps))[0]).None?
  {
    ExportLines(ps);
    ReadRow(ps, CsvDocument(ps), HeaderLine(), 0);
    RowNameStock(ps[0]);
  }

  lemma DropAll(rows: seq<Row>)
    requires |rows| == 1 && Normalize(rows[0]).None?
    ensures NormalizeAll(rows) == []
  {
    CollectNext(Normalize, rows, 0);
    assert rows[..1] == rows && rows[..0] == [];
  }
}
