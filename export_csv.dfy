/** GET /api/products/export: the CSV text built from the product table. */
module ExportCsv {
  import opened Wrappers
  import opened Text
  import opened Csv
  import opened Catalog

  /** The exported columns, in order. */
  const Columns: seq<string> := ["id", "name", "unit", "category", "brand", "stock", "status", "image"]

  /** `headers.join(',')`: it reads back as the column names, since none of them
      needs quoting, and holds no line break. */
  function HeaderLine(): (r: string)
    ensures ParseRecord(r) == Columns
    ensures '\n' !in r
  {
    ColumnsPlain();
    EscapeAllPlain(Columns);
    ParseFormatRecord(Columns);
    InJoin(Columns, ',', '\n');
    Join(Columns, ',')
  }

  /** The header is the column names joined by commas, each as it is. */
  lemma HeaderText()
    ensures HeaderLine() == "id,name,unit,category,brand,stock,status,image"
  {
    var first, last := ["id", "name", "unit", "category"], ["brand", "stock", "status", "image"];
    assert Columns == first + last;
    JoinAppend(first, last, ',');
    JoinPairs("id", "name", "unit", "category");
    JoinPairs("brand", "stock", "status", "image");
    LeadingPiece();
    TrailingPiece();
    WholeHeader();
  }

  /** Four parts joined are the first two joined, a comma, and the last two joined. */
  lemma JoinPairs(a: string, b: string, c: string, d: string)
    ensures Join([a, b, c, d], ',') == (a + "," + b) + "," + (c + "," + d)
  {
    assert [a, b, c, d] == [a, b] + [c, d];
    JoinAppend([a, b], [c, d], ',');
    assert [a, b][1..] == [b] && [c, d][1..] == [d];
  }

  lemma LeadingPiece()
    ensures ("id" + "," + "name") + "," + ("unit" + "," + "category") == "id,name,unit,category"
  {
  }

  lemma TrailingPiece()
    ensures ("brand" + "," + "stock") + "," + ("status" + "," + "image") == "brand,stock,status,image"
  {
  }

  lemma WholeHeader()
    ensures "id,name,unit,category" + [','] + "brand,stock,status,image"
            == "id,name,unit,category,brand,stock,status,image"
  {
  }

  /** The values of one product, converted to text in column order; NULL becomes "". */
  function FieldTexts(p: Product): (r: seq<string>)
    ensures |r| == |Columns|
    ensures r[0] == IntToString(p.id) && r[1] == p.name && r[5] == IntToString(p.stock)
    ensures r[2] == Render(p.unit) && r[3] == Render(p.category) && r[4] == Render(p.brand)
    ensures r[6] == Render(p.status) && r[7] == Render(p.image)
  {
    [IntToString(p.id), p.name, Render(p.unit), Render(p.category), Render(p.brand),
     IntToString(p.stock), Render(p.status), Render(p.image)]
  }

  /** The line of one product. */
  function FormatProduct(p: Product): string {
    FormatRecord(FieldTexts(p))
  }

  /** `f` applied to each element of `xs`, in order. */
  function Each<A, B>(f: A -> B, xs: seq<A>): (r: seq<B>)
    ensures |r| == |xs|
    ensures forall k :: 0 <= k < |xs| ==> r[k] == f(xs[k])
    decreases |xs|
  {
    if xs == [] then [] else Each(f, xs[..|xs| - 1]) + [f(xs[|xs| - 1])]
  }

  lemma EachNext<A, B>(f: A -> B, xs: seq<A>, i: nat)
    requires i < |xs|
    ensures Each(f, xs[..i + 1]) == Each(f, xs[..i]) + [f(xs[i])]
  {
    assert xs[..i + 1][..i] == xs[..i];
  }

  /** The product lines, one per product, in table order. */
  function FormatRows(ps: seq<Product>): (r: seq<string>)
    ensures |r| == |ps|
    ensures forall k :: 0 <= k < |ps| ==> r[k] == FormatProduct(ps[k])
  {
    Each(FormatProduct, ps)
  }

  /** One more product adds its line at the end. */
  lemma FormatRowsNext(ps: seq<Product>, i: nat)
    requires i < |ps|
    ensures FormatRows(ps[..i + 1]) == FormatRows(ps[..i]) + [FormatProduct(ps[i])]
  {
    EachNext(FormatProduct, ps, i);
  }

  /** `csvLines`: the header, then the product lines. */
  function CsvLines(ps: seq<Product>): seq<string> {
    [HeaderLine()] + FormatRows(ps)
  }

  /** `csvLines.join('\n')`: no line break after the last line. */
  function CsvDocument(ps: seq<Product>): (r: string)
    ensures ps == [] ==> r == HeaderLine()
    ensures ps != [] ==> |r| > |HeaderLine()| && r[..|HeaderLine()|] == HeaderLine() && r[|HeaderLine()|] == '\n'
  {
    var lines := CsvLines(ps);
    JoinOpens(lines, '\n');
    Join(lines, '\n')
  }

  /** No exported value of any product holds a line break. */
  predicate NoLineBreaks(ps: seq<Product>) {
    forall k :: 0 <= k < |ps| ==> LineFree(FieldTexts(ps[k]))
  }

  predicate LineFree(fields: seq<string>) {
    forall f :: 0 <= f < |fields| ==> '\n' !in fields[f]
  }

  // ---------------------------------------------------------------------------
  // Properties of the document
  // ---------------------------------------------------------------------------

  /** Integer columns never need quotes. */
  lemma NumbersUnquoted(n: int)
    ensures EscapeField(IntToString(n)) == IntToString(n)
  {
    var s := IntToString(n);
    assert ',' !in s && '"' !in s by {
      forall k | 0 <= k < |s| ensures s[k] != ',' && s[k] != '"' { }
    }
  }

  /** A character other than the separator is in a join exactly when it is in one of the parts. */
  lemma {:induction false} InJoin(parts: seq<string>, sep: char, c: char)
    requires c != sep
    ensures c in Join(parts, sep) <==> exists k :: 0 <= k < |parts| && c in parts[k]
    decreases |parts|
  {
    if |parts| > 1 {
      InJoin(parts[1..], sep, c);
      assert Join(parts, sep) == parts[0] + ([sep] + Join(parts[1..], sep));
      assert forall k :: 1 <= k < |parts| ==> parts[k] == parts[1..][k - 1];
      assert c in Join(parts, sep) <==> c in parts[0] || c in Join(parts[1..], sep);
    }
  }

  /** A product's line holds a line break exactly when one of its values does. */
  lemma LineBreakInRow(p: Product)
    ensures '\n' in FormatProduct(p) <==> !LineFree(FieldTexts(p))
  {
    var fields := FieldTexts(p);
    var escaped := EscapeAll(fields);
    InJoin(escaped, ',', '\n');
    forall f | 0 <= f < |fields| ensures '\n' in escaped[f] <==> '\n' in fields[f] {
      EscapeKeepsLineBreaks(fields[f]);
    }
  }

  /** A word of lower-case letters needs no quoting and holds no line break. */
  lemma PlainWord(w: string)
    requires forall k :: 0 <= k < |w| ==> 'a' <= w[k] <= 'z'
    ensures EscapeField(w) == w && '\n' !in w
  {
    assert !NeedsQuotes(w) by {
      forall k | 0 <= k < |w| ensures w[k] != ',' && w[k] != '"' { }
    }
  }

  lemma LeadingColumnsPlain()
    ensures EscapeField("id") == "id" && '\n' !in "id"
    ensures EscapeField("name") == "name" && '\n' !in "name"
    ensures EscapeField("unit") == "unit" && '\n' !in "unit"
    ensures EscapeField("category") == "category" && '\n' !in "category"
  {
    PlainWord("id");
    PlainWord("name");
    PlainWord("unit");
    PlainWord("category");
  }

  lemma TrailingColumnsPlain()
    ensures EscapeField("brand") == "brand" && '\n' !in "brand"
    ensures EscapeField("stock") == "stock" && '\n' !in "stock"
    ensures EscapeField("status") == "status" && '\n' !in "status"
    ensures EscapeField("image") == "image" && '\n' !in "image"
  {
    PlainWord("brand");
    PlainWord("stock");
    PlainWord("status");
    PlainWord("image");
  }

  /** No column name needs quoting or holds a line break. */
  lemma ColumnsPlain()
    ensures forall k :: 0 <= k < |Columns| ==> EscapeField(Columns[k]) == Columns[k] && '\n' !in Columns[k]
  {
    LeadingColumnsPlain();
    TrailingColumnsPlain();
  }

  /** Fields that escape to themselves are written as they are. */
  lemma EscapeAllPlain(fields: seq<string>)
    requires forall k :: 0 <= k < |fields| ==> EscapeField(fields[k]) == fields[k]
    ensures EscapeAll(fields) == fields
  {
  }

  /** Whatever the values hold, the text opens with the header line. */
  lemma ExportOpensWithHeader(ps: seq<Product>)
    ensures Split(CsvDocument(ps), '\n')[0] == HeaderLine()
  {
    FirstPieceOfJoin(CsvLines(ps), '\n');
  }

  /** When no value holds a line break, the lines of the text are the header and
      then one line per product in table order: |ps| + 1 lines. */
  lemma ExportLines(ps: seq<Product>)
    requires NoLineBreaks(ps)
    ensures Split(CsvDocument(ps), '\n') == CsvLines(ps)
    ensures |Split(CsvDocument(ps), '\n')| == |ps| + 1
  {
    LinesFree(ps);
    SplitJoin(CsvLines(ps), '\n');
  }

  /** The text has exactly |ps| + 1 lines if and only if no value holds a line
      break: values are never quoted for a line break, so one splits its line. */
  lemma ExportLineCount(ps: seq<Product>)
    ensures |Split(CsvDocument(ps), '\n')| == |ps| + 1 <==> NoLineBreaks(ps)
  {
    var lines := CsvLines(ps);
    SplitCount(CsvDocument(ps), '\n');
    CountJoin(lines, '\n');
    assert |Split(CsvDocument(ps), '\n')| == |ps| + 1 + CountAll(lines, '\n');
    CountAllZero(lines, '\n');
    LinesFree(ps);
    assert AllLineFree(lines) <==> CountAll(lines, '\n') == 0;
  }

  predicate AllLineFree(lines: seq<string>) {
    forall k :: 0 <= k < |lines| ==> '\n' !in lines[k]
  }

  lemma AllLineFreeCons(h: string, rest: seq<string>)
    ensures AllLineFree([h] + rest) <==> '\n' !in h && AllLineFree(rest)
  {
    var lines := [h] + rest;
    assert lines[0] == h;
    assert forall k :: 0 <= k < |rest| ==> lines[k + 1] == rest[k];
    if '\n' !in h && AllLineFree(rest) {
      forall k | 0 <= k < |lines| ensures '\n' !in lines[k] {
        if k > 0 {
          assert lines[k] == rest[k - 1];
        }
      }
    }
  }

  /** The product lines are free of line breaks exactly when the values are. */
  lemma RowsFree(ps: seq<Product>)
    ensures AllLineFree(FormatRows(ps)) <==> NoLineBreaks(ps)
  {
    var rows := FormatRows(ps);
    forall k | 0 <= k < |ps| ensures '\n' in rows[k] <==> !LineFree(FieldTexts(ps[k])) {
      LineBreakInRow(ps[k]);
    }
  }

  /** The lines are free of line breaks exactly when the values are. */
  lemma LinesFree(ps: seq<Product>)
    ensures AllLineFree(CsvLines(ps)) <==> NoLineBreaks(ps)
  {
    AllLineFreeCons(HeaderLine(), FormatRows(ps));
    RowsFree(ps);
  }

  /** Each product line reads back, field by field, as the product's values. */
  lemma ExportRowReadsBack(p: Product)
    ensures ParseRecord(FormatProduct(p)) == FieldTexts(p)
  {
    ParseFormatRecord(FieldTexts(p));
  }
}
