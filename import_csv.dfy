/** POST /api/products/import: normalisation of the parsed CSV rows and their
    classification, in file order, into added and duplicate rows. */
module ImportCsv {
  import opened Wrappers
  import opened Text
  import opened Catalog

  /** A row as the CSV parser hands it over: column name to cell text. A column
      the line does not reach is absent (undefined). */
  type Row = map<string, string>

  /** A normalised row, ready to insert. */
  datatype Draft = Draft(
    name: string,
    unit: string,
    category: string,
    brand: string,
    stock: int,
    status: string,
    image: string)

  /** An entry of the report's `duplicates`: the row's name and the id of the product it collides with. */
  datatype Duplicate = Duplicate(name: string, existingId: nat)

  /** The JSON answer `{added, skipped, duplicates}`. */
  datatype ImportReport = ImportReport(added: nat, skipped: nat, duplicates: seq<Duplicate>)

  /** `row.key || ''`: an absent or empty cell reads as "". */
  function Column(row: Row, key: string): (r: string)
    ensures r == "" <==> key !in row || row[key] == ""
    ensures r != "" ==> key in row && r == row[key]
  {
    if key in row then row[key] else ""
  }

  /** `parseInt(row.stock, 10) || 0`: a cell without a leading number, or no
      cell at all, gives 0; a negative number passes through. */
  function StockOf(row: Row): (n: int)
    ensures "stock" in row && ParseInt(row["stock"]).Some? ==> n == ParseInt(row["stock"]).value
    ensures "stock" !in row || ParseInt(row["stock"]).None? ==> n == 0
  {
    if "stock" in row then ParseInt(row["stock"]).GetOr(0) else 0
  }

  /** The body of the parser's `data` handler: a row whose name cell is absent or
      empty is dropped; otherwise the name is trimmed (after the emptiness test,
      so a name of blanks is kept and becomes ""), the stock parsed, and absent
      cells become "". */
  function Normalize(row: Row): (r: Option<Draft>)
    ensures r.None? <==> Column(row, "name") == ""
    ensures r.Some? ==> r.value.name == Trim(row["name"]) && r.value.stock == StockOf(row)
    ensures r.Some? ==> && r.value.unit == Column(row, "unit")
                        && r.value.category == Column(row, "category")
                        && r.value.brand == Column(row, "brand")
                        && r.value.status == Column(row, "status")
                        && r.value.image == Column(row, "image")
  {
    if Column(row, "name") == "" then None
    else Some(Draft(Trim(row["name"]), Column(row, "unit"), Column(row, "category"),
                    Column(row, "brand"), StockOf(row), Column(row, "status"), Column(row, "image")))
  }

  /** A name cell of white space only passes the emptiness test and is imported
      as the empty name. */
  lemma BlankNameKept(row: Row)
    requires "name" in row && row["name"] != ""
    requires forall k :: 0 <= k < |row["name"]| ==> IsSpace(row["name"][k])
    ensures Normalize(row).Some? && Normalize(row).value.name == ""
  {
  }

  /** How many rows the handler drops. */
  function Dropped(rows: seq<Row>): nat
    decreases |rows|
  {
    if rows == [] then 0
    else Dropped(rows[..|rows| - 1]) + (if Column(rows[|rows| - 1], "name") == "" then 1 else 0)
  }

  /** The value an option holds, as a sequence of at most one element. */
  function Keep<B>(o: Option<B>): (r: seq<B>)
    ensures o.None? <==> r == []
  {
    match o
    case None => []
    case Some(v) => [v]
  }

  /** What `f` gives for each of `xs`, in order, the Nones left out. */
  function Collect<A, B>(f: A -> Option<B>, xs: seq<A>): (r: seq<B>)
    ensures |r| <= |xs|
    decreases |xs|
  {
    if xs == [] then [] else Collect(f, xs[..|xs| - 1]) + Keep(f(xs[|xs| - 1]))
  }

  lemma CollectNext<A, B>(f: A -> Option<B>, xs: seq<A>, i: nat)
    requires i < |xs|
    ensures Collect(f, xs[..i + 1]) == Collect(f, xs[..i]) + Keep(f(xs[i]))
  {
    assert xs[..i + 1][..i] == xs[..i];
  }

  /** When `f` gives a value for every element, nothing is left out. */
  lemma {:induction false} CollectEvery<A, B>(f: A -> Option<B>, xs: seq<A>, ys: seq<B>)
    requires |xs| == |ys|
    requires forall k :: 0 <= k < |xs| ==> f(xs[k]) == Some(ys[k])
    ensures Collect(f, xs) == ys
    decreases |xs|
  {
    if xs != [] {
      var n := |xs| - 1;
      CollectEvery(f, xs[..n], ys[..n]);
      assert ys == ys[..n] + [ys[n]];
    }
  }

  /** `productsToInsert` once every row has been handled: one draft per row with a
      name, in file order. */
  function NormalizeAll(rows: seq<Row>): (r: seq<Draft>)
    ensures |r| + Dropped(rows) == |rows|
  {
    NormalizeAllDropped(rows);
    Collect(Normalize, rows)
  }

  lemma {:induction false} NormalizeAllDropped(rows: seq<Row>)
    ensures |Collect(Normalize, rows)| + Dropped(rows) == |rows|
    decreases |rows|
  {
    if rows != [] {
      NormalizeAllDropped(rows[..|rows| - 1]);
    }
  }

  // ---------------------------------------------------------------------------
  // The insertion loop
  // ---------------------------------------------------------------------------

  /** The row an imported draft becomes. */
  function Insert(id: nat, d: Draft): (p: Product)
    ensures p.id == id && p.name == d.name && p.stock == d.stock
    ensures p.unit == Some(d.unit) && p.category == Some(d.category) && p.brand == Some(d.brand)
    ensures p.status == Some(d.status) && p.image == Some(d.image)
  {
    Product(id, d.name, Some(d.unit), Some(d.category), Some(d.brand), d.stock, Some(d.status), Some(d.image))
  }

  /** The rows inserted for `ds`, given consecutive ids from `first`. */
  function Inserted(first: nat, ds: seq<Draft>): (r: seq<Product>)
    ensures |r| == |ds|
    ensures forall k :: 0 <= k < |r| ==> r[k].id == first + k
    ensures forall i, j :: 0 <= i < j < |r| ==> r[i].id < r[j].id
    ensures forall k :: 0 <= k < |r| ==> r[k].name == ds[k].name && r[k].stock == ds[k].stock
    ensures forall k :: 0 <= k < |r| ==>
              && r[k].unit == Some(ds[k].unit) && r[k].category == Some(ds[k].category)
              && r[k].brand == Some(ds[k].brand) && r[k].status == Some(ds[k].status)
              && r[k].image == Some(ds[k].image)
  {
    seq(|ds|, k requires 0 <= k < |ds| => Insert(first + k, ds[k]))
  }

  /** One more draft inserts one more row, under the next id. */
  lemma InsertedNext(first: nat, ds: seq<Draft>, d: Draft)
    ensures Inserted(first, ds + [d]) == Inserted(first, ds) + [Insert(first + |ds|, d)]
  {
  }

  /** The loop's variables: the product table, the next id, and the `added`,
      `skipped` and `duplicates` arrays. */
  datatype ImportState = ImportState(
    products: seq<Product>,
    nextId: nat,
    added: seq<Draft>,
    skipped: seq<Draft>,
    duplicates: seq<Duplicate>)

  /** One iteration: a draft whose name matches a product up to case is skipped
      and reported with that product's id; any other draft is inserted. */
  function ImportStep(st: ImportState, d: Draft): (r: ImportState)
    ensures NameTaken(st.products, d.name) ==>
              && r.products == st.products && r.nextId == st.nextId && r.added == st.added
              && r.skipped == st.skipped + [d]
              && exists k :: && 0 <= k < |st.products| && SameName(st.products[k].name, d.name)
                             && (forall j :: 0 <= j < k ==> !SameName(st.products[j].name, d.name))
                             && r.duplicates == st.duplicates + [Duplicate(d.name, st.products[k].id)]
    ensures !NameTaken(st.products, d.name) ==>
              && r.products == st.products + [Insert(st.nextId, d)] && r.nextId == st.nextId + 1
              && r.added == st.added + [d] && r.skipped == st.skipped && r.duplicates == st.duplicates
    ensures NamesUnique(st.products) ==> NamesUnique(r.products)
  {
    match FirstNamed(st.products, d.name)
    case Some(k) =>
      st.(skipped := st.skipped + [d],
          duplicates := st.duplicates + [Duplicate(d.name, st.products[k].id)])
    case None =>
      var grown := st.products + [Insert(st.nextId, d)];
      assert forall k :: 0 <= k < |st.products| ==> grown[k] == st.products[k];
      st.(products := grown,
          nextId := st.nextId + 1,
          added := st.added + [d])
  }

  /** The loop over `productsToInsert`, from table `ps` and next id `nextId`. */
  function ImportRun(ps: seq<Product>, nextId: nat, ds: seq<Draft>): (st: ImportState)
    ensures |st.added| + |st.skipped| == |ds|
    ensures |st.duplicates| == |st.skipped|
    ensures st.products == ps + Inserted(nextId, st.added)
    ensures st.nextId == nextId + |st.added|
    decreases |ds|
  {
    if ds == [] then ImportState(ps, nextId, [], [], [])
    else
      var prev := ImportRun(ps, nextId, ds[..|ds| - 1]);
      var d := ds[|ds| - 1];
      var st := ImportStep(prev, d);
      InsertedNext(nextId, prev.added, d);
      st
  }

  /** One more draft is one more step of the loop. */
  lemma ImportRunNext(ps: seq<Product>, nextId: nat, ds: seq<Draft>, j: nat)
    requires j < |ds|
    ensures ImportRun(ps, nextId, ds[..j + 1]) == ImportStep(ImportRun(ps, nextId, ds[..j]), ds[j])
  {
    assert ds[..j + 1][..j] == ds[..j];
  }

  /** The report the endpoint answers with. */
  function Report(st: ImportState): (r: ImportReport)
    ensures r.added == |st.added| && r.skipped == |st.skipped| && r.duplicates == st.duplicates
  {
    ImportReport(|st.added|, |st.skipped|, st.duplicates)
  }

  // ---------------------------------------------------------------------------
  // What the loop promises
  // ---------------------------------------------------------------------------

  /** The import keeps ids increasing and below the next id. */
  lemma ImportKeepsIdsAscending(ps: seq<Product>, nextId: nat, ds: seq<Draft>)
    requires IdsAscending(ps) && forall k :: 0 <= k < |ps| ==> ps[k].id < nextId
    ensures var st := ImportRun(ps, nextId, ds);
            IdsAscending(st.products) && forall k :: 0 <= k < |st.products| ==> st.products[k].id < st.nextId
  {
    var st := ImportRun(ps, nextId, ds);
    var ins := Inserted(nextId, st.added);
    assert forall k :: |ps| <= k < |st.products| ==> st.products[k] == ins[k - |ps|];
  }

  /** Names that were unique up to case before the import still are afterwards. */
  lemma {:induction false} ImportKeepsNamesUnique(ps: seq<Product>, nextId: nat, ds: seq<Draft>)
    requires NamesUnique(ps)
    ensures NamesUnique(ImportRun(ps, nextId, ds).products)
    decreases |ds|
  {
    if ds != [] {
      var prev := ImportRun(ps, nextId, ds[..|ds| - 1]);
      ImportKeepsNamesUnique(ps, nextId, ds[..|ds| - 1]);
      var d := ds[|ds| - 1];
      if FirstNamed(prev.products, d.name).None? {
        var grown := prev.products + [Insert(prev.nextId, d)];
        assert forall k :: 0 <= k < |prev.products| ==> grown[k] == prev.products[k];
      }
    }
  }

  /** The rows of the table before a step are still there, in place, after it. */
  lemma ImportGrows(ps: seq<Product>, nextId: nat, ds: seq<Draft>, n: nat)
    requires n <= |ds|
    ensures var before := ImportRun(ps, nextId, ds[..n]).products;
            var after := ImportRun(ps, nextId, ds).products;
            |before| <= |after| && after[..|before|] == before
  {
    var before := ImportRun(ps, nextId, ds[..n]);
    var after := ImportRun(ps, nextId, ds);
    ImportAddedPrefix(ps, nextId, ds, n);
    var a, b := before.added, after.added;
    assert b[..|a|] == a;
    assert Inserted(nextId, b)[..|a|] == Inserted(nextId, a);
  }

  /** The drafts added by a prefix of the input are a prefix of those added by all of it. */
  lemma {:induction false} ImportAddedPrefix(ps: seq<Product>, nextId: nat, ds: seq<Draft>, n: nat)
    requires n <= |ds|
    ensures var a := ImportRun(ps, nextId, ds[..n]).added;
            var b := ImportRun(ps, nextId, ds).added;
            |a| <= |b| && b[..|a|] == a
    decreases |ds|
  {
    if n < |ds| {
      var init := ds[..|ds| - 1];
      assert init[..n] == ds[..n];
      ImportAddedPrefix(ps, nextId, init, n);
    } else {
      assert ds[..n] == ds;
    }
  }

  /** Every kept row ends up named in the table: it was inserted, or it collided
      with a product that is there. */
  lemma {:induction false} ImportCoversEveryRow(ps: seq<Product>, nextId: nat, ds: seq<Draft>)
    ensures forall k :: 0 <= k < |ds| ==> NameTaken(ImportRun(ps, nextId, ds).products, ds[k].name)
    decreases |ds|
  {
    if ds != [] {
      var init := ds[..|ds| - 1];
      var prev := ImportRun(ps, nextId, init);
      var st := ImportRun(ps, nextId, ds);
      ImportCoversEveryRow(ps, nextId, init);
      ImportGrows(ps, nextId, ds, |ds| - 1);
      assert init == ds[..|ds| - 1];
      forall k | 0 <= k < |ds| ensures NameTaken(st.products, ds[k].name) {
        if k < |ds| - 1 {
          assert ds[k] == init[k];
          var j :| 0 <= j < |prev.products| && SameName(prev.products[j].name, ds[k].name);
          assert st.products[j] == prev.products[j];
        } else {
          var d := ds[k];
          match FirstNamed(prev.products, d.name)
          case Some(j) =>
            assert st.products[j] == prev.products[j];
          case None =>
            assert st.products[|prev.products|] == Insert(prev.nextId, d);
        }
      }
    }
  }

  /** The `k`-th reported duplicate names a product of the table with the row's name up to case. */
  predicate DuplicateRefers(st: ImportState, k: nat)
    requires k < |st.duplicates|
  {
    exists j :: 0 <= j < |st.products| && st.products[j].id == st.duplicates[k].existingId
             && SameName(st.products[j].name, st.duplicates[k].name)
  }

  predicate DuplicatesExist(st: ImportState) {
    forall k :: 0 <= k < |st.duplicates| ==> DuplicateRefers(st, k)
  }

  lemma StepKeepsDuplicatesExist(st: ImportState, d: Draft)
    requires DuplicatesExist(st)
    ensures DuplicatesExist(ImportStep(st, d))
  {
    var next := ImportStep(st, d);
    forall k | 0 <= k < |next.duplicates| ensures DuplicateRefers(next, k) {
      if k < |st.duplicates| {
        assert DuplicateRefers(st, k);
        var j :| 0 <= j < |st.products| && st.products[j].id == st.duplicates[k].existingId
                 && SameName(st.products[j].name, st.duplicates[k].name);
        assert next.products[j] == st.products[j];
        assert next.duplicates[k] == st.duplicates[k];
      } else {
        var j := FirstNamed(st.products, d.name).value;
        assert next.products[j] == st.products[j];
      }
    }
  }

  /** Every reported duplicate refers to a product of the table after the import
      whose name equals the row's up to case. */
  lemma {:induction false} ImportDuplicatesExist(ps: seq<Product>, nextId: nat, ds: seq<Draft>)
    ensures DuplicatesExist(ImportRun(ps, nextId, ds))
    decreases |ds|
  {
    if ds != [] {
      ImportDuplicatesExist(ps, nextId, ds[..|ds| - 1]);
      StepKeepsDuplicatesExist(ImportRun(ps, nextId, ds[..|ds| - 1]), ds[|ds| - 1]);
    }
  }

  /** Drafts whose names are new to the table and distinct from one another are
      all added, in order, with consecutive ids. */
  lemma {:induction false} ImportFresh(ps: seq<Product>, nextId: nat, ds: seq<Draft>)
    requires forall k :: 0 <= k < |ds| ==> !NameTaken(ps, ds[k].name)
    requires forall i, j :: 0 <= i < j < |ds| ==> !SameName(ds[i].name, ds[j].name)
    ensures var st := ImportRun(ps, nextId, ds);
            st.added == ds && st.skipped == [] && st.duplicates == []
    decreases |ds|
  {
    if ds != [] {
      var init := ds[..|ds| - 1];
      ImportFresh(ps, nextId, init);
      var prev := ImportRun(ps, nextId, init);
      var d := ds[|ds| - 1];
      assert !NameTaken(prev.products, d.name) by {
        var ins := Inserted(nextId, init);
        assert prev.products == ps + ins;
        forall k | 0 <= k < |prev.products| ensures !SameName(prev.products[k].name, d.name) {
          if k >= |ps| {
            assert prev.products[k] == ins[k - |ps|];
            assert ins[k - |ps|].name == ds[k - |ps|].name;
          }
        }
      }
      assert init + [d] == ds;
    }
  }

  /** Two rows with the same name up to case and no matching product: the first
      is added, the second reported as a duplicate of the first's new id. */
  lemma SameNameTwice(ps: seq<Product>, nextId: nat, a: Draft, b: Draft)
    requires !NameTaken(ps, a.name) && SameName(a.name, b.name)
    ensures var st := ImportRun(ps, nextId, [a, b]);
            st.added == [a] && st.skipped == [b] && st.duplicates == [Duplicate(b.name, nextId)]
  {
    var first := ImportRun(ps, nextId, [a]);
    assert [a, b][..1] == [a];
    assert [a][..0] == [];
    assert first.products == ps + [Insert(nextId, a)];
    assert SameName(first.products[|ps|].name, b.name);
    var j := FirstNamed(first.products, b.name).value;
    assert j == |ps| by {
      if j < |ps| {
        assert SameName(ps[j].name, a.name);
      }
    }
  }
}
