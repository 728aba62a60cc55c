/** The two tables as one object, and the controller's endpoints that change
    them (create, update, delete, import) or read them in a loop (export). */
module Inventory {
  import opened Wrappers
  import opened Text
  import opened Catalog
  import opened ImportCsv
  import opened ExportCsv

  /** Keeping your own name, or changing only its case, never collides with another
      product while ids and names are unique. */
  lemma OwnNameNoConflict(ps: seq<Product>, i: nat, name: string)
    requires IdsAscending(ps) && NamesUnique(ps)
    requires i < |ps| && SameName(ps[i].name, name)
    ensures !NameTakenByOther(ps, name, ps[i].id)
  {
    forall k | 0 <= k < |ps| && ps[k].id != ps[i].id ensures !SameName(ps[k].name, name) {
      if k < i {
        assert !SameName(ps[k].name, ps[i].name);
      } else {
        assert k > i;
        assert !SameName(ps[i].name, ps[k].name);
      }
    }
  }

  /** The parser's `data` handler applied to each row in turn: `productsToInsert`. */
  method CollectRows(rows: seq<Row>) returns (productsToInsert: seq<Draft>)
    ensures productsToInsert == NormalizeAll(rows)
  {
    productsToInsert := [];
    var i := 0;
    while i < |rows|
      invariant 0 <= i <= |rows|
      invariant productsToInsert == NormalizeAll(rows[..i])
    {
      CollectNext(Normalize, rows, i);
      match Normalize(rows[i]) {
        case Some(d) =>
          productsToInsert := productsToInsert + [d];
        case None =>
      }
      i := i + 1;
    }
    assert rows[..|rows|] == rows;
  }

  /** The parser's `end` handler: each collected row in order against the growing
      table, inserted under the next id or recorded as a duplicate of the first
      product with the same name. */
  method InsertRows(products: seq<Product>, nextId: nat, productsToInsert: seq<Draft>)
    returns (st: ImportState)
    ensures st == ImportRun(products, nextId, productsToInsert)
  {
    var table, id := products, nextId;
    var added: seq<Draft> := [];
    var skipped: seq<Draft> := [];
    var duplicates: seq<Duplicate> := [];
    var j := 0;
    while j < |productsToInsert|
      invariant 0 <= j <= |productsToInsert|
      invariant ImportRun(products, nextId, productsToInsert[..j])
                == ImportState(table, id, added, skipped, duplicates)
    {
      var product := productsToInsert[j];
      ghost var before := ImportState(table, id, added, skipped, duplicates);
      ImportRunNext(products, nextId, productsToInsert, j);
      match FirstNamed(table, product.name) {
        case Some(k) =>
          duplicates := duplicates + [Duplicate(product.name, table[k].id)];
          skipped := skipped + [product];
        case None =>
          table := table + [Insert(id, product)];
          id := id + 1;
          added := added + [product];
      }
      assert ImportState(table, id, added, skipped, duplicates) == ImportStep(before, product);
      j := j + 1;
    }
    assert productsToInsert[..|productsToInsert|] == productsToInsert;
    st := ImportState(table, id, added, skipped, duplicates);
  }

  class Store {
    /** The `products` table, in id order. */
    var products: seq<Product>
    /** The `inventory_history` table, in insertion order. */
    var history: seq<HistoryRow>
    /** The id AUTOINCREMENT gives the next product. */
    var nextId: nat
    /** The id AUTOINCREMENT gives the next history row. */
    var nextHistoryId: nat

    ghost predicate Valid()
      reads this
    {
      && IdsAscending(products)
      && NamesUnique(products)
      && (forall k :: 0 <= k < |products| ==> products[k].id < nextId)
      && (forall k :: 0 <= k < |history| ==> history[k].id < nextHistoryId)
    }

    /** Two empty tables. */
    constructor ()
      ensures Valid()
      ensures products == [] && history == [] && nextId == 1 && nextHistoryId == 1
    {
      products, history := [], [];
      nextId, nextHistoryId := 1, 1;
    }

    /** POST /api/products. */
    method Create(req: CreateRequest) returns (r: Result<Product, Error>)
      requires Valid()
      modifies this
      ensures Valid()
      ensures !ValidCreate(req) ==> r == Failure(ValidationFailed) && unchanged(this)
      ensures ValidCreate(req) && NameTaken(old(products), req.name) ==>
                r == Failure(DuplicateName) && unchanged(this)
      ensures ValidCreate(req) && !NameTaken(old(products), req.name) ==>
                var p := NewProduct(old(nextId), req);
                && r == Success(p)
                && products == old(products) + [p]
                && nextId == old(nextId) + 1
                && history == old(history) && nextHistoryId == old(nextHistoryId)
    {
      if !ValidCreate(req) {
        return Failure(ValidationFailed);
      }
      if FirstNamed(products, req.name).Some? {
        return Failure(DuplicateName);
      }
      var p := NewProduct(nextId, req);
      products := products + [p];
      nextId := nextId + 1;
      r := Success(p);
    }

    /** PUT /api/products/:id, at time `now`. */
    method Update(id: int, req: UpdateRequest, now: string) returns (r: Result<Product, Error>)
      requires Valid()
      modifies this
      ensures Valid()
      ensures !ValidUpdate(req) ==> r == Failure(ValidationFailed) && unchanged(this)
      ensures ValidUpdate(req) && IndexOfId(old(products), id).None? ==>
                r == Failure(NotFound) && unchanged(this)
      ensures ValidUpdate(req) && IndexOfId(old(products), id).Some?
              && NameTakenByOther(old(products), req.name, id) ==>
                r == Failure(DuplicateName) && unchanged(this)
      ensures ValidUpdate(req) && IndexOfId(old(products), id).Some?
              && !NameTakenByOther(old(products), req.name, id) ==>
                var i := IndexOfId(old(products), id).value;
                var before := old(products)[i];
                var after := Updated(before, req);
                && r == Success(after)
                && products == old(products)[i := after]
                && nextId == old(nextId)
                && (before.stock != req.stock ==>
                      && history == old(history) + [HistoryRow(old(nextHistoryId), before.id, before.stock,
                                                                req.stock, now, Actor)]
                      && nextHistoryId == old(nextHistoryId) + 1)
                && (before.stock == req.stock ==>
                      history == old(history) && nextHistoryId == old(nextHistoryId))
    {
      if !ValidUpdate(req) {
        return Failure(ValidationFailed);
      }
      var found := IndexOfId(products, id);
      if found.None? {
        return Failure(NotFound);
      }
      if NameTakenByOther(products, req.name, id) {
        return Failure(DuplicateName);
      }
      var i := found.value;
      var before := products[i];
      var after := Updated(before, req);
      ghost var was := products;
      products := products[i := after];
      if before.stock != req.stock {
        history := history + [HistoryRow(nextHistoryId, before.id, before.stock, req.stock, now, Actor)];
        nextHistoryId := nextHistoryId + 1;
      }
      r := Success(after);
      ReplaceKeepsNamesUnique(was, i, after);
    }

    /** DELETE /api/products/:id: the product and, after it, its history rows. */
    method Delete(id: int) returns (r: Result<(), Error>)
      requires Valid()
      modifies this
      ensures Valid()
      ensures IndexOfId(old(products), id).None? ==> r == Failure(NotFound) && unchanged(this)
      ensures IndexOfId(old(products), id).Some? ==>
                && r == Success(())
                && products == WithoutProduct(old(products), id)
                && history == WithoutHistoryOf(old(history), id)
                && nextId == old(nextId) && nextHistoryId == old(nextHistoryId)
    {
      if IndexOfId(products, id).None? {
        return Failure(NotFound);
      }
      ghost var was := products;
      products := WithoutProduct(products, id);
      history := WithoutHistoryOf(history, id);
      r := Success(());
      assert forall p :: p in products ==> p.id < nextId by {
        forall p | p in products ensures p.id < nextId {
          var k :| 0 <= k < |was| && was[k] == p;
        }
      }
      assert forall row :: row in history ==> row.id < nextHistoryId by {
        forall row | row in history ensures row.id < nextHistoryId {
          var k :| 0 <= k < |old(history)| && old(history)[k] == row;
        }
      }
      RemovalKeepsNamesUnique(was, id);
    }

    /** POST /api/products/import, with the parsed rows of the uploaded file. */
    method Import(file: Option<seq<Row>>) returns (r: Result<ImportReport, Error>)
      requires Valid()
      modifies this
      ensures Valid()
      ensures file.None? ==> r == Failure(FileRequired) && unchanged(this)
      ensures file.Some? ==>
                var st := ImportRun(old(products), old(nextId), NormalizeAll(file.value));
                && r == Success(Report(st))
                && products == st.products && nextId == st.nextId
                && history == old(history) && nextHistoryId == old(nextHistoryId)
    {
      if file.None? {
        return Failure(FileRequired);
      }
      var productsToInsert := CollectRows(file.value);

      var st := InsertRows(products, nextId, productsToInsert);
      ImportKeepsIdsAscending(products, nextId, productsToInsert);
      ImportKeepsNamesUnique(products, nextId, productsToInsert);
      products, nextId := st.products, st.nextId;
      r := Success(ImportReport(|st.added|, |st.skipped|, st.duplicates));
    }

    /** GET /api/products/export: the table in id order, as CSV text. */
    method Export() returns (csv: string)
      requires Valid()
      ensures csv == CsvDocument(products)
      ensures IdsAscending(products)
    {
      var table := products;
      var header := HeaderLine();
      var csvLines := [header];
      for i := 0 to |table|
        invariant csvLines == [header] + FormatRows(table[..i])
      {
        var line := FormatProduct(table[i]);
        FormatRowsNext(table, i);
        PushAfterHead(header, FormatRows(table[..i]), line);
        csvLines := csvLines + [line];
      }
      assert table[..|table|] == table;
      csv := Join(csvLines, '\n');
    }
  }

  lemma PushAfterHead<T>(head: T, body: seq<T>, last: T)
    ensures [head] + body + [last] == [head] + (body + [last])
  {
  }

  /** Replacing a product by one whose name no other product takes keeps the names unique. */
  lemma ReplaceKeepsNamesUnique(ps: seq<Product>, i: nat, after: Product)
    requires i < |ps| && IdsAscending(ps) && NamesUnique(ps)
    requires !NameTakenByOther(ps, after.name, ps[i].id)
    ensures NamesUnique(ps[i := after])
  {
    var r := ps[i := after];
    forall a, b | 0 <= a < b < |r| ensures !SameName(r[a].name, r[b].name) {
      if a == i {
        assert ps[b].id != ps[i].id;
      } else if b == i {
        assert ps[a].id != ps[i].id;
      }
    }
  }

  /** Removing a product keeps the remaining names unique. */
  lemma RemovalKeepsNamesUnique(ps: seq<Product>, id: int)
    requires IdsAscending(ps) && NamesUnique(ps)
    ensures NamesUnique(WithoutProduct(ps, id))
  {
    var r := WithoutProduct(ps, id);
    forall a, b | 0 <= a < b < |r| ensures !SameName(r[a].name, r[b].name) {
      assert r[a] in ps && r[b] in ps;
      var i :| 0 <= i < |ps| && ps[i] == r[a];
      var j :| 0 <= j < |ps| && ps[j] == r[b];
      assert IdsAscending(r);
      assert r[a].id < r[b].id;
      assert i < j;
    }
  }

  /** In a table of one product, that product is found by its id and its name is taken by no other. */
  lemma SoleProduct(p: Product)
    requires p.id == 1
    ensures IndexOfId([p], 1) == Some(0) && !NameTakenByOther([p], p.name, 1)
  {
  }

  /** A history of one change to product 1 is that product's whole history. */
  lemma SoleChange(change: HistoryRow)
    requires change.productId == 1
    ensures HistoryOf([change], 1) == [change]
  {
    assert [change][1..] == [];
  }

  /** A fresh store after creating "Pen" with stock 10 holds that product alone and no history. */
  method OpenPenStore() returns (store: Store, pen: Product)
    ensures fresh(store) && store.Valid()
    ensures pen.id == 1 && pen.name == "Pen" && pen.stock == 10
    ensures store.products == [pen] && store.history == [] && store.nextHistoryId == 1
  {
    store := new Store();
    var req := CreateRequest("Pen", None, None, None, Some(10), None, None);
    assert ValidCreate(req) && !NameTaken([], req.name);
    var created := store.Create(req);
    pen := NewProduct(1, req);
  }

  /** Create "Pen" with stock 10, set its stock to 4, then save it again unchanged:
      the history holds exactly the one change from 10 to 4, stamped with the
      first update's time. */
  method PenScenario(first: string, second: string) returns (log: seq<HistoryRow>)
    ensures log == [HistoryRow(1, 1, 10, 4, first, Actor)]
  {
    var store, pen := OpenPenStore();
    var edit := UpdateRequest("Pen", None, None, None, 4, None, None);
    assert ValidUpdate(edit);
    SoleProduct(pen);
    var updated := store.Update(1, edit, first);
    var pen4 := Updated(pen, edit);
    var change := HistoryRow(1, 1, 10, 4, first, Actor);
    assert store.products == [pen4] && store.history == [change];
    SoleProduct(pen4);
    var again := store.Update(1, edit, second);
    assert store.history == [change];
    SoleChange(change);
    log := HistoryOf(store.history, 1);
  }
}
