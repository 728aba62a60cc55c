/** The product table, the stock-history table and the pure logic of the
    products controller: name matching, the list filter, request validation,
    CSV row normalisation, the import classification and the export document. */
module Catalog {
  import opened Wrappers
  import opened Text
  import opened Csv

  // ---------------------------------------------------------------------------
  // Rows of the two tables
  // ---------------------------------------------------------------------------

  /** A row of `products`. The text columns other than `name` may hold NULL. */
  datatype Product = Product(
    id: nat,
    name: string,
    unit: Option<string>,
    category: Option<string>,
    brand: Option<string>,
    stock: int,
    status: Option<string>,
    image: Option<string>)

  /** A row of `inventory_history`, written when an update changes a stock value. */
  datatype HistoryRow = HistoryRow(
    id: nat,
    productId: nat,
    oldQuantity: int,
    newQuantity: int,
    changeDate: string,
    userInfo: string)

  /** The `user_info` every history row carries. */
  const Actor: string := "admin"

  /** The error answers of the controller: 400 for validation and duplicate
      names, 404 for a missing product, 400 for an import without a file. */
  datatype Error = ValidationFailed | NotFound | DuplicateName | FileRequired

  /** The body of POST /api/products; an absent field is None. */
  datatype CreateRequest = CreateRequest(
    name: string,
    unit: Option<string>,
    category: Option<string>,
    brand: Option<string>,
    stock: Option<int>,
    status: Option<string>,
    image: Option<string>)

  /** The body of PUT /api/products/:id; `stock` is required there. */
  datatype UpdateRequest = UpdateRequest(
    name: string,
    unit: Option<string>,
    category: Option<string>,
    brand: Option<string>,
    stock: int,
    status: Option<string>,
    image: Option<string>)

  /** The route's validation rules: a non-empty name, and a non-negative stock when given. */
  predicate ValidCreate(req: CreateRequest) {
    req.name != "" && (req.stock.None? || req.stock.value >= 0)
  }

  predicate ValidUpdate(req: UpdateRequest) {
    req.name != "" && req.stock >= 0
  }

  /** The row a valid create request inserts: absent text fields default to "",
      an absent stock to 0. */
  function NewProduct(id: nat, req: CreateRequest): (p: Product)
    ensures p.id == id && p.name == req.name && p.stock == req.stock.GetOr(0)
    ensures p.unit == Some(req.unit.GetOr("")) && p.category == Some(req.category.GetOr(""))
    ensures p.brand == Some(req.brand.GetOr("")) && p.status == Some(req.status.GetOr(""))
    ensures p.image == Some(req.image.GetOr(""))
  {
    Product(id, req.name, Some(req.unit.GetOr("")), Some(req.category.GetOr("")),
            Some(req.brand.GetOr("")), req.stock.GetOr(0), Some(req.status.GetOr("")),
            Some(req.image.GetOr("")))
  }

  /** The row after UPDATE: all seven columns from the request (an absent text
      field binds NULL), the id kept. */
  function Updated(p: Product, req: UpdateRequest): (q: Product)
    ensures q.id == p.id && q.name == req.name && q.stock == req.stock
    ensures q.unit == req.unit && q.category == req.category && q.brand == req.brand
    ensures q.status == req.status && q.image == req.image
  {
    Product(p.id, req.name, req.unit, req.category, req.brand, req.stock, req.status, req.image)
  }

  // ---------------------------------------------------------------------------
  // Table invariants
  // ---------------------------------------------------------------------------

  /** AUTOINCREMENT hands out ids in increasing order, so the table order is id order. */
  predicate IdsAscending(ps: seq<Product>) {
    forall i, j :: 0 <= i < j < |ps| ==> ps[i].id < ps[j].id
  }

  /** No two products share a name up to case. */
  predicate NamesUnique(ps: seq<Product>) {
    forall i, j :: 0 <= i < j < |ps| ==> !SameName(ps[i].name, ps[j].name)
  }

  predicate NameTaken(ps: seq<Product>, name: string) {
    exists k :: 0 <= k < |ps| && SameName(ps[k].name, name)
  }

  // ---------------------------------------------------------------------------
  // Lookups
  // ---------------------------------------------------------------------------

  /** `SELECT * FROM products WHERE id = ?`: the position of the row with that id. */
  function IndexOfId(ps: seq<Product>, id: int): (r: Option<nat>)
    ensures r.Some? ==> r.value < |ps| && ps[r.value].id == id
    ensures r.None? <==> forall k :: 0 <= k < |ps| ==> ps[k].id != id
    decreases |ps|
  {
    if ps == [] then None
    else if ps[0].id == id then Some(0)
    else
      match IndexOfId(ps[1..], id)
      case None => None
      case Some(k) => Some(k + 1)
  }

  /** `SELECT id FROM products WHERE LOWER(name) = LOWER(?)`: the position of the
      first row whose name equals `name` up to case. */
  function FirstNamed(ps: seq<Product>, name: string): (r: Option<nat>)
    ensures r.Some? ==> r.value < |ps| && SameName(ps[r.value].name, name)
    ensures r.Some? ==> forall k :: 0 <= k < r.value ==> !SameName(ps[k].name, name)
    ensures r.None? <==> !NameTaken(ps, name)
    decreases |ps|
  {
    if ps == [] then None
    else if SameName(ps[0].name, name) then Some(0)
    else
      match FirstNamed(ps[1..], name)
      case None =>
        assert forall k :: 1 <= k < |ps| ==> ps[k] == ps[1..][k - 1];
        None
      case Some(k) => Some(k + 1)
  }

  /** The update's check `LOWER(name) = LOWER(?) AND id != ?`: another product holds the name. */
  function NameTakenByOther(ps: seq<Product>, name: string, id: int): (r: bool)
    ensures r <==> exists k :: 0 <= k < |ps| && ps[k].id != id && SameName(ps[k].name, name)
    decreases |ps|
  {
    if ps == [] then false
    else if ps[0].id != id && SameName(ps[0].name, name) then true
    else
      var r := NameTakenByOther(ps[1..], name, id);
      assert forall k :: 1 <= k < |ps| ==> ps[k] == ps[1..][k - 1];
      r
  }

  // ---------------------------------------------------------------------------
  // GET /api/products?name=q
  // ---------------------------------------------------------------------------

  /** The text a query filters on: trimmed and lower-cased; None when there is no
      query or it trims to nothing, in which case every product is listed. */
  function Needle(query: Option<string>): (r: Option<string>)
    ensures r.Some? <==> query.Some? && Trim(query.value) != []
    ensures r.Some? ==> r.value == Lower(Trim(query.value))
    ensures r.Some? ==> r.value != [] && Lower(r.value) == r.value
  {
    match query
    case None => None
    case Some(q) =>
      var needle := Lower(Trim(q));
      LowerIdempotent(Trim(q));
      if needle == [] then None else Some(needle)
  }

  lemma LowerIdempotent(s: string)
    ensures Lower(Lower(s)) == Lower(s)
  {
  }

  /** `LOWER(name) LIKE '%needle%'`, read as a substring test. */
  predicate Matches(p: Product, needle: string) {
    Contains(Lower(p.name), needle)
  }

  /** The products whose name contains `needle`, in table order. */
  function FilterByName(ps: seq<Product>, needle: string): (r: seq<Product>)
    ensures forall p :: p in r <==> p in ps && Matches(p, needle)
    ensures |r| <= |ps|
    ensures IdsAscending(ps) ==> IdsAscending(r)
    decreases |ps|
  {
    if ps == [] then []
    else
      var rest := FilterByName(ps[1..], needle);
      if Matches(ps[0], needle) then
        if IdsAscending(ps) then
          ConsAscending(ps, rest);
          [ps[0]] + rest
        else [ps[0]] + rest
      else rest
  }

  /** Putting the first product before ascending products drawn from the rest keeps the order. */
  lemma ConsAscending(ps: seq<Product>, rest: seq<Product>)
    requires ps != [] && IdsAscending(ps) && IdsAscending(rest)
    requires forall p :: p in rest ==> p in ps[1..]
    ensures IdsAscending([ps[0]] + rest)
  {
    var r := [ps[0]] + rest;
    forall i, j | 0 <= i < j < |r| ensures r[i].id < r[j].id {
      assert r[j] == rest[j - 1] && r[j] in ps[1..];
      var k :| 0 <= k < |ps[1..]| && ps[1..][k] == r[j];
      assert ps[k + 1] == r[j];
      if i > 0 {
        assert r[i] == rest[i - 1];
      }
    }
  }

  /** The answer to GET /api/products. */
  function ListProducts(ps: seq<Product>, query: Option<string>): (r: seq<Product>)
    ensures Needle(query).None? ==> r == ps
    ensures Needle(query).Some? ==> forall p :: p in r <==> p in ps && Matches(p, Needle(query).value)
    ensures IdsAscending(ps) ==> IdsAscending(r)
  {
    match Needle(query)
    case None => ps
    case Some(needle) => FilterByName(ps, needle)
  }

  // ---------------------------------------------------------------------------
  // GET /api/products/:id/history
  // ---------------------------------------------------------------------------

  /** The history rows of one product, in the order they were written. */
  function HistoryOf(h: seq<HistoryRow>, id: int): (r: seq<HistoryRow>)
    ensures forall row :: row in r <==> row in h && row.productId == id
    decreases |h|
  {
    if h == [] then []
    else
      var rest := HistoryOf(h[1..], id);
      if h[0].productId == id then [h[0]] + rest else rest
  }

  /** `DELETE FROM products WHERE id = ?` on the table contents. */
  function WithoutProduct(ps: seq<Product>, id: int): (r: seq<Product>)
    ensures forall p :: p in r <==> p in ps && p.id != id
    ensures IdsAscending(ps) ==> IdsAscending(r)
    decreases |ps|
  {
    if ps == [] then []
    else
      var rest := WithoutProduct(ps[1..], id);
      if ps[0].id == id then rest
      else if IdsAscending(ps) then
        ConsAscending(ps, rest);
        [ps[0]] + rest
      else [ps[0]] + rest
  }

  /** `DELETE FROM inventory_history WHERE product_id = ?` on the table contents. */
  function WithoutHistoryOf(h: seq<HistoryRow>, id: int): (r: seq<HistoryRow>)
    ensures forall row :: row in r <==> row in h && row.productId != id
    decreases |h|
  {
    if h == [] then []
    else
      var rest := WithoutHistoryOf(h[1..], id);
      if h[0].productId == id then rest else [h[0]] + rest
  }

  /** After the cascade, the history of the deleted id reads as empty, and every
      other product's history is what it was. */
  lemma {:induction false} CascadeClearsHistory(h: seq<HistoryRow>, id: int, other: int)
    requires other != id
    ensures HistoryOf(WithoutHistoryOf(h, id), id) == []
    ensures HistoryOf(WithoutHistoryOf(h, id), other) == HistoryOf(h, other)
    decreases |h|
  {
    if h != [] {
      CascadeClearsHistory(h[1..], id, other);
    }
  }
}
