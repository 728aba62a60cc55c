# Inventory products controller, in Dafny

This project models the backend of a small inventory manager: the products
controller behind the REST endpoints under `/api/products`. It keeps two tables:

- `products` holds `id`, `name`, `unit`, `category`, `brand`, `stock`, `status` and `image`;
- `inventory_history` is an append-only log of stock changes.

The model covers these operations:

- list products, with an optional name filter (`getProducts`);
- create, update and delete a product;
- read a product's stock history;
- import products from a CSV file: normalise the rows, then insert each one or report it as a duplicate;
- export the table as CSV text.

The two tables are the fields of the class `Inventory.Store`. Its methods update
them in place the way the SQL statements do:

- AUTOINCREMENT is the counters `nextId` and `nextHistoryId`;
- `ORDER BY id` is the stored order, because the class invariant keeps ids ascending;
- the cascade on delete is two filters.

The pure pieces are functions with lemmas:

- the name filter;
- row normalisation;
- the insert-or-skip fold;
- field escaping and the CSV document.

Each of them has a partner:

- the CSV writer is paired with a reader that follows section 2 of RFC 4180, and every record reads back;
- `ParseInt` is paired with `IntToString`;
- `Split` is paired with `Join`;
- the import fold is paired with invariants (names stay unique, ids stay ascending, the counts add up).

`RoundTrip` ties export and import together. Take a table in which:

- no value holds a line break;
- every name is non-empty and has no white space at either end;
- names are unique up to case.

Exporting such a table and importing the text into an empty table gives back the
same products, with the same names, stocks and texts (NULL becoming ""), under
fresh ids (`RoundTrip.ExportThenImport`). Without the conditions on names, the
code does not give the products back:

- the import trims names, so a product named " Pen" comes back as "Pen"
  (`RoundTrip.PaddedNameTrimmed`);
- the import drops rows with an empty name, so a product with the empty name is
  lost (`RoundTrip.EmptyNameDropped`). The import itself creates such a product
  from a name of blanks (`ImportCsv.BlankNameKept`).

A value with a line break splits its line in two.

Modules, in dependency order:

| file | module | contents |
|---|---|---|
| wrappers.dfy | `Wrappers` | `Option`, `Result` |
| text.dfy | `Text` | SQL `LOWER`; JavaScript `trim`, `parseInt`, `join`/`split` and integer `String(n)`; substring search |
| csv.dfy | `Csv` | the export's field escaping; a reference record reader |
| catalog.dfy | `Catalog` | table rows, requests, lookups, the list filter, history queries, the delete cascade |
| import_csv.dfy | `ImportCsv` | row normalisation and the import fold |
| export_csv.dfy | `ExportCsv` | the CSV document and its lines |
| inventory.dfy | `Inventory` | class `Store` with the endpoints that change the tables or loop |
| roundtrip.dfy | `RoundTrip` | export followed by import |

Two behaviours of the code worth knowing:

- The import tests `if (row.name)` before trimming. A name of blanks is therefore
  kept and imported as the empty name (`ImportCsv.BlankNameKept`); it is not dropped.
- An update with a text field missing from the body binds `undefined`, which the
  database stores as NULL. So `Updated` copies `None` into the row, and the export
  renders it as "". Create, by contrast, defaults missing text fields to "".

## Model

| member | source | states |
|---|---|---|
| Text.Lower | backend/controllers/productsController.js:85 | `LOWER` keeps the length, leaves no ASCII capital, changes no other character, and turns each capital into its lower-case letter |
| Text.Trim | backend/controllers/productsController.js:41 | `trim` returns a slice of the input; everything cut off is white space, and the result is empty or has no white space at either end |
| Text.TrimIdempotent | backend/controllers/productsController.js:137 | trimming twice is trimming once |
| Text.Contains | backend/controllers/productsController.js:46-47 | `LIKE '%q%'` without wildcards holds exactly when `q` occurs at some position of the name |
| Text.SplitJoin | backend/controllers/productsController.js:202 | splitting a `join('\n')` at line breaks gives back the parts when no part holds one |
| Text.ParseInt | backend/controllers/productsController.js:141 | `parseInt(s, 10)` is NaN (None) exactly when no digit follows the leading white space and optional sign |
| Text.ParseIntReads | backend/controllers/productsController.js:141 | after white space and an optional sign, `parseInt` reads the value of the leading digits, negated after a minus, and ignores whatever follows them (" 12", "+7", "-3.5" and "12 pcs" give 12, 7, -3 and 12) |
| Text.ParseIntOfIntToString | backend/controllers/productsController.js:141 | `parseInt` reads back every integer written by `String(n)`, negatives included |
| Text.IntToString | backend/controllers/productsController.js:193 | `toString()` of an integer is canonical decimal: a minus sign exactly for a negative number, then digits with no leading zero except for 0 itself |
| Csv.Render | backend/controllers/productsController.js:193 | null or undefined becomes "", any other value its text |
| Csv.DoubleQuotes | backend/controllers/productsController.js:195 | a value without quotes is unchanged; otherwise the text grows by one character per quote |
| Csv.EscapeField | backend/controllers/productsController.js:194-197 | a value without `,` or `"` is emitted as it is; any other is enclosed in quotes |
| Csv.DoubleQuotesKeeps | backend/controllers/productsController.js:195 | doubling quotes adds or removes no character other than `"` |
| Csv.EscapeKeepsLineBreaks | backend/controllers/productsController.js:194-196 | escaping never adds or removes a line break: a line break alone does not cause quoting |
| Csv.EscapeAll | backend/controllers/productsController.js:192-198 | each field of a line is escaped on its own |
| Csv.ParseFormatRecord | backend/controllers/productsController.js:192-199 | an RFC 4180 reader reads any escaped and comma-joined line back as exactly its fields |
| Csv.EscapeExample | backend/controllers/productsController.js:194-196 | `Widget, "Pro"` is written `"Widget, ""Pro"""` |
| Catalog.NewProduct | backend/controllers/productsController.js:238-250 | a created row carries the request's name, its stock or 0, and its text fields or "" |
| Catalog.Updated | backend/controllers/productsController.js:93-96 | the updated row keeps its id and takes all seven columns from the request, an absent text field as NULL |
| Catalog.IndexOfId | backend/controllers/productsController.js:79-82 | the lookup by id finds the row with that id, or reports that none has it |
| Catalog.FirstNamed | backend/controllers/productsController.js:242-245 | the case-insensitive name lookup finds the first row with that name, and finds none exactly when no row has it |
| Catalog.NameTakenByOther | backend/controllers/productsController.js:85-88 | the update's conflict check holds exactly when a product with another id has the name up to case |
| Catalog.Needle | backend/controllers/productsController.js:41-47 | a query filters exactly when it is given and non-empty after trimming, and the text filtered on is the trimmed query lower-cased |
| Catalog.FilterByName | backend/controllers/productsController.js:45-50 | the filtered list holds exactly the products whose lower-cased name contains the needle, in id order |
| Catalog.ListProducts | backend/controllers/productsController.js:39-56 | with no query every product is listed; with one, exactly the matching products, in id order |
| Catalog.HistoryOf | backend/controllers/productsController.js:215-229 | the history of a product holds exactly the log rows with its product id |
| Catalog.WithoutProduct | backend/controllers/productsController.js:270 | deleting keeps exactly the products with another id, still in id order |
| Catalog.WithoutHistoryOf | backend/controllers/productsController.js:272 | the cascade keeps exactly the log rows of other products |
| Catalog.CascadeClearsHistory | backend/controllers/productsController.js:269-272 | after a delete the product's history is empty and every other product's history is unchanged |
| ImportCsv.StockOf | backend/controllers/productsController.js:141 | the stock is the parsed number, or 0 when the cell is missing or holds no number |
| ImportCsv.Column | backend/controllers/productsController.js:138-143 | `row.key \|\| ''` is "" exactly when the cell is absent or empty, and the cell's text otherwise |
| ImportCsv.Normalize | backend/controllers/productsController.js:135-144 | a row is dropped exactly when its name is missing or empty; otherwise the name is trimmed and missing cells become "" |
| ImportCsv.BlankNameKept | backend/controllers/productsController.js:135-137 | a name of white space only passes the emptiness test and becomes the empty name |
| ImportCsv.NormalizeAll | backend/controllers/productsController.js:133-146 | kept rows plus dropped rows are all the rows |
| ImportCsv.Inserted | backend/controllers/productsController.js:155-159 | the added drafts become rows under consecutive ids from the next id, in ascending order, each with its draft's name, stock and texts |
| ImportCsv.ImportStep | backend/controllers/productsController.js:150-161 | a draft whose name the table holds up to case is skipped and reported against the first such product's id, with the table unchanged; any other is appended under the next id; names unique before stay unique |
| ImportCsv.ImportRun | backend/controllers/productsController.js:149-162 | added + skipped = kept rows; one duplicate entry per skipped row; the table grows by exactly the added drafts under consecutive ids |
| ImportCsv.Report | backend/controllers/productsController.js:169 | the answer counts the added and the skipped drafts and lists the duplicates |
| ImportCsv.ImportKeepsIdsAscending | backend/controllers/productsController.js:155-159 | the import keeps ids ascending and below the next id |
| ImportCsv.ImportKeepsNamesUnique | backend/controllers/productsController.js:149-162 | names unique up to case before the import stay unique after it |
| ImportCsv.ImportGrows | backend/controllers/productsController.js:149-162 | the loop only appends: earlier rows stay in place |
| ImportCsv.ImportAddedPrefix | backend/controllers/productsController.js:149-162 | the added list only grows at its end |
| ImportCsv.ImportCoversEveryRow | backend/controllers/productsController.js:149-162 | after the import every kept row's name is in the table |
| ImportCsv.ImportDuplicatesExist | backend/controllers/productsController.js:150-153 | every duplicate entry names a product in the table with that name up to case and with the entry's id |
| ImportCsv.ImportFresh | backend/controllers/productsController.js:149-162 | rows whose names are new and pairwise distinct are all added and none skipped |
| ImportCsv.SameNameTwice | backend/controllers/productsController.js:149-153 | of two new rows with the same name up to case, the first is added and the second is reported against the first's new id |
| ExportCsv.FormatRows | backend/controllers/productsController.js:190-200 | one line per product, in table order |
| ExportCsv.HeaderLine | backend/controllers/productsController.js:187-188 | the header line reads back as exactly the column names and holds no line break |
| ExportCsv.HeaderText | backend/controllers/productsController.js:187-188 | the header line is exactly `id,name,unit,category,brand,stock,status,image` |
| ExportCsv.FieldTexts | backend/controllers/productsController.js:187-193 | a product gives one text per column, in column order: the id and stock in decimal, the name, and each other text or "" for NULL |
| ExportCsv.CsvDocument | backend/controllers/productsController.js:202 | the text is the header line alone for an empty table, and otherwise opens with the header line and a line break |
| ExportCsv.NumbersUnquoted | backend/controllers/productsController.js:193-196 | ids and stocks are never quoted |
| ExportCsv.LineBreakInRow | backend/controllers/productsController.js:192-199 | a product's line holds a line break exactly when one of its values does |
| ExportCsv.ExportOpensWithHeader | backend/controllers/productsController.js:185-202 | the text always opens with the header line |
| ExportCsv.ExportLines | backend/controllers/productsController.js:185-202 | with no line break in any value, the lines are the header and then one line per product, \|ps\| + 1 in all |
| ExportCsv.ExportLineCount | backend/controllers/productsController.js:202 | the text has \|ps\| + 1 lines if and only if no value holds a line break |
| ExportCsv.ExportRowReadsBack | backend/controllers/productsController.js:192-199 | each product line reads back as exactly that product's field texts |
| Inventory.OwnNameNoConflict | backend/controllers/productsController.js:85 | keeping a product's own name, or changing only its case, is never a conflict |
| Inventory.CollectRows | backend/controllers/productsController.js:133-146 | the `data` handler collects exactly the normalised rows, in file order |
| Inventory.InsertRows | backend/controllers/productsController.js:149-162 | the `end` loop computes the import fold over the collected rows |
| Inventory.Store.Create | backend/controllers/productsController.js:232-258 | validation failure and a name taken up to case change nothing; otherwise the new row is appended under the next id; names stay unique |
| Inventory.Store.Update | backend/controllers/productsController.js:59-116 | validation, not-found and name-conflict failures change nothing; otherwise only that row is overwritten, and one history row (id, old stock, new stock, time, "admin") is appended exactly when the stock changed |
| Inventory.Store.Delete | backend/controllers/productsController.js:261-279 | not-found changes nothing; otherwise the product and all its history rows go and everything else stays |
| Inventory.Store.Import | backend/controllers/productsController.js:119-180 | no file is an error; otherwise the tables and the answer are those of the import fold over the normalised rows; names stay unique |
| Inventory.Store.Export | backend/controllers/productsController.js:183-212 | the loop builds exactly the CSV document of the table in id order |
| Inventory.ReplaceKeepsNamesUnique | backend/controllers/productsController.js:84-97 | overwriting a row with a name no other product takes (case-insensitively) keeps names unique |
| Inventory.RemovalKeepsNamesUnique | backend/controllers/productsController.js:270 | deleting a product keeps names unique |
| Inventory.PenScenario | backend/controllers/productsController.js:99-106 | creating Pen with 10, updating it to 4 and then to 4 again logs exactly one change, from 10 to 4 |
| RoundTrip.RowReadsBack | backend/controllers/productsController.js:135-144 | an exported line with a non-empty name, read under the header, normalises to the product's values, with the name trimmed |
| RoundTrip.ReadExport | backend/controllers/productsController.js:185-202 | an exported table without line breaks and with non-empty names reads back as one draft per product, in order |
| RoundTrip.ExportThenImport | backend/controllers/productsController.js:133-202 | export, then import into an empty table: every product is added in order under fresh ids, none skipped, with names, stocks and texts kept |
| RoundTrip.PaddedNameTrimmed | backend/controllers/productsController.js:137 | a product whose name has white space at either end is imported again under its trimmed name, which differs from its own |
| RoundTrip.EmptyNameDropped | backend/controllers/productsController.js:135 | a product with the empty name reads back as no row, so importing its export adds nothing |

## Left out

- SQLite and the promise wrappers `dbAll`/`dbGet`/`dbRun`. The tables are sequences in memory. Failed statements, with their 500 answers and half-done updates or deletes, are not modelled.
- HTTP status codes, message texts and the response bodies' JSON framing are not modelled. Errors are the constructors of `Catalog.Error`.
- Express routing, multer and the tables created in backend/server.js are not part of this model. The route's validation rules are folded into `ValidCreate`/`ValidUpdate`.
- Catalog.ListProducts: `%` and `_` in the query are LIKE wildcards in the source. The model reads the pattern as a plain substring test, which is exact for queries without wildcards.
- Text.Lower: folds ASCII letters only. That is exact for SQLite's built-in `LOWER` (lines 46, 85, 150 and 242). The query's `toLowerCase` (line 41) also folds non-ASCII capitals, so the model and the source can disagree in both directions on non-ASCII letters. A query "É" against a product "É" matches in the model but not in the source, where the needle becomes "é" and `LOWER` leaves the name as "É". A query "É" against a product "é" matches in the source but not in the model.
- Every endpoint is modelled as one atomic step. The source awaits between its name check and its write (lines 242/247, 85/94 and 150/155). Two interleaved requests can both pass the check, for example creating "Pen" and "pen" at once, or a create during an import. The UNIQUE index on `name` is case-sensitive, so both rows are written. The results that names stay unique up to case hold only when requests do not interleave.
- The `csv-parser` stream and the file system calls (`createReadStream`, `unlink`) are not modelled. The import takes the already-parsed rows, and a read error (500) is not modelled. `RoundTrip.ReadCsv` is a reference reader for the exported text, not a model of `csv-parser`.
- The timestamp `new Date().toISOString()` is a parameter of `Update`.
- Catalog.HistoryOf: returns rows in the order they were written. The source sorts them by `change_date` descending, which depends on the timestamp format.
- Text.ParseInt: integers are unbounded. JavaScript's loss of precision past 2^53 is not modelled.
- Stock is an integer throughout. JSON bodies that carry the stock as a string are not modelled.
- Inventory.Store.Create: a null or non-string text field is rejected with 400 by the route's validation (`optional().isString()` in backend/routes/products.js, which lets only an absent field through). Requests in the model carry no null, so that path is not modelled; `ValidCreate`/`ValidUpdate` cover the name and stock rules only.
- The frontend (React views, axios calls, the undo-delete timer) is not part of this model.
