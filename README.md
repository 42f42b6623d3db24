# Inventory tracking API: a Dafny model

This project models the backend of a small inventory-tracking service
(`backend/app.js`). The backend keeps one SQLite table, `items`, whose rows
hold a name, a cost and a quantity under an implicit rowid. It answers five
requests:

- `POST /inventory` inserts a row;
- `PUT /inventory` rewrites the row with a given id;
- `DELETE /inventory` removes the row with a given id;
- `GET /inventory` lists every row;
- `GET /export` renders every row as a CSV document with four labelled columns.

The model has three modules.

- `Json` (`json.dfy`) holds the request values Express's JSON parser produces.
  It also defines JavaScript's `String(v)` conversion and `parseInt` with no
  radix: leading white space, an optional sign, an optional `0x` prefix, and
  the longest run of digits. NaN is `None`. The handlers apply `parseInt` to
  ids.
- `Validation` (`validation.dfy`) holds the three check chains as pure
  functions: presence of the keys, then the id, then name, cost and quantity,
  each with its exact message and status. Each chain is also restated
  independently as an ordered list of rules, and a lemma proves that the
  first failing rule decides the answer.
- `Inventory` (`inventory.dfy`) holds the table as `map<int, Item>`, the
  effect of each SQL statement on it, and the class `Store`. `Store` has one
  method per endpoint and keeps the table in a field that the methods update.
  The rows returned by `SELECT` come from a loop over the table's keys. Their
  order is left open: they are specified as a one-to-one projection of the
  table.

Failures reported by the storage engine or by the CSV library are boolean
parameters of the methods. A fresh rowid is specified only as "some positive
id not in the table".

The id a client sends is bound unchanged into `WHERE rowid = ?`, and SQLite
reads a bound text as a number by its own rules, not by `parseInt`'s. So an id
that passes the `parseInt` check can reach no row, or a row other than the
one the check read:

- `"3abc"` reads as 3 for the check but is no number for SQLite, so it
  reaches no row;
- `"1e1"` reads as 1 for the check, but SQLite reads it as 10;
- `"3.5"` reads as 3 for the check, but SQLite reads it as a real that is no
  rowid, so it reaches no row;
- `"0x10"` reads as 16 for the check, but SQLite does not read hex text as a
  number, so it reaches no row.

The model keeps the id the client sent apart from the number the check read.
A PUT that reaches no row still answers `{"success": true}`. A DELETE that
reaches no row answers 400 "Item to delete was not found".

There is no soft delete or restore. The table has only name, cost and
quantity (`backend/app.js:23-26`), and DELETE removes the row
(`backend/app.js:141`).

## Model

| member | source | states |
|---|---|---|
| Json.ToJsString | backend/app.js:101 | JavaScript's `String(v)`, which `parseInt` applies to the id; specified by Json.ParseIntOfDecimalString, Json.IntIdAccepted, Validation.NaNTextIdRejected and Validation.NullAndBoolIdsRejected |
| Json.ParseInt | backend/app.js:101 | `parseInt` with no radix; specified by the ParseIntOf lemmas below |
| Json.IdAccepted | backend/app.js:101 | an id passes when parseInt reads it as a number that is neither NaN nor at most 0; specified by Json.IntIdAccepted, Validation.TextIdAccepted, Validation.NaNTextIdRejected and Validation.NullAndBoolIdsRejected |
| Json.ParseIntOfNumeral | backend/app.js:101 | parseInt reads a decimal numeral back to its value, and stops at the first character that does not continue it, unless the numeral is "0" and the next character is x or X |
| Json.ParseIntOfNegatedNumeral | backend/app.js:101 | with a leading minus sign, parseInt reads the same numeral negated, stopping at the same place, unless the numeral is "0" and the next character is x or X |
| Json.ParseIntOfDecimalString | backend/app.js:101 | parseInt inverts JavaScript's printing of an integer, with or without a minus sign |
| Json.ParseIntOfNonNumeral | backend/app.js:101 | text that starts with neither white space, a sign nor a decimal digit reads as NaN |
| Json.ParseIntOfHex | backend/app.js:138 | parseInt reads "0x" followed by hex digits as the number they write in base 16 |
| Json.IntIdAccepted | backend/app.js:101 | a numeric id passes the id check exactly when it is positive |
| Validation.NameRejected | backend/app.js:65 | a name is rejected when it is null or has a length of 0; specified by Validation.CreateReportsFirstBadField and Validation.FieldsNotCheckedAsNumbers |
| Validation.BlankRejected | backend/app.js:67-70 | a cost or quantity is rejected when it is null or the empty string; specified by Validation.CreateReportsFirstBadField and Validation.FieldsNotCheckedAsNumbers |
| Validation.CheckItemFields | backend/app.js:65-70 | name, cost and quantity are accepted exactly when all three pass their rules; an accepted item carries the submitted values; a rejection keeps the default status 200 |
| Validation.CheckCreate | backend/app.js:58-87 | the POST check chain; specified by Validation.CreateFollowsRules, Validation.CreateMissingData, Validation.CreateAccepted and Validation.CreateReportsFirstBadField |
| Validation.CheckUpdate | backend/app.js:94-124 | the PUT check chain; specified by Validation.UpdateFollowsRules and Validation.UpdateChecksIdFirst |
| Validation.CheckDelete | backend/app.js:131-160 | the DELETE check chain; specified by Validation.DeleteFollowsRules and Validation.DeleteChecks |
| Validation.CreateFollowsRules | backend/app.js:58-87 | the POST answer is the answer of the first failing rule, in the order hasOwnProperty throw, missing keys, name, cost, quantity, and acceptance when none fails |
| Validation.UpdateFollowsRules | backend/app.js:94-124 | the PUT answer is the first failing rule's, in the order throw, missing keys, id, name, cost, quantity |
| Validation.DeleteFollowsRules | backend/app.js:131-160 | the DELETE answer is the first failing rule's, in the order throw, missing id, invalid id |
| Validation.CreateMissingData | backend/app.js:63-83 | for a body without an own `hasOwnProperty` key, a POST gets 400 "missing required data" if and only if one of name, cost and quantity is absent |
| Validation.CreateAccepted | backend/app.js:63-72 | a POST goes ahead if and only if the body has no own `hasOwnProperty` key and all three keys are present and pass, and the row to insert is the submitted one |
| Validation.CreateReportsFirstBadField | backend/app.js:65-70 | a bad name is reported before a bad cost, and a bad cost before a bad quantity, each with its own message |
| Validation.FieldsNotCheckedAsNumbers | backend/app.js:65-70 | any non-empty string passes as cost or quantity, and integers, fractional numbers and booleans pass as a name |
| Validation.UpdateChecksIdFirst | backend/app.js:99-119 | for a body without an own `hasOwnProperty` key, a PUT gets 400 "missing required data" if and only if a key is absent; a rejected id is reported whatever the other fields hold; a PUT goes ahead exactly when the id and all fields pass, with the sent id and values |
| Validation.DeleteChecks | backend/app.js:136-155 | for a body without an own `hasOwnProperty` key, a DELETE without an id gets 400 "missing item ID"; a rejected id gets "invalid item id"; any other id goes ahead; each if and only if |
| Validation.TextIdAccepted | backend/app.js:138 | a text id made of a decimal numeral followed by nothing or by text that starts with a non-digit (such as "3abc"), unless the numeral is "0" and the text starts with x or X, passes exactly when the numeral is positive, and the same text after a minus sign never passes |
| Validation.NaNTextIdRejected | backend/app.js:138 | a text id whose first character is neither white space, a sign nor a decimal digit (such as "abc") reads as NaN and is rejected |
| Validation.NullAndBoolIdsRejected | backend/app.js:138 | the ids null, true and false read as NaN and are rejected |
| Inventory.BoundKey | backend/app.js:110 | the rowid the raw bound id is compared as: an integer as itself, a boolean as 1 or 0, a string, array or object by SQLite's reading of its text; specified by the lemmas below |
| Inventory.SqlTextKeyOfDigits | backend/app.js:141 | bound text made of decimal digits reaches the rowid it writes |
| Inventory.SqlTextKeyOfWholeFraction | backend/app.js:141 | bound text of digits, a point and only zeros ("3.", "3.0", "3.00") reaches the rowid of its whole part |
| Inventory.SqlTextKeyOfFraction | backend/app.js:141 | bound text of digits, a point and a fraction ending in a non-zero digit ("3.5") reaches no rowid |
| Inventory.SqlTextKeyOfExponent | backend/app.js:141 | bound text of digits followed by "e" and an exponent ("1e1") reaches the rowid of the digits scaled by ten to the exponent |
| Inventory.SqlTextKeyOfTrailingText | backend/app.js:141 | bound text of digits followed by text that cannot continue a number ("3abc") reaches no rowid |
| Inventory.SqlTextKeyOfHex | backend/app.js:141 | bound text of "0x" and hex digits reaches no rowid |
| Inventory.SqlTextKeyOfPlus | backend/app.js:141 | bound text of a plus sign and decimal digits ("+3") reaches the rowid the digits write |
| Inventory.BoundKeyAgreesWithCheck | backend/app.js:101-110 | for an integer id, or a text id made only of decimal digits, the rowid compared with is the number parseInt read, so the id passed the check exactly when that rowid is positive |
| Inventory.CheckedIdMayReachNoRow | backend/app.js:138-141 | a positive numeral followed by text that cannot continue a number ("3abc") passes the id check yet reaches no row |
| Inventory.CheckedFractionReachesNoRow | backend/app.js:138-141 | a positive numeral followed by a point and a fraction ending in a non-zero digit ("3.5") passes the id check as the numeral yet reaches no row |
| Inventory.CheckedHexIdReachesNoRow | backend/app.js:138-141 | "0x" followed by hex digits of positive value ("0x10") passes the id check as that value yet reaches no row |
| Inventory.CheckedIdMayReachOtherRow | backend/app.js:138-141 | a positive numeral followed by a positive exponent ("1e1") passes the id check as the numeral but reaches a larger rowid, the numeral scaled by ten to the exponent |
| Inventory.Matched | backend/app.js:141 | the reached row exists and is the bound id's rowid; no row is reached only when the bound id names no rowid in the table |
| Inventory.Updated | backend/app.js:110 | the table after the UPDATE; specified by Inventory.UpdatedChangesOneRow and Inventory.UpdatedIdempotent |
| Inventory.Deleted | backend/app.js:141 | the table after the DELETE; specified by Inventory.DeletedRemovesOneRow |
| Inventory.UpdatedChangesOneRow | backend/app.js:110 | an UPDATE keeps every rowid, writes the new item into the reached row, leaves every other row unchanged, and changes nothing when no row is reached |
| Inventory.UpdatedIdempotent | backend/app.js:110 | running the same UPDATE twice leaves the same table as running it once |
| Inventory.DeletedRemovesOneRow | backend/app.js:141-147 | a DELETE removes exactly the reached row, one row fewer, keeps every other row as it was, and changes nothing when no row is reached |
| Inventory.KeysBounded | backend/app.js:72-77 | some positive rowid exceeds every rowid in use, so an INSERT always has a fresh rowid to use |
| Inventory.ProjectionContents | backend/app.js:44 | whatever order the SELECT returns, its set of rows is exactly the table's rows |
| Inventory.InsertAddsOneRow | backend/app.js:72-77 | an INSERT under an unused rowid makes the table one row larger, and its rows are the old rows plus the new one |
| Inventory.Render | backend/app.js:171-184 | json2csv's document: the column labels as header, one record of cells per row; specified by Inventory.ExportLayout and Inventory.ExportCoversTable |
| Inventory.ExportLayout | backend/app.js:171-184 | the CSV header is "Item ID", "Item Name", "Item Cost", "Item Quantity" in that order, and each record is a row's id, name, cost and quantity |
| Inventory.ExportCoversTable | backend/app.js:166-185 | the export has one record per table row, every row has a record, and every record is some row's |
| Inventory.Store.constructor | backend/app.js:20-26 | the store starts with an empty items table |
| Inventory.Store.Create | backend/app.js:58-88 | a rejected POST answers with its check's status and message and leaves the table unchanged; an insert failure answers 500 "unable to insert item"; otherwise exactly one row with the submitted values is added under a positive rowid not in the table before the call, that rowid is returned, and every other row is unchanged |
| Inventory.Store.Update | backend/app.js:94-125 | a rejected PUT leaves the table unchanged; a storage failure answers "unable to update item" with status 200; otherwise the table becomes the UPDATE's result and the answer is success whether or not a row was reached |
| Inventory.Store.Delete | backend/app.js:131-161 | a rejected DELETE leaves the table unchanged; a storage failure answers "unable to delete item"; otherwise a reached row is removed with success, and when no row is reached the answer is 400 "Item to delete was not found" and the table is unchanged |
| Inventory.Store.Scan | backend/app.js:44 | the SELECT returns each row of the table exactly once, with its rowid as id |
| Inventory.Store.List | backend/app.js:43-52 | a failed SELECT answers 500 "unable to retrieve data"; otherwise the body is the rows of the table, each once, each with a positive id and columns, as sent, that passed the field rules |
| Inventory.Store.Export | backend/app.js:165-193 | a failed SELECT answers "unable to export data" with status 200; a CSV failure answers 500 "Server is unable to export CSV"; otherwise the body is a CSV document with the fixed header and one record per row, each row with a positive id and columns, as sent, that passed the field rules |

## Left out

- Express routing, the JSON and URL-encoded middleware, CORS and `app.listen` are not modelled. They are transport. The informational `GET /` endpoint is also left out, because it returns a constant.
- The sqlite3 driver's callbacks and I/O are not modelled. Each storage or CSV failure is a boolean parameter of the method that may meet it.
- SQLite's choice of rowid is not modelled. A new row gets some positive rowid not in the table. Without AUTOINCREMENT, SQLite may reuse a rowid freed by a DELETE, and the model allows that.
- Inventory.Store.Create, Inventory.Store.Update, Inventory.Store.List and Inventory.Store.Export: the table stores and returns each column as the JSON value the client sent. The driver binds a boolean as 1 or 0 and an array or object as its `String(v)` text, and the columns' affinities (`varchar(255)` is TEXT, `decimal(10,2)` and `int(11)` are NUMERIC and INTEGER) convert what is stored, so a name `true` is read back as "1" and a cost `[1,2]` as "1,2". These conversions are not modelled. As a consequence, a value the field rules accepted can be read back as one they reject: the name `[null]` passes (its length is 1) but is stored as `String([null])`, the empty string, so List and Export can return a name "".
- Inventory.BoundKeyAgreesWithCheck: holds only for integer ids and text made of decimal digits. For other text SQLite's reading and parseInt's can differ: "1e1" passes the check as 1 but reaches rowid 10 (Inventory.CheckedIdMayReachOtherRow), and "3abc", "3.5" and "0x10" pass as 3, 3 and 16 but reach no row (Inventory.CheckedIdMayReachNoRow, Inventory.CheckedFractionReachesNoRow, Inventory.CheckedHexIdReachesNoRow).
- Inventory.BoundKey: SQLite reads numeric text into a 64-bit integer or a double. The model reads it exactly, so text beyond the 64-bit range, or text that is whole only after rounding to a double (such as "3.0000000000000001"), may reach a different row than modelled.
- Json.ToJsString: integers of magnitude 10^21 and above, which JavaScript prints in exponent form, are printed as plain digits. Numbers are exact integers rather than doubles.
- Request bodies that are not JSON objects are not modelled. A request is a map from key to value.
- Of the exceptions that reach the handlers' catch blocks, only the one thrown by an own `hasOwnProperty` key is modelled. Exceptions thrown by objects with their own `toString` or `valueOf` are not.
- json2csv's quoting, escaping and line endings are not modelled. The CSV document is its header labels and one record of cells per row.
- The order of rows from a SELECT without ORDER BY is left open. List and Export are specified by contents.
- Concurrent requests are not modelled. Each method runs alone against the table.
- Inventory.Store.constructor starts from an empty table. Opening an existing `inventory.db` file with rows already in it is not modelled.
- server.js and the browser front end are not part of this model.
