# Product catalog with a runtime schema and a field-level change ledger

This project models the second application in `product_catalog.py`, a Flask
and SQLite product catalog. It has three parts:

- **The product table.** Its columns can be added, dropped, renamed or
  retyped while the application runs. Adding a column is an ALTER TABLE
  ADD COLUMN in place. Dropping and modifying rebuild the table instead:
  1. CREATE a new table with the target layout;
  2. copy the columns whose names survive;
  3. DROP the old table and give the new one its name (ALTER TABLE ...
     RENAME TO).
- **The change ledger** (`product_field_versions`). An edit appends one
  entry per changed field; a create, one per non-id column; a rollback,
  exactly one. An entry holds the old
  and new value in their canonical text form (None, or `str(v)`), a
  timestamp and an author. Entry ids come from an AUTOINCREMENT counter.
- **The write paths that join them.** These are the add and edit routes,
  and `rollback_version`. That function writes a logged old value back
  into the table and records the rollback as a new entry.

The Dafny modules follow the structure of the program:

| module | file | what it holds |
|---|---|---|
| `Outcomes` | outcomes.dfy | `Option`, `Result` and the error conditions the code raises or reports |
| `Values` | values.dfy | the SQLite cell (NULL, integer, text) and the `str()` canonical form the ledger stores |
| `Identifiers` | identifiers.dfy | `sanitize_identifier` and the upper-casing of column types |
| `Price` | price.dfy | `strip()`, the decimal-literal parser, half-even rounding to cents, `price_display` |
| `Schema` | schema.dfy | the schema triples, drop and modify planning, the rebuild, UPDATE ... WHERE id = ?, and the `ProductTable` class whose methods change the schema and the rows in place |
| `Versions` | versions.dfy | ledger entries, `record_field_versions` as the `Ledger` class's `Record` loop, `get_versions`, `get_version_by_id` |
| `Records` | records.dfy | the values dict that the add and edit routes build from a form, and the diff lists they record |
| `Catalog` | catalog.dfy | `edit_product`, the ledger side of `add_product`, `rollback_version` |

The code's own behaviour is kept where it is surprising:

- The drop route does not protect the id column.
- The modify route rebuilds even when the old column does not exist.
- Renaming a column loses its data. The rebuild copies only the columns
  common by name, and copies no row at all when no name is common.
- A type is never validated.
- A rollback does not check the current value of the field. It records
  (field, new, old) from the entry, and appends that entry even when no
  product row has the entry's product id.

## Model

| member | source | states |
|---|---|---|
| `Values.NatToString` | product_catalog.py:293 | `str()` of a natural number is a non-empty string of decimal digits, with no leading zero unless the number is 0 |
| `Values.DigitsValueOfNatToString` | product_catalog.py:293 | the digits `str()` writes denote the number again |
| `Values.IntToString` | product_catalog.py:293 | `str()` of an integer is non-empty, starts with `-` exactly for a negative number, and is digits after that sign |
| `Values.IntToStringInjective` | product_catalog.py:293 | two integers with the same `str()` are equal |
| `Values.Bindable` | product_catalog.py:311 | the values sqlite3 can bind: NULL, text, or an integer from -2^63 to 2^63 - 1; what an unbindable value does is stated by `Schema.UpdateError`, `Schema.Lookup`, `Versions.GetVersions` and `Versions.GetVersionById` |
| `Values.Canonical` | product_catalog.py:293 | the stored form is None exactly for NULL |
| `Values.CanonicalOfIntegers` | product_catalog.py:783-791 | two integers normalize alike exactly when they are equal, while an integer and the text of its digits normalize alike |
| `Values.FromStored` | product_catalog.py:323 | binding a stored ledger value into an UPDATE gives a cell whose canonical form is that stored value |
| `Identifiers.Sanitize` | product_catalog.py:231-233 | the result has the length of the input and consists only of `[0-9A-Za-z_]` |
| `Identifiers.SanitizeAt` | product_catalog.py:231-233 | position by position, an allowed character is kept and any other becomes `_` |
| `Identifiers.SanitizeKeepsIdentifiers` | product_catalog.py:231-233 | a name that is already an identifier is unchanged |
| `Identifiers.SanitizeIdempotent` | product_catalog.py:235-236 | sanitizing in the route and again in `add_column_sqlite` equals sanitizing once |
| `Identifiers.Upper` | product_catalog.py:237 | same length; each lower-case ASCII letter becomes its capital (code minus 32); every other character unchanged |
| `Price.TrimStart` | product_catalog.py:697 | the result is empty or does not start with white space |
| `Price.TrimEnd` | product_catalog.py:697 | the result is empty or does not end with white space, is no longer than the input, and keeps its first character |
| `Price.Strip` | product_catalog.py:697 | the result neither starts nor ends with white space |
| `Price.TrimStartMeaning` | product_catalog.py:697 | the result is a suffix of the input, and everything cut off before it is white space |
| `Price.TrimEndMeaning` | product_catalog.py:697 | the result is a prefix of the input, and everything cut off after it is white space |
| `Price.StripMeaning` | product_catalog.py:697 | the result is a contiguous slice of the input with only white space cut off on either side |
| `Price.StripUnpadded` | product_catalog.py:759 | a text without outer white space is its own strip |
| `Price.IndexOfDot` | product_catalog.py:699 | the position of the first `.`, or the length when there is none |
| `Price.ParseUnsigned` | product_catalog.py:699 | a decimal it accepts is well formed and carries the given sign |
| `Price.ParseDecimal` | product_catalog.py:699 | a decimal it accepts is well formed: digits around at most one dot, at least one digit |
| `Price.UnsignedSpelled` | product_catalog.py:699 | digits, then a dot and digits or nothing, parse into exactly those whole and fraction digits |
| `Price.ParseWithSign` | product_catalog.py:699 | a leading `+` or `-` (or none) in front of an unsigned literal sets the sign and nothing else |
| `Price.ParseSpelled` | product_catalog.py:699 | every literal of the grammar `[+-]digits[.digits]`, `[+-]digits.` or `[+-].digits` parses, into its own sign and digits |
| `Price.UnsignedSpelling` | product_catalog.py:699 | a text the unsigned parser accepts is its whole digits, then a dot and its fraction digits if it has a dot |
| `Price.SplitAtDot` | product_catalog.py:699 | a text splits at a dot into the part before, the dot, and the part after |
| `Price.SplitSign` | product_catalog.py:699 | a text the parser reads is its optional sign followed by the part the unsigned parser reads |
| `Price.SpellJoin` | product_catalog.py:699 | a written-out literal is its sign in front of its unsigned part |
| `Price.ParsedSpelling` | product_catalog.py:699 | conversely, every text that parses is a literal of the grammar written out from the parsed digits, signed `-` exactly when negative |
| `Price.Pow10` | product_catalog.py:700 | a power of ten is at least 1, so it can divide when the scale is undone |
| `Price.Magnitude` | product_catalog.py:699-700 | the integer the literal's digits denote with the dot removed; `Price.CentsNearest` states what it scales to |
| `Price.RoundHalfEven` | product_catalog.py:700 | the ROUND_HALF_EVEN of `quantize`; its meaning is stated by `Price.RoundHalfEvenNearest` and `Price.RoundHalfEvenExact` |
| `Price.RoundHalfEvenNearest` | product_catalog.py:700 | `quantize(Decimal('1'))` under half-even rounding: within half a unit of the quotient, and even on a tie |
| `Price.RoundHalfEvenExact` | product_catalog.py:700 | an exact multiple rounds to its quotient |
| `Price.SignedRoundNearest` | product_catalog.py:700 | rounding the magnitude and then restoring the sign stays within half a unit of the signed value, even on a tie |
| `Price.CentsNearest` | product_catalog.py:700 | the cents are the integer nearest to 100 times the literal, ties to even |
| `Price.Cents` | product_catalog.py:700 | the rounding of a parsed decimal to cents; what the cents mean is stated by `Price.CentsNearest` |
| `Price.ParsePrice` | product_catalog.py:698-703 | the price parser; its outcome on every text is stated by `Price.ParsePriceCases` |
| `Price.ParsePriceCases` | product_catalog.py:698-703 | a price fails exactly when the text is not a literal of the grammar, and then as an invalid price; a literal with sign, whole and fraction digits parses to the rounded cents of exactly those digits |
| `Price.DotAfterDigits` | product_catalog.py:179 | in a digit string followed by a dot, the first dot comes right after the digits |
| `Price.DigitsValueOfTwo` | product_catalog.py:179 | two digits denote ten times the first plus the second |
| `Price.PriceDisplay` | product_catalog.py:178-179 | `price_display`; what it writes is stated by `Price.DisplayParses`, `Price.DisplayUnpadded` and `Price.PriceRoundTrip` |
| `Price.DisplayParses` | product_catalog.py:179 | `price_display` writes a sign, the whole cents/100 and exactly two decimals, which the parser reads back as that literal |
| `Price.DisplayCents` | product_catalog.py:179 | the literal written for m cents reads back as m cents |
| `Price.DisplayUnpadded` | product_catalog.py:179 | `price_display` writes no surrounding white space, so the form's `strip()` keeps it |
| `Price.PriceRoundTrip` | product_catalog.py:178-179 | parsing the displayed price gives back exactly the stored cents, for every integer |
| `Price.PriceExampleExact` | product_catalog.py:178-179 | an illustration only: 1250 cents display as `12.50`, and `12.50` parses to 1250 |
| `Price.DigitsExamples` | product_catalog.py:700 | an illustration only: `"12"` and `"504"` are digit strings of 12 and 504 |
| `Price.PriceExampleRounded` | product_catalog.py:699-700 | an illustration only: `12.504` parses to 1250 cents, rounded |
| `Schema.Declared` | product_catalog.py:239 | whether a DEFAULT clause is written: none for None or `''`, otherwise the text; used by `Schema.DefaultWritable`, `Schema.Reported` and `Schema.DefaultCell` |
| `Schema.StringBody` | product_catalog.py:240 | the texts that can stand between the quotes of an SQL string literal: every quote in them is doubled |
| `Schema.Unescape` | product_catalog.py:240 | the value SQLite reads from such a literal, each doubled quote read as one; its meaning is stated by `Schema.EscapeRoundTrip` and `Schema.UnescapePlain` |
| `Schema.UnescapePlain` | product_catalog.py:239-240 | a text without quotes is a valid literal body and reads back as itself |
| `Schema.Escape` | product_catalog.py:240 | doubling every quote; its partner is `Schema.EscapeRoundTrip` |
| `Schema.EscapeRoundTrip` | product_catalog.py:240 | a text with its quotes doubled is a valid literal body that reads back as the text |
| `Schema.DefaultWritable` | product_catalog.py:239-240 | the DEFAULT clause written for a default parses: there is none (None or `''`), or its text is a valid literal body |
| `Schema.Reported` | product_catalog.py:218-223 | PRAGMA table_info reports a default as the literal SQLite parsed, quotes included: None exactly for None or `''`, otherwise a text that starts and ends with a quote |
| `Schema.ReportedUnwritable` | product_catalog.py:252-253 | a reported default whose text is non-empty and does not start with a quote cannot be written back inside quotes: the doubled leading quote closes the literal |
| `Schema.DefaultCell` | product_catalog.py:239-240 | a new column's cell is NULL exactly when the default is None or `''`, and text otherwise; a default without quotes is stored as exactly that text |
| `Schema.WithCell` | product_catalog.py:238-242 | the rows after ADD COLUMN; what they hold is stated by `Schema.AddedColumnKeepsData` |
| `Schema.AddedColumnKeepsData` | product_catalog.py:238-240 | adding a column keeps every row and every existing cell, and gives each row the new column with its default |
| `Schema.Without` | product_catalog.py:863-866 | the drop plan; its meaning is stated by `Schema.WithoutMembers`, `Schema.WithoutLength` and `Schema.DropOne` |
| `Schema.PlanDrop` | product_catalog.py:862-869 | the drop plan keeps the triples not named col, and reports "column not found" exactly when none was removed |
| `Schema.WithoutMembers` | product_catalog.py:864-866 | a triple is in the plan exactly when it was in the schema and is not named col |
| `Schema.WithoutLength` | product_catalog.py:864-867 | the plan is never longer than the schema, and is as long exactly when no triple is named col |
| `Schema.WithoutNothing` | product_catalog.py:867 | dropping a name the schema does not have returns the schema itself |
| `Schema.WithoutAppend` | product_catalog.py:864-866 | dropping from two lists joined is dropping from each and joining the results |
| `Schema.WithoutSingle` | product_catalog.py:865 | a proof step of `Schema.DropMiddle`: a lone triple with the name is dropped |
| `Schema.DropMiddle` | product_catalog.py:864-866 | dropping the name of the middle triple, when neither side has it, leaves the two sides joined |
| `Schema.DropOne` | product_catalog.py:864-866 | dropping the only column with a name removes that one triple and leaves the others in order |
| `Schema.ModifyPlan` | product_catalog.py:885-890 | the modify plan; its meaning is stated by `Schema.ModifyPlanAt` and `Schema.ModifyOne` |
| `Schema.PlanModify` | product_catalog.py:884-890 | the modify loop builds the modify plan |
| `Schema.ModifyPlanAt` | product_catalog.py:886-890 | same length and order; each triple named col_old becomes the new triple, every other one is kept |
| `Schema.Common` | product_catalog.py:265-267 | a name is common exactly when it is a target name and an old column name |
| `Schema.Cell` | product_catalog.py:267-271 | the value a copied row has in one target column: the old value when the old table had that name, the default otherwise; stated by `Schema.RebuiltCells` |
| `Schema.CopiedRow` | product_catalog.py:267-271 | one row as INSERT ... SELECT copies it onto the target names; its cells are stated by `Schema.RebuiltCells` and per rebuild by `Schema.SameNamesRow`, `Schema.DroppedRow` and `Schema.RenamedRow` |
| `Schema.Normalized` | product_catalog.py:250-254 | the schema PRAGMA reports after the rebuild: the target names and types, with quoted defaults; stated by `Schema.RebuiltShape` and `Schema.Reported` |
| `Schema.RebuiltRows` | product_catalog.py:262-271 | the rows the copy leaves; their shape and cells are stated by `Schema.RebuiltShape` and `Schema.RebuiltCells` |
| `Schema.DefaultsWritable` | product_catalog.py:250-254 | every target default's DEFAULT clause parses |
| `Schema.RebuildError` | product_catalog.py:245-260 | the rebuild fails exactly when the layout is empty, a name repeats, or some default's clause does not parse, and then with that error |
| `Schema.Rebuilt` | product_catalog.py:245-275 | a failed rebuild changes nothing; a successful one leaves the target triples, defaults as PRAGMA reports them, over the copied rows |
| `Schema.RebuiltShape` | product_catalog.py:245-275 | the rebuilt table has the target names in target order, every row has exactly those columns, and the rows are all kept unless no name is common, in which case none is |
| `Schema.RebuiltCells` | product_catalog.py:267-271 | a column present before and after keeps each row's value; a column new by name holds its default |
| `Schema.WithoutSubset` | product_catalog.py:864-866 | every planned column existed and is not the dropped one |
| `Schema.WithoutDistinct` | product_catalog.py:864-866 | a drop plan of distinct names has distinct names |
| `Schema.DropOutcome` | product_catalog.py:857-874 | on a table of distinct names, a drop that leaves a column fails in the rebuild only when a kept default's clause does not parse |
| `Schema.DropBlockedByDefault` | product_catalog.py:864-870 | once another column holds a default that SQLite reported back from a non-empty text not starting with a quote, dropping a column fails as a syntax error in the CREATE |
| `Schema.DropPlanFacts` | product_catalog.py:864-866 | dropping a uniquely named column from a table of distinct names leaves one triple fewer, distinct names, each an old name other than the dropped one |
| `Schema.DropKeepsOtherData` | product_catalog.py:857-874 | when the drop's rebuild runs, dropping an existing column from a table with another column keeps every row and every other cell, and the column is gone |
| `Schema.UniqueAt` | product_catalog.py:245-275 | with distinct names, the i-th column is the only one with its name |
| `Schema.ModifyOne` | product_catalog.py:886-890 | modifying a uniquely named column changes the schema in that position only |
| `Schema.SameNameSet` | product_catalog.py:265-266 | schemas that agree name by name have the same name set |
| `Schema.RebuiltSameNames` | product_catalog.py:265-271 | a successful rebuild onto the same names, in the same order, leaves the rows as they were |
| `Schema.SameNamesRow` | product_catalog.py:265-271 | in such a rebuild each row is copied cell for cell |
| `Schema.DroppedRow` | product_catalog.py:265-271 | in a drop's rebuild each row keeps every kept column's cell and loses the dropped name |
| `Schema.RenamedRow` | product_catalog.py:265-271 | in a rename's rebuild each row has the new name at its default, lacks the old name, and keeps every other cell |
| `Schema.RetypeKeepsData` | product_catalog.py:876-891 | when the rebuild runs, a modify that keeps the name and changes the type or default keeps every row and cell |
| `Schema.RenamedDistinct` | product_catalog.py:886-890 | renaming to an unused name keeps the names distinct |
| `Schema.RenameLosesData` | product_catalog.py:876-891 | when the rebuild runs, renaming to an unused name drops the old name and fills the new column with its default, keeping the other cells; if it was the only column, no row is left |
| `Schema.RenameOntoExisting` | product_catalog.py:886-891 | renaming onto another column's name repeats a name, so the rebuild fails |
| `Schema.ModifyBlockedByDefault` | product_catalog.py:884-891 | once a column other than col_old holds a default that SQLite reported back from a non-empty text not starting with a quote, a modify fails: as a syntax error, or as a repeated name when the plan repeats one |
| `Schema.Matches` | product_catalog.py:798 | `WHERE id = ?`: the row has an id cell equal to the given integer; used by `Schema.UpdatedRows` and `Schema.FirstMatch` |
| `Schema.Assigned` | product_catalog.py:795-798 | one row after the SET list; stated by `Schema.AssignedCells`, `Schema.AssignedOne` and `Schema.UpdateOverwrite` |
| `Schema.UpdatedRows` | product_catalog.py:798 | the rows after UPDATE ... WHERE id = ?; stated cell by cell by `Schema.AssignedCells`, `Schema.UpdateNoMatch` and `Schema.UpdateOverwrite` |
| `Schema.UpdateError` | product_catalog.py:795-799 | when the UPDATE fails and with which error; stated with the update itself by `Schema.ProductTable.Update` and for a rollback by `Catalog.RollbackFails` |
| `Schema.AssignedCells` | product_catalog.py:795-798 | a SET list of existing columns keeps the row's columns, gives each named column its value when none is named twice, and leaves other cells alone |
| `Schema.UpdateNoMatch` | product_catalog.py:798 | an UPDATE whose WHERE matches no row changes nothing |
| `Schema.AssignedOne` | product_catalog.py:323 | a one-column SET list is the map update of that cell |
| `Schema.UpdateOverwrite` | product_catalog.py:323 | setting a non-id column twice is setting it once to the second value |
| `Schema.FirstMatch` | product_catalog.py:747-748 | `fetchone()` returns the first row with the id, or None exactly when no row has it |
| `Schema.Lookup` | product_catalog.py:746-751 | a row found has the id; "no such column" exactly when there is no id column; an overflow error exactly when the id column exists and the id does not fit a signed 64-bit integer; "not found" exactly when the id fits and no row matches |
| `Schema.InitialSchemaShape` | product_catalog.py:169-176 | the initial columns, the model's seven fields, have distinct names including id, and none has a DEFAULT clause |
| `Schema.ProductTable.constructor` | product_catalog.py:169-176 | the table starts with the model's columns and no rows |
| `Schema.ProductTable.AddColumn` | product_catalog.py:235-243 | a duplicate sanitized name fails and changes nothing, and so does a default whose clause does not parse; otherwise the triple (sanitized name, upper-cased type, default as PRAGMA reports it) is appended and every row gets the default |
| `Schema.ProductTable.Recreate` | product_catalog.py:245-275 | an empty layout, a repeated name or a default clause that does not parse fails before any change; otherwise the schema becomes the target, defaults as PRAGMA reports them, and the rows become the rebuilt rows |
| `Schema.ProductTable.DropColumn` | product_catalog.py:857-874 | a missing column is reported with no change; otherwise the table is rebuilt without it, which fails with no change when a kept default was reported back with quotes |
| `Schema.ProductTable.ModifyColumn` | product_catalog.py:876-891 | the table is rebuilt on the modify plan, with the sanitized names and the stripped, upper-cased type; the rebuild fails with no change on the same conditions as any rebuild |
| `Schema.ProductTable.Update` | product_catalog.py:795-799 | an empty SET list, an unknown column or a missing id column, or an id or integer value outside the signed 64-bit range, fails with no change; otherwise exactly the rows with the id get the SET list |
| `Versions.Stamped` | product_catalog.py:288-293 | the rows `record_field_versions` inserts; their ids, stamps and stored values are stated by `Versions.StampedExtends` |
| `Versions.StampedExtends` | product_catalog.py:283-294 | new entries keep the ids ascending and above every earlier id, share the timestamp and the author, and store None exactly for NULL values |
| `Versions.Eligible` | product_catalog.py:300-303 | the WHERE clause: every entry when the product id is None or 0, else the entries of that product; used by `Versions.Matching` and `Versions.Newest` |
| `Versions.Matching` | product_catalog.py:300-303 | an entry is selected exactly when it is in the table and eligible, the selection is no longer than the table, and it is ascending when the table is |
| `Versions.MatchingAppend` | product_catalog.py:300-303 | the selection keeps table order: an entry appended to the table is appended to the selection exactly when it is eligible |
| `Versions.Reverse` | product_catalog.py:301 | ORDER BY id DESC on an ascending table is the reversal |
| `Versions.Take` | product_catalog.py:301-303 | LIMIT: the first limit entries, or all of them for a negative limit or a large one; its effect is stated by `Versions.Newest` |
| `Versions.Newest` | product_catalog.py:296-305 | exactly `min(limit, eligible)` entries for a non-negative limit and every eligible entry for a negative one, all eligible, and every eligible entry when the limit does not cut |
| `Versions.NewestDescending` | product_catalog.py:301-303 | the result is in strictly descending id order |
| `Versions.NewestLargest` | product_catalog.py:301-303 | an eligible entry left out is older than every entry returned |
| `Versions.LeftOutIsOlder` | product_catalog.py:301-303 | one entry left out by the limit is older than one entry kept |
| `Versions.GetVersions` | product_catalog.py:296-305 | a limit, or a product id that is bound (given and not 0), outside the signed 64-bit range fails with an overflow error; otherwise the result is the newest eligible entries |
| `Versions.ById` | product_catalog.py:307-313 | an entry found has that id; None exactly when no entry has it |
| `Versions.ByIdUnique` | product_catalog.py:184 | with ascending ids, the lookup of an entry's id finds that entry |
| `Versions.GetVersionById` | product_catalog.py:307-313 | an id outside the signed 64-bit range fails with an overflow error; otherwise the result is the entry with that id, or None |
| `Versions.Ledger.constructor` | product_catalog.py:182-192 | the ledger starts empty with the counter at 0 |
| `Versions.Ledger.Record` | product_catalog.py:283-294 | one entry per diff, in order, with ids after the counter, and the counter advanced by the number of diffs; no diff, no entry |
| `Records.FormValue` | product_catalog.py:754-776 | only the price can fail, as an invalid price; on create the price is the parsed cents of the stripped field (`"0"` when absent); on edit a blank price keeps the current value and any other text parses or fails; another column takes the form text when present, else NULL on create or its current value on edit |
| `Records.DataNames` | product_catalog.py:689-690 | the names filled are the schema's names other than id |
| `Records.DataNamesInOrder` | product_catalog.py:689-690 | the j-th name filled is the name of the j-th non-id column: schema order and one name per such column |
| `Records.DataPositions` | product_catalog.py:689-690 | the positions of the non-id columns; stated by `Records.DataNamesInOrder` |
| `Records.Members` | product_catalog.py:689-690 | the positions a list holds, as a set; counted by `Records.IncreasingCard` |
| `Records.IncreasingCard` | product_catalog.py:689-690 | a strictly increasing list of positions lists as many distinct positions as it has elements |
| `Records.DataNamesCount` | product_catalog.py:689-690 | the values dict has exactly one entry per non-id column |
| `Records.FormValues` | product_catalog.py:689-705 | the values dict a route builds; its meaning is stated by `Records.FormValuesMeaning`, `Records.DataNamesInOrder` and `Records.DataNamesCount` |
| `Records.FormValuesColumns` | product_catalog.py:689-690 | every name in the values dict is a schema column and is not id |
| `Records.FormValuesMeaning` | product_catalog.py:694-705 | the values dict holds every non-id column in schema order with its form value, and fails, with an invalid price, exactly when some column's value fails |
| `Records.FormValuesStep` | product_catalog.py:754-776 | one more schema column either stops at its error, skips id, or appends its form value; the step `Records.CollectFormValues` takes |
| `Records.CollectFormValues` | product_catalog.py:754-776 | the loop over the schema, stopping at the first invalid price, computes the values dict |
| `Records.FirstErrorStops` | product_catalog.py:767-769 | an invalid price in a prefix of the schema ends the whole loop with that error |
| `Records.ChangedFields` | product_catalog.py:779-792 | the edit diff; its meaning is stated by `Records.ChangedFieldsMeaning`, `Records.ChangedFieldsInOrder` and `Records.ChangedFieldsCount` |
| `Records.ChangedFieldsMeaning` | product_catalog.py:779-792 | the diff holds (name, old, new) exactly for the assignments whose normalized values differ |
| `Records.ChangedPositions` | product_catalog.py:779-792 | the positions of the assignments whose normalized value changes; stated by `Records.ChangedFieldsInOrder` |
| `Records.ChangedFieldsInOrder` | product_catalog.py:779-792 | the j-th diff is the j-th changed assignment, in the SET list's order, and every changed assignment has its diff |
| `Records.ChangedFieldsCount` | product_catalog.py:779-792 | k changed fields give exactly k diffs |
| `Records.ComputeDiffs` | product_catalog.py:779-792 | the diff loop computes the edit diff |
| `Records.CreateDiffs` | product_catalog.py:728-732 | the create diff; its meaning is stated by `Records.CreateDiffsShape` |
| `Records.CreateDiffsShape` | product_catalog.py:728-732 | on create, one diff per non-id column, in schema order, from NULL to the column's form value |
| `Records.UntouchedNoDiff` | product_catalog.py:759-776 | on edit, a non-price column left out of the form, or the price with a blank field, keeps its value and produces no diff |
| `Records.EditDiffOfText` | product_catalog.py:772-792 | on edit, a form text produces a diff exactly when it differs from the normalized current value |
| `Catalog.EditPlan` | product_catalog.py:740-799 | the lookup and validation an edit does before writing; their outcome is stated by `Catalog.EditPlanAccepted`, `Catalog.EditPlanNoSuchColumn` and `Catalog.EditPlanEmpty` |
| `Catalog.EditPlanAccepted` | product_catalog.py:795-799 | an accepted edit plan targets a row that exists and has the id, carries the parsed values dict, and issues an UPDATE SQLite accepts |
| `Catalog.EditPlanNoSuchColumn` | product_catalog.py:746-751 | an edit fails with "no such column" exactly when the table has no id column |
| `Catalog.EditPlanEmpty` | product_catalog.py:795-799 | an edit fails with an empty SET list exactly when the product is found and the schema has no column other than id |
| `Catalog.EditApplied` | product_catalog.py:798-802 | the state an accepted edit leaves: the rows after the UPDATE, the ledger with the changed fields appended under "edit", the counter advanced by their number; established by `Catalog.ApplyEdit` |
| `Catalog.ApplyEdit` | product_catalog.py:794-802 | the matching rows get the SET list and the normalized diff is appended under the author "edit" |
| `Catalog.EditProduct` | product_catalog.py:740-805 | a failed lookup, an invalid price, an empty SET list or a value outside the signed 64-bit range returns its error and writes nothing; otherwise the row is updated and exactly its changed fields are recorded |
| `Catalog.AddProduct` | product_catalog.py:694-732 | an invalid price, or an integer value outside the signed 64-bit range, writes nothing; otherwise one "create" entry per non-id column is recorded for the new id |
| `Catalog.RollbackAssignment` | product_catalog.py:323 | the SET list a rollback issues, the entry's field set to its stored old value; stated by `Catalog.RollbackCells` and `Catalog.RollbackFails` |
| `Catalog.Inverse` | product_catalog.py:327 | the entry a rollback records: same product and field, old and new swapped; stated by `Catalog.InverseStamped` and `Catalog.Rollback` |
| `Catalog.InverseStamped` | product_catalog.py:327 | the diff a rollback records is stored as the entry with old and new swapped |
| `Catalog.Rollback` | product_catalog.py:315-327 | an id outside the signed 64-bit range, or an unknown id, fails with no change; a field the table lacks, or a product id outside the signed 64-bit range, fails before recording; otherwise the rows with the product id get the stored old value and exactly the inverse entry is appended |
| `Catalog.RollbackFails` | product_catalog.py:323 | the rollback UPDATE fails with "no such column" exactly when the table lacks the field or the id column, else with an overflow error exactly when the product id does not fit 64 bits |
| `Catalog.RollbackCells` | product_catalog.py:323 | a rollback changes only the entry's field, and only in the rows with the entry's product id |
| `Catalog.InverseFound` | product_catalog.py:327 | the inverse entry is found by its new id |
| `Catalog.SecondRollback` | product_catalog.py:315-327 | after a rollback succeeds, its inverse entry is found under the new id when that id fits 64 bits, and the UPDATE rolling it back succeeds |
| `Catalog.RollbackTwiceRows` | product_catalog.py:323-327 | rolling back the rollback of a non-id field leaves the matching rows holding the first entry's new value |
| `Catalog.RollbackTwice` | product_catalog.py:315-327 | when the first rollback of a non-id field succeeds, the rollback of the entry it recorded also succeeds and restores the new value, unless the new entry's id does not fit 64 bits, in which case it fails with an overflow error |

## Left out

- The Flask layer, the templates, the search, compare, schema-view and JSON routes, and the first application at the top of the file are not part of this model.
- The clock and the author are parameters (`now`, `changedBy`, `performer`). The new product's id in `AddProduct` is a parameter too, because the id SQLite hands out is not modelled.
- AddProduct: models only the ledger side. The ORM insert is left out: the `name or 'Unnamed'` fallback, `int(stock)` and its exceptions, and the UPDATE for extra columns.
- Deleting a product goes through the ORM and never touches the ledger; it is left out.
- SQL text is not modelled beyond DEFAULT literals: the quoting of identifiers and field names, injection through field names, and identifiers that are empty or keywords once sanitized.
- Column names compare case-sensitively here, while SQLite compares them case-insensitively.
- SQLite type affinity is not modelled: a text bound into an INTEGER column stays text here. SQLite converts a text that looks like a number. For example, `"1.0"` bound into an INTEGER column is stored as the integer 1, so its `str()` is `"1"`. A later diff or rollback that reads that cell then sees `"1"` where this model sees `"1.0"`.
- NOT NULL constraints are not modelled. The initial table declares `name`, `price_cents` and `stock` NOT NULL (product_catalog.py:171, 173, 174), so a rollback that writes NULL into one of them fails in SQLite but succeeds here. A rebuilt table declares no NOT NULL constraint, matching the model after the first rebuild.
- A default is modelled as far as its quotes: PRAGMA table_info reports the literal with its quotes, and a rebuild wraps that in quotes again, so the CREATE fails once any kept column has a non-empty default that does not itself start with a quote. Other defaults whose text happens to parse as more SQL after the quote closes are not modelled; this is the SQL injection named above.
- Schema.RebuildError: when a layout has both a repeated name and a default clause that does not parse, it reports the repeated name, while SQLite reports whichever it meets first in the CREATE text.
- Transactions and concurrency are left out. Every operation is taken to run alone and to completion.
- The rebuild's temporary table name colliding with an existing table is not modelled.
- The routes strip the form text of the column name and type. The add-column route's strip is left to the caller of `AddColumn`, which models `add_column_sqlite` itself. Form fields missing from the request, which fall back to `''`, `'TEXT'` or col_old, are likewise supplied by the caller.
- `Price.Strip` covers ASCII and the Latin-1 white space; the digit classes cover ASCII digits. Unicode white space and digits outside that range are not modelled.
- Identifiers.Upper: maps the ASCII letters only. Python's `upper()` also maps other letters, `é` to `É`, and can lengthen a text, `ß` to `SS`; those are not modelled.
- ParseDecimal: accepts `[+-]digits[.digits]`. Exponents, `Infinity`/`NaN`, underscores, and the 28-digit context precision of Python's Decimal are not modelled. An exponent literal such as `1e2` is refused here, but Python accepts it.
- PriceDisplay: uses exact integer division where the source divides a float by 100 and formats the double to two places. For large amounts the double quotient is not exact, and the last digit can differ. For example, 9007199254740893 cents is written `90071992547408.94` by Python and `90071992547408.93` here. The two are expected to agree while the magnitude stays below about 7·10^15 cents (100·2^46), where the quotient's rounding error stays well under the two-decimal spacing. That bound is not proved here.
- Versions.Ledger.Record: does not model the overflow error for a product id outside the signed 64-bit range. No caller can pass one: an edit's id has already been bound by the SELECT in `Lookup`, a rollback's id comes from a ledger entry, and a new product's id comes from SQLite.
- The AUTOINCREMENT ceiling is not modelled: SQLite gives up with SQLITE_FULL once an entry id would pass 2^63 - 1; here the counter keeps going, and only binding such an id later fails.
