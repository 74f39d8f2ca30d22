# Tiger\Repository in Dafny

A model of the PHP class `Tiger\Repository` (`src/Repository.php`). The class is a
generic in-memory collection of records. The model covers two parts of it:

- **The record store** (`RecordStore.dfy`, class `Repository<R>`):
  - the ordered list `$data` becomes the field `data: seq<R>`;
  - the cursor `$indexMarker` becomes the field `cursor: int`, which may be negative or past the end;
  - the methods that append, replace, clear and move the cursor change these fields in place;
  - the readers (`hasNext`, `current`, `first`, ...) are functions of them.
  
  Records are opaque: a record is seen only through its `getData($field)` accessor. That accessor, and
  PHP's loose comparison `==`, are given to the constructor as function values. So every property of
  `getByIndex` and `getBy` holds whatever comparison relation is supplied. Where PHP returns
  `false` for "no record here", the model returns `Option.None`. The exception that
  `getByIndex` throws is the `Lookup.UnknownIndex` result.
- **The stateless helpers** (`SqlFragments.dfy`):
  - `PDOParameter`, the PDO bind-kind classifier;
  - the builders of SQL text: the SET list (`createSet`), the VALUES tuple (`createValues`,
    `prepareSQLData`), the IN list (`checkIds`), and the WHERE filter that
    `loadAllFromTableWithFilter` appends to its SELECT.
  
  The field data of a PHP array is an ordered sequence of key/value entries. The builders that
  loop in PHP (`createSet`, `createValues`, the WHERE loop) are methods with `while` loops. Each
  one is proved equal to a specification function written independently with `Join`. The PHP
  loops test `empty($set)` / `empty($where)` to decide whether a separator is needed, and the
  proofs show that this test is the same as "nothing emitted yet".

`PhpValues.dfy` holds the scalar values (`null`, bool, int, string) and the two pieces of PHP
runtime behaviour the helpers depend on: `empty()` and string interpolation. Interpolation turns
an int into its decimal text, `true` into "1", and `false`/`null` into "". For integer text, the
file proves a parse round trip. `Collections.dfy` holds `Option`, an order-preserving `Filter`,
`Map`, `Join` (PHP's `implode`) and `Split` (PHP's `explode`), with the lemmas about them.

`createValues` writes the lowercase text `null` for a value that is null, false or ""
(src/Repository.php:335).

## Model

| member | source | states |
|---|---|---|
| RecordStore.Repository.constructor | src/Repository.php:29-37 | the store starts with the given record if one is given (nothing otherwise), and the cursor starts at 0 |
| RecordStore.Repository.Add | src/Repository.php:42-45 | appends exactly one record at the end; earlier records and the cursor are unchanged |
| RecordStore.Repository.GetAll | src/Repository.php:50-53 | returns every record, in insertion order |
| RecordStore.Repository.GetByIndex | src/Repository.php:60-68 | finds a record iff some record's "id" field loosely equals the id; the one found is the first match in insertion order (no earlier record matches) and is the head of the getBy-style filter; otherwise the unknown-index error |
| RecordStore.Repository.GetBy | src/Repository.php:75-85 | returns a subsequence of the store that holds every matching record as often as the store does and no other record; it is empty (not an error) exactly when nothing matches |
| RecordStore.Repository.HasNext | src/Repository.php:90-97 | holds iff cursor+1 is a position of the store |
| RecordStore.Repository.HasPrevious | src/Repository.php:102-109 | holds iff cursor-1 is a position of the store |
| RecordStore.Repository.Current | src/Repository.php:114-117 | the record at the cursor when 0 <= cursor < length, absent otherwise |
| RecordStore.Repository.First | src/Repository.php:122-125 | the first record, or absent for an empty store, whatever the cursor |
| RecordStore.Repository.Last | src/Repository.php:130-133 | the last record, or absent for an empty store, whatever the cursor |
| RecordStore.Repository.UpdateCurrent | src/Repository.php:142-145 | with the cursor on a record, replaces that record only: same length, every other slot and the cursor unchanged |
| RecordStore.Repository.Next | src/Repository.php:150-154 | cursor +1 without bounds check, records unchanged; returns the new current record, which is present iff hasNext held before |
| RecordStore.Repository.Previous | src/Repository.php:159-163 | cursor -1 without bounds check, records unchanged; returns the new current record, which is present iff hasPrevious held before |
| RecordStore.Repository.Reset | src/Repository.php:165-168 | cursor becomes 0, records unchanged, and current() then equals first() |
| RecordStore.Repository.ClearData | src/Repository.php:173-176 | empties the store but leaves the cursor where it was; nothing is current and neither neighbour exists |
| RecordStore.Repository.AppendRecords | src/Repository.php:188-190 | the loaders' loop appends the new records after the old ones in fetch order, cursor unchanged |
| Collections.FilterFirstMatch | src/Repository.php:62-66 | when the record at i is the first match, the matches start with it (ties getByIndex to getBy) |
| Collections.FilterIsSubsequence | src/Repository.php:78-82 | the kept records appear in the store in the same relative order |
| Collections.FilterMultiplicity | src/Repository.php:78-82 | a matching record is kept as many times as it occurs; any other record is dropped |
| Collections.FilterEmptyIff | src/Repository.php:77-84 | the scan yields nothing exactly when no record matches |
| Collections.FilterAppend | src/Repository.php:78-82 | scanning a concatenation yields the matches of the first part followed by those of the second |
| SqlFragments.PDOParameter | src/Repository.php:288-299 | int gives PARAM_INT (1), bool gives PARAM_BOOL (5), null gives PARAM_NULL (0), string gives PARAM_STR (2), each iff the value has that kind |
| SqlFragments.PrepareSQLData | src/Repository.php:350-359 | a value is written as null exactly when its interpolated text would be empty (null, false, ""), so the empty values 0 and "0" keep their literal |
| SqlFragments.SqlLiteral | src/Repository.php:335 | an item is `null` iff the value's text is empty; an empty quoted literal '' is never produced |
| PhpValues.EmptyIffEmptyText | src/Repository.php:312 | empty() of a scalar holds exactly when its interpolated text is "" or "0" (a standalone fact about the value policy; no other proof uses it) |
| PhpValues.EmptyText | src/Repository.php:335 | only null, false and "" interpolate to the empty text |
| PhpValues.IntTextRoundTrip | src/Repository.php:314 | the decimal text interpolated for an int is well formed and reads back as the same int |
| PhpValues.IntTextZero | src/Repository.php:312-316 | the text of an int is never empty and is "0" only for 0 |
| SqlFragments.CreateSet | src/Repository.php:308-321 | the loop, with its empty($set) test, builds exactly the reference SET list |
| SqlFragments.SetTextSnoc | src/Repository.php:311-319 | each entry adds nothing if its value is empty, its `key = 'value'` clause if it is the first clause, and ", " plus the clause otherwise |
| SqlFragments.SetTextEmptiness | src/Repository.php:313 | the list built so far is empty (for empty()) exactly when no clause has been emitted, since it is never the text "0" |
| SqlFragments.SetTextSkipsEmpty | src/Repository.php:312 | an entry whose value is null, false, 0, "" or "0" can be inserted anywhere without changing the SET list |
| SqlFragments.SetTextEmptyIffAllEmpty | src/Repository.php:308-321 | the result is "" exactly when every value is empty |
| SqlFragments.SetTextExample | src/Repository.php:308-321 | {name: "Alice", nickname: ""} gives `name = 'Alice'` |
| SqlFragments.WithoutKeyRemovesOne | src/Repository.php:332 | with distinct keys, dropping the "id" key removes exactly the one entry that has it |
| SqlFragments.CreateValues | src/Repository.php:330-341 | the loop builds exactly the reference tuple: "(" then "0" and one literal per non-id entry in order, separated by ", ", then ")" |
| SqlFragments.OpenTupleSnoc | src/Repository.php:334-337 | each entry appends ", " and its literal to the tuple built so far |
| SqlFragments.ValuesTupleShape | src/Repository.php:333-338 | the tuple text opens with "(0" and closes with ")" |
| SqlFragments.ValuesTupleItems | src/Repository.php:333-338 | the tuple text is "(0", then ", " and the literal of each non-id entry in input order, then ")" |
| SqlFragments.ValuesTupleIgnoresId | src/Repository.php:332 | the value stored under "id" has no influence on the tuple |
| SqlFragments.ValuesTupleExample | src/Repository.php:330-359 | {id: 5, name: "", age: 0} gives `(0, null, '0')` |
| SqlFragments.CheckIds | src/Repository.php:369-377 | an empty id list gives "0" |
| SqlFragments.CheckIdsRoundTrip | src/Repository.php:374 | for int ids, splitting the result at "," and reading each piece gives the ids back, in order |
| SqlFragments.CheckIdsExample | src/Repository.php:369-377 | [] gives "0" and [3, 7, 9] gives "3,7,9" |
| SqlFragments.FilteredSelect | src/Repository.php:220-231 | the loop, with its empty($where) test, builds "SELECT * FROM table" followed by the reference WHERE text |
| SqlFragments.WhereTextSnoc | src/Repository.php:225-229 | each parameter adds " WHERE k IN (v)" when it is the first and " AND k IN (v)" otherwise |
| Collections.SplitJoin | src/Repository.php:374 | splitting a join at a separator that no part contains gives the parts back |
| Collections.JoinSplit | src/Repository.php:374 | joining the pieces of a split with the same separator gives the text back |

## Left out

- Database I/O is not modelled, because it goes through the external `DBconnect`/PDO connection, whose behaviour is not visible. This covers `loadAllFromTable`, `loadAllFromTableByQuery`, `loadAllFromTableWithFilter`, `executeQuery`, `getRows`, `getRowsByQuery`, `getLastInsertedId`, the row count kept on the connection, and the constructor's `$db` argument. Of the loaders, the model keeps the loop that appends the built records (`AppendRecords`) and the SELECT text of the filtered loader (`FilteredSelect`).
- Building a record from a row through `'\\Models\\' . $model` and `::new` is not modelled: it is a runtime class lookup. `AppendRecords` receives records that are already built.
- The `$_GET` superglobal is not read: it is ambient request state. `FilteredSelect` takes the request parameters as key/value text.
- PHP's loose comparison `==` (type juggling between ints and numeric strings) is not defined here. It is a constructor parameter of `Repository`, so the lookup properties hold for any relation.
- Floats, arrays and objects are not `Value`s. So `PDOParameter`'s fall-through (a TypeError under its `int` return type), `empty(0.0)`, `empty([])`, float formatting and "Array" interpolation are out of scope.
- RecordStore.Repository.UpdateCurrent: requires the cursor to be on a record. With an out-of-range cursor, PHP writes to a new key of a sparse array instead, and that case is not modelled.
- A stored record that is `null` is not modelled: `isset` would report its slot as empty. Records are objects, so every stored record counts as present.
- PHP array keys are modelled as strings. An integer key would be interpolated as its decimal text.
- PHP's 64-bit integer limits are not modelled (Dafny integers are unbounded). This covers the cursor at `PHP_INT_MAX` or `PHP_INT_MIN`: `$indexMarker` is a typed `int` property, so `++` or `--` past the limit throws an Error there, while the model's cursor keeps counting.
- SQL injection through the raw interpolation is not analysed: the model states the exact text produced, not whether it is safe.
