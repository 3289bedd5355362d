# mysql-wrap: a Dafny model of the query layer

mysql-wrap wraps a node-mysql connection. Every call can be used with a callback or as
a promise.

- `query(statement, [values], [callback])` hands the statement and its values to the
  driver and passes the driver's answer to the callback. The promise settles with the
  same answer.
- A SELECT answer (the statement's first word, in any case, is `SELECT`) is wrapped as
  `{results, count}`. `count()` sends `SELECT COUNT(*) FROM` followed by the statement's
  predicate: the statement with everything through its last ` FROM ` and everything
  from the next ` LIMIT ` removed.
- `one` appends ` LIMIT 1` and answers with the first row, or `null`.
- `select(table, whereEquals)` and `selectOne` build `SELECT * FROM ??  WHERE ?? = ? AND …` (two spaces before `WHERE`)
  from a key/value object. `??` is the driver's identifier placeholder and `?` its value
  placeholder.

The model has five modules:

- `Wrappers`: an `Option` type.
- `JsText`: the JavaScript string built-ins the code relies on, on `seq<char>`. These are
  `trim`, `split(' ')[0]`, `toUpperCase`, `join`, the substring searches behind the two
  regular-expression replacements, and the driver's placeholder scan.
- `Driver`: values, rows, result packets, errors and requests. The driver's answer to
  a request is an input (`Outcome`).
- `MysqlWrap`:
  - statement classification and argument disambiguation
  - `wrapResponse` and `query`
  - the count query and its row count
  - the completion of callback and promise
  - `one`
- `Builders`: `prepareWhereEquals`, `select` and `selectOne`.

Each operation that talks to the driver returns a `Completion`. It holds the request
handed to the driver, the callback call (which callback, error, result) and how the
promise settles. `SettlesAlike` states that the promise settles with the callback's
error and result.

In two places the code does not do what it evidently sets out to do:

- `one`'s guard at mysql-wrap.js:109 is there to keep a statement that already has a
  LIMIT, but it tests the wrong thing, so ` LIMIT 1` is always appended (Findings, row 1).
- `getRowCountForSelectQuery` receives the statement's `values` (mysql-wrap.js:23),
  bound at lines 74-78, but never sends them to the driver (Findings, row 2).

The model also reproduces a limitation of the count query. The comment at
mysql-wrap.js:24 says the count removes the "SELECT" portion, and test.js:86 checks that
the count ignores the LIMIT. The FROM cut, though, removes everything through the *last*
` FROM `, which is more than the leading `SELECT … FROM` when a later ` FROM ` occurs.
`SubqueryCountKeepsTail` shows it: for `SELECT A FROM T WHERE X IN (SELECT Y FROM U)`
the count SQL is `SELECT COUNT(*) FROM U)`. No simple cut is right for every statement
(a subquery before the outer ` FROM ` defeats the first-occurrence cut), so the model
keeps the code's cut.

## Model

| member | source | states |
|---|---|---|
| JsText.TrimStart | mysql-wrap.js:10 | the result is a suffix starting with a non-whitespace character; everything dropped is ECMAScript whitespace or a line terminator |
| JsText.TrimEnd | mysql-wrap.js:10 | the result is a prefix ending with a non-whitespace character; everything dropped is whitespace |
| JsText.FirstPiece | mysql-wrap.js:10-11 | `split(' ')[0]`: a space-free prefix followed by a space or by the end of the text |
| JsText.FirstPieceIs | mysql-wrap.js:10-11 | a space-free prefix that is followed by a space or by the end is the first piece |
| JsText.Upper | mysql-wrap.js:11 | same length, upper-cased character by character |
| JsText.TrimIsSlice | mysql-wrap.js:10 | `trim` leaves a slice of the statement that starts and ends with a non-whitespace character, with only whitespace before and after it |
| JsText.FirstMatch | mysql-wrap.js:28 | the leftmost occurrence of a pattern, or none exactly when the text does not contain it |
| JsText.LastMatch | mysql-wrap.js:27 | the rightmost occurrence (where a greedy `.*` prefix stops), or none exactly when there is none |
| JsText.PlaceholdersAppend | mysql-wrap.js:143 | the `??` and `?` placeholders of two texts add up when no `??` straddles the seam |
| JsText.NoPlaceholders | mysql-wrap.js:143 | a text without `?` holds no placeholder |
| JsText.PlaceholdersSplit | mysql-wrap.js:33-34 | cutting a text in three where no `??` straddles a cut splits its placeholders |
| MysqlWrap.ParamsRoundTrip | mysql-wrap.js:51-59 | each of the four call forms `f(s)`, `f(s, v)`, `f(s, cb)`, `f(s, v, cb)` yields its values (or `[]`) and its callback (or a no-op) |
| MysqlWrap.ValuesDisambiguation | mysql-wrap.js:51-53 | getValueFromParams: the values are the second argument when it is an array, and `[]` otherwise, whatever the third argument is |
| MysqlWrap.CallbackDisambiguation | mysql-wrap.js:55-59 | getCallBackFromParams: a function second argument is the callback whatever follows; otherwise a function third argument is; otherwise the no-op |
| MysqlWrap.QueryTypeOfUpper | mysql-wrap.js:9-12 | upper-casing a statement first does not change its type |
| MysqlWrap.QueryTypeCaseInsensitive | mysql-wrap.js:9-12 | statements that upper-case alike have the same type |
| MysqlWrap.QueryType | mysql-wrap.js:9-12 | the type is `SELECT` if and only if the trimmed statement starts with `select` in any case, followed by a space or by nothing |
| MysqlWrap.SelectWordIsSelect | mysql-wrap.js:9-12 | a statement starting with `select` and a space is a SELECT |
| MysqlWrap.MixedCaseSelect | test.js:48-52 | `sElEcT id FRoM ...` is classified as a SELECT |
| MysqlWrap.PromiseRespond | mysql-wrap.js:14-21 | rejects with the error exactly when there is one, and otherwise resolves with the result |
| MysqlWrap.WrapResponse | mysql-wrap.js:67-93 | a SELECT gets `{results, count}` with `count` bound to the statement and its values, if and only if its type is `SELECT`; every other type passes the driver's result through unchanged |
| MysqlWrap.Query | mysql-wrap.js:61-102 | the driver gets the statement and the disambiguated values; the callback gets the driver's error and the wrapped response; the promise settles alike |
| MysqlWrap.CountBounds | mysql-wrap.js:25-29 | the first cut is the end of the last case-insensitive ` FROM ` (0 when there is none); the second is the first ` LIMIT ` after it (the end when there is none) |
| MysqlWrap.FromCut | mysql-wrap.js:27 | the end of the last ` FROM `, or 0 exactly when there is none |
| MysqlWrap.LimitCut | mysql-wrap.js:28 | the start of the first ` LIMIT `, or the length when there is none |
| MysqlWrap.CountPredicate | mysql-wrap.js:25-29 | what the two replacements leave holds no ` FROM ` and no ` LIMIT ` in any case |
| MysqlWrap.CutSeams | mysql-wrap.js:27-28 | the removed prefix ends with a space and the removed suffix starts with one, so no placeholder straddles a cut |
| MysqlWrap.CountIgnoresAppendedLimit | mysql-wrap.js:25-29 | appending ` LIMIT 1` to a statement without ` LIMIT ` that does not end in ` LIMIT` or ` FROM` leaves its count query unchanged |
| MysqlWrap.CountQuery | mysql-wrap.js:33-35 | the corrected count request: the count SQL, and the statement's values for the placeholders that survive the cuts; when the statement's placeholders matched its values, so do the count's, and the values sent are exactly those left after dropping the values of the removed prefix's and the removed suffix's placeholders |
| MysqlWrap.CountQueryAsWritten | mysql-wrap.js:33-34 | as written: the same SQL as the corrected count and no values, so its placeholders match the values sent only when no placeholder survives the cuts |
| MysqlWrap.SubqueryCountBounds | mysql-wrap.js:25-29 | in `SELECT A FROM T WHERE X IN (SELECT Y FROM U)` the first cut falls after the subquery's ` FROM ` and the second at the end |
| MysqlWrap.SubqueryCountKeepsTail | mysql-wrap.js:25-35 | the count SQL of that statement is `SELECT COUNT(*) FROM U)`: the greedy cut removes the outer query's predicate |
| MysqlWrap.CountQueryAligned | mysql-wrap.js:33-35 | one value per placeholder in the statement gives one value per placeholder in the count SQL |
| MysqlWrap.CountQuerySendsAll | mysql-wrap.js:74-78 | when the count keeps every placeholder, the corrected count sends all the values the statement was bound to, in order |
| MysqlWrap.RowCount | mysql-wrap.js:35-44 | on error `null`, with the error, to both channels; else the `COUNT(*)` field of the first row; with no first row the completion throws and nothing settles |
| MysqlWrap.RowCountOfCountRow | mysql-wrap.js:36-39 | an answer whose first row is `{COUNT(*): n}` reports `n` |
| MysqlWrap.LimitedStatementAsWritten | mysql-wrap.js:109-110 | as written, ` LIMIT 1` is appended to every statement |
| MysqlWrap.AsWrittenDoublesLimit | mysql-wrap.js:109-110 | as written, a statement that already has ` LIMIT ` is sent with a second one and comes back changed |
| MysqlWrap.LimitedStatement | mysql-wrap.js:109-110 | corrected: the statement is kept when its upper-cased text holds ` LIMIT `, `LIMIT 1` is appended otherwise, and the result always holds a LIMIT |
| MysqlWrap.LimitedStatementIdempotent | mysql-wrap.js:109-110 | limiting twice is limiting once |
| MysqlWrap.LimitVersionsAgree | mysql-wrap.js:109-110 | for a statement without a LIMIT, the corrected and as-written versions send the same text |
| MysqlWrap.FirstOrNull | mysql-wrap.js:112-118 | with `results` present: the first row, or `null` for no rows or an OK packet, keeping `count`; with no `results`, `undefined` |
| MysqlWrap.QueryFirstRow | mysql-wrap.js:112-121 | the driver gets the given statement and values through `query`; the callback gets the first-row reduction of a SELECT answer (`undefined` for other kinds); the promise settles alike |
| MysqlWrap.One | mysql-wrap.js:104-124 | as written: the driver gets the statement with ` LIMIT 1` appended, whatever it holds, and the disambiguated values; the callback gets the first-row reduction of a SELECT answer (`undefined` for other kinds); the promise settles alike |
| MysqlWrap.OneCorrected | mysql-wrap.js:104-124 | with the corrected guard: the driver gets `LimitedStatement(statement)`, which always holds a LIMIT; callback and promise as in `One` |
| Builders.WhereValues | mysql-wrap.js:126-133 | two values per key/value pair |
| Builders.WhereValuesAt | mysql-wrap.js:128-130 | key `i` sits at index `2i` and its value at `2i + 1` |
| Builders.WhereSql | mysql-wrap.js:131-136 | empty exactly for no pairs; otherwise `WHERE` and `n` terms joined by ` AND `, with `2n` placeholders and ending in a placeholder |
| Builders.JoinedTermsShape | mysql-wrap.js:131-132 | `n > 0` joined terms are non-empty, and start and end with a placeholder |
| Builders.JoinedTermsPlaceholders | mysql-wrap.js:131-132 | `n` joined terms hold `2n` placeholders |
| Builders.PrepareWhereEquals | mysql-wrap.js:126-138 | the loop builds each key followed by its value, in order, and the SQL `WHERE` fragment for that many pairs, empty exactly when there are no pairs |
| Builders.SelectStatement | mysql-wrap.js:143 | the select statement holds one placeholder for the table and two per pair |
| Builders.SelectStatementIsSelect | mysql-wrap.js:143 | every text starting `SELECT * FROM ?? ` is a SELECT |
| Builders.SelectStatementFacts | mysql-wrap.js:143 | the select statement is one line, already upper case, holds no LIMIT, and has one placeholder for the table and two per pair |
| Builders.Select | mysql-wrap.js:140-144 | the driver gets `SELECT * FROM ?? ` plus the WHERE fragment, with the table name followed by the pair values, one per placeholder; the answer is wrapped as a SELECT; the promise settles alike |
| Builders.SelectOneStatementFacts | mysql-wrap.js:146-150 | the corrected `one` also appends ` LIMIT 1` to the select statement, so `One` and `OneCorrected` send the same text; the result is still a SELECT with one placeholder per value |
| Builders.SelectOne | mysql-wrap.js:146-150 | the driver gets the select statement with ` LIMIT 1` and the same values; the callback gets the first row; the promise settles alike |
| Builders.SelectCountBounds | mysql-wrap.js:25-29 | on a select statement the count cuts after `SELECT * FROM ` and keeps the rest |
| Builders.SelectCountSql | mysql-wrap.js:33-35 | the count of a select statement is `SELECT COUNT(*) FROM ?? ` with the WHERE fragment, holding `1 + 2n` placeholders |
| Builders.SelectCountAsWritten | mysql-wrap.js:33-35 | as written, `count()` after `select` sends `1 + 2n` placeholders and no values |
| Builders.SelectCountSendsValues | mysql-wrap.js:33-35 | the corrected `count()` after `select` sends the table name and every pair value |
| Builders.SelectOneCountSql | mysql-wrap.js:146-150 | the count after `selectOne` is the count after `select`, since the appended LIMIT is cut off |
| Builders.SelectOneCountValues | mysql-wrap.js:33-35 | after `selectOne`, the as-written count sends no values for its placeholders; the corrected count sends them all |

## Left out

- The driver is an input: the connection, the network, SQL execution, placeholder
  substitution and escaping. Each operation receives the driver's completion `(err, res)`
  as an `Outcome`.
- Q deferreds and timing are not modelled. A promise is modelled as the value it
  settles with. When callbacks run relative to each other is not modelled.
- `count()` is modelled as the request it sends (`CountQuery`, or `CountQueryAsWritten`)
  plus its answer (`RowCount`). The optional callback receives the same settlement as
  the promise.
- Callbacks are assumed to return normally. `query` calls the callback before it
  settles the promise (mysql-wrap.js:95-96), and `one` does the same (mysql-wrap.js:119-120),
  so a callback that throws leaves the promise unsettled. `Fn` has no behaviour, and
  `SettlesAlike` holds for every completion.
- `insert`, `update` and `delete` are empty stubs with no behaviour to model.
- nodemysql.js and the test harness are not part of this model.
- Pagination, selected fields, transactions, pooling and error translation are not
  modelled, because this version of the code has none of them.
- JsText.Upper: only ASCII letters are upper-cased; other characters are kept as they
  are. For the count regexes this is exact, because a case-insensitive regular
  expression without the `u` flag never matches a non-ASCII character against an ASCII
  one. For statement classification it is not: JavaScript's `toUpperCase` maps `ſ`
  (U+017F) to `S`, so the source classifies `ſelect 1` as a SELECT and the model
  (`QueryType`) does not. Classification differs on statements whose first word reaches
  `SELECT` only through such a mapping.
- MysqlWrap.LimitedStatement: the corrected guard is stated on the same ASCII-only
  upper-casing, so it is inexact in the same way. JavaScript upper-cases `ı` (U+0131)
  to `I`, so a guard on `statement.toUpperCase()` finds ` LIMIT ` in `... lımıt 5` and
  keeps the statement, where the model appends ` LIMIT 1`.
- MysqlWrap.CountBounds: requires a statement on a single line. The `.` of
  `/.* FROM /i` and `/ LIMIT .*/i` does not match line terminators, and the model
  replaces the regular expressions with substring searches. The same requirement carries
  over to CountPredicate, CountSql, CountQuery and the lemmas built on them.
- Builders.PrepareWhereEquals: the key/value object is a sequence of pairs, in the
  object's key order. Arrays, `undefined` and other non-object `whereEquals` arguments
  are not modelled. Nor are array-like objects: `_.map` walks any object whose `length`
  is a number by index, so `select('table', {length: 2})` sends two `?? = ?` terms with
  the values `0, undefined, 1, undefined`, where the model sends one term with
  `length, 2`.
- Builders.Select: the table is a string. An array table is not modelled; the driver
  would expand it into a list of identifiers.
- Driver.Value: JavaScript numbers are modelled as integers.
- Driver.Value: arrays, objects, `Date`s and buffers cannot be bound in the model,
  neither as `whereEquals` values nor in `values`. The driver would expand an array
  into a list and an object into `key = value` pairs.
- The values that `_.extend` copies from the wrapped response are not modelled
  separately. `FirstOrNull` keeps `count` and replaces `results`.

## Findings

| source | as written | input that shows it | evidently intended | confidence | as-written member | corrected member |
|---|---|---|---|---|---|---|
| mysql-wrap.js:109-110 | `/ LIMIT /` is tested against `statement.toUpperCase`, the method itself. Its text `function toUpperCase() { [native code] }` never holds ` LIMIT `, so ` LIMIT 1` is always appended | `one('SELECT * FROM t LIMIT 5')` sends `SELECT * FROM t LIMIT 5 LIMIT 1` | test the upper-cased statement, `statement.toUpperCase()`, and append only when it has no LIMIT | high; not executed | MysqlWrap.AsWrittenDoublesLimit | MysqlWrap.LimitedStatement |
| mysql-wrap.js:33-35 | the count query is sent without the values the statement was bound to, though its predicate keeps the statement's `??` and `?` placeholders | `select('table', {field: 'foo'})` then `count()` sends `SELECT COUNT(*) FROM ??  WHERE ?? = ?` with no values | send the values of the placeholders that survive the cuts | medium; not executed | Builders.SelectCountAsWritten | MysqlWrap.CountQuery |
