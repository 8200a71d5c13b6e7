# Jobly jobs core, modelled in Dafny

Jobly is a small REST service for job postings. This project models the parts of
it that hold real logic. Each is written as pure functions over immutable data:

- **`sqlForPartialUpdate`** builds the `SET` clause of an `UPDATE` from an ordered
  object of new values and a map of column aliases. It emits one `"<column>"=$<n>`
  assignment per key plus the list of bound values, and rejects empty data with
  `BadRequest("No data")`. Module `Sql`, in `sql.dfy`.
- **`Job.findAll`** assembles the `WHERE` clause of the job listing from the query
  entries, in order. Module `JobFilter`, in `job_filter.dfy`. It is modelled twice:
  - as written, where the entry at index `i` uses placeholder `$<i+1>`;
  - corrected, where placeholders are numbered by emitted predicate and a query
    that emits nothing takes the unfiltered path.
- **`Job.update`** lays out its statement: the `SET` values first, then the id at
  placeholder `values.length + 1`. `Job.get`, `Job.update` and `Job.remove` are
  also modelled against an abstract jobs table (a map from id to row), including
  their `NotFound` and `BadRequest` errors. An update that assigns `id` moves the
  row to the new id. Module `JobStore`, in `job_store.dfy`.
- **`GET /jobs`** normalises the query string before calling `findAll`: a truthy
  `minSalary` goes through unary `+`, and a truthy `hasEquity` becomes `true` only
  for the text `"true"`. The query-schema check is a function parameter.
  Module `JobRoutes`, in `job_routes.dfy`. Unary `+` on a string of digits yields
  the nearest IEEE 754 double, so an integer beyond 2^53 in magnitude arrives
  rounded. Module `JsNumber`, in `js_number.dfy`, models that rounding.

Support modules:

- `Wrappers` (`Option`, `Result`).
- `JsValues`: JavaScript values (numbers as integers, infinities and `NaN`), truthiness, and objects as key/value sequences with
  distinct keys, in the order `Object.keys` enumerates them.
- `Errors`: the error kinds.
- `Text`: decimal rendering of placeholder numbers, `join`, and the small scanners
  the parsers use.

Each builder that produces SQL text is paired with a parser for that text. A
round-trip lemma proves that the parser reads the rendered text back as the
structured assignments or predicates. So the properties below are about what the
text says, not only about how it is concatenated. SQL text is modelled with the
whitespace inside the template literals collapsed to single spaces.

Behaviours of the code worth noting:

- An alias that is present but empty falls back to the key, because the code uses
  `jsToSql[k] || k`.
- `findAll` accepts any non-null query object, including one whose entries emit no
  predicate. So a lone `hasEquity: false` reaches the `WHERE` branch.
- The filter placeholders count every entry, not just the predicates emitted.
- `Job.update` does not itself stop a `companyHandle` change. It maps that key to
  `company_handle` like any other. Nor does it stop an `id` key, which becomes the
  assignment `"id"=$<its position>` and re-keys the row.

## Model

| member | source | states |
|---|---|---|
| `Sql.PartialUpdate` | helpers/sql.js:21-34 | Fails exactly when the data has no keys, and then with `BadRequest(["No data"])`. Otherwise there is one bound value per key, the i-th being the value of the i-th key. |
| `Sql.PartialUpdateSetCols` | helpers/sql.js:22-31 | For columns without a `"`, the `SET` text reads back as one assignment per key, in key order. The i-th names `jsToSql[k]` when that is non-empty, otherwise the key itself, and holds placeholder `$<i+1>`, so placeholders run `$1..$n`. |
| `Sql.RenderSetClauseIsJoin` | helpers/sql.js:26-31 | The rendered `SET` text is the rendered assignments joined with `", "`, as `cols.join(", ")` builds it. |
| `Sql.ParseRenderedSetClause` | helpers/sql.js:26-31 | Assignments joined with `", "` parse back to exactly those assignments: the `SET` text is unambiguous. |
| `Sql.PartialUpdateIgnoresUnusedAliases` | helpers/sql.js:27 | Two alias maps that resolve every key of the data to the same columns give the same result. |
| `Sql.PartialUpdateNeedsOnlyOwnAliases` | helpers/sql.js:27 | Restricting the alias map to the data's own keys changes nothing: aliases such as `isAdmin` or `logoUrl`, absent from the data, have no effect. |
| `Sql.UserUpdateExample` | helpers/sql.test.js:4-15 | `{firstName: "Test", lastName: "User"}` gives `"first_name"=$1, "last_name"=$2` with `["Test", "User"]`. |
| `Sql.CompanyUpdateExample` | helpers/sql.test.js:17-27 | `{name: "Test", numEmployees: 10}` gives `"name"=$1, "num_employees"=$2` with `["Test", 10]`. |
| `JobFilter.Emit` | models/job.js:28-37 | An entry emits a predicate exactly for `title`, `minSalary` and `hasEquity` equal to `true`. The placeholder is the one it is given. `title` and `minSalary` bind their raw value; `hasEquity` binds `0`. |
| `JobFilter.RenderWhereIsJoin` | models/job.js:40-43 | The rendered condition is the rendered predicates joined with `" AND "`, as `whereCols.join(' AND ')` builds it. |
| `JobFilter.ParseRenderedWhere` | models/job.js:29-43 | Predicates joined with `" AND "` parse back to exactly those predicates. |
| `JobFilter.EntryClauses` | models/job.js:24-38 | The predicate list and the value list have equal length, at most the number of entries. |
| `JobFilter.EntryClausesSound` | models/job.js:27-38 | Each predicate, with its value, is what the entry at index `placeholder - 1` contributes. Placeholders strictly increase and stay within `1..` the entry count, so predicates come in entry order. |
| `JobFilter.EntryClausesComplete` | models/job.js:27-38 | Every contributing entry at index `i` has a predicate with placeholder `$<i+1>`. |
| `JobFilter.FindAll` | models/job.js:18-44 | No query gives the unfiltered select with no bound values. Any query object gives a statement beginning with the select and ` WHERE `. |
| `JobFilter.FindAllFiltered` | models/job.js:24-43 | A filtered statement's condition parses back as the predicates, and its parameters are their values. The predicates are sound and complete for the entries, in entry order. |
| `JobFilter.FindAllIgnoresTrailingInertEntry` | models/job.js:27-37 | Appending an entry that emits nothing (an unknown key, or `hasEquity` not `true`) leaves the statement unchanged. |
| `JobFilter.RenumberedClauses` | models/job.js:27-38 | Corrected numbering: predicates hold placeholders `$1..$n` in order, one per bound value. |
| `JobFilter.RenumberedMatchesAsWritten` | models/job.js:27-38 | The corrected assembly emits the same predicates and values as the code, in the same order. Only the placeholder numbers differ. |
| `JobFilter.FindAllCorrectedBindsEveryPlaceholder` | models/job.js:21-43 | The corrected `findAll` is unfiltered exactly when no entry contributes. Otherwise it has a non-empty condition whose placeholders are `$1..$n` for its `n` bound values. |
| `JobFilter.RenumberedIgnoresInertEntry` | models/job.js:34-37 | In the corrected assembly, removing an entry that emits nothing from anywhere in the query changes nothing. |
| `JobFilter.PlaceholderGapAfterInertEntry` | models/job.js:27-43 | As written, `{hasEquity: false, title: "j"}` gives the title `ILIKE` predicate at placeholder `$2`, with the single value `["j"]`. Corrected, it uses `$1`. |
| `JobFilter.EmptyConditionForLoneInertEntry` | models/job.js:40-43 | As written, `{hasEquity: false}` gives the select followed by an empty `WHERE`. Corrected, it is the unfiltered select. |
| `JobStore.UpdateLayout` | models/job.js:96-104 | Empty data fails with `BadRequest(["No data"])`. Otherwise the id placeholder is `values.length + 1`, the last parameter: the data's values in key order, then the id. |
| `JobStore.UpdateSqlNamesId` | models/job.js:99-103 | In the statement text, `WHERE id = $` is followed by exactly the digits of the parameter count, and the last parameter is the id. |
| `JobStore.UpdateSql` | models/job.js:99-103 | The statement text, with the template literal's whitespace collapsed to single spaces: it starts `UPDATE jobs SET <setCols> WHERE id = $` and ends with the `RETURNING id, title, salary, equity, company_handle AS "companyHandle"` list. |
| `JobStore.UpdateIdFollowsSetPlaceholders` | models/job.js:97-103 | For data whose columns contain no `"` (every job field qualifies), the `SET` text reads back as assignments at `$1..$n`. The id sits at `$<n+1>` and binds the id, so it never collides with a `SET` value. |
| `JobStore.Row` | models/job.js:102 | The returned row has keys `id, title, salary, equity, companyHandle`. |
| `JobStore.ExecUpdate` | models/job.js:99-105 | The database's effect, as this model assumes it: only the row with the bound id changes, possibly moving to a new id that no other row had, and the row is returned from where it now is. The table's ids are the old ones with the row's old id replaced by its new one, and every other row is unchanged. There is no row exactly when the id is absent. |
| `JobStore.Get` | models/job.js:72-82 | Returns the stored row when the id exists, otherwise `NotFound("No job: <id>")`. |
| `JobStore.Update` | models/job.js:96-108 | Empty data is a `BadRequest` whether or not the row exists. Success implies the id exists. |
| `JobStore.UpdateChangesOnlyProvidedFields` | models/job.js:84-108 | With job fields as data, the named row becomes its partial update: each provided field takes its new value and every other field keeps its old one. No other row changes, and the updated row is returned. A missing id gives `NotFound("No job: <id>")`. |
| `JobStore.UpdateThenGet` | models/job.js:96-108 | After a successful update, `get` of the id in the returned row returns that row. |
| `JobStore.UpdateId` | models/job.js:96-108 | `update(id, {id: k})` moves the row to `k` with its fields unchanged, and returns it under `k`. It fails when another row already has id `k`. |
| `JobStore.Remove` | models/job.js:115-123 | A missing id gives `NotFound`. Otherwise the table loses exactly that row and every other row is unchanged. |
| `JobStore.RemoveThenGet` | models/job.test.js:146-159 | After a removal, `get` and a second `remove` of that id give `NotFound`. |
| `JobStore.UpdateSalaryExample` | models/job.test.js:124-133 | Updating row 1111 (`J1`, company `c1`) with `{salary: 50000}` sets the salary and leaves `title`, `equity` and `companyHandle` unchanged. |
| `JobStore.UpdateMissingExample` | models/job.test.js:135-141 | Updating the missing id 0 gives `NotFound("No job: 0")`. |
| `JobRoutes.ToNumber` | routes/jobs.js:31 | Unary `+` always yields a finite number, an infinity or `NaN`, and leaves a number unchanged. |
| `JobRoutes.ToNumberOfIntToString` | routes/jobs.js:31 | Converting the decimal text of any integer gives the number `JsNumber.NumberValue` of that integer, which is the integer itself when its magnitude is at most 2^53. |
| `JobRoutes.ParseIntegerOfIntToString` | routes/jobs.js:31 | The decimal text of any integer reads back as that integer before rounding. |
| `JsNumber.NumberValue` | routes/jobs.js:31 | The number for an integer's text is finite or an infinity. A finite one is below 2^1024 in magnitude and has the integer's sign. An infinity has the integer's sign and comes only from magnitudes of at least 2^1023. |
| `JsNumber.RoundedQuotientIsNearest` | routes/jobs.js:31 | No multiple of the spacing is nearer the integer than the rounded one. One as near is the rounded one itself, or else the rounded multiple is the even one, so ties go to even. |
| `JsNumber.NearestDoubleIsDouble` | routes/jobs.js:31 | The rounded value has a significand below 2^53, so a double holds it. |
| `JsNumber.NearestDoubleIsNearest` | routes/jobs.js:31 | No double, with any exponent, is nearer the integer than the rounded value. |
| `JsNumber.NumberValueOfDouble` | routes/jobs.js:31 | An integer that a finite double holds comes through unchanged, and so does every integer of magnitude at most 2^53. |
| `JsNumber.NumberValueIsNearest` | routes/jobs.js:31 | The number is finite exactly when the nearest double is below 2^1024. It is then a double, and no double of the same sign is nearer the integer. |
| `JsNumber.TwoToFiftyThreePlusOneRounds` | routes/jobs.js:31 | The integer 9007199254740993 (2^53 + 1) becomes 9007199254740992: it lies halfway between two doubles, and the tie goes to the even significand. |
| `JobRoutes.NormaliseValue` | routes/jobs.js:31-36 | A truthy `minSalary` becomes its numeric conversion. A truthy `hasEquity` becomes `true` when it is the text `"true"` and `false` otherwise. Any other key, and any falsy value, is unchanged. So `hasEquity` emits the equity predicate exactly when the query said `"true"`. |
| `JobRoutes.Normalise` | routes/jobs.js:30-36 | Normalisation keeps the keys and their order, and converts each value as `NormaliseValue` states. Keys other than `minSalary` and `hasEquity` look up the same value before and after. |
| `JobRoutes.ListFilter` | routes/jobs.js:27-43 | A query with no keys calls `findAll` with no argument, without validation. Otherwise the normalised query is validated: errors give `BadRequest` with those messages and `findAll` is not called; no errors pass the normalised query to `findAll`. |
| `JobRoutes.ListStatement` | routes/jobs.js:23-44 | A statement runs exactly when the filter step succeeds, and every failure is a `BadRequest`. An empty query string runs the unfiltered select with no parameters, whatever the validator says. |
| `JobRoutes.CorrectedListStatement` | routes/jobs.js:23-44 | The same dispatch in front of the corrected `findAll`: a statement exactly when the filter step succeeds. |
| `JobRoutes.MinSalaryArrivesAsNumber` | routes/jobs.js:31 | A `minSalary` sent as the decimal text of any integer, `0` included, reaches `findAll` as the double nearest that integer: the integer itself when its magnitude is at most 2^53. |
| `JobRoutes.MinSalaryBeyondTwoToFiftyThree` | routes/jobs.js:31 | `?minSalary=9007199254740993` reaches `findAll` as `9007199254740992`. |
| `JobRoutes.LoneFalseEquityQuery` | routes/jobs.js:33-43 | `GET /jobs?hasEquity=false`, if the schema accepts it, runs the select with an empty `WHERE`. Corrected, it lists every job. |
| `JobRoutes.FalseEquityBeforeTitleQuery` | routes/jobs.js:33-43 | `GET /jobs?hasEquity=false&title=j`, if the schema accepts it, names `$2` while binding one value. Corrected, it names `$1`. |
| `JobRoutes.TitleThenFalseEquityQuery` | routes/jobs.test.js:54-70 | `?title=j2&hasEquity=false` runs the title `ILIKE` predicate at `$1` with `["j2"]`. |
| `JobRoutes.MinSalaryQuery` | routes/jobs.test.js:72-79 | `?minSalary=100000` runs `"salary" >= $1` with the number `100000`. |

## Left out

- Executing the filtered select: `db.query`, `ILIKE` matching, row order, and which rows a filter selects. For `findAll` only the statement text and bound values are modelled. `get`, `update` and `remove` are modelled against an abstract table.
- `JobStore.ExecUpdate` is an assumed model of how the database runs the update, restricted to the statement shape `Job.update` builds. Beyond its checks it does not model PostgreSQL's type checking of bound values (for example a string bound to `salary`). Nor does it model foreign-key or other column constraints: `company_handle` references `companies`, but an update to a `companyHandle` that names no company succeeds here.
- async/await and promise plumbing: every operation is a function returning a `Result`.
- `Job.create` and the other routes (`POST /`, `GET /:id`, `PATCH /:id`, `DELETE /:id`), which are thin wrappers. So are the `ensureIsAdmin` middleware and JSON and status-code shaping.
- The JSON-schema validator and its schema files, which are not part of this model. The validator is a parameter returning error messages.
- `JobRoutes.ToNumber`: does not model unary `+` beyond optionally signed decimal digit strings. Real JavaScript also trims whitespace and accepts decimals, exponents and hexadecimal, all of which become `NaN` here.
- `JsNumber.NumberValue`: takes the correctly rounded double for every digit string. For a decimal literal of more than 20 significant digits, ECMAScript lets an engine instead round the value whose digits after the 20th are replaced by zeros, possibly with the 20th incremented; that alternative is not modelled.
- Floating point: a finite `Value` number is an integer. Fractional numbers, such as an update to `{equity: 0.5}` or a `minSalary` of `1.5`, are not modelled.
- Key enumeration order: JavaScript lists integer-like keys (`"2"`, `"10"`) first, in ascending order, and the other keys after them in insertion order. An `Object` here is a sequence that is taken to be in enumeration order already; the model does not derive that order from insertion order.
- `Sql.PartialUpdateSetCols`: the read-back holds only for columns that contain no `"`. `sqlForPartialUpdate` does not escape `"`, so for such a column the `SET` text is ambiguous.
- Query-string values that `qs` parses into arrays or nested objects. Query values are single `Value`s.
- Keys inherited through the prototype of `jsToSql` (e.g. `toString`). The alias map is a plain finite map.
- `JobStore.UpdateChangesOnlyProvidedFields`: stated only for data whose keys are job fields (`title`, `salary`, `equity`, `companyHandle`). A key that names a column directly, such as `company_handle`, is applied by `ExecUpdate` but is not covered by this lemma. Data that is a lone `id` key is covered by `JobStore.UpdateId`. Data that mixes `id` with other keys, such as `{title: "x", id: 5}`, re-keys the row in `ExecUpdate`, but no lemma states its outcome. A key that names no column of `jobs` is a `DbError`.
- The id of `get`, `update` and `remove` is an `int`. The route passes the URL text and the database casts it; that cast is not modelled.
- Whitespace and line breaks inside the template-literal SQL are collapsed to single spaces.

## Findings

| source | as written | input that shows it | evidently intended | confidence | as-written member | corrected member |
|---|---|---|---|---|---|---|
| models/job.js:27-37 | The placeholder `$${i + 1}` uses the entry's index among all entries, including entries that emit no predicate. | `{hasEquity: false, title: "j"}`, i.e. `GET /jobs?hasEquity=false&title=j`, gives the title `ILIKE` predicate at placeholder `$2`, with the single bound value `["j"]`. | Placeholders numbered by emitted predicate, `$1..$n` for `n` bound values. | high; not executed | `JobFilter.PlaceholderGapAfterInertEntry` | `JobFilter.FindAllCorrectedBindsEveryPlaceholder` |
| models/job.js:21-43 | Any non-null query object takes the filtered branch, even when no entry emits a predicate. | `{hasEquity: false}`, i.e. `GET /jobs?hasEquity=false`, gives `... FROM jobs WHERE ` with an empty condition and no values. | Fall back to the unfiltered select when no predicate is emitted. | high; not executed | `JobFilter.EmptyConditionForLoneInertEntry` | `JobFilter.FindAllCorrectedBindsEveryPlaceholder` |
