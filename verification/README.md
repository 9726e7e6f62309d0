# Employee feedback service — a Dafny model

This project models the core of a small CRUD service for employee-feedback
survey records. Each record has a UUID and 32 further fields: identity, an
organisational hierarchy, categorical attributes, a response date, and
scores with free-text comments. The model covers six parts:

- **Record validation.** This is the Joi schema together with
  `EmployeeFeedback.validate()`. Validation runs with `abortEarly: false`, so
  every violated rule produces its own "Campo inválido" diagnostic with code
  400, in the schema's field order.
- **Domain errors.** `BaseError` is the base, and `BadRequestError` and
  `NotFoundError` fix its status code to 400 and 404.
- **The service.**
  - `create` checks that the email and then the corporate email are free,
    validates the record under a fresh id, then saves it.
  - `findAll` passes the store's page through unchanged.
  - `findById` returns the record or not-found.
  - `update` first requires the id to exist, then validates, then lets the
    store update.
  - `delete` first requires the id to exist, then removes it.
- **The persistence adapter and its output port.** The table is a sequence of
  rows in natural order. It has the entity's unique constraints on `id`,
  `email` and `corporate_email`.
  - `save` inserts a new row, or updates the row when the id is already stored.
    An inserted row holds NULL wherever the record is undefined.
  - `update` leaves out undefined properties, so the stored values stay.
  - `findAll` ANDs its filters, treats an empty filter as absent, and uses an
    inclusive date range. Its search is a case-insensitive substring match over
    the eight comment fields. It returns a page of the matches
    (`skip = (page - 1) * limit`, `take = limit`, with defaults of 1 and 15)
    together with the count of all matches.
- **The CSV seed import.**
  - The value normalisers: `mapArea`, `mapGender`, `mapCompanyTenure`,
    `mapGeneration`, `parseNumber` and `parseDate`.
  - The row-to-record mapping with its defaults.
  - The per-row skip rules: skip the row when its name or email is missing,
    when its email is already stored, or when the insert hits a unique-key
    error. A row whose record cannot be built, or whose response date is
    invalid, counts as an error.
  - The import skips everything when the table is not empty.
- **The JavaScript string primitives** these rely on: `toLowerCase`,
  `toUpperCase`, `trim`, `split` and `parseInt`, and SQL's `ILIKE '%…%'`
  substring match.

The model is written as pure functions over immutable values. The one
exception is the import loop, which is a method with loop invariants. Every
operation returns its result together with the table after it. Things
outside the model become parameters:

- `uuidv4()` becomes the `freshId` argument of `Service.Create`.
- Joi's e-mail syntax check becomes `isEmail`.
- The ids of imported rows become `ids`.

Modules:

| file | module | models |
|---|---|---|
| results.dfy | `Results` | `Option`, `Result` |
| errors.dfy | `Errors` | `src/helpers/*`, status codes and messages of `src/domain/Constantes.ts` |
| strings.dfy | `Strings` | JavaScript string built-ins |
| record.dfy | `Feedback` | the domain record, its fields and their order |
| schema.dfy | `Schema` | the Joi rule of each field and its messages |
| validation.dfy | `Validation` | `EmployeeFeedback.validate()` |
| persistence.dfy | `Persistence` | the adapter's `create`, `findById`, `findByEmail`, `update`, `delete`; the output port |
| listing.dfy | `Listing` | the adapter's `findAll` |
| service.dfy | `Service` | `EmployeeFeedbackService` |
| csvimport.dfy | `CsvImport` | `insertDataConfig.ts` without its file and console I/O |

Three behaviours of the code are easy to misread, and the model follows the
code in each:

- The persistence `update` merges; it does not replace the whole record. A
  property the payload leaves undefined keeps its stored value, because
  TypeORM's `update` skips undefined properties.
- The service's `update` checks no uniqueness of its own. An email clash on
  update therefore comes out of the store's unique constraint as an opaque
  (server) error, not as a bad request.
- The categorical fields (`department`, `companyTenure`, `gender`,
  `generation`) are plain required strings in the schema. Their enumerations
  are not checked.

## Model

| member | source | states |
|---|---|---|
| Errors.NewBaseError | src/helpers/BaseError.ts:1-11 | a base error keeps exactly the status code, message and optional diagnostics it was built with |
| Errors.BadRequestError | src/helpers/BadRequestError.ts:4-8 | a bad-request error has status 400 whatever its arguments and carries its message and diagnostics unchanged |
| Errors.NotFoundError | src/helpers/NotFoundError.ts:4-8 | a not-found error has status 404 whatever its arguments and carries its message and diagnostics unchanged |
| Errors.KindsDisjoint | src/domain/Constantes.ts:3-4 | a bad-request error is never a not-found error, and the reverse; the status code alone tells them apart |
| Errors.ConstructorsInjective | src/helpers/BaseError.ts:6-10 | two errors of the same kind are equal exactly when their messages and diagnostic lists, order included, are equal |
| Strings.LowerOfLowerCase | src/config/database/insertDataConfig.ts:21 | lower-casing a string already in lower case changes nothing, so the lower-case keys of the lookup tables are found as they are |
| Strings.LowerForgetsCase | src/config/database/insertDataConfig.ts:21 | lower-casing is idempotent and gives the same result for a string and its upper-cased form, so a map lookup on the lower-cased key ignores case |
| Strings.ContainsIff | src/adapter/output/persistense/EmployeeFeedbackPersistenceAdapter.ts:101-111 | substring containment (`ILIKE '%s%'`) holds exactly when the needle occurs at some position of the text |
| Strings.TrimEmptyIff | src/config/database/insertDataConfig.ts:65 | `trim()` yields the empty string exactly when every character is white space |
| Strings.JoinSplit | src/config/database/insertDataConfig.ts:60 | splitting on a separator and joining back with it returns the original text |
| Strings.SplitJoin | src/config/database/insertDataConfig.ts:60 | joining parts that do not contain the separator and splitting again returns the parts |
| Strings.ParseIntNegative | src/config/database/insertDataConfig.ts:68 | `parseInt` of a minus sign before a digit run reads the negated magnitude |
| Strings.ParseIntNonNegative | src/config/database/insertDataConfig.ts:68 | `parseInt` of a digit run reads its decimal value |
| Strings.ParseIntString | src/config/database/insertDataConfig.ts:68 | `parseInt` reads back the decimal numeral of every integer |
| Schema.Check | src/application/validators/employeeFeedbackSchema.ts:3-156 | a value passes a rule exactly when the rule admits it; a required field reports `any.required` exactly when it is missing; a required string reports `string.empty` exactly for the empty string; `string.email` only comes from the two e-mail rules; `number.unsafe` comes exactly from a number rule given an integer beyond ±(2^53 − 1) |
| Schema.RequiredTextFields | src/application/validators/employeeFeedbackSchema.ts:4-82 | each of the fifteen required text fields rejects a missing value with `any.required` and the empty string with `string.empty` |
| Schema.CommentFields | src/application/validators/employeeFeedbackSchema.ts:94-155 | `jobInterestComments` is required and non-empty; the other seven comment fields accept a missing value, `null` and the empty string |
| Schema.EmailSyntaxOnlyOnEmails | src/application/validators/employeeFeedbackSchema.ts:10-22 | non-empty text in `email` or `corporateEmail` passes exactly when it is a syntactically valid e-mail; no other field depends on e-mail syntax |
| Schema.CategoricalFieldsUnchecked | src/application/validators/employeeFeedbackSchema.ts:24-27 | department, company tenure, gender and generation accept any non-empty text, not only enumeration members |
| Schema.OptionalScores | src/application/validators/employeeFeedbackSchema.ts:99-152 | the five optional scores pass exactly when missing, `null` or a safe integer (at most 2^53 − 1 in magnitude); any other non-number reports `number.base`, and a number beyond that range `number.unsafe` |
| Schema.RequiredDateAndScores | src/application/validators/employeeFeedbackSchema.ts:84-135 | the response date and the three required scores report `any.required` when missing, and `date.base` or `number.base` for a value of another type; a date passes, and a number given as the date passes exactly when it is a time value a JavaScript `Date` can hold (at most 8.64e15 in magnitude), otherwise `date.base`; a required score passes exactly when it is a safe integer, and reports `number.unsafe` beyond that range |
| Validation.ViolationsIn | src/domain/models/EmployeeFeedback.ts:159 | each reported violation names a checked field together with the error that field's rule raises, and violations come in field order |
| Validation.ViolationsInComplete | src/domain/models/EmployeeFeedback.ts:159 | with `abortEarly: false`, every checked field that breaks its rule is reported |
| Validation.ViolationsExact | src/domain/models/EmployeeFeedback.ts:124-170 | a field is reported exactly when it breaks its rule, with the error the rule raises, in strictly increasing schema order |
| Validation.Validate | src/domain/models/EmployeeFeedback.ts:161-166 | validation fails exactly when some field breaks its rule; the list then holds one diagnostic per violation, in the same order, each with title "Campo inválido", code 400 and the message of that violation's field and error |
| Validation.ValidateNoneIff | src/domain/models/EmployeeFeedback.ts:161-169 | `validate()` returns `false` exactly when every field satisfies its rule |
| Validation.DiagnosticsPerField | src/domain/models/EmployeeFeedback.ts:161-166 | there is one diagnostic per violation, and a violated field's diagnostic carries the message of the error its rule raises |
| Validation.SameFieldsSameResult | src/domain/models/EmployeeFeedback.ts:125-158 | validation reads only the 32 non-id fields: records that agree on them get the same result |
| Validation.ValidateIgnoresId | src/domain/models/EmployeeFeedback.ts:125-158 | the id is not validated: changing it never changes the result |
| Persistence.Conflict | src/adapter/output/persistense/entities/EmployeeFeedbackEntity.ts:8-18 | two rows clash exactly when they share the id, or share a non-NULL email or corporate email |
| Persistence.FindById | src/adapter/output/persistense/EmployeeFeedbackPersistenceAdapter.ts:127-167 | the result is a stored row with that id, and there is no result exactly when no row has that id |
| Persistence.FindByEmail | src/adapter/output/persistense/EmployeeFeedbackPersistenceAdapter.ts:213-253 | the result is a stored row whose chosen column holds the value, and there is no result exactly when no row's column holds it |
| Persistence.Rebuild | src/adapter/output/persistense/EmployeeFeedbackPersistenceAdapter.ts:21-55 | rebuilding a row into a model object loses and reorders nothing |
| Persistence.Merge | src/adapter/output/persistense/EmployeeFeedbackPersistenceAdapter.ts:170 | an update replaces exactly the fields the payload defines and keeps the others as stored |
| Persistence.Insert | src/adapter/output/persistense/EmployeeFeedbackPersistenceAdapter.ts:20 | an insert succeeds exactly when the row clashes with no stored row; it then appends the row as written, with every undefined property NULL, and leaves the others alone; otherwise it fails on a unique constraint |
| Persistence.UpdateRows | src/adapter/output/persistense/EmployeeFeedbackPersistenceAdapter.ts:170 | an id no row has leaves the table as it is; otherwise the update is accepted exactly when the merge of the stored row with the data clashes with no other row, and then changes only the row with the id, to that merge |
| Persistence.Create | src/adapter/output/persistense/EmployeeFeedbackPersistenceAdapter.ts:15-56 | `create` answers with the record itself; with a new id it succeeds exactly when nothing clashes, and the table gains exactly that row as written, undefined properties as NULL |
| Persistence.Update | src/adapter/output/persistense/EmployeeFeedbackPersistenceAdapter.ts:169-207 | with the id stored, the update succeeds exactly when the merge of the stored row with the data clashes with no other row; with the id missing, it fails exactly when the payload's own id is missing too; a success answers with a stored row that has the requested id and keeps the table's length |
| Persistence.Delete | src/adapter/output/persistense/EmployeeFeedbackPersistenceAdapter.ts:209-211 | exactly the rows with a different id remain; with no row of that id the table is unchanged |
| Persistence.DeleteConcat | src/adapter/output/persistense/EmployeeFeedbackPersistenceAdapter.ts:209-211 | deleting from a table split in two deletes from each part and keeps the parts in order, so the survivors keep their original order |
| Persistence.ConflictSymmetric | src/adapter/output/persistense/entities/EmployeeFeedbackEntity.ts:14-17 | unique constraints are symmetric |
| Persistence.InsertKeepsWellFormed | src/adapter/output/persistense/entities/EmployeeFeedbackEntity.ts:8-18 | an accepted insert keeps id, email and corporate email unique |
| Persistence.UpdateRowsKeepsWellFormed | src/adapter/output/persistense/entities/EmployeeFeedbackEntity.ts:8-18 | an accepted update keeps id, email and corporate email unique |
| Persistence.DeleteKeepsWellFormed | src/adapter/output/persistense/EmployeeFeedbackPersistenceAdapter.ts:209-211 | deleting rows keeps the unique constraints |
| Persistence.CreateKeepsWellFormed | src/adapter/output/persistense/EmployeeFeedbackPersistenceAdapter.ts:15-20 | `create` keeps the unique constraints |
| Persistence.UpdateKeepsWellFormed | src/adapter/output/persistense/EmployeeFeedbackPersistenceAdapter.ts:169-171 | `update` keeps the unique constraints |
| Persistence.FreshSaveAppends | src/adapter/output/persistense/EmployeeFeedbackPersistenceAdapter.ts:15-20 | saving a record whose id is new and whose email and corporate email are both free succeeds and appends the record as written |
| Persistence.Stored | src/adapter/output/persistense/EmployeeFeedbackPersistenceAdapter.ts:15-20 | the row an `INSERT` writes keeps the id and every defined value, and holds NULL where the record is undefined |
| Persistence.ConflictStored | src/adapter/output/persistense/entities/EmployeeFeedbackEntity.ts:14-18 | writing undefined properties as NULL never changes whether a row clashes with a stored one |
| Persistence.FindByIdStored | src/adapter/output/persistense/EmployeeFeedbackPersistenceAdapter.ts:127-130 | in a table that keeps its constraints, looking a stored row up by id finds that very row |
| Persistence.CreateThenFind | src/application/output/EmployeeFeedbackPersistenceOutputPort.ts:4 | after `create` inserts a record, `findById` finds a row with its id, every defined value and NULL in place of each undefined one |
| Persistence.UpdateThenFind | src/application/output/EmployeeFeedbackPersistenceOutputPort.ts:25 | `update` answers with the stored row merged with the data, and a later `findById` returns the same |
| Persistence.UpdateRowsClash | src/adapter/output/persistense/EmployeeFeedbackPersistenceAdapter.ts:170 | an update giving the row another row's email is refused by a unique constraint |
| Persistence.UpdateMissing | src/adapter/output/persistense/EmployeeFeedbackPersistenceAdapter.ts:170-173 | updating an id no row has fails at the re-read |
| Persistence.DeleteCount | src/application/output/EmployeeFeedbackPersistenceOutputPort.ts:26 | `delete` removes exactly one row when the id is stored and none otherwise |
| Listing.Select | src/adapter/output/persistense/EmployeeFeedbackPersistenceAdapter.ts:89-112 | the selection holds exactly the rows that pass every given filter |
| Listing.Window | src/adapter/output/persistense/EmployeeFeedbackPersistenceAdapter.ts:115 | `OFFSET skip LIMIT take` keeps the contiguous run of at most `take` matches starting at `skip` (0 emits no clause) |
| Listing.FindAll | src/adapter/output/persistense/EmployeeFeedbackPersistenceAdapter.ts:58-125 | page and limit default to 1 and 15 only when absent, and are echoed; the query fails exactly when the offset or limit is negative; `total` counts every match; every returned row is stored and passes the filters |
| Listing.SameQuerySameSelect | src/adapter/output/persistense/EmployeeFeedbackPersistenceAdapter.ts:86-112 | queries that accept the same rows select the same rows in the same order |
| Listing.TotalIgnoresPaging | src/adapter/output/persistense/EmployeeFeedbackPersistenceAdapter.ts:115-124 | `total` does not depend on `page` or `limit` |
| Listing.PageIsSlice | src/adapter/output/persistense/EmployeeFeedbackPersistenceAdapter.ts:115-117 | the page is the slice of matches that starts at `(page - 1) * limit` and is at most `limit` long |
| Listing.MatchOnItsPage | src/adapter/output/persistense/EmployeeFeedbackPersistenceAdapter.ts:115 | with a positive limit, match `k` is item `k % limit` of page `k / limit + 1` |
| Listing.TwentyMatchesTwoPages | src/adapter/output/persistense/EmployeeFeedbackPersistenceAdapter.ts:72-74 | twenty matches at the default limit give fifteen on page 1 and five on page 2, with total 20 |
| Listing.Normalize | src/adapter/output/persistense/EmployeeFeedbackPersistenceAdapter.ts:89-101 | dropping every empty string filter keeps paging and dates and accepts exactly the same rows |
| Listing.EmptyFilterIgnored | src/adapter/output/persistense/EmployeeFeedbackPersistenceAdapter.ts:89-101 | any query selects the same rows, in the same order, as the query with every empty string filter dropped |
| Listing.EachEmptyFilterIgnored | src/adapter/output/persistense/EmployeeFeedbackPersistenceAdapter.ts:89-101 | each of the six column filters and the search, set to the empty string, selects as if it were absent |
| Listing.SearchIgnoresCase | src/adapter/output/persistense/EmployeeFeedbackPersistenceAdapter.ts:101-111 | the search ignores case |
| Listing.SelectedWithinDates | src/adapter/output/persistense/EmployeeFeedbackPersistenceAdapter.ts:97-98 | a selected row has a valid response date on or after `dateFrom` and on or before `dateTo`, whichever are given |
| Feedback.NotAfterTotalOrder | src/adapter/output/persistense/EmployeeFeedbackPersistenceAdapter.ts:97-98 | the date comparison is a total order: reflexive, antisymmetric, transitive and total |
| Listing.DateBoundsInclusive | src/adapter/output/persistense/EmployeeFeedbackPersistenceAdapter.ts:89-112 | a stored row that passes the other filters and whose valid date lies within the given bounds, bound days included, is selected |
| Service.Create | src/application/services/EmployeeFeedbackService.ts:17-81 | a stored email gives the "E-mail já existe" bad request; otherwise a stored corporate email gives the "E-mail corporativo já existe" one; with both free, an invalid payload gives the bad request carrying exactly the validation diagnostics; success yields the payload's fields under the fresh id; failure leaves the table unchanged |
| Service.Forward | src/application/services/EmployeeFeedbackService.ts:102-114 | the listing parameters reach the store unchanged |
| Service.FindAll | src/application/services/EmployeeFeedbackService.ts:83-116 | the service answers with the store's page as is, and fails exactly when the store does |
| Service.FindById | src/application/services/EmployeeFeedbackService.ts:118-164 | succeeds exactly when a row has the id, answering with that stored row; otherwise the not-found error with its one diagnostic |
| Service.Update | src/application/services/EmployeeFeedbackService.ts:166-214 | a missing id gives not-found before validation; an invalid payload gives a bad request with the validation diagnostics; a valid payload for a stored id succeeds exactly when the merge of the stored row with it clashes with no other row; success answers with a stored row that has the path id; failure leaves the table unchanged |
| Service.Delete | src/application/services/EmployeeFeedbackService.ts:216-219 | a missing id gives not-found and changes nothing; otherwise exactly the rows with a different id remain |
| Service.CreateSucceedsIff | src/application/services/EmployeeFeedbackService.ts:17-81 | with a fresh id, `create` succeeds exactly when both emails are free and the payload validates; it fails only with bad requests and, on success, appends the new record as written |
| Service.CreateThenFindById | src/application/services/EmployeeFeedbackService.ts:80 | after `create`, `findById` finds a row with the answered record's id, its defined values, and NULL for each undefined one |
| Service.OperationsKeepWellFormed | src/adapter/output/persistense/entities/EmployeeFeedbackEntity.ts:8-18 | `create`, `update` and `delete` keep id, email and corporate email unique |
| Service.UpdateThenFindById | src/application/services/EmployeeFeedbackService.ts:166-214 | after a successful update, `findById` returns the stored record with every field the payload defines replaced |
| Service.UpdateClashIsOpaque | src/application/services/EmployeeFeedbackService.ts:205-213 | a valid update to another record's email is refused by the store's unique constraint, not by a bad request |
| Service.DeleteThenFindById | src/application/services/EmployeeFeedbackService.ts:216-219 | after a successful delete, `findById` fails with not-found and the table is one row shorter |
| CsvImport.LookupOr | src/config/database/insertDataConfig.ts:21 | the result is always one of the table's values or the fallback: the entry for the lower-cased key when there is one, the fallback otherwise |
| CsvImport.LookupIgnoresCase | src/config/database/insertDataConfig.ts:21 | a key, its upper-cased and its lower-cased forms find the same entry |
| CsvImport.MapAreaCases | src/config/database/insertDataConfig.ts:9-22 | the department lookup ignores case; an unknown name comes back unchanged |
| CsvImport.MapGenderCases | src/config/database/insertDataConfig.ts:24-31 | the gender lookup ignores case; an unknown value comes back upper-cased |
| CsvImport.MapCompanyTenureCases | src/config/database/insertDataConfig.ts:33-45 | the tenure lookup ignores case; an unknown band comes back unchanged |
| CsvImport.MapGenerationCases | src/config/database/insertDataConfig.ts:47-57 | the generation lookup ignores case; an unknown generation comes back unchanged |
| CsvImport.TenureAliases | src/config/database/insertDataConfig.ts:39-42 | "entre 2 e 5 anos" and "entre 4 e 5 anos" both map to `LESS_THAN_5_YEARS`, and "mais de 5 anos" maps to `LESS_THAN_8_YEARS` |
| CsvImport.GenerationAliases | src/config/database/insertDataConfig.ts:53-54 | "baby boomers" and "baby boomer" both map to `BABY_BOOMERS` |
| CsvImport.ParseNumber | src/config/database/insertDataConfig.ts:64-70 | a missing, empty, `-` or blank cell gives no number; any other cell gives what `parseInt` reads |
| CsvImport.ParseNumberNumeral | src/config/database/insertDataConfig.ts:64-70 | `parseNumber` reads back every integer numeral |
| CsvImport.ParseDateNumerals | src/config/database/insertDataConfig.ts:59-62 | `day/month/year` numerals give that date with a 0-based month |
| CsvImport.DateValue | src/config/database/insertDataConfig.ts:59-62 | the stored response date is the date `parseDate` reads, and an invalid date exactly when it reads none |
| CsvImport.BuildRecord | src/config/database/insertDataConfig.ts:132-165 | a record is built exactly when the needed headers are present; it has the given id, and each field holds the value its column mapping gives for the row |
| CsvImport.BuildRecordDate | src/config/database/insertDataConfig.ts:148 | the built record's response date is invalid exactly when `parseDate` cannot read the cell |
| CsvImport.BuildRecordEmails | src/config/database/insertDataConfig.ts:132-135 | a built record has the given id and the row's email; its corporate email is the `email_corporativo` cell when that is non-empty, and the email otherwise |
| CsvImport.TextDefaults | src/config/database/insertDataConfig.ts:143-164 | each of the five levels and eight comments is its cell when the cell is non-empty, and "" when it is missing or empty |
| CsvImport.RequiredScoreDefaults | src/config/database/insertDataConfig.ts:149-159 | each of the three required scores is the number its cell reads as, and 0 when `parseNumber` reads none |
| CsvImport.OptionalScoreDefaults | src/config/database/insertDataConfig.ts:151-163 | each of the five optional scores is the number its cell reads as, and undefined when `parseNumber` reads none |
| CsvImport.ImportRow | src/config/database/insertDataConfig.ts:115-181 | a row without a name or an email is skipped; so is a row whose email is already stored; a complete new row that cannot be built or has an unreadable date counts as an error; one whose built record clashes with nothing is inserted; an inserted row is appended as written and nothing else changes the table |
| CsvImport.DuplicateEmailSkipped | src/config/database/insertDataConfig.ts:123-130 | a row whose email is already stored is skipped and overwrites nothing |
| CsvImport.Screen | src/config/database/insertDataConfig.ts:119-181 | the skip rules come first; for a complete row with a new email, a record that cannot be built or has an invalid date is an error, a refused insert is a duplicate skip, and an accepted insert appends the written record; a row counts as inserted only then |
| CsvImport.ImportRowKeepsWellFormed | src/config/database/insertDataConfig.ts:167-181 | one import step keeps the unique constraints |
| CsvImport.ImportRows | src/config/database/insertDataConfig.ts:76-182 | a non-empty table is left alone; otherwise the final table and the inserted and error counts are exactly those of `ImportRow` applied to the lines in order, the table ends with one row per inserted line, the constraints keep holding, and inserted rows plus errors never exceed the data lines |

## Left out

- File and console I/O of the import are not modelled: reading `data.csv`, splitting lines on `\n` and `;`, and the log messages. A row is given as a map from header to trimmed cell. A header the file lacks is absent from the map.
- The import's missing id generation is not modelled. The entity has no generated primary key and the import sets none, so the model takes each row's id as a parameter.
- The enumerations in `src/domain/enums` are not part of this model. Their members are stand-in constants whose value is the member's name.
- The HTTP controller, the routes and the dependency injection are not part of this model.
- `async` scheduling and concurrent requests are not modelled. Each operation runs to completion on one table.
- Joi's e-mail syntax rule is the `isEmail` parameter.
- Schema.Check and Schema.RequiredDateAndScores do not model Joi's conversion of strings: a numeric string given as a score, or a date string given as the response date, is a text value and is refused. Joi converts and accepts them. A number given as the response date is modelled as Joi converts it. Either way the source keeps only the error from the validation and stores the payload as sent, unconverted, and so does the model.
- `NOT NULL` and enum column constraints of the database are not modelled. Only the unique constraints are. The `department`, `company_tenure` and `gender` columns are enums (`EmployeeFeedbackEntity.ts` lines 20, 32 and 35), so the database refuses a value outside the enumeration; and `findAll` with such a value as a filter fails at the database instead of selecting nothing, as the model has it.
- The `uuid` type of the id column (`EmployeeFeedbackEntity.ts` line 8) is not modelled. An id that is not a UUID makes every query on it fail at the database; in the model it is a plain string that is simply not found.
- Listing.FindAll takes page and limit as integers. The controller passes `parseInt` of the query string, so a non-numeric `page` or `limit` reaches `findAll` as `NaN`: the default does not apply to it, `skip` receives `NaN` and the source fails. The model has no `NaN`, so this failure is not modelled; fractional page or limit values are not modelled either.
- Row order in SQL is taken to be the natural order of the table, since the query has no `ORDER BY`.
- SQL `NULL` comparisons in filters are modelled only through values: a missing or `null` column equals no filter value.
- `ILIKE` wildcards `%` and `_` inside the search text are treated as plain characters.
- TypeORM's `findOne` with an `undefined` key value is modelled as plain equality. TypeORM would drop the condition instead.
- Strings.Lower and Strings.Upper cover Basic Latin and Latin-1 Supplement letters only. Other letters keep their case. `ß`, `ÿ` and `µ` keep theirs too, although JavaScript upper-cases `ß` to the two letters "SS" and maps `ÿ` and `µ` to letters outside Latin-1.
- Strings.ParseInt reads arbitrarily large integers exactly. JavaScript's `parseInt` rounds long digit runs to a double.
- CsvImport.ParseDate keeps day, 0-based month and year as read. JavaScript's `Date` would normalise out-of-range parts, map two-digit years to 19xx, and apply the local time zone.
- Persistence.Update: a table that breaks its unique constraints is outside the model (`requires WellFormed`). The database never holds one.
- Service.UpdateClashIsOpaque states only that some unique constraint refuses the update. When the payload also clashes on the corporate email, the source does not say which constraint the database reports first.
- Schema.Check and Schema.OptionalScores accept every safe integer as a score. The score columns are `int4`, so the database refuses a value beyond 32 bits that the schema lets through; that range check is not modelled.
- Schema.Check models numbers as integers. Fractional numbers, `NaN` and infinities are not modelled.
- CsvImport.LookupOr reads only the table's own keys. JavaScript also finds inherited keys such as "constructor" or "__proto__", whose truthy non-string values `||` would return.
- CsvImport.MapAreaCases inherits that limit: for an inherited key such as "constructor" or "toString" the source returns a non-string, not the name unchanged.
- CsvImport.MapGenderCases inherits that limit: for an inherited key the source returns a non-string, not the value upper-cased.
- CsvImport.MapCompanyTenureCases inherits that limit: for an inherited key the source returns a non-string, not the band unchanged.
- CsvImport.MapGenerationCases inherits that limit: for an inherited key the source returns a non-string, not the generation unchanged.
- CsvImport.MapGenderCases states that a gender comes back upper-cased. For a known gender this holds only because the stand-in enum values are upper-case names.
