# Employee management backend — a Dafny model

This project models the core of a small ASP.NET employee-management
backend. The backend keeps three tables: departments, positions and
employees. For each table it offers list, get-by-id, add, update and delete
endpoints, plus one that offers the next business code. Employees also have
a filtered, paged listing. The model covers:

- **Codes.** `CommonUtils.AutoGenerateCode` keeps the two-letter prefix
  ("PB", "VT", "NV"), parses the rest with `int.Parse`, adds one with C#'s
  unchecked wrap-around and writes it back with the `D5` format.
  `IntParse.ParseInt32` models `int.Parse` with its default
  `NumberStyles.Integer`: white space around the number, an optional sign,
  ASCII digits, and a value that fits in an `int`. So "PB-0005" steps to
  "PB-00004" and "PB 7" to "PB00008". The code
  offered for a new row is that successor of the greatest stored code, in
  string order, or of the table's default seed when the table is empty.
- **Validators.** The FluentValidation rules behind each entity: `NotEmpty`
  as `string.IsNullOrWhiteSpace`, the anchored `^XX\d{5}$` pattern, the
  uniqueness lookup against storage, `EmailAddress()` and
  `LessThan(DateTime.Now)`. `ValidationUtils.ExtractErrors` groups the
  failures into the per-property error map the client receives.
- **Repositories.** Each table is a `map<Guid, Entity>`. `INSERT` uses a
  fresh identifier. `UPDATE` stamps `ModifiedDate` and overwrites every
  column by id. `DELETE` is unconditional. The employee listing filters,
  orders by code and returns one page with its counts.
- **Controllers.** Each endpoint becomes a function from the table and the
  request to the response envelope (`SuccessResponse` / `ErrorResponse`
  with its code, message, errors and metadata). Endpoints that write also
  return the table afterwards.

The validators' cascade is modelled as the code has it. The chains do not
set a cascade mode, so FluentValidation's default `Continue` applies: every
check of a chain runs, and one field can collect several messages. For
example, a blank code gets both the "empty" and the "invalid" message.
No check in a chain stops the checks after it.

Inputs the model cannot compute are parameters:

- `now` is `DateTime.Now` when a row is updated.
- `validatedAt` is the instant the employee validator was built. Its
  `LessThan(DateTime.Now)` reads the clock then.
- `freshId` is `Guid.NewGuid()`.
- `isEmail` is the `EmailAddress()` check.
- `like` is SQL `LIKE '%filter%'`.

Functions that enumerate a table are `ghost`: listing all rows, the
greatest code, and the ordered page.

Modules, in dependency order:

- Base modules: `Wrappers`, `Decimal` (decimal numerals, `D5`, Int32
  wrap), `IntParse` (`int.Parse`),
  `Guids` (the "D" text format and `Guid.TryParse` on that format), `Ordering`, `Models`,
  `Tables`, `ValidationRules`, `ValidatorUtils`, `CommonUtils`,
  `CodeColumn`, `Paging`, `Envelope`.
- Per entity, one validator, one repository and one controller module.

## Model

| member | source | states |
|---|---|---|
| Decimal.WrapInt32 | Utils/CommonUtils.cs:7 | The `int` addition wraps: the result is always in Int32 range, is unchanged when already in range, and Int32.MaxValue + 1 becomes Int32.MinValue |
| Decimal.FormatD5 | Utils/CommonUtils.cs:8 | `D5` writes the magnitude's digits zero-padded to five places and no wider than the number needs, after "-" for a negative number; the digits read back as the magnitude, and below 100000 the text is exactly five digits |
| Decimal.ParseDecimalInjective | Utils/CommonUtils.cs:8 | Two digit strings of one length with the same value are the same string |
| Decimal.D5TextUnique | Utils/CommonUtils.cs:8 | The width, sign and read-back value together fix the `D5` text: one string per number |
| Decimal.FormatD5Int32Min | Utils/CommonUtils.cs:7-8 | The wrapped successor of Int32.MaxValue, Int32.MinValue, prints as "-2147483648" |
| Decimal.PadRoundTrip | Utils/CommonUtils.cs:6-8 | Parsing the zero-padded text of a number gives the number back |
| Decimal.LexLeIsNumericLe | Repositories/DepartmentRepository.cs:27 | For digit strings of equal length, string order (what `ORDER BY` uses) is numeric order, in both directions |
| IntParse.ParseInt32 | Utils/CommonUtils.cs:7 | `int.Parse` either fails or returns a value in Int32 range |
| IntParse.ParseIntegerText | Utils/CommonUtils.cs:7 | Every text made of white space, an optional "+" or "-", one or more ASCII digits and white space parses to the signed value of the digits when that fits in an `int`, and fails otherwise |
| IntParse.ParsedIsIntegerText | Utils/CommonUtils.cs:7 | Conversely, every text that parses splits into white space, an optional sign, digits and white space, and the result is the signed value of the digits |
| IntParse.ParseDigits | Utils/CommonUtils.cs:7 | A bare run of digits whose value fits in an `int` parses to that value |
| IntParse.FormatD5RoundTrip | Utils/CommonUtils.cs:7-8 | What `D5` writes for any `int`, negative ones included, `int.Parse` reads back as the same number |
| IntParse.TrimStartPast | Utils/CommonUtils.cs:7 | Leading white space before the number is skipped |
| IntParse.TrimEndPast | Utils/CommonUtils.cs:7 | Trailing white space after the number is skipped |
| CommonUtils.AutoGenerateCode | Utils/CommonUtils.cs:4-9 | Defined exactly when the code has two characters and `int.Parse` accepts the rest (signs and surrounding white space included). The successor keeps the two-character prefix, has at least seven characters, and its suffix is exactly the `D5` text of the seed's number plus one with 32-bit wrap-around, which parses back to that number; from Int32.MaxValue it becomes "-2147483648" |
| CommonUtils.NegativeSuffixSteps | Utils/CommonUtils.cs:4-9 | A signed suffix is read and written back with its sign: "XX-0005" steps to "XX-00004" |
| CommonUtils.PaddedSuffixSteps | Utils/CommonUtils.cs:4-9 | White space around the suffix is skipped: "XX 7" steps to "XX00008" |
| CommonUtils.StepsTo | Utils/CommonUtils.cs:4-9 | Once the successor's `D5` text is known, the generated code is the prefix followed by that text |
| CommonUtils.NextFiveDigitCode | Utils/CommonUtils.cs:4-9 | A prefix and five digits below 99999 steps to the same prefix and the next value, again exactly five digits and matching the validators' pattern |
| CommonUtils.AdvanceFromZero | Utils/CommonUtils.cs:4-9 | Generating k times from prefix + "00000" reaches prefix + k in five digits: the generator counts |
| CommonUtils.OverflowsFiveDigits | Utils/CommonUtils.cs:4-9 | After prefix + "99999" comes the eight-character prefix + "100000", which no validator pattern accepts |
| CommonUtils.FirstCode | Utils/CommonUtils.cs:4-9 | A seed of prefix and one to five zeros (the defaults "PB0000", "VT00000", "NV00000") steps to prefix + "00001" |
| Guids.ToString | Controllers/DepartmentController.cs:53 | An identifier prints as 36 characters with hyphens at positions 8, 13, 18 and 23 |
| Guids.TryParse | Controllers/DepartmentController.cs:53 | For the hyphenated "D" format only: parsing succeeds only on that shape with hex digits, and yields the value of the digits |
| Guids.ToStringRoundTrip | Controllers/DepartmentController.cs:53 | Every identifier's text parses back to the identifier |
| Envelope.IdAlwaysParses | Controllers/DepartmentController.cs:53-60 | The "invalid uuid" guard of every by-id endpoint can never fire |
| Ordering.SortBy | Repositories/EmployeeRepository.cs:63 | `ORDER BY`: every element of the set exactly once, with keys never decreasing |
| Ordering.Greatest | Repositories/DepartmentRepository.cs:27 | `ORDER BY ... DESC LIMIT 1`: a member of the set that no other member exceeds |
| Tables.Find | Repositories/DepartmentRepository.cs:41-46 | The lookup finds a row exactly when the key is stored, and then it is that row |
| Tables.Insert | Repositories/DepartmentRepository.cs:48-75 | An insert adds exactly one key, stores the row under it, and leaves every other row alone |
| Tables.Overwrite | Repositories/DepartmentRepository.cs:77-95 | An update by key keeps the key set, replaces the matching row if there is one, and leaves every other row alone |
| Tables.Remove | Repositories/DepartmentRepository.cs:97-102 | A delete removes exactly that key and leaves every other row alone |
| Tables.RemoveIdempotent | Repositories/DepartmentRepository.cs:97-102 | Deleting twice equals deleting once; deleting a missing key changes nothing |
| Tables.AllRows | Repositories/DepartmentRepository.cs:34-39 | Listing gives every stored row and only stored rows, as many as there are keys |
| CodeColumn.CodeExists | Repositories/DepartmentRepository.cs:17-23 | `COUNT(1) > 0` holds exactly when some stored row carries the code |
| CodeColumn.LatestCode | Repositories/DepartmentRepository.cs:27-28 | No row on an empty table; otherwise a stored code that no stored code exceeds |
| CodeColumn.NextCode | Repositories/DepartmentRepository.cs:25-32 | The offered code is the successor of a greatest stored code, or of the default on an empty table; it fails exactly when `int.Parse` throws on that seed's suffix |
| CodeColumn.NextCodeFresh | Repositories/DepartmentRepository.cs:25-32 | While stored codes are prefix + five digits below 99999, the offered code has that shape, exceeds every stored code and is not yet stored |
| CodeColumn.NextAfter | Utils/CommonUtils.cs:4-9 | A well-formed code below the last steps to a well-formed code of value one more |
| CodeColumn.StoredAtMostLatest | Repositories/DepartmentRepository.cs:27 | Among well-formed codes, the greatest in string order also has the greatest value |
| ValidationRules.CodePatternShape | Validators/DepartmentValidator.cs:16 | `^PB\d{5}$` accepts exactly the prefix followed by five ASCII digits |
| ValidationRules.BlankFailsCodePattern | Validators/DepartmentValidator.cs:13-17 | A blank code also fails the pattern, so the "empty" message never comes alone |
| ValidatorUtils.FailureIf | Validators/DepartmentValidator.cs:14-15 | A check yields at most one failure, filed under its rule's property |
| ValidatorUtils.FailedMessages | Validators/DepartmentValidator.cs:13-19 | A chain under the `Continue` cascade reports no message exactly when every link passes, and never more messages than links |
| ValidatorUtils.RunRule | Validators/DepartmentValidator.cs:13-19 | One rule's failures all carry its property, and there are none exactly when its chain passes |
| ValidatorUtils.RunRules | Validators/DepartmentValidator.cs:13-22 | A validator fails nothing exactly when every chain passes, and files failures only under its rules' properties |
| ValidatorUtils.RunRuleMessages | Validators/DepartmentValidator.cs:13-19 | The messages one rule files under a property are the failed links of its chain, in order, and nothing under any other property |
| ValidatorUtils.RunRulesMessages | Validators/DepartmentValidator.cs:13-22 | With distinct properties, the messages under a rule's property are exactly its chain's failed links, in chain order |
| ValidatorUtils.RunRulesHead | Validators/DepartmentValidator.cs:13-22 | With distinct properties, the first rule's property carries exactly its own chain's failed links |
| ValidatorUtils.RunRulesSkipHead | Validators/DepartmentValidator.cs:13-22 | Under any property other than the first rule's, the first rule adds no message |
| ValidatorUtils.GroupedRules | Validators/DepartmentValidator.cs:13-22 | After grouping, a rule's property has an entry exactly when some link failed, holding those messages in chain order |
| ValidatorUtils.AddError | Utils/ValidatorUtils.cs:9-13 | One failure creates its property's list or appends to it, touching no other entry |
| ValidatorUtils.ExtractErrors | Utils/ValidatorUtils.cs:6-16 | No list in the map is empty, and the map is empty exactly when there are no failures |
| ValidatorUtils.ExtractErrorsStep | Utils/ValidatorUtils.cs:8-14 | Processing one more failure changes only its own property's entry, appending its message |
| ValidatorUtils.ExtractErrorsGroups | Utils/ValidatorUtils.cs:6-16 | The keys are exactly the property names among the failures, and each list is that property's messages in original order |
| ValidatorUtils.KeyIffFailure | Utils/ValidatorUtils.cs:6-16 | A property has an entry exactly when some failure names it |
| ValidatorUtils.TotalMessages | Utils/ValidatorUtils.cs:6-16 | The lists together hold every failure exactly once: their lengths add up to the number of failures |
| DepartmentValidator.Validate | Validators/DepartmentValidator.cs:13-22 | A department passes exactly when its code is "PB" and five digits and not yet stored and its name is not blank |
| DepartmentValidator.RulesPass | Validators/DepartmentValidator.cs:13-22 | Both chains pass exactly when the code is well formed and unused and the name is not blank |
| DepartmentValidator.ChainMessages | Validators/DepartmentValidator.cs:13-22 | Each chain reports exactly its failed checks, in declaration order |
| DepartmentValidator.GroupedErrors | Validators/DepartmentValidator.cs:13-22 | The client sees a code entry exactly when the code is malformed or stored, listing blank, format and duplicate messages in that order, and a name entry exactly when the name is blank |
| DepartmentValidator.StoredCodeRejected | Validators/DepartmentValidator.cs:18-19 | A stored code always draws the "already exists" message |
| PositionValidator.Validate | Validators/PositionValidator.cs:13-22 | A position passes exactly when its code is "VT" and five digits and not yet stored and its name is not blank |
| PositionValidator.RulesPass | Validators/PositionValidator.cs:13-22 | Both chains pass exactly when the code is well formed and unused and the name is not blank |
| PositionValidator.ChainMessages | Validators/PositionValidator.cs:13-22 | Each chain reports exactly its failed checks, in declaration order |
| PositionValidator.GroupedErrors | Validators/PositionValidator.cs:13-22 | Code and name entries appear exactly when their checks fail, with messages in declaration order |
| PositionValidator.StoredCodeRejected | Validators/PositionValidator.cs:18-19 | A stored code always draws the "already exists" message |
| EmployeeValidator.Validate | Validators/EmployeeValidator.cs:13-45 | An employee passes exactly when the code is "NV" and five digits and unused, the four text fields are not blank, the e-mail is well formed, both references are non-empty and each date present is before the validator's instant |
| EmployeeValidator.ChainPasses | Validators/EmployeeValidator.cs:13-45 | Each of the nine chains reports nothing exactly when its own checks pass |
| EmployeeValidator.RulesPass | Validators/EmployeeValidator.cs:13-45 | All nine chains pass exactly when no check failed |
| EmployeeValidator.RuleProperties | Validators/EmployeeValidator.cs:13-45 | The nine rules name nine distinct properties, in declaration order |
| EmployeeValidator.CodeRuleMessages | Validators/EmployeeValidator.cs:13-19 | The code chain reports blank, format and duplicate failures in that order |
| EmployeeValidator.EmailRuleMessages | Validators/EmployeeValidator.cs:23-27 | The e-mail chain reports the blank failure before the format failure |
| EmployeeValidator.Entry | Validators/EmployeeValidator.cs:13-45 | After grouping, each rule's property has an entry exactly when its chain failed, holding its failed messages |
| EmployeeValidator.CodeErrors | Validators/EmployeeValidator.cs:13-19 | The code entry is present unless the code is well formed and unused, and lists blank, format and duplicate messages in order |
| EmployeeValidator.EmailErrors | Validators/EmployeeValidator.cs:23-27 | The e-mail entry is present exactly when the e-mail is blank or malformed, the blank message first |
| EmployeeValidator.FullNameErrors | Validators/EmployeeValidator.cs:20-22 | The full name is reported, with its own message, exactly when blank |
| EmployeeValidator.PhoneNumberErrors | Validators/EmployeeValidator.cs:28-30 | The phone number is reported exactly when blank |
| EmployeeValidator.IdentityNumberErrors | Validators/EmployeeValidator.cs:31-33 | The identity number is reported exactly when blank |
| EmployeeValidator.ReferenceErrors | Validators/EmployeeValidator.cs:34-39 | The department and position references are reported exactly when they are the empty Guid |
| EmployeeValidator.DateErrors | Validators/EmployeeValidator.cs:40-45 | A date is reported exactly when present and not strictly before the validator's instant |
| EmployeeValidator.ReferencesNotLookedUp | Validators/EmployeeValidator.cs:34-39 | Any non-empty department and position identifiers give the same failures, stored or not: the references are not checked against their tables |
| EmployeeValidator.StoredCodeRejected | Validators/EmployeeValidator.cs:18-19 | A stored code always draws the "already exists" message |
| DepartmentRepository.CheckDepartmentCodeExist | Repositories/DepartmentRepository.cs:17-23 | True exactly when some stored department carries the code |
| DepartmentRepository.CreateNewDepartmentCode | Repositories/DepartmentRepository.cs:25-32 | "PB00001" on an empty table; otherwise the successor of a greatest stored code, failing exactly when `int.Parse` throws on that code's suffix |
| DepartmentRepository.FirstSeed | Repositories/DepartmentRepository.cs:11 | The four-digit default "PB0000" still steps to "PB00001" |
| DepartmentRepository.GetAllDepartments | Repositories/DepartmentRepository.cs:34-39 | One entry per stored row, as many as there are ids, and every entry a stored department |
| DepartmentRepository.GetDepartment | Repositories/DepartmentRepository.cs:41-46 | The row stored under the id, or nothing exactly when none is |
| DepartmentRepository.AddDepartment | Repositories/DepartmentRepository.cs:48-75 | The row is stored under the fresh id, which replaces the client's id; other rows are untouched |
| DepartmentRepository.UpdateDepartment | Repositories/DepartmentRepository.cs:77-95 | The row under the body's id becomes the body stamped with `now`, creation fields included; other rows are untouched; no match changes nothing |
| DepartmentRepository.DeleteDepartment | Repositories/DepartmentRepository.cs:97-102 | Exactly that id is removed, if present |
| DepartmentRepository.AddThenGet | Repositories/DepartmentRepository.cs:41-75 | An added row reads back under its fresh id; the table grows by one and stays keyed by row id |
| DepartmentRepository.UpdateThenGet | Repositories/DepartmentRepository.cs:41-95 | An updated row reads back as the stamped body; a missing id changes nothing; the table stays keyed by row id |
| DepartmentRepository.DeleteIdempotent | Repositories/DepartmentRepository.cs:97-102 | After a delete the row is not found; deleting again or deleting a missing row changes nothing |
| DepartmentRepository.NewCodeFresh | Repositories/DepartmentRepository.cs:25-32 | While stored codes are "PB" and five digits below 99999, the offered code is well formed and not yet stored |
| PositionRepository.CheckPositionCodeExist | Repositories/PositionRepository.cs:17-23 | True exactly when some stored position carries the code |
| PositionRepository.CreateNewPositionCode | Repositories/PositionRepository.cs:25-32 | "VT00001" on an empty table; otherwise the successor of a greatest stored code, failing exactly when `int.Parse` throws on that code's suffix |
| PositionRepository.FirstSeed | Repositories/PositionRepository.cs:11 | The default "VT00000" steps to "VT00001" |
| PositionRepository.GetAllPositions | Repositories/PositionRepository.cs:34-39 | One entry per stored row, as many as there are ids, and every entry a stored position |
| PositionRepository.GetPosition | Repositories/PositionRepository.cs:41-46 | The row stored under the id, or nothing exactly when none is |
| PositionRepository.AddPosition | Repositories/PositionRepository.cs:48-75 | The row is stored under the fresh id; other rows are untouched |
| PositionRepository.UpdatePosition | Repositories/PositionRepository.cs:77-95 | The row under the body's id becomes the body stamped with `now`; other rows are untouched |
| PositionRepository.DeletePosition | Repositories/PositionRepository.cs:97-102 | Exactly that id is removed, if present |
| PositionRepository.AddThenGet | Repositories/PositionRepository.cs:41-75 | An added row reads back under its fresh id; the table grows by one |
| PositionRepository.UpdateThenGet | Repositories/PositionRepository.cs:41-95 | An updated row reads back as the stamped body; a missing id changes nothing |
| PositionRepository.DeleteIdempotent | Repositories/PositionRepository.cs:97-102 | After a delete the row is not found; deleting again changes nothing |
| PositionRepository.NewCodeFresh | Repositories/PositionRepository.cs:25-32 | While stored codes are "VT" and five digits below 99999, the offered code is well formed and not yet stored |
| EmployeeRepository.CheckEmployeeCodeExist | Repositories/EmployeeRepository.cs:20-26 | True exactly when some stored employee carries the code |
| EmployeeRepository.CreateNewEmployeeCode | Repositories/EmployeeRepository.cs:28-35 | "NV00001" on an empty table; otherwise the successor of a greatest stored code, failing exactly when `int.Parse` throws on that code's suffix |
| EmployeeRepository.FirstSeed | Repositories/EmployeeRepository.cs:12 | The default "NV00000" steps to "NV00001" |
| EmployeeRepository.GetAllEmployees | Repositories/EmployeeRepository.cs:37-42 | One entry per stored row, as many as there are ids, and every entry a stored employee |
| EmployeeRepository.GetEmployee | Repositories/EmployeeRepository.cs:79-84 | The row stored under the id, or nothing exactly when none is |
| EmployeeRepository.AddEmployee | Repositories/EmployeeRepository.cs:86-139 | The row is stored under the fresh id; other rows are untouched |
| EmployeeRepository.UpdateEmployee | Repositories/EmployeeRepository.cs:141-172 | The row under the body's id becomes the body stamped with `now`; other rows are untouched |
| EmployeeRepository.DeleteEmployee | Repositories/EmployeeRepository.cs:174-179 | Exactly that id is removed, if present |
| EmployeeRepository.AddThenGet | Repositories/EmployeeRepository.cs:79-139 | An added row reads back under its fresh id; the table grows by one |
| EmployeeRepository.UpdateThenGet | Repositories/EmployeeRepository.cs:79-172 | An updated row reads back as the stamped body; a missing id changes nothing |
| EmployeeRepository.DeleteIdempotent | Repositories/EmployeeRepository.cs:174-179 | After a delete the row is not found; deleting again changes nothing |
| EmployeeRepository.NewCodeFresh | Repositories/EmployeeRepository.cs:28-35 | While stored codes are "NV" and five digits below 99999, the offered code is well formed and not yet stored |
| EmployeeRepository.OrderedRows | Repositories/EmployeeRepository.cs:63 | The rows of a set of ids ordered by code: one row per id, every row drawn from the set, codes never decreasing |
| EmployeeRepository.TextMatches | Repositories/EmployeeRepository.cs:48-51 | The text filter: skipped when absent or empty (`string.IsNullOrEmpty`), otherwise the full name or the code is `LIKE '%filter%'` |
| EmployeeRepository.MatchesQuery | Repositories/EmployeeRepository.cs:47-58 | The `WHERE` clause: the text filter, then the department and position filters, each applied only when present |
| EmployeeRepository.OrderedMatches | Repositories/EmployeeRepository.cs:47-63 | Exactly the rows the `WHERE` clause selects, each once, in code order |
| EmployeeRepository.GetFilteredEmployees | Repositories/EmployeeRepository.cs:44-77 | The total counts every match; the page count is the ceiling of total over page size; the requested page number (default 1) is echoed; the page is that slice of the ordered matches and holds at most the page size (default 20) |
| EmployeeRepository.PageRowsMatch | Repositories/EmployeeRepository.cs:47-66 | Every row on a page is stored and passes every filter present, and the page is in code order |
| EmployeeRepository.EveryMatchPaged | Repositories/EmployeeRepository.cs:60-73 | Every matching row appears on some page numbered between 1 and the page count, with pages cut from the model's one ordered list |
| EmployeeRepository.PagingKeepsOrder | Repositories/EmployeeRepository.cs:60-65 | In the model, asking for another page does not change which rows match or their order |
| EmployeeRepository.OrderedMatchesDistinct | Repositories/EmployeeRepository.cs:60-66 | With unique codes, no row is listed twice |
| EmployeeRepository.DatabaseOrderIsModelOrder | Repositories/EmployeeRepository.cs:63 | With unique codes, any result of `ORDER BY EmployeeCode` over the matches (every matching row once, codes never decreasing) equals the model's ordered matches, so every page query cuts the same list |
| EmployeeRepository.SameRows | Repositories/EmployeeRepository.cs:60-66 | Two listings that each list every row under the same ids, and only those, hold the same rows |
| EmployeeRepository.CodesTellRowsApart | Repositories/EmployeeRepository.cs:63 | With unique codes, two listed rows with the same code are the same row |
| Ordering.SortedUnique | Repositories/EmployeeRepository.cs:63 | When no two elements share a key, two sequences of the same elements, each once and sorted by key, are equal: the order is forced |
| EmployeeRepository.BeyondLastPage | Repositories/EmployeeRepository.cs:64-73 | A page past the last is empty but still reports the totals and the requested page number |
| EmployeeRepository.EmptyFilterIsNoFilter | Repositories/EmployeeRepository.cs:48-51 | An empty text filter gives the same result as no text filter |
| Paging.CeilDiv | Repositories/EmployeeRepository.cs:71 | The page count is the least number of pages that hold all rows, and zero exactly when there are no rows |
| Paging.Page | Repositories/EmployeeRepository.cs:63-65 | `LIMIT size OFFSET (number - 1) * size`: at most `size` rows, the ones right after the skipped rows, empty past the end |
| Paging.RowOnItsPage | Repositories/EmployeeRepository.cs:63-71 | Row k sits on page k / size + 1, within the page count |
| Paging.EveryRowPaged | Repositories/EmployeeRepository.cs:63-71 | Every row is on some page within the page count |
| Paging.PageBeyondLast | Repositories/EmployeeRepository.cs:63-71 | Pages after the last are empty; pages before the last are full |
| Paging.PageSorted | Repositories/EmployeeRepository.cs:63 | A page of a sorted sequence is sorted |
| DepartmentController.CodeLookup | Validators/DepartmentValidator.cs:18 | The validator's lookup is true exactly when some stored row carries the code |
| DepartmentController.GetAllDepartments | Controllers/DepartmentController.cs:23-35 | 200 with every stored department, as many entries as there are ids, and no entry that is not stored |
| DepartmentController.CreateNewDepartmentCode | Controllers/DepartmentController.cs:37-49 | 200 with the offered code exactly when `int.Parse` accepts the seed's suffix; otherwise the middleware's generic 500 envelope |
| DepartmentController.GetDepartment | Controllers/DepartmentController.cs:51-79 | 400 only if the uuid guard fails; past it, 404 exactly when the row is missing and 200 with the row otherwise |
| DepartmentController.AddDepartment | Controllers/DepartmentController.cs:81-106 | 201 exactly when the validator accepts, the row stored under the fresh id; otherwise 400 with the grouped errors and nothing stored |
| DepartmentController.UpdateDepartment | Controllers/DepartmentController.cs:108-144 | Past the uuid guard, 404 for a missing row before any validation; otherwise success exactly when the validator accepts, storing the body under the path id |
| DepartmentController.DeleteDepartment | Controllers/DepartmentController.cs:146-170 | Past the uuid guard, 404 for a missing row; otherwise the row is removed |
| DepartmentController.GetOutcome | Controllers/DepartmentController.cs:51-79 | Get never answers 400; it answers 404 exactly when the row is missing and 200 with the row exactly when present |
| DepartmentController.AddThenGet | Controllers/DepartmentController.cs:51-106 | An accepted department reads back through the get endpoint under its fresh id |
| DepartmentController.AddStoredCodeRejected | Controllers/DepartmentController.cs:83-93 | A stored code is turned away with 400 and the "already exists" message, and nothing is stored |
| DepartmentController.OfferedCodeAccepted | Controllers/DepartmentController.cs:81-106 | A department with the offered code and a name is accepted with 201, while stored codes are well formed |
| DepartmentController.AddKeepsCodesUnique | Controllers/DepartmentController.cs:81-106 | Adding keeps the department codes unique |
| DepartmentController.UpdateOutcome | Controllers/DepartmentController.cs:108-144 | 404 and no change for a missing row; 200 storing the body under the path id, stamped with `now`, for an accepted body, leaving other rows alone; 400 and no change otherwise |
| DepartmentController.DeleteOutcome | Controllers/DepartmentController.cs:146-170 | 200 exactly when the row existed; only that row is removed; a get afterwards answers 404 |
| DepartmentController.UpdateKeepingCodeRejected | Controllers/DepartmentController.cs:126-136 | As written, an update keeping the row's own code is always answered 400 "already exists" and nothing is stored |
| DepartmentController.CodeLookupExcept | Controllers/DepartmentController.cs:126 | The intended lookup answers as the repository's code check run on the table with the row being updated deleted, that is, some other row carries the code |
| DepartmentController.UpdateDepartmentExcludingSelf | Controllers/DepartmentController.cs:108-144 | The corrected update: as the endpoint, but the uniqueness rule ignores the row being updated |
| DepartmentController.KeepingCodeAccepted | Controllers/DepartmentController.cs:126-143 | With the correction, keeping the row's own well-formed code with a name is accepted and stored |
| DepartmentController.CorrectedUpdateKeepsCodesUnique | Controllers/DepartmentController.cs:126-143 | The corrected update keeps the department codes unique |
| PositionController.CodeLookup | Validators/PositionValidator.cs:18 | The validator's lookup is true exactly when some stored row carries the code |
| PositionController.GetAllPositions | Controllers/PositionController.cs:23-35 | 200 with every stored position, as many entries as there are ids, and no entry that is not stored |
| PositionController.CreateNewPositionCode | Controllers/PositionController.cs:37-49 | 200 with the offered code exactly when `int.Parse` accepts the seed's suffix; otherwise the generic 500 envelope |
| PositionController.GetPosition | Controllers/PositionController.cs:51-79 | 400 only if the uuid guard fails; past it, 404 exactly when the row is missing and 200 with the row otherwise |
| PositionController.AddPosition | Controllers/PositionController.cs:81-106 | 201 exactly when the validator accepts; otherwise 400 with the grouped errors and nothing stored |
| PositionController.UpdatePosition | Controllers/PositionController.cs:108-144 | Past the uuid guard, 404 for a missing row before validation; otherwise success exactly when the validator accepts, storing the body under the path id |
| PositionController.DeletePosition | Controllers/PositionController.cs:146-170 | Past the uuid guard, 404 for a missing row; otherwise the row is removed |
| PositionController.GetOutcome | Controllers/PositionController.cs:51-79 | Get never answers 400; 404 exactly when missing, 200 with the row exactly when present |
| PositionController.AddThenGet | Controllers/PositionController.cs:51-106 | An accepted position reads back under its fresh id |
| PositionController.AddStoredCodeRejected | Controllers/PositionController.cs:83-93 | A stored code is turned away with 400 and the "already exists" message |
| PositionController.OfferedCodeAccepted | Controllers/PositionController.cs:81-106 | A position with the offered code and a name is accepted, while stored codes are well formed |
| PositionController.AddKeepsCodesUnique | Controllers/PositionController.cs:81-106 | Adding keeps the position codes unique |
| PositionController.UpdateOutcome | Controllers/PositionController.cs:108-144 | 404 and no change for a missing row; an accepted body stored under the path id; 400 and no change otherwise |
| PositionController.DeleteOutcome | Controllers/PositionController.cs:146-170 | 200 exactly when the row existed; only that row is removed |
| PositionController.UpdateKeepingCodeRejected | Controllers/PositionController.cs:126-136 | As written, an update keeping the row's own code is always rejected with "already exists" |
| PositionController.CodeLookupExcept | Controllers/PositionController.cs:126 | The intended lookup answers as the repository's code check run on the table with the row being updated deleted, that is, some other row carries the code |
| PositionController.UpdatePositionExcludingSelf | Controllers/PositionController.cs:108-144 | The corrected update |
| PositionController.KeepingCodeAccepted | Controllers/PositionController.cs:126-143 | With the correction, keeping the row's own code is accepted |
| PositionController.CorrectedUpdateKeepsCodesUnique | Controllers/PositionController.cs:126-143 | The corrected update keeps the position codes unique |
| EmployeeController.CodeLookup | Validators/EmployeeValidator.cs:18 | The validator's lookup is true exactly when some stored row carries the code |
| EmployeeController.GetAllEmployees | Controllers/EmployeeController.cs:23-35 | 200 with every stored employee, as many entries as there are ids, and no entry that is not stored |
| EmployeeController.GetFilteredEmployees | Controllers/EmployeeController.cs:37-95 | The guards run in order (empty department id, empty position id, page size not positive, page number not positive), each answering 400 with its own message; a query passing them all gets 200 with the repository's page |
| EmployeeController.FilterOutcome | Controllers/EmployeeController.cs:37-95 | 400 exactly when a guard fails; on success the page's rows all match and are in code order, the total counts all matches and the page holds at most the page size |
| EmployeeController.CreateNewEmployeeCode | Controllers/EmployeeController.cs:97-109 | 200 with the offered code exactly when `int.Parse` accepts the seed's suffix; otherwise the generic 500 envelope |
| EmployeeController.GetEmployee | Controllers/EmployeeController.cs:111-139 | 400 only if the uuid guard fails; past it, 404 exactly when the row is missing and 200 with the row otherwise |
| EmployeeController.AddEmployee | Controllers/EmployeeController.cs:141-166 | 201 exactly when the validator accepts; otherwise 400 with the grouped errors and nothing stored |
| EmployeeController.UpdateEmployee | Controllers/EmployeeController.cs:168-204 | Past the uuid guard, 404 for a missing row before validation; otherwise success exactly when the validator accepts, storing the body under the path id |
| EmployeeController.DeleteEmployee | Controllers/EmployeeController.cs:206-230 | Past the uuid guard, 404 for a missing row; otherwise the row is removed |
| EmployeeController.GetOutcome | Controllers/EmployeeController.cs:111-139 | Get never answers 400; 404 exactly when missing, 200 with the row exactly when present |
| EmployeeController.AddThenGet | Controllers/EmployeeController.cs:111-166 | An accepted employee reads back under its fresh id |
| EmployeeController.AddStoredCodeRejected | Controllers/EmployeeController.cs:143-153 | A stored code is turned away with 400 and the "already exists" message |
| EmployeeController.OfferedCodeAccepted | Controllers/EmployeeController.cs:141-166 | An employee with the offered code and otherwise valid fields is accepted, while stored codes are well formed |
| EmployeeController.AddKeepsCodesUnique | Controllers/EmployeeController.cs:141-166 | Adding keeps the employee codes unique |
| EmployeeController.UpdateOutcome | Controllers/EmployeeController.cs:168-204 | 404 and no change for a missing row; an accepted body stored under the path id, stamped with `now`; 400 and no change otherwise |
| EmployeeController.DeleteOutcome | Controllers/EmployeeController.cs:206-230 | 200 exactly when the row existed; only that row is removed |
| EmployeeController.UpdateKeepingCodeRejected | Controllers/EmployeeController.cs:186-196 | As written, an update keeping the row's own code is always rejected with "already exists" |
| EmployeeController.CodeLookupExcept | Controllers/EmployeeController.cs:186 | The intended lookup answers as the repository's code check run on the table with the row being updated deleted, that is, some other row carries the code |
| EmployeeController.UpdateEmployeeExcludingSelf | Controllers/EmployeeController.cs:168-204 | The corrected update |
| EmployeeController.KeepingCodeAccepted | Controllers/EmployeeController.cs:186-203 | With the correction, keeping the row's own code with otherwise valid fields is accepted |
| EmployeeController.CorrectedUpdateKeepsCodesUnique | Controllers/EmployeeController.cs:186-203 | The corrected update keeps the employee codes unique |

## Left out

- HTTP routing, model binding, JSON serialisation and the `Location` header of `CreatedAtAction`. Each endpoint is a function from the request's values to the response envelope.
- ASP.NET's automatic model-state validation under `[ApiController]` is not modelled. Where nullable reference types make a `required string` property implicitly `[Required]`, the framework answers a missing or blank value with its own 400 `ValidationProblemDetails` before the action runs. That would come before the 404 check of an update and before the FluentValidation errors, so the model's envelopes and 404 outcomes describe requests that get past that step.
- The middleware writes its envelope (code 500) without setting the HTTP status. Only the envelope is modelled.
- MySQL, Dapper and connections. A table is an in-memory `map<Guid, Entity>`, and each statement is one map operation.
- `async` and concurrency. The check-then-insert race between two requests that validate the same code at once is not modelled.
- `EmailAddress()` is the parameter `isEmail`. FluentValidation's e-mail syntax is not part of this model.
- SQL `LIKE '%filter%'` and the column collation are the parameter `like`. `%` and `_` in the filter are passed through unescaped, as the code does. `ORDER BY` compares characters by code point, where the database uses its collation.
- CodeColumn.CodeExists: codes are compared as exact strings. The source's `WHERE <code column> = @Code` compares under the column collation, which for MySQL's default is case- and accent-insensitive, so a stored "PB00001" would also match "pb00001" there. The uniqueness checks built on it (`CodeLookup`, `CodeLookupExcept`, the validators' `StoredCodeRejected`) inherit this.
- DepartmentRepository.CheckDepartmentCodeExist: compares codes as exact strings, not under the column collation, as for `CodeColumn.CodeExists`.
- PositionRepository.CheckPositionCodeExist: compares codes as exact strings, not under the column collation, as for `CodeColumn.CodeExists`.
- EmployeeRepository.CheckEmployeeCodeExist: compares codes as exact strings, not under the column collation, as for `CodeColumn.CodeExists`.
- The regex `\d` is taken as ASCII digits, and `$` as the end of the string. .NET's `\d` also admits other Unicode digits, and its `$` also matches before a final newline.
- `GetAllDepartments`, `GetAllPositions` and `GetAllEmployees` return the rows in an unspecified order. The model promises only each row once.
- EmployeeRepository.GetFilteredEmployees: requires the page size and page number to be absent or positive, which the controller guarantees. The Int32 overflow of `(pageNumber - 1) * pageSize` and the `double` arithmetic of `Math.Ceiling` are taken as exact integer arithmetic.
- DepartmentRepository.AddDepartment: requires the fresh identifier not to be stored yet. `Guid.NewGuid()` collisions are not modelled. The same holds for `PositionRepository.AddPosition`, `EmployeeRepository.AddEmployee` and the controllers' add endpoints.
- EmployeeController.AddEmployee: the validator's `DateTime.Now` is read when the validator is built, so it is the parameter `validatedAt`, separate from the update stamp `now`.
- Startup (`Program.cs`), dependency injection, the `DbContext` connection string and logging are not part of this model.
- IntParse.ParseInt32: the invariant culture is assumed. A culture with other sign symbols is not modelled. Trailing NUL characters, which .NET also skips, are not modelled either.
- Decimal.FormatD5: the minus sign is the ASCII '-', as in the invariant culture. `ToString("D5")` writes the current culture's `NegativeSign`, which in some cultures is U+2212 MINUS SIGN; that is not modelled.
- CommonUtils.AutoGenerateCode: strings are sequences of Unicode scalar values, so the two-character prefix is counted in code points. C#'s `Substring(0, 2)` counts UTF-16 units, so a stored code starting with a character outside the Basic Multilingual Plane (a surrogate pair) is split differently in the source. Codes that pass validation start with two ASCII letters, where both counts agree.
- Guids.TryParse: only the hyphenated "D" format (`xxxxxxxx-xxxx-xxxx-xxxx-xxxxxxxxxxxx`) is modelled, with no surrounding white space. That is the only format the model's own `ToString` produces. .NET also accepts the "N", "B", "P" and "X" formats and surrounding white space.
- EmployeeRepository.EveryMatchPaged: the model orders rows with equal codes in one fixed way, shared by every page query. MySQL may order such ties differently in each query, so with tied codes a row could be missed or shown twice across pages. With unique codes the order is forced, as `DatabaseOrderIsModelOrder` shows, and the validators keep codes unique, as `AddKeepsCodesUnique` and `CorrectedUpdateKeepsCodesUnique` show.
- EmployeeRepository.PagingKeepsOrder: the same tie order is assumed across requests. For tied codes MySQL promises only the same set of matching rows, not their order.
- Listing, the greatest code and the ordered page enumerate a table, so they are `ghost` functions. They state what the queries return, not how the database computes it.

## Findings

| source | as written | input that shows it | evidently intended | confidence | as-written member | corrected member |
|---|---|---|---|---|---|---|
| Controllers/DepartmentController.cs:126-136 | The update re-runs the validator, whose uniqueness rule counts every row, including the row being updated | A stored department with code "PB00001"; a PUT to its id with the same code and a new name is answered 400 "Mã phòng ban đã tồn tại trong hệ thống" | The uniqueness rule ignores the row being updated, so a department can be renamed while keeping its code | high — not executed | DepartmentController.UpdateKeepingCodeRejected | DepartmentController.KeepingCodeAccepted |
| Controllers/PositionController.cs:126-136 | The same uniqueness check on update counts the position's own row | A stored position "VT00001"; a PUT keeping "VT00001" is answered 400 | The same: ignore the row being updated | high — not executed | PositionController.UpdateKeepingCodeRejected | PositionController.KeepingCodeAccepted |
| Controllers/EmployeeController.cs:186-196 | The same uniqueness check on update counts the employee's own row | A stored employee "NV00001"; a PUT keeping "NV00001" with otherwise valid fields is answered 400 | The same: ignore the row being updated | high — not executed | EmployeeController.UpdateKeepingCodeRejected | EmployeeController.KeepingCodeAccepted |
