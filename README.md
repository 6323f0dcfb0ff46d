# Candidate records of the HR backend, in Dafny

The HR backend (`backend/app.py`, a Flask service over SQLite) keeps one
`candidates` table. This project models its candidate lifecycle:

- **submitting** a candidate (`save_to_database`): strip and check the three
  mandatory fields, refuse a known email, re-draw a `HR<year>-<NNNN>` code
  until no row holds it, then insert the row with status `New`;
- **updating** one field of one candidate (`update_candidate_in_database`),
  restricted to an allow-list of field names;
- **listing** every candidate newest first, with blank columns replaced by
  defaults (`get_all_candidates`);
- **marking** a candidate as messaged, the table side effect of `send_message`;
- the pure helpers around them: the code generator, the upload file-name
  filter `allowed_file` and the city search inside `extract_candidate_info`.

Modules:

| module | file | what it holds |
|---|---|---|
| `Wrappers` | `wrappers.dfy` | `Option`, `Result`, `Outcome` |
| `Strings` | `strings.dfy` | Python's `str.strip`, ASCII `lower`, substring `in`, `", ".join`, decimal `str(int)` |
| `CandidateCodes` | `codes.dfy` | `generate_candidate_code` and a parser for its format |
| `Uploads` | `uploads.dfy` | `allowed_file` |
| `Extraction` | `extraction.dfy` | the city search of `extract_candidate_info` |
| `Records` | `records.dfy` | the `candidates` row, its constraints, the listing presentation, the pure table operations |
| `Lifecycle` | `lifecycle.dfy` | the `Store` class (the table and its AUTOINCREMENT counter) with submit, update, list and mark |

How the model represents things:

- A column value is a `Cell`: `Null`, `Text` or `Int`.
- The table is `Store.rows`, in insertion order. `Store.serial` is the next
  AUTOINCREMENT id. It also stands for `created_at`, so a later row always
  has a later creation stamp.
- `Store.Valid()` is the table's invariant:
  - ids and creation stamps are below `serial` and strictly increase;
  - emails and codes are unique;
  - phone, email and location are never `NULL`;
  - every code is in the code format.
- The clock and the random generator are inputs:
  - `Submit` receives `today` (the default `date` column);
  - it also receives a sequence of `Draw`s, each a year and a number in
    1000..9999, which are the successive results of `generate_candidate_code`.

## Model

| member | source | states |
|---|---|---|
| Strings.IsSpace | backend/app.py:284-286 | Python's `str.isspace` for one character: the whitespace `strip()` removes |
| Strings.Strip | backend/app.py:284-286 | the result is empty exactly when the input is all whitespace; otherwise it starts and ends with non-whitespace |
| Strings.StripIsTrimmedSlice | backend/app.py:284-286 | the stripped text is a contiguous slice of the input with only whitespace cut off at either end |
| Strings.SliceOfTrims | backend/app.py:284-286 | cutting leading and then trailing whitespace leaves exactly the slice between them |
| Strings.StripIdempotent | backend/app.py:284-286 | stripping twice is the same as stripping once |
| Strings.Lower | backend/app.py:34 | same length, character by character the lower-case letter |
| Strings.Occurs | backend/app.py:232 | Python's substring test `t in s`: `t` starts at some position of `s` |
| Strings.Decimal | backend/app.py:198 | `str(n)` of a non-negative number: a non-empty digit string without leading zero |
| Strings.DecimalOfValue | backend/app.py:198 | a canonical decimal numeral is the rendering of its own value |
| Strings.Join | backend/app.py:299 | `sep.join(items)`: the empty list joins to the empty text and a single item to itself |
| Strings.JoinContains | backend/app.py:299 | every item appears inside the joined text |
| CandidateCodes.CandidateCode | backend/app.py:194-198 | the code parses back to its year and number, and its last four characters are the number's digits |
| CandidateCodes.CodeRoundTrip | backend/app.py:194-198 | parsing a generated code yields the year and number it came from |
| CandidateCodes.ParseCodeInverse | backend/app.py:194-198 | every string that parses as a code is the code generated from the parsed year and number |
| CandidateCodes.CodeInjective | backend/app.py:194-198 | distinct (year, number) draws give distinct codes |
| Uploads.LastIndexOf | backend/app.py:34 | the index found holds the separator and no later index does; none is found only when the separator is absent |
| Uploads.AllowedFile | backend/app.py:33-34 | `allowed_file` itself, characterised by `Uploads.AllowedFileIff` |
| Uploads.AllowedFileIff | backend/app.py:28-34 | a file is allowed exactly when it has a dot and the text after its last dot, lower-cased, is png, jpg, jpeg or pdf |
| Extraction.Mentions | backend/app.py:232 | `city.lower() in text.lower()` |
| Extraction.FirstCityFrom | backend/app.py:230-234 | the result is the first city from position k on that the text mentions, ignoring case, or empty when none does |
| Extraction.DetectLocation | backend/app.py:230-234 | empty exactly when no listed city occurs in the text; otherwise the first listed city that occurs |
| Records.ColumnNamed | backend/app.py:422-430 | a field name maps to a column exactly when it is allowed and is not `interview_slot`, and that column's name is the field |
| Records.ColumnNamedRoundTrip | backend/app.py:422-430 | every updatable column is found again under its own name |
| Records.SetColumn | backend/app.py:429-430 | the chosen column takes the value and every other column, including id, date, code and created_at, is unchanged |
| Records.Cell.Truthy | backend/app.py:388-400 | Python truthiness of a column value: NULL, `''` and `0` are false |
| Records.Or | backend/app.py:388-400 | Python's `x or d` on a column value; through `Records.Present` it keeps a truthy value and otherwise gives the default |
| Records.Default | backend/app.py:385-401 | the listing's substitute for a blank column; only the status default ('New') is truthy |
| Records.Present | backend/app.py:385-401 | id, date and code pass through; every other column is never null, keeps a truthy value and replaces a falsy one by its default |
| Records.RowInvariant | backend/app.py:59-65 | phone, email and location are NOT NULL, and the code is set and in the code format |
| Records.Ascending | backend/app.py:56-71 | ids (AUTOINCREMENT) and creation stamps increase in insertion order |
| Records.UniqueKeys | backend/app.py:60-65 | no two rows share an email or a code (the UNIQUE columns) |
| Records.TableInvariant | backend/app.py:55-72 | every row satisfies `RowInvariant` with id and stamp below the next serial, and the table is `Ascending` with `UniqueKeys` |
| Records.ByNewest | backend/app.py:373-378 | the rows in reverse insertion order, position by position |
| Records.ByNewestIsOrdered | backend/app.py:373-378 | under the table invariant the newest-first rows are a permutation of the table with strictly decreasing created_at and id |
| Records.ByNewestDescends | backend/app.py:373-378 | rows in insertion order, reversed, have strictly decreasing created_at and id |
| Records.ByNewestPermutes | backend/app.py:373-378 | reversing keeps the same multiset of rows |
| Records.PresentedDescend | backend/app.py:384-403 | presenting the newest-first rows keeps their ids strictly decreasing |
| Records.HasEmail | backend/app.py:306-307 | `SELECT id FROM candidates WHERE email = ?` finds a row; used as the duplicate test in `Lifecycle.Store.Submit` |
| Records.HasCode | backend/app.py:319-320 | `SELECT id FROM candidates WHERE code = ?` finds a row; the stopping test of `Lifecycle.FirstFreeFrom` |
| Records.IndexOfId | backend/app.py:429-430 | the first position holding the id, or none when no row has it |
| Records.IndexOfIdUnique | backend/app.py:56 | under the invariant an id designates exactly one row |
| Records.InsertKeepsInvariant | backend/app.py:55-72 | appending a row with the next serial, a fresh email and a fresh well-formed code keeps the table invariant |
| Records.CheckUpdate | backend/app.py:59-65 | an update violates NOT NULL exactly when it nulls phone, email or location, and UNIQUE exactly when it gives email a value another row holds |
| Records.UpdateKeepsInvariant | backend/app.py:55-72 | an update that violates no constraint keeps the table invariant |
| Records.RefusedUpdateBreaksInvariant | backend/app.py:59-65 | an update the constraint check refuses would break NOT NULL or UNIQUE |
| Records.UpdateAllowedIff | backend/app.py:55-72 | an update keeps the table invariant if and only if the constraint check lets it through |
| Records.UpdateKeepsRow | backend/app.py:59-62 | setting a column to a value its NOT NULL constraint allows keeps the row well formed |
| Records.UpdateKeepsOrder | backend/app.py:56 | an update never changes ids or creation times, so their ascending order survives |
| Records.UpdateKeepsUnique | backend/app.py:60-65 | an update that breaks no UNIQUE constraint keeps emails and codes distinct |
| Records.MarkRows | backend/app.py:558 | the row with the id gets message_sent = 1 and every other row is unchanged |
| Records.MarkAbsentIsNoop | backend/app.py:558 | marking an id no row has changes nothing |
| Records.MarkIdempotent | backend/app.py:558 | marking twice equals marking once |
| Records.MarkKeepsInvariant | backend/app.py:558 | marking keeps the table invariant |
| Lifecycle.Lookup | backend/app.py:284-286 | `candidate_data.get(key, default)`: the submitted value, or the default when the key is absent; its uses are stated by `Lifecycle.MandatoryOf` and `Lifecycle.NewRow` |
| Lifecycle.MandatoryOf | backend/app.py:284-286 | each stripped mandatory field is empty exactly when the submitted value is absent or all whitespace |
| Lifecycle.MissingLabels | backend/app.py:288-294 | a label is listed exactly when its field is empty, nothing else is listed, and the order is Email, Phone, Location |
| Lifecycle.MissingFields | backend/app.py:288-294 | the labels of the missing mandatory fields, characterised by `Lifecycle.MissingFieldsExact` |
| Lifecycle.MissingFieldsExact | backend/app.py:284-294 | a label is missing exactly when the submitted field is absent or whitespace, in the order Email, Phone, Location |
| Lifecycle.MissingFieldsList | backend/app.py:284-294 | the missing-field list written out: "Email", "Phone" and "Location", each present exactly when that submitted value is absent or whitespace, in that order |
| Lifecycle.MissingLabelsList | backend/app.py:288-294 | the list of labels for three given emptiness flags, in the order Email, Phone, Location |
| Lifecycle.SaveErrorMessage | backend/app.py:297-314 | the error text names every missing field, or the duplicate email |
| Lifecycle.Generated | backend/app.py:317-322 | the codes the successive `generate_candidate_code()` calls return, one per draw |
| Lifecycle.FirstFreeFrom | backend/app.py:317-322 | the first generated code from position k on that no row holds; none only when every remaining code is taken |
| Lifecycle.FirstFree | backend/app.py:317-322 | where the re-drawing loop stops: `FirstFreeFrom` from the first draw |
| Lifecycle.FirstFreeIsFresh | backend/app.py:317-322 | the code the re-drawing loop settles on is well formed and held by no row |
| Lifecycle.NewRow | backend/app.py:325-339 | the inserted row has the next id, the stripped mandatory values, the drawn code, status 'New', message_sent 0, the submitted date or today, the submitted name, dob, skills and experience or '', and NULL interview columns |
| Lifecycle.ResubmitIsDuplicate | backend/app.py:306-314 | after a row is inserted, its email is on file |
| Lifecycle.SubmitTwice | backend/app.py:280-314 | on an empty table the first submission succeeds exactly when no field is missing and a free code is drawn; after it succeeds, a second submission of the same data fails naming the email |
| Lifecycle.Store.constructor | backend/app.py:53-72 | an empty table, satisfying the invariant |
| Lifecycle.Store.Submit | backend/app.py:280-349 | missing fields fail first and change nothing; a known email fails next and changes nothing; otherwise the first unused draw's code is used, one row is appended, and its id and code are returned |
| Lifecycle.Store.Insert | backend/app.py:325-342 | appends exactly the row, returns its id, advances the serial and keeps the invariant |
| Lifecycle.Store.Update | backend/app.py:419-442 | checks in the source's order: an invalid field, then `interview_slot`, then a missing id, then a constraint violation, each changing nothing; otherwise only that column of that row changes; id, code and created_at of every row never change |
| Lifecycle.PresentEach | backend/app.py:383-402 | one entry per fetched row, in the fetched order, each the presented row |
| Lifecycle.Store.List | backend/app.py:366-407 | one entry per row, each the presented row, newest first, with strictly decreasing created_at and id; the table is untouched |
| Lifecycle.Store.MarkMessaged | backend/app.py:555-560 | the table becomes the marked table and keeps its invariant |
| Lifecycle.Store.SendMessage | backend/app.py:542-560 | succeeds exactly when a message is given, and then marks the candidate when a non-zero id is given |

## Left out

- Flask routing, CORS, login, sessions and the route-level checks: the model starts at the functions the routes call.
- Opening and closing SQLite connections, `init_db` seeding and the other tables: the table is the `Store` object.
- SQLite type affinity: cells keep the type they are given.
- Timestamps: `created_at` is modelled by the AUTOINCREMENT serial. The real column has one-second resolution, so two rows inserted in the same second tie in `ORDER BY created_at DESC`, and SQLite leaves their order unspecified. The model lists the later-inserted of two same-second rows first.
- Strings.Lower: only ASCII letters are lower-cased, not Python's full Unicode mapping. `strip()` does use Python's full whitespace set.
  - Extraction.Mentions, Extraction.FirstCityFrom, Extraction.DetectLocation: these inherit the ASCII-only lowering. In "DELHİ" (U+0130), Python's `text.lower()` contains "delhi" and the source reports Delhi, while the model returns `''`. KELVIN SIGN in "Kolkata" behaves the same way.
  - `allowed_file` is unaffected, because no non-ASCII character lower-cases to a letter of png, jpg, jpeg or pdf.
- Submissions are modelled as maps from field names to strings. Other JSON values are not covered:
  - a non-string email, phone or location makes `.strip()` raise into the catch-all;
  - a null `name`, `dob`, `skills` or `experience` is stored as NULL and listed as `''`;
  - a null `date` is stored as NULL and listed as null;
  - a list or object value makes the INSERT's parameter binding raise into the catch-all.
- PDF text extraction, OCR, and the email and phone regular expressions of `extract_candidate_info`: only its city search is modelled.
- Sending e-mail and SMS and the message log: `SendMessage` models only the check that a message is present and the `message_sent` update.
- `datetime.now()` and `random.randint` are inputs (`today`, the `Draw` sequence).
- Lifecycle.Store.Submit: the source re-draws forever. The model reads a finite sequence of draws and fails with `CodesExhausted` when every draw is taken. That outcome does not exist in the source.
- Concurrency: two requests can both pass the email check before either inserts. The model runs one operation at a time.
- The catch-all `except` of `save_to_database`: the NOT NULL and UNIQUE checks are done beforehand, so the insert cannot fail in the model.
- The exact SQLite error texts of a failed update: the model returns `NoSuchColumn` or `ConstraintFailed` with the column and constraint instead.
- The exception path of `get_all_candidates` that returns `[]`: the model's listing cannot fail.
- Lifecycle.MissingFields: carries no contract of its own. `Lifecycle.MissingFieldsExact` and `Lifecycle.MissingFieldsList` state its meaning.
- Lifecycle.Store.Update: update values are modelled as NULL, text or integer cells. The model does not cover these:
  - a float, stored as REAL;
  - a list or object, whose parameter binding raises into the catch-all;
  - SQLite's type affinity, for example the text `'1'` written to `message_sent` becoming an integer.
  - integers outside SQLite's 64-bit range (-2^63 to 2^63-1), as a value or as the id. Python's sqlite3 cannot bind them and raises OverflowError, which the catch-all turns into a failed update with an error text and no change. The model's `Cell.Int` and ids are unbounded, so the model performs the update (or reports the row not found).
- Lifecycle.Store.SendMessage: a candidate id outside SQLite's 64-bit range makes the `UPDATE ... SET message_sent = 1` raise OverflowError, and the request fails with an error. The model's ids are unbounded, so it reports `ok` and leaves the table unchanged, because no row has that id.

Three behaviours of the code the model keeps:

- The listing passes `date` and `code` through as stored, without defaults.
- Updating `interview_slot` passes the allow-list. The table has no such column, so the statement fails (`NoSuchColumn`), and this happens even before the id is looked up.
- Updates are subject to the NOT NULL and UNIQUE constraints of the schema. An update that nulls phone, email or location fails, and so does one that gives email a value another row holds.
