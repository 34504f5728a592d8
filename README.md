# Course catalog store and request rules

A Dafny model of the course portal's catalog: a flat file that is either
absent or holds the whole ordered list of course records, the operations that
read it, append to it and rewrite it, and the request handlers built on them
(list, view details, add with validation, remove). Pages, redirects and flash
messages are returned as values.

- `catalog.dfy` (module `Catalog`): the nine-field `Course` record, the
  first-match lookup by code (`FirstIndex`, `Find`), the filter that drops every
  record with a code (`WithoutCode`) and the lemmas relating them.
- `store.dfy` (module `Store`): class `CatalogStore` whose field `file` is
  `None` while the file does not exist and `Some(courses)` afterwards, with the
  load, overwrite and append-and-save methods.
- `validation.dfy` (module `Validation`): the submitted form as a
  `map<string, string>`, the missing-field list built in fixed order, the error
  message, and the record built with defaults.
- `handlers.dfy` (module `Handlers`): the routes `/catalog`, `/course/<code>`,
  `/add` and `/remove/<code>` as methods over a `CatalogStore`.

Behaviours kept as the code has them:

- Lookup returns only the first record with a code, while removal deletes every
  record with it (`Catalog.DuplicateCodes`). Nothing stops two records from
  sharing a code.
- A required field is missing when it is absent or the empty string, exactly
  Python's `not value`. Whitespace is not trimmed, so `"  "` is accepted.
- An optional field that is submitted empty keeps the empty string; only an
  absent field gets its default.
- Removing a code that matches nothing does not write the file (an absent file
  stays absent).

## Model

| member | source | states |
|---|---|---|
| `Catalog.Field` | app.py:118-128 | a record answers exactly the nine stored keys, and `course['code']` is its code |
| `Catalog.FieldsDetermineCourse` | app.py:118-128 | two records that agree on all nine keys are equal, so describing each key describes the record |
| `Catalog.CountCode` | app.py:146-147 | the number of matches is at most the catalog length and is zero iff no record has the code |
| `Catalog.FirstIndex` | app.py:81 | none iff no record has the code; otherwise an index whose record has the code and before which no record has it |
| `Catalog.Find` | app.py:144 | none iff the code has no match; a found record is in the catalog and carries the code |
| `Catalog.FindIsFirstMatch` | app.py:81 | lookup answers with the record at the smallest matching index |
| `Catalog.WithoutCode` | app.py:147 | the filtered catalog has no record with the code and its length is the original minus the number of matches |
| `Catalog.WithoutCodeKeepsOrder` | app.py:147 | the filtered catalog is a subsequence of the original (relative order kept) |
| `Catalog.WithoutCodeMultiplicity` | app.py:147 | every record with another code keeps its number of copies; records with the code have none |
| `Catalog.WithoutAbsentCode` | app.py:147 | filtering a code nobody has leaves the catalog unchanged |
| `Catalog.FindAfterRemove` | app.py:143-149 | after removal, lookup of the removed code finds nothing |
| `Catalog.CountCodeAppend` | app.py:55-56 | appending a record raises the count of its code by one and no other count |
| `Catalog.FindAfterAppend` | app.py:55-56 | after an append, lookup of the new record's code finds it unless an earlier record has that code, which is then found instead |
| `Catalog.DuplicateCodes` | app.py:144-147 | with two records sharing a code, lookup reports the first while removal shrinks the catalog by at least two |
| `Store.Contents` | app.py:44-49 | what loading yields: the empty catalog for an absent file, the stored records otherwise |
| `Store.CatalogStore.Load` | app.py:44-49 | an absent file loads as the empty catalog without failing; a present one loads its records in order |
| `Store.CatalogStore.Overwrite` | app.py:148-149 | the file afterwards exists and holds exactly the given records |
| `Store.CatalogStore.SaveCourse` | app.py:53-58 | the file afterwards holds the old catalog followed by the new record: prior records in order, length plus one, new record last |
| `Validation.Blank` | app.py:100-104 | Python's `not value` on a form field: absent or the empty string; whitespace is not trimmed |
| `Validation.LabelsOf` | app.py:101-105 | the labels of a field table, one per entry, in order |
| `Validation.RequiredLabelsAre` | app.py:101-105 | the required labels are "Course Name", "Course Code", "Instructor" in that order |
| `Validation.MissingFrom` | app.py:99-105 | no longer than the table; lists the label of every blank entry, and every label it lists belongs to a blank entry |
| `Validation.MissingFromOrdered` | app.py:99-105 | the listed labels are a subsequence of the table's labels (table order kept) |
| `Validation.Missing` | app.py:99-105 | the missing-field list has at most three entries, each one of the three required labels |
| `Validation.MissingUnfolded` | app.py:99-105 | the missing list is the name, code and instructor checks concatenated in that order |
| `Validation.MissingCharacterised` | app.py:99-105 | the missing list is a subsequence of the three labels in order and holds each label iff its field is absent or empty; it is empty iff all three are present and non-empty |
| `Validation.CollectMissing` | app.py:99-105 | the list built by the three conditional appends equals the missing-field list |
| `Validation.Join` | app.py:109 | `', '.join`: a non-empty join starts with its first part |
| `Validation.JoinAppend` | app.py:114 | joining one more part appends the separator and that part, which with the one-part case determines the join |
| `Validation.RequiredMessage` | app.py:114 | the rejection message starts with "Error: The following fields are required: " |
| `Validation.OnlyNameMissing` | app.py:99-115 | a form missing only the name is rejected with exactly "Course Name" listed |
| `Validation.EmptyFormMessage` | app.py:99-114 | an empty form is rejected listing "Course Name, Course Code, Instructor" |
| `Validation.NewCourse` | app.py:118-128 | the new record carries the submitted name, code and instructor; each optional field is its submitted value when present (even empty), else "", "", "", "None", "Not specified", "No description provided" |
| `Validation.NewCourseDetermined` | app.py:118-128 | any record matching `NewCourse`'s per-key description is the record built, so that contract is complete |
| `Handlers.NotFoundMessage` | app.py:84 | the not-found text quotes the code, which can be read back from it |
| `Handlers.AddedMessage` | app.py:132 | the add success text quotes the course name |
| `Handlers.RemovedMessage` | app.py:151 | the remove success text quotes the removed course's name |
| `Handlers.ShowCatalog` | app.py:70-74 | the list page shows the stored records in order, none when the file is absent |
| `Handlers.CourseDetails` | app.py:78-87 | no match gives a redirect to the list with the not-found error; otherwise the details page of the record at the first matching index |
| `Handlers.AddCourse` | app.py:91-137 | GET renders the form; POST with missing fields leaves the file alone and redirects to the form with the message listing them; otherwise the built record is appended and the success message names the course |
| `Handlers.RemoveCourse` | app.py:141-156 | with a match the file becomes the catalog without every record of that code and the flash names the first match; without one the file is untouched and the not-found error is flashed; both redirect to the list |

## Left out

- Flask routing, template rendering, `redirect`/`url_for`, the session-backed
  flash channel and `app.run`: represented only by the returned `Response`.
- The home page route `/`: it renders a static page and never reads the catalog.
- OpenTelemetry tracing and span status, and all logging: diagnostics that never
  affect control flow.
- JSON encoding and decoding and real file I/O: the file is the abstract value
  `Option<seq<Course>>`. A file whose content does not parse makes the source
  raise; that failure, and write failures, are not modelled.
- Records in the file are assumed to carry all nine string fields; a file edited
  by hand to lack `code` would make the source raise on lookup.
- A form field posted more than once: the form is a map from field name to one
  value, whereas the framework's form keeps every value and `get` returns the
  first. The model sees only that first value.
- Concurrency: the read-modify-write race between simultaneous requests is not
  modelled; every operation runs alone.
