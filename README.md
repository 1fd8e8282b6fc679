# Student records: create, list, form validation and paging

This project models the core of a small student-records application in Dafny:

- **The student collection endpoint** (`app/api/students/route.ts`).
  - `POST` creates a student. It checks five required properties in a fixed order, then that the registration number is new, then that the (class, roll number) pair is new. Only then does it insert exactly one record, whose `status` defaults to active.
  - `GET` returns one page of students, ordered by registration number, together with the total count and the page count.
  - The relational store is an in-memory table: `StudentApi.StudentTable`, whose `rows` field is a `seq<Student>`.
- **The "Add New Student" form** (`app/students/new/page.tsx`).
  - `NewStudentForm.StudentForm` holds the form state and the error dictionary. Both are maps keyed by input name, as the page's state objects are.
  - Its methods model `handleChange`, `validate` and the guard in `handleSubmit`. `validate` builds the error dictionary field by field. The form may be sent only when that dictionary is empty.
- **The pager under the student list** (`app/students/page.tsx`).
  - `StudentListPager.Pager` holds `page` and `totalPages`.
  - The Previous and Next handlers clamp the page at the bounds.
  - The predicates beside the class state when each button is disabled and when the pager is shown.

Modules: `Options` (an optional value), `RegistrationOrder` (the string order used to sort by registration number), `StudentApi`, `NewStudentForm` and `StudentListPager`.

Three points where the model follows the code rather than a looser reading of the application's behaviour:

- Create stores `status` as given whenever the request carries one, and `true` only when it carries none. Any supplied value is stored, not only an explicit `false`.
- The server never checks that the roll number is numeric. The "must be a number" message exists only in the form's client-side validation.
- The error messages are the code's own strings, for example "Registration number already exists" and "registrationNo is required".

## Model

| member | source | states |
|---|---|---|
| `StudentApi.FirstMissing` | app/api/students/route.ts:41-46 | The result is the first field in the given order that the body does not carry. All earlier fields are present. There is no result exactly when every field is present. |
| `StudentApi.NoneMissingIff` | app/api/students/route.ts:41-46 | The required-field loop lets a body through exactly when all five required properties are truthy. |
| `StudentApi.FindByRegistration` | app/api/students/route.ts:49-51 | The lookup finds a row with the given registration number exactly when the table has one. What it finds is such a row of the table. |
| `StudentApi.FindRollInClass` | app/api/students/route.ts:58-63 | The lookup finds a row with the given class and roll number exactly when the table has one. What it finds is such a row of the table. |
| `StudentApi.StudentTable.Create` | app/api/students/route.ts:36-80 | The loop checks fields in order and stops early; the answer is the one `CreateOutcome` gives. The table grows by the created record and by nothing else. Both uniqueness rules are kept. |
| `StudentApi.MissingFieldRejected` | app/api/students/route.ts:41-46 | Suppose field k is the first one missing. Then create answers 400 with "<field k> is required", whatever the table holds, and the table is unchanged. |
| `StudentApi.DuplicateRegistrationRejected` | app/api/students/route.ts:49-55 | Suppose all fields are present and the registration number is already stored. Then create answers "Registration number already exists" even when the class and roll also clash. The table is unchanged. |
| `StudentApi.DuplicateRollRejected` | app/api/students/route.ts:58-67 | Suppose the registration number is new but the class and roll number are taken. Then create answers "Roll number already exists in this class" and the table is unchanged. |
| `StudentApi.CreatedIff` | app/api/students/route.ts:69-80 | Create succeeds exactly when all fields are present and neither uniqueness rule is broken. It then answers 201 and appends exactly one record holding the body's fields. Its status is the supplied one, or true when none was supplied. |
| `StudentApi.CreatePreservesInvariant` | app/api/students/route.ts:49-78 | When registration numbers and (class, roll number) pairs are unique before a create, they are unique after it. |
| `StudentApi.CreateThenFind` | app/api/students/route.ts:49-78 | After a successful create, looking up its registration number finds exactly the created record. |
| `StudentApi.Insert` | app/api/students/route.ts:15 | Inserting into a sorted sequence gives a sorted sequence with the same elements plus the new one. |
| `StudentApi.SortByRegistration` | app/api/students/route.ts:15 | The result is in ascending registration-number order and is a permutation of the table. |
| `StudentApi.CeilDiv` | app/api/students/route.ts:26 | The page count is the least number of pages of `limit` rows that holds `total` rows. This is `ceil(total / limit)`, and 0 for an empty table. |
| `StudentApi.Skip` | app/api/students/route.ts:10 | The offset of page `page` is `(page - 1) * limit` and is never negative. |
| `StudentApi.PageSlice` | app/api/students/route.ts:12-16 | A page holds at most `limit` rows, namely the sorted rows from the offset onwards. It is sorted and takes nothing the table does not hold. |
| `StudentApi.List` | app/api/students/route.ts:5-28 | The answer has at most `limit` students, at sorted positions `skip .. skip+limit-1`, in ascending order and drawn from the table. `total` is the table size and `pages` is `ceil(total / limit)`. |
| `StudentApi.ListQuery` | app/api/students/route.ts:8-9 | A supplied `page` or `limit` parameter is used as given. A missing `page` means page 1 and a missing `limit` means 10 students at most. The students are those `List` gives for the resulting page and limit. |
| `StudentApi.EmptyTableList` | app/api/students/route.ts:18-27 | Listing an empty table gives no students, total 0 and 0 pages. |
| `StudentApi.PageNonEmptyIff` | app/api/students/route.ts:10-27 | A page holds students exactly when its number is at most the reported page count. |
| `StudentApi.PageOf` | app/api/students/route.ts:10 | Sorted position i falls on page `i / limit + 1`: the page's offset is at most i, and i is less than the offset plus `limit`. |
| `StudentApi.RowOnPage` | app/api/students/route.ts:10-16 | Entry k of a page is the row at sorted position offset + k whenever that row exists, and the page is then within the page count. |
| `StudentApi.EveryRowListed` | app/api/students/route.ts:10-27 | Every row of the table appears on a page within the reported page count. |
| `RegistrationOrder.LexLeqTotal` | app/api/students/route.ts:15 | Any two registration numbers are ordered one way or the other. |
| `RegistrationOrder.LexLeqTransitive` | app/api/students/route.ts:15 | The registration-number order is transitive. |
| `RegistrationOrder.LexLeqAntisymmetric` | app/api/students/route.ts:15 | Two registration numbers each ordered before the other are equal. |
| `StudentApi.SortedPermutationUnique` | app/api/students/route.ts:15 | Two ascending arrangements of the same records, with unique registration numbers, are the same sequence: a table with unique registration numbers has one sorted order. |
| `StudentApi.OrderByDeterminesSort` | app/api/students/route.ts:12-16 | Any ascending arrangement of the table's records with unique registration numbers, such as the store's `orderBy`, is exactly `SortByRegistration` of the table, so each page's contents do not depend on how the sort is carried out. |
| `NewStudentForm.InitialForm` | app/students/new/page.tsx:11-18 | The initial form has all five text inputs empty and status checked. |
| `NewStudentForm.ValidationErrors` | app/students/new/page.tsx:40-66 | Errors appear only under the five text inputs, never under status. Each empty input gets its fixed "… is required" message. "Roll number must be a number" appears exactly when the roll number is filled in but not numeric. The dictionary is empty exactly when all five inputs are filled in and the roll number is numeric. |
| `NewStudentForm.EnteredValue` | app/students/new/page.tsx:26-29 | A checkbox change stores its checked state. Any other change stores its text. |
| `NewStudentForm.ClearError` | app/students/new/page.tsx:31-37 | After an edit, no error is shown for the edited input. Every other entry and the set of keys are unchanged. Errors are not touched at all when none was shown for that input. |
| `NewStudentForm.StudentForm.constructor` | app/students/new/page.tsx:11-19 | The page starts with the initial form and no errors. |
| `NewStudentForm.StudentForm.HandleChange` | app/students/new/page.tsx:23-38 | Only the edited input's value changes. The edited input's error is cleared and nothing else in the errors changes. |
| `NewStudentForm.StudentForm.Validate` | app/students/new/page.tsx:40-67 | The error state becomes the validation result for the current form. The result is true exactly when the form is complete. |
| `NewStudentForm.StudentForm.HandleSubmit` | app/students/new/page.tsx:69-86 | No request is produced when validation fails. Otherwise the request body is the current form. |
| `NewStudentForm.StatusNotValidated` | app/students/new/page.tsx:40-67 | Changing the status checkbox never changes the validation result. |
| `NewStudentForm.InitialFormRejected` | app/students/new/page.tsx:11-67 | Validating the untouched form yields every required message, so submitting it sends nothing. |
| `NewStudentForm.EditClearsOnlyThatError` | app/students/new/page.tsx:31-37 | Editing one input hides its error and leaves whether any other input shows an error as it was. |
| `StudentListPager.PreviousPage` | app/students/page.tsx:160 | Previous never goes below page 1. It moves one page back from any page above 1, and goes to page 1 from any page at or below 1. It leaves the page unchanged exactly at page 1. |
| `StudentListPager.NextPage` | app/students/page.tsx:170 | Next never goes beyond the page count. It moves one page forward below the last page, and goes to the last page from any page at or beyond it (page 1 of 0 pages goes to page 0). It leaves the page unchanged exactly at the last page. |
| `StudentListPager.Pager.constructor` | app/students/page.tsx:13-14 | The pager starts at page 1 of 1, in range and hidden. |
| `StudentListPager.Pager.Previous` | app/students/page.tsx:160 | The page becomes the Previous target and the page count is kept. The range invariant is kept. The page stays put exactly when Previous is disabled. |
| `StudentListPager.Pager.Next` | app/students/page.tsx:170 | The page becomes the Next target and the page count is kept. The range invariant is kept. The page stays put exactly when Next is disabled. |
| `StudentListPager.Pager.Loaded` | app/students/page.tsx:32 | The page count becomes the reported one and the page is kept. The range invariant holds afterwards exactly when the current page is within the new count. |
| `StudentListPager.StepsStayInRange` | app/students/page.tsx:159-175 | When `1 <= page <= totalPages` holds before Previous or Next, it holds after. |
| `StudentListPager.DisabledAtBounds` | app/students/page.tsx:159-175 | Within range, Previous is disabled exactly at page 1 and Next exactly at the last page. These are exactly the cases where pressing the button would not move the page. |
| `StudentListPager.ShownPagerCanMove` | app/students/page.tsx:156-175 | Whenever the pager is shown (more than one page) and in range, at least one button is enabled. |
| `StudentListPager.PressesStayInRange` | app/students/page.tsx:159-175 | Any sequence of Previous and Next presses that starts in range stays in range. |
| `StudentListPager.FetchedPageInRange` | app/students/page.tsx:24-32 | Suppose the list page fetches a page of ten and takes the reported page count. The pager is then in range exactly when the fetched page held a student. |

## Left out

- Storage exceptions and the 500 answers of both handlers (app/api/students/route.ts:29-32, 81-84). The store is an in-memory table that cannot fail. The create handler's 500 also answers a body that is not valid JSON, or is JSON `null`, where reading `body[field]` throws. The model's `Payload` is always a parsed object, so that path is not modelled.
- The store-generated `id` of a student. The 201 answer returns it and app/students/page.tsx:117 keys table rows by it. `Student` has no id field, so neither is modelled.
- Concurrency: the check-then-insert sequence of create can be raced by two requests. The model handles one request at a time.
- StudentApi.Payload: the roll number is modelled as an integer both at the uniqueness lookup and at the insert. The source looks up the raw body value but stores `Number.parseInt` of it. A string roll number, as the form sends, would mismatch the integer column, and that type error is not modelled.
- The truthiness of `body[field]` is modelled for the types the model gives each property: an absent property, the empty string, and a roll number of 0 are falsy. JSON `null`, `false` and values of the wrong type are not modelled.
- StudentApi.List: `page` and `limit` must be at least 1. The source never checks them, and a negative offset makes the store's query fail. Parsing the query string with `Number.parseInt` is not modelled: a parameter is either absent or already an integer.
- StudentApi.SortByRegistration: the store's collation is modelled as character-by-character code-point order. Ties between equal registration numbers, which the uniqueness rule rules out, keep insertion order.
- NewStudentForm.IsNumericText: `isNaN(Number(s))` is modelled for decimal text only: an optional sign, digits, and at most one decimal point. Leading or trailing whitespace, exponents, hexadecimal, binary or octal literals, and `Infinity` are treated as not numeric.
- Client I/O and rendering: `fetch`, `router.push`, `confirm`, logging, the loading, submitting and server-error flags, and all markup. `HandleSubmit` returns the request body it would send instead of sending it.
- `fetchStudents` and `handleDelete` in app/students/page.tsx are I/O. Only their effect on `totalPages` is modelled, as `Pager.Loaded`.
- The landing page app/page.tsx is static markup.
- Fetching one student, updating and deactivating (app/api/students/[regNo]/route.ts) and the edit page (app/students/edit/[regNo]/page.tsx) are not part of this model.
