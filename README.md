# SchoolConnect core, modelled in Dafny

SchoolConnect is a student portal with a FastAPI backend (`backend/server.py`) and a React
client (`frontend/src/App.js`). Almost all of it is plumbing between forms and MongoDB. This
project models the parts that hold real logic, as functions over sequences and strings, with
methods where the source loops or assigns in place:

- **Citation formatter** (`POST /api/mla-format`). There are two fixed templates, "website"
  and "book". A missing type counts as "website", a missing field counts as the empty string,
  and any other type gets a constant reply. A parser reads each template back. Round-trip
  lemmas in both directions show that the rendered text fixes the fields, provided the fields
  do not contain the template's own separators.
- **Classmate matching** (`GET /api/classmates/{user_id}`). The storage query is a filter
  over the `users` collection, taken in its natural order. The handler has two nested loops:
  one over the candidates, one over each candidate's classes. It returns a 404 when the
  requester is unknown. Each reply entry lists the candidate's own subjects, in their order,
  that the requester also takes.
- **Upload naming** (`POST /api/help-requests`). Files with an empty name are skipped. The
  extension is the text after the last `.`. The k-th kept file is saved as
  `<request id>_<k>.<extension>` and listed as `/uploads/<name>`. A lemma proves that no two
  files of one request share a URL.
- **Help-request listing** (`GET /api/help-requests`). The optional `user_id` filter, the
  newest-first sort, and the loop that joins each request with its author. Only requests
  whose author exists, and attends `school_id` when one is given, are kept.
- **GPA calculator** (`POST /api/gpa-calculator`). Points A=4, B=3, C=2, D=1, F=0, and 0 for
  any other letter. Missing credit hours count 3. The result is total points divided by total
  hours, or 0 when total hours are not positive. A grade without a letter, or with `null`
  hours, raises in Python and is modelled as a server error.
- **Client helpers** (`App.js`):
  - `addClass`, `updateClass`, `removeClass` on the registration form's class list.
  - `addGrade`, `updateGrade`, `removeGrade` on the GPA calculator's grade list, with
    JavaScript's `parseInt` on the credit-hours input.
  - The meeting-day checkbox handler.
  - `getCurrentSchoolName`.
  - `removeClass` and `removeGrade` are both `ClientForms.RemoveIndex`.

The two source files contain no chat, room, messaging, connection or broadcast code, so none
is modelled.

Modules: `Results` (Option, Result, Error), `Strings` (splitting, decimal numerals), `Seqs`
(first match), `Records` (stored users and classes), `Citations`, `Classmates`, `Uploads`,
`HelpRequests`, `Gpa`, `ClientForms`.

## Model

| member | source | states |
|---|---|---|
| `Citations.FromRequest` | backend/server.py:326-346 | The website template is chosen exactly when the type, defaulting to "website", is "website". The book template is chosen exactly when it is "book". Every field of the chosen template is the request's field of that name, or "" when missing. |
| `Citations.GenerateCitation` | backend/server.py:324-348 | For type "website" the reply is `author. "title" website, date, url.` over the request's fields, each "" when missing. For "book" it is `author. title. publisher, year.`. Any other type yields the constant "Citation format not supported yet.". Both templates end in a full stop. |
| `Citations.TemplateText` | backend/server.py:328-346 | The website text is `author. "title" website, date, url.`. The book text is `author. title. publisher, year.`. Any other type gives the constant. |
| `Citations.WebsiteText` | backend/server.py:335 | The website f-string, written out flat. |
| `Citations.BookText` | backend/server.py:343 | The book f-string, written out flat. |
| `Citations.WebsiteRoundTrip` | backend/server.py:328-335 | Reading a website citation back gives exactly the request's five fields, when the author has no `.`, the title no `"`, and website and date no `,`. |
| `Citations.BookRoundTrip` | backend/server.py:337-343 | Reading a book citation back gives exactly the request's four fields, when author and title have no `.` and the publisher no `,`. |
| `Citations.ParsedWebsiteRenders` | backend/server.py:335 | Any text that reads as a website citation is the rendering of the fields read, and those fields are separator-free. |
| `Citations.ParsedBookRenders` | backend/server.py:343 | Any text that reads as a book citation is the rendering of the fields read, and those fields are separator-free. |
| `Citations.MissingTypeIsWebsite` | backend/server.py:326 | A request without a type is formatted as one with type "website". |
| `Citations.MissingFieldIsEmpty` | backend/server.py:329-341 | A missing field is formatted as the empty string. |
| `Citations.SingleStopIsNoCitation` | backend/server.py:345-346 | A text whose only full stop is at its end, such as the constant reply, reads as neither template. |
| `Seqs.FirstMatch` | frontend/src/App.js:301 | Returns the index of the first element satisfying the test, or none exactly when no element does. |
| `Records.FindUser` | backend/server.py:161-163 | `find_one` by id returns the first stored user with that id. It returns none exactly when no user has it. |
| `Classmates.Subjects` | backend/server.py:165 | The requester's subjects, one per class, in order. |
| `Classmates.SharedSubjects` | backend/server.py:177-180 | Every subject kept is one the requester takes. Each subject the requester takes is kept exactly as often as it occurs among the candidate's classes, and no other subject is kept. |
| `Classmates.SharedSubjectsAppend` | backend/server.py:177-180 | The filter keeps the classes' order: the shared subjects of two runs of classes are those of the first run followed by those of the second. |
| `Classmates.Candidates` | backend/server.py:168-172 | The query returns exactly the stored users of the same school, other than the requester, with at least one class in the requester's subjects. |
| `Classmates.ClassmatesOf` | backend/server.py:159-189 | The reply is a 404 "User not found" exactly when no user has the requested id. |
| `Classmates.GetClassmates` | backend/server.py:160-189 | The handler's nested loops compute exactly `ClassmatesOf`: one summary per candidate, in query order. |
| `Classmates.ClassmatesAreFellowStudents` | backend/server.py:168-187 | Each listed entry is exactly the summary of a stored user of the requester's school who is not the requester: that user's id, name, grade level, and own subjects filtered to the requester's. The shared list is non-empty and taken by the requester. |
| `Classmates.EveryMatchIsListed` | backend/server.py:168-187 | Every stored user the query matches is listed, with exactly their shared subjects. |
| `Strings.AfterLast` | backend/server.py:238 | `split(".")[-1]` is a suffix of the name with no `.`. It is preceded by a `.` when shorter than the name, and it is the whole name when the name has no `.`. |
| `Strings.DecValueOfDec` | backend/server.py:239 | The decimal numeral of the index reads back as the index, so distinct indices have distinct numerals. |
| `Uploads.ExtensionIsLastPiece` | backend/server.py:238 | The extension has no `.`. A name containing a `.` is some stem, a `.`, then the extension. |
| `Uploads.NamedFiles` | backend/server.py:236-237 | Every kept file has a non-empty name. Every uploaded file with a non-empty name is kept. |
| `Uploads.NamedFilesCount` | backend/server.py:236-237 | Each file with a name is kept exactly as often as it was uploaded, and no file without a name is kept. |
| `Uploads.NamedFilesAppend` | backend/server.py:236-237 | The filter keeps the upload order: the kept files of two runs of uploads are those of the first run followed by those of the second. |
| `Uploads.ImageUrls` | backend/server.py:236-245 | There is one URL per kept file. |
| `Uploads.SaveUploads` | backend/server.py:233-245 | The loop, which numbers each file by the URLs collected so far, yields exactly `ImageUrls`: the k-th kept file gets `/uploads/<request id>_<k>.<extension>`. |
| `Uploads.NumberedRecoversIndex` | backend/server.py:239 | The part of the saved name after `<request id>_` splits at its first `.` into the index numeral and the extension. |
| `Uploads.ImageUrlsDistinct` | backend/server.py:239-245 | Two kept files of one request never get the same URL. |
| `Uploads.UrlsServeSavedPaths` | backend/server.py:239-245 | For every request id and upload list, the k-th listed URL is `/` followed by the path the k-th kept file was written to, `uploads/<request id>_<k>.<extension>`. |
| `HelpRequests.Query` | backend/server.py:264-268 | The query keeps exactly the stored requests, restricted to the given `user_id` when one is given. An empty `user_id` counts as not given. |
| `HelpRequests.SortNewestFirst` | backend/server.py:268 | The sorted list is in descending `created_at` order and is a permutation of its input. |
| `HelpRequests.Listing` | backend/server.py:271-278 | The listing is no longer than its input, and every listed request comes from the input. |
| `HelpRequests.GetHelpRequests` | backend/server.py:262-278 | The handler's author-joining loop computes exactly `HelpRequestList`. |
| `HelpRequests.ListIsNewestFirst` | backend/server.py:268-278 | The reply is in descending `created_at` order. |
| `HelpRequests.ListedRequestsQualify` | backend/server.py:264-278 | Each listed request is stored and matches `user_id` when it is given. Its author exists. Its `user_name` and `user_school` are that author's. The school equals `school_id` when one is given. |
| `HelpRequests.QualifyingRequestsListed` | backend/server.py:264-278 | Every stored request that meets those conditions is listed. |
| `Gpa.Points` | backend/server.py:313-316 | Points lie in [0, 4]. "A" scores 4, "B" 3, "C" 2, "D" 1, and "F" and any other letter 0. |
| `Gpa.Gpa` | backend/server.py:307-321 | The reply is a server error exactly when some grade lacks a letter or has `null` hours. |
| `Gpa.CalculateGpa` | backend/server.py:309-321 | The accumulating loop computes exactly `Gpa`. |
| `Gpa.GpaInRange` | backend/server.py:315-321 | With no negative hours, the result exists and lies in [0, 4]. |
| `Gpa.UniformLetterGpa` | backend/server.py:313-321 | When all grades have the same letter and the total hours are positive, the GPA is that letter's points. |
| `Gpa.ZeroHoursGpa` | backend/server.py:321 | When the hours of a well-formed request do not add up to a positive total, the GPA is 0. |
| `Gpa.AbsentCountsThree` | backend/server.py:317 | A grade without `credit_hours` gives the same result as one with 3 hours. |
| `Gpa.NegativeHoursLeaveRange` | backend/server.py:315-321 | Negative hours are not rejected. A, 5 h with F, -4 h gives 20. |
| `ClientForms.RemoveIndex` | frontend/src/App.js:293-295 | `filter((_, i) => i !== index)` drops exactly position `index` and keeps the rest in order. An out-of-range index leaves the list unchanged. |
| `ClientForms.AddClass` | frontend/src/App.js:158-169 | Appends exactly one empty class at the end. The earlier entries are unchanged. |
| `ClientForms.RemoveAddedClass` | frontend/src/App.js:158-180 | Removing the class just added gives back the list. |
| `ClientForms.FieldOf` | frontend/src/App.js:384-424 | Each field the form edits reads as text, except `days`, which reads as a list. |
| `ClientForms.SetField` | frontend/src/App.js:173 | After `cls[field] = value`, `field` reads as `value` and every other field reads as before. |
| `ClientForms.UpdateClass` | frontend/src/App.js:171-175 | The list keeps its length. Entry `index` changes only in `field`, which now holds `value`. All other entries are unchanged. |
| `ClientForms.WithoutDay` | frontend/src/App.js:423 | Unchecking removes every occurrence of the day and keeps every other day with its multiplicity. |
| `ClientForms.ToggleDay` | frontend/src/App.js:420-424 | Checking appends the day at the end and changes nothing else. Unchecking removes every occurrence of it. |
| `ClientForms.CheckThenUncheck` | frontend/src/App.js:420-424 | Checking a day that is not listed and then unchecking it gives back the list. |
| `ClientForms.WithoutAbsentDay` | frontend/src/App.js:423 | Unchecking a day that is not listed changes nothing. |
| `ClientForms.WithoutDayAppend` | frontend/src/App.js:423 | Unchecking preserves order: it distributes over concatenation. |
| `ClientForms.AddGrade` | frontend/src/App.js:283-285 | Appends exactly `{letter: 'A', credit_hours: 3}` at the end. |
| `ClientForms.RemoveAddedGrade` | frontend/src/App.js:283-295 | Removing the grade just added gives back the list. |
| `ClientForms.TrimStart` | frontend/src/App.js:289 | `parseInt` skips exactly the leading white space. |
| `ClientForms.DigitPrefix` | frontend/src/App.js:289 | `parseInt` reads the longest run of decimal digits. |
| `ClientForms.ParseInt` | frontend/src/App.js:289 | `parseInt` gives NaN exactly when no digit follows the white space and optional sign. |
| `ClientForms.ParseIntReadsNumeral` | frontend/src/App.js:289 | `parseInt` reads a numeral back as its number and ignores any non-digit text after it. |
| `ClientForms.ParseIntReadsNegative` | frontend/src/App.js:289 | With a leading `-`, `parseInt` reads the negated number. |
| `ClientForms.BlankInputIsNaN` | frontend/src/App.js:289 | Any input of only white space, the cleared input included, parses to NaN. |
| `ClientForms.SetGradeField` | frontend/src/App.js:289 | `letter` stores the raw value and leaves the hours alone. `credit_hours` stores `parseInt(value)` and leaves the letter alone. |
| `ClientForms.UpdateGrade` | frontend/src/App.js:287-291 | The list keeps its length. Row `index` gets the raw value for `letter` and `parseInt(value)` for `credit_hours`. All other rows are unchanged. |
| `ClientForms.TypedHoursStored` | frontend/src/App.js:875-880 | Typing a numeral into the credit-hours input stores that number. |
| `ClientForms.GradeRequests` | frontend/src/App.js:255-259 | The request body holds one entry per grade row, in order. |
| `ClientForms.ClearedHoursFailCalculation` | frontend/src/App.js:251-265 | A row whose hours parsed to NaN is sent as `null`, so the server's calculation fails. |
| `ClientForms.AddedGradesAverageA` | frontend/src/App.js:283-285 | A list built only by `addGrade` has a GPA of 4. |
| `ClientForms.CurrentSchoolName` | frontend/src/App.js:297-303 | With no user the name is "". Otherwise it searches high schools for school type "high_school" and colleges for any other type. It returns the name of the first school with the user's id, or the school id when none has it. |

## Left out

- MongoDB. Each collection is a sequence in its natural order. `insert_one`, `update_one` and
  the `_id` to string conversion (backend/server.py:276) are not modelled. Neither are the
  other handlers: registration, assignments, responses and the school list.
- HelpRequests.SortNewestFirst: MongoDB does not specify the order of requests with equal
  `created_at`. The model keeps their stored order.
- HelpRequests.GetHelpRequests: the source first marks each request dict in place, then keeps
  the marked ones. The model does both in one loop with the same result.
- Writing the uploaded bytes to `uploads/<name>`, the static mount and CORS set-up. Only the
  names, paths and URLs are modelled.
- `uuid.uuid4()` and `datetime.now()`. The request id and the timestamps are inputs.
- `get_ai_response` and the AI assistant endpoint. They make an external HTTP call and fall
  back on Python's per-process randomised `hash()`.
- Gpa.Gpa: exact rational arithmetic stands for Python floats, and the final
  `round(gpa, 2)` is not modelled. Hours are whole numbers. Fractional JSON numbers and
  non-numeric values of `credit_hours` or `letter` are not modelled.
- Citations.GenerateCitation: the request body is a map from strings to strings. JSON values
  of other types, such as an explicit `null` type, are not modelled.
- Classmates.GetClassmates: class records always have a `subject`. A stored class without
  one, which would raise `KeyError` in the loop, is not modelled.
- ClientForms.ParseInt: only ASCII white space and decimal digits are modelled. The `0x` hex
  prefix and Unicode white space are not; a number input does not produce them. Nor is the
  rounding of results beyond 2^53 to the nearest double: the model reads such a numeral
  exactly. A number input accepts such values, since `max` does not restrict what is typed.
- ClientForms.UpdateClass: requires an index in range and a value of the field's kind: a list
  for `days`, text otherwise. The form never does otherwise. JavaScript would throw on an
  out-of-range index and store any value.
- ClientForms.UpdateClass: the shallow copy shares entry objects with the previous state, so
  the source's assignment also changes the old list's entry. The model treats entries as
  values and does not capture this aliasing.
- ClientForms.UpdateGrade: requires an index in range, since JavaScript would throw beyond
  it. The same aliasing caveat applies.
- React rendering, `fetch` calls, alerts and `useEffect` wiring. The static school and
  academic-resource tables are data, not behaviour.
