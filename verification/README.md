# LMS course platform: the decision logic, in Dafny

This project models the decision logic of an LMS (learning management
system). Instructors create courses and lectures and publish them. Students
buy courses through a hosted payment checkout and track which lectures they
have watched. The modelled parts are:

- the server's purchase, progress, course-content and account handlers;
- a handful of pure client functions: the dashboard figures, the lecture
  form, the login page, request building, and the two Redux slices;
- the upload filter.

Every handler is a pure function from a `Store` (users, courses, lectures,
purchases, progress records) and the request's inputs to a status code and a
new `Store`. The functions return records rather than mutating anything.

Services the handlers call are parameters of these functions:

- **Payment gateway.** The session it creates or its failure, whether an
  event's signature is valid, and the event itself.
- **bcrypt.** The stored hash, and the comparison function used at login.
- **Media host.** Its reply to an upload: the delivery URL and public id,
  or a failure.
- **Course text match.** The search's text match is a predicate.

Modules, one per file, named after the code they follow:

| module | file | follows |
|---|---|---|
| `Common`, `Text`, `Records` | common.dfy, text.dfy, records.dfy | status codes, JavaScript truthiness, `String.prototype.trim`, `split("/").pop().split(".")[0]`, the stored records |
| `Purchases` | purchases.dfy | server/controllers/coursePurchase.controller.js |
| `Progress` | progress.dfy | server/controllers/courseProgress.controller.js |
| `Courses`, `Search` | courses.dfy, search.dfy | server/controllers/course.controller.js |
| `Accounts` | accounts.dfy | server/controllers/user.controller.js |
| `Dashboard`, `LectureForm`, `LoginPage` | dashboard.dfy, lecture_form.dfy, login_page.dfy | the admin dashboard, lecture tab and login page |
| `CourseApi` | course_api.dfy | client/src/features/api/courseApi.js |
| `AuthSlice`, `CourseSlice` | slices.dfy | client/src/features/authSlice.js and courseSlice.js |
| `Uploads` | uploads.dfy | server/utils/multer.js |
| `Scenarios` | scenarios.dfy | end-to-end properties that span several handlers |

## Representation

- **Ids.** Users and courses are sequences, and an id is a position in the
  sequence. Lectures are a map from a natural-number id; a new lecture gets
  an id not yet in use. Purchases are a sequence in insertion order, so
  "the first purchase with this session id" is well defined, as
  `findOne` is. Progress records are a map keyed by (user, course).
- **Missing values.** An optional request field is `Option<string>`.
  "Truthy" means present and not `""`.
- **Money.** A course price is a whole number of rupees. The gateway works
  in paise. A purchase's amount is a `real`, so `amount_total / 100` is
  exact.

## Behaviours worth knowing

The code behaves as follows in places where a reader might expect otherwise.

- **Completion counts entries.** A course counts as completed when the
  number of viewed entries equals the course's current number of lectures.
  The code does not check that each of the course's own lectures was seen.
  `Scenarios.CompletionByCount` shows a two-lecture course completed after
  viewing one of its lectures and a lecture from elsewhere.
- **A view never clears completion.** Once `completed` is true, a view
  leaves it true, even after the course gains lectures
  (`Scenarios.CompletionSurvivesNewLecture`).
- **No status check in the webhook.** Repeated deliveries are harmless only
  because every effect is an overwrite or a set insertion
  (`Purchases.WebhookIdempotent`, `Purchases.RedeliverIsOnce`).
- **Checkout stores nothing before the session exists.** The pending
  purchase is saved only after the gateway returns a session. A gateway
  failure therefore leaves no pending purchase behind.

## Model

| member | source | states |
|---|---|---|
| Text.Trim | server/controllers/course.controller.js:16-27 | the trimmed text starts and ends with a non-space, is empty exactly when the input is all whitespace, and is no longer than the input |
| Text.TrimDecomposes | server/controllers/course.controller.js:16-27 | any text is whitespace, then its trimmed form, then whitespace, so trimming only removes margins |
| Text.TrimIdempotent | server/controllers/course.controller.js:24-25 | a stored trimmed title or category trims to itself |
| Text.MediaNameOfUrl | server/controllers/user.controller.js:153-156 | cutting a URL `dir/name.ext` at its last `/` and then at the first `.` gives back `name` |
| Records.NewId | server/controllers/course.controller.js:238-240 | a created lecture receives an id that no stored lecture has |
| Purchases.Checkout | server/controllers/coursePurchase.controller.js:10-65 | 404 exactly for an unknown course and 500 exactly for a gateway failure, both without change. On success, exactly one pending purchase is appended with the course price as its amount and the session id as its payment id. The gateway is asked for one unit at price × 100 paise, and that converts back to the price in rupees |
| Purchases.FindBySession | server/controllers/coursePurchase.controller.js:88-90 | finds the first purchase carrying the session id, and none exactly when no purchase carries it |
| Purchases.Webhook | server/controllers/coursePurchase.controller.js:68-124 | a bad signature gives 400 and other event types give 200, both without change. An unknown session gives 404 without change. A known session completes its purchase with `amount_total / 100`. When the course exists, the webhook unlocks exactly that course's lectures as previews and enrols buyer and course in each other, and nothing else changes. When the course is gone it answers 500 after saving the purchase |
| Purchases.WebhookIdempotent | server/controllers/coursePurchase.controller.js:96-116 | delivering the same verified event twice leaves the store as one delivery does |
| Purchases.RedeliverIsOnce | server/controllers/coursePurchase.controller.js:96-116 | any number (≥ 1) of deliveries of one event equals a single delivery |
| Purchases.AnyCompleted | server/controllers/coursePurchase.controller.js:149-154 | the lookup finds something exactly when a completed purchase pairs the user with the course |
| Purchases.CourseAccess | server/controllers/coursePurchase.controller.js:127-170 | 404 exactly for an unknown course, and 500 when its creator's account is gone. `isCreator` holds exactly when the caller is the creator. `purchased` holds exactly for a non-creator with a completed purchase of the course |
| Purchases.CompletedPurchases | server/controllers/coursePurchase.controller.js:173-186 | the listing holds exactly the completed purchases |
| Purchases.CompletedPurchasesAppend | server/controllers/coursePurchase.controller.js:175-177 | the listing keeps store order: listing a concatenation concatenates the listings |
| Progress.GetProgress | server/controllers/courseProgress.controller.js:5-53 | 404 exactly for an unknown course. With no record, the reply is an empty, incomplete progress. Otherwise it is the stored entries and flag |
| Progress.GetAfterView | server/controllers/courseProgress.controller.js:5-95 | reading progress after a view reports the entries the view stored; a completed course stays reported completed, and an incomplete one is reported completed exactly when the lecture count equals the viewed count |
| Progress.GetAfterMark | server/controllers/courseProgress.controller.js:5-178 | reading progress after a manual override reports the override: all entries viewed and completed, or none viewed and not completed; without a record, an empty incomplete progress |
| Progress.MarkViewed | server/controllers/courseProgress.controller.js:74-85 | after a view the lecture has an entry marked viewed. An entry is appended exactly when the lecture had none. Other entries keep their place and value, and no lecture gets two entries |
| Progress.MarkViewedFresh | server/controllers/courseProgress.controller.js:74-85 | viewing a lecture that has no entry appends one viewed entry and leaves the others as they were |
| Progress.MarkViewedIdempotent | server/controllers/courseProgress.controller.js:74-80 | viewing a lecture twice leaves the entries as one view does |
| Progress.ViewedCountIsTrueFlags | server/controllers/courseProgress.controller.js:89-91 | the viewed count is the number of `true` flags among the entries |
| Progress.ViewedCountGrows | server/controllers/courseProgress.controller.js:74-91 | a view raises the viewed count by at most one and never lowers it |
| Progress.ViewLecture | server/controllers/courseProgress.controller.js:56-110 | the record is created when missing and only that record changes. The lecture is upserted as viewed. `completed` never falls. It is raised when the course exists and its lecture count equals the viewed count, and only then |
| Progress.ViewIdempotent | server/controllers/courseProgress.controller.js:74-95 | repeating a view leaves the whole store unchanged |
| Progress.SetCompletion | server/controllers/courseProgress.controller.js:113-178 | without a record: 404, nothing created. Otherwise every existing entry's flag and the completion flag are set to the given value, keeping the lectures and their order |
| Progress.MarkCompleted | server/controllers/courseProgress.controller.js:113-144 | 404 and no change exactly without a record, and 200 otherwise. The record keeps its lectures and their order with every entry viewed, is completed, and no other record or collection changes |
| Progress.MarkIncomplete | server/controllers/courseProgress.controller.js:147-178 | 404 and no change exactly without a record, and 200 otherwise. The record keeps its lectures and their order with no entry viewed, is not completed, and no other record or collection changes |
| Courses.CreateCourse | server/controllers/course.controller.js:12-41 | 400 exactly when the title or category is missing or only whitespace. Otherwise 201 and one new course holding the trimmed values, owned by the caller, with no lectures and unpublished |
| Courses.CreateLecture | server/controllers/course.controller.js:226-258 | 400 exactly for a blank title. Otherwise a lecture under a fresh id with the trimmed title, and that id appended to the end of the course's lecture list when the course exists. Nothing else changes |
| Courses.PreviewFlag | server/controllers/course.controller.js:319-322 | an absent field keeps the current value. Otherwise the flag is true exactly for the text `"true"` or the boolean `true` |
| Courses.EditLecture | server/controllers/course.controller.js:287-338 | 404 exactly for an unknown lecture. The title is overwritten only by a truthy title. A new video replaces URL and public id and deletes the old video when it had a public id. The preview flag follows `PreviewFlag`. Only that lecture changes |
| Courses.ThumbnailPublicIdOfUrl | server/controllers/course.controller.js:146-150 | the old thumbnail's id is the thumbnail folder followed by the URL's file name without extension |
| Courses.ThumbnailPublicId | server/controllers/course.controller.js:146-150 | the id is the thumbnail folder followed by a name free of `/` and `.` |
| Courses.EditCourse | server/controllers/course.controller.js:122-194 | 404 exactly for an unknown course. The price changes only when supplied and not `""`. A new thumbnail replaces the URL and deletes the old one when there was one. Absent text fields keep their values, and other records are untouched |
| Courses.PullAppend | server/controllers/course.controller.js:379-382 | removing an id from a list removes it from both halves and keeps the order of what remains |
| Courses.Pull | server/controllers/course.controller.js:379-382 | the result holds exactly the ids other than the pulled one, and is no longer than the list |
| Courses.PullAbsent | server/controllers/course.controller.js:379-382 | pulling an id the list does not hold leaves it unchanged |
| Courses.FirstCourseWith | server/controllers/course.controller.js:379-382 | the first course, in store order, whose lecture list holds the id, and none exactly when no course holds it |
| Courses.RemoveLecture | server/controllers/course.controller.js:365-395 | 404 exactly for an unknown lecture. Otherwise the lecture is deleted, its video is deleted when it had one, and its id is pulled from the first course that lists it. Every other course is unchanged |
| Courses.TogglePublish | server/controllers/course.controller.js:398-452 | 404 for an unknown course. Publishing answers 400 without change when the course has no lectures or none with a video marked as a free preview. Any other value unpublishes unconditionally. On success `isPublished` is exactly `publish == "true"` |
| Courses.PublishableIffPreview | server/controllers/course.controller.js:411-430 | a known course can be published exactly when some lecture it lists has a video and is a free preview |
| Search.SortChoice | server/controllers/course.controller.js:61-63 | `"low"` means ascending, `"high"` descending, and anything else no sort |
| Search.SortCourses | server/controllers/course.controller.js:61-67 | the courses come back as a permutation of the input, ordered by price as the sort option asks, and unchanged when no sort applies |
| Search.SearchCourses | server/controllers/course.controller.js:44-80 | the result holds exactly the published courses the query matches, each as often as stored. It is ordered by ascending or descending price as asked, and kept in store order when no sort applies |
| Accounts.Register | server/controllers/user.controller.js:10-47 | 400 without change when a field is missing or when the address is already registered. Otherwise 201 and one new account storing the bcrypt hash. Unique addresses stay unique |
| Accounts.Login | server/controllers/user.controller.js:50-85 | 400 when a field is missing. An unknown address and a wrong password get the same message. 201 exactly when the first account with the address has a hash the password matches |
| Accounts.LoginIffMatch | server/controllers/user.controller.js:61-77 | with unique addresses, login succeeds exactly for a registered address whose stored hash matches |
| Accounts.RegisterThenLogin | server/controllers/user.controller.js:29-38 | a fresh registration can log in at once with the same password and gets the same user back |
| Accounts.UpdateProfile | server/controllers/user.controller.js:134-191 | 404 exactly for an unknown user. A request with a photo first deletes the old photo under its derived id when there was one, then passes the file's `path` to the upload; a falsy path or a failed upload gives 500 with the account unchanged. Otherwise the name is replaced only by a truthy name and the photo URL only by the upload's URL, and nothing else changes |
| Accounts.UploadMedia | server/utils/cloudinary.js:19-22 | a falsy argument is rejected without contacting the host; otherwise the host's reply is the result |
| Accounts.PhotoUploadFailsInMemory | server/controllers/user.controller.js:150-168 | with a file as memory storage delivers it, every photo update answers 500 after deleting the old photo and keeps the stored URL, while passing the buffer stores the host's URL |
| Accounts.UpdateProfileIntended | server/controllers/user.controller.js:134-191 | the handler with the buffer passed to the upload: the same 404 and deletion rules, 500 only when the host fails, and otherwise the host's URL replaces the photo |
| Accounts.NoPhotoSameReply | server/controllers/user.controller.js:134-182 | without a photo the handler as written and the corrected one give the same reply |
| Accounts.FindByEmail | server/controllers/user.controller.js:21 | the first account with the address, and none exactly when no account has it |
| Accounts.PhotoPublicId | server/controllers/user.controller.js:153-156 | the derived id has no `/` and no `.` and is no longer than the URL |
| Accounts.PhotoPublicIdOfUrl | server/controllers/user.controller.js:153-156 | the old photo's id is the URL's file name without extension and without a folder |
| Dashboard.Summarise | client/src/pages/admin/Dashboard.jsx:20-32 | a missing list gives zero sales, zero revenue and no points. Sales count the records. Revenue is their amount total. There is one point per record, in order, named "Unknown" exactly when the course or its title is missing or the title is itself "Unknown", and priced 0 when the price is missing |
| Dashboard.RevenueAppend | client/src/pages/admin/Dashboard.jsx:27-30 | revenue over a concatenation is the sum of the revenues |
| Dashboard.RevenueNonNegative | client/src/pages/admin/Dashboard.jsx:27-30 | revenue is never negative when no amount is |
| Dashboard.DashboardOfListing | client/src/pages/admin/Dashboard.jsx:20-32 | fed the server's listing, the dashboard shows one sale per completed purchase and their summed amounts. Each point carries the course's title and price, or "Unknown" and 0 when the course is gone |
| LectureForm.Prefill | client/src/pages/admin/lecture/LectureTab.jsx:50-55 | the title becomes the lecture's title or `""` when it has none, the switch becomes `Boolean(isPreviewFree)`, and the chosen file is kept |
| LectureForm.ChooseFile | client/src/pages/admin/lecture/LectureTab.jsx:58-61 | the first chosen file becomes the selection; choosing nothing keeps the previous file |
| LectureForm.ChooseThenSubmit | client/src/pages/admin/lecture/LectureTab.jsx:58-76 | after choosing files the saved body carries the first one under `file`; choosing nothing sends the same body as before |
| LectureForm.Submit | client/src/pages/admin/lecture/LectureTab.jsx:64-76 | no request exactly when the title is blank. Otherwise the body is the title, the switch as `"true"`/`"false"`, and the file only when one is chosen |
| LectureForm.EncodePreview | client/src/pages/admin/lecture/LectureTab.jsx:72 | the switch is sent as exactly `"true"` or `"false"`, `"true"` exactly when on |
| LectureForm.EncodePreviewRoundTrip | server/controllers/course.controller.js:319-322 | the server's parsing of the sent switch gives back the form's boolean, whatever the lecture held before |
| LectureForm.SubmittedFields | client/src/pages/admin/lecture/LectureTab.jsx:64-76 | the server reads a submitted body back as the typed title and the encoded switch, and sees a file exactly when one was chosen |
| LectureForm.SubmitThenEdit | client/src/pages/admin/lecture/LectureTab.jsx:64-76 | a submitted form stores the typed title and the switch's value on the server, and replaces the video exactly when a file was chosen |
| LectureForm.PrefillThenSubmitKeeps | client/src/pages/admin/lecture/LectureTab.jsx:50-76 | saving a lecture straight after opening it leaves its title and preview flag as they were |
| LoginPage.ChangeInput | client/src/pages/Login.jsx:45-52 | only the named field of the chosen form changes, and the other form is untouched |
| LoginPage.ToggleRole | client/src/pages/Login.jsx:54-59 | a student becomes an instructor and anything else a student, with no other field changed |
| LoginPage.ToggleRoleInvolution | client/src/pages/Login.jsx:54-59 | on the two offered roles, toggling twice restores the forms |
| LoginPage.SignupPayloadIgnoresOtherFields | client/src/pages/Login.jsx:62-69 | the signup body carries exactly the four fields, so typing elsewhere does not change it |
| LoginPage.SignupPayload | client/src/pages/Login.jsx:62-69 | the signup body carries the form's name, email, password and role |
| LoginPage.PostAuthRoute | client/src/pages/Login.jsx:74-78 | the dashboard route exactly for a returned instructor, home otherwise |
| LoginPage.SignupRoute | client/src/pages/Login.jsx:62-83 | a successful signup from the page lands an instructor on the dashboard and a student at home |
| CourseApi.SearchParams | client/src/features/api/courseApi.js:40-48 | `query` only when truthy, `categories` comma-joined only when non-empty, `sortByPrice` only when truthy; always in that order, each at most once |
| CourseApi.SearchUrl | client/src/features/api/courseApi.js:46 | the URL is `/search`, a `?`, and the query string of the chosen parameters |
| CourseApi.QueryRoundTrip | client/src/features/api/courseApi.js:42-46 | reading a built query string back gives the parameters it was built from |
| CourseApi.SearchRoundTrip | client/src/features/api/courseApi.js:40-48 | the server reads back exactly the search parameters the client chose |
| CourseApi.PublishThroughClient | client/src/features/api/courseApi.js:136-147 | a publish request is a PATCH whose query gives `publish` back unchanged, and a successful toggle publishes exactly when the client sent `"true"` |
| CourseApi.PublishRequest | client/src/features/api/courseApi.js:137-141 | a PATCH whose path is the course id and whose query is `publish=<value>` |
| CourseApi.PrepareHeaders | client/src/features/api/courseApi.js:11-16 | a present, non-empty token adds `authorization: Bearer <token>`. Otherwise the headers pass through, and no other header changes. The server's authentication middleware reads the `token` cookie and ignores this header |
| CourseApi.BearerRoundTrip | client/src/features/api/courseApi.js:11-16 | a reader of the built header gets back exactly the stored token when one was present, and nothing otherwise |
| AuthSlice.Reduce | client/src/features/authSlice.js:20-31 | login stores the payload's user, even a null one, and authenticates. Logout restores the initial state. Other actions change nothing |
| AuthSlice.LoggedOutIdempotent | client/src/features/authSlice.js:27-30 | logging out restores the initial state from any state, and a second logout changes nothing |
| AuthSlice.ReplayConsistent | client/src/features/authSlice.js:8-31 | from the initial state no sequence of actions reaches an unauthenticated state that holds a user |
| AuthSlice.AuthenticatedIffLastLogin | client/src/features/authSlice.js:8-31 | after any history the session is authenticated exactly when the last handled action was a login |
| CourseSlice.Reduce | client/src/features/courseSlice.js:21-38 | each setter changes only its own field, to its payload, and clearing the selection changes only the selection |
| CourseSlice.SelectThenClear | client/src/features/courseSlice.js:27-33 | selecting and then clearing equals clearing alone |
| CourseSlice.ReplayCourses | client/src/features/courseSlice.js:21-38 | after any history the course list is the payload of the last `setCourses`, or the starting list when there was none |
| Uploads.FileFilter | server/utils/multer.js:7-27 | accepted exactly for the six listed types. A rejection passes the error message and `false` |
| Uploads.AllowlistExact | server/utils/multer.js:8-17 | membership is exact: `image/gif`, `IMAGE/PNG` and `video/mkv` are rejected |
| Uploads.MaxFileSizeValue | server/utils/multer.js:33-35 | the size limit is 104,857,600 bytes |
| Scenarios.PurchaseGrantsAccess | server/controllers/coursePurchase.controller.js:10-155 | checkout alone grants nothing. Checkout followed by the completion event charged at the quoted amount grants access, records the course price as the amount, enrols buyer and course, and unlocks the course's lectures |
| Scenarios.ViewAllFrame | server/controllers/courseProgress.controller.js:56-98 | a sequence of views changes only progress, and after one view the learner has a record for the course |
| Scenarios.ViewAllEntries | server/controllers/courseProgress.controller.js:62-85 | viewing distinct lectures from no progress leaves exactly one viewed entry per lecture, in viewing order |
| Scenarios.WatchingEveryLectureCompletes | server/controllers/courseProgress.controller.js:56-95 | viewing each of a course's lectures once, from no progress, completes the course |
| Scenarios.CompletionByCount | server/controllers/courseProgress.controller.js:88-95 | a two-lecture course is marked completed after viewing one of its lectures and a foreign one |
| Scenarios.CompletionSurvivesNewLecture | server/controllers/courseProgress.controller.js:88-95 | a completed course stays completed when a lecture is added and the learner views again |

## Findings

| source | as written | input that shows it | evidently intended | confidence | as-written member | corrected member |
|---|---|---|---|---|---|---|
| server/controllers/user.controller.js:162-165 | the profile photo's `path` is passed to `uploadMedia`, which rejects a falsy argument (server/utils/cloudinary.js:19-22); memory storage, the only storage server/utils/multer.js:4 configures, sets no `path` | any existing user updating the profile with a photo: the handler deletes the old photo and then answers 500, and the stored URL stays as it was | pass `profilePhoto.buffer`, as the course handlers do (server/controllers/course.controller.js:155), so an accepted upload replaces the photo URL | medium, not executed; the route file that picks the middleware for this handler is not part of this model | Accounts.UpdateProfile, Accounts.PhotoUploadFailsInMemory | Accounts.UpdateProfileIntended |

## Left out

- **Payment gateway SDK.** Session creation, signature verification and
  event parsing are parameters: a reply, a validity flag and an event
  record. The redirect URLs, metadata and shipping options sent to the
  gateway are not modelled.
- **Webhook body parsing.** The webhook's need for the raw request body,
  and the global JSON body parser in server/index.js, are routing
  concerns. The routing files are not part of this model.
- **Database queries.** `populate`, the case-insensitive `$regex` search
  and the `$in` category filter are not modelled. `populate` is
  represented by looking ids up in the store, which drops dangling
  references. The text match is a predicate parameter.
  - `Search.SearchCourses`: the `categories` filter is not modelled,
    because the query string delivers it as one comma-joined text that
    `$in` compares whole.
- **Schema defaults and validation.** Mongoose schema defaults and
  validators are not modelled; server/models is not part of this model.
  - A new course's price is 0 here.
  - A new lecture has no video URL, no public id and `isPreviewFree`
    false (`Courses.CreateLecture`).
  - Role values are not restricted to the two the page offers.
- **Number parsing.** `Number(coursePrice)` is a function parameter
  returning a natural number. Prices that are fractional, negative or not
  a number are not modelled.
- **Money.** Integer rupees and paise stand in for the source's floating
  point.
  - `Purchases.Checkout`: `Rupees(price × 100) == price` holds exactly.
    In the source, the same division happens in floating point.
- **Media host, bcrypt and JWT.** The media host behind
  server/utils/cloudinary.js is a parameter; of `uploadMedia` only the
  rejection of a falsy argument is modelled. bcrypt, and token issuing or
  checking (generateToken and the authentication middleware), are not part
  of this model.
  - `Accounts.UpdateProfile`: the deletion of the old photo is reported, not
    performed; a failure of that deletion is not modelled.
  - The authenticated caller's id is a parameter.
  - `Accounts.Register` receives the hash as a parameter. "Never stores
    the plaintext" is stated only as "stores exactly the value bcrypt
    returned".
- **Unexpected exceptions.** Failures of a database call and other 500
  answers from unexpected exceptions are not modelled. The only 500s
  modelled are the gateway failure, a webhook whose course is gone, an
  access check whose creator is gone, and a profile photo whose upload
  is rejected or fails.
- **Concurrency.** Every request runs alone. Races between webhook
  deliveries, and whole-document saves of progress records, are not
  modelled.
- **Percent-encoding.** `URLSearchParams` percent-encoding is not
  modelled. The query round-trip is stated for values without `&`.
- **Client side effects.** `localStorage`, toasts, navigation, chart
  rendering, RTK Query cache tags and the other API definitions are not
  modelled. The post-login route is returned as a value.
- **JavaScript values of other types.** Only strings, booleans, absent
  values and the record shapes above are modelled. For example, a numeric
  `publish` value or a non-array `categories` is not.
- **Revenue amounts.** `Dashboard.Summarise`: amounts are real numbers,
  so JavaScript's `NaN` amount, which `|| 0` also maps to 0, is not
  modelled.
