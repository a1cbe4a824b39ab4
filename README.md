# Questionnaire intake app: admin aggregation and login decision

This project models the two pieces of the intake questionnaire application that hold decision and aggregation logic. Both live in otherwise UI-bound Next.js pages.

- **Admin dashboard** (`src/app/admin/page.js`, module `AdminPage` in `admin.dfy`):
  - The mount-time role gate. Only a stored user whose `role` is exactly `"admin"` gets in; everyone else is sent to `/login` and nothing is fetched.
  - The completion listing built by `fetchUsers`. The loop groups answer rows by `user_id` into a map of entries, each holding a set of questionnaire ids. `completedCount` is the size of that set.
  - The per-user detail grouping built by `openUserDetails`. It maps each questionnaire name (or `"Unknown Questionnaire"`) to the list of `{question, answer_text}` items, in row order. The `reduce` starts from an object literal `{}`, so a name that the object inherits from `Object.prototype` (`"constructor"`, `"__proto__"`, `"toString"` and the rest) is never given an array, and the push onto it throws: the modal then does not open.
  - The display rule that shows a missing or empty answer as `"(No answer)"`.
- **Login page** (`src/app/login/page.js`, module `LoginPage` in `login.dfy`):
  - The hard-coded `users` table.
  - `handleLogin`. It takes the first account whose username and password both equal the input exactly. A match routes to `/admin` or `/questionnaires` by `isAdmin`; no match shows the single message `"Invalid username or password"`.

How the page's effects appear in the model:

- Supabase query results are input sequences (`Query<T>`). A failed query is `QueryError`, and the corresponding method then reports no state change (`None` / `Unchanged`).
- `router.push` and `setError` become returned outcome values (`GateOutcome`, `LoginOutcome`).
- The React state set by `setUsersData` and `setSelectedUserDetails` is the value returned by `FetchUsers` and `OpenUserDetails`.

The two grouping loops are imperative in the source (`forEach` mutating a dictionary and `Set.add`; a `reduce` pushing onto arrays). They are methods with loops (`GroupByUser`, `GroupByQuestionnaire`), proved against specification predicates (`IsListing`, `IsGrouping`). Lemmas state what those specifications mean. The login lookup is pure (`Array.find`, then a branch) and is modelled by functions.

`JSON.parse` of the stored user becomes an `Option<StoredUser>`. A JavaScript "falsy" string (`undefined`, `null` or `""`) becomes `None` or `Some("")`, and everywhere the source writes `x || fallback` the model takes both as missing.

Where the specification and the code disagree, the model follows the code:

- Credentials are checked against the page's constant table, not against a data store.
- The login page routes on `isAdmin`, but the admin page checks `role`. The two are not reconciled.
- An empty answer text is shown as `"(No answer)"`, not only a missing one.
- Group names fall back on an empty name as well as on a missing one.

## Model

| member | source | states |
|---|---|---|
| `AdminPage.Gate` | src/app/admin/page.js:14-18 | The listing is loaded iff a stored user exists and its role is exactly `"admin"`; otherwise the outcome is a redirect to /login, which carries no fetch |
| `AdminPage.GateIsExact` | src/app/admin/page.js:15 | No stored user, a user without a role, and the role `"Admin"` are all redirected; only `"admin"` passes |
| `AdminPage.DisplayName` | src/app/admin/page.js:40 | A user's name is the joined username when present and non-empty, otherwise `"Unknown"`; it is never empty |
| `AdminPage.FirstIndex` | src/app/admin/page.js:37-44 | The position of a user's first row: that row is the user's and no earlier row is |
| `AdminPage.GroupByUser` | src/app/admin/page.js:34-51 | The result lists exactly the users occurring in the rows, each once, ordered by first row. Each has the name of its first row, its distinct questionnaire ids, and `completedCount` equal to their number |
| `AdminPage.FetchUsers` | src/app/admin/page.js:23-53 | A failed query leaves the table unchanged; a successful one yields the listing of its rows |
| `AdminPage.CompletedCountBounds` | src/app/admin/page.js:36-50 | Every listed user has `1 <= completedCount <= ` the number of that user's rows |
| `AdminPage.DistinctAtMostRows` | src/app/admin/page.js:42-45 | Within any prefix of the rows, a user's distinct questionnaires never outnumber the user's rows |
| `AdminPage.AppendRow` | src/app/admin/page.js:36-46 | A further row adds its questionnaire to its own user's set and one to that user's row count, adds its user to the listed users, and changes nothing for any other user |
| `AdminPage.RepeatedQuestionnaireNotCounted` | src/app/admin/page.js:42-50 | A further row for a questionnaire the user already answered raises the row count but leaves `completedCount` unchanged: distinct questionnaires are counted, not rows |
| `AdminPage.NewQuestionnaireCounted` | src/app/admin/page.js:45-50 | A further row for a questionnaire new to that user raises `completedCount` by exactly one |
| `AdminPage.FirstIndexStable` | src/app/admin/page.js:38 | Appending rows never moves a user's first row |
| `AdminPage.UsernameFromFirstRow` | src/app/admin/page.js:38-44 | The listed name comes from the user's first row, and appending further rows never changes it |
| `AdminPage.SameUsersSameOrder` | src/app/admin/page.js:48 | Two user lists that are strictly ordered by first row and hold the same users are equal |
| `AdminPage.ListingIsUnique` | src/app/admin/page.js:34-51 | The listing specification admits exactly one table for given rows, so the listing is fully determined by them |
| `AdminPage.ListingExample` | src/app/admin/page.js:34-51 | A user answering questionnaires 10 and 20, with 10 answered twice, is listed with a count of 2 over 3 rows |
| `AdminPage.ListingExampleOthers` | src/app/admin/page.js:34-51 | In the same rows, a user with only questionnaire 10 and no joined name is listed as `"Unknown"` with count 1; a user without rows is not listed |
| `AdminPage.GroupName` | src/app/admin/page.js:71-72 | A row's group is its questionnaire name when present and non-empty, otherwise `"Unknown Questionnaire"`; never empty |
| `AdminPage.GroupByQuestionnaire` | src/app/admin/page.js:70-81 | The grouping fails exactly when some row's group name is inherited from `Object.prototype`. Otherwise the keys are exactly the group names of the rows, in first-appearance order, and each key maps to the items of the rows carrying that name, in row order |
| `AdminPage.OpenUserDetails` | src/app/admin/page.js:56-88 | A failed query or a grouping that throws changes nothing; otherwise the modal opens for the given user on the grouping of the rows |
| `AdminPage.ThrowsExample` | src/app/admin/page.js:73-76 | A questionnaire named `"constructor"` makes the grouping throw; rows named `"Intake"` or falling back to `"Unknown Questionnaire"` do not |
| `AdminPage.NamesDistinct` | src/app/admin/page.js:73-75 | No questionnaire name is a key twice |
| `AdminPage.NamesExact` | src/app/admin/page.js:71-75 | The keys are exactly the group names occurring in the rows |
| `AdminPage.NamesFirstAppearance` | src/app/admin/page.js:73-75 | Within any prefix of the rows, every row of a later-listed name has a row of each earlier-listed name before it |
| `AdminPage.NamesInFirstAppearanceOrder` | src/app/admin/page.js:70-81 | The modal's groups are listed in the order in which their names first occur in the rows |
| `AdminPage.GroupEmptyUnlessNamed` | src/app/admin/page.js:73-76 | A group has items exactly when its name is among the keys |
| `AdminPage.GroupIsOrderedSubsequence` | src/app/admin/page.js:73-79 | Each group is the sequence of items of the rows with that name, taken at strictly increasing row positions; a row's position is used iff its name is the group's |
| `AdminPage.EveryRowInOneGroup` | src/app/admin/page.js:70-81 | Every row lands in exactly one group, the one its name selects, and that name is a key |
| `AdminPage.TotalStep` | src/app/admin/page.js:76-79 | Over any distinct set of names, one more row adds one item to the total iff its group name is among them |
| `AdminPage.EntriesConserved` | src/app/admin/page.js:70-81 | The groups together hold exactly as many items as there are rows: none lost, none duplicated |
| `AdminPage.DetailsExample` | src/app/admin/page.js:70-81 | A missing and an empty questionnaire name share the fallback group; two "Intake" rows stay in their order |
| `AdminPage.AnswerShown` | src/app/admin/page.js:138 | A missing or empty answer is shown as `"(No answer)"`; any other answer verbatim; the shown text is never empty |
| `LoginPage.FindAccount` | src/app/login/page.js:19-21 | Finds nothing iff no account matches both fields exactly; otherwise returns the first matching account in table order |
| `LoginPage.RouteFor` | src/app/login/page.js:27-31 | A matched admin account goes to /admin; any other matched account goes to /questionnaires |
| `LoginPage.HandleLoginIn` | src/app/login/page.js:17-35 | Navigation happens iff some account matches; it goes to the route of the first match. Otherwise the outcome is exactly the error `"Invalid username or password"` |
| `LoginPage.HandleLogin` | src/app/login/page.js:6-35 | On the page's table, /questionnaires is reached only with user1/password1, /admin only with admin1/adminpass1, and every other pair gets the one error |
| `LoginPage.FirstMatchWins` | src/app/login/page.js:19 | Accounts after a matching one never change the outcome |
| `LoginPage.WrongFieldIndistinguishable` | src/app/login/page.js:19-34 | Any two pairs that match no account give identical outcomes, whether the username is unknown, the password is wrong, or the password belongs to another account |
| `LoginPage.LoginExamples` | src/app/login/page.js:6-9 | The two stored pairs route by role; the comparison is case-sensitive; a wrong password and an unknown username look alike |

## Left out

- Supabase queries (src/app/admin/page.js:24-27, 57-62) are network I/O. Their results are input sequences, and the `.eq("user_id", userId)` filter is assumed to have been applied to the detail rows. `console.log` on an error is not modelled.
- Result order: `.order("user_id")` is the database's concern. The listing is modelled in first-appearance order, which `Object.values` gives for string keys. JavaScript lists integer-like object keys in ascending numeric order instead; this is not modelled, for user ids or for questionnaire names such as `"2024"`.
- Identifiers are `int`. JavaScript object keys are coerced to strings, so ids of different types that print alike (`1` and `"1"`) would share an entry; a `Set` would still keep them apart. Neither effect is modelled.
- `localStorage`, an exception from `JSON.parse` on malformed stored text, and a `role` that is not a string are platform state. The gate takes the parsed user as an `Option<StoredUser>`.
- `router.push`, React `useState`/`useEffect` and all JSX rendering and styling are presentation. Opening the modal is the `ShowModal` outcome; closing it is not modelled.
- The modal header (src/app/admin/page.js:125) reads `selectedUserDetails.username`, which `openUserDetails` never sets (lines 83-86). The header text is presentation and is not modelled.
- `OpenUserDetails`: when the grouping throws, the model reports only that nothing changes. The unhandled rejection of the async handler and its console error are runtime behaviour. The twelve inherited names are those of a standard `Object.prototype`; properties added to it by other scripts are not modelled.
- A detail row without a joined question would crash at src/app/admin/page.js:77. `DetailRow.question` is a plain string, so the model assumes the join is present.
- `HandleLogin`: the outcome of a successful login does not include the error text left over from an earlier failed attempt. `handleLogin` never clears that text, but the page navigates away.
- The session write at src/app/login/page.js:24 is commented out in the source, so nothing is persisted and the outcome carries no user. The table is an immutable constant, so no login attempt can change it.
- `e.preventDefault()` is a browser event detail.
- src/app/questionnaires/page.js, src/app/page.js, intake-questionnaire-system/src/app/layout.js and the answering flow in src/app/questionnaires/[id]/page.js are not part of this model: listing, an unconditional redirect, static layout, and the questionnaire form.
