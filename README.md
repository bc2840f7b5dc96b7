# Job form and user session slice

A model of two pieces of the job-tracking front end:

- **The job form component** (`JobForm.tsx`). It holds a job record of
  nine string fields (an optional identifier plus title, description,
  location, salary, skills, category, date of post and last date) and a
  partial record of error messages. It offers these handlers:
  - seeding the record from an optional initial job;
  - replacing it when the initial job changes;
  - editing one field, which also blanks that field's error entry;
  - validation: six non-blank text fields, a date of post not after today,
    and a last date not before today;
  - reset;
  - submit, which hands the record on only when validation passes.
- **The user slice** (`user.ts`). It holds the session record
  (authenticated flag, status, role) and its four case reducers: `login`,
  `loginSuccess`, `logOut` and `logOutSuccess`.

Modules:

- `Options` (`options.dfy`): the optional value used for `id?`, for
  `null` roles and for error entries.
- `Text` (`text.dfy`):
  - `String.prototype.trim` over the ECMAScript whitespace set;
  - the relational operators on strings, as a strict order `LexLt` and an
    independently defined non-strict order `LexLe`;
  - proofs that `LexLe` is total, transitive and antisymmetric, that
    `LexLt` is irreflexive and transitive, and that the two agree.
- `IsoDate` (`iso_date.dfy`): `YYYY-MM-DD` strings. It proves that
  comparing two such strings as strings is comparing them as calendar
  dates. This is why the form's string comparisons against today's date
  mean what they say.
- `JobFormModel` (`job_form.dfy`):
  - the record, the error record, the validation rules as predicates, and
    the code's checks as a function, proved to coincide field by field;
  - the component as a class `JobForm`, whose two fields are the two state
    cells and whose methods are the handlers.
- `UserSlice` (`user_slice.dfy`):
  - the reducer as a function on values, and runs of actions as a fold;
  - the slice's state cell as a class `UserStore`, whose methods are the
    case reducers, each tied to the reducer function;
  - a characterisation of the reachable states: a state is reachable from
    the initial state exactly when it is consistent. Consistent means ready
    implies authenticated, and idle implies not authenticated.

Today's date is a parameter (`today`) wherever validation needs the clock.

## Model

The functions that compute what the component computes appear in the
table through the lemmas about them:

- `JobFormModel.ComputeErrors` is the check sequence of `validate`, written
  as the code writes it. Its rows are `ErrorsFollowRules`,
  `NoErrorsIffValid`, `TextFieldChecked`, `OnlyBlankFieldReported`,
  `DateOfPostBoundary`, `LastDateBoundary` and `BlankIsInvalid`.
- `JobFormModel.Seed` and `JobFormModel.OrEmpty` are the `useState`
  initialiser and `x || ''`. Their row is `SeedFields`.
- `JobFormModel.Set` is `{...prev, [name]: value}`. Its rows are
  `SetThenGet` and `SetGetIdentity`.
- `JobFormModel.WithEntry` is `{...prev, [name]: ''}`. Its row is
  `WithEntryThenEntryAt`.
- `Text.LexLt` is JavaScript's `<` on strings (`a > b` is `LexLt(b, a)`).
  Its rows are the `Text.Lex*` lemmas, `IsoDate.LexLtConcat` and
  `IsoDate.FormatOrder`.
- `UserSlice.Run` folds the reducer over a sequence of actions. Its rows
  are the `UserSlice` lemmas.

| member | source | states |
|---|---|---|
| Text.TrimStart | react-redux-saga-boilerplate/src/components/JobForm.tsx:66-71 | removing leading whitespace gives the empty string exactly when the input is all whitespace; otherwise the result starts with a non-whitespace character |
| Text.TrimEnd | react-redux-saga-boilerplate/src/components/JobForm.tsx:66-71 | removing trailing whitespace gives the empty string exactly when the input is all whitespace; otherwise the result ends with a non-whitespace character |
| Text.TrimStartRemovesBlankPrefix | react-redux-saga-boilerplate/src/components/JobForm.tsx:66-71 | the input is an all-whitespace prefix followed by the trimmed result |
| Text.TrimEndRemovesBlankSuffix | react-redux-saga-boilerplate/src/components/JobForm.tsx:66-71 | the input is the trimmed result followed by an all-whitespace suffix |
| Text.Trim | react-redux-saga-boilerplate/src/components/JobForm.tsx:66-71 | `trim()` yields the empty (falsy) string exactly when the field holds nothing but whitespace |
| Text.TrimEnds | react-redux-saga-boilerplate/src/components/JobForm.tsx:66-71 | a non-empty trimmed string starts and ends with non-whitespace |
| Text.LexLtIrreflexive | react-redux-saga-boilerplate/src/components/JobForm.tsx:74 | no string is `>` itself |
| Text.LexLeReflexive | react-redux-saga-boilerplate/src/components/JobForm.tsx:77 | every string is `<=` itself, so a date equal to today is never "before" it |
| Text.LexLeIffNotLt | react-redux-saga-boilerplate/src/components/JobForm.tsx:74-79 | `a <= b` exactly when not `b < a`: the `>` and `<` rejections are the complements of the `<=` acceptances |
| Text.LexLeIffLtOrEq | react-redux-saga-boilerplate/src/components/JobForm.tsx:74-79 | `a <= b` exactly when `a == b` or `a < b` |
| Text.LexLtTransitive | react-redux-saga-boilerplate/src/components/JobForm.tsx:74-79 | string `<` is transitive |
| Text.LexLeTransitive | react-redux-saga-boilerplate/src/components/JobForm.tsx:74-79 | string `<=` is transitive |
| Text.LexLeAntisymmetric | react-redux-saga-boilerplate/src/components/JobForm.tsx:74-79 | strings that are `<=` each other are equal |
| IsoDate.Digits | react-redux-saga-boilerplate/src/components/JobForm.tsx:73 | a zero-padded decimal has exactly the requested width |
| IsoDate.Format | react-redux-saga-boilerplate/src/components/JobForm.tsx:73 | an ISO date string is ten characters long |
| IsoDate.MonthDay | react-redux-saga-boilerplate/src/components/JobForm.tsx:73 | the `-MM-DD` tail is six characters long |
| IsoDate.LexLtConcat | react-redux-saga-boilerplate/src/components/JobForm.tsx:74-79 | strings split at the same length compare by their first parts, and by their second parts when the first parts are equal |
| IsoDate.DigitsOrder | react-redux-saga-boilerplate/src/components/JobForm.tsx:73-79 | zero-padded numbers of one width are equal exactly when the numbers are, and string order is numeric order |
| IsoDate.MonthDayOrder | react-redux-saga-boilerplate/src/components/JobForm.tsx:73-79 | `-MM-DD` tails compare as (month, day) pairs |
| IsoDate.FormatInjective | react-redux-saga-boilerplate/src/components/JobForm.tsx:73 | distinct dates have distinct ISO strings |
| IsoDate.FormatOrder | react-redux-saga-boilerplate/src/components/JobForm.tsx:73-79 | ISO date strings compare with `<` exactly as the dates compare chronologically |
| IsoDate.FormatOrderLe | react-redux-saga-boilerplate/src/components/JobForm.tsx:73-79 | `<=` on ISO date strings is "not after" on dates |
| JobFormModel.SetThenGet | react-redux-saga-boilerplate/src/components/JobForm.tsx:43-46 | `{...prev, [name]: value}` holds `value` at `name`, and every other field and the identifier as before |
| JobFormModel.SetGetIdentity | react-redux-saga-boilerplate/src/components/JobForm.tsx:43-46 | writing back a field's own value leaves the record unchanged |
| JobFormModel.BlankDetails | react-redux-saga-boilerplate/src/components/JobForm.tsx:87-97 | the reset record has the identifier `''` and every field `''` |
| JobFormModel.SeedFields | react-redux-saga-boilerplate/src/components/JobForm.tsx:21-31 | with no initial job the form starts blank; with one, every field is copied and a missing identifier becomes `''` |
| JobFormModel.Keys | react-redux-saga-boilerplate/src/components/JobForm.tsx:83 | `Object.keys` of the errors is exactly the set of fields with an entry, whatever the entry holds |
| JobFormModel.WithEntryThenEntryAt | react-redux-saga-boilerplate/src/components/JobForm.tsx:49-52 | `{...prev, [name]: ''}` holds `''` at `name` and leaves every other entry as it was |
| JobFormModel.MessagesDistinct | react-redux-saga-boilerplate/src/components/JobForm.tsx:66-78 | the eight messages are pairwise distinct |
| JobFormModel.ErrorsFollowRules | react-redux-saga-boilerplate/src/components/JobForm.tsx:64-79 | each field's computed entry is its message when the field breaks its rule, and absent otherwise |
| JobFormModel.NoErrorsIffValid | react-redux-saga-boilerplate/src/components/JobForm.tsx:63-84 | validation finds no key exactly when all six text fields are non-blank and both dates satisfy their rules |
| JobFormModel.TextFieldChecked | react-redux-saga-boilerplate/src/components/JobForm.tsx:66-71 | a text field has an entry exactly when it is blank, and the entry is that field's own message |
| JobFormModel.OnlyBlankFieldReported | react-redux-saga-boilerplate/src/components/JobForm.tsx:64-79 | when the only fault is one blank text field, that field gets its message and no other field gets an entry |
| JobFormModel.DateOfPostBoundary | react-redux-saga-boilerplate/src/components/JobForm.tsx:74-76 | the date of post passes exactly when it is given and `<=` today; equal to today passes; empty or later gets "Invalid date of post" |
| JobFormModel.LastDateBoundary | react-redux-saga-boilerplate/src/components/JobForm.tsx:77-79 | the last date passes exactly when it is given and `>=` today; equal to today passes; empty or earlier gets "Invalid last date" |
| JobFormModel.ValidDatesOrdered | react-redux-saga-boilerplate/src/components/JobForm.tsx:73-79 | an accepted record never has its last date before its date of post |
| JobFormModel.DateRulesAreChronological | react-redux-saga-boilerplate/src/components/JobForm.tsx:73-79 | for well-formed ISO dates the two rules are "post not after today" and "today not after last date" |
| JobFormModel.BlankIsInvalid | react-redux-saga-boilerplate/src/components/JobForm.tsx:63-99 | a reset record never validates; every field gets an entry |
| JobFormModel.JobForm.constructor | react-redux-saga-boilerplate/src/components/JobForm.tsx:20-33 | at the first render the form holds the seeded record and no errors |
| JobFormModel.JobForm.SyncInitialJob | react-redux-saga-boilerplate/src/components/JobForm.tsx:35-39 | a given initial job replaces the record verbatim; otherwise nothing changes; errors are untouched |
| JobFormModel.JobForm.HandleChange | react-redux-saga-boilerplate/src/components/JobForm.tsx:41-53 | the named field takes the value and its error entry becomes `''`; every other field, the identifier and every other entry are unchanged |
| JobFormModel.JobForm.Validate | react-redux-saga-boilerplate/src/components/JobForm.tsx:63-84 | the errors are replaced by a fresh computation; the record is unchanged; the result is true exactly when there is no key, which is exactly when the record is valid |
| JobFormModel.JobForm.ResetForm | react-redux-saga-boilerplate/src/components/JobForm.tsx:86-99 | from any state, the record becomes blank and the errors empty |
| JobFormModel.JobForm.HandleSubmit | react-redux-saga-boilerplate/src/components/JobForm.tsx:55-61 | validates; the record is handed on exactly when it is valid, and never otherwise |
| UserSlice.Reduce | react-redux-saga-boilerplate/src/store/slices/user.ts:17-31 | every action leads to a consistent state; only `login` changes the role; `login` and `logOut` keep the authentication flag and set the status to running |
| UserSlice.RunSnoc | react-redux-saga-boilerplate/src/store/slices/user.ts:13-33 | dispatching one more action applies the reducer to the state reached |
| UserSlice.ReduceIdempotent | react-redux-saga-boilerplate/src/store/slices/user.ts:17-31 | dispatching any action twice in a row gives the same state as once |
| UserSlice.RunPreservesConsistent | react-redux-saga-boilerplate/src/store/slices/user.ts:17-31 | any run of actions keeps a consistent state consistent |
| UserSlice.ReachableIsConsistent | react-redux-saga-boilerplate/src/store/slices/user.ts:7-31 | every state reached from `userState` is consistent |
| UserSlice.RoleIsLastLogin | react-redux-saga-boilerplate/src/store/slices/user.ts:17-31 | after a run, the role is the payload of the last `login`, or the role before the run; `logOutSuccess` does not clear it |
| UserSlice.StatusIsLastAction | react-redux-saga-boilerplate/src/store/slices/user.ts:17-31 | after a non-empty run, the status is fixed by the last action alone |
| UserSlice.WitnessReaches | react-redux-saga-boilerplate/src/store/slices/user.ts:7-31 | every consistent state is reached from `userState` by an explicit run |
| UserSlice.ReachableIffConsistent | react-redux-saga-boilerplate/src/store/slices/user.ts:7-31 | the states reachable from `userState` are exactly the consistent ones |
| UserSlice.UserStore.constructor | react-redux-saga-boilerplate/src/store/slices/user.ts:7-11 | the store starts at `userState`: not authenticated, idle, no role |
| UserSlice.UserStore.Login | react-redux-saga-boilerplate/src/store/slices/user.ts:17-20 | status becomes running and the role becomes the payload; authentication is unchanged; this is the reducer's step and the state stays consistent |
| UserSlice.UserStore.LoginSuccess | react-redux-saga-boilerplate/src/store/slices/user.ts:21-24 | authenticated and ready; the role is unchanged; this is the reducer's step |
| UserSlice.UserStore.LogOut | react-redux-saga-boilerplate/src/store/slices/user.ts:25-27 | status becomes running; authentication and role are unchanged; this is the reducer's step |
| UserSlice.UserStore.LogOutSuccess | react-redux-saga-boilerplate/src/store/slices/user.ts:28-31 | not authenticated and idle; the role is kept; this is the reducer's step |

## Left out

- Rendering: the JSX markup, the `is-invalid` classes, the feedback
  elements and the heading and button texts chosen by `initialJob` are
  presentation only. They do not affect the state.
- React's scheduling: each handler is modelled as one atomic update of the
  two state cells. Batching, re-renders and the effect's dependency
  tracking are not modelled. `SyncInitialJob` is the effect's body, run
  whenever the caller chooses. A mount is `new JobForm(j)` (the first
  render) followed by `SyncInitialJob(j)` (the effect that runs after it).
  So a mounted form holds the initial job itself, and an absent `id` stays
  absent rather than becoming `''`.
- The clock: `new Date().toISOString().split('T')[0]` (today's UTC date) is
  the parameter `today` of `Validate` and `HandleSubmit`.
- The `onSubmit` callback: it is the caller's code. `HandleSubmit` returns
  the record that would be passed to it, or nothing. What the callback
  does with the record, or with `resetForm`, is not modelled.
- Events: `handleChange` takes the input's `name` and `value` directly.
  `preventDefault` has no counterpart.
- JobFormModel.JobForm.HandleChange: `name` ranges over the eight input
  names the form renders. A write under any other key, including `id`,
  cannot come from the form and is not modelled.
- JobFormModel.FieldErrors: the error record has no entry for `id`.
  Nothing in the component ever writes one.
- Text.Trim: characters are Dafny `char`s (code points), not UTF-16 code
  units. For the blank test this makes no difference: `trim` removes no
  character above U+FFFF and no surrogate, so `Trim(s) == ""` gives
  JavaScript's answer for any text, emoji included. The whitespace set is
  that of a current ECMAScript edition. Older engines' differences
  (U+180E) are not modelled.
- Text.LexLt: compares code points, whereas JavaScript compares UTF-16
  code units. In edit mode the two date fields hold whatever strings the
  initial job holds (JobForm.tsx:29-30, 37) until the user edits them,
  so they are not necessarily date-input values. But one operand of each
  comparison (JobForm.tsx:74, 77) is `currentDate`, which is ASCII.
  Against an ASCII string the two orders agree. A character below U+10000
  is its own code unit. A character above U+FFFF starts with a surrogate,
  which is above every ASCII unit, just as the code point is.
- `createSlice`, Immer drafts and action creators: each case reducer is a
  direct update of the stored fields, and the reducer is a function of
  the state and the action.
- `login`'s payload is whatever the caller dispatches. It is modelled as
  an optional string, so that `null` is one possible role.
- The status literals and the `UserState` type live in `~/literals` and
  `~/types`. They are not part of this model; only the three status
  values the slice uses appear. The sagas that dispatch these actions are
  not part of this model either.

The two date rules are each checked only against today, and there is no
rule relating the two dates to each other. `ValidDatesOrdered` shows that
a record accepted against a single `today` still cannot have its last
date before its date of post.
