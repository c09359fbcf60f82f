# Login and one-time-code forms, modelled in Dafny

This project models the form logic of a two-step login front end:

- the **login page** (`src/pages/Home.jsx`): an email tab and a mobile tab, each with its
  own validated form, a shared password-visibility flag, a loading flag that disables the
  submit button while a login request is outstanding, and navigation to `/otp` on success;
- the **security-verification page** (`src/pages/Otp.jsx`): six single-character cells,
  the composite `code` form value kept equal to the cells joined, a schema error, a
  custom error set after submission, and focus movement between cells.

Modules:

- `Digits` (`digits.dfy`): JavaScript's `\d` class and the regular expressions
  `^\d*$`, `^\d+$`, `^\d{n}$`, each as a left-to-right matcher, proved equal to a plain
  "all digits" reading; the mobile field's `replace(/\D/g, "")` filter and its properties.
- `Validation` (`validation.dfy`): the schema rules used (`required`, `email`, `matches`,
  `min`, `length`), a validator that collects every field in error, the three schemas
  (email, mobile, code), and what each accepts stated without the rule engine.
- `Gateway` (`gateway.dfy`): request outcomes and the login endpoints.
- `Otp` (`otp.dfy`): class `CodeEntry` with the cells (an array, replaced by a fresh one on
  every update as React state is), the composite, the schema and custom errors, the focus
  index and the posted codes; its four handlers and request completion; lemmas about
  joining cells; whole interactions from a fresh page.
- `Home` (`home.dfy`): class `LoginPage` with the tab, loading and visibility flags, the
  requests posted, their outcomes and the navigations; lemmas reading the schemas field by
  field; whole interactions from a fresh page.

Behaviour worth knowing, modelled as the code has it:

- `Otp.jsx` calls `navigate("/otp")` (line 41) without declaring or importing `navigate`.
  The call throws inside the success handler, the `.catch` runs, and so every completed
  verification request, accepted or rejected, ends with the message
  "Code expired! Put new code." `CodeEntry.CompleteRequest` takes the outcome and sets the
  same state for both.
- `handleChange` and `handlePaste` set the form value with `shouldValidate: true`, which
  re-runs the code schema at once. The schema error is therefore recomputed on every
  accepted keystroke and paste, not only on submission.
- The cells are cleared right after the request is posted, before its answer arrives.
- Pressing a submit button while loading does nothing (the button is disabled), and a
  tab's form can only be submitted while that tab is shown (the other form is not rendered).
- The email input is `type="email"` (src/pages/Home.jsx:126) and its form has no
  `noValidate`, so the browser checks the address before the form's submit handler runs:
  a non-empty malformed address cancels the submission with the browser's own message,
  the schema never runs, and no schema error (not even the password's) is set.
- Credential-submission failures are only logged: `LoginPage.Complete` records the
  outcome and ends loading, and navigates only on success.

The email format check belongs to the validation library and cannot be read from the page
sources, so it is a parameter `isEmail: string -> bool` of the validator and of
`LoginPage`; the browser's address grammar for `type="email"` inputs is a second
parameter, `htmlEmail: string -> bool`, of `LoginPage`.

## Model

| member | source | states |
|---|---|---|
| `Digits.MatchesDigitStar` | src/pages/Otp.jsx:56 | `/^\d*$/.test(value)`: the string is empty or starts with a digit and the rest matches; characterised by `DigitStarIsAllDigits` |
| `Digits.MatchesDigitPlus` | src/pages/Home.jsx:29 | `/^\d+$/`: one digit, then `\d*`; characterised by `DigitPlusIsNonEmptyDigits` |
| `Digits.MatchesDigitsExactly` | src/pages/Otp.jsx:15 | `/^\d{n}$/` (also the paste test at src/pages/Otp.jsx:78): exactly n digits, then the end; characterised by `DigitsExactlyIsLengthAndDigits` |
| `Digits.KeepDigits` | src/pages/Home.jsx:170 | `replace(/\D/g, "")`: every non-digit dropped, digits kept in order; characterised by the `KeepDigits*` lemmas below |
| `Digits.DigitStarIsAllDigits` | src/pages/Otp.jsx:56 | `^\d*$` accepts exactly the strings whose every character is a digit (the empty one included) |
| `Digits.DigitPlusIsNonEmptyDigits` | src/pages/Home.jsx:29 | `^\d+$` accepts exactly the non-empty all-digit strings |
| `Digits.DigitsExactlyIsLengthAndDigits` | src/pages/Otp.jsx:78 | `^\d{n}$` accepts exactly the all-digit strings of length n |
| `Digits.KeepDigitsIsDigits` | src/pages/Home.jsx:169-172 | the mobile filter's output is all digits and never longer than its input |
| `Digits.KeepDigitsOfDigits` | src/pages/Home.jsx:170 | an all-digit input passes the filter unchanged |
| `Digits.KeepDigitsFixedPoints` | src/pages/Home.jsx:170 | the filter leaves a string unchanged if and only if it is all digits |
| `Digits.KeepDigitsIdempotent` | src/pages/Home.jsx:169-172 | filtering twice equals filtering once |
| `Digits.KeepDigitsAppend` | src/pages/Home.jsx:170 | the filter works character by character in order: filtering a concatenation concatenates the filtered parts |
| `Digits.KeepDigitsCounts` | src/pages/Home.jsx:170 | each digit occurs in the output as often as in the input; no other character occurs |
| `Validation.RuleHolds` | src/pages/Home.jsx:18-32 | one rule on one value: `required` refuses ""; `email` passes "" and otherwise defers to the address grammar; `matches` tests "" like any string; `min` and `length` compare the length (the code rules at src/pages/Otp.jsx:13-16 use the same reading) |
| `Validation.Validate` | src/pages/Home.jsx:41-57 | a field is in the result exactly when some schema entry for it has a failing rule: all fields in error are collected |
| `Validation.EmailSchemaErrors` | src/pages/Home.jsx:17-23 | the email schema reports only email and password; email exactly when it is empty or not an address; password exactly when empty |
| `Validation.MobileSchemaErrors` | src/pages/Home.jsx:26-33 | the mobile schema reports only mobile and password; mobile exactly when it is not a non-empty all-digit string of length at least 10; password exactly when empty |
| `Validation.CodeSchemaErrors` | src/pages/Otp.jsx:12-17 | `length(6)`, `^\d{6}$` and `required` together accept exactly the six-digit strings; only the code field is ever reported |
| `Validation.FilteredMobileErrors` | src/pages/Home.jsx:160-173 | after the digit filter, the mobile field is in error exactly when fewer than 10 digits remain |
| `Otp.Join` | src/pages/Otp.jsx:69 | `newCode.join("")`: the cells concatenated in order; characterised by `JoinAppend`, `JoinUpdate`, `JoinSplit` and `JoinLength` |
| `Otp.Split` | src/pages/Otp.jsx:80 | `paste.split("")`: one cell per character, holding that character |
| `Otp.JoinAppend` | src/pages/Otp.jsx:69 | joining cells distributes over splitting the cell list in two |
| `Otp.JoinUpdate` | src/pages/Otp.jsx:58-69 | writing one cell changes the composite only at that cell's place |
| `Otp.WriteCell` | src/pages/Otp.jsx:58-59 | writing a digit string into one cell keeps every cell all digits, and at most one character when the value has at most one |
| `Otp.JoinSplit` | src/pages/Otp.jsx:80-82 | spreading the pasted text one character per cell and joining gives the text back |
| `Otp.JoinAllEmpty` | src/pages/Otp.jsx:50-51 | cleared cells join to the empty code |
| `Otp.JoinDigits` | src/pages/Otp.jsx:56-69 | digit cells join to a digit string |
| `Otp.JoinLength` | src/pages/Otp.jsx:104-110 | with at most one character per cell (`maxLength="1"`) the composite is at most as long as the number of cells, and equally long exactly when every cell is filled |
| `Otp.FilledCellsAccepted` | src/pages/Otp.jsx:102-116 | six digit cells form a code the schema accepts exactly when all six are filled |
| `Otp.ResolveCode` | src/pages/Otp.jsx:28-29 | the form resolver accepts the composite code exactly when it is six digits |
| `Otp.CodeEntry.CopyWith` | src/pages/Otp.jsx:58-59 | the new cells are a fresh array equal to the old cells with only the one index replaced |
| `Otp.CodeEntry.SetCode` | src/pages/Otp.jsx:66-71 | installing new digit cells makes the composite their join and recomputes the schema error from it (six digits or not), keeping the invariant |
| `Otp.CodeEntry.constructor` | src/pages/Otp.jsx:20-33 | six empty cells, empty composite, no custom error, no schema error, nothing posted |
| `Otp.CodeEntry.HandleChange` | src/pages/Otp.jsx:54-74 | a value with a non-digit changes nothing; otherwise only `cells[index]` is written, the composite is the new join, the schema error is recomputed, the custom error cleared, and the focus moves to `index+1` exactly for a non-empty value with `index < 5`; the invariant is kept, and so is "at most one character per cell" for a value of at most one character |
| `Otp.CodeEntry.HandlePaste` | src/pages/Otp.jsx:76-84 | exactly six digits are spread one per cell, become the composite, and clear both errors; anything else changes nothing; the focus never moves |
| `Otp.CodeEntry.HandleDelete` | src/pages/Otp.jsx:86-91 | focus moves to `index-1` exactly on Backspace at an empty cell with `index > 0`; nothing else can change |
| `Otp.CodeEntry.Submit` | src/pages/Otp.jsx:35-52 | a code that is not six digits sets the schema error and posts nothing; a valid one clears it, is posted once, and the cells and composite are cleared; the custom error and focus are untouched |
| `Otp.CodeEntry.CompleteRequest` | src/pages/Otp.jsx:39-47 | whatever the outcome, completion sets "Code expired! Put new code." and changes nothing else |
| `Otp.PasteThenSubmit` | src/pages/Otp.jsx:35-84 | on a fresh page, pasting six digits and confirming posts exactly those digits, shows no schema error and clears the code |
| `Otp.BadPasteThenSubmit` | src/pages/Otp.jsx:76-78 | on a fresh page, a paste that is not six digits leaves nothing to send: confirming posts nothing and shows the schema error |
| `Otp.TypeCode` | src/pages/Otp.jsx:54-74 | typing six characters one per cell on a fresh page leaves each digit in its cell and each non-digit's cell empty, posts nothing, and with only digits ends with the focus on the last cell |
| `Otp.TypeThenSubmit` | src/pages/Otp.jsx:54-74 | typing six characters one per cell and confirming posts the string exactly when all six are digits; when they are, the focus ends on the last cell |
| `Otp.SubmitThenComplete` | src/pages/Otp.jsx:39-51 | a confirmed code ends with the expired-code message and an empty code, whether the server accepts or rejects it |
| `Otp.BackspaceAtFirstCell` | src/pages/Otp.jsx:87 | after a digit typed into the third cell moves the focus to the fourth, Backspace on the empty first cell leaves the focus there |
| `Home.FormErrorsValid` | src/pages/Home.jsx:16-33 | a form's schema refuses it exactly when its credentials are not valid field by field; the password is reported exactly when empty, on either tab |
| `Home.BadEmailTwoErrors` | src/pages/Home.jsx:17-23 | the schema reports an address its grammar refuses, with an empty password, on both fields (on the page, an address the browser refuses too never reaches the schema, see `MalformedAddressBlocked`) |
| `Home.ShortMobileRefused` | src/pages/Home.jsx:30 | "12345" with a password is refused on the mobile field alone |
| `Home.TenDigitMobileAccepted` | src/pages/Home.jsx:26-33 | "1234567890" with a password is accepted |
| `Home.BrowserBlocks` | src/pages/Home.jsx:124-129 | the `type="email"` input cancels a submission exactly for a non-empty value outside the browser's address grammar; the mobile form is never blocked |
| `Home.LoginPage.constructor` | src/pages/Home.jsx:36-39 | the page starts on the email tab, not loading, with the password hidden, nothing posted and no navigation |
| `Home.LoginPage.SelectTab` | src/pages/Home.jsx:104-115 | clicking a tab shows that tab and changes nothing else |
| `Home.LoginPage.TogglePassword` | src/pages/Home.jsx:141-146 | the eye icon flips the one visibility flag and changes nothing else |
| `Home.LoginPage.Submit` | src/pages/Home.jsx:118-161 | the hidden tab's form cannot be submitted; a press while loading does nothing; a non-empty malformed address is blocked by the browser before the schema runs; otherwise an invalid form returns its schema errors and sends nothing; a valid form sets loading and posts once to its tab's endpoint |
| `Home.LoginPage.Complete` | src/pages/Home.jsx:64-73 | completion ends loading, records the outcome, and navigates to `/otp` exactly on success |
| `Home.EmailLoginFlow` | src/pages/Home.jsx:60-74 | email credentials the schema accepts post exactly once to `loginWithEmail` when the browser accepts the address, and nothing is sent when it does not; success navigates to `/otp` once, failure nowhere; loading is over afterwards |
| `Home.MobileLoginFlow` | src/pages/Home.jsx:77-91 | on the mobile tab, taking the digit-filtered input value as the value validated, the form is posted (to `loginWithMobile`) exactly when at least 10 digits were typed and a password given; otherwise it is refused and nothing is posted |
| `Home.InvalidLogin` | src/pages/Home.jsx:121 | invalid credentials on their own tab are never posted and never start loading: blocked by the browser for a non-empty malformed address, otherwise refused with schema errors |
| `Home.MalformedAddressBlocked` | src/pages/Home.jsx:124-129 | an address the browser refuses, with an empty password, is blocked: no schema error is reported and nothing is sent |
| `Home.HiddenTabLogin` | src/pages/Home.jsx:160-161 | while the email tab is shown, the mobile form cannot be submitted |
| `Home.DoubleSubmit` | src/pages/Home.jsx:153-155 | a second press while the first request is outstanding sends nothing; a form the browser blocks starts no request, so both presses are blocked |
| `Home.TogglePasswordTimes` | src/pages/Home.jsx:141-146 | toggling n times, switching tabs in between, shows the password exactly when n is odd: toggling twice restores it and the flag is shared by both tabs |

## Left out

- Network transport: `axios`, `BASE_URL`, request payloads and responses. A request is recorded when posted and completed by a separate step carrying only its outcome.
- Asynchrony: promise scheduling and interleaving are not modelled; each handler and each completion is one sequential step. React's batching of state updates and the asynchronous re-validation after `setValue` are taken as immediate.
- A request that never completes simply never gets its completion step; nothing times out, so loading then stays on, as in the source.
- Rendering, CSS, icons, the logo, `console.log` and `console.error`.
- Routing: `navigate` is modelled as the list of routes navigated to; focusing a DOM element is modelled as the `focus` index. Focus changes made by the user (clicking a cell, the Tab key) are not modelled; the page starts with `focus` = -1, no cell focused by the page.
- The browser's own insertion of pasted text into the focused cell (the paste handler does not prevent it) is not modelled.
- Validation.Validate: reports which fields are in error, not which message the form shows when several rules of one field fail; that order belongs to the validation and form libraries.
- The address grammar of the email rule is a parameter (`isEmail`), not a definition; it belongs to the validation library. The browser's address grammar for `type="email"` inputs is likewise a parameter (`htmlEmail`); the message the browser shows when it blocks a submission is not modelled.
- Field values typed into the login forms are not stored in `LoginPage`; `Submit` takes the values of the pressed form. Whether the hidden tab keeps its typed values is left to the form library and not modelled.
- Home.MobileLoginFlow: the mobile input's own `onChange` (src/pages/Home.jsx:169-172) comes after the `{...registerMobile("mobile")}` spread (line 168) and so replaces the form library's change handler; the library then records the input's value only through its other handlers (on blur). The flow assumes the value validated at submission is the filtered value the input holds; a submission before the field ever lost focus, which the library would validate against its recorded value instead, is not modelled.
- Otp.CodeEntry.SetCode: the `setCode` and `setValue` calls of a handler are taken as one step; the moment between them, when the cells and the form value disagree, is not observable in the model.
- Otp.CodeEntry.HandleChange: the one-character limit of a cell is the browser's `maxLength`, so the handler accepts digit strings of any length; "at most one character per cell" is kept only for values of at most one character.
