# React demo site: form helpers and page state, in Dafny

This project models the logic of a small React/TypeScript site:

- **the helpers in `src/utils/helpers.ts`**:
  - `validateEmail`, the regular expression `^[^\s@]+@[^\s@]+\.[^\s@]+$`;
  - `validateForm`, the three field checks and their error messages;
  - `truncateText`, a `slice` plus an ellipsis;
  - `formatContactInfo`, which trims the fields and lower-cases the email.
- **the submit/reset cycle of the Contact, SignIn and SignUp pages.** Each page keeps a record of string fields and a `submitted` flag. Its submit handler sets the flag and schedules a callback 2000 ms later, which clears the flag and empties every field.
- **the Home page counter**, with its `+` and `-` buttons.

Files:

- `text.dfy` (module `Text`): the ECMAScript string operations the helpers use. It defines `trim`, with the WhiteSpace and LineTerminator set that `trim` strips and `\s` matches, and `toLowerCase` on ASCII letters. `Trim` is tied to a reference definition, `IsTrimOf`: everything outside the kept slice is whitespace, and the slice neither starts nor ends with whitespace.
- `helpers.dfy` (module `Helpers`): the four helpers.
  - `ValidateEmail` splits at the first `@`. It is proved equivalent to `MatchesEmailPattern`, which states the regular expression's meaning directly as "some split into three `[^\s@]+` parts around `@` and `.`".
  - `ValidateForm` is the imperative accumulation of errors. It is proved against the function `FormErrors`.
- `form_machine.dfy` (module `FormMachine`): the page state machine.
  - As values: `PageState`, with the events `Input`, `SubmitClicked` and `TimeElapsed(ms)`, and the functions `Step` and `Run`.
  - As the class `FormPage`: its fields are the page's state, and each method is proved to perform exactly one `Step`.
  - The pending `setTimeout` is the number of milliseconds left before its callback runs.
- `contact_page.dfy`, `sign_in_page.dfy`, `sign_up_page.dfy`: each page's fields, initial record and confirmation heading. Each also has the fill, submit and wait run that its unit test performs.
- `home.dfy` (module `Home`): the counter.

## Model

| member | source | states |
|---|---|---|
| Text.IsWhitespace | src/utils/helpers.ts:7-9 | the characters `trim` strips and `\s` matches: TAB, LF, VT, FF, CR, space, NBSP, U+1680, U+2000 to U+200A, U+2028, U+2029, U+202F, U+205F, U+3000 and U+FEFF |
| Text.Trim | src/utils/helpers.ts:7-9 | `trim` never lengthens a string and yields the empty string exactly when the input is all whitespace |
| Text.TrimIsTrimOf | src/utils/helpers.ts:7-9 | `Trim` removes exactly the leading and trailing whitespace: it meets the reference definition `IsTrimOf` |
| Text.TrimOfIsUnique | src/utils/helpers.ts:7-9 | any string meeting the reference definition of trimming is the one `Trim` returns |
| Text.TrimIdempotent | src/utils/helpers.ts:7-9 | trimming twice is trimming once |
| Text.TrimOfTrimmed | src/utils/helpers.ts:7-9 | a string with no whitespace at either end is its own trim |
| Text.LowerChar | src/utils/helpers.ts:8 | `A`..`Z` map to `a`..`z`; every other character is kept |
| Text.ToLower | src/utils/helpers.ts:8 | lower-casing keeps the length and lower-cases position by position |
| Text.ToLowerLowers | src/utils/helpers.ts:8 | the result has no upper-case ASCII letter, and lower-casing is idempotent |
| Text.TrimToLowerCommute | src/utils/helpers.ts:8 | lower-casing then trimming equals trimming then lower-casing |
| Helpers.ValidateEmail | src/utils/helpers.ts:14-17 | `validateEmail`, computed by splitting at the first `@`: the part before it must be a non-empty run free of whitespace and `@`, and the rest a run free of whitespace and `@` with a `.` neither first nor last; its meaning is proved in the next row |
| Helpers.ValidateEmailMatchesPattern | src/utils/helpers.ts:14-17 | `validateEmail` accepts a string iff it splits as local `@` domain `.` tld with three non-empty parts free of whitespace and `@` |
| Helpers.ValidEmailShape | src/utils/helpers.ts:15 | an accepted address has no whitespace, contains an `@` that is not its first character, and no other `@` |
| Helpers.NoAtIsInvalid | src/utils/helpers.ts:15 | a string without `@` is rejected |
| Helpers.NoDotInDomainIsInvalid | src/utils/helpers.ts:15 | a string with no `.` after its first `@` is rejected |
| Helpers.ValidateEmailExamples | src/__tests__/helpers.test.ts:24-38 | the three addresses the tests accept are accepted; the five they reject are rejected |
| Helpers.NameErrors | src/utils/helpers.ts:22-24 | "Name is required" when the trimmed name is empty, otherwise no error |
| Helpers.EmailErrors | src/utils/helpers.ts:26-30 | "Email is required" when the trimmed email is empty; otherwise "Please enter a valid email address" when the untrimmed email fails `validateEmail`; otherwise no error |
| Helpers.MessageErrors | src/utils/helpers.ts:32-36 | "Message is required" when the trimmed message is empty; otherwise "Message must be at least 10 characters long" when it has fewer than 10 characters; otherwise no error |
| Helpers.FormErrors | src/utils/helpers.ts:19-41 | the errors of a whole form: the name's, then the email's, then the message's; `ValidateForm` is proved to compute it |
| Helpers.ValidateForm | src/utils/helpers.ts:19-42 | the appended errors are exactly name, then email, then message errors, and `isValid` holds iff there is none |
| Helpers.FormErrorsOrdered | src/utils/helpers.ts:19-36 | at most three errors, each one of the five known messages, at most one per field, in field order |
| Helpers.FormErrorsEmptyIff | src/utils/helpers.ts:22-41 | a form is valid iff the trimmed name is non-empty, the email passes `validateEmail`, and the trimmed message has at least 10 characters |
| Helpers.BlankEmailIsRequired | src/utils/helpers.ts:26-30 | an all-whitespace email reports only "Email is required" |
| Helpers.PaddedEmailIsInvalid | src/utils/helpers.ts:26-30 | the email is checked untrimmed: a valid address with a space before or after it is reported invalid |
| Helpers.MessageRule | src/utils/helpers.ts:32-36 | a trimmed message of length 0 is required, 1 to 9 too short, 10 or more accepted |
| Helpers.NameErrorsExamples | src/__tests__/helpers.test.ts:41-53 | an empty name reports "Name is required"; "John Doe" reports nothing |
| Helpers.EmailErrorsExamples | src/__tests__/helpers.test.ts:55-67 | the empty, malformed and valid emails of the tests give their expected errors |
| Helpers.MessageErrorsExamples | src/__tests__/helpers.test.ts:69-81 | the empty, short and long messages of the tests give their expected errors |
| Helpers.FormErrorsValidExample | src/__tests__/helpers.test.ts:41-46 | the tests' valid form has no errors |
| Helpers.FormErrorsSingleFieldExamples | src/__tests__/helpers.test.ts:48-81 | one bad field at a time gives exactly that field's error |
| Helpers.FormErrorsAllFieldsExample | src/__tests__/helpers.test.ts:83-91 | three bad fields give three errors, in field order |
| Helpers.SliceEnd | src/utils/helpers.ts:48 | the end index of `slice(0, end)`: a non-negative end is kept, or clamped to the length when beyond it; a negative one counts back from the end, and is clamped to 0 when it reaches past the start |
| Helpers.TruncateText | src/utils/helpers.ts:44-49 | text no longer than the limit comes back unchanged; longer text becomes its first `slice(0, maxLength)` characters followed by `...` |
| Helpers.TruncateTextIdempotent | src/utils/helpers.ts:44-49 | with a non-negative limit, truncating a truncated text changes nothing |
| Helpers.TruncateTextExamples | src/__tests__/helpers.test.ts:94-121 | the tests' four cases, and negative limits counting back from the end |
| Helpers.FormatContactInfo | src/utils/helpers.ts:5-12 | name and message are the trims of the inputs, the email is the trim of the lower-cased email, and the timestamp is the instant passed in |
| Helpers.FormatContactInfoEmail | src/utils/helpers.ts:8 | the email has no upper-case ASCII letter and equals the lower-cased trimmed email |
| Helpers.FormatContactInfoIdempotent | src/utils/helpers.ts:5-12 | formatting a formatted record gives it back unchanged |
| Helpers.FormatContactInfoExamples | src/__tests__/helpers.test.ts:5-21 | the tests' padded record comes out trimmed and lower-cased; the empty record stays empty |
| FormMachine.Initial | src/pages/Contact.tsx:10-16 | a page mounts with every field empty, nothing submitted and no reset pending |
| FormMachine.Step | src/pages/Contact.tsx:18-36 | one event: an input overwrites one field; a submit sets the flag and schedules the reset 2000 ms ahead without checking the values; time passing runs the reset (flag cleared, every field empty) once the delay is used up, and otherwise counts down |
| FormMachine.Run | src/pages/Contact.tsx:18-45 | a sequence of events applied in order, failing as soon as an event is not possible from the view shown (input or submit while the confirmation is displayed) |
| FormMachine.StepPreservesInv | src/pages/Contact.tsx:18-36 | every event keeps the invariant: the record has exactly the page's fields, and a reset is pending, within 2000 ms, exactly while submitted |
| FormMachine.RunPreservesInv | src/pages/Contact.tsx:18-36 | any run of events keeps that invariant |
| FormMachine.RunAppend | src/pages/Contact.tsx:18-36 | running two batches of events one after the other is running them joined |
| FormMachine.InputChangesOnlyItsField | src/pages/Contact.tsx:18-24 | an input sets its own field and leaves the other fields, the flag and the timer unchanged |
| FormMachine.SubmitKeepsFields | src/pages/Contact.tsx:26-36 | submit accepts any values, keeps them, sets the flag and schedules the reset 2000 ms ahead |
| FormMachine.SubmittedBlocksFormEvents | src/pages/Contact.tsx:38-45 | while submitted, only time can pass: the form, and so input and submit, is not rendered |
| FormMachine.WaitBeforeDeadline | src/pages/Contact.tsx:32-35 | waits adding up to less than the time left keep the page submitted with its values, and count down |
| FormMachine.WaitPastDeadline | src/pages/Contact.tsx:32-35 | once the waits add up to the time left, the page is back in its initial state and stays there |
| FormMachine.SubmitThenWaitRestoresInitial | src/pages/Contact.tsx:26-35 | from any shown form, submit then 2000 ms gives exactly the initial state |
| FormMachine.TypingKeepsForm | src/pages/Contact.tsx:18-24 | any typing keeps the form shown and the invariant |
| FormMachine.FillSubmitWaitRestoresInitial | src/pages/Contact.tsx:10-36 | from a fresh page, any typing, submit and 2000 ms lead back to the fresh page |
| FormMachine.FormPage.constructor | src/pages/Contact.tsx:10-16 | the mounted page is in the initial state |
| FormMachine.FormPage.View | src/pages/Contact.tsx:38-45 | the confirmation heading is rendered iff submitted; otherwise the form with its values |
| FormMachine.FormPage.Change | src/pages/Contact.tsx:18-24 | `handleInputChange` performs one input step: only the named field changes |
| FormMachine.FormPage.Submit | src/pages/Contact.tsx:26-36 | `handleSubmit` performs one submit step: flag set, values kept, reset due in 2000 ms |
| FormMachine.FormPage.Elapse | src/pages/Contact.tsx:32-35 | time passing performs one step: the reset runs iff its delay is used up, and otherwise only the countdown changes |
| ContactPage.InitialIsEmptyForm | src/pages/Contact.tsx:10-16 | the initial record is `name`, `email` and `message` all empty |
| ContactPage.Mount | src/pages/Contact.tsx:10-16 | a mounted Contact page shows the empty form |
| ContactPage.FillSubmitAndWait | src/__tests__/Contact.test.tsx:51-75 | typed values survive the submit; "Thank You!" shows at 0 ms and at 1999 ms; at 2000 ms the empty form is back |
| SignInPage.InitialIsEmptyForm | src/pages/SignIn.tsx:9-14 | the initial record is `email` and `password` both empty |
| SignInPage.Mount | src/pages/SignIn.tsx:9-14 | a mounted SignIn page shows the empty form |
| SignInPage.FillSubmitAndWait | src/__tests__/SignIn.test.tsx:46-72 | typed values survive the submit; "Welcome Back!" shows until 2000 ms have passed; then the empty form is back |
| SignUpPage.InitialIsEmptyForm | src/pages/SignUp.tsx:9-14 | the initial record is `email` and `password` both empty |
| SignUpPage.Mount | src/pages/SignUp.tsx:9-14 | a mounted SignUp page shows the empty form |
| SignUpPage.FillSubmitAndWait | src/__tests__/SignUp.test.tsx:46-68 | typed values survive the submit; "Welcome!" shows until 2000 ms have passed; then the empty form is back |
| Home.Counter.constructor | src/pages/Home.tsx:6 | the count starts at 0 |
| Home.Counter.Decrement | src/pages/Home.tsx:22 | `-` lowers the count by exactly one, with no lower bound |
| Home.Counter.Increment | src/pages/Home.tsx:45 | `+` raises the count by one |
| Home.AfterClicks | src/pages/Home.tsx:22-45 | the count after clicking the buttons in order: `+` adds one, `-` subtracts one |
| Home.AfterClicksCountsButtons | src/pages/Home.tsx:22-45 | after any clicks, the count is the start plus the `+` clicks minus the `-` clicks, whatever their order |
| Home.ClicksCancel | src/pages/Home.tsx:22-45 | `+` then `-`, and `-` then `+`, leave the count unchanged |
| Home.PlusTwiceMinusThrice | src/__tests__/Home.test.tsx:24-54 | from a fresh page, `+ + - - -` shows 0, 1, 2, 1, 0, -1 |

`FormPage` serves all three form pages. The rows above cite the Contact page. The SignIn and SignUp handlers are the same, at `src/pages/SignIn.tsx:16-34` and `src/pages/SignUp.tsx:16-34`, and their views are at lines 36-43.

## Left out

- Rendering, styles, links, routing, the navigation bar and the About page: they hold no state the core depends on.
- `console.log` in the submit handlers (`src/pages/Contact.tsx:28`, `src/pages/SignIn.tsx:26`, `src/pages/SignUp.tsx:26`): output only.
- `handleInputChange` writes whatever key the input's `name` attribute holds. The model allows input only to the fields each page renders (the `Field` datatypes), so no other key is added.
- The browser's own form checks (`required`, `type="email"`, `minLength={6}`) can block a submit before the handler runs. They are browser behaviour, not handler code, so in the model a submit is accepted whatever the fields hold.
- Real time:
  - `setTimeout` is a countdown advanced by `TimeElapsed` events.
  - React's batching and re-rendering are not modelled.
  - The callback is never cancelled, because the code has no cleanup on unmount. Unmounting is not modelled.
- `formatContactInfo` calls `new Date().toISOString()`. The clock is a parameter: the timestamp is passed in, and its format is not modelled.
- Text.ToLower: only ASCII letters are lower-cased. `toLowerCase` also maps non-ASCII letters; the model leaves them unchanged.
- String lengths count Unicode scalar values, where JavaScript counts UTF-16 code units. The two differ only for characters outside the Basic Multilingual Plane, which affects `truncateText` and the 10-character message rule.
- Helpers.TruncateText: `maxLength` is an integer. Fractional or NaN limits are not modelled.
- Helpers.TruncateTextIdempotent: holds only for a non-negative limit. With a negative limit every call cuts further from the end, and the model's examples show that.
- Home.Counter: the count is an unbounded integer. A JavaScript number loses precision beyond 2^53.
- The pages' submit handlers call neither `validateForm` nor `formatContactInfo`, so the model does not connect the helpers to the pages.
