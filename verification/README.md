# HR-for-work payroll portal: a Dafny model of its core logic

The portal lets an employee log in with an employee number and SSN, then view
pay stubs and personal data read from an IBM i (DB2) payroll store. Most of it
is React/Next.js UI. This project models the small amount of real logic in it,
and proves properties of that model:

- **Payroll field codecs** (`lib/db.js`):
  - `formatIBMDate` turns a `YYYYMMDD` integer into `MM/DD/YYYY`.
  - `maskSSN` shows only the last four digits of an SSN.
  - `formatCurrency` gives `$0.00` for an absent amount.
- **The login handler** (`POST /api/auth/login`). It runs a fixed sequence of
  checks and ends in exactly one response:
  1. Both fields present and non-empty, else 400.
  2. `parseInt` of the employee number is not NaN, else 400.
  3. The authenticator accepts, else 401.
  4. The employee record is found, else 404.
  5. Otherwise 200, with a payload of trimmed fields.

  A collaborator that throws ends in the catch-all 500.
- **The pay-stub page**: the check-number search filter, the "Latest Payment"
  card and the "n record(s) found" label.

Modules:

- `Wrappers` holds `Option`. A JavaScript value that may be `null` or `undefined` is an `Option`.
- `Text` holds the JavaScript string operations the code relies on: `trim` (with the ECMAScript
  whitespace and line-terminator set), `padStart` and `includes`.
- `Numbers` holds decimal numerals, `Number.prototype.toString` of an integer, and `parseInt(s, 10)`.
  `parseInt` skips leading whitespace, reads one optional sign and then the longest run of digits.
  It is `None` (NaN) when no digit follows.
- `Db` holds the three `lib/db.js` functions and the employee record the store returns.
- `LoginRoute` holds the handler. The authenticator (`authenticateEmployee`) and the record lookup
  (`getEmployee`) are function parameters. Each returns a value or throws. The handler's result
  also lists the collaborator calls it made, in order, so "the lookup is never consulted" can be
  stated and proved.
- `PayStubsPage` holds the filter and the two display expressions.

Two facts about the code shape the login model:

- A missing EMFNM or EMLNM is interpolated into `name` as the text `undefined`
  (app/api/auth/login/route.js:56), because `${undefined}` prints that.
- The shipped `authenticateEmployee` always returns true (lib/db.js:41), so the authenticator is
  a parameter and every property holds whatever it decides.

## Model

| member | source | states |
|---|---|---|
| Text.Trim | app/api/auth/login/route.js:54-59 | `trim`: the result neither starts nor ends with whitespace, and it is an infix of the input with only whitespace cut away on either side |
| Text.TrimIdempotent | app/api/auth/login/route.js:56-59 | a trimmed field is already trimmed: trimming it again changes nothing |
| Text.PadStart | lib/db.js:77 | `padStart(8, '0')`: the result is at least as long as the target; the input is its suffix and every character before it is the pad character |
| Text.Contains | app/paystubs/page.js:46 | `includes`: true exactly when the term occurs at some index of the string |
| Text.ContainsTransitive | app/paystubs/page.js:46 | a substring of a substring is a substring |
| Numbers.NatToString | lib/db.js:77 | `toString` of a non-negative integer is a numeral without leading zeros that denotes it |
| Numbers.IntToString | lib/db.js:77 | `toString` of an integer starts with '-' exactly when it is negative, and what follows the optional '-' is the canonical numeral of its magnitude |
| Numbers.ParseInt | app/api/auth/login/route.js:20 | `parseInt` yields a number exactly when, after the leading whitespace and at most one sign, a digit follows; then the input contains a digit |
| Numbers.ParseIntOfSignedNumeral | app/api/auth/login/route.js:20 | whitespace, an optional '+' or '-', a numeral and a tail not starting with a digit read as the numeral's value, negated after '-' |
| Numbers.ParseIntOfIntToString | app/api/auth/login/route.js:20 | `parseInt` reads back every integer `toString` writes |
| Numbers.ParseIntOfPrefix | app/api/auth/login/route.js:20 | a numeral followed by anything that does not start with a digit reads as that numeral |
| Numbers.ParseIntOfNegative | app/api/auth/login/route.js:20 | a '-' and a numeral read as the numeral's negation |
| Numbers.ParseIntSkipsWhitespace | app/api/auth/login/route.js:20 | leading whitespace never changes what `parseInt` reads |
| Numbers.ParseIntWithoutDigits | app/api/auth/login/route.js:20-23 | a string with no digit is NaN |
| Numbers.ParseIntNumericPrefixExample | app/api/auth/login/route.js:20 | `parseInt("123abc", 10)` is 123 |
| Db.PaddedDate | lib/db.js:77 | `toString().padStart(8, '0')`: the code's decimal string, preceded by just enough '0's to reach eight characters, and never shortened |
| Db.Rearrange | lib/db.js:78-82 | ten characters with '/' at indices 2 and 5, whose year, month and day fields, read in that order, are the first eight characters of the input |
| Db.FormatIBMDate | lib/db.js:74-83 | null exactly for an absent or zero code; otherwise ten characters with '/' at indices 2 and 5, whose year, month and day fields, read in that order, are the first eight characters of the zero-padded code |
| Db.IBMDateOf | lib/db.js:77-82 | the inverse reading of a display date: defined exactly for `MM/DD/YYYY` with digit fields, and below 10^8 |
| Db.PaddedDateValue | lib/db.js:77 | below 10^8 the padded code is exactly eight digits and denotes the code |
| Db.FormatIBMDateFields | lib/db.js:78-82 | for 0 < d < 10^8 the year field is d / 10000, the month field (d / 100) % 100 and the day field d % 100 |
| Db.IBMDateRoundTrip | lib/db.js:74-83 | reading back a decoded date gives the code, for every code 0 < d < 10^8 |
| Db.DisplayDateRoundTrip | lib/db.js:74-83 | every display date with a non-zero code is what that code decodes to |
| Db.NoCalendarValidation | lib/db.js:77-82 | code 20231332 (month 13, day 32) decodes to "13/32/2023" |
| Db.FormatIBMDateDropsExtraDigits | lib/db.js:77-80 | appending a digit to a code of eight or more digits does not change the decoded date |
| Db.FormatCurrency | lib/db.js:90-91 | an absent amount gives "$0.00"; a present one goes to the locale formatter in dollars |
| Db.StripNonDigits | lib/db.js:106 | `replace(/\D/g, '')` leaves only digits and never lengthens the value |
| Db.StripNonDigitsAppend | lib/db.js:106 | stripping distributes over concatenation |
| Db.StripAllDigits | lib/db.js:106 | a string of digits is unchanged by stripping |
| Db.StripNoDigits | lib/db.js:106 | a string without digits strips to the empty string |
| Db.MaskSSN | lib/db.js:104-109 | always eleven characters starting "XXX-XX-"; fully masked for an absent or empty value or fewer than four digits; otherwise the last characters are a suffix of the value's digits; never shows digits other than four trailing digits of the value |
| Db.ShowLastFour | lib/db.js:108 | the mask prefix followed by the last four digits, which are the result's only digits |
| Db.MaskSSNIdempotent | lib/db.js:104-109 | masking a masked value gives it back |
| Db.MaskSSNDependsOnDigitsOnly | lib/db.js:106-108 | two values with the same digits have the same mask |
| Db.MaskSSNIgnoresNonDigit | lib/db.js:106 | inserting a non-digit anywhere into the value does not change its mask |
| Db.MaskSSNFullExample | lib/db.js:104-109 | "123456789" masks to "XXX-XX-6789" |
| Db.MaskSSNShortExample | lib/db.js:107 | "12" is fully masked |
| LoginRoute.Truthy | app/api/auth/login/route.js:12 | a field is falsy exactly when it is missing or the empty string |
| LoginRoute.Interpolated | app/api/auth/login/route.js:56 | a present value prints as itself, a missing one as "undefined" |
| LoginRoute.Login | app/api/auth/login/route.js:4-69 | the status is one of 200, 400, 401, 404 or 500. A falsy field gives 400 "required" and an unparsable number 400 "invalid", both with no collaborator called. A valid request gives exactly the authenticate-then-look-up outcome for the parsed number and the SSN. The authenticator is called first with the parsed number and the SSN as sent, and the lookup is called only after it returned true. Success happens exactly when the lookup found a record, and carries that record's payload |
| LoginRoute.AuthenticateAndLookUp | app/api/auth/login/route.js:31-48 | a thrown authenticator gives 500, a false one 401, both without a lookup; a true one proceeds to the lookup |
| LoginRoute.LookUp | app/api/auth/login/route.js:41-61 | a thrown lookup gives 500, no record gives 404, a record gives success with its payload |
| LoginRoute.IdField | app/api/auth/login/route.js:54 | `id` is present exactly when EMEMP is, is its decimal string, and `parseInt` reads it back as EMEMP |
| LoginRoute.TrimField | app/api/auth/login/route.js:56-59 | `v?.trim()` is absent exactly when `v` is, else a trimmed copy |
| LoginRoute.Payload | app/api/auth/login/route.js:51-61 | `hiddenId` is EMQEM unchanged; `id` is as IdField states; first name, position and department are trimmed copies; `name` is the trimmed first name, one space and the trimmed last name |
| LoginRoute.LoginStatusCauses | app/api/auth/login/route.js:12-67 | each status has exactly one cause: 400 iff no collaborator was called, 401 iff the only call was an authenticator that returned false, 404 iff the lookup returned nothing, 500 iff the last call threw, 200 iff success |
| LoginRoute.LoginValidationIgnoresCollaborators | app/api/auth/login/route.js:12-28 | a 400 response is the same whatever the collaborators do |
| LoginRoute.LoginRejectionIgnoresLookup | app/api/auth/login/route.js:31-38 | when the authenticator does not return true, the response is the same whatever the lookup would return, and only one call is made |
| LoginRoute.LoginNumericPrefix | app/api/auth/login/route.js:20-41 | an employee number made of a numeral and a non-digit tail passes validation; the numeral's value is what is authenticated and looked up |
| LoginRoute.LoginNumericPrefixExample | app/api/auth/login/route.js:20-31 | the employee number "123abc" is authenticated as 123 |
| PayStubsPage.MatchesSearch | app/paystubs/page.js:46 | a stub matches exactly when it has a check number and the term occurs at some index of that number's decimal string |
| PayStubsPage.MatchesYear | app/paystubs/page.js:47 | the year test passes for every stub and every selected year |
| PayStubsPage.FilterPayStubs | app/paystubs/page.js:45-49 | the result is an order-preserving subsequence of the stubs, and each stub occurs in it as often as in the input if its check number contains the term, else not at all |
| PayStubsPage.FilterPayStubsLength | app/paystubs/page.js:45-49 | the filtered list is never longer than the input |
| PayStubsPage.FilterPayStubsMembership | app/paystubs/page.js:46 | a stub is kept exactly when it is in the list, has a check number, and that number's decimal string contains the term |
| PayStubsPage.FilterIgnoresYear | app/paystubs/page.js:47 | the selected year never changes the filtered list |
| PayStubsPage.EmptySearchKeepsNumbered | app/paystubs/page.js:46 | with an empty term exactly the stubs that have a check number are kept |
| PayStubsPage.MatchesSearchMonotonic | app/paystubs/page.js:46 | a stub matching a term also matches every substring of it |
| PayStubsPage.FilterMonotonic | app/paystubs/page.js:45-49 | the result for a longer term is a subsequence of the result for any substring of it |
| PayStubsPage.LatestPayment | app/paystubs/page.js:129 | "N/A" exactly for no stubs; otherwise the first stub's net pay |
| PayStubsPage.RecordCountLabel | app/paystubs/page.js:183 | the label is the canonical numeral of the count, which `parseInt` reads back, followed by the noun; it ends in " record found" exactly when one stub matched and in " records found" otherwise |

## Left out

- Db.FormatCurrency: the `Intl.NumberFormat` en-US currency formatting of a present amount is the parameter `format`, because it is a foreign library call on floating point. The converse of the null branch is not stated: a present amount of 0 cents is also printed "$0.00".
- Numbers.ParseInt: the value is the exact integer. Numerals beyond 2^53 are not rounded to a double, and "-0" reads as 0 rather than negative zero.
- Numbers.IntToString: models integers only, printed as the exact numeral. Integer-valued numbers above 2^53 print in JavaScript as the shortest digits that round to the same double, padded with zeros (2**64 prints "18446744073709552000"), and from 10^21 up in exponent notation; neither is modelled. This reaches `id` (LoginRoute.IdField), the check-number search (PayStubsPage.MatchesSearch) and the date padding (Db.PaddedDate, Db.FormatIBMDateDropsExtraDigits) only for values that large.
- Db.FormatIBMDate: the code is an integer or absent. NaN, fractions and non-number values, which `!ibmDate` and `toString` also accept, are not modelled.
- Db.MaskSSN: the value is a string or absent. `toString` of a non-string value is not modelled.
- LoginRoute.Login: the request body arrives already decoded, as the two fields the login page sends. A body that fails to decode also ends in the catch-all 500; that path is not modelled. An employee number sent as a JSON number, which `parseInt` would first convert to a string, is not modelled either.
- LoginRoute.Payload: JSON serialization is not modelled. A field that is `None` stands for `undefined`, which the response omits.
- The record store: `authenticateEmployee`, `getEmployee`, `getPayStubs` and their mock records, the DB2 connection and `closeConnections` are not part of this model. The two collaborators the handler calls are parameters.
- Logging: `console.log` and `console.error` have no effect on results and are left out.
- `NextResponse` construction: a response is its status and its error text or employee payload.
- The UI: React state and rendering, `sessionStorage`, `fetch`, router navigation, the dashboard, the employee-info page and the contact form's timer are UI and I/O plumbing.
- Clock-dependent values: the pay-stub page's `availableYears`, its "Current Year" card and the years-of-service display read the clock.
- The pay-stub API routes, which build the net-pay strings the page shows: the page receives each stub's net pay already formatted.
