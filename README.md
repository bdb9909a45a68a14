# MyApp 2.0 Appwrite layer: the data shaping, in Dafny

`appwrite-config.js` is a thin client layer over the Appwrite backend. It holds
the configuration, wraps the SDK calls for profiles, membership cards
("tessere") and requests, and adds a few UI helpers. This project models the
deterministic part that sits inside those wrappers, once the clock, the random
draw and the SDK's answers are passed in as parameters:

- the payloads built by `createUserProfile`, `createTessera`, `createRequest`
  and `updateDocument`, and the account display name built by `register`;
- the "first document or null" lookups (`getUserProfile`, `getUserTessera`) and
  the fail-closed `isAdmin` check;
- `AppwriteUtils.getInitials`, `isValidEmail` and `isValidPhone`.

Everything is pure: datatypes, functions and lemmas, with no classes or loops,
because every modelled piece of the source is a single expression (object
literals and spreads, a ternary, a `split/map/join` chain, two regular
expressions).

Modules:

- `Wrappers` (`wrappers.dfy`): `Option` and `Result`.
- `JsStrings` (`js_strings.dfy`): the ECMAScript whitespace set shared by
  `trim` and `\s`, `trim`, `toUpperCase` and `split(' ')` / `join(' ')`.
- `Decimal` (`decimal.dfy`): `Number.prototype.toString` for non-negative
  integers, `padStart`, and the digit parser that undoes them.
- `Documents` (`documents.dfy`): form fields (`undefined`, `null` or a string),
  truthiness and `|| ''`, template rendering, document values and object spread.
- `UserManager` (`user_manager.dfy`): `AppwriteUserManager`'s payloads, lookups
  and admin check.
- `DataManager` (`data_manager.dfy`): `AppwriteDataManager`'s request and
  update payloads.
- `AppUtils` (`app_utils.dfy`): `AppwriteUtils`' string helpers.

Modelling choices:

- Each `new Date()` / `Date.now()` in the source is a separate clock reading,
  so each builder takes one parameter per reading. `createTessera` reads the
  clock four times: for the year, the issue date, the expiry base and the
  creation time. Lemmas state the single-reading case, for example that the
  expiry is then exactly 31,536,000,000 ms after issue.
- A timestamp is the instant in milliseconds (`Value.Time`). The ISO-8601 text
  made by `toISOString` is not modelled.
- `Math.floor(Math.random() * 100000)` is the type `RandomDraw`, the naturals
  below 100000. The year from `getFullYear()` is a natural number.
- A store query's answer is a `Result` of a document list, or of a
  `StoreError` that the wrappers re-throw unchanged.
- `toUpperCase` is modelled character by character. It maps `a`..`z`, and the
  only two other code points whose upper case is a single ASCII capital:
  dotless i (U+0131) becomes `I` and long s (U+017F) becomes `S`. With these,
  the `isAdmin` comparison against `ADMIN` and `DIRIGENTE` is exact.

Quirks of the code that the model keeps:

- The account display name (appwrite-config.js:200) is not trimmed; only the
  profile's `full_name` (line 125) is. `AccountNameDiffersWithoutSurname` shows
  that the two differ whenever there is no surname.
- The card payload has `created_at` but no `updated_at` (lines 155-166).
- `updateDocument` stamps `updated_at` with the current reading. Nothing in the
  code makes that stamp later than the document's previous one; that depends
  on the clock.
- The year in a card number is not limited to four digits. `CardNumber` works
  for any year, and `CardNumberOfFourDigitYear` covers the four-digit case.

## Model

| member | source | states |
|---|---|---|
| `UserManager.CreateUserProfile` | appwrite-config.js:122-133 | role is "USER" and user_id is the given id; the email is copied; full_name has no whitespace at either end; cognome, telefono, data_nascita and luogo_nascita are "" when the field is absent, null or empty, and are the field's text otherwise; the two timestamps are the two clock readings |
| `UserManager.FullNameWithoutSurname` | appwrite-config.js:125 | when the surname is absent or empty, full_name is just the trimmed first name |
| `UserManager.FullNameIsTrimmedAccountName` | appwrite-config.js:125 | the profile name is the account display name with its outer whitespace removed |
| `UserManager.AccountName` | appwrite-config.js:196-201 | the account display name is the rendered first name, one space, then the surname or "", with no trimming |
| `UserManager.AccountNameDiffersWithoutSurname` | appwrite-config.js:200 | without a surname the account name ends in a space, so it differs from the profile's full_name |
| `UserManager.CardNumber` | appwrite-config.js:152-157 | the card number is "MA", then the decimal year, then five digits: 2 + len(year) + 5 characters, all digits after "MA" |
| `UserManager.SuffixIsFiveDigits` | appwrite-config.js:153 | a draw below 100000, zero-padded with padStart(5, '0'), is exactly five digits that parse back to the draw |
| `UserManager.CardNumberRoundTrip` | appwrite-config.js:152-157 | decoding a card number gives back the year and the random draw it was built from |
| `UserManager.CardNumberOfFourDigitYear` | appwrite-config.js:152-157 | for a year from 1000 to 9999 the card number has 11 characters (MA, 4 digits, 5 digits) |
| `UserManager.CreateTessera` | appwrite-config.js:152-166 | the card copies user id, full name, email and phone from its inputs; its number is `MA${year}${random}` and decodes to (year, draw); the issue date is the issue reading and the expiry is the expiry reading plus 365 days in ms, so expiry minus issue is 365 days in ms plus the gap between the two clock readings; stato is "ATTIVA" and tipo is "STANDARD" |
| `UserManager.ExpiryIsOneYearAfterIssue` | appwrite-config.js:161-162 | with a single clock reading, data_scadenza - data_emissione = 31,536,000,000 ms |
| `UserManager.RegisteredCardCarriesProfile` | appwrite-config.js:206-210 | the card built from a fresh profile has the same user id, the trimmed account name and the defaulted phone number, and the registration email |
| `UserManager.AnnaRossiRegistration` | appwrite-config.js:118-166 | registering Anna Rossi in 2025 gives full_name "Anna Rossi", an 11-character card number starting "MA2025" and followed by five digits, and stato "ATTIVA" |
| `UserManager.AnnaRossiFullName` | appwrite-config.js:125 | "Anna" and "Rossi" give the profile name "Anna Rossi" |
| `UserManager.CardNumberOf2025` | appwrite-config.js:157 | a card number of year 2025 is "MA2025" followed by five digits |
| `UserManager.FirstOrNull` | appwrite-config.js:93 | null exactly when the result list is empty, otherwise its first element |
| `UserManager.LookupFirst` | appwrite-config.js:84-114 | a store failure is passed on unchanged; otherwise the result is the first document or null |
| `UserManager.IsAdmin` | appwrite-config.js:230-238 | a failed lookup or an empty result gives false, never an error |
| `UserManager.IsAdminCharacterization` | appwrite-config.js:232-234 | isAdmin holds exactly when the lookup succeeded, found a profile whose role is a string, and that role equals ADMIN or DIRIGENTE ignoring case |
| `UserManager.UpperEqualsWord` | appwrite-config.js:233-234 | an upper-cased string equals an all-capitals word exactly when it matches the word character by character, ignoring case |
| `UserManager.ProfileDocument` | appwrite-config.js:122-133 | the stored profile has exactly the nine payload keys plus email unless email is undefined; each text field is stored as its string, the two timestamps as instants, and email as null or its string |
| `UserManager.NewProfileIsNotAdmin` | appwrite-config.js:230-238 | a profile just built by createUserProfile, stored and looked up first, is never an admin |
| `JsStrings.TrimStartSplits` | appwrite-config.js:125 | the input is an all-whitespace prefix followed by what trimming the start leaves |
| `JsStrings.TrimEndSplits` | appwrite-config.js:125 | the input is what trimming the end leaves, followed by an all-whitespace suffix |
| `JsStrings.Trim` | appwrite-config.js:125 | the result has no whitespace at either end |
| `JsStrings.TrimSplits` | appwrite-config.js:125 | the input is an all-whitespace prefix, the trimmed result, and an all-whitespace suffix |
| `JsStrings.TrimCharacterization` | appwrite-config.js:125 | whitespace, then a string without outer whitespace, then whitespace, trims to that middle string |
| `JsStrings.TrimIdempotent` | appwrite-config.js:125 | trimming twice is the same as trimming once |
| `JsStrings.TrimIgnoresTrailingWhitespace` | appwrite-config.js:125 | appending whitespace does not change the trimmed result |
| `JsStrings.UpperCharPreimage` | appwrite-config.js:233 | a character upper-cases to an ASCII capital exactly when it is that capital, its lower case, or dotless i for I, or long s for S |
| `JsStrings.ToUpper` | appwrite-config.js:340 | upper-casing keeps the length and maps every character on its own (the same mapping serves the role comparison at line 233) |
| `JsStrings.ToUpperHasNoLower` | appwrite-config.js:340 | no ASCII lower-case letter is left after upper-casing |
| `JsStrings.Split` | appwrite-config.js:337 | split(' ') gives at least one piece and no piece contains a space |
| `JsStrings.JoinSplit` | appwrite-config.js:337 | joining the pieces with single spaces gives back the input |
| `JsStrings.SplitJoin` | appwrite-config.js:337 | splitting a space-joined list of space-free pieces gives back the list |
| `Decimal.ToDecimal` | appwrite-config.js:153 | a number's decimal text is non-empty, all digits, and has no leading zero unless it is "0" |
| `Decimal.ParseToDecimal` | appwrite-config.js:153 | parsing a number's decimal text gives the number back |
| `Decimal.ToDecimalParse` | appwrite-config.js:157 | a digit string without a leading zero is the decimal text of its value |
| `Decimal.DecimalLength` | appwrite-config.js:153 | a number with k decimal digits lies in [10^(k-1), 10^k) |
| `Decimal.PadStart` | appwrite-config.js:153 | padStart keeps the text at the end, fills only on the left with the fill character, and has length max(len, width) |
| `Decimal.ParseLeadingZeros` | appwrite-config.js:153 | leading zeros do not change the value of a digit string |
| `Documents.OrEmpty` | appwrite-config.js:126 | defaulting a field with `''` gives "" exactly when the field is absent, null or empty, and otherwise is the field's text |
| `Documents.Render` | appwrite-config.js:125 | a string renders as itself, so a truthy field renders as its defaulted text (`OrEmpty`); only the empty string renders as ""; undefined renders as the text "undefined" and null as "null", so a missing first name gives "undefined Rossi" here and in the account name at line 200 |
| `Documents.Spread` | appwrite-config.js:280-285 | an object spread has the keys of both objects, and where both have a key the later one wins |
| `Documents.FieldEntry` | appwrite-config.js:124 | an undefined field adds no key to the stored document; null is stored as null and a string as a string |
| `DataManager.CreateRequest` | appwrite-config.js:280-285 | every caller field other than created_at, updated_at and status is kept unchanged; status is "PENDING"; the two timestamps are the call's clock readings; no other key is added |
| `DataManager.CreateRequestIgnoresForcedFields` | appwrite-config.js:280-285 | the caller's own status and timestamps have no effect on the payload |
| `DataManager.CreateRequestRestamp` | appwrite-config.js:280-285 | building a request from a built request at new readings is the same as building it once at those readings |
| `DataManager.UpdatePayload` | appwrite-config.js:306-309 | every key and value of the caller's data is kept except updated_at, which is set to now; no other key is added |
| `DataManager.UpdatePayloadRestamp` | appwrite-config.js:306-309 | stamping an update payload twice keeps only the later stamp |
| `DataManager.UpdatePayloadAddsOneField` | appwrite-config.js:306-309 | data without updated_at gains exactly one field |
| `AppUtils.CharAt0` | appwrite-config.js:339 | charAt(0) is empty exactly for an empty piece, otherwise the piece's first character alone |
| `AppUtils.FirstChars` | appwrite-config.js:338-339 | joining the first characters of the pieces gives one character per non-empty piece |
| `AppUtils.Prefix` | appwrite-config.js:341 | substring(0, n) is the first n characters, or the whole string when it is shorter |
| `AppUtils.GetInitials` | appwrite-config.js:335-342 | the result has at most two characters and no ASCII lower-case letter; an empty name gives "" |
| `AppUtils.GetInitialsOfWords` | appwrite-config.js:335-341 | the initials are the upper-cased first characters of the first two non-empty space-separated words, or fewer if there are fewer words |
| `AppUtils.FirstCharsSkipsEmpty` | appwrite-config.js:338-339 | empty pieces from consecutive spaces contribute nothing to the joined first characters |
| `AppUtils.DoubledSpaceIsIgnored` | appwrite-config.js:337 | a double space splits a name into the same words as a single space, and gives the same initials |
| `AppUtils.IsValidEmail` | appwrite-config.js:419-421 | an accepted address has at least five characters and no whitespace anywhere |
| `AppUtils.IsValidEmailMatchesPattern` | appwrite-config.js:419-421 | the check accepts exactly the strings matching `^[^\s@]+@[^\s@]+\.[^\s@]+$`: text without `@` or whitespace, `@`, then a domain without `@` or whitespace that has a `.` neither first nor last |
| `AppUtils.ValidEmailHasOneAt` | appwrite-config.js:420 | an accepted address has exactly one `@`, with text on both sides |
| `AppUtils.IsValidPhone` | appwrite-config.js:424-426 | an accepted phone number holds 2 to 15 digits |
| `AppUtils.StripSeparators` | appwrite-config.js:425 | stripping leaves no whitespace, `-`, `(` or `)` |
| `AppUtils.StripIdempotent` | appwrite-config.js:425 | stripping twice is the same as stripping once |
| `AppUtils.StripAppend` | appwrite-config.js:425 | stripping a concatenation strips each part |
| `AppUtils.SeparatorIsIgnored` | appwrite-config.js:424-426 | inserting a separator anywhere in a phone number does not change whether it is valid |
| `AppUtils.StripKeepsDigits` | appwrite-config.js:425 | stripping removes no digit |
| `AppUtils.IsValidPhoneByDigitCount` | appwrite-config.js:424-426 | a phone is valid exactly when, once stripped, it is digits with at most a leading `+`, the first digit is not 0, and it has 2 to 15 digits in all |

## Left out

- The Appwrite SDK calls: `account.get/create/createEmailPasswordSession/deleteSession`,
  `databases.listDocuments/createDocument/updateDocument`, `ID.unique()` and
  `Query.*`. Their behaviour is not in this repository. Query results come in as
  `Result` parameters, and the payload builders stop at the object handed to the SDK.
- `getCurrentUser`, `login`, `logout`, `getAllUsers` and `getAllTessere`: each is one
  SDK call and a re-throw, with no data shaping of its own.
- The `register` sequence (lines 191-217): four awaited SDK calls with no rollback.
  Only its account name and the two payloads it builds are modelled.
- `new Date()`, `toISOString()`, `getFullYear()` and `Math.random()`: these are
  parameters. The ISO-8601 rendering and the calendar year of an instant are not modelled.
- `formatDate` and `formatCurrency`: they depend on locale data, and the amounts are floating point.
- `showToast`, `safeRedirect`, `emergencyCleanup`, `checkConnection`, the periodic
  health check, `initializeAppwrite`, the `DOMContentLoaded` hook and the `window`
  exports: DOM, timers, cookies, storage, network and global plumbing.
- The `APPWRITE_CONFIG` identifiers. This includes the `richieste` collection, which
  reuses the `tessere` identifier. The payload builders do not depend on them.
- Document values other than null, booleans, integers, strings and instants: a
  JavaScript number is a floating-point value, and a request field can be an array or
  an object. The request and update properties do not depend on the values' type.
- Form fields that are numbers or objects: a field is `undefined`, `null` or a string.
- Characters are Unicode scalar values, while JavaScript strings are UTF-16 code units.
  `charAt(0)` of a word starting with an astral character is half of a surrogate pair,
  which the model does not represent.
- `JsStrings.UpperChar`: does not apply the other Unicode case mappings (`é` to `É`,
  `ß` to `SS`, ligatures). None of them can produce `ADMIN` or `DIRIGENTE`, so
  `isAdmin` is exact. `getInitials` can differ for such letters: in JavaScript, `ß`
  upper-cases to two letters before `substring(0, 2)` cuts the result.
- `Decimal.ToDecimal`: covers non-negative integers only. A negative year and the
  exponent notation JavaScript uses from 10^21 upward are not modelled.
- The document returned by `createDocument` (lines 135-140): `register` passes it to
  `createTessera` (lines 207-210), while `RegisteredCardCarriesProfile` passes the
  payload itself. It therefore assumes the store hands back `full_name`, `email` and
  `telefono` unchanged.
- Inputs that are not strings: `GetInitials`, `IsValidEmail` and `IsValidPhone` take a
  string. In JavaScript, `getInitials(undefined)` and `isValidPhone(undefined)` throw a
  TypeError (lines 336-337, 425), and `isValidEmail(null)` tests the text "null" (line 420).
- `console.error` logging before each re-throw or `return false` (for example lines 95
  and 236): it has no effect on the results.
- The Promises of the async wrappers: an awaited success is modelled as its value, and a
  rejection as a `Failure`.
- Key order in documents: objects are maps. The model keeps only which keys exist and their values.
