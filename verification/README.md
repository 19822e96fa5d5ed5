# Bug tracker core in Dafny

A model of the pure logic of a MERN bug tracker, with proofs about that logic:

- **Field validators and the aggregate check** (`server/src/utils/validators.js`). There is one check per bug field: title, description, priority, severity and status. The aggregate check `validateBugData` always validates the title. It validates each other field only when its value is truthy, and lists the failure messages in field order.
- **In-memory authentication routes** (`server/src/routes/authRoutes.js`). These are `register`, `login` and `me`, working over a list of users seeded with one demo account. Each route is modelled as a pure transition from the user list to a new list and a response. Tokens have the form `"token-" + id`. `me` reads the id back out of the `Authorization` header.
- **The bug card's display logic** (`client/src/components/BugCard.js`). This covers the severity colour, the status label, and the fallbacks shown for missing fields. It also models the two ways rendering fails: `toUpperCase` called on a severity that is not a string, and React refusing a plain object as a child.
- **The address `getAllBugs` fetches** (`client/src/services/bugService.js`). This is the API base address, `/bugs`, and a query string built with `URLSearchParams`. That query string is modelled by the `application/x-www-form-urlencoded` serializer and parser of the WHATWG URL Standard, section 5.

The JavaScript semantics the code relies on are modelled explicitly rather than assumed:

- truthiness;
- `||`;
- `String(v)`, where an array prints its elements joined with commas;
- `===`, under which every object or array parsed from a request is a distinct reference;
- the global `parseInt` without a radix: leading whitespace, an optional sign, `0x` switching to base 16, and the longest digit prefix, with `NaN` as `None`;
- `String.prototype.trim`, using the ECMAScript WhiteSpace and LineTerminator characters;
- `.length` in UTF-16 code units;
- `split` with a one-character separator;
- UTF-8 encoding.

Module layout:

- `wrappers.dfy`: `Option`.
- `strings.dfy`: `Strings`, which covers trim, UTF-16 length, split/join and upper-casing.
- `numbers.dfy`: `Numbers`, which covers decimal printing and `parseInt`.
- `js.dfy`: `Js`, the value model.
- `bugs.dfy`: `Bugs`, the bug record.
- `validators.dfy`: `Validators`.
- `auth.dfy`: `Auth`.
- `bug_card.dfy`: `BugCard`.
- `form_urlencoded.dfy`: `FormUrlEncoded`.
- `bug_service.dfy`: `BugService`.

### Behaviours of the code worth knowing

- **Which fields the aggregate check validates.** `validateBugData` validates the optional fields only when they are truthy. So a priority of `0`, an empty severity, an empty status and an empty description are skipped and the record passes (`Validators.ZeroPrioritySkipped`, `Validators.FalsyFieldsSkipped`). On their own, `validatePriority(0)` and `validateSeverity("")` reject those values.
- **Empty descriptions.** `validateBugDescription` rejects an absent or empty description with "Description must be a string". Only the aggregate check lets them through, by skipping them.
- **Array values.** `parseInt` reads an array through its comma-joined string form. So the priority `[3]` is accepted, and so is `[3, {}]`, which the bug card then cannot render (`BugCard.ValidatedPriorityWithObjectThrows`).
- **Any header shape is trusted by `me`.** The first word of the `Authorization` header is never looked at, nor is anything before the first `-` of the token. `"Basic token-1"` and `"Bearer abc-1"` both identify user 1 (`Auth.MeIgnoresSchemeAndPrefix`).

## Model

| member | source | states |
|---|---|---|
| Validators.ValidateBugTitle | server/src/utils/validators.js:5-30 | The title is accepted exactly when it is a string that is not entirely whitespace and whose trimmed text has at most 100 UTF-16 units. Otherwise the error is one of three messages: "required" for a non-string or empty string, "cannot be empty" for whitespace only, "cannot exceed 100" for too long. |
| Validators.ValidateBugDescription | server/src/utils/validators.js:32-48 | The description is accepted exactly when it is a non-empty string of at most 1000 UTF-16 units. A non-string or empty string gets the "must be a string" message, and a longer one the "cannot exceed 1000" message. |
| Validators.ValidatePriority | server/src/utils/validators.js:50-61 | The priority is accepted exactly when `parseInt` of its string form is a number in 1..5; an array is read through its comma-joined elements. NaN and out-of-range values give the one range message. |
| Validators.ValidateSeverity | server/src/utils/validators.js:63-74 | The severity is accepted exactly when it is one of the strings low, medium, high. Otherwise the message lists them. |
| Validators.ValidateStatus | server/src/utils/validators.js:76-87 | The status is accepted exactly when it is one of the strings open, in-progress, closed. Otherwise the message lists them. |
| Validators.WhiteSpaceTitleVersusDescription | server/src/utils/validators.js:13-45 | A non-empty all-whitespace text is rejected as a title ("cannot be empty") but accepted as a description. The title limit applies to trimmed text, the description limit to raw text. |
| Validators.TitleDependsOnTrim | server/src/utils/validators.js:13-27 | Two non-empty titles with the same trimmed text get the same verdict. |
| Validators.TitlePaddingIgnored | server/src/utils/validators.js:13-27 | Surrounding whitespace does not change a title's verdict. |
| Validators.TitleAccepted | server/src/utils/validators.js:13-29 | A title without surrounding whitespace is accepted when it has at most 100 UTF-16 units. |
| Validators.PriorityOfNumber | server/src/utils/validators.js:50-61 | A numeric priority is accepted exactly when it lies in 1..5. |
| Validators.PriorityOfNonNumeric | server/src/utils/validators.js:51-58 | undefined, null, booleans and plain objects parse to NaN and are rejected. |
| Validators.PriorityOfSingletonArray | server/src/utils/validators.js:50-61 | A one-element array is judged as its element, so `[3]` is an accepted priority. |
| Validators.PriorityOfDigitString | server/src/utils/validators.js:51-53 | For a string of leading whitespace, then digits, then a tail that does not start with a digit, the verdict depends only on the value of the digits. The one exception, a tail starting with `x` or `X` after the single digit `0`, is excluded because it switches to hexadecimal. |
| Validators.PriorityOfSignedDigits | server/src/utils/validators.js:50-61 | With a sign between the whitespace and the digits, the verdict is the range check on the digits' value, negated after `-`; a `+` changes nothing. |
| Validators.PriorityOfHexDigits | server/src/utils/validators.js:50-61 | After an optional sign, `0x` or `0X` and hexadecimal digits, the verdict is the range check on the base-16 value of those digits. |
| Validators.PlusThreeAccepted | server/src/utils/validators.js:50-61 | `"+3"` is an accepted priority. |
| Validators.HexFiveAccepted | server/src/utils/validators.js:50-61 | `"0x5"` is an accepted priority. |
| Validators.BareHexPrefixRejected | server/src/utils/validators.js:50-61 | `"0x"` is rejected: it holds no digit after the prefix. |
| Validators.PriorityOfSignWithoutDigit | server/src/utils/validators.js:50-61 | A priority whose sign is not directly followed by a digit is rejected. |
| Validators.SpaceAfterSignRejected | server/src/utils/validators.js:50-61 | `"+ 3"` is rejected. |
| Validators.EnumsAreCaseSensitive | server/src/utils/validators.js:64-79 | Membership in the severity and status lists is exact: "High", "high " and "Open" are rejected. |
| Validators.FieldCheck | server/src/utils/validators.js:92-118 | A falsy field other than the title is skipped, and its check passes. Which validator runs for each field is stated by `Validators.ValidateBugDataByField`. |
| Validators.FieldCheckMessages | server/src/utils/validators.js:5-87 | A failing check reports one of its own field's messages, and no two fields share a message, so each message names its field. |
| Validators.Checks | server/src/utils/validators.js:92-118 | Every field is checked exactly once, at its position in the order title, description, priority, severity, status. Only the title or a truthy field can fail. |
| Validators.FailedIndices | server/src/utils/validators.js:94-117 | Lists the positions of exactly the failed checks, each once, in increasing order. |
| Validators.Collect | server/src/utils/validators.js:90-118 | At most one message per check, and no message exactly when every check passes. |
| Validators.CollectIsFailedMessages | server/src/utils/validators.js:90-117 | The pushed messages are the failed checks' messages, in check order. |
| Validators.ValidateBugData | server/src/utils/validators.js:89-128 | The record is valid exactly when every field check passes. Otherwise the error list has between 1 and 5 entries: the failed fields' messages, in field order. |
| Validators.ValidateBugDataByField | server/src/utils/validators.js:89-128 | The record is valid exactly when `validateBugTitle` accepts the title and each truthy description, priority, severity and status passes its own validator. The error list is exactly those validators' messages, in the order title, description, priority, severity, status. |
| Validators.CollectFive | server/src/utils/validators.js:90-118 | For five checks the pushed messages are the five checks' messages, concatenated in order. |
| Validators.NoFailureIffAllValid | server/src/utils/validators.js:120-127 | There are no failures exactly when every field check passes. |
| Validators.TitleErrorFirst | server/src/utils/validators.js:92-94 | An invalid title makes the record invalid, and the title message comes first. |
| Validators.FalsyFieldsSkipped | server/src/utils/validators.js:96-118 | The verdict is the same whatever falsy value a non-title field holds, including when the field is absent. |
| Validators.ZeroPrioritySkipped | server/src/utils/validators.js:102-112 | A record with priority 0 and an empty severity passes the aggregate check, although `validatePriority` and `validateSeverity` reject those values. |
| Validators.OnlyTitleChecked | server/src/utils/validators.js:89-127 | With every other field falsy, the record is valid exactly when the title is. |
| Validators.TitleAndPriorityDecide | server/src/utils/validators.js:89-127 | With description, severity and status falsy, the record is valid exactly when the title is valid and the priority is falsy or accepted. |
| Validators.TitleAlwaysChecked | server/src/utils/validators.js:92-94 | A record without a title is rejected, with "Title is required and must be a string" first. |
| Strings.Trim | server/src/utils/validators.js:13-15 | The trimmed text is no longer than the input and is empty exactly when the input is all whitespace. Otherwise it starts and ends with a non-whitespace character. |
| Strings.TrimIsInfix | server/src/utils/validators.js:13 | The trimmed title is a contiguous slice of the input, with only whitespace before and after it. |
| Strings.TrimOfPadded | server/src/utils/validators.js:13 | Trimming whitespace padding around a text that starts and ends with a visible character gives back that text. |
| Strings.BmpLength | server/src/utils/validators.js:40 | The UTF-16 length equals the character count exactly when every character is in the Basic Multilingual Plane. |
| Strings.Split | server/src/routes/authRoutes.js:69-74 | There is one more piece than there are separators, and no piece holds the separator. |
| Strings.JoinSplit | server/src/routes/authRoutes.js:69-74 | Joining the pieces of a `split` with the separator gives back the string. |
| Strings.SplitJoin | server/src/routes/authRoutes.js:69-74 | Splitting a join of separator-free pieces gives back the pieces. |
| Strings.SplitAfterFirst | server/src/routes/authRoutes.js:69-74 | `split` on `a + sep + b`, where `a` holds no separator, yields `a` followed by the pieces of `b`. |
| Strings.SplitFirstPiece | server/src/routes/authRoutes.js:69-74 | The first piece of `t + more` is `t` when `t` has no separator and `more` is empty or starts with one. |
| Strings.ToUpperAscii | client/src/components/BugCard.js:47 | The result has the same length. Each ASCII lower-case letter is upper-cased and every other character is kept. |
| Numbers.NatToDecimal | server/src/routes/authRoutes.js:33 | The decimal form of an id is a non-empty run of digits without a leading zero. |
| Numbers.ParseInt | server/src/utils/validators.js:51 | A number is read only when the text after leading whitespace starts with a sign or a digit, and a negative result needs a leading `-`. The sign and `0x` rules are stated by the lemmas below. |
| Numbers.ReadSigned | server/src/utils/validators.js:51 | After the leading whitespace, a number is read only when the text starts with a sign or a digit, and a negative result needs a leading `-`. |
| Numbers.DecimalRoundTrip | server/src/routes/authRoutes.js:74-75 | `parseInt(String(n))` is `n` for every integer `n`. |
| Numbers.ParseIntPrefix | server/src/utils/validators.js:51 | `parseInt` reads the leading digits after whitespace and ignores the rest, unless the rest would make a `0x` prefix. |
| Numbers.ParseIntWithSign | server/src/utils/validators.js:51 | After whitespace, no sign or `+` leaves the reading of the unsigned text unchanged and `-` negates it; NaN stays NaN. |
| Numbers.ParseIntSignWithoutDigit | server/src/utils/validators.js:51 | A `+` or `-` not directly followed by a decimal digit gives NaN: nothing is skipped after the sign, so `"+"`, `"-x"` and `"+ 3"` are NaN. |
| Numbers.ReadDecimalDigits | server/src/utils/validators.js:51 | Decimal digits followed by a non-digit (and no `x` after a lone `0`) read as their value. |
| Numbers.ParseIntSigned | server/src/utils/validators.js:51 | Whitespace, an optional `+` or `-`, digits and a non-digit tail read as the digits' value, negated after `-`. |
| Numbers.ReadHexDigits | server/src/utils/validators.js:51 | After `0x` or `0X`, the hexadecimal digits up to the first non-hexadecimal character are read in base 16. |
| Numbers.ParseIntHex | server/src/utils/validators.js:51 | Whitespace, an optional sign, `0x` and hexadecimal digits read as their base-16 value, negated after `-`. |
| Numbers.ParseIntHexWithoutDigits | server/src/utils/validators.js:51 | A `0x` prefix not followed by a hexadecimal digit is NaN, whatever sign and whitespace precede it. |
| Numbers.BareHexPrefixIsNaN | server/src/utils/validators.js:51 | `parseInt("0x")` is NaN. |
| Numbers.DecimalThenText | server/src/routes/authRoutes.js:74-75 | The decimal form of `k` followed by text that does not continue the number parses to `k`. |
| Js.OrLaws | client/src/components/BugCard.js:39-49 | `v \|\| d` is one of its operands and is truthy exactly when either is. Applying the same default twice changes nothing. |
| Js.FalsyValues | server/src/utils/validators.js:96-118 | The falsy values are exactly undefined, null, false, 0 and the empty string. Every object and array is truthy. |
| Js.ToString | client/src/services/bugService.js:7-9 | The string form of a number parses back to that number, and a string is its own string form. |
| Js.SingletonArrayString | server/src/utils/validators.js:51 | An array of one element other than undefined or null prints as that element. |
| Js.StrictEqualsLaws | server/src/routes/authRoutes.js:18 | `===` is symmetric and transitive, and reflexive exactly on primitive values: two parsed objects or arrays are never the same reference. |
| Js.ParseIntOfNumber | server/src/utils/validators.js:51 | `parseInt` of a number is that number. |
| Js.ParseIntOfNonNumeric | server/src/utils/validators.js:51-53 | `parseInt` of undefined, null, a boolean or a plain object is NaN. |
| Js.ParseIntOfSingletonArray | server/src/utils/validators.js:51 | `parseInt` of a one-element array parses its element: `parseInt([3])` is 3. |
| Auth.FindFirst | server/src/routes/authRoutes.js:18 | `find` returns the first element satisfying the predicate, or none when no element does. |
| Auth.Register | server/src/routes/authRoutes.js:10-39 | Missing fields give 400 and an email already held under `===` gives 400, both leaving the list unchanged. Success (201) is exactly the case where all fields are present and the email is new. It appends the user with id length+1 and returns the token `token-<id>` and the user without a password. |
| Auth.Login | server/src/routes/authRoutes.js:42-64 | Missing credentials give 400. Otherwise the result is 200 exactly when some user matches email and password under `===`, returning the first such user's token and public data, and 401 "Invalid credentials" when none does. |
| Auth.BearerToken | server/src/routes/authRoutes.js:69 | There is a token exactly when the header holds a space. The token is then a string without spaces; otherwise it is undefined. |
| Auth.TokenUserId | server/src/routes/authRoutes.js:74-75 | A token without a `-` reads `parseInt(undefined)`, which is NaN. |
| Auth.TokenIdIsSecondPiece | server/src/routes/authRoutes.js:74-75 | The id is `parseInt` of the text between the first and the second `-`: the prefix before the first `-` and everything from the second `-` on are ignored, so `token-1-2` names user 1. |
| Auth.TokenIdIgnoresTrailingText | server/src/routes/authRoutes.js:74-75 | Text after the id's digits is ignored as well, so `token-1x` names user 1. |
| Auth.Lookup | server/src/routes/authRoutes.js:75-83 | 200 exactly when some user has the parsed id, showing the first such user without a password. Otherwise 401 "User not found". |
| Auth.Me | server/src/routes/authRoutes.js:67-88 | A missing or empty token gives 401 "No token provided". Otherwise the answer is the lookup of the id parsed from the token. Every answer is 200 or 401, and a 200 shows a stored user. |
| Auth.Handle | server/src/routes/authRoutes.js:9-88 | Only a successful registration changes the list, and only by appending one user. |
| Auth.SeedWellFormed | server/src/routes/authRoutes.js:5-7 | The seed list has sequential ids and unique emails. |
| Auth.RegisterPreservesWellFormed | server/src/routes/authRoutes.js:18-29 | Registration keeps ids equal to positions plus one and emails pairwise distinct under `===`. |
| Auth.RunPreservesWellFormed | server/src/routes/authRoutes.js:9-88 | Any sequence of requests keeps the user list well formed. |
| Auth.ReachableWellFormed | server/src/routes/authRoutes.js:5-88 | Every user list reachable from the seed is well formed. |
| Auth.RunExtends | server/src/routes/authRoutes.js:29 | Users are never removed or renumbered: each list extends the previous one. |
| Auth.DuplicateRegistrationRefused | server/src/routes/authRoutes.js:18-21 | Once a primitive (not an object or array) email is registered, registering it again gives 400 "User already exists" and changes nothing. |
| Auth.BearerOfToken | server/src/routes/authRoutes.js:69 | The header `"Bearer " + t` yields the token `t` when `t` has no space. |
| Auth.AnySchemeCarriesToken | server/src/routes/authRoutes.js:69 | The second word of the header is the token whatever the first word is, and later words are ignored. |
| Auth.PrefixedIdReadsBack | server/src/routes/authRoutes.js:74-75 | Any prefix without `-`, then `-`, then the decimal form of k reads as k. |
| Auth.TokenRoundTrip | server/src/routes/authRoutes.js:74-75 | The token `token-<id>` issued by `register` and `login` has no space, and the id read back from it is `id`. |
| Auth.LookupById | server/src/routes/authRoutes.js:75 | In a well-formed list, id k finds the user at position k-1. |
| Auth.MeTrustsToken | server/src/routes/authRoutes.js:67-84 | The header `Bearer token-<k>` is answered with user k's public data. The unsigned token is trusted. |
| Auth.MeIgnoresSchemeAndPrefix | server/src/routes/authRoutes.js:67-84 | In a well-formed list, the header `<scheme> <prefix>-<k>` is answered with user k's public data, for any scheme word and any prefix without `-`. |
| Auth.MeUnknownUser | server/src/routes/authRoutes.js:67-79 | In a well-formed list, a token naming an id that no user has gives 401 "User not found", for example `Bearer token-2` against the seed list. |
| Auth.RegisterThenMe | server/src/routes/authRoutes.js:31-35 | The token returned by a successful registration makes `me` return the registered user. |
| Auth.LoginThenMe | server/src/routes/authRoutes.js:56-60 | The token returned by a successful login makes `me` return the logged-in user. |
| Auth.MeWithoutToken | server/src/routes/authRoutes.js:69-72 | A header without a second word, or no header, gives 401 "No token provided". |
| BugCard.SeverityColor | client/src/components/BugCard.js:4-15 | The colour is one of four. high, medium and low get #ff4444, #ff9800 and #4caf50 respectively. |
| BugCard.StatusLabel | client/src/components/BugCard.js:17-28 | open, in-progress and closed are labelled Open, In Progress and Closed. Any other value gives the status itself or a string. |
| BugCard.ColorIffValidSeverity | client/src/components/BugCard.js:4-15 | A severity gets a non-default colour exactly when the server validator accepts it. |
| BugCard.ColorsDistinguishSeverities | client/src/components/BugCard.js:4-15 | Non-default colours identify the severity. |
| BugCard.LabelIffValidStatus | client/src/components/BugCard.js:17-28 | A status is relabelled exactly when the server validator accepts it. |
| BugCard.LabelsDistinguishStatuses | client/src/components/BugCard.js:17-28 | On accepted statuses the label identifies the status. |
| BugCard.LabelOfLabel | client/src/components/BugCard.js:25-26 | A stored "Open", "In Progress" or "Closed" is shown unchanged, so it looks the same as the accepted status it labels. |
| BugCard.SeverityBadge | client/src/components/BugCard.js:47 | The badge is "MEDIUM" for a falsy severity and the upper-cased string for a truthy string. The call fails exactly on a truthy non-string. |
| BugCard.Render | client/src/components/BugCard.js:30-51 | A missing bug shows "No bug data". The render fails on `toUpperCase` exactly for a truthy non-string severity. Otherwise the card is shown exactly when title, description, priority and status hold no plain object. A shown card keeps each truthy title, description and priority and falls back to "Untitled", "No description provided" and 3. It shows the status label and the badge, and uses the severity colour for the badge and the border. |
| BugCard.ValidBugRenders | client/src/components/BugCard.js:39-50 | A record whose severity passes its check never fails on `toUpperCase`. A record the server validator accepts is shown exactly when its priority holds no plain object. |
| BugCard.ValidatedPriorityWithObjectThrows | client/src/components/BugCard.js:49 | A record whose priority is `[n, {}]` with n in 1..5 passes the server validator but cannot be rendered. |
| BugCard.NumberThenObjectParses | server/src/utils/validators.js:51 | `parseInt([n, {}])` is n, since the array prints as `n,[object Object]`. |
| BugCard.MissingSeverityLooksMediumButGrey | client/src/components/BugCard.js:45-47 | A bug without a severity is shown exactly when its other fields are renderable. It is then labelled MEDIUM but drawn grey, not in the medium colour. |
| BugCard.ZeroPriorityShownAsDefault | client/src/components/BugCard.js:49 | Priority 0 passes `validateBugData`'s priority check. The card is shown exactly when the fields are renderable, and then displays priority 3. |
| BugCard.AcceptedSeverityBadge | client/src/components/BugCard.js:45-47 | With an accepted severity the card is shown exactly when the fields are renderable. The badge then shows the severity upper-cased in a non-default colour. |
| FormUrlEncoded.Utf8 | client/src/services/bugService.js:7-9 | One to four bytes, and a single byte exactly for ASCII, where it is the code point. |
| FormUrlEncoded.Encode | client/src/services/bugService.js:7-11 | The encoded text holds only letters, digits, `*-._`, `+` and `%`, and is at least as long as the input. |
| FormUrlEncoded.EncodeUnreserved | client/src/services/bugService.js:7-11 | Text of letters, digits and `*-._` is written unchanged. |
| FormUrlEncoded.DecodeEncode | client/src/services/bugService.js:11 | Percent-decoding an encoded text gives its UTF-8 bytes. |
| FormUrlEncoded.EncodeHasNoDelimiters | client/src/services/bugService.js:11-13 | An encoded name or value holds no `&`, `=`, `?` or `#`. |
| FormUrlEncoded.Serialize | client/src/services/bugService.js:11 | The query string is empty exactly when there are no pairs. |
| FormUrlEncoded.Parse | client/src/services/bugService.js:11 | The URL Standard's `application/x-www-form-urlencoded` parser, the inverse against which the query `getAllBugs` serializes is checked (`FormUrlEncoded.ParseSerialize`, `BugService.UrlRoundTrip`). An empty query parses to no pairs, and there is at most one pair per `&`-separated piece. |
| FormUrlEncoded.ParseSerialize | client/src/services/bugService.js:6-13 | Parsing a serialized list gives back every pair in order, as UTF-8 bytes. |
| BugService.ApiBaseUrl | client/src/services/bugService.js:1 | The address is either the default or the configured value. It is the default exactly when the variable is unset, empty or equal to the default. |
| BugService.Selected | client/src/services/bugService.js:7-9 | A filter key is selected exactly when its value is truthy, in the order status, priority, sortBy. |
| BugService.QueryPairs | client/src/services/bugService.js:6-9 | There are at most three pairs and no name occurs twice. A filter's name is present exactly when the filter is truthy, and its pair's value is `String` of the filter. |
| BugService.BugsUrl | client/src/services/bugService.js:11-13 | `<base>/bugs` without filters. Otherwise `<base>/bugs?` followed by a non-empty query holding no `?` or `#`. |
| BugService.QueryHasNoQuestionMark | client/src/services/bugService.js:11-13 | The query has no `?` or `#`, and is empty exactly when no filter is set. |
| BugService.QuestionMarks | client/src/services/bugService.js:11-13 | The address holds one more `?` than the base exactly when some filter is set. |
| BugService.UrlRoundTrip | client/src/services/bugService.js:6-13 | When the base address has no `?`, cutting the address at `?` and parsing the query recovers the selected filters and their values, in order. |
| BugService.PlainValuesUnchanged | client/src/services/bugService.js:7-11 | Names and values of letters, digits and `*-._` appear in the query as `name=value` unchanged. |
| BugService.DefaultUrl | client/src/services/bugService.js:1-13 | Without the variable and without filters the address is `http://localhost:5000/api/bugs`. |

## Left out

- The bug controller, the Mongoose bug model, Express wiring and the `catch` branches that answer 500 are not part of this model. Nothing in the modelled handlers throws on a parsed JSON body.
- The `success: true` field of the authentication responses is constant and is not represented.
- BugService.BugsUrl: `getAllBugs(null)` hits a TypeError reading `filters.status` (bugService.js lines 4 and 7), because the `= {}` default replaces only `undefined`; the `catch` then rejects with "Failed to fetch bugs: …" and no address is built. The model's filters are always an object, so that call is not represented.
- In `getAllBugs`, the `fetch` call, response checks, JSON decoding and `console` logging (bugService.js lines 15-27) are I/O and are left out. So are the other service methods, which only wrap `fetch`.
- The bug card's creation date is dropped: it needs a clock and locale formatting. Markup is reduced to the values shown. Apart from refusing plain objects, how React displays a non-string child (a `true` title shows nothing) is not modelled.
- Numbers are safe integers: non-integer numbers (`parseInt(2.5)` is 2) and numbers whose `String` form uses exponent notation are not represented.
- Numbers.ParseInt: returns the exact value of a long digit string, where JavaScript returns the nearest double. Values that large are out of range for a priority and are rejected either way.
- Strings.ToUpperAscii: maps ASCII letters only, not the full Unicode case mapping of `toUpperCase`.
- Strings are sequences of Unicode scalar values. JavaScript strings holding lone surrogates are not represented; `URLSearchParams` would replace them with U+FFFD.
- FormUrlEncoded.ParseSerialize: names and values are recovered as UTF-8 bytes. The final UTF-8 decoding step of the parser is not modelled.
- The user list is module state shared by all requests. Requests are modelled as served one at a time (`Auth.Run`), which is how the single-threaded server processes the synchronous handlers.
- The ten-character minimum description length that the bug-creation path enforces belongs to the controller and is not part of this model.
- Js.ToString: treats every object as plain. An object with its own non-callable `toString` key (JSON can produce `{"toString": 1}`) makes `String` throw a TypeError, and so makes `parseInt`, `URLSearchParams.append` and the validators throw. The model does not represent that object.
- Js.ParseIntOfNonNumeric: covers plain objects without an own `toString` key. An object whose `toString` key holds something that is not a function makes `String` and `parseInt` throw a TypeError; that case is not modelled.
- Validators.PriorityOfNonNumeric: for the same reason, says nothing about an object with its own `toString` key.
- Validators.ValidatePriority: a priority object with a non-callable own `toString` key makes the validator throw instead of rejecting. The model treats every object as a plain one.
- Arrays are finite trees of values: arrays with holes and arrays that contain themselves are not represented.
- BugCard.ValidBugRenders: no longer promises that every accepted record, or every record whose severity passes, is shown. React refuses a plain object as a child, and an accepted priority such as `[3, {}]` holds one.
- BugCard.MissingSeverityLooksMediumButGrey, BugCard.ZeroPriorityShownAsDefault and BugCard.AcceptedSeverityBadge: they promise the card only when its fields hold no plain object, for the same reason.
