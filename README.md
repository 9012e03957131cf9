# Router Assistance: verified model of the scraper, the MAC-filter lookup, the session and the password policy

Router Assistance drives a home router's HTML administration console from a
headless browser. An Express API exposes the console's actions to a React
dashboard. Most of the system is glue. This project models, in Dafny, the few
pieces of real logic in that glue and proves what they promise:

- **Device-row scraper** (`getConnectedDevices`, `DeviceScraper`). Each row of
  the router's device table becomes a record `{device, mac, ip, state,
  connectivity}`:
  - the MAC is the leftmost 17-character match of
    `([0-9A-Fa-f]{2}[:-]){5}([0-9A-Fa-f]{2})` in the trimmed first line of the
    IP/MAC cell;
  - the IP is that line with the MAC deleted;
  - missing text becomes `"N/A"`, the status is lower-cased, and `"--"` reads
    `"Not connected"`;
  - rows with fewer than five cells are dropped.
- **MAC-filter lookup** (`unblockDevice` and `getBlockedDevices`, `MacFilter`).
  A linear search of the filter table's non-header rows finds the first row
  whose trimmed second cell equals the MAC. A missing MAC gives a 404 error. A
  MAC still listed after the delete gives a 500 error.
- **Session** (`login`, `changeLoginDetails`, `logout`,
  `RouterSession.Session`). `login` sets `isLoggedIn` and keeps the
  credentials only when the browser lands on `http://<ROUTER_IP>/index.asp`.
  A change of login details that the router accepts replaces only the kept
  password.
- **Admin-password policy** (`validatePassword` and `handleChangeLoginDetails`
  in the web client, `PasswordPolicy`). A password needs at least six
  characters and at least two of four classes: digit, upper case, lower case,
  special character. The client's guards run in a fixed order, and the first
  one that fails gives the single error shown.
- **Access gate** (`PrivateRoute` and the client's route table, `Routing`).

The browser is abstracted away. The model takes the browser's outputs as
inputs:

- a device row is the sequence of its cells, each the text of the `div` the
  scraper queries in it, or `None`;
- a filter-table row is its header flag and the texts of its `td` cells;
- `login` takes the URL the browser landed on;
- `changeLoginDetails` takes the success and error texts of the router's
  account page.

JavaScript's string built-ins (`trim`, `split`, `replace` with a string
pattern, `toLowerCase`, reversal) are modelled in `JsStrings`.

Files: `wrappers.dfy` (Option), `http.dfy` (controller responses),
`js_strings.dfy`, `device_scraper.dfy`, `mac_filter.dfy`,
`router_session.dfy`, `password_policy.dfy`, `routing.dfy`.

## Model

| member | source | states |
|---|---|---|
| JsStrings.Trim | server/controllers/routerController.js:147-150 | `trim` leaves no whitespace (ECMA-262 WhiteSpace or LineTerminator) at either end and never lengthens the string |
| JsStrings.TrimStripsOnlyWhitespace | server/controllers/routerController.js:147-150 | the input is the trimmed text with only whitespace before and after it |
| JsStrings.TrimIdempotent | server/controllers/routerController.js:164 | trimming the already-trimmed first line changes nothing |
| JsStrings.Split | server/controllers/routerController.js:151-154 | `split("\n")` yields at least one piece, and no piece holds the separator |
| JsStrings.JoinSplit | server/controllers/routerController.js:151-154 | joining the pieces of a split with the separator gives back the original text |
| JsStrings.SplitFirstIsPrefix | server/controllers/routerController.js:164 | `ipAndMac[0]` is the text before the first line feed, or all of it when there is none |
| JsStrings.IndexOfFrom | server/controllers/routerController.js:169 | the search finds the first occurrence at or after the start, and None means there is none |
| JsStrings.RemoveFirst | server/controllers/routerController.js:169 | `replace(pat, "")` deletes the first occurrence: putting `pat` back at its index restores the input; without one the input is unchanged |
| JsStrings.ToLower | server/controllers/routerController.js:175 | `toLowerCase` on ASCII keeps the length, turns each capital into its small letter, and keeps every character that is not an ASCII capital |
| JsStrings.Reverse | web/src/App.jsx:378 | `split("").reverse().join("")` puts character i at position length-1-i |
| JsStrings.ReverseReverse | web/src/App.jsx:378 | reversing twice gives back the string |
| DeviceScraper.TextOrNotAvailable | server/controllers/routerController.js:147-162 | name, status and connect time are the trimmed text, or "N/A" when the element is missing or its trimmed text is empty |
| DeviceScraper.IpMacLine | server/controllers/routerController.js:151-164 | the line the MAC and IP are read from holds no line feed and has no whitespace at either end; a missing IP/MAC cell reads "N/A" |
| DeviceScraper.GroupsAtShape | server/controllers/routerController.js:166 | n repetitions of the group `[0-9A-Fa-f]{2}[:-]` match exactly when every third character is a separator and the others are hex digits |
| DeviceScraper.MacPatternAtIffShape | server/controllers/routerController.js:166 | the MAC pattern matches at an index exactly when the 17-character window there has the MAC shape, so every match is 17 characters long |
| DeviceScraper.FirstMacFrom | server/controllers/routerController.js:165-167 | the regex search returns the leftmost index where the pattern matches, or None when no index matches |
| DeviceScraper.ExtractMac | server/controllers/routerController.js:164-168 | `mac` is "N/A" exactly when the line has no match; otherwise it is the leftmost MAC-shaped 17-character window, case and mixed separators kept |
| DeviceScraper.ExtractIp | server/controllers/routerController.js:169 | the IP field is never empty ("N/A" stands in for nothing) |
| DeviceScraper.RowToDevice | server/controllers/routerController.js:143-178 | a row yields a record exactly when it has at least five cells |
| DeviceScraper.DropNulls | server/controllers/routerController.js:180 | the filter never lengthens the list, keeps every record of it and adds nothing that was not a record of it |
| DeviceScraper.ScrapeDevices | server/controllers/routerController.js:142-180 | every scraped record is the mapping of some row, and every row with at least five cells gives a record in the output |
| DeviceScraper.KeptRows | server/controllers/routerController.js:144-145 | the kept row indices are increasing and are exactly the rows with at least five cells |
| DeviceScraper.DropNullsSnoc | server/controllers/routerController.js:180 | filtering a list with one more entry appends that entry's record, if it has one |
| DeviceScraper.ScrapeSnoc | server/controllers/routerController.js:142-180 | appending a row to the table appends its record, if it has one, to the output |
| DeviceScraper.ScrapeDevicesKeepsRowsInOrder | server/controllers/routerController.js:142-180 | the output has one record per row with at least five cells, in the rows' original order, and each record is that row's mapping |
| DeviceScraper.ScrapeSingleRow | server/controllers/routerController.js:144-145 | a row with fewer than five cells produces no record; any other row produces exactly one |
| DeviceScraper.MacOccursFirstAtMatch | server/controllers/routerController.js:165-169 | the first occurrence of the extracted MAC in its line is the match itself |
| DeviceScraper.IpIsLineWithoutMac | server/controllers/routerController.js:164-169 | when a MAC is found, `ip` is the line with the leftmost MAC match (the window `replace` deletes) cut out, trimmed, or "N/A" if nothing remains |
| DeviceScraper.IpWithoutMac | server/controllers/routerController.js:164-169 | when the line has no MAC and no literal "N/A", `ip` is the whole trimmed line, or "N/A" if it is empty |
| DeviceScraper.MissingIpMacCell | server/controllers/routerController.js:151-169 | a missing IP/MAC cell yields both `mac` and `ip` = "N/A" |
| DeviceScraper.DeviceFields | server/controllers/routerController.js:147-178 | no record field is empty; `mac` is "N/A" or MAC-shaped; `state` has no ASCII capital; `connectivity` is "Not connected" for "--" and the trimmed text otherwise |
| DeviceScraper.MissingStatusIsLowerCaseNotAvailable | server/controllers/routerController.js:155-175 | a missing or blank status is reported as "n/a", the lower-cased fallback |
| MacFilter.DataRows | server/controllers/routerController.js:267-269 | the `tr:not(.tableth)` selection is exactly the non-header rows of the table, in table order |
| MacFilter.SecondCell | server/controllers/routerController.js:217-219 | the second cell is present exactly when the row has two `td` cells, and its text has no surrounding whitespace |
| MacFilter.NonHeaderIndices | server/controllers/routerController.js:213-215 | the selected row indices are increasing and are exactly those of the rows without the `tableth` class |
| MacFilter.ListedIffDataRowListsMac | server/controllers/routerController.js:266-277 | the lookup can succeed exactly when some non-header row's trimmed second cell equals the MAC |
| MacFilter.ThirdCell | server/controllers/routerController.js:220-222 | the third cell is present exactly when the row has three `td` cells, and its text has no surrounding whitespace |
| MacFilter.BlockedDevices | server/controllers/routerController.js:212-225 | `getBlockedDevices` yields one entry per non-header row of the table, in table order, holding that row's trimmed second and third cells |
| MacFilter.ListedDeviceIsFound | server/controllers/routerController.js:212-277 | a MAC shown in the blocked list is found by the unblock lookup on the same table |
| MacFilter.FindBlockedRow | server/controllers/routerController.js:270-276 | the loop returns the first row whose trimmed second cell equals the MAC exactly (case-sensitive), or None exactly when no row does |
| MacFilter.FirstDataRowIsFirstInTable | server/controllers/routerController.js:267-276 | the first matching row of the selection is the first non-header row of the whole table whose second cell equals the MAC |
| MacFilter.UnblockDevice | server/controllers/routerController.js:266-326 | no match gives a 404 error and clicks nothing; a match still listed after the delete gives a 500 error; otherwise success; the clicked row is the first non-header row of the table that lists the MAC |
| RouterSession.LoginResponse | server/controllers/routerController.js:68-97 | a blank username or password gets an unsuccessful JSON answer; otherwise login succeeds exactly when the landed URL is `http://<ROUTER_IP>/index.asp`, and fails with a 401 error when it is not |
| RouterSession.TextOr | server/controllers/routerController.js:523-528 | a missing or empty router message gives way to the default text |
| RouterSession.PageMessage | server/controllers/routerController.js:502-513 | the router's message is present when either element is; the success text takes precedence over the error text |
| RouterSession.ChangeResponseAsWritten | server/controllers/routerController.js:502-532 | as written, the change succeeds exactly when the router shows a success message; a failure is a 400 error with a non-empty message |
| RouterSession.ChangeRequestValid | server/controllers/routerController.js:449-463 | the declared checks hold exactly when the current and new passwords are non-empty and the confirmation equals the new password (so its own non-empty check is implied) |
| RouterSession.ChangeResponse | server/controllers/routerController.js:449-466 | with the declared checks, a confirmation different from the new password is refused with a 400 error; success needs valid fields and the router's success message; valid requests are answered as before |
| RouterSession.MismatchedConfirmationAcceptedAsWritten | server/controllers/routerController.js:44-52 | with the router showing a success message, a mismatched confirmation succeeds as written, but the declared check refuses it |
| RouterSession.AsWrittenIgnoresConfirmation | server/controllers/routerController.js:457-462 | for a given router account page, the server's own decision does not depend on the confirmation |
| RouterSession.WifiPasswordResponse | server/controllers/routerController.js:403-413 | the Wi-Fi change proceeds exactly when the given current password equals the router's field value; otherwise a 401 error |
| RouterSession.Session.constructor | server/server.js:68-78 | a new session is not logged in and holds no credentials |
| RouterSession.Session.Login | server/controllers/routerController.js:86-97 | only a landing on the success URL sets `isLoggedIn` and stores exactly the given credentials; any other outcome leaves the session untouched |
| RouterSession.Session.ChangeLoginDetails | server/controllers/routerController.js:448-538 | on success only the stored password changes, to the new one, and the username is kept; otherwise the session is unchanged; a logged-in session keeps its credentials |
| RouterSession.Session.Logout | server/controllers/routerController.js:106-117 | after logout the session is not logged in and holds no credentials |
| PasswordPolicy.EscapeForClass | web/src/App.jsx:353-355 | escaping the literal yields a class body in which every backslash starts an identity escape, and no unescaped character opens a range, closes the class or negates it |
| PasswordPolicy.ClassMembersOfEscaped | web/src/App.jsx:353-355 | reading back the escaped class body gives exactly the characters that were escaped |
| PasswordPolicy.SpecialClassIsLiteral | web/src/App.jsx:349-355 | the special class holds exactly the characters of the literal |
| PasswordPolicy.SpecialCharsArePunctuation | web/src/App.jsx:349 | every character of the literal is ASCII punctuation other than the backtick |
| PasswordPolicy.PunctuationIsSpecialChar | web/src/App.jsx:349 | every ASCII punctuation character except the backtick occurs in the literal |
| PasswordPolicy.SpecialClassIsPunctuationButBacktick | web/src/App.jsx:349-355 | the special class is ASCII punctuation minus the backtick; it contains the backslash, the vertical bar and both quote marks, and not the space |
| PasswordPolicy.ValidatePassword | web/src/App.jsx:347-366 | any password shorter than 6 is refused; otherwise it is accepted exactly when two different classes occur in it |
| PasswordPolicy.NoClassForSpaceOrNonAscii | web/src/App.jsx:350-356 | space and non-ASCII characters belong to no class |
| PasswordPolicy.HandleChangeLoginDetails | web/src/App.jsx:370-387 | the request is sent exactly when the policy holds, the new password differs from the current one and from its reverse, and matches the confirmation; a short password is always refused for the policy |
| PasswordPolicy.RefusalNamesFirstFailingGuard | web/src/App.jsx:370-385 | each error message is shown exactly when its guard is the first one to fail, in the order policy, same, reversed, confirmation |
| PasswordPolicy.SentPasswordIsNotReversalOfCurrent | web/src/App.jsx:378-381 | a sent new password, reversed, is not the current password either |
| PasswordPolicy.SentRequestPassesServerChecks | web/src/App.jsx:382-393 | every request the form sends passes the server's declared checks: the fields are non-empty and the confirmation equals the new password |
| Routing.PrivateRoute | web/src/App.jsx:111-113 | the children are shown exactly when `isLoggedIn`; otherwise a redirect to `/login` |
| Routing.RoutePath | web/src/App.jsx:65-105 | the matched route path is never empty, has no trailing slash except the root, and holds no ASCII capital |
| Routing.RouteElement | web/src/App.jsx:65-105 | a location reaches a route exactly when, with trailing slashes dropped and letters lower-cased, it is one of the six declared paths |
| Routing.TrailingSlashIgnored | web/src/App.jsx:65-105 | a trailing slash on a location does not change its route |
| Routing.AsciiCaseIgnored | web/src/App.jsx:65-105 | the case of a location's ASCII letters does not change its route, so `/Devices` reaches the same `PrivateRoute` as `/devices` |
| Routing.PrivatePagesNeedLogin | web/src/App.jsx:81-104 | the devices, Wi-Fi and account pages, under any spelling that reaches them, are shown exactly when logged in |
| Routing.RedirectsSettle | web/src/App.jsx:67-113 | every redirect leads to a route that shows a page, so no redirect loops |

## Findings

| source | as written | input that shows it | evidently intended | confidence | as-written member | corrected member |
|---|---|---|---|---|---|---|
| server/controllers/routerController.js:44-52 | `validateInput` calls `validationResult(req)` and ignores its `validations` argument. No route runs the chains either, so `changeLoginDetails` never applies its non-empty checks or its confirmation check (lines 449-463). | currentPassword "admin", newPassword "Secret1", confirmPassword "Secret2", with the router showing a success message: the server answers success and stores "Secret1" | refuse the request with a 400 "Invalid input" error before the router is touched | high; not executed | RouterSession.ChangeResponseAsWritten, RouterSession.MismatchedConfirmationAcceptedAsWritten | RouterSession.ChangeResponse (used by RouterSession.Session.ChangeLoginDetails) |

The same never-run validation affects the other handlers:

- `unblockDevice` never rejects an empty MAC address.
- `login` still turns away a blank username or password, but through its own
  explicit check (line 69). That check gives an unsuccessful JSON answer, not
  a 400 error.

The model of `login` and of `unblockDevice` follows the code as written.

## Left out

- Everything the browser does (launch, page navigation, typing, clicks,
  waits and their timeouts, dialog handling, page closing) is foreign I/O.
  The model takes its results as inputs instead: the landed URL, the table
  rows, the account-page messages and the Wi-Fi field value. A navigation
  error or timeout passed on with `next(error)` is not modelled.
- The HTTP status the client finally receives is not modelled. The global
  error responder (server/server.js:94-101) reads `err.status`, but the
  controller sets `err.statusCode`, so every thrown error reaches the client
  as HTTP 500. The model reports the `statusCode` the controller sets.
- `blockDevice` is a stub that always reports success. `restartDevice` only
  clicks and waits. Neither is modelled.
- Of `changeWifiPassword`, only the check of the current password is
  modelled. Writing the new value into the field and calling the router's
  `SubmitForm` are not.
- The Express, session-store, CORS, rate-limit and logging setup is not
  modelled, and neither are the route wiring and middleware or the React
  views and HTTP calls. `isAuthenticated` appears only as the precondition
  `isLoggedIn` of `RouterSession.Session.ChangeLoginDetails`.
- RouterSession.ChangeResponseAsWritten: the router's account page is taken
  as an input independent of the fields typed into it. In the program the
  router receives the confirmation in `#cfmPassword` and may itself refuse a
  mismatch with an error message, so the as-written outcome can depend on
  the confirmation through the router. The model does not capture the
  router's own checks.
- Request bodies are modelled as strings. A missing field or a non-string
  value, and `String(...)` coercion, are not.
- JsStrings.ToLower: models `toLowerCase` for the ASCII letters only, so
  `DeviceScraper.RowToDevice` leaves a non-ASCII capital in a status as it
  is, where JavaScript would lower-case it ("É" becomes "é").
- Routing.RouteElement: the location is taken as React Router sees it once
  percent-escapes are decoded. Decoding, the router's `basename` and the
  ranking of routes (no two routes here match the same location) are not
  modelled.
- Strings are sequences of Unicode code points. JavaScript counts `length`
  and reverses by UTF-16 code unit, so for characters outside the Basic
  Multilingual Plane:
  - `PasswordPolicy.ValidatePassword` counts them once, not twice;
  - `JsStrings.Reverse` keeps their surrogate pairs in order.
- `MacFilter.UnblockDevice` assumes every matching row has its checkbox. A
  row without one would make the click throw, and that is not modelled.
- DOM selector details are abstracted away. The model takes the `div`
  chosen by its `id` prefix in each device cell, and `td:nth-child(2)` /
  `td:nth-child(3)` as the second and third `td` of a filter row.
- The route-level `isAuthenticated` check and the unsuccessful destroy of a
  session in `logout` (a 500 error) are not modelled.
