# PropChain back end: verified models

A Dafny project that models the self-contained algorithms and the stateful protocols of the PropChain back end, and
proves what they are for. Each module follows one source component. An operation that changes state is a method of a
class over the same fields, tables or key store as the source; its postcondition equates the new state with a
specification function of the old one. The lemmas then prove properties of those functions: what every step keeps,
what holds in every run, what one operation undoes, and where a promise of the code fails and exactly when it holds.

| File | Component |
|---|---|
| `SqlScanner.dfy`, `SqlScannerLaws.dfy`, `SqlStandard.dfy` | the SQL lexer of the migration check, against a one-character-at-a-time automaton, and that automaton against one for standard strings |
| `SqlCheck.dfy`, `SqlSearch.dfy`, `SqlStatements.dfy` | the check of the masked text: one piece of the cut at semicolons, its keyword search by counting quotes and parentheses, and the whole migration |
| `Mortgage.dfy` | the amortization schedule, in exact reals |
| `BitOps.dfy`, `Base32.dfy`, `Totp.dfy` | 32-bit JavaScript arithmetic, base32 (section 6 of RFC 4648), one-time passwords (section 5.3 of RFC 4226, sections 4.2 and 5.2 of RFC 6238) |
| `Fraud.dfy`, `FraudLaws.dfy`, `Auth.dfy`, `AuthAnswers.dfy`, `AuthLaws.dfy`, `AuthHistory.dfy`, `AuthCleaner.dfy` | fraud alerts, refresh-token rotation, reuse detection, the blacklist and its cleaner |
| `Presence.dfy`, `PresenceHistory.dfy`, `PresenceSweep.dfy`, `Gateway.dfy`, `PresenceGateway.dfy` | the timed presence registry, also against its history and with its sweep taken apart, the maps of the WebSocket gateway, and the gateways of several pods over one registry |
| `TimeWindows.dfy`, `Lockout.dfy`, `FixedWindow.dfy`, `SlidingLog.dfy` | account lockout, the two fixed-window limiters, the pruned sliding logs |
| `Archive.dfy`, `Analytics.dfy` | archive, delete and restore; the analytics write buffer |
| `CacheTags.dfy`, `PasswordHistory.dfy` | the tag index of the cache, the bounded password history |
| `Wrappers.dfy`, `Text.dfy` | optional values, ASCII upper case, the places where a property holds |

How the outside world is modelled: database tables and key stores are sequences and maps; the clock is a parameter or a
component of the state and does not go back within a run; a handler is one step, except in `Analytics` and
`PresenceSweep`, where a flush and a sweep are split at their awaits; fresh identifiers are unused ones; HMAC is an
arbitrary function to 20 bytes; a salted hash is the password with its salt; a row's id is its place in the database's
order of ids; the outcome of a call that may fail (a provider, a store, a database) is a parameter. `dafny verify
dfyconfig.toml` checks the whole project.

## What the proofs found

Where the code does less than its comments or its purpose suggest, the model follows the code, and a lemma says
exactly when the promise holds or gives an input that breaks it.

- A DELETE without a WHERE of its own is reported only when DELETE and FROM are one blank apart: the code compares the
  matched text with `DELETE FROM`, although its pattern allows any white space (`SqlCheck.DeleteReported`,
  `SqlCheck.DeleteMissed`). And a WHERE of a sibling at the same depth, as in a second common table expression, hides an
  unfiltered DELETE or UPDATE (`SqlCheck.SiblingWhereHidesDelete`, `SqlCheck.SiblingWhereHidesUpdate`); whether a WHERE
  is the statement's own is the search run up to the parenthesis that closes around it
  (`SqlStatements.OwnIsSearchOfScope`).
- These are conditions on one piece of the text. The text is cut at every semicolon, and the pieces are its statements
  exactly if no semicolon stands in a quoted identifier (`SqlStatements.SplitGivesStatements`,
  `SqlStatements.CheckReports`). Otherwise an unfiltered UPDATE can go unreported and a filtered DELETE can be reported
  (`SqlStatements.QuotedSemicolonHidesUpdate`, `SqlStatements.QuotedSemicolonReportsDelete`).
- The lexer takes a backslash for an escape in every string literal. PostgreSQL's standard strings know no escapes, unless
  an E stands before the literal. The two readings agree at every place of a text exactly if no literal without escapes
  has a backslash before a quote (`SqlStandard.AgreesWithStandard`); after such a literal the check can be blind to a
  DELETE that the database runs (`SqlStandard.BackslashHidesDelete`).
- A text that ends on a backslash inside a string literal gains one blank when masked (`SqlScannerLaws.MaskLength`,
  `SqlScannerLaws.DanglingEscape`).
- A review note without a status reopens a closed alert, so two active alerts can share a subject
  (`Fraud.NoteReopensDuplicate`).
- After an admin unblocks a user, a token reuse blocks the user again only if no reuse alert is still open
  (`Fraud.ReuseAfterUnblock`, `Fraud.SecondReuseLeavesUnblocked`).
- A detected reuse announces that all sessions are invalidated, but blacklists no descendant token. The block of the user
  stops every later refresh (`AuthLaws.ReuseBlocksOwner`, `AuthLaws.ReuseStopsRefreshes`), and changes nothing for access
  tokens: each accepted one stays accepted until it expires, is logged out, or all sessions of its user are revoked
  while its own is open (`AuthHistory.AccessSurvivesReuse`).
- A token need not be replayed to count as reused. A refresh does not close the session of the token it replaces, so after
  `maxSessions` pairs the next refresh is refused, spends its token, and trying again blocks the user
  (`AuthHistory.RefreshesRunOut`, `AuthHistory.RefreshAtCapSpendsToken`, `AuthHistory.FirstRefreshBlocksUser`). Refreshing
  after all sessions were revoked blocks the user as well (`AuthHistory.RevokedRefreshIsReuse`,
  `AuthHistory.RefreshAfterRevocationBlocksUser`). `AuthHistory.ReuseIsHistory` gives all the cases.
- The blacklist cleaner, keeping entries for R milliseconds (7 days by default), changes no answer in any run if and only
  if no session is allowed or access tokens live at most R + 1 milliseconds longer than refresh tokens
  (`AuthCleaner.CleaningUnobservable`); otherwise it revives a revoked access token
  (`AuthCleaner.LongAccessTokenRevives`).
- Revoking one session answers "Session revoked successfully" and ends none of its tokens. They stay good until they
  expire or are handed in, and revoking all sessions later passes over the revoked one
  (`AuthHistory.RevokingOneSession`).
- A fixed-window limit of n lets through up to 2n - 1 requests in one window length, and no more; for n > 1 only a window
  of one millisecond keeps to n (`FixedWindow.TwiceTheLimitIsTight`, `FixedWindow.LessThanTwiceTheLimit`,
  `FixedWindow.OneMillisecondWindow`).
- The N+1 detector does not report "exactly once per burst": a steady rate is reported again and again
  (`SlidingLog.SteadyRateReportsTwice`, `SlidingLog.ReportedAgain`).
- Entries are conserved along a run exactly if every trim of the Redis list removes what its flush has read
  (`Analytics.RunConserves`); two flushes that drain the list at the same time can store one entry twice and lose another
  (`Analytics.OverlappingDrains`).
- With a cache service no SMS is ever sent: the opt-out check tests a result object that is always there
  (`SlidingLog.SmsService.SendSms`).
- The stale sweep of the presence registry can wipe a user who comes back between its read and its deletion
  (`Presence.SweepRace`, `PresenceSweep.OnlyWhoComesBack`). Sweeps go unnoticed along a run exactly if every deletion
  still finds a hash that looks stale (`PresenceSweep.SweepsUnnoticed`).
- Clearing a cache manager that has a `store` with neither `reset` nor `clear` empties the tag index but not the store
  (`CacheTags.StepKeepsIndexed`, `CacheTags.ClearForgetsTag`). Which managers these are depends on the version installed:
  `package.json:76` asks for cache-manager 7, and where its cache has no property `store`, that input is hypothetical, and
  `clear` fails and changes nothing.
- A key written with a tag and later without it is still deleted by an invalidation of the tag
  (`CacheTags.IndexIsHistory`, `CacheTags.UntaggedEntryDeleted`).

## Model

| member | source | states |
|---|---|---|
| SqlScanner.MaskSqlCommentsAndStrings | scripts/validate-migrations.ts:56-146 | the nested scan loops blank exactly what the character automaton classes as comment, string or dollar body; the comments are, in order, what follows each `--` on its line without the white space at either end; they terminate on every text |
| SqlScanner.CollectedAreUnique | scripts/validate-migrations.ts:70-78 | that determines the list: two lists with one such comment for each line comment of the text are equal |
| SqlScanner.TrimmedIsUnique | scripts/validate-migrations.ts:74-74 | a slice determines its trimmed text, which is empty exactly if the slice is blank |
| SqlScanner.ScanLineComment | scripts/validate-migrations.ts:70-78 | ends at the line break, with every character passed masked and the automaton back at rest |
| SqlScanner.ScanBlockComment | scripts/validate-migrations.ts:80-97 | nested block comments end where the automaton's depth returns to zero, or at the end of the text |
| SqlScanner.ScanString | scripts/validate-migrations.ts:99-117 | doubled quotes and backslash escapes, up to the closing quote; may step one past the end |
| SqlScanner.ScanIdentifier | scripts/validate-migrations.ts:119-131 | a quoted identifier is skipped and nothing in it is masked |
| SqlScanner.ScanDollarQuote | scripts/validate-migrations.ts:133-141 | a dollar quote runs to the next occurrence of its own delimiter, all of it masked |
| SqlScanner.DollarModes | scripts/validate-migrations.ts:133-141 | jumping to the next delimiter with `indexOf` is what the automaton does one character at a time |
| SqlScanner.BlockStep | scripts/validate-migrations.ts:84-95 | the two-character steps of the comment loop agree with the automaton at every depth |
| SqlScanner.MaskRange | scripts/validate-migrations.ts:61-67 | blanks a range in place except line breaks, and appends one blank when it writes past the end |
| SqlScannerLaws.MaskLength | scripts/validate-migrations.ts:61-67 | masking keeps the length, and adds one blank exactly when the text ends on an escape inside a string |
| SqlScannerLaws.DanglingEscape | scripts/validate-migrations.ts:108-114 | a two-character text whose mask has three |
| SqlScannerLaws.MaskKeepsLayout | scripts/validate-migrations.ts:61-67 | line breaks and unmasked characters keep their places; everything masked is a blank |
| SqlScannerLaws.VisibleWord | scripts/validate-migrations.ts:56-146 | any word visible in the mask stands at the same place in the text |
| SqlScannerLaws.MaskIsAligned | scripts/validate-migrations.ts:56-146 | the automaton over the mask stays in step with the automaton over the text |
| SqlScannerLaws.MaskHasNoTokens | scripts/validate-migrations.ts:56-146 | nothing in the mask is masked again or starts a line comment |
| SqlScannerLaws.MaskTwice | scripts/validate-migrations.ts:56-146 | masking is idempotent, and a mask has no line comment |
| SqlScannerLaws.TagIsName | scripts/validate-migrations.ts:133-133 | a dollar-quote delimiter is a name, possibly empty, between dollar signs |
| SqlScannerLaws.SpaceCodes | scripts/validate-migrations.ts:74-74 | white space is what ECMAScript takes for it, by code points |
| SqlScannerLaws.WordCodes | scripts/validate-migrations.ts:174-176 | words are of ASCII letters, digits and underscores, and ASCII letters are compared in upper case |
| SqlStandard.AgreesWithStandard | scripts/validate-migrations.ts:99-117 | the lexer reads every place of a text as PostgreSQL does with standard strings if and only if no literal without escapes has a backslash before a quote |
| SqlStandard.SameMask | scripts/validate-migrations.ts:56-146 | on such texts both readings blank the same characters, up to the blank for a dangling escape |
| SqlStandard.BackslashHidesDelete | scripts/validate-migrations.ts:108-114 | a text in which the database sees an unfiltered DELETE and the check sees blanks |
| SqlCheck.HasTopLevelKeyword | scripts/validate-migrations.ts:148-182 | true exactly if the word stands, outside quotes and on word boundaries, anywhere from the starting point on at the parenthesis depth of that point |
| SqlCheck.SkipQuoted | scripts/validate-migrations.ts:154-167 | stepping over a quoted identifier changes no depth and passes no plain character |
| SqlCheck.MatchesDoNotOverlap | scripts/validate-migrations.ts:198-200 | no DELETE or UPDATE match starts inside another, so resuming after each match misses none |
| SqlSearch.SearchFinds | scripts/validate-migrations.ts:148-182 | the search finds a word if and only if it stands whole from the starting place on, after an even number of quotes, with as many more opening than closing parentheses before it as at that place |
| SqlSearch.PlainIsOutside | scripts/validate-migrations.ts:154-167 | skipping quoted identifiers, doubled quotes included, is counting quotes: a character is outside if and only if it is no quote and an even number stand before it |
| SqlSearch.DmlExactly | scripts/validate-migrations.ts:198-200 | what is judged: DELETE at the start of a word, white space, and FROM as a whole word; or UPDATE as a whole word |
| SqlSearch.WordFound | scripts/validate-migrations.ts:205-211 | SET is found if and only if it stands as a whole word |
| SqlCheck.CheckStatement | scripts/validate-migrations.ts:197-213 | the match loop reports exactly the findings at all positions of the statement, in order |
| SqlCheck.CheckSqlForDestructiveChanges | scripts/validate-migrations.ts:184-216 | the violations of a text are those of its mask: patterns first, then statement by statement |
| SqlCheck.FindingsInOrder | scripts/validate-migrations.ts:197-213 | in a piece, each UPDATE or DELETE that is to be reported is reported once, in the order of the text |
| SqlCheck.PiecesInOrder | scripts/validate-migrations.ts:197-213 | the pieces are reported on one after the other |
| SqlStatements.PatternReported | scripts/validate-migrations.ts:188-195 | a description with a count is reported if and only if a pattern of that description occurs that often in the masked text, and at least once |
| SqlStatements.PatternsComeFirst | scripts/validate-migrations.ts:188-215 | the reports are one for each pattern that occurs, in the order of the patterns, and then only those of UPDATEs and DELETEs |
| SqlStatements.PassesExactly | scripts/validate-migrations.ts:184-216 | a migration passes if and only if no pattern occurs in its masked text and no piece has an UPDATE or DELETE to report |
| SqlCheck.MaskedTextHasSameViolations | scripts/validate-migrations.ts:184-216 | a text and its mask have the same violations |
| SqlStatements.OwnIsSearchOfScope | scripts/validate-migrations.ts:148-182 | a WHERE is the statement's own if and only if the code's search, run on the text up to the character that closes the statement's parentheses, finds it; the text may also be cut in front, at a plain place before the statement |
| SqlCheck.UpdateReported | scripts/validate-migrations.ts:205-211 | for one piece of the cut: the report for an UPDATE is drawn if and only if SET follows some UPDATE of the piece, it has no WHERE of its own, and no sibling at its depth has one |
| SqlCheck.DeleteReported | scripts/validate-migrations.ts:201-204 | for one piece of the cut: the report for a DELETE is drawn if and only if the two words of some DELETE are one space apart, it has no WHERE of its own, and no sibling at its depth has one |
| SqlCheck.SiblingWhereHidesDelete | scripts/validate-migrations.ts:201-204 | a text whose unfiltered DELETE is hidden by a sibling's WHERE |
| SqlCheck.SiblingWhereHidesUpdate | scripts/validate-migrations.ts:205-211 | the same for an UPDATE |
| SqlCheck.DeleteMissed | scripts/validate-migrations.ts:198-204 | a DELETE with two spaces and no WHERE draws no report |
| SqlStatements.SplitGivesStatements | scripts/validate-migrations.ts:197-197 | the cut at every semicolon gives the statements, cut outside quoted identifiers, if and only if no semicolon stands in a quoted identifier |
| SqlStatements.CheckReports | scripts/validate-migrations.ts:184-216 | a migration draws the report for an UPDATE or a DELETE if and only if some piece of its masked text does, and, without a semicolon in a quoted identifier, if and only if some statement does |
| SqlStatements.QuotedSemicolonHidesUpdate | scripts/validate-migrations.ts:197-211 | one statement that would be reported, an UPDATE of a quoted name with a semicolon in it, and is not |
| SqlStatements.QuotedSemicolonReportsDelete | scripts/validate-migrations.ts:197-204 | one statement that would not be reported, a DELETE with a WHERE of its own, and is |
| Mortgage.GenerateAmortizationSchedule | src/mortgage-calculator/mortgage-calculator.service.ts:45-143 | the loop produces, for each whole month, the row of the specified balance, and the summary of the specified sums with the monthly breakdown; in the request's own fields, n rows with n at most 12 times the years, the first interest the cent nearest a twelfth of the annual rate of the loan, the premium only below 20 % down and the cent nearest a twelfth of half a percent, tax and insurance the cents nearest a twelfth of each |
| Mortgage.BalanceClosedForm | src/mortgage-calculator/mortgage-calculator.service.ts:71-117 | the balance after k months is L(1+r)^k - M((1+r)^k - 1)/r, or L - kL/n at rate zero; the clamp at zero never changes it |
| Mortgage.BalanceFallsToZero | src/mortgage-calculator/mortgage-calculator.service.ts:86-117 | a positive loan's balance falls every month, and is zero after the last row exactly when the term is whole |
| Mortgage.PrincipalPaysLoan | src/mortgage-calculator/mortgage-calculator.service.ts:87-99 | after k months principal paid plus balance is the loan, and interest is the payments beyond that |
| Mortgage.WholeTermPaysOff | src/mortgage-calculator/mortgage-calculator.service.ts:86-137 | over a whole term principal sums to L and interest to M n - L |
| Mortgage.PmiMonthsArePrefix | src/mortgage-calculator/mortgage-calculator.service.ts:94-98 | if a month carries the insurance premium, so does every earlier one |
| Mortgage.SummaryCoversRows | src/mortgage-calculator/mortgage-calculator.service.ts:127-141 | the unrounded total exceeds the unrounded rows by the fraction of a month that no row covers |
| Mortgage.SummaryEqualsRows | src/mortgage-calculator/mortgage-calculator.service.ts:127-141 | for a whole term the two are equal |
| Mortgage.ReportedTotalBound | src/mortgage-calculator/mortgage-calculator.service.ts:102-141 | for any term, fractional ones included, the reported total is within 0.005 (n + 1) of the sum of the n reported rows and the fraction of a month that no row covers |
| Mortgage.RoundBound | src/mortgage-calculator/mortgage-calculator.service.ts:255-257 | rounding moves a value by at most half a cent |
| Mortgage.MonthlyTotalIsFirstRow | src/mortgage-calculator/mortgage-calculator.service.ts:102-125 | the advertised monthly breakdown is the first row, part by part, and its total is within 0.025 of the sum of its rounded parts |
| Mortgage.WholeTermsAreValid | src/mortgage-calculator/mortgage-calculator.service.ts:71-80 | terms of a whole number of months meet the condition under which the schedule is proved |
| Mortgage.TermsInRequest | src/mortgage-calculator/mortgage-calculator.service.ts:69-86 | monthly rate, number of payments, growth, loan, tax, insurance and premium in the request's fields |
| Mortgage.MeetsIsValid | src/mortgage-calculator/mortgage-calculator.service.ts:69-80 | the condition of the schedule is one on the request: no negative loan or rate, a positive term and a power in order with the whole powers |
| Mortgage.PaymentInRequest | src/mortgage-calculator/mortgage-calculator.service.ts:75-80 | the level payment pays off the loan at the request's rate over its term |
| Mortgage.PrincipalPaysPrice | src/mortgage-calculator/mortgage-calculator.service.ts:69-137 | over a whole term the exact principal sums to the price less the down payment |
| Mortgage.SummaryInRequest | src/mortgage-calculator/mortgage-calculator.service.ts:119-141 | the summary's tax and insurance are the cents nearest the annual amounts times the years |
| Mortgage.RoundIsNearest | src/mortgage-calculator/mortgage-calculator.service.ts:255-257 | the rounded value is the nearest cent, the higher of two, and no other |
| Mortgage.QuoteAddsUp | src/mortgage-calculator/mortgage-calculator.service.ts:14-43 | rounding as it goes, the quote loses no cent: interest is total less loan, and down payment and loan make the price |
| Mortgage.QuoteInRequest | src/mortgage-calculator/mortgage-calculator.service.ts:14-43 | every amount of the quote is the cent nearest its exact value, the monthly payment that of the one amount which pays off the rounded loan |
| BitOps.OrIsSum | src/auth/security.utils.ts:64-65 | or of a shifted number and a number of that many bits is their sum |
| Base32.DecodeBase32 | src/auth/security.utils.ts:55-77 | the loop over a wrapping 32-bit accumulator returns the bytes of the unbounded bit string, floor(5n/8) of them, for any text |
| Base32.ShiftIn | src/auth/security.utils.ts:64-65 | the accumulator stays congruent to the unbounded number modulo 2^32 |
| Base32.ByteOut | src/auth/security.utils.ts:68-70 | the byte taken from the wrapped accumulator is that of the unbounded number |
| Base32.OutputKept | src/auth/security.utils.ts:60-73 | a further digit leaves the bytes already written as they were |
| Base32.DecodeInvertsEncode | src/auth/security.utils.ts:55-77 | decoding inverts the encoding of section 6 of RFC 4648, with padding, for every byte string |
| Base32.DigitsOfText | src/auth/security.utils.ts:55-65 | the digits decoded are those of the text in order, letters in either case; every other character, padding included, is passed over |
| Totp.BinaryCodeIsSum | src/auth/security.utils.ts:115-120 | truncation indices are in bounds, and the or of shifted bytes is their weighted sum below 2^31 (section 5.3 of RFC 4226) |
| Totp.CounterShift | src/auth/security.utils.ts:111-113 | a time k periods later has the counter k steps on, for negative k too |
| Totp.CounterBytesInjective | src/auth/security.utils.ts:112-113 | different counters are hashed as different eight-byte blocks |
| Totp.GenerateTotpCode | src/auth/security.utils.ts:103-122 | the code of the counter, or a range error exactly when the counter is no unsigned 64-bit number |
| Totp.CodeReadsBack | src/auth/security.utils.ts:121-121 | a code has exactly the digits asked for unless that is zero, and parses to the truncated value modulo 10^digits |
| Totp.TenPower | src/auth/security.utils.ts:121-121 | that modulus is one followed by as many zeros as digits are asked for |
| Totp.VerifyTotpCode | src/auth/security.utils.ts:124-148 | accepts exactly the codes of the counters within the window; a range error only where a counter leaves the range before a match |
| Totp.WindowInRange | src/auth/security.utils.ts:124-148 | the window stays in range exactly from `window` periods after the epoch on |
| Totp.MatchesNearby | src/auth/security.utils.ts:124-148 | in times: a code is found if and only if it is that of a time a whole number of periods off, at most `window` of them on either side |
| Totp.RangeInTime | src/auth/security.utils.ts:111-113 | a time has a code if and only if it lies in the 2^64 periods from the epoch on |
| Fraud.Service.FindOpenAlert | src/fraud/fraud.service.ts:868-882 | the latest active alert that fits every given part of the subject, or none exactly when none fits |
| Fraud.Service.CreateOrUpdateAlert | src/fraud/fraud.service.ts:676-776 | one occurrence more on the matching alert with the higher rank and score, or a new alert; notifications and blocking as specified |
| Fraud.Service.HandleTokenReuse | src/fraud/fraud.service.ts:207-237 | a token reuse is detected as critical and blocking |
| Fraud.Service.BlockUserForFraud | src/fraud/fraud.service.ts:982-1000 | blocks the user and marks the alert |
| Fraud.Service.ReviewAlert | src/fraud/fraud.service.ts:530-562 | the reviewed alert, its resolution time and the optional block, or not found |
| Fraud.RunKeepsConsistent | src/fraud/fraud.service.ts:530-551 | in every run `resolvedAt` is set exactly on closed alerts; rank, score and occurrences never fall; `autoBlocked` never clears |
| Fraud.DeliveryBound | src/fraud/fraud.service.ts:681-764 | one alert is notified at most 4 times plus once per multiple of five of its occurrences |
| Fraud.OccurrencesAreDetections | src/fraud/fraud.service.ts:692-694 | in every run an alert's occurrences are exactly the detections that touched it |
| Fraud.StepKeepsUnique | src/fraud/fraud.service.ts:676-680 | a step keeps active alerts unique per pattern and subject if and only if it does not reopen a duplicate |
| Fraud.RunKeepsUnique | src/fraud/fraud.service.ts:676-776 | runs without such a review keep at most one active alert per exact tuple |
| Fraud.NoteReopensDuplicate | src/fraud/fraud.service.ts:530-551 | a note on a dismissed alert makes two active alerts of one tuple |
| Fraud.StepKeepsReuseBlocks | src/fraud/fraud.service.ts:706-776 | every auto-blocked reuse alert has a blocked user, on the create and on the update path |
| Fraud.ReuseBlocksUser | src/fraud/fraud.service.ts:207-237 | under that invariant a reuse always leaves its user blocked |
| Fraud.ReuseAfterUnblock | src/fraud/fraud.service.ts:703-715 | without it, a reuse blocks an unblocked user if and only if no alert for it is open |
| Fraud.SecondReuseLeavesUnblocked | src/fraud/fraud.service.ts:703-715 | a reuse, an admin's unblocking and the same reuse again leave the user unblocked |
| Fraud.StepKeepsBlocked | src/users/users.service.ts:450-476 | only an admin's unblocking unblocks a user |
| FraudLaws.ReviewBlocksExactly | src/fraud/fraud.service.ts:530-562 | after a review a user is blocked if and only if it was before, or the request asks for it and the alert names the user; the same for the mark on the alert, and nothing else changes |
| FraudLaws.ReviewSetsStatus | src/fraud/fraud.service.ts:530-562 | an explicit status is taken, else a note or an assignee gives Investigating, else it stays; a time of resolution exactly for closed alerts |
| FraudLaws.StepBlocksExactly | src/fraud/fraud.service.ts:530-776 | a step leaves a user blocked if and only if an admin, a blocking review or manual block of its alert or a blocking detection blocks it, or it was blocked and no admin unblocks it |
| FraudLaws.RunBlocksExactly | src/fraud/fraud.service.ts:530-776 | in every run a user is blocked if and only if a step blocked it, or it was at the start, and no admin has unblocked it since |
| FraudLaws.StepMarksExactly | src/fraud/fraud.service.ts:676-776 | what sets the mark of an alert; nothing clears it |
| FraudLaws.DetectionTouches | src/fraud/fraud.service.ts:868-882 | a detection opens an alert if and only if no open one of its pattern agrees with every field it names; otherwise it updates one detected last |
| FraudLaws.DetectionRecords | src/fraud/fraud.service.ts:676-776 | what a detection writes, and that no other alert changes |
| FraudLaws.ReuseRecords | src/fraud/fraud.service.ts:207-237 | a reuse leaves a critical alert of at least 100 points that names user and session |
| FraudLaws.HighestIsKept | src/fraud/fraud.service.ts:681-696 | in every run an alert carries the highest severity and score detected for it, from low over medium and high to critical |
| FraudLaws.DeliveriesAreExact | src/fraud/fraud.service.ts:699-764 | in every run an alert is notified exactly when it is opened, when its severity rises and at every fifth detection |
| Auth.Service.RefreshToken | src/auth/auth.service.ts:511-583 | checks in the source's order, then blacklists the presented token and issues a pair in its family |
| Auth.Service.Logout | src/auth/auth.service.ts:625-675 | what is blacklisted and what is answered for every combination of tokens |
| Auth.Service.IssueTokenPair | src/auth/auth.service.ts:1546-1600 | two tokens and one session, or nothing at the session cap |
| Auth.Service.BlacklistToken | src/auth/auth.service.ts:1629-1661 | the upsert keeps the mark of an earlier reuse |
| Auth.Service.RevokeAllSessions | src/sessions/sessions.service.ts:191-250 | both tokens of every open session are blacklisted, skipping those listed already, and the sessions revoked |
| Auth.Service.CleanBlacklistedTokens | src/database/cleanup.service.ts:107-141 | the batch loop terminates, deletes exactly the entries before the cutoff and counts them |
| AuthLaws.StepKeepsLinked | src/auth/auth.service.ts:1546-1661 | sessions and blacklist entries outlive the tokens they are about |
| AuthLaws.StepKeepsSpent | src/auth/auth.service.ts:511-583 | a spent refresh token stays spent, through cleaning too |
| AuthLaws.RotationSpends | src/auth/auth.service.ts:557-576 | a successful refresh takes a usable token and spends it |
| AuthLaws.RotatedAtMostOnce | src/auth/auth.service.ts:511-583 | in every run each refresh token is rotated at most once |
| AuthLaws.RunKeepsOnePerFamily | src/auth/auth.service.ts:557-576 | in every reachable state a family has at most one usable refresh token |
| AuthLaws.RunKeepsSessionCap | src/sessions/sessions.service.ts:30-70 | in every run each user has at most `maxSessions` active sessions |
| AuthLaws.ReuseBlocksOwner | src/auth/auth.service.ts:523-551 | a reuse blocks the owner and blacklists no descendant token |
| AuthLaws.BlockedUserNeverRefreshes | src/auth/auth.service.ts:546-551 | no run without an unblocking refreshes a token of a blocked user |
| AuthLaws.ReuseStopsRefreshes | src/auth/auth.service.ts:523-551 | from empty tables, after a reuse no later refresh of that user succeeds in any run without an admin's unblocking |
| AuthHistory.BlacklistIsHistory | src/auth/auth.service.ts:511-675 | in every run an unexpired token is blacklisted if and only if it was refreshed in good standing, logged out (a refresh token by its owner) or its session was open when all were revoked |
| AuthHistory.ReuseIsHistory | src/auth/auth.service.ts:518-551 | from empty tables, a refresh is answered as a reuse if and only if the token verifies and the run has retired it so |
| AuthHistory.AccessIsHistory | src/auth/auth.service.ts:1451-1470 | in every run an access token is accepted if and only if it verifies and the run has not retired it, and answered as revoked if and only if it has; blocked user or not |
| AuthHistory.AccessSurvivesReuse | src/auth/auth.service.ts:1451-1470 | a detected reuse changes the answer to no access token, and an accepted one stays accepted along any later run exactly until it expires or is retired |
| AuthHistory.RefreshSucceedsExactly | src/auth/auth.service.ts:511-583 | a refresh hands out a pair if and only if the token is usable, the account in good standing and below the session cap |
| AuthHistory.RefreshAtCapSpendsToken | src/auth/auth.service.ts:557-576 | a refused refresh of a usable token spends it if and only if the refusal is the session cap, and then, and only then, a retry is a reuse |
| AuthHistory.SessionsAddUp | src/sessions/sessions.service.ts:38-68 | along runs that end no session of the user, each pair handed out is one active session more |
| AuthHistory.RefreshesRunOut | src/sessions/sessions.service.ts:38-50 | along such runs from empty tables a refresh succeeds if and only if fewer than `maxSessions` pairs were handed out to the user |
| AuthHistory.FirstRefreshBlocksUser | src/auth/auth.service.ts:511-583 | with one session allowed, log-in, refresh and retry end with the user blocked |
| AuthHistory.RevokedRefreshIsReuse | src/sessions/sessions.service.ts:191-250 | after revoking all sessions a refresh is a reuse if and only if it was one already or its session was open |
| AuthHistory.RefreshAfterRevocationBlocksUser | src/sessions/sessions.service.ts:191-250 | log-in, revocation of all sessions and a refresh end with the user blocked |
| AuthHistory.PairLives | src/auth/auth.service.ts:1546-1600 | along any later run the two tokens of a new pair are good exactly until their expiry or until the run retires them |
| AuthHistory.LogoutIsFinal | src/auth/auth.service.ts:625-675 | after a log-out with both tokens no later run accepts either again |
| AuthHistory.ReuseMarkStays | src/auth/auth.service.ts:1629-1661 | the mark of a reuse stays along every run, through upserts and cleaning, as long as the token has not expired |
| AuthHistory.RevokingOneSession | src/sessions/sessions.service.ts:153-185 | revoking one session changes the answer to no token; its own stay good along any later run that does not hand them in exactly until they expire, even if all sessions are revoked |
| AuthAnswers.RefreshAnswers | src/auth/auth.service.ts:511-583 | when each of the six answers to a refresh is given, for every state; a blocked owner is told so, deactivated or not |
| AuthAnswers.RefusalIsHistory | src/auth/auth.service.ts:546-552 | from empty tables, a refresh is refused as blocked or deactivated if and only if the token verifies, is not retired, and the last block, unblocking and deactivation of its owner in the run leave it so |
| AuthAnswers.StandingIsHistory | src/auth/auth.service.ts:546-552 | in every run an account is blocked and deactivated as the last of its events made it |
| AuthAnswers.RefreshHandsOver | src/auth/auth.service.ts:557-576 | the new pair is of the same user and family with a session as long as the refresh token; the old token is listed; nothing else changes |
| AuthAnswers.ReuseRecords | src/auth/auth.service.ts:518-545 | a reuse marks the entry with the time and reports user and session; nothing else changes |
| AuthAnswers.LogoutAnswers | src/auth/auth.service.ts:625-675 | when each of the three answers to a log-out is given |
| AuthAnswers.LogoutLists | src/auth/auth.service.ts:625-675 | what a log-out lists, under whom and until when |
| AuthAnswers.RevocationRecords | src/sessions/sessions.service.ts:191-250 | which sessions a revocation revokes and which entries it adds, with what they say |
| AuthAnswers.TimeEndsSessions | src/sessions/sessions.service.ts:30-50 | a session counts for its user exactly while it is not revoked and has not ended |
| AuthAnswers.SignatureSays | src/auth/auth.service.ts:1609-1617 | what checking a token's signature is taken to answer: the claims it was handed out with, if it was handed out with that kind and has not expired |
| AuthCleaner.CleaningUnobservable | src/database/cleanup.service.ts:107-141 | with entries kept for at least R ms, every run gets the same answers to every refresh, access check and logout without the cleaner, if and only if no session is allowed or access tokens outlive refresh tokens by at most R + 1 ms |
| AuthCleaner.LongAccessTokenRevives | src/database/cleanup.service.ts:107-141 | whenever they live longer than that, the cleaner turns a revoked access token into an accepted one |
| Presence.RedisPresenceService.CleanupStaleEntries | src/notifications/redis-presence.service.ts:118-139 | the sweep loop deletes exactly the live user hashes that have no socket |
| Presence.SweepUnobservable | src/notifications/redis-presence.service.ts:118-139 | taken as one step, the sweep finds nothing to delete in any run |
| Presence.LateDeleteObservable | src/notifications/redis-presence.service.ts:124-131 | a deletion that follows its read later changes who is connected if and only if the user's hash no longer looks stale |
| PresenceSweep.SweepsUnnoticed | src/notifications/redis-presence.service.ts:118-139 | with sweeps taken apart and anything in between their calls, who is connected is at every time of a run as without the deletions, if and only if each deletion finds a hash that looks stale |
| PresenceSweep.OnlyWhoComesBack | src/notifications/redis-presence.service.ts:124-131 | a hash that looked stale to the read and no longer does at the deletion was registered anew in between |
| PresenceSweep.UndisturbedSweeps | src/notifications/redis-presence.service.ts:118-139 | so sweeps go unnoticed if no user whose hash they delete registers between the read and the deletion |
| Presence.SweepRace | src/notifications/redis-presence.service.ts:124-131 | a run in which the late deletion disconnects a user who came back |
| Presence.ConnectedMeansRefreshed | src/notifications/redis-presence.service.ts:88-92 | a user reported connected was refreshed by some socket in the last 30 s, whatever pods crashed |
| Presence.BeatingMeansConnected | src/notifications/redis-presence.service.ts:58-92 | a socket refreshed less than 30 s apart keeps its user connected from registration to removal |
| PresenceHistory.ConnectedIsHistory | src/notifications/redis-presence.service.ts:58-106 | in every run a user is connected if and only if some socket of it was registered and not taken off since, with the user's calls less than 30 s apart up to now |
| PresenceHistory.HashIsHistory | src/notifications/redis-presence.service.ts:58-92 | the same socket by socket: what a live hash lists is what the history says |
| PresenceHistory.ReverseIsHistory | src/notifications/redis-presence.service.ts:58-92 | a live reverse key names a user if and only if the socket was last registered for it, not taken off since, and refreshed in time |
| PresenceHistory.SweepDeletesExactly | src/notifications/redis-presence.service.ts:118-139 | from any store, the sweep deletes the live hashes that list nothing and no other |
| PresenceGateway.RunKeepsReverse | src/notifications/notifications.gateway.ts:140-203 | in every run of pods that start, crash, connect, disconnect and beat, with failing presence calls, a live reverse key s = u implies that s is in the live hash of u, and store and pods agree on each socket's user |
| PresenceGateway.StepKeepsAgree | src/notifications/notifications.gateway.ts:140-285 | one event of one pod keeps that agreement, and heartbeats name the registered user |
| PresenceGateway.BeatingMeansConnected | src/notifications/notifications.gateway.ts:140-203 | in every run of several pods a registered socket keeps its user connected at every instant, as long as none takes it off the store and the calls for it that reach the store are less than 30 s apart, whatever other calls fail and whatever pods crash |
| PresenceGateway.DisconnectTakesOff | src/notifications/notifications.gateway.ts:262-285 | in every run of several pods, a disconnection that reaches the store takes its socket off the live list of its user, and no other |
| PresenceGateway.NewPodServes | src/notifications/notifications.gateway.ts:168-203 | after any run, a pod that is down can start, accept a socket that is held for no other user, and its user is connected |
| Gateway.NotificationsGateway.HandleConnection | src/notifications/notifications.gateway.ts:168-203 | the new socket is in all three maps, the others unchanged |
| Gateway.NotificationsGateway.HandleDisconnect | src/notifications/notifications.gateway.ts:262-285 | the socket leaves all three maps, and its user with the last socket |
| Gateway.NotificationsGateway.HandleSessionRevoked | src/notifications/notifications.gateway.ts:292-316 | exactly the bindings to the revoked sessions are dropped |
| Gateway.NotificationsGateway.HeartbeatRound | src/notifications/notifications.gateway.ts:140-164 | every tracked socket is refreshed exactly once, and exactly the sockets with an invalid session are dropped |
| Gateway.StepKeepsInverse | src/notifications/notifications.gateway.ts:168-203 | a step keeps the two socket maps inverse without empty sets if and only if it does not connect an identifier another user holds |
| Gateway.RevokedSessionsAreUnbound | src/notifications/notifications.gateway.ts:292-331 | after a revocation no tracked socket is bound to a revoked session |
| Gateway.RunKeepsMaps | src/notifications/notifications.gateway.ts:168-331 | in every run the maps are inverse and every bound socket is tracked |
| Gateway.MapsAreHistory | src/notifications/notifications.gateway.ts:168-331 | along every run a socket is tracked for a user if and only if it connected for it and has not left since, and bound to a session if and only if it came with it and has neither left nor come with another, nor has the session been revoked, since |
| TimeWindows.SpacedBoundsWindow | src/auth/login-rate-limit.service.ts:80-98 | events each at least a length after the one n before it put at most n into any half-open interval of the length |
| Lockout.LoginRateLimitService.RecordFailedAttempt | src/auth/login-rate-limit.service.ts:73-119 | the counting loop and the row it adds, locking when the window reaches the limit |
| Lockout.LoginRateLimitService.UnlockAccount | src/auth/login-rate-limit.service.ts:164-183 | exactly the email's live locks are cleared |
| Lockout.LoginRateLimitService.AttemptLogin | src/auth/auth.service.ts:285-449 | lockout, CAPTCHA threshold, account state, password and second factor in this order, with what each outcome records |
| Lockout.TokenlessNeverLocks | src/auth/auth.service.ts:301-316 | with the CAPTCHA threshold below the attempt limit, attempts without a token never lock the account |
| Lockout.FailureKeepsInv | src/auth/login-rate-limit.service.ts:73-119 | a failure of an account that is not locked keeps failures spaced and arms the lock |
| Lockout.AtMostMaxFailures | src/auth/login-rate-limit.service.ts:52-119 | in every run of gated logins without a manual unlock, any half-open interval of the lockout duration holds at most `maxAttempts` failures |
| Lockout.LockHasCause | src/auth/login-rate-limit.service.ts:52-119 | in any run an account is locked only less than the duration after a time up to which `maxAttempts` failures lay within the duration |
| Lockout.LockIsHistory | src/auth/login-rate-limit.service.ts:52-183 | in every run an account is locked if and only if a failure less than the duration ago completed `maxAttempts` of them within the duration, and the account has not been unlocked since |
| Lockout.LoginAnswers | src/auth/auth.service.ts:285-449 | when each of the ten answers to a login is given; the account's state is told before the password is looked at |
| Lockout.LoginRecords | src/auth/auth.service.ts:285-449 | what each answer records |
| Lockout.UnlockClears | src/auth/login-rate-limit.service.ts:164-183 | unlocking clears the live locks of the account and leaves every row otherwise as it was |
| Lockout.UnlockKeepsCount | src/auth/login-rate-limit.service.ts:164-183 | unlocking clears the lock only: the next failure locks again if and only if `maxAttempts - 1` failures are in the window |
| FixedWindow.RateLimitService.CheckRateLimit | src/auth/rate-limit.service.ts:101-139 | the stored record and the status, the same whether or not the expired record had been evicted |
| FixedWindow.RateLimitService.AllowWithoutCache | src/auth/rate-limit.service.ts:140-151 | a failing cache lets the request through |
| FixedWindow.InvestmentRateLimitGuard.CanActivate | src/investments/investment-rate-limit.guard.ts:16-35 | the decision and the record of the guard |
| FixedWindow.WindowCount | src/auth/rate-limit.service.ts:109-121 | a stored window lets through its first `limit` requests and no more |
| FixedWindow.LessThanTwiceTheLimit | src/auth/rate-limit.service.ts:109-121 | any half-open interval of one window length lets through fewer than twice the limit |
| FixedWindow.NothingPassesAtZero | src/auth/rate-limit.service.ts:121-121 | a limit of zero lets nothing through |
| FixedWindow.TwiceTheLimitIsTight | src/auth/rate-limit.service.ts:109-121 | for every positive limit and every window above one millisecond a run lets through one less than twice the limit |
| FixedWindow.OneMillisecondWindow | src/auth/rate-limit.service.ts:109-121 | a window of one millisecond lets through at most the limit |
| FixedWindow.RetryAfterIsExact | src/auth/rate-limit.service.ts:121-133 | waiting w whole seconds without other traffic is enough if and only if w is at least `retryAfter` and the limit is positive |
| FixedWindow.RemainingIsExact | src/auth/rate-limit.service.ts:132-139 | `remaining` is exactly the number of further requests the window lets through, `reset` its end in whole seconds, and `retryAfter` given to requests turned away only |
| FixedWindow.KeysAreIndependent | src/auth/rate-limit.service.ts:101-121 | however keys are mixed, a key's record depends on its own requests only |
| FixedWindow.GuardAgrees | src/investments/investment-rate-limit.guard.ts:16-35 | the guard decides as the service does if and only if the limit is at least 1 or the request opens no window |
| FixedWindow.GuardBound | src/investments/investment-rate-limit.guard.ts:8-35 | the guard lets through at most 59 requests of an address in any minute |
| SlidingLog.N1Detector.Record | src/database/n1-detector.ts:132-149 | prunes, appends, sweeps when too many keys are tracked, and reports at the threshold |
| SlidingLog.N1Detector.Sweep | src/database/n1-detector.ts:156-160 | drops exactly the keys whose every time has left the window |
| SlidingLog.RecordKeeps | src/database/n1-detector.ts:132-160 | which keys are tracked after a record, and with what times; the sweep runs exactly above `maxKeys` keys |
| SlidingLog.TracksFewOrRecent | src/database/n1-detector.ts:132-160 | after any history at most `maxKeys` keys are tracked, or only keys recorded within the window before the last record |
| SlidingLog.PrunedLogAgrees | src/database/n1-detector.ts:132-160 | whatever was pruned and swept, the recent part of a log is that of the full history |
| SlidingLog.ReportsAtThreshold | src/database/n1-detector.ts:132-149 | a record is reported if and only if the key's records in (now - window, now] number the threshold |
| SlidingLog.ReportedAgain | src/database/n1-detector.ts:115-149 | two records in a row are both reported if and only if exactly one counted time leaves the window between them |
| SlidingLog.SteadyRateReportsTwice | src/database/n1-detector.ts:115-149 | a steady rate is reported on consecutive records |
| SlidingLog.SmsService.SendSms | src/notifications/sms.service.ts:259-318 | the checks in order, and a send recorded only after the provider accepted it; with a cache service every valid phone counts as opted out |
| SlidingLog.SendKeepsInv | src/notifications/sms.service.ts:343-362 | a send keeps the pruned log in agreement with all recorded sends, and those spaced |
| SlidingLog.AtMostTenPerMinute | src/notifications/sms.service.ts:343-362 | at most 10 sends to a phone are recorded in any half-open minute, however late the provider answers |
| Archive.ArchiveService.ArchiveAndDelete | src/archive/archive.service.ts:320-368 | the batch loop writes exactly the rows older than the cutoff in id order, each once, leaves exactly the others, counts them, and terminates for any table |
| Archive.ArchiveService.RestoreFromArchive | src/archive/archive.service.ts:105-164 | each line is upserted into its table or reported as an error, in order, and the rest counted |
| Archive.BatchDeleted | src/archive/archive.service.ts:343-350 | deleting a batch by ids leaves the other old rows and every young one |
| Archive.AfterExactly | src/archive/archive.service.ts:199-201 | a batch is sought among exactly the rows whose id is greater than the cursor |
| Archive.RoundTrip | src/archive/archive.service.ts:126-160 | restoring an archive gives back the original tables if and only if the entity can be restored or nothing was archived |
| Archive.LinesComeBack | src/archive/archive.service.ts:126-160 | a line of one of the two entities leaves its row in their table, and a line of any other changes nothing |
| Archive.RestoringTwice | src/archive/archive.service.ts:126-160 | restoring any file twice equals restoring it once |
| Analytics.AnalyticsService.Record | src/analytics/analytics.service.ts:184-209 | where an entry goes, and the eager flush at 500 entries |
| Analytics.AnalyticsService.TrimList | src/analytics/analytics.service.ts:221-236 | the second half of a drain: what was read is taken off the list and joins the flush |
| Analytics.AnalyticsService.Insert | src/analytics/analytics.service.ts:240-250 | a failed insert puts the entries back in front of the buffer |
| Analytics.TrimBalance | src/analytics/analytics.service.ts:221-236 | a successful trim adds what its flush has read and takes away what it removes from the list |
| Analytics.StepConserves | src/analytics/analytics.service.ts:184-251 | a step conserves the entries if and only if it is no trim that removes other entries than its flush has read |
| Analytics.RunConserves | src/analytics/analytics.service.ts:184-251 | a run conserves the entries all along if and only if every trim in it removes what its flush has read |
| Analytics.ApartConserves | src/analytics/analytics.service.ts:219-236 | so it does if no flush reads the list while another is still to trim it |
| Analytics.MemoryConserves | src/analytics/analytics.service.ts:184-251 | without Redis the same holds for every interleaving, overlapping flushes and failures included |
| Analytics.MemoryBufferBound | src/analytics/analytics.service.ts:199-208 | without Redis and failed inserts the buffer stays below 500 entries and no flush takes more |
| Analytics.MemoryKeepsOrder | src/analytics/analytics.service.ts:215-250 | with one flush at a time, database, flush and buffer in line are the entries in recording order |
| Analytics.FlushesEnd | src/analytics/analytics.service.ts:211-251 | in every run each flush ends after at most three answers, failed ones included |
| Analytics.DatabaseIsHistory | src/analytics/analytics.service.ts:240-250 | in every run the database is what the successful inserts stored, in their order |
| Analytics.ListIsHistory | src/analytics/analytics.service.ts:184-236 | in every run the Redis list is the entries it accepted, in order, less those trimmed off its front |
| Analytics.FlushBegins | src/analytics/analytics.service.ts:184-219 | a flush begins exactly when asked for, without Redis only if the buffer holds something, or with the entry that fills it to 500; it takes the whole buffer |
| Analytics.OverlappingDrains | src/analytics/analytics.service.ts:219-236 | two overlapping drains of different entries store the first twice and lose the second |
| CacheTags.CacheService.Set | src/cache/cache.service.ts:67-85 | an accepted entry is stored and listed under its tag |
| CacheTags.CacheService.DelMultiple | src/cache/cache.service.ts:118-128 | every key is tried, and the call fails if one of them does |
| CacheTags.CacheService.InvalidateByTag | src/cache/cache.service.ts:235-252 | deletes the listed keys, and forgets the tag only if all went |
| CacheTags.CacheService.GetOrSet | src/cache/cache.service.ts:179-216 | a truthy hit changes nothing; otherwise the made value is stored, and what was hit or stored is read back next |
| CacheTags.StepKeepsIndexed | src/cache/cache.service.ts:133-150 | every entry stays listed under the tag it was last written with, if and only if the step is no clear that leaves tagged entries in the store |
| CacheTags.RunKeepsIndexed | src/cache/cache.service.ts:67-262 | the same along every run without such a clear |
| CacheTags.ClearForgetsTag | src/cache/cache.service.ts:133-150 | a set, a clear and an invalidation, all successful, that leave the tagged entry in the store |
| CacheTags.InvalidationIsComplete | src/cache/cache.service.ts:235-252 | a successful invalidation leaves no entry last written with the tag; a failed one keeps the index, and a retry leaves none |
| CacheTags.IndexIsHistory | src/cache/cache.service.ts:235-262 | a key is listed under a tag if and only if it was written with it since the last successful clear or invalidation |
| CacheTags.StoreIsHistory | src/cache/cache.service.ts:67-252 | the store holds for a key what was last written, unless deleted, invalidated, cleared or left by itself since |
| CacheTags.ReadIsHistory | src/cache/cache.service.ts:36-62 | a read returns that value if it is truthy, a miss otherwise, and an error exactly if the store cannot be read |
| CacheTags.InvalidationIsExact | src/cache/cache.service.ts:235-252 | an invalidation without failures deletes exactly those keys |
| CacheTags.UntaggedEntryDeleted | src/cache/cache.service.ts:235-262 | an entry last written without a tag is deleted with its former tag |
| PasswordHistory.AuthService.ChangePassword | src/auth/auth.service.ts:969-1012 | the checks in order, and the new state |
| PasswordHistory.AuthService.ResetPassword | src/auth/auth.service.ts:1746-1808 | the token checks, policy and reuse in order, and the new state with the token used |
| PasswordHistory.AuthService.RecordPasswordHistory | src/auth/auth.service.ts:949-967 | one row more, and the user's rows beyond the limit gone |
| PasswordHistory.NewestKept | src/auth/auth.service.ts:957-966 | trimming leaves the user's newest rows and every row of another user |
| PasswordHistory.HistoryIsLastPasswords | src/auth/auth.service.ts:949-1012 | in every run the history is the last min(limit, n) passwords, any limit + 1 passwords in a row differ, and the current one is the last |
| PasswordHistory.TokenResetsOnce | src/auth/auth.service.ts:1746-1797 | in every run a reset token sets a password at most once |
| PasswordHistory.TurnedDownExactly | src/auth/auth.service.ts:933-946 | a password is turned down if and only if it is one of the last `limit` |
| PasswordHistory.ChangeAnswers | src/auth/auth.service.ts:969-1012 | in every run, when each of the five answers to a change is given, from the sign-ups and passwords of the user |
| PasswordHistory.ResetAnswers | src/auth/auth.service.ts:1746-1808 | in every run, when each of the seven answers to a reset is given, from what the token was issued as, the resets with it and the passwords of its user |
| PasswordHistory.TokensAreHistory | src/auth/auth.service.ts:1746-1797 | in every run a reset token is what it was issued as, and used if and only if a reset with it succeeded |

## Left out

- SqlCheck.CheckSqlForDestructiveChanges: does not model the regular expressions of the destructive patterns, which are parameters that map a text to a number of matches.
- SqlCheck.HasTopLevelKeyword: case folding and word characters are ASCII, as JavaScript's `\b` and `\w` are; the approval comment's regular expression and the duplicate-table check are not modelled.
- SqlStandard.AgreesWithStandard: the standard automaton differs from the lexer's in backslashes only; a literal with a prefix other than E is a plain one, and a dollar sign inside a name is read as the lexer reads it.
- Mortgage.GenerateAmortizationSchedule: does not model floating-point error; the power is a parameter in order with the whole powers, so that fractional terms are covered. Scenario comparison and CSV or text export would only add easy members.
- Totp.VerifyTotpCode: does not model the SHA-1 computation, which is an arbitrary function to 20 bytes, nor timing-safe comparison.
- Base32.DecodeBase32: upper-casing is ASCII; a non-ASCII letter whose upper case is ASCII is not modelled.
- Fraud.Service.CreateOrUpdateAlert: does not model titles, metadata, the investigation activities or the other detectors, which only compute a payload.
- Auth.Service.RefreshToken: does not model JWT signing, password hashing, request metadata, the log-out of all devices but the current one, or the deletion of users and session rows.
- Auth.Service.CleanBlacklistedTokens: the other cleaners have the same loop and would repeat it.
- Handlers run one at a time: concurrent refreshes of one token, concurrent sends to one phone or an invalidation during a tagged write are not excluded by the code and not modelled.
- Presence.SweepUnobservable: takes the sweep's three calls as one; PresenceSweep.SweepsUnnoticed takes them apart. Runs of PresenceGateway keep them together.
- Presence.RedisPresenceService.CleanupStaleEntries: does not model failing Redis commands or partial pipelines.
- Gateway.NotificationsGateway.HandleConnection: does not model authentication, rooms, broadcasts or the messages on connect.
- Lockout.LoginRateLimitService.AttemptLogin: whether a CAPTCHA token, a password or a second factor is right are parameters.
- FixedWindow.RateLimitService.CheckRateLimit: runs are of one limit and window per key; a cache that fails in the middle of a run, and one that drops records early, are not part of the bounds.
- SlidingLog.N1Detector.Record: does not model the SQL fingerprint, which is the key given.
- SlidingLog.SmsService.SendSms: does not model phone formats or the opt-out file; the counter in the cache is not modelled, since no send with a cache service gets as far as reading it.
- Archive.ArchiveService.ArchiveAndDelete: does not model gzip, JSON or the file system, nor a batch that fails half-way: the jobs then report zero archived rows although earlier batches are written and deleted.
- Archive.ArchiveService.RestoreFromArchive: does not model rows that the database refuses.
- Analytics.AnalyticsService.Record: does not model the shutdown flush, the reset of the tables, or entries of the list that do not parse, which the service never writes.
- CacheTags.CacheService.Set: a failed write is taken to leave the store unchanged; values are truthy or not and otherwise opaque; expiry is an entry leaving the store at any time.
- PasswordHistory.AuthService.ChangePassword: the limit is a whole number and the same along a run; bcrypt's truncation of long passwords and the password policy are not modelled.
- Controllers, modules, e-mail, documents, search, blockchain calls, backups, metrics and seeding are wiring and I/O.
