# Invoice notebook: amount words, rate update, signup and session rules

A Dafny model of the decision logic of an invoice-keeping web application
written in TypeScript. The model covers six pieces.

- `utils/number-to-words.ts` turns a whole number of rupees into English words
  in the Indian numbering system: units, teens, tens, "Hundred and", then
  Crore, Lakh and Thousand groups, and the suffix " Rupees Only". This is
  module `AmountWords` in `number_words.dfy`.
- `scripts/update-rates.ts` holds a second, older converter with no Crore, no
  "and", and the suffix " Rupees". It also holds a rate table and the rule that
  recomputes every invoice from its days and the new daily rate. These are
  modules `LegacyWords` (`legacy_words.dfy`) and `RateUpdate`
  (`rate_update.dfy`).
- `utils/client-info.ts` classifies a user agent by browser, operating system
  and device type. This is module `ClientInfo` in `client_info.dfy`.
- `pages/api/signup.ts` checks a signup request in a fixed order and registers
  the email. This is module `Signup` in `signup.dfy`.
- `scripts/remove-duplicates.ts` groups invoices by number, keeps the newest of
  each group and deletes the others. This is module `Dedup` in
  `remove_duplicates.dfy`.
- `context/SessionContext.tsx` loads the stored session on mount and guards the
  routes. This is module `Session` in `session.dfy`.

Two modules are shared. `Common` (`common.dfy`) holds `Option` and `Result`.
`Strings` (`strings.dfy`) holds JavaScript's whitespace set, `trim`,
`includes`, `join(' ')` and the UTF-16 `length`. It also defines phrases:
non-empty words of letters separated by single spaces.

Each converter is paired with an independent reference. `AmountWords.AmountTokens`
lists the words of an amount digit group by digit group. The source's
accumulate-and-trim algorithm is proved equal to joining that list. The older
converter is proved equal to the same list with every "and" removed, for all
amounts below one crore. From this follow the exact conditions under which the
two converters agree.

A record's `_id` is the collection's primary key, so several lemmas about deletion assume
distinct identifiers (`Dedup.DistinctIds`).

Two properties of the converter in `utils/number-to-words.ts` shape the model.
- The converter has no check for negative or fractional input.
  `AmountWords.NumberToWords` is the code as written. `AmountWords.AmountInWords`
  is a checked variant; see Findings.
- From 10^10 on, the converter reads past its table; see Findings.

## Model

| member | source | states |
|---|---|---|
| AmountWords.BelowHundred | utils/number-to-words.ts:7-15 | the words of 0..99 are empty exactly for 0, and otherwise a phrase of single-spaced words |
| AmountWords.BelowThousand | utils/number-to-words.ts:6-18 | the helper's result is empty exactly for 0, and for every other argument, including ones past the table, a well-spaced phrase |
| AmountWords.TwoDigitMatchesTokens | utils/number-to-words.ts:7-15 | below 100 the helper gives the unit word, the teen word, or the tens word followed by the unit word when the last digit is not zero |
| AmountWords.BelowThousandMatchesTokens | utils/number-to-words.ts:6-18 | below 1000 the helper's text is the digit-by-digit word list joined by spaces, with "and" exactly when a hundreds digit and a non-zero remainder are both present |
| AmountWords.TokensAnd | utils/number-to-words.ts:17 | the word "and" appears in the words of n < 1000 iff n >= 100 and n % 100 != 0 |
| AmountWords.NumberToWords | utils/number-to-words.ts:20-41 | every result, for any natural number, ends in " Rupees Only" and contains only letters and spaces |
| AmountWords.Entry | utils/number-to-words.ts:17 | JavaScript array reading: inside the table the entry, past its end the text "undefined", and nothing else |
| AmountWords.AddGroup | utils/number-to-words.ts:24-27 | one `if (num >= divisor)` block: what is left is the amount modulo the divisor, and the words only grow, exactly when the amount reaches the divisor |
| AmountWords.Groups | utils/number-to-words.ts:24-37 | after the three blocks what is left is the amount modulo 1000, and the accumulated words are empty exactly below 1000 |
| AmountWords.AddGroupMatchesTokens | utils/number-to-words.ts:24-37 | one group step appends the group's words and name to the accumulator exactly when the amount reaches the divisor, and leaves the remainder |
| AmountWords.GroupsMatchTokens | utils/number-to-words.ts:22-37 | after the three group steps the accumulator holds the crore, lakh and thousand words in that order, each followed by a space, and the amount left is num % 1000 |
| AmountWords.NumberToWordsReference | utils/number-to-words.ts:20-41 | for 0 < num < 10^10 the result is the reference word list joined by single spaces plus " Rupees Only", and that text has no leading, trailing or doubled spaces |
| AmountWords.GroupPresence | utils/number-to-words.ts:24-37 | "Crore", "Lakh" and "Thousand" each appear iff the crore, lakh or thousand multiplier is non-zero, always in that order |
| AmountWords.GroupArithmetic | utils/number-to-words.ts:24-36 | below 10^10 the crore multiplier is below 1000 and the lakh and thousand multipliers are below 100, so the helper stays within its tables; the four groups, weighted by crore, lakh, thousand and one, add up to the amount again, so no digit is lost or counted twice |
| AmountWords.ZeroVector | utils/number-to-words.ts:20 | zero reads "Zero Rupees Only" |
| AmountWords.BelowThousandVector | utils/number-to-words.ts:17 | 347 reads "Three Hundred and Forty Seven" |
| AmountWords.SmallAmount | utils/number-to-words.ts:20-41 | an amount from 1 to 999 reads as the helper's words plus " Rupees Only" |
| AmountWords.AmountVector | utils/number-to-words.ts:20-41 | 347 rupees read "Three Hundred and Forty Seven Rupees Only" |
| AmountWords.LakhVector | utils/number-to-words.ts:29-41 | 100000 reads "One Lakh Rupees Only" |
| AmountWords.CroreVector | utils/number-to-words.ts:24-41 | 10000000 reads "One Crore Rupees Only" |
| AmountWords.RateVector | utils/number-to-words.ts:34-41 | 8686 reads "Eight Thousand Six Hundred and Eighty Six Rupees Only" |
| AmountWords.LimitReadsUndefined | utils/number-to-words.ts:17-26 | the smallest amount past the tables, 10^10, reads "undefined Hundred Crore Rupees Only" |
| AmountWords.WholeGroups | utils/number-to-words.ts:20-41 | an amount whose group steps leave nothing below one thousand reads as the accumulated group words, trimmed, followed by " Rupees Only" |
| AmountWords.ThousandReadsUndefined | utils/number-to-words.ts:17 | the helper applied to 1000 reads the unit table past its end |
| AmountWords.AmountInWords | utils/number-to-words.ts:20-41 | the checked converter succeeds iff 0 <= amount < 10^10; it then agrees with the code as written, giving "Zero Rupees Only" or the joined reference words plus " Rupees Only" |
| LegacyWords.ConvertToWords | scripts/update-rates.ts:31-37 | the older helper terminates on every natural number and gives "" exactly for 0, otherwise a well-spaced phrase |
| LegacyWords.NumberToWords | scripts/update-rates.ts:27-40 | the older converter ends in " Rupees", gives exactly " Rupees" for 0, and otherwise puts the helper's phrase before the suffix |
| LegacyWords.LegacyBelowThousand | scripts/update-rates.ts:31-34 | below 1000 the older helper gives the newer helper's word list with "and" removed |
| LegacyWords.LegacyMatchesAmountWords | scripts/update-rates.ts:31-37 | below one crore the older helper's text is the newer converter's reference word list with every "and" removed, joined by spaces |
| LegacyWords.AndInAmount | utils/number-to-words.ts:17-39 | below one crore the newer converter says "and" iff the last three digits are at least 100 and the last two are not 00 |
| LegacyWords.LegacyAgreesIff | scripts/update-rates.ts:27-40 | for 0 < n < one crore the newer converter's text is the older one's plus " Only" iff n % 1000 < 100 or n % 100 == 0 |
| LegacyWords.HelperAgreesIff | scripts/update-rates.ts:31-34 | for 0 < n < 1000 the two helpers agree iff n < 100 or n is a whole number of hundreds |
| LegacyWords.WithoutAndLength | scripts/update-rates.ts:34 | dropping the "and"s removes one word and three letters per "and" |
| LegacyWords.CroreAsLakhs | scripts/update-rates.ts:36-39 | one crore reads "One Hundred Lakh" and "One Hundred Lakh Rupees" in the older converter |
| LegacyWords.JoelRateWords | scripts/update-rates.ts:22-39 | 8686 reads "Eight Thousand Six Hundred Eighty Six Rupees" in the older converter |
| RateUpdate.NewRate | scripts/update-rates.ts:67-69 | a rate applies iff the supplier's name is in the table with a non-zero rate, and it is that rate |
| RateUpdate.Recompute | scripts/update-rates.ts:65-93 | the recomputed invoice keeps its number, supplier name and days, and agrees with the table; an invoice with no applicable rate is unchanged |
| RateUpdate.RecomputeFixpoint | scripts/update-rates.ts:69-90 | recomputing leaves an invoice unchanged iff it already carries the table's rate, days times that rate, and the words of that amount |
| RateUpdate.RecomputeIdempotent | scripts/update-rates.ts:65-93 | running the invoice update twice gives the same invoices as running it once |
| RateUpdate.UpdateInvoices | scripts/update-rates.ts:65-94 | when every write succeeds, the loop recomputes every invoice in place and leaves each consistent with the table |
| RateUpdate.UpdateSupplier | scripts/update-rates.ts:52-58 | a supplier named in the table gets the table's rate, whatever its value, and keeps its name; any other supplier is unchanged |
| RateUpdate.UpdateSuppliers | scripts/update-rates.ts:52-58 | when every write succeeds, every supplier record is updated by the table independently |
| RateUpdate.RatesAgree | scripts/update-rates.ts:52-85 | after the run an updated invoice's supplier rate equals the rate of every supplier record of that name |
| RateUpdate.RecomputedWords | scripts/update-rates.ts:71-72 | for amounts below one crore the stored words are "₹", the reference words without "and", " Rupees" and " only" |
| RateUpdate.AmountText | scripts/update-rates.ts:72 | the stored words start with "₹" and end with " Rupees only", and for a positive amount the older converter's phrase stands in between |
| RateUpdate.ZeroDays | scripts/update-rates.ts:71-72 | zero days give amount 0 and the words "₹ Rupees only" |
| RateUpdate.UnknownSupplierUnchanged | scripts/update-rates.ts:66-93 | an invoice whose supplier is not in the table is left unchanged |
| RateUpdate.JoelOneDay | scripts/update-rates.ts:66-72 | one day with Joel gives amount 8686, rate 8686 and "₹Eight Thousand Six Hundred Eighty Six Rupees only" |
| Strings.ContainsIff | utils/client-info.ts:45-58 | `includes` holds iff the keyword occurs at some position |
| Strings.Utf16Length | pages/api/signup.ts:50 | `length` counts UTF-16 code units, between one and two per character; it equals the character count exactly when every character is in the Basic Multilingual Plane, and twice it exactly when none is |
| Strings.Utf16Concat | pages/api/signup.ts:50 | the code-unit count of a concatenation is the sum of the parts' counts |
| Strings.TrimStart | utils/number-to-words.ts:41 | the start of `trim`: a suffix of the text, with only JavaScript whitespace cut off and none left in front |
| Strings.TrimEnd | utils/number-to-words.ts:41 | the end of `trim`: a prefix of the text, with only JavaScript whitespace cut off and none left at the back |
| Strings.Trim | utils/number-to-words.ts:41 | the result neither starts nor ends with whitespace and uses only characters of the input |
| Strings.TrimEmptyIff | utils/number-to-words.ts:41 | trimming leaves the empty string exactly when every character is whitespace |
| Strings.TrimUnchanged | utils/number-to-words.ts:41 | a string that neither starts nor ends with whitespace is its own trim |
| Strings.IsJsSpace | pages/api/signup.ts:41 | the characters `\s` matches, which `trim` also strips; none of them is a letter, '@' or '.' |
| Strings.Contains | utils/client-info.ts:45-58 | `includes`: a found substring is no longer than the string, and the empty substring is always found; Strings.ContainsIff ties it to an explicit occurrence in both directions |
| ClientInfo.FirstMatch | utils/client-info.ts:44-60 | the first keyword the user agent contains: every earlier one is absent and this one is present, or none is present |
| ClientInfo.BrowserOf | utils/client-info.ts:44-51 | the browser is always one of Firefox, Chrome, Safari, Edge, Opera, Unknown |
| ClientInfo.BrowserFirstMatch | utils/client-info.ts:44-51 | the browser is the label of the first keyword found, in the order Firefox, Chrome, Safari, Edge, Opera |
| ClientInfo.BrowserIff | utils/client-info.ts:44-51 | each browser label is returned iff its keyword is the first one found |
| ClientInfo.ChromeIff | utils/client-info.ts:45-46 | "Chrome" is returned iff the user agent contains "Chrome" and not "Firefox", whatever else it contains |
| ClientInfo.EdgeIff | utils/client-info.ts:45-48 | "Edge" is returned only when "Firefox", "Chrome" and "Safari" are all absent |
| ClientInfo.OsOf | utils/client-info.ts:53-60 | the system is always one of Windows, MacOS, Linux, Android, iOS, Unknown |
| ClientInfo.OsFirstMatch | utils/client-info.ts:53-60 | the system is the label of the first keyword found, in the order Windows, Mac, Linux, Android, iOS, with "Mac" labelled MacOS |
| ClientInfo.OsIff | utils/client-info.ts:53-60 | each system label is returned iff its keyword is the first one found |
| ClientInfo.LinuxBeforeAndroid | utils/client-info.ts:56-57 | a user agent with Linux and Android but neither Windows nor Mac is Linux |
| ClientInfo.AndroidIff | utils/client-info.ts:54-57 | Android is returned iff Android is present and Windows, Mac and Linux are absent |
| ClientInfo.IosIff | utils/client-info.ts:54-58 | iOS is returned iff iOS is present and every earlier keyword is absent |
| ClientInfo.DeviceTypeOf | utils/client-info.ts:14 | the device is "mobile" iff one of Mobile, Tablet, iPad, iPhone, Android occurs, and "desktop" otherwise |
| ClientInfo.ContainsAny | utils/client-info.ts:14 | the alternation matches iff the first-match search over the keywords finds one |
| ClientInfo.GetClientInfo | utils/client-info.ts:3-41 | with the lookups answered, the address and coordinates are the lookup's and the device, browser and OS labels are the three classifiers' results on the user agent (a browser and OS from their label lists, "mobile" exactly when a mobile keyword occurs); when they fail the address is empty and all three labels are "unknown"; user agent and timestamp are passed through |
| ClientInfo.FallbackIsDistinct | utils/client-info.ts:28-59 | a label reads "unknown" iff the lookups failed, which the classifiers' "Unknown" never does |
| ClientInfo.NoKeyword | utils/client-info.ts:14-60 | a user agent with none of the keywords is Unknown, Unknown, desktop |
| ClientInfo.IPhoneReadsMacOS | utils/client-info.ts:14-55 | an iPhone Safari user agent that names Mac reads Safari, MacOS, mobile |
| ClientInfo.AndroidReadsLinux | utils/client-info.ts:14-56 | an Android Chrome user agent naming Linux reads Chrome, Linux, mobile |
| Signup.IndexOf | pages/api/signup.ts:41 | the position of the first occurrence of a character, or the length when it does not occur |
| Signup.MatchesEmailPattern | pages/api/signup.ts:41 | the regular expression read directly; any match has at least five characters and contains '@' and '.' |
| Signup.ValidEmail | pages/api/signup.ts:41-42 | an executable form of the check; anything it accepts has at least five characters and contains '@' and '.', and Signup.EmailCheckIff proves it accepts exactly what the regular expression matches |
| Signup.EmailCheckIff | pages/api/signup.ts:41-42 | the executable check accepts an email iff it matches the regular expression: segments without whitespace or '@' around one '@' and a later '.' |
| Signup.AcceptedEmail | pages/api/signup.ts:41-42 | "a@b.co" is accepted |
| Signup.AcceptedDotAfterAt | pages/api/signup.ts:41-42 | "a@.b.c" is accepted: a dot right after the '@' does not end the domain |
| Signup.RejectedEmails | pages/api/signup.ts:41-42 | "a@b" and "a@.b" are rejected: the dot needs a character on each side after the '@' |
| Signup.RejectedEmailsSecondAt | pages/api/signup.ts:41-42 | "a@b@c.d" (a second '@') and "a b@c.d" (whitespace) are rejected |
| Signup.Handle | pages/api/signup.ts:19-99 | success adds exactly the new email to the registered set; every failure leaves it unchanged and returns no data |
| Signup.MethodIff | pages/api/signup.ts:23-28 | status 405 iff the method is not POST, and then nothing else is looked at |
| Signup.RequiredIff | pages/api/signup.ts:31-38 | "Email, password, and name are required" iff a POST body misses or empties one of the three fields |
| Signup.InvalidEmailIff | pages/api/signup.ts:40-47 | "Invalid email format" iff the fields are present and the email does not match the pattern |
| Signup.PasswordIff | pages/api/signup.ts:49-55 | the length error iff the earlier checks pass and the password has fewer than 8 UTF-16 units |
| Signup.ConflictIff | pages/api/signup.ts:57-68 | 409 iff every check passes and the email is already registered, and then nothing is inserted |
| Signup.CreatedIff | pages/api/signup.ts:73-91 | 201 iff every check passes and the email is new; the set gains the email and the response echoes id, email and name, never the password |
| Signup.InternalErrorIff | pages/api/signup.ts:30-98 | 500 iff a POST has no body, or passes every check while the database is unreachable |
| Signup.SecondSignupConflicts | pages/api/signup.ts:62-82 | signing the same request up twice, when the first request has finished before the second one's lookup: the second attempt gets 409 |
| Dedup.Keep | scripts/remove-duplicates.ts:28-35 | the records kept are exactly the input records satisfying the predicate, none added |
| Dedup.Group | scripts/remove-duplicates.ts:28-35 | a group holds exactly the invoices carrying its number |
| Dedup.Keys | scripts/remove-duplicates.ts:28-38 | the group keys are distinct, and they are exactly the invoice numbers present |
| Dedup.GroupsOf | scripts/remove-duplicates.ts:38-39 | each listed entry is the complete group of one key and has more than one invoice, and every key with such a group is listed |
| Dedup.DuplicateGroups | scripts/remove-duplicates.ts:38-39 | exactly the groups of more than one invoice are processed |
| Dedup.NewestIndex | scripts/remove-duplicates.ts:48-50 | the record a stable newest-first sort puts in front: no record is newer, and every earlier one is strictly older |
| Dedup.Prune | scripts/remove-duplicates.ts:48-53 | the kept record is in the group and the newest of it; the duplicates are the group without it, one record fewer |
| Dedup.DefinedIds | scripts/remove-duplicates.ts:55 | the identifiers handed over are exactly the defined identifiers of the duplicates, all of them when every record has one |
| Dedup.Doomed | scripts/remove-duplicates.ts:53-55 | a group hands over at most all but one identifier, each that of a non-kept member, and exactly all but one when every member has one |
| Dedup.DeletedIds | scripts/remove-duplicates.ts:44-60 | every identifier handed to `deleteMany` is that of a record of the collection |
| Dedup.DoomedAll | scripts/remove-duplicates.ts:44-63 | an identifier is deleted iff one group hands it over |
| Dedup.Remaining | scripts/remove-duplicates.ts:55-60 | a record survives iff it has no identifier or its identifier was not handed over |
| Dedup.DeletedSource | scripts/remove-duplicates.ts:44-60 | every deleted identifier belongs to a duplicate, other than the kept one, of a group of more than one |
| Dedup.UniqueNeverDeleted | scripts/remove-duplicates.ts:38-44 | an invoice whose number is unique is never deleted |
| Dedup.LatestSurvives | scripts/remove-duplicates.ts:48-60 | the kept invoice of every duplicate group survives |
| Dedup.KeptIsNewest | scripts/remove-duplicates.ts:48-53 | the kept invoice carries the group's number and no invoice of that number is newer |
| Dedup.DeletionCount | scripts/remove-duplicates.ts:53-55 | when every record has an identifier, a group of n hands over n - 1 identifiers |
| Dedup.OthersDeleted | scripts/remove-duplicates.ts:53-60 | every other invoice of a duplicate group that has an identifier is deleted |
| Dedup.NumbersPreserved | scripts/remove-duplicates.ts:28-63 | the set of invoice numbers is the same before and after the run |
| Dedup.OnePerNumber | scripts/remove-duplicates.ts:28-63 | when every record has an identifier, exactly one invoice of each number is left |
| Dedup.NewerCopyKept | scripts/remove-duplicates.ts:48-60 | of two copies, the older is deleted and the newer kept |
| Dedup.TieKeepsFirst | scripts/remove-duplicates.ts:48-53 | of two copies created at the same time the one read first is kept, since the sort is stable |
| Dedup.TwoCopiesDeleted | scripts/remove-duplicates.ts:44-55 | for two copies of one number, the identifier handed to `deleteMany` is that of the older copy, or of the second on a tie, and nothing else |
| Session.Initial | context/SessionContext.tsx:14-15 | before mounting there is no session and the provider is loading |
| Session.Truthy | context/SessionContext.tsx:20-21 | `if (storedSession)` is false exactly for a missing entry and for the empty string |
| Session.Valid | context/SessionContext.tsx:27-35 | a valid stored session is not null and names an email; Session.KeptEarlier proves that a session kept at some time is kept at every earlier time |
| Session.Mount | context/SessionContext.tsx:18-49 | loading always ends; a session is installed only from a non-empty stored entry, which is kept; otherwise a non-empty entry is removed and an empty or missing one left alone |
| Session.MountInstallsIff | context/SessionContext.tsx:21-36 | a session is installed iff the stored text parses to a value with an email and an expiry later than now, and it is that value |
| Session.NothingStored | context/SessionContext.tsx:20-48 | nothing stored, or the empty string: no session, storage untouched, loading ends |
| Session.UnparseableRemoved | context/SessionContext.tsx:22-44 | text that does not parse, or parses to null, is removed and no session is installed |
| Session.MissingFieldRemoved | context/SessionContext.tsx:27-32 | a value without an email or an expiry is removed and no session is installed |
| Session.ExpiredRemoved | context/SessionContext.tsx:35-40 | an expiry that is not later than now, or not a date, removes the entry |
| Session.KeptEarlier | context/SessionContext.tsx:35-36 | a session kept at some time would be kept at any earlier time |
| Session.Guard | context/SessionContext.tsx:52-65 | the guard never redirects while loading, and redirects only to "/" or "/dashboard" |
| Session.ToLoginIff | context/SessionContext.tsx:53-59 | the guard sends to "/" iff loading is over, there is no session, and the path is neither "/" nor "/signup" |
| Session.ToDashboardIff | context/SessionContext.tsx:53-62 | the guard sends to "/dashboard" iff loading is over, there is a session, and the path is public |
| Session.StaysIff | context/SessionContext.tsx:56-63 | no redirect iff still loading or the page suits the session |
| Session.GuardIdempotent | context/SessionContext.tsx:53-63 | with the session fixed, the page redirected to is not redirected from |
| Session.ExpiredOnDashboard | context/SessionContext.tsx:18-63 | an expired stored session on the dashboard: no redirect while loading, then a redirect to "/" |
| Session.ValidOnLogin | context/SessionContext.tsx:18-63 | a valid stored session on the login page is redirected to "/dashboard" once loaded |

## Left out

- Database, network, storage and console calls are not modelled. This covers
  MongoDB reads and writes, `fetch` in `getClientInfo`, `sessionStorage`, and
  `console.log`. What they read is a parameter or a sequence, every write is
  taken to succeed, and the order of writes is not modelled.
- bcrypt hashing and the inserted document's timestamps (pages/api/signup.ts:71-80)
  are foreign calls and the clock. The new id is a parameter.
- The averaging pass `updateSupplierRates` (scripts/update-rates.ts:104-157)
  uses floating-point division and is not modelled.
- AmountWords.NumberToWords: negative, fractional and `NaN` amounts are not
  modelled; the model is over naturals. The helper indexes its tables with `n`
  itself at utils/number-to-words.ts:9 and 11, and with `n % 10` and `n % 100`
  at lines 14 and 17. A fraction reaches one of those indexes, and the entry it
  reads is `undefined`. For example, 5.5 reads "undefined Rupees Only" and
  1234.5 reads "One Thousand Two Hundred and Thirty undefined Rupees Only". A
  negative amount reads `units` at a negative index. `NaN` fails every test and
  recurses without end through line 17.
- LegacyWords.ConvertToWords: the same holds for the older converter. It
  indexes `ones` with `num` itself at scripts/update-rates.ts:32 and with
  `num % 10` at line 33. The remainders passed on at lines 34-37 keep the
  fraction. Numbers are naturals.
- RateUpdate.NewRate: the table is a Dafny map. JavaScript's `supplierRates[name]`
  would also find inherited `Object.prototype` members, for example for a
  supplier named "constructor". The result is a function, and `days * rate` is
  then `NaN`. `numberToWords(NaN)` fails every `<` test and recurses without
  end. The `RangeError` is caught at scripts/update-rates.ts:97, so the run
  aborts and no later invoice is updated. This error path is not modelled.
- RateUpdate.Recompute: `days` is a natural number. Nothing in the script checks
  the stored `days` field, which may be missing or negative. A
  missing field gives `NaN`, which aborts the run as described for
  RateUpdate.NewRate. A negative one gives words read from `ones` at a negative
  index, "₹undefined Rupees only". In the model every invoice also carries an
  embedded `supplier`. The collection is typed by `Invoice` in
  types/models.ts:29-45, which has `supplierId` and neither `supplier` nor
  `days`. Only invoices built like pages/generate-invoice.tsx:107 are known to
  embed the supplier. A document without one throws a `TypeError` at
  scripts/update-rates.ts:66, and the catch at line 97 ends the run. None of
  these cases is modelled.
- RateUpdate.Recompute: `days * rate` is exact; floating-point rounding above
  2^53 is not modelled.
- RateUpdate.UpdateInvoices: every write is taken to succeed. A rejected
  `updateMany` (scripts/update-rates.ts:52-58) or `updateOne` (line 81) jumps to
  the catch at line 97, so no later supplier or invoice is updated. The model
  also runs the invoice pass alone. Lines 159-160 start `updateRatesAndInvoices`
  and `updateSupplierRates` without awaiting either, on the one shared `client`.
  Each closes that client in its `finally` (lines 100 and 154), so one pass can
  close it while the other is still in its loop. Neither the abort nor this
  race is modelled.
- RateUpdate.UpdateSuppliers: each `updateMany` is applied to a sequence of
  supplier records. Suppliers embedded in invoices are only changed by the
  invoice loop.
- Signup.Handle: each request runs as one atomic step over the set of
  registered emails. In the handler, the lookup with `findOne`
  (pages/api/signup.ts:62), the awaited `hash` (line 71) and `insertOne`
  (line 82) are separate steps, and no unique index on `email` appears. Two
  concurrent requests with the same new email can both pass the lookup, both
  get 201, and leave two users with one email. The model cannot represent
  that outcome. Signup.SecondSignupConflicts holds only when the first
  request has finished before the second one's lookup.
- Signup.Handle: body fields that are not strings are not modelled. For
  example, a numeric password has no `length`, so it passes the length check.
- Signup.Handle: the email is matched as given; MongoDB collation and case
  are not modelled.
- ClientInfo.GetClientInfo: the two lookups are one optional parameter, and the
  clock is a parameter. The coordinates are copied as they come, and missing
  fields in the lookup answer are not modelled.
- Dedup.Remaining: `deleteMany` is modelled as removing every record whose
  identifier was handed over, applied once at the end. The runs in between are
  not modelled.
- Dedup.Prune: only the first record after the sort is modelled. The order of
  the other records does not matter, because they only feed `$in`.
- Dedup.Record: `createdAt` is a required integer. A missing date makes the
  comparator return `NaN`, which leaves the sort order to the engine.
- Dedup.Keys: groups are listed in first-seen order. `Object.entries` lists
  integer-like keys first, which only changes the order of the `deleteMany`
  calls.
- Dedup.Keys: an invoice number that names an `Object.prototype` member, such
  as "constructor" or "toString", makes `acc[key]` truthy at
  scripts/remove-duplicates.ts:30. `acc[key].push` then throws, and the whole
  run aborts before any `deleteMany`. The model groups such numbers like any
  other, so this error path is not modelled.
- Session.Mount: `JSON.parse` is a parameter, and its result is reduced to the
  truthiness of `email` and the time of `expiresAt`. Calls to `setSession` from
  elsewhere in the application are not modelled.

## Findings

| source | as written | input that shows it | evidently intended | confidence | as-written member | corrected member |
|---|---|---|---|---|---|---|
| utils/number-to-words.ts:17-26 | the crore multiplier is passed to the sub-thousand helper unchecked, and from 1000 crore on the helper reads `units[10]`, which is `undefined` | 10000000000 reads "undefined Hundred Crore Rupees Only" | amounts of 10^10 or more, and negative amounts, are rejected instead of being read out | not executed | AmountWords.LimitReadsUndefined | AmountWords.AmountInWords |
