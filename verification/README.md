# Proofs about the decimal, calendar, key-refresh, billing, validation and webhook cores

This project models six parts of the customer-service backend in Dafny and proves what they promise.
Run `dafny verify dfyconfig.toml` to check it.

- **Exact decimal numbers.** `Digits`, `JsonNumber`, `NumberLaws`, `AutomationNumeric`, `AutomationNumberId`. A JSON
  number literal denotes an exact rational, fixed by what its sign, point and exponent mean. Two hand-written
  scanners, modelled character by character with their loops, are proved against one grammar (section 6 of RFC
  8259), its printer and that denotation. The comparison, which never expands a power of ten, answers the sign of the
  difference of the two rationals.
- **Fixed-offset report buckets.** `CivilCalendar`, `GoTime`, `ReportCount`, `ReportTiling`, `ReportSeries`. The
  proleptic Gregorian calendar; Go's 64-bit instants with wrapping Unix conversion, saturating addition and dates
  computed by unsigned absolute days; the guarded shift, the four bucket groupings, and the loop that cuts a
  requested interval into at most 400 clipped buckets. The rules for instants are those of Go 1.25, the version
  `go.mod` asks for; the library itself is not part of the repository.
- **Shared signing keys.** `GoogleKeys`, `GoogleAnswers`. The two critical sections are methods of a class with the
  verifier's fields; callers, refreshers, channels, clock readings and cancellation form a transition system whose
  steps apply those sections in any order. A log of starts, failures, installations and served keys carries the
  timing results and determines what every caller is answered.
- **Billing customers.** `Uuids`, `BillingStore`, `BillingProtocol`, `BillingLaws`, `BoundedJson`,
  `BoundedJsonBudget`. The row store's transactions, and concurrent crashing initialisations against a provider that
  forgets idempotency keys after a day; and the budgeted JSON validator as mutually recursive methods sharing one
  position and one counter.
- **Structure validators.** `Spaces`, `SamlIds`, `SamlPreflight`, `SamlSchema`, `SamlUniqueness`, `SamlSelection` for
  the checks a SAML response passes before its signature is verified; `Orchestration` for process checkpoints, step
  keys and state transitions.
- **Permissions and webhooks.** `Permissions`, `RoleMatching` for label expansion, normalisation and matching;
  `WebhookEnvelope`, `WhatsAppItems`, `WhatsAppLaws`, `WhatsApp` for the two all-or-nothing batch parsers and the
  router.

Code that changes state step by step is a method or a class whose `ensures` equals a specification function;
the results a caller relies on are lemmas about that function, among them laws that fix what it answers. Small
lemmas such as `BillingLaws.MatchingMeans` or `RoleMatching.GrantsAre` spell out one check each; they have no row.

## What the proofs show about the code

Eight promises hold only under a condition. Each has its exact condition and a concrete failing input.

- *One customer per intent* (`BillingProtocol.OneCustomerExactlyWhenPauseIsShort`). The 23-hour check and the
  15-second deadline leave 59 minutes and 45 seconds. Nothing in the code bounds the time between reading the clock
  for the check and starting the deadline, so that time is a parameter, `pause`. No run creates two customers if
  and only if `pause` plus 15 seconds is less than one hour; `LongPauseCreatesTwo` builds the run otherwise.
- *The signature's reference names the assertion* (`SamlUniqueness.ReferenceNamesTheAssertion`). The preflight
  compares two selected attributes, the reference's `URI` and the assertion's `ID`, and selection goes by local name
  and ignores prefixes. So the declaration of a namespace prefix called `ID` or `URI` can be selected in place of the
  attribute meant. The reference's own URI names exactly one element, the assertion, if and only if it spells out an
  unprefixed `ID` of the assertion; without a prefixed `ID` there and a prefixed `URI` on the reference that always
  holds. `SamlSelection.AdmittedWithoutReferent` and `AdmittedNamingTheResponse` are whole admitted responses, one
  for each prefix, whose reference names no element and the response.
- *Buckets tile time* (`ReportTiling.OneBucketPerInstant`, `BucketsAdjoin`). Go takes dates from an unsigned count
  that starts on 1 March of year -292277022400, about 257 years after the earliest instant the shift accepts. Before
  that zero, buckets lie on another grid. A bucket belongs to exactly the instants it contains if and only if its
  local second is not on the seam: the last 16 seconds (hours), 7 hours (days) or 6 days (months, years) before the
  zero and, for years, the 306 days after it. `SeamOverlaps` shows two reported hour buckets that overlap.
- *Months lie inside their year* (`ReportTiling.FinerInsideCoarser`). This fails exactly in the first December
  after that zero. Hours in days and days in months never fail; `FirstDecemberFails` is one instant.
- *A series partitions its interval* (`ReportSeries.SeriesPartitions`). It fails exactly for a series of years that
  starts in the year of the zero, where the first piece runs backwards (`BackwardsSeries`); every record is still
  counted exactly once. The labels are natural exactly for series on one side of the seam (`LabelsAreNatural`).
- *Hour buckets last an hour* (`ReportTiling.HourLength`). Adding an hour saturates at the end of representable
  time and the shorter bucket is still reported; `LastHourIsShort` is one.
- *Checkpoint versions grow* (`Orchestration.VersionSuccessor`). The successor of the largest 64-bit version is 0;
  `VersionsWrap` is a valid checkpoint with it.
- *Step keys are injective* (`Orchestration.KeysCollideExactly`). Two different pairs of version and step share a key
  for some process IDs if and only if the suffix of one ends with the suffix of the other; `ColonInVersionCollides`
  is a case. Within valid checkpoints that cannot happen (`StepKeysIdentify`).

`RoleMatching.NormalizingOnlyAddsMatches` is of another kind: normalising never removes a match, and adds one exactly
when something a label stands for allows the target; `NormalizingCanAddAMatch` is such a case.

## Model

| member | source | states |
|---|---|---|
| JsonNumber.ReadSound | internal/domain/automation_numeric.go:153-217 | whatever the reference reader accepts is a literal of the JSON number grammar that prints back to the same text |
| JsonNumber.ReadComplete | internal/domain/automation_numeric.go:153-217 | every literal of the grammar is read back as itself, so the grammar is unambiguous |
| NumberLaws.MinusNegates | internal/domain/automation_numeric.go:159-163 | with a minus sign in front a text is a number exactly when it is one without, and denotes the negated number |
| NumberLaws.PointDivides | internal/domain/automation_numeric.go:180-194 | digits after the point count tenths: shifted by their count the number is the integer of all its digits |
| NumberLaws.ExponentMultiplies | internal/domain/automation_numeric.go:195-213 | a plain or plus exponent multiplies the mantissa by that power of ten |
| NumberLaws.MinusExponentDivides | internal/domain/automation_numeric.go:195-213 | a minus exponent divides: multiplied by that power of ten the number is the mantissa again |
| NumberLaws.TextIsBuiltSo | internal/domain/automation_numeric.go:159-217 | every readable text is a sign, an integer without superfluous zero, a point part and an exponent, so the four rows above fix what each one denotes |
| AutomationNumeric.ScanExponentDigits | internal/domain/automation_numeric.go:203-209 | the early cut-off refuses exactly the digit runs whose value exceeds 1024, so it never rejects a literal inside the limit |
| AutomationNumeric.NormalFormValue | internal/domain/automation_numeric.go:218-225 | joining, trimming and rescaling keep the exact rational, and the record has no leading or trailing zero |
| AutomationNumeric.ParseAutomationDecimal | internal/domain/automation_numeric.go:153-226 | the scanning loops accept exactly the JSON numbers of at most 1024 bytes with absolute exponent at most 1024, and return their normal form |
| AutomationNumeric.AcceptedIsTheGrammar | internal/domain/automation_numeric.go:153-217 | the accepted strings are exactly the printings of grammar literals within both limits |
| AutomationNumeric.CompareSizes | internal/domain/automation_numeric.go:248-277 | magnitude test and padded digit loop give the sign of the difference of the two absolute values |
| AutomationNumeric.CompareAutomationNumbers | internal/domain/automation_numeric.go:230-278 | succeeds exactly on two accepted literals and answers the sign of the difference of their exact rationals |
| AutomationNumeric.CanonicalUnique | internal/domain/automation_numeric.go:218-225 | two canonical records with one value are the same record |
| AutomationNumeric.SameNumberSameRecord | internal/domain/automation_numeric.go:218-225 | two accepted literals denote one number if and only if their parsed records are equal, all spellings of zero included |
| AutomationNumeric.ComparisonIsTotalPreorder | internal/domain/automation_numeric.go:230-278 | the comparison is antisymmetric, transitive and ties exactly on equal records |
| AutomationNumberId.ScanExponentDigits | internal/domain/automation_number_id.go:57-65 | the differently written guard refuses the same exponents |
| AutomationNumberId.NegativePowerIsFraction | internal/domain/automation_number_id.go:86-91 | rejecting a negative scale loses no integer |
| AutomationNumberId.TooManyPlaces | internal/domain/automation_number_id.go:86-91 | rejecting more than 20 places loses no 64-bit integer |
| AutomationNumberId.ParseAutomationNumberUint64 | internal/domain/automation_number_id.go:18-98 | succeeds with n exactly when the literal spells an integer n from 1 to 2^64-1 within the limits, and otherwise spells none |
| AutomationNumberId.RecordOfIdentifier | internal/domain/automation_number_id.go:77-97 | the decimal record of an identifier writes that identifier out in at most 20 places |
| AutomationNumberId.ScannersAgree | internal/domain/automation_number_id.go:18-98 | each identifier is accepted by the decimal scanner with the same value, and integer order equals the decimal comparison |
| CivilCalendar.YearAndDayCorrect | internal/domain/report_count.go:60-72 | the cycle arithmetic finds the year of any day, before or after year 1 |
| CivilCalendar.DateOfItsDay | internal/domain/report_count.go:60-72 | dates and day numbers are in bijection |
| CivilCalendar.MonthStable | internal/domain/report_count.go:68-70 | every day of a month has that month, so months do not overlap |
| CivilCalendar.MonthAdjacent | internal/domain/report_count.go:68-70 | the day after a month begins the next month, December carrying into the next year |
| CivilCalendar.YearStable | internal/domain/report_count.go:71-73 | every day of a year has that year |
| CivilCalendar.YearAdjacent | internal/domain/report_count.go:71-73 | the day after a year begins the next year |
| ReportCount.ShiftIsExact | internal/domain/report_count.go:88-111 | the guarded shift succeeds exactly for whole seconds between exactly representable instants, and is then the mathematical shift with the same nanosecond |
| ReportCount.ShiftUndone | internal/domain/report_count.go:105-109 | a successful shift is undone by the opposite shift |
| GoTime.AbsoluteDaysExact | internal/domain/report_count.go:60-72 | from the absolute zero on, the unsigned March-based day count is the calendar's day number |
| GoTime.WrappedYear | internal/domain/report_count.go:71-72 | 1 January of the year of the absolute zero wraps to this absolute day |
| ReportCount.BoundsAreExact | internal/domain/report_count.go:48-86 | for every instant, grouping and offset the guarded, wrapping computation equals plain arithmetic where representable and fails elsewhere |
| ReportTiling.BucketContains | internal/domain/report_count.go:77-85 | a reported bucket is a nonempty interval of whole seconds around its instant, everywhere |
| ReportTiling.OneBucketPerInstant | internal/domain/report_count.go:48-86 | the instants with this bucket are exactly those inside it if and only if the local second is not on the seam |
| ReportTiling.BucketsAdjoin | internal/domain/report_count.go:48-86 | the bucket of a bucket's end starts exactly at that end if and only if the local second is not on the seam |
| ReportTiling.BucketsAreCalendarUnits | internal/domain/report_count.go:60-76 | off the seam and on one side of the absolute zero two instants share their bucket if and only if their local hour, day, month or year is the same |
| ReportTiling.EndHasBucket | internal/domain/report_count.go:77-85 | the end of a bucket has a bucket if and only if the next local end is later and representable |
| ReportTiling.SeamOverlaps | internal/domain/report_count.go:62-65 | two reported hour buckets that overlap at the absolute zero |
| ReportTiling.FinerInsideCoarser | internal/domain/report_count.go:62-76 | hour lies inside day and day inside month; month lies inside year if and only if the local second is not in the first December |
| ReportTiling.FirstDecemberFails | internal/domain/report_count.go:68-73 | an instant whose month does not lie inside its year |
| ReportTiling.OffsetOnlyShifts | internal/domain/report_count.go:55-85 | bounds at an offset are the zero-offset bounds of the shifted instant, shifted back, errors included |
| ReportTiling.HourLength | internal/domain/report_count.go:63-65 | a reported hour bucket lasts an hour if and only if the local second lies before the last whole hour of representable time |
| ReportTiling.LastHourIsShort | internal/domain/report_count.go:63-65 | a reported hour bucket of 1807 seconds |
| ReportSeries.CountSeriesBuckets | internal/service/report_count_series.go:66-99 | the bucket loop computes the specified walk, its errors and its budget of 400 |
| ReportSeries.SeriesFailsExactly | internal/service/report_count_series.go:67-89 | the budget error occurs exactly when 400 consecutive buckets exist and end before the request does, the bounds error exactly when a shift, the first bucket or an earlier one is missing |
| ReportSeries.SeriesPartitions | internal/service/report_count_series.go:66-99 | a successful series has at most 400 pieces, which cut the interval without gap or overlap if and only if it is no series of years starting in the year of the absolute zero |
| ReportSeries.SeriesKeepsToItsRequest | internal/service/report_count_series.go:66-99 | every piece of a series carries the requested offset and ends no later and begins no earlier than the request; there are at most 400, and none exactly for an empty request |
| ReportSeries.FirstYearSeries | internal/service/report_count_series.go:74-98 | such a series begins with one piece that runs backwards and partitions the interval from the second piece on |
| ReportSeries.BackwardsSeries | internal/service/report_count_series.go:74-98 | the two pieces returned for one second of that year, the first one backwards |
| ReportSeries.EveryRecordCountedOnce | internal/service/report_count_series.go:66-99 | any finite list of instants of the interval is counted exactly once over the buckets of any successful series |
| ReportSeries.LabelsAreNatural | internal/service/report_count_series.go:86-98 | every instant in every piece of a series belongs to the natural bucket whose start labels the piece, if and only if the series starts past the seam or ends by the absolute zero |
| GoogleKeys.FetchKeys | internal/auth/google.go:154-202 | succeeds exactly when the response is not empty and every certificate is usable at its two clock readings; the keys are then all of them, and the expiry is the earliest certificate end or five minutes after the first reading |
| GoogleKeys.GoogleVerifier.LookLocked | internal/auth/google.go:107-126 | a caller's locked section: serve, refuse, back off, start a refresh or join one, with the whole new state |
| GoogleKeys.GoogleVerifier.FinishLocked | internal/auth/google.go:142-151 | a refresher's locked section, with the whole new state |
| GoogleKeys.StepKeepsInvariant | internal/auth/google.go:102-152 | every step of every caller and refresher keeps single flight, no lost wake-up, complete fetches, fresh serves and held starts |
| GoogleKeys.OneRefreshAtATime | internal/auth/google.go:120-125 | over every interleaving `refreshing` names exactly the one unfinished refresher and no channel is closed twice |
| GoogleKeys.GrantedWithinEveryCertificate | internal/auth/google.go:108-115 | over every interleaving a key is granted only from one earlier complete fetch, less than five minutes after that fetch began and within the validity of every certificate in it |
| GoogleKeys.RefreshesKeepTheirDistance | internal/auth/google.go:108-119 | over every interleaving no refresh starts while installed keys are fresh or within 5 seconds after a failure |
| GoogleKeys.WaitersCanAlwaysGoOn | internal/auth/google.go:127-132 | in every reachable state the steps of the one refresher a waiter waits for, and its own, are enabled in turn and bring it back to the lock |
| GoogleAnswers.AnswersFollowTheLog | internal/auth/google.go:107-126 | over every run, while the last installed fetch is fresh a caller gets the key of its certificate, or the final refusal when there is none of that name; afterwards it is told to come back within 5 seconds of a last failed refresh, and waits for the current refresh otherwise |
| GoogleAnswers.CallersKeepTheirQuestion | internal/auth/google.go:102-133 | a caller keeps the name it asked for, and its reply never changes |
| GoogleAnswers.RepliesHaveTheirCause | internal/auth/google.go:103-132 | a caller is told that it was cancelled exactly when it was; every other reply is given in its own locked section |
| GoogleAnswers.NothingGoesUnlogged | internal/auth/google.go:107-151 | each grant, started refresh and ended refresh adds exactly its event to the log, and nothing else does |
| GoogleAnswers.FetchedIsInstalled | internal/auth/google.go:137-151 | a finished refresh installs, or logs as failed, exactly what it fetched, and frees the place for the next |
| BillingStore.Repository.SelectCurrencyTx | internal/repository/billing_customer_repository.go:94-128 | one transaction: its error cases and the new table; well-formed rows stay so and only advance, and an error changes nothing |
| BillingStore.Repository.PrepareTx | internal/repository/billing_customer_repository.go:130-191 | one transaction: its error cases and the new table; well-formed rows stay so and only advance, and an error changes nothing |
| BillingStore.Repository.BindTx | internal/repository/billing_customer_repository.go:248-292 | one transaction: its error cases and the new table; well-formed rows stay so and only advance, and an error changes nothing |
| BillingStore.SelectAdvances | internal/repository/billing_customer_repository.go:94-128 | keeps rows well formed and unique and moves them only forward |
| BillingStore.PrepareAdvances | internal/repository/billing_customer_repository.go:130-191 | an existing intent is returned, never replaced; a failure changes nothing |
| BillingStore.BindAdvances | internal/repository/billing_customer_repository.go:248-292 | binds at most once and only to a customer of the row's own intent; a failure changes nothing |
| BillingLaws.SelectionSetsCurrency | internal/repository/billing_customer_repository.go:94-128 | a selection succeeds exactly unless the request is malformed, the account incompatible or its currency locked to another one; then the row has the requested currency and no other row changes |
| BillingLaws.PreparationKeepsCurrency | internal/repository/billing_customer_repository.go:130-191 | a preparation never changes a currency, id or customer; it opens the given intent once and afterwards returns the row as it is |
| BillingLaws.PreparationSucceedsExactly | internal/repository/billing_customer_repository.go:130-191 | the exact condition under which a preparation succeeds, and its error cases |
| BillingLaws.BindingOnlyAddsCustomer | internal/repository/billing_customer_repository.go:248-292 | a binding changes only the phase and customer of one row, and only from no customer or the same one |
| BillingLaws.LateBindingsSucceedExactly | internal/repository/billing_customer_repository.go:248-292 | against any earlier copy of a row a binding succeeds exactly when the row has only moved forward since, the customer answers the copy, and nobody else has it |
| BillingProtocol.StepKeepsInvariant | internal/billingportal/service.go:85-130 | every step of concurrent callers, the provider and crashes keeps the protocol invariant |
| BillingProtocol.AtMostOneCustomerPerIntent | internal/billingportal/service.go:99-119 | over every run with crashes, retries and overlapping callers an intent never gets a second provider customer, given a short pause |
| BillingProtocol.OneCustomerExactlyWhenPauseIsShort | internal/billingportal/service.go:103-108 | the property holds on all runs if and only if the pause plus the 15-second limit is less than the hour between 23 and 24 |
| BillingProtocol.LongPauseCreatesTwo | internal/billingportal/service.go:103-108 | a run that creates two customers when the pause is longer |
| BillingProtocol.BoundToItsOwnCustomer | internal/billingportal/service.go:116-122 | over every run with a short pause a bound row names a customer that was created for its intent, and no other was |
| BillingProtocol.ReturnedIsBound | internal/billingportal/service.go:85-124 | over every run, however long the pause, what a finished call returned is the customer bound to its account's row, so two calls never return different ones |
| BillingProtocol.RetryIsReplayed | internal/billingportal/stripe.go:95-121 | over every run with a short pause a retried request is answered with the customer already created and never clashes with remembered parameters |
| BillingProtocol.BindingNeverConflicts | internal/billingportal/service.go:113-119 | over every run with a short pause a received and matching customer can be bound |
| BillingLaws.ChangesAreAskedFor | internal/billingportal/service.go:85-124 | in every step a row changes its currency only by a selection naming it, its intent only by its own preparation, and its customer only by binding one a call received |
| BillingLaws.NumbersAreDistinct | internal/repository/billing_customer_repository.go:109-121 | over every run no two accounts share a row number |
| BillingLaws.UndisturbedCallsBind | internal/billingportal/service.go:85-124 | from every reachable state a call that holds an open row within 23 hours can create, receive, bind and return its customer in four steps, changing just its own row |
| BillingLaws.BoundAccountsReturnTheirCustomer | internal/billingportal/service.go:100-101 | a call whose account is bound returns the retrieved customer and changes nothing |
| BillingLaws.ForeignCustomersAreInvalid | internal/billingportal/service.go:113-115 | a customer that does not answer the record is an invalid response and is not bound |
| BillingLaws.RememberedKeysMakeNothing | internal/billingportal/stripe.go:95-121 | a remembered key never makes a second customer, and answers only a request with its own parameters |
| BillingProtocol.IntentsAreForever | architecture/billing-customer-portal.md:63-75 | over every run an intent keeps its currency, scope, time and first binding |
| BillingProtocol.StripeIdIsBindable | internal/billingportal/stripe.go:330-345 | every customer id the provider adapter accepts is one the store can bind |
| BoundedJson.Validator.Value | internal/billingportal/stripe.go:433-480 | one recursive call advances the shared position and counter exactly as the specified parse of one value |
| BoundedJson.Validator.Members | internal/billingportal/stripe.go:447-468 | the object loop with its set of seen keys follows the specified parse |
| BoundedJson.Validator.Items | internal/billingportal/stripe.go:469-476 | the array loop follows the specified parse |
| BoundedJson.ValidJSON | internal/billingportal/stripe.go:425-486 | accepts exactly one value followed by the end of input |
| BoundedJson.AcceptsExactlyBoundedValues | internal/billingportal/stripe.go:423-486 | accepted streams are exactly the printings of values of depth at most 32, at most 100000 values and keys, and distinct keys in every object |
| BoundedJsonBudget.AcceptanceIsTheBudget | internal/billingportal/stripe.go:423-486 | read off the tokens alone: a stream is accepted if and only if it prints a value with distinct keys, has at most 100000 tokens that close nothing, and none of them stands inside more than 32 open brackets |
| BoundedJson.PrintUnique | internal/billingportal/stripe.go:388-390 | no printing is a proper beginning of another, so the tree can be read off the stream |
| BoundedJson.AcceptedTreeIsUnique | internal/billingportal/stripe.go:388-390 | an accepted stream prints one tree only |
| BoundedJson.DecodingLosesNothing | internal/billingportal/stripe.go:388-390 | decoding an accepted object to a map keeps every member with its value |
| SamlIds.IdWalker.Walk | internal/auth/saml_sp.go:538-553 | the recursive walk with its shared set admits a subtree exactly when its identifiers are proper, new and distinct, and then adds exactly those |
| SamlIds.AdmissibleIsUnique | internal/auth/saml_sp.go:536-556 | the running check is the global one: all proper and pairwise distinct, and disjoint from those seen before |
| SamlIds.WalkDocument | internal/auth/saml_sp.go:536-556 | true exactly when every identifier-like attribute in the tree is spelled `ID`, well formed and pairwise distinct |
| SamlIds.IdsGrow | internal/auth/saml_sp.go:50 | identifiers grow letter by letter up to 128, from a letter or underscore on |
| SamlPreflight.Preflight | internal/auth/saml_sp.go:489-637 | returns the response ID exactly when all checks on the tree hold, text bounds and issue-time window included |
| SamlSchema.AdmissionIsTheSchema | internal/auth/saml_sp.go:489-714 | the preflight admits exactly the documents of one schema, given as data, that carry the expected values and whose identifiers are unique |
| SamlSchema.AdmissionFixesItsContext | internal/auth/saml_sp.go:495-520 | one document is admitted for one request identifier, one destination and one identity provider only |
| SamlSchema.AdmissionIsShortLived | internal/auth/saml_sp.go:367-369 | admitted under one parser at two clock readings, those lie at most 120 seconds apart, each at most 90 seconds after and 30 before the issue time |
| SamlSchema.SentCertificateIsTheConfigured | internal/auth/saml_sp.go:690-714 | a certificate sent along decodes to the configured one |
| SamlUniqueness.OneAssertionOneSignature | internal/auth/saml_sp.go:509-634 | an admitted document has, at any depth, exactly one assertion and exactly one signature |
| SamlUniqueness.ValueNamesTheAssertion | internal/auth/saml_sp.go:536-556 | in an admitted document any value names exactly one element, the assertion, if and only if it is a plain ID of the assertion |
| SamlUniqueness.SelectedReference | internal/auth/saml_sp.go:660-663 | what the preflight compares: the selected URI is the number sign and the selected ID |
| SamlUniqueness.ReferenceNamesTheAssertion | internal/auth/saml_sp.go:532-662 | in an admitted document the reference's own URI names exactly one element, the assertion, if and only if it spells out a plain ID of the assertion |
| SamlUniqueness.ReferenceNamesTheAssertionPlainly | internal/auth/saml_sp.go:532-662 | without a prefixed ID on the assertion and a prefixed URI on the reference, it always names exactly the assertion |
| SamlSelection.AdmittedWithoutReferent | internal/auth/saml_sp.go:489-637 | a whole response that passes the preflight while its reference names no element |
| SamlSelection.AdmittedNamingTheResponse | internal/auth/saml_sp.go:660-663 | a whole response that passes the preflight while its reference names the response |
| Orchestration.Validate | internal/foundation/orchestration.go:131-176 | the validation loops decide exactly the validity of a checkpoint |
| Orchestration.CompletedAreTheDoneSteps | internal/foundation/orchestration.go:151-174 | the completed list has no duplicate and is exactly the set of steps whose result is done |
| Orchestration.CompletedMeansEveryStepDone | internal/foundation/orchestration.go:162-164 | state `completed` forces a done result for every approved step |
| Orchestration.ResumableHasWorkLeft | internal/foundation/orchestration.go:159-161 | a non-terminal process has fewer completed steps than steps |
| Orchestration.UnfinishedIsNeverListed | internal/foundation/orchestration.go:165-174 | completed, compensated and skipped results are listed, the four other statuses never |
| Orchestration.EveryHeaderFieldCounts | internal/foundation/orchestration.go:131-141 | a valid checkpoint becomes invalid with any single header field blanked or out of step |
| Orchestration.EveryResultFieldCounts | internal/foundation/orchestration.go:75-83 | a valid result becomes invalid with any single field blanked or with an end before its start, and stays valid under exactly seven statuses |
| Orchestration.ResultsBelong | internal/foundation/orchestration.go:165-171 | every result is valid, of an approved step, and carries its own key and the correlation of the process |
| Orchestration.EveryProcessCanComplete | internal/foundation/orchestration.go:12-29 | every approved type of process has a valid completed checkpoint |
| Orchestration.KeysCollideExactly | internal/foundation/orchestration.go:62-67 | some process IDs give two pairs of version and step one key and different triples if and only if the pairs differ and one suffix ends with the other |
| Orchestration.KeysInjective | internal/foundation/orchestration.go:62-67 | in particular keys determine process, version and step when versions and steps have no colon, whatever the process ID contains |
| Orchestration.ColonInVersionCollides | internal/foundation/orchestration.go:62-67 | a colliding pair of triples |
| Orchestration.StepKeysIdentify | internal/foundation/orchestration.go:165-168 | accepted keys of valid checkpoints identify process and step |
| Orchestration.VersionSuccessor | internal/foundation/orchestration.go:132 | a valid version exceeds the expected one if and only if the expected one is not the largest 64-bit value |
| Orchestration.VersionsWrap | internal/foundation/orchestration.go:132 | a valid checkpoint whose version is 0 after the largest one |
| Orchestration.TerminalStatesAreFinal | internal/foundation/orchestration.go:31-37 | over every history a terminal state is last, the initial one never returns, and completion comes from running |
| Orchestration.TerminalMeansNoMove | internal/foundation/orchestration.go:31-37 | a state is terminal exactly when no move leaves it |
| Orchestration.EveryHistoryCanEnd | internal/foundation/orchestration.go:31-37 | from every other state a history can end within two moves |
| Permissions.TrimDropsOnlySpaces | internal/domain/permissions.go:167 | trimming removes white space at both ends and nothing else |
| Permissions.NormalizePermissions | internal/domain/permissions.go:161-188 | the loops over input and expansions compute the specified list |
| Permissions.Normalizer.AddToken | internal/domain/permissions.go:165-171 | the closure appends a trimmed, non-empty, unseen token and records it |
| Permissions.NormalizedIsFirstOccurrences | internal/domain/permissions.go:161-188 | the result is the first occurrence of every token and of everything it stands for, in order |
| Permissions.NormalizedHoldsExactly | internal/domain/permissions.go:161-188 | the result has no duplicate and holds exactly the trimmed tokens and what they stand for |
| Permissions.ExpansionsAreFlat | internal/domain/permissions.go:9-69 | what a label stands for is trimmed and stands for nothing further, over the whole table |
| Permissions.NormalizingIsIdempotent | internal/domain/permissions.go:161-188 | normalising twice gives the same sequence, order included |
| RoleMatching.RoleMatchesPermission | internal/domain/permissions.go:72-146 | the loop allows a target exactly when it is empty or some trimmed grant allows it |
| RoleMatching.GrantedByNameOrLabel | internal/domain/permissions.go:72-146 | an administrator may do everything; everyone may do what is granted by name or label |
| RoleMatching.UnknownTokensAllowThemselves | internal/domain/permissions.go:72-146 | a token no table knows allows itself only |
| RoleMatching.MatchingIsMonotone | internal/domain/permissions.go:72-146 | only the set of trimmed grants matters, and more grants never allow less |
| RoleMatching.NormalizedGrantSet | internal/domain/permissions.go:161-188 | normalising adds to the set of grants exactly what its labels stand for |
| RoleMatching.NormalizingOnlyAddsMatches | internal/domain/permissions.go:72-188 | normalising never removes a match and adds one exactly when something a label stands for allows the target |
| RoleMatching.NormalizingCanAddAMatch | internal/domain/permissions.go:66-115 | the quality-review label does not allow the quality view while its normal form does |
| WebhookEnvelope.CollectSucceeds | internal/channel/events.go:58-96 | a batch succeeds exactly when every place is good and there are at most 100, and returns all events in order |
| WebhookEnvelope.CollectFails | internal/channel/events.go:58-96 | a batch fails with an error exactly when the first offending place, or the event beyond the limit, has that error |
| WhatsApp.NameOf | internal/channel/events.go:78-87 | the contact loop finds the first named contact of the sender, or the number itself when none fits |
| WhatsApp.ParseWhatsApp | internal/channel/events.go:55-97 | the nested loops over entries, changes and messages compute the specified outcome, each error in its place |
| WhatsApp.ParseWhatsAppStatuses | internal/channel/statuses.go:26-91 | the nested loops over entries, changes and statuses compute the specified outcome, each error in its place |
| WhatsApp.HasWhatsAppStatuses | internal/handler/channel_outbound_callback_handler.go:36-57 | true exactly when the body decodes and some change of some entry carries a status |
| WhatsAppItems.ParsingIsAllOrNothing | internal/channel/statuses.go:23-91 | either parser succeeds exactly when nothing anywhere is out of place and there are at most 100 rows, and then returns every row in document order |
| WhatsAppItems.RejectionNamesTheFirstFault | internal/channel/statuses.go:57-90 | a rejection carries the error of the first offending place in document order |
| WhatsAppLaws.MessageFields | internal/channel/events.go:89 | the event at a message's place in the document has the entry's account, the change's number and the message's own id, sender and text |
| WhatsAppLaws.MessageName | internal/channel/events.go:78-88 | its name is that of the first contact naming the sender, up to 255 bytes, else the number |
| WhatsAppLaws.StatusFields | internal/channel/statuses.go:71-87 | the event at a status's place has the entry's account, the change's number and the status's own recipient, id, state and attempt |
| WhatsAppLaws.MessageBatches | internal/channel/events.go:55-77 | field by field what a well-formed batch of messages is |
| WhatsAppLaws.StatusBatches | internal/channel/statuses.go:26-80 | field by field what a well-formed batch of statuses is |
| WhatsAppLaws.AHundredRows | internal/channel/events.go:90-92 | a well-formed batch is accepted exactly up to a hundred rows |
| WhatsAppLaws.TimestampMeans | internal/channel/events.go:75-76 | a timestamp is a positive number below 2^63 in digits, with or without a plus sign |
| WhatsAppItems.ParsersAndRouterAgree | internal/handler/channel_outbound_callback_handler.go:36-57 | the parsers never both accept; the router is true on what the status parser accepts and false on what the message parser accepts |
| WhatsAppItems.RoutingLosesNothing | internal/handler/channel_ingress_handler.go:105-120 | routing first accepts exactly the envelopes either parser accepts, with the same events |

## Left out

- Bytes: a `char` of a literal, identifier or envelope field stands for one byte; in permission labels it stands for
  one code point, and text that is not valid UTF-8 is not modelled.
- Decoding JSON and XML bytes into tokens, trees and records; the models start from those. Case-insensitive and
  repeated JSON field names in webhook bodies are part of that decoding.
- Go's conversion of an unsigned absolute day to a date is modelled as the exact calendar, as that library documents
  it; the conversion back is modelled with its wrapping arithmetic. Monotonic clock readings are not distinguished
  from others.
- `ReportCount.ShiftUndone`: assumes the negated duration is representable, which every whole-second offset within
  the limit is.
- SQL counting and the result points of a report series; cancellation of the request context.
- Google ID token claims, RSA and certificate parsing, HTTP: a certificate is its validity window, key strength and
  key. A failed fetch is one outcome, whatever its error.
- Fairness and liveness beyond `GoogleKeys.WaitersCanAlwaysGoOn`; one clock that never runs backwards is assumed.
- `SamlPreflight.Preflight`: takes reading a timestamp and decoding a certificate's text as given functions, and
  starts after the token loop that bounds the XML.
- Billing: the provider acts on a request only until its deadline, remembers a key for at least 24 hours after its
  first use, and never reissues a customer id; the clock does not run backwards, and database timestamps keep their
  precision. The verdict on older subscription records is a parameter.
- `BillingProtocol.AtMostOneCustomerPerIntent`: requires a short pause, because it is false without one; the exact
  condition is proved.
- The portal session (`Checkout`), `Selection`, configuration checks, the change journal, and the provider response
  fields other than the customer's id, binding, currency and scope.
- `BillingProtocol.RetryIsReplayed`: speaks of requests with a remembered key; what the provider does with a pruned
  key is the creation step.
- SAML signature verification, and the time window and audience checks after it.
- Process intents, step definitions and their reference keys.
- Permission JSON formatting and checks on stored JSON; other permission sources.
- Twilio forms, signatures, and storing the parsed events. That the status shape of an envelope decodes only if the
  router's weaker shape does is assumed (`e.Valid()`).
