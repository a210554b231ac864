# A model of the operator dashboard's back end

This project models the parts of the dashboard's back end (BFF) whose correctness spans several steps,
several functions or several concurrent requests, and proves what they promise.

- **The attempt counters** (`Counters.dfy`, `CounterRows.dfy`): one row per subject and the SQL statements
  that reserve, give back, clear and count on it, in the clock of the database.
- **The second factor** (`SecondFactor*.dfy`, `Factor*.dfy`, `VerifyAlone.dfy`, `EnrolmentAlone.dfy`,
  `ConfirmationAlone.dfy`): the routes that verify a code, enrol an authenticator and confirm it, as
  programs over atomic store statements. Any number of requests interleave over shared counters, challenges, sessions and accounts;
  any statement may fail before or after its effect; operators, sessions and challenges also change from
  outside.
- **The first factor** (`Login*.dfy`): login over the same counters, the ten hashing slots and the
  challenges it issues.
- **The access link** (`AccessLink*.dfy`): the single-use link that sets a password, with its slot.
- **The two codecs** (`Base64.dfy`, `Text.dfy`, `Phc.dfy`, `Challenge.dfy`): unpadded base64 and decimal
  text down to the character, the stored form of an argon2id hash, the challenge.
- **The source of a request** (`Source.dfy`): the right-to-left walk of the forwarded chain, and the
  class an address is counted under.
- **The relayed action** (`Relay*.dfy`): intent, call, outcome, with any write failing and a crash
  anywhere; and the translation of failures.
- **The strict chain** (`StrictChain.dfy`): permission guard, pending cookie, handler and wrapper.
- **The validation errors** (`Validation.dfy`): the flattening of the error tree and the reading of a reason.
- **The two generators**: the catalogue printer (`Permissions*.dfy`) and the compiler from request-body
  schemas to Zod validators (`Schemas.dfy`, `Floats.dfy`, `Patterns.dfy`, `Zodgen.dfy`, `Zod*.dfy`,
  `Names.dfy`), each with a reader of its own output.

A protocol is a state machine: a request is a program counter over atomic steps, a run is any list of
steps, and a journal records every effect in order, so that the history of one request and the history
of one counter row are projections of the same journal (`Journal.dfy`). Code that changes things in
place is a class or a method with loops, proved against a specification whose own properties are
proved as lemmas; code that computes is functions and lemmas.

Each protocol is told twice. The machine says it step by step, with interleavings, failures and lost answers;
the `*Alone.dfy` modules say it straight, in the columns of the rows and in numbers, for one request that
nothing disturbs, and prove that the machine does just that from any content of the rows. What a single step
does in the middle of any interleaving is stated in the same columns (`FactorSteps.dfy`, `LoginVerdicts.dfy`,
`AccessLinkRuns.dfy`).

`dafny verify dfyconfig.toml` checks the whole project.

## What the model is given

- argon2, SHA-256, the matching of a pattern, and the reading and writing of an IP address as text are
  functions given to the statements that need them. What is asked of argon2 is the length of its result;
  of the writing of addresses, that it is injective and holds no slash.
- Addresses, sources, passwords, hashes, secrets and tokens are numbers where only their identity matters.
  An e-mail address is already normalised. A token stands for its digest.
- Each SQL statement or transaction is one step, as the database isolates it. A failed step answers an
  error with or without its effect, as a lost acknowledgement does. The stamps of two statements are not
  ordered by the order in which they take the row: `now()` is the start of a transaction.
- Which patterns the language of the form compiles is a function given to the reader of the generated module.
- The verdict of a WebAuthn assertion and the time step or code a comparison finds are chosen by the run.
- Time passes as the run says. The deadline of thirty seconds on a request (internal/bff/hardening.go:164-193)
  is not part of this model: the runs are those of the code and slower ones. The runs exhibited as witnesses
  last a few microseconds.
- What writes the same rows from elsewhere (sessions that end, accounts that change, passkeys, access
  links, other callers of the hashing slots) is a step of the environment.

## Where the code and its comments part

Each of these is a lemma below; the code is modelled as it is.

- A reservation on a closed row is admitted when the two stamps are equal to the microsecond: the
  statement decides with `last_failure_at = now()`. "Six attempts span a window" fails exactly at that tie.
- A give-back takes from the count as it stands. When a success has cleared the row between the reservation
  and its give-back, it takes from the next count, which then lets in one code more than the threshold. The
  codes answered wrong outnumber the threshold exactly when such give-backs and ties do what the room left
  does not absorb.
- A code that was compared right is given back when spending it fails to answer: "unjudged" in the
  comment of `releaseUnjudgedAttempt` means that no verdict was returned.
- An enrolment decides on a reading; a proof that lands between the reading and a direct replacing write
  is lost, and the account is left without a confirmed factor. One request at a time this cannot happen.
- The spending of a time step does not say which secret its code was compared with. When a direct write lands
  between the comparison and the spending, the secret it has written becomes proven by a code of the former one.
- Strict base64 still skips carriage returns and line feeds: a challenge has more than one accepted
  spelling. Without line breaks the codec is a bijection.
- The strict chain writes no status when a handler returns nothing, and two when a response fails while
  it is written; a cookie then stands beside a failure.
- The catalogue printer checks the fields of entries only: the list of categories is printed unchecked. That
  concerns other callers: the only one passes the categories of the entries themselves, and what is then
  printed always reads back.
- zodgen drops the keywords it does not render (`minItems`, `minProperties`, `additionalProperties: false`,
  `required` names without a property) instead of refusing them: its validators are then wider than the
  contract, in particular for an empty list of scopes. They are never narrower on ordinary values. A pattern
  whose slash is escaped already does not survive its literal, nor does one that starts with a star.
- An object with declared properties that lets others through is not refused, as the comment on the branch of
  the free object says it is: that branch never reads the properties, and renders a record.
- A property name that needs quotes is printed bare; so is `__proto__`, which then declares no key. A body named
  after a reserved word, or `z` like the import of the header, is declared all the same. A pattern that the
  language of the form does not compile is printed. The module then does not parse, or checks less.

## Model

| member | source | states |
|---|---|---|
| Counters.AdmissionIsExact | internal/store/counters.go:154-206 | a reservation is admitted iff the row is not closed, or is closed with the very stamp of the statement |
| Counters.ATiedReservationPassesTheLock | internal/store/counters.go:162-176 | the tie exists: a row at the threshold admits a reservation that carries its stamp |
| Counters.SixAdmissionsSpanAWindow | internal/auth/authenticator.go:22-28 | over any stretch of reservations, among six consecutive admitted ones two neighbours are a window apart, but for a tie of the last two |
| Counters.ASixthWithoutAGapIff | internal/auth/authenticator.go:22-28 | the converse: from an absent row with nothing cleared, an admitted reservation is the sixth of a run without a gap iff it is a tie |
| Counters.ALockOpensWhenItSaid | internal/store/counters.go:144-152 | attempts refused during a lock move nothing; the first attempt after the announced remainder is admitted and starts a new count |
| Counters.ASourceIsLockedIff | internal/store/counters.go:43-112 | whatever refusals were counted, a source is locked iff its last five follow each other by less than fifteen minutes and the last is less than fifteen minutes old; it is told when that ends |
| CounterRows.AReservationInNumbers | internal/store/counters.go:154-206 | refused iff five were counted, the last less than fifteen minutes ago on another stamp; the delay told, and the row left, in numbers |
| CounterRows.TheOthersInNumbers | internal/store/counters.go:43-136 | the lock of a source, its count and the give-back, in numbers |
| Counters.BalanceKept | internal/store/counters.go:126-136 | every operation keeps the exact account of its epoch: granted, kept, given back, late give-backs, give-backs that found no count, and ties, against the stored count |
| Counters.EpochBudget | internal/store/counters.go:154-206 | granted minus given back since the last clear or forget exceeds the threshold iff the ties outnumber the give-backs that found no count and the room left; what is kept, iff ties and late give-backs do; without either the row is exact |
| Counters.ALateReleaseGrantsASixth | internal/store/counters.go:126-136 | a give-back overtaken by a clear, within microseconds and without a tie: six reservations of one window are kept |
| Counters.ATieGrantsASixth | internal/store/counters.go:162-176 | the tie does the same without any give-back |
| Journal.LoggedIsProjected | internal/bff/mfa.go:177-191 | an effect in the interleaved journal stands at its own place in the history of its request |
| Journal.AnEntryMovesItsRow | internal/store/counters.go:154-206 | a counter row that replays the journal still does after one more effect |
| SecondFactorRuns.EveryRunKeepsTheInvariant | internal/bff/mfa.go:218-306 | every interleaving of the three routes keeps: histories fit program counters, rows replay the journal, a challenge is consumed once, requests own their operators |
| SecondFactorTheorems.EveryComparisonHasItsReservation | internal/bff/mfa.go:177-191 | a code is only compared after a reservation granted to the same request on the same operator, and once per request |
| SecondFactorTheorems.AFailedJudgementGivesBack | internal/bff/mfa.go:594-602 | a statement of the judgement sends a request to the give-back iff it fails |
| SecondFactorTheorems.OtherFailuresKeepTheReservation | internal/bff/mfa.go:218-306 | no other statement, before the reservation or after the judgement, sends a request to the give-back |
| SecondFactorTheorems.WhatIsGivenBackWasNotJudged | internal/bff/mfa.go:594-602 | in every run a reservation is given back only by a request that ends in the error, never after a wrong code, once, as its last effect |
| SecondFactorTheorems.EveryAnswerKeepsItsReservation | internal/bff/mfa.go:234-275 | wrong codes, dead challenges, saturation and successes keep their reservation |
| SecondFactorTheorems.WrongCodesStayInBudget | internal/bff/mfa.go:117-138 | at every moment of every interleaving, the codes answered wrong since the last clear or forget exceed the threshold iff ties and late give-backs outnumber the give-backs that found no count, the room left and the other reservations kept; without ties and late give-backs they never do |
| SecondFactorTheorems.EveryElevationIsBacked | internal/bff/mfa.go:243-300 | a session is elevated only after its own request spent a right code and consumed, before its deadline, a challenge of the session's operator |
| SecondFactorTheorems.OneSuccessPerChallenge | internal/bff/mfa.go:281-300 | however many requests present one challenge, at most one is answered 204 |
| SecondFactorTheorems.ElevationsMapInjectivelyToChallenges | internal/bff/mfa.go:281-300 | two elevations come from two requests that consumed two different challenges |
| SecondFactorBudget.SixWrongCodesByATie | internal/bff/mfa.go:117-138 | a reachable run in which six codes of one window are answered wrong, the sixth on a tied stamp |
| SecondFactorBudget.SixWrongCodesByALateRelease | internal/bff/mfa.go:594-602 | a reachable run in which they are, without a tie: a request gives back after another one's success has cleared the row |
| SecondFactorWitnesses.TheGuardCanBeLost | internal/bff/mfa.go:141-164 | a reachable interleaving in which an enrolment overwrites a secret proven since it was read |
| SecondFactorWitnesses.ARightCodeCanBeGivenBack | internal/bff/mfa.go:594-602 | a reachable run in which a code compared right is given back |
| FactorSteps.ARequestArrivesIff | internal/bff/mfa.go:225-232 | a request is let in iff its session is alive, its account is there and active, and its route may come from it; it remembers its operator and its elevation |
| FactorSteps.WhatArrivedStays | internal/bff/mfa.go:225-306 | no step of any interleaving changes the route, session, operator or elevation a request arrived with |
| FactorSteps.AStateLetsGoOnIff | internal/bff/mfa.go:542-555 | read alive, an account leads an enrolment to its factors and a confirmation to its reservation iff a secret waits; missing or inactive, to 401 |
| FactorSteps.TheFactorsDecide | internal/bff/mfa.go:82-106 | which of the two writes, the judgement of a proof, or 409 an enrolment is led to, each iff the columns read say so |
| FactorSteps.AChallengeLetsCompareIff | internal/store/mfa.go:380-402 | a challenge read leads to the comparison iff it exists, unconsumed, in time, and belongs to the operator; to 401 otherwise |
| FactorSteps.AProofIsFoundIff | internal/bff/mfa.go:447-459 | a comparison finds a proof iff the account holds it, under the means of its route, as it compares |
| FactorSteps.AProofIsSpentIff | internal/store/mfa.go:132-145 | a proof is spent iff the row still lets it when the write lands, and where that leads; refused, nothing is written and the status is the route's, or 429 at the threshold |
| FactorSteps.WhatASpendingLeaves | internal/store/mfa.go:193-240 | the columns a spent proof changes, of its account alone |
| FactorSteps.AWriteLandsIff | internal/store/mfa.go:150-296 | an enrolment's write lands iff its guard holds when it lands, and the columns it leaves |
| FactorSteps.AChallengeIsConsumedIff | internal/store/mfa.go:405-421 | from any state, a step consumes a challenge iff it is the consumption of a request that presents it and finds it unconsumed and in time; it is journalled with that stamp |
| FactorSteps.ASessionIsElevatedIff | internal/store/sessions.go:164-200 | from any state, a step elevates a session iff it is the elevation of a request of that session and finds it alive and its account active |
| FactorSteps.AFailedStatementEnds | internal/bff/mfa.go:234-300 | wherever a statement fails its effect is there whole or not at all; the request gives back if it was being judged, and ends with the error otherwise |
| FactorSteps.WhatElseHappensToAnAccount | internal/store/access_links.go:282-300 | what the environment may do to an account, column by column: a reset takes its factors, nothing else touches them |
| VerifyAlone.AVerificationAlone | internal/bff/mfa.go:218-306 | undisturbed, for every session, challenge, means, verdict, stamps and rows: the status and every row left, column by column |
| VerifyAlone.AVerificationElevatesIff | internal/bff/mfa.go:218-306 | answered 204 iff the session is alive, its account active, its attempts open, the challenge the operator's, unconsumed and in time twice, and the proof held and unused; then the proof is used, the challenge consumed, the session elevated, the attempts cleared, nothing else changed |
| VerifyAlone.AWrongCodeIsRefused | internal/bff/mfa.go:263-275 | undisturbed, a wrong code is answered 401, or 429 at the threshold, and costs one attempt and nothing else |
| EnrolmentAlone.AnEnrolmentAlone | internal/bff/mfa.go:19-173 | undisturbed, for every session, proof, verdict, stamps and rows: the status of an enrolment and every row left |
| EnrolmentAlone.AnEnrolmentIsWrittenIff | internal/bff/mfa.go:54-164 | answered 200 iff session and account live, the calls are open, and: nobody holds a factor; or a passkey alone does and the session is elevated; or a held proof, unused, was judged right with the attempts open; then written in place, or beside the factor in place, nothing else changed |
| ConfirmationAlone.AConfirmationAlone | internal/bff/mfa.go:525-592 | undisturbed, for every session, verdict, stamps and rows: the status of a confirmation and every row left |
| ConfirmationAlone.AConfirmationSucceedsIff | internal/bff/mfa.go:525-592 | answered 204 iff the session is alive and elevated, its account active, its attempts open, and the code is of the secret that waits; then that secret is in place, proven, with its codes |
| FactorLifecycle.SpendingKeepsTheGuard | internal/store/mfa.go:193-240 | spending a proof of any kind leaves a guarded account guarded |
| FactorLifecycle.AWriteKeepsTheGuardIff | internal/mfa/manager.go:89-119 | a write keeps a guarded account guarded iff it is pending, or a passkey stands, or it may not replace |
| FactorLifecycle.ARequestAloneKeepsTheGuard | internal/bff/mfa.go:82-164 | run on its own, no enrolment, confirmation or verification leaves a guarded account without a confirmed factor |
| FactorLifecycle.EveryWriteRestsOnItsReading | internal/bff/mfa.go:63-164 | in every interleaving, a write in place of a held secret comes after a code of its own was reserved, compared right and spent; one beside a lone passkey comes from an elevated session; it is pending iff a proven secret or a passkey was read |
| FactorLifecycle.TheGuardIsLostIff | internal/bff/mfa.go:141-164 | in every interleaving a step takes the last confirmed factor away iff it is a direct replacing write without passkey, and the proof then landed after the reading |
| FactorReplay.StepsIncrease | internal/store/mfa.go:123-145 | in every interleaving, of two time steps spent on one secret the later is strictly greater, the confirming step included |
| FactorReplay.ACodeIsSpentOnce | internal/store/mfa.go:329-342 | in every interleaving, a recovery code is spent at most once while its set is in place |
| FactorProvenance.AnUnshownSecretIsProvenIff | internal/mfa/manager.go:117-134 | from any state, a step makes a secret proven without a code of it iff it spends a time step compared with another secret on one never proven |
| FactorProvenance.AnUnshownSecretWasWrittenMeanwhile | internal/store/mfa.go:123-145 | in every interleaving such a step follows a direct write that landed after the comparison |
| FactorProvenance.AnUnshownSecretCanBeProven | internal/store/mfa.go:123-145 | a reachable run in which it happens |
| LoginRuns.EveryRunKeepsTheInvariant | internal/auth/authenticator.go:102-141 | every interleaving of logins keeps: histories fit, rows replay the journal, grants are admissions, slots are the hashes in flight |
| LoginAttempts.SixLoginsSpanAWindow | internal/auth/authenticator.go:84-124 | among six consecutive logins let in on an address with nothing cleared between, two neighbours are a window apart, but for the tie |
| LoginAttempts.ASixthIsLetInIff | internal/auth/authenticator.go:84-124 | since the beginning or the last clear, a login let in is the sixth without a gap iff its stamp is the one that closed the row |
| LoginAttempts.ATieLetsASixthIn | internal/store/counters.go:162-176 | a reachable run that lets six logins in within microseconds |
| LoginAttempts.TheLoginsLetInAreTheAdmittedOnes | internal/auth/authenticator.go:117-124 | in every run the granted entries of the journal, and the ones whose answer was lost, are exactly the reservations the counter admitted |
| LoginRuns.EveryHashHasItsReservation | internal/auth/authenticator.go:84-92 | a password is confronted only after a reservation of the same login on the same address, and once |
| LoginRuns.SlotsAreNeverLost | internal/auth/argon2.go:120-143 | in every run the slots taken are the hashes in flight, never more than ten |
| LoginRuns.RefusalsDoNotTell | internal/auth/authenticator.go:143-200 | two systems that differ only in an address where every attempt fails give the same verdicts, counters, journal and slots |
| LoginVerdicts.AHashMatchesIff | internal/auth/authenticator.go:157-175 | in every interleaving, a hash matches iff somebody holds the address, is active, has a readable hash, and the password is the one that produced it |
| LoginVerdicts.AChallengeIsTheHolders | internal/auth/authenticator.go:102-231 | in every interleaving, whoever is challenged is that operator, and the store holds the challenge for them |
| LoginVerdicts.AFailedStatementEnds | internal/auth/authenticator.go:102-241 | wherever a statement of a login fails its effect is there whole or not at all, and the login ends with the error |
| LoginAlone.ALoginAlone | internal/auth/authenticator.go:102-231 | undisturbed, for every address, source, password, stamps and rows: the verdict of a login and every row left |
| LoginAlone.ALoginIsChallengedIff | internal/auth/authenticator.go:102-175 | challenged iff neither source nor address is locked and an active operator holds the address under a readable hash of the password; as that operator, with the address cleared |
| AccessLinkRuns.EveryRunKeepsTheInvariant | internal/bff/access.go:14-67 | every interleaving keeps: histories fit, a token is spent once, stored hashes replay the journal, slots are counted |
| AccessLinkRuns.ATokenSetsOnePassword | internal/store/access_links.go:189-239 | two requests that set a password with one token, answered or not, are the same request |
| AccessLinkRuns.TheAnswerTellsWhatWasSet | internal/bff/access.go:55-66 | a 204 means the password was set, and nothing but a 204 or an error follows a password that was set |
| AccessLinkRuns.AStepTouchesItsOwnLinkOnly | internal/store/access_links.go:183-239 | in any interleaving a step changes links and hashes iff its consumption finds its link before the deadline with an active operator: its own row goes, that operator's hash is set |
| AccessLinkRuns.ATokenIsReadAsValidIff | internal/store/access_links.go:168-181 | a token is read as valid iff its link is there, before its deadline, and its operator active |
| AccessLinkRuns.AFailedStatementEnds | internal/bff/access.go:24-64 | wherever a statement fails its effect is there whole or not at all, and the request ends with the error; a hash that fails gives its slot back |
| AccessLinkRuns.AnOperatorHasOneLink | internal/store/access_links.go:60-76 | in every run an operator has at most one link that stands: a new request voids the one before |
| AccessLinkRuns.StoredHashesComeFromLinks | internal/store/access_links.go:211-214 | after any run the stored hashes are the initial ones overwritten by the consumptions, in order |
| AccessLinkRuns.EveryHashFollowsAValidToken | internal/bff/access.go:12-45 | a hash is computed once per request, after its token was read as valid, of a password the policy lets through |
| AccessLinkRuns.SlotsAreNeverLost | internal/auth/argon2.go:131-143 | success, failure and cancellation all leave the slots equal to the hashes in flight, at most ten |
| AccessLinkAlone.AUseAlone | internal/bff/access.go:14-67 | undisturbed, for every presented value, password, stamps and rows: the verdict of a use and every row left |
| AccessLinkAlone.APasswordIsSetIff | internal/bff/access.go:14-67 | a password is set iff it is sized and strong and the link is there, in time when read and when consumed, with an active operator; then the link is gone and the password set, else nothing changed |
| Base64.DecodeInvertsEncode | internal/auth/argon2.go:269-275 | both readers give back what was encoded, for every sequence of octets |
| Base64.PackInvertsStrictUnpack | internal/auth/authenticator.go:250-252 | strict reading accepts no sextets but those the encoder writes |
| Base64.UnpackAcceptsIff | internal/auth/argon2.go:306-318 | sextets are accepted iff no lone one is left and, strictly, no bit is left over |
| Base64.StrictDecodesIff | internal/auth/authenticator.go:253-257 | a text denotes octets strictly iff, line breaks dropped, it is their encoding |
| Challenge.EveryIssuedChallengeIsAccepted | internal/auth/authenticator.go:207-241 | every drawn token is issued with the digest its challenge reads as; the encoding error is unreachable |
| Challenge.AcceptedIff | internal/auth/authenticator.go:253-262 | accepted iff, line breaks dropped, forty-three URL symbols whose last carries no spare bit |
| Challenge.SameTokenIff | internal/auth/authenticator.go:250-252 | two accepted strings carry one token iff they agree once line breaks are dropped |
| Challenge.BijectionWithoutLineBreaks | internal/auth/authenticator.go:243-262 | without line breaks the accepted strings and the tokens are in bijection |
| Challenge.ALineFeedMakesAnotherSpelling | internal/auth/authenticator.go:250-252 | with them they are not: every accepted string has another accepted for the same row |
| Text.DecimalIff | internal/auth/argon2.go:260-262 | the text of a number is its one decimal spelling without a needless zero |
| Text.SplitInvertsJoin | internal/auth/argon2.go:277-282 | fields without the separator are what splitting their join gives back |
| Text.JoinInvertsSplit | internal/auth/argon2.go:277-282 | joining the fields of any text gives the text back |
| Phc.ScanInvertsFormat | internal/auth/argon2.go:292-295 | the lenient scan reads back the printed form of any parameters that fit their widths |
| Phc.ANumberIsScannedIff | internal/auth/argon2.go:292-295 | a number is scanned iff blanks without a newline and digits of a fitting value stand there; what follows is left |
| Phc.WithinBoundsIff | internal/auth/argon2.go:226-255 | costs are accepted iff 1 to 16 passes, at least one lane, and 1 KiB to 1 GiB of memory |
| Phc.ParamsAreReadIff | internal/auth/argon2.go:292-304 | scan, print-back and bounds accept a field as `p` iff it is the printed form of `p` and `p` is in bounds |
| Phc.FieldsAreReadIff | internal/auth/argon2.go:277-325 | exactly which six fields decode to which parameters, salt and key |
| Phc.WhyFieldsAreRefused | internal/auth/argon2.go:277-325 | the reason of each refusal, the first thing wrong from left to right |
| Phc.ParseInvertsPrint | internal/auth/argon2.go:269-325 | a printed hash decodes to exactly its triple iff the triple is within all bounds, and to nothing else |
| Phc.WhatIsReadIsPlausible | internal/auth/argon2.go:297-324 | whatever decodes is in bounds, and its printed form decodes to the same triple |
| Phc.ReadsAsItWasPrintedIff | internal/auth/argon2.go:306-318 | a decoded string is the printed form iff both base64 fields are canonical |
| Phc.AHashVerifiesUnderItsOwnCost | internal/auth/argon2.go:105-187 | a produced hash accepts its own secret whatever cost is current later, and another secret iff both derive the same key; it is produced iff the cost is valid |
| Source.FirstUntrustedHop | internal/auth/source.go:109-150 | the nested loop returns what the list of the first sixteen fields, right to left, designates, and reads at most sixteen |
| Source.CutsAreTheFields | internal/auth/source.go:113-134 | cutting at the last comma yields the fields of the line reversed, an empty leftmost one dropped |
| Source.WalkFindsIff | internal/auth/source.go:109-150 | an address is found iff it is that of a foreign hop all of whose followers are read and ours |
| Source.WhatStandsLeftDoesNotMatter | internal/auth/source.go:85-88 | once a hop is found, earlier lines and fields further left change nothing |
| Source.TrustedIffOurs | internal/auth/source.go:173-182 | an address is trusted iff some network has its family, no zone, and its leading bits, bit by bit, an IPv4 inside IPv6 read as IPv4 |
| Source.ClientAddress | internal/auth/source.go:89-107 | the address that one of the first sixteen fields, from the right, reads as, foreign and followed by ours only, iff the peer is ours and there is one; the peer without zone otherwise; the two errors, each exactly then |
| Source.WhatTheClientWritesDoesNotMatter | internal/auth/source.go:74-107 | text prepended to a header leaves the client unchanged, unless our proxies designate nobody |
| Source.SameScopeIff | internal/auth/source.go:49-64 | two addresses are counted under one scope iff they are one IPv4, inside IPv6 or not, or IPv6 of the same leading sixty-four bits |
| Source.TheScopeIs | internal/auth/source.go:51-64 | the text of a scope: unread as it is, an IPv4 as itself, an IPv6 as its leading sixty-four bits |
| Relay.Fields.Text | internal/store/audit.go:32-49 | a field is set in place on the shared map, or in a new one when there was none |
| Relay.AuditRelayed | internal/bff/relay.go:67-104 | the rows written, the call made iff the intent was acknowledged, and the gateway's own status and error returned whatever became of the second write |
| Relay.FieldErrors | internal/bff/relay.go:50-61 | the field errors are copied in order, or absent when there is none |
| Relay.WhatTheRowsSay | internal/bff/relay.go:67-95 | intent and outcome, key by key: the target the reply named, what it added over what the caller gave, "succeeded" iff no error and a status in the 200s, and the status in decimal iff there was one |
| Relay.WhichRowsAreLeft | internal/bff/relay.go:67-104 | none, the intent, or both, each iff the two writes answered, or failed after their effect, accordingly |
| Relay.AsIff | internal/bff/relay.go:23-27 | the answer of the gateway is the first of the tree of errors, before the ones it wraps, left to right |
| Relay.RelayedIff | internal/bff/relay.go:15-48 | which failures are relayed and as what: never 401, 403 or 429, a 503 without upstream text, other client errors with their status, code, message and fields |
| Relay.ARefusalIsServedIff | internal/bff/relay.go:106-115 | a refusal is served iff the error is relayed and nowhere says that the intent was not traced |
| Relay.TheGatewayAnswersForItsCallsOnly | internal/bff/relay.go:106-115 | an untraced intent is never served in the gateway's name, whatever error it wraps |
| RelayRuns.EveryRunKeepsTheInvariant | internal/bff/relay.go:67-104 | every interleaving with failures and crashes keeps each action's effects a prefix of intent, call, outcome |
| RelayRuns.EveryCallFollowsItsIntent | internal/bff/relay.go:79-84 | each call follows a durable "attempted" row of its own action |
| RelayRuns.AnOutcomeIsTheOnlyOne | internal/bff/relay.go:86-101 | each action has at most one outcome row, after its call, true to the reply |
| RelayRuns.TheAnswerIsTheGateways | internal/bff/relay.go:97-104 | a finished action whose call left returns the gateway's status and error; a refusal in the gateway's name says the call left |
| RelayRuns.TheRowsOfAnAction | internal/bff/relay.go:67-74 | wherever the run stopped, the rows are none, the intent, or intent and outcome in that order |
| RelayRuns.AnActionAlone | internal/bff/relay.go:67-104 | an action that nothing stops leaves the rows of its two writes, calls iff the intent is acknowledged, and ends with the gateway's reply or with what the intent failed on |
| StrictChain.WritePendingCookie | internal/bff/session.go:36-58 | the last cookie posted is set iff the handler returned no error |
| StrictChain.RequirePermission | internal/bff/guard.go:172-236 | refusals, audit entry, failures and the call of the handler, branch by branch |
| StrictChain.Serve | internal/bff/bff.gen.go:10673-10696 | everything one exchange shows, in order, as a function of table, session, handler and faults |
| StrictChain.TheLayersTell | internal/bff/guard.go:172-236 | what the nested layers show is the direct account of the exchange: each refusal, denial, failure and answer with its status |
| StrictChain.WhoIsToldWhat | internal/bff/guard.go:174-211 | 401 iff the session is not alive, 403 for the second factor iff it is alive and not elevated, 403 undecided iff the table has no rule; the handler's own status iff it ran and answered without error |
| StrictChain.OneStatusIff | internal/bff/guard.go:157-171 | exactly one status, but for a handler that returns nothing and a response that fails while written |
| StrictChain.RunsIff | internal/bff/guard.go:174-233 | the handler runs iff exempt, or alive, elevated and holding the key, in the name of that operator with the grants read |
| StrictChain.ADenialIsAuditedFirst | internal/bff/guard.go:213-230 | a 403 for a missing key follows the entry that names the operator and the operation |
| StrictChain.ACookieNeedsANilError | internal/bff/session.go:25-49 | a cookie only after a nil error, before any status, and beside a failure iff the response was of another type or failed while written |
| StrictChain.A401SpeaksOfTheSession | internal/bff/router.go:215-243 | a 401 comes from a session that is not alive or from the handler's own answer, never from an error |
| Validation.RefusedFieldsOf | internal/bff/validation.go:83-119 | the recursion returns the fields of the leaves in order, each under its nearest enclosing parameter |
| Validation.LocatedFields | internal/bff/validation.go:160-180 | each name under the dotted location, or under the parameter, or alone |
| Validation.NamedFields | internal/bff/validation.go:195-204 | the non-empty fields, in order, with the rule |
| Validation.NestingDoesNotMatter | internal/bff/validation.go:89-95 | trees that differ in how their lists are nested refuse the same fields in the same order |
| Validation.ListedNamesAreRead | internal/bff/validation.go:125-180 | a reason that lists names, missing or not allowed, singular or plural, with or without an opening, yields them in order under the dotted pointer or the parameter |
| Validation.TheFirstNameIsRead | internal/bff/validation.go:151-158 | on any text, the names are those of the leftmost match and of what follows it |
| Validation.LocatedIff | internal/bff/validation.go:120-131 | a reason is located iff it is written as the validator writes one, on one line, and as what it says |
| Validation.ABoundIsRead | internal/bff/validation.go:132-193 | a reason that lists no names refuses the dotted pointer, or the parameter at the root, under the rule its failure starts with |
| Validation.AnotherReasonIsMalformed | internal/bff/validation.go:132-136 | any other reason refuses the parameter it stands under, without a rule |
| Literals.ReadBackIff | cmd/permissionsgen/main.go:80-86 | a quoted value reads as itself iff it holds none of the four refused characters, whatever follows it |
| Permissions.WriteUnion | cmd/permissionsgen/main.go:153-161 | one member a line is appended, nothing else |
| Permissions.WriteDescription | cmd/permissionsgen/main.go:201-212 | the description is appended in one line or two |
| Permissions.WriteEntry | cmd/permissionsgen/main.go:163-195 | an entry is appended whole, or the first fault is returned and nothing is written |
| Permissions.Render | cmd/permissionsgen/main.go:114-144 | the whole module, or the first fault in the order of entries and fields |
| PermissionsReader.RefusesIff | cmd/permissionsgen/main.go:173-186 | a catalogue is refused iff some field of some entry holds a refused character |
| PermissionsReader.TheFirstFaultIsNamed | cmd/permissionsgen/main.go:173-186 | the refusal names the first entry at fault |
| PermissionsReader.TheModuleReadsBackIff | cmd/permissionsgen/main.go:114-144 | for every catalogue and every list of categories, the text reads back to the same keys, categories and entries iff no field and no category holds a refused character |
| Permissions.Categories | internal/permissions/permissions.go:34-44 | the categories of a catalogue, each where it first appears |
| PermissionsReader.CategoriesAppearInOrder | internal/permissions/permissions.go:31-33 | they are distinct, and each shows up before the next one first does |
| PermissionsReader.AnAcceptedCatalogueReadsBack | cmd/permissionsgen/main.go:42-46 | with those categories, everything that is printed reads back |
| PermissionsReader.TheOneLineFormIff | cmd/permissionsgen/main.go:197-212 | the one-line form is used iff its line is at most a hundred code points |
| Patterns.APatternIsReadIff | cmd/zodgen/main.go:260-264 | the literal denotes the pattern iff it holds no escaped slash, line terminator, open class or lone backslash, whatever follows it |
| Floats.AFloatIsRead | cmd/zodgen/main.go:269-281 | every whole bound is read back from its plain or scientific form, with its sign |
| ZodReader.TheExpressionReadsBack | cmd/zodgen/main.go:196-303 | text and tree are refused alike, and the text of any property, at any depth of array, reads back as its tree iff its patterns can be carried and compiled |
| ZodMeaning.NarrowerIff | cmd/zodgen/main.go:203-303 | on every value whatever, what the schema takes is refused by the validator iff a string has more code units than its maximum or an integer is not safe, at any depth of array |
| ZodMeaning.NeverNarrower | cmd/zodgen/main.go:203-303 | an ordinary value that satisfies the schema is accepted by the validator, whatever keywords were dropped |
| ZodMeaning.AcceptsItsTypeOnly | cmd/zodgen/main.go:196-202 | no validator accepts a value outside the enumeration or of another type than the schema's one |
| ZodMeaning.ExactIff | cmd/zodgen/main.go:203-281 | the validator means the schema on every ordinary value iff the schema meets a condition read keyword by keyword, for every schema that is rendered |
| ZodTrivial.TrivialIff | cmd/zodgen/main.go:235-240 | a schema holds of every ordinary value iff no keyword of it, at any depth, asks for anything |
| ZodMeaning.ADeclaredPropertyIsDropped | cmd/zodgen/main.go:235-240 | an object that declares a property and lets others through is rendered as a record, which accepts what the schema refuses |
| ZodMeaning.AMinimumOfItemsIsDropped | cmd/zodgen/main.go:222-233 | the contract's list of scopes: an empty one is accepted by the validator and refused by the schema |
| ZodMeaning.AnAstralStringIsRefused | cmd/zodgen/main.go:249-258 | an instance off the basic plane: one code point, two code units, a maximum of one |
| ZodMeaning.InhabitedIff | cmd/zodgen/main.go:203-281 | a validator accepts some ordinary value iff its bounds leave room, a listed value is ordinary, or, under a pattern, a text of a fitting length matches |
| Schemas.LengthsAgreeIff | cmd/zodgen/main.go:249-258 | code units and code points agree on the basic plane and there only |
| Names.SortStrings | cmd/zodgen/main.go:116-176 | distinct names are put in ascending order, none lost or added |
| Names.SortedWhateverTheOrder | cmd/zodgen/main.go:97-116 | however they were enumerated, the ascending list of a set of names is one |
| ZodModule.WriteSchema | cmd/zodgen/main.go:163-194 | the declaration with its fields ascending, or the first refusal in that order, whatever order the properties came in |
| ZodModule.RequestBodySchemas | cmd/zodgen/main.go:127-161 | every name a JSON body refers to, with a schema some body resolves it to, and no other |
| ZodModule.Render | cmd/zodgen/main.go:97-125 | the module is a function of the collected schemas: declarations ascending, or the first refusal |
| ZodRefusals.RenderedIff | cmd/zodgen/main.go:196-303 | a property is rendered, as tree and as text, iff its keywords allow it, and refused for the reason they give: no schema, a listed value that is no string or cannot be quoted, a type without an expression, at any depth of array |
| ZodRefusals.NoRefusal | cmd/zodgen/main.go:97-125 | nothing is refused iff every property of every body can be rendered, read off its keywords |
| ZodRefusals.ADocumentIsRenderedIff | cmd/zodgen/main.go:97-191 | a document is rendered iff every property of every body it refers to can be; otherwise the refusal names the least such field of the least such body, and why |
| ZodModule.ABodyIsReferredToIff | cmd/zodgen/main.go:127-161 | a body is referred to iff some operation names it under the schemas of the components |
| ZodModule.TheOrderDoesNotMatter | cmd/zodgen/main.go:97-191 | two enumerations of one coherent document render the same text or the same first refusal |
| ZodBodies.TheModuleReadsBackIff | cmd/zodgen/main.go:104-194 | the module reads back to one declaration per body, in order, with the trees of its fields, iff every field name stands for a key without quotes, every body name can be bound beside the import and every pattern can be carried and compiled |
| ZodBodies.AFieldThatIsNotWritable | cmd/zodgen/main.go:180-188 | a property whose name needs quotes or sets the prototype, or whose pattern cannot be carried or compiled, is printed and the module not read back |
| ZodBodies.ANameThatIsNotBound | cmd/zodgen/main.go:163-164 | so is a body with a name that is reserved, no identifier, or the imported one |
| ZodBodies.TheImportIsBoundTwice | cmd/zodgen/main.go:94-95 | a body named `z` is rendered without a refusal and not read back |
| ZodBodies.ThePrototypeIsNoField | cmd/zodgen/main.go:180-188 | a property named `__proto__` is rendered without a refusal and not read back |
| ZodObjects.AcceptsIff | cmd/zodgen/main.go:166-191 | a declaration accepts a body iff each declared name is absent and optional or accepted by its own validator |
| ZodObjects.ABodyIsRefusedAloneIff | cmd/zodgen/main.go:163-194 | a body the contract accepts is refused by the form iff a value of a declared key is a string too long in code units or an integer that is not safe, at any depth of array |
| ZodObjects.ABodyIsNeverRefusedAlone | cmd/zodgen/main.go:163-194 | an ordinary body the contract accepts is accepted by the form |
| ZodObjects.ExactBodyIff | cmd/zodgen/main.go:163-194 | on every ordinary body the validator means the schema iff the schema lists no values, closes no keys, declares its required names, covers its minimum of keys by them and has exact properties; or a required property has a validator that accepts nothing, read off its keywords unless it has a pattern, where it is the absence of a matching text |
| ZodObjects.AnUnknownKeyIsLetThrough | cmd/zodgen/main.go:163-194 | a closed schema refuses an undeclared key, its validator does not |
| ZodObjects.TheTextMeansTheContract | cmd/zodgen/main.go:97-194 | end to end: the rendered text reads back as validators that accept what the contract accepts, and nothing else within the exact fragment |

## Left out

- PostgreSQL, HTTP, WebSocket, mail and process plumbing: statements are atomic steps, requests arrive and end.
- argon2, SHA-256, HMAC, randomness and constant-time comparison: functions or choices of the run; nothing is said about durations.
- The WebAuthn ceremonies, the TOTP window and the matching of recovery codes: their verdict is chosen by the run.
- The delivery queue of access links (retries, delays, mail) and the factors, sessions and locks that a reset clears: a sent link is one step here, and the clearing is a step of the environment in the two factor protocols.
- The text of IP addresses, `normalizeEmail`, Unicode case folding and the French messages: library behaviour or copy; a rule or a reason stands for its message.
- The relayed routes themselves (accounts, credentials, customers, groups, senders, webhooks, metrics): one pattern over `auditRelayed`.
- Zod on a body that is no object, and bounds that are not whole or not safe integers.
- The keywords const, multipleOf, exclusiveMinimum, exclusiveMaximum, uniqueItems, contains, maxProperties, dependentRequired, allOf, anyOf, oneOf, not, patternProperties, additionalProperties given as a schema, and format: zodgen does not read them.
- The dialect of regular expressions: a pattern that both sides compile is taken to match the same strings on both.
- What a JavaScript object inherits: a validator is taken to read the own keys of a body, also where a property is named like a member that every object inherits (`toString`, `constructor`).
- Property names that the language reads without quotes though they start with a digit or hold a letter outside ASCII: the reader takes them as needing quotes.
- The reflow that Biome applies to the generated files: the readers skip blanks between tokens, so that it changes nothing they read.
- Relay.Fields.Text: the values are texts; flags and numbers are set the same way.
