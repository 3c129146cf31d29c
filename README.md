# Calendar scheduling core, modelled in Dafny

This project models the logic of a personal calendar web application
(aminethecode/sb1-e18r4r, TypeScript) and proves properties of the model.
It covers seven files:

- `src/utils/eventOverlap.ts`: the overlap test between a new event and the
  stored events.
- `src/utils/nextAvailableTime.ts`: the search for the next free slot of a
  given length inside working hours, day by day, with a fallback.
- `src/store/calendarStore.ts`: the event store. It holds ownership-guarded
  add, update and delete, month and year navigation, and the persistence
  codec that turns dates into ISO-8601 text and back.
- `src/store/usersStore.ts`: the user table with add, find by email and
  update by email.
- `src/store/authStore.ts`: the session. It covers login, register, logout,
  change password, request a password reset and reset the password.
- `src/utils/passwordValidation.ts`: the password policy, its messages and
  the 0-8 strength score.
- `src/utils/icsGenerator.ts`: the iCalendar text for one event and for a
  whole calendar, with text escaping and `yyyyMMdd'T'HHmmss'Z'` stamps.

## Layout

- `Wrappers.dfy`: `Option` and `Result`.
- `Time.dfy`: a `Date` as milliseconds since the epoch, read in a fixed
  local offset `zone`. It gives the date-fns and `Date` helpers the source
  uses: `getHours`, `getMinutes`, `startOfDay`, `isSameDay`, `setHours`,
  `setMinutes`, `addMinutes` and `addDays`.
- `Civil.dfy`: the proleptic Gregorian calendar (day number to
  year/month/day and back).
- `Decimal.dfy`: zero-padded decimal digits.
- `IsoDate.dfy`: `toISOString`, and its parser restricted to that shape.
- `CalendarTypes.dfy`: `Event` and the data of a new event.
- The remaining files follow the seven source files, one module each:
  `EventOverlap`, `NextAvailableTime`, `CalendarStore`, `UsersStore`,
  `AuthStore`, `PasswordValidation` and `IcsGenerator`.

The source has three kinds of code, and the model keeps each form:

- Pure computations are `function`s with lemmas about them.
- The search's nested loops are `method`s with loop invariants.
- Each zustand store is a `class` whose methods reassign its fields. Every
  action that changes the event list, the user table or the outcome of a
  login, registration, password change or reset is also given as a pure
  transition function, and the class methods are proved equal to those
  functions. `SetSelectedDate` and `Logout` only assign their fields and have
  no such function.

The clock (`new Date()`, `Date.now()`), `crypto.randomUUID()`, the random
reset token and the outcome of sending the reset email are all parameters.

Behaviour of the code that the model keeps and that is easy to miss:

- **Rounding "now" on the current day.** This uses `Math.ceil(minutes / 30) * 30`.
  - Minute 0 stays at :00; it is not pushed to :30.
  - Minutes 1-30 round to :30 and minutes 31-59 to the next hour.
- **A day given up on.** The search moves to the same wall-clock time one day
  later (`addDays`). The day's first candidate is then recomputed from
  `startOfDay`.
- **`updateEvent`.** It stores the record it is given, including that
  record's `userId`. It does not keep the stored owner, so an update that
  carries another owner (or none) orphans the event
  (`UpdateWithoutOwnerOrphans`).
- **`addEvent`.** It returns nothing.
- **Unreachable +30 step.** The free-slot check after the inner loop is only
  reached with an hour before `endHour`. The "+30 minutes" step is therefore
  never taken, and the model marks that branch as unreachable.
- **`isNextDay` and the anchor day.** The source sets `isNextDay` from the
  number of days examined, not from the day the slot lies on. The day's scan
  is bounded only by the hour, so a candidate can leave the day it was
  searched for and still be returned. Two inputs show it: an event that runs
  past midnight makes the jump land in the small hours of the next day, and
  a clock at 23:40 rounds up to 00:00 of the next day. Either way the slot is
  not flagged `isNextDay`, though it lies on the following day (see
  "## Findings").
- **The two-numbers message.** The `[0-9]` pattern of the password schema
  carries the message "at least two numbers". A password without any digit
  therefore gets that message twice (`TwoNumbersMessageCount`).

## Model

| member | source | states |
|---|---|---|
| EventOverlap.Overlaps | src/utils/eventOverlap.ts:10-14 | specified by `OverlapsIffIntersect` and `TouchingIsNotOverlap` |
| EventOverlap.OverlapsIffIntersect | src/utils/eventOverlap.ts:10-14 | for proper intervals the three-clause test holds exactly when the intervals share an instant (`newStart < existingEnd && existingStart < newEnd`) |
| EventOverlap.TouchingIsNotOverlap | src/utils/eventOverlap.ts:10-14 | intervals that only touch at an endpoint do not overlap |
| EventOverlap.SameIntervalOverlaps | src/utils/eventOverlap.ts:10-14 | example: an interval overlaps itself |
| EventOverlap.CheckEventOverlap | src/utils/eventOverlap.ts:3-16 | the conflicts are never more than the existing events |
| EventOverlap.CheckEventOverlapCounts | src/utils/eventOverlap.ts:3-16 | each event occurs among the conflicts exactly as often as in the input when it overlaps the new event, and not at all otherwise |
| EventOverlap.CheckEventOverlapMembers | src/utils/eventOverlap.ts:3-16 | an event is a conflict iff it is an existing event that overlaps the new one |
| EventOverlap.CheckEventOverlapConcat | src/utils/eventOverlap.ts:4 | filtering keeps input order: the conflicts of `a + b` are those of `a` followed by those of `b` |
| EventOverlap.CheckSingle | src/utils/eventOverlap.ts:4-15 | a single event is returned exactly when it overlaps |
| EventOverlap.NoExistingNoConflicts | src/utils/eventOverlap.ts:4 | example: no stored events, no conflicts |
| NextAvailableTime.InsertByStart | src/utils/nextAvailableTime.ts:24 | inserting into a start-sorted list gives a start-sorted permutation of the list plus the event |
| NextAvailableTime.SortByStart | src/utils/nextAvailableTime.ts:24 | the day's events sorted by start: sorted and a permutation of the input |
| NextAvailableTime.SortByStartMembers | src/utils/nextAvailableTime.ts:24 | sorting keeps exactly the same events |
| NextAvailableTime.EventsOnDay | src/utils/nextAvailableTime.ts:22-23 | an event is kept iff it starts on the given local day |
| NextAvailableTime.RoundUpToHalfHour | src/utils/nextAvailableTime.ts:32-33 | minute 0 stays 0, minutes 1-30 become 30, minutes 31-59 become 60 |
| NextAvailableTime.FirstCandidateAtStartHour | src/utils/nextAvailableTime.ts:27-31 | on another day, or before the start hour today, the first candidate is the day's `startHour:00` |
| NextAvailableTime.FirstCandidateToday | src/utils/nextAvailableTime.ts:29-35 | today, after the start hour, the first candidate is on the same day at the current hour, with the rounded minutes and the anchor's seconds |
| NextAvailableTime.JumpBlocks | src/utils/nextAvailableTime.ts:44-51 | every start between a conflicting candidate and the end of the event it conflicts with also conflicts with that event, so jumping to the event's end skips no free slot |
| NextAvailableTime.ConflictEndsLater | src/utils/nextAvailableTime.ts:44-50 | the event a candidate conflicts with ends after the candidate, so each jump moves forward |
| NextAvailableTime.CountEndingAfterMonotone | src/utils/nextAvailableTime.ts:38-68 | fewer events end after a later time |
| NextAvailableTime.CountEndingAfterDrops | src/utils/nextAvailableTime.ts:49-50 | jumping to the end of an event that ends after the candidate strictly lowers the number of events ending after the candidate, which bounds the inner loop |
| NextAvailableTime.FirstCandidate | src/utils/nextAvailableTime.ts:27-35 | specified by `FirstCandidateAtStartHour` and `FirstCandidateToday` |
| NextAvailableTime.ZeroLengthEventStalls | src/utils/nextAvailableTime.ts:44-50 | a zero-length event at the candidate conflicts with it, and the jump to its end leaves the candidate where it was |
| NextAvailableTime.ScanDay | src/utils/nextAvailableTime.ts:38-68 | one day of the search either finds a free candidate before `endHour` that no earlier start from the first candidate improves on, or stops at an hour `>= endHour` with every start in between conflicting; a scan bounded to a day also stops once the candidate leaves that day, and a slot it finds lies on that day |
| NextAvailableTime.FindNextAvailableTime | src/utils/nextAvailableTime.ts:9-80 | every day before the chosen one was exhausted; if a slot was found within `maxDays` it is free against the events of the day examined, its hour is before `endHour`, no start between that day's first candidate and it is free, and `isNextDay` iff at least one day was given up on before it; otherwise the fallback is `startHour` on the day after the anchor with `isNextDay` true; a slot not flagged `isNextDay` is at or after the anchor day's first candidate, but it may lie past midnight |
| NextAvailableTime.MidnightSpill | src/utils/nextAvailableTime.ts:29-35 | with the anchor and the clock at 23:40 and no events, the slot found is on the next local day and is not flagged `isNextDay` |
| NextAvailableTime.FindNextAvailableTimeWithinDay | src/utils/nextAvailableTime.ts:9-80 | the search with each day's scan bounded to that day: everything `FindNextAvailableTime` states, and a found slot lies on the day examined, so a slot not flagged `isNextDay` is on the anchor day |
| Time.IsSameDay | src/utils/nextAvailableTime.ts:23 | specified by `EventsOnDay`, `FirstCandidateAtStartHour` and `FirstCandidateToday`: the same local day number in the fixed offset |
| Time.MinuteOf | src/utils/nextAvailableTime.ts:32 | `getMinutes` lies in 0..59 |
| Time.AddMinutes | src/utils/nextAvailableTime.ts:39 | specified by `JumpBlocks` and `ConflictEndsLater`, which use it for the slot's end |
| Time.HourOf | src/utils/nextAvailableTime.ts:38 | `getHours` lies in 0..23 and names the local hour that contains the time |
| Time.StartOfDay | src/utils/nextAvailableTime.ts:27 | local midnight of the same day, at or before the time and less than a day before it |
| Time.AddDays | src/utils/nextAvailableTime.ts:71 | the same local time of day, `n` local days later |
| Time.SetHours | src/utils/nextAvailableTime.ts:27 | for an hour 0..23 the result is on the same local day with that hour, and minutes and seconds are kept |
| Time.SetMinutes | src/utils/nextAvailableTime.ts:34 | for a minute 0..59 the result is on the same local day and hour with that minute, and seconds are kept |
| CalendarStore.AddOwned | src/store/calendarStore.ts:13-24 | signed out: no change; signed in: the old events followed by the new one, carrying the fresh id, the current user, and the given title, start, end, description, attendees and location |
| CalendarStore.ReplaceOwned | src/store/calendarStore.ts:25-37 | same length; an event with the updated id owned by the current user is replaced, and every other event is unchanged |
| CalendarStore.KeepNotOwned | src/store/calendarStore.ts:44-46 | keeps exactly the events that are not the given id owned by the given user |
| CalendarStore.DeleteOwned | src/store/calendarStore.ts:38-48 | signed out: no change; signed in: the events kept by the ownership filter `KeepNotOwned`, in order, so exactly the user's events with that id are removed |
| CalendarStore.KeepNotOwnedConcat | src/store/calendarStore.ts:44-46 | the filter keeps input order |
| CalendarStore.KeepNotOwnedNothingOwned | src/store/calendarStore.ts:44-46 | deleting an id the user does not own is a no-op |
| CalendarStore.KeepNotOwnedDistinct | src/store/calendarStore.ts:44-46 | filtering keeps ids distinct |
| CalendarStore.SignedOutChangesNothing | src/store/calendarStore.ts:15-16 | without a signed-in user, add, update and delete leave the events unchanged |
| CalendarStore.AddKeepsDistinctIds | src/store/calendarStore.ts:13-24 | with a fresh id, adding keeps event ids distinct |
| CalendarStore.AddThenDelete | src/store/calendarStore.ts:13-48 | deleting the just-added event restores the event list |
| CalendarStore.UpdateKeepsIds | src/store/calendarStore.ts:25-37 | an update keeps every position's id and keeps ids distinct |
| CalendarStore.UpdateNotOwnedChangesNothing | src/store/calendarStore.ts:31-35 | updating an id the user does not own changes nothing |
| CalendarStore.UpdateWithoutOwnerOrphans | src/store/calendarStore.ts:31-35 | an update that carries another owner stores it, after which the user can no longer update that event |
| CalendarStore.UpdateByOwnerThenDelete | src/store/calendarStore.ts:25-48 | the owner can delete the record they stored by update, and it is present after the update whenever the owner had an event with that id |
| CalendarStore.DeleteIdempotent | src/store/calendarStore.ts:38-48 | deleting twice equals deleting once |
| CalendarStore.DeleteKeepsDistinctIds | src/store/calendarStore.ts:38-48 | deleting keeps ids distinct |
| CalendarStore.MonthShift | src/store/calendarStore.ts:49-55 | `n` months later in year*12+month terms, with the day clamped to the new month's length |
| CalendarStore.AddMonths | src/store/calendarStore.ts:49-62 | `addMonths`/`addYears`: same time of day, and the date is the month-shifted date |
| CalendarStore.MonthIndexInjective | src/store/calendarStore.ts:49-55 | two valid dates with the same month index and day are equal |
| CalendarStore.AddMonthsInverse | src/store/calendarStore.ts:49-62 | for a day of month up to 28, going forward `n` months and back `n` months returns to the same instant |
| CalendarStore.EncodeEvents | src/store/calendarStore.ts:66-72 | one stored record per event, in order, with start and end as ISO text |
| CalendarStore.DecodeEvent | src/store/calendarStore.ts:73-81 | decoding succeeds iff both timestamps parse; the event then has the parsed start and end and the record's id, userId, title, description, attendees and location |
| CalendarStore.DecodeEvents | src/store/calendarStore.ts:73-81 | decoding succeeds iff every record decodes, and it decodes position by position |
| CalendarStore.DecodeEncodeEvent | src/store/calendarStore.ts:66-81 | one event survives persisting and rehydrating unchanged |
| CalendarStore.DecodeEncodeEvents | src/store/calendarStore.ts:66-81 | the event list survives persisting and rehydrating unchanged |
| IsoDate.FieldsOf | src/store/calendarStore.ts:69 | the UTC fields of a time value are valid and denote that time value |
| IsoDate.ToIsoString | src/store/calendarStore.ts:69-70 | `toISOString` text is 24 or 27 characters long and ends in 'Z' |
| IsoDate.ParseIsoString | src/store/calendarStore.ts:77-78 | specified by `ParseToIsoString`: the text `toISOString` writes parses back to the same time value |
| IsoDate.ParseToIsoString | src/store/calendarStore.ts:69-78 | `new Date(d.toISOString())` gives back the same time value, to the millisecond |
| CalendarStore.Store.constructor | src/store/calendarStore.ts:10-11 | no events, and the selected date is today |
| CalendarStore.Store.SetSelectedDate | src/store/calendarStore.ts:12 | sets the selected date and keeps the events |
| CalendarStore.Store.AddEvent | src/store/calendarStore.ts:13-24 | the events become `AddOwned` of the old events, and the selected date is kept |
| CalendarStore.Store.UpdateEvent | src/store/calendarStore.ts:25-37 | the events become `ReplaceOwned` of the old events |
| CalendarStore.Store.DeleteEvent | src/store/calendarStore.ts:38-48 | the events become `DeleteOwned` of the old events |
| CalendarStore.Store.NavigateMonth | src/store/calendarStore.ts:49-55 | the selected date moves one month forward or back, and the events are kept |
| CalendarStore.Store.NavigateYear | src/store/calendarStore.ts:56-62 | the selected date moves twelve months forward or back, and the events are kept |
| CalendarStore.Store.Partialize | src/store/calendarStore.ts:66-72 | the stored records encode the events and decode back to them |
| CalendarStore.Store.Rehydrate | src/store/calendarStore.ts:73-81 | loads the decoded events iff storage holds records that all decode, and otherwise keeps the events |
| UsersStore.Merge | src/store/usersStore.ts:24 | `{...user, ...updates}`: for each of the six fields, a value present in the patch wins (for the reset fields, also a present `undefined`), and an absent key keeps the user's value |
| UsersStore.MergeNoChange | src/store/usersStore.ts:24 | an empty patch changes nothing |
| UsersStore.Find | src/store/usersStore.ts:18-20 | None iff no user has the email; otherwise a stored user with that email |
| UsersStore.FindAt | src/store/usersStore.ts:19 | `find` returns the first user with the email |
| UsersStore.UpdateWhere | src/store/usersStore.ts:21-27 | same length; users with the email are merged with the patch, and the others are unchanged |
| UsersStore.AppendNewEmail | src/store/usersStore.ts:9-17 | appending a user with a new email keeps emails distinct, and that user is found by its email |
| UsersStore.UpdateKeepsEmails | src/store/usersStore.ts:21-27 | a patch without an email keeps every user's email, and so keeps emails distinct |
| UsersStore.FindAfterUpdate | src/store/usersStore.ts:18-27 | after an update by email, finding that email gives the merged user if it was present, and None if it was absent |
| UsersStore.Users.constructor | src/store/usersStore.ts:8 | the table starts empty |
| UsersStore.Users.AddUser | src/store/usersStore.ts:9-17 | the new user, with the fresh id, is appended |
| UsersStore.Users.FindUser | src/store/usersStore.ts:18-20 | returns `Find` of the table: a stored user with the email, or None |
| UsersStore.Users.UpdateUser | src/store/usersStore.ts:21-27 | the table becomes `UpdateWhere` of the old table |
| AuthStore.TryLogin | src/store/authStore.ts:12-21 | login never changes the user table |
| AuthStore.LoginSucceedsIff | src/store/authStore.ts:12-21 | with distinct emails, login succeeds iff a stored user has that email and password, and otherwise fails with "Invalid email or password" |
| AuthStore.TryRegister | src/store/authStore.ts:22-37 | specified by `RegisterOutcome`, `RegistrationNeverFails` and `RegisterThenLogin` |
| AuthStore.RegisterOutcome | src/store/authStore.ts:22-37 | register fails iff the email is taken, and then changes nothing; otherwise it appends the user without reset fields and signs in as that user |
| AuthStore.RegistrationNeverFails | src/store/authStore.ts:32-33 | the "Registration failed" error is unreachable |
| AuthStore.RegisterThenLogin | src/store/authStore.ts:12-37 | after registering a new email, emails stay distinct, the credentials log in, and a second registration is refused |
| AuthStore.TryChangePassword | src/store/authStore.ts:41-53 | specified by `ChangePasswordEffect` and `NewPasswordLogsIn` |
| AuthStore.ChangePasswordEffect | src/store/authStore.ts:41-53 | succeeds iff signed in with the right current password; failure changes nothing; after success the new password logs in, a different old one does not, other users are unchanged and emails stay distinct |
| AuthStore.NewPasswordLogsIn | src/store/authStore.ts:52 | after the password update the new password logs in and a different old one fails |
| AuthStore.TryRequestReset | src/store/authStore.ts:54-73 | specified by `RequestResetOutcome` and `AfterRequest` |
| AuthStore.RequestResetOutcome | src/store/authStore.ts:54-73 | succeeds iff the account exists and the email was sent; each failure gives its own error and changes nothing |
| AuthStore.AfterRequest | src/store/authStore.ts:60-69 | after a request the account holds the token and an expiry one hour after the request |
| AuthStore.ResetFlow | src/store/authStore.ts:54-97 | request then reset within the hour succeeds, the new password logs in, and replaying the token finds no token |
| AuthStore.TryResetPassword | src/store/authStore.ts:74-97 | specified by `ResetPasswordOutcome`, `ResetFlow`, `ResetAfterExpiry` and `ResetWithWrongToken` |
| AuthStore.ResetAfterExpiry | src/store/authStore.ts:88-90 | after the hour the right token is refused as expired and nothing changes |
| AuthStore.ResetWithWrongToken | src/store/authStore.ts:84-86 | a different token is refused and nothing changes |
| AuthStore.ResetPasswordOutcome | src/store/authStore.ts:74-97 | succeeds iff the account holds a token equal to the given one and the expiry has not passed; failure changes nothing |
| AuthStore.Auth.constructor | src/store/authStore.ts:10-11 | signed out, over a table with distinct emails |
| AuthStore.Auth.Login | src/store/authStore.ts:12-21 | matches `TryLogin`: on success the session holds the public user; on failure the session is kept |
| AuthStore.Auth.Register | src/store/authStore.ts:22-37 | matches `TryRegister` on the table and the session, and keeps emails distinct |
| AuthStore.Auth.Logout | src/store/authStore.ts:38-40 | no user and not authenticated |
| AuthStore.Auth.ChangePassword | src/store/authStore.ts:41-53 | matches `TryChangePassword` on the table and the result |
| AuthStore.Auth.RequestPasswordReset | src/store/authStore.ts:54-73 | matches `TryRequestReset` on the table and the result |
| AuthStore.Auth.ResetPassword | src/store/authStore.ts:74-97 | matches `TryResetPassword` on the table and the result |
| PasswordValidation.DigitCountPositive | src/utils/passwordValidation.ts:9-18 | a password has a digit iff its digit count is positive |
| PasswordValidation.ValidatePassword | src/utils/passwordValidation.ts:35-43 | a password under 12 characters gets the minimum-length message first |
| PasswordValidation.ValidateEmptyIff | src/utils/passwordValidation.ts:4-43 | no messages iff the password meets all seven rules |
| PasswordValidation.TwoNumbersMessageCount | src/utils/passwordValidation.ts:9-18 | the two-numbers message appears twice with no digit, once with one digit, and never otherwise |
| PasswordValidation.HasSequential | src/utils/passwordValidation.ts:19-25 | specified by `HasSequentialIff` |
| PasswordValidation.HasSequentialIff | src/utils/passwordValidation.ts:19-25 | the sequential rule fires iff the password holds three digits in a row stepping up by one from 1..7 or down by one from 9..3 (so 012 and 210 pass) |
| PasswordValidation.OnlyListedTriples | src/utils/passwordValidation.ts:19-25 | example: "0128900" has no listed triple |
| PasswordValidation.HasCommonWord | src/utils/passwordValidation.ts:26-33 | specified by `HasCommonWordIff` |
| PasswordValidation.HasCommonWordIff | src/utils/passwordValidation.ts:26-33 | the common-word rule fires iff some slice of the password, lowercased, is one of the four common words |
| PasswordValidation.CommonWordIgnoresCase | src/utils/passwordValidation.ts:26-33 | example: a password containing "PassWord" gets the common-words message |
| PasswordValidation.CommonDigitsAreSequential | src/utils/passwordValidation.ts:19-33 | a password containing "123456" already fails the sequential rule |
| PasswordValidation.TwoSpecialsMatchIff | src/utils/passwordValidation.ts:63 | `/[^A-Za-z0-9].*[^A-Za-z0-9]/` matches iff the password has at least two special characters (line terminators are special themselves, so `.` never stops the match) |
| PasswordValidation.StrengthScore | src/utils/passwordValidation.ts:50-64 | the score is at most 8, and the empty password scores 1 |
| PasswordValidation.GetPasswordStrength | src/utils/passwordValidation.ts:45-82 | the score is the strength score (0..8), with the label and colour of that score |
| PasswordValidation.StrengthChecks | src/utils/passwordValidation.ts:52-64 | the score is one point for each of the eight checks as the source writes them, including the regex test plus digit count and the two-specials pattern |
| PasswordValidation.LengthPoints | src/utils/passwordValidation.ts:53-54 | example: length gives 0, 1 or 2 points at the 12 and 16 thresholds |
| PasswordValidation.SecondSpecialPoint | src/utils/passwordValidation.ts:60-63 | appending a second special character gives two specials |
| PasswordValidation.EmptyPasswordIsWeak | src/utils/passwordValidation.ts:50-81 | the empty password scores 1, "Weak" |
| PasswordValidation.PolicyPasswordIsStrong | src/utils/passwordValidation.ts:45-82 | a password that meets the policy scores at least 6, "Very Strong" or better |
| IcsGenerator.ReplaceNewlines | src/utils/icsGenerator.ts:9 | no line feed is left |
| IcsGenerator.EscapeText | src/utils/icsGenerator.ts:8-10 | escaped text has no line feed |
| IcsGenerator.EscapeTextCons | src/utils/icsGenerator.ts:8-10 | escaping works character by character |
| IcsGenerator.UnescapeEscapeText | src/utils/icsGenerator.ts:8-10 | escaping is undone by unescaping, so no text is lost |
| IcsGenerator.EscapePlainText | src/utils/icsGenerator.ts:8-10 | text without `,`, `;`, `\` or line feed is unchanged |
| IcsGenerator.FormatICSDate | src/utils/icsGenerator.ts:4-6 | specified by `ParseFormatICSDate` and `LocalTimeLabelledUtc` |
| IcsGenerator.ParseStampText | src/utils/icsGenerator.ts:4-6 | for years of the era up to 9999 a stamp reads back as its date and time fields |
| IcsGenerator.ParseFormatICSDate | src/utils/icsGenerator.ts:4-6 | the stamp of an instant reads back as its local year, month, day, hour, minute and second |
| IcsGenerator.LocalTimeLabelledUtc | src/utils/icsGenerator.ts:4-6 | the stamp shows local wall-clock time but is labelled 'Z': it equals the UTC stamp of the instant shifted by the offset |
| IcsGenerator.NonEmptyConcat | src/utils/icsGenerator.ts:30 | `filter(Boolean)` keeps order across concatenation |
| IcsGenerator.JoinConcat | src/utils/icsGenerator.ts:30 | joining two non-empty lists is joining each with the separator between |
| IcsGenerator.VEventArrayFiltered | src/utils/icsGenerator.ts:19-28 | the filtered VEVENT array is the six fixed lines, then each optional line only when non-empty, then END:VEVENT |
| IcsGenerator.VEventLinesShape | src/utils/icsGenerator.ts:19-28 | an event's block holds UID with the domain, the stamps, the escaped summary and the optional lines in source order |
| IcsGenerator.OptionalLinesOmitted | src/utils/icsGenerator.ts:25-27 | DESCRIPTION, LOCATION and ATTENDEE are left out iff the field is absent or empty |
| IcsGenerator.VEventBeginCount | src/utils/icsGenerator.ts:19-28 | a block holds exactly one BEGIN:VEVENT line |
| IcsGenerator.GenerateICS | src/utils/icsGenerator.ts:12-33 | specified by `GenerateICSShape` |
| IcsGenerator.GenerateICSShape | src/utils/icsGenerator.ts:12-33 | the text is the CRLF join of the prolog, the event's block and END:VCALENDAR, and that line list holds exactly one BEGIN:VEVENT entry |
| IcsGenerator.VEventBlocks | src/utils/icsGenerator.ts:37-48 | one block per event, in input order |
| IcsGenerator.GenerateCalendarICS | src/utils/icsGenerator.ts:35-60 | specified by `GenerateCalendarICSShape` and `SingleEventCalendarICS` |
| IcsGenerator.GenerateCalendarICSShape | src/utils/icsGenerator.ts:35-60 | the text is the CRLF join of the six header lines, every event's block in order and END:VCALENDAR, and that line list holds one BEGIN:VEVENT entry per event |
| IcsGenerator.SingleEventCalendarICS | src/utils/icsGenerator.ts:35-60 | for one event the calendar differs from `generateICS` only by the two X-WR header lines |

## Left out

- Time zones are one fixed offset `zone` per call. Daylight-saving changes, where an offset differs between two dates, are not modelled.
- `new Date(text)` is modelled only for the two shapes `toISOString` writes. Any other text counts as an Invalid Date. `Rehydrate` then reports failure and keeps the events, where the source would store Invalid Dates.
- `toISOString` throws a RangeError beyond the `Date` range. The codec's `Instant` type excludes those values instead.
- Strings are sequences of characters, not UTF-16 code units. `toLowerCase` and the character classes are ASCII only.
- `downloadICS` and `downloadCalendarICS` (src/utils/icsGenerator.ts:62-86) are left out because they only create a Blob and click a link in the browser.
- The zustand `persist` middleware for the user and session stores is left out, as are the stores' `async` and `await`. Only the calendar store's `partialize` and `onRehydrateStorage` are modelled.
- `sendPasswordResetEmail` is the boolean parameter `emailSent`.
- The reset token, `crypto.randomUUID()` ids and the clock are parameters.
- `FindNextAvailableTime` reads `now` once per search, where the source reads `new Date()` once per day examined.
- `FindNextAvailableTime` requires `duration > 0` and `start < end` for every event. Without them the source can loop forever, because a zero-length jump never advances (`ZeroLengthEventStalls`).
- `GenerateICSShape`, `GenerateCalendarICSShape`: the BEGIN:VEVENT count is over the line list before joining. Attendees are joined with ',' and not escaped, so an attendee text holding a line feed and "BEGIN:VEVENT" adds a line to the joined text that the count does not see.
- `GenerateICS`, `GenerateCalendarICS`: lines are not folded at 75 octets, because the source does not fold them.
- `ResetPasswordOutcome`: a `NaN` expiry is not modelled; expiries are integers.
- `ParseStampText`, `ParseFormatICSDate`: shown to read back only for years of the era up to 9999. Wider years print more than four digits, so the fixed-width reader does not apply.
- `GetPasswordStrength` adds one point per check (`score := score + Point(check)`) instead of eight separate `if` statements. The sum is the same.
- `AddMonthsInverse` is stated only for days of the month up to 28. A longer day is clamped by a shorter month, so going forward and back need not return to it.

## Findings

| source | as written | input that shows it | evidently intended | confidence | as-written member | corrected member |
|---|---|---|---|---|---|---|
| src/utils/nextAvailableTime.ts:31-61 | the day's scan stops only on the hour, and `isNextDay` is `daysChecked > 0` | anchor and clock both at 23:40 with offset 0, no events, default hours: the rounded first candidate is 00:00 of the next day, free and before 17:00, so it is returned with `isNextDay` false | a slot not flagged `isNextDay` lies on the anchor day | not executed | NextAvailableTime.MidnightSpill | NextAvailableTime.FindNextAvailableTimeWithinDay |
