# Medicine reminder bot: the scheduling and dialogue core in Dafny

The bot is a Facebook Messenger chatbot. Users set up medicine reminders
with it. This project models the part of its single server file,
`index.js`, that decides what happens to the data and when:

- **Date helpers** (`addMinutes` … `addToDate`): the calendar arithmetic
  that computes a reminder's next fire time. A Date is a proleptic
  Gregorian civil record (year, month, day, milliseconds into the day) read
  in UTC. Its time value is days since 1970-01-01 times 86 400 000, plus the
  milliseconds. `setDate`/`setMonth` overflow the way ECMAScript's MakeDay
  does (module `Calendar`).
- **The two tables** `reminders` and `sessions`, their NULL columns and
  the messages handed to the Send API (module `Schema`).
- **The poller tick**. One query lists the due reminders; then, for each
  in turn, the next fire time is computed from the tick's clock reading,
  the row is updated and a notice is sent. An exception ends the tick, and
  the earlier updates and notices stand (module `Poller`, loop
  `Poller.RunPass`).
- **The reaper tick**: one bulk delete of the sessions created an hour or
  more ago (module `Reaper`).
- **`handleMessage`**. It picks the user's newest session or creates one.
  It then dispatches on the intent name the NLU returned: store a
  field, create the reminder, delete reminders, or abandon the dialogue.
  Finally it sends the reply. The model includes the period coercion
  `+number || 1` applied after `runSample`'s `toFixed(2)` (module
  `Dialogue`).
- **The database and the Send API as one object** (`Store.ReminderStore`).
  It has map fields for the tables and an outbox of sent messages. Its
  three entry points (`Poll`, `Reap`, `HandleMessage`) are proved equal to
  the pure transitions above.

Inputs that the program gets from outside are parameters:

- the clock reading `now`;
- the order in which a query returns rows;
- the answer of the NLU service;
- the fresh session UUID.

A recurring reminder might be expected to fire one period after its
previous fire time. The code instead adds the period to the poll's own
clock reading (`index.js:148`), so a late tick shifts the schedule.
`Poller.NextFire` does what the code does.

## Model

| member | source | states |
|---|---|---|
| Calendar.AddMinutesExact | index.js:13-17 | addMinutes moves the time value by exactly minutes × 60 000 ms and yields a valid Date |
| Calendar.AddHoursExact | index.js:18-20 | addHours moves the time value by exactly hours × 3 600 000 ms |
| Calendar.AddDaysShifts | index.js:21-25 | addDays (setDate overflow) is a shift by `days` calendar days, with month and year carry; the day number moves by `days` and the time of day is kept |
| Calendar.AddDaysAdditive | index.js:21-25 | addDays(addDays(t, a), b) = addDays(t, a + b) |
| Calendar.AddMonthsClamps | index.js:29-37 | addMonths lands in month m + k with year carry (floor division by 12), on the original day clamped to that month's length, at the same time of day |
| Calendar.AddYearsClamps | index.js:38-40 | addYears keeps month and time and clamps the day (Feb 29 becomes Feb 28) |
| Calendar.AddMonthsLater | index.js:29-37 | a positive number of months gives a strictly later Date |
| Calendar.JanuaryEndPlusMonth | index.js:29-37 | Jan 31 2023 plus one month is Feb 28 2023, not March 3 |
| Calendar.JanuaryThirtiethPlusMonthInLeapYear | index.js:29-37 | Jan 30 2024 plus one month is Feb 29 2024 |
| Calendar.AddToDateDispatch | index.js:41-54 | addToDate fails exactly for "weeks"; "hours" is 60 × minutes, "years" is 12 × months, and every other unit string is addDays |
| Calendar.AddToDateValid | index.js:41-54 | every Date addToDate returns is valid |
| Calendar.AddToDateLater | index.js:41-54 | a positive amount of any unit but "weeks" gives a strictly later Date |
| Calendar.WeeksAlwaysThrows | index.js:26-28 | as written, addToDate with "weeks" never yields a Date |
| Calendar.AddToDateIntendedCorrect | index.js:26-28 | the corrected dispatch agrees with addToDate on every other unit; "weeks" moves by exactly 7 days per week, and a positive amount is always later |
| Poller.PollPass | index.js:136-163 | a tick keeps the set of reminder ids and sends at most one notice per listed row |
| Poller.Reached | index.js:147-159 | the tick gets through the listed rows before the first one whose next fire time cannot be computed, and stops there |
| Poller.PollPassRows | index.js:147-152 | the rows the tick gets through get nextreminder = addToDate(now, period, unit); every other row is unchanged |
| Poller.PollPassSent | index.js:147-159 | the i-th notice goes to the owner of the i-th listed row and names the row's medicine and new next fire time; the tick completes iff it got through every listed row |
| Poller.RunPass | index.js:147-162 | the loop over the listed rows, with its early exit on an exception, computes exactly PollPass |
| Poller.PollPassIdle | index.js:139-146 | when nothing is due, the tick writes nothing and sends nothing |
| Poller.PollPassExactlyDue | index.js:139-159 | a completed tick advances exactly the due rows from `now` and notifies each owner once, in query order |
| Poller.PollPassStopsOnlyAtWeeks | index.js:147-162 | a tick that stops early stops at the first listed row whose unit is "weeks"; that row is left unchanged and so is still due |
| Poller.PollPassAllLater | index.js:139-159 | if every due row has a positive period and a unit other than "weeks", the tick completes and afterwards every row fires strictly after `now` |
| Poller.PollPassKeepsRowsOk | index.js:147-152 | a tick only stores valid Dates |
| Reaper.ReapedKeepsExactlyYoung | index.js:165-174 | after the delete no session with createdat <= now − 1 h is left, and every younger session is still there, unchanged |
| Reaper.ReapLaterSubsumes | index.js:165-174 | a later delete subsumes an earlier one, so repeating a delete at the same time removes nothing more |
| Reaper.StaleAfterAnHour | index.js:168-172 | a session created m minutes before `now` is deleted iff m >= 60 |
| Dialogue.NewestExists | index.js:256-275 | a user with at least one session has a newest one (the first row of the `createdat DESC` query) |
| Dialogue.OpenedCreatesOnlyWhenNone | index.js:263-275 | a new session row (NULL fields, created now) is added only when the user has none; it is then the user's only and newest session, and the reminders are untouched |
| Dialogue.UpdateIntentsTouchOnlySession | index.js:307-333 | the three field-update intents change only the current session row (same owner, same creation time), never the reminders, and reply once to the sender |
| Dialogue.SetReminderStoresFields | index.js:307-316 | "Set Medicine Reminder" stores medicine, unit and period, keeps the time, and replies with the NLU text; the period is the number, or 1 when the number is missing or 0, and is never 0 |
| Dialogue.DeleteReminderStoresName | index.js:326-333 | "Delete Medicine Reminder" stores the medicine name, keeps time, period and unit, and replies with the NLU text |
| Dialogue.SetTimeStoresFields | index.js:317-325 | "Set Medicine Reminder - Time" stores medicine and time; with no time the save fails, nothing changes and the reply is the apology |
| Dialogue.ConfirmThrowsOnlyForPastWeeks | index.js:283-290 | a confirmation throws before replying iff the session's time has passed and its unit is "weeks"; then nothing is stored or destroyed |
| Dialogue.ConfirmAddsAtMostOne | index.js:283-306 | a confirmation that finishes closes the session and adds one reminder exactly when medicine, period and unit are set. The reminder is the sender's, with the session's fields; it first fires at the session's time if that is ahead, else one period after it. Otherwise nothing is added and the reply is the apology |
| Dialogue.ConfirmFirstFireAfterTime | index.js:286-290 | with a positive period, the first fire time is never before the session's time, and is strictly after a time that has passed |
| Dialogue.ConfirmDeleteRemovesExactly | index.js:334-347 | "Delete Medicine Reminder - yes" removes exactly the sender's reminders with the session's medicine name, keeps the rest unchanged and closes the session |
| Dialogue.UnrecognisedClosesSession | index.js:348-350 | any other intent only destroys the session and replies with the NLU text |
| Dialogue.NoTextChangesNothing | index.js:277-279 | a message without text changes nothing and sends an undefined message body |
| Dialogue.RespondKeepsTablesOk | index.js:69-134 | every turn stores only valid Dates and uses only fresh row ids |
| Store.ReminderStore.Poll | index.js:136-163 | the poller tick on the database is PollPass: rows written, notices appended to the outbox, completion; sessions untouched |
| Store.ReminderStore.Reap | index.js:165-174 | the reaper tick leaves exactly the sessions that are not stale; nothing else changes |
| Store.ReminderStore.OpenSession | index.js:256-275 | the session lookup returns the user's newest session, creating one when there is none |
| Store.ReminderStore.Dispatch | index.js:277-355 | the intent dispatch and reply on the database are `Respond` |
| Store.ReminderStore.HandleMessage | index.js:251-356 | a whole message: open the session, then respond; the tables and outbox afterwards are those of `Respond` on the opened tables |

## Left out

- Express, the webhook verification and the body parser are not modelled (index.js:176-215). They only hand a sender id and a text to `handleMessage`.
- The Dialogflow client is not modelled (index.js:217-249). Its answer is an input (`Nlu`) in which every parameter key is present. A parameter is None when its key holds no value of the kind that is read.
- `callSendAPI` is not modelled (index.js:358-380). The HTTP request is replaced by an append to the outbox, and its failures are only logged.
- The database connection and the transient failure of any query are not modelled. The only save failures modelled are the NOT NULL violations that follow from the input, and a `time` text the database refuses.
- Concurrency is not modelled. The row updates and session destroys that are not awaited are treated as done in program order, and two messages never interleave. The race that can give one user two sessions is therefore not modelled.
- Poller.RunPass: computes the whole tick on a copy of the table, which `Store.ReminderStore.Poll` then writes back in one step. The source writes each row when it reaches it. The final state is the same because nothing reads the table in between.
- The notice text (`Date.toString` cut to minutes) is not modelled. It is kept as the medicine name and the Date it renders. Time zones and daylight saving are left out, and every Date is read as UTC.
- Fractional periods are not modelled. `period` is a FLOAT column, and `toFixed(2)` keeps two decimals. The model keeps whole periods, which `toFixed` leaves unchanged.
- Dates outside the JavaScript range (±10^8 days) are not modelled; there the source produces an Invalid Date.
- A parameter key missing from the NLU answer is not modelled. The source then behaves in one of two ways:
  - In the three update intents, reading `.stringValue` of the missing key throws inside the `try` (index.js:308-333). The error is caught, the session is not saved, and the reply is the apology (index.js:315, 324, 332).
  - A missing `number` key for "Set Medicine Reminder" throws in `runSample` (index.js:238), outside any `try`. The handler then stops without a reply. For a first-time user, the session row created at index.js:266 stays.
- The session UUID generator is a parameter, and uniqueness of `sessionid` is not enforced.
- A failed `Session.create` is not modelled. Its `.catch` callback (index.js:269-271) takes `err` but logs `error`, which is not in scope there. So it logs nothing and throws a ReferenceError. The `await` at index.js:266 then throws, and `handleMessage` stops there without a reply.
- The poller's `catch` at index.js:160-162 binds `error` but logs `err`, so it logs nothing and throws a ReferenceError. That happens after the tick has already stopped, and the model records the stop as `completed == false`.
- What happens to the rejections is not modelled. Three errors reject an `async` function that nobody awaits or catches: the poller's error above rejects the timer callback (index.js:136). A weekly confirmation whose start time has passed throws at index.js:290 and rejects `handleMessage`, which index.js:190 calls without a `catch`. A failed session create does the same. Node then prints a warning, or, by default from Node 15 on, exits the process, which also stops both timers. The model only records that the tick or the handler stopped (`completed == false`), and the next tick or message starts from the state it left.
- Store.ReminderStore.Poll, Store.ReminderStore.HandleMessage: both keep the as-written `addToDate` (the weeks bug below). These are the behaviours the deployed code has.

## Findings

| source | as written | input that shows it | evidently intended | confidence | as-written member | corrected member |
|---|---|---|---|---|---|---|
| index.js:26-28 | `addWeeks` returns `addDays(date, days * 7)`, but `days` is not defined there, so every call throws a ReferenceError | a reminder with unit "weeks" that is due, or a "- yes" confirmation of a weekly session whose time has passed | `addDays(date, weeks * 7)`, a shift of seven days per week | high (not executed) | Calendar.WeeksAlwaysThrows | Calendar.AddToDateIntendedCorrect |

`Calendar.AddToDate` is the dispatch as written. `Calendar.AddToDateIntended` is the corrected one, and the two agree on every other unit. The consequences of the bug are proved about the as-written model:

- a poller tick stops at the first due weekly reminder, and that reminder stays due (`Poller.PollPassStopsOnlyAtWeeks`);
- confirming a weekly reminder with a past start time sends no reply and leaves the session in place (`Dialogue.ConfirmThrowsOnlyForPastWeeks`).
