/** The per-user dialogue of handleMessage (index.js:251-356) as a pure
    transition on the two tables, with the period coercion of runSample
    (index.js:237-240). The NLU answer is an input: its intent name, its
    fulfillment text and its parameter fields. */
module Dialogue {
  import opened Wrappers
  import opened Calendar
  import opened Schema

  const Apology: string := "Sorry, but something went wrong. Please try again."

  /** The parameter fields handleMessage reads. Every key is present; a
      field is None when its key holds no value of the kind that is read
      (`stringValue` of a number field, `numberValue` of a text field), and
      `time` is None when its text is not a Date the database accepts. */
  datatype Params = Params(
    medicine: Option<string>,
    number: Option<int>,
    timefrequency: Option<string>,
    time: Option<Timestamp>)

  /** What runSample returns: the intent's display name (empty when no
      intent matched), the fulfillment text (absent then) and the fields. */
  datatype Nlu = Nlu(intent: string, response: Option<string>, params: Params)

  datatype Intent =
    | ConfirmReminder   // "Set Medicine Reminder - yes" and "Set Medicine Reminder - Time - yes"
    | SetReminder       // "Set Medicine Reminder"
    | SetTime           // "Set Medicine Reminder - Time"
    | DeleteReminder    // "Delete Medicine Reminder"
    | ConfirmDelete     // "Delete Medicine Reminder - yes"
    | Unrecognised      // anything else, the empty name included

  /** The chain of string comparisons at index.js:283-348. */
  function ParseIntent(name: string): Intent {
    if name == "Set Medicine Reminder - yes" || name == "Set Medicine Reminder - Time - yes" then ConfirmReminder
    else if name == "Set Medicine Reminder" then SetReminder
    else if name == "Set Medicine Reminder - Time" then SetTime
    else if name == "Delete Medicine Reminder" then DeleteReminder
    else if name == "Delete Medicine Reminder - yes" then ConfirmDelete
    else Unrecognised
  }

  /** `+params.number.numberValue || 1` after runSample's `toFixed(2)`, which
      a whole number survives unchanged: NaN (no number) and 0 become 1. */
  function CoercePeriod(number: Option<int>): int {
    match number
    case Some(n) => if n != 0 then n else 1
    case None => 1
  }

  // ---------------------------------------------------------------------------
  // Session selection (index.js:256-275)

  predicate HasSession(ss: map<nat, Session>, psid: string) {
    exists id :: id in ss && ss[id].psid == psid
  }

  /** `sid` is a first row of `findAll({ psid }, order createdat DESC)`. */
  predicate IsNewest(ss: map<nat, Session>, psid: string, sid: nat) {
    && sid in ss
    && ss[sid].psid == psid
    && forall id :: id in ss && ss[id].psid == psid ==> NotAfter(ss[id].createdat, ss[sid].createdat)
  }

  /** A user with a session has a newest one. */
  lemma {:induction false} NewestExists(ss: map<nat, Session>, psid: string)
    requires HasSession(ss, psid)
    ensures exists sid :: IsNewest(ss, psid, sid)
    decreases |ss|
  {
    var id :| id in ss && ss[id].psid == psid;
    var rest := ss - {id};
    assert |rest| < |ss| by {
      assert rest.Keys == ss.Keys - {id};
    }
    forall x | x in ss && ss[x].psid == psid && x != id
      ensures x in rest && rest[x].psid == psid
    {
    }
    if HasSession(rest, psid) {
      NewestExists(rest, psid);
      var other :| IsNewest(rest, psid, other);
      var best := if NotAfter(ss[id].createdat, rest[other].createdat) then other else id;
      forall x | x in ss && ss[x].psid == psid
        ensures NotAfter(ss[x].createdat, ss[best].createdat)
      {
        if x != id {
          assert x in rest;
        }
      }
      assert IsNewest(ss, psid, best);
    } else {
      assert IsNewest(ss, psid, id);
    }
  }

  /** `Session.create({ sessionid, psid })`: the other columns NULL, and
      `createdat` and `time` defaulting to the current timestamp. */
  function NewSession(psid: string, now: Timestamp, token: string): Session {
    Session(token, psid, None, now, now, None, None)
  }

  /** The tables once the user has a session: unchanged, or with one new row. */
  function Opened(t: Tables, psid: string, now: Timestamp, token: string): Tables {
    if HasSession(t.sessions, psid) then t
    else t.(sessions := t.sessions[t.nextSessionId := NewSession(psid, now, token)],
            nextSessionId := t.nextSessionId + 1)
  }

  /** A user without a session gets exactly one, which is then their newest;
      nothing else changes. */
  lemma OpenedCreatesOnlyWhenNone(t: Tables, psid: string, now: Timestamp, token: string)
    requires TablesOk(t) && ValidDate(now)
    ensures var o := Opened(t, psid, now, token);
            && TablesOk(o)
            && o.reminders == t.reminders && o.nextReminderId == t.nextReminderId
            && (HasSession(t.sessions, psid) ==> o == t)
            && (!HasSession(t.sessions, psid) ==>
                  && t.nextSessionId !in t.sessions
                  && o.sessions == t.sessions[t.nextSessionId := NewSession(psid, now, token)]
                  && IsNewest(o.sessions, psid, t.nextSessionId)
                  && forall id :: id in o.sessions && o.sessions[id].psid == psid ==> id == t.nextSessionId)
  {
  }

  // ---------------------------------------------------------------------------
  // Intent dispatch (index.js:279-353)

  /** Both tables after a message, the messages sent, and whether the
      handler ran to its end (false when it threw before replying). */
  datatype Turn = Turn(tables: Tables, sent: seq<Message>, completed: bool)

  function Reply(psid: string, text: Option<string>): seq<Message> {
    [Message(psid, Text(text))]
  }

  /** The first fire time a confirmation computes (index.js:290): the
      session's time if it is still ahead, else one period after it. A NULL
      period counts as 0 and a NULL unit as none of the named units. */
  function FirstFire(s: Session, now: Timestamp): Result<Timestamp> {
    if NotAfter(s.time, now) then AddToDate(s.time, s.period.GetOr(0), s.unit.GetOr(""))
    else Ok(s.time)
  }

  /** `Reminder.destroy` where psid and medicinename match; a NULL name
      matches no row, since every reminder has a name. */
  function WithoutMedicine(rs: map<nat, Reminder>, psid: string, name: Option<string>): map<nat, Reminder> {
    map id | id in rs && !(rs[id].psid == psid && Some(rs[id].medicinename) == name) :: rs[id]
  }

  /** The two confirm intents (index.js:283-306). */
  function Confirm(t: Tables, sid: nat, psid: string, nlu: Nlu, now: Timestamp): Turn
    requires sid in t.sessions
  {
    var s := t.sessions[sid];
    match FirstFire(s, now)
    case Err(_) => Turn(t, [], false)
    case Ok(next) =>
      var closed := t.sessions - {sid};
      if s.medicinename.Some? && s.period.Some? && s.unit.Some? then
        var r := Reminder(psid, s.medicinename.value, s.time, next, s.period.value, s.unit.value);
        Turn(Tables(t.reminders[t.nextReminderId := r], closed, t.nextReminderId + 1, t.nextSessionId),
             Reply(psid, nlu.response), true)
      else
        Turn(t.(sessions := closed), Reply(psid, Some(Apology)), true)
  }

  /** Everything handleMessage does once session `sid` is chosen. */
  function Respond(t: Tables, sid: nat, psid: string, input: Option<Nlu>, now: Timestamp): Turn
    requires sid in t.sessions
  {
    match input
    case None => Turn(t, [Message(psid, NoBody)], true)
    case Some(nlu) =>
      var s := t.sessions[sid];
      var p := nlu.params;
      match ParseIntent(nlu.intent)
      case ConfirmReminder => Confirm(t, sid, psid, nlu, now)
      case SetReminder =>
        var s' := s.(medicinename := p.medicine, period := Some(CoercePeriod(p.number)), unit := p.timefrequency);
        Turn(t.(sessions := t.sessions[sid := s']), Reply(psid, nlu.response), true)
      case SetTime =>
        (match p.time
         case Some(time) =>
           Turn(t.(sessions := t.sessions[sid := s.(medicinename := p.medicine, time := time)]),
                Reply(psid, nlu.response), true)
         case None => Turn(t, Reply(psid, Some(Apology)), true))
      case DeleteReminder =>
        Turn(t.(sessions := t.sessions[sid := s.(medicinename := p.medicine)]), Reply(psid, nlu.response), true)
      case ConfirmDelete =>
        Turn(t.(reminders := WithoutMedicine(t.reminders, psid, s.medicinename), sessions := t.sessions - {sid}),
             Reply(psid, nlu.response), true)
      case Unrecognised =>
        Turn(t.(sessions := t.sessions - {sid}), Reply(psid, nlu.response), true)
  }

  // ---------------------------------------------------------------------------
  // What a turn does

  /** The three field-update intents change only the current session (same
      row, same owner, same creation time), never the reminders, and reply
      to the sender. */
  lemma UpdateIntentsTouchOnlySession(t: Tables, sid: nat, psid: string, nlu: Nlu, now: Timestamp)
    requires sid in t.sessions
    requires ParseIntent(nlu.intent) in {SetReminder, SetTime, DeleteReminder}
    ensures var u := Respond(t, sid, psid, Some(nlu), now);
            && u.completed
            && u.tables.reminders == t.reminders
            && u.tables.nextReminderId == t.nextReminderId
            && u.tables.nextSessionId == t.nextSessionId
            && u.tables.sessions.Keys == t.sessions.Keys
            && (forall id :: id in t.sessions && id != sid ==> u.tables.sessions[id] == t.sessions[id])
            && u.tables.sessions[sid].psid == t.sessions[sid].psid
            && u.tables.sessions[sid].sessionid == t.sessions[sid].sessionid
            && u.tables.sessions[sid].createdat == t.sessions[sid].createdat
            && |u.sent| == 1 && u.sent[0].psid == psid
  {
  }

  /** "Set Medicine Reminder" stores the medicine, the unit and the number
      as period, or 1 when the number is missing or zero; the stored period
      is never zero. */
  lemma SetReminderStoresFields(t: Tables, sid: nat, psid: string, nlu: Nlu, now: Timestamp)
    requires sid in t.sessions && ParseIntent(nlu.intent) == SetReminder
    ensures var s := Respond(t, sid, psid, Some(nlu), now).tables.sessions[sid];
            && s.medicinename == nlu.params.medicine
            && s.unit == nlu.params.timefrequency
            && s.period.Some? && s.period.value != 0
            && (nlu.params.number.Some? && nlu.params.number.value != 0 ==> s.period == nlu.params.number)
            && (nlu.params.number.None? || nlu.params.number == Some(0) ==> s.period == Some(1))
            && s.time == t.sessions[sid].time
    ensures Respond(t, sid, psid, Some(nlu), now).sent == Reply(psid, nlu.response)
  {
  }

  /** "Delete Medicine Reminder" stores only the medicine name to delete;
      time, period and unit stay, and the reply is the NLU text. */
  lemma DeleteReminderStoresName(t: Tables, sid: nat, psid: string, nlu: Nlu, now: Timestamp)
    requires sid in t.sessions && ParseIntent(nlu.intent) == DeleteReminder
    ensures var u, s := Respond(t, sid, psid, Some(nlu), now), t.sessions[sid];
            && u.tables.sessions[sid].medicinename == nlu.params.medicine
            && u.tables.sessions[sid].time == s.time
            && u.tables.sessions[sid].period == s.period
            && u.tables.sessions[sid].unit == s.unit
            && u.sent == Reply(psid, nlu.response)
  {
  }

  /** "Set Medicine Reminder - Time" stores the medicine and the time; when
      the time is missing the save is refused and only the apology changes. */
  lemma SetTimeStoresFields(t: Tables, sid: nat, psid: string, nlu: Nlu, now: Timestamp)
    requires sid in t.sessions && ParseIntent(nlu.intent) == SetTime
    ensures var u := Respond(t, sid, psid, Some(nlu), now);
            && (nlu.params.time.Some? ==>
                  && u.tables.sessions[sid].time == nlu.params.time.value
                  && u.tables.sessions[sid].medicinename == nlu.params.medicine
                  && u.tables.sessions[sid].period == t.sessions[sid].period
                  && u.tables.sessions[sid].unit == t.sessions[sid].unit
                  && u.sent == Reply(psid, nlu.response))
            && (nlu.params.time.None? ==> u.tables == t && u.sent == Reply(psid, Some(Apology)))
  {
  }

  /** A confirmation throws before replying exactly when the session's time
      has passed and its unit is "weeks"; then nothing changes. */
  lemma ConfirmThrowsOnlyForPastWeeks(t: Tables, sid: nat, psid: string, nlu: Nlu, now: Timestamp)
    requires sid in t.sessions && ParseIntent(nlu.intent) == ConfirmReminder
    ensures var u, s := Respond(t, sid, psid, Some(nlu), now), t.sessions[sid];
            && (!u.completed <==> NotAfter(s.time, now) && s.unit == Some(Weeks))
            && (!u.completed ==> u.tables == t && u.sent == [])
  {
    var s := t.sessions[sid];
    AddToDateDispatch(s.time, s.period.GetOr(0), s.unit.GetOr(""));
  }

  /** A confirmation that runs to its end always closes the session, leaves
      every other session alone, and adds at most one reminder: one exactly
      when medicine, period and unit are all set, owned by the sender, first
      firing at the session's time if that is still ahead and one period
      after it otherwise; without one the reply is the apology. */
  lemma ConfirmAddsAtMostOne(t: Tables, sid: nat, psid: string, nlu: Nlu, now: Timestamp)
    requires TablesOk(t) && sid in t.sessions && ParseIntent(nlu.intent) == ConfirmReminder
    requires Respond(t, sid, psid, Some(nlu), now).completed
    ensures var u, s := Respond(t, sid, psid, Some(nlu), now), t.sessions[sid];
            && u.tables.sessions == t.sessions - {sid}
            && u.tables.nextSessionId == t.nextSessionId
            && |u.sent| == 1 && u.sent[0].psid == psid
            && (s.medicinename.Some? && s.period.Some? && s.unit.Some? ==>
                  && t.nextReminderId !in t.reminders
                  && u.tables.nextReminderId == t.nextReminderId + 1
                  && u.tables.reminders.Keys == t.reminders.Keys + {t.nextReminderId}
                  && (forall id :: id in t.reminders ==> u.tables.reminders[id] == t.reminders[id])
                  && var r := u.tables.reminders[t.nextReminderId];
                     && r.psid == psid && Some(r.medicinename) == s.medicinename
                     && Some(r.period) == s.period && Some(r.unit) == s.unit && r.time == s.time
                     && (TimeValue(s.time) > TimeValue(now) ==> r.nextreminder == s.time)
                     && (NotAfter(s.time, now) ==> Ok(r.nextreminder) == AddToDate(s.time, r.period, r.unit))
                     && u.sent == Reply(psid, nlu.response))
            && (!(s.medicinename.Some? && s.period.Some? && s.unit.Some?) ==>
                  && u.tables.reminders == t.reminders
                  && u.tables.nextReminderId == t.nextReminderId
                  && u.sent == Reply(psid, Some(Apology)))
  {
  }

  /** A reminder created from a past time with a positive period first
      fires strictly after that time. */
  lemma ConfirmFirstFireAfterTime(t: Tables, sid: nat, psid: string, nlu: Nlu, now: Timestamp)
    requires TablesOk(t) && sid in t.sessions && ParseIntent(nlu.intent) == ConfirmReminder
    requires var s := t.sessions[sid]; s.period.Some? && s.period.value > 0
    requires Respond(t, sid, psid, Some(nlu), now).completed
    ensures var s := t.sessions[sid];
            FirstFire(s, now).Ok? && TimeValue(FirstFire(s, now).value) >= TimeValue(s.time)
    ensures var s := t.sessions[sid];
            NotAfter(s.time, now) ==> TimeValue(FirstFire(s, now).value) > TimeValue(s.time)
  {
    var s := t.sessions[sid];
    ConfirmThrowsOnlyForPastWeeks(t, sid, psid, nlu, now);
    if NotAfter(s.time, now) {
      AddToDateLater(s.time, s.period.value, s.unit.GetOr(""));
    }
  }

  /** "Delete Medicine Reminder - yes" removes exactly the sender's reminders
      named as in the session, keeps every other reminder unchanged, and
      closes the session. */
  lemma ConfirmDeleteRemovesExactly(t: Tables, sid: nat, psid: string, nlu: Nlu, now: Timestamp)
    requires sid in t.sessions && ParseIntent(nlu.intent) == ConfirmDelete
    ensures var u, name := Respond(t, sid, psid, Some(nlu), now), t.sessions[sid].medicinename;
            && u.completed
            && (forall id :: id in u.tables.reminders <==>
                  id in t.reminders && !(t.reminders[id].psid == psid && Some(t.reminders[id].medicinename) == name))
            && (forall id :: id in u.tables.reminders ==> u.tables.reminders[id] == t.reminders[id])
            && u.tables.sessions == t.sessions - {sid}
            && u.tables.nextReminderId == t.nextReminderId
            && u.sent == Reply(psid, nlu.response)
  {
  }

  /** Any other intent abandons the dialogue: the session goes, nothing else. */
  lemma UnrecognisedClosesSession(t: Tables, sid: nat, psid: string, nlu: Nlu, now: Timestamp)
    requires sid in t.sessions && ParseIntent(nlu.intent) == Unrecognised
    ensures var u := Respond(t, sid, psid, Some(nlu), now);
            && u.completed
            && u.tables == t.(sessions := t.sessions - {sid})
            && u.sent == Reply(psid, nlu.response)
  {
  }

  /** A message without text changes no table and sends an empty message. */
  lemma NoTextChangesNothing(t: Tables, sid: nat, psid: string, now: Timestamp)
    requires sid in t.sessions
    ensures Respond(t, sid, psid, None, now) == Turn(t, [Message(psid, NoBody)], true)
  {
  }

  /** Parameters as the NLU hands them over: any time given is a real Date. */
  predicate InputOk(input: Option<Nlu>) {
    input.Some? && input.value.params.time.Some? ==> ValidDate(input.value.params.time.value)
  }

  /** A turn only stores real Dates and only uses fresh ids. */
  lemma RespondKeepsTablesOk(t: Tables, sid: nat, psid: string, input: Option<Nlu>, now: Timestamp)
    requires TablesOk(t) && sid in t.sessions && ValidDate(now) && InputOk(input)
    ensures TablesOk(Respond(t, sid, psid, input, now).tables)
  {
    if input.Some? && ParseIntent(input.value.intent) == ConfirmReminder {
      var s := t.sessions[sid];
      AddToDateValid(s.time, s.period.GetOr(0), s.unit.GetOr(""));
    }
  }
}
