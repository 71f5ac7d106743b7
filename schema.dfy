/** The rows of the `reminders` and `sessions` tables (index.js:69-134), the
    messages handed to the Send API, and the two tables as one value. */
module Schema {
  import opened Wrappers
  import opened Calendar

  /** A row of `reminders`: every column is NOT NULL. `period` is a FLOAT
      column; the model keeps whole periods only. */
  datatype Reminder = Reminder(
    psid: string,
    medicinename: string,
    time: Timestamp,
    nextreminder: Timestamp,
    period: int,
    unit: string)

  /** A row of `sessions`. The schema writes `default:` rather than
      `defaultValue:` for `period` and `unit`, so both stay NULL until set. */
  datatype Session = Session(
    sessionid: string,
    psid: string,
    medicinename: Option<string>,
    createdat: Timestamp,
    time: Timestamp,
    period: Option<int>,
    unit: Option<string>)

  /** What callSendAPI is given: the reminder notice (its text is a rendering
      of the medicine name and the next Date), a `{ text }` reply whose text
      may be undefined, or no message object at all. */
  datatype Body = Notice(medicine: string, next: Timestamp) | Text(text: Option<string>) | NoBody

  datatype Message = Message(psid: string, body: Body)

  /** Both tables with the next auto-increment id of each. */
  datatype Tables = Tables(
    reminders: map<nat, Reminder>,
    sessions: map<nat, Session>,
    nextReminderId: nat,
    nextSessionId: nat)

  predicate ReminderOk(r: Reminder) {
    ValidDate(r.time) && ValidDate(r.nextreminder)
  }

  predicate SessionOk(s: Session) {
    ValidDate(s.createdat) && ValidDate(s.time)
  }

  /** Every Date stored is a real Date, and every row id was handed out. */
  predicate TablesOk(t: Tables) {
    && (forall id :: id in t.reminders ==> id < t.nextReminderId && ReminderOk(t.reminders[id]))
    && (forall id :: id in t.sessions ==> id < t.nextSessionId && SessionOk(t.sessions[id]))
  }
}
