/** The process state index.js keeps in its database, and the three entry
    points that change it: the poller tick, the reaper tick and
    handleMessage. The Send API is replaced by an outbox that every sent
    message is appended to; the clock, the NLU answer, the order of query
    results and the fresh session token are arguments. */
module Store {
  import opened Wrappers
  import opened Calendar
  import opened Schema
  import opened Poller
  import opened Reaper
  import opened Dialogue

  class ReminderStore {
    var reminders: map<nat, Reminder>
    var sessions: map<nat, Session>
    var nextReminderId: nat
    var nextSessionId: nat
    var outbox: seq<Message>

    ghost function Snapshot(): Tables
      reads this
    {
      Tables(reminders, sessions, nextReminderId, nextSessionId)
    }

    ghost predicate Valid()
      reads this
    {
      TablesOk(Snapshot())
    }

    constructor ()
      ensures Valid()
      ensures reminders == map[] && sessions == map[] && outbox == []
      ensures nextReminderId == 0 && nextSessionId == 0
    {
      reminders, sessions := map[], map[];
      nextReminderId, nextSessionId := 0, 0;
      outbox := [];
    }

    /** One poller tick (index.js:136-163). `order` is the order in which the
        query returned the due rows. */
    method Poll(now: Timestamp, order: seq<nat>) returns (completed: bool)
      requires Valid() && ValidDate(now)
      requires ListsDue(reminders, now, order)
      modifies this
      ensures Valid()
      ensures var p := PollPass(old(reminders), now, order);
              && reminders == p.reminders
              && outbox == old(outbox) + p.sent
              && completed == p.completed
      ensures sessions == old(sessions)
      ensures nextReminderId == old(nextReminderId) && nextSessionId == old(nextSessionId)
    {
      var rows := reminders;
      var written, sent;
      written, sent, completed := RunPass(rows, now, order);
      PollPassKeepsRowsOk(rows, now, order);
      reminders := written;
      outbox := outbox + sent;
    }

    /** One reaper tick (index.js:165-174). */
    method Reap(now: Timestamp)
      requires Valid()
      modifies this
      ensures Valid()
      ensures sessions == Reaped(old(sessions), now)
      ensures reminders == old(reminders) && outbox == old(outbox)
      ensures nextReminderId == old(nextReminderId) && nextSessionId == old(nextSessionId)
    {
      sessions := map id | id in sessions && !Stale(sessions[id], now) :: sessions[id];
    }

    /** handleMessage (index.js:251-356) for one incoming message from
        `psid`; `input` is the NLU answer, None when the message has no text.
        Returns the session row used and whether the handler ran to its end. */
    method HandleMessage(psid: string, input: Option<Nlu>, now: Timestamp, token: string)
      returns (sid: nat, completed: bool)
      requires Valid() && ValidDate(now) && InputOk(input)
      modifies this
      ensures Valid()
      ensures var t0 := Opened(old(Snapshot()), psid, now, token);
              && IsNewest(t0.sessions, psid, sid)
              && (!HasSession(old(sessions), psid) ==> sid == old(nextSessionId))
              && var turn := Respond(t0, sid, psid, input, now);
                 && Snapshot() == turn.tables
                 && outbox == old(outbox) + turn.sent
                 && completed == turn.completed
    {
      sid := OpenSession(psid, now, token);
      completed := Dispatch(sid, psid, input, now);
    }

    /** The session lookup of index.js:256-275: the user's newest session,
        or a new row when they have none. */
    method OpenSession(psid: string, now: Timestamp, token: string) returns (sid: nat)
      requires Valid() && ValidDate(now)
      modifies this
      ensures Valid()
      ensures Snapshot() == Opened(old(Snapshot()), psid, now, token) && outbox == old(outbox)
      ensures IsNewest(sessions, psid, sid)
      ensures !HasSession(old(sessions), psid) ==> sid == old(nextSessionId)
    {
      OpenedCreatesOnlyWhenNone(Snapshot(), psid, now, token);
      if exists id :: id in sessions && sessions[id].psid == psid {
        NewestExists(sessions, psid);
        sid :| IsNewest(sessions, psid, sid);
      } else {
        sid := nextSessionId;
        sessions := sessions[sid := NewSession(psid, now, token)];
        nextSessionId := nextSessionId + 1;
      }
    }

    /** The rest of handleMessage (index.js:277-355): the intent's effect on
        the tables, then the reply. */
    method Dispatch(sid: nat, psid: string, input: Option<Nlu>, now: Timestamp) returns (completed: bool)
      requires Valid() && ValidDate(now) && InputOk(input) && sid in sessions
      modifies this
      ensures Valid()
      ensures var turn := Respond(old(Snapshot()), sid, psid, input, now);
              && Snapshot() == turn.tables
              && outbox == old(outbox) + turn.sent
              && completed == turn.completed
    {
      RespondKeepsTablesOk(Snapshot(), sid, psid, input, now);
      completed := true;
      if input.None? {
        outbox := outbox + [Message(psid, NoBody)];
        return;
      }
      var nlu := input.value;
      var session := sessions[sid];
      var response := nlu.response;
      match ParseIntent(nlu.intent) {
        case ConfirmReminder =>
          var next := FirstFire(session, now);
          if next.Err? {
            // The exception escapes the handler: no destroy, no reply.
            completed := false;
            return;
          }
          if session.medicinename.Some? && session.period.Some? && session.unit.Some? {
            reminders := reminders[nextReminderId := Reminder(psid, session.medicinename.value, session.time,
                                                              next.value, session.period.value, session.unit.value)];
            nextReminderId := nextReminderId + 1;
          } else {
            response := Some(Apology);
          }
          sessions := sessions - {sid};
        case SetReminder =>
          sessions := sessions[sid := session.(medicinename := nlu.params.medicine,
                                               period := Some(CoercePeriod(nlu.params.number)),
                                               unit := nlu.params.timefrequency)];
        case SetTime =>
          if nlu.params.time.Some? {
            sessions := sessions[sid := session.(medicinename := nlu.params.medicine, time := nlu.params.time.value)];
          } else {
            response := Some(Apology);
          }
        case DeleteReminder =>
          sessions := sessions[sid := session.(medicinename := nlu.params.medicine)];
        case ConfirmDelete =>
          reminders := map id | id in reminders && !(reminders[id].psid == psid
                                                     && Some(reminders[id].medicinename) == session.medicinename)
                                :: reminders[id];
          sessions := sessions - {sid};
        case Unrecognised =>
          sessions := sessions - {sid};
      }
      outbox := outbox + [Message(psid, Text(response))];
    }
  }
}
