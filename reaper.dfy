/** The session reaper (index.js:165-174): one bulk delete of every session
    created an hour or more before the clock reading. */
module Reaper {
  import opened Calendar
  import opened Schema

  /** `60 * 60 * 1000`: a session lives one hour from `createdat`. */
  const SessionTtlMs: int := 3600000

  /** The delete condition `createdat <= new Date(currentDate - 60 * 60 * 1000)`. */
  predicate Stale(s: Session, now: Timestamp) {
    TimeValue(s.createdat) <= TimeValue(now) - SessionTtlMs
  }

  /** The `sessions` table after the delete. */
  function Reaped(ss: map<nat, Session>, now: Timestamp): map<nat, Session> {
    map id | id in ss && !Stale(ss[id], now) :: ss[id]
  }

  /** After a pass no stale session is left, and every younger session is
      still there, unchanged. */
  lemma ReapedKeepsExactlyYoung(ss: map<nat, Session>, now: Timestamp)
    ensures forall id :: id in Reaped(ss, now) ==> !Stale(Reaped(ss, now)[id], now)
    ensures forall id :: id in ss && !Stale(ss[id], now) ==>
              id in Reaped(ss, now) && Reaped(ss, now)[id] == ss[id]
    ensures Reaped(ss, now).Keys <= ss.Keys
  {
  }

  /** A later pass subsumes an earlier one; in particular a second pass at
      the same time deletes nothing more. */
  lemma ReapLaterSubsumes(ss: map<nat, Session>, t1: Timestamp, t2: Timestamp)
    requires TimeValue(t1) <= TimeValue(t2)
    ensures Reaped(Reaped(ss, t1), t2) == Reaped(ss, t2)
  {
    var a, b := Reaped(Reaped(ss, t1), t2), Reaped(ss, t2);
    assert a.Keys == b.Keys;
  }

  /** A session created `minutes` minutes before the clock reading is
      deleted exactly when it is at least an hour old: at 61 minutes it goes,
      at 59 it stays, and at exactly 60 it goes. */
  lemma StaleAfterAnHour(s: Session, now: Timestamp, minutes: int)
    requires ValidDate(now) && s.createdat == AddMinutes(now, -minutes)
    ensures Stale(s, now) <==> minutes >= 60
  {
    AddMinutesExact(now, -minutes);
  }
}
