/** One pass of the reminder poller (index.js:136-163), as a function of the
    `reminders` table, the clock reading and the order in which the query
    returned the due rows. */
module Poller {
  import opened Wrappers
  import opened Calendar
  import opened Schema

  /** The query condition `nextreminder <= currentDate`. */
  predicate Due(r: Reminder, now: Timestamp) {
    NotAfter(r.nextreminder, now)
  }

  /** `order` is a listing of the query result: every due row exactly once. */
  predicate ListsDue(rs: map<nat, Reminder>, now: Timestamp, order: seq<nat>) {
    && (forall i :: 0 <= i < |order| ==> order[i] in rs && Due(rs[order[i]], now))
    && (forall i, j :: 0 <= i < j < |order| ==> order[i] != order[j])
    && (forall id :: id in rs && Due(rs[id], now) ==> id in order)
  }

  /** The next fire time, computed from the poll's own clock reading rather
      than from the row's previous `nextreminder`. */
  function NextFire(r: Reminder, now: Timestamp): Result<Timestamp> {
    AddToDate(now, r.period, r.unit)
  }

  /** The row as the pass leaves it when its next fire time exists. */
  function Advance(r: Reminder, now: Timestamp): Reminder {
    match NextFire(r, now)
    case Ok(next) => r.(nextreminder := next)
    case Err(_) => r
  }

  /** The notice for a row whose `nextreminder` has just been written. */
  function Notify(r: Reminder): Message {
    Message(r.psid, Notice(r.medicinename, r.nextreminder))
  }

  /** Table, messages sent, and whether the loop ran to its end. */
  datatype Pass = Pass(reminders: map<nat, Reminder>, sent: seq<Message>, completed: bool)

  /** The loop at index.js:147-159: for each listed row, compute the next
      fire time, update the row, send the notice. An exception from
      addToDate leaves the shared try block, so the rest of the pass is
      skipped while earlier updates and sends stand. */
  function PollPass(rs: map<nat, Reminder>, now: Timestamp, order: seq<nat>): (p: Pass)
    requires forall i :: 0 <= i < |order| ==> order[i] in rs
    ensures p.reminders.Keys == rs.Keys
    ensures |p.sent| <= |order|
    decreases |order|
  {
    if order == [] then Pass(rs, [], true)
    else
      var r := rs[order[0]];
      match NextFire(r, now)
      case Err(_) => Pass(rs, [], false)
      case Ok(next) =>
        var updated := r.(nextreminder := next);
        var rest := PollPass(rs[order[0] := updated], now, order[1..]);
        Pass(rest.reminders, [Notify(updated)] + rest.sent, rest.completed)
  }

  /** How many listed rows a pass gets through: all of them, or up to the
      first one whose next fire time cannot be computed. */
  function Reached(rs: map<nat, Reminder>, now: Timestamp, order: seq<nat>): (k: nat)
    requires forall i :: 0 <= i < |order| ==> order[i] in rs
    ensures k <= |order|
    ensures forall i :: 0 <= i < k ==> NextFire(rs[order[i]], now).Ok?
    ensures k < |order| ==> NextFire(rs[order[k]], now).Err?
    decreases |order|
  {
    if order == [] then 0
    else if NextFire(rs[order[0]], now).Err? then 0
    else 1 + Reached(rs, now, order[1..])
  }

  /** `Reached` only looks at the listed rows. */
  lemma {:induction false} ReachedAgree(rs: map<nat, Reminder>, rs': map<nat, Reminder>, now: Timestamp, order: seq<nat>)
    requires forall i :: 0 <= i < |order| ==> order[i] in rs && order[i] in rs'
    requires forall i :: 0 <= i < |order| ==> rs[order[i]] == rs'[order[i]]
    ensures Reached(rs, now, order) == Reached(rs', now, order)
    decreases |order|
  {
    if order != [] {
      ReachedAgree(rs, rs', now, order[1..]);
    }
  }

  /** A pass whose first listed row can be advanced: that row, then a pass
      over the rest of the listing on the updated table. */
  lemma PollPassUnfold(rs: map<nat, Reminder>, now: Timestamp, order: seq<nat>)
    requires order != [] && forall i :: 0 <= i < |order| ==> order[i] in rs
    requires forall i, j :: 0 <= i < j < |order| ==> order[i] != order[j]
    requires NextFire(rs[order[0]], now).Ok?
    ensures var r := rs[order[0]];
            var rs' := rs[order[0] := Advance(r, now)];
            var rest := PollPass(rs', now, order[1..]);
            && PollPass(rs, now, order) == Pass(rest.reminders, [Notify(Advance(r, now))] + rest.sent, rest.completed)
            && Reached(rs, now, order) == 1 + Reached(rs', now, order[1..])
  {
    var r, tail := rs[order[0]], order[1..];
    assert forall i :: 0 <= i < |tail| ==> tail[i] == order[i + 1];
    ReachedAgree(rs, rs[order[0] := Advance(r, now)], now, order[1..]);
  }

  /** The rows a pass writes: the first `Reached` listed rows, and no others,
      get their next fire time. */
  lemma {:induction false} PollPassRows(rs: map<nat, Reminder>, now: Timestamp, order: seq<nat>)
    requires forall i :: 0 <= i < |order| ==> order[i] in rs
    requires forall i, j :: 0 <= i < j < |order| ==> order[i] != order[j]
    ensures var p, k := PollPass(rs, now, order), Reached(rs, now, order);
            forall id :: id in rs ==>
              p.reminders[id] == if id in order[..k] then Advance(rs[id], now) else rs[id]
    decreases |order|
  {
    if order != [] && NextFire(rs[order[0]], now).Ok? {
      var id, tail := order[0], order[1..];
      var rs' := rs[id := Advance(rs[id], now)];
      PollPassUnfold(rs, now, order);
      assert forall i :: 0 <= i < |tail| ==> tail[i] == order[i + 1];
      assert id !in tail;
      PollPassRows(rs', now, tail);
      var k' := Reached(rs', now, tail);
      assert order[..k' + 1] == [id] + tail[..k'];
      RowsCons(rs, now, id, tail[..k'], PollPass(rs', now, tail).reminders);
    }
  }

  /** Advancing `id` first and then the rows `ids` (which do not include it)
      is advancing the rows `[id] + ids`. */
  lemma RowsCons(rs: map<nat, Reminder>, now: Timestamp, id: nat, ids: seq<nat>, written: map<nat, Reminder>)
    requires id in rs && id !in ids
    requires var rs' := rs[id := Advance(rs[id], now)];
             forall x :: x in rs' ==> x in written && written[x] == if x in ids then Advance(rs'[x], now) else rs'[x]
    ensures forall x :: x in rs ==> written[x] == if x in [id] + ids then Advance(rs[x], now) else rs[x]
  {
    var rs' := rs[id := Advance(rs[id], now)];
    forall x | x in rs
      ensures written[x] == if x in [id] + ids then Advance(rs[x], now) else rs[x]
    {
      if x != id {
        assert rs'[x] == rs[x];
      }
    }
  }

  /** The messages a pass sends: one notice per row it advanced, to that
      row's owner, in listing order; the pass completes exactly when every
      listed row could be advanced. */
  lemma {:induction false} PollPassSent(rs: map<nat, Reminder>, now: Timestamp, order: seq<nat>)
    requires forall i :: 0 <= i < |order| ==> order[i] in rs
    requires forall i, j :: 0 <= i < j < |order| ==> order[i] != order[j]
    ensures var p, k := PollPass(rs, now, order), Reached(rs, now, order);
            && p.completed == (k == |order|)
            && |p.sent| == k
            && (forall i :: 0 <= i < k ==> p.sent[i] == Notify(Advance(rs[order[i]], now)))
    decreases |order|
  {
    if order != [] && NextFire(rs[order[0]], now).Ok? {
      var id, tail := order[0], order[1..];
      var rs' := rs[id := Advance(rs[id], now)];
      PollPassUnfold(rs, now, order);
      assert forall i :: 0 <= i < |tail| ==> tail[i] == order[i + 1];
      assert id !in tail;
      PollPassSent(rs', now, tail);
      var p, rest := PollPass(rs, now, order), PollPass(rs', now, tail);
      var k' := Reached(rs', now, tail);
      forall i | 0 <= i < k' + 1
        ensures p.sent[i] == Notify(Advance(rs[order[i]], now))
      {
        if i > 0 {
          assert p.sent[i] == rest.sent[i - 1];
          assert rs'[tail[i - 1]] == rs[order[i]];
        }
      }
    }
  }

  /** Both halves of what a pass does. */
  lemma PollPassEffect(rs: map<nat, Reminder>, now: Timestamp, order: seq<nat>)
    requires forall i :: 0 <= i < |order| ==> order[i] in rs
    requires forall i, j :: 0 <= i < j < |order| ==> order[i] != order[j]
    ensures var p, k := PollPass(rs, now, order), Reached(rs, now, order);
            && p.completed == (k == |order|)
            && (forall id :: id in rs ==>
                  p.reminders[id] == if id in order[..k] then Advance(rs[id], now) else rs[id])
            && |p.sent| == k
            && (forall i :: 0 <= i < k ==> p.sent[i] == Notify(Advance(rs[order[i]], now)))
  {
    PollPassRows(rs, now, order);
    PollPassSent(rs, now, order);
  }

  /** `Reached` is the only count with its two defining properties. */
  lemma ReachedUnique(rs: map<nat, Reminder>, now: Timestamp, order: seq<nat>, k: nat)
    requires forall i :: 0 <= i < |order| ==> order[i] in rs
    requires k <= |order| && forall j :: 0 <= j < k ==> NextFire(rs[order[j]], now).Ok?
    requires k < |order| ==> NextFire(rs[order[k]], now).Err?
    ensures k == Reached(rs, now, order)
  {
  }

  /** The state of a pass after the first `k` listed rows were advanced:
      `written` is the table, `sent` the notices so far. */
  ghost predicate PassUpTo(rs: map<nat, Reminder>, now: Timestamp, order: seq<nat>, k: nat,
                           written: map<nat, Reminder>, sent: seq<Message>)
  {
    && (forall i :: 0 <= i < |order| ==> order[i] in rs)
    && k <= |order|
    && (forall j :: 0 <= j < k ==> NextFire(rs[order[j]], now).Ok?)
    && written.Keys == rs.Keys
    && (forall id :: id in rs ==> written[id] == if id in order[..k] then Advance(rs[id], now) else rs[id])
    && |sent| == k
    && (forall j :: 0 <= j < k ==> sent[j] == Notify(Advance(rs[order[j]], now)))
  }

  lemma PassUpToStart(rs: map<nat, Reminder>, now: Timestamp, order: seq<nat>)
    requires forall i :: 0 <= i < |order| ==> order[i] in rs
    ensures PassUpTo(rs, now, order, 0, rs, [])
  {
  }

  /** Advancing the row at `k` and sending its notice extends the state by one. */
  lemma PassUpToStep(rs: map<nat, Reminder>, now: Timestamp, order: seq<nat>, k: nat,
                     written: map<nat, Reminder>, sent: seq<Message>, next: Timestamp)
    requires PassUpTo(rs, now, order, k, written, sent)
    requires forall i, j :: 0 <= i < j < |order| ==> order[i] != order[j]
    requires k < |order| && NextFire(rs[order[k]], now) == Ok(next)
    ensures var id, r := order[k], rs[order[k]];
            PassUpTo(rs, now, order, k + 1, written[id := written[id].(nextreminder := next)],
                     sent + [Message(r.psid, Notice(r.medicinename, next))])
  {
    var id, r := order[k], rs[order[k]];
    assert Advance(r, now) == r.(nextreminder := next);
    assert order[..k + 1] == order[..k] + [id];
    assert id !in order[..k];
  }

  /** A pass is pinned down by how far it gets, the rows it writes and the
      notices it sends. */
  lemma PollPassDeterminedBy(rs: map<nat, Reminder>, now: Timestamp, order: seq<nat>, k: nat,
                             written: map<nat, Reminder>, sent: seq<Message>)
    requires PassUpTo(rs, now, order, k, written, sent)
    requires forall i, j :: 0 <= i < j < |order| ==> order[i] != order[j]
    requires k < |order| ==> NextFire(rs[order[k]], now).Err?
    ensures PollPass(rs, now, order) == Pass(written, sent, k == |order|)
  {
    ReachedUnique(rs, now, order, k);
    PollPassRowsAre(rs, now, order, k, written);
    PollPassSentIs(rs, now, order, k, sent);
  }

  /** The rows part of `PollPassDeterminedBy`. */
  lemma PollPassRowsAre(rs: map<nat, Reminder>, now: Timestamp, order: seq<nat>, k: nat,
                        rs': map<nat, Reminder>)
    requires forall i :: 0 <= i < |order| ==> order[i] in rs
    requires forall i, j :: 0 <= i < j < |order| ==> order[i] != order[j]
    requires k == Reached(rs, now, order)
    requires rs'.Keys == rs.Keys
    requires forall id :: id in rs ==> rs'[id] == if id in order[..k] then Advance(rs[id], now) else rs[id]
    ensures PollPass(rs, now, order).reminders == rs'
  {
    PollPassRows(rs, now, order);
  }

  /** The notices part of `PollPassDeterminedBy`. */
  lemma PollPassSentIs(rs: map<nat, Reminder>, now: Timestamp, order: seq<nat>, k: nat, sent: seq<Message>)
    requires forall i :: 0 <= i < |order| ==> order[i] in rs
    requires forall i, j :: 0 <= i < j < |order| ==> order[i] != order[j]
    requires k == Reached(rs, now, order)
    requires |sent| == k && forall j :: 0 <= j < k ==> sent[j] == Notify(Advance(rs[order[j]], now))
    ensures PollPass(rs, now, order).sent == sent
    ensures PollPass(rs, now, order).completed == (k == |order|)
  {
    PollPassSent(rs, now, order);
  }

  /** The loop itself, over a copy of the listed rows: returns the table
      it leaves, the notices in the order sent, and whether it reached the
      end of the listing. */
  method RunPass(rs: map<nat, Reminder>, now: Timestamp, order: seq<nat>)
    returns (written: map<nat, Reminder>, sent: seq<Message>, completed: bool)
    requires forall i :: 0 <= i < |order| ==> order[i] in rs
    requires forall i, j :: 0 <= i < j < |order| ==> order[i] != order[j]
    ensures PollPass(rs, now, order) == Pass(written, sent, completed)
  {
    written, sent, completed := rs, [], true;
    var i := 0;
    PassUpToStart(rs, now, order);
    while i < |order|
      invariant PassUpTo(rs, now, order, i, written, sent)
    {
      var id := order[i];
      var row := rs[id];
      var next := NextFire(row, now);
      if next.Err? {
        completed := false;
        break;
      }
      PassUpToStep(rs, now, order, i, written, sent, next.value);
      written := written[id := written[id].(nextreminder := next.value)];
      sent := sent + [Notify(row.(nextreminder := next.value))];
      i := i + 1;
    }
    PollPassDeterminedBy(rs, now, order, i, written, sent);
  }

  /** When nothing is due, a pass makes no update and sends nothing. */
  lemma PollPassIdle(rs: map<nat, Reminder>, now: Timestamp, order: seq<nat>)
    requires ListsDue(rs, now, order)
    requires forall id :: id in rs ==> !Due(rs[id], now)
    ensures PollPass(rs, now, order) == Pass(rs, [], true)
  {
  }

  /** A pass that completes advances exactly the due rows, from `now`, and
      sends one notice to the owner of each. */
  lemma PollPassExactlyDue(rs: map<nat, Reminder>, now: Timestamp, order: seq<nat>)
    requires ListsDue(rs, now, order)
    requires PollPass(rs, now, order).completed
    ensures var p := PollPass(rs, now, order);
            && (forall id :: id in rs ==>
                  p.reminders[id] == if Due(rs[id], now) then Advance(rs[id], now) else rs[id])
            && |p.sent| == |order|
            && (forall i :: 0 <= i < |order| ==>
                  p.sent[i].psid == rs[order[i]].psid && p.sent[i] == Notify(Advance(rs[order[i]], now)))
  {
    PollPassEffect(rs, now, order);
    assert order[..|order|] == order;
  }

  /** A pass that stops early stops at the first listed row whose unit is
      "weeks", and leaves that row as it was, so it is still due. */
  lemma PollPassStopsOnlyAtWeeks(rs: map<nat, Reminder>, now: Timestamp, order: seq<nat>)
    requires ListsDue(rs, now, order)
    requires !PollPass(rs, now, order).completed
    ensures var k := Reached(rs, now, order);
            && k < |order| && rs[order[k]].unit == Weeks
            && (forall j :: 0 <= j < k ==> rs[order[j]].unit != Weeks)
            && PollPass(rs, now, order).reminders[order[k]] == rs[order[k]]
            && Due(PollPass(rs, now, order).reminders[order[k]], now)
  {
    PollPassEffect(rs, now, order);
    var k := Reached(rs, now, order);
    AddToDateDispatch(now, rs[order[k]].period, rs[order[k]].unit);
    forall j | 0 <= j < k
      ensures rs[order[j]].unit != Weeks
    {
      AddToDateDispatch(now, rs[order[j]].period, rs[order[j]].unit);
    }
    assert order[k] !in order[..k];
  }

  /** If every due row has a positive period and a unit other than "weeks",
      the pass completes and afterwards every row fires strictly after `now`. */
  lemma PollPassAllLater(rs: map<nat, Reminder>, now: Timestamp, order: seq<nat>)
    requires ValidDate(now) && ListsDue(rs, now, order)
    requires forall id :: id in rs && Due(rs[id], now) ==> rs[id].period > 0 && rs[id].unit != Weeks
    ensures PollPass(rs, now, order).completed
    ensures forall id :: id in PollPass(rs, now, order).reminders ==>
              TimeValue(PollPass(rs, now, order).reminders[id].nextreminder) > TimeValue(now)
  {
    PollPassEffect(rs, now, order);
    var k := Reached(rs, now, order);
    if k < |order| {
      var r := rs[order[k]];
      AddToDateLater(now, r.period, r.unit);
    }
    assert order[..|order|] == order;
    var p := PollPass(rs, now, order);
    forall id | id in p.reminders
      ensures TimeValue(p.reminders[id].nextreminder) > TimeValue(now)
    {
      if Due(rs[id], now) {
        AddToDateLater(now, rs[id].period, rs[id].unit);
      }
    }
  }

  /** A pass only writes real Dates. */
  lemma PollPassKeepsRowsOk(rs: map<nat, Reminder>, now: Timestamp, order: seq<nat>)
    requires ValidDate(now)
    requires forall i :: 0 <= i < |order| ==> order[i] in rs
    requires forall i, j :: 0 <= i < j < |order| ==> order[i] != order[j]
    requires forall id :: id in rs ==> ReminderOk(rs[id])
    ensures forall id :: id in PollPass(rs, now, order).reminders ==>
              ReminderOk(PollPass(rs, now, order).reminders[id])
  {
    PollPassEffect(rs, now, order);
    var p := PollPass(rs, now, order);
    forall id | id in p.reminders
      ensures ReminderOk(p.reminders[id])
    {
      AddToDateValid(now, rs[id].period, rs[id].unit);
    }
  }
}
