/** The read side of the events router, and the row `create` builds. */
module Events {
  import opened Base
  import opened Records
  import opened Query

  /** `confirmations.map((date) => ({ date }))`: one checkpoint per input date, in input order. */
  function ConfirmationsOf(dates: seq<Timestamp>): (r: seq<Confirmation>)
    ensures |r| == |dates|
    ensures forall i :: 0 <= i < |r| ==> r[i].date == dates[i]
  {
    seq(|dates|, i requires 0 <= i < |dates| => Confirmation(dates[i]))
  }

  /** The dates of a list of checkpoints, the inverse of `ConfirmationsOf`. */
  function DatesOf(cs: seq<Confirmation>): (r: seq<Timestamp>)
    ensures |r| == |cs|
  {
    if cs == [] then [] else [cs[0].date] + DatesOf(cs[1..])
  }

  /** Creating an event loses no date and invents none: the stored checkpoints give back the input list. */
  lemma {:induction false} DatesOfConfirmationsOf(dates: seq<Timestamp>)
    ensures DatesOf(ConfirmationsOf(dates)) == dates
  {
    if dates != [] {
      DatesOfConfirmationsOf(dates[1..]);
      assert ConfirmationsOf(dates)[1..] == ConfirmationsOf(dates[1..]);
    }
  }

  /** The row `events.create` stores. */
  function NewEvent(id: string, name: string, now: Timestamp, dates: seq<Timestamp>): (e: Event)
    ensures e.id == id && e.name == name && e.createdAt == now
    ensures DatesOf(e.confirmations) == dates
  {
    DatesOfConfirmationsOf(dates);
    Event(id, name, now, ConfirmationsOf(dates))
  }

  /** Point lookup of an event by id. */
  function FindEvent(events: seq<Event>, id: string): (r: Option<Event>)
    ensures r.None? <==> id !in EventIdsOf(events)
    ensures r.Some? ==> r.value in events && r.value.id == id
  {
    FindFirst(events, (e: Event) => e.id == id)
  }

  /** `events.getAll`: every event exactly once, newest `createdAt` first. */
  function GetAll(events: seq<Event>): (r: seq<Event>)
    ensures SortedDesc(r, CreatedAt)
    ensures multiset(r) == multiset(events)
  {
    SortDesc(events, CreatedAt)
  }

  /** `events.getFirst`: an event with the largest `createdAt`, or none when there is no event. */
  function GetFirst(events: seq<Event>): (r: Option<Event>)
    ensures r.None? <==> events == []
    ensures r.Some? ==> r.value in events
    ensures r.Some? ==> forall i :: 0 <= i < |events| ==> events[i].createdAt <= r.value.createdAt
  {
    var top := Latest(events, CreatedAt);
    if top == [] then None else Some(top[0])
  }

  /** `getFirst` and `getAll` agree: the first event has the creation time at the head of the list. */
  lemma GetFirstHeadsGetAll(events: seq<Event>)
    requires events != []
    ensures GetAll(events) != []
    ensures GetFirst(events).value.createdAt == GetAll(events)[0].createdAt
  {
  }
}
