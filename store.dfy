/**
 * The two tables the routers mutate, as one object, and the router mutations as its methods:
 * invitations.create / reply / update / delete and events.create / delete.
 */
module Store {
  import opened Base
  import opened Records
  import opened Query
  import opened Invitations
  import Events

  class Database {
    var invitations: seq<Invitation>
    var events: seq<Event>

    /**
     * What every mutation keeps: ids are primary keys, every invitation id came out of the
     * allocation loop, and a declined reply never records a headcount.
     */
    ghost predicate Valid()
      reads this
    {
      UniqueKeys(invitations, InvitationKey) &&
      UniqueKeys(events, EventKey) &&
      (forall i :: 0 <= i < |invitations| ==> IsAllocatedId(invitations[i].id)) &&
      (forall i :: 0 <= i < |invitations| ==> DeclinesRecordZero(invitations[i].replies))
    }

    constructor ()
      ensures Valid() && invitations == [] && events == []
    {
      invitations := [];
      events := [];
    }

    /**
     * `invitations.create`: allocate an id no invitation holds, then insert exactly one new row
     * carrying the input fields. `first` and `retries` are the values nanoid hands out.
     */
    method CreateInvitation(eventId: string, name: string, description: Option<string>, amount: int,
                            first: string, retries: seq<string>) returns (r: Result<Invitation>)
      requires Valid()
      requires IsNanoId(first, 10)
      requires forall k :: 0 <= k < |retries| ==> IsNanoId(retries[k], 11)
      modifies this
      ensures Valid()
      ensures events == old(events)
      ensures r.Ok? ==> r.value.id !in IdsOf(old(invitations)) && IsAllocatedId(r.value.id)
      ensures r.Ok? ==> r.value == NewInvitation(r.value.id, eventId, name, description, amount)
      ensures r.Ok? ==> invitations == old(invitations) + [r.value]
      ensures r.Err? ==> r.error == RetriesExhausted && invitations == old(invitations)
    {
      var id := AllocateId(invitations, first, retries);
      if id.Err? {
        return Err(id.error);
      }
      var row := NewInvitation(id.value, eventId, name, description, amount);
      AppendKeepsUniqueKeys(invitations, row, InvitationKey);
      invitations := invitations + [row];
      return Ok(row);
    }

    /**
     * `invitations.reply`: append one reply to the log of invitation `id`; declining records
     * amount 0, accepting records the requested amount. Fails with NotFound when there is no such invitation.
     */
    method ReplyTo(id: string, input: ReplyInput, now: Timestamp) returns (r: Result<Invitation>)
      requires Valid()
      modifies this
      ensures Valid()
      ensures events == old(events)
      ensures r.Err? <==> id !in IdsOf(old(invitations))
      ensures r.Err? ==> r.error == NotFound && invitations == old(invitations)
      ensures r.Ok? ==> |invitations| == |old(invitations)|
      ensures r.Ok? ==> forall i :: 0 <= i < |invitations| ==>
                invitations[i] == if old(invitations)[i].id == id then WithReply(old(invitations)[i], input, now)
                                  else old(invitations)[i]
      ensures r.Ok? ==> r.value in invitations && r.value.id == id
      ensures r.Ok? ==> r.value.replies != [] && Last(r.value.replies) == RecordedReply(input, now)
    {
      var found := FindInvitation(invitations, id);
      if found.None? {
        return Err(NotFound);
      }
      var before := invitations;
      var k :| 0 <= k < |before| && before[k] == found.value;
      var updated := WithReply(found.value, input, now);
      invitations := seq(|before|, i requires 0 <= i < |before| =>
        if before[i].id == id then WithReply(before[i], input, now) else before[i]);
      assert invitations[k] == updated;
      assert forall i :: 0 <= i < |before| ==> InvitationKey(invitations[i]) == InvitationKey(before[i]);
      return Ok(updated);
    }

    /** `invitations.update`: replace the supplied fields of invitation `id`; nothing else changes. */
    method UpdateInvitation(id: string, patch: Patch) returns (r: Result<()>)
      requires Valid()
      modifies this
      ensures Valid()
      ensures events == old(events)
      ensures r.Err? <==> id !in IdsOf(old(invitations))
      ensures r.Err? ==> r.error == NotFound && invitations == old(invitations)
      ensures r.Ok? ==> |invitations| == |old(invitations)|
      ensures r.Ok? ==> forall i :: 0 <= i < |invitations| ==>
                invitations[i] == if old(invitations)[i].id == id then Patched(old(invitations)[i], patch)
                                  else old(invitations)[i]
    {
      var found := FindInvitation(invitations, id);
      if found.None? {
        return Err(NotFound);
      }
      var before := invitations;
      invitations := seq(|before|, i requires 0 <= i < |before| =>
        if before[i].id == id then Patched(before[i], patch) else before[i]);
      assert forall i :: 0 <= i < |before| ==> InvitationKey(invitations[i]) == InvitationKey(before[i]);
      return Ok(());
    }

    /** `invitations.delete`: remove exactly the invitation `id`. */
    method DeleteInvitation(id: string) returns (r: Result<()>)
      requires Valid()
      modifies this
      ensures Valid()
      ensures events == old(events)
      ensures r.Err? <==> id !in IdsOf(old(invitations))
      ensures r.Err? ==> r.error == NotFound && invitations == old(invitations)
      ensures r.Ok? ==> id !in IdsOf(invitations)
      ensures r.Ok? ==> forall x :: x in old(invitations) && x.id != id ==> x in invitations
      ensures r.Ok? ==> forall i :: 0 <= i < |invitations| ==> invitations[i] in old(invitations)
    {
      var found := FindInvitation(invitations, id);
      if found.None? {
        return Err(NotFound);
      }
      FilterKeepsUniqueKeys(invitations, (x: Invitation) => x.id != id, InvitationKey);
      invitations := Filter(invitations, (x: Invitation) => x.id != id);
      return Ok(());
    }

    /**
     * `events.create`: store one event created at `now`, with one checkpoint per input date in
     * input order. `newId` is the id the store's default generator hands out; the store refuses
     * an id that is already taken.
     */
    method CreateEvent(name: string, dates: seq<Timestamp>, newId: string, now: Timestamp) returns (r: Result<Event>)
      requires Valid()
      modifies this
      ensures Valid()
      ensures invitations == old(invitations)
      ensures r.Err? <==> newId in EventIdsOf(old(events))
      ensures r.Err? ==> r.error == UniquenessConflict && events == old(events)
      ensures r.Ok? ==> r.value == Events.NewEvent(newId, name, now, dates)
      ensures r.Ok? ==> |r.value.confirmations| == |dates| && Events.DatesOf(r.value.confirmations) == dates
      ensures r.Ok? ==> events == old(events) + [r.value]
    {
      var clash := Events.FindEvent(events, newId);
      if clash.Some? {
        return Err(UniquenessConflict);
      }
      var e := Events.NewEvent(newId, name, now, dates);
      AppendKeepsUniqueKeys(events, e, EventKey);
      events := events + [e];
      return Ok(e);
    }

    /** `events.delete`: remove exactly the event `id`. */
    method DeleteEvent(id: string) returns (r: Result<()>)
      requires Valid()
      modifies this
      ensures Valid()
      ensures invitations == old(invitations)
      ensures r.Err? <==> id !in EventIdsOf(old(events))
      ensures r.Err? ==> r.error == NotFound && events == old(events)
      ensures r.Ok? ==> id !in EventIdsOf(events)
      ensures r.Ok? ==> forall e :: e in old(events) && e.id != id ==> e in events
      ensures r.Ok? ==> forall i :: 0 <= i < |events| ==> events[i] in old(events)
    {
      var found := Events.FindEvent(events, id);
      if found.None? {
        return Err(NotFound);
      }
      FilterKeepsUniqueKeys(events, (e: Event) => e.id != id, EventKey);
      events := Filter(events, (e: Event) => e.id != id);
      return Ok(());
    }
  }

  function Last(log: seq<Reply>): Reply
    requires log != []
  {
    log[|log| - 1]
  }

  /** Appending a row with a fresh key keeps the keys unique. */
  lemma AppendKeepsUniqueKeys<T, K>(s: seq<T>, x: T, key: T -> K)
    requires UniqueKeys(s, key)
    requires forall i :: 0 <= i < |s| ==> key(s[i]) != key(x)
    ensures UniqueKeys(s + [x], key)
  {
  }
}
