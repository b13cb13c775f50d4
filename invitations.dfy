/**
 * The invitations router: the id allocation loop of `create`, the reply a `reply` call records,
 * the partial edit `update` applies, and the read queries `get`, `getAll`, `getByEvent`, `hello`.
 */
module Invitations {
  import opened Base
  import opened Records
  import opened Query
  import Events

  /** Point lookup of an invitation by id (`findFirst({ where: { id } })`). */
  function FindInvitation(invs: seq<Invitation>, id: string): (r: Option<Invitation>)
    ensures r.None? <==> id !in IdsOf(invs)
    ensures r.Some? ==> r.value in invs && r.value.id == id
  {
    FindFirst(invs, (x: Invitation) => x.id == id)
  }

  // ---------------------------------------------------------------- identifier allocation

  /** A character of nanoid's URL-safe alphabet. */
  predicate IsNanoIdChar(c: char) {
    'A' <= c <= 'Z' || 'a' <= c <= 'z' || '0' <= c <= '9' || c == '_' || c == '-'
  }

  /** What `nanoid(size)` returns: `size` characters of the URL-safe alphabet. */
  predicate IsNanoId(s: string, size: nat) {
    |s| == size && forall i :: 0 <= i < |s| ==> IsNanoIdChar(s[i])
  }

  /** An id `create` can hand out: the first candidate's length or a retry's. */
  predicate IsAllocatedId(s: string) {
    IsNanoId(s, 10) || IsNanoId(s, 11)
  }

  /**
   * The loop of `create`: look the candidate up; stop at the first one no invitation holds,
   * otherwise draw a new one. `first` is what `nanoid(10)` returned and `retries` what the
   * successive `nanoid(11)` calls return; when they run out the model reports RetriesExhausted,
   * where the source would keep drawing.
   */
  method AllocateId(invs: seq<Invitation>, first: string, retries: seq<string>) returns (r: Result<string>)
    requires IsNanoId(first, 10)
    requires forall k :: 0 <= k < |retries| ==> IsNanoId(retries[k], 11)
    ensures r.Ok? ==> r.value !in IdsOf(invs)
    ensures r.Ok? ==> IsAllocatedId(r.value)
    ensures r.Ok? && r.value != first ==>
      first in IdsOf(invs) &&
      exists k :: 0 <= k < |retries| && r.value == retries[k] &&
        forall j :: 0 <= j < k ==> retries[j] in IdsOf(invs)
    ensures r.Err? ==> r.error == RetriesExhausted
    ensures r.Err? ==> first in IdsOf(invs) && forall k :: 0 <= k < |retries| ==> retries[k] in IdsOf(invs)
  {
    var id := first;
    var i := 0;
    while true
      invariant 0 <= i <= |retries|
      invariant i == 0 ==> id == first
      invariant i > 0 ==> id == retries[i - 1] && first in IdsOf(invs)
      invariant forall j :: 0 <= j < i - 1 ==> retries[j] in IdsOf(invs)
      decreases |retries| - i
    {
      var found := FindInvitation(invs, id);
      if found.None? {
        return Ok(id);
      }
      if i == |retries| {
        return Err(RetriesExhausted);
      }
      id := retries[i];
      i := i + 1;
    }
  }

  /** The row `create` inserts: the input fields, the allocated id, and an empty reply log. */
  function NewInvitation(id: string, eventId: string, name: string, description: Option<string>, amount: int): (x: Invitation)
    ensures x.id == id && x.eventId == eventId && x.name == name
    ensures x.description == description && x.amount == amount && x.replies == []
  {
    Invitation(id, eventId, name, description, amount, [])
  }

  // ---------------------------------------------------------------- replies

  /** The two shapes of `reply` input; a decline carries no amount. */
  datatype ReplyInput = Accept(acceptedAmount: int) | Decline

  /** The reply row `reply` creates at time `now`. */
  function RecordedReply(input: ReplyInput, now: Timestamp): (r: Reply)
    ensures r.updatedAt == now
    ensures input.Decline? ==> r.status == Declined && r.amount == 0
    ensures input.Accept? ==> r.status == Accepted && r.amount == input.acceptedAmount
  {
    match input
    case Decline => Reply(Declined, 0, now)
    case Accept(n) => Reply(Accepted, n, now)
  }

  /** Every declined reply in the log records amount 0. */
  predicate DeclinesRecordZero(log: seq<Reply>) {
    forall k :: 0 <= k < |log| ==> log[k].status == Declined ==> log[k].amount == 0
  }

  /** All fields of two invitations agree except possibly the reply log. */
  predicate SameFields(a: Invitation, b: Invitation) {
    a.id == b.id && a.eventId == b.eventId && a.name == b.name &&
    a.description == b.description && a.amount == b.amount
  }

  /** The invitation after `reply`: the log grows by exactly the new reply, nothing else changes. */
  function WithReply(inv: Invitation, input: ReplyInput, now: Timestamp): (r: Invitation)
    ensures SameFields(r, inv)
    ensures |r.replies| == |inv.replies| + 1
    ensures r.replies[..|inv.replies|] == inv.replies
    ensures r.replies[|inv.replies|] == RecordedReply(input, now)
    ensures DeclinesRecordZero(inv.replies) ==> DeclinesRecordZero(r.replies)
  {
    inv.(replies := inv.replies + [RecordedReply(input, now)])
  }

  // ---------------------------------------------------------------- update

  /** The optional fields `update` accepts; an absent field is left as it is. */
  datatype Patch = Patch(name: Option<string>, description: Option<string>, amount: Option<int>)

  /** The invitation after `update`: each supplied field replaced, every other field and the log kept. */
  function Patched(inv: Invitation, p: Patch): (r: Invitation)
    ensures r.id == inv.id && r.eventId == inv.eventId && r.replies == inv.replies
    ensures r.name == (if p.name.Some? then p.name.value else inv.name)
    ensures r.description == (if p.description.Some? then p.description else inv.description)
    ensures r.amount == (if p.amount.Some? then p.amount.value else inv.amount)
  {
    Invitation(
      inv.id,
      inv.eventId,
      match p.name case Some(n) => n case None => inv.name,
      match p.description case Some(d) => Some(d) case None => inv.description,
      match p.amount case Some(a) => a case None => inv.amount,
      inv.replies)
  }

  /** Applying the same update twice is the same as applying it once. */
  lemma PatchedIdempotent(inv: Invitation, p: Patch)
    ensures Patched(Patched(inv, p), p) == Patched(inv, p)
  {
  }

  /** An update that supplies no field changes nothing. */
  lemma EmptyPatchIsIdentity(inv: Invitation)
    ensures Patched(inv, Patch(None, None, None)) == inv
  {
  }

  // ---------------------------------------------------------------- queries

  /** `y` is `x` as the queries return it: same fields, and at most one reply, a latest one. */
  predicate IsSummaryOf(y: Invitation, x: Invitation) {
    SameFields(y, x) && IsLatestOf(y.replies, x.replies, UpdatedAt)
  }

  /** `include: { replies: { orderBy: { updatedAt: 'desc' }, take: 1 } }` on one invitation. */
  function WithLatestReply(inv: Invitation): (r: Invitation)
    ensures IsSummaryOf(r, inv)
  {
    inv.(replies := Latest(inv.replies, UpdatedAt))
  }

  /** After a reply stamped later than every earlier one, the queries report exactly that reply. */
  lemma LatestAfterReply(inv: Invitation, input: ReplyInput, now: Timestamp)
    requires forall k :: 0 <= k < |inv.replies| ==> inv.replies[k].updatedAt < now
    ensures WithLatestReply(WithReply(inv, input, now)).replies == [RecordedReply(input, now)]
  {
  }

  /** `r` is what the checkpoint query may return for the checkpoints `cs`: at most one, a latest one dated no later than `now`. */
  predicate IsLatestPastOf(r: seq<Confirmation>, cs: seq<Confirmation>, now: Timestamp) {
    |r| <= 1 &&
    (r == [] <==> forall k :: 0 <= k < |cs| ==> cs[k].date > now) &&
    (r != [] ==> r[0] in cs && r[0].date <= now &&
                 forall k :: 0 <= k < |cs| && cs[k].date <= now ==> cs[k].date <= r[0].date)
  }

  /** `confirmations: { orderBy: { date: 'desc' }, where: { date: { lte: now } }, take: 1 }`. */
  function LatestPastConfirmations(cs: seq<Confirmation>, now: Timestamp): (r: seq<Confirmation>)
    ensures IsLatestPastOf(r, cs, now)
  {
    var past := Filter(cs, (c: Confirmation) => c.date <= now);
    var r := Latest(past, ConfirmationDate);
    assert r == [] ==> forall k :: 0 <= k < |cs| ==> cs[k].date > now by {
      if r == [] {
        forall k | 0 <= k < |cs| ensures cs[k].date > now {
        }
      }
    }
    assert r != [] ==> forall k :: 0 <= k < |cs| && cs[k].date <= now ==> cs[k].date <= r[0].date by {
      if r != [] {
        forall k | 0 <= k < |cs| && cs[k].date <= now ensures cs[k].date <= r[0].date {
          assert cs[k] in past;
          var j :| 0 <= j < |past| && past[j] == cs[k];
          assert ConfirmationDate(past[j]) <= ConfirmationDate(r[0]);
        }
      }
    }
    assert r != [] ==> r[0] in past;
    r
  }

  /** `v` is event `e` as `get` includes it: same fields, only its latest past checkpoint. */
  predicate IsCheckpointSummaryOf(v: Event, e: Event, now: Timestamp) {
    v.id == e.id && v.name == e.name && v.createdAt == e.createdAt &&
    IsLatestPastOf(v.confirmations, e.confirmations, now)
  }

  /** What `get` returns: the invitation with its latest reply, and its event with its latest past checkpoint. */
  datatype InvitationDetails = InvitationDetails(invitation: Invitation, event: Option<Event>)

  /**
   * `invitations.get`: fails with NotFound when no invitation has `id`. The owning event is
   * absent from the result only when the events table has no row with the invitation's `eventId`.
   */
  function Get(invs: seq<Invitation>, events: seq<Event>, id: string, now: Timestamp): (r: Result<InvitationDetails>)
    ensures r.Err? <==> id !in IdsOf(invs)
    ensures r.Err? ==> r.error == NotFound
    ensures r.Ok? ==> r.value.invitation.id == id
    ensures r.Ok? ==> exists j :: 0 <= j < |invs| && IsSummaryOf(r.value.invitation, invs[j])
    ensures r.Ok? ==> (r.value.event.Some? <==> r.value.invitation.eventId in EventIdsOf(events))
    ensures r.Ok? && r.value.event.Some? ==> r.value.event.value.id == r.value.invitation.eventId
    ensures r.Ok? && r.value.event.Some? ==>
      exists j :: 0 <= j < |events| && IsCheckpointSummaryOf(r.value.event.value, events[j], now)
  {
    match FindInvitation(invs, id)
    case None => Err(NotFound)
    case Some(inv) =>
      var event :=
        match Events.FindEvent(events, inv.eventId)
        case None => None
        case Some(e) => Some(e.(confirmations := LatestPastConfirmations(e.confirmations, now)));
      Ok(InvitationDetails(WithLatestReply(inv), event))
  }

  /** `invitations.getAll`: every invitation, in table order, each with its latest reply. */
  function GetAll(invs: seq<Invitation>): (r: seq<Invitation>)
    ensures |r| == |invs|
    ensures forall i :: 0 <= i < |r| ==> IsSummaryOf(r[i], invs[i])
    ensures forall i :: 0 <= i < |r| ==> r[i] == WithLatestReply(invs[i])
  {
    seq(|invs|, i requires 0 <= i < |invs| => WithLatestReply(invs[i]))
  }

  /**
   * `invitations.getByEvent`: the invitations of event `eventId`, in table order, each with its
   * latest reply. Every such invitation is included; that there are as many rows as the table
   * has invitations of that event is GetByEventCount, and that nothing else is included, GetByEventRows.
   */
  function GetByEvent(invs: seq<Invitation>, eventId: string): (r: seq<Invitation>)
    ensures forall i :: 0 <= i < |r| ==> r[i].eventId == eventId
    ensures forall j :: 0 <= j < |invs| && invs[j].eventId == eventId ==> WithLatestReply(invs[j]) in r
  {
    if invs == [] then []
    else
      var rest := GetByEvent(invs[1..], eventId);
      assert forall j :: 1 <= j < |invs| ==> invs[j] == invs[1..][j - 1];
      if invs[0].eventId == eventId then [WithLatestReply(invs[0])] + rest else rest
  }

  /** `getByEvent` returns one row per invitation of the event: no row is repeated or dropped. */
  lemma {:induction false} GetByEventCount(invs: seq<Invitation>, eventId: string)
    ensures |GetByEvent(invs, eventId)| == |Filter(invs, (x: Invitation) => x.eventId == eventId)|
  {
    if invs != [] {
      GetByEventCount(invs[1..], eventId);
    }
  }

  /** Each row `getByEvent` returns is a stored invitation of that event, with its latest reply. */
  lemma {:induction false} GetByEventRows(invs: seq<Invitation>, eventId: string, i: nat)
    requires i < |GetByEvent(invs, eventId)|
    ensures exists j ::
      0 <= j < |invs| && invs[j].eventId == eventId && GetByEvent(invs, eventId)[i] == WithLatestReply(invs[j])
  {
    var rest := GetByEvent(invs[1..], eventId);
    if invs[0].eventId == eventId && i == 0 {
      assert GetByEvent(invs, eventId)[0] == WithLatestReply(invs[0]);
    } else {
      var k := if invs[0].eventId == eventId then i - 1 else i;
      assert GetByEvent(invs, eventId)[i] == rest[k];
      GetByEventRows(invs[1..], eventId, k);
      var j :| 0 <= j < |invs[1..]| && invs[1..][j].eventId == eventId && rest[k] == WithLatestReply(invs[1..][j]);
      assert invs[1..][j] == invs[j + 1];
    }
  }

  /** `getByEvent` is the part of `getAll` that belongs to one event. */
  lemma GetByEventIsPartOfGetAll(invs: seq<Invitation>, eventId: string)
    ensures forall y :: y in GetByEvent(invs, eventId) ==> y in GetAll(invs)
    ensures forall i :: 0 <= i < |invs| && invs[i].eventId == eventId ==> GetAll(invs)[i] in GetByEvent(invs, eventId)
  {
  }

  /** Right after `create`, `get` finds the new invitation, with no reply yet. */
  lemma GetAfterCreate(invs: seq<Invitation>, events: seq<Event>, row: Invitation, now: Timestamp)
    requires row.id !in IdsOf(invs)
    ensures Get(invs + [row], events, row.id, now).Ok?
    ensures Get(invs + [row], events, row.id, now).value.invitation.replies == Latest(row.replies, UpdatedAt)
  {
    var all := invs + [row];
    assert all[|invs|] == row && row.id in IdsOf(all);
    forall x | x in invs ensures x.id != row.id {
      assert x.id in IdsOf(invs);
    }
    var found := FindInvitation(all, row.id).value;
    assert found !in invs;
    assert found == row;
  }

  /** After `delete`, `get` on the deleted id fails with NotFound. */
  lemma GetAfterDelete(invs: seq<Invitation>, events: seq<Event>, id: string, now: Timestamp)
    ensures Get(Filter(invs, (x: Invitation) => x.id != id), events, id, now) == Err(NotFound)
  {
  }

  /** `hello`: a greeting that carries the caller's text after the fixed prefix "Hello ". */
  function Hello(text: string): (greeting: string)
    ensures |greeting| == |text| + 6
    ensures greeting[..6] == "Hello " && greeting[6..] == text
  {
    "Hello " + text
  }

  /** Different texts give different greetings: the text can be read back from the greeting. */
  lemma HelloInjective(a: string, b: string)
    requires Hello(a) == Hello(b)
    ensures a == b
  {
  }
}
