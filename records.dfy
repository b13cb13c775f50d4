/**
 * The rows of the two tables the routers work on. Timestamps and dates are integers
 * (milliseconds since the epoch); a reply belongs to the invitation whose log holds it.
 */
module Records {
  import opened Base

  type Timestamp = int

  datatype Status = Accepted | Declined

  /** One entry of an invitation's append-only reply log. */
  datatype Reply = Reply(status: Status, amount: int, updatedAt: Timestamp)

  datatype Invitation = Invitation(
    id: string,
    eventId: string,
    name: string,
    description: Option<string>,
    amount: int,
    replies: seq<Reply>)

  /** A confirmation checkpoint of an event. */
  datatype Confirmation = Confirmation(date: Timestamp)

  datatype Event = Event(id: string, name: string, createdAt: Timestamp, confirmations: seq<Confirmation>)

  // Keys the queries order or identify rows by, as named functions so that every use is the same term.
  function InvitationKey(x: Invitation): string { x.id }
  function EventKey(e: Event): string { e.id }
  function UpdatedAt(r: Reply): int { r.updatedAt }
  function ConfirmationDate(c: Confirmation): int { c.date }
  function CreatedAt(e: Event): int { e.createdAt }

  function IdsOf(invs: seq<Invitation>): set<string> {
    set x | x in invs :: x.id
  }

  function EventIdsOf(events: seq<Event>): set<string> {
    set e | e in events :: e.id
  }
}
