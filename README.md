# werale: the invitation and event store, modelled in Dafny

werale is a wedding-invitation app. An admin creates events, each with a list of confirmation
checkpoints (dates), and invitations that belong to an event. Guests use an invitation's link to
accept, with a headcount, or to decline. The server side lives in two tRPC routers,
`src/server/api/routers/invitations.ts` and `src/server/api/routers/events.ts`. Each procedure is
a single ORM call on the database, except invitation `create`, which first runs a
check-then-retry loop to pick a fresh random id.

This project is a small model of those two routers. It is a table model of the ORM calls plus
that one loop, and it is deliberately thin:

- `base.dfy` (module `Base`): `Option`, `Result` and the error conditions. `NotFound` is what
  Prisma raises when `findFirstOrThrow`, `update` or `delete` finds no row. `UniquenessConflict` is
  a primary-key clash. `RetriesExhausted` means the finite list of nanoid values ran out.
- `query.dfy` (module `Query`): the ORM query shapes the routers use, on a table held as a
  sequence of rows. These are `findFirst({ where })`, `findMany({ where })`,
  `orderBy: { key: 'desc' }` and `take: 1`, each with its meaning proved.
- `records.dfy` (module `Records`): the rows. An invitation carries its append-only reply log
  and an event carries its checkpoints. Timestamps and dates are integers.
- `events.dfy` (module `Events`): `events.getAll`, `events.getFirst` and the event row that
  `events.create` builds.
- `invitations.dfy` (module `Invitations`): the id allocation loop of `create` (a method with a
  `while` loop), the reply row `reply` records, the partial edit `update` applies, and the
  queries `get`, `getAll`, `getByEvent` and `hello`.
- `store.dfy` (module `Store`): class `Database`, holding both tables as `seq` fields. Its methods
  are the six mutations. They keep an invariant `Valid()`: ids are unique in both tables, every
  invitation id is a 10- or 11-character nanoid, and every declined reply records amount 0.

The environment is passed in as parameters:

- nanoid's output is `first`, the value of `nanoid(10)`, and `retries`, the successive values of
  `nanoid(11)`.
- The clock is `now`.
- The event id that the database's default generator hands out is `newId`.

## Model

| member | source | states |
|---|---|---|
| `Query.FindFirst` | src/server/api/routers/invitations.ts:25-29 | `findFirst({ where })` returns none exactly when no row satisfies the condition; otherwise it returns a row of the table that satisfies it |
| `Query.Filter` | src/server/api/routers/invitations.ts:205-208 | `findMany({ where })` returns only rows of the table that satisfy the condition, includes every row that does, and never returns more rows than the table has |
| `Query.FilterCount` | src/server/api/routers/invitations.ts:205-208 | for every value, `findMany({ where })` holds it exactly as many times as the table does when it satisfies the condition, and never otherwise |
| `Query.FilterKeepsUniqueKeys` | src/server/api/routers/invitations.ts:167-171 | removing rows from a table whose keys are unique leaves the keys unique |
| `Query.InsertDesc` | src/server/api/routers/events.ts:37-39 | inserting a row into a list ordered by key, largest first, keeps it ordered and adds exactly that row |
| `Query.SortDesc` | src/server/api/routers/events.ts:36-40 | `orderBy: 'desc'` gives a permutation of the table (same multiset of rows) that is non-increasing in the key |
| `Query.Latest` | src/server/api/routers/invitations.ts:108-113 | `orderBy: 'desc', take: 1` is empty exactly when the table is empty; otherwise it is one row of the table whose key is at least every row's key |
| `Events.ConfirmationsOf` | src/server/api/routers/events.ts:24-27 | one checkpoint per input date: the same count, and the i-th checkpoint carries the i-th date |
| `Events.DatesOf` | src/server/api/routers/events.ts:26 | reading the dates back from a checkpoint list gives one date per checkpoint |
| `Events.DatesOfConfirmationsOf` | src/server/api/routers/events.ts:24-27 | round trip: reading the dates back from the stored checkpoints gives exactly the input list, in order |
| `Events.NewEvent` | src/server/api/routers/events.ts:21-30 | the created event has the given id, the given name and `createdAt = now`, and its checkpoints give back the input dates |
| `Events.FindEvent` | src/server/api/routers/invitations.ts:114-115 | looking up an event by id returns none exactly when no event has that id; otherwise it returns the event with that id |
| `Events.GetAll` | src/server/api/routers/events.ts:32-41 | returns every event exactly once (same multiset), with `createdAt` non-increasing |
| `Events.GetFirst` | src/server/api/routers/events.ts:42-51 | returns none exactly when there is no event; otherwise it returns a stored event with the largest `createdAt` |
| `Events.GetFirstHeadsGetAll` | src/server/api/routers/events.ts:36-50 | `getFirst` and the head of `getAll` have the same `createdAt` |
| `Invitations.FindInvitation` | src/server/api/routers/invitations.ts:25-29 | the lookup by id finds nothing exactly when the id is not held by any invitation |
| `Invitations.AllocateId` | src/server/api/routers/invitations.ts:23-35 | the returned id is held by no invitation and has length 10 or 11 in nanoid's alphabet; it is the first candidate if that one is free, otherwise the first free retry, with every earlier candidate taken; failure means every candidate was taken |
| `Invitations.NewInvitation` | src/server/api/routers/invitations.ts:37-42 | the inserted row carries the input fields, the allocated id and an empty reply log |
| `Invitations.RecordedReply` | src/server/api/routers/invitations.ts:62-90 | a decline records status Declined and amount 0; an accept records status Accepted and the requested amount; both are stamped `now` |
| `Invitations.WithReply` | src/server/api/routers/invitations.ts:63-90 | `reply` changes no field of the invitation; the log grows by exactly one entry, earlier entries are untouched, and the "declines record 0" invariant is kept |
| `Invitations.Patched` | src/server/api/routers/invitations.ts:145-156 | `update` replaces exactly the supplied fields among name, description and amount; id, eventId and the reply log never change |
| `Invitations.PatchedIdempotent` | src/server/api/routers/invitations.ts:147-156 | applying the same update twice equals applying it once |
| `Invitations.EmptyPatchIsIdentity` | src/server/api/routers/invitations.ts:147-156 | an update that supplies no field leaves the invitation unchanged |
| `Invitations.WithLatestReply` | src/server/api/routers/invitations.ts:107-113 | the included reply list has the invitation's own fields and at most one reply, one with maximal `updatedAt`; it is empty only when the log is empty |
| `Invitations.LatestAfterReply` | src/server/api/routers/invitations.ts:62-113 | after a reply stamped later than every earlier reply, the latest-reply query returns exactly that reply |
| `Invitations.LatestPastConfirmations` | src/server/api/routers/invitations.ts:116-126 | at most one checkpoint; empty exactly when every checkpoint is after `now`; otherwise a stored checkpoint dated no later than `now` whose date is maximal among those |
| `Invitations.Get` | src/server/api/routers/invitations.ts:103-130 | NotFound exactly when no invitation has the id; otherwise the invitation with that id, with its latest reply, and its own event (the one whose id is the invitation's `eventId`, present when the events table holds it) with only its latest past checkpoint |
| `Invitations.GetAll` | src/server/api/routers/invitations.ts:181-194 | every invitation, in table order, each with its own fields and its latest reply |
| `Invitations.GetByEvent` | src/server/api/routers/invitations.ts:195-218 | every returned row belongs to the event, and every stored invitation of the event is returned with its latest reply |
| `Invitations.GetByEventCount` | src/server/api/routers/invitations.ts:205-208 | `getByEvent` returns as many rows as `findMany({ where: { eventId } })` selects, so no invitation is repeated or dropped |
| `Invitations.GetByEventRows` | src/server/api/routers/invitations.ts:205-217 | each returned row is a stored invitation of that event, with its latest reply |
| `Invitations.GetByEventIsPartOfGetAll` | src/server/api/routers/invitations.ts:184-217 | every row of `getByEvent` is also a row of `getAll`, and every row of `getAll` whose event matches is in that event's `getByEvent` |
| `Invitations.GetAfterCreate` | src/server/api/routers/invitations.ts:37-42 | once a row with a fresh id is inserted, `get` on that id succeeds and reports that row's latest reply |
| `Invitations.GetAfterDelete` | src/server/api/routers/invitations.ts:167-171 | once the row with an id is deleted, `get` on that id fails with NotFound |
| `Invitations.Hello` | src/server/api/routers/invitations.ts:173-179 | the greeting is "Hello " followed by exactly the caller's text |
| `Invitations.HelloInjective` | src/server/api/routers/invitations.ts:176-178 | different texts give different greetings |
| `Store.Database.CreateInvitation` | src/server/api/routers/invitations.ts:19-43 | inserts exactly one new row (input fields plus a fresh and allocated id) at the end of the table; no existing invitation or event changes; the store invariant is kept |
| `Store.Database.ReplyTo` | src/server/api/routers/invitations.ts:58-91 | NotFound, with nothing changed, exactly when the id is absent; otherwise only that invitation changes, gaining one reply at the end of its log; it returns the updated invitation together with its log, where the source's `update` returns only the scalar fields |
| `Store.Database.UpdateInvitation` | src/server/api/routers/invitations.ts:142-157 | NotFound, with nothing changed, exactly when the id is absent; otherwise only that invitation changes, by `Patched` |
| `Store.Database.DeleteInvitation` | src/server/api/routers/invitations.ts:164-172 | NotFound, with nothing changed, exactly when the id is absent; otherwise the id is gone, every other invitation is still there, and no row is added |
| `Store.Database.CreateEvent` | src/server/api/routers/events.ts:16-31 | appends exactly one event with the given name, `createdAt = now` and one checkpoint per input date in input order; a taken id is refused with nothing changed |
| `Store.Database.DeleteEvent` | src/server/api/routers/events.ts:58-66 | NotFound, with nothing changed, exactly when the id is absent; otherwise the event is gone, every other event is still there, and the invitations are unchanged |

## Left out

- Invitations.AllocateId: the source's `while (true)` loop draws from nanoid for ever. The model draws from a finite list and reports `RetriesExhausted` when the list runs out. This is a fuel bound, not a claim that the source's loop is bounded. nanoid's randomness is not modelled: `first` and `retries` are arbitrary values of the right length and alphabet.
- Store.Database.CreateInvitation: the race between two concurrent `create` calls, which both pass the lookup before either inserts, is not modelled. The model is sequential. Also not modelled: whatever uniqueness constraint the database schema enforces at write time, and the rejection of an `eventId` that names no event (a foreign-key constraint). The schema is not part of this model.
- Store.Database.CreateEvent: the event id comes from the database's default generator, which is not part of this model. It is the parameter `newId`, and a clash is reported as `UniquenessConflict`.
- Store.Database.DeleteEvent: what the database does with invitations of a deleted event (cascade or refusal) is set by the schema, which is not part of this model. The model leaves the invitations table as it is.
- Store.Database.DeleteInvitation: the invitation's reply log is part of its row in this model, so it disappears with the row. This assumes a schema that cascades the delete to replies; under a restricting schema the source's `delete` would fail for an invitation that has replies, and the model does not capture that failure.
- Store.Database.DeleteEvent: likewise, the event's checkpoints disappear with the row, assuming a cascading schema; under a restricting schema the source's `delete` would fail for an event that has checkpoints.
- Store.Database.ReplyTo: returns the invitation with its reply log, where the source's `update` without `include` returns only the invitation's scalar fields. No router reads the returned value.
- Invitations.Get: the owning event is an `Option`. The model does not enforce that an invitation's `eventId` names a stored event.
- Query.Latest, Invitations.WithLatestReply, Invitations.LatestPastConfirmations, Events.GetFirst: the database breaks ties among equal `updatedAt`, dates or `createdAt` in a way this model does not know. The contracts promise only "some maximal row", although the model's own sort picks one particular row.
- Query.FindFirst: `findFirst` without `orderBy` promises only some matching row. With unique ids there is exactly one.
- Invitations.RecordedReply: the reply is not checked against the invitation's `amount`, and the model adds no such check. Amounts are Dafny `int`, so the JavaScript `number` values that are not integers (fractions, NaN) are not modelled.
- The reply-versus-checkpoint supersession rule, which treats a reply older than the latest past checkpoint as no reply, does not occur in the two routers. The page that would apply it is not part of this model.
- The id loop has no retry cap and no candidate length beyond 11: the code always retries at length 11 and never gives up, and the model does the same (up to the finite candidate list above).
- `getSecretMessage` returns a constant string and is not modelled.
- Authentication (`publicProcedure` versus `protectedProcedure`), zod input validation, tRPC routing (`src/server/api/root.ts`), the ORM itself, all pages and UI components, the countdown timer, i18n and configuration are not part of this model.
- The model does not include the reply `id` and `createdAt` fields, the checkpoint ids, or the `createdAt`/`updatedAt` columns of an invitation, because no router reads them. `updatedAt` of a new reply is the parameter `now`.
