# Partner/event store — a Dafny model

This project models the core of a partner and event management API. Two
resource controllers (events and partners) read and change a relational store
holding three tables: Events, Partners, and the EventPartners join table that
associates events with partners. The schema configuration declares column
limits and defaults, the keys, a unique index on (EventId, PartnerId), and
cascading foreign keys from the join table to both parents.

The store is an immutable value (`Persistence.Store`). It holds a map per
table, keyed by each row's `Id`, and the next value of each table's identity
column. Each state-changing handler is a pure function from a store (plus
request fields and a clock value) to a `Step`: a reply and the new store. The
reply is `Ok(value)`, `NotFound(message)` or `BadRequest(message)`, with the
controller's own messages. Read handlers return only a reply. `DateTime`
values are integer ticks, and the handlers that stamp rows take the current
tick as a parameter. `Persistence.Valid` holds every constraint the schema
declares:

- each row sits under its own id;
- each row respects its column limits;
- the identity counters are ahead of every id in use;
- every join row names an existing event and an existing partner;
- no (EventId, PartnerId) pair is stored twice.

Every handler's contract says it preserves `Valid` when the request's texts
fit their columns. `Api.RunPreservesValid` extends this to any sequence of
requests.

Modules, one per file:

- `common.dfy` (`Common`): nullable values, reply tags, `IsNullOrEmpty`, and ordinal substring `Contains`.
- `entities.dfy` (`Entities`): the row and request datatypes.
- `persistence.dfy` (`Persistence`): column limits and defaults, the store, `Valid`, and the two cascading deletes.
- `listing.dfy` (`Listing`): the shared list pattern. It enumerates rows, sorts descending by a key, cuts a page with `skip = (page-1)*pageSize`, and computes `totalPages` as an integer ceiling.
- `events.dfy` (`Events`): the events controller.
- `partners.dfy` (`Partners`): the partners controller.
- `api.dfy` (`Api`): all state-changing requests in one type, and runs of them.

A duplicate association is answered with BadRequest (`EventsController.cs:165`);
there is no separate Conflict reply. Search is an exact substring test (see Left out).

## Model

| member | source | states |
|---|---|---|
| Listing.SortDesc | PartnerManagement.Api/Controllers/EventsController.cs:43 | The ordered result is a permutation of the filtered rows and is non-increasing in the key. |
| Listing.PageSlice | PartnerManagement.Api/Controllers/EventsController.cs:44-45 | Skip/Take yields `min(take, max(0, n - skip))` elements, element i being input element skip+i. |
| Listing.CeilDiv | PartnerManagement.Api/Controllers/EventsController.cs:54 | The page count is the least number of pages that holds `total` items: `pages*pageSize >= total` and `(pages-1)*pageSize < total`. |
| Listing.Paginate | PartnerManagement.Api/Controllers/EventsController.cs:41-55 | `total` counts all filtered rows. The page is the slice at offset `(page-1)*pageSize`, of length at most `pageSize`, of a descending order of the filtered rows that holds each row as often as the filter yields it. `totalPages` is the ceiling of total/pageSize. |
| Listing.PagesDescend | PartnerManagement.Api/Controllers/EventsController.cs:43-45 | For pages p < q, every row on page p has a key at least that of every row on page q. |
| Listing.TiedRowMissed | PartnerManagement.Api/Controllers/EventsController.cs:43-45 | As written: two rows with equal keys and pages of one. One valid descending order gives page 1 and another gives page 2, and the same row is on both pages, so the other row is on neither. |
| Listing.EveryMatchOnSomePage | PartnerManagement.Api/Controllers/PartnersController.cs:41-54 | With one order used on every request (ties in ascending id order), paging loses nothing: every filtered row is on some page between 1 and `totalPages`. |
| Listing.Select | PartnerManagement.Api/Controllers/EventsController.cs:28-41 | The query reads only stored rows that pass the filter, reads every such row, and reads as many rows as there are matching keys. |
| Events.GetEvents | PartnerManagement.Api/Controllers/EventsController.cs:21-56 | Each listed event is stored and passes both filters: search in Name or in a present Location, exact Status. Events are ordered by StartDate, non-increasing, and the page is the slice at offset `(page-1)*pageSize` of a descending order of the filtered events. In a valid store `total` is the number of matching stored events. Also states the page length and the ceiling page count. |
| Events.FilteredEventsCount | PartnerManagement.Api/Controllers/EventsController.cs:41 | In a valid store the count equals the number of stored events that match, not just those on the page. |
| Events.EveryMatchListed | PartnerManagement.Api/Controllers/EventsController.cs:41-54 | Every stored event that matches the filters appears on some page between 1 and `totalPages`. |
| Events.LaterPagesStartEarlier | PartnerManagement.Api/Controllers/EventsController.cs:43-45 | An event on an earlier page starts no earlier than an event on a later page. |
| Events.SecondOfTwoPages | PartnerManagement.Api/Controllers/EventsController.cs:44-54 | With 15 matching events and pages of 10, page 2 holds 5 events and `totalPages` is 2. |
| Events.GetEvent | PartnerManagement.Api/Controllers/EventsController.cs:58-85 | NotFound("Event not found") exactly when the id is absent. Otherwise it returns the stored event and the same partners as the event-partners listing. |
| Events.PartnersThrough | PartnerManagement.Api/Controllers/EventsController.cs:206-210 | Each partner reached is the partner of a join row naming the event. Each join row naming the event contributes its partner. |
| Events.PartnersThroughNone | PartnerManagement.Infrastructure/Data/Configurations/EventPartnerConfiguration.cs:26-28 | An event that no join row names reaches no partner. |
| Events.PartnersThroughDistinct | PartnerManagement.Infrastructure/Data/Configurations/EventPartnerConfiguration.cs:37-39 | Because each pair is unique, no partner is reached twice from the same event. |
| Events.GetEventPartners | PartnerManagement.Api/Controllers/EventsController.cs:197-213 | NotFound("Event not found") exactly when the event is absent. Otherwise only stored partners are listed. |
| Events.GetEventPartnersExact | PartnerManagement.Api/Controllers/EventsController.cs:206-212 | In a valid store a partner is listed iff a join row (id, partnerId) exists, and no partner is listed twice. |
| Events.NewEvent | PartnerManagement.Infrastructure/Data/Configurations/EventConfiguration.cs:15-34 | Status defaults to "planned". The new row respects the Events column limits iff the request fits them. |
| Events.CreateEvent | PartnerManagement.Api/Controllers/EventsController.cs:87-104 | Stores one event under an id not in use, with the request's fields and default status. Both timestamps are the clock value. No other event, partner or join row changes. Preserves `Valid` for a fitting request. |
| Events.UpdatedEvent | PartnerManagement.Api/Controllers/EventsController.cs:116-122 | The old status is kept when the request has none. Over a well-formed row, the result is well-formed iff the request fits. |
| Events.UpdateEvent | PartnerManagement.Api/Controllers/EventsController.cs:106-127 | An absent id gives NotFound and an unchanged store. Otherwise it replaces the five fields, nullable ones included, and keeps the old status when none is given. UpdatedAt is set to the clock. Id and creation fields are kept. Nothing else changes, the identity counters included, and `Valid` is preserved for a fitting request. |
| Events.DeleteEvent | PartnerManagement.Api/Controllers/EventsController.cs:129-143 | An absent id gives NotFound and an unchanged store. Otherwise the event is gone, no join row names it, and all partners remain. Preserves `Valid`. |
| Events.AddPartnerToEvent | PartnerManagement.Api/Controllers/EventsController.cs:145-178 | Checks run in order: event missing, then partner missing (both NotFound), then pair present (BadRequest); each leaves the store unchanged. Otherwise exactly one join row (id, partnerId) is added under a fresh key. Only the join table's identity counter advances; nothing else changes. Preserves `Valid`. |
| Events.RemovePartnerFromEvent | PartnerManagement.Api/Controllers/EventsController.cs:180-195 | No row (id, partnerId) gives NotFound and an unchanged store. Otherwise the rows with that pair are removed and all others kept. Preserves `Valid`. |
| Events.RemoveDeletesOneRow | PartnerManagement.Api/Controllers/EventsController.cs:183-191 | In a valid store removing an association deletes exactly one join row. |
| Events.AddTwiceRejected | PartnerManagement.Api/Controllers/EventsController.cs:160-166 | Adding the same pair twice: the first succeeds, the second is BadRequest and changes nothing. |
| Events.AddRemoveAdd | PartnerManagement.Api/Controllers/EventsController.cs:145-195 | Add, then remove, then add again: all three succeed. |
| Events.CreateThenGet | PartnerManagement.Api/Controllers/EventsController.cs:58-104 | A created event reads back with the request's fields, the default status when none was given, and no partners. |
| Events.DeleteThenNoPartners | PartnerManagement.Infrastructure/Data/Configurations/EventPartnerConfiguration.cs:26-29 | After deleting an event, listing its partners is NotFound and no association with it remains. |
| Persistence.CascadeDeleteEvent | PartnerManagement.Infrastructure/Data/Configurations/EventPartnerConfiguration.cs:26-29 | Deleting an event removes exactly the join rows with that EventId and leaves the other rows unchanged. Preserves `Valid`. |
| Persistence.CascadeDeletePartner | PartnerManagement.Infrastructure/Data/Configurations/EventPartnerConfiguration.cs:31-34 | Deleting a partner removes exactly the join rows with that PartnerId, and all events remain. Preserves `Valid`. |
| Partners.GetPartners | PartnerManagement.Api/Controllers/PartnersController.cs:21-56 | Each listed partner is stored and passes both filters: search in Name or in a present ContactPerson, exact Status. Partners are ordered by CreatedAt, non-increasing, and the page is the slice at offset `(page-1)*pageSize` of a descending order of the filtered partners. In a valid store `total` counts all matching partners. Also states the page length and the ceiling page count. |
| Partners.FilteredPartnersCount | PartnerManagement.Api/Controllers/PartnersController.cs:41 | In a valid store the count equals the number of stored partners that match. |
| Partners.EveryMatchListed | PartnerManagement.Api/Controllers/PartnersController.cs:42-54 | Every stored partner that matches the filters appears on some page between 1 and `totalPages`. |
| Partners.LaterPagesCreatedEarlier | PartnerManagement.Api/Controllers/PartnersController.cs:43-45 | A partner on an earlier page was created no earlier than a partner on a later page. |
| Partners.GetPartner | PartnerManagement.Api/Controllers/PartnersController.cs:58-69 | NotFound("Partner not found") exactly when the id is absent. Otherwise it returns the stored row, whose id in a valid store is the one asked for. |
| Partners.NewPartner | PartnerManagement.Infrastructure/Data/Configurations/PartnerConfiguration.cs:15-37 | Status defaults to "active". The new row respects the Partners column limits iff the request fits them. |
| Partners.CreatePartner | PartnerManagement.Api/Controllers/PartnersController.cs:71-89 | Stores one partner under an id not in use, with the request's six fields and default status. Both timestamps are the clock value. Events and join rows are unchanged. Preserves `Valid` for a fitting request. |
| Partners.UpdatedPartner | PartnerManagement.Api/Controllers/PartnersController.cs:101-108 | The old status is kept when the request has none. Over a well-formed row, the result is well-formed iff the request fits. |
| Partners.UpdatePartner | PartnerManagement.Api/Controllers/PartnersController.cs:91-113 | An absent id gives NotFound and an unchanged store. Otherwise it replaces all six descriptive fields, keeps the old status when none is given, and sets UpdatedAt to the clock. Nothing else changes, the identity counters included, and `Valid` is preserved for a fitting request. |
| Partners.DeletePartner | PartnerManagement.Api/Controllers/PartnersController.cs:115-129 | An absent id gives NotFound and an unchanged store. Otherwise the partner and every join row naming it are gone, and all events remain. Preserves `Valid`. |
| Partners.CreateThenGet | PartnerManagement.Api/Controllers/PartnersController.cs:58-89 | A created partner reads back unchanged, with the request's fields and the default status when none was given. |
| Partners.UpdateKeepsStatus | PartnerManagement.Api/Controllers/PartnersController.cs:107 | An update without a status keeps the stored status, and the updated row reads back. |
| Api.Handle | PartnerManagement.Infrastructure/Data/Configurations/EventPartnerConfiguration.cs:15-39 | Every state-changing handler of both controllers preserves `Valid` when the request fits its columns. |
| Api.RunPreservesValid | PartnerManagement.Infrastructure/Data/Configurations/EventPartnerConfiguration.cs:15-39 | Any sequence of fitting requests turns a valid store into a valid one: unique pairs, both foreign keys, keys and column limits. |

## Left out

- Authentication (`AuthController.cs`) is left out: registration, password checks and role lookup are calls into an identity library, and token minting uses HMAC-SHA256. The two login failure paths (lines 56-65) return the same "Invalid email or password" message.
- Database start-up (`DbInitializer.cs`), the context wiring (`ApplicationDbContext.cs`), the user table configuration, and every non-unique index are left out. They are I/O or affect only performance.
- The frontend HTTP services are left out: they are fetch, local storage and browser plumbing.
- The check-then-insert race in adding a partner to an event is left out, because the model is sequential. It covers only the application-level duplicate check. The unique index appears as the `PairUnique` part of `Valid`.
- Events.GetEvents: the query defaults `page = 1` and `pageSize = 10` (`EventsController.cs` lines 23-24) are not modelled; both arguments are always given.
- Partners.GetPartners: the same defaults (`PartnersController.cs` lines 23-24) are not modelled.
- Events.GetEvents: `page >= 1` and `pageSize >= 1` are preconditions, because the code does not guard them. The 32-bit overflow of `(page-1)*pageSize` is not modelled.
- Partners.GetPartners: same preconditions and the same unmodelled overflow as the events list.
- Listing.CeilDiv: `totalPages` is an integer ceiling. The code divides in `double` and rounds up, which gives the same value for every total below 2^53.
- Listing.SortDesc: the code does not say how rows with equal StartDate or CreatedAt are ordered. The model keeps them in ascending id order, the same order on every request.
- Listing.EveryMatchOnSomePage: holds for the model's fixed tie order only. The code orders by the key alone, and a database may break ties differently on separate requests, so a row with a tied key can be listed twice or not at all (see Findings).
- Events.EveryMatchListed: true of the model, not promised by the code when StartDate values tie (see Findings).
- Partners.EveryMatchListed: true of the model, not promised by the code when CreatedAt values tie (see Findings).
- Column lengths count Unicode scalar values. The database counts a column's length in UTF-16 code units, so a name with characters outside the Basic Multilingual Plane can fit in the model and not in the column.
- Search is an exact substring match. Whether the database compares case-insensitively depends on its collation, which is not part of this model.
- The status filter is exact string equality. The database compares it under the same collation, so it may also ignore case or trailing spaces.
- Timestamps are integer ticks passed in as `now`. The database's `CURRENT_TIMESTAMP` defaults are not modelled separately. New rows get `now` for both CreatedAt and UpdatedAt, as the entity initialisers do (`Partner.cs` lines 14-15).
- Event.cs is not part of this model. The Event row's fields come from the controller's projection (`EventsController.cs` lines 73-82). Its timestamps are assumed to initialise like the partner's.
- Identity columns are unbounded integers, so 32-bit exhaustion is not modelled.
- Column limits are not checked by the controllers, and the store's rejection of an over-long value at save time is not modelled. The limits appear only as the hypothesis under which each handler preserves `Valid`.
- Request validation by the web framework is not modelled: a missing required field is rejected before the handler runs. In the model Name is always present.
- Events.RemovePartnerFromEvent: the code removes the first row with the pair, but the model removes every such row. Under the unique index these are the same row (`Events.RemoveDeletesOneRow`).
- Response serialisation shapes and HTTP status codes beyond the Ok/NotFound/BadRequest tags are left out. Read handlers return no store, because they change nothing.

## Findings

| source | as written | input that shows it | evidently intended | confidence | as-written member | corrected member |
|---|---|---|---|---|---|---|
| PartnerManagement.Api/Controllers/EventsController.cs:43-45 | Pages are cut with Skip/Take from an order by StartDate alone; the partners list does the same with CreatedAt (`PartnersController.cs` lines 43-45). With tied keys the database may order rows differently on each request. | Two matching rows with the same StartDate and `pageSize = 1`: page 1 may come from one order and page 2 from the other, so both pages show the same row and the other row is never listed. | Break ties by a unique column, e.g. `.ThenBy(e => e.Id)`, so every request pages through one order. | not executed; medium (depends on the database's plan) | Listing.TiedRowMissed | Listing.EveryMatchOnSomePage |
