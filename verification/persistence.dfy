/** The persistence layer: the declared column limits and defaults of the
    Events and Partners tables, the in-memory store holding the three tables,
    the constraints every stored state satisfies, and the cascading deletes
    declared on the join table's foreign keys. */
module Persistence {
  import opened Common
  import opened Entities

  // Column limits and default of the Events table.
  const EventNameMax: nat := 200
  const EventDescriptionMax: nat := 2000
  const EventLocationMax: nat := 200
  const EventStatusMax: nat := 20
  const DefaultEventStatus: string := "planned"

  // Column limits and default of the Partners table.
  const PartnerNameMax: nat := 100
  const PartnerContactPersonMax: nat := 100
  const PartnerPhoneMax: nat := 20
  const PartnerEmailMax: nat := 100
  const PartnerAddressMax: nat := 500
  const PartnerDescriptionMax: nat := 2000
  const PartnerStatusMax: nat := 20
  const DefaultPartnerStatus: string := "active"

  /** An event row respects the column limits of the Events table. Name and
      Status are required (never null), which the types already say, as they
      do for the two required dates. */
  predicate EventWellFormed(e: Event) {
    && |e.name| <= EventNameMax
    && FitsIn(e.description, EventDescriptionMax)
    && FitsIn(e.location, EventLocationMax)
    && |e.status| <= EventStatusMax
  }

  /** A partner row respects the column limits of the Partners table. */
  predicate PartnerWellFormed(p: Partner) {
    && |p.name| <= PartnerNameMax
    && FitsIn(p.contactPerson, PartnerContactPersonMax)
    && FitsIn(p.phone, PartnerPhoneMax)
    && FitsIn(p.email, PartnerEmailMax)
    && FitsIn(p.address, PartnerAddressMax)
    && FitsIn(p.description, PartnerDescriptionMax)
    && |p.status| <= PartnerStatusMax
  }

  /** The texts of an event request fit the columns they are written to. */
  predicate EventRequestFits(req: EventRequest) {
    && |req.name| <= EventNameMax
    && FitsIn(req.description, EventDescriptionMax)
    && FitsIn(req.location, EventLocationMax)
    && FitsIn(req.status, EventStatusMax)
  }

  /** The texts of a partner request fit the columns they are written to. */
  predicate PartnerRequestFits(req: PartnerRequest) {
    && |req.name| <= PartnerNameMax
    && FitsIn(req.contactPerson, PartnerContactPersonMax)
    && FitsIn(req.phone, PartnerPhoneMax)
    && FitsIn(req.email, PartnerEmailMax)
    && FitsIn(req.address, PartnerAddressMax)
    && FitsIn(req.description, PartnerDescriptionMax)
    && FitsIn(req.status, PartnerStatusMax)
  }

  /** The three tables, each keyed by its `Id` column, and the next value of
      each table's identity column. */
  datatype Store = Store(
    events: map<int, Event>,
    partners: map<int, Partner>,
    links: map<int, EventPartner>,
    nextEventId: int,
    nextPartnerId: int,
    nextLinkId: int)

  /** What a state-changing handler returns: its reply and the new store. */
  datatype Step<+T> = Step(reply: Reply<T>, store: Store)

  /** Every key was handed out by an identity column, which starts at 1 and
      now stands at `next`. */
  predicate IdsBelow<V>(m: map<int, V>, next: int) {
    1 <= next && forall k :: k in m ==> 1 <= k < next
  }

  predicate EventRowsValid(s: Store) {
    forall k :: k in s.events ==> s.events[k].id == k && EventWellFormed(s.events[k])
  }

  predicate PartnerRowsValid(s: Store) {
    forall k :: k in s.partners ==> s.partners[k].id == k && PartnerWellFormed(s.partners[k])
  }

  predicate LinkRowsKeyed(s: Store) {
    forall k :: k in s.links ==> s.links[k].id == k
  }

  /** Foreign key EventPartner.EventId -> Event.Id. */
  predicate EventForeignKey(s: Store) {
    forall k :: k in s.links ==> s.links[k].eventId in s.events
  }

  /** Foreign key EventPartner.PartnerId -> Partner.Id. */
  predicate PartnerForeignKey(s: Store) {
    forall k :: k in s.links ==> s.links[k].partnerId in s.partners
  }

  /** The unique index on (EventId, PartnerId). */
  predicate PairUnique(s: Store) {
    forall k1, k2 ::
      k1 in s.links && k2 in s.links &&
      s.links[k1].eventId == s.links[k2].eventId &&
      s.links[k1].partnerId == s.links[k2].partnerId
      ==> k1 == k2
  }

  /** Every constraint the schema declares, plus the identity counters being
      ahead of every key in use. */
  predicate Valid(s: Store) {
    && IdsBelow(s.events, s.nextEventId)
    && IdsBelow(s.partners, s.nextPartnerId)
    && IdsBelow(s.links, s.nextLinkId)
    && EventRowsValid(s)
    && PartnerRowsValid(s)
    && LinkRowsKeyed(s)
    && EventForeignKey(s)
    && PartnerForeignKey(s)
    && PairUnique(s)
  }

  /** A freshly created database: empty tables, identity columns at 1. */
  function EmptyStore(): (s: Store)
    ensures Valid(s)
    ensures |s.events| == 0 && |s.partners| == 0 && |s.links| == 0
  {
    Store(map[], map[], map[], 1, 1, 1)
  }

  /** The join row `row` associates event `eventId` with partner `partnerId`. */
  predicate IsPair(row: EventPartner, eventId: int, partnerId: int) {
    row.eventId == eventId && row.partnerId == partnerId
  }

  /** Some join row associates event `eventId` with partner `partnerId`. */
  predicate HasPair(s: Store, eventId: int, partnerId: int) {
    exists k :: k in s.links && IsPair(s.links[k], eventId, partnerId)
  }

  /** Removing an event row, with the cascade declared on the EventId foreign
      key: exactly the join rows naming that event go with it. */
  function CascadeDeleteEvent(s: Store, id: int): (t: Store)
    ensures id !in t.events
    ensures t.events.Keys == s.events.Keys - {id}
    ensures forall k :: k in t.events ==> t.events[k] == s.events[k]
    ensures t.partners == s.partners
    ensures forall k :: k in t.links <==> k in s.links && s.links[k].eventId != id
    ensures forall k :: k in t.links ==> t.links[k] == s.links[k]
    ensures Valid(s) ==> Valid(t)
  {
    s.(events := s.events - {id},
       links := map k | k in s.links && s.links[k].eventId != id :: s.links[k])
  }

  /** Removing a partner row, with the cascade declared on the PartnerId
      foreign key: exactly the join rows naming that partner go with it. */
  function CascadeDeletePartner(s: Store, id: int): (t: Store)
    ensures id !in t.partners
    ensures t.partners.Keys == s.partners.Keys - {id}
    ensures forall k :: k in t.partners ==> t.partners[k] == s.partners[k]
    ensures t.events == s.events
    ensures forall k :: k in t.links <==> k in s.links && s.links[k].partnerId != id
    ensures forall k :: k in t.links ==> t.links[k] == s.links[k]
    ensures Valid(s) ==> Valid(t)
  {
    s.(partners := s.partners - {id},
       links := map k | k in s.links && s.links[k].partnerId != id :: s.links[k])
  }
}
