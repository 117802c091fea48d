/** The rows of the persistence layer and the request bodies the controllers
    accept. Timestamps (`DateTime`) are integer clock ticks. */
module Entities {
  import opened Common

  /** A point in time, as ticks of an abstract clock. */
  type Tick = int

  /** An event row. */
  datatype Event = Event(
    id: int,
    name: string,
    description: Option<string>,
    startDate: Tick,
    endDate: Tick,
    location: Option<string>,
    status: string,
    createdBy: Option<int>,
    createdAt: Tick,
    updatedAt: Tick)

  /** A partner row. */
  datatype Partner = Partner(
    id: int,
    name: string,
    contactPerson: Option<string>,
    phone: Option<string>,
    email: Option<string>,
    address: Option<string>,
    description: Option<string>,
    status: string,
    createdBy: Option<int>,
    createdAt: Tick,
    updatedAt: Tick)

  /** A row of the join table that associates one event with one partner. */
  datatype EventPartner = EventPartner(id: int, eventId: int, partnerId: int, createdAt: Tick)

  /** Body of the create and update requests for events. */
  datatype EventRequest = EventRequest(
    name: string,
    description: Option<string>,
    startDate: Tick,
    endDate: Tick,
    location: Option<string>,
    status: Option<string>)

  /** Body of the create and update requests for partners. */
  datatype PartnerRequest = PartnerRequest(
    name: string,
    contactPerson: Option<string>,
    phone: Option<string>,
    email: Option<string>,
    address: Option<string>,
    description: Option<string>,
    status: Option<string>)
}
