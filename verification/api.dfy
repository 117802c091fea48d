/** The state-changing requests of both controllers gathered in one type, so
    that a whole run of requests can be stated and reasoned about at once.
    The read handlers return no store, so they cannot change it and are not
    listed here. */
module Api {
  import opened Common
  import opened Entities
  import opened Persistence
  import Events
  import Partners

  datatype Write =
    | CreateEvent(eventRequest: EventRequest)
    | UpdateEvent(eventId: int, eventRequest: EventRequest)
    | DeleteEvent(eventId: int)
    | AddPartnerToEvent(eventId: int, partnerId: int)
    | RemovePartnerFromEvent(eventId: int, partnerId: int)
    | CreatePartner(partnerRequest: PartnerRequest)
    | UpdatePartner(partnerId: int, partnerRequest: PartnerRequest)
    | DeletePartner(partnerId: int)

  /** The request bodies respect the column limits they are written to. */
  predicate Fits(w: Write) {
    match w
    case CreateEvent(req) => EventRequestFits(req)
    case UpdateEvent(_, req) => EventRequestFits(req)
    case CreatePartner(req) => PartnerRequestFits(req)
    case UpdatePartner(_, req) => PartnerRequestFits(req)
    case _ => true
  }

  /** The store after one request handled at clock value `now`. */
  function Handle(s: Store, w: Write, now: Tick): (t: Store)
    ensures Valid(s) && Fits(w) ==> Valid(t)
  {
    match w
    case CreateEvent(req) => Events.CreateEvent(s, req, now).store
    case UpdateEvent(id, req) => Events.UpdateEvent(s, id, req, now).store
    case DeleteEvent(id) => Events.DeleteEvent(s, id).store
    case AddPartnerToEvent(id, pid) => Events.AddPartnerToEvent(s, id, pid, now).store
    case RemovePartnerFromEvent(id, pid) => Events.RemovePartnerFromEvent(s, id, pid).store
    case CreatePartner(req) => Partners.CreatePartner(s, req, now).store
    case UpdatePartner(id, req) => Partners.UpdatePartner(s, id, req, now).store
    case DeletePartner(id) => Partners.DeletePartner(s, id).store
  }

  /** The store after handling the requests in order, each at its own clock value. */
  function Run(s: Store, ws: seq<(Write, Tick)>): Store
    decreases |ws|
  {
    if |ws| == 0 then s else Run(Handle(s, ws[0].0, ws[0].1), ws[1..])
  }

  /** Starting from a valid store, any run of requests whose bodies fit
      their columns ends in a valid store: keys stay unique, every join row
      still names an existing event and partner, and no pair is stored twice. */
  lemma {:induction false} RunPreservesValid(s: Store, ws: seq<(Write, Tick)>)
    requires Valid(s)
    requires forall i :: 0 <= i < |ws| ==> Fits(ws[i].0)
    decreases |ws|
    ensures Valid(Run(s, ws))
  {
    if |ws| > 0 {
      RunPreservesValid(Handle(s, ws[0].0, ws[0].1), ws[1..]);
    }
  }
}
