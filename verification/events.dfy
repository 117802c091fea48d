/** The events controller: list, read, create, update and delete events, and
    manage the partners associated with an event through the join table.
    Each state-changing handler is a pure transition from a store to a reply
    and a new store; the read handlers return a reply only. */
module Events {
  import opened Common
  import opened Entities
  import opened Persistence
  import opened Listing
  import Partners

  const EventNotFound: string := "Event not found"
  const PartnerAlreadyAdded: string := "Partner already added to this event"
  const PartnerNotAssociated: string := "Partner not associated with this event"

  /** The list filters: a non-empty `search` must occur in the name or in a
      present location; a non-empty `status` must equal the status. */
  predicate Matches(e: Event, search: Option<string>, status: Option<string>) {
    && (IsNullOrEmpty(search) || Contains(e.name, search.value) ||
        (e.location.Some? && Contains(e.location.value, search.value)))
    && (IsNullOrEmpty(status) || e.status == status.value)
  }

  /** The ordering key of the list: the start date. */
  function StartKey(e: Event): int {
    e.startDate
  }

  /** The stored events passing the filters, in ascending id order. */
  function FilteredEvents(s: Store, search: Option<string>, status: Option<string>): seq<Event> {
    Select(s.events, 1, s.nextEventId, e => Matches(e, search, status))
  }

  /** Reference definition of the filtered result: the ids of the stored
      events passing the filters. */
  ghost function MatchingIds(s: Store, search: Option<string>, status: Option<string>): set<int> {
    set id | id in s.events && Matches(s.events[id], search, status)
  }

  /** In a valid store the filtered sequence holds one entry per matching id. */
  lemma FilteredEventsCount(s: Store, search: Option<string>, status: Option<string>)
    ensures Valid(s) ==> |FilteredEvents(s, search, status)| == |MatchingIds(s, search, status)|
  {
    var p := e => Matches(e, search, status);
    if Valid(s) {
      assert KeysWhere(s.events, 1, s.nextEventId, p) == MatchingIds(s, search, status);
    }
  }

  /** `GET /api/events`: filter, order by start date descending, page. */
  function GetEvents(s: Store, page: int, pageSize: int, search: Option<string>, status: Option<string>): (r: Paged<Event>)
    requires page >= 1 && pageSize >= 1
    ensures r.page == page && r.pageSize == pageSize
    ensures forall e :: e in r.data ==> e in s.events.Values
    ensures forall e :: e in r.data && !IsNullOrEmpty(search) ==>
              Contains(e.name, search.value) || (e.location.Some? && Contains(e.location.value, search.value))
    ensures forall e :: e in r.data && !IsNullOrEmpty(status) ==> e.status == status.value
    ensures forall i, j :: 0 <= i < j < |r.data| ==> r.data[i].startDate >= r.data[j].startDate
    ensures Valid(s) ==> r.total == |MatchingIds(s, search, status)|
    ensures |r.data| == Min(pageSize, Max(0, r.total - (page - 1) * pageSize))
    ensures r.totalPages >= 0 && r.totalPages * pageSize >= r.total
    ensures r.totalPages == 0 || (r.totalPages - 1) * pageSize < r.total
    ensures IsPageOf(r.data, FilteredEvents(s, search, status), StartKey, page, pageSize)
  {
    FilteredEventsCount(s, search, status);
    var matches := FilteredEvents(s, search, status);
    assert forall e :: e in matches ==> e in s.events.Values && Matches(e, search, status);
    var r := Paginate(matches, StartKey, page, pageSize);
    assert IsPageOf(r.data, matches, StartKey, page, pageSize);
    assert forall e :: e in r.data ==> e in matches;
    r
  }

  /** Every stored event passing the filters is listed on some page between
      1 and the reported page count. */
  lemma EveryMatchListed(s: Store, pageSize: int, search: Option<string>, status: Option<string>, id: int)
    requires Valid(s) && pageSize >= 1
    requires id in s.events && Matches(s.events[id], search, status)
    ensures exists page :: 1 <= page <= GetEvents(s, 1, pageSize, search, status).totalPages &&
                           s.events[id] in GetEvents(s, page, pageSize, search, status).data
  {
    var matches := FilteredEvents(s, search, status);
    assert s.events[id] in matches;
    EveryMatchOnSomePage(matches, StartKey, pageSize, s.events[id]);
    var page :| 1 <= page <= Paginate(matches, StartKey, 1, pageSize).totalPages &&
                s.events[id] in Paginate(matches, StartKey, page, pageSize).data;
    assert GetEvents(s, page, pageSize, search, status) == Paginate(matches, StartKey, page, pageSize);
    assert GetEvents(s, 1, pageSize, search, status) == Paginate(matches, StartKey, 1, pageSize);
  }

  /** Later pages list events that start no later than those of earlier pages. */
  lemma LaterPagesStartEarlier(s: Store, pageSize: int, search: Option<string>, status: Option<string>,
                               p: int, q: int)
    requires pageSize >= 1 && 1 <= p < q
    ensures forall e1, e2 :: (e1 in GetEvents(s, p, pageSize, search, status).data &&
                             e2 in GetEvents(s, q, pageSize, search, status).data) ==> e1.startDate >= e2.startDate
  {
    var matches := FilteredEvents(s, search, status);
    assert GetEvents(s, p, pageSize, search, status) == Paginate(matches, StartKey, p, pageSize);
    assert GetEvents(s, q, pageSize, search, status) == Paginate(matches, StartKey, q, pageSize);
    PagesDescend(matches, StartKey, pageSize, p, q);
  }

  /** Fifteen matching events, pages of ten: the second page holds five
      events and there are two pages. */
  lemma SecondOfTwoPages(s: Store, search: Option<string>, status: Option<string>)
    requires Valid(s) && |MatchingIds(s, search, status)| == 15
    ensures |GetEvents(s, 2, 10, search, status).data| == 5
    ensures GetEvents(s, 2, 10, search, status).totalPages == 2
  {
  }

  /** The partners reached from event `id` through join rows with keys in
      `[lo, hi)`, in row-key order. */
  function PartnersThrough(s: Store, id: int, lo: int, hi: int): (r: seq<Partner>)
    decreases hi - lo
    ensures forall p :: p in r ==>
              exists k :: lo <= k < hi && k in s.links && s.links[k].eventId == id &&
                          s.links[k].partnerId in s.partners && s.partners[s.links[k].partnerId] == p
    ensures forall k ::
              (lo <= k < hi && k in s.links && s.links[k].eventId == id && s.links[k].partnerId in s.partners)
              ==> s.partners[s.links[k].partnerId] in r
  {
    if lo >= hi then []
    else
      var rest := PartnersThrough(s, id, lo + 1, hi);
      if lo in s.links && s.links[lo].eventId == id && s.links[lo].partnerId in s.partners then
        [s.partners[s.links[lo].partnerId]] + rest
      else
        rest
  }

  /** An event no join row names reaches no partner. */
  lemma {:induction false} PartnersThroughNone(s: Store, id: int, lo: int, hi: int)
    requires forall k :: k in s.links ==> s.links[k].eventId != id
    decreases hi - lo
    ensures PartnersThrough(s, id, lo, hi) == []
  {
    if lo < hi {
      PartnersThroughNone(s, id, lo + 1, hi);
    }
  }

  /** In a valid store no partner is reached twice from the same event. */
  lemma {:induction false} PartnersThroughDistinct(s: Store, id: int, lo: int, hi: int)
    requires Valid(s)
    decreases hi - lo
    ensures forall i, j :: 0 <= i < j < |PartnersThrough(s, id, lo, hi)| ==>
              PartnersThrough(s, id, lo, hi)[i] != PartnersThrough(s, id, lo, hi)[j]
  {
    if lo < hi {
      PartnersThroughDistinct(s, id, lo + 1, hi);
      var rest := PartnersThrough(s, id, lo + 1, hi);
      if lo in s.links && s.links[lo].eventId == id && s.links[lo].partnerId in s.partners {
        var p := s.partners[s.links[lo].partnerId];
        assert p !in rest;
        var r := PartnersThrough(s, id, lo, hi);
        assert r == [p] + rest;
        forall i, j | 0 <= i < j < |r|
          ensures r[i] != r[j]
        {
          if i == 0 {
            assert r[j] == rest[j - 1];
          } else {
            assert r[i] == rest[i - 1] && r[j] == rest[j - 1];
          }
        }
      }
    }
  }

  /** `GET /api/events/{id}/partners`. */
  function GetEventPartners(s: Store, id: int): (r: Reply<seq<Partner>>)
    ensures r.NotFound? <==> id !in s.events
    ensures r.NotFound? ==> r.message == EventNotFound
    ensures !r.BadRequest?
    ensures r.Ok? ==> forall p :: p in r.value ==> p in s.partners.Values
  {
    if id !in s.events then NotFound(EventNotFound)
    else Ok(PartnersThrough(s, id, 1, s.nextLinkId))
  }

  /** In a valid store the partners of an existing event are exactly those
      a join row associates with it, each listed once. */
  lemma GetEventPartnersExact(s: Store, id: int)
    requires Valid(s) && id in s.events
    ensures GetEventPartners(s, id).Ok?
    ensures forall pid :: pid in s.partners ==>
              (s.partners[pid] in GetEventPartners(s, id).value <==> HasPair(s, id, pid))
    ensures var ps := GetEventPartners(s, id).value;
            forall i, j :: 0 <= i < j < |ps| ==> ps[i] != ps[j]
  {
    PartnersThroughDistinct(s, id, 1, s.nextLinkId);
    var ps := GetEventPartners(s, id).value;
    forall pid | pid in s.partners
      ensures s.partners[pid] in ps <==> HasPair(s, id, pid)
    {
      if s.partners[pid] in ps {
        var k :| 1 <= k < s.nextLinkId && k in s.links && s.links[k].eventId == id &&
                 s.links[k].partnerId in s.partners && s.partners[s.links[k].partnerId] == s.partners[pid];
        assert IsPair(s.links[k], id, pid);
      }
      if HasPair(s, id, pid) {
        var k :| k in s.links && IsPair(s.links[k], id, pid);
        assert 1 <= k < s.nextLinkId;
      }
    }
  }

  /** The event as `GET /api/events/{id}` returns it, with its partners. */
  datatype EventDetail = EventDetail(event: Event, partners: seq<Partner>)

  /** `GET /api/events/{id}`. */
  function GetEvent(s: Store, id: int): (r: Reply<EventDetail>)
    ensures r.NotFound? <==> id !in s.events
    ensures r.NotFound? ==> r.message == EventNotFound
    ensures !r.BadRequest?
    ensures r.Ok? ==> r.value.event == s.events[id]
    ensures r.Ok? ==> GetEventPartners(s, id) == Ok(r.value.partners)
  {
    if id !in s.events then NotFound(EventNotFound)
    else Ok(EventDetail(s.events[id], PartnersThrough(s, id, 1, s.nextLinkId)))
  }

  /** The row `POST /api/events` inserts. */
  function NewEvent(id: int, req: EventRequest, now: Tick): (e: Event)
    ensures e.status == (if req.status.None? then DefaultEventStatus else req.status.value)
    ensures EventWellFormed(e) <==> EventRequestFits(req)
  {
    Event(id, req.name, req.description, req.startDate, req.endDate, req.location,
          OrElse(req.status, DefaultEventStatus), None, now, now)
  }

  /** `POST /api/events`. */
  function CreateEvent(s: Store, req: EventRequest, now: Tick): (r: Step<Event>)
    ensures r.reply.Ok?
    ensures var e := r.reply.value;
            && r.store.events == s.events[e.id := e]
            && e.name == req.name && e.description == req.description
            && e.startDate == req.startDate && e.endDate == req.endDate
            && e.location == req.location
            && e.status == (if req.status.None? then DefaultEventStatus else req.status.value)
            && e.createdAt == now && e.updatedAt == now && e.createdBy.None?
    ensures r.store.partners == s.partners && r.store.links == s.links
    ensures Valid(s) ==> r.reply.value.id !in s.events
    ensures Valid(s) && EventRequestFits(req) ==> Valid(r.store)
  {
    var e := NewEvent(s.nextEventId, req, now);
    var t := s.(events := s.events[e.id := e], nextEventId := s.nextEventId + 1);
    assert Valid(s) && EventRequestFits(req) ==> Valid(t) by {
      if Valid(s) && EventRequestFits(req) {
        assert EventRowsValid(t);
        assert IdsBelow(t.events, t.nextEventId);
        assert EventForeignKey(t);
      }
    }
    Step(Ok(e), t)
  }

  /** The row `PUT /api/events/{id}` writes over `prev`. */
  function UpdatedEvent(prev: Event, req: EventRequest, now: Tick): (e: Event)
    ensures e.status == (if req.status.None? then prev.status else req.status.value)
    ensures EventWellFormed(prev) ==> (EventWellFormed(e) <==> EventRequestFits(req))
  {
    prev.(name := req.name, description := req.description, startDate := req.startDate,
         endDate := req.endDate, location := req.location,
         status := OrElse(req.status, prev.status), updatedAt := now)
  }

  /** `PUT /api/events/{id}`. */
  function UpdateEvent(s: Store, id: int, req: EventRequest, now: Tick): (r: Step<Event>)
    ensures id !in s.events ==> r.reply == NotFound(EventNotFound) && r.store == s
    ensures id in s.events ==> r.reply.Ok?
    ensures id in s.events && r.reply.Ok? ==>
              var prev := s.events[id];
              var e := r.reply.value;
              && r.store.events == s.events[id := e]
              && e.name == req.name && e.description == req.description
              && e.startDate == req.startDate && e.endDate == req.endDate
              && e.location == req.location
              && e.status == (if req.status.None? then prev.status else req.status.value)
              && e.updatedAt == now
              && e.id == prev.id && e.createdAt == prev.createdAt && e.createdBy == prev.createdBy
    ensures r.store.partners == s.partners && r.store.links == s.links
    ensures id in s.events ==> r.store == s.(events := s.events[id := r.reply.value])
    ensures Valid(s) && EventRequestFits(req) ==> Valid(r.store)
  {
    if id !in s.events then Step(NotFound(EventNotFound), s)
    else
      var e := UpdatedEvent(s.events[id], req, now);
      Step(Ok(e), s.(events := s.events[id := e]))
  }

  /** `DELETE /api/events/{id}`. */
  function DeleteEvent(s: Store, id: int): (r: Step<()>)
    ensures id !in s.events ==> r.reply == NotFound(EventNotFound) && r.store == s
    ensures id in s.events ==> r.reply.Ok? && r.store == CascadeDeleteEvent(s, id)
    ensures id !in r.store.events
    ensures r.reply.Ok? ==> forall k :: k in r.store.links ==> r.store.links[k].eventId != id
    ensures r.store.partners == s.partners
    ensures Valid(s) ==> Valid(r.store)
  {
    if id !in s.events then Step(NotFound(EventNotFound), s)
    else Step(Ok(()), CascadeDeleteEvent(s, id))
  }

  /** `POST /api/events/{id}/partners`: checks the event, then the partner,
      then the pair, and only then inserts one join row. */
  function AddPartnerToEvent(s: Store, id: int, partnerId: int, now: Tick): (r: Step<()>)
    ensures id !in s.events ==> r.reply == NotFound(EventNotFound)
    ensures id in s.events && partnerId !in s.partners ==> r.reply == NotFound(Partners.PartnerNotFound)
    ensures id in s.events && partnerId in s.partners && HasPair(s, id, partnerId) ==>
              r.reply == BadRequest(PartnerAlreadyAdded)
    ensures r.reply.Ok? <==> id in s.events && partnerId in s.partners && !HasPair(s, id, partnerId)
    ensures !r.reply.Ok? ==> r.store == s
    ensures r.reply.Ok? ==>
              && r.store.links == s.links[s.nextLinkId := EventPartner(s.nextLinkId, id, partnerId, now)]
              && r.store.events == s.events && r.store.partners == s.partners
              && HasPair(r.store, id, partnerId)
    ensures r.reply.Ok? ==>
              r.store == s.(links := r.store.links, nextLinkId := s.nextLinkId + 1)
    ensures Valid(s) && r.reply.Ok? ==> s.nextLinkId !in s.links
    ensures Valid(s) ==> Valid(r.store)
  {
    if id !in s.events then Step(NotFound(EventNotFound), s)
    else if partnerId !in s.partners then Step(NotFound(Partners.PartnerNotFound), s)
    else if HasPair(s, id, partnerId) then Step(BadRequest(PartnerAlreadyAdded), s)
    else
      var k := s.nextLinkId;
      var t := s.(links := s.links[k := EventPartner(k, id, partnerId, now)], nextLinkId := k + 1);
      assert IsPair(t.links[k], id, partnerId);
      assert Valid(s) ==> Valid(t) by {
        if Valid(s) {
          assert k !in s.links;
          assert IdsBelow(t.links, t.nextLinkId);
          assert LinkRowsKeyed(t);
          assert EventForeignKey(t) && PartnerForeignKey(t);
          forall k1, k2 | k1 in t.links && k2 in t.links &&
                          t.links[k1].eventId == t.links[k2].eventId &&
                          t.links[k1].partnerId == t.links[k2].partnerId
            ensures k1 == k2
          {
            if k1 != k2 && (k1 == k || k2 == k) {
              var j := if k1 == k then k2 else k1;
              assert IsPair(s.links[j], id, partnerId);
            }
          }
        }
      }
      Step(Ok(()), t)
  }

  /** `DELETE /api/events/{id}/partners/{partnerId}`. */
  function RemovePartnerFromEvent(s: Store, id: int, partnerId: int): (r: Step<()>)
    ensures !HasPair(s, id, partnerId) ==> r.reply == NotFound(PartnerNotAssociated) && r.store == s
    ensures HasPair(s, id, partnerId) ==> r.reply.Ok? && !HasPair(r.store, id, partnerId)
    ensures forall k :: k in r.store.links <==> k in s.links && !IsPair(s.links[k], id, partnerId)
    ensures forall k :: k in r.store.links ==> r.store.links[k] == s.links[k]
    ensures r.store.events == s.events && r.store.partners == s.partners
    ensures Valid(s) ==> Valid(r.store)
  {
    if !HasPair(s, id, partnerId) then Step(NotFound(PartnerNotAssociated), s)
    else
      Step(Ok(()), s.(links := map k | k in s.links && !IsPair(s.links[k], id, partnerId) :: s.links[k]))
  }

  /** In a valid store removing an association deletes exactly one join row. */
  lemma RemoveDeletesOneRow(s: Store, id: int, partnerId: int)
    requires Valid(s) && HasPair(s, id, partnerId)
    ensures exists k :: k in s.links && IsPair(s.links[k], id, partnerId) &&
                        RemovePartnerFromEvent(s, id, partnerId).store.links == s.links - {k}
  {
    var k :| k in s.links && IsPair(s.links[k], id, partnerId);
    var t := RemovePartnerFromEvent(s, id, partnerId).store;
    forall j | j in s.links && j != k
      ensures !IsPair(s.links[j], id, partnerId)
    {
    }
    assert t.links == s.links - {k};
  }

  /** Adding an association twice: the second attempt is rejected as a
      duplicate and changes nothing. */
  lemma AddTwiceRejected(s: Store, id: int, partnerId: int, t1: Tick, t2: Tick)
    requires id in s.events && partnerId in s.partners && !HasPair(s, id, partnerId)
    ensures AddPartnerToEvent(s, id, partnerId, t1).reply.Ok?
    ensures var s1 := AddPartnerToEvent(s, id, partnerId, t1).store;
            AddPartnerToEvent(s1, id, partnerId, t2) == Step(BadRequest(PartnerAlreadyAdded), s1)
  {
  }

  /** Add, remove, add again: all three succeed. */
  lemma AddRemoveAdd(s: Store, id: int, partnerId: int, t1: Tick, t2: Tick)
    requires id in s.events && partnerId in s.partners && !HasPair(s, id, partnerId)
    ensures var s1 := AddPartnerToEvent(s, id, partnerId, t1);
            var s2 := RemovePartnerFromEvent(s1.store, id, partnerId);
            var s3 := AddPartnerToEvent(s2.store, id, partnerId, t2);
            s1.reply.Ok? && s2.reply.Ok? && s3.reply.Ok?
  {
  }

  /** A created event reads back with the request's fields, the default
      status when none was given, and no partners. */
  lemma CreateThenGet(s: Store, req: EventRequest, now: Tick)
    requires Valid(s)
    ensures var c := CreateEvent(s, req, now);
            var e := c.reply.value;
            var g := GetEvent(c.store, e.id);
            && g.Ok? && g.value.event == e
            && e.name == req.name && e.location == req.location
            && (req.status.None? ==> e.status == DefaultEventStatus)
            && g.value.partners == []
  {
    var c := CreateEvent(s, req, now);
    var id := c.reply.value.id;
    assert forall k :: k in c.store.links ==> c.store.links[k].eventId != id;
    PartnersThroughNone(c.store, id, 1, c.store.nextLinkId);
  }

  /** After an event is deleted its partners can no longer be listed and no
      association with it remains. */
  lemma DeleteThenNoPartners(s: Store, id: int)
    requires id in s.events
    ensures var t := DeleteEvent(s, id).store;
            GetEventPartners(t, id) == NotFound(EventNotFound) &&
            forall pid :: !HasPair(t, id, pid)
  {
  }
}
