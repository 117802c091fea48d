/** The partners controller: list, read, create, update and delete partners.
    Each state-changing handler is a pure transition from a store to a reply
    and a new store; the read handlers return a reply only. */
module Partners {
  import opened Common
  import opened Entities
  import opened Persistence
  import opened Listing

  const PartnerNotFound: string := "Partner not found"

  /** The list filters: a non-empty `search` must occur in the name or in a
      present contact person; a non-empty `status` must equal the status. */
  predicate Matches(p: Partner, search: Option<string>, status: Option<string>) {
    && (IsNullOrEmpty(search) || Contains(p.name, search.value) ||
        (p.contactPerson.Some? && Contains(p.contactPerson.value, search.value)))
    && (IsNullOrEmpty(status) || p.status == status.value)
  }

  /** The ordering key of the list: the creation time. */
  function CreatedKey(p: Partner): int {
    p.createdAt
  }

  /** The stored partners passing the filters, in ascending id order. */
  function FilteredPartners(s: Store, search: Option<string>, status: Option<string>): seq<Partner> {
    Select(s.partners, 1, s.nextPartnerId, p => Matches(p, search, status))
  }

  /** Reference definition of the filtered result: the ids of the stored
      partners passing the filters. */
  ghost function MatchingIds(s: Store, search: Option<string>, status: Option<string>): set<int> {
    set id | id in s.partners && Matches(s.partners[id], search, status)
  }

  /** In a valid store the filtered sequence holds one entry per matching id. */
  lemma FilteredPartnersCount(s: Store, search: Option<string>, status: Option<string>)
    ensures Valid(s) ==> |FilteredPartners(s, search, status)| == |MatchingIds(s, search, status)|
  {
    var p := p => Matches(p, search, status);
    if Valid(s) {
      assert KeysWhere(s.partners, 1, s.nextPartnerId, p) == MatchingIds(s, search, status);
    }
  }

  /** `GET /api/partners`: filter, order by creation time descending, page. */
  function GetPartners(s: Store, page: int, pageSize: int, search: Option<string>, status: Option<string>): (r: Paged<Partner>)
    requires page >= 1 && pageSize >= 1
    ensures r.page == page && r.pageSize == pageSize
    ensures forall p :: p in r.data ==> p in s.partners.Values
    ensures forall p :: p in r.data && !IsNullOrEmpty(search) ==>
              Contains(p.name, search.value) || (p.contactPerson.Some? && Contains(p.contactPerson.value, search.value))
    ensures forall p :: p in r.data && !IsNullOrEmpty(status) ==> p.status == status.value
    ensures forall i, j :: 0 <= i < j < |r.data| ==> r.data[i].createdAt >= r.data[j].createdAt
    ensures Valid(s) ==> r.total == |MatchingIds(s, search, status)|
    ensures |r.data| == Min(pageSize, Max(0, r.total - (page - 1) * pageSize))
    ensures r.totalPages >= 0 && r.totalPages * pageSize >= r.total
    ensures r.totalPages == 0 || (r.totalPages - 1) * pageSize < r.total
    ensures IsPageOf(r.data, FilteredPartners(s, search, status), CreatedKey, page, pageSize)
  {
    FilteredPartnersCount(s, search, status);
    var matches := FilteredPartners(s, search, status);
    assert forall p :: p in matches ==> p in s.partners.Values && Matches(p, search, status);
    var r := Paginate(matches, CreatedKey, page, pageSize);
    assert IsPageOf(r.data, matches, CreatedKey, page, pageSize);
    assert forall p :: p in r.data ==> p in matches;
    r
  }

  /** Every stored partner passing the filters is listed on some page
      between 1 and the reported page count. */
  lemma EveryMatchListed(s: Store, pageSize: int, search: Option<string>, status: Option<string>, id: int)
    requires Valid(s) && pageSize >= 1
    requires id in s.partners && Matches(s.partners[id], search, status)
    ensures exists page :: 1 <= page <= GetPartners(s, 1, pageSize, search, status).totalPages &&
                           s.partners[id] in GetPartners(s, page, pageSize, search, status).data
  {
    var matches := FilteredPartners(s, search, status);
    assert s.partners[id] in matches;
    EveryMatchOnSomePage(matches, CreatedKey, pageSize, s.partners[id]);
    var page :| 1 <= page <= Paginate(matches, CreatedKey, 1, pageSize).totalPages &&
                s.partners[id] in Paginate(matches, CreatedKey, page, pageSize).data;
    assert GetPartners(s, page, pageSize, search, status) == Paginate(matches, CreatedKey, page, pageSize);
    assert GetPartners(s, 1, pageSize, search, status) == Paginate(matches, CreatedKey, 1, pageSize);
  }

  /** Later pages list partners created no later than those of earlier pages. */
  lemma LaterPagesCreatedEarlier(s: Store, pageSize: int, search: Option<string>, status: Option<string>,
                                 p: int, q: int)
    requires pageSize >= 1 && 1 <= p < q
    ensures forall x, y :: (x in GetPartners(s, p, pageSize, search, status).data &&
                           y in GetPartners(s, q, pageSize, search, status).data) ==> x.createdAt >= y.createdAt
  {
    var matches := FilteredPartners(s, search, status);
    assert GetPartners(s, p, pageSize, search, status) == Paginate(matches, CreatedKey, p, pageSize);
    assert GetPartners(s, q, pageSize, search, status) == Paginate(matches, CreatedKey, q, pageSize);
    PagesDescend(matches, CreatedKey, pageSize, p, q);
  }

  /** `GET /api/partners/{id}`. */
  function GetPartner(s: Store, id: int): (r: Reply<Partner>)
    ensures r.NotFound? <==> id !in s.partners
    ensures r.NotFound? ==> r.message == PartnerNotFound
    ensures !r.BadRequest?
    ensures r.Ok? ==> r.value == s.partners[id]
    ensures Valid(s) && r.Ok? ==> r.value.id == id
  {
    if id !in s.partners then NotFound(PartnerNotFound) else Ok(s.partners[id])
  }

  /** The row `POST /api/partners` inserts. */
  function NewPartner(id: int, req: PartnerRequest, now: Tick): (p: Partner)
    ensures p.status == (if req.status.None? then DefaultPartnerStatus else req.status.value)
    ensures PartnerWellFormed(p) <==> PartnerRequestFits(req)
  {
    Partner(id, req.name, req.contactPerson, req.phone, req.email, req.address, req.description,
            OrElse(req.status, DefaultPartnerStatus), None, now, now)
  }

  /** The six descriptive fields of `p` are those of the request. */
  predicate HasRequestFields(p: Partner, req: PartnerRequest) {
    && p.name == req.name && p.contactPerson == req.contactPerson && p.phone == req.phone
    && p.email == req.email && p.address == req.address && p.description == req.description
  }

  /** `POST /api/partners`. */
  function CreatePartner(s: Store, req: PartnerRequest, now: Tick): (r: Step<Partner>)
    ensures r.reply.Ok?
    ensures var p := r.reply.value;
            && r.store.partners == s.partners[p.id := p]
            && HasRequestFields(p, req)
            && p.status == (if req.status.None? then DefaultPartnerStatus else req.status.value)
            && p.createdAt == now && p.updatedAt == now && p.createdBy.None?
    ensures r.store.events == s.events && r.store.links == s.links
    ensures Valid(s) ==> r.reply.value.id !in s.partners
    ensures Valid(s) && PartnerRequestFits(req) ==> Valid(r.store)
  {
    var p := NewPartner(s.nextPartnerId, req, now);
    var t := s.(partners := s.partners[p.id := p], nextPartnerId := s.nextPartnerId + 1);
    assert Valid(s) && PartnerRequestFits(req) ==> Valid(t) by {
      if Valid(s) && PartnerRequestFits(req) {
        assert PartnerRowsValid(t);
        assert IdsBelow(t.partners, t.nextPartnerId);
        assert PartnerForeignKey(t);
      }
    }
    Step(Ok(p), t)
  }

  /** The row `PUT /api/partners/{id}` writes over `prev`. */
  function UpdatedPartner(prev: Partner, req: PartnerRequest, now: Tick): (p: Partner)
    ensures p.status == (if req.status.None? then prev.status else req.status.value)
    ensures PartnerWellFormed(prev) ==> (PartnerWellFormed(p) <==> PartnerRequestFits(req))
  {
    prev.(name := req.name, contactPerson := req.contactPerson, phone := req.phone,
          email := req.email, address := req.address, description := req.description,
          status := OrElse(req.status, prev.status), updatedAt := now)
  }

  /** `PUT /api/partners/{id}`. */
  function UpdatePartner(s: Store, id: int, req: PartnerRequest, now: Tick): (r: Step<Partner>)
    ensures id !in s.partners ==> r.reply == NotFound(PartnerNotFound) && r.store == s
    ensures id in s.partners ==> r.reply.Ok?
    ensures id in s.partners && r.reply.Ok? ==>
              var prev := s.partners[id];
              var p := r.reply.value;
              && r.store.partners == s.partners[id := p]
              && HasRequestFields(p, req)
              && p.status == (if req.status.None? then prev.status else req.status.value)
              && p.updatedAt == now
              && p.id == prev.id && p.createdAt == prev.createdAt && p.createdBy == prev.createdBy
    ensures r.store.events == s.events && r.store.links == s.links
    ensures id in s.partners ==> r.store == s.(partners := s.partners[id := r.reply.value])
    ensures Valid(s) && PartnerRequestFits(req) ==> Valid(r.store)
  {
    if id !in s.partners then Step(NotFound(PartnerNotFound), s)
    else
      var p := UpdatedPartner(s.partners[id], req, now);
      Step(Ok(p), s.(partners := s.partners[id := p]))
  }

  /** `DELETE /api/partners/{id}`. */
  function DeletePartner(s: Store, id: int): (r: Step<()>)
    ensures id !in s.partners ==> r.reply == NotFound(PartnerNotFound) && r.store == s
    ensures id in s.partners ==> r.reply.Ok? && r.store == CascadeDeletePartner(s, id)
    ensures id !in r.store.partners
    ensures r.reply.Ok? ==> forall k :: k in r.store.links ==> r.store.links[k].partnerId != id
    ensures r.store.events == s.events
    ensures Valid(s) ==> Valid(r.store)
  {
    if id !in s.partners then Step(NotFound(PartnerNotFound), s)
    else Step(Ok(()), CascadeDeletePartner(s, id))
  }

  /** A created partner reads back with the request's fields and the
      default status when none was given. */
  lemma CreateThenGet(s: Store, req: PartnerRequest, now: Tick)
    requires Valid(s)
    ensures var c := CreatePartner(s, req, now);
            var p := c.reply.value;
            && GetPartner(c.store, p.id) == Ok(p)
            && HasRequestFields(p, req)
            && (req.status.None? ==> p.status == DefaultPartnerStatus)
  {
  }

  /** Updating without a status keeps the stored one; the update reads back. */
  lemma UpdateKeepsStatus(s: Store, id: int, req: PartnerRequest, now: Tick)
    requires id in s.partners && req.status.None?
    ensures var u := UpdatePartner(s, id, req, now);
            && u.reply.Ok?
            && GetPartner(u.store, id) == Ok(u.reply.value)
            && u.reply.value.status == s.partners[id].status
  {
  }
}
