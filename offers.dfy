/** The offers router: the approved-partner guard, and creating, listing and
    deleting a partner's offers. */
module Offers {
  import opened Common
  import opened Store

  // ------------------------------------------------- requireApprovedPartner

  /** The partner with this id exists and is APPROVED. */
  ghost predicate ApprovedPartner(partners: seq<Row<Partner>>, partnerId: Id)
  {
    exists i :: 0 <= i < |partners| && partners[i].id == partnerId && partners[i].data.status == Approved
  }

  /** requireApprovedPartner: an unknown partner is NOT_FOUND, one in any
      status but APPROVED is FORBIDDEN. */
  function RequireApprovedPartner(partners: seq<Row<Partner>>, partnerId: Id): (r: Result<Row<Partner>>)
    requires UniqueIds(partners)
    ensures r.Ok? ==> r.value in partners && r.value.id == partnerId && r.value.data.status == Approved
    ensures r.Ok? <==> ApprovedPartner(partners, partnerId)
    ensures r == Err(NotFound) <==> !HasId(partners, partnerId)
    ensures r == Err(Forbidden) <==> HasId(partners, partnerId) && !ApprovedPartner(partners, partnerId)
  {
    match IndexOfId(partners, partnerId)
    case None => Err(NotFound)
    case Some(k) =>
      var partner := partners[k];
      assert partner in partners;
      if partner.data.status != Approved then Err(Forbidden) else Ok(partner)
  }

  // ------------------------------------------------------------ createOffer

  datatype OfferInput = OfferInput(
    partnerId: Id,
    title: string,
    price: real,
    description: string,
    datetime: string,
    location: string,
    imageUrl: string,
    sport: string)

  /** `createOfferSchema`. */
  predicate OfferSchemaOk(v: Validators, input: OfferInput)
  {
    && |input.title| >= 3
    && input.price > 0.0
    && |input.description| >= 10
    && v.isDatetime(input.datetime)
    && |input.location| >= 3
    && v.isUrl(input.imageUrl)
    && |input.sport| >= 2
  }

  /** The columns createOffer writes: the input, and an active offer. */
  function NewOffer(input: OfferInput): (o: Offer)
    ensures o.isActive && o.partnerId == input.partnerId
  {
    Offer(input.partnerId, input.title, input.price, input.description, input.datetime,
          input.location, input.imageUrl, input.sport, true)
  }

  /** What createOffer returns about the offer it stored. */
  datatype OfferView = OfferView(
    id: Id,
    title: string,
    price: real,
    description: string,
    datetime: string,
    location: string,
    imageUrl: string,
    sport: string)

  function ViewOfOffer(o: Row<Offer>): OfferView
  {
    OfferView(o.id, o.data.title, o.data.price, o.data.description, o.data.datetime,
              o.data.location, o.data.imageUrl, o.data.sport)
  }

  /** createOffer, as a change of the store: the schema, then the guard, then
      the image URL through `new URL`, then one new active offer. */
  function CreateOfferEffect(t: Tables, v: Validators, input: OfferInput): (out: (Tables, Result<OfferView>))
    requires t.Valid()
    ensures out.0.Valid()
  {
    StampedUniqueIds(t.partners, t.clock);
    if !OfferSchemaOk(v, input) then (t, Err(BadRequest))
    else match RequireApprovedPartner(t.partners, input.partnerId)
      case Err(code) => (t, Err(code))
      case Ok(_) =>
        if !v.parsesAsUrl(input.imageUrl) then (t, Err(BadRequest))
        else (InsertOffer(t, NewOffer(input)), Ok(ViewOfOffer(Row(t.clock, t.clock, NewOffer(input)))))
  }

  /** createOffer: the handler, which leaves the store and answers as `CreateOfferEffect` says. */
  method CreateOffer(db: Database, v: Validators, input: OfferInput) returns (r: Result<OfferView>)
    requires db.Valid()
    modifies db
    ensures db.Valid()
    ensures (db.tables, r) == CreateOfferEffect(old(db.tables), v, input)
  {
    if !OfferSchemaOk(v, input) {
      return Err(BadRequest);
    }
    StampedUniqueIds(db.tables.partners, db.tables.clock);
    var partner := RequireApprovedPartner(db.tables.partners, input.partnerId);
    if partner.Err? {
      return Err(partner.code);
    }
    if !v.parsesAsUrl(input.imageUrl) {
      return Err(BadRequest);
    }
    db.tables := InsertOffer(db.tables, NewOffer(input));
    return Ok(ViewOfOffer(db.tables.offers[|db.tables.offers| - 1]));
  }

  /** createOffer succeeds exactly for a valid input from an approved partner
      whose image URL parses, and then adds one active offer with the input's
      fields; every failure leaves the store as it was. The schema is checked
      first, then the partner, then the image URL. */
  lemma CreateOfferOutcome(t: Tables, v: Validators, input: OfferInput)
    requires t.Valid()
    ensures var out := CreateOfferEffect(t, v, input);
      && (out.1.Ok? <==> OfferSchemaOk(v, input) && ApprovedPartner(t.partners, input.partnerId) && v.parsesAsUrl(input.imageUrl))
      && (!OfferSchemaOk(v, input) ==> out.1 == Err(BadRequest))
      && (OfferSchemaOk(v, input) && !HasId(t.partners, input.partnerId) ==> out.1 == Err(NotFound))
      && (OfferSchemaOk(v, input) && HasId(t.partners, input.partnerId) && !ApprovedPartner(t.partners, input.partnerId) ==> out.1 == Err(Forbidden))
      && (OfferSchemaOk(v, input) && ApprovedPartner(t.partners, input.partnerId) && !v.parsesAsUrl(input.imageUrl) ==> out.1 == Err(BadRequest))
      && (out.1.Err? ==> out.0 == t)
      && (out.1.Ok? ==>
            && out.0 == t.(offers := t.offers + [Row(t.clock, t.clock, NewOffer(input))], clock := t.clock + 1)
            && out.1.value == OfferView(t.clock, input.title, input.price, input.description, input.datetime,
                                        input.location, input.imageUrl, input.sport))
  {
    StampedUniqueIds(t.partners, t.clock);
  }

  // ------------------------------------------------------------ getMyOffers

  /** getMyOffers: exactly the partner's offers, newest first. Any partner id
      may ask; no approval is required to list. */
  function GetMyOffers(offers: seq<Row<Offer>>, partnerId: Id): (r: seq<Row<Offer>>)
    ensures forall o :: o in r <==> o in offers && o.data.partnerId == partnerId
    ensures CreatedAscending(offers) ==> CreatedDescending(r)
  {
    var p := (o: Row<Offer>) => o.data.partnerId == partnerId;
    assert CreatedAscending(offers) ==> CreatedDescending(NewestFirst(offers, p)) by {
      if CreatedAscending(offers) {
        NewestFirstDescending(offers, p);
      }
    }
    NewestFirst(offers, p)
  }

  /** In the store, a partner's offers come newest first. */
  lemma MyOffersNewestFirst(t: Tables, partnerId: Id)
    requires t.Valid()
    ensures CreatedDescending(GetMyOffers(t.offers, partnerId))
  {
    StampedAscending(t.offers, t.clock);
  }

  /** A newly created offer heads its partner's listing. */
  lemma CreatedOfferListedFirst(t: Tables, v: Validators, input: OfferInput)
    requires t.Valid()
    ensures var out := CreateOfferEffect(t, v, input);
      out.1.Ok? ==>
        var listed := GetMyOffers(out.0.offers, input.partnerId);
        |listed| > 0 && listed[0] == Row(t.clock, t.clock, NewOffer(input)) && ViewOfOffer(listed[0]) == out.1.value
  {
    CreateOfferOutcome(t, v, input);
  }

  // ------------------------------------------------------------ deleteOffer

  /** The `include: { reservations: true }` of the offer lookup. */
  function ReservationsOf(reservations: seq<Row<Reservation>>, offerId: Id): (r: seq<Row<Reservation>>)
    ensures forall x :: x in r <==> x in reservations && x.data.offerId == offerId
  {
    Filter(reservations, (x: Row<Reservation>) => x.data.offerId == offerId)
  }

  /** deleteOffer, as a change of the store: the guard, then the offer by id
      (NOT_FOUND), then its owner (FORBIDDEN), then its reservations
      (BAD_REQUEST), and then the offer is removed. */
  function DeleteOfferEffect(t: Tables, partnerId: Id, offerId: Id): (out: (Tables, Result<()>))
    requires t.Valid()
    ensures out.0.Valid()
  {
    StampedUniqueIds(t.partners, t.clock);
    match RequireApprovedPartner(t.partners, partnerId)
    case Err(code) => (t, Err(code))
    case Ok(_) =>
      match IndexOfId(t.offers, offerId)
      case None => (t, Err(NotFound))
      case Some(k) =>
        if t.offers[k].data.partnerId != partnerId then (t, Err(Forbidden))
        else if |ReservationsOf(t.reservations, offerId)| > 0 then (t, Err(BadRequest))
        else (DeleteOfferAt(t, k), Ok(()))
  }

  /** deleteOffer: the handler, which leaves the store and answers as `DeleteOfferEffect` says. */
  method DeleteOffer(db: Database, partnerId: Id, offerId: Id) returns (r: Result<()>)
    requires db.Valid()
    modifies db
    ensures db.Valid()
    ensures (db.tables, r) == DeleteOfferEffect(old(db.tables), partnerId, offerId)
  {
    StampedUniqueIds(db.tables.partners, db.tables.clock);
    var partner := RequireApprovedPartner(db.tables.partners, partnerId);
    if partner.Err? {
      return Err(partner.code);
    }
    var found := IndexOfId(db.tables.offers, offerId);
    if found.None? {
      return Err(NotFound);
    }
    var offer := db.tables.offers[found.value];
    if offer.data.partnerId != partnerId {
      return Err(Forbidden);
    }
    if |ReservationsOf(db.tables.reservations, offerId)| > 0 {
      return Err(BadRequest);
    }
    db.tables := DeleteOfferAt(db.tables, found.value);
    return Ok(());
  }

  /** The partner has an offer with this id, and nobody reserved it. */
  ghost predicate DeletableBy(t: Tables, partnerId: Id, offerId: Id)
  {
    && (exists k :: 0 <= k < |t.offers| && t.offers[k].id == offerId && t.offers[k].data.partnerId == partnerId)
    && (forall x :: x in t.reservations ==> x.data.offerId != offerId)
  }

  /** deleteOffer succeeds exactly for an approved partner's own unreserved
      offer, its checks fail in their order, and a failure changes nothing. */
  lemma DeleteOfferChecks(t: Tables, partnerId: Id, offerId: Id)
    requires t.Valid()
    ensures var out := DeleteOfferEffect(t, partnerId, offerId);
      && (out.1.Ok? <==> ApprovedPartner(t.partners, partnerId) && DeletableBy(t, partnerId, offerId))
      && (!HasId(t.partners, partnerId) ==> out.1 == Err(NotFound))
      && (HasId(t.partners, partnerId) && !ApprovedPartner(t.partners, partnerId) ==> out.1 == Err(Forbidden))
      && (ApprovedPartner(t.partners, partnerId) && !HasId(t.offers, offerId) ==> out.1 == Err(NotFound))
      && (out.1.Err? ==> out.0 == t)
  {
    StampedUniqueIds(t.partners, t.clock);
    StampedUniqueIds(t.offers, t.clock);
    match IndexOfId(t.offers, offerId)
    case None =>
    case Some(k) =>
      if t.offers[k].data.partnerId == partnerId {
        assert exists k :: 0 <= k < |t.offers| && t.offers[k].id == offerId && t.offers[k].data.partnerId == partnerId;
      }
      var reserved := ReservationsOf(t.reservations, offerId);
      if |reserved| > 0 {
        assert reserved[0] in reserved;
      }
  }

  /** The offer belongs to another partner. */
  ghost predicate OwnedByOther(t: Tables, partnerId: Id, offerId: Id)
  {
    exists k :: 0 <= k < |t.offers| && t.offers[k].id == offerId && t.offers[k].data.partnerId != partnerId
  }

  /** Past the partner guard and the lookup, someone else's offer is FORBIDDEN,
      and the partner's own offer with a reservation is BAD_REQUEST. */
  lemma DeleteOfferOwnerThenReservations(t: Tables, partnerId: Id, offerId: Id)
    requires t.Valid()
    ensures var out := DeleteOfferEffect(t, partnerId, offerId);
      && (ApprovedPartner(t.partners, partnerId) && OwnedByOther(t, partnerId, offerId) ==> out.1 == Err(Forbidden))
      && (ApprovedPartner(t.partners, partnerId) && HasId(t.offers, offerId) && !OwnedByOther(t, partnerId, offerId) ==>
            (exists x :: x in t.reservations && x.data.offerId == offerId) ==> out.1 == Err(BadRequest))
  {
    StampedUniqueIds(t.partners, t.clock);
    StampedUniqueIds(t.offers, t.clock);
    if exists x :: x in t.reservations && x.data.offerId == offerId {
      var x :| x in t.reservations && x.data.offerId == offerId;
      assert x in ReservationsOf(t.reservations, offerId);
    }
  }

  /** A successful deleteOffer removes that offer and leaves every other offer
      and every other table as it was. */
  lemma DeleteOfferRemovesOnlyIt(t: Tables, partnerId: Id, offerId: Id)
    requires t.Valid()
    ensures var out := DeleteOfferEffect(t, partnerId, offerId);
      out.1.Ok? ==>
        && |out.0.offers| == |t.offers| - 1
        && (forall o :: o in out.0.offers <==> o in t.offers && o.id != offerId)
        && out.0 == t.(offers := out.0.offers)
  {
    StampedUniqueIds(t.partners, t.clock);
    StampedUniqueIds(t.offers, t.clock);
    match IndexOfId(t.offers, offerId)
    case None =>
    case Some(k) =>
      RemoveAtMembers(t.offers, k);
  }
}
