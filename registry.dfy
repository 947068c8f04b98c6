/** The in-memory record store that stands in for the ORM: the table of
    listings keyed by id, the table of offers in creation order, and every
    action of the estate module that writes to them. Each action tests all
    of its guards before it commits anything, so a refused action leaves
    both tables as they were, as a rolled-back transaction would. */
module Estate {
  import opened Common
  import opened Properties
  import opened Offers
  import opened PropertyTypes

  /** Everything an action of the store can raise. */
  datatype Error =
    | Invalid(PropertyError)     // the listing validation constraint
    | Rejected(OfferError)       // an offer rule
    | Blocked(LifecycleError)    // a lifecycle guard
    | MissingRecord              // an id that names no stored record
    | StillReferenced            // a listing an offer still points at

  /** Every offer points at a stored listing and keeps a copy of that
      listing's type. */
  ghost predicate Linked(props: map<PropertyId, Property>, offers: seq<Offer>) {
    forall i :: 0 <= i < |offers| ==>
      offers[i].property in props && offers[i].propertyType == props[offers[i].property].propertyType
  }

  /** Rewriting offers without moving them to another listing or type keeps
      them linked. */
  lemma RelinkKeepsLinked(props: map<PropertyId, Property>, offers: seq<Offer>, offers': seq<Offer>)
    requires Linked(props, offers) && |offers'| == |offers|
    requires forall i :: 0 <= i < |offers| ==>
               offers'[i].property == offers[i].property && offers'[i].propertyType == offers[i].propertyType
    ensures Linked(props, offers')
  {
  }

  /** A new offer that carries its listing's type keeps the store linked,
      also when the listing itself is rewritten without changing its type. */
  lemma AppendKeepsLinked(props: map<PropertyId, Property>, offers: seq<Offer>, o: Offer, p: Property)
    requires Linked(props, offers) && o.property in props
    requires o.propertyType == props[o.property].propertyType && p.propertyType == o.propertyType
    ensures Linked(props[o.property := p], offers + [o])
  {
    var t := offers + [o];
    assert forall i :: 0 <= i < |offers| ==> t[i] == offers[i];
  }

  /** Because each offer's stored type is a copy of its listing's type, the
      offers filed under a type are exactly the offers on listings of that
      type. */
  lemma OfferIdsFollowListings(props: map<PropertyId, Property>, offers: seq<Offer>, t: TypeId)
    requires Linked(props, offers)
    ensures forall i :: i in OfferIds(offers, t) <==>
              0 <= i < |offers| && props[offers[i].property].propertyType == Some(t)
  {
  }

  /** What stops a lifecycle step on listing id: a missing record, or the
      step's own guard. */
  function StepBlocker(props: map<PropertyId, Property>, id: PropertyId,
                       step: Property -> Result<Property, LifecycleError>): Option<Error>
  {
    if id !in props then Some(MissingRecord)
    else match step(props[id])
      case Ok(_) => None
      case Err(e) => Some(Blocked(e))
  }

  /** What stops the lifecycle actions: sold refuses a canceled listing,
      cancel refuses a sold one, deletion refuses one that is neither new nor
      canceled, and all three refuse a missing id. */
  lemma LifecycleBlockers(props: map<PropertyId, Property>, id: PropertyId)
    ensures StepBlocker(props, id, Sell) ==
            if id !in props then Some(MissingRecord)
            else if props[id].state == Canceled then Some(Blocked(SellCanceled))
            else None
    ensures StepBlocker(props, id, Cancel) ==
            if id !in props then Some(MissingRecord)
            else if props[id].state == Sold then Some(Blocked(CancelSold))
            else None
    ensures StepBlocker(props, id, UnlinkGuard) ==
            if id !in props then Some(MissingRecord)
            else if !CanUnlink(props[id]) then Some(Blocked(DeleteInProgress))
            else None
  {
  }

  /** e is what stops the first listing in ids that cannot take the step. */
  ghost predicate FirstBlocker(props: map<PropertyId, Property>, ids: seq<PropertyId>,
                               step: Property -> Result<Property, LifecycleError>, e: Error)
  {
    exists j :: 0 <= j < |ids| && StepBlocker(props, ids[j], step) == Some(e) &&
      forall m :: 0 <= m < j ==> StepBlocker(props, ids[m], step).None?
  }

  /** The table with every listing in ids moved to target and every other
      listing as it was. */
  ghost function Stepped(props: map<PropertyId, Property>, ids: seq<PropertyId>, target: State): (r: map<PropertyId, Property>)
    ensures r.Keys == props.Keys
    ensures forall k :: k in r ==> r[k] == if k in ids then props[k].(state := target) else props[k]
  {
    map k | k in props :: if k in ids then props[k].(state := target) else props[k]
  }

  /** Moving one more listing. */
  lemma SteppedLast(props: map<PropertyId, Property>, ids: seq<PropertyId>, id: PropertyId, target: State)
    requires id in props
    ensures Stepped(props, ids + [id], target) == Stepped(props, ids, target)[id := props[id].(state := target)]
  {
    assert Stepped(props, ids + [id], target).Keys == Stepped(props, ids, target)[id := props[id].(state := target)].Keys;
  }

  /** Moving listings between states keeps the store consistent and every
      offer linked. */
  lemma SteppedKeepsStore(props: map<PropertyId, Property>, offers: seq<Offer>, ids: seq<PropertyId>, target: State)
    requires Consistent(props) && Linked(props, offers)
    ensures Consistent(Stepped(props, ids, target)) && Linked(Stepped(props, ids, target), offers)
  {
    SameRuleFieldsKeepConsistent(props, Stepped(props, ids, target));
  }

  /** Accepting one offer and refusing its siblings keeps at most one
      accepted offer per listing. */
  lemma AcceptKeepsOneAccepted(offers: seq<Offer>, os: seq<Offer>, oid: OfferId)
    requires AtMostOneAccepted(offers) && oid < |offers| && |os| == |offers|
    requires forall j :: 0 <= j < |os| ==>
               os[j] == if j == oid then offers[j].(status := Accepted)
                        else if offers[j].property == offers[oid].property then offers[j].(status := Refused)
                        else offers[j]
    ensures AtMostOneAccepted(os)
  {
    forall i, j | 0 <= i < |os| && 0 <= j < |os| && i != j &&
                  os[i].property == os[j].property && os[i].status == Accepted
      ensures os[j].status != Accepted
    {
      if os[i].property != offers[oid].property {
        assert os[i] == offers[i] && os[j] == offers[j];
      }
    }
  }

  /** Refusing offers never adds an accepted one. */
  lemma RefuseKeepsOneAccepted(offers: seq<Offer>, os: seq<Offer>)
    requires AtMostOneAccepted(offers) && |os| == |offers|
    requires forall i :: 0 <= i < |os| ==> os[i] == offers[i] || os[i] == offers[i].(status := Refused)
    ensures AtMostOneAccepted(os)
  {
    forall i, j | 0 <= i < |os| && 0 <= j < |os| && i != j &&
                  os[i].property == os[j].property && os[i].status == Accepted
      ensures os[j].status != Accepted
    {
      assert os[i] == offers[i];
    }
  }

  /** The loop of the lifecycle buttons over a table of listings: the
      first listing that cannot take the step names the error; when all
      can, every one of them is moved to target. */
  method StepAll(props: map<PropertyId, Property>, ids: seq<PropertyId>,
                 step: Property -> Result<Property, LifecycleError>, target: State)
    returns (r: Result<map<PropertyId, Property>, Error>)
    ensures r.Ok? <==> forall j :: 0 <= j < |ids| ==> StepBlocker(props, ids[j], step).None?
    ensures r.Ok? ==> r.value == Stepped(props, ids, target)
    ensures r.Err? ==> FirstBlocker(props, ids, step, r.error)
  {
    var ps := props;
    var i := 0;
    while i < |ids| && StepBlocker(props, ids[i], step).None?
      invariant 0 <= i <= |ids|
      invariant forall j :: 0 <= j < i ==> StepBlocker(props, ids[j], step).None?
      invariant ps == Stepped(props, ids[..i], target)
    {
      var id := ids[i];
      assert ids[..i + 1] == ids[..i] + [id];
      SteppedLast(props, ids[..i], id, target);
      ps := ps[id := props[id].(state := target)];
      i := i + 1;
    }
    if i < |ids| {
      var e := StepBlocker(props, ids[i], step).value;
      assert FirstBlocker(props, ids, step, e);
      return Err(e);
    }
    assert ids[..i] == ids;
    r := Ok(ps);
  }

  /** The status loop of action_accept: offer oid becomes accepted, every
      other offer on its listing refused, and offers on other listings keep
      their status. */
  method MarkAccepted(offers: seq<Offer>, oid: OfferId) returns (os: seq<Offer>)
    requires oid < |offers|
    ensures |os| == |offers|
    ensures forall j :: 0 <= j < |os| ==>
              os[j] == if j == oid then offers[j].(status := Accepted)
                       else if offers[j].property == offers[oid].property then offers[j].(status := Refused)
                       else offers[j]
    ensures forall j :: 0 <= j < |os| && os[j].property == os[oid].property ==>
              (os[j].status == Accepted <==> j == oid)
  {
    var pid := offers[oid].property;
    os := offers;
    var i := 0;
    while i < |os|
      invariant 0 <= i <= |os| && |os| == |offers|
      invariant forall j :: 0 <= j < |os| ==>
                  os[j] == if j >= i then offers[j]
                           else if j == oid then offers[j].(status := Accepted)
                           else if offers[j].property == pid then offers[j].(status := Refused)
                           else offers[j]
    {
      if i == oid {
        os := os[i := os[i].(status := Accepted)];
      } else if os[i].property == pid {
        os := os[i := os[i].(status := Refused)];
      }
      i := i + 1;
    }
  }

  /** The loop of action_refuse: the offers oids become refused and every
      other offer is kept. */
  method MarkRefused(offers: seq<Offer>, oids: seq<OfferId>) returns (os: seq<Offer>)
    requires forall j :: 0 <= j < |oids| ==> oids[j] < |offers|
    ensures |os| == |offers|
    ensures forall i :: 0 <= i < |os| ==> os[i] == if i in oids then offers[i].(status := Refused) else offers[i]
  {
    os := offers;
    var k := 0;
    while k < |oids|
      invariant 0 <= k <= |oids| && |os| == |offers|
      invariant forall i :: 0 <= i < |os| ==>
                  os[i] == if i in oids[..k] then offers[i].(status := Refused) else offers[i]
    {
      var oid := oids[k];
      assert oids[..k + 1] == oids[..k] + [oid];
      os := os[oid := os[oid].(status := Refused)];
      k := k + 1;
    }
    assert oids[..k] == oids;
  }

  /** What the store keeps: ids below the counter, every listing passing
      the validation constraint, every offer linked, the offer table well
      formed. */
  ghost predicate StoreInvariant(props: map<PropertyId, Property>, offers: seq<Offer>, nextId: PropertyId) {
    && (forall k :: k in props ==> k < nextId)
    && Consistent(props)
    && Linked(props, offers)
    && WellFormed(offers)
  }

  /** Committing an acceptance keeps the store invariant: the listing that
      records the sale passes the constraint, and the status loop leaves one
      accepted offer on it. */
  lemma AcceptKeepsStore(props: map<PropertyId, Property>, offers: seq<Offer>, nextId: PropertyId,
                         oid: OfferId, os: seq<Offer>, sale: Property)
    requires StoreInvariant(props, offers, nextId) && oid < |offers|
    requires sale.propertyType == props[offers[oid].property].propertyType
    requires CheckProperty(sale, offers[oid].property, props).Pass?
    requires |os| == |offers|
    requires forall j :: 0 <= j < |os| ==>
               os[j] == if j == oid then offers[j].(status := Accepted)
                        else if offers[j].property == offers[oid].property then offers[j].(status := Refused)
                        else offers[j]
    ensures StoreInvariant(props[offers[oid].property := sale], os, nextId)
  {
    var pid := offers[oid].property;
    assert SameButStatus(offers, os);
    AcceptKeepsOneAccepted(offers, os, oid);
    RestatusKeepsWellFormed(offers, os);
    WriteKeepsConsistent(props, pid, sale);
    RelinkKeepsLinked(props, offers, os);
    RewriteKeepsLinked(props, os, pid, sale);
  }

  /** Rewriting a listing without changing its type keeps the store linked. */
  lemma RewriteKeepsLinked(props: map<PropertyId, Property>, offers: seq<Offer>, id: PropertyId, p: Property)
    requires Linked(props, offers) && id in props && p.propertyType == props[id].propertyType
    ensures Linked(props[id := p], offers)
  {
  }

  /** Committing a created offer keeps the store invariant: the offer passes
      the price constraint, carries its listing's type, and the listing only
      changes state. */
  lemma CreateKeepsStore(props: map<PropertyId, Property>, offers: seq<Offer>, nextId: PropertyId, o: Offer)
    requires StoreInvariant(props, offers, nextId) && o.property in props
    requires o.status != Accepted && DeadlineSynced(o)
    requires o.propertyType == props[o.property].propertyType
    requires CheckOfferPrice(o.price, props[o.property].expectedPrice, SiblingPrices(offers, o.property, None)).Pass?
    ensures StoreInvariant(props[o.property := ReceiveOffer(props[o.property])], offers + [o], nextId)
  {
    var p' := ReceiveOffer(props[o.property]);
    AppendKeepsWellFormed(offers, o, props[o.property].expectedPrice);
    SameRuleFieldsKeepConsistent(props, props[o.property := p']);
    AppendKeepsLinked(props, offers, o, p');
  }

  /** A created offer is higher than every earlier offer on its listing,
      becomes the listing's best price, and raises its own type's count by
      one. */
  lemma CreatedOfferRises(offers: seq<Offer>, o: Offer, expected: real)
    requires CheckOfferPrice(o.price, expected, SiblingPrices(offers, o.property, None)).Pass?
    ensures forall i :: 0 <= i < |offers| && offers[i].property == o.property ==> offers[i].price < o.price
    ensures BestPrice(SiblingPrices(offers + [o], o.property, None)) == o.price
    ensures forall t: TypeId ::
              OfferCount(offers + [o], t) == OfferCount(offers, t) + (if o.propertyType == Some(t) then 1 else 0)
  {
    forall i | 0 <= i < |offers| && offers[i].property == o.property
      ensures offers[i].price < o.price
    {
      assert offers[i].price in SiblingPrices(offers, o.property, None);
    }
    AppendedOfferIsBest(offers, o, expected);
    forall t: TypeId
      ensures OfferCount(offers + [o], t) == OfferCount(offers, t) + (if o.propertyType == Some(t) then 1 else 0)
    {
      OfferCountAppend(offers, o, t);
    }
  }

  /** The guard loops of unlink: the first listing that is missing or
      neither new nor canceled names the error; then, since an offer's link
      to its listing is required, a listing some offer still points at stops
      the deletion. */
  method CheckUnlink(props: map<PropertyId, Property>, offers: seq<Offer>, ids: seq<PropertyId>) returns (r: Outcome<Error>)
    ensures r.Pass? <==>
              && (forall j :: 0 <= j < |ids| ==> StepBlocker(props, ids[j], UnlinkGuard).None?)
              && (forall i :: 0 <= i < |offers| ==> offers[i].property !in ids)
    ensures r.Fail? && (exists j :: 0 <= j < |ids| && StepBlocker(props, ids[j], UnlinkGuard).Some?) ==>
              FirstBlocker(props, ids, UnlinkGuard, r.error)
    ensures r.Fail? && (forall j :: 0 <= j < |ids| ==> StepBlocker(props, ids[j], UnlinkGuard).None?) ==>
              r.error == StillReferenced
  {
    var i := 0;
    while i < |ids| && StepBlocker(props, ids[i], UnlinkGuard).None?
      invariant 0 <= i <= |ids|
      invariant forall j :: 0 <= j < i ==> StepBlocker(props, ids[j], UnlinkGuard).None?
    {
      i := i + 1;
    }
    if i < |ids| {
      var e := StepBlocker(props, ids[i], UnlinkGuard).value;
      assert FirstBlocker(props, ids, UnlinkGuard, e);
      return Fail(e);
    }
    var n := 0;
    while n < |offers| && offers[n].property !in ids
      invariant 0 <= n <= |offers|
      invariant forall m :: 0 <= m < n ==> offers[m].property !in ids
    {
      n := n + 1;
    }
    if n < |offers| {
      return Fail(StillReferenced);
    }
    r := Pass;
  }

  /** Removing listings no offer points at keeps the store invariant. */
  lemma RemoveKeepsStore(props: map<PropertyId, Property>, offers: seq<Offer>, nextId: PropertyId, gone: set<PropertyId>)
    requires StoreInvariant(props, offers, nextId)
    requires forall i :: 0 <= i < |offers| ==> offers[i].property !in gone
    ensures StoreInvariant(props - gone, offers, nextId)
  {
    RemoveKeepsConsistent(props, gone);
  }

  class Registry {
    var properties: map<PropertyId, Property>
    var offers: seq<Offer>
    var nextId: PropertyId

    /** The invariant every action keeps. */
    ghost predicate Valid()
      reads this
    {
      StoreInvariant(properties, offers, nextId)
    }

    constructor ()
      ensures Valid() && properties == map[] && offers == []
    {
      properties := map[];
      offers := [];
      nextId := 0;
    }

    /** best_price of listing pid: at least every offer on it, the price of
        one of them, and 0 when it has none. */
    function BestPriceOf(pid: PropertyId): (r: real)
      reads this
      ensures forall i :: 0 <= i < |offers| && offers[i].property == pid ==> offers[i].price <= r
      ensures (exists i :: 0 <= i < |offers| && offers[i].property == pid) ==>
                exists i :: 0 <= i < |offers| && offers[i].property == pid && offers[i].price == r
      ensures (forall i :: 0 <= i < |offers| ==> offers[i].property != pid) ==> r == 0.0
    {
      var prices := SiblingPrices(offers, pid, None);
      assert prices != [] ==> prices[0] in prices;
      BestPrice(prices)
    }

    // -------------------------------------------------------------------
    // Listings.

    /** Creating a listing: it is stored under a fresh id exactly when it
        passes the validation constraint. */
    method CreateProperty(draft: Property) returns (r: Result<PropertyId, Error>)
      requires Valid()
      modifies this
      ensures Valid() && offers == old(offers)
      ensures r.Ok? <==> CheckProperty(draft, old(nextId), old(properties)).Pass?
      ensures r.Ok? ==> r.value == old(nextId) && r.value !in old(properties) &&
                        properties == old(properties)[r.value := draft]
      ensures r.Err? ==> r.error == Invalid(CheckProperty(draft, old(nextId), old(properties)).error) &&
                         properties == old(properties)
    {
      var id := nextId;
      var check := CheckProperty(draft, id, properties);
      if check.Fail? {
        return Err(Invalid(check.error));
      }
      WriteKeepsConsistent(properties, id, draft);
      properties := properties[id := draft];
      nextId := nextId + 1;
      r := Ok(id);
    }

    /** Writing a listing's name and expected price: the write is kept
        exactly when the written record passes the validation constraint. */
    method WriteProperty(id: PropertyId, name: string, expectedPrice: real) returns (r: Outcome<Error>)
      requires Valid()
      modifies this
      ensures Valid() && offers == old(offers) && nextId == old(nextId)
      ensures id !in old(properties) ==> r == Fail(MissingRecord) && properties == old(properties)
      ensures id in old(properties) ==>
                var p := old(properties)[id].(name := name, expectedPrice := expectedPrice);
                var check := CheckProperty(p, id, old(properties));
                && (r.Pass? <==> check.Pass?)
                && (r.Pass? ==> properties == old(properties)[id := p])
                && (r.Fail? ==> r == Fail(Invalid(check.error)) && properties == old(properties))
    {
      if id !in properties {
        return Fail(MissingRecord);
      }
      var p := properties[id].(name := name, expectedPrice := expectedPrice);
      var check := CheckProperty(p, id, properties);
      if check.Fail? {
        return Fail(Invalid(check.error));
      }
      WriteKeepsConsistent(properties, id, p);
      properties := properties[id := p];
      r := Pass;
    }

    /** action_sold over the listings ids: refused, with nothing changed, when
        one of them is missing or canceled (the first such one decides the
        error); otherwise every one of them is sold and nothing else changes. */
    method ActionSold(ids: seq<PropertyId>) returns (r: Outcome<Error>)
      requires Valid()
      modifies this
      ensures Valid() && offers == old(offers) && nextId == old(nextId)
      ensures r.Pass? <==> forall j :: 0 <= j < |ids| ==> StepBlocker(old(properties), ids[j], Sell).None?
      ensures r.Pass? ==> properties == Stepped(old(properties), ids, Sold)
      ensures r.Fail? ==> properties == old(properties) && FirstBlocker(old(properties), ids, Sell, r.error)
    {
      r := RunStep(ids, Sell, Sold);
    }

    /** action_cancel over the listings ids: refused, with nothing changed,
        when one of them is missing or sold (the first such one decides the
        error); otherwise every one of them is canceled and nothing else
        changes. */
    method ActionCancel(ids: seq<PropertyId>) returns (r: Outcome<Error>)
      requires Valid()
      modifies this
      ensures Valid() && offers == old(offers) && nextId == old(nextId)
      ensures r.Pass? <==> forall j :: 0 <= j < |ids| ==> StepBlocker(old(properties), ids[j], Cancel).None?
      ensures r.Pass? ==> properties == Stepped(old(properties), ids, Canceled)
      ensures r.Fail? ==> properties == old(properties) && FirstBlocker(old(properties), ids, Cancel, r.error)
    {
      r := RunStep(ids, Cancel, Canceled);
    }

    /** The loop both lifecycle buttons run: the guard step is tested on each
        listing in turn, and only when all of them pass do they all move to
        target. */
    method RunStep(ids: seq<PropertyId>, step: Property -> Result<Property, LifecycleError>, target: State)
      returns (r: Outcome<Error>)
      requires Valid()
      modifies this
      ensures Valid() && offers == old(offers) && nextId == old(nextId)
      ensures r.Pass? <==> forall j :: 0 <= j < |ids| ==> StepBlocker(old(properties), ids[j], step).None?
      ensures r.Pass? ==> properties == Stepped(old(properties), ids, target)
      ensures r.Fail? ==> properties == old(properties) && FirstBlocker(old(properties), ids, step, r.error)
    {
      var out := StepAll(properties, ids, step, target);
      if out.Err? {
        return Fail(out.error);
      }
      SteppedKeepsStore(properties, offers, ids, target);
      properties := out.value;
      r := Pass;
    }

    /** unlink of the listings ids: every one of them must exist and be new or
        canceled (the first that is not decides the error), and no offer may
        still point at one of them; then all of them are removed, and
        otherwise nothing is. */
    method Unlink(ids: seq<PropertyId>) returns (r: Outcome<Error>)
      requires Valid()
      modifies this
      ensures Valid() && offers == old(offers) && nextId == old(nextId)
      ensures r.Pass? <==>
                && (forall j :: 0 <= j < |ids| ==> StepBlocker(old(properties), ids[j], UnlinkGuard).None?)
                && (forall i :: 0 <= i < |offers| ==> offers[i].property !in ids)
      ensures r.Pass? ==>
                && (forall k :: k in properties <==> k in old(properties) && k !in ids)
                && (forall k :: k in properties ==> properties[k] == old(properties)[k])
      ensures r.Fail? ==> properties == old(properties)
      ensures r.Fail? && (exists j :: 0 <= j < |ids| && StepBlocker(old(properties), ids[j], UnlinkGuard).Some?) ==>
                FirstBlocker(old(properties), ids, UnlinkGuard, r.error)
      ensures r.Fail? && (forall j :: 0 <= j < |ids| ==> StepBlocker(old(properties), ids[j], UnlinkGuard).None?) ==>
                r.error == StillReferenced
    {
      r := CheckUnlink(properties, offers, ids);
      if r.Fail? {
        return;
      }
      var gone := set k | k in ids;
      RemoveKeepsStore(properties, offers, nextId, gone);
      properties := properties - gone;
    }

    // -------------------------------------------------------------------
    // Offers.

    /** Creating an offer on listing pid: the high-water check and then the
        price constraint decide; a created offer is unset, lasts the given
        validity (7 days when none is given) from today, rises above every
        earlier offer on the listing, becomes its best offer, and moves a new
        listing to offer received. */
    method CreateOffer(pid: PropertyId, price: real, partner: PartnerId, validity: Option<int>, today: int)
      returns (r: Result<OfferId, Error>)
      requires Valid()
      modifies this
      ensures Valid() && nextId == old(nextId)
      ensures pid !in old(properties) ==> r == Err(MissingRecord)
      ensures pid in old(properties) ==>
                var check := CreateChecks(price, old(properties)[pid].expectedPrice, SiblingPrices(old(offers), pid, None));
                && (r.Ok? <==> check.Pass?)
                && (r.Err? ==> r.error == Rejected(check.error))
      ensures r.Ok? ==>
                var days := if validity.Some? then validity.value else DefaultValidity;
                && pid in old(properties)
                && r.value == |old(offers)|
                && offers == old(offers) + [Offer(price, Unset, partner, pid, old(properties)[pid].propertyType,
                                                  today, days, Some(Deadline(today, days)))]
                && properties == old(properties)[pid := ReceiveOffer(old(properties)[pid])]
      ensures r.Ok? ==>
                forall i :: 0 <= i < |old(offers)| && old(offers)[i].property == pid ==> old(offers)[i].price < price
      ensures r.Ok? ==> BestPriceOf(pid) == price
      ensures r.Ok? ==>
                forall t: TypeId ::
                  OfferCount(offers, t) ==
                  OfferCount(old(offers), t) + (if old(properties)[pid].propertyType == Some(t) then 1 else 0)
      ensures r.Err? ==> properties == old(properties) && offers == old(offers)
    {
      if pid !in properties {
        return Err(MissingRecord);
      }
      var p := properties[pid];
      var existing := SiblingPrices(offers, pid, None);
      var check := CreateChecks(price, p.expectedPrice, existing);
      if check.Fail? {
        return Err(Rejected(check.error));
      }
      var days := if validity.Some? then validity.value else DefaultValidity;
      var o := Offer(price, Unset, partner, pid, p.propertyType, today, days, Some(Deadline(today, days)));
      CreateKeepsStore(properties, offers, nextId, o);
      CreatedOfferRises(offers, o, p.expectedPrice);
      var p' := ReceiveOffer(p);
      r := Ok(|offers|);
      offers := offers + [o];
      properties := properties[pid := p'];
    }

    /** Writing an offer's price: kept exactly when the new price passes the
        price constraint against the other offers on its listing. */
    method WriteOfferPrice(oid: OfferId, price: real) returns (r: Outcome<Error>)
      requires Valid()
      modifies this
      ensures Valid() && properties == old(properties) && nextId == old(nextId)
      ensures oid >= |old(offers)| ==> r == Fail(MissingRecord)
      ensures oid < |old(offers)| ==>
                var o := old(offers)[oid];
                var check := CheckOfferPrice(price, old(properties)[o.property].expectedPrice,
                                             SiblingPrices(old(offers), o.property, Some(oid)));
                && (r.Pass? <==> check.Pass?)
                && (r.Fail? ==> r == Fail(Rejected(check.error)))
      ensures r.Pass? ==> oid < |old(offers)| && offers == old(offers)[oid := old(offers)[oid].(price := price)]
      ensures r.Fail? ==> offers == old(offers)
    {
      if oid >= |offers| {
        return Fail(MissingRecord);
      }
      var o := offers[oid];
      var check := CheckOfferPrice(price, properties[o.property].expectedPrice, SiblingPrices(offers, o.property, Some(oid)));
      if check.Fail? {
        return Fail(Rejected(check.error));
      }
      RepriceKeepsWellFormed(offers, oid, price, properties[o.property].expectedPrice);
      RelinkKeepsLinked(properties, offers, offers[oid := o.(price := price)]);
      offers := offers[oid := o.(price := price)];
      r := Pass;
    }

    /** action_accept on offer oid: refused when its listing is sold, or when
        the listing with the offer's price as selling price fails the
        validation constraint. Otherwise the listing records the price, the
        buyer and the state offer accepted, the offer becomes accepted and
        every other offer on the listing refused; offers on other listings
        are untouched. */
    method ActionAccept(oid: OfferId) returns (r: Outcome<Error>)
      requires Valid()
      modifies this
      ensures Valid() && nextId == old(nextId)
      ensures oid >= |old(offers)| ==> r == Fail(MissingRecord)
      ensures oid < |old(offers)| ==>
                var o := old(offers)[oid];
                var p := old(properties)[o.property];
                var sale := p.(sellingPrice := o.price, buyer := Some(o.partner), state := OfferAccepted);
                && (p.state == Sold ==> r == Fail(Rejected(PropertySold)))
                && (p.state != Sold ==>
                      && (r.Pass? <==> CheckProperty(sale, o.property, old(properties)).Pass?)
                      && (r.Fail? ==> r == Fail(Invalid(CheckProperty(sale, o.property, old(properties)).error))))
                && (r.Pass? ==> properties == old(properties)[o.property := sale])
      ensures r.Pass? ==>
                && oid < |old(offers)|
                && |offers| == |old(offers)|
                && forall i :: 0 <= i < |offers| ==>
                     offers[i] == if i == oid then old(offers)[i].(status := Accepted)
                                  else if old(offers)[i].property == old(offers)[oid].property
                                  then old(offers)[i].(status := Refused)
                                  else old(offers)[i]
      ensures r.Pass? ==>
                forall i :: 0 <= i < |offers| && offers[i].property == offers[oid].property ==>
                  (offers[i].status == Accepted <==> i == oid)
      ensures forall t: TypeId :: OfferCount(offers, t) == OfferCount(old(offers), t)
      ensures r.Fail? ==> properties == old(properties) && offers == old(offers)
    {
      if oid >= |offers| {
        return Fail(MissingRecord);
      }
      var o := offers[oid];
      var pid := o.property;
      var p := properties[pid];
      if p.state == Sold {
        return Fail(Rejected(PropertySold));
      }
      var sale := p.(sellingPrice := o.price, buyer := Some(o.partner), state := OfferAccepted);
      var check := CheckProperty(sale, pid, properties);
      if check.Fail? {
        return Fail(Invalid(check.error));
      }
      var table := offers;
      var os := MarkAccepted(table, oid);
      AcceptKeepsStore(properties, table, nextId, oid, os, sale);
      forall t: TypeId ensures OfferCount(os, t) == OfferCount(table, t) {
        OfferCountIgnoresOtherFields(table, os, t);
      }
      properties := properties[pid := sale];
      offers := os;
      r := Pass;
    }

    /** action_refuse over the offers oids: every one of them becomes refused
        and nothing else changes; a missing id refuses the whole call. */
    method ActionRefuse(oids: seq<OfferId>) returns (r: Outcome<Error>)
      requires Valid()
      modifies this
      ensures Valid() && properties == old(properties) && nextId == old(nextId)
      ensures r.Pass? <==> forall j :: 0 <= j < |oids| ==> oids[j] < |old(offers)|
      ensures r.Pass? ==>
                && |offers| == |old(offers)|
                && forall i :: 0 <= i < |offers| ==>
                     offers[i] == if i in oids then old(offers)[i].(status := Refused) else old(offers)[i]
      ensures forall t: TypeId :: OfferCount(offers, t) == OfferCount(old(offers), t)
      ensures r.Fail? ==> r == Fail(MissingRecord) && offers == old(offers)
    {
      if exists j :: 0 <= j < |oids| && oids[j] >= |offers| {
        return Fail(MissingRecord);
      }
      var table := offers;
      var os := MarkRefused(table, oids);
      RefuseKeepsOneAccepted(table, os);
      RestatusKeepsWellFormed(table, os);
      RelinkKeepsLinked(properties, table, os);
      forall t: TypeId ensures OfferCount(os, t) == OfferCount(table, t) {
        OfferCountIgnoresOtherFields(table, os, t);
      }
      offers := os;
      r := Pass;
    }

    /** Writing validity on offer oid: the deadline is recomputed from it. */
    method WriteValidity(oid: OfferId, validity: int) returns (r: Outcome<Error>)
      requires Valid()
      modifies this
      ensures Valid() && properties == old(properties) && nextId == old(nextId)
      ensures r.Pass? <==> oid < |old(offers)|
      ensures r.Pass? ==> offers == old(offers)[oid := WithValidity(old(offers)[oid], validity)]
      ensures r.Pass? ==> offers[oid].deadline == Some(old(offers)[oid].createDay + validity)
      ensures r.Fail? ==> r == Fail(MissingRecord) && offers == old(offers)
    {
      if oid >= |offers| {
        return Fail(MissingRecord);
      }
      var o := WithValidity(offers[oid], validity);
      ReplaceKeepsWellFormed(offers, oid, o);
      RelinkKeepsLinked(properties, offers, offers[oid := o]);
      offers := offers[oid := o];
      r := Pass;
    }

    /** Writing the deadline on offer oid: a set deadline recomputes validity
        as its distance in days from the creation day. */
    method WriteDeadline(oid: OfferId, deadline: Option<int>) returns (r: Outcome<Error>)
      requires Valid()
      modifies this
      ensures Valid() && properties == old(properties) && nextId == old(nextId)
      ensures r.Pass? <==> oid < |old(offers)|
      ensures r.Pass? ==> offers == old(offers)[oid := WithDeadline(old(offers)[oid], deadline)]
      ensures r.Pass? && deadline.Some? ==> offers[oid].validity == deadline.value - old(offers)[oid].createDay
      ensures r.Fail? ==> r == Fail(MissingRecord) && offers == old(offers)
    {
      if oid >= |offers| {
        return Fail(MissingRecord);
      }
      var o := WithDeadline(offers[oid], deadline);
      ReplaceKeepsWellFormed(offers, oid, o);
      RelinkKeepsLinked(properties, offers, offers[oid := o]);
      offers := offers[oid := o];
      r := Pass;
    }
  }
}
