/** The offer record (estate.property.offer): the high-water check that
    creation makes, the price constraint, the state a listing reaches when it
    receives an offer, the validity/deadline pair, and the invariants the
    table of offers keeps. */
module Offers {
  import opened Common
  import opened Properties

  /** An offer's id is its position in the table of offers. */
  type OfferId = nat

  /** Unset stands for the selection left empty. */
  datatype Status = Unset | Accepted | Refused

  /** A stored offer. Days are integer day numbers; an unset deadline is None. */
  datatype Offer = Offer(
    price: real,
    status: Status,
    partner: PartnerId,
    property: PropertyId,
    propertyType: Option<TypeId>,
    createDay: int,
    validity: int,
    deadline: Option<int>)

  /** The validity, in days, of an offer created without one. */
  const DefaultValidity: int := 7

  /** The errors offers raise: one from creation, three from the price
      constraint in the order it tests them, one from acceptance. */
  datatype OfferError =
    | LowerThanExisting
    | PriceNotPositive
    | BelowExpectedFloor
    | NotAboveExisting
    | PropertySold

  // ---------------------------------------------------------------------
  // Prices of the other offers on a listing.

  /** The prices of the offers in the table that were made on listing pid,
      leaving out the offer at position skip, when there is one. */
  function SiblingPrices(offers: seq<Offer>, pid: PropertyId, skip: Option<OfferId>): (r: seq<real>)
    ensures forall i :: 0 <= i < |offers| && skip != Some(i) && offers[i].property == pid ==> offers[i].price in r
    ensures forall x :: x in r ==>
              exists i :: 0 <= i < |offers| && skip != Some(i) && offers[i].property == pid && offers[i].price == x
  {
    if offers == [] then []
    else
      var n := |offers| - 1;
      var rest := SiblingPrices(offers[..n], pid, skip);
      assert forall i :: 0 <= i < n ==> offers[..n][i] == offers[i];
      if skip != Some(n) && offers[n].property == pid then rest + [offers[n].price] else rest
  }

  // ---------------------------------------------------------------------
  // The checks made when an offer is created or its price is written.

  /** The check in create: an offer lower than the best existing offer on
      the listing is refused; an offer equal to it passes this check. */
  function CheckHighWater(price: real, existing: seq<real>): (r: Outcome<OfferError>)
    ensures r.Fail? <==> exists x :: x in existing && price < x
    ensures r.Fail? ==> r.error == LowerThanExisting
  {
    if existing != [] && price < BestPrice(existing) then Fail(LowerThanExisting) else Pass
  }

  /** The price constraint: the price must be positive, at least 90% of the
      listing's expected price, and strictly above every other offer on the
      listing; the first broken rule is reported. */
  function CheckOfferPrice(price: real, expected: real, others: seq<real>): (r: Outcome<OfferError>)
    ensures r.Pass? <==> price > 0.0 && price >= 0.9 * expected && forall x :: x in others ==> x < price
    ensures price <= 0.0 ==> r == Fail(PriceNotPositive)
    ensures price > 0.0 && price < 0.9 * expected ==> r == Fail(BelowExpectedFloor)
    ensures price > 0.0 && price >= 0.9 * expected && r.Fail? ==> r == Fail(NotAboveExisting)
  {
    if price <= 0.0 then Fail(PriceNotPositive)
    else if price < 0.9 * expected then Fail(BelowExpectedFloor)
    else if others != [] && price <= BestPrice(others) then Fail(NotAboveExisting)
    else Pass
  }

  /** Everything creating an offer checks: first the high-water check, then
      the price constraint. The high-water check never refuses an offer the
      constraint would let through; it only decides the message. */
  function CreateChecks(price: real, expected: real, existing: seq<real>): (r: Outcome<OfferError>)
    ensures r.Pass? <==> CheckOfferPrice(price, expected, existing).Pass?
    ensures (exists x :: x in existing && price < x) ==> r == Fail(LowerThanExisting)
    ensures (forall x :: x in existing ==> x <= price) ==> r == CheckOfferPrice(price, expected, existing)
  {
    match CheckHighWater(price, existing)
    case Fail(e) => Fail(e)
    case Pass => CheckOfferPrice(price, expected, existing)
  }

  /** An offer equal to the best existing one passes the high-water check
      but is refused by the constraint. */
  lemma EqualOfferRefusedByConstraint(price: real, expected: real, existing: seq<real>)
    requires price > 0.0 && price >= 0.9 * expected
    requires existing != [] && price == BestPrice(existing)
    ensures CheckHighWater(price, existing).Pass?
    ensures CreateChecks(price, expected, existing) == Fail(NotAboveExisting)
  {
    assert price in existing;
  }

  /** The state a listing is in once it has received an offer: new becomes
      offer received, every other state is kept. */
  function ReceiveOffer(p: Property): (r: Property)
    ensures p.state == New ==> r.state == OfferReceived
    ensures p.state != New ==> r == p
    ensures r.(state := p.state) == p
  {
    if p.state == New then p.(state := OfferReceived) else p
  }

  // ---------------------------------------------------------------------
  // The validity/deadline pair.

  /** The computed deadline: the creation day plus validity days. */
  function Deadline(createDay: int, validity: int): int {
    createDay + validity
  }

  /** The inverse: the validity is the number of days from the creation day
      to the deadline (negative when the deadline comes first). */
  function ValidityFor(createDay: int, deadline: int): int {
    deadline - createDay
  }

  /** The computation and its inverse undo each other. */
  lemma DeadlineInverse(createDay: int, validity: int, deadline: int)
    ensures ValidityFor(createDay, Deadline(createDay, validity)) == validity
    ensures Deadline(createDay, ValidityFor(createDay, deadline)) == deadline
  {
  }

  /** A set deadline agrees with the creation day and the validity. */
  predicate DeadlineSynced(o: Offer) {
    o.deadline.Some? ==> o.deadline.value == Deadline(o.createDay, o.validity)
  }

  /** Writing validity: the deadline is recomputed from it. */
  function WithValidity(o: Offer, v: int): (r: Offer)
    ensures r.validity == v && r.deadline.Some? && DeadlineSynced(r)
    ensures r.(validity := o.validity, deadline := o.deadline) == o
  {
    o.(validity := v, deadline := Some(Deadline(o.createDay, v)))
  }

  /** Writing the deadline: a set deadline recomputes validity; clearing it
      leaves validity alone. */
  function WithDeadline(o: Offer, d: Option<int>): (r: Offer)
    ensures r.deadline == d && DeadlineSynced(r)
    ensures d.None? ==> r.validity == o.validity
    ensures r.(validity := o.validity, deadline := o.deadline) == o
  {
    match d
    case None => o.(deadline := None)
    case Some(day) => o.(validity := ValidityFor(o.createDay, day), deadline := d)
  }

  /** Writing a deadline and then its validity gives back the deadline;
      writing a validity and then its deadline gives back the validity. */
  lemma ValidityDeadlineRoundTrip(o: Offer, v: int, d: int)
    ensures var o' := WithDeadline(o, Some(d)); WithValidity(o', o'.validity).deadline == Some(d)
    ensures var o' := WithValidity(o, v); WithDeadline(o', o'.deadline).validity == v
  {
  }

  // ---------------------------------------------------------------------
  // Invariants of the table of offers.

  /** No two offers on one listing are both accepted. */
  ghost predicate AtMostOneAccepted(offers: seq<Offer>) {
    forall i, j ::
      (0 <= i < |offers| && 0 <= j < |offers| && i != j &&
       offers[i].property == offers[j].property && offers[i].status == Accepted) ==>
      offers[j].status != Accepted
  }

  /** No two offers on one listing have the same price. */
  ghost predicate DistinctSiblingPrices(offers: seq<Offer>) {
    forall i, j ::
      (0 <= i < |offers| && 0 <= j < |offers| && i != j &&
       offers[i].property == offers[j].property) ==>
      offers[i].price != offers[j].price
  }

  /** What every stored table of offers satisfies. */
  ghost predicate WellFormed(offers: seq<Offer>) {
    && (forall i :: 0 <= i < |offers| ==> offers[i].price > 0.0 && DeadlineSynced(offers[i]))
    && AtMostOneAccepted(offers)
    && DistinctSiblingPrices(offers)
  }

  /** Appending an unaccepted offer that passes the price constraint against
      the offers already on its listing keeps the table well formed. */
  lemma AppendKeepsWellFormed(offers: seq<Offer>, o: Offer, expected: real)
    requires WellFormed(offers)
    requires o.status != Accepted && DeadlineSynced(o)
    requires CheckOfferPrice(o.price, expected, SiblingPrices(offers, o.property, None)).Pass?
    ensures WellFormed(offers + [o])
  {
    var t := offers + [o];
    var n := |offers|;
    forall i | 0 <= i < n && offers[i].property == o.property
      ensures offers[i].price < o.price
    {
      assert offers[i].price in SiblingPrices(offers, o.property, None);
    }
    assert forall i :: 0 <= i < |t| ==> t[i] == if i == n then o else offers[i];
  }

  /** The newest offer that passed the constraint is the best offer on its
      listing. */
  lemma AppendedOfferIsBest(offers: seq<Offer>, o: Offer, expected: real)
    requires CheckOfferPrice(o.price, expected, SiblingPrices(offers, o.property, None)).Pass?
    ensures BestPrice(SiblingPrices(offers + [o], o.property, None)) == o.price
  {
    var t := offers + [o];
    var all := SiblingPrices(t, o.property, None);
    var best := BestPrice(all);
    assert t[|offers|] == o;
    assert o.price in all;
    assert o.price <= best by {
      var k :| 0 <= k < |all| && all[k] == o.price;
    }
  }

  /** Replacing one offer by a synced, positively priced offer on the same
      listing, with the same status and a price no other offer on that
      listing has, keeps the table well formed. */
  lemma ReplaceKeepsWellFormed(offers: seq<Offer>, oid: OfferId, o: Offer)
    requires WellFormed(offers) && oid < |offers|
    requires o.price > 0.0 && DeadlineSynced(o)
    requires o.property == offers[oid].property && o.status == offers[oid].status
    requires forall j :: 0 <= j < |offers| && j != oid && offers[j].property == o.property ==> offers[j].price != o.price
    ensures WellFormed(offers[oid := o])
  {
    var t := offers[oid := o];
    assert forall i :: 0 <= i < |t| ==> t[i] == if i == oid then o else offers[i];
    assert forall i :: 0 <= i < |t| ==>
      t[i].property == offers[i].property && t[i].status == offers[i].status;
  }

  /** Rewriting one offer's price to a value that passes the price
      constraint against the other offers on its listing keeps the table
      well formed. */
  lemma RepriceKeepsWellFormed(offers: seq<Offer>, oid: OfferId, price: real, expected: real)
    requires WellFormed(offers) && oid < |offers|
    requires CheckOfferPrice(price, expected, SiblingPrices(offers, offers[oid].property, Some(oid))).Pass?
    ensures WellFormed(offers[oid := offers[oid].(price := price)])
  {
    var o := offers[oid];
    forall j | 0 <= j < |offers| && j != oid && offers[j].property == o.property
      ensures offers[j].price != price
    {
      assert offers[j].price in SiblingPrices(offers, o.property, Some(oid));
    }
    ReplaceKeepsWellFormed(offers, oid, o.(price := price));
  }

  /** Two tables that differ at most in the statuses of their offers. */
  ghost predicate SameButStatus(offers: seq<Offer>, offers': seq<Offer>) {
    && |offers'| == |offers|
    && forall i :: 0 <= i < |offers| ==> offers'[i] == offers[i].(status := offers'[i].status)
  }

  /** Changing statuses keeps a table well formed as long as no listing ends
      up with two accepted offers. */
  lemma RestatusKeepsWellFormed(offers: seq<Offer>, offers': seq<Offer>)
    requires WellFormed(offers) && SameButStatus(offers, offers')
    requires AtMostOneAccepted(offers')
    ensures WellFormed(offers')
  {
    forall i, j | 0 <= i < |offers'| && 0 <= j < |offers'| && i != j && offers'[i].property == offers'[j].property
      ensures offers'[i].price != offers'[j].price
    {
      assert offers'[i].price == offers[i].price && offers'[j].price == offers[j].price;
    }
  }
}
