/** The property type (estate.property.type) as an aggregation root: the
    offers filed under a type through the copy of the listing's type that
    each offer stores, how many there are, and whether there are any. */
module PropertyTypes {
  import opened Common
  import opened Properties
  import opened Offers

  /** The ids of the offers whose stored type is t: the one-to-many offer_ids
      and the list the "view offers" action opens. */
  function OfferIds(offers: seq<Offer>, t: TypeId): (ids: set<OfferId>)
    ensures forall i :: i in ids ==> i < |offers|
  {
    set i | 0 <= i < |offers| && offers[i].propertyType == Some(t)
  }

  /** offer_count: the number of offers whose stored type is t, counted one
      record at a time as a search_count does. */
  function OfferCount(offers: seq<Offer>, t: TypeId): (n: nat)
    ensures n == |OfferIds(offers, t)|
    ensures n <= |offers|
  {
    if offers == [] then 0
    else
      var k := |offers| - 1;
      var before := OfferCount(offers[..k], t);
      var mine := if offers[k].propertyType == Some(t) then 1 else 0;
      assert OfferIds(offers, t) ==
             OfferIds(offers[..k], t) + (if mine == 1 then {k} else {});
      before + mine
  }

  /** has_offers: whether any offer is filed under t. It holds exactly when
      offer_count is positive. */
  function HasOffers(offers: seq<Offer>, t: TypeId): (b: bool)
    ensures b <==> OfferCount(offers, t) > 0
  {
    OfferIds(offers, t) != {}
  }

  /** has_offers holds exactly when some offer in the table is filed under t. */
  lemma HasOffersIffSomeOffer(offers: seq<Offer>, t: TypeId)
    ensures HasOffers(offers, t) <==> exists i :: 0 <= i < |offers| && offers[i].propertyType == Some(t)
  {
    if HasOffers(offers, t) {
      var i :| i in OfferIds(offers, t);
      assert 0 <= i < |offers| && offers[i].propertyType == Some(t);
    }
    if exists i :: 0 <= i < |offers| && offers[i].propertyType == Some(t) {
      var i :| 0 <= i < |offers| && offers[i].propertyType == Some(t);
      assert i in OfferIds(offers, t);
    }
  }

  /** Two tables that file every offer under the same type have the same
      counts, whatever their prices and statuses. */
  lemma {:induction false} OfferCountIgnoresOtherFields(offers: seq<Offer>, offers': seq<Offer>, t: TypeId)
    requires |offers| == |offers'|
    requires forall i :: 0 <= i < |offers| ==> offers'[i].propertyType == offers[i].propertyType
    ensures OfferCount(offers', t) == OfferCount(offers, t)
  {
    if offers != [] {
      var k := |offers| - 1;
      OfferCountIgnoresOtherFields(offers[..k], offers'[..k], t);
    }
  }

  /** Appending one offer raises the count of its own type by one and leaves
      every other type's count alone. */
  lemma OfferCountAppend(offers: seq<Offer>, o: Offer, t: TypeId)
    ensures OfferCount(offers + [o], t) ==
            OfferCount(offers, t) + (if o.propertyType == Some(t) then 1 else 0)
  {
    assert (offers + [o])[..|offers|] == offers;
  }
}
