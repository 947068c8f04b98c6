/** The listing record (estate.property): the fields that carry rules, the
    validation constraint run when a name or a price is written, the
    per-record steps of the sell and cancel actions, the deletion guard and
    the derived fields total_area and best_price. */
module Properties {
  import opened Common

  type PropertyId = nat
  type PartnerId = nat
  type UserId = nat
  type TypeId = nat

  /** The lifecycle states, in the order the selection declares them. */
  datatype State = New | OfferReceived | OfferAccepted | Sold | Canceled

  datatype Orientation = North | South | East | West

  /** A stored listing. An unset name is the empty string; the Integer area
      fields read as 0 when they were never set, so they are plain ints. */
  datatype Property = Property(
    name: string,
    expectedPrice: real,
    sellingPrice: real,
    livingArea: int,
    garden: bool,
    gardenArea: int,
    gardenOrientation: Option<Orientation>,
    propertyType: Option<TypeId>,
    buyer: Option<PartnerId>,
    salesperson: Option<UserId>,
    state: State)

  // ---------------------------------------------------------------------
  // Name stripping: Python's str.strip() without arguments removes the
  // characters for which str.isspace() holds from both ends.

  predicate IsSpace(c: char) {
    || c == ' '
    || ('\t' <= c <= '\r')
    || ('\U{001C}' <= c <= '\U{001F}')
    || c == '\U{0085}' || c == '\U{00A0}' || c == '\U{1680}'
    || ('\U{2000}' <= c <= '\U{200A}')
    || c == '\U{2028}' || c == '\U{2029}' || c == '\U{202F}'
    || c == '\U{205F}' || c == '\U{3000}'
  }

  predicate AllSpace(s: string) {
    forall k :: 0 <= k < |s| ==> IsSpace(s[k])
  }

  // The three functions below carry no postconditions, so that a claim
  // about the names of many records does not pull in facts about slices;
  // what they compute is stated by the lemmas that follow them.

  /** Removes leading whitespace. */
  function TrimStart(s: string): string {
    if s != [] && IsSpace(s[0]) then TrimStart(s[1..]) else s
  }

  /** Removes trailing whitespace. */
  function TrimEnd(s: string): string {
    if s != [] && IsSpace(s[|s| - 1]) then TrimEnd(s[..|s| - 1]) else s
  }

  /** str.strip(). */
  function Strip(s: string): string {
    TrimEnd(TrimStart(s))
  }

  /** TrimStart keeps a suffix of s, cuts only whitespace, and what it keeps
      does not start with whitespace. */
  lemma {:induction false} TrimStartCutsLeadingSpace(s: string)
    ensures var r := TrimStart(s);
            |r| <= |s| && r == s[|s| - |r|..] && AllSpace(s[..|s| - |r|]) &&
            (r != [] ==> !IsSpace(r[0]))
  {
    if s != [] && IsSpace(s[0]) {
      var t := s[1..];
      TrimStartCutsLeadingSpace(t);
      var r := TrimStart(t);
      assert t[..|t| - |r|] == s[1..|s| - |r|];
      var u := s[..|s| - |r|];
      var v := t[..|t| - |r|];
      assert AllSpace(u) by {
        forall k | 0 <= k < |u|
          ensures IsSpace(u[k])
        {
          assert u[k] == s[k];
          if k > 0 {
            assert s[k] == t[k - 1] == v[k - 1];
            assert IsSpace(v[k - 1]);
          }
        }
      }
    }
  }

  /** TrimEnd keeps a prefix of s, cuts only whitespace, and what it keeps
      does not end with whitespace. */
  lemma {:induction false} TrimEndCutsTrailingSpace(s: string)
    ensures var r := TrimEnd(s);
            |r| <= |s| && r == s[..|r|] && AllSpace(s[|r|..]) &&
            (r != [] ==> !IsSpace(r[|r| - 1]))
  {
    if s != [] && IsSpace(s[|s| - 1]) {
      var t := s[..|s| - 1];
      TrimEndCutsTrailingSpace(t);
      var r := TrimEnd(t);
      assert t[|r|..] == s[|r|..|s| - 1];
      assert AllSpace(s[|r|..]) by {
        forall k | 0 <= k < |s| - |r|
          ensures IsSpace(s[|r|..][k])
        {
          if k < |t| - |r| {
            assert s[|r|..][k] == t[|r|..][k];
          }
        }
      }
    }
  }

  /** Strip cuts only whitespace, from either side, and neither end of its
      result is whitespace. */
  lemma StripCutsOnlySpace(s: string)
    ensures var r := Strip(s);
            (r != [] ==> !IsSpace(r[0]) && !IsSpace(r[|r| - 1])) &&
            exists i | 0 <= i <= |s| - |r| ::
              s[i..i + |r|] == r && AllSpace(s[..i]) && AllSpace(s[i + |r|..])
  {
    TrimStartCutsLeadingSpace(s);
    var t := TrimStart(s);
    TrimEndCutsTrailingSpace(t);
    var r := TrimEnd(t);
    var i := |s| - |t|;
    assert r == Strip(s);
    assert t == s[i..];
    assert r == t[..|r|];
    assert r != [] ==> r[0] == t[0];
    assert s[i..i + |r|] == t[..|r|];
    assert AllSpace(s[..i]);
    assert s[i + |r|..] == t[|r|..];
    assert AllSpace(s[i + |r|..]);
    assert s[i..i + |r|] == r && AllSpace(s[..i]) && AllSpace(s[i + |r|..]);
  }

  /** A string with no whitespace at either end is left as it is. */
  lemma StripKeepsTrimmed(s: string)
    requires s != [] ==> !IsSpace(s[0]) && !IsSpace(s[|s| - 1])
    ensures Strip(s) == s
  {
    assert TrimStart(s) == s;
    assert TrimEnd(s) == s;
  }

  /** Stripping twice is stripping once. */
  lemma StripIdempotent(s: string)
    ensures Strip(Strip(s)) == Strip(s)
  {
    StripCutsOnlySpace(s);
    StripKeepsTrimmed(Strip(s));
  }

  // ---------------------------------------------------------------------
  // The validation constraint on name, expected_price and selling_price.

  /** The five errors the constraint raises, in the order it tests them. */
  datatype PropertyError =
    | ExpectedPriceNotPositive
    | SellingPriceNegative
    | SellingPriceTooLow
    | NameTooShort
    | NameNotUnique

  /** The position of each test in the constraint. */
  function Rank(e: PropertyError): nat {
    match e
    case ExpectedPriceNotPositive => 0
    case SellingPriceNegative => 1
    case SellingPriceTooLow => 2
    case NameTooShort => 3
    case NameNotUnique => 4
  }

  /** Another stored record, under another id, has the same stripped name as
      `name` (the comparison the uniqueness rule intends). */
  predicate NameTaken(name: string, id: PropertyId, props: map<PropertyId, Property>) {
    exists k :: k in props && k != id && Strip(props[k].name) == Strip(name)
  }

  /** The comparison the uniqueness search makes as written: the other
      record's stored name against this record's stripped name. */
  predicate NameTakenAsWritten(name: string, id: PropertyId, props: map<PropertyId, Property>) {
    exists k :: k in props && k != id && props[k].name == Strip(name)
  }

  /** Whether record p, stored under id among props, breaks the rule that
      error e reports. */
  predicate Violates(p: Property, id: PropertyId, props: map<PropertyId, Property>, e: PropertyError) {
    match e
    case ExpectedPriceNotPositive => p.expectedPrice <= 0.0
    case SellingPriceNegative => p.sellingPrice < 0.0
    case SellingPriceTooLow => p.sellingPrice != 0.0 && p.sellingPrice < 0.9 * p.expectedPrice
    case NameTooShort => |Strip(p.name)| < 3
    case NameNotUnique => NameTaken(p.name, id, props)
  }

  /** The constraint: it passes exactly when no rule is broken, and otherwise
      reports the first broken rule in the order of the tests. */
  function CheckProperty(p: Property, id: PropertyId, props: map<PropertyId, Property>): (r: Outcome<PropertyError>)
    ensures r.Fail? ==> Violates(p, id, props, r.error)
    ensures r.Pass? <==> forall e :: !Violates(p, id, props, e)
    ensures r.Fail? ==> forall e :: Rank(e) < Rank(r.error) ==> !Violates(p, id, props, e)
  {
    if p.expectedPrice <= 0.0 then
      assert Violates(p, id, props, ExpectedPriceNotPositive);
      Fail(ExpectedPriceNotPositive)
    else if p.sellingPrice < 0.0 then
      assert Violates(p, id, props, SellingPriceNegative);
      Fail(SellingPriceNegative)
    else if p.sellingPrice != 0.0 && p.sellingPrice < 0.9 * p.expectedPrice then
      assert Violates(p, id, props, SellingPriceTooLow);
      Fail(SellingPriceTooLow)
    else if |Strip(p.name)| < 3 then
      assert Violates(p, id, props, NameTooShort);
      Fail(NameTooShort)
    else if NameTaken(p.name, id, props) then
      assert Violates(p, id, props, NameNotUnique);
      Fail(NameNotUnique)
    else Pass
  }

  /** A zero selling price (no offer accepted yet) is exempt from the 90% floor. */
  lemma ZeroSellingPriceExempt(p: Property, id: PropertyId, props: map<PropertyId, Property>)
    requires p.expectedPrice > 0.0 && p.sellingPrice == 0.0 && |Strip(p.name)| >= 3
    requires !NameTaken(p.name, id, props)
    ensures CheckProperty(p, id, props).Pass?
  {
    assert forall e :: !Violates(p, id, props, e);
  }

  /** Every store in which each record passes the constraint. */
  ghost predicate Consistent(props: map<PropertyId, Property>) {
    forall k :: k in props ==> CheckProperty(props[k], k, props).Pass?
  }

  /** Stripped names are pairwise distinct. */
  ghost predicate UniqueNames(props: map<PropertyId, Property>) {
    forall a, b :: a in props && b in props && a != b ==> Strip(props[a].name) != Strip(props[b].name)
  }

  /** In a consistent store no two records share a stripped name. */
  lemma ConsistentHasUniqueNames(props: map<PropertyId, Property>)
    requires Consistent(props)
    ensures UniqueNames(props)
  {
    forall a, b | a in props && b in props && a != b
      ensures Strip(props[a].name) != Strip(props[b].name)
    {
      assert CheckProperty(props[a], a, props).Pass?;
      assert !Violates(props[a], a, props, NameNotUnique);
    }
  }

  /** A record that passes the constraint still passes it after a change to
      fields the constraint does not read, and in another store, as long as
      no record of that store shares its stripped name. */
  lemma CheckCarriesOver(p: Property, id: PropertyId, props: map<PropertyId, Property>,
                         q: Property, props': map<PropertyId, Property>)
    requires CheckProperty(p, id, props).Pass?
    requires q.name == p.name && q.expectedPrice == p.expectedPrice && q.sellingPrice == p.sellingPrice
    requires !NameTaken(q.name, id, props')
    ensures CheckProperty(q, id, props').Pass?
  {
    forall e ensures !Violates(q, id, props', e) {
      assert !Violates(p, id, props, e);
    }
  }

  /** Two stores agree on everything the constraint reads. */
  ghost predicate SameRuleFields(props: map<PropertyId, Property>, props': map<PropertyId, Property>) {
    && props.Keys == props'.Keys
    && forall k :: k in props ==>
         && props'[k].name == props[k].name
         && props'[k].expectedPrice == props[k].expectedPrice
         && props'[k].sellingPrice == props[k].sellingPrice
  }

  /** A record that passes the constraint in props still passes it in
      props' when every record of props' other than itself already sat in
      props with the same stripped name. */
  lemma AdmittedInNarrowerStore(q: Property, k: PropertyId,
                                props: map<PropertyId, Property>, props': map<PropertyId, Property>)
    requires CheckProperty(q, k, props).Pass?
    requires forall w :: w in props' && w != k ==> w in props && Strip(props'[w].name) == Strip(props[w].name)
    ensures CheckProperty(q, k, props').Pass?
  {
    assert !Violates(q, k, props, NameNotUnique);
    forall w | w in props' && w != k
      ensures Strip(props'[w].name) != Strip(q.name)
    {
      assert w in props;
    }
    CheckCarriesOver(q, k, props, q, props');
  }

  /** Changing fields the constraint does not read (state, buyer, areas)
      keeps every record passing it. */
  lemma SameRuleFieldsKeepConsistent(props: map<PropertyId, Property>, props': map<PropertyId, Property>)
    requires Consistent(props) && SameRuleFields(props, props')
    ensures Consistent(props')
  {
    forall k | k in props'
      ensures CheckProperty(props'[k], k, props').Pass?
    {
      AdmittedInNarrowerStore(props[k], k, props, props');
      CheckCarriesOver(props[k], k, props', props'[k], props');
    }
  }

  /** Writing a record that passes the constraint into a consistent store
      keeps it consistent: the stripped-name comparison is symmetric, so no
      other record starts to clash with the new one. */
  lemma WriteKeepsConsistent(props: map<PropertyId, Property>, id: PropertyId, p: Property)
    requires Consistent(props)
    requires CheckProperty(p, id, props).Pass?
    ensures Consistent(props[id := p])
  {
    var props' := props[id := p];
    AdmittedInNarrowerStore(p, id, props, props');
    forall k | k in props' && k != id
      ensures CheckProperty(props'[k], k, props').Pass?
    {
      WrittenRecordClashesWithNone(props, id, p, k);
    }
  }

  /** The step of WriteKeepsConsistent for a record other than the written one. */
  lemma WrittenRecordClashesWithNone(props: map<PropertyId, Property>, id: PropertyId, p: Property, k: PropertyId)
    requires k in props && k != id
    requires CheckProperty(props[k], k, props).Pass?
    requires CheckProperty(p, id, props).Pass?
    ensures CheckProperty(props[k], k, props[id := p]).Pass?
  {
    var q := props[k];
    var props' := props[id := p];
    assert !Violates(p, id, props, NameNotUnique);
    assert !Violates(q, k, props, NameNotUnique);
    forall w | w in props' && w != k
      ensures Strip(props'[w].name) != Strip(q.name)
    {
      if w != id {
        assert w in props && props'[w] == props[w];
      }
    }
    CheckCarriesOver(q, k, props, q, props');
  }

  /** Removing records from a consistent store keeps it consistent. */
  lemma RemoveKeepsConsistent(props: map<PropertyId, Property>, gone: set<PropertyId>)
    requires Consistent(props)
    ensures Consistent(props - gone)
  {
    forall k | k in props - gone
      ensures CheckProperty((props - gone)[k], k, props - gone).Pass?
    {
      AdmittedInNarrowerStore(props[k], k, props, props - gone);
    }
  }

  // ---------------------------------------------------------------------
  // Uniqueness as written (see the Findings of the README).

  /** Whatever the search as written rejects, the stripped comparison
      rejects too. */
  lemma AsWrittenRejectsLess(name: string, id: PropertyId, props: map<PropertyId, Property>)
    requires NameTakenAsWritten(name, id, props)
    ensures NameTaken(name, id, props)
  {
    var k :| k in props && k != id && props[k].name == Strip(name);
    StripIdempotent(name);
  }

  /** A listing with the given name and otherwise neutral fields. */
  function Listing(name: string): (p: Property)
    ensures p.name == name && p.expectedPrice > 0.0 && p.sellingPrice == 0.0
  {
    Property(name, 100.0, 0.0, 0, false, 0, None, None, None, None, New)
  }

  /** With " abc" stored under id 1, the search as written lets "abc" in
      under id 2, although both strip to "abc"; afterwards the store has two
      records with the same stripped name. */
  lemma AsWrittenAdmitsTrimmedDuplicate()
    ensures !NameTakenAsWritten("abc", 2, map[1 := Listing(" abc")])
    ensures NameTaken("abc", 2, map[1 := Listing(" abc")])
    ensures !UniqueNames(map[1 := Listing(" abc"), 2 := Listing("abc")])
  {
    StripKeepsTrimmed("abc");
    assert TrimStart(" abc") == "abc" by {
      assert " abc"[1..] == "abc";
    }
    assert Strip(" abc") == "abc";
    var stored := map[1 := Listing(" abc")];
    assert 1 in stored && Strip(stored[1].name) == Strip("abc");
    var both := map[1 := Listing(" abc"), 2 := Listing("abc")];
    assert 1 in both && 2 in both && Strip(both[1].name) == Strip(both[2].name);
  }

  // ---------------------------------------------------------------------
  // Lifecycle steps of one record.

  /** The errors the lifecycle actions and the deletion guard raise. */
  datatype LifecycleError = SellCanceled | CancelSold | DeleteInProgress

  /** One iteration of action_sold: refused on a canceled listing, otherwise
      the state becomes sold and nothing else changes. */
  function Sell(p: Property): (r: Result<Property, LifecycleError>)
    ensures r.Err? <==> p.state == Canceled
    ensures r.Err? ==> r.error == SellCanceled
    ensures r.Ok? ==> r.value.state == Sold && r.value.(state := p.state) == p
  {
    if p.state == Canceled then Err(SellCanceled) else Ok(p.(state := Sold))
  }

  /** One iteration of action_cancel: refused on a sold listing, otherwise
      the state becomes canceled and nothing else changes. */
  function Cancel(p: Property): (r: Result<Property, LifecycleError>)
    ensures r.Err? <==> p.state == Sold
    ensures r.Err? ==> r.error == CancelSold
    ensures r.Ok? ==> r.value.state == Canceled && r.value.(state := p.state) == p
  {
    if p.state == Sold then Err(CancelSold) else Ok(p.(state := Canceled))
  }

  /** Selling a sold listing changes nothing; cancelling a canceled one
      changes nothing. */
  lemma SellCancelIdempotent(p: Property)
    ensures p.state == Sold ==> Sell(p) == Ok(p)
    ensures p.state == Canceled ==> Cancel(p) == Ok(p)
  {
  }

  /** Sold and canceled exclude each other: neither action leads from one to
      the other. */
  lemma SoldAndCanceledAreTerminal(p: Property)
    ensures Sell(p).Ok? ==> Cancel(Sell(p).value).Err?
    ensures Cancel(p).Ok? ==> Sell(Cancel(p).value).Err?
  {
  }

  /** The deletion guard: only new or canceled listings may be deleted. */
  predicate CanUnlink(p: Property) {
    p.state == New || p.state == Canceled
  }

  /** One iteration of unlink's guard: a listing that is neither new nor
      canceled stops the deletion; any other passes unchanged. */
  function UnlinkGuard(p: Property): (r: Result<Property, LifecycleError>)
    ensures r.Ok? <==> p.state in {New, Canceled}
    ensures r.Err? ==> r.error == DeleteInProgress
    ensures r.Ok? ==> r.value == p
  {
    if CanUnlink(p) then Ok(p) else Err(DeleteInProgress)
  }

  // ---------------------------------------------------------------------
  // Derived fields and the edit-time garden suggestion.

  /** total_area: living area plus garden area. */
  function TotalArea(p: Property): (r: int)
    ensures r == p.livingArea + p.gardenArea
  {
    p.livingArea + p.gardenArea
  }

  /** best_price over the prices of a listing's offers: their maximum, or 0
      when there are none. */
  function BestPrice(prices: seq<real>): (r: real)
    ensures prices == [] ==> r == 0.0
    ensures prices != [] ==> r in prices
    ensures forall i :: 0 <= i < |prices| ==> prices[i] <= r
  {
    if |prices| <= 1 then (if prices == [] then 0.0 else prices[0])
    else
      var rest := BestPrice(prices[1..]);
      assert forall i :: 1 <= i < |prices| ==> prices[i] == prices[1..][i - 1];
      if prices[0] >= rest then prices[0] else rest
  }

  /** The garden toggle's suggestion on a draft: ticking it proposes a 10 m2
      north garden, unticking it clears area and orientation; every other
      field is left alone. */
  function OnchangeGarden(p: Property): (r: Property)
    ensures r.garden == p.garden
    ensures p.garden ==> r.gardenArea == 10 && r.gardenOrientation == Some(North)
    ensures !p.garden ==> r.gardenArea == 0 && r.gardenOrientation == None
    ensures r.(gardenArea := p.gardenArea, gardenOrientation := p.gardenOrientation) == p
  {
    if p.garden then p.(gardenArea := 10, gardenOrientation := Some(North))
    else p.(gardenArea := 0, gardenOrientation := None)
  }

  /** Applying the suggestion twice is applying it once, and it fixes the
      total area at the living area plus 10 or plus 0. */
  lemma GardenSuggestionArea(p: Property)
    ensures OnchangeGarden(OnchangeGarden(p)) == OnchangeGarden(p)
    ensures TotalArea(OnchangeGarden(p)) == p.livingArea + (if p.garden then 10 else 0)
  {
  }
}
