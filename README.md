# Real-estate listings, offers and property types — a Dafny model

This project models the business rules of an Odoo real-estate module.
A **listing** (`estate.property`) has:

- an expected price and a selling price;
- a living area and a garden;
- a buyer;
- a lifecycle state: new, offer received, offer accepted, sold or canceled.

Buyers make **offers** (`estate.property.offer`) on a listing. Each offer
has a price, a status (unset, accepted or refused), and a validity in days
paired with a deadline. A **property type** (`estate.property.type`)
gathers the offers made on listings of its type, through the copy of the
listing's type that every offer stores.

There are five modules:

- `Common` (`common.dfy`) holds the `Option`, `Outcome` and `Result` wrappers.
- `Properties` (`estate_property.dfy`) holds the listing record and the five
  ordered validation checks, including Python's `str.strip`. It also holds
  the per-record steps of the sold and cancel buttons, the deletion guard,
  `total_area`, `best_price`, and the garden suggestion.
- `Offers` (`estate_property_offer.dfy`) holds the offer record, and these pieces:
  - the high-water check made at creation;
  - the price constraint;
  - the new → offer-received step;
  - the validity/deadline compute/inverse pair;
  - the invariants of the offer table: positive prices, synced deadlines,
    at most one accepted offer per listing, and distinct prices per listing.
- `PropertyTypes` (`estate_property_type.dfy`) holds `offer_ids`,
  `offer_count` and `has_offers`.
- `Estate` (`registry.dfy`) holds the class `Registry`, an in-memory store
  standing in for the ORM:
  - a map of listings keyed by id, and a sequence of offers whose id is
    their position in it;
  - every action that writes to them, as a method with `modifies this`.

Every method keeps the invariant `Valid()`:

- every stored listing passes the validation constraint;
- every offer points at a stored listing and carries its type;
- the offer table is well formed.

Every method tests all of its guards before it changes anything. A refused
action leaves both tables as they were, as the rolled-back transaction
does in the original.

The name check at estate/models/estate_property.py:152-158 strips this
record's name (`record.name.strip()`) before it searches, but compares it
with the other records' stored names as they were written. Stripping only
one side is evidently a slip: the check exists so that two listings cannot
share a name, so names that differ only in surrounding whitespace are meant
to clash. The model states the code as written in `NameTakenAsWritten`,
records the difference under "## Findings", and compares stripped with
stripped everywhere else.

Offer creation refuses a price strictly below the best existing offer
(`<` at estate/models/estate_property_offer.py:90), while the price
constraint refuses one that is not strictly above it (`<=` at
estate/models/estate_property_offer.py:109). So an offer equal to the best
one passes creation's own check, and the price constraint then refuses it,
as `Offers.EqualOfferRefusedByConstraint` shows. The model follows the code.

Accepting an offer is refused only on a sold listing. As in the code,
`Estate.Registry.ActionAccept` lets a canceled listing move to offer
accepted, and from there to sold. Writing the selling price re-runs the
listing's validation constraint, because the selling price is one of the
fields that constraint watches. So an acceptance fails with the 90% floor
error when the expected price was raised after the offer was made, far
enough that the offer is now below 90% of it. An offer of 95 made on an
expected price of 100 is still accepted after the expected price becomes
105, since 95 is at least 94.5.

Deleting listings checks the state guard of estate/models/estate_property.py:96-100 first.
Then the deletion is refused with `StillReferenced` while an offer still
points at one of the listings. That refusal comes from the database, not the
Python code: an offer's required link to its listing restricts deletion.

## Model

| member | source | states |
|---|---|---|
| Properties.CheckProperty | estate/models/estate_property.py:132-160 | a failure names a rule the record breaks; the record passes exactly when it breaks none; the reported rule is the first broken one in source order (expected price, selling price, 90% floor, name length, uniqueness) |
| Properties.ZeroSellingPriceExempt | estate/models/estate_property.py:141-147 | a selling price of 0 is exempt from the 90% floor: such a record with a positive expected price and a unique name of 3 or more characters passes |
| Properties.StripCutsOnlySpace | estate/models/estate_property.py:149-150 | the stripped name is a slice of the name with only whitespace cut from either side, and neither of its ends is whitespace |
| Properties.StripKeepsTrimmed | estate/models/estate_property.py:149-150 | a name with no whitespace at either end is left unchanged by strip |
| Properties.StripIdempotent | estate/models/estate_property.py:149-154 | stripping twice is stripping once |
| Properties.ConsistentHasUniqueNames | estate/models/estate_property.py:152-160 | in a store where every record passes the constraint, no two records share a stripped name |
| Properties.CheckCarriesOver | estate/models/estate_property.py:132-160 | a record that passes keeps passing when only fields the constraint does not read change, in any store where its stripped name is still free |
| Properties.AdmittedInNarrowerStore | estate/models/estate_property.py:152-160 | a record that passes still passes in a store whose other records are a subset, names unchanged after strip |
| Properties.SameRuleFieldsKeepConsistent | estate/models/estate_property.py:132 | changes to fields outside name, expected price and selling price keep every record passing |
| Properties.WriteKeepsConsistent | estate/models/estate_property.py:132-160 | writing one record that passes the constraint into a store where all records pass leaves all records passing |
| Properties.WrittenRecordClashesWithNone | estate/models/estate_property.py:152-160 | after such a write, no other record's stripped name is taken |
| Properties.RemoveKeepsConsistent | estate/models/estate_property.py:96-100 | deleting any set of records from a store where all records pass leaves the rest passing |
| Properties.AsWrittenRejectsLess | estate/models/estate_property.py:152-160 | every clash the source's raw-name search (`Properties.NameTakenAsWritten`, :154-158) finds is also a clash of stripped names |
| Properties.AsWrittenAdmitsTrimmedDuplicate | estate/models/estate_property.py:152-160 | with " abc" stored, the source's search admits "abc", which leaves two records with the same stripped name |
| Properties.Sell | estate/models/estate_property.py:117-122 | refused exactly on a canceled listing; otherwise the state becomes sold and nothing else changes |
| Properties.Cancel | estate/models/estate_property.py:124-129 | refused exactly on a sold listing; otherwise the state becomes canceled and nothing else changes |
| Properties.SellCancelIdempotent | estate/models/estate_property.py:117-129 | selling a sold listing and canceling a canceled one change nothing |
| Properties.SoldAndCanceledAreTerminal | estate/models/estate_property.py:117-129 | neither button leads from sold to canceled or from canceled to sold |
| Properties.UnlinkGuard | estate/models/estate_property.py:96-99 | a listing passes the deletion guard exactly when it is new or canceled, and is then kept as it is |
| Properties.TotalArea | estate/models/estate_property.py:102-106 | total area is the living area plus the garden area |
| Properties.BestPrice | estate/models/estate_property.py:108-115 | 0 when there are no offers; otherwise one of the offer prices, and no offer price exceeds it |
| Properties.OnchangeGarden | estate/models/estate_property.py:39-46 | ticking the garden proposes 10 and north, unticking clears both, and no other field changes |
| Properties.GardenSuggestionArea | estate/models/estate_property.py:39-46 | the suggestion is idempotent, and total area becomes living area plus 10 or plus 0 |
| Offers.SiblingPrices | estate/models/estate_property_offer.py:108 | holds the price of every offer on the listing except the one at the left-out position, when one is given, and nothing else |
| Offers.CheckHighWater | estate/models/estate_property_offer.py:88-91 | refuses exactly when some existing offer on the listing is strictly higher; an equal price passes |
| Offers.CheckOfferPrice | estate/models/estate_property_offer.py:99-110 | passes exactly when the price is positive, at least 90% of the expected price, and strictly above every other offer; otherwise it reports the first rule broken |
| Offers.CreateChecks | estate/models/estate_property_offer.py:75-110 | creation admits exactly the offers the price constraint admits; the high-water check only decides the message when an existing offer is higher |
| Offers.EqualOfferRefusedByConstraint | estate/models/estate_property_offer.py:88-110 | an offer equal to the best one passes the high-water check and is then refused by the constraint |
| Offers.ReceiveOffer | estate/models/estate_property_offer.py:93-94 | a new listing becomes offer received; every other state is kept; no other field changes |
| Offers.DeadlineInverse | estate/models/estate_property_offer.py:39-49 | the deadline computation (`Offers.Deadline`, :42) and its inverse (`Offers.ValidityFor`, :48) undo each other |
| Offers.WithValidity | estate/models/estate_property_offer.py:39-43 | writing validity sets it, recomputes the deadline from the creation day by `Offers.Deadline`, and changes nothing else |
| Offers.WithDeadline | estate/models/estate_property_offer.py:45-49 | writing a deadline sets it and recomputes validity to match (by `Offers.ValidityFor`); clearing it keeps validity; nothing else changes |
| Offers.ValidityDeadlineRoundTrip | estate/models/estate_property_offer.py:39-49 | compute after inverse gives back the deadline, and inverse after compute gives back the validity |
| Offers.AppendKeepsWellFormed | estate/models/estate_property_offer.py:75-110 | appending an unaccepted, synced offer that passes the price constraint keeps the offer table well formed |
| Offers.AppendedOfferIsBest | estate/models/estate_property_offer.py:99-110 | the newly admitted offer is the best offer on its listing |
| Offers.RepriceKeepsWellFormed | estate/models/estate_property_offer.py:99-110 | rewriting one offer's price to one the constraint admits keeps the table well formed |
| Offers.ReplaceKeepsWellFormed | estate/models/estate_property_offer.py:39-49 | replacing one offer by a synced, positive offer on the same listing with the same status and an unused price keeps the table well formed |
| Offers.RestatusKeepsWellFormed | estate/models/estate_property_offer.py:51-72 | changing statuses keeps the table well formed as long as each listing keeps at most one accepted offer |
| PropertyTypes.OfferIds | estate/models/estate_property_type.py:19-23 | the offers filed under a type, all of them ids of the table |
| PropertyTypes.OfferCount | estate/models/estate_property_type.py:40-47 | the count equals the size of the type's offer set, and never exceeds the table |
| PropertyTypes.HasOffers | estate/models/estate_property_type.py:49-53 | holds exactly when the count is positive |
| PropertyTypes.HasOffersIffSomeOffer | estate/models/estate_property_type.py:49-53 | holds exactly when some offer in the table carries the type |
| PropertyTypes.OfferCountIgnoresOtherFields | estate/models/estate_property_type.py:40-47 | the count depends only on the offers' stored types, not on prices or statuses |
| PropertyTypes.OfferCountAppend | estate/models/estate_property_type.py:40-47 | a new offer raises its own type's count by one and leaves every other count alone |
| Estate.OfferIdsFollowListings | estate/models/estate_property_type.py:56-66 | in a linked store, the offers listed for a type are exactly the offers on listings of that type |
| Estate.LifecycleBlockers | estate/models/estate_property.py:117-129 | what stops the sold button (missing or canceled) and the cancel button (missing or sold) |
| Estate.SteppedKeepsStore | estate/models/estate_property.py:117-129 | moving listings between states keeps every listing passing and every offer linked |
| Estate.AcceptKeepsOneAccepted | estate/models/estate_property_offer.py:60-63 | accepting one offer and refusing its siblings leaves at most one accepted offer per listing |
| Estate.RefuseKeepsOneAccepted | estate/models/estate_property_offer.py:68-72 | refusing offers never adds an accepted one |
| Estate.RelinkKeepsLinked | estate/models/estate_property_offer.py:24-29 | rewriting offers without moving them to another listing or type keeps each offer's stored type equal to its listing's |
| Estate.AppendKeepsLinked | estate/models/estate_property_offer.py:24-29 | a new offer that copies its listing's type keeps the store linked |
| Estate.RewriteKeepsLinked | estate/models/estate_property_offer.py:24-29 | rewriting a listing without changing its type keeps every offer linked |
| Estate.AcceptKeepsStore | estate/models/estate_property_offer.py:51-66 | committing an acceptance keeps the store invariant |
| Estate.CreateKeepsStore | estate/models/estate_property_offer.py:75-110 | committing a created offer keeps the store invariant |
| Estate.RemoveKeepsStore | estate/models/estate_property.py:96-100 | removing listings no offer points at keeps the store invariant |
| Estate.CreatedOfferRises | estate/models/estate_property_offer.py:88-110 | a created offer is above every earlier offer on its listing, becomes its best price, and raises its type's count by one |
| Estate.StepAll | estate/models/estate_property.py:117-129 | the first listing that cannot take the step names the error; when all can, exactly the listed listings move to the target state |
| Estate.CheckUnlink | estate/models/estate_property.py:96-100 | passes exactly when every listing is present, new or canceled, and no offer points at one of them; the first blocked listing names the error, and a referenced listing is the error otherwise |
| Estate.MarkAccepted | estate/models/estate_property_offer.py:60-63 | the offer becomes accepted, its siblings refused, others kept; exactly one offer on the listing is accepted |
| Estate.MarkRefused | estate/models/estate_property_offer.py:68-72 | exactly the listed offers become refused |
| Estate.Registry.BestPriceOf | estate/models/estate_property.py:108-115 | the listing's best price is at least every offer on it, equals one of them, and is 0 when it has none |
| Estate.Registry.CreateProperty | estate/models/estate_property.py:132-160 | a listing is stored under a fresh id exactly when it passes the constraint; otherwise nothing changes |
| Estate.Registry.WriteProperty | estate/models/estate_property.py:132-160 | a write of name and expected price is kept exactly when the written record passes; otherwise nothing changes |
| Estate.Registry.ActionSold | estate/models/estate_property.py:117-122 | all listings sold when none is missing or canceled; otherwise nothing changes and the first blocked listing names the error |
| Estate.Registry.ActionCancel | estate/models/estate_property.py:124-129 | all listings canceled when none is missing or sold; otherwise nothing changes and the first blocked listing names the error |
| Estate.Registry.RunStep | estate/models/estate_property.py:117-129 | shared by both buttons: commits the moved listings when no listing is blocked, and otherwise changes nothing |
| Estate.Registry.Unlink | estate/models/estate_property.py:96-100 | the listings are removed exactly when each exists, is new or canceled, and no offer points at it; otherwise nothing is removed, the first blocked listing names the error, and a referenced listing is the error when none is blocked |
| Estate.Registry.CreateOffer | estate/models/estate_property_offer.py:75-96 | creation admits exactly what the creation checks admit; the offer is unset and its validity defaults to 7; it is higher than every earlier offer on the listing and becomes its best price; it advances a new listing to offer received; it raises its type's count by one |
| Estate.Registry.WriteOfferPrice | estate/models/estate_property_offer.py:99-110 | a new price is kept exactly when it passes the constraint against the other offers on the listing |
| Estate.Registry.ActionAccept | estate/models/estate_property_offer.py:51-66 | refused on a sold listing. Otherwise it re-checks the listing with the offer's price as selling price, and records price, buyer and offer-accepted state. It accepts this offer and refuses every sibling, so exactly one offer on the listing is accepted; offers on other listings and type counts are unchanged |
| Estate.Registry.ActionRefuse | estate/models/estate_property_offer.py:68-72 | the named offers become refused; listings, other offers and type counts are unchanged; a missing id refuses the call |
| Estate.Registry.WriteValidity | estate/models/estate_property_offer.py:31-43 | the written validity moves the deadline to creation day plus validity |
| Estate.Registry.WriteDeadline | estate/models/estate_property_offer.py:32-49 | a written deadline moves validity to match |

## Left out

- The ORM itself is left out: `search`, `browse`, `super().create` and `super().unlink`, recordsets and decorators. They are replaced by the explicit store in `Estate.Registry`. Each action is all-or-nothing, as in the database transaction.
- Concurrency is left out. Two transactions racing on one name are caught only by the database's own unique index.
- The `_sql_constraints` block (estate/models/estate_property.py:163-179) is left out. It backs up checks that `CheckProperty` already makes.
- Floating point is left out. Prices are `real`, and the 90% rule multiplies by the exact `0.9`.
- Dates are integer day numbers, so date-range overflow is not modelled. The creation day is passed to `CreateOffer` as `today`; that parameter stands for both `create_date` and the `fields.Date.today()` fallback.
- The clock and the current user behind the availability date and the salesperson default are left out. Those fields have no rules.
- Integer fields are unbounded, so 32-bit storage limits are not modelled.
- Passive fields are left out: description, postcode, bedrooms, facades, garage, tags and availability date.
- Archiving is left out: the model has no `active` field (estate/models/estate_property.py:80), so every listing is live. In the source, `search` skips archived listings, so the Python name check at estate/models/estate_property.py:152-158 never sees an archived listing's name; only the database index `UNIQUE(name)` at estate/models/estate_property.py:176 then refuses an exact duplicate of it. The model checks every stored listing. So where an archived listing is named "abc", the model refuses a new listing " abc ", while the source's search does not see the archived one and the index compares the raw names, and so the source admits it.
- Batch creation of offers is left out. The source checks only the first value dictionary of a batch; `CreateOffer` creates one offer.
- `CreateOffer` treats a missing listing id as `MissingRecord`. The source hands a value set with no `property_id` to the ORM, which refuses it because the field is required.
- Offers whose price is missing are left out. In the source, creating such an offer on a listing that already has offers fails the comparison at estate/models/estate_property_offer.py:90 with a type error. On a listing without offers the source admits it: the comparison is skipped, a new listing moves to offer received (:93-94), and the offer is stored with price 0.0. The price constraint (:99-110) does not run, because a constraint on `price` fires only when `price` is among the created values. This is the one path in the source that stores an offer breaking the positive-price part of `Offers.WellFormed`; `CreateOffer` always takes a price and checks it.
- `ActionAccept` accepts one offer per call. The source loops over a recordset, and accepting two offers in one call would apply the steps in turn.
- A missing offer id in `ActionRefuse` fails the whole call. In the ORM it surfaces as an error on the missing record.
- Changing a listing's type after offers exist is not modelled. No write of the type is offered, so each offer's stored copy of the type never goes stale.
- The window-action dictionary of `action_view_offers` is left out. Only its filter is modelled, as `PropertyTypes.OfferIds` with `Estate.OfferIdsFollowListings`.
- Module configuration (`estate/__manifest__.py`) is not part of this model.

## Findings

| source | as written | input that shows it | evidently intended | confidence | as-written member | corrected member |
|---|---|---|---|---|---|---|
| estate/models/estate_property.py:152-160 | the uniqueness search compares the other records' stored names, unstripped, with this record's stripped name | store " abc" as listing 1, then create "abc" as listing 2: no stored name equals "abc", so it is admitted | the search strips this record's name, so names that differ only in surrounding whitespace are meant to clash: stripped against stripped | not executed | Properties.AsWrittenAdmitsTrimmedDuplicate | Properties.WriteKeepsConsistent |
