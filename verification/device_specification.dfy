/** `DeviceSpecification.searchBy`: optional brand and state filters turned
    into a list of equality tests that a device must all pass. */
module DeviceSpecification {
  import opened Wrappers
  import opened JavaText
  import opened DeviceModel

  /** One equality test on a column. */
  datatype Criterion = BrandEquals(brand: string) | StateEquals(state: string)

  /** Whether a device passes one test. The state column holds the state's
      name, so the state test compares names. */
  predicate Holds(c: Criterion, e: DeviceEntity) {
    match c
    case BrandEquals(b) => e.brand == b
    case StateEquals(n) => StateName(e.state) == n
  }

  /** A brand filter that takes part: present and not blank. */
  predicate BrandFilterActive(brand: Option<string>) {
    brand.Some? && !IsBlank(brand.value)
  }

  /** The tests for the given filters, brand first. A blank or absent brand
      and an absent state add no test. */
  function SearchBy(brand: Option<string>, state: Option<string>): (spec: seq<Criterion>)
    ensures |spec| <= 2
    ensures forall b :: BrandEquals(b) in spec <==> BrandFilterActive(brand) && b == brand.value
    ensures forall n :: StateEquals(n) in spec <==> state == Some(n)
  {
    var brandTerms := if BrandFilterActive(brand) then [BrandEquals(brand.value)] else [];
    var stateTerms := if state.Some? then [StateEquals(state.value)] else [];
    brandTerms + stateTerms
  }

  /** `CriteriaBuilder.and` over a list of tests: the conjunction, which is
      true for the empty list. */
  function And(spec: seq<Criterion>, e: DeviceEntity): (r: bool)
    ensures r <==> forall i :: 0 <= i < |spec| ==> Holds(spec[i], e)
  {
    if |spec| == 0 then true
    else
      assert forall i :: 1 <= i < |spec| ==> spec[i] == spec[1..][i - 1];
      Holds(spec[0], e) && And(spec[1..], e)
  }

  /** Whether the search built from these filters accepts the device. */
  predicate Accepts(brand: Option<string>, state: Option<string>, e: DeviceEntity) {
    And(SearchBy(brand, state), e)
  }

  /** The filters' meaning, stated without the list: the brand matches
      exactly unless the brand filter is absent or blank, and the state name
      matches exactly unless the state filter is absent. */
  lemma AcceptsIff(brand: Option<string>, state: Option<string>, e: DeviceEntity)
    ensures Accepts(brand, state, e)
        <==> (!BrandFilterActive(brand) || e.brand == brand.value)
             && (state.None? || StateName(e.state) == state.value)
  {
    var spec := SearchBy(brand, state);
    if BrandFilterActive(brand) {
      assert BrandEquals(brand.value) in spec;
    }
    if state.Some? {
      assert StateEquals(state.value) in spec;
    }
    forall i | 0 <= i < |spec|
      ensures (BrandFilterActive(brand) && spec[i] == BrandEquals(brand.value))
           || (state.Some? && spec[i] == StateEquals(state.value))
    {
      assert spec[i] in spec;
    }
  }

  /** With no brand (or a blank one) and no state every device is accepted. */
  lemma NoFiltersAcceptAll(brand: Option<string>, e: DeviceEntity)
    requires !BrandFilterActive(brand)
    ensures Accepts(brand, None, e)
  {
    AcceptsIff(brand, None, e);
  }

  /** A blank brand builds exactly the tests an absent brand builds. */
  lemma BlankBrandIsAbsent(brand: string, state: Option<string>)
    requires IsBlank(brand)
    ensures SearchBy(Some(brand), state) == SearchBy(None, state)
  {
  }

  /** Adding a brand filter or a state filter never accepts more devices. */
  lemma FiltersOnlyNarrow(brand: Option<string>, state: Option<string>, e: DeviceEntity)
    requires Accepts(brand, state, e)
    ensures Accepts(None, state, e) && Accepts(brand, None, e)
  {
    AcceptsIff(brand, state, e);
    AcceptsIff(None, state, e);
    AcceptsIff(brand, None, e);
  }
}
