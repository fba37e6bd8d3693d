/** Properties relating the device operations to each other and to an
    independent statement of what they should do. */
module DeviceServiceProperties {
  import opened Wrappers
  import opened JavaText
  import opened DeviceModel
  import opened DeviceErrors
  import opened DeviceDtos
  import opened DeviceMapper
  import opened DeviceSpecification
  import opened DeviceRepository
  import opened DeviceService

  // ---- search ----

  /** Search is exact: a device is found iff its brand equals an active
      brand filter (absent and blank brands do not filter) and its state
      equals a given state filter. */
  lemma FindDevicesExact(s: Store, brand: Option<string>, state: Option<DeviceState>)
    ensures forall k :: k in FindDevices(s, brand, state) <==>
      && k in s.rows
      && (!BrandFilterActive(brand) || s.rows[k].brand == brand.value)
      && (state.None? || s.rows[k].state == state.value)
  {
    forall k | k in s.rows
      ensures k in FindDevices(s, brand, state) <==>
        && (!BrandFilterActive(brand) || s.rows[k].brand == brand.value)
        && (state.None? || s.rows[k].state == state.value)
    {
      AcceptsIff(brand, StateFilter(state), s.rows[k]);
      if state.Some? {
        assert StateFromName(StateName(s.rows[k].state)) == Some(s.rows[k].state);
      }
    }
  }

  /** With no state filter and an absent or blank brand, search returns
      exactly what listing all devices returns. */
  lemma SearchWithoutFiltersListsAll(s: Store, brand: Option<string>)
    requires !BrandFilterActive(brand)
    ensures FindDevices(s, brand, None) == GetAllDevice(s)
  {
    FindDevicesExact(s, brand, None);
  }

  /** Adding a brand or a state filter never enlarges the result. */
  lemma FiltersNarrowResults(s: Store, brand: Option<string>, state: Option<DeviceState>)
    ensures FindDevices(s, brand, state).Keys <= FindDevices(s, None, state).Keys
    ensures FindDevices(s, brand, state).Keys <= FindDevices(s, brand, None).Keys
  {
    FindDevicesExact(s, brand, state);
    FindDevicesExact(s, None, state);
    FindDevicesExact(s, brand, None);
  }

  /** Two available Apple laptops and an available Dell: searching for
      available Apple devices finds the two Apple ones and nothing else. */
  lemma AppleAvailableSearch()
    ensures
      var pro := DeviceEntity(Some(1), "MacBook Pro", "Apple", Available, Some(0), Some(0));
      var air := DeviceEntity(Some(2), "MacBook Air", "Apple", Available, Some(0), Some(0));
      var xps := DeviceEntity(Some(3), "XPS", "Dell", Available, Some(0), Some(0));
      var s := Store(map[1 := pro, 2 := air, 3 := xps], 4);
      FindDevices(s, Some("Apple"), Some(Available)).Keys == {1, 2}
  {
    var pro := DeviceEntity(Some(1), "MacBook Pro", "Apple", Available, Some(0), Some(0));
    var air := DeviceEntity(Some(2), "MacBook Air", "Apple", Available, Some(0), Some(0));
    var xps := DeviceEntity(Some(3), "XPS", "Dell", Available, Some(0), Some(0));
    var s := Store(map[1 := pro, 2 := air, 3 := xps], 4);
    assert !IsBlank("Apple") by {
      assert !IsWhitespace("Apple"[0]);
    }
    FindDevicesExact(s, Some("Apple"), Some(Available));
    assert 3 !in FindDevices(s, Some("Apple"), Some(Available));
  }

  /** The entity's `@NotBlank` trims only characters up to U+0020, while
      the brand filter's `isBlank` also skips Unicode spaces. A brand made of
      an ideographic space can therefore be stored, yet as a filter it is
      ignored and matches every device. */
  lemma IdeographicSpaceBrandIsStorableButNotSearchable(s: Store)
    ensures ValidText("\U{3000}")
    ensures FindDevices(s, Some("\U{3000}"), None) == GetAllDevice(s)
  {
    assert !IsTrimmable("\U{3000}"[0]);
    assert IsBlank("\U{3000}");
    SearchWithoutFiltersListsAll(s, Some("\U{3000}"));
  }

  /** The two blank checks also differ the other way: `trim` strips the
      control characters below TAB and from SO to ESC, which
      `isWhitespace` does not count. A brand made of U+0001 can never be
      stored, yet as a filter it is active and matches no stored device. */
  lemma ControlCharBrandIsNotStorableButFilters(s: Store)
    requires WellFormed(s)
    ensures !ValidText("\U{01}")
    ensures BrandFilterActive(Some("\U{01}"))
    ensures FindDevices(s, Some("\U{01}"), None) == map[]
  {
    assert !IsWhitespace("\U{01}"[0]);
    FindDevicesExact(s, Some("\U{01}"), None);
    forall k | k in s.rows
      ensures s.rows[k].brand != "\U{01}"
    {
      assert Valid(s.rows[k]);
    }
  }

  // ---- create ----

  /** Creating a device and then fetching it by the returned id gives back
      the input's name, brand and state, with equal creation and
      modification times; creating keeps the store well-formed. */
  lemma SaveThenGetById(s: Store, dto: CreateDto, now: Instant)
    requires WellFormed(s)
    requires Save(s, dto, now).Success?
    ensures
      var (s', out) := Save(s, dto, now).value;
      && WellFormed(s')
      && out.id.Some?
      && GetById(s', out.id.value) == Some(out)
      && out.name == dto.name && out.brand == dto.brand
      && StateFromName(out.state) == Some(dto.state)
      && out.createdAt == out.updatedAt
      && (ClockNotBefore(s, now) ==> ClockNotBefore(s', now))
  {
    PersistPreservesWellFormed(s, CreateDeviceEntity(dto), now);
  }

  // ---- update ----

  /** A successful update keeps the store well-formed, given a clock that
      has not gone back. */
  lemma UpdatePreservesWellFormed(s: Store, id: Id, dto: UpdateDto, now: Instant)
    requires WellFormed(s) && ClockNotBefore(s, now)
    requires UpdateDevice(s, id, dto, now).Success?
    ensures WellFormed(UpdateDevice(s, id, dto, now).value.0)
    ensures ClockNotBefore(UpdateDevice(s, id, dto, now).value.0, now)
  {
    var patched := ApplyUpdate(s.rows[id], dto, now);
    MergePreservesWellFormed(s, patched, now);
    assert UpdateDevice(s, id, dto, now).value.0 == Merge(s, patched, now).value.0;
  }

  /** While a device is in use, no update changes its name or brand. */
  lemma InUseFreezesNameAndBrand(s: Store, id: Id, dto: UpdateDto, now: Instant)
    requires WellFormed(s) && id in s.rows && s.rows[id].state == InUse
    requires UpdateDevice(s, id, dto, now).Success?
    ensures UpdateDevice(s, id, dto, now).value.0.rows[id].name == s.rows[id].name
    ensures UpdateDevice(s, id, dto, now).value.0.rows[id].brand == s.rows[id].brand
  {
  }

  /** A device in use may still change state: a request whose name and
      brand are absent or identical to the current ones succeeds, applies
      the state and refreshes the modification time. */
  lemma InUseStateChangeAllowed(s: Store, id: Id, dto: UpdateDto, now: Instant)
    requires WellFormed(s) && id in s.rows && s.rows[id].state == InUse
    requires dto.name.None? || dto.name.value == s.rows[id].name
    requires dto.brand.None? || dto.brand.value == s.rows[id].brand
    ensures UpdateDevice(s, id, dto, now).Success?
    ensures dto.state.Some? ==> UpdateDevice(s, id, dto, now).value.0.rows[id].state == dto.state.value
    ensures UpdateDevice(s, id, dto, now).value.0.rows[id].updatedAt == Some(now)
  {
  }

  /** A device not in use accepts any update whose supplied name and brand
      satisfy the entity constraints. */
  lemma NotInUseUpdateAllowed(s: Store, id: Id, dto: UpdateDto, now: Instant)
    requires WellFormed(s) && id in s.rows && s.rows[id].state != InUse
    requires dto.name.Some? ==> ValidText(dto.name.value)
    requires dto.brand.Some? ==> ValidText(dto.brand.value)
    ensures UpdateDevice(s, id, dto, now).Success?
  {
  }

  /** An update that only resupplies the current values succeeds, in use
      or not, and changes nothing but the modification time. */
  lemma UpdateWithCurrentValuesOnlyTouchesTimestamp(s: Store, id: Id, dto: UpdateDto, now: Instant)
    requires WellFormed(s) && id in s.rows
    requires dto.name.Some? ==> dto.name.value == s.rows[id].name
    requires dto.brand.Some? ==> dto.brand.value == s.rows[id].brand
    requires dto.state.Some? ==> dto.state.value == s.rows[id].state
    ensures UpdateDevice(s, id, dto, now).Success?
    ensures UpdateDevice(s, id, dto, now).value.0.rows == s.rows[id := s.rows[id].(updatedAt := Some(now))]
  {
    var row := s.rows[id];
    assert Valid(row);
    assert dto.name.GetOr(row.name) == row.name;
    assert dto.brand.GetOr(row.brand) == row.brand;
    var r := UpdateDevice(s, id, dto, now);
    assert r.Success?;
    var s' := r.value.0;
    var expected := s.rows[id := row.(updatedAt := Some(now))];
    assert s'.rows[id] == expected[id];
    forall k | k in s'.rows
      ensures k in expected && s'.rows[k] == expected[k]
    {
    }
    assert s'.rows == expected;
  }

  /** Repeating a successful update succeeds again and changes nothing but
      the modification time. */
  lemma RepeatedUpdateOnlyTouchesTimestamp(s: Store, id: Id, dto: UpdateDto, now: Instant, later: Instant)
    requires WellFormed(s) && ClockNotBefore(s, now)
    requires UpdateDevice(s, id, dto, now).Success?
    ensures
      var s1 := UpdateDevice(s, id, dto, now).value.0;
      && WellFormed(s1)
      && UpdateDevice(s1, id, dto, later).Success?
      && UpdateDevice(s1, id, dto, later).value.0.rows == s1.rows[id := s1.rows[id].(updatedAt := Some(later))]
  {
    UpdatePreservesWellFormed(s, id, dto, now);
    var s1 := UpdateDevice(s, id, dto, now).value.0;
    UpdateWithCurrentValuesOnlyTouchesTimestamp(s1, id, dto, later);
  }

  // ---- delete ----

  /** After a successful delete the id is gone and every other device reads
      as before; deleting keeps the store well-formed. */
  lemma DeleteThenGetById(s: Store, id: Id)
    requires WellFormed(s)
    requires DeleteDevice(s, id).Success?
    ensures WellFormed(DeleteDevice(s, id).value)
    ensures forall now :: ClockNotBefore(s, now) ==> ClockNotBefore(DeleteDevice(s, id).value, now)
    ensures GetById(DeleteDevice(s, id).value, id).None?
    ensures forall k :: k != id ==> GetById(DeleteDevice(s, id).value, k) == GetById(s, k)
    ensures |DeleteDevice(s, id).value.rows| == |s.rows| - 1
  {
    RemovePreservesWellFormed(s, id);
  }
}
