/** `DeviceServiceImpl`: the device operations over the store, each a pure
    function from the store and its arguments to a result. Writes return
    the new store alongside their value; a failure carries no store, so the
    caller's store is the one that stays. Reads return no store at all. */
module DeviceService {
  import opened Wrappers
  import opened DeviceModel
  import opened DeviceErrors
  import opened DeviceDtos
  import opened DeviceMapper
  import opened DeviceSpecification
  import opened DeviceRepository

  /** Whether an update field is supplied with a value other than the
      current one (an identical value does not count as a change). */
  predicate Changes(supplied: Option<string>, current: string) {
    supplied.Some? && supplied.value != current
  }

  /** The in-use guard of an update: a device in use may not have its name
      or brand changed. */
  predicate UpdateBlocked(existing: DeviceEntity, dto: UpdateDto) {
    existing.state == InUse && (Changes(dto.name, existing.name) || Changes(dto.brand, existing.brand))
  }

  /** The device with every supplied field written and the rest kept. */
  function ApplyUpdate(existing: DeviceEntity, dto: UpdateDto, now: Instant): DeviceEntity {
    existing.(
      name := dto.name.GetOr(existing.name),
      brand := dto.brand.GetOr(existing.brand),
      state := dto.state.GetOr(existing.state),
      updatedAt := Some(now))
  }

  /** Creates a device from the input: stored under a fresh id with both
      timestamps `now`; the response echoes the input. Only an input that
      violates the entity constraints fails. */
  function Save(s: Store, dto: CreateDto, now: Instant): (r: Result<(Store, ResponseDto), Error>)
    ensures r.Success? <==> ValidText(dto.name) && ValidText(dto.brand)
    ensures r.Failure? ==> r.error == PersistenceFailure
    ensures r.Success? ==>
      var (s', out) := r.value;
      && out.id == Some(s.nextId)
      && out.name == dto.name && out.brand == dto.brand && out.state == StateName(dto.state)
      && out.createdAt == Some(now) && out.updatedAt == Some(now)
      && s'.rows.Keys == s.rows.Keys + {s.nextId}
      && s'.rows[s.nextId] == CreateDeviceEntity(dto).(id := Some(s.nextId), createdAt := Some(now), updatedAt := Some(now))
      && (forall k :: k in s.rows && k != s.nextId ==> s'.rows[k] == s.rows[k])
      && s'.nextId > s.nextId
      && (WellFormed(s) ==> s.nextId !in s.rows)
  {
    match Persist(s, CreateDeviceEntity(dto), now)
    case Failure(err) => Failure(err)
    case Success((s', saved)) => Success((s', CreateDeviceDto(saved)))
  }

  /** Partially updates a device. An unknown id is NotFound; a device in use
      whose name or brand the request changes is rejected before anything
      is written; otherwise the supplied fields are written, the rest kept,
      `updatedAt` becomes `now`, and no other row changes. */
  function UpdateDevice(s: Store, id: Id, dto: UpdateDto, now: Instant): (r: Result<(Store, ResponseDto), Error>)
    requires id in s.rows ==> s.rows[id].id == Some(id)
    ensures id !in s.rows ==> r == Failure(NotFound(id))
    ensures id in s.rows && s.rows[id].state == InUse
            && ((dto.name.Some? && dto.name.value != s.rows[id].name)
                || (dto.brand.Some? && dto.brand.value != s.rows[id].brand))
            ==> r == Failure(UpdateRejected(InUseUpdateMessage))
    ensures id in s.rows && !UpdateBlocked(s.rows[id], dto) && r.Failure? ==> r.error == PersistenceFailure
    ensures r.Success? <==>
      && id in s.rows
      && !UpdateBlocked(s.rows[id], dto)
      && ValidText(dto.name.GetOr(s.rows[id].name))
      && ValidText(dto.brand.GetOr(s.rows[id].brand))
    ensures r.Success? ==> r.value.0.rows.Keys == s.rows.Keys && r.value.0.nextId == s.nextId
    ensures r.Success? ==>
      var (s', out) := r.value;
      var before := s.rows[id];
      var after := s'.rows[id];
      && (forall k :: k in s.rows && k != id ==> s'.rows[k] == s.rows[k])
      && (dto.name.Some? ==> after.name == dto.name.value)
      && (dto.name.None? ==> after.name == before.name)
      && (dto.brand.Some? ==> after.brand == dto.brand.value)
      && (dto.brand.None? ==> after.brand == before.brand)
      && (dto.state.Some? ==> after.state == dto.state.value)
      && (dto.state.None? ==> after.state == before.state)
      && after.id == Some(id) && after.createdAt == before.createdAt
      && after.updatedAt == Some(now)
      && out == CreateDeviceDto(after)
  {
    if id !in s.rows then Failure(NotFound(id))
    else
      var existing := s.rows[id];
      if UpdateBlocked(existing, dto) then Failure(UpdateRejected(InUseUpdateMessage))
      else
        var patched := ApplyUpdate(existing, dto, now);
        assert patched.id == Some(id);
        var merged := Merge(s, patched, now);
        if merged.Failure? then Failure(merged.error)
        else Success((merged.value.0, CreateDeviceDto(merged.value.1)))
  }

  /** The device with this id, as a response, or nothing. */
  function GetById(s: Store, id: Id): (r: Option<ResponseDto>)
    ensures r.Some? <==> id in s.rows
    ensures r.Some? ==>
      && r.value.id == s.rows[id].id && r.value.name == s.rows[id].name
      && r.value.brand == s.rows[id].brand
      && StateFromName(r.value.state) == Some(s.rows[id].state)
      && r.value.createdAt == s.rows[id].createdAt && r.value.updatedAt == s.rows[id].updatedAt
  {
    if id in s.rows then Some(CreateDeviceDto(s.rows[id])) else None
  }

  /** Every device, as responses keyed by id. */
  function GetAllDevice(s: Store): (r: map<Id, ResponseDto>)
    ensures r.Keys == s.rows.Keys
    ensures forall k :: k in r ==> Some(r[k]) == GetById(s, k)
  {
    map k | k in s.rows :: CreateDeviceDto(s.rows[k])
  }

  /** Deletes a device. An unknown id is NotFound; a device in use is not
      deleted (OperationRejected); otherwise exactly that id is removed. */
  function DeleteDevice(s: Store, id: Id): (r: Result<Store, Error>)
    ensures id !in s.rows ==> r == Failure(NotFound(id))
    ensures id in s.rows && s.rows[id].state == InUse ==> r == Failure(OperationRejected(InUseDeleteMessage))
    ensures r.Success? <==> id in s.rows && s.rows[id].state != InUse
    ensures r.Success? ==>
      && r.value.rows.Keys == s.rows.Keys - {id}
      && (forall k :: k in r.value.rows ==> r.value.rows[k] == s.rows[k])
      && r.value.nextId == s.nextId
  {
    if id !in s.rows then Failure(NotFound(id))
    else if s.rows[id].state == InUse then Failure(OperationRejected(InUseDeleteMessage))
    else Success(Remove(s, id))
  }

  /** The state filter as the search receives it: the state's name. */
  function StateFilter(state: Option<DeviceState>): (r: Option<string>)
    ensures r.None? <==> state.None?
    ensures r.Some? ==> StateFromName(r.value) == Some(state.value)
  {
    match state
    case None => None
    case Some(st) => Some(StateName(st))
  }

  /** The devices the search built from the filters accepts, as responses
      keyed by id. */
  function FindDevices(s: Store, brand: Option<string>, state: Option<DeviceState>): (r: map<Id, ResponseDto>)
    ensures r.Keys <= s.rows.Keys
    ensures forall k :: k in r ==> Some(r[k]) == GetById(s, k)
  {
    map k | k in s.rows && Accepts(brand, StateFilter(state), s.rows[k]) :: CreateDeviceDto(s.rows[k])
  }
}
