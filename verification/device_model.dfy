/** The persisted device record (`DeviceEntity`), its state enumeration and
    the field constraints its bean-validation annotations declare. */
module DeviceModel {
  import opened Wrappers
  import opened JavaText

  /** Database identity of a device (a positive `Long` in the source). */
  type Id = nat

  /** A point in time, as a count of clock ticks. */
  type Instant = int

  /** The lifecycle state. `Available` and `InUse` are the states the rules
      name; `Inactive` stands for every further member of the enumeration. */
  datatype DeviceState = Available | InUse | Inactive

  /** `Enum.name()`, which is also what `String.valueOf` renders and what the
      state column stores. */
  function StateName(st: DeviceState): (name: string)
  {
    match st
    case Available => "AVAILABLE"
    case InUse => "IN_USE"
    case Inactive => "INACTIVE"
  }

  /** `DeviceState.valueOf`: the state with exactly this name, if any, so
      that it inverts `StateName`. */
  function StateFromName(name: string): (r: Option<DeviceState>)
    ensures r.Some? ==> StateName(r.value) == name
    ensures forall st :: StateName(st) == name ==> r == Some(st)
  {
    if name == "AVAILABLE" then Some(Available)
    else if name == "IN_USE" then Some(InUse)
    else if name == "INACTIVE" then Some(Inactive)
    else None
  }

  /** The bound of `@Size(max = 100)` on name and brand. */
  const MaxTextLength: nat := 100

  /** A device row. `id`, `createdAt` and `updatedAt` are absent until the
      store assigns them (nullable in the source). */
  datatype DeviceEntity = DeviceEntity(
    id: Option<Id>,
    name: string,
    brand: string,
    state: DeviceState,
    createdAt: Option<Instant>,
    updatedAt: Option<Instant>
  )

  /** `@NotBlank @Size(max = 100)` on a text column. */
  predicate ValidText(s: string) {
    NotBlank(s) && Utf16Length(s) <= MaxTextLength
  }

  /** The entity's field constraints. The state is never null here: the
      closed datatype has no null member. */
  predicate Valid(e: DeviceEntity) {
    ValidText(e.name) && ValidText(e.brand)
  }

  /** A row as the store holds it: identity and both timestamps assigned,
      and it was not modified before it was created. */
  predicate Stamped(e: DeviceEntity) {
    && e.id.Some?
    && e.createdAt.Some?
    && e.updatedAt.Some?
    && e.createdAt.value <= e.updatedAt.value
  }
}

/** The failures the device operations report, by kind. */
module DeviceErrors {
  import opened DeviceModel

  datatype Error =
    | NotFound(id: Id)
    | UpdateRejected(message: string)
    | OperationRejected(message: string)
    | PersistenceFailure

  const InUseUpdateMessage: string := "Cannot update name or brand when device is in use."
  const InUseDeleteMessage: string := "Cannot delete device in use"
}

/** The transfer objects the service consumes and produces. */
module DeviceDtos {
  import opened Wrappers
  import opened DeviceModel

  /** `DeviceCreateDto`: every field required. */
  datatype CreateDto = CreateDto(name: string, brand: string, state: DeviceState)

  /** The partial update input: an absent field (null in the source) is left
      as it is. */
  datatype UpdateDto = UpdateDto(name: Option<string>, brand: Option<string>, state: Option<DeviceState>)

  /** `DeviceResponseDto`: the state travels as its name. */
  datatype ResponseDto = ResponseDto(
    id: Option<Id>,
    name: string,
    brand: string,
    state: string,
    createdAt: Option<Instant>,
    updatedAt: Option<Instant>
  )
}
