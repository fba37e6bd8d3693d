/** `DeviceMapper`: field copies between the create input, the entity and
    the response. */
module DeviceMapper {
  import opened Wrappers
  import opened DeviceModel
  import opened DeviceDtos

  /** A fresh, not yet stored entity carrying the caller's name, brand and
      state; identity and timestamps are left for the store to assign. */
  function CreateDeviceEntity(dto: CreateDto): (e: DeviceEntity)
    ensures e.name == dto.name && e.brand == dto.brand && e.state == dto.state
    ensures e.id.None? && e.createdAt.None? && e.updatedAt.None?
  {
    DeviceEntity(None, dto.name, dto.brand, dto.state, None, None)
  }

  /** The response for an entity: every field carried over, the state
      rendered as its name. */
  function CreateDeviceDto(e: DeviceEntity): (d: ResponseDto)
    ensures d.id == e.id && d.name == e.name && d.brand == e.brand
    ensures d.createdAt == e.createdAt && d.updatedAt == e.updatedAt
    ensures StateFromName(d.state) == Some(e.state)
  {
    ResponseDto(e.id, e.name, e.brand, StateName(e.state), e.createdAt, e.updatedAt)
  }

  /** The response loses nothing: the entity can be read back from it. */
  lemma ResponseDeterminesEntity(a: DeviceEntity, b: DeviceEntity)
    requires CreateDeviceDto(a) == CreateDeviceDto(b)
    ensures a == b
  {
    assert StateFromName(CreateDeviceDto(a).state) == Some(a.state);
  }
}
