/** Sequences of service calls against one store, read by a clock that
    never goes back. What holds over any such history: the store stays
    well-formed, ids are never reused, and a device's creation time is
    never rewritten. */
module DeviceHistory {
  import opened Wrappers
  import opened DeviceModel
  import opened DeviceErrors
  import opened DeviceDtos
  import opened DeviceRepository
  import opened DeviceService
  import opened DeviceServiceProperties

  /** A mutating call to the service. */
  datatype Request = Create(dto: CreateDto) | Update(id: Id, patch: UpdateDto) | Delete(id: Id)

  /** A call and the clock reading it is served at. */
  datatype Step = Step(request: Request, now: Instant)

  /** The clock is not behind the store when the history starts, and never
      goes back during it. */
  predicate Chronological(s: Store, trace: seq<Step>) {
    && (|trace| > 0 ==> ClockNotBefore(s, trace[0].now))
    && forall i, j :: 0 <= i < j < |trace| ==> trace[i].now <= trace[j].now
  }

  /** The store after one call: the new store on success, the old one on
      failure. Every row that survives from before keeps its creation time,
      and no id below the old counter is handed out again. */
  function Apply(s: Store, step: Step): (s': Store)
    requires WellFormed(s) && ClockNotBefore(s, step.now)
    ensures WellFormed(s') && ClockNotBefore(s', step.now)
    ensures s'.nextId >= s.nextId
    ensures forall k :: k in s'.rows && k < s.nextId ==>
      k in s.rows && s'.rows[k].createdAt == s.rows[k].createdAt
  {
    var now := step.now;
    match step.request
    case Create(dto) =>
      (match Save(s, dto, now)
       case Failure(_) => s
       case Success((s', _)) =>
         SaveThenGetById(s, dto, now);
         s')
    case Update(id, patch) =>
      (match UpdateDevice(s, id, patch, now)
       case Failure(_) => s
       case Success((s', _)) =>
         UpdatePreservesWellFormed(s, id, patch, now);
         s')
    case Delete(id) =>
      (match DeleteDevice(s, id)
       case Failure(_) => s
       case Success(s') =>
         DeleteThenGetById(s, id);
         s')
  }

  /** The store after a whole history. */
  function Run(s: Store, trace: seq<Step>): (s': Store)
    requires WellFormed(s) && Chronological(s, trace)
    ensures WellFormed(s')
    ensures s'.nextId >= s.nextId
    ensures forall k :: k in s'.rows && k < s.nextId ==>
      k in s.rows && s'.rows[k].createdAt == s.rows[k].createdAt
    decreases |trace|
  {
    if |trace| == 0 then s
    else
      var s1 := Apply(s, trace[0]);
      assert Chronological(s1, trace[1..]) by {
        if |trace| > 1 {
          assert trace[0].now <= trace[1].now;
        }
      }
      Run(s1, trace[1..])
  }

  /** An id that is free but already handed out (its device was deleted)
      stays free for the rest of any history. */
  lemma DeletedIdsStayFree(s: Store, trace: seq<Step>, k: Id)
    requires WellFormed(s) && Chronological(s, trace)
    requires k < s.nextId && k !in s.rows
    ensures k !in Run(s, trace).rows
  {
  }
}
