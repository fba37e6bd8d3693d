/** The persistence collaborator, as an id-to-row map. Ids come from an
    identity counter; the entity constraints are checked before a row is
    written, and the auditing fields are stamped with the time passed in. */
module DeviceRepository {
  import opened Wrappers
  import opened DeviceModel
  import opened DeviceErrors

  datatype Store = Store(rows: map<Id, DeviceEntity>, nextId: Id)

  /** The store before any insert: identity columns start at 1. */
  const Empty: Store := Store(map[], 1)

  /** What holds of every store the repository produces: each row is keyed
      by its own id, which is below the counter; each row is stamped and
      satisfies the entity constraints. */
  predicate WellFormed(s: Store) {
    && s.nextId >= 1
    && forall k :: k in s.rows ==>
         && 1 <= k < s.nextId
         && s.rows[k].id == Some(k)
         && Stamped(s.rows[k])
         && Valid(s.rows[k])
  }

  /** The clock reads no earlier than any recorded modification. */
  predicate ClockNotBefore(s: Store, now: Instant) {
    forall k :: k in s.rows && s.rows[k].updatedAt.Some? ==> s.rows[k].updatedAt.value <= now
  }

  /** Saving an entity without an id: the constraints are checked, then the
      row is inserted under the next identity value with both audit
      timestamps set to `now`. The caller has no say in the id, and in a
      well-formed store it is one no row holds. */
  function Persist(s: Store, e: DeviceEntity, now: Instant): (r: Result<(Store, DeviceEntity), Error>)
    requires e.id.None?
    ensures r.Success? <==> Valid(e)
    ensures r.Failure? ==> r.error == PersistenceFailure
    ensures r.Success? ==>
      var (s', saved) := r.value;
      && saved.id == Some(s.nextId)
      && saved.name == e.name && saved.brand == e.brand && saved.state == e.state
      && saved.createdAt == Some(now) && saved.updatedAt == Some(now)
      && s'.rows.Keys == s.rows.Keys + {s.nextId}
      && s'.rows[s.nextId] == saved
      && (forall k :: k in s.rows && k != s.nextId ==> s'.rows[k] == s.rows[k])
      && s'.nextId > s.nextId
      && (WellFormed(s) ==> s.nextId !in s.rows)
  {
    if !Valid(e) then Failure(PersistenceFailure)
    else
      var saved := e.(id := Some(s.nextId), createdAt := Some(now), updatedAt := Some(now));
      Success((Store(s.rows[s.nextId := saved], s.nextId + 1), saved))
  }

  /** Saving an entity that already has a row: the constraints are checked,
      then the row is overwritten. The creation time column is not
      updatable, so the stored one is kept; the modification time becomes
      `now`. No other row and not the counter changes. */
  function Merge(s: Store, e: DeviceEntity, now: Instant): (r: Result<(Store, DeviceEntity), Error>)
    requires e.id.Some? && e.id.value in s.rows
    ensures r.Success? <==> Valid(e)
    ensures r.Failure? ==> r.error == PersistenceFailure
    ensures r.Success? ==>
      var (s', saved) := r.value;
      var id := e.id.value;
      && saved.id == e.id
      && saved.name == e.name && saved.brand == e.brand && saved.state == e.state
      && saved.createdAt == s.rows[id].createdAt && saved.updatedAt == Some(now)
      && s'.rows.Keys == s.rows.Keys
      && s'.rows[id] == saved
      && (forall k :: k in s.rows && k != id ==> s'.rows[k] == s.rows[k])
      && s'.nextId == s.nextId
  {
    if !Valid(e) then Failure(PersistenceFailure)
    else
      var id := e.id.value;
      var saved := e.(createdAt := s.rows[id].createdAt, updatedAt := Some(now));
      Success((s.(rows := s.rows[id := saved]), saved))
  }

  /** Deleting a stored row: exactly that id disappears. */
  function Remove(s: Store, id: Id): (s': Store)
    requires id in s.rows
    ensures s'.rows.Keys == s.rows.Keys - {id}
    ensures forall k :: k in s'.rows ==> s'.rows[k] == s.rows[k]
    ensures s'.nextId == s.nextId
    ensures |s'.rows| == |s.rows| - 1
  {
    s.(rows := s.rows - {id})
  }

  /** The store before any insert is well-formed, so every history can
      start from it. */
  lemma EmptyWellFormed()
    ensures WellFormed(Empty)
    ensures forall now :: ClockNotBefore(Empty, now)
  {
  }

  /** Inserting keeps the store well-formed. */
  lemma PersistPreservesWellFormed(s: Store, e: DeviceEntity, now: Instant)
    requires WellFormed(s) && e.id.None?
    requires Persist(s, e, now).Success?
    ensures WellFormed(Persist(s, e, now).value.0)
    ensures ClockNotBefore(s, now) ==> ClockNotBefore(Persist(s, e, now).value.0, now)
  {
  }

  /** Overwriting keeps the store well-formed, given a clock that has not
      gone back past the row's creation. */
  lemma MergePreservesWellFormed(s: Store, e: DeviceEntity, now: Instant)
    requires WellFormed(s) && e.id.Some? && e.id.value in s.rows
    requires ClockNotBefore(s, now)
    requires Merge(s, e, now).Success?
    ensures WellFormed(Merge(s, e, now).value.0)
    ensures ClockNotBefore(Merge(s, e, now).value.0, now)
  {
    var id := e.id.value;
    var (s', saved) := Merge(s, e, now).value;
    assert Valid(saved) by {
      assert saved.name == e.name && saved.brand == e.brand;
    }
    assert Stamped(saved) by {
      assert Stamped(s.rows[id]);
    }
    forall k | k in s'.rows
      ensures 1 <= k < s'.nextId && s'.rows[k].id == Some(k) && Stamped(s'.rows[k]) && Valid(s'.rows[k])
      ensures s'.rows[k].updatedAt.value <= now
    {
      if k != id {
        assert s'.rows[k] == s.rows[k];
      }
    }
  }

  /** Deleting keeps the store well-formed. */
  lemma RemovePreservesWellFormed(s: Store, id: Id)
    requires WellFormed(s) && id in s.rows
    ensures WellFormed(Remove(s, id))
    ensures forall now :: ClockNotBefore(s, now) ==> ClockNotBefore(Remove(s, id), now)
  {
  }
}
