# Device manager service — Dafny model

A model of the business core of a device inventory service. Devices have a
name, a brand, a lifecycle state (`AVAILABLE`, `IN_USE`, …) and audit
timestamps. The service creates, reads, partially updates, deletes, lists
and searches them, under two state guards:

- a device that is `IN_USE` may not have its name or brand changed;
- a device that is `IN_USE` may not be deleted.

The persistence layer is modelled as a store: a map from id to device row
plus an identity counter. Each service operation is a pure function from
the store and its arguments to a `Result`. A write returns the new store
and its value. A failure carries no store, so the caller keeps the old one
unchanged. Reads return no store, so they cannot change it. The clock
(`Instant.now()` and the auditing timestamps) is a parameter `now`.

Modules, following the program's structure:

- `Wrappers`: `Option` and `Result`.
- `JavaText`: the Java string semantics the rules depend on. These are
  `String.isBlank` (with `Character.isWhitespace`), `String.trim`, and
  `String.length`, which counts UTF-16 code units.
- `DeviceModel`, `DeviceErrors`, `DeviceDtos`: the entity, the state
  enumeration, the field constraints, the error kinds and the transfer
  objects.
- `DeviceMapper`: the field copies between input, entity and response.
- `DeviceSpecification`: the search predicate builder. It produces a list
  of equality tests and their conjunction.
- `DeviceRepository`: the store, with insert, overwrite and remove. The
  entity constraints (`@NotBlank`, `@Size(max = 100)`) are checked before
  a row is written. This is the bean validation the persistence provider
  runs before insert and update. A violation is `PersistenceFailure`.
- `DeviceService`: the service operations.
- `DeviceServiceProperties`: lemmas relating the operations to each other
  and to independent statements of the rules.
- `DeviceHistory`: any sequence of create, update and delete calls under a
  clock that does not go back.

Two string checks differ, in both directions. The entity's `@NotBlank`
discards exactly the characters at or below U+0020 (what `trim` strips). The
search's `isBlank` discards `Character.isWhitespace` characters. That set
includes Unicode spaces above U+0020 but excludes the control characters
U+0000-U+0008 and U+000E-U+001B. A brand made of an ideographic space
(U+3000) can therefore be stored, yet as a search filter it is ignored.
A brand made of U+0001 can never be stored, yet as a filter it is active
and matches nothing.

Two points about the code:

- The `IllegalArgumentException` catch in update
  (DeviceServiceImpl.java:59-64) cannot be reached with an enum-typed
  state. The closed datatype has no invalid member, so the model has no
  such path.
- Nothing in the code enforces `createdAt <= updatedAt`. The model proves
  it for every history whose clock does not go back (`ClockNotBefore`,
  `Chronological`).

## Model

| member | source | states |
|---|---|---|
| `JavaText.Utf16Length` | src/main/java/com/codechallenge/devicemanagerservice/model/DeviceEntity.java:29 | The length `@Size` measures is between the character count and twice it. It equals the character count exactly when no character lies outside the Basic Multilingual Plane. |
| `JavaText.Trim` | src/main/java/com/codechallenge/devicemanagerservice/model/DeviceEntity.java:28 | `String.trim` as `@NotBlank` uses it. The result is the slice of the input that starts after the leading run of characters at or below U+0020 and is followed only by such characters. It is empty exactly when every character is at or below U+0020; otherwise it starts and ends with a kept character. |
| `JavaText.Utf16LengthOfChar` | src/main/java/com/codechallenge/devicemanagerservice/model/DeviceEntity.java:29 | One character counts as one code unit inside the Basic Multilingual Plane and two outside it. |
| `JavaText.Utf16LengthConcat` | src/main/java/com/codechallenge/devicemanagerservice/model/DeviceEntity.java:29 | The length of a concatenation is the sum of the parts' lengths. With the one-character lemma this fixes the length `@Size` measures for every string. |
| `JavaText.NotBlankIffTrimNonEmpty` | src/main/java/com/codechallenge/devicemanagerservice/model/DeviceEntity.java:28 | "Some character is above U+0020" is exactly "something is left after trim", so the entity's not-blank check is the trim-based one. |
| `DeviceModel.StateFromName` | src/main/java/com/codechallenge/devicemanagerservice/mapper/DeviceMapper.java:25 | Parsing a name gives the state that has that name, and every state's name parses back to that state. So rendering the state as a string loses nothing. |
| `DeviceMapper.CreateDeviceEntity` | src/main/java/com/codechallenge/devicemanagerservice/mapper/DeviceMapper.java:13-19 | The new entity has the input's name, brand and state. Its id and both timestamps are unset, for the store to assign. |
| `DeviceMapper.CreateDeviceDto` | src/main/java/com/codechallenge/devicemanagerservice/mapper/DeviceMapper.java:21-30 | The response has the entity's id, name, brand and both timestamps. Its state string is the state's enum name. |
| `DeviceMapper.ResponseDeterminesEntity` | src/main/java/com/codechallenge/devicemanagerservice/mapper/DeviceMapper.java:21-30 | Two entities with the same response are equal, so the response can be mapped back to the entity. |
| `DeviceSpecification.SearchBy` | src/main/java/com/codechallenge/devicemanagerservice/service/DeviceSpecification.java:12-23 | There is a brand test exactly when the brand is present and not blank, and it tests that brand. There is a state test exactly when a state is given. There are at most two tests. |
| `DeviceSpecification.And` | src/main/java/com/codechallenge/devicemanagerservice/service/DeviceSpecification.java:21 | The conjunction accepts a device exactly when every test holds. The empty list accepts everything. |
| `DeviceSpecification.AcceptsIff` | src/main/java/com/codechallenge/devicemanagerservice/service/DeviceSpecification.java:12-23 | The built predicate accepts a device iff two conditions hold. First, the brand filter is absent or blank, or it equals the brand exactly (no case folding, no substring match). Second, the state filter is absent or equals the state's name. |
| `DeviceSpecification.NoFiltersAcceptAll` | src/main/java/com/codechallenge/devicemanagerservice/service/DeviceSpecification.java:14-21 | With an absent or blank brand and no state, every device is accepted. |
| `DeviceSpecification.BlankBrandIsAbsent` | src/main/java/com/codechallenge/devicemanagerservice/service/DeviceSpecification.java:15 | An empty or all-whitespace brand builds exactly the same tests as an absent brand. |
| `DeviceSpecification.FiltersOnlyNarrow` | src/main/java/com/codechallenge/devicemanagerservice/service/DeviceSpecification.java:21 | A device accepted with both filters is also accepted with either filter dropped. |
| `DeviceRepository.Persist` | src/main/java/com/codechallenge/devicemanagerservice/model/DeviceEntity.java:24-49 | Inserting succeeds iff the entity meets its field constraints. On success the row gets the next identity value, which the caller cannot choose and which no row of a well-formed store holds. Both timestamps are `now`, the other rows are unchanged, and the counter advances. |
| `DeviceRepository.Merge` | src/main/java/com/codechallenge/devicemanagerservice/model/DeviceEntity.java:43-49 | Overwriting succeeds iff the entity meets its constraints. On success it keeps the stored creation time (the column is not updatable) and sets the modification time to `now`. Other rows and the counter are unchanged. |
| `DeviceRepository.Remove` | src/main/java/com/codechallenge/devicemanagerservice/service/DeviceServiceImpl.java:101 | Deleting removes exactly that id and leaves every other row as it was. The count drops by one. |
| `DeviceRepository.EmptyWellFormed` | src/main/java/com/codechallenge/devicemanagerservice/model/DeviceEntity.java:24-26 | The store before any insert, with the identity counter at 1, is well-formed and not ahead of any clock. So the history results apply from the first insert on. |
| `DeviceRepository.PersistPreservesWellFormed` | src/main/java/com/codechallenge/devicemanagerservice/model/DeviceEntity.java:24-49 | Inserting keeps every row keyed by its own id below the counter, stamped, and within its field constraints. |
| `DeviceRepository.MergePreservesWellFormed` | src/main/java/com/codechallenge/devicemanagerservice/model/DeviceEntity.java:43-49 | Overwriting keeps the store well-formed, provided the clock has not gone back. |
| `DeviceRepository.RemovePreservesWellFormed` | src/main/java/com/codechallenge/devicemanagerservice/service/DeviceServiceImpl.java:101 | Deleting keeps the store well-formed. |
| `DeviceService.Save` | src/main/java/com/codechallenge/devicemanagerservice/service/DeviceServiceImpl.java:36-40 | Create fails only when the name or brand breaks the entity constraints. On success it stores, under the counter's id, the input's name, brand and state with both timestamps `now`. In a well-formed store that id is fresh. The counter advances, other rows are untouched, and the response carries the input's name, brand and state name. |
| `DeviceService.UpdateDevice` | src/main/java/com/codechallenge/devicemanagerservice/service/DeviceServiceImpl.java:44-71 | An unknown id fails with NotFound. A device in use whose name or brand the request changes to a different value fails with UpdateRejected. Any other failure is PersistenceFailure. Otherwise the update succeeds iff the resulting name and brand meet the constraints. On success each supplied field is written and each absent one kept. The id and creation time are unchanged, `updatedAt` is `now`, no other row changes, and the response shows the new row. |
| `DeviceService.GetById` | src/main/java/com/codechallenge/devicemanagerservice/service/DeviceServiceImpl.java:74-77 | There is a result iff the id is stored. It carries that row's id, name, brand, state and timestamps. |
| `DeviceService.GetAllDevice` | src/main/java/com/codechallenge/devicemanagerservice/service/DeviceServiceImpl.java:81-84 | Lists exactly the stored ids, each with the response `GetById` gives for it. |
| `DeviceService.DeleteDevice` | src/main/java/com/codechallenge/devicemanagerservice/service/DeviceServiceImpl.java:88-103 | An unknown id fails with NotFound. A device in use fails with OperationRejected. Delete succeeds iff the id is stored and not in use, and then exactly that id is removed and nothing else changes. |
| `DeviceService.StateFilter` | src/main/java/com/codechallenge/devicemanagerservice/service/DeviceServiceImpl.java:110 | The state filter passed on is absent iff no state is given. Otherwise it is a name that parses back to the given state. |
| `DeviceService.FindDevices` | src/main/java/com/codechallenge/devicemanagerservice/service/DeviceServiceImpl.java:107-115 | Results are stored devices only, each with the response `GetById` gives for it. |
| `DeviceServiceProperties.FindDevicesExact` | src/main/java/com/codechallenge/devicemanagerservice/service/DeviceServiceImpl.java:107-115 | Search is sound and complete. A stored device is found iff its brand equals an active brand filter (if there is one) and its state equals the state filter (if there is one). |
| `DeviceServiceProperties.SearchWithoutFiltersListsAll` | src/main/java/com/codechallenge/devicemanagerservice/service/DeviceServiceImpl.java:81-115 | With no state and an absent or blank brand, search returns exactly what listing all devices returns. |
| `DeviceServiceProperties.FiltersNarrowResults` | src/main/java/com/codechallenge/devicemanagerservice/service/DeviceServiceImpl.java:107-115 | Adding a brand filter or a state filter never enlarges the set of found ids. |
| `DeviceServiceProperties.AppleAvailableSearch` | src/test/java/com/codechallenge/devicemanagerservice/controllers/DeviceManagerControllersTest.java:326-359 | The store holds two available Apple devices and one available Dell. Searching for brand Apple and state AVAILABLE finds exactly the two Apple ids. |
| `DeviceServiceProperties.IdeographicSpaceBrandIsStorableButNotSearchable` | src/main/java/com/codechallenge/devicemanagerservice/service/DeviceSpecification.java:15 | A brand of one U+3000 meets the entity constraints, yet as a filter it is treated as blank and search returns every device. |
| `DeviceServiceProperties.ControlCharBrandIsNotStorableButFilters` | src/main/java/com/codechallenge/devicemanagerservice/service/DeviceSpecification.java:15 | A brand of one U+0001 breaks the entity's not-blank constraint, yet as a filter it is active. In a well-formed store, search with it finds nothing. |
| `DeviceServiceProperties.SaveThenGetById` | src/test/java/com/codechallenge/devicemanagerservice/controllers/DeviceManagerControllersTest.java:179-211 | After a successful create, fetching the returned id gives the same response: the input's name, brand and state, with creation time equal to modification time. The store stays well-formed. |
| `DeviceServiceProperties.UpdatePreservesWellFormed` | src/main/java/com/codechallenge/devicemanagerservice/service/DeviceServiceImpl.java:57-68 | A successful update keeps the store well-formed and not ahead of the clock. |
| `DeviceServiceProperties.InUseFreezesNameAndBrand` | src/main/java/com/codechallenge/devicemanagerservice/service/DeviceServiceImpl.java:48-55 | No successful update of a device in use changes its name or brand. |
| `DeviceServiceProperties.InUseStateChangeAllowed` | src/main/java/com/codechallenge/devicemanagerservice/service/DeviceServiceImpl.java:48-61 | A device in use accepts a request whose name and brand are absent or identical to the current ones. A supplied state is applied and `updatedAt` becomes `now`. |
| `DeviceServiceProperties.NotInUseUpdateAllowed` | src/main/java/com/codechallenge/devicemanagerservice/service/DeviceServiceImpl.java:57-68 | A device not in use accepts any update whose supplied name and brand meet the entity constraints. |
| `DeviceServiceProperties.UpdateWithCurrentValuesOnlyTouchesTimestamp` | src/main/java/com/codechallenge/devicemanagerservice/service/DeviceServiceImpl.java:48-68 | Resupplying the current values succeeds in any state and changes nothing but `updatedAt`. |
| `DeviceServiceProperties.RepeatedUpdateOnlyTouchesTimestamp` | src/main/java/com/codechallenge/devicemanagerservice/service/DeviceServiceImpl.java:48-68 | Repeating a successful update succeeds and changes nothing but `updatedAt`. So update is idempotent up to the modification time. |
| `DeviceServiceProperties.DeleteThenGetById` | src/test/java/com/codechallenge/devicemanagerservice/controllers/DeviceManagerControllersTest.java:275-286 | After a successful delete, the id reads as absent, every other id reads as before, the count drops by one, and the store stays well-formed. |
| `DeviceHistory.Apply` | src/main/java/com/codechallenge/devicemanagerservice/service/DeviceServiceImpl.java:36-103 | One create, update or delete keeps the store well-formed and the counter monotone. Every row that survives from before keeps its creation time. |
| `DeviceHistory.Run` | src/main/java/com/codechallenge/devicemanagerservice/model/DeviceEntity.java:43-45 | Over any history with a clock that does not go back, the store stays well-formed. Every device present at the end with an id that existed at the start was already present then, with the same creation time. |
| `DeviceHistory.DeletedIdsStayFree` | src/main/java/com/codechallenge/devicemanagerservice/model/DeviceEntity.java:24-26 | An id that has been handed out and is no longer stored is never stored again. Ids are not reused. |

## Left out

- HTTP controllers, the OpenAPI interface and configuration, and the exception handlers. These are routing and status-code mapping. The 404 that the validation handler returns where a test expects 400 belongs to that layer.
- The legacy `api/DeviceManagerApi.java` and its test. They use classes that are not part of this model and a different `save` signature.
- Paging: `Pageable`, page slicing and totals are done by Spring Data. `GetAllDevice` and `FindDevices` return every match keyed by id, with no order.
- Transactions, isolation and concurrency. Each operation is atomic on the store.
- Logging, the auditing listener's mechanism and the `DeviceRepository` interface. The store and its `now`-stamped inserts and overwrites replace them.
- The `IllegalArgumentException` catch in update. It cannot be reached with an enum-typed state.
- Bean validation of the request DTOs (`@NotBlank` on the create input, whatever the update input declares). That is the request layer's job. The entity constraints are still enforced when rows are written.
- `DeviceState.java` and `DeviceUpdateDto.java` are not part of this model. The state is `Available | InUse | Inactive`, where `Inactive` stands for any further member. The update input is three optional fields, inferred from the null checks in update.
- The 64-bit width of ids: the identity counter is an unbounded natural.
- Id arguments are naturals. The update route has no lower bound on the id, so a negative `Long` can reach update. It gives NotFound there, as any absent id does.
- Database collation: brand equality in search is exact, as with a binary collation.
- Persistence failures other than constraint violations (connection loss and the like) are not modelled.
- DeviceService.UpdateDevice: requires only that the row stored under `id`, if any, carries that id. In the source a row fetched by id always does, and the model needs the fact to write the row back under the same key. Nothing else about the store is assumed.
- DeviceRepository.Persist: requires an entity without an id. The service inserts only fresh entities from the mapper. What JPA does when saving an entity with an unknown id is not modelled.
