# tea: an event-sourced tea stock tracker, modelled in Dafny

The tea application keeps every change to its flavours, products and stock
measurements as an append-only stream of versioned entities. This project
models four pieces of that system and proves properties about them:

- **The backend stream repository** (`Repository.kt`). Entities are stored in
  a DynamoDB table under partition `"tea"`. The sort key of each entity is
  `"stream-"` followed by `sortableInt(version)`: one letter `'a' + digit count`,
  then the decimal digits. `append` encodes an entity into an attribute map
  and does a put that fails when the slot is taken. `fetchAll(start)` reads
  the keys from `start` on, in key order, and decodes them. `fetchLastVersion`
  reads the version in the greatest stream key. The table is modelled as a
  map from `(pk, sk)` to an item (modules `Codec`, `Items`, `Listing`,
  `Repository`). The class `Repository.VersionRepository` holds that map.
  It also keeps a ghost log of the entities it stored, and that log is what
  the read operations are proved against.
- **The client projection** (`model.kt`). `VersionStream` is an append-only
  list. A version check guards it, and it notifies its listeners in the
  order they registered. The "current version per id" views and `nextId` are
  computed from the list. `Application` builds new entity versions and
  upserts them (modules `Projection` and `Frontend`).
- **Stock time frames** (`blocks.kt`). The measurements are sorted by date.
  Each consecutive pair becomes a frame. A frame pairs the end measurement's
  rows with the start measurement's row for the same product, and records
  the total stock difference (module `TimeFrames`).
- **The production-to-development copy rule** (`CopyPrdToDev.kt`). Items of
  both tables are keyed by `(pk, sk)` and zipped over the union of keys. The
  tool deletes what only the development table holds. It puts every
  production item the development table lacks or holds differently (module
  `Reconcile`).

The backend's Kotlin `Int` is the subset type `Codec.Int32`. `toInt`
(`Codec.ParseInt`) rejects values outside that range. All other integers are
unbounded.

## Model

| member | source | states |
|---|---|---|
| Codec.ParseIntRoundTrip | backend/src/main/kotlin/se/daan/tea/Repository.kt:142-144 | parsing the decimal text of any 32-bit integer gives the integer back |
| Codec.IntToStringLength | backend/src/main/kotlin/se/daan/tea/Repository.kt:65-67 | the decimal text of a 32-bit integer has 1 to 11 characters, so the prefix letter is in range |
| Codec.SortableIntShape | backend/src/main/kotlin/se/daan/tea/Repository.kt:65-69 | for v >= 0, sortableInt(v) is the letter 'a' + digit count (between 'b' and 'k') followed by the decimal digits of v, and contains no '-' |
| Codec.SortableIntRoundTrip | backend/src/main/kotlin/se/daan/tea/Repository.kt:65-69 | dropping the first character of sortableInt(v) and parsing the rest gives v back, for every 32-bit v |
| Codec.SortableIntMonotone | backend/src/main/kotlin/se/daan/tea/Repository.kt:65-69 | for 0 <= a < b, sortableInt(a) is lexicographically below sortableInt(b) |
| Codec.SortableIntOrder | backend/src/main/kotlin/se/daan/tea/Repository.kt:65-69 | for non-negative a and b, sortableInt(a) < sortableInt(b) in string order if and only if a < b |
| Codec.DigitsOrder | backend/src/main/kotlin/se/daan/tea/Repository.kt:66 | two numbers with the same digit count compare like their decimal texts |
| Codec.LexLessTransitive | backend/src/main/kotlin/se/daan/tea/Repository.kt:100 | the string order of sort keys is transitive |
| Codec.LexLessTotal | backend/src/main/kotlin/se/daan/tea/Repository.kt:100 | two different sort keys are always ordered one way or the other |
| Codec.SplitOnce | backend/src/main/kotlin/se/daan/tea/Repository.kt:89 | splitting "p-x" on '-' gives [p, x] when neither part holds '-' |
| Codec.SplitTwice | backend/src/main/kotlin/se/daan/tea/Repository.kt:110-111 | a key with two '-' splits into three pieces, which fetchAll rejects |
| Items.StreamKeyDecodes | backend/src/main/kotlin/se/daan/tea/Repository.kt:110-113 | the sort key written for version v >= 0 splits into ["stream", sortableInt(v)], and the version read back from it is v |
| Items.NegativeVersionKeyMalformed | backend/src/main/kotlin/se/daan/tea/Repository.kt:110-111 | the sort key of a negative version holds a second '-' and fails fetchAll's shape check |
| Items.RowRoundTrip | backend/src/main/kotlin/se/daan/tea/Repository.kt:44-50 | as written, a measurement row decodes if and only if tray, boxes and loose are all present, and it then decodes to itself |
| Items.NullRowNotRecovered | backend/src/main/kotlin/se/daan/tea/Repository.kt:125 | a row with no tray, boxes or loose is written, but reading it back fails |
| Items.RowRoundTripFixed | backend/src/main/kotlin/se/daan/tea/Repository.kt:47-50 | decoding absent counts as absent, every row round-trips |
| Items.RowsRoundTrip | backend/src/main/kotlin/se/daan/tea/Repository.kt:41-53 | the row list of a measurement decodes, in order, to the rows written, when every row is complete |
| Items.FlavourRoundTrip | backend/src/main/kotlin/se/daan/tea/Repository.kt:15-21 | a Flavour with version >= 0 decodes from its item to itself |
| Items.ProductRoundTrip | backend/src/main/kotlin/se/daan/tea/Repository.kt:23-33 | a Product with version >= 0 decodes from its item to itself |
| Items.MeasurementRoundTrip | backend/src/main/kotlin/se/daan/tea/Repository.kt:35-54 | a Measurement with version >= 0 decodes if and only if all its rows are complete, and then decodes to itself |
| Items.ItemRoundTrip | backend/src/main/kotlin/se/daan/tea/Repository.kt:14-55 | for version >= 0, the item of any entity decodes if and only if its rows are complete, and then it decodes to the entity |
| Items.DecodeItemRejects | backend/src/main/kotlin/se/daan/tea/Repository.kt:110-133 | decoding fails on a missing sort key, on a key that does not split into ["stream", _], and on a tag other than Flavour, Product or Measurement; a decoded item had a well-formed key and a known tag |
| Items.NegativeVersionNotDecoded | backend/src/main/kotlin/se/daan/tea/Repository.kt:110-111 | an entity with a negative version is written but cannot be read back |
| Repository.ConditionalPut | backend/src/main/kotlin/se/daan/tea/Repository.kt:56-62 | the put succeeds if and only if the slot is free; it then adds exactly that item and keeps every other one |
| Repository.OccupiedSlotNeverChanges | backend/src/main/kotlin/se/daan/tea/Repository.kt:60 | no run of conditional puts changes an occupied slot |
| Repository.PutWinsIffSlotFree | backend/src/main/kotlin/se/daan/tea/Repository.kt:56-62 | in a run of puts, a put succeeds if and only if its slot was free at the start and no earlier put in the run took it |
| Repository.AppendWinsIffVersionFree | backend/src/main/kotlin/se/daan/tea/Repository.kt:56-62 | in a run of appends, an append succeeds if and only if its slot (fixed by its version) is free in the table and no earlier append of the run has the same slot |
| Repository.RacingAppends | backend/src/test/kotlin/se/daan/tea/VersionRepositoryTest.kt:105-111 | of two appends at the same version into a free slot, the first wins and the second fails and leaves the first's item in place |
| Repository.StreamKeyOrder | backend/src/main/kotlin/se/daan/tea/Repository.kt:17 | for non-negative versions, "stream-" + sortableInt orders keys exactly like the versions |
| Repository.FetchAllReturnsLogFrom | backend/src/main/kotlin/se/daan/tea/Repository.kt:96-135 | for start >= 0, on a table holding exactly the log's items, each in its own version's slot, with every logged version >= 0 and every measurement row complete: fetchAll(start) succeeds and returns exactly the logged entities with version >= start, in strictly ascending version order |
| Repository.NegativeStartBound | backend/src/main/kotlin/se/daan/tea/Repository.kt:100-104 | as written, for start < 0 the key of a version v >= 0 lies below the query's lower bound exactly when v has fewer digits than the text of start has characters (versions 0 to 9 for start = -1) |
| Repository.FetchAllFromMinusOneMissesVersionZero | backend/src/main/kotlin/se/daan/tea/Repository.kt:100-104 | fetchAll(-1) on a table holding only version 0 returns nothing |
| Repository.FetchAllClampedReturnsLogFrom | backend/src/main/kotlin/se/daan/tea/Repository.kt:96-135 | with the start clamped at 0, for every 32-bit start and under the same conditions on the log, fetchAll returns exactly the logged entities with version >= start, in strictly ascending version order |
| Repository.LastVersionIsHighest | backend/src/main/kotlin/se/daan/tea/Repository.kt:71-94 | on a table holding exactly the log's items in their own slots, with every logged version >= 0: fetchLastVersion returns nothing exactly when the log is empty; otherwise it returns a logged version that no logged entity exceeds |
| Repository.LastVersionOfLog | backend/src/main/kotlin/se/daan/tea/Repository.kt:82-91 | the item read from the top of the key range carries the highest logged version |
| Repository.StoresPut | backend/src/main/kotlin/se/daan/tea/Repository.kt:56-62 | adding an entity's item in its free slot keeps the table and the log in step |
| Repository.VersionRepository.constructor | backend/src/main/kotlin/se/daan/tea/Repository.kt:9-12 | a repository starts with an empty table |
| Repository.VersionRepository.Append | backend/src/main/kotlin/se/daan/tea/Repository.kt:13-63 | succeeds if and only if the entity's slot is free; success adds exactly its item to the table and the entity to the log; failure changes nothing |
| Repository.VersionRepository.FetchAll | backend/src/main/kotlin/se/daan/tea/Repository.kt:96-135 | its loop over the keys in ascending order returns the decoding of the selected items in key order, stopping at the first failure |
| Repository.VersionRepository.FetchLastVersion | backend/src/main/kotlin/se/daan/tea/Repository.kt:71-94 | returns the version parsed from the greatest stream key, or nothing when there is none |
| Listing.LeastExists | backend/src/main/kotlin/se/daan/tea/Repository.kt:97-108 | every non-empty set of keys has a least element, so the range scan can return keys in order |
| Listing.AscendingFirst | backend/src/main/kotlin/se/daan/tea/Repository.kt:97-108 | the ascending listing of keys starts with the least key and then lists the rest |
| Projection.GetCurrent | web/src/jsMain/kotlin/se/daan/tea/web/model/model.kt:136-140 | a found entity is in the list and is of the asked class and id |
| Projection.GetCurrentNone | web/src/jsMain/kotlin/se/daan/tea/web/model/model.kt:136-140 | getCurrent finds nothing if and only if no entity of that class has that id |
| Projection.GetCurrentIsLast | web/src/jsMain/kotlin/se/daan/tea/web/model/model.kt:139 | getCurrent returns the last entity of that class with that id |
| Projection.GetCurrentAll | web/src/jsMain/kotlin/se/daan/tea/web/model/model.kt:142-147 | every entry maps an id to an entity of the class with that id |
| Projection.CurrentAllAgrees | web/src/jsMain/kotlin/se/daan/tea/web/model/model.kt:136-147 | getCurrentAll holds an id if and only if getCurrent finds one, and then holds exactly getCurrent's entity |
| Projection.CurrentAllKeys | web/src/jsMain/kotlin/se/daan/tea/web/model/model.kt:142-147 | the keys of getCurrentAll are exactly the ids of the class's entities in the list |
| Projection.AppendBecomesCurrent | web/src/jsMain/kotlin/se/daan/tea/web/model/model.kt:136-140 | after appending an entity it is the current version of its id, and every other id keeps its current version |
| Projection.SortedIds | web/src/jsMain/kotlin/se/daan/tea/web/model/model.kt:9 | the ids listed strictly ascending, exactly the ids of the set |
| Projection.SortedCurrent | web/src/jsMain/kotlin/se/daan/tea/web/model/model.kt:6-9 | the flavours, products and measurements getters return entities of their class, strictly ascending by id |
| Projection.SortedCurrentMembers | web/src/jsMain/kotlin/se/daan/tea/web/model/model.kt:62-65 | an entity is in a getter's list if and only if it is the current version of its id |
| Projection.NextIdNone | web/src/jsMain/kotlin/se/daan/tea/web/model/model.kt:173 | with no entity of the class, nextId is 0 |
| Projection.NextIdIsLastPlusOne | web/src/jsMain/kotlin/se/daan/tea/web/model/model.kt:168-174 | otherwise nextId is the id of the last entity of the class plus 1 |
| Projection.NextIdReusesId | web/src/jsMain/kotlin/se/daan/tea/web/model/model.kt:168-174 | after products 0, 1 and a new version of 0, nextId answers 1, an id in use; the largest id plus one would be 2 |
| Projection.NextFreeId | web/src/jsMain/kotlin/se/daan/tea/web/model/model.kt:168-174 | the corrected next id is non-negative and above every id of the class in the list |
| Projection.NextFreeIdIsFresh | web/src/jsMain/kotlin/se/daan/tea/web/model/model.kt:168-174 | the corrected next id has no current version |
| Projection.NextIdAgreesWhenLastIsLargest | web/src/jsMain/kotlin/se/daan/tea/web/model/model.kt:168-174 | nextId and the corrected next id agree whenever the last entity of the class has the largest id |
| Projection.Calls | web/src/jsMain/kotlin/se/daan/tea/web/model/model.kt:154-156 | one call per listener with the entity, in registration order |
| Projection.VersionStream.constructor | web/src/jsMain/kotlin/se/daan/tea/web/model/model.kt:131-134 | an empty list, no listeners, and expected version 0 |
| Projection.VersionStream.Upsert | web/src/jsMain/kotlin/se/daan/tea/web/model/model.kt:149-157 | throws if and only if the version differs from the expected one, and then changes nothing and calls no listener; otherwise appends the entity and calls every listener once, in order; the expected version never changes |
| Projection.VersionStream.UpsertAll | web/src/jsMain/kotlin/se/daan/tea/web/model/model.kt:159-166 | all or nothing: appends the whole list if and only if every element has the expected version; calls no listener; the expected version never changes |
| Projection.VersionStream.OnUpsert | web/src/jsMain/kotlin/se/daan/tea/web/model/model.kt:176-178 | appends the listener after the existing ones and changes nothing else |
| Projection.SameVersionAcceptedTwice | web/src/jsMain/kotlin/se/daan/tea/web/model/model.kt:133 | on a fresh stream, two successive upserts at version 0 both succeed |
| Projection.ReplayKeepsVersionsIncreasing | web/src/jsMain/kotlin/se/daan/tea/web/model/model.kt:149-157 | with an upsert that advances the expected version, a successful run appends its entities and keeps versions strictly increasing along the list |
| Projection.ReplayRejectsReuse | web/src/jsMain/kotlin/se/daan/tea/web/model/model.kt:150-152 | the advancing upsert rejects a second entity at the version just used |
| Frontend.RowIdsStartAtZero | web/src/jsMain/kotlin/se/daan/tea/web/model/model.kt:69-79 | while the stream holds no stand-alone rows, the k-th row of a new measurement gets id k |
| Frontend.UpdateFlavourMissesTarget | web/src/jsMain/kotlin/se/daan/tea/web/model/model.kt:22-30 | when a flavour's id and version differ, updating it leaves its current version unchanged and overwrites the flavour whose id equals the old version |
| Frontend.Application.constructor | web/src/jsMain/kotlin/se/daan/tea/web/model/model.kt:3-4 | the application starts with a fresh, empty stream |
| Frontend.Application.NewFlavour | web/src/jsMain/kotlin/se/daan/tea/web/model/model.kt:11-20 | the flavour gets nextId and the expected version; it is appended and becomes the current version of its id; listeners are told |
| Frontend.Application.UpdateFlavour | web/src/jsMain/kotlin/se/daan/tea/web/model/model.kt:22-31 | as written: the new version's id is the old version number, and the flavour's own id keeps its current version unless id and version coincide |
| Frontend.Application.UpdateFlavourFixed | web/src/jsMain/kotlin/se/daan/tea/web/model/model.kt:22-31 | keeping the flavour's id, the new version becomes the current one for that id and every other id is unaffected |
| Frontend.Application.NewProduct | web/src/jsMain/kotlin/se/daan/tea/web/model/model.kt:38-48 | the product gets nextId and the expected version and becomes the current version of its id |
| Frontend.Application.UpdateProduct | web/src/jsMain/kotlin/se/daan/tea/web/model/model.kt:50-60 | the new version keeps the product's id, becomes its current version, and leaves every other product's current version alone |
| Frontend.Application.NewMeasurement | web/src/jsMain/kotlin/se/daan/tea/web/model/model.kt:67-88 | the measurement gets nextId and the expected version; its k-th row gets id nextId of rows + k, the same version and the given counts; it becomes current |
| TimeFrames.DateLeqTransitive | web/src/jsMain/kotlin/se/daan/tea/web/model/blocks.kt:6 | the date order used for sorting is transitive |
| TimeFrames.InsertByDate | web/src/jsMain/kotlin/se/daan/tea/web/model/blocks.kt:6 | inserting keeps the elements: the result is the old ones plus the new one |
| TimeFrames.InsertByDateSorted | web/src/jsMain/kotlin/se/daan/tea/web/model/blocks.kt:6 | inserting into a date-sorted list keeps it sorted |
| TimeFrames.SortByDate | web/src/jsMain/kotlin/se/daan/tea/web/model/blocks.kt:6 | sortedBy { it.date } is a permutation of the measurements |
| TimeFrames.SortByDateSorted | web/src/jsMain/kotlin/se/daan/tea/web/model/blocks.kt:6 | and its result is sorted by date |
| TimeFrames.FirstMatch | web/src/jsMain/kotlin/se/daan/tea/web/model/blocks.kt:10 | finds nothing if and only if no start row has the product id; a found row has it |
| TimeFrames.FirstMatchIsFirst | web/src/jsMain/kotlin/se/daan/tea/web/model/blocks.kt:10 | the row found is the first start row with the product id |
| TimeFrames.MatchedMembers | web/src/jsMain/kotlin/se/daan/tea/web/model/blocks.kt:8-16 | the matched rows are exactly the end rows whose product the start measurement holds |
| TimeFrames.PairsAreMatchedRows | web/src/jsMain/kotlin/se/daan/tea/web/model/blocks.kt:8-16 | the items are made from the matched end rows, in end-row order, each paired with the first start row of its product |
| TimeFrames.FramesSpan | web/src/jsMain/kotlin/se/daan/tea/web/model/blocks.kt:7-18 | n measurements give max(0, n - 1) frames; frame i runs from date i to date i + 1 and its totalDiff is the start's total stock minus the end's |
| TimeFrames.BlocksChain | web/src/jsMain/kotlin/se/daan/tea/web/model/blocks.kt:5-21 | blocks gives max(0, n - 1) frames, each going forward in time, each ending where the next starts |
| TimeFrames.FrameItems | web/src/jsMain/kotlin/se/daan/tea/web/model/blocks.kt:8-16 | as written, item i is for matched end row i, with amountStart the end row's total, amountEnd the matching start row's total, and delta 0 |
| TimeFrames.ItemAmountsSwapped | web/src/jsMain/kotlin/se/daan/tea/web/model/blocks.kt:14 | a product counted 10 at the start and 4 at the end gets amountStart 4 and amountEnd 10 while totalDiff is 6 |
| TimeFrames.SumTotalsAppend | web/src/jsMain/kotlin/se/daan/tea/web/model/blocks.kt:17 | the total stock of two lists of rows put together is the sum of their totals |
| TimeFrames.SumTotalsSameRows | web/src/jsMain/kotlin/se/daan/tea/web/model/blocks.kt:17 | two lists of distinct rows holding the same rows have the same total stock, in any order |
| TimeFrames.PairsWhenAllMatched | web/src/jsMain/kotlin/se/daan/tea/web/model/blocks.kt:8-16 | when every end row's product is in the start measurement, item j pairs end row j with the first start row of its product |
| TimeFrames.StartsOfSameRows | web/src/jsMain/kotlin/se/daan/tea/web/model/blocks.kt:10 | for two measurements of the same products, each counted once, the start rows picked for the end rows are all the start rows, each once |
| TimeFrames.FrameItemsOpposeTotalDiff | web/src/jsMain/kotlin/se/daan/tea/web/model/blocks.kt:14-17 | as written, for two measurements of the same products, each counted once, the items' amountStart - amountEnd add up to minus totalDiff |
| TimeFrames.FrameFixedItems | web/src/jsMain/kotlin/se/daan/tea/web/model/blocks.kt:8-16 | with the amounts the right way round, item i is for matched end row i, with amountStart the first matching start row's total, amountEnd the end row's total, and delta 0 |
| TimeFrames.FrameFixedMatchesTotalDiff | web/src/jsMain/kotlin/se/daan/tea/web/model/blocks.kt:14-17 | with the amounts the right way round, for two measurements of the same products, each counted once, the items' amountStart - amountEnd add up to exactly totalDiff |
| Reconcile.AssociateByFails | tools/src/main/kotlin/se/daan/tea/tools/CopyPrdToDev.kt:59-60 | keying the scanned items by (pk, sk) succeeds if and only if every item has pk and sk; a missing one is the failure of `!!` |
| Reconcile.AssociateByKeys | tools/src/main/kotlin/se/daan/tea/tools/CopyPrdToDev.kt:59-60 | the keyed map holds exactly the keys of the scanned items |
| Reconcile.AssociateByLastWins | tools/src/main/kotlin/se/daan/tea/tools/CopyPrdToDev.kt:59-60 | of several items with the same key, the last one scanned is kept |
| Reconcile.PlanDeletes | tools/src/main/kotlin/se/daan/tea/tools/CopyPrdToDev.kt:25-32 | a delete is planned exactly for the keys only the development table holds |
| Reconcile.PlanPuts | tools/src/main/kotlin/se/daan/tea/tools/CopyPrdToDev.kt:33-41 | a put is planned exactly where production holds an item the development table lacks or holds differently, and it puts production's item |
| Reconcile.PlanSkipsEqual | tools/src/main/kotlin/se/daan/tea/tools/CopyPrdToDev.kt:25-41 | a key gets no action if and only if both tables hold the same item or neither holds one |
| Reconcile.Sync | tools/src/main/kotlin/se/daan/tea/tools/CopyPrdToDev.kt:22-42 | walking the keys of zip(dev, prd) (the union of both key sets, each with its two lookups) issues exactly the planned actions, and the development table ends equal to the production table |

## Left out

- The DynamoDB client, request builders, `queryPaginator` pagination, `consistentRead`, `limit(1)` and `scanIndexForward(false)`. These are modelled as a map and a conditional insert. The descending limit-1 query is the greatest stream key.
- `Handler.kt` (HTTP routing and JSON), the UI files (`html.kt`, `helper.kt`, `form.kt`, `main.kt`, `charttest.kt`), `calculate.kt` and the build scripts are not part of this model. They are plumbing, UI, or floating-point forecasting over fields the client model lacks.
- `shared/src/commonMain/kotlin/Instance.kt` is not part of this model. Its entity shapes differ from the ones `Repository.kt` builds, and the model follows `Repository.kt`.
- The `scan` loop of `CopyPrdToDev.kt` and its blocking calls are I/O. The scanned items are an input sequence, and `println` output is left out.
- Listener closures are opaque handles. A call is recorded as a notification, not run, so a listener that throws or re-enters is not modelled.
- The `order` field of the client's flavour and product versions is always `0f`. It is floating point and is dropped.
- Dates: the backend's `LocalDateTime` and `fromString` come from a module that is not shown. A measurement's date is kept as its string. The client sorts by string, and the model compares dates in character-code order.
- Text: `toString`, `toInt` and `split` are modelled on ASCII decimal digits. `toInt` accepts an optional leading '-' or '+', as Kotlin's does. Unicode digits are not modelled.
- The client's `Int` arithmetic (JavaScript numbers) is unbounded in the model, so wrap-around of ids, versions or totals is not modelled.
- `TimeFrames.Total`: `blocks.kt` reads `productVersion.boxSize`, which the client's `ProductVersion` does not declare. The box size is a function parameter.
- `TimeFrames.SortByDate`: it is proved to be a sorted permutation. The stability of Kotlin's `sortedBy` (equal dates keep their order) is not stated.
- `Projection.SortedCurrent`: the three typed getters `flavours`, `products` and `measurements` are this one function at the three kinds. The model does not keep separate typed lists.
- `Repository.VersionRepository.FetchLastVersion`: like the source, it does not check that the sort key split into two pieces before reading the version. A short key is a malformed-key error, where Kotlin would throw an index error.
- Repository.FetchAllReturnsLogFrom: stated for start >= 0 only. For a negative start the query as written misses low versions (Repository.NegativeStartBound), which the findings below record.
- `Repository.VersionRepository.FetchAll`: a decode failure (Kotlin's exception) is an error result. The items decoded before it are not returned.
- `Reconcile.Sync`: Kotlin iterates the zipped map in insertion order, and the model visits the keys in an arbitrary order. The final table and the set of actions do not depend on that order.

## Findings

| source | as written | input that shows it | evidently intended | confidence | as-written member | corrected member |
|---|---|---|---|---|---|---|
| backend/src/main/kotlin/se/daan/tea/Repository.kt:125 | the decoder requires tray, boxes and loose (`!!`), but the encoder leaves out the ones that are null | a row with productId 5, productVersion 6 and no counts | an absent count reads back as absent, so every row round-trips | high; not executed | Items.NullRowNotRecovered | Items.RowRoundTripFixed |
| web/src/jsMain/kotlin/se/daan/tea/web/model/model.kt:149-157 | upsert never advances nextVersion, so every entity must carry version 0 and the guard accepts one version any number of times | a fresh stream, then flavours 0 and 1, both at version 0 | each accepted entity advances the expected version, so versions strictly increase | high; not executed | Projection.SameVersionAcceptedTwice | Projection.ReplayKeepsVersionsIncreasing |
| web/src/jsMain/kotlin/se/daan/tea/web/model/model.kt:168-174 | nextId is the last entity's id plus one, not the largest id plus one | products 0 and 1, then a new version of product 0: nextId is 1, which product 1 already uses | a new id that no entity of the class uses yet | medium; not executed | Projection.NextIdReusesId | Projection.NextFreeIdIsFresh |
| web/src/jsMain/kotlin/se/daan/tea/web/model/model.kt:22-28 | updateFlavour gives the new version the old version's number as its id | a flavour with id 0 at version 3: the update is stored under id 3 | the new version keeps the flavour's id and becomes its current version | high; not executed | Frontend.UpdateFlavourMissesTarget | Frontend.Application.UpdateFlavourFixed |
| web/src/jsMain/kotlin/se/daan/tea/web/model/blocks.kt:14 | amountStart is the end row's total and amountEnd the start row's total, so the items add up to minus totalDiff | one product counted 10 at the start and 4 at the end: amountStart 4, amountEnd 10, totalDiff 6 | amountStart from the start row and amountEnd from the end row, adding up to totalDiff | medium; not executed | TimeFrames.ItemAmountsSwapped | TimeFrames.FrameFixedMatchesTotalDiff |
| backend/src/main/kotlin/se/daan/tea/Repository.kt:100-104 | fetchAll(start) builds its lower bound from sortableInt(start) for any start, and Handler.kt:27-28 passes any Int from the query string; a negative start's key has a '-' after the length letter, which sorts below every digit | fetchAll(-1) on a table holding version 0 (key "stream-b0", above which lies the bound "stream-c-1") returns nothing | a negative start returns the whole log, as for start 0 | medium; not executed | Repository.FetchAllFromMinusOneMissesVersionZero | Repository.FetchAllClampedReturnsLogFrom |
