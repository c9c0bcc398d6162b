# jkanvas core: a Dafny model

This project models four classes of the jkanvas visualisation toolkit:

- **`SnapshotList`**. A registry of weakly referenced elements. A reader takes a
  *snapshot* of it. While at least one snapshot is open, the list that
  snapshots read is never changed: `add` only queues elements in `toBeAdded`.
  When the last snapshot closes, the queue is merged into the list with
  duplicates skipped. If that snapshot saw a collected (null) entry, the list
  is compacted first.
- **`HUDRenderpassAdapter`**. A render pass that is visible or hidden. It holds
  an id string and answers the `visible:true`, `visible:false` and
  `visible:toggle` messages, either directly or when one of a list of ids
  matches its own.
- **`JSONManager`**. A registry of named JSON templates and id-addressed thunks.
- **`FeatureTable`**. A table over an array of features. It checks that every
  feature after the first one with a non-negative row count has exactly that
  count; negative counts are skipped only before that feature. It reports rows, columns and
  whether every feature caches.

## Modules

- `Lang` (`lang.dfy`):
  - Java `null` as `Option.None`;
  - the exceptions the core throws as the `Exception` datatype;
  - a call's outcome as `Result` / `Outcome`, so every error path is a value.
- `WeakRefs` (`weak_refs.dfy`):
  - `WeakReference` as the class `WeakRef`, whose referent is cleared by an
    explicit collector step `Clear`;
  - the shared `ArrayList<WeakReference<T>>` as the class `RefList`;
  - the specification of `addAll` as functions on plain sequences:
    - `Kept` is compaction;
    - `Contained` is the set `addAll` builds;
    - `Fresh` is the deduplicated pending elements;
    - `IsMerge` is the whole step;
  - lemmas on what these functions mean.
- `SnapshotLists` (`snapshot_list.dfy`):
  - the classes `SnapshotList`, `Snapshot` and `SnapshotIterator` (the
    anonymous iterator class);
  - a ghost set of open snapshots, with the invariant that every open
    snapshot still sees the registry's current list, so that list is frozen
    while the count is positive.
- `SnapshotTraces` (`snapshot_traces.dfy`): client scenarios that follow the
  class documentation's promises across several calls.
- `HudRenderpass` (`hud_renderpass.dfy`): the adapter class and the
  substring-matching rule of `processMessage(String[], String)`.
- `Json` (`json_manager.dfy`): the manager class over an opaque
  `JSONElement` / `JSONThunk`.
- `FeatureTables` (`feature_table.dfy`):
  - the `Feature` record;
  - `Scan`, a function mirroring the constructor's validation loop, and the
    lemmas on it;
  - the `FeatureTable` class, whose `Create` runs that loop over an
    `array<Feature>`.

Three points where the code is easy to misread. The model follows the code on each:

- **Compaction.** Only the `hasNull` of the snapshot whose `close` brings the
  count to zero decides it (`SnapshotList.java:155-159`, `222-228`). A miss
  seen by a snapshot closed earlier in the same batch is forgotten.
- **Deduplication.** `addAll` skips a pending element only when an equal
  *live* value is in the list (`SnapshotList.java:191-199`). A collected
  entry adds `null` to the set it checks, not the value it used to hold.
- **Length after the last close.** With nothing collected, the list still
  grows by the merged pending elements. It is unchanged only when nothing was
  pending or everything pending was already present.

## Model

All source paths are under `src/main/java/jkanvas/`.

| member | source | states |
|---|---|---|
| WeakRefs.WeakRef.constructor | src/main/java/jkanvas/util/SnapshotList.java:196-202 | a new weak reference holds the element it was created for |
| WeakRefs.WeakRef.Get | src/main/java/jkanvas/util/SnapshotList.java:105-106 | `get` returns the current referent, or null once it is collected |
| WeakRefs.WeakRef.Clear | src/main/java/jkanvas/util/SnapshotList.java:16-18 | the collector step: afterwards the referent is null |
| WeakRefs.RefList.constructor | src/main/java/jkanvas/util/SnapshotList.java:28 | the registry's list starts empty |
| WeakRefs.Values | src/main/java/jkanvas/util/SnapshotList.java:28 | one referent per reference in the list |
| WeakRefs.ValuesAt | src/main/java/jkanvas/util/SnapshotList.java:104-106 | position i of the referent list is the referent of reference i |
| WeakRefs.ValuesOf | src/main/java/jkanvas/util/SnapshotList.java:104-106 | referents that agree position by position determine the referent list |
| WeakRefs.ValuesConcat | src/main/java/jkanvas/util/SnapshotList.java:196-202 | appending references appends their referents |
| WeakRefs.Somes | src/main/java/jkanvas/util/SnapshotList.java:196-202 | each appended element becomes a non-null referent, in order |
| WeakRefs.CollectKeepsDistinct | src/main/java/jkanvas/util/SnapshotList.java:16-18 | the collector clearing references never creates two equal live values |
| WeakRefs.CompactThenMerge | src/main/java/jkanvas/util/SnapshotList.java:168-204 | compacting, then merging without compaction, is a compacting `addAll` |
| WeakRefs.KeptLength | src/main/java/jkanvas/util/SnapshotList.java:170-189 | compaction keeps one reference per live referent and never grows the list |
| WeakRefs.KeptConcat | src/main/java/jkanvas/util/SnapshotList.java:170-189 | compaction works piecewise, so it keeps the relative order of what it keeps |
| WeakRefs.KeptMembers | src/main/java/jkanvas/util/SnapshotList.java:170-189 | compaction keeps every live entry and only live entries |
| WeakRefs.KeptAllLive | src/main/java/jkanvas/util/SnapshotList.java:170-189 | with nothing collected compaction changes nothing |
| WeakRefs.KeptShrinks | src/main/java/jkanvas/util/SnapshotList.java:170-189 | with a collected entry compaction makes the list strictly shorter |
| WeakRefs.KeptValuesLive | src/main/java/jkanvas/util/SnapshotList.java:170-189 | after compaction every remaining value is live and was in the list |
| WeakRefs.KeptValues | src/main/java/jkanvas/util/SnapshotList.java:170-189 | the referents of the compacted references are the compacted referents |
| WeakRefs.KeptDistinct | src/main/java/jkanvas/util/SnapshotList.java:170-189 | compaction keeps live values pairwise distinct |
| WeakRefs.FreshMembers | src/main/java/jkanvas/util/SnapshotList.java:191-202 | an element is appended exactly when it is pending and not already contained |
| WeakRefs.FreshStep | src/main/java/jkanvas/util/SnapshotList.java:196-202 | one iteration of the append loop: a contained element is skipped, any other is appended and becomes contained |
| WeakRefs.FreshAllNew | src/main/java/jkanvas/util/SnapshotList.java:196-202 | distinct pending elements that are all new are appended in insertion order |
| WeakRefs.FreshDistinct | src/main/java/jkanvas/util/SnapshotList.java:191-202 | appended elements are pairwise distinct and distinct from every contained value |
| WeakRefs.FreshSnoc | src/main/java/jkanvas/util/SnapshotList.java:196-202 | one more pending element is appended iff it is neither contained nor already pending: the first occurrence wins |
| WeakRefs.AppendFreshDistinct | src/main/java/jkanvas/util/SnapshotList.java:44-45 | appending the merged elements keeps each live element at most once in the list |
| WeakRefs.EmptyMergeNoChange | src/main/java/jkanvas/util/SnapshotList.java:190 | with nothing pending and no compaction `addAll` leaves the list as it was |
| WeakRefs.MergeKeepsEntries | src/main/java/jkanvas/util/SnapshotList.java:168-204 | without compaction no entry moves or disappears; with it the live entries stay in order; the tail is exactly the fresh elements |
| WeakRefs.MergeDistinct | src/main/java/jkanvas/util/SnapshotList.java:44-45 | `addAll` preserves "every live element appears once" |
| WeakRefs.CompactingMergeAllLive | src/main/java/jkanvas/util/SnapshotList.java:170-189 | after a compacting `addAll` no entry of the list is collected |
| SnapshotLists.SnapshotList.constructor | src/main/java/jkanvas/util/SnapshotList.java:28-42 | a new registry is empty, with nothing queued and no open snapshot |
| SnapshotLists.SnapshotList.Add | src/main/java/jkanvas/util/SnapshotList.java:49-54 | null throws and changes nothing; otherwise the element is queued at the end and the list is untouched |
| SnapshotLists.SnapshotList.AddAll | src/main/java/jkanvas/util/SnapshotList.java:168-204 | the list becomes `IsMerge` of its old references, referents and queue; the queue is emptied; every reference after the retained ones is a new object; live values stay pairwise distinct |
| SnapshotLists.SnapshotList.Merge | src/main/java/jkanvas/util/SnapshotList.java:190-203 | the non-compacting half of `addAll`: old entries stay, one new reference per fresh queued element, queue cleared |
| SnapshotLists.SnapshotList.Compact | src/main/java/jkanvas/util/SnapshotList.java:170-189 | the two-index in-place loop leaves exactly the live references, in order |
| SnapshotLists.SnapshotList.ContainedValues | src/main/java/jkanvas/util/SnapshotList.java:191-195 | the set built is the set of current referents, null included |
| SnapshotLists.SnapshotList.AppendFresh | src/main/java/jkanvas/util/SnapshotList.java:196-202 | appends, in queue order, a new reference for each queued element not yet contained or appended |
| SnapshotLists.SnapshotList.StartSnapshot | src/main/java/jkanvas/util/SnapshotList.java:207-214 | the count rises by one; opening the first snapshot runs `addAll(false)`, any later one changes nothing; live values stay distinct |
| SnapshotLists.SnapshotList.EndSnapshot | src/main/java/jkanvas/util/SnapshotList.java:222-228 | the count falls by one; while it stays positive nothing changes; at zero `addAll(gc)` runs, with the references it appends new objects; live values stay distinct |
| SnapshotLists.SnapshotList.GetSnapshot | src/main/java/jkanvas/util/SnapshotList.java:243-245 | a new open snapshot over the registry's own list, after the first-snapshot merge; live values stay distinct |
| SnapshotLists.SnapshotList.ActiveSnapshots | src/main/java/jkanvas/util/SnapshotList.java:252-254 | the count equals the number of snapshots open on this registry |
| SnapshotLists.Snapshot.constructor | src/main/java/jkanvas/util/SnapshotList.java:85-89 | registers the snapshot (`startSnapshot`) with `hasNull` false and the view fixed to the list as merged; live values stay distinct |
| SnapshotLists.Snapshot.EnsureOpen | src/main/java/jkanvas/util/SnapshotList.java:92-94 | succeeds iff the snapshot is not closed, else IllegalStateException |
| SnapshotLists.Snapshot.Get | src/main/java/jkanvas/util/SnapshotList.java:104-111 | closed throws IllegalState; an index outside the view throws IndexOutOfBounds; otherwise the referent at that position, and a null result sets `hasNull` |
| SnapshotLists.Snapshot.Size | src/main/java/jkanvas/util/SnapshotList.java:118-121 | closed throws IllegalState, otherwise the length of the frozen view |
| SnapshotLists.Snapshot.Iterator | src/main/java/jkanvas/util/SnapshotList.java:124-128 | closed throws IllegalState, otherwise a fresh iterator at position 0 over the same list |
| SnapshotLists.Snapshot.Close | src/main/java/jkanvas/util/SnapshotList.java:155-159 | closing twice changes nothing; the first close detaches the snapshot and ends it with `gc = hasNull`, merging when it was the last one, with appended references new objects; live values stay distinct |
| SnapshotLists.SnapshotIterator.constructor | src/main/java/jkanvas/util/SnapshotList.java:127-130 | the iterator starts at position 0 of the snapshot's content |
| SnapshotLists.SnapshotIterator.HasNext | src/main/java/jkanvas/util/SnapshotList.java:132-134 | while the snapshot is open, true iff elements of the view remain |
| SnapshotLists.SnapshotIterator.Next | src/main/java/jkanvas/util/SnapshotList.java:137-144 | past the end throws NoSuchElement; otherwise the referent at the position, which advances, and a null sets `hasNull` |
| SnapshotTraces.OpenOnTwo | src/main/java/jkanvas/util/SnapshotList.java:49-54 | adding two distinct elements and opening a snapshot shows both, in insertion order, each behind a new reference |
| SnapshotTraces.ReadThree | src/main/java/jkanvas/util/SnapshotList.java:104-111 | three reads of an open snapshot return its view's referents, IndexOutOfBounds past its end; `hasNull` is raised exactly when one of those reads returned null |
| SnapshotTraces.AddWhileOpen | src/main/java/jkanvas/util/SnapshotList.java:12-15 | after `add(c)` the open snapshot still has size 2, shows a and b, and has nothing at position 2 |
| SnapshotTraces.CloseAfterAdd | src/main/java/jkanvas/util/SnapshotList.java:155-159 | closing the only snapshot merges the queued c behind a and b |
| SnapshotTraces.OpenAndRead | src/main/java/jkanvas/util/SnapshotList.java:243-245 | with nothing open or queued, a new snapshot's size and reads are exactly the list's referents |
| SnapshotTraces.InsertionOrder | src/main/java/jkanvas/util/SnapshotList.java:12-15 | an element added while a snapshot is open is invisible to it (a, b, then IndexOutOfBounds) and the next snapshot shows a, b, c in order |
| SnapshotTraces.CollectedWhileOpen | src/main/java/jkanvas/util/SnapshotList.java:104-111 | a collected element reads as null; closing that snapshot compacts the list to empty |
| HudRenderpass.Padded | src/main/java/jkanvas/painter/HUDRenderpassAdapter.java:81-83 | the stored id is the given id with one space on each side |
| HudRenderpass.ContainsTransitive | src/main/java/jkanvas/painter/HUDRenderpassAdapter.java:91-98 | a substring of a substring is a substring |
| HudRenderpass.MatchesIffToken | src/main/java/jkanvas/painter/HUDRenderpassAdapter.java:91-98 | the two-part test `contains(id) && contains(" " + id + " ")` is equivalent to its second part alone |
| HudRenderpass.NothingMatchesInitially | src/main/java/jkanvas/painter/HUDRenderpassAdapter.java:78 | with the initial empty id string no id matches |
| HudRenderpass.OwnIdMatches | src/main/java/jkanvas/painter/HUDRenderpassAdapter.java:81-98 | after `setIds(s)` the id `s` matches |
| HudRenderpass.ToggleTwice | src/main/java/jkanvas/painter/HUDRenderpassAdapter.java:111-123 | two `visible:toggle` messages restore the visibility |
| HudRenderpass.SetMessagesIdempotent | src/main/java/jkanvas/painter/HUDRenderpassAdapter.java:111-123 | `visible:true` / `visible:false` are idempotent and independent of the prior state |
| HudRenderpass.HUDRenderpassAdapter.constructor | src/main/java/jkanvas/painter/HUDRenderpassAdapter.java:19-20 | a new pass is visible, and its id string is empty (line 78) |
| HudRenderpass.HUDRenderpassAdapter.SetVisible | src/main/java/jkanvas/painter/HUDRenderpassAdapter.java:27-34 | `isVisible` afterwards returns the value set |
| HudRenderpass.HUDRenderpassAdapter.IsVisible | src/main/java/jkanvas/painter/HUDRenderpassAdapter.java:31-34 | reports the visibility flag that `setVisible` and the messages write |
| HudRenderpass.HUDRenderpassAdapter.SetIds | src/main/java/jkanvas/painter/HUDRenderpassAdapter.java:81-88 | null throws NullPointer and keeps the ids; otherwise `getIds` returns the id padded with spaces |
| HudRenderpass.HUDRenderpassAdapter.ProcessMessage | src/main/java/jkanvas/painter/HUDRenderpassAdapter.java:111-123 | `visible:true` shows, `visible:false` hides, `visible:toggle` flips; any other message changes nothing |
| HudRenderpass.HUDRenderpassAdapter.ProcessMessageFor | src/main/java/jkanvas/painter/HUDRenderpassAdapter.java:91-98 | the message is processed once if some listed id matches the stored ids, and ignored otherwise |
| HudRenderpass.HUDRenderpassAdapter.GetIds | src/main/java/jkanvas/painter/HUDRenderpassAdapter.java:78-88 | the stored ids are `""` or space-padded, and the id they pad matches them |
| HudRenderpass.NoDispatchBeforeSetIds | src/main/java/jkanvas/painter/HUDRenderpassAdapter.java:78-98 | before any `setIds`, an id-addressed message never hides a new pass |
| Json.ExpectObject | src/main/java/jkanvas/io/json/JSONManager.java:25 | succeeds iff the element is an object, else throws |
| Json.JSONThunk.constructor | src/main/java/jkanvas/io/json/JSONManager.java:66 | a thunk belongs to the manager that made it |
| Json.JSONManager.constructor | src/main/java/jkanvas/io/json/JSONManager.java:15-41 | a new manager has no templates and no thunks |
| Json.JSONManager.AddTemplate | src/main/java/jkanvas/io/json/JSONManager.java:24-28 | a null element throws NullPointer, a non-object throws; otherwise the template is stored, and a name already present throws IllegalArgument after the store |
| Json.JSONManager.GetTemplate | src/main/java/jkanvas/io/json/JSONManager.java:36-38 | the stored template iff the name is present, else NullPointer |
| Json.JSONManager.SetForId | src/main/java/jkanvas/io/json/JSONManager.java:49-54 | a null id or thunk throws; a present id throws IllegalArgument; otherwise the thunk is stored under the id |
| Json.JSONManager.GetForId | src/main/java/jkanvas/io/json/JSONManager.java:63-69 | null throws; a present id returns its thunk unchanged; a missing id stores and returns a new unresolved thunk; every thunk returned belongs to this manager |
| Json.JSONManager.AddRawId | src/main/java/jkanvas/io/json/JSONManager.java:77-81 | null throws NullPointer; otherwise a new raw-object thunk is stored under the id, and an id already in use throws IllegalArgument after the store |
| Json.TemplateRoundTrip | src/main/java/jkanvas/io/json/JSONManager.java:24-38 | an object template added under a name is what `getTemplate` returns for it |
| Json.GetForIdTwice | src/main/java/jkanvas/io/json/JSONManager.java:49-81 | `getForId` twice returns the same thunk, and a later `addRawId` on that id throws IllegalArgument |
| FeatureTables.FirstCounted | src/main/java/jkanvas/table/FeatureTable.java:28-37 | the first feature with a non-negative row count; all before it are negative |
| FeatureTables.FirstCountedUnique | src/main/java/jkanvas/table/FeatureTable.java:28-37 | that position is the only one with this property |
| FeatureTables.FirstCountedSnoc | src/main/java/jkanvas/table/FeatureTable.java:29-34 | one more feature leaves the first counted position, becomes it if it is the first non-negative count, or moves it past the end |
| FeatureTables.ConsistentSnoc | src/main/java/jkanvas/table/FeatureTable.java:29-37 | one more feature keeps the row counts consistent iff it agrees with the first counted feature, if there is one |
| FeatureTables.ScanMeaning | src/main/java/jkanvas/table/FeatureTable.java:25-38 | the constructor's loop passes iff every feature after the first one with a non-negative count has exactly that count (negative counts are skipped only before it); the result is that count, or a negative value when there is no such feature; a failure is IllegalArgument |
| FeatureTables.ScanThrowStays | src/main/java/jkanvas/table/FeatureTable.java:29-37 | once the loop throws on a prefix, it throws on the whole array |
| FeatureTables.NonNegativeRows | src/main/java/jkanvas/table/FeatureTable.java:28-38 | with all row counts non-negative, the check is "all equal to the first" and the rows are the first feature's |
| FeatureTables.FeatureTable.constructor | src/main/java/jkanvas/table/FeatureTable.java:38-40 | stores the features, the row count and the caching flag |
| FeatureTables.FeatureTable.Create | src/main/java/jkanvas/table/FeatureTable.java:25-41 | null throws NullPointer; succeeds iff every feature after the first one with a non-negative count has exactly that count, else IllegalArgument; a success holds a fresh copy of the array |
| FeatureTables.FeatureTable.Rows | src/main/java/jkanvas/table/FeatureTable.java:44-46 | the common count of the counted features, never negative |
| FeatureTables.FeatureTable.Cols | src/main/java/jkanvas/table/FeatureTable.java:49-51 | the number of features |
| FeatureTables.FeatureTable.IsCaching | src/main/java/jkanvas/table/FeatureTable.java:68-71 | true iff every feature is table-caching |
| FeatureTables.FeatureTable.Cached | src/main/java/jkanvas/table/FeatureTable.java:73-76 | the table itself when every feature caches, otherwise the `super.cached()` result (None here) |

## Left out

- Garbage collection is not modelled as a process. A weak reference is cleared only when a client calls the explicit step `WeakRef.Clear`, and the model says nothing about when the collector runs.
- "Elements appear only once" is not part of the registry invariant `Valid`, because `Valid` reads no referent, so the collector step cannot break it. The property is stated instead as preserved by every operation that changes the list, and by `CollectKeepsDistinct` for the collector.
- Threads and `synchronized` are left out. The registry's methods run one at a time and are not interleaved.
- SnapshotLists.SnapshotList.ActiveSnapshots: the `snapshots` field is a Java `int`, but the model counts with an unbounded integer, so it does not model 2^31 nested snapshots wrapping around.
- `HashSet` hashing is left out. The set of contained referents is a mathematical set over value equality, standing in for `equals`.
- SnapshotLists.Snapshot.constructor: the public constructor accepts any list, but the model requires the registry's own list. That is the only way `getSnapshot` calls it, and it keeps the frozen-view invariant stateable.
- The iterator's `remove` (which always throws UnsupportedOperationException) is left out.
- SnapshotLists.SnapshotIterator.HasNext: like the source, it does not check whether the snapshot is closed. The contract only states the result while the snapshot is open.
- Overriding `processMessage` in subclasses is left out. The model shows the adapter's own behaviour.
- HudRenderpass.HUDRenderpassAdapter.ProcessMessageFor: a null id array, a null element and a null message would throw NullPointerException in Java. The model takes them as non-null values.
- The HUD's draw, click, tooltip and drag hooks (`HUDRenderpassAdapter.java:36-75`) are left out. They do nothing, or return false or null, and hold no state.
- `JSONElement` and `JSONThunk` internals are left out. An element is a handle plus an "is an object" flag, and a thunk records only its manager and whether it is unresolved or wraps a raw object.
- Json.ExpectObject: the exception this throws is defined outside the manager. It is modelled as a single `NotAnObject` exception.
- `JSONManager.fillObject` and the reflective setter calls it makes are not modelled.
- Json.JSONManager.SetForId: the private `setForId` accepts any thunk, but the model requires a non-null thunk to belong to this manager. Its only caller, `getForId` (`JSONManager.java:66`), passes `new JSONThunk(this)`, so the requirement always holds. It keeps the invariant "every bound thunk belongs to this manager" stateable.
- FeatureTables.FeatureTable.Create: null elements of the feature array would throw NullPointerException in Java. The model's array holds non-null features.
- FeatureTables.FeatureTable.Cached: `super.cached()` is not part of this model. When some feature does not cache it returns None.
- The `FeatureTable` accessors `getAt`, `getName`, `isCategorical`, `getFeature`, `getCachedValue` and `setCachedValue` are left out. They only forward to a feature.
- `CachedRenderpass`, `PresentationMain`, `PointMapper` and `EdgeRealizer` are left out. They are clients and neighbours of the modelled classes, not part of the core.
