# Passenger density: trains, history log and report utilities

This project models the core of a light-rail passenger-density simulator
written in Python/Django (`passenger_density/main`). Two parts are modelled:

- **The train entity** (`models.py`), in `models.dfy`, module `Models`:
  - the density classifier `capacity_level` (Empty / Low / Medium / High);
  - the `save` hook. It clamps the capacity into `[0, max_capacity]`, writes
    the row, and appends a `Historicalrecord` when the train is at a station
    and its capacity, level or station differs from the stored row.
  - `save` appears twice: as the pure transition `SaveTransition`, and as the
    method `Train.Save` on a `Train` object and a `TrainStore`. The store is
    rows by primary key plus the append-only history. The method is proved to
    perform exactly that transition.
- **The algorithmic utilities** (`data.py`):
  - the linked FIFO `Queue` of train ids (`queues.dfy`, module `Queues`);
  - the stable, descending `merge_sort`/`merge` (`sorting.dfy`, module `Sorting`);
  - `linear_search` (`search.dfy`, module `Search`);
  - `TrainHashTable` (`registry.dfy`, module `Registry`).

`wrappers.dfy` holds the `Option` type, which stands for Python's `None`.

Modelling choices:

- Sort keys are pairs of integers compared lexicographically, as Python
  compares 2-tuples such as (level score, passenger count). An integer key
  `k` is the pair `(k, 0)`.
- Stability is stated per key value: for every key `v`, the items with key `v`
  appear in the output in their input order (`WithKey`). With sortedness, this
  fixes the result uniquely (`StableSortUnique`).
- The classifier computes the ratio exactly, as a Dafny `real` (a rational).
  For a positive maximum, this is proved equal to integer cross-multiplication:
  High iff `5*cur >= 4*max`, Medium iff `2*cur >= max` and `5*cur < 4*max`.
  So a reading of 799 out of 1000 is Medium, not Low: 0.799 is at least 0.5.
- `linear_search` sees each Python value through `Search.Value`: its
  truthiness and its `str()` text. This covers the falsy-term pass-through
  (`if not search_term`) and the `val and ...` guard.
- Station references are station primary keys, since Django compares model
  instances by primary key.
- The `unique=True` constraint on `train_id` is part of the store's
  invariant. A `save` that would give a second row the same train id fails
  before anything is written or logged, as Django's `IntegrityError` does;
  `Train.Save` reports this as `ok == false`.
- The clamp applies the lower bound first and the upper bound last. With a
  negative `max_capacity` the stored capacity is therefore that negative
  maximum (`SaveNegativeMaxStoresNegative`); the bound `0 <= capacity` holds
  only for a non-negative maximum (`SaveClamps`). The model follows the code.

## Model

| member | source | states |
|---|---|---|
| `Models.LevelNameRoundTrip` | passenger_density/main/models.py:98 | the text stored for a level reads back as that level, so distinct levels are stored as distinct texts |
| `Models.EmptyIffNotPositive` | passenger_density/main/models.py:36-37 | the level is Empty exactly when the current capacity is at most 0 |
| `Models.ClassifyByCrossMultiplication` | passenger_density/main/models.py:39-45 | for positive capacity and maximum: High iff ratio >= 0.8 (5*cur >= 4*max); Medium iff 0.5 <= ratio < 0.8; Low iff ratio < 0.5 |
| `Models.ClassifyMonotone` | passenger_density/main/models.py:35-45 | for a fixed positive maximum, a larger capacity never gives a lower level in Empty < Low < Medium < High |
| `Models.Classify` | passenger_density/main/models.py:34-45 | the classifier itself; its meaning is stated by `EmptyIffNotPositive`, `ClassifyByCrossMultiplication`, `ClassifyNegativeMax` and `ClassifyMonotone` |
| `Models.ClassifyNegativeMax` | passenger_density/main/models.py:39-45 | a positive capacity over a negative maximum gives a negative ratio, hence Low |
| `Models.ClassifyExamples` | passenger_density/main/models.py:35-45 | 0/1000 Empty, 500/1000 Medium, 800/1000 High, 799/1000 Medium, 499/1000 Low |
| `Models.Clamped` | passenger_density/main/models.py:53-56 | a capacity below 0 becomes 0 (for max >= 0), a capacity above max, or any capacity when max < 0, becomes max, and an in-range capacity is unchanged; so the result is at most max, and at least 0 when max >= 0 |
| `Models.SaveTransition` | passenger_density/main/models.py:47-91 | the written capacity never exceeds the maximum, so the written state always has a computable level |
| `Models.SaveClamps` | passenger_density/main/models.py:53-56 | after save, 0 <= current_capacity <= max_capacity; an in-range train is written unchanged; only the capacity field can change |
| `Models.SaveNegativeMaxStoresNegative` | passenger_density/main/models.py:52-56 | with a negative maximum the written capacity is that maximum, below zero, since the upper bound is applied last |
| `Models.SaveWithoutStationLogsNothing` | passenger_density/main/models.py:75-77 | a train with no current station appends no record |
| `Models.SaveLogsIffChanged` | passenger_density/main/models.py:79-91 | with a station: exactly one record is appended iff there is no prior state or capacity, level or station differ from it, otherwise none; the record holds the train key, the station, the clock reading, the clamped count and the text of its level |
| `Models.SaveAppendsAtMostOne` | passenger_density/main/models.py:84-91 | the old history is a prefix of the new one, which is at most one record longer |
| `Models.ResaveLogsNothing` | passenger_density/main/models.py:58-91 | saving again the state just written, with nothing changed, returns the same state and leaves the history exactly as it was |
| `Models.CapacityOnlyChangeLogs` | passenger_density/main/models.py:80-84 | a change of capacity alone, at the same station, still appends a record |
| `Models.TrainStore.Write` | passenger_density/main/models.py:24 | accepted only when no other row holds the train id; the row is stored under its own key, or under a key not yet used when it has none; the history is untouched; ids stay unique |
| `Models.TrainStore.CreateRecord` | passenger_density/main/models.py:85-91 | the history gains exactly the given record at its end; the rows are untouched |
| `Models.Train.constructor` | passenger_density/main/models.py:23-28 | a new train object has no key and holds the given fields; an omitted maximum is 1600, an omitted capacity 0, an omitted station none, an omitted `last_updated` the clock reading |
| `Models.Train.CapacityLevel` | passenger_density/main/models.py:34-45 | Empty iff the capacity is at most 0; for a positive capacity and maximum, High iff 5*cur >= 4*max, Medium iff 2*cur >= max and 5*cur < 4*max, Low iff 2*cur < max; Low for a positive capacity over a negative maximum |
| `Models.Train.Save` | passenger_density/main/models.py:47-91 | fails, writing and logging nothing, exactly when another stored row holds the train id; otherwise the object keeps or gets a key, and its new fields, the row stored under its key and the new history are exactly those of `SaveTransition` from the prior state (the row stored under the object's key, or none when there is no key or no such row); other rows are unchanged |
| `Queues.TrainNode.constructor` | passenger_density/main/data.py:2-5 | a new node holds the given id and the given successor (`push` passes none) |
| `Queues.Queue.constructor` | passenger_density/main/data.py:17-20 | a new queue is valid and empty |
| `Queues.Queue.IsEmpty` | passenger_density/main/data.py:22-23 | true exactly when the queue holds no ids |
| `Queues.Queue.GetSize` | passenger_density/main/data.py:49-50 | the size counter equals the number of queued ids |
| `Queues.Queue.EmptyIffNoHead` | passenger_density/main/data.py:17-23 | size is 0 iff head is None iff tail is None iff the queue holds nothing |
| `Queues.Queue.Push` | passenger_density/main/data.py:25-34 | the contents become the old contents with the id appended; size grows by one; the list stays well linked |
| `Queues.Queue.Pop` | passenger_density/main/data.py:36-47 | on an empty queue: returns None and changes nothing; otherwise returns the first id, keeps the rest in order, decrements size, and clears tail when the queue becomes empty |
| `Queues.Queue.GetAllItems` | passenger_density/main/data.py:53-59 | walking from head yields exactly the queued ids, in order |
| `Queues.PushAllThenPopAll` | passenger_density/main/data.py:25-47 | pushing ids then popping until empty yields the ids in push order, and the final pop on the empty queue gives None |
| `Sorting.MergeSort` | passenger_density/main/data.py:63-75 | the result is a permutation of the input, non-increasing by key, and for every key the items with that key keep their input order |
| `Sorting.Merge` | passenger_density/main/data.py:77-95 | the loop with the two leftover tails computes the recursive merge `Merged` |
| `Sorting.MergedPermutation` | passenger_density/main/data.py:77-95 | merging loses and invents nothing: the result's multiset is the union of both inputs' |
| `Sorting.MergedSorted` | passenger_density/main/data.py:80-95 | merging two non-increasing sequences gives a non-increasing sequence |
| `Sorting.MergedStable` | passenger_density/main/data.py:86-88 | for each key, the merge puts the left side's items with that key, in order, before the right side's |
| `Sorting.StableSortUnique` | passenger_density/main/data.py:63-95 | two sequences that are both non-increasing and agree, key by key, on the order of the items are equal, so the sort matches any stable descending sort |
| `Sorting.SortedInputUnchanged` | passenger_density/main/data.py:63-95 | an already non-increasing input is returned unchanged |
| `Sorting.MergeSortIdempotent` | passenger_density/main/data.py:63-95 | sorting a sorted result again changes nothing |
| `Sorting.MergeSortDependsOnlyOnKeyClasses` | passenger_density/main/data.py:63-95 | inputs with the same items in the same order within each key give the same result |
| `Search.Lower` | passenger_density/main/data.py:108 | lower-casing keeps the length and maps each character to its lower-case form |
| `Search.LinearSearch` | passenger_density/main/data.py:100-116 | a falsy term returns the input unchanged; otherwise the result is the in-order filter of the items whose attribute is truthy and contains the lowered term |
| `Search.ContainsIffOccurs` | passenger_density/main/data.py:113 | the substring test holds exactly when the term occurs at some position of the text |
| `Search.MatchingConcat` | passenger_density/main/data.py:110-116 | the result of a concatenation is the concatenation of the results, so the matches keep their input order |
| `Search.MatchingMembers` | passenger_density/main/data.py:110-116 | an item is in the result iff it is in the input and its attribute matches |
| `Search.MatchingExtremes` | passenger_density/main/data.py:110-116 | if every item matches the result is the whole input; if none does it is empty |
| `Search.SearchIgnoresTermCase` | passenger_density/main/data.py:108 | a term and its lower-case form select the same items |
| `Search.SearchIgnoresTextCase` | passenger_density/main/data.py:113 | lower-casing an attribute's text does not change whether it matches |
| `Registry.IndexedKeys` | passenger_density/main/data.py:122-125 | an id is in the built table iff some train in the list has it |
| `Registry.IndexedLastWins` | passenger_density/main/data.py:122-125 | an id in the built table maps to the last train in the list with that id |
| `Registry.TrainHashTable.constructor` | passenger_density/main/data.py:119-120 | a new table is empty |
| `Registry.TrainHashTable.Get` | passenger_density/main/data.py:127-128 | the lookup; what it returns after a build is stated by `BuildFromQueryset` |
| `Registry.TrainHashTable.BuildFromQueryset` | passenger_density/main/data.py:122-128 | after the build, `get(id)` is None iff no train has that id, and otherwise is the last train in the list with that id |

## Left out

- Django persistence (`train.objects.get`, `super().save`,
  `Historicalrecord.objects.create`) is replaced by `TrainStore`: a map of rows
  plus a history sequence. The database's key allocation is abstracted as a
  counter that hands out a key not yet used.
- Clock readings (`timezone.now()`) are an integer parameter `now`.
  `last_updated` is an opaque integer.
- `time_str`, `date_str` and all `__str__` methods: text formatting only.
- The `Account` and `Station` models: only station keys are used. `admin.py`,
  `urls.py` and `views.py` (routing, admin set-up, template rendering).
- Floating point: the ratio is compared exactly. An IEEE double can only
  disagree near a threshold with a denominator above about 10^15, far beyond
  any train capacity.
- Models.Classify: requires a positive capacity to come with a non-zero
  maximum. In Python the other case raises `ZeroDivisionError`; the model
  excludes it instead of modelling the exception.
- Models.Train.CapacityLevel: has the same requirement as `Classify`, for the
  same reason; the `ZeroDivisionError` of the property is not modelled.
- Models.Train.constructor: `train_id` has no default in the source; the model
  always takes one, so a train saved without an id is not modelled.
- Models.Train.Save: the `*args, **kwargs` forwarded to Django's `save`
  (`update_fields`, `force_insert` and the like) are not modelled; the whole row
  is always written.
- Models.Train.Save: requires every stored row to have a computable level, so
  that reading the prior row's level cannot divide by zero.
- Queues.TrainNode: the default `train_id=None` is not modelled; every node
  holds an integer id, as `push` always supplies one.
- Queues.TrainNode: the accessors `set_next`, `get_train_id` and `get_next` are
  plain field reads and writes.
- Sorting.MergeSort: keys are pairs of integers. Other key types Python can
  compare, such as strings, datetimes or longer tuples, are not modelled.
- Search.Lower: only the letters A to Z are lower-cased. Python's Unicode case
  mapping is not modelled.
- Search.LinearSearch: the attribute extractor and the term are given as
  `Value`s. `str()` of an arbitrary Python object is not modelled.
- `views.py` defines only `home`. The views that `urls.py:24-30` routes to
  (`advance_trains`, `reset_trains_to_start`, `update_capacity`, the daily
  report views and `snapshot_all_trains`) are not defined in it, so there is
  no code for them to model.
- Registry.TrainHashTable: the entries are train rows (values), not references
  to the train objects of the list, so the aliasing between what `get` returns
  and the objects in the list is not modelled.
