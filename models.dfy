/**
 * The train entity of passenger_density/main/models.py: the density classifier
 * (`capacity_level`) and the `save` hook that clamps the capacity and appends a
 * Historicalrecord when a train at a station changes its capacity, density level
 * or station.
 *
 * The Django store is modelled by `TrainStore`: a map from primary key to the
 * stored train row, plus the append-only sequence of history records.
 */
module Models {
  import opened Wrappers

  /** Primary key of a Station row; `train.current_station` is a foreign key to one. */
  type StationId = int

  /** The density levels, in increasing order of occupancy. */
  datatype Level = Empty | Low | Medium | High

  /** Position of a level in the order Empty < Low < Medium < High. */
  function Rank(level: Level): nat
  {
    match level
    case Empty => 0
    case Low => 1
    case Medium => 2
    case High => 3
  }

  /** The text stored in `Historicalrecord.capacity_level` for a level. */
  function LevelName(level: Level): string
  {
    match level
    case Empty => "Empty"
    case Low => "Low"
    case Medium => "Medium"
    case High => "High"
  }

  /** Reads back the stored text of a level; any other text is no level. */
  function ParseLevel(text: string): (level: Option<Level>)
    ensures level.Some? ==> LevelName(level.value) == text
  {
    if text == "Empty" then Some(Empty)
    else if text == "Low" then Some(Low)
    else if text == "Medium" then Some(Medium)
    else if text == "High" then Some(High)
    else None
  }

  /**
   * `capacity_level` can be computed: either the capacity is not positive, or the
   * division by `max_capacity` does not divide by zero.
   */
  predicate LevelDefined(current: int, max: int)
  {
    current <= 0 || max != 0
  }

  /**
   * `capacity_level`: Empty when nobody is aboard, otherwise by the ratio
   * current/max against the thresholds 0.8 and 0.5. The ratio is computed
   * exactly, as a rational number.
   */
  function Classify(current: int, max: int): (level: Level)
    requires LevelDefined(current, max)
  {
    if current <= 0 then Empty
    else
      var density := current as real / max as real;
      if density >= 0.8 then High
      else if density >= 0.5 then Medium
      else Low
  }

  /** Clamps a capacity into [0, max] the way `save` does: first the lower bound, then the upper. */
  function Clamped(current: int, max: int): (c: int)
    ensures c <= max
    ensures max >= 0 ==> 0 <= c
    ensures 0 <= current <= max ==> c == current
    ensures c == current || c == 0 || c == max
    ensures current < 0 && max >= 0 ==> c == 0
    ensures current > max || max < 0 ==> c == max
  {
    var c := if current < 0 then 0 else current;
    if c > max then max else c
  }

  /** The persisted fields of a train row. */
  datatype TrainState = TrainState(
    trainId: int,
    maxCapacity: int,
    currentCapacity: int,
    currentStation: Option<StationId>,
    lastUpdated: int)
  {
    predicate HasLevel()
    {
      LevelDefined(currentCapacity, maxCapacity)
    }
  }

  /**
   * A Historicalrecord row. `train` is the primary key of the train row, `station`
   * the station's key and `capacityLevel` the level's text as stored.
   */
  datatype HistoricalRecord = HistoricalRecord(
    train: int,
    station: StationId,
    timestamp: int,
    passengerCount: int,
    capacityLevel: string)

  /**
   * The state `save` compares against: the stored row of the train's primary key,
   * or none when the train has no key yet or no row is stored under it.
   */
  function Prior(pk: Option<int>, rows: map<int, TrainState>): Option<TrainState>
  {
    if pk.Some? && pk.value in rows then Some(rows[pk.value]) else None
  }

  /**
   * The change test of `save`: capacity, level or station differ from the prior
   * stored state, each test also passing when there is no prior value.
   */
  predicate RelevantChange(prior: Option<TrainState>, saved: TrainState)
    requires saved.HasLevel()
    requires prior.Some? ==> prior.value.HasLevel()
  {
    var capacityChanged := prior.None? || saved.currentCapacity != prior.value.currentCapacity;
    var levelChanged := prior.None?
      || Classify(saved.currentCapacity, saved.maxCapacity) != Classify(prior.value.currentCapacity, prior.value.maxCapacity);
    var stationChanged := prior.None? || prior.value.currentStation.None? || saved.currentStation != prior.value.currentStation;
    capacityChanged || levelChanged || stationChanged
  }

  /** The record `save` appends for a train at a station. */
  function RecordOf(pk: int, saved: TrainState, now: int): HistoricalRecord
    requires saved.HasLevel() && saved.currentStation.Some?
  {
    HistoricalRecord(pk, saved.currentStation.value, now, saved.currentCapacity,
                     LevelName(Classify(saved.currentCapacity, saved.maxCapacity)))
  }

  /**
   * `save` as an explicit transition: from the prior stored state, the train as
   * the caller left it, the key it is stored under, the clock reading and the
   * history so far, to the state written and the history afterwards.
   */
  function SaveTransition(prior: Option<TrainState>, t: TrainState, pk: int, now: int, history: seq<HistoricalRecord>)
    : (r: (TrainState, seq<HistoricalRecord>))
    requires prior.Some? ==> prior.value.HasLevel()
    ensures r.0.currentCapacity <= r.0.maxCapacity
    ensures r.0.HasLevel()
  {
    var saved := t.(currentCapacity := Clamped(t.currentCapacity, t.maxCapacity));
    if saved.currentStation.None? then (saved, history)
    else if RelevantChange(prior, saved) then (saved, history + [RecordOf(pk, saved, now)])
    else (saved, history)
  }

  // ---------------------------------------------------------------------------
  // Properties of the classifier
  // ---------------------------------------------------------------------------

  /** The stored text of a level reads back as that level, so distinct levels are stored distinctly. */
  lemma LevelNameRoundTrip(level: Level)
    ensures ParseLevel(LevelName(level)) == Some(level)
  {
  }

  /** A train is Empty exactly when its capacity is not positive. */
  lemma EmptyIffNotPositive(current: int, max: int)
    requires LevelDefined(current, max)
    ensures Classify(current, max) == Empty <==> current <= 0
  {
  }

  /** The ratio compared with a threshold n/d, for a positive maximum, by cross-multiplication. */
  lemma RatioAtLeast(current: int, max: int, n: int, d: int)
    requires max > 0 && d > 0
    ensures current as real / max as real >= n as real / d as real <==> d * current >= n * max
  {
    var density := current as real / max as real;
    assert density * max as real == current as real;
    var threshold := n as real / d as real;
    assert threshold * d as real == n as real;
    if density >= threshold {
      assert density * (max * d) as real >= threshold * (max * d) as real;
      assert (d * current) as real == density * (max * d) as real;
      assert (n * max) as real == threshold * (max * d) as real;
    } else {
      assert density * (max * d) as real < threshold * (max * d) as real;
      assert (d * current) as real == density * (max * d) as real;
      assert (n * max) as real == threshold * (max * d) as real;
    }
  }

  /**
   * For a positive capacity and maximum, the level is fixed by the ratio's
   * thresholds, stated without division: High from 4/5 up, Medium from 1/2
   * below 4/5, Low below 1/2.
   */
  lemma ClassifyByCrossMultiplication(current: int, max: int)
    requires current > 0 && max > 0
    ensures Classify(current, max) == High <==> 5 * current >= 4 * max
    ensures Classify(current, max) == Medium <==> 2 * current >= max && 5 * current < 4 * max
    ensures Classify(current, max) == Low <==> 2 * current < max
  {
    RatioAtLeast(current, max, 4, 5);
    RatioAtLeast(current, max, 1, 2);
    assert 0.8 == 4 as real / 5 as real;
    assert 0.5 == 1 as real / 2 as real;
  }

  /** For a fixed positive maximum, more passengers never give a lower level. */
  lemma ClassifyMonotone(c1: int, c2: int, max: int)
    requires max > 0 && c1 <= c2
    ensures Rank(Classify(c1, max)) <= Rank(Classify(c2, max))
  {
    if c1 > 0 {
      ClassifyByCrossMultiplication(c1, max);
      ClassifyByCrossMultiplication(c2, max);
    }
  }

  /** A positive capacity over a negative maximum gives a negative ratio, below both thresholds. */
  lemma ClassifyNegativeMax(current: int, max: int)
    requires current > 0 && max < 0
    ensures Classify(current, max) == Low
  {
    var density := current as real / max as real;
    assert density * max as real == current as real;
    assert density < 0.0;
  }

  /** Concrete readings on a train of 1000 places. */
  lemma ClassifyExamples()
    ensures Classify(0, 1000) == Empty
    ensures Classify(500, 1000) == Medium
    ensures Classify(800, 1000) == High
    ensures Classify(799, 1000) == Medium
    ensures Classify(499, 1000) == Low
  {
    ClassifyByCrossMultiplication(500, 1000);
    ClassifyByCrossMultiplication(800, 1000);
    ClassifyByCrossMultiplication(799, 1000);
    ClassifyByCrossMultiplication(499, 1000);
  }

  // ---------------------------------------------------------------------------
  // Properties of the save transition
  // ---------------------------------------------------------------------------

  /**
   * The written state is the caller's train with the capacity clamped into
   * [0, max_capacity]; a capacity already in range is kept.
   */
  lemma SaveClamps(prior: Option<TrainState>, t: TrainState, pk: int, now: int, history: seq<HistoricalRecord>)
    requires prior.Some? ==> prior.value.HasLevel()
    requires t.maxCapacity >= 0
    ensures var saved := SaveTransition(prior, t, pk, now, history).0;
      && 0 <= saved.currentCapacity <= saved.maxCapacity
      && (0 <= t.currentCapacity <= t.maxCapacity ==> saved == t)
      && saved == t.(currentCapacity := saved.currentCapacity)
  {
  }

  /**
   * With a negative maximum the upper bound is applied last and wins: the
   * written capacity is the maximum itself, which is negative.
   */
  lemma SaveNegativeMaxStoresNegative(prior: Option<TrainState>, t: TrainState, pk: int, now: int, history: seq<HistoricalRecord>)
    requires prior.Some? ==> prior.value.HasLevel()
    requires t.maxCapacity < 0
    ensures var saved := SaveTransition(prior, t, pk, now, history).0;
      saved.currentCapacity == t.maxCapacity && saved.currentCapacity < 0
  {
  }

  /** A train with no station appends nothing to the history. */
  lemma SaveWithoutStationLogsNothing(prior: Option<TrainState>, t: TrainState, pk: int, now: int, history: seq<HistoricalRecord>)
    requires prior.Some? ==> prior.value.HasLevel()
    requires t.currentStation.None?
    ensures SaveTransition(prior, t, pk, now, history).1 == history
  {
  }

  /**
   * A train at a station gets exactly one new record when there is no prior
   * state or its capacity, level or station differs from the prior state, and
   * none otherwise; the record is the clamped capacity, its level's text and the
   * current station.
   */
  lemma SaveLogsIffChanged(prior: Option<TrainState>, t: TrainState, pk: int, now: int, history: seq<HistoricalRecord>)
    requires prior.Some? ==> prior.value.HasLevel()
    requires t.currentStation.Some?
    ensures var (saved, logged) := SaveTransition(prior, t, pk, now, history);
      var changed := prior.None?
        || saved.currentCapacity != prior.value.currentCapacity
        || Classify(saved.currentCapacity, saved.maxCapacity) != Classify(prior.value.currentCapacity, prior.value.maxCapacity)
        || saved.currentStation != prior.value.currentStation;
      && (changed ==> logged == history + [HistoricalRecord(pk, t.currentStation.value, now,
                                            saved.currentCapacity, LevelName(Classify(saved.currentCapacity, t.maxCapacity)))])
      && (!changed ==> logged == history)
  {
  }

  /** Every save keeps the history as a prefix and adds at most one record. */
  lemma SaveAppendsAtMostOne(prior: Option<TrainState>, t: TrainState, pk: int, now: int, history: seq<HistoricalRecord>)
    requires prior.Some? ==> prior.value.HasLevel()
    ensures var logged := SaveTransition(prior, t, pk, now, history).1;
      history <= logged && |logged| <= |history| + 1
  {
  }

  /** Saving again what was just saved, with nothing changed, leaves the history as it was. */
  lemma ResaveLogsNothing(prior: Option<TrainState>, t: TrainState, pk: int, now: int, later: int, history: seq<HistoricalRecord>)
    requires prior.Some? ==> prior.value.HasLevel()
    ensures var (saved, logged) := SaveTransition(prior, t, pk, now, history);
      SaveTransition(Some(saved), saved, pk, later, logged) == (saved, logged)
  {
  }

  /**
   * A change of capacity alone, with the level and the station as before, still
   * appends a record.
   */
  lemma CapacityOnlyChangeLogs(p: TrainState, t: TrainState, pk: int, now: int, history: seq<HistoricalRecord>)
    requires p.HasLevel()
    requires t.currentStation.Some? && t.currentStation == p.currentStation
    requires 0 <= t.currentCapacity <= t.maxCapacity && t.currentCapacity != p.currentCapacity
    ensures |SaveTransition(Some(p), t, pk, now, history).1| == |history| + 1
  {
  }

  // ---------------------------------------------------------------------------
  // The store and the train object
  // ---------------------------------------------------------------------------

  /**
   * Some row other than the one under `pk` already holds `trainId`: writing the
   * train would break the `unique=True` constraint on `train_id`.
   */
  predicate IdTaken(rows: map<int, TrainState>, pk: Option<int>, trainId: int)
  {
    exists k :: k in rows && pk != Some(k) && rows[k].trainId == trainId
  }

  /**
   * The persistent store: train rows by primary key, the history table, and the
   * next key the store hands out to a train saved for the first time.
   */
  class TrainStore {
    var rows: map<int, TrainState>
    var history: seq<HistoricalRecord>
    var nextPk: int

    /**
     * Every key in use is below the next fresh key, every stored row has a
     * computable level, and no two rows share a train id.
     */
    ghost predicate Valid()
      reads this
    {
      && (forall k :: k in rows ==> k < nextPk && rows[k].HasLevel())
      && (forall k1, k2 :: k1 in rows && k2 in rows && rows[k1].trainId == rows[k2].trainId ==> k1 == k2)
    }

    constructor ()
      ensures Valid()
      ensures rows == map[] && history == []
    {
      rows := map[];
      history := [];
      nextPk := 1;
    }

    /**
     * Writes a row under its key, or under a fresh key when it has none, and
     * returns the key used. The database accepts only a row whose train id no
     * other row holds.
     */
    method Write(pk: Option<int>, row: TrainState) returns (key: int)
      requires Valid() && row.HasLevel()
      requires !IdTaken(rows, pk, row.trainId)
      modifies this
      ensures Valid()
      ensures pk.Some? ==> key == pk.value
      ensures pk.None? ==> key !in old(rows)
      ensures rows == old(rows)[key := row] && history == old(history)
    {
      if pk.Some? {
        key := pk.value;
      } else {
        key := nextPk;
      }
      rows := rows[key := row];
      if key >= nextPk {
        nextPk := key + 1;
      }
    }

    /** Appends one record to the history table. */
    method CreateRecord(record: HistoricalRecord)
      requires Valid()
      modifies this
      ensures Valid()
      ensures history == old(history) + [record] && rows == old(rows)
    {
      history := history + [record];
    }
  }

  /** The `default=` of `max_capacity`: the capacity of an LRT-2 train. */
  const DefaultMaxCapacity: int := 1600

  /** The `default=` of `current_capacity`. */
  const DefaultCurrentCapacity: int := 0

  /** A train object as the caller holds it: its key (none until first saved) and its fields. */
  class Train {
    var pk: Option<int>
    var trainId: int
    var maxCapacity: int
    var currentCapacity: int
    var currentStation: Option<StationId>
    var lastUpdated: int

    /**
     * `train(train_id=..., ...)`: a field left out (None) takes its model
     * default; `last_updated` defaults to the clock reading `now`.
     */
    constructor (trainId: int, maxCapacity: Option<int>, currentCapacity: Option<int>,
                 currentStation: Option<StationId>, lastUpdated: Option<int>, now: int)
      ensures pk == None
      ensures this.trainId == trainId && this.currentStation == currentStation
      ensures this.maxCapacity == if maxCapacity.Some? then maxCapacity.value else DefaultMaxCapacity
      ensures this.currentCapacity == if currentCapacity.Some? then currentCapacity.value else DefaultCurrentCapacity
      ensures this.lastUpdated == if lastUpdated.Some? then lastUpdated.value else now
    {
      this.pk := None;
      this.trainId := trainId;
      this.maxCapacity := if maxCapacity.Some? then maxCapacity.value else DefaultMaxCapacity;
      this.currentCapacity := if currentCapacity.Some? then currentCapacity.value else DefaultCurrentCapacity;
      this.currentStation := currentStation;
      this.lastUpdated := if lastUpdated.Some? then lastUpdated.value else now;
    }

    /** The fields of this object as a row. */
    function State(): TrainState
      reads this
    {
      TrainState(trainId, maxCapacity, currentCapacity, currentStation, lastUpdated)
    }

    /**
     * The `capacity_level` property: Empty exactly when nobody is aboard; for a
     * positive maximum, High from 4/5 of it, Medium from 1/2 below 4/5, Low
     * below 1/2; for a negative maximum the ratio is negative, so Low.
     */
    function CapacityLevel(): (level: Level)
      reads this
      requires LevelDefined(currentCapacity, maxCapacity)
      ensures level == Empty <==> currentCapacity <= 0
      ensures currentCapacity > 0 && maxCapacity > 0 ==>
        && (level == High <==> 5 * currentCapacity >= 4 * maxCapacity)
        && (level == Medium <==> 2 * currentCapacity >= maxCapacity && 5 * currentCapacity < 4 * maxCapacity)
        && (level == Low <==> 2 * currentCapacity < maxCapacity)
      ensures currentCapacity > 0 && maxCapacity < 0 ==> level == Low
    {
      if currentCapacity > 0 && maxCapacity > 0 then
        ClassifyByCrossMultiplication(currentCapacity, maxCapacity);
        Classify(currentCapacity, maxCapacity)
      else if currentCapacity > 0 then
        ClassifyNegativeMax(currentCapacity, maxCapacity);
        Classify(currentCapacity, maxCapacity)
      else
        Classify(currentCapacity, maxCapacity)
    }

    /**
     * `save`: clamp the capacity, read the prior stored row, write this train,
     * then, if the train is at a station and its capacity, level or station
     * changed against the prior row, append a record of it. When another row
     * already holds this train id, the write fails (`IntegrityError`): `ok` is
     * false, the object keeps its clamped capacity and the store is untouched.
     */
    method Save(store: TrainStore, now: int) returns (ok: bool)
      requires store.Valid()
      modifies this, store
      ensures store.Valid()
      ensures ok <==> !IdTaken(old(store.rows), old(pk), old(trainId))
      ensures !ok ==>
        && pk == old(pk)
        && State() == old(State()).(currentCapacity := Clamped(old(currentCapacity), old(maxCapacity)))
        && unchanged(store)
      ensures ok ==> pk.Some? && (old(pk).Some? ==> pk == old(pk))
      ensures ok && old(pk).None? ==> pk.value !in old(store.rows)
      ensures ok ==>
        var (saved, logged) := SaveTransition(Prior(old(pk), old(store.rows)), old(State()), pk.value, now, old(store.history));
        && State() == saved
        && store.rows == old(store.rows)[pk.value := saved]
        && store.history == logged
    {
      if currentCapacity < 0 {
        currentCapacity := 0;
      }
      if currentCapacity > maxCapacity {
        currentCapacity := maxCapacity;
      }
      var prior := Prior(pk, store.rows);
      if IdTaken(store.rows, pk, trainId) {
        return false;
      }
      var key := store.Write(pk, State());
      pk := Some(key);
      ok := true;
      if currentStation.None? {
        return;
      }
      var capacityChanged := prior.None? || currentCapacity != prior.value.currentCapacity;
      var levelChanged := prior.None?
        || CapacityLevel() != Classify(prior.value.currentCapacity, prior.value.maxCapacity);
      var stationChanged := prior.None? || prior.value.currentStation.None? || currentStation != prior.value.currentStation;
      if capacityChanged || levelChanged || stationChanged {
        store.CreateRecord(HistoricalRecord(key, currentStation.value, now, currentCapacity, LevelName(CapacityLevel())));
      }
    }
  }
}
