/**
 * `TrainHashTable` of passenger_density/main/data.py: a table from train_id to
 * train, rebuilt from a list of trains on each use, where a later train with
 * the same id replaces an earlier one.
 */
module Registry {
  import opened Wrappers
  import opened Models

  /** The table after storing `trains` one by one, each under its train_id. */
  function Indexed(trains: seq<TrainState>): map<int, TrainState>
  {
    if trains == [] then map[]
    else
      var last := trains[|trains| - 1];
      Indexed(trains[..|trains| - 1])[last.trainId := last]
  }

  /** Position i holds a train with id `trainId` and no later position does. */
  ghost predicate LastWithId(trains: seq<TrainState>, trainId: int, i: int)
  {
    0 <= i < |trains| && trains[i].trainId == trainId
    && forall j :: i < j < |trains| ==> trains[j].trainId != trainId
  }

  /** An id is in the table exactly when some train in the list has it. */
  lemma {:induction false} IndexedKeys(trains: seq<TrainState>, trainId: int)
    ensures trainId in Indexed(trains) <==> exists i :: 0 <= i < |trains| && trains[i].trainId == trainId
  {
    if trains != [] {
      var n := |trains| - 1;
      IndexedKeys(trains[..n], trainId);
      if exists i :: 0 <= i < |trains| && trains[i].trainId == trainId {
        var i :| 0 <= i < |trains| && trains[i].trainId == trainId;
        assert i < n ==> trains[..n][i].trainId == trainId;
      }
    }
  }

  /**
   * An id in the table maps to the last train in the list with that id: the
   * last write wins.
   */
  lemma {:induction false} IndexedLastWins(trains: seq<TrainState>, trainId: int)
    requires trainId in Indexed(trains)
    ensures exists i :: LastWithId(trains, trainId, i) && Indexed(trains)[trainId] == trains[i]
  {
    var n := |trains| - 1;
    if trains[n].trainId == trainId {
      assert LastWithId(trains, trainId, n);
    } else {
      var init := trains[..n];
      IndexedLastWins(init, trainId);
      var i :| LastWithId(init, trainId, i) && Indexed(init)[trainId] == init[i];
      assert LastWithId(trains, trainId, i);
    }
  }

  class TrainHashTable {
    var table: map<int, TrainState>

    constructor ()
      ensures table == map[]
    {
      table := map[];
    }

    /** `build_from_queryset`: clear the table, then store each train under its id in order. */
    method BuildFromQueryset(trains: seq<TrainState>)
      modifies this
      ensures table == Indexed(trains)
      ensures forall trainId :: Get(trainId).None? <==> forall i :: 0 <= i < |trains| ==> trains[i].trainId != trainId
      ensures forall trainId :: Get(trainId).Some? ==> exists i :: LastWithId(trains, trainId, i) && Get(trainId).value == trains[i]
    {
      table := map[];
      for k := 0 to |trains|
        invariant table == Indexed(trains[..k])
      {
        table := table[trains[k].trainId := trains[k]];
        assert trains[..k + 1][..k] == trains[..k];
      }
      assert trains[..|trains|] == trains;
      forall trainId
        ensures Get(trainId).None? <==> forall i :: 0 <= i < |trains| ==> trains[i].trainId != trainId
        ensures Get(trainId).Some? ==> exists i :: LastWithId(trains, trainId, i) && Get(trainId).value == trains[i]
      {
        IndexedKeys(trains, trainId);
        if trainId in table {
          IndexedLastWins(trains, trainId);
        }
      }
    }

    /** `get`: the train stored under the id, or None. */
    function Get(trainId: int): Option<TrainState>
      reads this
    {
      if trainId in table then Some(table[trainId]) else None
    }
  }
}
