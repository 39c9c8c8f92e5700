/**
 * The Pinecone vector-index service, seen only through the calls the ingestion
 * script makes: `list_indexes`, `create_index`, `Index(name)` and `upsert`.
 * The service is abstract state: the indexes that exist (with the parameters
 * they were created with), a log of creation calls and a log of upsert calls.
 */
module Pinecone {

  /** An embedding: the vector the embedding service returns for a text. */
  type Vector = seq<real>

  datatype IndexConfig = IndexConfig(dimension: int, metric: string, podType: string)

  datatype CreateCall = CreateCall(name: string, config: IndexConfig)

  /** One `index.upsert(id, values)` call. The script passes no namespace. */
  datatype UpsertCall = UpsertCall(index: string, id: string, values: Vector)

  /** `pinecone.Index(name)`: a handle that only names the index. */
  datatype IndexHandle = IndexHandle(name: string)

  /** The records an index holds after a log of upserts: each upsert to that
      index inserts its id or overwrites the vector stored under it. */
  function Stored(log: seq<UpsertCall>, index: string): map<string, Vector>
    decreases |log|
  {
    if log == [] then map[]
    else
      var prev := Stored(log[..|log| - 1], index);
      var last := log[|log| - 1];
      if last.index == index then prev[last.id := last.values] else prev
  }

  /** An index holds a record for an id exactly when some upsert to that
      index carried that id. */
  lemma {:induction false} StoredKeys(log: seq<UpsertCall>, index: string, id: string)
    ensures id in Stored(log, index) <==> exists i :: 0 <= i < |log| && log[i].index == index && log[i].id == id
    decreases |log|
  {
    if log != [] {
      var init := log[..|log| - 1];
      StoredKeys(init, index, id);
      if exists i :: 0 <= i < |init| && init[i].index == index && init[i].id == id {
        var i :| 0 <= i < |init| && init[i].index == index && init[i].id == id;
        assert log[i] == init[i];
      }
      if exists i :: 0 <= i < |log| && log[i].index == index && log[i].id == id {
        var i :| 0 <= i < |log| && log[i].index == index && log[i].id == id;
        if i < |init| { assert init[i] == log[i]; }
      }
    }
  }

  /** Last write wins: an id holds the values of the latest upsert of that id
      to that index. */
  lemma {:induction false} StoredLastWrite(log: seq<UpsertCall>, index: string, i: int)
    requires 0 <= i < |log| && log[i].index == index
    requires forall j :: i < j < |log| && log[j].index == index ==> log[j].id != log[i].id
    ensures log[i].id in Stored(log, index) && Stored(log, index)[log[i].id] == log[i].values
    decreases |log|
  {
    if i < |log| - 1 {
      StoredLastWrite(log[..|log| - 1], index, i);
    }
  }

  /** A log that upserts each id of `records` once, with its values, into
      `index` and nothing else leaves that index holding exactly `records`. */
  lemma StoredDistinct(log: seq<UpsertCall>, index: string, records: map<string, Vector>)
    requires forall i :: 0 <= i < |log| ==>
               log[i].index == index && log[i].id in records && log[i].values == records[log[i].id]
    requires forall i, j :: 0 <= i < j < |log| ==> log[i].id != log[j].id
    requires forall id :: id in records ==> exists i :: 0 <= i < |log| && log[i].id == id
    ensures Stored(log, index) == records
  {
    var stored := Stored(log, index);
    forall id | id in records ensures id in stored && stored[id] == records[id] {
      var i :| 0 <= i < |log| && log[i].id == id;
      StoredLastWrite(log, index, i);
    }
    forall id | id in stored ensures id in records {
      StoredKeys(log, index, id);
    }
  }

  /** Every vector among `records` has the given dimension. */
  ghost predicate OfDimension(records: map<string, Vector>, dimension: int) {
    forall id :: id in records ==> |records[id]| == dimension
  }

  /** When every upsert to an index carries a vector of one dimension, every
      vector the index holds has that dimension. */
  lemma {:induction false} StoredDimension(log: seq<UpsertCall>, index: string, dimension: int)
    requires forall i :: 0 <= i < |log| && log[i].index == index ==> |log[i].values| == dimension
    ensures OfDimension(Stored(log, index), dimension)
    decreases |log|
  {
    if log != [] {
      StoredDimension(log[..|log| - 1], index, dimension);
    }
  }

  /** An index that no upsert in the log names holds nothing. */
  lemma {:induction false} StoredUntouched(log: seq<UpsertCall>, index: string)
    requires forall i :: 0 <= i < |log| ==> log[i].index != index
    ensures Stored(log, index) == map[]
    decreases |log|
  {
    if log != [] {
      StoredUntouched(log[..|log| - 1], index);
    }
  }

  /** Upserting `log` and then `more` leaves the records of `log` overwritten
      by those of `more`. */
  lemma {:induction false} StoredAppend(log: seq<UpsertCall>, more: seq<UpsertCall>, index: string)
    ensures Stored(log + more, index) == Stored(log, index) + Stored(more, index)
    decreases |more|
  {
    if more == [] {
      assert log + more == log;
    } else {
      var init, last := more[..|more| - 1], more[|more| - 1];
      assert (log + more)[..|log + more| - 1] == log + init;
      assert (log + more)[|log + more| - 1] == last;
      assert more[..|more| - 1] == init;
      if last.index == index {
        calc {
          Stored(log + more, index);
          Stored(log + init, index)[last.id := last.values];
          { StoredAppend(log, init, index); }
          (Stored(log, index) + Stored(init, index))[last.id := last.values];
          Stored(log, index) + Stored(init, index)[last.id := last.values];
          Stored(log, index) + Stored(more, index);
        }
      } else {
        StoredAppend(log, init, index);
      }
    }
  }

  class Client {
    /** The indexes that exist, by name, with the parameters they were created with. */
    var indexes: map<string, IndexConfig>
    /** Every `create_index` call made through this client, in order. */
    var created: seq<CreateCall>
    /** Every `upsert` call made through this client, in order. */
    var upserts: seq<UpsertCall>

    /** Every logged upsert went to an index that exists and carried a
        vector of that index's dimension. */
    ghost predicate Valid()
      reads this
    {
      forall i :: 0 <= i < |upserts| ==>
        upserts[i].index in indexes && |upserts[i].values| == indexes[upserts[i].index].dimension
    }

    /** A client over a service that already holds `existing`. */
    constructor (existing: map<string, IndexConfig>)
      ensures Valid()
      ensures indexes == existing && created == [] && upserts == []
    {
      indexes := existing;
      created := [];
      upserts := [];
    }

    /** Every vector an index holds has the index's dimension. */
    lemma StoredFits(name: string)
      requires Valid() && name in indexes
      ensures OfDimension(Stored(upserts, name), indexes[name].dimension)
    {
      StoredDimension(upserts, name, indexes[name].dimension);
    }

    /** `pinecone.list_indexes()` */
    method ListIndexes() returns (names: set<string>)
      ensures names == indexes.Keys
    {
      names := indexes.Keys;
    }

    /** `pinecone.create_index(name, dimension=..., metric=..., pod_type=...)`;
        the service refuses a name that is already taken. */
    method CreateIndex(name: string, dimension: int, metric: string, podType: string)
      requires Valid()
      requires name !in indexes
      modifies this
      ensures Valid()
      ensures indexes == old(indexes)[name := IndexConfig(dimension, metric, podType)]
      ensures created == old(created) + [CreateCall(name, IndexConfig(dimension, metric, podType))]
      ensures upserts == old(upserts)
    {
      var config := IndexConfig(dimension, metric, podType);
      indexes := indexes[name := config];
      created := created + [CreateCall(name, config)];
    }

    /** `index.upsert(id, values)` on an index that exists. The service
        refuses a vector whose length is not the index's dimension; a refused
        call stores nothing. */
    method Upsert(index: IndexHandle, id: string, values: Vector) returns (accepted: bool)
      requires Valid()
      requires index.name in indexes
      modifies this
      ensures Valid()
      ensures indexes == old(indexes) && created == old(created)
      ensures accepted <==> |values| == indexes[index.name].dimension
      ensures upserts == if accepted then old(upserts) + [UpsertCall(index.name, id, values)] else old(upserts)
    {
      accepted := |values| == indexes[index.name].dimension;
      if accepted {
        upserts := upserts + [UpsertCall(index.name, id, values)];
      }
    }
  }
}
