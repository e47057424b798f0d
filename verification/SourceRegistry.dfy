/** The registry of source files (project.rs) on mutable state, against `RegistryModel`. */
module SourceRegistry {
  import opened Common
  import opened RegistryModel
  import Model = RegistryModel

  class SourceFiles {
    var nextId: FileId
    var idsByKey: map<SourceKey, FileId>
    var keysById: map<FileId, SourceKey>

    constructor ()
      ensures State() == EMPTY && Valid(State())
    {
      nextId, idsByKey, keysById := 0, map[], map[];
    }

    ghost function State(): Registry
      reads this
    {
      Registry(nextId, idsByKey, keysById)
    }

    method EnsureFileId(key: SourceKey) returns (id: FileId)
      modifies this
      ensures (id, State()) == Model.EnsureFileId(old(State()), key)
      ensures old(Valid(State())) ==> (Valid(State()) <==> old(Safe(State(), Ensure(key))))
    {
      if old(Valid(State())) {
        ValidIffSafe(State(), Ensure(key));
      }
      if key in idsByKey {
        return idsByKey[key];
      }
      id := nextId;
      nextId := Successor(nextId);
      idsByKey := idsByKey[key := id];
      keysById := keysById[id := key];
    }

    method InsertWithId(key: SourceKey, wanted: FileId) returns (id: FileId)
      modifies this
      ensures (id, State()) == Model.InsertWithId(old(State()), key, wanted)
      ensures old(Valid(State())) ==> (Valid(State()) <==> old(Safe(State(), Insert(key, wanted))))
    {
      if old(Valid(State())) {
        ValidIffSafe(State(), Insert(key, wanted));
      }
      if key in idsByKey {
        return idsByKey[key];
      }
      if wanted in keysById {
        id := EnsureFileId(key);
        return;
      }
      nextId := Larger(nextId, Successor(wanted));
      idsByKey := idsByKey[key := wanted];
      keysById := keysById[wanted := key];
      id := wanted;
    }

    method Remove(key: SourceKey) returns (id: Option<FileId>)
      modifies this
      ensures (id, State()) == Model.Remove(old(State()), key)
      ensures old(Valid(State())) ==> Valid(State())
    {
      if key !in idsByKey {
        return None;
      }
      id := Some(idsByKey[key]);
      idsByKey := idsByKey - {key};
      keysById := keysById - {id.value};
    }

    method Clear()
      modifies this
      ensures State() == EMPTY
    {
      nextId, idsByKey, keysById := 0, map[], map[];
    }
  }
}
