/**
 * The specification of the registry of source files (project.rs, `SourceRegistry`): two maps kept inverse to each
 * other, with ids handed out from a counter that saturates at the largest `u32`.
 */
module RegistryModel {
  import opened Common

  const U32_MAX := 0xFFFF_FFFF

  type FileId = x: int | 0 <= x <= 0xFFFF_FFFF

  datatype SourceKey = Path(path: string) | Virtual(name: string)

  datatype Registry = Registry(nextId: FileId, idsByKey: map<SourceKey, FileId>, keysById: map<FileId, SourceKey>)

  const EMPTY := Registry(0, map[], map[])

  function Successor(id: FileId): FileId
  {
    if id < U32_MAX then id + 1 else U32_MAX
  }

  function Larger(a: FileId, b: FileId): FileId
  {
    if a < b then b else a
  }

  function Record(r: Registry, key: SourceKey, id: FileId): Registry
  {
    r.(idsByKey := r.idsByKey[key := id], keysById := r.keysById[id := key])
  }

  function EnsureFileId(r: Registry, key: SourceKey): (FileId, Registry)
  {
    if key in r.idsByKey then (r.idsByKey[key], r)
    else (r.nextId, Record(r.(nextId := Successor(r.nextId)), key, r.nextId))
  }

  function InsertWithId(r: Registry, key: SourceKey, id: FileId): (FileId, Registry)
  {
    if key in r.idsByKey then (r.idsByKey[key], r)
    else if id in r.keysById then EnsureFileId(r, key)
    else (id, Record(r.(nextId := Larger(r.nextId, Successor(id))), key, id))
  }

  function Remove(r: Registry, key: SourceKey): (Option<FileId>, Registry)
  {
    if key in r.idsByKey then
      var id := r.idsByKey[key];
      (Some(id), r.(idsByKey := r.idsByKey - {key}, keysById := r.keysById - {id}))
    else (None, r)
  }

  // ----- The invariant, and when the saturating counter breaks it -----

  /** The maps are inverse to each other. */
  ghost predicate Inverse(r: Registry)
  {
    && (forall k :: k in r.idsByKey ==> r.idsByKey[k] in r.keysById && r.keysById[r.idsByKey[k]] == k)
    && (forall i :: i in r.keysById ==> r.keysById[i] in r.idsByKey && r.idsByKey[r.keysById[i]] == i)
  }

  ghost predicate Valid(r: Registry)
  {
    Inverse(r) && forall i :: i in r.keysById ==> i < r.nextId
  }

  /** What keeps the registry valid: a fresh key must find the counter, or its own id, below the top. */
  predicate Safe(r: Registry, op: Operation)
  {
    match op
    case Ensure(key) => key in r.idsByKey || r.nextId < U32_MAX
    case Insert(key, id) => key in r.idsByKey || (if id in r.keysById then r.nextId < U32_MAX else id < U32_MAX)
    case Delete(_) => true
    case Clear => true
  }

  datatype Operation = Ensure(key: SourceKey) | Insert(key: SourceKey, id: FileId) | Delete(key: SourceKey) | Clear

  function Apply(r: Registry, op: Operation): Registry
  {
    match op
    case Ensure(key) => EnsureFileId(r, key).1
    case Insert(key, id) => InsertWithId(r, key, id).1
    case Delete(key) => Remove(r, key).1
    case Clear => EMPTY
  }

  /** An operation keeps a valid registry valid exactly when it is safe. */
  lemma ValidIffSafe(r: Registry, op: Operation)
    requires Valid(r)
    ensures Valid(Apply(r, op)) <==> Safe(r, op)
  {
    var after := Apply(r, op);
    if !Safe(r, op) {
      var id := if op.Insert? && op.id !in r.keysById then op.id else r.nextId;
      assert id in after.keysById && !(id < after.nextId);
    }
  }

  /** Once the counter is at the top, two fresh keys get the same id and the maps fall apart. */
  lemma SaturationBreaksInverse()
    ensures var r := Registry(U32_MAX, map[], map[]);
      && Valid(r)
      && EnsureFileId(r, Virtual("a")).0 == EnsureFileId(EnsureFileId(r, Virtual("a")).1, Virtual("b")).0
      && !Inverse(Apply(Apply(r, Ensure(Virtual("a"))), Ensure(Virtual("b"))))
  {
    var r := Registry(U32_MAX, map[], map[]);
    var one := Apply(r, Ensure(Virtual("a")));
    var two := Apply(one, Ensure(Virtual("b")));
    assert Virtual("a") in two.idsByKey && two.keysById[U32_MAX] == Virtual("b");
    assert "a"[0] != "b"[0];
  }

  // ----- Runs -----

  function Run(r: Registry, ops: seq<Operation>): Registry
    decreases |ops|
  {
    if ops == [] then r else Run(Apply(r, ops[0]), ops[1..])
  }

  ghost predicate SafeRun(r: Registry, ops: seq<Operation>)
    decreases |ops|
  {
    ops == [] || (Safe(r, ops[0]) && SafeRun(Apply(r, ops[0]), ops[1..]))
  }

  /** The ids that the counter hands to fresh keys during a run. */
  function Issued(r: Registry, ops: seq<Operation>): seq<FileId>
    decreases |ops|
  {
    if ops == [] then []
    else
      var given := match ops[0]
        case Ensure(key) => key !in r.idsByKey
        case Insert(key, id) => key !in r.idsByKey && id in r.keysById
        case _ => false;
      (if given then [r.nextId] else []) + Issued(Apply(r, ops[0]), ops[1..])
  }

  /** Every safe run keeps the registry valid. */
  lemma {:induction false} RunKeepsValid(r: Registry, ops: seq<Operation>)
    requires Valid(r) && SafeRun(r, ops)
    ensures Valid(Run(r, ops))
    decreases |ops|
  {
    if ops != [] {
      ValidIffSafe(r, ops[0]);
      RunKeepsValid(Apply(r, ops[0]), ops[1..]);
    }
  }

  /** A key keeps its id until it is removed or everything is cleared. */
  lemma {:induction false} KeyKeepsId(r: Registry, ops: seq<Operation>, key: SourceKey)
    requires key in r.idsByKey && Clear !in ops && Delete(key) !in ops
    ensures key in Run(r, ops).idsByKey && Run(r, ops).idsByKey[key] == r.idsByKey[key]
    decreases |ops|
  {
    if ops != [] {
      assert ops[0] in ops && forall op :: op in ops[1..] ==> op in ops;
      KeyKeepsId(Apply(r, ops[0]), ops[1..], key);
    }
  }

  /** The ids that the counter issues before a clear strictly increase, so it issues none twice. */
  lemma {:induction false} IssuedIncrease(r: Registry, ops: seq<Operation>)
    requires SafeRun(r, ops) && Clear !in ops
    ensures forall i :: 0 <= i < |Issued(r, ops)| ==> r.nextId <= Issued(r, ops)[i]
    ensures forall i, j :: 0 <= i < j < |Issued(r, ops)| ==> Issued(r, ops)[i] < Issued(r, ops)[j]
    decreases |ops|
  {
    if ops != [] {
      assert ops[0] in ops && forall op :: op in ops[1..] ==> op in ops;
      IssuedIncrease(Apply(r, ops[0]), ops[1..]);
    }
  }

  // ----- When an id goes to another key -----

  /** Operation `op` names the id for the key. */
  predicate Names(op: Operation, key: SourceKey, id: FileId)
  {
    op.Insert? && op.key == key && op.id == id
  }

  /** One operation gives an id below the counter that is not held to a key exactly by naming it. */
  lemma FreedTakenByName(r: Registry, op: Operation, key: SourceKey, id: FileId)
    requires Valid(r) && id < r.nextId && id !in r.keysById
    ensures id in Apply(r, op).keysById && Apply(r, op).keysById[id] == key <==>
      Names(op, key, id) && key !in r.idsByKey
  {
  }

  /** An id below the counter that is not held is held again only after an insertion that names it. */
  lemma {:induction false} FreedStaysFree(r: Registry, ops: seq<Operation>, id: FileId, key: SourceKey) returns (j: nat)
    requires Valid(r) && SafeRun(r, ops) && Clear !in ops
    requires id < r.nextId && id !in r.keysById
    requires id in Run(r, ops).keysById && Run(r, ops).keysById[id] == key
    ensures j < |ops| && Names(ops[j], key, id)
    decreases |ops|
  {
    var after := Apply(r, ops[0]);
    ValidIffSafe(r, ops[0]);
    assert ops[0] in ops && forall op :: op in ops[1..] ==> op in ops;
    if id in after.keysById && after.keysById[id] == key {
      FreedTakenByName(r, ops[0], key, id);
      j := 0;
    } else if id in after.keysById {
      var i;
      i, j := MovedByName(after, ops[1..], id, key);
      j := j + 1;
    } else {
      j := FreedStaysFree(after, ops[1..], id, key);
      j := j + 1;
    }
  }

  /**
   * Before a clear, an id held by one key goes to another only when the first key is removed and
   * an insertion after that names the id for the other.
   */
  lemma {:induction false} MovedByName(r: Registry, ops: seq<Operation>, id: FileId, key: SourceKey) returns (i: nat, j: nat)
    requires Valid(r) && SafeRun(r, ops) && Clear !in ops
    requires id in r.keysById && r.keysById[id] != key
    requires id in Run(r, ops).keysById && Run(r, ops).keysById[id] == key
    ensures i < j < |ops| && ops[i] == Delete(r.keysById[id]) && Names(ops[j], key, id)
    decreases |ops|
  {
    var after := Apply(r, ops[0]);
    ValidIffSafe(r, ops[0]);
    assert ops[0] in ops && forall op :: op in ops[1..] ==> op in ops;
    if id in after.keysById {
      assert after.keysById[id] == r.keysById[id];
      i, j := MovedByName(after, ops[1..], id, key);
      i, j := i + 1, j + 1;
    } else {
      j := FreedStaysFree(after, ops[1..], id, key);
      i, j := 0, j + 1;
    }
  }

  /** Hence without an insertion that names it an id never goes to another key before a clear. */
  lemma EnsureNeverReuses(r: Registry, ops: seq<Operation>, id: FileId)
    requires Valid(r) && SafeRun(r, ops) && Clear !in ops && id in r.keysById
    requires forall k :: 0 <= k < |ops| && ops[k].Insert? ==> ops[k].id != id
    ensures id in Run(r, ops).keysById ==> Run(r, ops).keysById[id] == r.keysById[id]
  {
    if id in Run(r, ops).keysById && Run(r, ops).keysById[id] != r.keysById[id] {
      var i, j := MovedByName(r, ops, id, Run(r, ops).keysById[id]);
      assert false;
    }
  }

  /** With such an insertion it does: the id given to the first key ends with the second. */
  lemma InsertReusesId()
    ensures var a, b := Virtual("a"), Virtual("b");
      var ops := [Ensure(a), Delete(a), Insert(b, 0)];
      && SafeRun(EMPTY, ops) && EnsureFileId(EMPTY, a).0 == 0
      && Run(EMPTY, ops).idsByKey == map[b := 0]
  {
    var a, b := Virtual("a"), Virtual("b");
    assert "a"[0] != "b"[0];
    var one := Apply(EMPTY, Ensure(a));
    var two := Apply(one, Delete(a));
    var three := Apply(two, Insert(b, 0));
    assert one.idsByKey == map[a := 0] && two.idsByKey == map[] && two.keysById == map[];
    assert three.idsByKey == map[b := 0];
    var ops := [Ensure(a), Delete(a), Insert(b, 0)];
    assert ops[1..] == [Delete(a), Insert(b, 0)];
    assert ops[1..][1..] == [Insert(b, 0)] && ops[1..][1..][1..] == [];
    assert Run(two, [Insert(b, 0)]) == three;
    assert SafeRun(two, [Insert(b, 0)]);
  }

  // ----- What each operation answers -----

  /** The other keys keep their ids. */
  ghost predicate OthersKept(r: Registry, after: Registry, key: SourceKey)
  {
    forall k :: k != key ==> (k in after.idsByKey <==> k in r.idsByKey) && (k in r.idsByKey ==> after.idsByKey[k] == r.idsByKey[k])
  }

  /**
   * The id answered is the one held afterwards: a known key keeps its own, and a fresh key gets the
   * id it asks for when that is free, or else the counter's, which moves past every id given out.
   */
  lemma AnswerIsHeld(r: Registry, key: SourceKey, wanted: FileId)
    requires Valid(r)
    ensures var (id, after) := EnsureFileId(r, key);
      && key in after.idsByKey && after.idsByKey[key] == id && OthersKept(r, after, key)
      && (if key in r.idsByKey then id == r.idsByKey[key] && after == r else id !in r.keysById)
    ensures var (id, after) := InsertWithId(r, key, wanted);
      && key in after.idsByKey && after.idsByKey[key] == id && OthersKept(r, after, key)
      && (if key in r.idsByKey then id == r.idsByKey[key] && after == r else id !in r.keysById)
      && (key !in r.idsByKey && wanted !in r.keysById ==> id == wanted)
    ensures key !in r.idsByKey ==>
      && EnsureFileId(r, key).0 == r.nextId
      && EnsureFileId(r, key).1.nextId == (if r.nextId == U32_MAX then U32_MAX else r.nextId + 1)
      && (wanted in r.keysById ==> InsertWithId(r, key, wanted) == EnsureFileId(r, key))
      && (wanted !in r.keysById ==>
            InsertWithId(r, key, wanted).1.nextId ==
              if wanted < r.nextId then r.nextId else if wanted == U32_MAX then U32_MAX else wanted + 1)
  {
  }

  /** Removing answers the id that the key held, and afterwards neither is known. */
  lemma RemovedIsGone(r: Registry, key: SourceKey)
    requires Valid(r)
    ensures var (id, after) := Remove(r, key);
      && key !in after.idsByKey && OthersKept(r, after, key)
      && (if key in r.idsByKey then id == Some(r.idsByKey[key]) && r.idsByKey[key] !in after.keysById else id == None && after == r)
  {
  }
}
