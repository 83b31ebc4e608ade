/** The receiver's in-memory task store: records by id, and an index from idempotency key to id. */
module TaskStore {
  import opened Common

  datatype Life = Pending | Completed | Denied | Failed

  datatype Response = Response(status: int, body: string)

  /** A member that is null or absent is `None`, an absent time 0. */
  datatype Record = Record(
    id: string, key: string, taskId: Option<string>, life: Option<Life>, response: Option<Response>,
    createdAt: int, updatedAt: int)

  /** A member of a patch: not there, there but undefined (which removes the field), or a value to write. */
  datatype Change<T> = Keep | Clear | Put(value: T)

  /** What `update` is asked to write; the first three members it ignores. */
  datatype Patch = Patch(
    id: Change<string>, key: Change<string>, createdAt: Change<int>,
    taskId: Change<Option<string>>, life: Change<Option<Life>>, response: Change<Option<Response>>, updatedAt: int)

  datatype Tasks = Tasks(records: map<string, Record>, ids: map<string, string>)

  function Get(t: Tasks, id: string): Option<Record> {
    if id in t.records then Some(t.records[id]) else None
  }

  /** The lookup by key; an empty id is falsy and reads as absent. */
  function ByKey(t: Tasks, key: string): Option<Record> {
    if key in t.ids && t.ids[key] != "" then Get(t, t.ids[key]) else None
  }

  /** The record a create meets: first by id, then by key. */
  function Existing(t: Tasks, r: Record): Option<Record> {
    if r.id in t.records then Get(t, r.id) else ByKey(t, r.key)
  }

  function OrNow(time: int, now: int): int {
    if time == 0 then now else time
  }

  /** A new record's times default to the clock. */
  function Stamped(r: Record, now: int): Record {
    r.(createdAt := OrNow(r.createdAt, now), updatedAt := OrNow(r.updatedAt, now))
  }

  function Created(t: Tasks, r: Record, now: int): Tasks {
    if Existing(t, r).Some? then t else Tasks(t.records[r.id := Stamped(r, now)], t.ids[r.key := r.id])
  }

  function Changed<T>(change: Change<Option<T>>, kept: Option<T>): Option<T> {
    match change
    case Keep => kept
    case Clear => None
    case Put(v) => v
  }

  function Patched(r: Record, p: Patch, now: int): Record {
    r.(taskId := Changed(p.taskId, r.taskId), life := Changed(p.life, r.life),
       response := Changed(p.response, r.response), updatedAt := OrNow(p.updatedAt, now))
  }

  function Updated(t: Tasks, id: string, p: Patch, now: int): Tasks {
    if id !in t.records then t
    else
      var r := Patched(t.records[id], p, now);
      Tasks(t.records[id := r], t.ids[r.key := id])
  }

  /** Looking a key up finds exactly the record a scan of all records finds, so keys are unique. */
  ghost predicate IndexAgrees(t: Tasks) {
    && (forall id :: id in t.records ==> t.records[id].id == id)
    && (forall id :: id in t.records ==> ByKey(t, t.records[id].key) == Some(t.records[id]))
    && (forall key :: key in t.ids ==> ByKey(t, key).Some? && ByKey(t, key).value.key == key)
  }

  class MemoryTaskStore {
    var recordsById: map<string, Record>
    var idsByIdempotencyKey: map<string, string>

    constructor ()
      ensures Contents() == Tasks(map[], map[]) && IndexAgrees(Contents())
    {
      recordsById, idsByIdempotencyKey := map[], map[];
    }

    function Contents(): Tasks
      reads this
    {
      Tasks(recordsById, idsByIdempotencyKey)
    }

    method CreatePending(record: Record, now: int) returns (created: bool, persisted: Record)
      modifies this
      ensures Contents() == Created(old(Contents()), record, now)
      ensures created <==> Existing(old(Contents()), record).None?
      ensures persisted == if created then Stamped(record, now) else Existing(old(Contents()), record).value
    {
      if record.id in recordsById {
        return false, recordsById[record.id];
      }
      if record.key in idsByIdempotencyKey {
        var id := idsByIdempotencyKey[record.key];
        if id != "" && id in recordsById {
          return false, recordsById[id];
        }
      }
      persisted := record.(createdAt := OrNow(record.createdAt, now), updatedAt := OrNow(record.updatedAt, now));
      recordsById := recordsById[persisted.id := persisted];
      idsByIdempotencyKey := idsByIdempotencyKey[persisted.key := persisted.id];
      created := true;
    }

    /** `None` is the "task record not found" error. */
    method Update(id: string, patch: Patch, now: int) returns (updated: Option<Record>)
      modifies this
      ensures Contents() == Updated(old(Contents()), id, patch, now)
      ensures updated.None? <==> id !in old(recordsById)
      ensures updated.Some? ==> updated == Get(Contents(), id)
    {
      if id !in recordsById {
        return None;
      }
      var r := Patched(recordsById[id], patch, now);
      recordsById := recordsById[id := r];
      idsByIdempotencyKey := idsByIdempotencyKey[r.key := id];
      return Some(r);
    }
  }

  /** A create keeps the index honest exactly when it finds a record or is given a non-empty id. */
  lemma CreateKeepsIndex(t: Tasks, r: Record, now: int)
    requires IndexAgrees(t)
    ensures IndexAgrees(Created(t, r, now)) <==> Existing(t, r).Some? || r.id != ""
  {
    var t' := Created(t, r, now);
    if Existing(t, r).None? {
      assert r.id in t'.records && t'.records[r.id] == Stamped(r, now);
      if r.id == "" {
        assert ByKey(t', r.key).None?;
      } else {
        forall id | id in t'.records
          ensures ByKey(t', t'.records[id].key) == Some(t'.records[id])
        {
          if id != r.id {
            assert ByKey(t, t.records[id].key) == Some(t.records[id]);
            assert t.records[id].key != r.key;
          }
        }
        forall key | key in t'.ids
          ensures ByKey(t', key).Some? && ByKey(t', key).value.key == key
        {
          if key != r.key { assert ByKey(t, key) == ByKey(t', key); }
        }
      }
    }
  }

  lemma UpdateKeepsIds(t: Tasks, id: string, p: Patch, now: int)
    requires IndexAgrees(t)
    ensures Updated(t, id, p, now).ids == t.ids && Updated(t, id, p, now).records.Keys == t.records.Keys
  {
    if id in t.records { assert ByKey(t, t.records[id].key) == Some(t.records[id]); }
  }

  /** An update never changes an id, key or creation time, and touches no other record. */
  lemma UpdateKeepsIdentity(t: Tasks, id: string, p: Patch, now: int, i: string)
    requires IndexAgrees(t) && i in t.records
    ensures i in Updated(t, id, p, now).records
    ensures
      var before, after := t.records[i], Updated(t, id, p, now).records[i];
      && after.id == before.id && after.key == before.key && after.createdAt == before.createdAt
      && (i != id ==> after == before)
  {
    UpdateKeepsIds(t, id, p, now);
  }

  /** A member of the patch is kept, cleared or replaced as it says; a time it does not give is the clock's. */
  lemma UpdateWrites(t: Tasks, id: string, p: Patch, now: int)
    requires id in t.records
    ensures id in Updated(t, id, p, now).records
    ensures
      var before, after := t.records[id], Updated(t, id, p, now).records[id];
      && (p.taskId.Put? ==> after.taskId == p.taskId.value) && (p.life.Put? ==> after.life == p.life.value)
      && (p.response.Put? ==> after.response == p.response.value)
      && (p.taskId.Clear? ==> after.taskId.None?) && (p.life.Clear? ==> after.life.None?)
      && (p.response.Clear? ==> after.response.None?)
      && (p.taskId.Keep? ==> after.taskId == before.taskId) && (p.life.Keep? ==> after.life == before.life)
      && (p.response.Keep? ==> after.response == before.response)
      && (p.updatedAt != 0 ==> after.updatedAt == p.updatedAt) && (p.updatedAt == 0 ==> after.updatedAt == now)
  {
  }

  /** A new record is stored as given, under its id and its key, an absent time being the clock's. */
  lemma CreateWrites(t: Tasks, r: Record, now: int)
    requires r.id !in t.records && ByKey(t, r.key).None?
    ensures
      var after := Created(t, r, now);
      && r.id in after.records && r.key in after.ids && after.ids[r.key] == r.id
      && var stored := after.records[r.id];
         && stored.id == r.id && stored.key == r.key && stored.taskId == r.taskId
         && stored.life == r.life && stored.response == r.response
         && (r.createdAt != 0 ==> stored.createdAt == r.createdAt) && (r.createdAt == 0 ==> stored.createdAt == now)
         && (r.updatedAt != 0 ==> stored.updatedAt == r.updatedAt) && (r.updatedAt == 0 ==> stored.updatedAt == now)
  {
  }

  /** And every lookup by key finds the record it found before. */
  lemma UpdateKeepsIndex(t: Tasks, id: string, p: Patch, now: int)
    requires IndexAgrees(t)
    ensures IndexAgrees(Updated(t, id, p, now))
    ensures forall key :: ByKey(Updated(t, id, p, now), key).Some? <==> ByKey(t, key).Some?
    ensures forall key :: ByKey(t, key).Some? ==> ByKey(Updated(t, id, p, now), key).value.id == ByKey(t, key).value.id
  {
    var t' := Updated(t, id, p, now);
    UpdateKeepsIds(t, id, p, now);
    forall i | i in t'.records
      ensures t'.records[i].id == i && ByKey(t', t'.records[i].key) == Some(t'.records[i])
    {
      UpdateKeepsIdentity(t, id, p, now, i);
      assert ByKey(t, t.records[i].key) == Some(t.records[i]);
    }
    forall key | key in t'.ids
      ensures ByKey(t', key).Some? && ByKey(t', key).value.key == key
    {
      UpdateKeepsIdentity(t, id, p, now, t.ids[key]);
    }
  }

  // ---- Any sequence of creates and updates -----------------------------------------------------

  datatype Op = Create(record: Record, at: int) | Update(id: string, patch: Patch, now: int)

  function Apply(t: Tasks, op: Op): Tasks {
    match op
    case Create(r, at) => Created(t, r, at)
    case Update(id, p, now) => Updated(t, id, p, now)
  }

  function After(ops: seq<Op>): Tasks {
    if ops == [] then Tasks(map[], map[]) else Apply(After(ops[..|ops| - 1]), ops[|ops| - 1])
  }

  /** Record ids are random: no two creates carry the same one. */
  predicate FreshIds(ops: seq<Op>) {
    && (forall i :: 0 <= i < |ops| && ops[i].Create? ==> ops[i].record.id != "")
    && (forall i, j :: 0 <= i < j < |ops| && ops[i].Create? && ops[j].Create? ==> ops[i].record.id != ops[j].record.id)
  }

  predicate Asked(ops: seq<Op>, key: string) {
    exists i :: 0 <= i < |ops| && ops[i].Create? && ops[i].record.key == key
  }

  /** The ids of the creates for a key that were told "created", in order. */
  function Creators(ops: seq<Op>, key: string): seq<string> {
    if ops == [] then []
    else
      var before, last := ops[..|ops| - 1], ops[|ops| - 1];
      Creators(before, key)
      + if last.Create? && last.record.key == key && Existing(After(before), last.record).None?
        then [last.record.id] else []
  }

  lemma {:induction false} IdsCameFromCreates(ops: seq<Op>, id: string)
    requires id in After(ops).records
    ensures exists i :: 0 <= i < |ops| && ops[i].Create? && ops[i].record.id == id
  {
    var before, last := ops[..|ops| - 1], ops[|ops| - 1];
    if last.Create? && last.record.id == id {
      assert ops[|ops| - 1].Create?;
    } else {
      IdsCameFromCreates(before, id);
      var i :| 0 <= i < |before| && before[i].Create? && before[i].record.id == id;
      assert ops[i].Create?;
    }
  }

  lemma NewIdIsFresh(ops: seq<Op>, r: Record, at: int)
    requires FreshIds(ops + [Create(r, at)])
    ensures FreshIds(ops) && r.id !in After(ops).records && r.id != ""
  {
    var all := ops + [Create(r, at)];
    assert all[|ops|].Create?;
    forall i | 0 <= i < |ops|
      ensures all[i] == ops[i]
    {
    }
    if r.id in After(ops).records {
      IdsCameFromCreates(ops, r.id);
    }
  }

  /**
   In any sequence of creates and updates exactly one create for a key is told "created", and the
   record every later one is given is the one that create made.
   */
  lemma {:induction false} OneCreator(ops: seq<Op>, key: string)
    requires FreshIds(ops)
    ensures IndexAgrees(After(ops))
    ensures ByKey(After(ops), key).Some? <==> Asked(ops, key)
    ensures if Asked(ops, key) then Creators(ops, key) == [ByKey(After(ops), key).value.id]
            else Creators(ops, key) == []
  {
    if ops != [] {
      var before, last := ops[..|ops| - 1], ops[|ops| - 1];
      assert ops == before + [last];
      OneCreator(before, key);
      AskedNext(before, last, key);
      match last
      case Update(id, p, now) => UpdateKeepsIndex(After(before), id, p, now);
      case Create(r, at) =>
        NewIdIsFresh(before, r, at);
        CreateKeepsIndex(After(before), r, at);
    }
  }

  lemma AskedNext(before: seq<Op>, last: Op, key: string)
    ensures Asked(before + [last], key) <==> Asked(before, key) || (last.Create? && last.record.key == key)
  {
    var ops := before + [last];
    if Asked(before, key) {
      var i :| 0 <= i < |before| && before[i].Create? && before[i].record.key == key;
      assert ops[i] == before[i];
    }
    if last.Create? && last.record.key == key { assert ops[|before|] == last; }
  }
}
