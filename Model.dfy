/**
 * The three tables of one tracked model: the main table (the current row of
 * each entity), its history table (Level 1, valid time) and the history's
 * meta-history table (Level 2, system time).
 */
module BitemporalModel {
  import opened Common
  import opened Chain

  /**
   * A field value: null, a number (integers, times and ids alike) or text.
   * Beyond these kinds the model treats values as opaque.
   */
  datatype Value = Null | Int(i: int) | Text(s: string)

  /** The primary-key value of an entity of the main model. */
  type Key = Value

  /** A row or model instance: field attname to value. */
  type Row = map<string, Value>

  /** `history_type` / `meta_history_type`: one of `+`, `~`, `-`. */
  datatype HistoryType = Created | Changed | Deleted

  /** The one-character code stored for a history type. */
  function HistoryTypeCode(t: HistoryType): char {
    match t
    case Created => '+'
    case Changed => '~'
    case Deleted => '-'
  }

  /** Reads a stored one-character code back; any other character is not a valid choice. */
  function ParseHistoryType(c: char): (r: Option<HistoryType>)
    ensures r.Some? <==> c in {'+', '~', '-'}
    ensures r.Some? ==> HistoryTypeCode(r.value) == c
  {
    if c == '+' then Some(Created)
    else if c == '~' then Some(Changed)
    else if c == '-' then Some(Deleted)
    else None
  }

  /** Every history type survives being stored as its code and read back. */
  lemma HistoryTypeRoundTrip(t: HistoryType)
    ensures ParseHistoryType(HistoryTypeCode(t)) == Some(t)
  {
  }

  /** `meta_task_status`: the scheduling bookkeeping of a meta record. */
  datatype TaskStatus = NoTask | Scheduled | Done | Cancelled

  /** The string stored for a task status. */
  function TaskStatusCode(s: TaskStatus): string {
    match s
    case NoTask => "NONE"
    case Scheduled => "SCHEDULED"
    case Done => "DONE"
    case Cancelled => "CANCELLED"
  }

  /** Reads a stored task status back; any other string is not a valid choice. */
  function ParseTaskStatus(s: string): (r: Option<TaskStatus>)
    ensures r.Some? <==> s in {"NONE", "SCHEDULED", "DONE", "CANCELLED"}
    ensures r.Some? ==> TaskStatusCode(r.value) == s
  {
    if s == "NONE" then Some(NoTask)
    else if s == "SCHEDULED" then Some(Scheduled)
    else if s == "DONE" then Some(Done)
    else if s == "CANCELLED" then Some(Cancelled)
    else None
  }
  /** Every task status survives being stored as its string and read back. */
  lemma TaskStatusRoundTrip(s: TaskStatus)
    ensures ParseTaskStatus(TaskStatusCode(s)) == Some(s)
  {
  }


  /** A model field, by its name and its attribute (column) name. */
  datatype Field = Field(name: string, attname: string)

  /** What the engine needs of the main model: its fields, its primary key and its field defaults. */
  datatype Schema = Schema(fields: seq<Field>, pk: Field, defaults: Row)

  /** A Level-1 row: one valid-time version of an entity. */
  datatype HistoryRecord = HistoryRecord(
    historyId: nat,
    key: Key,
    validFrom: Timestamp,
    validTo: Option<Timestamp>,
    historyType: HistoryType,
    changeReason: string,
    snapshot: Row)

  /** The control columns a history row carries beside the fields it copies. */
  const ControlAttrs: set<string> := {"history_id", "valid_from", "valid_to", "history_type", "history_change_reason"}

  /**
   * The attributes of a history row: the fields of its snapshot and, over
   * them, its own control columns (`valid_to` is null while the row is open,
   * `history_type` its one-letter code).
   */
  function RecordAttrs(r: HistoryRecord): (a: Row)
    ensures forall n :: n in a <==> n in r.snapshot || n in ControlAttrs
    ensures forall n :: n in r.snapshot && n !in ControlAttrs ==> a[n] == r.snapshot[n]
    ensures a["history_id"] == Int(r.historyId) && a["valid_from"] == Int(r.validFrom)
    ensures a["valid_to"] == if r.validTo.Some? then Int(r.validTo.value) else Null
    ensures a["history_type"] == Text([HistoryTypeCode(r.historyType)])
    ensures a["history_change_reason"] == Text(r.changeReason)
  {
    r.snapshot + map[
      "history_id" := Int(r.historyId),
      "valid_from" := Int(r.validFrom),
      "valid_to" := (if r.validTo.Some? then Int(r.validTo.value) else Null),
      "history_type" := Text([HistoryTypeCode(r.historyType)]),
      "history_change_reason" := Text(r.changeReason)]
  }

  /**
   * A Level-2 row: one system-time version of a history row. `snapshot` is
   * the copy of the history row's own fields; `historyRef` is null once the
   * history row has been deleted.
   */
  datatype MetaRecord = MetaRecord(
    metaId: nat,
    historyRef: Option<nat>,
    sysFrom: Timestamp,
    sysTo: Option<Timestamp>,
    metaType: HistoryType,
    changeReason: string,
    snapshot: HistoryRecord,
    taskName: Option<string>,
    taskStatus: TaskStatus)

  function HistoryStamp(r: HistoryRecord): Stamp {
    Stamp(r.validFrom, r.historyId)
  }

  function MetaStamp(m: MetaRecord): Stamp {
    Stamp(m.sysFrom, m.metaId)
  }

  /** The history window `[valid_from, valid_to)` contains `t`. */
  predicate ValidAt(r: HistoryRecord, t: Timestamp) {
    Covers(r.validFrom, r.validTo, t)
  }

  /** The system-time window `[sys_from, sys_to)` contains `t`. */
  predicate KnownAt(m: MetaRecord, t: Timestamp) {
    Covers(m.sysFrom, m.sysTo, t)
  }

  ghost predicate HistoryIdsFresh(h: seq<HistoryRecord>, next: nat) {
    && (forall i :: 0 <= i < |h| ==> h[i].historyId < next)
    && (forall i, j :: 0 <= i < j < |h| ==> h[i].historyId != h[j].historyId)
  }

  ghost predicate MetaIdsFresh(m: seq<MetaRecord>, next: nat) {
    && (forall i :: 0 <= i < |m| ==> m[i].metaId < next)
    && (forall i, j :: 0 <= i < j < |m| ==> m[i].metaId != m[j].metaId)
  }

  /** `meta_task_name` is unique: no two meta rows carry the same task name. */
  ghost predicate TaskNamesUnique(m: seq<MetaRecord>) {
    forall i, j :: 0 <= i < j < |m| && m[i].taskName.Some? ==> m[i].taskName != m[j].taskName
  }

  /** The database of one tracked model. */
  class Store {
    const schema: Schema
    var history: seq<HistoryRecord>
    var meta: seq<MetaRecord>
    var main: map<Key, Row>
    var nextHistoryId: nat
    var nextMetaId: nat

    ghost predicate Valid()
      reads this
    {
      && HistoryIdsFresh(history, nextHistoryId)
      && MetaIdsFresh(meta, nextMetaId)
      && TaskNamesUnique(meta)
    }

    constructor (schema: Schema)
      ensures Valid()
      ensures this.schema == schema
      ensures history == [] && meta == [] && main == map[]
    {
      this.schema := schema;
      history, meta, main := [], [], map[];
      nextHistoryId, nextMetaId := 0, 0;
    }
  }
}
