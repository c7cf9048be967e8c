/**
 * The handlers of one history write, run as one explicit sequence: the meta
 * version of the saved history row, strict chaining of its entity's
 * `valid_to`, the meta versions (and rescheduling) of every row the chaining
 * rewrote, the get-or-create of the saved row's meta version with its
 * activation scheduling, and the synchronisation of the main row.
 *
 * No single source file holds this sequence: it stands for Django's signal
 * dispatch of the handlers that lex/core/services/signal_registry.py
 * (lines 100-145) connects to the history and meta-history models, in the
 * order they are connected, with the deletion handlers (pre- and
 * post-delete) run the same way.
 */
module HistoryPipeline {
  import opened Common
  import opened Chain
  import opened BitemporalModel
  import opened StrictChaining
  import opened StandardHistory
  import opened MetaHistory
  import opened BitemporalSignals
  import opened BitemporalSync

  /** The position of the history row whose id is `id`, if there is one. */
  method RowById(h: seq<HistoryRecord>, id: nat) returns (p: Option<nat>)
    ensures p.Some? ==> p.value < |h| && h[p.value].historyId == id
    ensures p.None? <==> forall j :: 0 <= j < |h| ==> h[j].historyId != id
  {
    p := None;
    var i := 0;
    while i < |h|
      invariant 0 <= i <= |h|
      invariant p.Some? ==> p.value < i && h[p.value].historyId == id
      invariant p.None? <==> forall j :: 0 <= j < i ==> h[j].historyId != id
    {
      if p.None? && h[i].historyId == id {
        p := Some(i);
      }
      i := i + 1;
    }
  }

  /** No meta row changes which history row it describes, and none is removed. */
  ghost predicate RefsKept(m1: seq<MetaRecord>, m2: seq<MetaRecord>) {
    |m1| <= |m2| && forall i :: 0 <= i < |m1| ==> m2[i].historyRef == m1[i].historyRef
  }

  /** The versions of history row `ref` are left exactly as they were, and none is added. */
  ghost predicate Untouched(m1: seq<MetaRecord>, m2: seq<MetaRecord>, ref: Option<nat>) {
    && RefsKept(m1, m2)
    && (forall i :: 0 <= i < |m1| && m1[i].historyRef == ref ==> m2[i] == m1[i])
    && (forall i :: |m1| <= i < |m2| ==> m2[i].historyRef != ref)
  }

  lemma UntouchedKeeps(m1: seq<MetaRecord>, m2: seq<MetaRecord>, ref: Option<nat>)
    requires Untouched(m1, m2, ref)
    ensures KeepsVersions(m1, m2, ref)
  {
  }

  lemma UntouchedTransitive(m1: seq<MetaRecord>, m2: seq<MetaRecord>, m3: seq<MetaRecord>, ref: Option<nat>)
    requires Untouched(m1, m2, ref) && Untouched(m2, m3, ref)
    ensures Untouched(m1, m3, ref)
  {
  }

  /** Chaining the versions of one history row leaves those of every other untouched. */
  lemma RechainUntouched(m: seq<MetaRecord>, chained: Option<nat>, ref: Option<nat>)
    requires ref != chained
    ensures Untouched(m, RechainMeta(m, chained), ref)
  {
    RechainMetaChains(m, chained);
  }

  /** Scheduling only touches task bookkeeping. */
  lemma ScheduleKeeps(m: seq<MetaRecord>, i: nat, name: string, ref: Option<nat>)
    requires i < |m|
    ensures KeepsVersions(m, m[i := m[i].(taskStatus := Scheduled, taskName := Some(name))], ref)
    ensures ref != m[i].historyRef ==> Untouched(m, m[i := m[i].(taskStatus := Scheduled, taskName := Some(name))], ref)
  {
  }

  /**
   * The meta table right after `create_historical_record` wrote a version of
   * `row` at position `pos`: over the snapshot of an existing version (in
   * place), or appended as a new open version with id `id`, start `now` and
   * type `mtype`.
   */
  function Written(m: seq<MetaRecord>, row: HistoryRecord, mtype: HistoryType, now: Timestamp,
                   id: nat, pos: nat, inPlace: bool): seq<MetaRecord>
    requires inPlace ==> pos < |m|
  {
    if inPlace then m[pos := m[pos].(snapshot := row)]
    else m + [MetaRecord(id, Some(row.historyId), now, None, mtype, "", row, None, NoTask)]
  }

  /** The meta table with row `idx` scheduled under task name `name` when `scheduled` holds. */
  function WithSchedule(m: seq<MetaRecord>, idx: nat, name: string, scheduled: bool): seq<MetaRecord>
    requires idx < |m|
  {
    if scheduled then m[idx := m[idx].(taskStatus := Scheduled, taskName := Some(name))] else m
  }

  /** Meta row `x` holds a copy of the current state of the history row it refers to. */
  ghost predicate Mirrors(h: seq<HistoryRecord>, x: MetaRecord) {
    x.historyRef.Some? && exists j :: 0 <= j < |h| && h[j].historyId == x.historyRef.value && h[j] == x.snapshot
  }

  /** Two meta rows are the same version: same id, history row, start, type and reason. */
  predicate SameVersion(x: MetaRecord, y: MetaRecord) {
    && x.metaId == y.metaId && x.historyRef == y.historyRef && x.sysFrom == y.sysFrom
    && x.metaType == y.metaType && x.changeReason == y.changeReason
  }

  /**
   * `m` extends `m0`: every earlier row is still the same version, and its
   * snapshot changes only for a history row in `refined`, and then to that
   * row's current state in `h`.
   */
  ghost predicate Grows(m0: seq<MetaRecord>, m: seq<MetaRecord>, h: seq<HistoryRecord>, refined: set<nat>) {
    && |m0| <= |m|
    && forall k :: 0 <= k < |m0| ==>
         && SameVersion(m0[k], m[k])
         && (m[k].snapshot == m0[k].snapshot
             || (m0[k].historyRef.Some? && m0[k].historyRef.value in refined && Mirrors(h, m[k])))
  }

  lemma GrowsTransitive(m0: seq<MetaRecord>, m1: seq<MetaRecord>, m2: seq<MetaRecord>, h: seq<HistoryRecord>,
                        r1: set<nat>, r2: set<nat>)
    requires Grows(m0, m1, h, r1) && Grows(m1, m2, h, r2)
    ensures Grows(m0, m2, h, r1 + r2)
  {
    forall k | 0 <= k < |m0|
      ensures m2[k].snapshot == m0[k].snapshot
              || (m0[k].historyRef.Some? && m0[k].historyRef.value in r1 + r2 && Mirrors(h, m2[k]))
    {
      if m2[k].snapshot == m1[k].snapshot && m1[k].snapshot != m0[k].snapshot {
        var j :| 0 <= j < |h| && h[j].historyId == m1[k].historyRef.value && h[j] == m1[k].snapshot;
        assert h[j].historyId == m2[k].historyRef.value && h[j] == m2[k].snapshot;
      }
    }
  }

  /** Row `x` is scheduled under the task name of the history row it refers to. */
  predicate OwnSchedule(x: MetaRecord, taskName: nat -> string) {
    x.taskStatus == Scheduled && x.historyRef.Some? && x.taskName == Some(taskName(x.historyRef.value))
  }

  /** Every row of `m0` scheduled under its own task name still is in `m`. */
  ghost predicate SchedulesKept(m0: seq<MetaRecord>, m: seq<MetaRecord>, taskName: nat -> string) {
    |m0| <= |m| && forall k :: 0 <= k < |m0| && OwnSchedule(m0[k], taskName) ==> m[k] == m0[k].(sysTo := m[k].sysTo, snapshot := m[k].snapshot)
  }

  /**
   * A version written for `row` and rechained keeps every earlier row the
   * same version with its schedule; only an in-place write changes a
   * snapshot, to `row`.
   */
  lemma WrittenGrows(m0: seq<MetaRecord>, h: seq<HistoryRecord>, row: HistoryRecord, mtype: HistoryType, now: Timestamp,
                     id: nat, pos: nat, inPlace: bool, refined: set<nat>, taskName: nat -> string)
    requires inPlace ==> pos < |m0| && m0[pos].historyRef == Some(row.historyId) && row in h && row.historyId in refined
    ensures Grows(m0, RechainMeta(Written(m0, row, mtype, now, id, pos, inPlace), Some(row.historyId)), h, refined)
    ensures SchedulesKept(m0, RechainMeta(Written(m0, row, mtype, now, id, pos, inPlace), Some(row.historyId)), taskName)
  {
    var m := RechainMeta(Written(m0, row, mtype, now, id, pos, inPlace), Some(row.historyId));
    if inPlace {
      var j :| 0 <= j < |h| && h[j] == row;
      assert h[j].historyId == m[pos].historyRef.value && h[j] == m[pos].snapshot;
    }
  }

  /** Scheduling a version of history row `id` under its own task name keeps every row the same version and every own schedule. */
  lemma ScheduleGrows(m: seq<MetaRecord>, h: seq<HistoryRecord>, idx: nat, id: nat, taskName: nat -> string, scheduled: bool)
    requires idx < |m| && m[idx].historyRef == Some(id)
    ensures Grows(m, WithSchedule(m, idx, taskName(id), scheduled), h, {})
    ensures SchedulesKept(m, WithSchedule(m, idx, taskName(id), scheduled), taskName)
  {
  }

  lemma SchedulesKeptTransitive(m0: seq<MetaRecord>, m1: seq<MetaRecord>, m2: seq<MetaRecord>, taskName: nat -> string)
    requires SchedulesKept(m0, m1, taskName) && SchedulesKept(m1, m2, taskName)
    ensures SchedulesKept(m0, m2, taskName)
  {
    forall k | 0 <= k < |m0| && OwnSchedule(m0[k], taskName)
      ensures m2[k] == m0[k].(sysTo := m2[k].sysTo, snapshot := m2[k].snapshot)
    {
      assert OwnSchedule(m1[k], taskName);
    }
  }

  /**
   * The meta write of one saved history row followed by the `sys_to`
   * chaining it triggers: the table is the written one with the row's
   * versions rechained. The write is in place exactly for a refinement of a
   * row whose latest version is open, and otherwise appends a new version
   * with the next id.
   */
  method WriteMetaVersion(st: Store, row: HistoryRecord, mtype: HistoryType, refinement: bool, now: Timestamp)
    returns (metaId: nat, pos: nat, inPlace: bool)
    requires st.Valid()
    modifies st`meta, st`nextMetaId
    ensures st.Valid()
    ensures inPlace <==> refinement && exists i :: IsLatest(old(st.meta), Some(row.historyId), i) && old(st.meta)[i].sysTo.None?
    ensures inPlace ==> && IsLatest(old(st.meta), Some(row.historyId), pos) && old(st.meta)[pos].sysTo.None?
                        && metaId == old(st.meta)[pos].metaId && st.nextMetaId == old(st.nextMetaId)
    ensures !inPlace ==> pos == |old(st.meta)| && metaId == old(st.nextMetaId) && st.nextMetaId == old(st.nextMetaId) + 1
    ensures st.meta == RechainMeta(Written(old(st.meta), row, mtype, now, metaId, pos, inPlace), Some(row.historyId))
    ensures pos < |st.meta| && st.meta[pos].historyRef == Some(row.historyId) && st.meta[pos].snapshot == row
    ensures MetaChainedFor(st.meta, Some(row.historyId))
    ensures RefsKept(old(st.meta), st.meta)
    ensures forall r :: r != Some(row.historyId) ==> Untouched(old(st.meta), st.meta, r)
  {
    ghost var m0 := st.meta;
    metaId, pos, inPlace := CreateMetaHistoricalRecord(st, row, mtype, refinement, None, "", now);
    ghost var m1 := st.meta;
    var ref := Some(row.historyId);
    WrittenIs(m0, m1, row, mtype, now, metaId, pos, inPlace);
    var saved := ChainSysTo(st, ref);
    ChainFrame(m0, m1, st.meta, ref);
  }

  /** The two shapes of `create_historical_record`'s write are the written table. */
  lemma WrittenIs(m0: seq<MetaRecord>, m1: seq<MetaRecord>, row: HistoryRecord, mtype: HistoryType, now: Timestamp,
                  id: nat, pos: nat, inPlace: bool)
    requires inPlace ==> pos < |m0| && m0[pos].historyRef == Some(row.historyId) && m1 == m0[pos := m0[pos].(snapshot := row)]
    requires !inPlace ==> pos == |m0| && m1 == m0 + [MetaRecord(id, Some(row.historyId), now, None, mtype, "", row, None, NoTask)]
    ensures m1 == Written(m0, row, mtype, now, id, pos, inPlace)
    ensures pos < |m1| && m1[pos].historyRef == Some(row.historyId) && m1[pos].snapshot == row
    ensures exists i :: 0 <= i < |m1| && m1[i].historyRef == Some(row.historyId)
    ensures RefsKept(m0, m1)
    ensures forall r :: r != Some(row.historyId) ==> Untouched(m0, m1, r)
  {
    assert m1[pos].historyRef == Some(row.historyId);
  }

  /** The frame of a meta write followed by the `sys_to` chaining of the written row's versions. */
  lemma ChainFrame(m0: seq<MetaRecord>, m1: seq<MetaRecord>, m2: seq<MetaRecord>, ref: Option<nat>)
    requires exists i :: 0 <= i < |m1| && m1[i].historyRef == ref
    requires RefsKept(m0, m1)
    requires forall r :: r != ref ==> Untouched(m0, m1, r)
    requires m2 == RechainMeta(m1, ref)
    ensures MetaChainedFor(m2, ref)
    ensures exists i :: 0 <= i < |m2| && m2[i].historyRef == ref
    ensures RefsKept(m0, m2)
    ensures forall r :: r != ref ==> Untouched(m0, m2, r)
  {
    RechainMetaChains(m1, ref);
    assert forall j :: 0 <= j < |m1| ==> m2[j].historyRef == m1[j].historyRef;
    forall r | r != ref ensures Untouched(m0, m2, r) {
      RechainUntouched(m1, ref, r);
      UntouchedTransitive(m0, m1, m2, r);
    }
  }

  /**
   * The handlers a chaining rewrite of history row `row` triggers: its `~`
   * meta version, written in place exactly for a refinement of an open
   * latest version and appended otherwise, the `sys_to` chaining of its
   * versions, and the rescheduling of its latest version under the row's
   * task name when it starts beyond the grace and the name is free.
   */
  method AfterRewrite(st: Store, row: HistoryRecord, refinement: bool, now: Timestamp, taskName: nat -> string)
    returns (inPlace: bool, pos: nat, idx: nat, scheduled: bool)
    requires st.Valid()
    requires row in st.history
    modifies st`meta, st`nextMetaId
    ensures st.Valid()
    ensures inPlace <==> refinement && exists i :: IsLatest(old(st.meta), Some(row.historyId), i) && old(st.meta)[i].sysTo.None?
    ensures inPlace ==> IsLatest(old(st.meta), Some(row.historyId), pos) && old(st.meta)[pos].sysTo.None? && st.nextMetaId == old(st.nextMetaId)
    ensures !inPlace ==> pos == |old(st.meta)| && st.nextMetaId == old(st.nextMetaId) + 1
    ensures |st.meta| == |old(st.meta)| + (if inPlace then 0 else 1)
    ensures var mid := RechainMeta(Written(old(st.meta), row, Changed, now, old(st.nextMetaId), pos, inPlace), Some(row.historyId));
      && IsLatest(mid, Some(row.historyId), idx)
      && (scheduled <==> NeedsActivation(row.validFrom, now) && !NameTaken(mid, idx, taskName(row.historyId)))
      && st.meta == WithSchedule(mid, idx, taskName(row.historyId), scheduled)
    ensures IsLatest(st.meta, Some(row.historyId), idx)
    ensures scheduled <==> NeedsActivation(row.validFrom, now) && !NameTaken(old(st.meta), idx, taskName(row.historyId))
    ensures TaskStep(old(st.meta), st.meta, row.historyId, taskName(row.historyId), scheduled, idx)
    ensures pos < |st.meta| && st.meta[pos].historyRef == Some(row.historyId) && st.meta[pos].snapshot == row
    ensures Mirrors(st.history, st.meta[pos])
    ensures !inPlace ==> st.meta[pos].metaType == Changed && st.meta[pos].sysFrom == now && st.meta[pos].changeReason == ""
    ensures MetaChainedFor(st.meta, Some(row.historyId))
    ensures RefsKept(old(st.meta), st.meta)
    ensures forall r :: r != Some(row.historyId) ==> Untouched(old(st.meta), st.meta, r)
    ensures Grows(old(st.meta), st.meta, st.history, if refinement then {row.historyId} else {})
    ensures SchedulesKept(old(st.meta), st.meta, taskName)
  {
    ghost var m0, n0 := st.meta, st.nextMetaId;
    var metaId;
    metaId, pos, inPlace := WriteMetaVersion(st, row, Changed, refinement, now);
    ghost var m1 := st.meta;
    var created;
    idx, created, scheduled := OnHistorySavedCreateMeta(st, row, now, taskName(row.historyId));
    RewriteShape(m0, n0, m1, st.meta, row, now, metaId, pos, inPlace, idx, created, scheduled, taskName(row.historyId));
    WrittenTasks(m0, row, Changed, now, n0, pos, inPlace, idx, taskName(row.historyId), scheduled);
    ScheduleFrame(m0, m1, st.meta, Some(row.historyId), idx, taskName(row.historyId), scheduled);
    RewriteGrows(m0, n0, m1, st.meta, st.history, row, refinement, now, pos, inPlace, idx, scheduled, taskName);
  }

  /** The table one rewrite's handlers leave, from those of its meta write and its rescheduling. */
  lemma RewriteShape(m0: seq<MetaRecord>, n0: nat, m1: seq<MetaRecord>, m2: seq<MetaRecord>,
                     row: HistoryRecord, now: Timestamp, metaId: nat, pos: nat, inPlace: bool,
                     idx: nat, created: bool, scheduled: bool, name: string)
    requires inPlace ==> pos < |m0|
    requires !inPlace ==> metaId == n0 && pos == |m0|
    requires m1 == RechainMeta(Written(m0, row, Changed, now, metaId, pos, inPlace), Some(row.historyId))
    requires pos < |m1| && m1[pos].historyRef == Some(row.historyId) && m1[pos].snapshot == row
    requires created <==> forall j :: 0 <= j < |m1| ==> m1[j].historyRef != Some(row.historyId)
    requires var mid := if created then WithInitialMeta(m1, row, n0, now) else m1;
      && IsLatest(mid, Some(row.historyId), idx)
      && (scheduled <==> NeedsActivation(row.validFrom, now) && !NameTaken(mid, idx, name))
      && m2 == if scheduled then mid[idx := mid[idx].(taskStatus := Scheduled, taskName := Some(name))] else mid
    ensures !created
    ensures m1 == RechainMeta(Written(m0, row, Changed, now, n0, pos, inPlace), Some(row.historyId))
    ensures IsLatest(m1, Some(row.historyId), idx)
    ensures scheduled <==> NeedsActivation(row.validFrom, now) && !NameTaken(m1, idx, name)
    ensures m2 == WithSchedule(m1, idx, name, scheduled)
    ensures pos < |m2| && m2[pos].historyRef == Some(row.historyId) && m2[pos].snapshot == row
    ensures !inPlace ==> m2[pos].metaType == Changed && m2[pos].sysFrom == now && m2[pos].changeReason == ""
    ensures |m2| == |m0| + (if inPlace then 0 else 1)
  {
    assert m1[pos].historyRef == Some(row.historyId);
    assert Written(m0, row, Changed, now, metaId, pos, inPlace) == Written(m0, row, Changed, now, n0, pos, inPlace);
  }

  /** One rewrite's handlers keep every earlier version and every own schedule. */
  lemma RewriteGrows(m0: seq<MetaRecord>, n0: nat, m1: seq<MetaRecord>, m2: seq<MetaRecord>, h: seq<HistoryRecord>,
                     row: HistoryRecord, refinement: bool, now: Timestamp, pos: nat, inPlace: bool,
                     idx: nat, scheduled: bool, taskName: nat -> string)
    requires row in h
    requires inPlace ==> refinement && pos < |m0| && m0[pos].historyRef == Some(row.historyId)
    requires m1 == RechainMeta(Written(m0, row, Changed, now, n0, pos, inPlace), Some(row.historyId))
    requires idx < |m1| && m1[idx].historyRef == Some(row.historyId)
    requires m2 == WithSchedule(m1, idx, taskName(row.historyId), scheduled)
    ensures Grows(m0, m2, h, if refinement then {row.historyId} else {})
    ensures SchedulesKept(m0, m2, taskName)
  {
    ghost var refined: set<nat> := if refinement then {row.historyId} else {};
    WrittenGrows(m0, h, row, Changed, now, n0, pos, inPlace, refined, taskName);
    ScheduleGrows(m1, h, idx, row.historyId, taskName, scheduled);
    GrowsTransitive(m0, m1, m2, h, refined, {});
    assert refined + {} == refined;
    SchedulesKeptTransitive(m0, m1, m2, taskName);
  }

  /** The frame of a meta write for `ref` followed by the (re)scheduling of its latest version. */
  lemma ScheduleFrame(m0: seq<MetaRecord>, m1: seq<MetaRecord>, m2: seq<MetaRecord>, ref: Option<nat>,
                      idx: nat, name: string, scheduled: bool)
    requires MetaChainedFor(m1, ref) && RefsKept(m0, m1)
    requires forall r :: r != ref ==> Untouched(m0, m1, r)
    requires idx < |m1| && m1[idx].historyRef == ref
    requires m2 == WithSchedule(m1, idx, name, scheduled)
    ensures MetaChainedFor(m2, ref) && RefsKept(m0, m2)
    ensures forall r :: r != ref ==> Untouched(m0, m2, r)
  {
    forall r ensures KeepsVersions(m1, m2, r) && (r != ref ==> Untouched(m1, m2, r)) {
      if scheduled {
        ScheduleKeeps(m1, idx, name, r);
      }
    }
    KeepsChained(m1, m2, ref);
    forall r | r != ref ensures Untouched(m0, m2, r) {
      UntouchedTransitive(m0, m1, m2, r);
    }
  }

  /** Every rewrite the chaining reports is of a row still in the table. */
  lemma WritesAreRows(h0: seq<HistoryRecord>, k: Key, w: ChainWrite)
    requires exists x :: x in h0 && x.key == k && w == WriteFor(h0, x)
    ensures exists j :: 0 <= j < |Rechain(h0, k)| && Rechain(h0, k)[j].historyId == w.historyId
  {
    var x :| x in h0 && x.key == k && w == WriteFor(h0, x);
    var j :| 0 <= j < |h0| && h0[j] == x;
    assert Rechain(h0, k)[j].historyId == x.historyId;
  }

  /** The ids of the rows whose rewrite is a refinement, the only ones whose versions may be updated in place. */
  ghost function RefinedIds(writes: seq<ChainWrite>): set<nat> {
    set w | w in writes && IsRefinement(w) :: w.historyId
  }

  lemma RefinedIdsStep(done: seq<ChainWrite>, w: ChainWrite)
    ensures RefinedIds(done + [w]) == RefinedIds(done) + (if IsRefinement(w) then {w.historyId} else {})
  {
    assert forall v :: v in done + [w] <==> v in done || v == w;
  }

  /** History row `id` is in `h` and starts beyond the activation grace after `now`. */
  ghost predicate ActivationDue(h: seq<HistoryRecord>, id: nat, now: Timestamp) {
    exists j :: 0 <= j < |h| && h[j].historyId == id && NeedsActivation(h[j].validFrom, now)
  }

  /** No version of `m` holds task name `name`. */
  predicate NameUnused(m: seq<MetaRecord>, name: string) {
    forall j :: 0 <= j < |m| ==> m[j].taskName != Some(name)
  }

  /**
   * Meta row `x` is a `~` version written at `now` for one of the rewrites
   * `writes`, holding the rewritten row's current state. It carries no task,
   * or the activation of its row under the row's own task name, for a row
   * that starts beyond the grace.
   */
  ghost predicate RewriteVersion(x: MetaRecord, h: seq<HistoryRecord>, writes: seq<ChainWrite>, now: Timestamp,
                                 taskName: nat -> string) {
    && x.metaType == Changed && x.sysFrom == now && x.changeReason == ""
    && (exists w :: w in writes && x.historyRef == Some(w.historyId))
    && Mirrors(h, x)
    && (x.taskStatus == Scheduled ==> x.taskName == Some(taskName(x.historyRef.value)) && ActivationDue(h, x.historyRef.value, now))
    && (x.taskStatus != Scheduled ==> x.taskStatus == NoTask && x.taskName == None)
  }

  /**
   * The task bookkeeping of `after` against `before`: when `scheduled`,
   * version `idx`, one of history row `id`, is scheduled under `name`; every
   * other earlier version keeps its task and every added one has none.
   */
  ghost predicate TaskStep(before: seq<MetaRecord>, after: seq<MetaRecord>, id: nat, name: string, scheduled: bool, idx: nat) {
    && |before| <= |after|
    && (scheduled ==> && idx < |after| && after[idx].historyRef == Some(id)
                      && after[idx].taskStatus == Scheduled && after[idx].taskName == Some(name))
    && (forall k :: 0 <= k < |after| && !(scheduled && k == idx) ==>
          if k < |before| then after[k].taskStatus == before[k].taskStatus && after[k].taskName == before[k].taskName
          else after[k].taskStatus == NoTask && after[k].taskName == None)
  }

  /**
   * A meta write for `row`, its `sys_to` chaining and the scheduling of
   * version `idx` change tasks only there; the name is taken in the written
   * table exactly when it was before; scheduling keeps the latest version.
   */
  lemma WrittenTasks(m0: seq<MetaRecord>, row: HistoryRecord, mtype: HistoryType, now: Timestamp, id: nat, pos: nat,
                     inPlace: bool, idx: nat, name: string, scheduled: bool)
    requires inPlace ==> pos < |m0|
    requires var mid := RechainMeta(Written(m0, row, mtype, now, id, pos, inPlace), Some(row.historyId));
      idx < |mid| && mid[idx].historyRef == Some(row.historyId)
    ensures var mid := RechainMeta(Written(m0, row, mtype, now, id, pos, inPlace), Some(row.historyId));
      && TaskStep(m0, WithSchedule(mid, idx, name, scheduled), row.historyId, name, scheduled, idx)
      && (NameTaken(mid, idx, name) <==> NameTaken(m0, idx, name))
      && (IsLatest(mid, Some(row.historyId), idx) ==> IsLatest(WithSchedule(mid, idx, name, scheduled), Some(row.historyId), idx))
  {
    var mid := RechainMeta(Written(m0, row, mtype, now, id, pos, inPlace), Some(row.historyId));
    assert forall k :: 0 <= k < |mid| ==>
      (mid[k].taskName == (if k < |m0| then m0[k].taskName else None)
       && mid[k].taskStatus == (if k < |m0| then m0[k].taskStatus else NoTask));
    var m2 := WithSchedule(mid, idx, name, scheduled);
    assert forall k :: 0 <= k < |m2| ==> m2[k].historyRef == mid[k].historyRef && MetaStamp(m2[k]) == MetaStamp(mid[k]);
  }

  /** Versions of `ref` left untouched keep its latest version. */
  lemma UntouchedLatest(m1: seq<MetaRecord>, m2: seq<MetaRecord>, ref: Option<nat>, i: nat)
    requires Untouched(m1, m2, ref) && IsLatest(m1, ref, i)
    ensures IsLatest(m2, ref, i) && m2[i] == m1[i]
  {
    forall j | 0 <= j < |m2| && m2[j].historyRef == ref ensures AtMost(MetaStamp(m2[j]), MetaStamp(m2[i])) {
      assert j < |m1| && m1[j].historyRef == ref;
    }
  }

  /**
   * Rewritten row `id`, when it starts beyond the grace under a task name
   * that no version of `m0` and no other of the rewrites `all` holds, has its
   * latest version in `m` scheduled under that name.
   */
  ghost predicate RewriteScheduled(m0: seq<MetaRecord>, m: seq<MetaRecord>, h: seq<HistoryRecord>, all: seq<ChainWrite>,
                                   id: nat, now: Timestamp, taskName: nat -> string) {
    && ActivationDue(h, id, now) && NameUnused(m0, taskName(id))
    && (forall u :: u in all && u.historyId != id ==> taskName(u.historyId) != taskName(id))
    ==> exists i :: IsLatest(m, Some(id), i) && m[i].taskStatus == Scheduled && m[i].taskName == Some(taskName(id))
  }

  /**
   * The task bookkeeping after the handlers of the rewrites `done`, out of
   * the chaining's rewrites `all`: every task name in `m` is the one its
   * position held in `m0` or a rewritten row's own, and every rewritten row
   * is `RewriteScheduled`.
   */
  ghost predicate RewritesTasked(m0: seq<MetaRecord>, m: seq<MetaRecord>, h: seq<HistoryRecord>, all: seq<ChainWrite>,
                                 done: seq<ChainWrite>, now: Timestamp, taskName: nat -> string) {
    && |m0| <= |m|
    && (forall k :: 0 <= k < |m| && m[k].taskName.Some? ==>
          (k < |m0| && m[k].taskName == m0[k].taskName) || exists v :: v in done && m[k].taskName == Some(taskName(v.historyId)))
    && forall v :: v in done ==> RewriteScheduled(m0, m, h, all, v.historyId, now, taskName)
  }

  /** One more rewrite's handlers extend `RewritesTasked` by that rewrite. */
  lemma TasksStep(m0: seq<MetaRecord>, before: seq<MetaRecord>, after: seq<MetaRecord>, h: seq<HistoryRecord>,
                  all: seq<ChainWrite>, done: seq<ChainWrite>, w: ChainWrite, row: HistoryRecord, now: Timestamp,
                  taskName: nat -> string, idx: nat, scheduled: bool)
    requires RewritesTasked(m0, before, h, all, done, now, taskName)
    requires w in all && forall v :: v in done ==> v in all && v.historyId != w.historyId
    requires row in h && row.historyId == w.historyId
    requires forall p, q :: 0 <= p < q < |h| ==> h[p].historyId != h[q].historyId
    requires TaskStep(before, after, w.historyId, taskName(w.historyId), scheduled, idx)
    requires IsLatest(after, Some(w.historyId), idx)
    requires scheduled <==> NeedsActivation(row.validFrom, now) && !NameTaken(before, idx, taskName(w.historyId))
    requires forall r :: r != Some(w.historyId) ==> Untouched(before, after, r)
    ensures RewritesTasked(m0, after, h, all, done + [w], now, taskName)
  {
    var name := taskName(w.historyId);
    forall k | 0 <= k < |after| && after[k].taskName.Some?
      ensures (k < |m0| && after[k].taskName == m0[k].taskName)
              || exists v :: v in done + [w] && after[k].taskName == Some(taskName(v.historyId))
    {
      if scheduled && k == idx {
        assert w in done + [w];
      } else if !(k < |m0| && before[k].taskName == m0[k].taskName) {
        var v :| v in done && before[k].taskName == Some(taskName(v.historyId));
        assert v in done + [w];
      }
    }
    forall v | v in done + [w] ensures RewriteScheduled(m0, after, h, all, v.historyId, now, taskName) {
      if v in done {
        if ActivationDue(h, v.historyId, now) && NameUnused(m0, taskName(v.historyId))
           && (forall u :: u in all && u.historyId != v.historyId ==> taskName(u.historyId) != taskName(v.historyId)) {
          var i :| IsLatest(before, Some(v.historyId), i) && before[i].taskStatus == Scheduled
                   && before[i].taskName == Some(taskName(v.historyId));
          UntouchedLatest(before, after, Some(v.historyId), i);
        }
      } else if ActivationDue(h, w.historyId, now) && NameUnused(m0, name)
                && (forall u :: u in all && u.historyId != w.historyId ==> taskName(u.historyId) != name) {
        var j :| 0 <= j < |h| && h[j].historyId == w.historyId && NeedsActivation(h[j].validFrom, now);
        var p :| 0 <= p < |h| && h[p] == row;
        assert j == p;
        assert forall v :: v in done ==> taskName(v.historyId) != name;
        forall t | 0 <= t < |before| && t != idx ensures before[t].taskName != Some(name) {
        }
      }
    }
  }

  /** A row of the rewrites before position `i` is another row than the `i`th. */
  lemma EarlierOthers(writes: seq<ChainWrite>, i: nat)
    requires i < |writes| && DistinctWrites(writes)
    ensures forall v :: v in writes[..i] ==> v in writes && v.historyId != writes[i].historyId
  {
    forall v | v in writes[..i] ensures v in writes && v.historyId != writes[i].historyId {
      var a :| 0 <= a < i && writes[..i][a] == v;
      assert writes[a] == v;
    }
  }

  /** Some version of history row `id` holds its current state. */
  ghost predicate Recorded(m: seq<MetaRecord>, h: seq<HistoryRecord>, id: nat) {
    exists k :: 0 <= k < |m| && m[k].historyRef == Some(id) && Mirrors(h, m[k])
  }

  /**
   * The meta writes and rescheduling of every rewrite, in the order the
   * chaining made them. Each rewrite adds at most one version, and every
   * rewrite that is not a refinement adds one; every added version is a `~`
   * version at `now` holding the rewritten row's new state; earlier versions
   * stay the same versions, with a new snapshot only for a refined row, and
   * keep their schedules.
   */
  method RewritesLoop(st: Store, writes: seq<ChainWrite>, now: Timestamp, taskName: nat -> string)
    requires st.Valid()
    requires forall w :: w in writes ==> exists j :: 0 <= j < |st.history| && st.history[j].historyId == w.historyId
    requires DistinctWrites(writes)
    modifies st`meta, st`nextMetaId
    ensures st.Valid()
    ensures |old(st.meta)| <= |st.meta| <= |old(st.meta)| + |writes|
    ensures st.nextMetaId == old(st.nextMetaId) + (|st.meta| - |old(st.meta)|)
    ensures forall k :: |old(st.meta)| <= k < |st.meta| ==> RewriteVersion(st.meta[k], st.history, writes, now, taskName)
    ensures forall w :: w in writes && !IsRefinement(w) ==>
      exists k :: |old(st.meta)| <= k < |st.meta| && st.meta[k].historyRef == Some(w.historyId)
    ensures forall w :: w in writes ==> Recorded(st.meta, st.history, w.historyId)
    ensures Grows(old(st.meta), st.meta, st.history, RefinedIds(writes))
    ensures SchedulesKept(old(st.meta), st.meta, taskName)
    ensures forall w :: w in writes ==> MetaChainedFor(st.meta, Some(w.historyId))
    ensures RefsKept(old(st.meta), st.meta)
    ensures forall r :: (forall w :: w in writes ==> r != Some(w.historyId)) ==> Untouched(old(st.meta), st.meta, r)
    ensures RewritesDone(old(st.meta), old(st.nextMetaId), st.meta, st.nextMetaId, st.history, writes, now, taskName)
    ensures RewritesTasked(old(st.meta), st.meta, st.history, writes, writes, now, taskName)
  {
    ghost var m0, n0 := st.meta, st.nextMetaId;
    var i := 0;
    while i < |writes|
      invariant 0 <= i <= |writes|
      invariant st.Valid()
      invariant RewritesDone(m0, n0, st.meta, st.nextMetaId, st.history, writes[..i], now, taskName)
      invariant RewritesTasked(m0, st.meta, st.history, writes, writes[..i], now, taskName)
    {
      var w := writes[i];
      assert writes[..i + 1] == writes[..i] + [w];
      assert w in writes;
      var p := RowById(st.history, w.historyId);
      var row := st.history[p.value];
      ghost var before, nb := st.meta, st.nextMetaId;
      var inPlace, pos, idx, scheduled := AfterRewrite(st, row, IsRefinement(w), now, taskName);
      assert scheduled ==> ActivationDue(st.history, w.historyId, now);
      RewritesDoneStep(m0, n0, before, nb, st.meta, st.nextMetaId, st.history, writes[..i], w, now, taskName, pos, inPlace,
                       idx, scheduled);
      EarlierOthers(writes, i);
      TasksStep(m0, before, st.meta, st.history, writes, writes[..i], w, row, now, taskName, idx, scheduled);
      i := i + 1;
    }
    assert writes[..i] == writes;
  }

  /**
   * The state of the meta table `m` (next id `n`) after the handlers of the
   * rewrites `done`, from `m0` (next id `n0`): what `RewritesLoop` promises,
   * for the rewrites handled so far.
   */
  ghost predicate RewritesDone(m0: seq<MetaRecord>, n0: nat, m: seq<MetaRecord>, n: nat, h: seq<HistoryRecord>,
                               done: seq<ChainWrite>, now: Timestamp, taskName: nat -> string)
  {
    && |m0| <= |m| <= |m0| + |done|
    && n == n0 + (|m| - |m0|)
    && (forall k :: |m0| <= k < |m| ==> RewriteVersion(m[k], h, done, now, taskName))
    && (forall v :: v in done && !IsRefinement(v) ==> exists k :: |m0| <= k < |m| && m[k].historyRef == Some(v.historyId))
    && (forall v :: v in done ==> Recorded(m, h, v.historyId))
    && Grows(m0, m, h, RefinedIds(done))
    && SchedulesKept(m0, m, taskName)
    && RefsKept(m0, m)
    && (forall v :: v in done ==> MetaChainedFor(m, Some(v.historyId)))
    && (forall r :: (forall v :: v in done ==> r != Some(v.historyId)) ==> Untouched(m0, m, r))
  }

  /** One more rewrite's handlers, as `AfterRewrite` states them, extend `RewritesDone` by that rewrite. */
  lemma RewritesDoneStep(m0: seq<MetaRecord>, n0: nat, before: seq<MetaRecord>, nb: nat, after: seq<MetaRecord>, na: nat,
                         h: seq<HistoryRecord>, done: seq<ChainWrite>, w: ChainWrite, now: Timestamp,
                         taskName: nat -> string, pos: nat, inPlace: bool, idx: nat, scheduled: bool)
    requires RewritesDone(m0, n0, before, nb, h, done, now, taskName)
    requires TaskStep(before, after, w.historyId, taskName(w.historyId), scheduled, idx)
    requires scheduled ==> ActivationDue(h, w.historyId, now)
    requires |after| == |before| + (if inPlace then 0 else 1) && na == nb + (if inPlace then 0 else 1)
    requires !IsRefinement(w) ==> !inPlace
    requires !inPlace ==> pos == |before| && after[pos].metaType == Changed && after[pos].sysFrom == now && after[pos].changeReason == ""
    requires pos < |after| && after[pos].historyRef == Some(w.historyId) && Mirrors(h, after[pos])
    requires Grows(before, after, h, if IsRefinement(w) then {w.historyId} else {})
    requires SchedulesKept(before, after, taskName)
    requires MetaChainedFor(after, Some(w.historyId)) && RefsKept(before, after)
    requires forall r :: r != Some(w.historyId) ==> Untouched(before, after, r)
    ensures RewritesDone(m0, n0, after, na, h, done + [w], now, taskName)
  {
    RewriteStep(m0, before, after, done, w);
    RecordStep(m0, before, after, h, done, w, now, taskName, pos, inPlace, idx, scheduled);
    RefinedIdsStep(done, w);
    GrowsTransitive(m0, before, after, h, RefinedIds(done), if IsRefinement(w) then {w.historyId} else {});
    SchedulesKeptTransitive(m0, before, after, taskName);
  }

  /** The loop's bookkeeping of added and recorded versions extends over one more rewrite. */
  lemma RecordStep(m0: seq<MetaRecord>, before: seq<MetaRecord>, after: seq<MetaRecord>, h: seq<HistoryRecord>,
                   done: seq<ChainWrite>, w: ChainWrite, now: Timestamp, taskName: nat -> string,
                   pos: nat, inPlace: bool, idx: nat, scheduled: bool)
    requires |m0| <= |before|
    requires forall k :: |m0| <= k < |before| ==> RewriteVersion(before[k], h, done, now, taskName)
    requires forall v :: v in done && !IsRefinement(v) ==> exists k :: |m0| <= k < |before| && before[k].historyRef == Some(v.historyId)
    requires forall v :: v in done ==> Recorded(before, h, v.historyId)
    requires Grows(before, after, h, if IsRefinement(w) then {w.historyId} else {})
    requires |after| == |before| + (if inPlace then 0 else 1)
    requires !IsRefinement(w) ==> !inPlace
    requires !inPlace ==> pos == |before| && after[pos].metaType == Changed && after[pos].sysFrom == now && after[pos].changeReason == ""
    requires pos < |after| && after[pos].historyRef == Some(w.historyId) && Mirrors(h, after[pos])
    requires TaskStep(before, after, w.historyId, taskName(w.historyId), scheduled, idx)
    requires scheduled ==> ActivationDue(h, w.historyId, now)
    ensures forall k :: |m0| <= k < |after| ==> RewriteVersion(after[k], h, done + [w], now, taskName)
    ensures forall v :: v in done + [w] && !IsRefinement(v) ==>
      exists k :: |m0| <= k < |after| && after[k].historyRef == Some(v.historyId)
    ensures forall v :: v in done + [w] ==> Recorded(after, h, v.historyId)
  {
    forall k | 0 <= k < |before| && Mirrors(h, before[k]) ensures Mirrors(h, after[k]) {
      if after[k].snapshot == before[k].snapshot {
        var j :| 0 <= j < |h| && h[j].historyId == before[k].historyRef.value && h[j] == before[k].snapshot;
        assert h[j].historyId == after[k].historyRef.value && h[j] == after[k].snapshot;
      }
    }
    forall k | |m0| <= k < |after| ensures RewriteVersion(after[k], h, done + [w], now, taskName) {
      assert w in done + [w];
      if k < |before| {
        var v :| v in done && before[k].historyRef == Some(v.historyId);
        assert v in done + [w];
      }
    }
    forall v | v in done + [w] ensures Recorded(after, h, v.historyId) {
      if v != w {
        var k :| 0 <= k < |before| && before[k].historyRef == Some(v.historyId) && Mirrors(h, before[k]);
        assert after[k].historyRef == Some(v.historyId);
      }
    }
  }

  /** The loop's frame facts extend over one more rewrite. */
  lemma RewriteStep(m0: seq<MetaRecord>, before: seq<MetaRecord>, after: seq<MetaRecord>, done: seq<ChainWrite>, w: ChainWrite)
    requires RefsKept(m0, before)
    requires forall v :: v in done ==> MetaChainedFor(before, Some(v.historyId))
    requires forall r :: (forall v :: v in done ==> r != Some(v.historyId)) ==> Untouched(m0, before, r)
    requires MetaChainedFor(after, Some(w.historyId)) && RefsKept(before, after)
    requires forall r :: r != Some(w.historyId) ==> Untouched(before, after, r)
    ensures RefsKept(m0, after)
    ensures forall v :: v in done + [w] ==> MetaChainedFor(after, Some(v.historyId))
    ensures forall r :: (forall v :: v in done + [w] ==> r != Some(v.historyId)) ==> Untouched(m0, after, r)
  {
    forall v | v in done + [w] ensures MetaChainedFor(after, Some(v.historyId)) {
      if v.historyId != w.historyId {
        assert v in done;
        UntouchedKeeps(before, after, Some(v.historyId));
        KeepsChained(before, after, Some(v.historyId));
      }
    }
    forall r | forall v :: v in done + [w] ==> r != Some(v.historyId)
      ensures Untouched(m0, after, r)
    {
      assert w in done + [w];
      assert forall v :: v in done ==> v in done + [w];
      UntouchedTransitive(m0, before, after, r);
    }
  }

  /**
   * The meta table `m` (next id `n`) that the after-save handlers of history
   * row `saved` leave behind, from `m0` (next id `n0`), where `h` is the
   * history after the chaining and `writes` are its rewrites. The save's own
   * version of type `mtype` is new and sits at position `|m0|`; it holds the
   * saved row, or that row's new state when the chaining refined it. After
   * it come at most one `~` version per rewrite, one for each rewrite that
   * did not refine an open version, each holding the current state of its
   * row. Every rewritten row has a version holding its current state. The
   * versions of the saved row and of every rewritten row are strictly
   * chained. The older versions keep their ids, references, stamps, types
   * and reasons; only the snapshots of refined rows change, to those rows'
   * new states. The versions of every other history row are untouched.
   * Every rewritten row whose task name differs from the saved row's is
   * `RewriteScheduled` from `m0`.
   */
  ghost predicate SaveVersions(m0: seq<MetaRecord>, n0: nat, m: seq<MetaRecord>, n: nat, h: seq<HistoryRecord>,
                               saved: HistoryRecord, mtype: HistoryType, now: Timestamp, writes: seq<ChainWrite>,
                               taskName: nat -> string)
  {
    && |m0| < |m| <= |m0| + 1 + |writes|
    && n == n0 + (|m| - |m0|)
    && (var x := m[|m0|];
        && x.metaId == n0 && x.historyRef == Some(saved.historyId)
        && x.sysFrom == now && x.metaType == mtype && x.changeReason == ""
        && (x.snapshot == saved || (saved.historyId in RefinedIds(writes) && Mirrors(h, x))))
    && (forall k :: |m0| < k < |m| ==> RewriteVersion(m[k], h, writes, now, taskName))
    && (forall w :: w in writes && !IsRefinement(w) ==> exists k :: |m0| < k < |m| && m[k].historyRef == Some(w.historyId))
    && (forall w :: w in writes ==> Recorded(m, h, w.historyId))
    && Grows(m0, m, h, RefinedIds(writes))
    && MetaChainedFor(m, Some(saved.historyId))
    && (forall w :: w in writes ==> MetaChainedFor(m, Some(w.historyId)))
    && (forall r :: r != Some(saved.historyId) && (forall w :: w in writes ==> r != Some(w.historyId)) ==> Untouched(m0, m, r))
    && (forall w :: w in writes && taskName(w.historyId) != taskName(saved.historyId) ==>
          RewriteScheduled(m0, m, h, writes, w.historyId, now, taskName))
  }

  /**
   * The activation a save of history row `saved` schedules under task name
   * `name`. It is scheduled only for a row that starts beyond the grace.
   * It is always scheduled for such a row when no version in `m0` held
   * the name. Once scheduled, it sits on the latest version of the saved
   * row among the versions up to the save's own.
   */
  ghost predicate SaveScheduled(m0: seq<MetaRecord>, m: seq<MetaRecord>, saved: HistoryRecord, now: Timestamp,
                                name: string, scheduled: bool)
  {
    && |m0| < |m|
    && (scheduled ==> NeedsActivation(saved.validFrom, now))
    && (NeedsActivation(saved.validFrom, now) && (forall j :: 0 <= j < |m0| ==> m0[j].taskName != Some(name)) ==> scheduled)
    && (scheduled ==> exists i :: && IsLatest(m[..|m0| + 1], Some(saved.historyId), i)
                                  && m[i].taskStatus == Scheduled && m[i].taskName == Some(name))
  }

  /**
   * The handlers run after history row `saved` of entity `k` is written, in
   * the order they are registered: its meta version of type `mtype` (always
   * a new one) and that version's `sys_to` chaining; the get-or-create of
   * the saved row's meta version and the scheduling of its activation; the
   * `valid_to` chaining of the entity, with the handlers of each rewrite it
   * makes; and the synchronisation of the main row.
   */
  method AfterHistorySaved(st: Store, saved: HistoryRecord, mtype: HistoryType, now: Timestamp, taskName: nat -> string)
    returns (writes: seq<ChainWrite>, scheduled: bool, outcome: SyncOutcome, eff: Option<nat>)
    requires st.Valid()
    modifies st`history, st`meta, st`nextMetaId, st`main
    ensures st.Valid()
    ensures st.history == Rechain(old(st.history), saved.key)
    ensures ChainedFor(st.history, saved.key)
    ensures ChainWrites(old(st.history), saved.key, writes)
    ensures SaveVersions(old(st.meta), old(st.nextMetaId), st.meta, st.nextMetaId, st.history, saved, mtype, now, writes, taskName)
    ensures SaveScheduled(old(st.meta), st.meta, saved, now, taskName(saved.historyId), scheduled)
    ensures Synced(st.schema, old(st.main), st.main, st.history, saved.key, now, eff)
  {
    writes, scheduled := SaveAndChain(st, saved, mtype, now, taskName);
    ghost var m3, n3, h3 := st.meta, st.nextMetaId, st.history;
    outcome, eff := SyncRecordForModel(st, saved.key, true, now);
    assert st.meta == m3 && st.nextMetaId == n3 && st.history == h3;
  }

  /** The meta handlers of a save of `saved` and the `valid_to` chaining of its entity, before the main table is synced. */
  method SaveAndChain(st: Store, saved: HistoryRecord, mtype: HistoryType, now: Timestamp, taskName: nat -> string)
    returns (writes: seq<ChainWrite>, scheduled: bool)
    requires st.Valid()
    modifies st`history, st`meta, st`nextMetaId
    ensures st.Valid()
    ensures st.history == Rechain(old(st.history), saved.key)
    ensures ChainedFor(st.history, saved.key)
    ensures ChainWrites(old(st.history), saved.key, writes)
    ensures SaveVersions(old(st.meta), old(st.nextMetaId), st.meta, st.nextMetaId, st.history, saved, mtype, now, writes, taskName)
    ensures SaveScheduled(old(st.meta), st.meta, saved, now, taskName(saved.historyId), scheduled)
  {
    ghost var m0, n0, h0 := st.meta, st.nextMetaId, st.history;
    var idx;
    idx, scheduled := SaveOwnVersion(st, saved, mtype, now, taskName);
    ghost var m2 := st.meta;
    writes := ChainWithRewrites(st, saved.key, now, taskName);
    SavedTail(m0, n0, m2, st.meta, st.nextMetaId, h0, st.history, saved, mtype, now, writes, idx, scheduled, taskName);
  }

  /**
   * The `valid_to` chaining of entity `k`, each of whose rewrites runs the
   * handlers of a save in turn: a `~` version of the rewritten row (in place
   * for a refinement of an open version) and the rescheduling of its
   * activation.
   */
  method ChainWithRewrites(st: Store, k: Key, now: Timestamp, taskName: nat -> string) returns (writes: seq<ChainWrite>)
    requires st.Valid()
    modifies st`history, st`meta, st`nextMetaId
    ensures st.Valid()
    ensures st.history == Rechain(old(st.history), k)
    ensures ChainedFor(st.history, k)
    ensures ChainWrites(old(st.history), k, writes)
    ensures DistinctWrites(writes)
    ensures RewritesDone(old(st.meta), old(st.nextMetaId), st.meta, st.nextMetaId, st.history, writes, now, taskName)
    ensures RewritesTasked(old(st.meta), st.meta, st.history, writes, writes, now, taskName)
  {
    ghost var h0 := st.history;
    writes := ChainValidTo(st, k);
    RechainChains(h0, k);
    forall w | w in writes ensures exists j :: 0 <= j < |st.history| && st.history[j].historyId == w.historyId {
      WritesAreRows(h0, k, w);
    }
    RewritesLoop(st, writes, now, taskName);
  }

  /**
   * What the first two handlers of a save of `saved` leave in the meta table
   * `m`, from `m0`: the row's own new version of type `mtype` at the end,
   * chained by `sys_to`, every other row's versions as they were, and the
   * row's latest version at `idx`, scheduled under the row's task name when
   * `scheduled`, which holds for a row beyond the grace whose name no
   * version held.
   */
  ghost predicate OwnVersionSaved(m0: seq<MetaRecord>, n0: nat, m: seq<MetaRecord>, n: nat, h: seq<HistoryRecord>,
                                  saved: HistoryRecord, mtype: HistoryType, now: Timestamp, taskName: nat -> string,
                                  idx: nat, scheduled: bool)
  {
    && |m| == |m0| + 1 && n == n0 + 1
    && (var x := m[|m0|];
        && x.metaId == n0 && x.historyRef == Some(saved.historyId)
        && x.sysFrom == now && x.metaType == mtype && x.changeReason == "" && x.snapshot == saved)
    && MetaChainedFor(m, Some(saved.historyId)) && RefsKept(m0, m)
    && (forall r :: r != Some(saved.historyId) ==> Untouched(m0, m, r))
    && Grows(m0, m, h, {})
    && SchedulesKept(m0, m, taskName)
    && IsLatest(m, Some(saved.historyId), idx)
    && (scheduled ==> NeedsActivation(saved.validFrom, now))
    && (NeedsActivation(saved.validFrom, now)
        && (forall j :: 0 <= j < |m0| ==> m0[j].taskName != Some(taskName(saved.historyId)))
        ==> scheduled)
    && (scheduled ==> m[idx].taskStatus == Scheduled && m[idx].taskName == Some(taskName(saved.historyId)))
    && TaskStep(m0, m, saved.historyId, taskName(saved.historyId), scheduled, idx)
  }

  /**
   * The first two handlers of a saved history row: its own meta version of
   * type `mtype`, always a new one, with that version's `sys_to` chaining;
   * then the get-or-create of its latest version, which the first handler
   * has just made exist, and the scheduling of that version's activation
   * under the row's task name when the row starts beyond the grace and the
   * name is free.
   */
  method SaveOwnVersion(st: Store, saved: HistoryRecord, mtype: HistoryType, now: Timestamp, taskName: nat -> string)
    returns (idx: nat, scheduled: bool)
    requires st.Valid()
    modifies st`meta, st`nextMetaId
    ensures st.Valid()
    ensures OwnVersionSaved(old(st.meta), old(st.nextMetaId), st.meta, st.nextMetaId, st.history, saved, mtype, now, taskName, idx, scheduled)
  {
    ghost var m0, n0 := st.meta, st.nextMetaId;
    var name := taskName(saved.historyId);
    var metaId, pos, inPlace := WriteMetaVersion(st, saved, mtype, false, now);
    ghost var m1 := st.meta;
    var created;
    idx, created, scheduled := OnHistorySavedCreateMeta(st, saved, now, name);
    SavedFound(m0, n0, m1, st.meta, saved, mtype, now, idx, created, scheduled, name);
    SavedShape(m0, n0, m1, st.meta, st.history, saved, mtype, now, idx, scheduled, taskName);
    ScheduleFrame(m0, m1, st.meta, Some(saved.historyId), idx, name, scheduled);
    WrittenTasks(m0, saved, mtype, now, n0, |m0|, false, idx, name, scheduled);
  }

  /** The saved row's own version exists before create_meta runs, so that handler finds it and creates none. */
  lemma SavedFound(m0: seq<MetaRecord>, n0: nat, m1: seq<MetaRecord>, m2: seq<MetaRecord>, saved: HistoryRecord,
                   mtype: HistoryType, now: Timestamp, idx: nat, created: bool, scheduled: bool, name: string)
    requires m1 == RechainMeta(Written(m0, saved, mtype, now, n0, |m0|, false), Some(saved.historyId))
    requires created <==> forall j :: 0 <= j < |m1| ==> m1[j].historyRef != Some(saved.historyId)
    requires var mid := if created then WithInitialMeta(m1, saved, n0 + 1, now) else m1;
      && IsLatest(mid, Some(saved.historyId), idx)
      && (scheduled <==> NeedsActivation(saved.validFrom, now) && !NameTaken(mid, idx, name))
      && m2 == if scheduled then mid[idx := mid[idx].(taskStatus := Scheduled, taskName := Some(name))] else mid
    ensures !created
    ensures IsLatest(m1, Some(saved.historyId), idx) && IsLatest(m2, Some(saved.historyId), idx)
    ensures scheduled <==> NeedsActivation(saved.validFrom, now) && !NameTaken(m1, idx, name)
    ensures m2 == WithSchedule(m1, idx, name, scheduled)
  {
    assert m1[|m0|].historyRef == Some(saved.historyId);
    forall j | 0 <= j < |m2| ensures m2[j].historyRef == m1[j].historyRef && MetaStamp(m2[j]) == MetaStamp(m1[j]) {
    }
  }

  /** The table the saved row's own meta write and scheduling leave. */
  lemma SavedShape(m0: seq<MetaRecord>, n0: nat, m1: seq<MetaRecord>, m2: seq<MetaRecord>, h0: seq<HistoryRecord>, saved: HistoryRecord,
                   mtype: HistoryType, now: Timestamp, idx: nat, scheduled: bool, taskName: nat -> string)
    requires m1 == RechainMeta(Written(m0, saved, mtype, now, n0, |m0|, false), Some(saved.historyId))
    requires IsLatest(m1, Some(saved.historyId), idx)
    requires scheduled <==> NeedsActivation(saved.validFrom, now) && !NameTaken(m1, idx, taskName(saved.historyId))
    requires m2 == WithSchedule(m1, idx, taskName(saved.historyId), scheduled)
    ensures |m2| == |m0| + 1
    ensures var x := m2[|m0|];
      && x.metaId == n0 && x.historyRef == Some(saved.historyId)
      && x.sysFrom == now && x.metaType == mtype && x.changeReason == "" && x.snapshot == saved
    ensures NeedsActivation(saved.validFrom, now)
            && (forall j :: 0 <= j < |m0| ==> m0[j].taskName != Some(taskName(saved.historyId)))
            ==> scheduled
    ensures Grows(m0, m2, h0, {})
    ensures SchedulesKept(m0, m2, taskName)
  {
    if NeedsActivation(saved.validFrom, now) && (forall j :: 0 <= j < |m0| ==> m0[j].taskName != Some(taskName(saved.historyId))) {
      NameFree(m0, m1, saved, mtype, now, n0, idx, taskName(saved.historyId));
    }
    WrittenGrows(m0, h0, saved, mtype, now, n0, |m0|, false, {}, taskName);
    ScheduleGrows(m1, h0, idx, saved.historyId, taskName, scheduled);
    GrowsTransitive(m0, m1, m2, h0, {}, {});
    SchedulesKeptTransitive(m0, m1, m2, taskName);
  }

  /** When no row of `m0` holds task name `name`, no row other than the new version does after writing it. */
  lemma NameFree(m0: seq<MetaRecord>, m1: seq<MetaRecord>, saved: HistoryRecord, mtype: HistoryType, now: Timestamp,
                 id: nat, idx: nat, name: string)
    requires m1 == RechainMeta(Written(m0, saved, mtype, now, id, |m0|, false), Some(saved.historyId))
    requires forall j :: 0 <= j < |m0| ==> m0[j].taskName != Some(name)
    ensures !NameTaken(m1, idx, name)
  {
    assert forall j :: 0 <= j < |m1| ==> m1[j].taskName == (if j < |m0| then m0[j].taskName else None);
  }

  /** The facts about the whole meta table after the rewrites, from those of the save's own write and of the rewrites. */
  lemma SavedTail(m0: seq<MetaRecord>, n0: nat, m2: seq<MetaRecord>, m3: seq<MetaRecord>, n3: nat,
                  h0: seq<HistoryRecord>, h: seq<HistoryRecord>, saved: HistoryRecord, mtype: HistoryType, now: Timestamp,
                  writes: seq<ChainWrite>, idx: nat, scheduled: bool, taskName: nat -> string)
    requires OwnVersionSaved(m0, n0, m2, n0 + 1, h0, saved, mtype, now, taskName, idx, scheduled)
    requires RewritesDone(m2, n0 + 1, m3, n3, h, writes, now, taskName)
    requires RewritesTasked(m2, m3, h, writes, writes, now, taskName)
    ensures SaveVersions(m0, n0, m3, n3, h, saved, mtype, now, writes, taskName)
    ensures SaveScheduled(m0, m3, saved, now, taskName(saved.historyId), scheduled)
  {
    AfterSavedFrame(m0, m2, m3, Some(saved.historyId), writes);
    GrowsAcross(m0, m2, m3, h0, h, RefinedIds(writes));
    SavedVersionKept(m2, m3, h, RefinedIds(writes), |m0|);
    if scheduled {
      ScheduledKept(m2, m3, h, RefinedIds(writes), Some(saved.historyId), idx, taskName);
    }
    SavedTasks(m0, m2, m3, h, saved, writes, now, taskName, idx, scheduled);
  }

  /** A name free before the save and other than the saved row's own is still free when the rewrites start. */
  lemma SavedTasks(m0: seq<MetaRecord>, m2: seq<MetaRecord>, m3: seq<MetaRecord>, h: seq<HistoryRecord>, saved: HistoryRecord,
                   writes: seq<ChainWrite>, now: Timestamp, taskName: nat -> string, idx: nat, scheduled: bool)
    requires TaskStep(m0, m2, saved.historyId, taskName(saved.historyId), scheduled, idx)
    requires RewritesTasked(m2, m3, h, writes, writes, now, taskName)
    ensures forall w :: w in writes && taskName(w.historyId) != taskName(saved.historyId) ==>
      RewriteScheduled(m0, m3, h, writes, w.historyId, now, taskName)
  {
    forall w | w in writes && taskName(w.historyId) != taskName(saved.historyId)
      ensures RewriteScheduled(m0, m3, h, writes, w.historyId, now, taskName)
    {
      if NameUnused(m0, taskName(w.historyId)) {
        assert NameUnused(m2, taskName(w.historyId));
        assert RewriteScheduled(m2, m3, h, writes, w.historyId, now, taskName);
      }
    }
  }

  /** Growth with no refined row holds whatever the history, so the steps before and after the chaining compose. */
  lemma GrowsAcross(m0: seq<MetaRecord>, m2: seq<MetaRecord>, m3: seq<MetaRecord>, h0: seq<HistoryRecord>, h: seq<HistoryRecord>,
                    refined: set<nat>)
    requires Grows(m0, m2, h0, {}) && Grows(m2, m3, h, refined)
    ensures Grows(m0, m3, h, refined)
  {
    assert Grows(m0, m2, h, {});
    GrowsTransitive(m0, m2, m3, h, {}, refined);
    assert {} + refined == refined;
  }

  /** The version the save itself wrote, at position `p`, stays that version through the rewrites. */
  lemma SavedVersionKept(m2: seq<MetaRecord>, m3: seq<MetaRecord>, h: seq<HistoryRecord>, refined: set<nat>, p: nat)
    requires p < |m2| && Grows(m2, m3, h, refined)
    ensures SameVersion(m2[p], m3[p])
    ensures m3[p].snapshot == m2[p].snapshot || (m2[p].historyRef.Some? && m2[p].historyRef.value in refined && Mirrors(h, m3[p]))
  {
  }

  /** The activation scheduled before the chaining is still in place after it. */
  lemma ScheduledKept(m2: seq<MetaRecord>, m3: seq<MetaRecord>, h: seq<HistoryRecord>, refined: set<nat>,
                      ref: Option<nat>, idx: nat, taskName: nat -> string)
    requires ref.Some? && IsLatest(m2, ref, idx)
    requires m2[idx].taskStatus == Scheduled && m2[idx].taskName == Some(taskName(ref.value))
    requires Grows(m2, m3, h, refined) && SchedulesKept(m2, m3, taskName)
    ensures IsLatest(m3[..|m2|], ref, idx) && m3[idx].taskStatus == Scheduled && m3[idx].taskName == Some(taskName(ref.value))
  {
    assert OwnSchedule(m2[idx], taskName);
    forall j | 0 <= j < |m2| ensures m3[j].historyRef == m2[j].historyRef && MetaStamp(m3[j]) == MetaStamp(m2[j]) {
      assert SameVersion(m2[j], m3[j]);
    }
  }

  /** The meta-level frame of the after-save sequence, from the save's own version on. */
  lemma AfterSavedFrame(m0: seq<MetaRecord>, m2: seq<MetaRecord>, m3: seq<MetaRecord>, ref: Option<nat>, writes: seq<ChainWrite>)
    requires MetaChainedFor(m2, ref) && RefsKept(m0, m2)
    requires forall r :: r != ref ==> Untouched(m0, m2, r)
    requires forall w :: w in writes ==> MetaChainedFor(m3, Some(w.historyId))
    requires RefsKept(m2, m3)
    requires forall r :: (forall w :: w in writes ==> r != Some(w.historyId)) ==> Untouched(m2, m3, r)
    ensures MetaChainedFor(m3, ref)
    ensures forall r :: r != ref && (forall w :: w in writes ==> r != Some(w.historyId)) ==> Untouched(m0, m3, r)
  {
    if forall w :: w in writes ==> ref != Some(w.historyId) {
      UntouchedKeeps(m2, m3, ref);
      KeepsChained(m2, m3, ref);
    }
    forall r | r != ref && (forall w :: w in writes ==> r != Some(w.historyId)) ensures Untouched(m0, m3, r) {
      UntouchedTransitive(m0, m2, m3, r);
    }
  }

  /**
   * A row saved to start later than `now` but within the activation grace
   * falls between the two mechanisms: the sync does not apply it, since it
   * does not cover `now`, and its save schedules no activation for it. It
   * reaches the main table only at the next write of the entity.
   */
  lemma InsideGraceIgnored(schema: Schema, main0: map<Key, Row>, main: map<Key, Row>, h0: seq<HistoryRecord>,
                           h: seq<HistoryRecord>, m0: seq<MetaRecord>, m: seq<MetaRecord>, saved: HistoryRecord,
                           now: Timestamp, name: string, scheduled: bool, eff: Option<nat>)
    requires h == Rechain(h0, saved.key)
    requires forall j :: 0 <= j < |h0| && h0[j].historyId == saved.historyId ==> h0[j].validFrom == saved.validFrom
    requires SaveScheduled(m0, m, saved, now, name, scheduled)
    requires Synced(schema, main0, main, h, saved.key, now, eff)
    requires now < saved.validFrom <= now + ActivationGrace
    ensures !scheduled
    ensures eff.Some? ==> h[eff.value].historyId != saved.historyId
  {
  }

  /**
   * A tracked save of the main instance `instance`: the history row written
   * by `create_historical_record`, then every handler its signal triggers.
   * The new row gets exactly one `+` version holding it; the entity's rows
   * end up strictly chained, the new row and every rewritten row have
   * strictly chained meta versions, and the main row reflects the version
   * effective at `now`.
   */
  method RecordVersion(st: Store, instance: Row, included: seq<Field>, htype: HistoryType,
                       historyDate: Option<Timestamp>, reason: string, now: Timestamp, taskName: nat -> string)
    returns (rec: HistoryRecord, writes: seq<ChainWrite>, scheduled: bool, eff: Option<nat>)
    requires st.Valid()
    requires st.schema.pk.attname in instance
    requires forall f :: f in included && !IsControl(f) ==> f.attname in instance
    modifies st`history, st`nextHistoryId, st`meta, st`nextMetaId, st`main
    ensures st.Valid()
    ensures rec.historyId == old(st.nextHistoryId) && rec.key == instance[st.schema.pk.attname]
    ensures rec.validFrom == historyDate.GetOr(now) && rec.validTo == None
    ensures rec.historyType == htype && rec.changeReason == reason
    ensures forall a :: a in rec.snapshot <==> exists f :: f in included && !IsControl(f) && f.attname == a
    ensures forall a :: a in rec.snapshot ==> rec.snapshot[a] == instance[a]
    ensures st.history == Rechain(old(st.history) + [rec], rec.key)
    ensures ChainedFor(st.history, rec.key)
    ensures SaveVersions(old(st.meta), old(st.nextMetaId), st.meta, st.nextMetaId, st.history, rec, Created, now, writes, taskName)
    ensures st.meta[|old(st.meta)|].snapshot == rec
    ensures SaveScheduled(old(st.meta), st.meta, rec, now, taskName(rec.historyId), scheduled)
    ensures Synced(st.schema, old(st.main), st.main, st.history, rec.key, now, eff)
    ensures rec.key in st.main <==> Live(st.history, eff)
    ensures st.main - {rec.key} == old(st.main) - {rec.key}
  {
    ghost var main0, m0, n0, h0 := st.main, st.meta, st.nextMetaId, st.history;
    rec := CreateHistoricalRecord(st, instance, included, htype, historyDate, reason, now);
    assert st.main == main0 && st.meta == m0 && st.nextMetaId == n0;
    ghost var h1 := st.history;
    assert h1 == h0 + [rec];
    var outcome;
    writes, scheduled, outcome, eff := AfterHistorySaved(st, rec, Created, now, taskName);
    NotRefined(h1, rec, writes);
    SyncedKeepsOthers(st.schema, main0, st.main, st.history, rec.key, now, eff);
  }

  /** A synchronised main table holds entity `k` exactly when its effective version is live, and every other row is unchanged. */
  lemma SyncedKeepsOthers(schema: Schema, main0: map<Key, Row>, main: map<Key, Row>, h: seq<HistoryRecord>, k: Key,
                          now: Timestamp, eff: Option<nat>)
    requires Synced(schema, main0, main, h, k, now, eff)
    ensures k in main <==> Live(h, eff)
    ensures main - {k} == main0 - {k}
  {
  }

  /** The chaining never refines the row just appended: its `valid_to` starts out null. */
  lemma NotRefined(h: seq<HistoryRecord>, rec: HistoryRecord, writes: seq<ChainWrite>)
    requires |h| > 0 && h[|h| - 1] == rec && rec.validTo.None?
    requires forall i, j :: 0 <= i < j < |h| ==> h[i].historyId != h[j].historyId
    requires forall w :: w in writes ==> exists x :: x in h && w == WriteFor(h, x)
    ensures rec.historyId !in RefinedIds(writes)
  {
  }

  /** A main table changed at most at `k`, by an update or a removal. */
  lemma OthersKept(before: map<Key, Row>, after: map<Key, Row>, k: Key, v: Row)
    requires after == before[k := v] || after == before - {k}
    ensures after - {k} == before - {k}
  {
  }

  /** The meta table after the history row `hid` is deleted: references to it become null. */
  function DetachMeta(m: seq<MetaRecord>, hid: nat): seq<MetaRecord> {
    seq(|m|, i requires 0 <= i < |m| => if m[i].historyRef == Some(hid) then m[i].(historyRef := None) else m[i])
  }

  /** The sequence without its element at position `p`. */
  function Without<T>(s: seq<T>, p: nat): (r: seq<T>)
    requires p < |s|
    ensures |r| == |s| - 1
    ensures forall j :: 0 <= j < |r| ==> r[j] == if j < p then s[j] else s[j + 1]
  {
    s[..p] + s[p + 1..]
  }

  /** No row of entity `k` starts before `vf`: there is nothing for the repair to close. */
  ghost predicate NothingBelow(h: seq<HistoryRecord>, k: Key, vf: Timestamp) {
    forall j :: 0 <= j < |h| && h[j].key == k ==> vf <= h[j].validFrom
  }

  /**
   * A version of a deleted history row once the delete is done: the
   * reference is null (`on_delete=SET_NULL`), a scheduled activation is
   * cancelled, and everything else is kept.
   */
  function DetachedVersion(x: MetaRecord): (y: MetaRecord)
    ensures y.historyRef == None && y.taskStatus != Scheduled
    ensures y.metaId == x.metaId && y.sysFrom == x.sysFrom && y.sysTo == x.sysTo && y.metaType == x.metaType
    ensures y.changeReason == x.changeReason && y.snapshot == x.snapshot && y.taskName == x.taskName
    ensures x.taskStatus == Scheduled <==> y.taskStatus == Cancelled && x.taskStatus != Cancelled
  {
    x.(historyRef := None, taskStatus := if x.taskStatus == Scheduled then Cancelled else x.taskStatus)
  }

  /** Every former version of history row `hid` is now its detached version, at the same position. */
  ghost predicate Detached(m0: seq<MetaRecord>, m: seq<MetaRecord>, hid: nat) {
    && |m0| <= |m|
    && forall i :: 0 <= i < |m0| && m0[i].historyRef == Some(hid) ==> m[i] == DetachedVersion(m0[i])
  }

  /** Clearing references keeps meta ids and task names as they were. */
  lemma DetachValid(m: seq<MetaRecord>, hid: nat, n: nat)
    requires MetaIdsFresh(m, n) && TaskNamesUnique(m)
    ensures MetaIdsFresh(DetachMeta(m, hid), n) && TaskNamesUnique(DetachMeta(m, hid))
  {
    var r := DetachMeta(m, hid);
    assert forall i :: 0 <= i < |m| ==> r[i].metaId == m[i].metaId && r[i].taskName == m[i].taskName;
  }

  /**
   * The pre-delete handler and the delete of row `p` itself: the row's
   * scheduled activations are cancelled, the row is removed, and every meta
   * version of it keeps its data but no longer refers to it.
   */
  method RemoveHistoryRow(st: Store, hid: nat, p: nat) returns (revoked: seq<string>)
    requires st.Valid() && p < |st.history| && st.history[p].historyId == hid
    modifies st`history, st`meta
    ensures st.Valid()
    ensures st.history == Without(old(st.history), p)
    ensures forall j :: 0 <= j < |st.history| ==> st.history[j].historyId != hid
    ensures |st.meta| == |old(st.meta)|
    ensures forall i :: 0 <= i < |st.meta| ==> st.meta[i].historyRef != Some(hid)
    ensures Detached(old(st.meta), st.meta, hid)
    ensures forall i :: 0 <= i < |st.meta| && old(st.meta)[i].historyRef != Some(hid) ==> st.meta[i] == old(st.meta)[i]
    ensures forall nm :: nm in revoked <==>
      exists i :: 0 <= i < |old(st.meta)| && Cancels(old(st.meta)[i], hid) && old(st.meta)[i].taskName == Some(nm) && nm != ""
  {
    ghost var h0 := st.history;
    revoked := CancelSchedules(st, hid);
    st.history := Without(st.history, p);
    assert forall j :: 0 <= j < |st.history| ==> st.history[j].historyId != hid by {
      forall j | 0 <= j < |st.history| ensures st.history[j].historyId != hid {
        if j < p {
          assert h0[j].historyId != h0[p].historyId;
        } else {
          assert h0[j + 1].historyId != h0[p].historyId;
        }
      }
    }
    DetachValid(st.meta, hid, st.nextMetaId);
    st.meta := DetachMeta(st.meta, hid);
  }

  /**
   * The deletion of history row `hid`: its scheduled activations are
   * cancelled (pre-delete), the row is removed and its meta versions lose
   * their reference to it; then (post-delete) the meta history records a
   * `-` version of the deleted row, which still refers to its id, and the
   * chain is repaired: the row of the same entity that started last before
   * the deleted one is extended to the next start, and that save runs the
   * after-save handlers of that row, which rechain the entity and resync its
   * main row. Deleting a row that is not there changes nothing.
   */
  method DeleteHistoryRecord(st: Store, hid: nat, now: Timestamp, taskName: nat -> string)
    returns (revoked: seq<string>, repaired: Option<nat>, eff: Option<nat>)
    requires st.Valid()
    modifies st`history, st`meta, st`nextMetaId, st`main
    ensures st.Valid()
    ensures (forall j :: 0 <= j < |old(st.history)| ==> old(st.history)[j].historyId != hid) ==>
      && st.history == old(st.history) && st.meta == old(st.meta) && st.main == old(st.main)
      && revoked == [] && repaired == None && eff == None
    ensures forall j :: 0 <= j < |st.history| ==> st.history[j].historyId != hid
    ensures forall nm :: nm in revoked ==>
      exists i :: 0 <= i < |old(st.meta)| && Cancels(old(st.meta)[i], hid) && old(st.meta)[i].taskName == Some(nm)
    ensures (exists j :: 0 <= j < |old(st.history)| && old(st.history)[j].historyId == hid) ==>
      forall nm :: nm in revoked <==>
        exists i :: 0 <= i < |old(st.meta)| && Cancels(old(st.meta)[i], hid) && old(st.meta)[i].taskName == Some(nm) && nm != ""
    ensures forall p :: 0 <= p < |old(st.history)| && old(st.history)[p].historyId == hid ==>
      DeletedAt(st.schema, old(st.history), old(st.meta), old(st.main), old(st.nextMetaId),
                st.history, st.meta, st.main, p, now, repaired, eff)
  {
    revoked, repaired, eff := [], None, None;
    var found := RowById(st.history, hid);
    if found.None? {
      return;
    }
    var p := found.value;
    var d := st.history[p];
    ghost var h0, m0, n0, main0 := st.history, st.meta, st.nextMetaId, st.main;
    revoked := RemoveHistoryRow(st, hid, p);
    ghost var m1 := st.meta;
    assert st.main == main0 && st.nextMetaId == n0;
    MarkDeleted(st, d, now);
    ghost var m2 := st.meta;
    var resaved, writes, scheduled;
    repaired, eff, resaved, writes, scheduled := PostDelete(st, d, now, taskName);
    DeleteOutcome(st.schema, h0, m0, main0, n0, m1, m2, st.history, st.meta, st.main, p, now, repaired, eff);
    DeletedAtUnique(st.schema, h0, m0, main0, n0, st.history, st.meta, st.main, p, now, repaired, eff);
  }

  /** The three steps of a delete, taken together, leave the tables `DeletedAt` describes. */
  lemma DeleteOutcome(schema: Schema, h0: seq<HistoryRecord>, m0: seq<MetaRecord>, main0: map<Key, Row>, id0: nat,
                      m1: seq<MetaRecord>, m2: seq<MetaRecord>,
                      h: seq<HistoryRecord>, m: seq<MetaRecord>, main: map<Key, Row>, p: nat, now: Timestamp,
                      repaired: Option<nat>, eff: Option<nat>)
    requires p < |h0|
    requires |m1| == |m0| && Detached(m0, m1, h0[p].historyId)
    requires forall i :: 0 <= i < |m1| ==> m1[i].historyRef != Some(h0[p].historyId)
    requires m2 == m1 + [MetaRecord(id0, Some(h0[p].historyId), now, None, Deleted, "", h0[p], None, NoTask)]
    requires Untouched(m2, m, None) && Untouched(m2, m, Some(h0[p].historyId))
    requires repaired.None? <==> NothingBelow(Without(h0, p), h0[p].key, h0[p].validFrom)
    requires repaired.None? ==> h == Without(h0, p) && m == m2 && main == main0 && eff == None
    requires repaired.Some? ==> && h == Rechain(Without(h0, p), h0[p].key) && ChainedFor(h, h0[p].key)
                                && Synced(schema, main0, main, h, h0[p].key, now, eff)
    ensures DeletedAt(schema, h0, m0, main0, id0, h, m, main, p, now, repaired, eff)
  {
    var hid := h0[p].historyId;
    assert Untouched(m1, m2, None);
    DetachedKept(m0, m1, m2, hid);
    DetachedKept(m0, m2, m, hid);
  }

  /**
   * The post-delete meta write for the deleted row `d`, whose versions have
   * all been detached: a new `-` version, still referring to `d` and
   * holding it, which is the only one referring to it and so stays open.
   */
  method MarkDeleted(st: Store, d: HistoryRecord, now: Timestamp)
    requires st.Valid()
    requires forall i :: 0 <= i < |st.meta| ==> st.meta[i].historyRef != Some(d.historyId)
    modifies st`meta, st`nextMetaId
    ensures st.Valid()
    ensures st.meta == old(st.meta) + [MetaRecord(old(st.nextMetaId), Some(d.historyId), now, None, Deleted, "", d, None, NoTask)]
    ensures st.nextMetaId == old(st.nextMetaId) + 1
  {
    ghost var m1, n0 := st.meta, st.nextMetaId;
    var metaId, pos, inPlace := WriteMetaVersion(st, d, Deleted, false, now);
    LoneVersionOpen(m1, MetaRecord(n0, Some(d.historyId), now, None, Deleted, "", d, None, NoTask));
  }

  /** The only version of a history row is open: rechaining leaves it as it is. */
  lemma LoneVersionOpen(m: seq<MetaRecord>, x: MetaRecord)
    requires forall i :: 0 <= i < |m| ==> m[i].historyRef != x.historyRef
    requires x.sysTo.None?
    ensures RechainMeta(m + [x], x.historyRef) == m + [x]
  {
    var m1 := m + [x];
    forall y | y in RefStamps(m1, x.historyRef) ensures y == MetaStamp(x) {
      RefStampsMembers(m1, x.historyRef, y);
    }
    assert SysTarget(m1, x) == None;
  }

  /**
   * The post-delete handlers for the deleted row `d`, which no row carries
   * any more: the chain repair, followed by the after-save handlers of the
   * row it repaired, if any. The versions that refer to no row, or to the
   * deleted one, are left as they are.
   */
  method PostDelete(st: Store, d: HistoryRecord, now: Timestamp, taskName: nat -> string)
    returns (repaired: Option<nat>, eff: Option<nat>, resaved: HistoryRecord, writes: seq<ChainWrite>, scheduled: bool)
    requires st.Valid()
    requires forall j :: 0 <= j < |st.history| ==> st.history[j].historyId != d.historyId
    modifies st`history, st`meta, st`nextMetaId, st`main
    ensures st.Valid()
    ensures forall j :: 0 <= j < |st.history| ==> st.history[j].historyId != d.historyId
    ensures Untouched(old(st.meta), st.meta, None)
    ensures Untouched(old(st.meta), st.meta, Some(d.historyId))
    ensures repaired.None? <==> NothingBelow(old(st.history), d.key, d.validFrom)
    ensures repaired.None? ==> && st.history == old(st.history) && st.meta == old(st.meta) && st.main == old(st.main)
                               && eff == None
    ensures repaired.Some? ==> && st.history == Rechain(old(st.history), d.key)
                               && ChainedFor(st.history, d.key)
                               && Synced(st.schema, old(st.main), st.main, st.history, d.key, now, eff)
    ensures repaired.Some? ==> && resaved.historyId == repaired.value
                               && (exists q :: && IsPrevious(old(st.history), d.key, d.validFrom, q)
                                               && resaved == old(st.history)[q].(validTo := NextAbove(old(st.history), d.key, d.validFrom)))
                               && SaveVersions(old(st.meta), old(st.nextMetaId), st.meta, st.nextMetaId, st.history,
                                               resaved, Changed, now, writes, taskName)
                               && SaveScheduled(old(st.meta), st.meta, resaved, now, taskName(repaired.value), scheduled)
  {
    ghost var h0, main0, m1 := st.history, st.main, st.meta;
    eff, resaved, writes, scheduled := None, d, [], false;
    repaired := RepairChain(st, d.key, d.validFrom);
    assert st.main == main0 && st.meta == m1;
    if repaired.Some? {
      var v := NextAbove(h0, d.key, d.validFrom);
      ghost var q :| && IsPrevious(h0, d.key, d.validFrom, q) && repaired.value == h0[q].historyId
                     && st.history == h0[q := h0[q].(validTo := v)];
      RechainIgnoresValidTo(h0, q, v, d.key);
      assert st.history[q].historyId == repaired.value && st.history[q].key == d.key;
      ghost var h1 := st.history;
      resaved, writes, scheduled, eff := ResaveRepaired(st, d.historyId, d.key, repaired.value, now, taskName);
      assert resaved == h1[q];
    }
  }

  /** Rechaining ignores the `valid_to` the entity's rows had before. */
  lemma RechainIgnoresValidTo(h: seq<HistoryRecord>, q: nat, v: Option<Timestamp>, k: Key)
    requires q < |h| && h[q].key == k
    ensures Rechain(h[q := h[q].(validTo := v)], k) == Rechain(h, k)
  {
    var h1 := h[q := h[q].(validTo := v)];
    assert SameSkeleton(h1, h);
    forall i | 0 <= i < |h| ensures Rechain(h1, k)[i] == Rechain(h, k)[i] {
      SkeletonTargets(h1, h, k, HistoryStamp(h1[i]));
    }
  }

  /**
   * The save of the repaired row `id` of entity `k` runs that row's
   * after-save handlers; none of them touches a version that refers to no
   * row or to the deleted row `hid`.
   */
  method ResaveRepaired(st: Store, hid: nat, k: Key, id: nat, now: Timestamp, taskName: nat -> string)
    returns (row: HistoryRecord, writes: seq<ChainWrite>, scheduled: bool, eff: Option<nat>)
    requires st.Valid()
    requires forall j :: 0 <= j < |st.history| ==> st.history[j].historyId != hid
    requires exists j :: 0 <= j < |st.history| && st.history[j].historyId == id && st.history[j].key == k
    modifies st`history, st`meta, st`nextMetaId, st`main
    ensures st.Valid()
    ensures forall j :: 0 <= j < |st.history| ==> st.history[j].historyId != hid
    ensures Untouched(old(st.meta), st.meta, None)
    ensures Untouched(old(st.meta), st.meta, Some(hid))
    ensures st.history == Rechain(old(st.history), k)
    ensures ChainedFor(st.history, k)
    ensures Synced(st.schema, old(st.main), st.main, st.history, k, now, eff)
    ensures row.historyId == id && row.key == k
    ensures forall j :: 0 <= j < |old(st.history)| && old(st.history)[j].historyId == id ==> row == old(st.history)[j]
    ensures SaveVersions(old(st.meta), old(st.nextMetaId), st.meta, st.nextMetaId, st.history, row, Changed, now, writes, taskName)
    ensures SaveScheduled(old(st.meta), st.meta, row, now, taskName(id), scheduled)
  {
    var q := RowById(st.history, id);
    row := st.history[q.value];
    assert row.key == k;
    ghost var h1, m1 := st.history, st.meta;
    var outcome;
    writes, scheduled, outcome, eff := AfterHistorySaved(st, row, Changed, now, taskName);
    DeleteFrame(h1, m1, st.meta, hid, row, writes);
    RechainKeepsIds(h1, k, hid, st.history);
  }

  /** Rechaining keeps every row's id, so an id absent before stays absent. */
  lemma RechainKeepsIds(h: seq<HistoryRecord>, k: Key, hid: nat, r: seq<HistoryRecord>)
    requires r == Rechain(h, k)
    requires forall j :: 0 <= j < |h| ==> h[j].historyId != hid
    ensures forall j :: 0 <= j < |r| ==> r[j].historyId != hid
  {
    RechainChains(h, k);
    assert forall j :: 0 <= j < |r| ==> HistoryStamp(r[j]) == HistoryStamp(h[j]);
  }

  /**
   * What deleting row `p` of `h0` promises: exactly one version refers to
   * the deleted row, the `-` version appended with the next id, holding the
   * deleted row; every earlier version of it is detached; the repair ran
   * exactly when some row of the entity started earlier; without it the
   * row is simply gone and the main table unchanged; with it the entity is
   * the remaining rows strictly chained again and its main row is
   * resynchronised.
   */
  ghost predicate DeletedAt(schema: Schema, h0: seq<HistoryRecord>, m0: seq<MetaRecord>, main0: map<Key, Row>, id0: nat,
                            h: seq<HistoryRecord>, m: seq<MetaRecord>, main: map<Key, Row>, p: nat, now: Timestamp,
                            repaired: Option<nat>, eff: Option<nat>)
    requires p < |h0|
  {
    var d := h0[p];
    && |m0| < |m|
    && m[|m0|] == MetaRecord(id0, Some(d.historyId), now, None, Deleted, "", d, None, NoTask)
    && (forall i :: 0 <= i < |m| && m[i].historyRef == Some(d.historyId) ==> i == |m0|)
    && Detached(m0, m, d.historyId)
    && (repaired.None? <==> NothingBelow(Without(h0, p), d.key, d.validFrom))
    && (repaired.None? ==> h == Without(h0, p) && |m| == |m0| + 1 && main == main0 && eff == None)
    && (repaired.Some? ==> && h == Rechain(Without(h0, p), d.key) && ChainedFor(h, d.key)
                           && Synced(schema, main0, main, h, d.key, now, eff))
  }

  /** After the delete, the after-save handlers of the repaired row never touch the versions of the deleted one or detached ones. */
  lemma DeleteFrame(h: seq<HistoryRecord>, m1: seq<MetaRecord>, m2: seq<MetaRecord>, hid: nat, row: HistoryRecord,
                    writes: seq<ChainWrite>)
    requires forall j :: 0 <= j < |h| ==> h[j].historyId != hid
    requires row in h
    requires forall w :: w in writes ==> exists x :: x in h && w.historyId == x.historyId
    requires forall r :: r != Some(row.historyId) && (forall w :: w in writes ==> r != Some(w.historyId)) ==> Untouched(m1, m2, r)
    ensures Untouched(m1, m2, Some(hid))
    ensures Untouched(m1, m2, None)
  {
  }

  /** Later saves that leave null-referenced versions alone keep the deleted row's versions detached. */
  lemma DetachedKept(m0: seq<MetaRecord>, m1: seq<MetaRecord>, m2: seq<MetaRecord>, hid: nat)
    requires Detached(m0, m1, hid) && Untouched(m1, m2, None)
    ensures Detached(m0, m2, hid)
  {
  }

  /** With distinct ids the deleted row is the only one carrying its id, so the promise holds for every such position. */
  lemma DeletedAtUnique(schema: Schema, h0: seq<HistoryRecord>, m0: seq<MetaRecord>, main0: map<Key, Row>, id0: nat,
                        h: seq<HistoryRecord>, m: seq<MetaRecord>, main: map<Key, Row>, p: nat, now: Timestamp,
                        repaired: Option<nat>, eff: Option<nat>)
    requires p < |h0| && forall i, j :: 0 <= i < j < |h0| ==> h0[i].historyId != h0[j].historyId
    requires DeletedAt(schema, h0, m0, main0, id0, h, m, main, p, now, repaired, eff)
    ensures forall q :: 0 <= q < |h0| && h0[q].historyId == h0[p].historyId ==>
      DeletedAt(schema, h0, m0, main0, id0, h, m, main, q, now, repaired, eff)
  {
    forall q | 0 <= q < |h0| && h0[q].historyId == h0[p].historyId
      ensures q == p
    {
    }
  }
}
