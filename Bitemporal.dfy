/**
 * The query and repair helpers on top of the three tables: time-travel
 * queries at a valid time or at a system time, and the re-creation of a
 * deleted entity with a chosen validity window.
 */
module Bitemporal {
  import opened Common
  import opened Chain
  import opened BitemporalModel
  import opened StrictChaining
  import opened StandardHistory
  import opened BitemporalSync
  import opened BitemporalSignals
  import opened HistoryPipeline

  /**
   * The valid-time query, as a set of rows: the history rows whose window
   * `[valid_from, valid_to)` contains `t`, deletion markers excluded. The
   * queryset's `(-valid_from, -history_id)` order is not part of it.
   */
  function AsOfValid(h: seq<HistoryRecord>, t: Timestamp): (r: seq<HistoryRecord>)
    ensures |r| <= |h|
    ensures forall x :: x in r <==> x in h && ValidAt(x, t) && x.historyType != Deleted
  {
    if h == [] then []
    else
      var init, x := h[..|h| - 1], h[|h| - 1];
      assert h == init + [x];
      var rest := AsOfValid(init, t);
      if ValidAt(x, t) && x.historyType != Deleted then rest + [x] else rest
  }

  /**
   * The system-time query, as a set of rows: the meta rows whose window
   * `[sys_from, sys_to)` contains `t`. The `(-sys_from, -meta_history_id)`
   * order is not part of it.
   */
  function AsOfSystem(m: seq<MetaRecord>, t: Timestamp): (r: seq<MetaRecord>)
    ensures |r| <= |m|
    ensures forall x :: x in r <==> x in m && KnownAt(x, t)
  {
    if m == [] then []
    else
      var init, x := m[..|m| - 1], m[|m| - 1];
      assert m == init + [x];
      var rest := AsOfSystem(init, t);
      if KnownAt(x, t) then rest + [x] else rest
  }

  /** What a model class offers: a `history` manager, a `history_id` field, a `meta_history` manager. */
  datatype ModelKind = ModelKind(hasHistory: bool, hasHistoryId: bool, hasMetaHistory: bool)

  /** The two `ValueError`s of the query helper. */
  datatype QueryError = NoMetaHistory | NotTracked

  /** The answer of a time-travel query: history rows, meta rows, or an error. */
  datatype AsOf = ValidTime(versions: seq<HistoryRecord>) | SystemTime(known: seq<MetaRecord>) | Failed(err: QueryError)

  /**
   * `get_queryset_as_of`: a main model (a history manager and no history id)
   * is queried in valid time, a history model in system time when it has
   * meta-history tracking; anything else is an error.
   */
  function GetQuerysetAsOf(kind: ModelKind, h: seq<HistoryRecord>, m: seq<MetaRecord>, t: Timestamp): (r: AsOf)
    ensures r.ValidTime? <==> kind.hasHistory && !kind.hasHistoryId
    ensures r.SystemTime? <==> kind.hasHistoryId && kind.hasMetaHistory
    ensures r == Failed(NoMetaHistory) <==> kind.hasHistoryId && !kind.hasMetaHistory
    ensures r == Failed(NotTracked) <==> !kind.hasHistory && !kind.hasHistoryId
    ensures r.ValidTime? ==> forall x :: x in r.versions <==> x in h && ValidAt(x, t) && x.historyType != Deleted
    ensures r.SystemTime? ==> forall x :: x in r.known <==> x in m && KnownAt(x, t)
  {
    if kind.hasHistory && !kind.hasHistoryId then ValidTime(AsOfValid(h, t))
    else if kind.hasHistoryId then
      if kind.hasMetaHistory then SystemTime(AsOfSystem(m, t)) else Failed(NoMetaHistory)
    else Failed(NotTracked)
  }

  /** Two rows of a strictly chained entity that are both valid at `t` are the same row. */
  lemma ValidUnique(h: seq<HistoryRecord>, k: Key, i: nat, j: nat, t: Timestamp)
    requires forall p, q :: 0 <= p < q < |h| ==> h[p].historyId != h[q].historyId
    requires ChainedFor(h, k)
    requires i < |h| && j < |h| && h[i].key == k && h[j].key == k
    requires ValidAt(h[i], t) && ValidAt(h[j], t)
    ensures i == j
  {
    if i != j {
      AtMostOneValid(h, k, i, j, t);
    }
  }

  /**
   * Once an entity is strictly chained, its synchronised main row agrees with
   * the valid-time query: the effective version is live exactly when the
   * query returns a row of the entity, and then it is the only such row.
   */
  lemma SyncAgreesWithAsOf(h: seq<HistoryRecord>, k: Key, t: Timestamp, eff: Option<nat>)
    requires forall p, q :: 0 <= p < q < |h| ==> h[p].historyId != h[q].historyId
    requires ChainedFor(h, k)
    requires eff.Some? ==> IsEffective(h, k, t, eff.value)
    requires eff.None? <==> forall j :: 0 <= j < |h| && h[j].key == k ==> !ValidAt(h[j], t)
    ensures Live(h, eff) <==> exists x :: x in AsOfValid(h, t) && x.key == k
    ensures Live(h, eff) ==> forall x :: x in AsOfValid(h, t) && x.key == k ==> x == h[eff.value]
  {
    var r := AsOfValid(h, t);
    if Live(h, eff) {
      assert h[eff.value] in r;
    }
    forall x | x in r && x.key == k ensures eff.Some? && x == h[eff.value] {
      var j :| 0 <= j < |h| && h[j] == x;
      ValidUnique(h, k, j, eff.value, t);
    }
  }

  /** A main instance built as `model_class(pk=k, **attributes)`: field defaults, then the attributes, then the key. */
  function Instance(schema: Schema, k: Key, attributes: Row): Row {
    (schema.defaults + attributes)[schema.pk.attname := k]
  }

  /** A synchronisation right after the main row was saved starts from that saved row. */
  lemma SyncedAfterSave(schema: Schema, main0: map<Key, Row>, k: Key, inst: Row, main: map<Key, Row>,
                        h: seq<HistoryRecord>, now: Timestamp, eff: Option<nat>)
    requires Synced(schema, main0[k := inst], main, h, k, now, eff)
    ensures main == if Live(h, eff)
                    then main0[k := Overlay(inst, schema.fields, schema.pk.attname, RecordAttrs(h[eff.value]))]
                    else main0 - {k}
  {
    if !Live(h, eff) {
      assert main0[k := inst] - {k} == main0 - {k};
    }
  }

  /** `objects.create` on the history model: a history row with the next id, saved as given. */
  method InsertHistoryRow(st: Store, k: Key, vf: Timestamp, htype: HistoryType, snap: Row) returns (rec: HistoryRecord)
    requires st.Valid()
    modifies st`history, st`nextHistoryId
    ensures st.Valid()
    ensures rec == HistoryRecord(old(st.nextHistoryId), k, vf, None, htype, "", snap)
    ensures st.history == old(st.history) + [rec]
    ensures st.nextHistoryId == old(st.nextHistoryId) + 1
  {
    rec := HistoryRecord(st.nextHistoryId, k, vf, None, htype, "", snap);
    st.history := st.history + [rec];
    st.nextHistoryId := st.nextHistoryId + 1;
  }

  /**
   * The deletion marker that closes a resurrected entity's validity:
   * `objects.create` of a `-` row at `validTo` on the history model, then the
   * handlers that run after a history save.
   */
  method InsertMarker(st: Store, k: Key, validTo: Timestamp, snap: Row, now: Timestamp, taskName: nat -> string)
    returns (d: HistoryRecord, writes: seq<ChainWrite>, scheduled: bool, eff: Option<nat>)
    requires st.Valid()
    modifies st`history, st`nextHistoryId, st`meta, st`nextMetaId, st`main
    ensures st.Valid()
    ensures d == HistoryRecord(old(st.nextHistoryId), k, validTo, None, Deleted, "", snap)
    ensures st.history == Rechain(old(st.history) + [d], k)
    ensures ChainedFor(st.history, k)
    ensures SaveVersions(old(st.meta), old(st.nextMetaId), st.meta, st.nextMetaId, st.history, d, Created, now, writes, taskName)
    ensures SaveScheduled(old(st.meta), st.meta, d, now, taskName(d.historyId), scheduled)
    ensures Synced(st.schema, old(st.main), st.main, st.history, k, now, eff)
    ensures st.main - {k} == old(st.main) - {k}
  {
    ghost var main0 := st.main;
    d := InsertHistoryRow(st, k, validTo, Deleted, snap);
    assert st.main == main0;
    var outcome;
    writes, scheduled, outcome, eff := AfterHistorySaved(st, d, Created, now, taskName);
    SyncedKeepsOthers(st.schema, main0, st.main, st.history, k, now, eff);
  }

  /**
   * `resurrect_object`: saves the main instance with the given attributes
   * (an update when entity `k` still has a main row, an insert otherwise).
   * For a tracked model that save records a version valid from `validFrom`,
   * and an end of validity adds a deletion marker starting there; each
   * history save runs the after-save handlers, the synchronisation of the
   * main row among them. `effFirst` and `eff` are the effective versions
   * those two synchronisations found; `writes` and `scheduled` are the
   * rewrites and the scheduling of the version's save, `markerWrites` and
   * `markerScheduled` those of the marker's, and `meta1`, `metaId1` the meta
   * table and next meta id between the two saves. The entity ends strictly
   * chained and its main row agrees with the valid-time query at `now`.
   */
  method ResurrectObject(st: Store, k: Key, validFrom: Timestamp, attributes: Row, validTo: Option<Timestamp>,
                         tracked: bool, now: Timestamp, taskName: nat -> string)
    returns (version: Option<HistoryRecord>, marker: Option<HistoryRecord>, effFirst: Option<nat>, eff: Option<nat>,
             writes: seq<ChainWrite>, scheduled: bool, markerWrites: seq<ChainWrite>, markerScheduled: bool,
             ghost meta1: seq<MetaRecord>, ghost metaId1: nat)
    requires st.Valid()
    requires forall f :: f in st.schema.fields ==> f.attname in st.schema.defaults
    modifies st`history, st`nextHistoryId, st`meta, st`nextMetaId, st`main
    ensures st.Valid()
    ensures !tracked ==> && version.None? && marker.None?
                         && st.history == old(st.history) && st.meta == old(st.meta)
                         && st.main == old(st.main)[k := Instance(st.schema, k, attributes)]
    ensures version.Some? <==> tracked
    ensures marker.Some? <==> tracked && validTo.Some?
    ensures version.Some? ==>
      && version.value.key == k && version.value.validFrom == validFrom
      && version.value.historyType == (if k in old(st.main) then Changed else Created)
      && (forall a :: a in version.value.snapshot <==> exists f :: f in st.schema.fields && !IsControl(f) && f.attname == a)
      && forall a :: a in version.value.snapshot ==>
           a in Instance(st.schema, k, attributes) && version.value.snapshot[a] == Instance(st.schema, k, attributes)[a]
    ensures marker.Some? ==>
      && marker.value.key == k && marker.value.validFrom == validTo.value
      && marker.value.historyType == Deleted && marker.value.snapshot == version.value.snapshot
    ensures version.Some? && marker.None? ==> st.history == Rechain(old(st.history) + [version.value], k)
    ensures marker.Some? ==>
      st.history == Rechain(Rechain(old(st.history) + [version.value], k) + [marker.value], k)
    ensures version.Some? && marker.None? ==>
      Synced(st.schema, old(st.main)[k := Instance(st.schema, k, attributes)], st.main, st.history, k, now, eff)
    ensures marker.Some? ==>
      var inst := Instance(st.schema, k, attributes);
      var h1 := Rechain(old(st.history) + [version.value], k);
      var main1 := if Live(h1, effFirst)
                   then old(st.main)[k := Overlay(inst, st.schema.fields, st.schema.pk.attname, RecordAttrs(h1[effFirst.value]))]
                   else old(st.main) - {k};
      && Synced(st.schema, old(st.main)[k := inst], main1, h1, k, now, effFirst)
      && Synced(st.schema, main1, st.main, st.history, k, now, eff)
    ensures version.Some? ==>
      && SaveVersions(old(st.meta), old(st.nextMetaId), meta1, metaId1, Rechain(old(st.history) + [version.value], k),
                      version.value, Created, now, writes, taskName)
      && SaveScheduled(old(st.meta), meta1, version.value, now, taskName(version.value.historyId), scheduled)
    ensures version.Some? && marker.None? ==> st.meta == meta1 && st.nextMetaId == metaId1
    ensures marker.Some? ==>
      && SaveVersions(meta1, metaId1, st.meta, st.nextMetaId, st.history, marker.value, Created, now, markerWrites, taskName)
      && SaveScheduled(meta1, st.meta, marker.value, now, taskName(marker.value.historyId), markerScheduled)
    ensures tracked ==> ChainedFor(st.history, k)
    ensures tracked ==> (k in st.main <==> exists x :: x in AsOfValid(st.history, now) && x.key == k)
    ensures tracked ==> st.main - {k} == old(st.main) - {k}
  {
    version, marker, effFirst, eff := None, None, None, None;
    writes, scheduled, markerWrites, markerScheduled := [], false, [], false;
    meta1, metaId1 := st.meta, st.nextMetaId;
    var inst := Instance(st.schema, k, attributes);
    var htype := if k in st.main then Changed else Created;
    ghost var main0 := st.main;
    st.main := st.main[k := inst];
    if !tracked {
      return;
    }
    var rec, m;
    rec, m, effFirst, eff, writes, scheduled, markerWrites, markerScheduled, meta1, metaId1 :=
      SaveResurrected(st, k, inst, htype, validFrom, validTo, now, taskName, main0);
    version, marker := Some(rec), m;
  }

  /**
   * The history side of a tracked `resurrect_object`, once the instance
   * `inst` is in the main table: the version's save with its after-save
   * handlers and, for an end of validity, the marker's.
   */
  method SaveResurrected(st: Store, k: Key, inst: Row, htype: HistoryType, validFrom: Timestamp, validTo: Option<Timestamp>,
                         now: Timestamp, taskName: nat -> string, ghost main0: map<Key, Row>)
    returns (rec: HistoryRecord, marker: Option<HistoryRecord>, effFirst: Option<nat>, eff: Option<nat>,
             writes: seq<ChainWrite>, scheduled: bool, markerWrites: seq<ChainWrite>, markerScheduled: bool,
             ghost meta1: seq<MetaRecord>, ghost metaId1: nat)
    requires st.Valid()
    requires st.schema.pk.attname in inst && inst[st.schema.pk.attname] == k
    requires forall f :: f in st.schema.fields ==> f.attname in inst
    requires st.main == main0[k := inst]
    modifies st`history, st`nextHistoryId, st`meta, st`nextMetaId, st`main
    ensures st.Valid()
    ensures marker.Some? <==> validTo.Some?
    ensures rec.key == k && rec.validFrom == validFrom && rec.historyType == htype
    ensures forall a :: a in rec.snapshot <==> exists f :: f in st.schema.fields && !IsControl(f) && f.attname == a
    ensures forall a :: a in rec.snapshot ==> rec.snapshot[a] == inst[a]
    ensures marker.Some? ==>
      && marker.value.key == k && marker.value.validFrom == validTo.value
      && marker.value.historyType == Deleted && marker.value.snapshot == rec.snapshot
    ensures marker.None? ==> st.history == Rechain(old(st.history) + [rec], k)
    ensures marker.Some? ==> st.history == Rechain(Rechain(old(st.history) + [rec], k) + [marker.value], k)
    ensures marker.None? ==> Synced(st.schema, main0[k := inst], st.main, st.history, k, now, eff)
    ensures marker.Some? ==>
      var h1 := Rechain(old(st.history) + [rec], k);
      var main1 := if Live(h1, effFirst)
                   then main0[k := Overlay(inst, st.schema.fields, st.schema.pk.attname, RecordAttrs(h1[effFirst.value]))]
                   else main0 - {k};
      && Synced(st.schema, main0[k := inst], main1, h1, k, now, effFirst)
      && Synced(st.schema, main1, st.main, st.history, k, now, eff)
    ensures SaveVersions(old(st.meta), old(st.nextMetaId), meta1, metaId1, Rechain(old(st.history) + [rec], k),
                         rec, Created, now, writes, taskName)
    ensures SaveScheduled(old(st.meta), meta1, rec, now, taskName(rec.historyId), scheduled)
    ensures marker.None? ==> st.meta == meta1 && st.nextMetaId == metaId1
    ensures marker.Some? ==>
      && SaveVersions(meta1, metaId1, st.meta, st.nextMetaId, st.history, marker.value, Created, now, markerWrites, taskName)
      && SaveScheduled(meta1, st.meta, marker.value, now, taskName(marker.value.historyId), markerScheduled)
    ensures ChainedFor(st.history, k)
    ensures k in st.main <==> exists x :: x in AsOfValid(st.history, now) && x.key == k
    ensures st.main - {k} == main0 - {k}
  {
    marker, markerWrites, markerScheduled := None, [], false;
    ghost var main1 := st.main;
    rec, writes, scheduled, eff := RecordVersion(st, inst, st.schema.fields, htype, Some(validFrom), "", now, taskName);
    effFirst := eff;
    meta1, metaId1 := st.meta, st.nextMetaId;
    OthersKept(main0, main1, k, inst);
    if validTo.Some? {
      SyncedAfterSave(st.schema, main0, k, inst, st.main, st.history, now, eff);
      var d;
      d, markerWrites, markerScheduled, eff := InsertMarker(st, k, validTo.value, rec.snapshot, now, taskName);
      marker := Some(d);
    }
    SyncAgreesWithAsOf(st.history, k, now, eff);
  }
}
