/**
 * Level 2 writer: the system-time versions of each history row, either a
 * new version or, during a chaining refinement, an in-place update of the
 * open one.
 */
module MetaHistory {
  import opened Common
  import opened Chain
  import opened BitemporalModel

  /**
   * Row `i` is the latest version of history row `ref`: first in the meta
   * table's order `(-sys_from, -meta_history_id)`.
   */
  ghost predicate IsLatest(m: seq<MetaRecord>, ref: Option<nat>, i: int) {
    && 0 <= i < |m|
    && m[i].historyRef == ref
    && forall j :: 0 <= j < |m| && m[j].historyRef == ref ==> AtMost(MetaStamp(m[j]), MetaStamp(m[i]))
  }

  /** The latest version of history row `ref`, or none when it has no version yet. */
  method LatestMeta(m: seq<MetaRecord>, ref: Option<nat>) returns (r: Option<nat>)
    ensures r.Some? ==> IsLatest(m, ref, r.value)
    ensures r.None? <==> forall j :: 0 <= j < |m| ==> m[j].historyRef != ref
  {
    r := None;
    var i := 0;
    while i < |m|
      invariant 0 <= i <= |m|
      invariant r.Some? ==> r.value < i && m[r.value].historyRef == ref
      invariant r.Some? ==> forall j :: 0 <= j < i && m[j].historyRef == ref ==> AtMost(MetaStamp(m[j]), MetaStamp(m[r.value]))
      invariant r.None? <==> forall j :: 0 <= j < i ==> m[j].historyRef != ref
    {
      if m[i].historyRef == ref && (r.None? || Before(MetaStamp(m[r.value]), MetaStamp(m[i]))) {
        r := Some(i);
      }
      i := i + 1;
    }
  }

  /**
   * `create_historical_record` of the meta level, for history row `instance`.
   * With the refinement flag set and an open latest version, that version's
   * snapshot is overwritten and its `sys_from` kept; otherwise a new version
   * is appended with `sys_from` the history date (or `now`), the given type,
   * a null `sys_to` and no scheduled task. Returns the written version's id
   * and position.
   */
  method CreateMetaHistoricalRecord(st: Store, instance: HistoryRecord, mtype: HistoryType, refinement: bool,
                                    historyDate: Option<Timestamp>, reason: string, now: Timestamp)
    returns (metaId: nat, pos: nat, inPlace: bool)
    requires st.Valid()
    modifies st`meta, st`nextMetaId
    ensures st.Valid()
    ensures inPlace <==> refinement && exists i :: IsLatest(old(st.meta), Some(instance.historyId), i) && old(st.meta)[i].sysTo.None?
    ensures inPlace ==> && IsLatest(old(st.meta), Some(instance.historyId), pos)
                        && old(st.meta)[pos].sysTo.None?
                        && metaId == old(st.meta)[pos].metaId
                        && st.meta == old(st.meta)[pos := old(st.meta)[pos].(snapshot := instance)]
    ensures inPlace ==> st.nextMetaId == old(st.nextMetaId)
    ensures !inPlace ==> && metaId == old(st.nextMetaId) && pos == |old(st.meta)|
                         && st.nextMetaId == old(st.nextMetaId) + 1
                         && st.meta == old(st.meta) + [MetaRecord(metaId, Some(instance.historyId), historyDate.GetOr(now),
                                                                  None, mtype, reason, instance, None, NoTask)]
  {
    var ref := Some(instance.historyId);
    if refinement {
      var latest := LatestMeta(st.meta, ref);
      if latest.Some? && st.meta[latest.value].sysTo.None? {
        pos := latest.value;
        metaId := st.meta[pos].metaId;
        st.meta := st.meta[pos := st.meta[pos].(snapshot := instance)];
        inPlace := true;
        return;
      }
      assert forall i :: IsLatest(st.meta, ref, i) ==> st.meta[i].sysTo.Some? by {
        forall i | IsLatest(st.meta, ref, i) ensures st.meta[i].sysTo.Some? {
          var l := latest.value;
          assert AtMost(MetaStamp(st.meta[i]), MetaStamp(st.meta[l]));
          assert AtMost(MetaStamp(st.meta[l]), MetaStamp(st.meta[i]));
          assert st.meta[i].metaId == st.meta[l].metaId;
        }
      }
    }
    metaId, pos := st.nextMetaId, |st.meta|;
    st.meta := st.meta + [MetaRecord(metaId, ref, historyDate.GetOr(now), None, mtype, reason, instance, None, NoTask)];
    st.nextMetaId := st.nextMetaId + 1;
    inPlace := false;
  }
}
