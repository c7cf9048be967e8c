/**
 * Level 1 writer: a history row per write of a tracked entity, stamped with
 * `valid_from` and left open (`valid_to` null).
 */
module StandardHistory {
  import opened Common
  import opened Chain
  import opened BitemporalModel

  /** The control fields the writer sets itself and never copies from the instance. */
  const ControlFields: set<string> :=
    {"valid_from", "valid_to", "history_type", "history_change_reason", "history_user", "history_user_id"}

  /** A field is skipped when either its name or its attname is a control field. */
  predicate IsControl(f: Field) {
    f.attname in ControlFields || f.name in ControlFields
  }

  /**
   * Builds the attribute map of a new history row: every included field of
   * the instance except the control fields, keyed by attname.
   */
  method CopyTrackedFields(instance: Row, included: seq<Field>) returns (attrs: Row)
    requires forall f :: f in included && !IsControl(f) ==> f.attname in instance
    ensures forall a :: a in attrs <==> exists f :: f in included && !IsControl(f) && f.attname == a
    ensures forall a :: a in attrs ==> attrs[a] == instance[a]
  {
    attrs := map[];
    var i := 0;
    while i < |included|
      invariant 0 <= i <= |included|
      invariant forall a :: a in attrs <==> exists f :: f in included[..i] && !IsControl(f) && f.attname == a
      invariant forall a :: a in attrs ==> a in instance && attrs[a] == instance[a]
    {
      var f := included[i];
      assert included[..i + 1] == included[..i] + [f];
      if !IsControl(f) {
        attrs := attrs[f.attname := instance[f.attname]];
      }
      i := i + 1;
    }
    assert included[..i] == included;
  }

  /**
   * `create_historical_record`: appends a history row for the instance.
   * `valid_from` is the instance's history date, or `now` when it has none;
   * `valid_to` starts null; the snapshot holds every included non-control field.
   */
  method CreateHistoricalRecord(st: Store, instance: Row, included: seq<Field>, htype: HistoryType,
                                historyDate: Option<Timestamp>, reason: string, now: Timestamp)
    returns (rec: HistoryRecord)
    requires st.Valid()
    requires st.schema.pk.attname in instance
    requires forall f :: f in included && !IsControl(f) ==> f.attname in instance
    modifies st`history, st`nextHistoryId
    ensures st.Valid()
    ensures st.history == old(st.history) + [rec]
    ensures st.nextHistoryId == old(st.nextHistoryId) + 1
    ensures rec.historyId == old(st.nextHistoryId)
    ensures rec.key == instance[st.schema.pk.attname]
    ensures rec.validFrom == historyDate.GetOr(now)
    ensures rec.validTo == None
    ensures rec.historyType == htype && rec.changeReason == reason
    ensures forall a :: a in rec.snapshot <==> exists f :: f in included && !IsControl(f) && f.attname == a
    ensures forall a :: a in rec.snapshot ==> rec.snapshot[a] == instance[a]
  {
    var attrs := CopyTrackedFields(instance, included);
    rec := HistoryRecord(st.nextHistoryId, instance[st.schema.pk.attname], historyDate.GetOr(now),
                         None, htype, reason, attrs);
    st.history := st.history + [rec];
    st.nextHistoryId := st.nextHistoryId + 1;
  }
}
