/**
 * The synchroniser that keeps the main table in step with the history: the
 * main row of an entity holds the version whose valid-time window covers
 * `now`, and is absent when no version covers it or that version is a
 * deletion marker.
 */
module BitemporalSync {
  import opened Common
  import opened Chain
  import opened BitemporalModel

  /**
   * Row `i` is the effective version of entity `k` at `now`: it covers `now`
   * and has the greatest `(valid_from, history_id)` among those that do.
   */
  ghost predicate IsEffective(h: seq<HistoryRecord>, k: Key, now: Timestamp, i: int) {
    && 0 <= i < |h|
    && h[i].key == k && ValidAt(h[i], now)
    && forall j :: 0 <= j < |h| && h[j].key == k && ValidAt(h[j], now) ==> AtMost(HistoryStamp(h[j]), HistoryStamp(h[i]))
  }

  /** The effective version of entity `k` at `now`, or none when no version covers `now`. */
  method FindEffective(h: seq<HistoryRecord>, k: Key, now: Timestamp) returns (e: Option<nat>)
    ensures e.Some? ==> IsEffective(h, k, now, e.value)
    ensures e.None? <==> forall j :: 0 <= j < |h| && h[j].key == k ==> !ValidAt(h[j], now)
  {
    e := None;
    var i := 0;
    while i < |h|
      invariant 0 <= i <= |h|
      invariant e.Some? ==> e.value < i && h[e.value].key == k && ValidAt(h[e.value], now)
      invariant e.Some? ==> forall j :: 0 <= j < i && h[j].key == k && ValidAt(h[j], now) ==>
        AtMost(HistoryStamp(h[j]), HistoryStamp(h[e.value]))
      invariant e.None? <==> forall j :: 0 <= j < i && h[j].key == k ==> !ValidAt(h[j], now)
    {
      if h[i].key == k && ValidAt(h[i], now) && (e.None? || Before(HistoryStamp(h[e.value]), HistoryStamp(h[i]))) {
        e := Some(i);
      }
      i := i + 1;
    }
  }

  /** With distinct history ids the effective version is unique. */
  lemma EffectiveUnique(h: seq<HistoryRecord>, k: Key, now: Timestamp, i: int, j: int)
    requires forall p, q :: 0 <= p < q < |h| ==> h[p].historyId != h[q].historyId
    requires IsEffective(h, k, now, i) && IsEffective(h, k, now, j)
    ensures i == j
  {
    assert AtMost(HistoryStamp(h[i]), HistoryStamp(h[j])) && AtMost(HistoryStamp(h[j]), HistoryStamp(h[i]));
    assert h[i].historyId == h[j].historyId;
  }

  /** Some field of the model has attname `a`. */
  predicate Listed(fields: seq<Field>, a: string) {
    exists f :: f in fields && f.attname == a
  }

  /** Field `a` is copied from the version: a model field, not the primary key, that the version has as an attribute. */
  predicate Copied(fields: seq<Field>, pkAtt: string, attrs: Row, a: string) {
    Listed(fields, a) && a != pkAtt && a in attrs
  }

  /** `row` with the version's value written into each copied field, in field order. */
  function Overlay(row: Row, fields: seq<Field>, pkAtt: string, attrs: Row): Row {
    if fields == [] then row
    else
      var r := Overlay(row, fields[..|fields| - 1], pkAtt, attrs);
      var a := fields[|fields| - 1].attname;
      if a != pkAtt && a in attrs then r[a := attrs[a]] else r
  }

  /** The overlay holds the row's fields plus the copied ones, the copied ones with the version's values. */
  lemma {:induction false} OverlayMeaning(row: Row, fields: seq<Field>, pkAtt: string, attrs: Row)
    ensures forall a :: a in Overlay(row, fields, pkAtt, attrs) <==> a in row || Copied(fields, pkAtt, attrs, a)
    ensures forall a :: a in Overlay(row, fields, pkAtt, attrs) ==>
      Overlay(row, fields, pkAtt, attrs)[a] == if Copied(fields, pkAtt, attrs, a) then attrs[a] else row[a]
  {
    if fields != [] {
      var init, f := fields[..|fields| - 1], fields[|fields| - 1];
      OverlayMeaning(row, init, pkAtt, attrs);
      assert fields == init + [f];
      OverlayStep(row, init, f, pkAtt, attrs);
      forall a ensures Listed(fields, a) <==> Listed(init, a) || f.attname == a {
        if Listed(fields, a) {
          var g :| g in fields && g.attname == a;
          if g != f {
            assert g in init;
          }
        }
      }
      assert forall a :: Copied(fields, pkAtt, attrs, a) <==>
        Copied(init, pkAtt, attrs, a) || (a == f.attname && a != pkAtt && a in attrs);
    }
  }

  /** Some copied field differs from the row, or is missing from it. */
  predicate Differs(row: Row, fields: seq<Field>, pkAtt: string, attrs: Row) {
    exists f :: f in fields && Copied(fields, pkAtt, attrs, f.attname) && (f.attname !in row || row[f.attname] != attrs[f.attname])
  }

  /** The sync reports a change exactly when the overlay is not the row it started from. */
  lemma DiffersIffChanged(row: Row, fields: seq<Field>, pkAtt: string, attrs: Row)
    ensures Differs(row, fields, pkAtt, attrs) <==> Overlay(row, fields, pkAtt, attrs) != row
  {
    OverlayMeaning(row, fields, pkAtt, attrs);
    var r := Overlay(row, fields, pkAtt, attrs);
    if Differs(row, fields, pkAtt, attrs) {
      var f :| f in fields && Copied(fields, pkAtt, attrs, f.attname) && (f.attname !in row || row[f.attname] != attrs[f.attname]);
      assert f.attname in r && r[f.attname] == attrs[f.attname];
    } else {
      forall a | a in r ensures a in row && r[a] == row[a] {
        if Copied(fields, pkAtt, attrs, a) {
          var f :| f in fields && f.attname == a;
        }
      }
      assert r.Keys == row.Keys;
    }
  }

  /**
   * The field loop of the upsert: copies each copied field of the version
   * onto the row and reports whether any of them differed.
   */
  method CopyFields(row: Row, fields: seq<Field>, pkAtt: string, attrs: Row) returns (r: Row, changed: bool)
    ensures r == Overlay(row, fields, pkAtt, attrs)
    ensures changed <==> Differs(row, fields, pkAtt, attrs)
  {
    r := row;
    changed := false;
    var i := 0;
    while i < |fields|
      invariant 0 <= i <= |fields|
      invariant r == Overlay(row, fields[..i], pkAtt, attrs)
      invariant changed <==> Differs(row, fields[..i], pkAtt, attrs)
    {
      var f := fields[i];
      var pre := fields[..i];
      assert fields[..i + 1] == pre + [f];
      OverlayStep(row, pre, f, pkAtt, attrs);
      if f.attname != pkAtt && f.attname in attrs {
        if f.attname !in r || r[f.attname] != attrs[f.attname] {
          r := r[f.attname := attrs[f.attname]];
          changed := true;
        } else {
          assert r[f.attname := attrs[f.attname]] == r;
        }
      }
      DiffersStep(row, pre, f, pkAtt, attrs);
      i := i + 1;
    }
    assert fields[..i] == fields;
  }

  /** Visiting one more field writes the version's value into it when it is copied. */
  lemma OverlayStep(row: Row, pre: seq<Field>, f: Field, pkAtt: string, attrs: Row)
    ensures Overlay(row, pre + [f], pkAtt, attrs) ==
      var r := Overlay(row, pre, pkAtt, attrs);
      if f.attname != pkAtt && f.attname in attrs then r[f.attname := attrs[f.attname]] else r
  {
    assert (pre + [f])[..|pre|] == pre;
  }

  /** Visiting one more field: it makes the row differ when it is copied and the row does not yet hold its value. */
  lemma DiffersStep(row: Row, pre: seq<Field>, f: Field, pkAtt: string, attrs: Row)
    ensures Differs(row, pre + [f], pkAtt, attrs) <==>
      Differs(row, pre, pkAtt, attrs) ||
      (f.attname != pkAtt && f.attname in attrs &&
       (f.attname !in Overlay(row, pre, pkAtt, attrs) || Overlay(row, pre, pkAtt, attrs)[f.attname] != attrs[f.attname]))
  {
    OverlayMeaning(row, pre, pkAtt, attrs);
    var fs := pre + [f];
    var a := f.attname;
    assert f in fs;
    assert forall g :: g in pre ==> g in fs;
    forall b | Listed(pre, b) ensures Listed(fs, b) {
      var g :| g in pre && g.attname == b;
      assert g in fs;
    }
    if Differs(row, fs, pkAtt, attrs) && !Differs(row, pre, pkAtt, attrs) {
      var g :| g in fs && Copied(fs, pkAtt, attrs, g.attname) && (g.attname !in row || row[g.attname] != attrs[g.attname]);
      if g in pre {
        assert Copied(pre, pkAtt, attrs, g.attname);
        assert false;
      }
      assert g == f;
      assert !Copied(pre, pkAtt, attrs, a);
    }
  }

  /** A brand-new main instance of entity `k`: the field defaults with the primary key set. */
  function NewRow(schema: Schema, k: Key): Row {
    schema.defaults[schema.pk.attname := k]
  }

  /** What one synchronisation did to the main table. */
  datatype SyncOutcome = NotResolved | Saved | Unchanged | Removed | AlreadyAbsent

  /** The effective version exists and is not a deletion marker. */
  predicate Live(h: seq<HistoryRecord>, eff: Option<nat>) {
    eff.Some? && eff.value < |h| && h[eff.value].historyType != Deleted
  }

  /**
   * The main row of entity `k` reflects history `h` at `now`: `eff` is the
   * effective version, if any, and the row (the one in `main0`, or a new one)
   * is overlaid with that version's attributes (its copied fields and its
   * control columns, `RecordAttrs`) when it is live and removed otherwise;
   * every other main row is as in `main0`.
   */
  ghost predicate Synced(schema: Schema, main0: map<Key, Row>, main: map<Key, Row>, h: seq<HistoryRecord>, k: Key,
                         now: Timestamp, eff: Option<nat>) {
    && (eff.Some? ==> IsEffective(h, k, now, eff.value))
    && (eff.None? <==> forall j :: 0 <= j < |h| && h[j].key == k ==> !ValidAt(h[j], now))
    && (Live(h, eff) ==>
          var base := if k in main0 then main0[k] else NewRow(schema, k);
          main == main0[k := Overlay(base, schema.fields, schema.pk.attname, RecordAttrs(h[eff.value]))])
    && (!Live(h, eff) ==> main == main0 - {k})
  }

  /**
   * What a synchronised live main row holds: every non-key model field the
   * effective version has as an attribute, with the version's value, and
   * otherwise the values of the row it started from.
   */
  lemma SyncedRow(schema: Schema, main0: map<Key, Row>, main: map<Key, Row>, h: seq<HistoryRecord>, k: Key,
                  now: Timestamp, eff: Option<nat>)
    requires Synced(schema, main0, main, h, k, now, eff)
    requires Live(h, eff)
    ensures k in main
    ensures var attrs := RecordAttrs(h[eff.value]);
      forall f :: f in schema.fields && f.attname != schema.pk.attname && f.attname in attrs ==>
        f.attname in main[k] && main[k][f.attname] == attrs[f.attname]
    ensures var base := if k in main0 then main0[k] else NewRow(schema, k);
      forall a :: a in main[k] <==> a in base || Copied(schema.fields, schema.pk.attname, RecordAttrs(h[eff.value]), a)
    ensures var base := if k in main0 then main0[k] else NewRow(schema, k);
      forall a :: a in base && !Copied(schema.fields, schema.pk.attname, RecordAttrs(h[eff.value]), a) ==> main[k][a] == base[a]
    ensures forall j :: j != k && j in main0 ==> j in main && main[j] == main0[j]
  {
    var base := if k in main0 then main0[k] else NewRow(schema, k);
    OverlayMeaning(base, schema.fields, schema.pk.attname, RecordAttrs(h[eff.value]));
  }

  /**
   * `sync_record_for_model` for entity `k` at `now`. Without a resolvable
   * history model nothing changes. Otherwise, when the effective version is
   * live, the main row (the existing one, or a new one from the defaults)
   * gets the version's values in every non-key field the version has as an
   * attribute (a copied field or one of its control columns) and
   * is saved only when it is new or some field differed; when there is no
   * effective version or it is a deletion marker, the main row is removed.
   * The history itself is never written.
   */
  method SyncRecordForModel(st: Store, k: Key, historyResolvable: bool, now: Timestamp)
    returns (outcome: SyncOutcome, eff: Option<nat>)
    requires st.Valid()
    modifies st`main
    ensures st.Valid()
    ensures !historyResolvable ==> outcome == NotResolved && eff == None && st.main == old(st.main)
    ensures historyResolvable ==> Synced(st.schema, old(st.main), st.main, st.history, k, now, eff)
    ensures historyResolvable && Live(st.history, eff) ==>
      var base := if k in old(st.main) then old(st.main)[k] else NewRow(st.schema, k);
      var attrs := RecordAttrs(st.history[eff.value]);
      && (outcome == Saved <==> k !in old(st.main) || Differs(base, st.schema.fields, st.schema.pk.attname, attrs))
      && (outcome == Unchanged <==> !(k !in old(st.main) || Differs(base, st.schema.fields, st.schema.pk.attname, attrs)))
    ensures historyResolvable && !Live(st.history, eff) ==> outcome == if k in old(st.main) then Removed else AlreadyAbsent
  {
    if !historyResolvable {
      return NotResolved, None;
    }
    eff := FindEffective(st.history, k, now);
    if eff.Some? && st.history[eff.value].historyType != Deleted {
      var adding := k !in st.main;
      var base := if adding then NewRow(st.schema, k) else st.main[k];
      var row, changed := CopyFields(base, st.schema.fields, st.schema.pk.attname, RecordAttrs(st.history[eff.value]));
      if changed || adding {
        st.main := st.main[k := row];
        outcome := Saved;
      } else {
        DiffersIffChanged(base, st.schema.fields, st.schema.pk.attname, RecordAttrs(st.history[eff.value]));
        assert st.main == st.main[k := row];
        outcome := Unchanged;
      }
    } else {
      outcome := if k in st.main then Removed else AlreadyAbsent;
      st.main := st.main - {k};
    }
  }
}
