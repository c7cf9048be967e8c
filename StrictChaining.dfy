/**
 * What strict chaining means for the two stores: the history rows of one
 * entity (Level 1, by `(valid_from, history_id)`) and the meta rows of one
 * history row (Level 2, by `(sys_from, meta id)`), and the facts about it
 * that the handlers in `BitemporalSignals` rely on.
 */
module StrictChaining {
  import opened Common
  import opened Chain
  import opened BitemporalModel

  // ---------------------------------------------------------------- Level 1

  /** The history rows of entity `k`, in store order. */
  function Siblings(h: seq<HistoryRecord>, k: Key): (r: seq<HistoryRecord>)
    ensures forall x :: x in r <==> x in h && x.key == k
  {
    if h == [] then []
    else
      assert h == [h[0]] + h[1..];
      (if h[0].key == k then [h[0]] else []) + Siblings(h[1..], k)
  }

  /** Distinct history ids give the siblings distinct stamps. */
  lemma {:induction false} SiblingsDistinct(h: seq<HistoryRecord>, k: Key)
    requires forall i, j :: 0 <= i < j < |h| ==> h[i].historyId != h[j].historyId
    ensures DistinctStamps(Siblings(h, k), HistoryStamp)
  {
    if h != [] {
      var tail := h[1..];
      assert forall i, j :: 0 <= i < j < |tail| ==> tail[i].historyId != tail[j].historyId by {
        forall i, j | 0 <= i < j < |tail| ensures tail[i].historyId != tail[j].historyId {
          assert tail[i] == h[i + 1] && tail[j] == h[j + 1];
        }
      }
      SiblingsDistinct(tail, k);
      if h[0].key == k {
        SiblingsConsDistinct(h, k);
      }
    }
  }

  /** The step of `SiblingsDistinct`: a first row of entity `k` has an id none of the later siblings has. */
  lemma SiblingsConsDistinct(h: seq<HistoryRecord>, k: Key)
    requires h != [] && h[0].key == k
    requires forall i, j :: 0 <= i < j < |h| ==> h[i].historyId != h[j].historyId
    requires DistinctStamps(Siblings(h[1..], k), HistoryStamp)
    ensures DistinctStamps([h[0]] + Siblings(h[1..], k), HistoryStamp)
  {
    var tail, rest := h[1..], Siblings(h[1..], k);
    var s := [h[0]] + rest;
    forall i, j | 0 <= i < j < |s| ensures HistoryStamp(s[i]) != HistoryStamp(s[j]) {
      assert s[j] == rest[j - 1];
      if i == 0 {
        var q :| 0 <= q < |tail| && tail[q] == rest[j - 1];
        assert tail[q] == h[q + 1];
      } else {
        assert s[i] == rest[i - 1];
      }
    }
  }

  /** The stamps of the history rows of entity `k`. */
  function KeyStamps(h: seq<HistoryRecord>, k: Key): seq<Stamp> {
    Stamps(Siblings(h, k), HistoryStamp)
  }

  lemma KeyStampsMembers(h: seq<HistoryRecord>, k: Key, y: Stamp)
    ensures y in KeyStamps(h, k) <==> exists i :: 0 <= i < |h| && h[i].key == k && HistoryStamp(h[i]) == y
  {
    var s := Siblings(h, k);
    if y in KeyStamps(h, k) {
      var p :| 0 <= p < |s| && KeyStamps(h, k)[p] == y;
      assert s[p] in h;
    }
    if exists i :: 0 <= i < |h| && h[i].key == k && HistoryStamp(h[i]) == y {
      var i :| 0 <= i < |h| && h[i].key == k && HistoryStamp(h[i]) == y;
      assert h[i] in s;
      var p :| 0 <= p < |s| && s[p] == h[i];
      assert KeyStamps(h, k)[p] == y;
    }
  }

  /** The `valid_to` strict chaining gives a row: the `valid_from` of the next row of its entity. */
  function ChainTarget(h: seq<HistoryRecord>, r: HistoryRecord): Option<Timestamp> {
    NextStart(KeyStamps(h, r.key), HistoryStamp(r))
  }

  /** Every row of entity `k` ends where the next one starts; the last one is open. */
  ghost predicate ChainedFor(h: seq<HistoryRecord>, k: Key) {
    forall i :: 0 <= i < |h| && h[i].key == k ==> h[i].validTo == ChainTarget(h, h[i])
  }

  /** The history after strict chaining of entity `k`. */
  function Rechain(h: seq<HistoryRecord>, k: Key): (r: seq<HistoryRecord>)
    ensures |r| == |h|
  {
    seq(|h|, i requires 0 <= i < |h| =>
      if h[i].key == k then h[i].(validTo := ChainTarget(h, h[i])) else h[i])
  }

  /** Two histories that differ at most in `valid_to`. */
  ghost predicate SameSkeleton(h1: seq<HistoryRecord>, h2: seq<HistoryRecord>) {
    && |h1| == |h2|
    && forall i :: 0 <= i < |h1| ==> h1[i].key == h2[i].key && HistoryStamp(h1[i]) == HistoryStamp(h2[i])
  }

  /** Chaining targets depend only on keys and stamps, never on the current `valid_to` values. */
  lemma SkeletonTargets(h1: seq<HistoryRecord>, h2: seq<HistoryRecord>, k: Key, x: Stamp)
    requires SameSkeleton(h1, h2)
    ensures NextStart(KeyStamps(h1, k), x) == NextStart(KeyStamps(h2, k), x)
  {
    forall y ensures y in KeyStamps(h1, k) <==> y in KeyStamps(h2, k) {
      KeyStampsMembers(h1, k, y);
      KeyStampsMembers(h2, k, y);
    }
    NextStartSameMembers(KeyStamps(h1, k), KeyStamps(h2, k), x);
  }

  /** After chaining entity `k`, its rows are strictly chained, and rows of other entities are untouched. */
  lemma RechainChains(h: seq<HistoryRecord>, k: Key)
    ensures ChainedFor(Rechain(h, k), k)
    ensures forall i :: 0 <= i < |h| && h[i].key != k ==> Rechain(h, k)[i] == h[i]
    ensures SameSkeleton(Rechain(h, k), h)
  {
    var r := Rechain(h, k);
    forall i | 0 <= i < |r| && r[i].key == k ensures r[i].validTo == ChainTarget(r, r[i]) {
      SkeletonTargets(r, h, k, HistoryStamp(r[i]));
    }
  }

  /** Chaining is idempotent: a chained entity is a fixpoint, and only a chained one. */
  lemma ChainedIsFixpoint(h: seq<HistoryRecord>, k: Key)
    ensures ChainedFor(h, k) <==> Rechain(h, k) == h
    ensures Rechain(Rechain(h, k), k) == Rechain(h, k)
  {
    if ChainedFor(h, k) {
      ChainedFixed(h, k);
    }
    if Rechain(h, k) == h {
      FixedChained(h, k);
    }
    RechainChains(h, k);
    ChainedFixed(Rechain(h, k), k);
  }

  /** A strictly chained entity is left as it is by chaining. */
  lemma ChainedFixed(h: seq<HistoryRecord>, k: Key)
    requires ChainedFor(h, k)
    ensures Rechain(h, k) == h
  {
    var r := Rechain(h, k);
    forall i | 0 <= i < |h| ensures r[i] == h[i] {
      if h[i].key == k {
        assert h[i].validTo == ChainTarget(h, h[i]);
      }
    }
  }

  /** An entity that chaining leaves as it is was strictly chained. */
  lemma FixedChained(h: seq<HistoryRecord>, k: Key)
    requires Rechain(h, k) == h
    ensures ChainedFor(h, k)
  {
    forall i | 0 <= i < |h| && h[i].key == k ensures h[i].validTo == ChainTarget(h, h[i]) {
      assert Rechain(h, k)[i] == h[i];
    }
  }

  /**
   * In a strictly chained entity at most one row is valid at any instant,
   * so the "exactly one effective version" of an entity is well defined.
   */
  lemma AtMostOneValid(h: seq<HistoryRecord>, k: Key, i: nat, j: nat, t: Timestamp)
    requires forall p, q :: 0 <= p < q < |h| ==> h[p].historyId != h[q].historyId
    requires ChainedFor(h, k)
    requires i < |h| && j < |h| && i != j && h[i].key == k && h[j].key == k
    ensures !(ValidAt(h[i], t) && ValidAt(h[j], t))
  {
    KeyStampsMembers(h, k, HistoryStamp(h[i]));
    KeyStampsMembers(h, k, HistoryStamp(h[j]));
    assert HistoryStamp(h[i]) != HistoryStamp(h[j]) by {
      if i < j { assert h[i].historyId != h[j].historyId; }
      else { assert h[j].historyId != h[i].historyId; }
    }
    WindowsDisjoint(KeyStamps(h, k), HistoryStamp(h[i]), HistoryStamp(h[j]), t);
  }

  // ---------------------------------------------------------------- Level 2

  /** The meta rows describing history row `ref` (null: rows whose history row is gone). */
  function MetaSiblings(m: seq<MetaRecord>, ref: Option<nat>): (r: seq<MetaRecord>)
    ensures forall x :: x in r <==> x in m && x.historyRef == ref
  {
    if m == [] then []
    else
      assert m == [m[0]] + m[1..];
      (if m[0].historyRef == ref then [m[0]] else []) + MetaSiblings(m[1..], ref)
  }

  /** Distinct meta ids give the siblings distinct stamps. */
  lemma {:induction false} MetaSiblingsDistinct(m: seq<MetaRecord>, ref: Option<nat>)
    requires forall i, j :: 0 <= i < j < |m| ==> m[i].metaId != m[j].metaId
    ensures DistinctStamps(MetaSiblings(m, ref), MetaStamp)
  {
    if m != [] {
      var tail := m[1..];
      assert forall i, j :: 0 <= i < j < |tail| ==> tail[i].metaId != tail[j].metaId by {
        forall i, j | 0 <= i < j < |tail| ensures tail[i].metaId != tail[j].metaId {
          assert tail[i] == m[i + 1] && tail[j] == m[j + 1];
        }
      }
      MetaSiblingsDistinct(tail, ref);
      if m[0].historyRef == ref {
        MetaSiblingsConsDistinct(m, ref);
      }
    }
  }

  /** The step of `MetaSiblingsDistinct`: a first meta row of `ref` has an id none of the later siblings has. */
  lemma MetaSiblingsConsDistinct(m: seq<MetaRecord>, ref: Option<nat>)
    requires m != [] && m[0].historyRef == ref
    requires forall i, j :: 0 <= i < j < |m| ==> m[i].metaId != m[j].metaId
    requires DistinctStamps(MetaSiblings(m[1..], ref), MetaStamp)
    ensures DistinctStamps([m[0]] + MetaSiblings(m[1..], ref), MetaStamp)
  {
    var tail, rest := m[1..], MetaSiblings(m[1..], ref);
    var s := [m[0]] + rest;
    forall i, j | 0 <= i < j < |s| ensures MetaStamp(s[i]) != MetaStamp(s[j]) {
      assert s[j] == rest[j - 1];
      if i == 0 {
        var q :| 0 <= q < |tail| && tail[q] == rest[j - 1];
        assert tail[q] == m[q + 1];
      } else {
        assert s[i] == rest[i - 1];
      }
    }
  }

  function RefStamps(m: seq<MetaRecord>, ref: Option<nat>): seq<Stamp> {
    Stamps(MetaSiblings(m, ref), MetaStamp)
  }

  lemma RefStampsMembers(m: seq<MetaRecord>, ref: Option<nat>, y: Stamp)
    ensures y in RefStamps(m, ref) <==> exists i :: 0 <= i < |m| && m[i].historyRef == ref && MetaStamp(m[i]) == y
  {
    var s := MetaSiblings(m, ref);
    if y in RefStamps(m, ref) {
      var p :| 0 <= p < |s| && RefStamps(m, ref)[p] == y;
      assert s[p] in m;
    }
    if exists i :: 0 <= i < |m| && m[i].historyRef == ref && MetaStamp(m[i]) == y {
      var i :| 0 <= i < |m| && m[i].historyRef == ref && MetaStamp(m[i]) == y;
      assert m[i] in s;
      var p :| 0 <= p < |s| && s[p] == m[i];
      assert RefStamps(m, ref)[p] == y;
    }
  }

  /** The `sys_to` strict chaining gives a meta row: the `sys_from` of the next version. */
  function SysTarget(m: seq<MetaRecord>, x: MetaRecord): Option<Timestamp> {
    NextStart(RefStamps(m, x.historyRef), MetaStamp(x))
  }

  ghost predicate MetaChainedFor(m: seq<MetaRecord>, ref: Option<nat>) {
    forall i :: 0 <= i < |m| && m[i].historyRef == ref ==> m[i].sysTo == SysTarget(m, m[i])
  }

  function RechainMeta(m: seq<MetaRecord>, ref: Option<nat>): (r: seq<MetaRecord>)
    ensures |r| == |m|
  {
    seq(|m|, i requires 0 <= i < |m| =>
      if m[i].historyRef == ref then m[i].(sysTo := SysTarget(m, m[i])) else m[i])
  }

  /** Two meta tables that differ at most in `sys_to`, snapshots and task bookkeeping. */
  ghost predicate SameMetaSkeleton(m1: seq<MetaRecord>, m2: seq<MetaRecord>) {
    && |m1| == |m2|
    && forall i :: 0 <= i < |m1| ==> m1[i].historyRef == m2[i].historyRef && MetaStamp(m1[i]) == MetaStamp(m2[i])
  }

  lemma MetaSkeletonTargets(m1: seq<MetaRecord>, m2: seq<MetaRecord>, ref: Option<nat>, x: Stamp)
    requires SameMetaSkeleton(m1, m2)
    ensures NextStart(RefStamps(m1, ref), x) == NextStart(RefStamps(m2, ref), x)
  {
    forall y ensures y in RefStamps(m1, ref) <==> y in RefStamps(m2, ref) {
      RefStampsMembers(m1, ref, y);
      RefStampsMembers(m2, ref, y);
    }
    NextStartSameMembers(RefStamps(m1, ref), RefStamps(m2, ref), x);
  }

  /** After chaining the versions of `ref`, they are strictly chained; other rows are untouched. */
  lemma RechainMetaChains(m: seq<MetaRecord>, ref: Option<nat>)
    ensures MetaChainedFor(RechainMeta(m, ref), ref)
    ensures forall i :: 0 <= i < |m| && m[i].historyRef != ref ==> RechainMeta(m, ref)[i] == m[i]
    ensures SameMetaSkeleton(RechainMeta(m, ref), m)
  {
    var r := RechainMeta(m, ref);
    forall i | 0 <= i < |r| && r[i].historyRef == ref ensures r[i].sysTo == SysTarget(r, r[i]) {
      MetaSkeletonTargets(r, m, ref, MetaStamp(r[i]));
    }
  }

  /** At most one version of a history row is current knowledge at any instant. */
  lemma AtMostOneKnown(m: seq<MetaRecord>, ref: Option<nat>, i: nat, j: nat, t: Timestamp)
    requires forall p, q :: 0 <= p < q < |m| ==> m[p].metaId != m[q].metaId
    requires MetaChainedFor(m, ref)
    requires i < |m| && j < |m| && i != j && m[i].historyRef == ref && m[j].historyRef == ref
    ensures !(KnownAt(m[i], t) && KnownAt(m[j], t))
  {
    RefStampsMembers(m, ref, MetaStamp(m[i]));
    RefStampsMembers(m, ref, MetaStamp(m[j]));
    assert MetaStamp(m[i]) != MetaStamp(m[j]) by {
      if i < j { assert m[i].metaId != m[j].metaId; }
      else { assert m[j].metaId != m[i].metaId; }
    }
    WindowsDisjoint(RefStamps(m, ref), MetaStamp(m[i]), MetaStamp(m[j]), t);
  }

  /**
   * `m2` keeps every version of `ref` found in `m1` at its place with its
   * window, and adds no new version of `ref`.
   */
  ghost predicate KeepsVersions(m1: seq<MetaRecord>, m2: seq<MetaRecord>, ref: Option<nat>) {
    && |m1| <= |m2|
    && (forall i :: 0 <= i < |m1| ==> (m1[i].historyRef == ref <==> m2[i].historyRef == ref))
    && (forall i :: 0 <= i < |m1| && m1[i].historyRef == ref ==>
          m2[i].sysTo == m1[i].sysTo && MetaStamp(m2[i]) == MetaStamp(m1[i]))
    && (forall i :: |m1| <= i < |m2| ==> m2[i].historyRef != ref)
  }

  /** Writes that keep the versions of `ref` keep them strictly chained. */
  lemma KeepsChained(m1: seq<MetaRecord>, m2: seq<MetaRecord>, ref: Option<nat>)
    requires KeepsVersions(m1, m2, ref) && MetaChainedFor(m1, ref)
    ensures MetaChainedFor(m2, ref)
  {
    forall y ensures y in RefStamps(m1, ref) <==> y in RefStamps(m2, ref) {
      RefStampsMembers(m1, ref, y);
      RefStampsMembers(m2, ref, y);
    }
    forall i | 0 <= i < |m2| && m2[i].historyRef == ref ensures m2[i].sysTo == SysTarget(m2, m2[i]) {
      NextStartSameMembers(RefStamps(m1, ref), RefStamps(m2, ref), MetaStamp(m2[i]));
    }
  }
}
